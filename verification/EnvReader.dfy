/** cmd/kaienv: the second reader of the same store, and when it agrees with BuildCmdEnv. */
module EnvReader {
  import opened Outcomes
  import opened Text
  import opened Values
  import opened KeyGrammar
  import opened StoreKeys
  import opened CommandEnv
  import opened EnvMeaning

  /** Go's `%v` of a value; `show` prints what is neither a string, a boolean nor a json.Number. */
  function Sprint(show: Value -> string, v: Value): string {
    match v
    case Str(s) => s
    case Bool(b) => if b then "true" else "false"
    case JsonNumber(literal) => literal
    case _ => show(v)
  }

  function EnvValueToString(show: Value -> string, v: Value): string {
    if v.Str? then "\"" + v.s + "\"" else Sprint(show, v)
  }

  /** The map after every entry has overwritten what was there. */
  function Overwritten(entries: seq<Entry>): Entries {
    if entries == [] then map[]
    else Overwritten(entries[..|entries| - 1])[entries[|entries| - 1].key := entries[|entries| - 1].value]
  }

  lemma {:induction false} OverwrittenConcat(a: seq<Entry>, b: seq<Entry>)
    ensures Overwritten(a + b) == Overwritten(a) + Overwritten(b)
    decreases |b|
  {
    if b == [] {
      assert a + b == a;
    } else {
      assert (a + b)[..|a + b| - 1] == a + b[..|b| - 1];
      OverwrittenConcat(a, b[..|b| - 1]);
    }
  }

  method ReadAllEnv(appNames: string, scopes: string, store: (nat, Key) -> Visit) returns (env: Option<Entries>)
    ensures var visits := Asked(store, Pairs(Split(appNames, ","), Split(scopes, ",")));
            env == if Fails in visits then None else Some(Overwritten(Visited(visits)))
  {
    var apps, scopeList := Split(appNames, ","), Split(scopes, ",");
    var all: Entries := map[];
    var i := 0;
    while i < |apps|
      invariant 0 <= i <= |apps|
      invariant Gathered(all, Asked(store, KeysUpTo(apps, scopeList, i, 0)))
    {
      var read := ReadApp(all, store, apps, i, scopeList);
      if read.None? {
        return None;
      }
      all := read.value;
      i := i + 1;
    }
    return Some(all);
  }

  /** The loop over the scopes of one app. */
  method ReadApp(env: Entries, store: (nat, Key) -> Visit, apps: seq<string>, i: nat, scopes: seq<string>)
    returns (all: Option<Entries>)
    requires i < |apps| && Gathered(env, Asked(store, KeysUpTo(apps, scopes, i, 0)))
    ensures match all
            case Some(e) => Gathered(e, Asked(store, KeysUpTo(apps, scopes, i + 1, 0)))
            case None => Fails in Asked(store, Pairs(apps, scopes))
  {
    var e, calls := env, i * |scopes|;
    var j := 0;
    while j < |scopes|
      invariant 0 <= j <= |scopes| && calls == Position(scopes, i, j)
      invariant Gathered(e, Asked(store, KeysUpTo(apps, scopes, i, j)))
    {
      AskedNext(store, apps, scopes, i, j);
      var found := store(calls, Key(apps[i], scopes[j]));
      if found.Fails? {
        return None;
      }
      GatherOne(e, Asked(store, KeysUpTo(apps, scopes, i, j)), found);
      e := Overwrite(e, found.entries);
      calls, j := calls + 1, j + 1;
    }
    all := Some(e);
  }

  ghost predicate Gathered(all: Entries, visits: seq<Visit>) {
    Fails !in visits && all == Overwritten(Visited(visits))
  }

  lemma GatherOne(all: Entries, visits: seq<Visit>, found: Visit)
    requires Gathered(all, visits) && found.Lists?
    ensures Gathered(all + Overwritten(found.entries), visits + [found])
  {
    OneMoreVisit(visits, found);
    OverwrittenConcat(Visited(visits), found.entries);
    assert Visited(visits + [found]) == Visited(visits + [found]) + [];
  }

  /** The innermost loop: one map, in the order it is visited. */
  method Overwrite(env: Entries, entries: seq<Entry>) returns (all: Entries)
    ensures all == env + Overwritten(entries)
  {
    all := env;
    var k := 0;
    while k < |entries|
      invariant 0 <= k <= |entries|
      invariant all == env + Overwritten(entries[..k])
    {
      assert entries[..k + 1][..k] == entries[..k];
      all := all[entries[k].key := entries[k].value];
      k := k + 1;
    }
    assert entries[..k] == entries;
  }

  /** What `kaienv NAME` prints; None is its "no value for such key". */
  function Lookup(show: Value -> string, env: Entries, name: string): Option<string> {
    if Lower(name) in env then Some(Sprint(show, env[Lower(name)])) else None
  }

  /** `params` is the command line: the program's name and maybe the variable's. None is an error. */
  method KaienvRun(appNames: string, scopes: string, store: (nat, Key) -> Visit, params: seq<string>, show: Value -> string)
    returns (out: Option<string>)
    ensures var visits := Asked(store, Pairs(Split(appNames, ","), Split(scopes, ",")));
            var env := Overwritten(Visited(visits));
            if Fails in visits then out == None
            else if |params| < 2 then out.Some? && exists keys :: Lists(keys, env) && out.value == Lines(show, env, keys)
            else out == Lookup(show, env, params[1])
  {
    var env := ReadAllEnv(appNames, scopes, store);
    if env.None? {
      return None;
    }
    if |params| < 2 {
      var text := PrintAll(show, env.value);
      return Some(text);
    }
    var envVariable := params[1];
    if Lower(envVariable) in env.value {
      return Some(Sprint(show, env.value[Lower(envVariable)]));
    }
    return None;
  }

  /** The keys of the map, each once, in some order. */
  ghost predicate Lists(keys: seq<string>, env: Entries) {
    && (forall k :: k in keys <==> k in env)
    && (forall i, j :: 0 <= i < j < |keys| ==> keys[i] != keys[j])
  }

  function Line(show: Value -> string, key: string, v: Value): string {
    Upper(key) + "=" + EnvValueToString(show, v) + "\n"
  }

  ghost predicate AllIn(keys: seq<string>, env: Entries) {
    forall k :: k in keys ==> k in env
  }

  ghost function Lines(show: Value -> string, env: Entries, keys: seq<string>): string
    requires AllIn(keys, env)
  {
    if keys == [] then ""
    else
      var k := keys[|keys| - 1];
      Lines(show, env, keys[..|keys| - 1]) + Line(show, k, env[k])
  }

  method PrintAll(show: Value -> string, env: Entries) returns (out: string)
    ensures exists keys :: Lists(keys, env) && out == Lines(show, env, keys)
  {
    out := "";
    ghost var keys: seq<string> := [];
    var pending := env.Keys;
    while pending != {}
      invariant pending <= env.Keys && Lists(keys, env - pending)
      invariant out == Lines(show, env, keys)
    {
      var k :| k in pending;
      out := out + Line(show, k, env[k]);
      ListsOneMore(keys, env, pending, k);
      assert (keys + [k])[..|keys|] == keys;
      keys, pending := keys + [k], pending - {k};
    }
    assert env - {} == env;
  }

  lemma ListsOneMore(keys: seq<string>, env: Entries, pending: set<string>, k: string)
    requires k in pending && pending <= env.Keys && Lists(keys, env - pending)
    ensures Lists(keys + [k], env - (pending - {k}))
  {
    var more := keys + [k];
    assert forall x :: x in more <==> x in keys || x == k;
    assert k !in keys;
  }

  // ---------------------------------------------------------------- what is printed

  lemma LinesLast(show: Value -> string, env: Entries, keys: seq<string>, k: string)
    requires AllIn(keys + [k], env)
    ensures k in env && AllIn(keys, env) && Lines(show, env, keys + [k]) == Lines(show, env, keys) + Line(show, k, env[k])
  {
    var more := keys + [k];
    assert more[|keys|] in more && more[..|keys|] == keys;
    assert forall x :: x in keys ==> x in more;
  }

  lemma {:induction false} LinesConcat(show: Value -> string, env: Entries, a: seq<string>, b: seq<string>)
    requires AllIn(a + b, env)
    ensures AllIn(a, env) && AllIn(b, env) && Lines(show, env, a + b) == Lines(show, env, a) + Lines(show, env, b)
    decreases |b|
  {
    if b == [] {
      assert a + b == a;
    } else {
      var n := |b| - 1;
      assert a + b == a + b[..n] + [b[n]] && b == b[..n] + [b[n]];
      assert forall x :: x in b ==> x in a + b;
      LinesLast(show, env, a + b[..n], b[n]);
      LinesConcat(show, env, a, b[..n]);
      LinesLast(show, env, b[..n], b[n]);
      Regroup(Lines(show, env, a), Lines(show, env, b[..n]), Line(show, b[n], env[b[n]]));
    }
  }

  lemma Regroup(a: string, b: string, c: string)
    ensures a + b + c == a + (b + c)
  {
  }

  /** The line of one key: a string in quotes, anything else bare. */
  predicate IsLine(show: Value -> string, key: string, v: Value, line: string) {
    match v
    case Str(s) => line == Upper(key) + "=\"" + s + "\"\n"
    case Bool(b) => line == Upper(key) + if b then "=true\n" else "=false\n"
    case JsonNumber(literal) => line == Upper(key) + "=" + literal + "\n"
    case _ => line == Upper(key) + "=" + show(v) + "\n"
  }

  lemma LineIs(show: Value -> string, key: string, v: Value)
    ensures IsLine(show, key, v, Line(show, key, v))
  {
    if v.Str? {
      assert Upper(key) + "=" + ("\"" + v.s + "\"") + "\n" == Upper(key) + "=\"" + v.s + "\"\n";
    }
  }

  /** Main result: the listing holds, for each key in turn, its line and nothing between the lines. */
  lemma ListingHoldsLines(show: Value -> string, env: Entries, keys: seq<string>, i: nat) returns (line: string)
    requires i < |keys| && AllIn(keys, env)
    ensures Lines(show, env, keys) == Lines(show, env, keys[..i]) + line + Lines(show, env, keys[i + 1..])
    ensures Lines(show, env, []) == "" && IsLine(show, keys[i], env[keys[i]], line)
  {
    assert keys[..i] + [keys[i]] == keys[..i + 1] && keys[..i + 1] + keys[i + 1..] == keys;
    line := Line(show, keys[i], env[keys[i]]);
    LineIs(show, keys[i], env[keys[i]]);
    LinesConcat(show, env, keys[..i + 1], keys[i + 1..]);
    LinesLast(show, env, keys[..i], keys[i]);
  }

  /** Entry `i` is the last one visited under that key. */
  predicate IsLastEntry(entries: seq<Entry>, i: nat, key: string) {
    && i < |entries| && entries[i].key == key
    && forall j :: i < j < |entries| ==> entries[j].key != key
  }

  lemma {:induction false} LastEntryStays(entries: seq<Entry>, i: nat, key: string)
    ensures IsLastEntry(entries, i, key) ==> key in Overwritten(entries) && Overwritten(entries)[key] == entries[i].value
    ensures (forall e :: e in entries ==> e.key != key) ==> key !in Overwritten(entries)
    decreases |entries|
  {
    if entries != [] {
      var n := |entries| - 1;
      LastEntryStays(entries[..n], i, key);
      if IsLastEntry(entries, i, key) && i < n {
        assert IsLastEntry(entries[..n], i, key);
      }
    }
  }

  /**
   * Main result: a look-up prints the last entry visited under the lower-cased name: a string
   * without quotes, a boolean, a number's literal, and anything else as `%v` does; and it errs if
   * there is none.
   */
  lemma LookupPrints(show: Value -> string, entries: seq<Entry>, name: string, i: nat)
    ensures IsLastEntry(entries, i, Lower(name)) ==>
              var printed := Lookup(show, Overwritten(entries), name);
              match entries[i].value
              case Str(s) => printed == Some(s)
              case Bool(b) => printed == Some(if b then "true" else "false")
              case JsonNumber(literal) => printed == Some(literal)
              case v => printed == Some(show(v))
    ensures (forall e :: e in entries ==> e.key != Lower(name)) ==> Lookup(show, Overwritten(entries), name) == None
  {
    LastEntryStays(entries, i, Lower(name));
  }

  // ---------------------------------------------------------------- agreement

  /** Keys without upper-case letters and without '='. */
  predicate LowerPlain(m: Entries) {
    forall k :: k in m ==> Lower(k) == k && '=' !in k
  }

  lemma LowerUpper(k: string, name: string)
    requires Lower(k) == k
    ensures Upper(k) == Upper(name) <==> k == Lower(name)
  {
    if Upper(k) == Upper(name) {
      forall i | 0 <= i < |k|
        ensures k[i] == Lower(name)[i]
      {
        assert Upper(k)[i] == Upper(name)[i] && Lower(k)[i] == k[i];
      }
    }
  }

  /** One map read both ways: kaienv's lower-case key is BuildCmdEnv's upper-case target. */
  lemma OneMapBothWays(entries: seq<Entry>, m: Entries, name: string)
    requires ListsMap(entries, m) && LowerPlain(m)
    ensures LastText(entries, Upper(name)) == if Lower(name) in m then ExportText(m[Lower(name)]) else None
  {
    LastTextIsListed(entries, Upper(name));
    var k := Lower(name);
    if LastText(entries, Upper(name)).Some? {
      var e :| e in entries && Upper(e.key) == Upper(name) && ExportText(e.value) == LastText(entries, Upper(name));
      LowerUpper(e.key, name);
    } else if k in m {
      assert Entry(k, m[k]) in entries;
      LowerUpper(k, name);
    }
  }

  /** Without its last entry a listing lists the rest of the map. */
  lemma ListingWithoutLast(entries: seq<Entry>, m: Entries)
    requires ListsMap(entries, m) && entries != []
    ensures var n := |entries| - 1;
            var e := entries[n];
            && e.key in m && m[e.key] == e.value
            && ListsMap(entries[..n], m - {e.key})
  {
    var n := |entries| - 1;
    var rest := m - {entries[n].key};
    forall k | k in rest
      ensures Entry(k, rest[k]) in entries[..n]
    {
      var i :| 0 <= i < |entries| && entries[i] == Entry(k, m[k]);
      assert entries[..n][i] == entries[i];
    }
  }

  lemma {:induction false} OverwrittenListing(entries: seq<Entry>, m: Entries)
    requires ListsMap(entries, m)
    ensures Overwritten(entries) == m
    decreases |entries|
  {
    if entries == [] {
      assert m == map[];
    } else {
      var n := |entries| - 1;
      var e := entries[n];
      ListingWithoutLast(entries, m);
      OverwrittenListing(entries[..n], m - {e.key});
      assert (m - {e.key})[e.key := e.value] == m;
    }
  }

  /** The last stored value of a key over all maps. */
  function LastValue(maps: seq<Entries>, k: string): Option<Value> {
    if maps == [] then None
    else
      var m := maps[|maps| - 1];
      if k in m then Some(m[k]) else LastValue(maps[..|maps| - 1], k)
  }

  /** Later maps override earlier ones. */
  function Merged(maps: seq<Entries>): Entries {
    if maps == [] then map[] else Merged(maps[..|maps| - 1]) + maps[|maps| - 1]
  }

  lemma {:induction false} MergedHoldsLast(maps: seq<Entries>, k: string)
    ensures LastValue(maps, k) == if k in Merged(maps) then Some(Merged(maps)[k]) else None
  {
    if maps != [] {
      MergedHoldsLast(maps[..|maps| - 1], k);
    }
  }

  lemma {:induction false} ReaderMerges(v: seq<Visit>, maps: seq<Entries>)
    requires Reading(v, maps)
    ensures Overwritten(Visited(v)) == Merged(maps)
    decreases |maps|
  {
    if maps != [] {
      ReadingPrefix(v, maps);
      ReaderMerges(v[..|maps| - 1], maps[..|maps| - 1]);
      ReadOneMore(v, maps[|maps| - 1]);
    } else {
      assert Visited(v) == [];
    }
  }

  lemma ReaderSeesLastValue(v: seq<Visit>, maps: seq<Entries>, k: string)
    requires Reading(v, maps)
    ensures var env := Overwritten(Visited(v));
            LastValue(maps, k) == if k in env then Some(env[k]) else None
  {
    ReaderMerges(v, maps);
    MergedHoldsLast(maps, k);
  }

  lemma ReadOneMore(v: seq<Visit>, m: Entries)
    requires v != [] && v[|v| - 1].Lists? && ListsMap(v[|v| - 1].entries, m)
    ensures Overwritten(Visited(v)) == Overwritten(Visited(v[..|v| - 1])) + m
  {
    OverwrittenConcat(Visited(v[..|v| - 1]), v[|v| - 1].entries);
    OverwrittenListing(v[|v| - 1].entries, m);
  }

  /** How many maps there are up to and including the last one that holds the key; 0 when none does. */
  function LastHolder(maps: seq<Entries>, k: string): (h: nat)
    ensures h <= |maps|
    ensures LastValue(maps, k) == if h == 0 then None else if k in maps[h - 1] then Some(maps[h - 1][k]) else None
    ensures h == 0 <==> LastValue(maps, k).None?
  {
    if maps == [] then 0
    else if k in maps[|maps| - 1] then |maps|
    else LastHolder(maps[..|maps| - 1], k)
  }

  /** BuildCmdEnv's text for the name is the last value's or, if that is not exportable, what the visits before it give. */
  ghost predicate SeesLast(w: seq<Visit>, maps: seq<Entries>, name: string)
    requires |w| == |maps|
  {
    var last, h := LastValue(maps, Lower(name)), LastHolder(maps, Lower(name));
    var text := LastText(Visited(w), Upper(name));
    && (last.None? ==> text.None?)
    && (last.Some? ==> text == OrElse(ExportText(last.value), LastText(Visited(w[..h - 1]), Upper(name))))
  }

  lemma {:induction false} BuilderSeesLastText(w: seq<Visit>, maps: seq<Entries>, name: string)
    requires Reading(w, maps) && forall m :: m in maps ==> LowerPlain(m)
    ensures SeesLast(w, maps, name)
    decreases |maps|
  {
    if maps != [] {
      var n := |maps| - 1;
      BuilderSeesOneMore(w, maps, name);
      if Lower(name) !in maps[n] {
        ReadingPrefix(w, maps);
        BuilderSeesLastText(w[..n], maps[..n], name);
        NotInLast(w, maps, name);
      }
    } else {
      assert Visited(w) == [];
    }
  }

  lemma NotInLast(w: seq<Visit>, maps: seq<Entries>, name: string)
    requires |w| == |maps| && maps != [] && Lower(name) !in maps[|maps| - 1]
    requires SeesLast(w[..|maps| - 1], maps[..|maps| - 1], name)
    requires LastText(Visited(w), Upper(name)) == LastText(Visited(w[..|maps| - 1]), Upper(name))
    ensures SeesLast(w, maps, name)
  {
    var h := LastHolder(maps, Lower(name));
    assert h == LastHolder(maps[..|maps| - 1], Lower(name));
    if h > 0 {
      assert w[..|maps| - 1][..h - 1] == w[..h - 1];
    }
  }

  lemma BuilderSeesOneMore(w: seq<Visit>, maps: seq<Entries>, name: string)
    requires Reading(w, maps) && maps != [] && LowerPlain(maps[|maps| - 1])
    ensures var n, k := |maps| - 1, Lower(name);
            LastText(Visited(w), Upper(name))
            == OrElse(if k in maps[n] then ExportText(maps[n][k]) else None, LastText(Visited(w[..n]), Upper(name)))
  {
    var n := |maps| - 1;
    ReadingPrefix(w, maps);
    OneMoreVisitText(w, Upper(name));
    OneMapBothWays(w[n].entries, maps[n], name);
  }

  lemma {:induction false} VisitedPlain(w: seq<Visit>, maps: seq<Entries>)
    requires Reading(w, maps) && forall m :: m in maps ==> LowerPlain(m)
    ensures PlainKeys(Visited(w))
  {
    if w != [] {
      var n := |w| - 1;
      assert Reading(w[..n], maps[..n]);
      VisitedPlain(w[..n], maps[..n]);
      assert w == w[..n] + [w[n]] && maps[n] in maps;
      OneMoreVisit(w[..n], w[n]);
    }
  }

  /**
   * Main result: two processes read the same maps, each in its own order. What kaienv prints is
   * the last text BuildCmdEnv gets from the store exactly if the last stored value of the name is
   * absent, or exportable (a string always is), or BuildCmdEnv had got that very text before the
   * last map that holds the name. And kaienv errs exactly when no map holds it.
   */
  lemma PrintedIffLastText(show: Value -> string, v: seq<Visit>, w: seq<Visit>, maps: seq<Entries>, name: string)
    requires SameMaps(v, w, maps) && forall m :: m in maps ==> LowerPlain(m)
    ensures var printed := Lookup(show, Overwritten(Visited(v)), name);
            var last, h := LastValue(maps, Lower(name)), LastHolder(maps, Lower(name));
            && (printed == LastText(Visited(w), Upper(name))
                <==> last.None? || ExportText(last.value).Some?
                     || LastText(Visited(w[..h - 1]), Upper(name)) == Some(Sprint(show, last.value)))
            && (printed.None? <==> forall m :: m in maps ==> Lower(name) !in m)
  {
    var last := LastValue(maps, Lower(name));
    PrintedIsLastValue(show, v, maps, name);
    BuilderSeesLastText(w, maps, name);
    NoLastValue(maps, Lower(name));
    if last.Some? {
      ExportedAsPrinted(show, last.value);
    }
  }

  /** Visits that fail nowhere and hold no key with '='. */
  predicate Plain(visits: seq<Visit>) {
    Fails !in visits && PlainKeys(Visited(visits))
  }

  lemma BoundIs(inherited: seq<string>, g: seq<Visit>, w: seq<Visit>, name: string)
    requires Plain(g) && PlainKeys(Visited(w)) && '=' !in name && Slot(name).None?
    ensures Bound(inherited, g + w, Upper(name))
         == OrElse(LastText(Visited(w), Upper(name)), Bound(inherited, g, Upper(name)))
  {
    SlotOfUpper(name);
    VisitedConcat(g, w);
    LastTextConcat(Visited(g), Visited(w), Upper(name));
    LastWriterWins(inherited, Visited(g) + Visited(w), Upper(name));
    LastWriterWins(inherited, Visited(g), Upper(name));
  }

  /**
   * The promised agreement, both readers visiting the same scopes: if the last stored value of
   * the name is exportable, what kaienv prints is the last binding BuildCmdEnv makes; if no map
   * holds it, kaienv errs and the store gives the child nothing.
   */
  lemma ReadersAgree(show: Value -> string, inherited: seq<string>, v: seq<Visit>, w: seq<Visit>, maps: seq<Entries>,
                     name: string)
    requires SameMaps(v, w, maps) && forall m :: m in maps ==> LowerPlain(m)
    requires '=' !in name && Slot(name).None?
    requires var last := LastValue(maps, Lower(name)); last.Some? ==> ExportText(last.value).Some?
    ensures var printed := Lookup(show, Overwritten(Visited(v)), name);
            && printed == LastText(Visited(w), Upper(name))
            && (printed.Some? ==> Bound(inherited, w, Upper(name)) == printed)
            && (printed.None? <==> forall m :: m in maps ==> Lower(name) !in m)
            && (printed.None? ==> Bound(inherited, w, Upper(name)) == Binding(inherited, Upper(name)))
  {
    PrintedIffLastText(show, v, w, maps, name);
    VisitedPlain(w, maps);
    SlotOfUpper(name);
    LastWriterWins(inherited, Visited(w), Upper(name));
  }

  /** What BuildCmdEnv has bound before the h-th of the apps' visits. */
  function BoundBefore(inherited: seq<string>, globals: seq<Visit>, w: seq<Visit>, h: nat, name: string): Option<string> {
    if 0 < h <= |w| then Bound(inherited, globals + w[..h - 1], Upper(name)) else None
  }

  /**
   * Main result, contrary to docs/ARCHITECTURE.md: BuildCmdEnv visits "global" first (`globals`)
   * and kaienv does not, unless it is listed. What kaienv prints is what the child gets exactly
   * if the name's last value in the apps is exportable; or no app holds it and "global" and the
   * inherited environment do not bind it either; or it is not exportable, and what BuildCmdEnv
   * had bound before the last map that holds it happens to be the text printed.
   */
  lemma PrintedIffBound(show: Value -> string, inherited: seq<string>, globals: seq<Visit>, v: seq<Visit>, w: seq<Visit>,
                        maps: seq<Entries>, name: string)
    requires SameMaps(v, w, maps) && Plain(globals) && forall m :: m in maps ==> LowerPlain(m)
    requires '=' !in name && Slot(name).None?
    ensures var last, h := LastValue(maps, Lower(name)), LastHolder(maps, Lower(name));
            Lookup(show, Overwritten(Visited(v)), name) == Bound(inherited, globals + w, Upper(name))
            <==> match last
                 case None => Bound(inherited, globals, Upper(name)).None?
                 case Some(value) =>
                   || ExportText(value).Some?
                   || BoundBefore(inherited, globals, w, h, name) == Some(Sprint(show, value))
  {
    var last, h := LastValue(maps, Lower(name)), LastHolder(maps, Lower(name));
    PrintedIsLastValue(show, v, maps, name);
    BoundIsLast(inherited, globals, w, maps, name);
    PrintedAgainst(show, last, Bound(inherited, globals, Upper(name)), BoundBefore(inherited, globals, w, h, name));
  }

  /** A last value's print against its export: `without` is bound when there is none, `before` when it is not exportable. */
  lemma PrintedAgainst(show: Value -> string, last: Option<Value>, without: Option<string>, before: Option<string>)
    ensures var printed := match last case Some(value) => Some(Sprint(show, value)) case None => None;
            var bound := match last case Some(value) => OrElse(ExportText(value), before) case None => without;
            printed == bound
            <==> match last
                 case None => without.None?
                 case Some(value) => ExportText(value).Some? || before == Some(Sprint(show, value))
  {
    if last.Some? {
      ExportedAsPrinted(show, last.value);
    }
  }

  lemma BoundIsLast(inherited: seq<string>, globals: seq<Visit>, w: seq<Visit>, maps: seq<Entries>, name: string)
    requires Reading(w, maps) && Plain(globals) && forall m :: m in maps ==> LowerPlain(m)
    requires '=' !in name && Slot(name).None?
    ensures var last, h := LastValue(maps, Lower(name)), LastHolder(maps, Lower(name));
            Bound(inherited, globals + w, Upper(name))
            == match last
               case None => Bound(inherited, globals, Upper(name))
               case Some(value) => OrElse(ExportText(value), BoundBefore(inherited, globals, w, h, name))
  {
    var last, h := LastValue(maps, Lower(name)), LastHolder(maps, Lower(name));
    BuilderSeesLastText(w, maps, name);
    VisitedPlain(w, maps);
    BoundIs(inherited, globals, w, name);
    if last.Some? {
      BoundBeforeIs(inherited, globals, w, maps, h, name);
      OrElseRegroups(ExportText(last.value), LastText(Visited(w[..h - 1]), Upper(name)), Bound(inherited, globals, Upper(name)));
    }
  }

  lemma BoundBeforeIs(inherited: seq<string>, globals: seq<Visit>, w: seq<Visit>, maps: seq<Entries>, h: nat, name: string)
    requires Reading(w, maps) && Plain(globals) && forall m :: m in maps ==> LowerPlain(m)
    requires '=' !in name && Slot(name).None? && 0 < h <= |w|
    ensures BoundBefore(inherited, globals, w, h, name)
         == OrElse(LastText(Visited(w[..h - 1]), Upper(name)), Bound(inherited, globals, Upper(name)))
  {
    ReadingTake(w, maps, h - 1);
    VisitedPlain(w[..h - 1], maps[..h - 1]);
    BoundIs(inherited, globals, w[..h - 1], name);
  }

  lemma OrElseRegroups<T>(a: Option<T>, b: Option<T>, c: Option<T>)
    ensures OrElse(OrElse(a, b), c) == OrElse(a, OrElse(b, c))
  {
  }

  lemma ReadingTake(v: seq<Visit>, maps: seq<Entries>, n: nat)
    requires Reading(v, maps) && n <= |maps|
    ensures Reading(v[..n], maps[..n])
  {
  }

  lemma ExportedAsPrinted(show: Value -> string, v: Value)
    ensures ExportText(v).Some? ==> ExportText(v) == Some(Sprint(show, v))
  {
  }

  lemma PrintedIsLastValue(show: Value -> string, v: seq<Visit>, maps: seq<Entries>, name: string)
    requires Reading(v, maps)
    ensures Lookup(show, Overwritten(Visited(v)), name)
         == match LastValue(maps, Lower(name)) case Some(value) => Some(Sprint(show, value)) case None => None
  {
    ReaderSeesLastValue(v, maps, Lower(name));
  }

  lemma {:induction false} NoLastValue(maps: seq<Entries>, k: string)
    ensures LastValue(maps, k).None? <==> forall m :: m in maps ==> k !in m
  {
    if maps != [] {
      NoLastValue(maps[..|maps| - 1], k);
      assert maps == maps[..|maps| - 1] + [maps[|maps| - 1]];
    }
  }

  /**
   * Main result: a SQL scope always holds its version number, an int64, under "version". However
   * many scopes are loaded, no child gets a variable VERSION from the store, and kaienv prints
   * the number of the last scope.
   */
  lemma VersionIsPrintedOnly(show: Value -> string, v: seq<Visit>, w: seq<Visit>, maps: seq<Entries>)
    requires SameMaps(v, w, maps)
    requires forall m: Entries :: m in maps ==> LowerPlain(m) && "version" in m && m["version"].Int64?
    ensures LastText(Visited(w), "VERSION").None?
    ensures maps != [] ==>
              Lookup(show, Overwritten(Visited(v)), "VERSION") == Some(show(maps[|maps| - 1]["version"]))
  {
    VersionNames();
    NeverExported(w, maps, "VERSION");
    PrintedIsLastValue(show, v, maps, "VERSION");
  }

  lemma VersionNames()
    ensures Lower("VERSION") == "version" && Upper("VERSION") == "VERSION"
  {
  }

  lemma {:induction false} NeverExported(w: seq<Visit>, maps: seq<Entries>, name: string)
    requires Reading(w, maps)
    requires forall m :: m in maps ==> LowerPlain(m) && (Lower(name) in m ==> ExportText(m[Lower(name)]).None?)
    ensures LastText(Visited(w), Upper(name)).None?
    decreases |maps|
  {
    if maps != [] {
      var n := |maps| - 1;
      ReadingPrefix(w, maps);
      NeverExported(w[..n], maps[..n], name);
      BuilderSeesOneMore(w, maps, name);
    }
  }

  // ---------------------------------------------------------------- global

  /** Listing "global" first makes kaienv ask for exactly what BuildCmdEnv asks for, call by call. */
  lemma ListingGlobalFirst(store: (nat, Key) -> Visit, appNames: string, scopes: seq<string>)
    ensures Asked(store, Pairs(Split("global," + appNames, ","), scopes))
         == Asked(store, Pairs(["global"] + Split(appNames, ","), scopes))
  {
    assert ',' !in "global";
    SplitHead("global", ',', appNames);
    assert "global," + appNames == "global" + "," + appNames;
  }

  /** Without it BuildCmdEnv asks for the scopes of "global" first and then for what kaienv asks for. */
  lemma GlobalComesFirst(appNames: string, scopes: seq<string>)
    ensures var asked := Pairs(["global"] + Split(appNames, ","), scopes);
            && |scopes| <= |asked| && asked[|scopes|..] == Pairs(Split(appNames, ","), scopes)
            && (forall j :: 0 <= j < |scopes| ==> asked[j] == Key("global", scopes[j]))
  {
    var apps := Split(appNames, ",");
    PairsConcat(["global"], apps, scopes);
    KeysLength(["global"], scopes, 1, 0);
    forall j | 0 <= j < |scopes|
      ensures Pairs(["global"] + apps, scopes)[j] == Key("global", scopes[j])
    {
      PairAt(["global"] + apps, scopes, 0, j);
    }
  }
}
