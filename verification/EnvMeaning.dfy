/** What the built environment means: last writer wins per name, whatever order maps are visited in. */
module EnvMeaning {
  import opened Outcomes
  import opened Text
  import opened Values
  import opened KeyGrammar
  import opened StoreKeys
  import opened CommandEnv

  /** The text of the last exportable entry whose upper-cased key is the target. */
  function LastText(entries: seq<Entry>, target: string): Option<string> {
    if entries == [] then None
    else
      var e := entries[|entries| - 1];
      if Upper(e.key) == target && ExportText(e.value).Some? then ExportText(e.value)
      else LastText(entries[..|entries| - 1], target)
  }

  /** The value exec gives a name: that of the last `name=value` in the list. */
  function Binding(vars: seq<string>, name: string): Option<string> {
    if vars == [] then None
    else
      var v := vars[|vars| - 1];
      if name + "=" <= v then Some(v[|name| + 1..]) else Binding(vars[..|vars| - 1], name)
  }

  /** The value exec gives the name in the environment built from these visits. */
  function Bound(inherited: seq<string>, visits: seq<Visit>, name: string): Option<string> {
    Binding(inherited + ExportVars(Visited(visits)), name)
  }

  predicate PlainKeys(entries: seq<Entry>) {
    forall e :: e in entries ==> '=' !in e.key
  }

  lemma {:induction false} LastTextConcat(a: seq<Entry>, b: seq<Entry>, target: string)
    ensures LastText(a + b, target) == OrElse(LastText(b, target), LastText(a, target))
    decreases |b|
  {
    if b == [] {
      assert a + b == a;
    } else {
      assert (a + b)[..|a + b| - 1] == a + b[..|b| - 1];
      LastTextConcat(a, b[..|b| - 1], target);
    }
  }

  lemma {:induction false} VisitedConcat(a: seq<Visit>, b: seq<Visit>)
    ensures Visited(a + b) == Visited(a) + Visited(b)
    decreases |b|
  {
    if b == [] {
      assert a + b == a;
    } else {
      assert (a + b)[..|a + b| - 1] == a + b[..|b| - 1];
      VisitedConcat(a, b[..|b| - 1]);
    }
  }

  // ---------------------------------------------------------------- variables

  /** `KEY=value` binds exactly KEY, however many '=' the value holds. */
  lemma VarBinds(key: string, value: string, name: string)
    requires '=' !in key && '=' !in name
    ensures name + "=" <= Upper(key) + "=" + value <==> name == Upper(key)
  {
    var v := Upper(key) + "=" + value;
    assert '=' !in Upper(key);
    if name + "=" <= v {
      assert v[|name|] == (name + "=")[|name|] == '=';
      assert v[|key|] == '=';
      assert name == v[..|name|] == Upper(key);
    }
  }

  /** One more entry binds its own upper-cased key, if it is exported as a variable at all. */
  lemma OneMoreBinding(inherited: seq<string>, vars: seq<string>, e: Entry, name: string)
    requires '=' !in e.key && '=' !in name
    ensures Binding(inherited + AddVar(vars, e), name)
         == if Upper(e.key) == name && Slot(name).None? && ExportText(e.value).Some? then ExportText(e.value)
            else Binding(inherited + vars, name)
  {
    SlotOfUpper(e.key);
    if ExportText(e.value).Some? && Slot(e.key).None? {
      AppendedBinding(inherited + vars, e.key, ExportText(e.value).value, name);
      assert inherited + AddVar(vars, e) == inherited + vars + [Upper(e.key) + "=" + ExportText(e.value).value];
    } else {
      assert AddVar(vars, e) == vars;
    }
  }

  lemma AppendedBinding(vars: seq<string>, key: string, value: string, name: string)
    requires '=' !in key && '=' !in name
    ensures Binding(vars + [Upper(key) + "=" + value], name)
         == if Upper(key) == name then Some(value) else Binding(vars, name)
  {
    var v := Upper(key) + "=" + value;
    VarBinds(key, value, name);
    assert (vars + [v])[..|vars|] == vars;
    if Upper(key) == name {
      assert v[|name| + 1..] == value;
    }
  }

  /**
   * Main result: in the child's environment a name has the text of the last exportable entry with
   * that upper-cased key, unless the name is a file key; failing that, what was inherited.
   */
  lemma {:induction false} LastWriterWins(inherited: seq<string>, entries: seq<Entry>, name: string)
    requires PlainKeys(entries) && '=' !in name
    ensures Binding(inherited + ExportVars(entries), name)
         == if Slot(name).Some? then Binding(inherited, name)
            else OrElse(LastText(entries, name), Binding(inherited, name))
    decreases |entries|
  {
    if entries == [] {
      assert inherited + ExportVars(entries) == inherited;
    } else {
      var e := entries[|entries| - 1];
      var before := entries[..|entries| - 1];
      LastWriterWins(inherited, before, name);
      OneMoreBinding(inherited, ExportVars(before), e, name);
      assert ExportVars(entries) == AddVar(ExportVars(before), e);
    }
  }

  /** The inherited part keeps every variable but kaigara's own, in order. */
  lemma {:induction false} InheritedKeepsOrder(a: seq<string>, b: seq<string>, v: string)
    ensures Inherited(a + b) == Inherited(a) + Inherited(b)
    ensures Inherited([v]) == if "KAIGARA_" <= v then [] else [v]
    decreases |b|
  {
    if b == [] {
      assert a + b == a;
    } else {
      assert (a + b)[..|a + b| - 1] == a + b[..|b| - 1];
      InheritedKeepsOrder(a, b[..|b| - 1], v);
    }
  }

  /** What one (app, scope) gives a target. */
  function TextOf(visit: Visit, target: string): Option<string> {
    if visit.Lists? then LastText(visit.entries, target) else None
  }

  /** Visit `i` gives the target a text and no later one does. */
  ghost predicate Wins(visits: seq<Visit>, i: int, target: string) {
    && 0 <= i < |visits| && TextOf(visits[i], target).Some?
    && forall k :: i < k < |visits| ==> TextOf(visits[k], target).None?
  }

  /** The text that wins comes from the last visit that gives the target one; there is none exactly when none does. */
  lemma {:induction false} LastVisitWins(visits: seq<Visit>, target: string)
    ensures LastText(Visited(visits), target).None? <==>
              forall i :: 0 <= i < |visits| ==> TextOf(visits[i], target).None?
    ensures LastText(Visited(visits), target).Some? ==>
              exists i :: Wins(visits, i, target) && TextOf(visits[i], target) == LastText(Visited(visits), target)
  {
    if visits != [] {
      var n := |visits| - 1;
      LastVisitWins(visits[..n], target);
      OneMoreVisitText(visits, target);
      if TextOf(visits[n], target).None? && LastText(Visited(visits), target).Some? {
        var i :| Wins(visits[..n], i, target) && TextOf(visits[..n][i], target) == LastText(Visited(visits[..n]), target);
        assert Wins(visits, i, target);
      } else if TextOf(visits[n], target).Some? {
        assert Wins(visits, n, target);
      }
    }
  }

  lemma OneMoreVisitText(visits: seq<Visit>, target: string)
    requires visits != []
    ensures LastText(Visited(visits), target)
         == OrElse(TextOf(visits[|visits| - 1], target), LastText(Visited(visits[..|visits| - 1]), target))
  {
    var last, before := visits[|visits| - 1], visits[..|visits| - 1];
    if last.Lists? {
      LastTextConcat(Visited(before), last.entries, target);
    } else {
      assert Visited(visits) == Visited(before);
    }
  }

  /** What the p.1-th scope of the p.0-th app gives a target. */
  function TextAt(store: (nat, Key) -> Visit, apps: seq<string>, scopes: seq<string>, p: (nat, nat), target: string): Option<string>
    requires p.0 < |apps| && p.1 < |scopes|
  {
    TextOf(store(Position(scopes, p.0, p.1), Key(apps[p.0], scopes[p.1])), target)
  }

  /** That (app, scope) gives the target a text and no later one, app-major, does. */
  ghost predicate PairWins(store: (nat, Key) -> Visit, apps: seq<string>, scopes: seq<string>, p: (nat, nat), target: string) {
    && p.0 < |apps| && p.1 < |scopes| && TextAt(store, apps, scopes, p, target).Some?
    && forall q: (nat, nat) :: q.0 < |apps| && q.1 < |scopes| && Before(p, q) ==> TextAt(store, apps, scopes, q, target).None?
  }

  ghost predicate NoPairGives(store: (nat, Key) -> Visit, apps: seq<string>, scopes: seq<string>, target: string) {
    forall p: (nat, nat) :: p.0 < |apps| && p.1 < |scopes| ==> TextAt(store, apps, scopes, p, target).None?
  }

  lemma VisitOfPair(store: (nat, Key) -> Visit, apps: seq<string>, scopes: seq<string>, p: (nat, nat), target: string)
    requires p.0 < |apps| && p.1 < |scopes|
    ensures var visits := Asked(store, Pairs(apps, scopes));
            var n := Position(scopes, p.0, p.1);
            n < |visits| && TextOf(visits[n], target) == TextAt(store, apps, scopes, p, target)
  {
    PairAt(apps, scopes, p.0, p.1);
  }

  lemma WinningVisitIsPair(store: (nat, Key) -> Visit, apps: seq<string>, scopes: seq<string>, n: nat, target: string)
    returns (p: (nat, nat))
    requires Wins(Asked(store, Pairs(apps, scopes)), n, target)
    ensures PairWins(store, apps, scopes, p, target)
    ensures TextAt(store, apps, scopes, p, target) == TextOf(Asked(store, Pairs(apps, scopes))[n], target)
  {
    var i, j := PositionIsPair(apps, scopes, n);
    p := (i, j);
    VisitOfPair(store, apps, scopes, p, target);
    forall q: (nat, nat) | q.0 < |apps| && q.1 < |scopes| && Before(p, q)
      ensures TextAt(store, apps, scopes, q, target).None?
    {
      OrderOfPositions(scopes, p, q);
      VisitOfPair(store, apps, scopes, q, target);
    }
  }

  lemma OnePairWins(store: (nat, Key) -> Visit, apps: seq<string>, scopes: seq<string>, p: (nat, nat), q: (nat, nat), target: string)
    requires PairWins(store, apps, scopes, p, target) && PairWins(store, apps, scopes, q, target)
    ensures p == q
  {
    assert Before(p, q) || Before(q, p) || p == q;
  }

  /** The text that wins over the whole store is that of the pair that wins. */
  lemma LastPairWins(store: (nat, Key) -> Visit, apps: seq<string>, scopes: seq<string>, target: string)
    ensures var text := LastText(Visited(Asked(store, Pairs(apps, scopes))), target);
            && (text.None? <==> NoPairGives(store, apps, scopes, target))
            && (forall p :: PairWins(store, apps, scopes, p, target) ==> TextAt(store, apps, scopes, p, target) == text)
            && (text.Some? ==> exists p :: PairWins(store, apps, scopes, p, target))
  {
    var visits := Asked(store, Pairs(apps, scopes));
    var text := LastText(Visited(visits), target);
    LastVisitWins(visits, target);
    if text.Some? {
      var n :| Wins(visits, n, target) && TextOf(visits[n], target) == text;
      var p := WinningVisitIsPair(store, apps, scopes, n, target);
      forall q | PairWins(store, apps, scopes, q, target)
        ensures TextAt(store, apps, scopes, q, target) == text
      {
        OnePairWins(store, apps, scopes, p, q, target);
      }
    } else {
      forall p: (nat, nat) | p.0 < |apps| && p.1 < |scopes|
        ensures TextAt(store, apps, scopes, p, target).None?
      {
        VisitOfPair(store, apps, scopes, p, target);
      }
    }
  }

  /**
   * Main result (shadowing): in the list BuildCmdEnv makes, a name that is no file's is bound by
   * the last (app, scope), app-major with "global" first, that gives it a text, and by the
   * filtered inherited environment when none does; a file's name is left to the inherited one.
   */
  lemma Shadowing(store: (nat, Key) -> Visit, currentEnv: seq<string>, appNames: seq<string>, scopes: seq<string>, name: string)
    requires var visits := Asked(store, Pairs(["global"] + appNames, scopes)); PlainKeys(Visited(visits))
    requires '=' !in name
    ensures var apps := ["global"] + appNames;
            var bound := Bound(Inherited(currentEnv), Asked(store, Pairs(apps, scopes)), name);
            && (forall p :: PairWins(store, apps, scopes, p, name) && Slot(name).None?
                            ==> bound == TextAt(store, apps, scopes, p, name))
            && (NoPairGives(store, apps, scopes, name) || Slot(name).Some?
                ==> bound == Binding(Inherited(currentEnv), name))
            && (NoPairGives(store, apps, scopes, name) || exists p :: PairWins(store, apps, scopes, p, name))
  {
    var apps := [GLOBAL] + appNames;
    LastWriterWins(Inherited(currentEnv), Visited(Asked(store, Pairs(apps, scopes))), name);
    LastPairWins(store, apps, scopes, name);
  }

  // ---------------------------------------------------------------- files

  /**
   * Main result: a name has a file exactly when an exportable entry spells one of its two keys,
   * and the file pairs the last path with the last content, each on its own, over all visits.
   */
  lemma {:induction false} FilesPairLastTexts(entries: seq<Entry>, name: string)
    ensures var path, content := LastText(entries, FileKey(name, PATH)), LastText(entries, FileKey(name, CONTENT));
            && (name in FilesOf(entries) <==> '\n' !in name && (path.Some? || content.Some?))
            && (name in FilesOf(entries) ==> FilesOf(entries)[name] == FileText(path.GetOr(""), content.GetOr("")))
  {
    if entries != [] {
      var e := entries[|entries| - 1];
      FilesPairLastTexts(entries[..|entries| - 1], name);
      SlotIff(e.key, name, PATH);
      SlotIff(e.key, name, CONTENT);
      if Upper(e.key) == FileKey(name, PATH) {
        if Upper(e.key) == FileKey(name, CONTENT) {
          FileKeyInjective(name, PATH, name, CONTENT);
        }
      }
    }
  }

  // ---------------------------------------------------------------- which values are exported, and as what

  /** A value BuildCmdEnv passes over: a map, a slice, nil, a number that is no json.Number, the empty literal. */
  predicate Skipped(v: Value) {
    v.Map? || v.Slice? || v.Nil? || v.Int64? || v.Float64? || v.Unencodable? || v == JsonNumber("")
  }

  /** Entry `i` is the last one of that upper-cased key that is not passed over. */
  predicate LastKept(entries: seq<Entry>, i: int, key: string) {
    && 0 <= i < |entries| && Upper(entries[i].key) == key && !Skipped(entries[i].value)
    && forall k :: i < k < |entries| && Upper(entries[k].key) == key ==> Skipped(entries[k].value)
  }

  predicate NoneKept(entries: seq<Entry>, key: string) {
    forall k :: 0 <= k < |entries| && Upper(entries[k].key) == key ==> Skipped(entries[k].value)
  }

  /** Such a value's text: a string's own, the empty one included, "true" or "false", a number's literal. */
  ghost predicate IsText(v: Value, text: string) {
    && (v.Str? ==> text == v.s)
    && (v.Bool? ==> text == if v.b then "true" else "false")
    && (v.JsonNumber? ==> text == v.literal)
  }

  lemma {:induction false} LastKeptText(entries: seq<Entry>, i: int, key: string)
    requires LastKept(entries, i, key)
    ensures LastText(entries, key).Some? && IsText(entries[i].value, LastText(entries, key).value)
    decreases |entries|
  {
    var n := |entries| - 1;
    if i < n {
      assert LastKept(entries[..n], i, key);
      LastKeptText(entries[..n], i, key);
    }
  }

  lemma {:induction false} NoneKeptText(entries: seq<Entry>, key: string)
    requires NoneKept(entries, key)
    ensures LastText(entries, key).None?
    decreases |entries|
  {
    if entries != [] {
      NoneKeptText(entries[..|entries| - 1], key);
    }
  }

  /**
   * Main result: a name that is no file's is bound to the text of its last entry that is not
   * passed over, whatever entries of other kinds come after it; without one the inherited value
   * stays, as it does for a file's name.
   */
  lemma LastKeptBinds(inherited: seq<string>, entries: seq<Entry>, name: string)
    requires PlainKeys(entries) && '=' !in name
    ensures var bound := Binding(inherited + ExportVars(entries), name);
            && (forall i :: LastKept(entries, i, name) && Slot(name).None? ==>
                  bound.Some? && IsText(entries[i].value, bound.value))
            && (NoneKept(entries, name) || Slot(name).Some? ==> bound == Binding(inherited, name))
  {
    LastWriterWins(inherited, entries, name);
    forall i | LastKept(entries, i, name)
      ensures LastText(entries, name).Some? && IsText(entries[i].value, LastText(entries, name).value)
    {
      LastKeptText(entries, i, name);
    }
    if NoneKept(entries, name) {
      NoneKeptText(entries, name);
    }
  }

  /** Main result: and a file's path and content are the texts of the last such entries of its two keys. */
  lemma LastKeptFills(entries: seq<Entry>, name: string)
    requires '\n' !in name
    ensures var path, content := "KFILE_" + name + "_PATH", "KFILE_" + name + "_CONTENT";
            var files := FilesOf(entries);
            && (forall i :: LastKept(entries, i, path) ==> name in files && IsText(entries[i].value, files[name].path))
            && (forall i :: LastKept(entries, i, content) ==> name in files && IsText(entries[i].value, files[name].content))
            && (NoneKept(entries, path) && name in files ==> files[name].path == "")
            && (NoneKept(entries, content) && name in files ==> files[name].content == "")
            && (NoneKept(entries, path) && NoneKept(entries, content) ==> name !in files)
  {
    FilesPairLastTexts(entries, name);
    assert FileKey(name, PATH) == "KFILE_" + name + "_PATH";
    assert FileKey(name, CONTENT) == "KFILE_" + name + "_CONTENT";
    forall i, key | LastKept(entries, i, key)
      ensures LastText(entries, key).Some? && IsText(entries[i].value, LastText(entries, key).value)
    {
      LastKeptText(entries, i, key);
    }
    forall key | NoneKept(entries, key)
      ensures LastText(entries, key).None?
    {
      NoneKeptText(entries, key);
    }
  }

  // ---------------------------------------------------------------- confluence

  /** The sequence lists the map: each of its entries once, in some order. */
  ghost predicate ListsMap(entries: seq<Entry>, m: Entries) {
    && (forall i :: 0 <= i < |entries| ==> entries[i].key in m && m[entries[i].key] == entries[i].value)
    && (forall i, j :: 0 <= i < j < |entries| ==> entries[i].key != entries[j].key)
    && (forall k :: k in m ==> Entry(k, m[k]) in entries)
  }

  predicate Same(m: Entries, k: string, k': string)
    requires k in m && k' in m
  {
    Upper(k) == Upper(k') && ExportText(m[k]).Some? && ExportText(m[k']).Some?
    ==> ExportText(m[k]) == ExportText(m[k'])
  }

  /** No two exportable entries give one upper-cased key different texts. */
  ghost predicate Unambiguous(m: Entries) {
    forall k, k' :: k in m && k' in m ==> Same(m, k, k')
  }

  /** No two keys share an upper-cased form: the condition that is easy to see. */
  ghost predicate NoCollision(m: Entries) {
    forall k, k' :: k in m && k' in m && Upper(k) == Upper(k') ==> k == k'
  }

  lemma NoCollisionIsUnambiguous(m: Entries)
    requires NoCollision(m)
    ensures Unambiguous(m)
  {
  }

  lemma {:induction false} LastTextIsListed(entries: seq<Entry>, target: string)
    ensures LastText(entries, target).Some? ==>
              exists e :: e in entries && Upper(e.key) == target && ExportText(e.value) == LastText(entries, target)
    ensures LastText(entries, target).None? ==>
              forall e :: e in entries && Upper(e.key) == target ==> ExportText(e.value).None?
  {
    if entries != [] {
      var n := |entries| - 1;
      LastTextIsListed(entries[..n], target);
      assert entries == entries[..n] + [entries[n]];
      if LastText(entries, target).Some? {
        if Upper(entries[n].key) == target && ExportText(entries[n].value).Some? {
          assert entries[n] in entries;
        } else {
          var e :| e in entries[..n] && Upper(e.key) == target && ExportText(e.value) == LastText(entries, target);
          assert e in entries;
        }
      }
    }
  }

  lemma OrderPreserves(a: seq<Entry>, b: seq<Entry>, m: Entries, target: string)
    requires ListsMap(a, m) && ListsMap(b, m) && Unambiguous(m) && LastText(a, target).Some?
    ensures LastText(b, target) == LastText(a, target)
  {
    LastTextIsListed(a, target);
    LastTextIsListed(b, target);
    var e :| e in a && Upper(e.key) == target && ExportText(e.value) == LastText(a, target);
    assert Entry(e.key, m[e.key]) in b;
    var e' :| e' in b && Upper(e'.key) == target && ExportText(e'.value) == LastText(b, target);
    assert Same(m, e.key, e'.key);
  }

  lemma OrderIsIrrelevant(a: seq<Entry>, b: seq<Entry>, m: Entries, target: string)
    requires ListsMap(a, m) && ListsMap(b, m) && Unambiguous(m)
    ensures LastText(a, target) == LastText(b, target)
  {
    if LastText(a, target).Some? {
      OrderPreserves(a, b, m, target);
    } else if LastText(b, target).Some? {
      OrderPreserves(b, a, m, target);
    }
  }

  /** Some listing of the map ends with a given key. */
  lemma {:induction false} ListingEndingWith(m: Entries, last: string) returns (entries: seq<Entry>)
    requires last in m
    ensures ListsMap(entries, m) && entries != [] && entries[|entries| - 1] == Entry(last, m[last])
    decreases |m|
  {
    var rest := m - {last};
    assert m.Keys == rest.Keys + {last};
    var before: seq<Entry> := [];
    if rest != map[] {
      var k :| k in rest;
      before := ListingEndingWith(rest, k);
    }
    ListingAppends(before, m, last);
    entries := before + [Entry(last, m[last])];
  }

  lemma ListingAppends(before: seq<Entry>, m: Entries, last: string)
    requires last in m && ListsMap(before, m - {last})
    ensures ListsMap(before + [Entry(last, m[last])], m)
  {
    var entries := before + [Entry(last, m[last])];
    forall k | k in m
      ensures Entry(k, m[k]) in entries
    {
      if k == last {
        assert entries[|before|] == Entry(last, m[last]);
      } else {
        assert k in m - {last} && Entry(k, (m - {last})[k]) in before;
      }
    }
  }

  /** Main result, one map: the order it is visited in is invisible exactly when it is unambiguous. */
  lemma OrderIrrelevantIff(m: Entries)
    ensures Unambiguous(m) <==>
              forall a, b, target :: ListsMap(a, m) && ListsMap(b, m) ==> LastText(a, target) == LastText(b, target)
  {
    if Unambiguous(m) {
      forall a, b, target | ListsMap(a, m) && ListsMap(b, m)
        ensures LastText(a, target) == LastText(b, target)
      {
        OrderIsIrrelevant(a, b, m, target);
      }
    } else {
      var k, k' :| k in m && k' in m && !Same(m, k, k');
      var a := ListingEndingWith(m, k);
      var b := ListingEndingWith(m, k');
      assert LastText(a, Upper(k)) != LastText(b, Upper(k));
    }
  }

  /** No visit fails, and each lists its map in an order of its own. */
  ghost predicate Reading(v: seq<Visit>, maps: seq<Entries>) {
    && |v| == |maps|
    && forall i :: 0 <= i < |maps| ==> v[i].Lists? && ListsMap(v[i].entries, maps[i])
  }

  /** Two readings of the same store, each range loop going its own way. */
  ghost predicate SameMaps(v: seq<Visit>, w: seq<Visit>, maps: seq<Entries>) {
    Reading(v, maps) && Reading(w, maps)
  }

  lemma ReadingPrefix(v: seq<Visit>, maps: seq<Entries>)
    requires Reading(v, maps) && maps != []
    ensures Reading(v[..|maps| - 1], maps[..|maps| - 1])
    ensures v[|maps| - 1].Lists? && ListsMap(v[|maps| - 1].entries, maps[|maps| - 1])
  {
  }

  lemma {:induction false} VisitsAgree(v: seq<Visit>, w: seq<Visit>, maps: seq<Entries>, target: string)
    requires SameMaps(v, w, maps) && forall m :: m in maps ==> Unambiguous(m)
    ensures LastText(Visited(v), target) == LastText(Visited(w), target)
    decreases |maps|
  {
    if maps != [] {
      var n := |maps| - 1;
      ReadingPrefix(v, maps);
      ReadingPrefix(w, maps);
      VisitsAgree(v[..n], w[..n], maps[..n], target);
      LastVisitsAgree(v[n], w[n], maps[n], target);
      OneMoreVisitText(v, target);
      OneMoreVisitText(w, target);
    } else {
      assert v == w;
    }
  }

  lemma LastVisitsAgree(v: Visit, w: Visit, m: Entries, target: string)
    requires v.Lists? && w.Lists? && ListsMap(v.entries, m) && ListsMap(w.entries, m) && Unambiguous(m)
    ensures TextOf(v, target) == TextOf(w, target)
  {
    OrderIsIrrelevant(v.entries, w.entries, m, target);
  }

  /** The two builds get the same text for every target. */
  ghost predicate SameTexts(v: seq<Visit>, w: seq<Visit>) {
    forall target :: LastText(Visited(v), target) == LastText(Visited(w), target)
  }

  /** Texts are all that matters to the environment. */
  lemma SameTextsBuildAlike(inherited: seq<string>, v: seq<Visit>, w: seq<Visit>)
    requires SameTexts(v, w) && PlainKeys(Visited(v)) && PlainKeys(Visited(w))
    ensures forall name :: '=' !in name ==> Bound(inherited, v, name) == Bound(inherited, w, name)
    ensures FilesOf(Visited(v)) == FilesOf(Visited(w))
  {
    forall name | '=' !in name
      ensures Bound(inherited, v, name) == Bound(inherited, w, name)
    {
      LastWriterWins(inherited, Visited(v), name);
      LastWriterWins(inherited, Visited(w), name);
      assert LastText(Visited(v), name) == LastText(Visited(w), name);
    }
    var f, g := FilesOf(Visited(v)), FilesOf(Visited(w));
    forall name
      ensures name in f <==> name in g
      ensures name in f ==> f[name] == g[name]
    {
      FilesPairLastTexts(Visited(v), name);
      FilesPairLastTexts(Visited(w), name);
    }
  }

  /**
   * Main result: if no scope's map is ambiguous, every effective binding and the whole Files map
   * are the same for every iteration order of every map.
   */
  lemma BuildIsConfluent(inherited: seq<string>, v: seq<Visit>, w: seq<Visit>, maps: seq<Entries>)
    requires SameMaps(v, w, maps) && forall m :: m in maps ==> Unambiguous(m)
    requires PlainKeys(Visited(v)) && PlainKeys(Visited(w))
    ensures forall name :: '=' !in name ==> Bound(inherited, v, name) == Bound(inherited, w, name)
    ensures FilesOf(Visited(v)) == FilesOf(Visited(w))
  {
    forall target
      ensures LastText(Visited(v), target) == LastText(Visited(w), target)
    {
      VisitsAgree(v, w, maps, target);
    }
    SameTextsBuildAlike(inherited, v, w);
  }

  /** The condition that is easy to see suffices: no two keys of one scope share an upper-cased form. */
  lemma DistinctKeysBuildAlike(inherited: seq<string>, v: seq<Visit>, w: seq<Visit>, maps: seq<Entries>)
    requires SameMaps(v, w, maps) && forall m :: m in maps ==> NoCollision(m)
    requires PlainKeys(Visited(v)) && PlainKeys(Visited(w))
    ensures forall name :: '=' !in name ==> Bound(inherited, v, name) == Bound(inherited, w, name)
    ensures FilesOf(Visited(v)) == FilesOf(Visited(w))
  {
    forall m | m in maps
      ensures Unambiguous(m)
    {
      NoCollisionIsUnambiguous(m);
    }
    BuildIsConfluent(inherited, v, w, maps);
  }

  // ---------------------------------------------------------------- exactly when the order shows

  /** The texts the map's exportable keys give the target. */
  ghost function TextsOf(m: Entries, target: string): set<string> {
    set k | k in m && Upper(k) == target && ExportText(m[k]).Some? :: ExportText(m[k]).value
  }

  /** They are all the same. */
  ghost predicate UnambiguousAt(m: Entries, target: string) {
    forall x, y :: x in TextsOf(m, target) && y in TextsOf(m, target) ==> x == y
  }

  /** How many maps there are up to and including the last that gives the target a text; 0 when none does. */
  ghost function LastGiving(maps: seq<Entries>, target: string): (g: nat)
    ensures g <= |maps|
    ensures g > 0 ==> TextsOf(maps[g - 1], target) != {}
  {
    if maps == [] then 0
    else if TextsOf(maps[|maps| - 1], target) != {} then |maps|
    else LastGiving(maps[..|maps| - 1], target)
  }

  /** No map gives the target a text, or the last that does gives it one only. */
  ghost predicate Settled(maps: seq<Entries>, target: string) {
    var g := LastGiving(maps, target);
    g == 0 || UnambiguousAt(maps[g - 1], target)
  }

  lemma ListingText(entries: seq<Entry>, m: Entries, target: string)
    requires ListsMap(entries, m)
    ensures match LastText(entries, target)
            case Some(text) => text in TextsOf(m, target)
            case None => TextsOf(m, target) == {}
  {
    LastTextIsListed(entries, target);
    if LastText(entries, target).Some? {
      var e :| e in entries && Upper(e.key) == target && ExportText(e.value) == LastText(entries, target);
      assert e.key in m;
    } else {
      forall k | k in m && Upper(k) == target
        ensures ExportText(m[k]).None?
      {
        assert Entry(k, m[k]) in entries;
      }
    }
  }

  /** The text is one of those that the last map to give any gives. */
  ghost predicate ReadsAs(text: Option<string>, maps: seq<Entries>, target: string) {
    var g := LastGiving(maps, target);
    if g == 0 then text.None? else text.Some? && text.value in TextsOf(maps[g - 1], target)
  }

  lemma {:induction false} ReadingText(v: seq<Visit>, maps: seq<Entries>, target: string)
    requires Reading(v, maps)
    ensures ReadsAs(LastText(Visited(v), target), maps, target)
    decreases |maps|
  {
    if maps == [] {
      assert Visited(v) == [];
    } else {
      var n := |maps| - 1;
      ReadingPrefix(v, maps);
      ReadingText(v[..n], maps[..n], target);
      OneMoreVisitText(v, target);
      ListingText(v[n].entries, maps[n], target);
      OneMoreReadsAs(LastText(Visited(v[..n]), target), TextOf(v[n], target), maps, target);
    }
  }

  lemma OneMoreReadsAs(before: Option<string>, last: Option<string>, maps: seq<Entries>, target: string)
    requires maps != [] && ReadsAs(before, maps[..|maps| - 1], target)
    requires match last
             case Some(text) => text in TextsOf(maps[|maps| - 1], target)
             case None => TextsOf(maps[|maps| - 1], target) == {}
    ensures ReadsAs(OrElse(last, before), maps, target)
  {
    if last.None? {
      assert LastGiving(maps, target) == LastGiving(maps[..|maps| - 1], target);
    }
  }

  lemma SettledReadsOnce(a: Option<string>, b: Option<string>, maps: seq<Entries>, target: string)
    requires ReadsAs(a, maps, target) && ReadsAs(b, maps, target) && Settled(maps, target)
    ensures a == b
  {
  }

  lemma Listing(m: Entries) returns (entries: seq<Entry>)
    ensures ListsMap(entries, m)
  {
    if m == map[] {
      entries := [];
    } else {
      var k :| k in m;
      entries := ListingEndingWith(m, k);
    }
  }

  /** Each of the texts that the last map gives is read in some order. */
  lemma {:induction false} SomeReading(maps: seq<Entries>, target: string, text: string) returns (v: seq<Visit>)
    requires var g := LastGiving(maps, target); g > 0 ==> text in TextsOf(maps[g - 1], target)
    ensures Reading(v, maps)
    ensures LastGiving(maps, target) > 0 ==> LastText(Visited(v), target) == Some(text)
    decreases |maps|
  {
    if maps == [] {
      v := [];
    } else {
      var n := |maps| - 1;
      var entries: seq<Entry>;
      var before: seq<Visit>;
      if TextsOf(maps[n], target) != {} {
        entries := ListingWith(maps[n], target, text);
        before := AnyReading(maps[..n]);
      } else {
        entries := Listing(maps[n]);
        ListingText(entries, maps[n], target);
        before := SomeReading(maps[..n], target, text);
      }
      v := before + [Lists(entries)];
      assert v[..n] == before;
      OneMoreVisitText(v, target);
      ReadingAppends(before, maps, entries);
    }
  }

  lemma {:induction false} AnyReading(maps: seq<Entries>) returns (v: seq<Visit>)
    ensures Reading(v, maps)
    decreases |maps|
  {
    if maps == [] {
      v := [];
    } else {
      var before := AnyReading(maps[..|maps| - 1]);
      var entries := Listing(maps[|maps| - 1]);
      v := before + [Lists(entries)];
      ReadingAppends(before, maps, entries);
    }
  }

  lemma ReadingAppends(before: seq<Visit>, maps: seq<Entries>, entries: seq<Entry>)
    requires maps != [] && Reading(before, maps[..|maps| - 1]) && ListsMap(entries, maps[|maps| - 1])
    ensures Reading(before + [Lists(entries)], maps)
  {
  }

  lemma ListingWith(m: Entries, target: string, text: string) returns (entries: seq<Entry>)
    requires text in TextsOf(m, target)
    ensures ListsMap(entries, m) && LastText(entries, target) == Some(text)
  {
    var k :| k in m && Upper(k) == target && ExportText(m[k]) == Some(text);
    entries := ListingEndingWith(m, k);
  }

  /** The text a target gets is the same for all range orders. */
  ghost predicate TextIsFixed(maps: seq<Entries>, target: string) {
    forall v, w :: SameMaps(v, w, maps) ==> LastText(Visited(v), target) == LastText(Visited(w), target)
  }

  /** Main result: exactly if no map gives the target one, or the last that does is unambiguous there. */
  lemma TextFixedIff(maps: seq<Entries>, target: string)
    ensures TextIsFixed(maps, target) <==> Settled(maps, target)
  {
    if Settled(maps, target) {
      forall v, w | SameMaps(v, w, maps)
        ensures LastText(Visited(v), target) == LastText(Visited(w), target)
      {
        FixedForTwo(v, w, maps, target);
      }
    } else {
      var v, w := TwoTexts(maps, target);
    }
  }

  lemma FixedForTwo(v: seq<Visit>, w: seq<Visit>, maps: seq<Entries>, target: string)
    requires SameMaps(v, w, maps) && Settled(maps, target)
    ensures LastText(Visited(v), target) == LastText(Visited(w), target)
  {
    ReadingText(v, maps, target);
    ReadingText(w, maps, target);
    SettledReadsOnce(LastText(Visited(v), target), LastText(Visited(w), target), maps, target);
  }

  /** Two readings that give an ambiguous target different texts. */
  lemma TwoTexts(maps: seq<Entries>, target: string) returns (v: seq<Visit>, w: seq<Visit>)
    requires !Settled(maps, target)
    ensures SameMaps(v, w, maps)
    ensures LastText(Visited(v), target).Some? && LastText(Visited(w), target).Some?
    ensures LastText(Visited(v), target) != LastText(Visited(w), target)
  {
    var m := maps[LastGiving(maps, target) - 1];
    var x, y :| x in TextsOf(m, target) && y in TextsOf(m, target) && x != y;
    v := SomeReading(maps, target, x);
    w := SomeReading(maps, target, y);
  }

  predicate PlainMaps(maps: seq<Entries>) {
    forall i, k :: 0 <= i < |maps| && k in maps[i] ==> '=' !in k
  }

  lemma {:induction false} ReadingIsPlain(v: seq<Visit>, maps: seq<Entries>)
    requires Reading(v, maps) && PlainMaps(maps)
    ensures PlainKeys(Visited(v))
    decreases |maps|
  {
    if maps == [] {
      assert Visited(v) == [];
    } else {
      var n := |maps| - 1;
      ReadingPrefix(v, maps);
      ReadingIsPlain(v[..n], maps[..n]);
    }
  }

  ghost predicate BindingIsFixed(inherited: seq<string>, maps: seq<Entries>, name: string) {
    forall v, w :: SameMaps(v, w, maps) ==> Bound(inherited, v, name) == Bound(inherited, w, name)
  }

  /**
   * Main result, for a whole build: a binding is the same for every range order of every map
   * exactly if the name is a file's, or no map gives it a text, or the last map that does is
   * unambiguous at that name.
   */
  lemma BindingFixedIff(inherited: seq<string>, maps: seq<Entries>, name: string)
    requires PlainMaps(maps) && '=' !in name
    ensures BindingIsFixed(inherited, maps, name) <==> Slot(name).Some? || Settled(maps, name)
  {
    if Slot(name).Some? || Settled(maps, name) {
      forall v, w | SameMaps(v, w, maps)
        ensures Bound(inherited, v, name) == Bound(inherited, w, name)
      {
        if Slot(name).None? {
          FixedForTwo(v, w, maps, name);
        }
        SameTextSameBinding(inherited, v, w, maps, name);
      }
    } else {
      BindingNotFixed(inherited, maps, name);
    }
  }

  lemma SameTextSameBinding(inherited: seq<string>, v: seq<Visit>, w: seq<Visit>, maps: seq<Entries>, name: string)
    requires SameMaps(v, w, maps) && PlainMaps(maps) && '=' !in name
    requires Slot(name).Some? || LastText(Visited(v), name) == LastText(Visited(w), name)
    ensures Bound(inherited, v, name) == Bound(inherited, w, name)
  {
    ReadingBinds(inherited, v, maps, name);
    ReadingBinds(inherited, w, maps, name);
  }

  lemma BindingNotFixed(inherited: seq<string>, maps: seq<Entries>, name: string)
    requires PlainMaps(maps) && '=' !in name && Slot(name).None?
    requires !Settled(maps, name)
    ensures !BindingIsFixed(inherited, maps, name)
  {
    var v, w := TwoTexts(maps, name);
    ReadingBinds(inherited, v, maps, name);
    ReadingBinds(inherited, w, maps, name);
  }

  lemma ReadingBinds(inherited: seq<string>, v: seq<Visit>, maps: seq<Entries>, name: string)
    requires Reading(v, maps) && PlainMaps(maps) && '=' !in name
    ensures Bound(inherited, v, name)
         == if Slot(name).Some? then Binding(inherited, name)
            else OrElse(LastText(Visited(v), name), Binding(inherited, name))
  {
    ReadingIsPlain(v, maps);
    LastWriterWins(inherited, Visited(v), name);
  }

  /** The file of that name in the environment built from these visits. */
  function FileBuilt(visits: seq<Visit>, name: string): Option<FileText> {
    if name in FilesOf(Visited(visits)) then Some(FilesOf(Visited(visits))[name]) else None
  }

  /** A file made of a last path and a last content, if there is either. */
  function PairUp(path: Option<string>, content: Option<string>): Option<FileText> {
    if path.None? && content.None? then None else Some(FileText(path.GetOr(""), content.GetOr("")))
  }

  lemma FileBuiltIs(visits: seq<Visit>, name: string)
    ensures FileBuilt(visits, name)
         == if '\n' in name then None
            else PairUp(LastText(Visited(visits), FileKey(name, PATH)), LastText(Visited(visits), FileKey(name, CONTENT)))
  {
    FilesPairLastTexts(Visited(visits), name);
  }

  ghost predicate FileIsFixed(maps: seq<Entries>, name: string) {
    forall v, w :: SameMaps(v, w, maps) ==> FileBuilt(v, name) == FileBuilt(w, name)
  }

  /** Main result: and a file is, exactly if both of its texts are, or it can have none. */
  lemma FileFixedIff(maps: seq<Entries>, name: string)
    ensures FileIsFixed(maps, name)
       <==> '\n' in name || (TextIsFixed(maps, FileKey(name, PATH)) && TextIsFixed(maps, FileKey(name, CONTENT)))
  {
    var path, content := FileKey(name, PATH), FileKey(name, CONTENT);
    if '\n' in name || (TextIsFixed(maps, path) && TextIsFixed(maps, content)) {
      forall v, w | SameMaps(v, w, maps)
        ensures FileBuilt(v, name) == FileBuilt(w, name)
      {
        FileBuiltIs(v, name);
        FileBuiltIs(w, name);
      }
    } else {
      var part := if TextIsFixed(maps, path) then CONTENT else PATH;
      TextFixedIff(maps, FileKey(name, part));
      FileNotFixed(maps, name, part);
    }
  }

  lemma FileNotFixed(maps: seq<Entries>, name: string, part: string)
    requires '\n' !in name && IsSuffix(part) && !Settled(maps, FileKey(name, part))
    ensures !FileIsFixed(maps, name)
  {
    var v, w := TwoTexts(maps, FileKey(name, part));
    FileBuiltIs(v, name);
    FileBuiltIs(w, name);
    PairsDiffer(LastText(Visited(v), FileKey(name, PATH)), LastText(Visited(v), FileKey(name, CONTENT)),
                LastText(Visited(w), FileKey(name, PATH)), LastText(Visited(w), FileKey(name, CONTENT)));
  }

  lemma PairsDiffer(path: Option<string>, content: Option<string>, path': Option<string>, content': Option<string>)
    ensures || (path.Some? && path'.Some? && path != path')
            || (content.Some? && content'.Some? && content != content')
            ==> PairUp(path, content) != PairUp(path', content')
  {
  }
}
