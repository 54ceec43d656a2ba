/**
 * pkg/config BuildCmdEnv: the child's environment and files, folded over apps, scopes and
 * unordered maps.
 */
module CommandEnv {
  import opened Outcomes
  import opened Text
  import opened Values
  import opened KeyGrammar
  import opened StoreKeys

  /** One key and value, in the order the range loop happens to visit them. */
  datatype Entry = Entry(key: string, value: Value)

  /** What Read and GetEntries of one (app, scope) give: a panic, or the map in some order. */
  datatype Visit = Fails | Lists(entries: seq<Entry>)

  /** A File's two fields, as a value. */
  datatype FileText = FileText(path: string, content: string)

  const KAIGARA := "KAIGARA_"

  /** The text a value has in the environment; None for what is skipped. */
  function ExportText(v: Value): Option<string> {
    match v
    case Str(s) => Some(s)
    case Bool(b) => Some(if b then "true" else "false")
    case JsonNumber(literal) => if literal == "" then None else Some(literal)
    case _ => None
  }

  // ---------------------------------------------------------------- specification functions

  function Inherited(currentEnv: seq<string>): seq<string> {
    if currentEnv == [] then []
    else
      var v := currentEnv[|currentEnv| - 1];
      Inherited(currentEnv[..|currentEnv| - 1]) + if KAIGARA <= v then [] else [v]
  }

  function AddVar(vars: seq<string>, e: Entry): seq<string> {
    if ExportText(e.value).Some? && Slot(e.key).None? then vars + [Upper(e.key) + "=" + ExportText(e.value).value]
    else vars
  }

  function AddFile(files: map<string, FileText>, e: Entry): map<string, FileText> {
    if ExportText(e.value).None? || Slot(e.key).None? then files
    else
      var (name, suffix) := Slot(e.key).value;
      var text := ExportText(e.value).value;
      var f := if name in files then files[name] else FileText("", "");
      files[name := if suffix == PATH then f.(path := text) else f.(content := text)]
  }

  function ExportVars(entries: seq<Entry>): seq<string> {
    if entries == [] then [] else AddVar(ExportVars(entries[..|entries| - 1]), entries[|entries| - 1])
  }

  function FilesOf(entries: seq<Entry>): map<string, FileText> {
    if entries == [] then map[] else AddFile(FilesOf(entries[..|entries| - 1]), entries[|entries| - 1])
  }

  /**
   * What the calls give: `store(n, key)` is what the n-th Read and GetEntries give, which ask for
   * that key. The answer may change from call to call, as other processes write.
   */
  function Asked(store: (nat, Key) -> Visit, keys: seq<Key>): seq<Visit> {
    seq(|keys|, n requires 0 <= n < |keys| => store(n, keys[n]))
  }

  /** All entries in visiting order. */
  function Visited(visits: seq<Visit>): seq<Entry> {
    if visits == [] then []
    else
      var last := visits[|visits| - 1];
      Visited(visits[..|visits| - 1]) + if last.Lists? then last.entries else []
  }

  // ---------------------------------------------------------------- the environment

  class File {
    var path: string
    var content: string

    constructor ()
      ensures path == "" && content == ""
    {
      path, content := "", "";
    }
  }

  class Env {
    var vars: seq<string>
    var files: map<string, File>

    constructor ()
      ensures vars == [] && files == map[]
    {
      vars, files := [], map[];
    }

    /** Every name has a File of its own. */
    ghost predicate Valid()
      reads this
    {
      forall m, n :: m in files && n in files && m != n ==> files[m] != files[n]
    }

    ghost function View(): map<string, FileText>
      reads this, files.Values
    {
      map n | n in files :: FileText(files[n].path, files[n].content)
    }

    /** The body of the innermost loop. */
    method Add(e: Entry)
      requires Valid()
      modifies this, files.Values
      ensures Valid() && fresh(files.Values - old(files.Values))
      ensures vars == AddVar(old(vars), e)
      ensures View() == AddFile(old(View()), e)
    {
      if e.value.Map? || e.value.Slice? {
        return;
      }
      var val := "";
      if e.value.Bool? {
        val := if e.value.b then "true" else "false";
      }
      if e.value.JsonNumber? {
        val := e.value.literal;
      }
      if val == "" {
        if e.value.Str? {
          val := e.value.s;
        } else {
          return;
        }
      }
      var m := FindSubmatch(e.key);
      if m.None? {
        vars := vars + [Upper(e.key) + "=" + val];
        return;
      }
      SlotIff(e.key, "", PATH);
      Place(Upper(m.value.0), Upper(m.value.1), val);
    }

    method Place(name: string, suffix: string, val: string)
      requires Valid() && IsSuffix(suffix)
      modifies this, files.Values
      ensures Valid() && fresh(files.Values - old(files.Values))
      ensures vars == old(vars)
      ensures var f := if name in old(View()) then old(View())[name] else FileText("", "");
              View() == old(View())[name := if suffix == PATH then f.(path := val) else f.(content := val)]
    {
      if name !in files {
        var f := new File();
        files := files[name := f];
      }
      assert files[name] in files.Values;
      if suffix == PATH {
        files[name].path := val;
      } else {
        files[name].content := val;
      }
    }
  }

  /** The innermost loop: one map, in the order it is visited. */
  method AddAll(e: Env, entries: seq<Entry>, ghost currentEnv: seq<string>, ghost visits: seq<Visit>)
    requires e.Valid() && Built(e, currentEnv, visits, [])
    modifies e, e.files.Values
    ensures e.Valid() && fresh(e.files.Values - old(e.files.Values))
    ensures Built(e, currentEnv, visits + [Lists(entries)], [])
  {
    var k := 0;
    while k < |entries|
      invariant 0 <= k <= |entries| && e.Valid() && fresh(e.files.Values - old(e.files.Values))
      invariant Built(e, currentEnv, visits, entries[..k])
    {
      OneMoreEntry(Visited(visits), entries, k);
      e.Add(entries[k]);
      k := k + 1;
    }
    assert entries[..k] == entries;
    VisitBuilt(e, currentEnv, visits, entries);
  }

  /** The loop over the scopes of the i-th app; false when a visit panics. */
  method AddApp(e: Env, store: (nat, Key) -> Visit, apps: seq<string>, i: nat, scopes: seq<string>, ghost currentEnv: seq<string>)
    returns (ok: bool)
    requires e.Valid() && i < |apps| && Built(e, currentEnv, Asked(store, KeysUpTo(apps, scopes, i, 0)), [])
    modifies e, e.files.Values
    ensures e.Valid() && fresh(e.files.Values - old(e.files.Values))
    ensures if ok then Built(e, currentEnv, Asked(store, KeysUpTo(apps, scopes, i + 1, 0)), [])
            else Fails in Asked(store, Pairs(apps, scopes))
  {
    var calls := i * |scopes|;
    var j := 0;
    while j < |scopes|
      invariant 0 <= j <= |scopes| && calls == Position(scopes, i, j)
      invariant e.Valid() && fresh(e.files.Values - old(e.files.Values))
      invariant Built(e, currentEnv, Asked(store, KeysUpTo(apps, scopes, i, j)), [])
    {
      AskedNext(store, apps, scopes, i, j);
      var found := store(calls, Key(apps[i], scopes[j]));
      if found.Fails? {
        return false;
      }
      AddAll(e, found.entries, currentEnv, Asked(store, KeysUpTo(apps, scopes, i, j)));
      calls, j := calls + 1, j + 1;
    }
    ok := true;
  }

  method BuildCmdEnv(appNames: seq<string>, store: (nat, Key) -> Visit, currentEnv: seq<string>, scopes: seq<string>)
    returns (env: Env?)
    ensures var visits := Asked(store, Pairs(["global"] + appNames, scopes));
            && (env == null <==> Fails in visits)
            && (env != null ==> fresh(env) && env.vars == Inherited(currentEnv) + ExportVars(Visited(visits)))
            && (env != null ==> env.View() == FilesOf(Visited(visits)))
  {
    var e := new Env();
    var v := 0;
    while v < |currentEnv|
      invariant 0 <= v <= |currentEnv| && e.files == map[]
      invariant e.vars == Inherited(currentEnv[..v])
    {
      assert currentEnv[..v + 1][..v] == currentEnv[..v];
      if !(KAIGARA <= currentEnv[v]) {
        e.vars := e.vars + [currentEnv[v]];
      }
      v := v + 1;
    }
    assert currentEnv[..v] == currentEnv;
    var apps := [GLOBAL] + appNames;
    var i := 0;
    while i < |apps|
      invariant 0 <= i <= |apps| && fresh(e) && e.Valid() && fresh(e.files.Values)
      invariant Built(e, currentEnv, Asked(store, KeysUpTo(apps, scopes, i, 0)), [])
    {
      var ok := AddApp(e, store, apps, i, scopes, currentEnv);
      if !ok {
        return null;
      }
      i := i + 1;
    }
    assert Visited(Asked(store, Pairs(apps, scopes))) + [] == Visited(Asked(store, Pairs(apps, scopes)));
    return e;
  }

  /** The environment after all of `visits` and the first entries of the next one. */
  ghost predicate Built(e: Env, currentEnv: seq<string>, visits: seq<Visit>, more: seq<Entry>)
    reads e, e.files.Values
  {
    && Fails !in visits
    && e.vars == Inherited(currentEnv) + ExportVars(Visited(visits) + more)
    && e.View() == FilesOf(Visited(visits) + more)
  }

  lemma VisitBuilt(e: Env, currentEnv: seq<string>, visits: seq<Visit>, entries: seq<Entry>)
    requires Built(e, currentEnv, visits, entries)
    ensures Built(e, currentEnv, visits + [Lists(entries)], [])
  {
    OneMoreVisit(visits, Lists(entries));
  }

  lemma OneMoreEntry(before: seq<Entry>, entries: seq<Entry>, k: nat)
    requires k < |entries|
    ensures ExportVars(before + entries[..k + 1]) == AddVar(ExportVars(before + entries[..k]), entries[k])
    ensures FilesOf(before + entries[..k + 1]) == AddFile(FilesOf(before + entries[..k]), entries[k])
  {
    assert (before + entries[..k + 1])[..|before| + k] == before + entries[..k];
  }

  lemma OneMoreVisit(visits: seq<Visit>, found: Visit)
    requires found.Lists?
    ensures Visited(visits + [found]) + [] == Visited(visits) + found.entries
  {
    assert (visits + [found])[..|visits|] == visits;
  }

  /** The next call is for the next scope, and what it gives is the next visit; a failure stays in the list. */
  lemma AskedNext(store: (nat, Key) -> Visit, apps: seq<string>, scopes: seq<string>, i: nat, j: nat)
    requires i < |apps| && j < |scopes|
    ensures var found := store(Position(scopes, i, j), Key(apps[i], scopes[j]));
            && Asked(store, KeysUpTo(apps, scopes, i, j + 1)) == Asked(store, KeysUpTo(apps, scopes, i, j)) + [found]
            && (found.Fails? ==> Fails in Asked(store, Pairs(apps, scopes)))
  {
    KeysLength(apps, scopes, i, j);
    PairAt(apps, scopes, i, j);
    var visits := Asked(store, Pairs(apps, scopes));
    assert visits[Position(scopes, i, j)] in visits;
  }
}
