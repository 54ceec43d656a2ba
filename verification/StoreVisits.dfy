/**
 * The store behind BuildCmdEnv and kaienv: what Read and GetEntries of one (app, scope) give on
 * either backend, and when two backends holding the same documents build the same environment.
 */
module StoreVisits {
  import opened Outcomes
  import opened Text
  import opened Values
  import opened KeyGrammar
  import opened CommandEnv
  import opened EnvMeaning
  import Sql = SqlStore
  import Vault = VaultStore

  /** The entries a scope yields, None when GetEntries fails; then a range loop lists them in some order. */
  ghost predicate Gives(scope: Option<Entries>, visit: Visit) {
    match scope
    case None => visit.Fails?
    case Some(m) => visit.Lists? && ListsMap(visit.entries, m)
  }

  ghost function SqlScope(num: Numerals, enc: Encryptor, rows: Sql.Table, key: Key): Option<Entries> {
    var ds := map[key := Sql.Loaded(num, rows, key)];
    if Sql.Readable(enc, ds, key) then Some(Sql.FetchAll(enc, ds, key)) else None
  }

  ghost function VaultScope(num: Numerals, enc: Encryptor, kv: Vault.Kv, key: Key): Option<Entries> {
    var s := Vault.AfterRead(num, Vault.State(kv, map[], map[]), key, true).0;
    if Vault.Readable(enc, s, key) then Some(Vault.FetchAll(enc, s, key)) else None
  }

  /** A range loop: every entry once, in an order of its own choosing. */
  method Range(m: Entries) returns (entries: seq<Entry>)
    ensures ListsMap(entries, m)
  {
    entries := [];
    var pending := m.Keys;
    while pending != {}
      invariant pending <= m.Keys
      invariant ListsMap(entries, m - pending)
    {
      var k :| k in pending;
      ListsOneMore(entries, m, pending, k);
      entries, pending := entries + [Entry(k, m[k])], pending - {k};
    }
    assert m - {} == m;
  }

  lemma ListsOneMore(entries: seq<Entry>, m: Entries, pending: set<string>, k: string)
    requires k in pending && pending <= m.Keys && ListsMap(entries, m - pending)
    ensures ListsMap(entries + [Entry(k, m[k])], m - (pending - {k}))
  {
    var more := entries + [Entry(k, m[k])];
    forall k' | k' in m - (pending - {k})
      ensures Entry(k', m[k']) in more
    {
      if k' == k {
        assert more[|entries|] == Entry(k, m[k]);
      } else {
        assert Entry(k', (m - pending)[k']) in entries;
      }
    }
  }

  /** Read and GetEntries on SQL: what they give depends on the stored row alone, not on the cache before. */
  method VisitSql(ss: Sql.StorageService, key: Key, reply: Sql.Reply) returns (visit: Visit)
    modifies ss`ds
    ensures ss.ds == Sql.AfterRead(ss.numerals, ss.db.rows, old(ss.ds), key, reply).0
    ensures if Sql.AfterRead(ss.numerals, ss.db.rows, old(ss.ds), key, reply).1.Done?
            then Gives(SqlScope(ss.numerals, ss.encryptor, ss.db.rows, key), visit)
            else visit.Fails?
  {
    var status := ss.Read(key, reply);
    if !status.Done? {
      return Fails;
    }
    var secrets := ss.GetEntries(key);
    SqlScopeIs(ss.numerals, ss.encryptor, ss.db.rows, ss.ds, key);
    if secrets.Err? {
      return Fails;
    }
    var entries := Range(secrets.value);
    visit := CommandEnv.Lists(entries);
  }

  lemma SqlScopeIs(num: Numerals, enc: Encryptor, rows: Sql.Table, ds: Cache, key: Key)
    requires key in ds && ds[key] == Sql.Loaded(num, rows, key)
    ensures SqlScope(num, enc, rows, key)
         == if Sql.Readable(enc, ds, key) then Some(Sql.FetchAll(enc, ds, key)) else None
  {
    var only := map[key := Sql.Loaded(num, rows, key)];
    assert forall name :: name in ds[key] ==> Sql.Fetch(enc, ds, key, name) == Sql.Fetch(enc, only, key, name);
    assert Sql.Readable(enc, ds, key) <==> Sql.Readable(enc, only, key);
    if Sql.Readable(enc, ds, key) {
      assert Sql.FetchAll(enc, ds, key) == Sql.FetchAll(enc, only, key);
    }
  }

  /** Read and GetEntries on Vault. */
  method VisitVault(vs: Vault.Service, key: Key, reachable: bool) returns (visit: Visit)
    modifies vs
    ensures vs.View() == Vault.AfterRead(vs.numerals, old(vs.View()), key, reachable).0
    ensures if reachable then Gives(VaultScope(vs.numerals, vs.encryptor, vs.vault.secrets, key), visit) else visit.Fails?
  {
    var status := vs.Read(key, reachable);
    if !status.Done? {
      return Fails;
    }
    var secrets := vs.GetEntries(key);
    VaultScopeIs(vs.numerals, vs.encryptor, vs.View(), key);
    if !secrets.Returns? {
      return Fails;
    }
    var entries := Range(secrets.value);
    visit := CommandEnv.Lists(entries);
  }

  lemma VaultScopeIs(num: Numerals, enc: Encryptor, s: Vault.State, key: Key)
    requires key in s.data && s.data[key] == DecodeAll(num, Vault.Stored(s.kv, key))
    ensures VaultScope(num, enc, s.kv, key)
         == if Vault.Readable(enc, s, key) then Some(Vault.FetchAll(enc, s, key)) else None
  {
    var only := Vault.AfterRead(num, Vault.State(s.kv, map[], map[]), key, true).0;
    assert only.data[key] == s.data[key];
    assert forall name :: name in s.data[key] ==> Vault.Fetch(enc, s, key, name) == Vault.Fetch(enc, only, key, name);
    assert Vault.Readable(enc, s, key) <==> Vault.Readable(enc, only, key);
    if Vault.Readable(enc, s, key) {
      assert Vault.FetchAll(enc, s, key) == Vault.FetchAll(enc, only, key);
    }
  }

  // ---------------------------------------------------------------- one scope, two backends

  /** What the environment gets from Vault and not from SQL: numbers, and an entry that takes SQL's reserved name. */
  predicate Hidden(vault: Entries, k: string)
    requires k in vault
  {
    k == Sql.VERSION || vault[k].JsonNumber?
  }

  /** The first map exports what the second does, except what is hidden. */
  ghost predicate Thins(sql: Entries, vault: Entries) {
    && (forall k :: k in vault ==> k in sql
                                   && ExportText(sql[k]) == if Hidden(vault, k) then None else ExportText(vault[k]))
    && (forall k :: k in sql && k !in vault ==> ExportText(sql[k]).None?)
  }

  /** Both backends hold the same document under the key, SQL's reserved name apart. */
  predicate SameDocument(rows: Sql.Table, kv: Vault.Kv, key: Key) {
    Sql.Stored(rows, key) == Vault.Stored(kv, key) - {Sql.VERSION}
  }

  /** What Vault's client holds of a scope after a Read. */
  function VaultRead(exact: Numerals, kv: Vault.Kv, key: Key): Vault.State {
    Vault.AfterRead(exact, Vault.State(kv, map[], map[]), key, true).0
  }

  /** Vault holds an entry under SQL's reserved name, and cannot decrypt it. */
  predicate BadVersion(exact: Numerals, enc: Encryptor, kv: Vault.Kv, key: Key) {
    var s := VaultRead(exact, kv, key);
    key in s.data && Sql.VERSION in s.data[key] && !Vault.Fetch(enc, s, key, Sql.VERSION).Returns?
  }

  /** SQL reads every number as a float64 and puts its version, an int64, under its name: the environment gets neither. */
  lemma ScopesThin(num: Numerals, exact: Numerals, enc: Encryptor, rows: Sql.Table, kv: Vault.Kv, key: Key)
    requires !num.exact && exact.exact && SameDocument(rows, kv, key)
    ensures var sql, vault := SqlScope(num, enc, rows, key), VaultScope(exact, enc, kv, key);
            && (vault.Some? <==> sql.Some? && !BadVersion(exact, enc, kv, key))
            && (vault.Some? ==> Thins(sql.value, vault.value))
  {
    var doc := Sql.Stored(rows, key);
    var ds := map[key := Sql.Loaded(num, rows, key)];
    var s := VaultRead(exact, kv, key);
    assert ds[key].Keys == doc.Keys + {Sql.VERSION};
    assert s.data[key] == DecodeAll(exact, Vault.Stored(kv, key));
    forall name | name in doc
      ensures FetchAlike(Sql.Fetch(enc, ds, key, name), Vault.Fetch(enc, s, key, name))
    {
      assert doc[name] == Vault.Stored(kv, key)[name];
      SameFetch(num, exact, enc, ds, s, key, name, doc[name]);
    }
    AlikeThins(enc, ds, s, key, doc.Keys);
  }

  lemma AlikeThins(enc: Encryptor, ds: Cache, s: Vault.State, key: Key, names: set<string>)
    requires key in ds && ds[key].Keys == names + {Sql.VERSION} && Sql.VERSION !in names && HoldsVersion(ds[key])
    requires key in s.data && s.data[key].Keys - {Sql.VERSION} == names
    requires forall name :: name in names ==> FetchAlike(Sql.Fetch(enc, ds, key, name), Vault.Fetch(enc, s, key, name))
    ensures var bad := Sql.VERSION in s.data[key] && !Vault.Fetch(enc, s, key, Sql.VERSION).Returns?;
            Vault.Readable(enc, s, key) <==> Sql.Readable(enc, ds, key) && !bad
    ensures Vault.Readable(enc, s, key) ==>
              Sql.Readable(enc, ds, key) && Thins(Sql.FetchAll(enc, ds, key), Vault.FetchAll(enc, s, key))
  {
    forall name | name in s.data[key] && name != Sql.VERSION
      ensures name in names
    {
      assert name in s.data[key].Keys - {Sql.VERSION};
    }
    assert forall name :: name in names ==> name in s.data[key].Keys - {Sql.VERSION};
  }

  /** Whatever a SQL scope yields, its version is among it, as an int64. */
  lemma SqlScopeHoldsVersion(num: Numerals, enc: Encryptor, rows: Sql.Table, key: Key)
    ensures var scope := SqlScope(num, enc, rows, key); scope.Some? ==> HoldsVersion(scope.value)
  {
    assert Sql.VERSION in Sql.Loaded(num, rows, key);
  }

  predicate HoldsVersion(m: Entries) {
    Sql.VERSION in m && m[Sql.VERSION].Int64?
  }

  /** Both answer or neither does, and the answers export alike unless Vault's is a number. */
  predicate FetchAlike(sql: Result<Value, Error>, vault: Vault.Answer<Value>) {
    && (sql.Ok? <==> vault.Returns?)
    && (sql.Ok? ==> ExportText(sql.value) == if vault.value.JsonNumber? then None else ExportText(vault.value))
  }

  lemma SameFetch(num: Numerals, exact: Numerals, enc: Encryptor, ds: Cache, s: Vault.State, key: Key, name: string, json: Json)
    requires !num.exact && exact.exact && name != Sql.VERSION
    requires key in ds && name in ds[key] && ds[key][name] == Decode(num, json)
    requires key in s.data && name in s.data[key] && s.data[key][name] == Decode(exact, json)
    ensures FetchAlike(Sql.Fetch(enc, ds, key, name), Vault.Fetch(enc, s, key, name))
  {
  }

  /** Only what is hidden, if anything, gives the target a text. */
  ghost predicate HiddenOnly(vault: Entries, target: string) {
    forall k :: k in vault && Upper(k) == target && ExportText(vault[k]).Some? ==> Hidden(vault, k)
  }

  lemma ThinnedText(a: seq<Entry>, sql: Entries, b: seq<Entry>, vault: Entries, target: string)
    requires ListsMap(a, sql) && ListsMap(b, vault) && Thins(sql, vault) && Unambiguous(vault)
    ensures LastText(a, target) == if HiddenOnly(vault, target) then None else LastText(b, target)
  {
    LastTextIsListed(a, target);
    LastTextIsListed(b, target);
    if LastText(a, target).Some? {
      var e :| e in a && Upper(e.key) == target && ExportText(e.value) == LastText(a, target);
      assert e.key in vault && !Hidden(vault, e.key) && ExportText(vault[e.key]) == LastText(a, target);
      assert Entry(e.key, vault[e.key]) in b;
      var e' :| e' in b && Upper(e'.key) == target && ExportText(e'.value) == LastText(b, target);
      assert Same(vault, e.key, e'.key);
    } else {
      forall k | k in vault && Upper(k) == target && ExportText(vault[k]).Some?
        ensures Hidden(vault, k)
      {
        assert Entry(k, sql[k]) in a;
      }
    }
  }

  // ---------------------------------------------------------------- whole environments

  /** Two readings, SQL's of maps that thin Vault's, none of which is ambiguous. */
  ghost predicate ThinReadings(v: seq<Visit>, sql: seq<Entries>, w: seq<Visit>, vault: seq<Entries>) {
    && |sql| == |vault| && Reading(v, sql) && Reading(w, vault)
    && forall i :: 0 <= i < |vault| ==> Thins(sql[i], vault[i]) && Unambiguous(vault[i])
  }

  /** How many visits there are up to and including the last that gives the target a text; 0 when none does. */
  function LastGiver(w: seq<Visit>, target: string): (g: nat)
    ensures g <= |w|
  {
    if w == [] then 0
    else if TextOf(w[|w| - 1], target).Some? then |w|
    else LastGiver(w[..|w| - 1], target)
  }

  /** What SQL gives: Vault's text or, where only something hidden gave that, what SQL had before. */
  function SqlHas(v: seq<Visit>, w: seq<Visit>, hidden: bool, target: string): Option<string>
    requires |v| == |w|
  {
    var g := LastGiver(w, target);
    if g == 0 then None
    else if hidden then LastText(Visited(v[..g - 1]), target)
    else LastText(Visited(w), target)
  }

  /** The last scope that gives the target a text gives it only what SQL hides. */
  ghost predicate LastIsHidden(w: seq<Visit>, vault: seq<Entries>, target: string)
    requires |w| == |vault|
  {
    LastGiver(w, target) > 0 && HiddenOnly(vault[LastGiver(w, target) - 1], target)
  }

  ghost predicate SqlTextIs(v: seq<Visit>, w: seq<Visit>, vault: seq<Entries>, target: string)
    requires |v| == |w| == |vault|
  {
    && (LastText(Visited(w), target).Some? <==> LastGiver(w, target) > 0)
    && LastText(Visited(v), target) == SqlHas(v, w, LastIsHidden(w, vault, target), target)
  }

  lemma {:induction false} SqlText(v: seq<Visit>, sql: seq<Entries>, w: seq<Visit>, vault: seq<Entries>, target: string)
    requires ThinReadings(v, sql, w, vault)
    ensures SqlTextIs(v, w, vault, target)
    decreases |w|
  {
    if w == [] {
      assert Visited(v) == [] && Visited(w) == [];
    } else {
      var n := |w| - 1;
      ThinOneMore(v, sql, w, vault, target);
      if TextOf(w[n], target).None? {
        ThinPrefix(v, sql, w, vault);
        SqlText(v[..n], sql[..n], w[..n], vault[..n], target);
        NotGivenLast(v, w, vault, target);
      } else {
        GivenLast(v, w, vault, target);
      }
    }
  }

  lemma GivenLast(v: seq<Visit>, w: seq<Visit>, vault: seq<Entries>, target: string)
    requires |v| == |w| == |vault| && w != [] && TextOf(w[|w| - 1], target).Some?
    requires var n := |w| - 1;
             && LastText(Visited(w), target) == TextOf(w[n], target)
             && LastText(Visited(v), target)
                == OrElse(if HiddenOnly(vault[n], target) then None else TextOf(w[n], target), LastText(Visited(v[..n]), target))
    ensures SqlTextIs(v, w, vault, target)
  {
    assert LastGiver(w, target) == |w|;
  }

  lemma ThinOneMore(v: seq<Visit>, sql: seq<Entries>, w: seq<Visit>, vault: seq<Entries>, target: string)
    requires ThinReadings(v, sql, w, vault) && w != []
    ensures var n := |w| - 1;
            && LastText(Visited(w), target) == OrElse(TextOf(w[n], target), LastText(Visited(w[..n]), target))
            && LastText(Visited(v), target)
               == OrElse(if HiddenOnly(vault[n], target) then None else TextOf(w[n], target), LastText(Visited(v[..n]), target))
  {
    var n := |w| - 1;
    OneMoreVisitText(v, target);
    OneMoreVisitText(w, target);
    ThinAt(v, sql, w, vault, n, target);
  }

  lemma ThinAt(v: seq<Visit>, sql: seq<Entries>, w: seq<Visit>, vault: seq<Entries>, n: nat, target: string)
    requires ThinReadings(v, sql, w, vault) && n < |w|
    ensures TextOf(v[n], target) == if HiddenOnly(vault[n], target) then None else TextOf(w[n], target)
  {
    ThinnedText(v[n].entries, sql[n], w[n].entries, vault[n], target);
  }

  lemma ThinPrefix(v: seq<Visit>, sql: seq<Entries>, w: seq<Visit>, vault: seq<Entries>)
    requires ThinReadings(v, sql, w, vault) && w != []
    ensures var n := |w| - 1; ThinReadings(v[..n], sql[..n], w[..n], vault[..n])
  {
  }

  lemma NotGivenLast(v: seq<Visit>, w: seq<Visit>, vault: seq<Entries>, target: string)
    requires |v| == |w| == |vault| && w != [] && TextOf(w[|w| - 1], target).None?
    requires var n := |w| - 1;
             && SqlTextIs(v[..n], w[..n], vault[..n], target)
             && LastText(Visited(v), target) == LastText(Visited(v[..n]), target)
             && LastText(Visited(w), target) == LastText(Visited(w[..n]), target)
    ensures SqlTextIs(v, w, vault, target)
  {
    var n := |w| - 1;
    var g := LastGiver(w, target);
    assert g == LastGiver(w[..n], target);
    if g > 0 {
      assert v[..n][..g - 1] == v[..g - 1];
    }
  }

  /**
   * Main result: over the same documents SQL and Vault give the child the same value of a name
   * exactly if it is a file's name, or no scope gives it a text, or the last scope that does
   * holds it as something that is neither a number nor under SQL's reserved name, or what SQL had
   * bound before that scope happens to be the same text.
   */
  lemma BoundAlikeIff(inherited: seq<string>, v: seq<Visit>, sql: seq<Entries>, w: seq<Visit>, vault: seq<Entries>, name: string)
    requires ThinReadings(v, sql, w, vault) && PlainKeys(Visited(v)) && PlainKeys(Visited(w)) && '=' !in name
    ensures var g := LastGiver(w, name);
            Bound(inherited, v, name) == Bound(inherited, w, name)
            <==> || Slot(name).Some? || !LastIsHidden(w, vault, name)
                 || Bound(inherited, v[..g - 1], name) == LastText(Visited(w), name)
  {
    SqlText(v, sql, w, vault, name);
    BoundFromTexts(inherited, v, w, vault, name);
  }

  lemma BoundFromTexts(inherited: seq<string>, v: seq<Visit>, w: seq<Visit>, vault: seq<Entries>, name: string)
    requires |v| == |w| == |vault| && SqlTextIs(v, w, vault, name)
    requires PlainKeys(Visited(v)) && PlainKeys(Visited(w)) && '=' !in name
    ensures var g := LastGiver(w, name);
            Bound(inherited, v, name) == Bound(inherited, w, name)
            <==> || Slot(name).Some? || !LastIsHidden(w, vault, name)
                 || Bound(inherited, v[..g - 1], name) == LastText(Visited(w), name)
  {
    var g := LastGiver(w, name);
    LastWriterWins(inherited, Visited(v), name);
    LastWriterWins(inherited, Visited(w), name);
    if g > 0 {
      PlainPrefix(v, g - 1);
      LastWriterWins(inherited, Visited(v[..g - 1]), name);
    }
  }

  lemma PlainPrefix(v: seq<Visit>, n: nat)
    requires n <= |v| && PlainKeys(Visited(v))
    ensures PlainKeys(Visited(v[..n]))
  {
    assert v == v[..n] + v[n..];
    VisitedConcat(v[..n], v[n..]);
  }

  /** Nothing exportable is a number or under SQL's reserved name. */
  ghost predicate NothingHidden(vault: seq<Entries>) {
    forall i, k :: 0 <= i < |vault| && k in vault[i] && ExportText(vault[i][k]).Some? ==> !Hidden(vault[i], k)
  }

  /** Main result: if Vault's maps hide nothing the whole environments agree, files included. */
  lemma NothingHiddenBuildAlike(inherited: seq<string>, v: seq<Visit>, sql: seq<Entries>, w: seq<Visit>, vault: seq<Entries>)
    requires ThinReadings(v, sql, w, vault) && PlainKeys(Visited(v)) && PlainKeys(Visited(w)) && NothingHidden(vault)
    ensures forall name :: '=' !in name ==> Bound(inherited, v, name) == Bound(inherited, w, name)
    ensures FilesOf(Visited(v)) == FilesOf(Visited(w))
  {
    forall target
      ensures LastText(Visited(v), target) == LastText(Visited(w), target)
    {
      SqlText(v, sql, w, vault, target);
      if LastGiver(w, target) > 0 {
        GiverIsNotHidden(w, vault, target);
      }
      ShownTextIsSame(v, w, vault, target);
    }
    SameTextsBuildAlike(inherited, v, w);
  }

  lemma ShownTextIsSame(v: seq<Visit>, w: seq<Visit>, vault: seq<Entries>, target: string)
    requires |v| == |w| == |vault| && SqlTextIs(v, w, vault, target) && !LastIsHidden(w, vault, target)
    ensures LastText(Visited(v), target) == LastText(Visited(w), target)
  {
  }

  lemma {:induction false} GiverIsNotHidden(w: seq<Visit>, vault: seq<Entries>, target: string)
    requires Reading(w, vault) && NothingHidden(vault) && LastGiver(w, target) > 0
    ensures !HiddenOnly(vault[LastGiver(w, target) - 1], target)
    decreases |w|
  {
    var n := |w| - 1;
    if TextOf(w[n], target).Some? {
      GiverExports(w[n].entries, vault[n], target);
    } else {
      assert Reading(w[..n], vault[..n]) && NothingHidden(vault[..n]);
      GiverIsNotHidden(w[..n], vault[..n], target);
    }
  }

  /** The map of a listing that gives a text holds an exportable key of that form. */
  lemma GiverExports(entries: seq<Entry>, m: Entries, target: string)
    requires ListsMap(entries, m) && LastText(entries, target).Some?
    ensures exists k :: k in m && Upper(k) == target && ExportText(m[k]).Some?
  {
    LastTextIsListed(entries, target);
    var e :| e in entries && Upper(e.key) == target && ExportText(e.value) == LastText(entries, target);
    assert e.key in m;
  }

  /**
   * Main result: both backends build the same file of a name exactly if it can have none, or the
   * path and content SQL has, each Vault's or an earlier one as above, pair up to Vault's file.
   */
  lemma FileAlikeIff(v: seq<Visit>, sql: seq<Entries>, w: seq<Visit>, vault: seq<Entries>, name: string)
    requires ThinReadings(v, sql, w, vault)
    ensures var path, content := FileKey(name, PATH), FileKey(name, CONTENT);
            FileBuilt(v, name) == FileBuilt(w, name)
            <==> || '\n' in name
                 || PairUp(SqlHas(v, w, LastIsHidden(w, vault, path), path), SqlHas(v, w, LastIsHidden(w, vault, content), content))
                    == PairUp(LastText(Visited(w), path), LastText(Visited(w), content))
  {
    SqlText(v, sql, w, vault, FileKey(name, PATH));
    SqlText(v, sql, w, vault, FileKey(name, CONTENT));
    FileBuiltIs(v, name);
    FileBuiltIs(w, name);
  }

  // ---------------------------------------------------------------- from the stored documents

  ghost function VaultMaps(exact: Numerals, enc: Encryptor, kv: Vault.Kv, keys: seq<Key>): seq<Entries>
    requires forall key :: key in keys ==> VaultScope(exact, enc, kv, key).Some?
  {
    seq(|keys|, i requires 0 <= i < |keys| => VaultScope(exact, enc, kv, keys[i]).value)
  }

  ghost function SqlMaps(num: Numerals, enc: Encryptor, rows: Sql.Table, keys: seq<Key>): seq<Entries>
    requires forall key :: key in keys ==> SqlScope(num, enc, rows, key).Some?
  {
    seq(|keys|, i requires 0 <= i < |keys| => SqlScope(num, enc, rows, keys[i]).value)
  }

  /** Both backends hold the same document under each key, and no range order of it shows. */
  ghost predicate HoldAlike(exact: Numerals, enc: Encryptor, rows: Sql.Table, kv: Vault.Kv, keys: seq<Key>) {
    forall key :: key in keys ==>
      && SameDocument(rows, kv, key)
      && (VaultScope(exact, enc, kv, key).Some? ==> Unambiguous(VaultScope(exact, enc, kv, key).value))
  }

  /** The visits of the keys are what SQL and what Vault give, and the two hold the same documents. */
  ghost predicate Backed(num: Numerals, exact: Numerals, enc: Encryptor, rows: Sql.Table, kv: Vault.Kv,
                         keys: seq<Key>, v: seq<Visit>, w: seq<Visit>)
  {
    && !num.exact && exact.exact && HoldAlike(exact, enc, rows, kv, keys) && |v| == |w| == |keys|
    && (forall i :: 0 <= i < |keys| ==> Gives(SqlScope(num, enc, rows, keys[i]), v[i]))
    && (forall i :: 0 <= i < |keys| ==> Gives(VaultScope(exact, enc, kv, keys[i]), w[i]))
  }

  /**
   * Main result: what the keys' visits give when both backends hold the same documents. A build
   * on Vault fails exactly if one on SQL does or an entry under SQL's reserved name is not
   * decryptable; otherwise the two are two readings as above, of the scopes' maps.
   */
  lemma SameDocumentsThin(num: Numerals, exact: Numerals, enc: Encryptor, rows: Sql.Table, kv: Vault.Kv,
                          keys: seq<Key>, v: seq<Visit>, w: seq<Visit>)
    requires Backed(num, exact, enc, rows, kv, keys, v, w)
    ensures Fails in w <==> Fails in v || exists key :: key in keys && BadVersion(exact, enc, kv, key)
    ensures Fails !in w ==>
              && (forall key :: key in keys ==> SqlScope(num, enc, rows, key).Some? && VaultScope(exact, enc, kv, key).Some?)
              && ThinReadings(v, SqlMaps(num, enc, rows, keys), w, VaultMaps(exact, enc, kv, keys))
  {
    forall key | key in keys
      ensures VaultScope(exact, enc, kv, key).Some? <==> SqlScope(num, enc, rows, key).Some? && !BadVersion(exact, enc, kv, key)
      ensures VaultScope(exact, enc, kv, key).Some?
              ==> Thins(SqlScope(num, enc, rows, key).value, VaultScope(exact, enc, kv, key).value)
    {
      ScopesThin(num, exact, enc, rows, kv, key);
    }
    FailuresAre(keys, v, key => SqlScope(num, enc, rows, key));
    FailuresAre(keys, w, key => VaultScope(exact, enc, kv, key));
  }

  /** The visits fail exactly if some key's scope does. */
  lemma FailuresAre(keys: seq<Key>, visits: seq<Visit>, scope: Key -> Option<Entries>)
    requires |visits| == |keys| && forall i :: 0 <= i < |keys| ==> Gives(scope(keys[i]), visits[i])
    ensures Fails in visits <==> exists key :: key in keys && scope(key).None?
  {
    if Fails in visits {
      var i :| 0 <= i < |visits| && visits[i] == Fails;
      assert keys[i] in keys && scope(keys[i]).None?;
    }
    forall key | key in keys && scope(key).None?
      ensures Fails in visits
    {
      var i :| 0 <= i < |keys| && keys[i] == key;
      assert visits[i] == Fails;
    }
  }

  /** Main result, from the stored documents: exactly when SQL and Vault bind a name alike. */
  lemma BackendsBindAlikeIff(num: Numerals, exact: Numerals, enc: Encryptor, rows: Sql.Table, kv: Vault.Kv,
                             keys: seq<Key>, v: seq<Visit>, w: seq<Visit>, inherited: seq<string>, name: string)
    requires Backed(num, exact, enc, rows, kv, keys, v, w)
    requires Fails !in w && PlainKeys(Visited(v)) && PlainKeys(Visited(w)) && '=' !in name
    ensures forall key :: key in keys ==> VaultScope(exact, enc, kv, key).Some?
    ensures var g := LastGiver(w, name);
            Bound(inherited, v, name) == Bound(inherited, w, name)
            <==> || Slot(name).Some? || !LastIsHidden(w, VaultMaps(exact, enc, kv, keys), name)
                 || Bound(inherited, v[..g - 1], name) == LastText(Visited(w), name)
  {
    SameDocumentsThin(num, exact, enc, rows, kv, keys, v, w);
    BoundAlikeIff(inherited, v, SqlMaps(num, enc, rows, keys), w, VaultMaps(exact, enc, kv, keys), name);
  }
}
