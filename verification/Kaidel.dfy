/** cmd/kaidel: Read, DeleteEntry, Write for every scope of an app, on either backend. */
module Kaidel {
  import opened Outcomes
  import opened Values
  import Sql = SqlStore
  import Vault = VaultStore

  /** How often the command visits a key. */
  function Mentions(app: string, scopes: seq<string>, key: Key): nat {
    if scopes == [] then 0
    else
      var n := |scopes| - 1;
      Mentions(app, scopes[..n], key) + if key == Key(app, scopes[n]) then 1 else 0
  }

  lemma {:induction false} MentionsCount(app: string, scopes: seq<string>, key: Key)
    ensures Mentions(app, scopes, key) == if key.app == app then multiset(scopes)[key.scope] else 0
  {
    if scopes != [] {
      var n := |scopes| - 1;
      assert scopes == scopes[..n] + [scopes[n]];
      MentionsCount(app, scopes[..n], key);
    }
  }

  // ---------------------------------------------------------------- SQL

  /** How the database answers the three calls of one visit. */
  datatype SqlFault = SqlFault(reply: Sql.Reply, lookup: bool, save: bool)

  /** `ok` is false once an operation failed and the command panicked. */
  datatype SqlRun = SqlRun(rows: Sql.Table, ds: Cache, ok: bool)

  function SqlStep(num: Numerals, s: SqlRun, key: Key, name: string, f: SqlFault): SqlRun {
    var (read, status) := Sql.AfterRead(num, s.rows, s.ds, key, f.reply);
    if !status.Done? then SqlRun(s.rows, read, false)
    else
      var w := Sql.AfterWrite(num, s.rows, Sql.AfterDelete(read, key, name), key, f.lookup, f.save);
      SqlRun(w.rows, w.ds, w.status.Done?)
  }

  function SqlDeleted(num: Numerals, s: SqlRun, app: string, scopes: seq<string>, name: string,
                      faults: nat -> SqlFault): SqlRun
  {
    if scopes == [] then s
    else
      var n := |scopes| - 1;
      var before := SqlDeleted(num, s, app, scopes[..n], name, faults);
      if before.ok then SqlStep(num, before, Key(app, scopes[n]), name, faults(n)) else before
  }

  method DeleteFromSql(store: Sql.StorageService, app: string, scopes: seq<string>, name: string, faults: nat -> SqlFault)
    returns (ok: bool)
    modifies store`ds, store.db
    ensures SqlRun(store.db.rows, store.ds, ok)
         == SqlDeleted(store.numerals, SqlRun(old(store.db.rows), old(store.ds), true), app, scopes, name, faults)
  {
    ok := true;
    ghost var start := SqlRun(store.db.rows, store.ds, true);
    var i := 0;
    while i < |scopes|
      invariant 0 <= i <= |scopes| && ok
      invariant SqlRun(store.db.rows, store.ds, true) == SqlDeleted(store.numerals, start, app, scopes[..i], name, faults)
    {
      SqlNext(store.numerals, start, app, scopes, name, faults, i);
      ok := DeleteScopeFromSql(store, Key(app, scopes[i]), name, faults(i));
      if !ok {
        return;
      }
      i := i + 1;
    }
    assert scopes[..i] == scopes;
  }

  /** The body of the loop. */
  method DeleteScopeFromSql(store: Sql.StorageService, key: Key, name: string, f: SqlFault) returns (ok: bool)
    modifies store`ds, store.db
    ensures SqlRun(store.db.rows, store.ds, ok)
         == SqlStep(store.numerals, SqlRun(old(store.db.rows), old(store.ds), true), key, name, f)
  {
    var read := store.Read(key, f.reply);
    if !read.Done? {
      return false;
    }
    store.DeleteEntry(key, name);
    var written := store.Write(key, f.lookup, f.save);
    ok := written.Done?;
  }

  lemma SqlNext(num: Numerals, s: SqlRun, app: string, scopes: seq<string>, name: string, faults: nat -> SqlFault, i: nat)
    requires i < |scopes| && SqlDeleted(num, s, app, scopes[..i], name, faults).ok
    ensures var next := SqlStep(num, SqlDeleted(num, s, app, scopes[..i], name, faults), Key(app, scopes[i]), name, faults(i));
            && SqlDeleted(num, s, app, scopes[..i + 1], name, faults) == next
            && (!next.ok ==> SqlDeleted(num, s, app, scopes, name, faults) == next)
  {
    assert scopes[..i + 1][..i] == scopes[..i];
    SqlOneMore(num, s, app, scopes[..i + 1], name, faults);
    SqlFailureStays(num, s, app, scopes, name, faults, i + 1);
  }

  lemma {:induction false} SqlFailureStays(num: Numerals, s: SqlRun, app: string, scopes: seq<string>, name: string,
                                           faults: nat -> SqlFault, n: nat)
    requires n <= |scopes|
    ensures var before := SqlDeleted(num, s, app, scopes[..n], name, faults);
            !before.ok ==> SqlDeleted(num, s, app, scopes, name, faults) == before
    decreases |scopes|
  {
    if n == |scopes| {
      assert scopes[..n] == scopes;
    } else {
      assert scopes[..|scopes| - 1][..n] == scopes[..n];
      SqlFailureStays(num, s, app, scopes[..|scopes| - 1], name, faults, n);
    }
  }

  /** The document after n trips through the client: read as Go values and printed again. */
  function Recoded(num: Numerals, doc: Doc, n: nat): Doc {
    if n == 0 then doc else EncodeAll(num, DecodeAll(num, Recoded(num, doc, n - 1)))
  }

  /** Every number of the document, at any depth, prints back as the literal it was read from. */
  predicate Recodes(num: Numerals, doc: Doc) {
    forall name :: name in doc ==> NumbersRecode(num, doc[name])
  }

  /** However often it travels, the document is intact exactly if its numbers recode. */
  lemma IntactIffRecodes(num: Numerals, doc: Doc, n: nat)
    requires PrintsExactly(num) && n > 0
    ensures Recoded(num, doc, n) == doc <==> Recodes(num, doc)
  {
    RecodedSettles(num, doc, n);
    RecodedOnce(num, doc);
    var once := Recoded(num, doc, 1);
    forall name | name in doc
      ensures once[name] == doc[name] <==> NumbersRecode(num, doc[name])
    {
      IntactIffNumbersRecode(num, doc[name]);
    }
  }

  /** A document without numbers, at any depth, always is. */
  lemma NumberlessIsIntact(num: Numerals, doc: Doc, n: nat)
    requires PrintsExactly(num) && forall name :: name in doc ==> Numberless(doc[name])
    ensures Recoded(num, doc, n) == doc
  {
    forall name | name in doc
      ensures NumbersRecode(num, doc[name])
    {
      NumberlessRecodes(num, doc[name]);
    }
    if n > 0 {
      IntactIffRecodes(num, doc, n);
    }
  }

  lemma RecodedOnce(num: Numerals, doc: Doc)
    ensures Recoded(num, doc, 1).Keys == doc.Keys
    ensures forall name :: name in doc ==> Recoded(num, doc, 1)[name] == Recode(num, doc[name])
  {
    assert Recoded(num, doc, 1) == EncodeAll(num, DecodeAll(num, Recoded(num, doc, 0)));
  }

  lemma {:induction false} RecodedSettles(num: Numerals, doc: Doc, n: nat)
    requires PrintsExactly(num) && n > 0
    ensures Recoded(num, doc, n) == Recoded(num, doc, 1)
  {
    if n > 1 {
      RecodedSettles(num, doc, n - 1);
      RecodedTwice(num, doc);
    }
  }

  lemma RecodedTwice(num: Numerals, doc: Doc)
    requires PrintsExactly(num)
    ensures EncodeAll(num, DecodeAll(num, Recoded(num, doc, 1))) == Recoded(num, doc, 1)
  {
    RecodedOnce(num, doc);
    forall name | name in doc
      ensures Recode(num, Recode(num, doc[name])) == Recode(num, doc[name])
    {
      RecodingSettles(num, doc[name]);
    }
  }

  /** The column a key's row has after n > 0 visits, and the version the cache is left with. */
  function ColumnOf(rows: Sql.Table, key: Key, n: nat): int {
    if key in rows then Sql.ColumnAfter(rows[key].version, n) else n - 1
  }

  function CachedOf(rows: Sql.Table, key: Key, n: nat): int {
    if key in rows then Sql.BlobAfter(rows[key].version, n) else n - 1
  }

  /** A key's row loses the name, is recoded and is written once per visit; unvisited it stays as it is. */
  predicate SqlVisited(num: Numerals, s: SqlRun, s': SqlRun, key: Key, name: string, visits: nat) {
    if visits > 0 then
      && key in s'.rows && s'.rows[key].version == ColumnOf(s.rows, key, visits)
      && Sql.Stored(s'.rows, key) == Recoded(num, Sql.Stored(s.rows, key) - {name}, visits)
      && Sql.Current(s'.ds, key) == Ok(CachedOf(s.rows, key, visits))
    else
      && (key in s'.rows <==> key in s.rows) && (key in s.rows ==> s'.rows[key] == s.rows[key])
      && Sql.Current(s'.ds, key) == Sql.Current(s.ds, key)
  }

  /** The row a successful step writes: what was loaded, without the name, under the next version. */
  lemma SqlStepRow(num: Numerals, s: SqlRun, key: Key, name: string, f: SqlFault)
    requires name != Sql.VERSION && SqlStep(num, s, key, name, f).ok
    ensures var s' := SqlStep(num, s, key, name, f);
            var version := CachedOf(s.rows, key, 1);
            && key in s'.rows && Sql.Current(s'.ds, key) == Ok(version)
            && s'.rows[key].version == ColumnOf(s.rows, key, 1)
            && s'.rows[key].doc == EncodeAll(num, (Sql.Loaded(num, s.rows, key) - {name})[Sql.VERSION := Int64(version)])
  {
    var entries := Sql.Loaded(num, s.rows, key) - {name};
    assert Sql.AfterDelete(Sql.AfterRead(num, s.rows, s.ds, key, f.reply).0, key, name)[key] == entries;
    assert key !in s.rows ==> entries == entries[Sql.VERSION := Int64(0)];
  }

  lemma SqlRecoded(num: Numerals, rows: Sql.Table, key: Key, name: string, version: int)
    requires name != Sql.VERSION
    ensures EncodeAll(num, (Sql.Loaded(num, rows, key) - {name})[Sql.VERSION := Int64(version)]) - {Sql.VERSION}
         == Recoded(num, Sql.Stored(rows, key) - {name}, 1)
  {
    assert Recoded(num, Sql.Stored(rows, key) - {name}, 1)
        == EncodeAll(num, DecodeAll(num, Recoded(num, Sql.Stored(rows, key) - {name}, 0)));
  }

  lemma SqlStepDeletes(num: Numerals, s: SqlRun, key: Key, name: string, f: SqlFault)
    requires name != Sql.VERSION && SqlStep(num, s, key, name, f).ok
    ensures SqlVisited(num, s, SqlStep(num, s, key, name, f), key, name, 1)
  {
    SqlStepRow(num, s, key, name, f);
    SqlRecoded(num, s.rows, key, name, CachedOf(s.rows, key, 1));
  }

  lemma SqlStepFrames(num: Numerals, s: SqlRun, key: Key, name: string, f: SqlFault, other: Key)
    requires other != key
    ensures SqlVisited(num, s, SqlStep(num, s, key, name, f), other, name, 0)
  {
    var read := Sql.AfterRead(num, s.rows, s.ds, key, f.reply).0;
    assert Sql.Current(read, other) == Sql.Current(s.ds, other);
    var dropped := Sql.AfterDelete(read, key, name);
    assert Sql.Current(dropped, other) == Sql.Current(s.ds, other);
    SqlWriteFrames(num, s.rows, dropped, key, f, other);
  }

  lemma SqlWriteFrames(num: Numerals, rows: Sql.Table, ds: Cache, key: Key, f: SqlFault, other: Key)
    requires other != key
    ensures var w := Sql.AfterWrite(num, rows, ds, key, f.lookup, f.save);
            && (other in w.rows <==> other in rows) && (other in rows ==> w.rows[other] == rows[other])
            && Sql.Current(w.ds, other) == Sql.Current(ds, other)
  {
  }

  /** What one successful step means for any key. */
  lemma SqlStepVisits(num: Numerals, s: SqlRun, key: Key, name: string, f: SqlFault, other: Key)
    requires name != Sql.VERSION && SqlStep(num, s, key, name, f).ok
    ensures SqlVisited(num, s, SqlStep(num, s, key, name, f), other, name, if key == other then 1 else 0)
  {
    if key == other {
      SqlStepDeletes(num, s, key, name, f);
    } else {
      SqlStepFrames(num, s, key, name, f, other);
    }
  }

  lemma SqlOneMore(num: Numerals, s: SqlRun, app: string, scopes: seq<string>, name: string, faults: nat -> SqlFault)
    requires scopes != []
    ensures var n := |scopes| - 1;
            var before := SqlDeleted(num, s, app, scopes[..n], name, faults);
            SqlDeleted(num, s, app, scopes, name, faults)
            == if before.ok then SqlStep(num, before, Key(app, scopes[n]), name, faults(n)) else before
  {
  }

  /** The three calls of a visit succeed; a garbled reply harms only a row that is there. */
  predicate Works(f: SqlFault, stored: bool) {
    !f.reply.Unreachable? && (f.reply.Garbled? ==> !stored) && f.lookup && f.save
  }

  /** A step succeeds exactly when its calls do, and one that fails leaves the table as it was. */
  lemma SqlStepFails(num: Numerals, s: SqlRun, key: Key, name: string, f: SqlFault)
    requires name != Sql.VERSION && s.ok
    ensures SqlStep(num, s, key, name, f).ok <==> Works(f, key in s.rows)
    ensures !SqlStep(num, s, key, name, f).ok ==> SqlStep(num, s, key, name, f).rows == s.rows
  {
    var read := Sql.AfterRead(num, s.rows, s.ds, key, f.reply);
    if read.1.Done? {
      LoadedEncodable(num, s.rows, key, name);
    }
  }

  lemma LoadedEncodable(num: Numerals, rows: Sql.Table, key: Key, name: string)
    ensures Encodable(Sql.Loaded(num, rows, key) - {name})
  {
  }

  lemma SqlOneMoreVisit(num: Numerals, s0: SqlRun, s1: SqlRun, s2: SqlRun, key: Key, name: string, m: nat, n: nat)
    requires n <= 1 && SqlVisited(num, s0, s1, key, name, m) && SqlVisited(num, s1, s2, key, name, n)
    ensures SqlVisited(num, s0, s2, key, name, m + n)
  {
    if n == 1 && m > 0 {
      var doc := Recoded(num, Sql.Stored(s0.rows, key) - {name}, m);
      assert name !in doc by { RecodedKeys(num, Sql.Stored(s0.rows, key) - {name}, m); }
      assert doc - {name} == doc;
      assert Recoded(num, doc, 1) == EncodeAll(num, DecodeAll(num, Recoded(num, doc, 0)));
    }
  }

  lemma {:induction false} RecodedKeys(num: Numerals, doc: Doc, n: nat)
    ensures Recoded(num, doc, n).Keys == doc.Keys
  {
    if n > 0 {
      RecodedKeys(num, doc, n - 1);
    }
  }

  lemma SqlStepAdds(num: Numerals, s: SqlRun, before: SqlRun, last: Key, name: string, f: SqlFault, key: Key, m: nat)
    requires name != Sql.VERSION && SqlVisited(num, s, before, key, name, m) && SqlStep(num, before, last, name, f).ok
    ensures SqlVisited(num, s, SqlStep(num, before, last, name, f), key, name, m + if key == last then 1 else 0)
  {
    SqlStepVisits(num, before, last, name, f, key);
    SqlOneMoreVisit(num, s, before, SqlStep(num, before, last, name, f), key, name, m, if last == key then 1 else 0);
  }

  /** The row of the k-th visit is there when the visit comes: it was at first, or an earlier visit created it. */
  predicate ThereAt(rows: Sql.Table, app: string, scopes: seq<string>, k: nat)
    requires k < |scopes|
  {
    Key(app, scopes[k]) in rows || Mentions(app, scopes[..k], Key(app, scopes[k])) > 0
  }

  /** All calls of the first n visits succeed. */
  predicate AllWork(rows: Sql.Table, app: string, scopes: seq<string>, faults: nat -> SqlFault, n: nat)
    requires n <= |scopes|
  {
    forall k: nat :: k < n ==> Works(faults(k), ThereAt(rows, app, scopes, k))
  }

  /** The command failed at visit k: the earlier visits are done, and nothing after them happened to the table. */
  ghost predicate SqlStoppedAt(num: Numerals, s: SqlRun, app: string, scopes: seq<string>, name: string,
                               faults: nat -> SqlFault, k: nat)
  {
    && k < |scopes| && !Works(faults(k), ThereAt(s.rows, app, scopes, k))
    && var before := SqlDeleted(num, s, app, scopes[..k], name, faults);
       before.ok && SqlDeleted(num, s, app, scopes, name, faults).rows == before.rows
  }

  /**
   * Main result for SQL, whatever fails: when the command succeeds, a visited key has lost the
   * name, is otherwise what it was after one recoding per visit, its version is up once per visit
   * and is the cached one (unless it stood below zero), and no other row has moved.
   */
  lemma {:induction false} SqlKeyDeleted(num: Numerals, s: SqlRun, app: string, scopes: seq<string>, name: string,
                                         faults: nat -> SqlFault, key: Key)
    requires s.ok && name != Sql.VERSION && SqlDeleted(num, s, app, scopes, name, faults).ok
    ensures SqlVisited(num, s, SqlDeleted(num, s, app, scopes, name, faults), key, name, Mentions(app, scopes, key))
    ensures var s', visits := SqlDeleted(num, s, app, scopes, name, faults), Mentions(app, scopes, key);
            visits > 0 && (key in s.rows ==> s.rows[key].version >= 0) ==>
              && s'.rows[key].version == (if key in s.rows then s.rows[key].version else -1) + visits
              && Sql.Current(s'.ds, key) == Ok(s'.rows[key].version)
    decreases |scopes|
  {
    if scopes != [] {
      var n := |scopes| - 1;
      var last := Key(app, scopes[n]);
      var before := SqlDeleted(num, s, app, scopes[..n], name, faults);
      SqlOneMore(num, s, app, scopes, name, faults);
      SqlKeyDeleted(num, s, app, scopes[..n], name, faults, key);
      SqlStepAdds(num, s, before, last, name, faults(n), key, Mentions(app, scopes[..n], key));
    }
  }

  /** While the command has not failed, a visit finds its row as ThereAt says. */
  lemma ThereIs(num: Numerals, s: SqlRun, app: string, scopes: seq<string>, name: string, faults: nat -> SqlFault)
    requires s.ok && name != Sql.VERSION && scopes != []
    requires SqlDeleted(num, s, app, scopes[..|scopes| - 1], name, faults).ok
    ensures var n := |scopes| - 1;
            Key(app, scopes[n]) in SqlDeleted(num, s, app, scopes[..n], name, faults).rows <==> ThereAt(s.rows, app, scopes, n)
  {
    SqlKeyDeleted(num, s, app, scopes[..|scopes| - 1], name, faults, Key(app, scopes[|scopes| - 1]));
  }

  lemma AllWorkPrefix(rows: Sql.Table, app: string, scopes: seq<string>, faults: nat -> SqlFault)
    requires scopes != []
    ensures var n := |scopes| - 1;
            AllWork(rows, app, scopes, faults, |scopes|)
            <==> AllWork(rows, app, scopes[..n], faults, n) && Works(faults(n), ThereAt(rows, app, scopes, n))
  {
    var n := |scopes| - 1;
    forall k: nat | k < n
      ensures ThereAt(rows, app, scopes[..n], k) <==> ThereAt(rows, app, scopes, k)
    {
      assert scopes[..n][..k] == scopes[..k];
    }
  }

  /** Main result for SQL: the command succeeds exactly when the calls of every visit do. */
  lemma {:induction false} SqlSucceeds(num: Numerals, s: SqlRun, app: string, scopes: seq<string>, name: string,
                                       faults: nat -> SqlFault)
    requires s.ok && name != Sql.VERSION
    ensures SqlDeleted(num, s, app, scopes, name, faults).ok <==> AllWork(s.rows, app, scopes, faults, |scopes|)
    decreases |scopes|
  {
    if scopes != [] {
      var n := |scopes| - 1;
      var before := SqlDeleted(num, s, app, scopes[..n], name, faults);
      SqlOneMore(num, s, app, scopes, name, faults);
      SqlSucceeds(num, s, app, scopes[..n], name, faults);
      AllWorkPrefix(s.rows, app, scopes, faults);
      if before.ok {
        ThereIs(num, s, app, scopes, name, faults);
        SqlStepFails(num, before, Key(app, scopes[n]), name, faults(n));
      }
    }
  }

  /** Main result for SQL: a failing command stops at a visit with a failing call, the table as the visits before left it. */
  lemma {:induction false} SqlStops(num: Numerals, s: SqlRun, app: string, scopes: seq<string>, name: string,
                                    faults: nat -> SqlFault)
    requires s.ok && name != Sql.VERSION && !SqlDeleted(num, s, app, scopes, name, faults).ok
    ensures exists k: nat :: SqlStoppedAt(num, s, app, scopes, name, faults, k)
    decreases |scopes|
  {
    var n := |scopes| - 1;
    var before := SqlDeleted(num, s, app, scopes[..n], name, faults);
    SqlOneMore(num, s, app, scopes, name, faults);
    if before.ok {
      ThereIs(num, s, app, scopes, name, faults);
      SqlStepFails(num, before, Key(app, scopes[n]), name, faults(n));
      assert SqlStoppedAt(num, s, app, scopes, name, faults, n);
    } else {
      SqlStops(num, s, app, scopes[..n], name, faults);
      var k: nat :| SqlStoppedAt(num, s, app, scopes[..n], name, faults, k);
      assert scopes[..n][..k] == scopes[..k];
      assert SqlStoppedAt(num, s, app, scopes, name, faults, k);
    }
  }

  /** The reserved name: the cache loses its version, Write refuses, and the table is untouched. */
  lemma SqlVersionIsNotDeletable(num: Numerals, s: SqlRun, key: Key, f: SqlFault)
    ensures var s' := SqlStep(num, s, key, Sql.VERSION, f); !s'.ok && s'.rows == s.rows
  {
  }

  /** So a command told to delete it fails at its first visit and changes no row. */
  lemma {:induction false} SqlVersionStays(num: Numerals, s: SqlRun, app: string, scopes: seq<string>, faults: nat -> SqlFault)
    requires s.ok && scopes != []
    ensures var s' := SqlDeleted(num, s, app, scopes, Sql.VERSION, faults); !s'.ok && s'.rows == s.rows
    decreases |scopes|
  {
    SqlOneMore(num, s, app, scopes, Sql.VERSION, faults);
    var n := |scopes| - 1;
    if n > 0 {
      SqlVersionStays(num, s, app, scopes[..n], faults);
    } else {
      assert scopes[..n] == [];
      SqlVersionIsNotDeletable(num, s, Key(app, scopes[0]), faults(0));
    }
  }

  // ---------------------------------------------------------------- Vault

  /** Whether the service answers the four calls of one visit: DeleteEntry makes two. */
  datatype VaultFault = VaultFault(canRead: bool, canDelete: bool, canRewrite: bool, canWrite: bool)

  const NO_VAULT_FAULT := VaultFault(true, true, true, true)

  datatype VaultRun = VaultRun(s: Vault.State, ok: bool)

  function VaultStep(num: Numerals, s: Vault.State, key: Key, name: string, reply: Vault.DeleteReply, f: VaultFault): VaultRun {
    var (read, status) := Vault.AfterRead(num, s, key, f.canRead);
    if !status.Done? then VaultRun(read, false)
    else
      var (gone, deleted) := Vault.AfterDelete(num, read, key, name, f.canDelete, reply, f.canRewrite);
      if !deleted.Done? then VaultRun(gone, false)
      else
        var (s', written) := Vault.AfterWrite(num, gone, key, f.canWrite);
        VaultRun(s', written.Done?)
  }

  function VaultDeleted(num: Numerals, s: Vault.State, app: string, scopes: seq<string>, name: string,
                        reply: Vault.DeleteReply, faults: nat -> VaultFault): VaultRun
  {
    if scopes == [] then VaultRun(s, true)
    else
      var n := |scopes| - 1;
      var before := VaultDeleted(num, s, app, scopes[..n], name, reply, faults);
      if before.ok then VaultStep(num, before.s, Key(app, scopes[n]), name, reply, faults(n)) else before
  }

  method DeleteFromVault(store: Vault.Service, app: string, scopes: seq<string>, name: string, reply: Vault.DeleteReply,
                         faults: nat -> VaultFault)
    returns (ok: bool)
    modifies store, store.vault
    ensures VaultRun(store.View(), ok)
         == VaultDeleted(store.numerals, old(store.View()), app, scopes, name, reply, faults)
  {
    ok := true;
    ghost var start := store.View();
    var i := 0;
    while i < |scopes|
      invariant 0 <= i <= |scopes| && ok
      invariant VaultRun(store.View(), true) == VaultDeleted(store.numerals, start, app, scopes[..i], name, reply, faults)
    {
      VaultNext(store.numerals, start, app, scopes, name, reply, faults, i);
      ok := DeleteScopeFromVault(store, Key(app, scopes[i]), name, reply, faults(i));
      if !ok {
        return;
      }
      i := i + 1;
    }
    assert scopes[..i] == scopes;
  }

  /** The body of the loop. */
  method DeleteScopeFromVault(store: Vault.Service, key: Key, name: string, reply: Vault.DeleteReply, f: VaultFault)
    returns (ok: bool)
    modifies store, store.vault
    ensures VaultRun(store.View(), ok) == VaultStep(store.numerals, old(store.View()), key, name, reply, f)
  {
    var read := store.Read(key, f.canRead);
    if !read.Done? {
      return false;
    }
    var deleted := store.DeleteEntry(key, name, f.canDelete, reply, f.canRewrite);
    if !deleted.Done? {
      return false;
    }
    var written := store.Write(key, f.canWrite);
    ok := written.Done?;
  }

  lemma VaultNext(num: Numerals, s: Vault.State, app: string, scopes: seq<string>, name: string,
                  reply: Vault.DeleteReply, faults: nat -> VaultFault, i: nat)
    requires i < |scopes| && VaultDeleted(num, s, app, scopes[..i], name, reply, faults).ok
    ensures var next := VaultStep(num, VaultDeleted(num, s, app, scopes[..i], name, reply, faults).s,
                                  Key(app, scopes[i]), name, reply, faults(i));
            && VaultDeleted(num, s, app, scopes[..i + 1], name, reply, faults) == next
            && (!next.ok ==> VaultDeleted(num, s, app, scopes, name, reply, faults) == next)
  {
    assert scopes[..i + 1][..i] == scopes[..i];
    VaultOneMore(num, s, app, scopes[..i + 1], name, reply, faults);
    VaultFailureStays(num, s, app, scopes, name, reply, faults, i + 1);
  }

  lemma {:induction false} VaultFailureStays(num: Numerals, s: Vault.State, app: string, scopes: seq<string>, name: string,
                                             reply: Vault.DeleteReply, faults: nat -> VaultFault, n: nat)
    requires n <= |scopes|
    ensures var before := VaultDeleted(num, s, app, scopes[..n], name, reply, faults);
            !before.ok ==> VaultDeleted(num, s, app, scopes, name, reply, faults) == before
    decreases |scopes|
  {
    if n == |scopes| {
      assert scopes[..n] == scopes;
    } else {
      assert scopes[..|scopes| - 1][..n] == scopes[..n];
      VaultFailureStays(num, s, app, scopes[..|scopes| - 1], name, reply, faults, n);
    }
  }

  /** A key's stored map loses the name once it is visited, and two versions are put per visit. */
  predicate VaultVisited(s: Vault.State, s': Vault.State, key: Key, name: string, visits: nat) {
    && |Vault.VersionsOf(s'.kv, key)| == |Vault.VersionsOf(s.kv, key)| + 2 * visits
    && if visits > 0 then
         && Vault.Live(s'.kv, key)
         && Vault.Stored(s'.kv, key) == Vault.Stored(s.kv, key) - {name}
         && Vault.Current(s', key) == Some(Vault.Latest(s'.kv, key))
       else
         && Vault.VersionsOf(s'.kv, key) == Vault.VersionsOf(s.kv, key)
         && Vault.Current(s', key) == Vault.Current(s, key)
  }

  /** What a visit that fails leaves of its key: nothing happened, the map is gone, or one of the two versions is put. */
  predicate VaultBroken(s: Vault.State, s': Vault.State, key: Key, name: string, f: VaultFault) {
    if !f.canRead || !f.canDelete then Vault.VersionsOf(s'.kv, key) == Vault.VersionsOf(s.kv, key)
    else if !f.canRewrite then
      && Vault.Stored(s'.kv, key) == map[]
      && |Vault.VersionsOf(s'.kv, key)| == |Vault.VersionsOf(s.kv, key)|
    else
      && Vault.Stored(s'.kv, key) == Vault.Stored(s.kv, key) - {name}
      && |Vault.VersionsOf(s'.kv, key)| == |Vault.VersionsOf(s.kv, key)| + 1
  }

  lemma VaultStepSucceeds(num: Numerals, s: Vault.State, key: Key, name: string, reply: Vault.DeleteReply, f: VaultFault)
    ensures VaultStep(num, s, key, name, reply, f).ok <==> f == NO_VAULT_FAULT
  {
  }

  /** What DeleteEntry does after a Read: the old latest version is deleted and the rest put back. */
  lemma VaultDropped(num: Numerals, s: Vault.State, key: Key, name: string, reply: Vault.DeleteReply)
    requires num.exact
    ensures var read := Vault.AfterRead(num, s, key, true).0;
            var gone := Vault.AfterDelete(num, read, key, name, true, reply, true).0;
            var doc := Vault.Stored(s.kv, key) - {name};
            && key in gone.kv && |gone.kv[key]| == |Vault.VersionsOf(s.kv, key)| + 1
            && gone.kv[key][|gone.kv[key]| - 1] == Vault.Version(doc, false)
            && key in gone.data && gone.data[key] == DecodeAll(num, doc)
  {
    var read := Vault.AfterRead(num, s, key, true).0;
    var doc := Vault.Stored(s.kv, key);
    assert read.data[key] == DecodeAll(num, doc);
    Vault.ExactRecoding(num, doc - {name});
    assert DecodeAll(num, doc) - {name} == DecodeAll(num, doc - {name});
  }

  lemma VaultStepDeletes(num: Numerals, s: Vault.State, key: Key, name: string, reply: Vault.DeleteReply)
    requires num.exact
    ensures VaultVisited(s, VaultStep(num, s, key, name, reply, NO_VAULT_FAULT).s, key, name, 1)
  {
    VaultStepSucceeds(num, s, key, name, reply, NO_VAULT_FAULT);
    VaultDropped(num, s, key, name, reply);
    Vault.ExactRecoding(num, Vault.Stored(s.kv, key) - {name});
  }

  lemma VaultStepBreaks(num: Numerals, s: Vault.State, key: Key, name: string, reply: Vault.DeleteReply, f: VaultFault)
    requires num.exact && f != NO_VAULT_FAULT
    ensures VaultBroken(s, VaultStep(num, s, key, name, reply, f).s, key, name, f)
  {
    VaultDropped(num, s, key, name, reply);
  }

  lemma VaultStepFrames(num: Numerals, s: Vault.State, key: Key, name: string, reply: Vault.DeleteReply, f: VaultFault, other: Key)
    requires other != key
    ensures VaultVisited(s, VaultStep(num, s, key, name, reply, f).s, other, name, 0)
  {
    var read := Vault.AfterRead(num, s, key, f.canRead).0;
    assert VaultVisited(s, read, other, name, 0);
    VaultDeleteFrames(num, read, key, name, reply, f, other);
    var gone := Vault.AfterDelete(num, read, key, name, f.canDelete, reply, f.canRewrite).0;
    VaultWriteFrames(num, gone, key, name, f.canWrite, other);
  }

  lemma VaultWriteFrames(num: Numerals, s: Vault.State, key: Key, name: string, reachable: bool, other: Key)
    requires other != key
    ensures VaultVisited(s, Vault.AfterWrite(num, s, key, reachable).0, other, name, 0)
  {
  }

  lemma VaultDeleteFrames(num: Numerals, s: Vault.State, key: Key, name: string, reply: Vault.DeleteReply, f: VaultFault, other: Key)
    requires other != key
    ensures VaultVisited(s, Vault.AfterDelete(num, s, key, name, f.canDelete, reply, f.canRewrite).0, other, name, 0)
  {
    if f.canDelete && key in s.data {
      var gone := s.(kv := Vault.SoftDelete(s.kv, key));
      var noted := if reply.Content? then gone.(metadata := s.metadata[key := reply.version]) else gone;
      assert VaultVisited(s, noted, other, name, 0);
      VaultWriteFrames(num, noted.(data := s.data[key := s.data[key] - {name}]), key, name, f.canRewrite, other);
    }
  }

  /** What one successful step means for any key. */
  lemma VaultStepVisits(num: Numerals, s: Vault.State, key: Key, name: string, reply: Vault.DeleteReply, f: VaultFault, other: Key)
    requires num.exact && VaultStep(num, s, key, name, reply, f).ok
    ensures VaultVisited(s, VaultStep(num, s, key, name, reply, f).s, other, name, if key == other then 1 else 0)
  {
    VaultStepSucceeds(num, s, key, name, reply, f);
    if key == other {
      VaultStepDeletes(num, s, key, name, reply);
    } else {
      VaultStepFrames(num, s, key, name, reply, f, other);
    }
  }

  lemma VaultOneMore(num: Numerals, s: Vault.State, app: string, scopes: seq<string>, name: string,
                     reply: Vault.DeleteReply, faults: nat -> VaultFault)
    requires scopes != []
    ensures var n := |scopes| - 1;
            var before := VaultDeleted(num, s, app, scopes[..n], name, reply, faults);
            VaultDeleted(num, s, app, scopes, name, reply, faults)
            == if before.ok then VaultStep(num, before.s, Key(app, scopes[n]), name, reply, faults(n)) else before
  {
  }

  lemma VaultVisitsAdd(s0: Vault.State, s1: Vault.State, s2: Vault.State, key: Key, name: string, m: nat, n: nat)
    requires VaultVisited(s0, s1, key, name, m) && VaultVisited(s1, s2, key, name, n)
    ensures VaultVisited(s0, s2, key, name, m + n)
  {
  }

  /** The command failed at visit k, and this is how it left the key it was visiting. */
  ghost predicate VaultStoppedAt(num: Numerals, s: Vault.State, app: string, scopes: seq<string>, name: string,
                                 reply: Vault.DeleteReply, faults: nat -> VaultFault, k: nat)
  {
    && k < |scopes| && faults(k) != NO_VAULT_FAULT
    && var before := VaultDeleted(num, s, app, scopes[..k], name, reply, faults);
       var after := VaultDeleted(num, s, app, scopes, name, reply, faults);
       && before.ok && VaultBroken(before.s, after.s, Key(app, scopes[k]), name, faults(k))
       && (forall other :: other != Key(app, scopes[k]) ==> VaultVisited(before.s, after.s, other, name, 0))
  }

  /** No call of the first n visits fails. */
  predicate Reachable(faults: nat -> VaultFault, n: nat) {
    forall k: nat :: k < n ==> faults(k) == NO_VAULT_FAULT
  }

  /** The command succeeds exactly when no call fails. */
  lemma {:induction false} VaultSucceeds(num: Numerals, s: Vault.State, app: string, scopes: seq<string>, name: string,
                                         reply: Vault.DeleteReply, faults: nat -> VaultFault)
    ensures VaultDeleted(num, s, app, scopes, name, reply, faults).ok
       <==> Reachable(faults, |scopes|)
    decreases |scopes|
  {
    if scopes != [] {
      var n := |scopes| - 1;
      assert Reachable(faults, n + 1) <==> Reachable(faults, n) && faults(n) == NO_VAULT_FAULT;
      var before := VaultDeleted(num, s, app, scopes[..n], name, reply, faults);
      VaultOneMore(num, s, app, scopes, name, reply, faults);
      VaultSucceeds(num, s, app, scopes[..n], name, reply, faults);
      VaultStepSucceeds(num, before.s, Key(app, scopes[n]), name, reply, faults(n));
    }
  }

  /**
   * Main result for Vault: a successful command does as for SQL, numbers included, except that a
   * visit costs two versions because DeleteEntry writes too.
   */
  lemma {:induction false} VaultKeyDeleted(num: Numerals, s: Vault.State, app: string, scopes: seq<string>, name: string,
                                           reply: Vault.DeleteReply, faults: nat -> VaultFault, key: Key)
    requires num.exact && VaultDeleted(num, s, app, scopes, name, reply, faults).ok
    ensures VaultVisited(s, VaultDeleted(num, s, app, scopes, name, reply, faults).s, key, name, Mentions(app, scopes, key))
    decreases |scopes|
  {
    if scopes != [] {
      var n := |scopes| - 1;
      var last := Key(app, scopes[n]);
      var before := VaultDeleted(num, s, app, scopes[..n], name, reply, faults);
      VaultOneMore(num, s, app, scopes, name, reply, faults);
      VaultKeyDeleted(num, s, app, scopes[..n], name, reply, faults, key);
      VaultStepVisits(num, before.s, last, name, reply, faults(n), key);
      VaultVisitsAdd(s, before.s, VaultStep(num, before.s, last, name, reply, faults(n)).s, key, name,
                     Mentions(app, scopes[..n], key), if last == key then 1 else 0);
    }
  }

  /**
   * Main result for Vault: a failing command stops at a faulty visit. If it was DeleteEntry's own
   * rewrite that failed, the whole map of that scope is soft-deleted and nothing replaces it.
   */
  lemma {:induction false} VaultStops(num: Numerals, s: Vault.State, app: string, scopes: seq<string>, name: string,
                                      reply: Vault.DeleteReply, faults: nat -> VaultFault)
    requires num.exact && !VaultDeleted(num, s, app, scopes, name, reply, faults).ok
    ensures exists k: nat :: VaultStoppedAt(num, s, app, scopes, name, reply, faults, k)
    decreases |scopes|
  {
    var n := |scopes| - 1;
    var before := VaultDeleted(num, s, app, scopes[..n], name, reply, faults);
    VaultOneMore(num, s, app, scopes, name, reply, faults);
    if before.ok {
      VaultStepStops(num, before.s, Key(app, scopes[n]), name, reply, faults(n));
      assert VaultStoppedAt(num, s, app, scopes, name, reply, faults, n);
    } else {
      VaultStops(num, s, app, scopes[..n], name, reply, faults);
      var k: nat :| VaultStoppedAt(num, s, app, scopes[..n], name, reply, faults, k);
      assert scopes[..n][..k] == scopes[..k];
      assert VaultStoppedAt(num, s, app, scopes, name, reply, faults, k);
    }
  }

  lemma VaultStepStops(num: Numerals, s: Vault.State, key: Key, name: string, reply: Vault.DeleteReply, f: VaultFault)
    requires num.exact && !VaultStep(num, s, key, name, reply, f).ok
    ensures f != NO_VAULT_FAULT && VaultBroken(s, VaultStep(num, s, key, name, reply, f).s, key, name, f)
    ensures forall other :: other != key ==> VaultVisited(s, VaultStep(num, s, key, name, reply, f).s, other, name, 0)
  {
    VaultStepSucceeds(num, s, key, name, reply, f);
    VaultStepBreaks(num, s, key, name, reply, f);
    forall other | other != key
      ensures VaultVisited(s, VaultStep(num, s, key, name, reply, f).s, other, name, 0)
    {
      VaultStepFrames(num, s, key, name, reply, f, other);
    }
  }

  // ---------------------------------------------------------------- both

  /**
   * Main result: two backends that hold the same map under a scope still do after the command
   * succeeded on both, exactly if the scope was not visited or the map's numbers, the deleted one
   * apart, survive SQL's recoding.
   */
  lemma BackendsAgree(num: Numerals, exact: Numerals, sql: SqlRun, vault: Vault.State, app: string, scopes: seq<string>,
                      name: string, reply: Vault.DeleteReply, sqlFaults: nat -> SqlFault, vaultFaults: nat -> VaultFault,
                      key: Key)
    requires sql.ok && exact.exact && name != Sql.VERSION && PrintsExactly(num)
    requires SqlDeleted(num, sql, app, scopes, name, sqlFaults).ok
    requires VaultDeleted(exact, vault, app, scopes, name, reply, vaultFaults).ok
    requires Sql.Stored(sql.rows, key) == Vault.Stored(vault.kv, key)
    ensures Sql.Stored(SqlDeleted(num, sql, app, scopes, name, sqlFaults).rows, key)
         == Vault.Stored(VaultDeleted(exact, vault, app, scopes, name, reply, vaultFaults).s.kv, key)
       <==> Mentions(app, scopes, key) == 0 || Recodes(num, Sql.Stored(sql.rows, key) - {name})
  {
    SqlKeyDeleted(num, sql, app, scopes, name, sqlFaults, key);
    VaultKeyDeleted(exact, vault, app, scopes, name, reply, vaultFaults, key);
    VisitedAlike(num, sql, SqlDeleted(num, sql, app, scopes, name, sqlFaults),
                 vault, VaultDeleted(exact, vault, app, scopes, name, reply, vaultFaults).s,
                 key, name, Mentions(app, scopes, key));
  }

  lemma VisitedAlike(num: Numerals, sql: SqlRun, sql': SqlRun, vault: Vault.State, vault': Vault.State,
                     key: Key, name: string, visits: nat)
    requires PrintsExactly(num) && Sql.Stored(sql.rows, key) == Vault.Stored(vault.kv, key)
    requires SqlVisited(num, sql, sql', key, name, visits) && VaultVisited(vault, vault', key, name, visits)
    ensures Sql.Stored(sql'.rows, key) == Vault.Stored(vault'.kv, key)
       <==> visits == 0 || Recodes(num, Sql.Stored(sql.rows, key) - {name})
  {
    if visits == 0 {
      assert Sql.Stored(sql'.rows, key) == Sql.Stored(sql.rows, key);
      assert Vault.Stored(vault'.kv, key) == Vault.Stored(vault.kv, key);
    } else {
      IntactIffRecodes(num, Sql.Stored(sql.rows, key) - {name}, visits);
    }
  }
}
