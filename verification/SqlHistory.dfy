/**
 * Any number of SQL clients over one table. A run is any interleaving of atomic operations,
 * failing database calls included; `log` records, per row, the blobs that were written to it.
 */
module SqlHistory {
  import opened Outcomes
  import opened Values
  import opened SqlStore

  datatype Action =
    | Read(client: int, key: Key, reply: Reply)
    | Set(client: int, key: Key, name: string, value: Value, nonce: int)
    | Delete(client: int, key: Key, name: string)
    | Write(client: int, key: Key, lookup: bool, save: bool)

  /** What the processes of one deployment share. */
  datatype Site = Site(num: Numerals, enc: Encryptor)

  /** One successful Write: who wrote, the blob, and the Version column it was stored under. */
  datatype Commit = Commit(writer: int, doc: Doc, version: int)

  datatype World = World(rows: Table, caches: map<int, Cache>, log: map<Key, seq<Commit>>)

  const START := World(map[], map[], map[])

  function CacheOf(w: World, client: int): Cache {
    if client in w.caches then w.caches[client] else map[]
  }

  function LogOf(w: World, key: Key): seq<Commit> {
    if key in w.log then w.log[key] else []
  }

  function Writing(site: Site, w: World, a: Action): Written
    requires a.Write?
  {
    AfterWrite(site.num, w.rows, CacheOf(w, a.client), a.key, a.lookup, a.save)
  }

  predicate Commits(site: Site, w: World, a: Action, key: Key) {
    a.Write? && a.key == key && Writing(site, w, a).status.Done?
  }

  function Apply(site: Site, w: World, a: Action): World {
    match a
    case Read(c, key, reply) => w.(caches := w.caches[c := AfterRead(site.num, w.rows, CacheOf(w, c), key, reply).0])
    case Set(c, key, name, value, nonce) =>
      w.(caches := w.caches[c := AfterSet(site.enc, CacheOf(w, c), key, name, value, nonce).0])
    case Delete(c, key, name) => w.(caches := w.caches[c := AfterDelete(CacheOf(w, c), key, name)])
    case Write(c, key, _, _) =>
      var r := Writing(site, w, a);
      World(r.rows, w.caches[c := r.ds],
            if r.status.Done? then w.log[key := LogOf(w, key) + [Commit(c, r.rows[key].doc, r.rows[key].version)]] else w.log)
  }

  function Run(site: Site, w: World, actions: seq<Action>): World
    decreases |actions|
  {
    if actions == [] then w else Run(site, Apply(site, w, actions[0]), actions[1..])
  }

  lemma {:induction false} RunConcat(site: Site, w: World, a: seq<Action>, b: seq<Action>)
    ensures Run(site, w, a + b) == Run(site, Run(site, w, a), b)
    decreases |a|
  {
    if a == [] {
      assert a + b == b;
    } else {
      assert (a + b)[1..] == a[1..] + b;
      RunConcat(site, Apply(site, w, a[0]), a[1..], b);
    }
  }

  /** A DeleteEntry of the run takes the one name out of the client's scope and touches nothing else. */
  lemma DeleteTakesOut(site: Site, w: World, client: int, key: Key, name: string)
    ensures var w' := Apply(site, w, Delete(client, key, name));
            && w'.rows == w.rows && w'.log == w.log
            && (forall c :: c != client ==> CacheOf(w', c) == CacheOf(w, c))
            && CacheOf(w', client)
               == if key in CacheOf(w, client) then CacheOf(w, client)[key := CacheOf(w, client)[key] - {name}]
                  else CacheOf(w, client)
  {
  }

  /** "version" is reserved: no client sets or deletes an entry of that name. */
  predicate Legal(a: Action) {
    (a.Set? || a.Delete?) ==> a.name != VERSION
  }

  predicate AllLegal(actions: seq<Action>) {
    forall a :: a in actions ==> Legal(a)
  }

  // ---------------------------------------------------------------- rows refine their log

  /** A row is the last blob of its log; its column and the blob's number follow from the version it was created at. */
  predicate RowIsLog(num: Numerals, row: Row, log: seq<Commit>) {
    && log != []
    && row.doc == log[|log| - 1].doc
    && row.version == log[|log| - 1].version == ColumnAfter(log[0].version, |log| - 1)
    && VERSION in row.doc
    && row.doc[VERSION] == JNumber(num.ofInt(BlobAfter(log[0].version, |log| - 1)))
  }

  ghost predicate RowsAreLogs(site: Site, w: World) {
    && (forall key :: key in w.rows <==> LogOf(w, key) != [])
    && (forall key :: key in w.rows ==> RowIsLog(site.num, w.rows[key], LogOf(w, key)))
  }

  /** Every row was created at version 0. */
  ghost predicate SeedsAreZero(w: World) {
    forall key :: LogOf(w, key) != [] ==> LogOf(w, key)[0].version == 0
  }

  /** While a row is missing, every cached version of its scope is 0. */
  ghost predicate MissingMeansZero(w: World) {
    forall c, key :: key !in w.rows && CachedVersion(CacheOf(w, c), key).Some?
                     ==> CachedVersion(CacheOf(w, c), key) == Some(0)
  }

  ghost predicate Consistent(site: Site, w: World) {
    RowsAreLogs(site, w) && SeedsAreZero(w) && MissingMeansZero(w)
  }

  /** The cached version of a scope after one operation on it. */
  lemma VersionAfter(site: Site, w: World, a: Action)
    requires Legal(a)
    ensures var before := CachedVersion(CacheOf(w, a.client), a.key);
            var after := CachedVersion(CacheOf(Apply(site, w, a), a.client), a.key);
            match a
            case Read(c, key, reply) =>
              if AfterRead(site.num, w.rows, CacheOf(w, c), key, reply).1.Done?
              then after == Some(if key in w.rows then w.rows[key].version else 0)
              else after == before
            case Set(_, _, _, _, _) => after == before
            case Delete(_, _, _) => after == before
            case Write(_, key, lookup, _) =>
              after == if before.Some? && lookup && key in w.rows then Some(w.rows[key].version + 1) else before
  {
  }

  lemma OtherVersionsStay(site: Site, w: World, a: Action, client: int, key: Key)
    requires client != a.client || key != a.key
    ensures CachedVersion(CacheOf(Apply(site, w, a), client), key) == CachedVersion(CacheOf(w, client), key)
  {
  }

  /** A commit touches one row and one log: the row mirrors the writer's cache. */
  lemma CommitEffect(site: Site, w: World, a: Action)
    requires a.Write? && Commits(site, w, a, a.key)
    ensures var w' := Apply(site, w, a);
            var version := if a.key in w.rows then w.rows[a.key].version + 1
                           else CachedVersion(CacheOf(w, a.client), a.key).GetOr(0);
            var column := if a.key in w.rows then Column(w.rows[a.key].version, version) else version;
            && a.key in CacheOf(w', a.client) && VERSION in CacheOf(w', a.client)[a.key]
            && CacheOf(w', a.client)[a.key][VERSION] == Int64(version)
            && w'.rows == w.rows[a.key := Row(EncodeAll(site.num, CacheOf(w', a.client)[a.key]), column)]
            && w'.log == w.log[a.key := LogOf(w, a.key) + [Commit(a.client, w'.rows[a.key].doc, column)]]
  {
  }

  lemma NoCommitEffect(site: Site, w: World, a: Action)
    requires !Commits(site, w, a, a.key)
    ensures Apply(site, w, a).rows == w.rows && Apply(site, w, a).log == w.log
  {
  }

  lemma CommitKeepsRow(site: Site, w: World, a: Action)
    requires RowsAreLogs(site, w) && a.Write? && Commits(site, w, a, a.key)
    ensures var w' := Apply(site, w, a);
            && a.key in w'.rows && a.key in w'.log && LogOf(w', a.key) == w'.log[a.key]
            && RowIsLog(site.num, w'.rows[a.key], w'.log[a.key])
  {
    CommitEffect(site, w, a);
    if a.key in w.rows {
      assert RowIsLog(site.num, w.rows[a.key], LogOf(w, a.key));
    }
  }

  lemma RowsAreLogsFrom(site: Site, w: World, w': World, key: Key, row: Row, log: seq<Commit>)
    requires RowsAreLogs(site, w) && RowIsLog(site.num, row, log)
    requires w'.rows == w.rows[key := row] && w'.log == w.log[key := log]
    ensures RowsAreLogs(site, w')
  {
    assert forall k :: LogOf(w', k) == if k == key then log else LogOf(w, k);
  }

  /** Reserved name or not, no operation breaks the numbering. */
  lemma ApplyKeepsRows(site: Site, w: World, a: Action)
    requires RowsAreLogs(site, w)
    ensures RowsAreLogs(site, Apply(site, w, a))
  {
    var w' := Apply(site, w, a);
    if Commits(site, w, a, a.key) {
      CommitEffect(site, w, a);
      CommitKeepsRow(site, w, a);
      RowsAreLogsFrom(site, w, w', a.key, w'.rows[a.key], w'.log[a.key]);
    } else {
      NoCommitEffect(site, w, a);
      RowsAreLogsSame(site, w, w');
    }
  }

  lemma RowsAreLogsSame(site: Site, w: World, w': World)
    requires RowsAreLogs(site, w) && w'.rows == w.rows && w'.log == w.log
    ensures RowsAreLogs(site, w')
  {
    assert forall k :: LogOf(w', k) == LogOf(w, k);
  }

  /** A row is created at the version its creator had cached. */
  lemma ApplyKeepsSeeds(site: Site, w: World, a: Action)
    requires Consistent(site, w)
    ensures SeedsAreZero(Apply(site, w, a))
  {
    var w' := Apply(site, w, a);
    if Commits(site, w, a, a.key) {
      CommitEffect(site, w, a);
      forall key | LogOf(w', key) != []
        ensures LogOf(w', key)[0].version == 0
      {
        assert key != a.key ==> LogOf(w', key) == LogOf(w, key);
        if key == a.key && a.key !in w.rows {
          assert CachedVersion(CacheOf(w, a.client), a.key) == Some(0);
        }
      }
    } else {
      NoCommitEffect(site, w, a);
      assert forall k :: LogOf(w', k) == LogOf(w, k);
    }
  }

  lemma ApplyKeepsMissing(site: Site, w: World, a: Action)
    requires MissingMeansZero(w) && Legal(a)
    ensures MissingMeansZero(Apply(site, w, a))
  {
    var w' := Apply(site, w, a);
    forall c, key | key !in w'.rows && CachedVersion(CacheOf(w', c), key).Some?
      ensures CachedVersion(CacheOf(w', c), key) == Some(0)
    {
      assert key !in w.rows;
      if c == a.client && key == a.key {
        VersionAfter(site, w, a);
      } else {
        OtherVersionsStay(site, w, a, c, key);
      }
    }
  }

  lemma ApplyKeepsConsistent(site: Site, w: World, a: Action)
    requires Consistent(site, w) && Legal(a)
    ensures Consistent(site, Apply(site, w, a))
  {
    ApplyKeepsRows(site, w, a);
    ApplyKeepsSeeds(site, w, a);
    ApplyKeepsMissing(site, w, a);
  }

  lemma {:induction false} RunKeepsConsistent(site: Site, w: World, actions: seq<Action>)
    requires Consistent(site, w) && AllLegal(actions)
    ensures Consistent(site, Run(site, w, actions))
    decreases |actions|
  {
    if actions != [] {
      ApplyKeepsConsistent(site, w, actions[0]);
      RunKeepsConsistent(site, Apply(site, w, actions[0]), actions[1..]);
    }
  }

  lemma {:induction false} RunKeepsRows(site: Site, w: World, actions: seq<Action>)
    requires RowsAreLogs(site, w)
    ensures RowsAreLogs(site, Run(site, w, actions))
    decreases |actions|
  {
    if actions != [] {
      ApplyKeepsRows(site, w, actions[0]);
      RunKeepsRows(site, Apply(site, w, actions[0]), actions[1..]);
    }
  }

  /**
   * Main result: after every interleaving from an empty table, each row is the last entry of its
   * write log and its version, which the blob repeats, is the log length minus one.
   */
  lemma RowsRefineWriteLogs(site: Site, actions: seq<Action>)
    requires AllLegal(actions)
    ensures var w := Run(site, START, actions);
            && RowsAreLogs(site, w)
            && (forall key :: key in w.rows ==>
                  && w.rows[key].version == |LogOf(w, key)| - 1 && "version" in w.rows[key].doc
                  && w.rows[key].doc["version"] == JNumber(site.num.ofInt(|LogOf(w, key)| - 1)))
            && MissingMeansZero(w)
  {
    RunKeepsConsistent(site, START, actions);
    var w := Run(site, START, actions);
    forall key | key in w.rows
      ensures w.rows[key].version == |LogOf(w, key)| - 1 && "version" in w.rows[key].doc
      ensures w.rows[key].doc["version"] == JNumber(site.num.ofInt(|LogOf(w, key)| - 1))
    {
      LastCommitIsStored(site, w, key);
      assert RowIsLog(site.num, w.rows[key], LogOf(w, key)) && LogOf(w, key)[0].version == 0;
    }
  }

  /**
   * Runs that do touch the reserved name: a row counts on from whatever version it was created
   * at, except that from below zero it stops at -1 for good while its blob says 0, because the
   * update skips a version that is zero. So the column is the log length minus one exactly for a
   * row created at 0, and the blob carries the column exactly while the row has not stopped.
   */
  lemma RowsCountFromTheirSeed(site: Site, actions: seq<Action>, key: Key)
    requires key in Run(site, START, actions).rows
    ensures var w := Run(site, START, actions);
            var log, row := LogOf(w, key), w.rows[key];
            && RowsAreLogs(site, w) && log != []
            && row.version == ColumnAfter(log[0].version, |log| - 1)
            && (row.version == |log| - 1 <==> log[0].version == 0)
            && VERSION in row.doc && row.doc[VERSION] == JNumber(site.num.ofInt(BlobAfter(log[0].version, |log| - 1)))
            && (BlobAfter(log[0].version, |log| - 1) == row.version <==> !(log[0].version < 0 <= log[0].version + |log| - 1))
  {
    RunKeepsRows(site, START, actions);
    var w := Run(site, START, actions);
    assert RowIsLog(site.num, w.rows[key], LogOf(w, key));
  }

  /** A row is created at the version its creator had cached. */
  lemma SeedIsTheCreatorsVersion(site: Site, w: World, write: Action)
    requires RowsAreLogs(site, w) && write.Write? && Commits(site, w, write, write.key) && write.key !in w.rows
    ensures var log := LogOf(Apply(site, w, write), write.key);
            |log| == 1 && CachedVersion(CacheOf(w, write.client), write.key) == Some(log[0].version)
  {
    CommitEffect(site, w, write);
  }

  /** And any version can be: set it after a Read that found no row. */
  lemma EverySeedOccurs(site: Site, client: int, key: Key, seed: int) returns (actions: seq<Action>)
    ensures var w := Run(site, START, actions);
            key in w.rows && |LogOf(w, key)| == 1 && LogOf(w, key)[0].version == seed == w.rows[key].version
  {
    var read, put := Read(client, key, Healthy), Set(client, key, VERSION, Int64(seed), 0);
    var write := Write(client, key, true, true);
    actions := [read, put, write];
    var w1 := Apply(site, START, read);
    var w2 := Apply(site, w1, put);
    assert CachedVersion(CacheOf(w2, client), key) == Some(seed);
    var w3 := Apply(site, w2, write);
    assert Run(site, w2, [write]) == Run(site, w3, []);
    assert [put, write][1..] == [write] && actions[1..] == [put, write];
    assert Run(site, w1, [put, write]) == w3;
  }

  // ---------------------------------------------------------------- cache coherence

  /** How many writes of the row succeed over the run. */
  function CommitCount(site: Site, w: World, actions: seq<Action>, key: Key): nat
    decreases |actions|
  {
    if actions == [] then 0
    else (if Commits(site, w, actions[0], key) then 1 else 0)
         + CommitCount(site, Apply(site, w, actions[0]), actions[1..], key)
  }

  /** The client neither reads nor writes that scope: its other operations are free. */
  predicate Quiet(actions: seq<Action>, client: int, key: Key) {
    forall a :: a in actions && a.client == client && a.key == key ==> !a.Read? && !a.Write?
  }

  /** What the poller compares: GetCurrentVersion and GetLatestVersion both answer, alike. */
  predicate Agrees(w: World, client: int, key: Key) {
    var cache := CacheOf(w, client);
    Current(cache, key).Ok? && Latest(w.rows, cache, key, true) == Current(cache, key)
  }

  lemma {:induction false} LogGrowsByCommits(site: Site, w: World, actions: seq<Action>, key: Key)
    ensures var log, log' := LogOf(w, key), LogOf(Run(site, w, actions), key);
            log <= log' && |log'| == |log| + CommitCount(site, w, actions, key)
    decreases |actions|
  {
    if actions != [] {
      LogGrowsByCommits(site, Apply(site, w, actions[0]), actions[1..], key);
    }
  }

  lemma {:induction false} QuietKeepsVersion(site: Site, w: World, actions: seq<Action>, client: int, key: Key)
    requires AllLegal(actions) && Quiet(actions, client, key)
    ensures CachedVersion(CacheOf(Run(site, w, actions), client), key) == CachedVersion(CacheOf(w, client), key)
    decreases |actions|
  {
    if actions != [] {
      var w' := Apply(site, w, actions[0]);
      if actions[0].client == client && actions[0].key == key {
        VersionAfter(site, w, actions[0]);
      } else {
        OtherVersionsStay(site, w, actions[0], client, key);
      }
      QuietKeepsVersion(site, w', actions[1..], client, key);
    }
  }

  /** A cached version agrees exactly when it numbers the last commit, or no row exists. */
  lemma AgreesMeans(site: Site, w: World, client: int, key: Key, cached: int)
    requires Consistent(site, w) && CachedVersion(CacheOf(w, client), key) == Some(cached)
    ensures Agrees(w, client, key) <==> LogOf(w, key) == [] || cached == |LogOf(w, key)| - 1
  {
    if key in w.rows {
      LastCommitIsStored(site, w, key);
    }
  }

  /** The three theorems below share this: where a version stands after a quiet stretch. */
  lemma AgreesAfterQuiet(site: Site, w: World, rest: seq<Action>, client: int, key: Key, cached: int)
    requires Consistent(site, w) && AllLegal(rest) && Quiet(rest, client, key)
    requires CachedVersion(CacheOf(w, client), key) == Some(cached)
    ensures var commits := |LogOf(w, key)| + CommitCount(site, w, rest, key);
            Agrees(Run(site, w, rest), client, key) <==> commits == 0 || cached == commits - 1
  {
    RunKeepsConsistent(site, w, rest);
    LogGrowsByCommits(site, w, rest, key);
    QuietKeepsVersion(site, w, rest, client, key);
    AgreesMeans(site, Run(site, w, rest), client, key, cached);
  }

  /** The cached scope is what the row holds: stored from it, or read into it. */
  ghost predicate Mirrors(num: Numerals, entries: Entries, row: Row) {
    || StoresScope(num, entries, row.doc)
    || (&& entries.Keys == row.doc.Keys + {VERSION} && entries[VERSION] == Int64(row.version)
        && forall name :: name in row.doc && name != VERSION ==> ReadAs(num, row.doc[name], entries[name]))
  }

  /** A sync leaves the client mirroring the row, at the row's version. */
  lemma SyncEffect(site: Site, w0: World, sync: Action)
    requires Consistent(site, w0) && Legal(sync)
    requires Commits(site, w0, sync, sync.key) || (sync.Read? && sync.reply.Healthy? && sync.key in w0.rows)
    ensures var w := Apply(site, w0, sync);
            && Consistent(site, w)
            && sync.key in CacheOf(w, sync.client) && sync.key in w.rows
            && Mirrors(site.num, CacheOf(w, sync.client)[sync.key], w.rows[sync.key])
            && CachedVersion(CacheOf(w, sync.client), sync.key) == Some(w.rows[sync.key].version)
  {
    ApplyKeepsConsistent(site, w0, sync);
    if sync.Write? {
      CommitEffect(site, w0, sync);
      WriteStores(site.num, w0.rows, CacheOf(w0, sync.client), sync.key, sync.lookup, sync.save);
    } else {
      ReadReads(site.num, w0.rows, CacheOf(w0, sync.client), sync.key, sync.reply);
    }
  }

  /** From a world in which the client holds the row's version. */
  lemma CoherentFrom(site: Site, w: World, client: int, key: Key, rest: seq<Action>)
    requires Consistent(site, w) && AllLegal(rest) && Quiet(rest, client, key)
    requires key in w.rows && CachedVersion(CacheOf(w, client), key) == Some(w.rows[key].version)
    ensures var w' := Run(site, w, rest);
            && (Agrees(w', client, key) <==> CommitCount(site, w, rest, key) == 0)
            && (Agrees(w', client, key) ==> key in w'.rows && w'.rows[key] == w.rows[key])
  {
    AgreesUntilCommit(site, w, client, key, rest);
    if CommitCount(site, w, rest, key) == 0 {
      UncommittedRowStays(site, w, rest, key);
    }
  }

  lemma AgreesUntilCommit(site: Site, w: World, client: int, key: Key, rest: seq<Action>)
    requires Consistent(site, w) && AllLegal(rest) && Quiet(rest, client, key)
    requires key in w.rows && CachedVersion(CacheOf(w, client), key) == Some(w.rows[key].version)
    ensures Agrees(Run(site, w, rest), client, key) <==> CommitCount(site, w, rest, key) == 0
  {
    LastCommitIsStored(site, w, key);
    AgreesAfterQuiet(site, w, rest, client, key, w.rows[key].version);
  }

  /**
   * Main result: after a Write, or a Read that found the row, the versions agree exactly as long
   * as nobody commits the row again, and then the row still holds what the client synced.
   */
  lemma CoherentAfterSync(site: Site, before: seq<Action>, sync: Action, rest: seq<Action>)
    requires AllLegal(before) && AllLegal(rest) && Quiet(rest, sync.client, sync.key)
    requires var w := Run(site, START, before);
             Commits(site, w, sync, sync.key) || (sync.Read? && sync.reply.Healthy? && sync.key in w.rows)
    ensures var w := Apply(site, Run(site, START, before), sync);
            var w' := Run(site, w, rest);
            var key, client := sync.key, sync.client;
            && (Agrees(w', client, key) <==> CommitCount(site, w, rest, key) == 0)
            && key in CacheOf(w, client) && key in w.rows && Mirrors(site.num, CacheOf(w, client)[key], w.rows[key])
            && (Agrees(w', client, key) ==> key in w'.rows && w'.rows[key] == w.rows[key])
  {
    var w0 := Run(site, START, before);
    RunKeepsConsistent(site, START, before);
    SyncEffect(site, w0, sync);
    CoherentFrom(site, Apply(site, w0, sync), sync.client, sync.key, rest);
  }

  lemma LastCommitIsStored(site: Site, w: World, key: Key)
    requires Consistent(site, w) && key in w.rows
    ensures |LogOf(w, key)| > 0 && w.rows[key].version == |LogOf(w, key)| - 1
  {
    assert RowIsLog(site.num, w.rows[key], LogOf(w, key));
  }

  lemma UncommittedRowStays(site: Site, w: World, rest: seq<Action>, key: Key)
    requires Consistent(site, w) && AllLegal(rest) && key in w.rows && CommitCount(site, w, rest, key) == 0
    ensures var w' := Run(site, w, rest); key in w'.rows && w'.rows[key] == w.rows[key]
  {
    var w' := Run(site, w, rest);
    LogGrowsByCommits(site, w, rest, key);
    RunKeepsConsistent(site, w, rest);
    LogDeterminesRow(site, w, w', key);
  }

  lemma LogDeterminesRow(site: Site, w: World, w': World, key: Key)
    requires Consistent(site, w) && Consistent(site, w') && key in w.rows && LogOf(w', key) == LogOf(w, key)
    ensures key in w'.rows && w'.rows[key] == w.rows[key]
  {
    assert RowIsLog(site.num, w.rows[key], LogOf(w, key));
    assert RowIsLog(site.num, w'.rows[key], LogOf(w', key));
  }

  /**
   * The boundary: a Read that found no row cannot tell the row's creation from its absence. The
   * versions agree until the row is written a second time.
   */
  lemma CreationIsInvisible(site: Site, before: seq<Action>, sync: Action, rest: seq<Action>)
    requires AllLegal(before) && AllLegal(rest) && Quiet(rest, sync.client, sync.key)
    requires sync.Read? && !sync.reply.Unreachable? && sync.key !in Run(site, START, before).rows
    ensures var w := Apply(site, Run(site, START, before), sync);
            Agrees(Run(site, w, rest), sync.client, sync.key) <==> CommitCount(site, w, rest, sync.key) <= 1
  {
    var w0 := Run(site, START, before);
    RunKeepsConsistent(site, START, before);
    ApplyKeepsConsistent(site, w0, sync);
    AgreesAfterQuiet(site, Apply(site, w0, sync), rest, sync.client, sync.key, 0);
  }

  /**
   * The other boundary: an update that fails after the look-up leaves the cached version one
   * ahead, so the versions disagree at once and agree again after one commit by someone else.
   */
  lemma FailedUpdateMasksOneCommit(site: Site, before: seq<Action>, sync: Action, rest: seq<Action>)
    requires AllLegal(before) && AllLegal(rest) && Quiet(rest, sync.client, sync.key)
    requires sync.Write? && sync.key in Run(site, START, before).rows
    requires var status := Writing(site, Run(site, START, before), sync).status;
             status == Failed(EncodeFailed) || status == Failed(SaveFailed)
    ensures var w := Apply(site, Run(site, START, before), sync);
            Agrees(Run(site, w, rest), sync.client, sync.key) <==> CommitCount(site, w, rest, sync.key) == 1
  {
    var w0 := Run(site, START, before);
    RunKeepsConsistent(site, START, before);
    FailedUpdateEffect(site, w0, sync);
    var w := Apply(site, w0, sync);
    AgreesAfterQuiet(site, w, rest, sync.client, sync.key, |LogOf(w, sync.key)|);
  }

  lemma FailedUpdateEffect(site: Site, w0: World, a: Action)
    requires Consistent(site, w0) && a.Write? && a.key in w0.rows
    requires Writing(site, w0, a).status == Failed(EncodeFailed) || Writing(site, w0, a).status == Failed(SaveFailed)
    ensures var w := Apply(site, w0, a);
            && Consistent(site, w) && LogOf(w, a.key) != []
            && CachedVersion(CacheOf(w, a.client), a.key) == Some(|LogOf(w, a.key)|)
  {
    ApplyKeepsConsistent(site, w0, a);
    VersionAfter(site, w0, a);
    NoCommitEffect(site, w0, a);
    assert RowIsLog(site.num, w0.rows[a.key], LogOf(w0, a.key));
  }

  // ---------------------------------------------------------------- secrets

  ghost predicate SealedEntries(enc: Encryptor, app: string, entries: Entries) {
    forall name :: name in entries && name != VERSION ==> entries[name].Str? && SealedBy(enc, app, entries[name].s)
  }

  ghost predicate SealedDoc(enc: Encryptor, app: string, doc: Doc) {
    forall name :: name in doc && name != VERSION ==> doc[name].JString? && SealedBy(enc, app, doc[name].s)
  }

  /** Every value of a secret scope, stored or cached, came out of the encryptor. */
  ghost predicate SecretsSealed(site: Site, w: World) {
    && (forall key :: key in w.rows && key.scope == "secret" ==> SealedDoc(site.enc, key.app, w.rows[key].doc))
    && (forall c, key :: c in w.caches && key in w.caches[c] && key.scope == "secret"
                         ==> SealedEntries(site.enc, key.app, w.caches[c][key]))
  }

  lemma ApplyKeepsSealed(site: Site, w: World, a: Action)
    requires SecretsSealed(site, w)
    ensures SecretsSealed(site, Apply(site, w, a))
  {
    match a {
      case Read(_, _, _) =>
      case Set(_, _, _, _, _) => SetKeepsSealed(site, w, a);
      case Delete(_, _, _) =>
      case Write(_, _, _, _) => WriteKeepsSealed(site, w, a);
    }
  }

  lemma SetKeepsSealed(site: Site, w: World, a: Action)
    requires SecretsSealed(site, w) && a.Set?
    ensures SecretsSealed(site, Apply(site, w, a))
  {
    var stored := Sealed(site.enc, a.key, a.name, a.value, a.nonce);
    assert a.key.scope == "secret" && a.name != VERSION && stored.Ok? ==> SealedBy(site.enc, a.key.app, stored.value.s);
  }

  lemma WriteKeepsSealed(site: Site, w: World, a: Action)
    requires SecretsSealed(site, w) && a.Write?
    ensures SecretsSealed(site, Apply(site, w, a))
  {
    if Commits(site, w, a, a.key) {
      CommitKeepsSealed(site, w, a);
    } else {
      NoCommitEffect(site, w, a);
    }
  }

  lemma CommitKeepsSealed(site: Site, w: World, a: Action)
    requires SecretsSealed(site, w) && a.Write? && Commits(site, w, a, a.key)
    ensures SecretsSealed(site, Apply(site, w, a))
  {
    CommitEffect(site, w, a);
  }

  lemma {:induction false} RunKeepsSealed(site: Site, w: World, actions: seq<Action>)
    requires SecretsSealed(site, w)
    ensures SecretsSealed(site, Run(site, w, actions))
    decreases |actions|
  {
    if actions != [] {
      ApplyKeepsSealed(site, w, actions[0]);
      RunKeepsSealed(site, Apply(site, w, actions[0]), actions[1..]);
    }
  }

  /**
   * Main result: whatever the clients did, plain text never sits in a secret scope, and with an
   * invertible encryptor reading one can fail neither on a non-string nor on decryption.
   */
  lemma SecretsAreSealedAndReadable(site: Site, actions: seq<Action>, client: int, key: Key, name: string)
    requires Inverts(site.enc) && key.scope == "secret" && name != VERSION
    ensures SecretsSealed(site, Run(site, START, actions))
    ensures var cache := CacheOf(Run(site, START, actions), client);
            key in cache && name in cache[key] ==>
              exists text, nonce :: cache[key][name].Str?
                && site.enc.encrypt(text, key.app, nonce) == Ok(cache[key][name].s)
                && Fetch(site.enc, cache, key, name) == Ok(Str(text))
  {
    RunKeepsSealed(site, START, actions);
    var w := Run(site, START, actions);
    var cache := CacheOf(w, client);
    if key in cache && name in cache[key] {
      assert SealedEntries(site.enc, key.app, cache[key]);
      var text, nonce :| site.enc.encrypt(text, key.app, nonce) == Ok(cache[key][name].s);
      assert Fetch(site.enc, cache, key, name) == Ok(Str(text));
    }
  }

  /** The row is still there when the reader comes: nobody committed it in between. */
  predicate StillStored(rows: Table, later: Table, key: Key) {
    key in rows && key in later && later[key] == rows[key]
  }

  /** What one process writes, another reads: every value recoded, the version the row's. */
  lemma WriteThenRead(num: Numerals, rows: Table, later: Table, ds: Cache, theirs: Cache, key: Key)
    requires CachedVersion(ds, key).Some? && Encodable(ds[key])
    requires StillStored(AfterWrite(num, rows, ds, key, true, true).rows, later, key)
    ensures var w := AfterWrite(num, rows, ds, key, true, true);
            var r := AfterRead(num, later, theirs, key, Healthy);
            && w.status.Done? && r.1.Done? && key in r.0 && r.0[key].Keys == ds[key].Keys
            && r.0[key][VERSION] == Int64(if key in rows then Column(rows[key].version, rows[key].version + 1) else ds[key][VERSION].n)
            && (forall name :: name in ds[key] && name != VERSION
                               ==> r.0[key][name] == Decode(num, Encode(num, ds[key][name])))
  {
    var w := AfterWrite(num, rows, ds, key, true, true);
    assert w.rows[key].doc.Keys == ds[key].Keys;
  }

  /** What GetEntries hands over: the old entries overridden by the new values, each as it arrives through JSON. */
  ghost predicate Overrides(num: Numerals, got: Entries, before: Entries, values: Entries) {
    && got.Keys == before.Keys + values.Keys
    && (forall name :: name in values ==> ArrivesAs(num, values[name], got[name]))
    && (forall name :: name in before && name !in values && name != VERSION ==> ArrivesAs(num, before[name], got[name]))
  }

  lemma NewValueArrives(site: Site, got: Cache, key: Key, name: string, value: Value, nonce: int)
    requires Inverts(site.enc) && CanEncode(value) && name != VERSION && Sealed(site.enc, key, name, value, nonce).Ok?
    requires key in got && name in got[key]
    requires got[key][name] == Decode(site.num, Encode(site.num, Sealed(site.enc, key, name, value, nonce).value))
    ensures Fetch(site.enc, got, key, name).Ok? && ArrivesAs(site.num, value, Fetch(site.enc, got, key, name).value)
  {
    RecodedArrives(site.num, value);
  }

  lemma OldValueArrives(site: Site, mine: Cache, got: Cache, key: Key, name: string)
    requires key in mine && name in mine[key] && name != VERSION && Fetch(site.enc, mine, key, name).Ok?
    requires CanEncode(mine[key][name]) && key in got && name in got[key]
    requires got[key][name] == Decode(site.num, Encode(site.num, mine[key][name]))
    ensures Fetch(site.enc, got, key, name).Ok?
    ensures ArrivesAs(site.num, Fetch(site.enc, mine, key, name).value, Fetch(site.enc, got, key, name).value)
  {
    RecodedArrives(site.num, mine[key][name]);
  }

  lemma RecodedOverrides(site: Site, mine: Cache, got: Cache, key: Key, values: Entries, nonces: string -> int)
    requires Inverts(site.enc) && VERSION !in values && Encodable(values)
    requires key in mine && VERSION in mine[key] && AllSettable(site.enc, mine, key, values, nonces)
    requires Readable(site.enc, mine, key) && Encodable(mine[key])
    requires key in got && got[key].Keys == mine[key].Keys + values.Keys
    requires var merged := mine[key] + SealAll(site.enc, key, values, nonces);
             forall name :: name in merged && name != VERSION
                            ==> got[key][name] == Decode(site.num, Encode(site.num, merged[name]))
    ensures Readable(site.enc, got, key)
    ensures Overrides(site.num, FetchAll(site.enc, got, key), FetchAll(site.enc, mine, key), values)
  {
    forall name | name in got[key] && name != VERSION
      ensures Fetch(site.enc, got, key, name).Ok?
      ensures name in values ==> ArrivesAs(site.num, values[name], Fetch(site.enc, got, key, name).value)
      ensures name !in values ==> ArrivesAs(site.num, Fetch(site.enc, mine, key, name).value,
                                            Fetch(site.enc, got, key, name).value)
    {
      if name in values {
        NewValueArrives(site, got, key, name, values[name], nonces(name));
      } else {
        OldValueArrives(site, mine, got, key, name);
      }
    }
  }

  /**
   * Main result: SetEntries and Write by one process, then Read and GetEntries by another, hand
   * over the old entries overridden by the new values, each as it arrives: a string as itself, an
   * int64 as the float64 of its literal. Anyone may act before the Write, and between it and the
   * Read as long as nobody commits that row.
   */
  lemma ValuesCrossProcesses(site: Site, rows: Table, later: Table, mine: Cache, theirs: Cache, key: Key,
                             values: Entries, nonces: string -> int)
    requires Inverts(site.enc) && VERSION !in values && Encodable(values)
    requires AllSettable(site.enc, mine, key, values, nonces)
    requires CachedVersion(mine, key).Some? && Encodable(mine[key]) && Readable(site.enc, mine, key)
    requires var merged := Merged(site.enc, mine, key, values, nonces);
             StillStored(AfterWrite(site.num, rows, merged, key, true, true).rows, later, key)
    ensures var w := AfterWrite(site.num, rows, Merged(site.enc, mine, key, values, nonces), key, true, true);
            var r := AfterRead(site.num, later, theirs, key, Healthy);
            && w.status.Done? && r.1.Done? && Readable(site.enc, r.0, key)
            && Overrides(site.num, FetchAll(site.enc, r.0, key), FetchAll(site.enc, mine, key), values)
            && Current(r.0, key) == Ok(if key in rows then Column(rows[key].version, rows[key].version + 1) else mine[key][VERSION].n)
  {
    var merged := Merged(site.enc, mine, key, values, nonces);
    MergedEntries(site.enc, mine, key, values, nonces);
    WriteThenRead(site.num, rows, later, merged, theirs, key);
    RecodedOverrides(site, mine, AfterRead(site.num, later, theirs, key, Healthy).0, key, values, nonces);
  }

  lemma MergedEntries(enc: Encryptor, mine: Cache, key: Key, values: Entries, nonces: string -> int)
    requires key in mine && AllSettable(enc, mine, key, values, nonces)
    ensures var merged := Merged(enc, mine, key, values, nonces);
            && key in merged && merged[key] == mine[key] + SealAll(enc, key, values, nonces)
            && merged[key].Keys == mine[key].Keys + values.Keys
            && (VERSION !in values && VERSION in mine[key] ==> CachedVersion(merged, key) == CachedVersion(mine, key))
            && (Encodable(mine[key]) && Encodable(values) ==> Encodable(merged[key]))
  {
  }
}
