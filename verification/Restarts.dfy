/**
 * The poller over either backend, all processes acting at any time: while the scopes are loaded,
 * one Read each, and while a pass asks about them, two calls each. What a pass reports is exactly
 * the stored changes the version numbers can show.
 */
module Restarts {
  import opened Outcomes
  import opened Values
  import opened StoreKeys
  import opened Poller
  import Sql = SqlStore
  import History = SqlHistory
  import Vault = VaultStore

  /** What BuildCmdEnv asks for: "global" and the apps; the poller watches the apps and maybe "global". */
  function LoadedKeys(appNames: seq<string>, scopes: seq<string>): seq<Key> {
    Pairs([GLOBAL] + appNames, scopes)
  }

  function WatchedKey(appNames: seq<string>, scopes: seq<string>, ignoreGlobal: bool, i: nat, j: nat): Key
    requires i < |Watched(appNames, ignoreGlobal)| && j < |scopes|
  {
    Key(Watched(appNames, ignoreGlobal)[i], scopes[j])
  }

  /** Every pair the poller asks about was loaded when the environment was built. */
  lemma WatchedWereLoaded(appNames: seq<string>, scopes: seq<string>, ignoreGlobal: bool, i: nat, j: nat)
    requires i < |Watched(appNames, ignoreGlobal)| && j < |scopes|
    ensures WatchedKey(appNames, scopes, ignoreGlobal, i, j) in LoadedKeys(appNames, scopes)
  {
    if i < |appNames| {
      PairAt([GLOBAL] + appNames, scopes, i + 1, j);
    } else {
      PairAt([GLOBAL] + appNames, scopes, 0, j);
    }
  }

  /** `found` is the first pair, app-major, of which `hit` holds, or None when there is none. */
  ghost predicate IsFirst(hit: (nat, nat) -> bool, apps: nat, scopes: nat, found: Option<(nat, nat)>) {
    match found
    case None => forall i: nat, j: nat :: i < apps && j < scopes ==> !hit(i, j)
    case Some(p) =>
      && p.0 < apps && p.1 < scopes && hit(p.0, p.1)
      && forall i: nat, j: nat :: i < apps && j < scopes && Before((i, j), p) ==> !hit(i, j)
  }

  lemma FirstMovedIsFirst(poll: Poll, hit: (nat, nat) -> bool, apps: nat, scopes: nat, found: Option<(nat, nat)>)
    requires forall i: nat, j: nat :: i < apps && j < scopes ==> (Moved(poll, i, j) <==> hit(i, j))
    requires IsFirstMoved(poll, apps, scopes, found)
    ensures IsFirst(hit, apps, scopes, found)
  {
  }

  /** The pass gets as far as the pair and past it: no look-up of the app's scopes up to it failed. */
  predicate GetsTo(ok: (nat, nat) -> bool, i: nat, j: nat) {
    forall j': nat :: j' <= j ==> ok(i, j')
  }

  /** If only failing look-ups go unanswered, a pair moves exactly when the pass gets to it and its two versions differ. */
  lemma AnsweringMoves(poll: Poll, ok: (nat, nat) -> bool, i: nat, j: nat)
    requires forall j': nat :: j' <= j ==> (Answers(poll, i, j') <==> ok(i, j'))
    ensures Moved(poll, i, j) <==> GetsTo(ok, i, j) && poll.current(i, j) != poll.latest(i, j)
  {
  }

  // ---------------------------------------------------------------- SQL

  /** The world after the first n actions of the run. */
  function WorldAt(site: History.Site, actions: seq<History.Action>, n: nat): History.World {
    History.Run(site, History.START, if n <= |actions| then actions[..n] else actions)
  }

  /** The client's last sync of the scope is a successful Read, the run's action number `at`. */
  predicate LoadedAt(actions: seq<History.Action>, client: int, key: Key, at: nat) {
    && at < |actions| && actions[at] == History.Read(client, key, Sql.Healthy)
    && History.Quiet(actions[at + 1..], client, key)
  }

  /** Commits the version number can show: all of them for a row that was read, all but the first for a new one. */
  predicate VisiblyWritten(site: History.Site, actions: seq<History.Action>, key: Key, at: nat, until: nat) {
    && at < until <= |actions|
    && History.CommitCount(site, WorldAt(site, actions, at + 1), actions[at + 1..until], key)
       > if key in WorldAt(site, actions, at).rows then 0 else 1
  }

  lemma WorldAfterSync(site: History.Site, actions: seq<History.Action>, at: nat, n: nat)
    requires at < n <= |actions|
    ensures WorldAt(site, actions, at + 1) == History.Apply(site, WorldAt(site, actions, at), actions[at])
    ensures WorldAt(site, actions, n) == History.Run(site, WorldAt(site, actions, at + 1), actions[at + 1..n])
  {
    assert actions[..at + 1] == actions[..at] + [actions[at]];
    History.RunConcat(site, History.START, actions[..at], [actions[at]]);
    var w := WorldAt(site, actions, at);
    assert [actions[at]][1..] == [];
    assert History.Run(site, w, [actions[at]]) == History.Run(site, History.Apply(site, w, actions[at]), []);
    assert actions[..n] == actions[..at + 1] + actions[at + 1..n];
    History.RunConcat(site, History.START, actions[..at + 1], actions[at + 1..n]);
  }

  /** After a quiet stretch the cached version is still the one that was read. */
  lemma CachedSinceLoad(site: History.Site, actions: seq<History.Action>, client: int, key: Key, at: nat, n: nat)
    requires History.AllLegal(actions) && LoadedAt(actions, client, key, at) && at < n <= |actions|
    ensures var w := WorldAt(site, actions, at);
            Sql.CachedVersion(History.CacheOf(WorldAt(site, actions, n), client), key)
            == Some(if key in w.rows then w.rows[key].version else 0)
  {
    WorldAfterSync(site, actions, at, n);
    History.VersionAfter(site, WorldAt(site, actions, at), actions[at]);
    var rest := actions[at + 1..n];
    assert forall a :: a in rest ==> a in actions[at + 1..];
    History.QuietKeepsVersion(site, WorldAt(site, actions, at + 1), rest, client, key);
  }

  lemma AgreesSinceLoad(site: History.Site, actions: seq<History.Action>, client: int, key: Key, at: nat, n: nat)
    requires History.AllLegal(actions) && LoadedAt(actions, client, key, at) && at < n <= |actions|
    ensures History.Agrees(WorldAt(site, actions, n), client, key) <==> !VisiblyWritten(site, actions, key, at, n)
  {
    WorldAfterSync(site, actions, at, n);
    var rest := actions[at + 1..n];
    assert forall a :: a in rest ==> a in actions[at + 1..];
    if key in WorldAt(site, actions, at).rows {
      History.CoherentAfterSync(site, actions[..at], actions[at], rest);
    } else {
      History.CreationIsInvisible(site, actions[..at], actions[at], rest);
    }
  }

  /** The answers to GetCurrentVersion after t actions and to GetLatestVersion after t'. */
  function CurrentAt(site: History.Site, actions: seq<History.Action>, client: int, key: Key, t: nat): Result<int, Error> {
    Sql.Current(History.CacheOf(WorldAt(site, actions, t), client), key)
  }

  function LatestAt(site: History.Site, actions: seq<History.Action>, client: int, key: Key, t: nat, lookup: bool): Result<int, Error> {
    Sql.Latest(WorldAt(site, actions, t).rows, History.CacheOf(WorldAt(site, actions, t), client), key, lookup)
  }

  lemma SqlPairMoves(site: History.Site, actions: seq<History.Action>, client: int, key: Key, at: nat, t: nat, t': nat,
                     lookup: bool)
    requires History.AllLegal(actions) && LoadedAt(actions, client, key, at) && at < t <= t' <= |actions|
    ensures var current, latest := CurrentAt(site, actions, client, key, t), LatestAt(site, actions, client, key, t', lookup);
            && current.Ok? && (latest.Ok? <==> lookup)
            && (lookup ==> (current == latest <==> !VisiblyWritten(site, actions, key, at, t')))
  {
    CachedSinceLoad(site, actions, client, key, at, t);
    CachedSinceLoad(site, actions, client, key, at, t');
    AgreesSinceLoad(site, actions, client, key, at, t');
  }

  function Answered(r: Result<int, Error>): Option<int> {
    match r
    case Ok(v) => Some(v)
    case Err(_) => None
  }

  /**
   * A pass whose two calls for the i-th app and j-th scope come after `asks(i, j)` actions, the
   * second of which fails unless `ok(i, j)`. The first asks the cache and never fails here.
   */
  function SqlPoll(site: History.Site, actions: seq<History.Action>, client: int, apps: seq<string>, scopes: seq<string>,
                   asks: (nat, nat) -> (nat, nat), ok: (nat, nat) -> bool): Poll
  {
    Poll((i: nat, j: nat) =>
           if i < |apps| && j < |scopes|
           then Answered(CurrentAt(site, actions, client, Key(apps[i], scopes[j]), asks(i, j).0)) else None,
         (i: nat, j: nat) =>
           if i < |apps| && j < |scopes|
           then Answered(LatestAt(site, actions, client, Key(apps[i], scopes[j]), asks(i, j).1, ok(i, j))) else None)
  }

  /** Every scope is loaded, and each pair of the pass is asked about after its own Read. */
  ghost predicate AsksAfterLoads(actions: seq<History.Action>, client: int, appNames: seq<string>, scopes: seq<string>,
                                 ignoreGlobal: bool, at: Key -> nat, asks: (nat, nat) -> (nat, nat))
  {
    && (forall key :: key in LoadedKeys(appNames, scopes) ==> LoadedAt(actions, client, key, at(key)))
    && (forall i: nat, j: nat :: i < |Watched(appNames, ignoreGlobal)| && j < |scopes| ==>
          at(WatchedKey(appNames, scopes, ignoreGlobal, i, j)) < asks(i, j).0 <= asks(i, j).1 <= |actions|)
  }

  function SqlHit(site: History.Site, actions: seq<History.Action>, apps: seq<string>, scopes: seq<string>,
                  at: Key -> nat, asks: (nat, nat) -> (nat, nat), ok: (nat, nat) -> bool): (nat, nat) -> bool
  {
    (i: nat, j: nat) =>
      && i < |apps| && j < |scopes| && GetsTo(ok, i, j)
      && VisiblyWritten(site, actions, Key(apps[i], scopes[j]), at(Key(apps[i], scopes[j])), asks(i, j).1)
  }

  lemma SqlPollMeans(site: History.Site, actions: seq<History.Action>, client: int, appNames: seq<string>,
                     scopes: seq<string>, ignoreGlobal: bool, at: Key -> nat, asks: (nat, nat) -> (nat, nat),
                     ok: (nat, nat) -> bool, i: nat, j: nat)
    requires History.AllLegal(actions) && AsksAfterLoads(actions, client, appNames, scopes, ignoreGlobal, at, asks)
    requires i < |Watched(appNames, ignoreGlobal)| && j < |scopes|
    ensures var apps := Watched(appNames, ignoreGlobal);
            Moved(SqlPoll(site, actions, client, apps, scopes, asks, ok), i, j)
            <==> SqlHit(site, actions, apps, scopes, at, asks, ok)(i, j)
  {
    var apps := Watched(appNames, ignoreGlobal);
    var poll := SqlPoll(site, actions, client, apps, scopes, asks, ok);
    forall j': nat | j' <= j
      ensures Answers(poll, i, j') <==> ok(i, j')
    {
      var key := WatchedKey(appNames, scopes, ignoreGlobal, i, j');
      WatchedWereLoaded(appNames, scopes, ignoreGlobal, i, j');
      SqlPairMoves(site, actions, client, key, at(key), asks(i, j').0, asks(i, j').1, ok(i, j'));
    }
    var key := WatchedKey(appNames, scopes, ignoreGlobal, i, j);
    WatchedWereLoaded(appNames, scopes, ignoreGlobal, i, j);
    SqlPairMoves(site, actions, client, key, at(key), asks(i, j).0, asks(i, j).1, ok(i, j));
    AnsweringMoves(poll, ok, i, j);
  }

  /**
   * Main result for SQL, in every interleaving of loading, polling and other processes' writes,
   * whichever look-ups of the pass fail: it reports a pair exactly when it gets to some watched
   * pair that was visibly written between its own Read and the pass's question about it, and then
   * the first such pair. With no write it is silent.
   */
  lemma SqlRestartIffWritten(site: History.Site, actions: seq<History.Action>, client: int, appNames: seq<string>,
                             scopes: seq<string>, ignoreGlobal: bool, at: Key -> nat, asks: (nat, nat) -> (nat, nat),
                             ok: (nat, nat) -> bool, found: Option<(nat, nat)>)
    requires History.AllLegal(actions) && AsksAfterLoads(actions, client, appNames, scopes, ignoreGlobal, at, asks)
    requires var apps := Watched(appNames, ignoreGlobal);
             IsFirstMoved(SqlPoll(site, actions, client, apps, scopes, asks, ok), |apps|, |scopes|, found)
    ensures var apps := Watched(appNames, ignoreGlobal);
            IsFirst(SqlHit(site, actions, apps, scopes, at, asks, ok), |apps|, |scopes|, found)
  {
    var apps := Watched(appNames, ignoreGlobal);
    var poll, hit := SqlPoll(site, actions, client, apps, scopes, asks, ok), SqlHit(site, actions, apps, scopes, at, asks, ok);
    forall i: nat, j: nat | i < |apps| && j < |scopes|
      ensures Moved(poll, i, j) <==> hit(i, j)
    {
      SqlPollMeans(site, actions, client, appNames, scopes, ignoreGlobal, at, asks, ok, i, j);
    }
    FirstMovedIsFirst(poll, hit, |apps|, |scopes|, found);
  }

  // ---------------------------------------------------------------- Vault

  /** The service after the first n of the other processes' operations. */
  function KvAt(kv: Vault.Kv, others: seq<Vault.Remote>, n: nat): Vault.Kv {
    Vault.AfterRemote(kv, if n <= |others| then others[..n] else others)
  }

  /** The client after reading the keys, the n-th of them when `at(n)` operations of others have happened. */
  function VaultLoaded(num: Numerals, kv: Vault.Kv, others: seq<Vault.Remote>, s: Vault.State, keys: seq<Key>,
                       at: nat -> nat): Vault.State
  {
    if keys == [] then s
    else
      var n := |keys| - 1;
      var before := VaultLoaded(num, kv, others, s, keys[..n], at);
      Vault.AfterRead(num, before.(kv := KvAt(kv, others, at(n))), keys[n], true).0
  }

  /** Where a key is read for the last time. */
  function LastRead(keys: seq<Key>, key: Key): (n: nat)
    requires key in keys
    ensures n < |keys| && keys[n] == key
    ensures forall m :: n < m < |keys| ==> keys[m] != key
  {
    if keys[|keys| - 1] == key then |keys| - 1 else LastRead(keys[..|keys| - 1], key)
  }

  function LiveVersion(kv: Vault.Kv, key: Key): int {
    if Vault.Live(kv, key) then |kv[key]| else -1
  }

  lemma {:induction false} VaultReadsLoad(num: Numerals, kv: Vault.Kv, others: seq<Vault.Remote>, s: Vault.State,
                                          keys: seq<Key>, at: nat -> nat, key: Key)
    requires key in keys
    ensures Vault.Current(VaultLoaded(num, kv, others, s, keys, at), key)
         == Some(LiveVersion(KvAt(kv, others, at(LastRead(keys, key))), key))
    decreases |keys|
  {
    var n := |keys| - 1;
    var before := VaultLoaded(num, kv, others, s, keys[..n], at);
    CurrentAfterRead(num, before, KvAt(kv, others, at(n)), keys[n], key);
    if keys[n] != key {
      assert key in keys[..n];
      VaultReadsLoad(num, kv, others, s, keys[..n], at, key);
    }
  }

  lemma CurrentAfterRead(num: Numerals, s: Vault.State, kv: Vault.Kv, read: Key, key: Key)
    ensures Vault.Current(Vault.AfterRead(num, s.(kv := kv), read, true).0, key)
         == if read == key then Some(LiveVersion(kv, key)) else Vault.Current(s, key)
  {
  }

  /** The latest version was soft-deleted when the scope was loaded. */
  predicate LoadedDeleted(kv: Vault.Kv, key: Key) {
    Vault.VersionsOf(kv, key) != [] && !Vault.Live(kv, key)
  }

  lemma {:induction false} RemoteConcat(kv: Vault.Kv, a: seq<Vault.Remote>, b: seq<Vault.Remote>)
    ensures Vault.AfterRemote(kv, a + b) == Vault.AfterRemote(Vault.AfterRemote(kv, a), b)
    decreases |b|
  {
    if b == [] {
      assert a + b == a;
    } else {
      assert (a + b)[..|a + b| - 1] == a + b[..|b| - 1];
      RemoteConcat(kv, a, b[..|b| - 1]);
    }
  }

  lemma VaultPairMoves(kv: Vault.Kv, others: seq<Vault.Remote>, key: Key, r: nat, t: nat)
    requires r <= t <= |others|
    ensures LiveVersion(KvAt(kv, others, r), key) != Vault.Latest(KvAt(kv, others, t), key)
       <==> Vault.PutCount(others[r..t], key) > 0 || LoadedDeleted(KvAt(kv, others, r), key)
  {
    assert others[..t] == others[..r] + others[r..t];
    RemoteConcat(kv, others[..r], others[r..t]);
    Vault.PutsCountVersions(KvAt(kv, others, r), others[r..t], key);
  }

  /** None for the current version would be the panic of an unguarded type assertion; for the latest, a failed call. */
  function VaultPoll(s: Vault.State, kv: Vault.Kv, others: seq<Vault.Remote>, apps: seq<string>, scopes: seq<string>,
                     asks: (nat, nat) -> nat, ok: (nat, nat) -> bool): Poll
  {
    Poll((i: nat, j: nat) =>
           if i < |apps| && j < |scopes| then Vault.Current(s, Key(apps[i], scopes[j])) else None,
         (i: nat, j: nat) =>
           if i < |apps| && j < |scopes| && ok(i, j)
           then Some(Vault.Latest(KvAt(kv, others, asks(i, j)), Key(apps[i], scopes[j]))) else None)
  }

  /** The pass gets to the pair, which was put between its Read and the question or was soft-deleted at its Read. */
  function VaultHit(kv: Vault.Kv, others: seq<Vault.Remote>, apps: seq<string>, scopes: seq<string>,
                    keys: seq<Key>, at: nat -> nat, asks: (nat, nat) -> nat, ok: (nat, nat) -> bool): (nat, nat) -> bool
  {
    (i: nat, j: nat) =>
      && i < |apps| && j < |scopes| && GetsTo(ok, i, j) && Key(apps[i], scopes[j]) in keys
      && var r := at(LastRead(keys, Key(apps[i], scopes[j])));
         && r <= asks(i, j) <= |others|
         && (|| Vault.PutCount(others[r..asks(i, j)], Key(apps[i], scopes[j])) > 0
             || LoadedDeleted(KvAt(kv, others, r), Key(apps[i], scopes[j])))
  }

  /** Each pair of the pass is asked about after its own last Read. */
  ghost predicate AsksLater(others: seq<Vault.Remote>, appNames: seq<string>, scopes: seq<string>, ignoreGlobal: bool,
                            at: nat -> nat, asks: (nat, nat) -> nat)
  {
    forall i: nat, j: nat :: i < |Watched(appNames, ignoreGlobal)| && j < |scopes| ==>
      var key, keys := WatchedKey(appNames, scopes, ignoreGlobal, i, j), LoadedKeys(appNames, scopes);
      key in keys ==> at(LastRead(keys, key)) <= asks(i, j) <= |others|
  }

  lemma VaultPollMeans(num: Numerals, kv: Vault.Kv, others: seq<Vault.Remote>, s: Vault.State, appNames: seq<string>,
                       scopes: seq<string>, ignoreGlobal: bool, at: nat -> nat, asks: (nat, nat) -> nat,
                       ok: (nat, nat) -> bool, i: nat, j: nat)
    requires i < |Watched(appNames, ignoreGlobal)| && j < |scopes|
    requires AsksLater(others, appNames, scopes, ignoreGlobal, at, asks)
    ensures var apps, keys := Watched(appNames, ignoreGlobal), LoadedKeys(appNames, scopes);
            var loaded := VaultLoaded(num, kv, others, s, keys, at);
            var poll := VaultPoll(loaded, kv, others, apps, scopes, asks, ok);
            && Vault.Current(loaded, Key(apps[i], scopes[j])).Some? && (Answers(poll, i, j) <==> ok(i, j))
            && (GetsTo(ok, i, j) ==>
                 (poll.current(i, j) != poll.latest(i, j) <==> VaultHit(kv, others, apps, scopes, keys, at, asks, ok)(i, j)))
  {
    var keys := LoadedKeys(appNames, scopes);
    var key := WatchedKey(appNames, scopes, ignoreGlobal, i, j);
    WatchedWereLoaded(appNames, scopes, ignoreGlobal, i, j);
    VaultReadsLoad(num, kv, others, s, keys, at, key);
    VaultPairMoves(kv, others, key, at(LastRead(keys, key)), asks(i, j));
  }

  /**
   * Main result for Vault, in every interleaving and whichever metadata reads fail: no assertion
   * in GetCurrentVersion can fail for a polled pair, and a pass reports the first pair it gets to
   * that was put since its own Read, or was already soft-deleted at it; without one it is silent.
   */
  lemma VaultRestartIffPut(num: Numerals, kv: Vault.Kv, others: seq<Vault.Remote>, s: Vault.State, appNames: seq<string>,
                           scopes: seq<string>, ignoreGlobal: bool, at: nat -> nat, asks: (nat, nat) -> nat,
                           ok: (nat, nat) -> bool, found: Option<(nat, nat)>)
    requires AsksLater(others, appNames, scopes, ignoreGlobal, at, asks)
    requires var apps, keys := Watched(appNames, ignoreGlobal), LoadedKeys(appNames, scopes);
             var poll := VaultPoll(VaultLoaded(num, kv, others, s, keys, at), kv, others, apps, scopes, asks, ok);
             IsFirstMoved(poll, |apps|, |scopes|, found)
    ensures var apps, keys := Watched(appNames, ignoreGlobal), LoadedKeys(appNames, scopes);
            var loaded := VaultLoaded(num, kv, others, s, keys, at);
            && (forall i: nat, j: nat :: i < |apps| && j < |scopes| ==> Vault.Current(loaded, Key(apps[i], scopes[j])).Some?)
            && IsFirst(VaultHit(kv, others, apps, scopes, keys, at, asks, ok), |apps|, |scopes|, found)
  {
    var apps, keys := Watched(appNames, ignoreGlobal), LoadedKeys(appNames, scopes);
    var poll := VaultPoll(VaultLoaded(num, kv, others, s, keys, at), kv, others, apps, scopes, asks, ok);
    var hit := VaultHit(kv, others, apps, scopes, keys, at, asks, ok);
    forall i: nat, j: nat | i < |apps| && j < |scopes|
      ensures Moved(poll, i, j) <==> hit(i, j)
      ensures Vault.Current(VaultLoaded(num, kv, others, s, keys, at), Key(apps[i], scopes[j])).Some?
    {
      VaultPollMeans(num, kv, others, s, appNames, scopes, ignoreGlobal, at, asks, ok, i, j);
      forall j': nat | j' <= j
        ensures Answers(poll, i, j') <==> ok(i, j')
      {
        VaultPollMeans(num, kv, others, s, appNames, scopes, ignoreGlobal, at, asks, ok, i, j');
      }
      AnsweringMoves(poll, ok, i, j);
    }
    FirstMovedIsFirst(poll, hit, |apps|, |scopes|, found);
  }
}
