/** cmd/kaigara watchSecrets: the version poll over every (app, scope), and its report. */
module Poller {
  import opened Outcomes
  import opened StoreKeys

  /**
   * What the store answers at one tick, for the i-th app and the j-th scope. None is an error. The
   * two calls are separate, so nothing ties the answers for different pairs together.
   */
  datatype Poll = Poll(current: (nat, nat) -> Option<int>, latest: (nat, nat) -> Option<int>)

  predicate Answers(poll: Poll, i: nat, j: nat) {
    poll.current(i, j).Some? && poll.latest(i, j).Some?
  }

  /** No earlier scope of the same app failed: a failure cuts off the rest of that app. */
  predicate Reached(poll: Poll, i: nat, j: nat) {
    forall j' :: 0 <= j' < j ==> Answers(poll, i, j')
  }

  predicate Moved(poll: Poll, i: nat, j: nat) {
    Reached(poll, i, j) && Answers(poll, i, j) && poll.current(i, j) != poll.latest(i, j)
  }

  /** `found` is the first moved pair in app-major order, or None when no pair moved. */
  ghost predicate IsFirstMoved(poll: Poll, apps: nat, scopes: nat, found: Option<(nat, nat)>) {
    match found
    case None => forall i: nat, j: nat :: i < apps && j < scopes ==> !Moved(poll, i, j)
    case Some(p) =>
      && p.0 < apps && p.1 < scopes && Moved(poll, p.0, p.1)
      && forall i: nat, j: nat :: i < apps && j < scopes && Before((i, j), p) ==> !Moved(poll, i, j)
  }

  /** One pass of the poller. An error breaks out of the inner loop only. */
  method Pass(poll: Poll, apps: nat, scopes: nat) returns (found: Option<(nat, nat)>)
    ensures IsFirstMoved(poll, apps, scopes, found)
  {
    var i: nat := 0;
    while i < apps
      invariant i <= apps
      invariant forall a: nat, s: nat :: a < i && s < scopes ==> !Moved(poll, a, s)
    {
      var j: nat := 0;
      while j < scopes
        invariant j <= scopes
        invariant Reached(poll, i, j)
        invariant forall s: nat :: s < j ==> !Moved(poll, i, s)
      {
        var current := poll.current(i, j);
        if current.None? {
          break;
        }
        var latest := poll.latest(i, j);
        if latest.None? {
          break;
        }
        if current != latest {
          return Some((i, j));
        }
        j := j + 1;
      }
      assert forall s: nat :: j < s < scopes && Reached(poll, i, s) ==> Answers(poll, i, j);
      i := i + 1;
    }
    found := None;
  }

  lemma FirstMovedIsUnique(poll: Poll, apps: nat, scopes: nat, p: Option<(nat, nat)>, q: Option<(nat, nat)>)
    requires IsFirstMoved(poll, apps, scopes, p) && IsFirstMoved(poll, apps, scopes, q)
    ensures p == q
  {
    if p.Some? && q.Some? {
      assert Before(p.value, q.value) || Before(q.value, p.value) || p == q;
    }
  }

  // ---------------------------------------------------------------- the goroutine

  /** What the select receives next: the stop signal, or a tick, at which the store is polled. */
  datatype Event = Stop | Tick(poll: Poll)

  datatype Report = Report(app: string, scope: string, current: int, latest: int)

  /** The apps whose scopes are polled. */
  function Watched(appNames: seq<string>, ignoreGlobal: bool): seq<string> {
    if ignoreGlobal then appNames else appNames + [GLOBAL]
  }

  ghost predicate Silent(events: seq<Event>, apps: nat, scopes: nat) {
    forall e :: e in events ==> e.Tick? && IsFirstMoved(e.poll, apps, scopes, None)
  }

  /**
   * The whole run. `appNames[..length]` is a slice over a backing array that may be longer; the
   * list to watch is a copy with one more element, so nothing the caller can see is written. At
   * most one report is sent, for the first tick that finds a moved pair, and none after the stop.
   */
  method WatchSecrets(appNames: array<string>, length: nat, scopes: seq<string>, ignoreGlobal: bool, events: seq<Event>)
    returns (restart: seq<Report>, handled: nat)
    requires length <= appNames.Length
    ensures |restart| <= 1 && handled <= |events|
    ensures var apps := appNames[..length] + if ignoreGlobal then [] else ["global"];
            && Silent(events[..handled], |apps|, |scopes|)
            && (restart == [] ==> handled == |events| || events[handled].Stop?)
            && (restart != [] ==>
                 && handled < |events| && events[handled].Tick?
                 && exists p, current, latest ::
                      && IsFirstMoved(events[handled].poll, |apps|, |scopes|, Some(p))
                      && events[handled].poll.current(p.0, p.1) == Some(current)
                      && events[handled].poll.latest(p.0, p.1) == Some(latest)
                      && restart[0] == Report(apps[p.0], scopes[p.1], current, latest))
  {
    var apps := appNames[..length];
    if !ignoreGlobal {
      var watched := new string[length + 1](_ => GLOBAL);
      var i := 0;
      while i < length
        invariant 0 <= i <= length
        invariant watched[length] == GLOBAL
        invariant watched[..i] == appNames[..i]
      {
        watched[i] := appNames[i];
        i := i + 1;
      }
      apps := watched[..];
    }
    assert apps == appNames[..length] + if ignoreGlobal then [] else [GLOBAL];
    restart, handled := [], 0;
    while handled < |events|
      invariant 0 <= handled <= |events| && restart == []
      invariant Silent(events[..handled], |apps|, |scopes|)
    {
      match events[handled] {
        case Stop => return;
        case Tick(poll) =>
          var found := Pass(poll, |apps|, |scopes|);
          if found.Some? {
            var (i, j) := found.value;
            restart := [Report(apps[i], scopes[j], poll.current(i, j).value, poll.latest(i, j).value)];
            return;
          }
      }
      handled := handled + 1;
    }
  }

  // ---------------------------------------------------------------- which apps are watched

  /** The apps in their order, and after them "global" exactly if it is not ignored. */
  lemma WatchedInOrder(appNames: seq<string>, ignoreGlobal: bool)
    ensures var apps := Watched(appNames, ignoreGlobal);
            && |apps| == |appNames| + (if ignoreGlobal then 0 else 1)
            && (forall i :: 0 <= i < |appNames| ==> apps[i] == appNames[i])
            && (!ignoreGlobal ==> apps[|appNames|] == "global")
  {
  }

  /** The versions of the j-th scope of "global" differ, and no look-up of "global" up to that one fails. */
  predicate GlobalMovedAt(poll: Poll, apps: seq<string>, j: nat) {
    forall i :: 0 <= i < |apps| && apps[i] == "global" ==> Moved(poll, i, j)
  }

  /** Nothing but "global" moved. */
  predicate OnlyGlobalMoved(poll: Poll, apps: seq<string>, scopes: nat) {
    forall i, j :: 0 <= i < |apps| && 0 <= j < scopes && Moved(poll, i, j) ==> apps[i] == "global"
  }

  /** Main result: a tick at which only scopes of "global" moved is reported exactly if it is not ignored. */
  lemma GlobalReportedIff(poll: Poll, appNames: seq<string>, scopes: nat, ignoreGlobal: bool, j: nat,
                          found: Option<(nat, nat)>)
    requires "global" !in appNames && j < scopes
    requires var apps := Watched(appNames, ignoreGlobal);
             && GlobalMovedAt(poll, apps, j) && OnlyGlobalMoved(poll, apps, scopes)
             && IsFirstMoved(poll, |apps|, scopes, found)
    ensures found.Some? <==> !ignoreGlobal
    ensures found.Some? ==> found.value.0 == |appNames| && found.value.1 <= j
  {
    var apps := Watched(appNames, ignoreGlobal);
    WatchedInOrder(appNames, ignoreGlobal);
    assert forall i :: 0 <= i < |appNames| ==> apps[i] != "global";
    if !ignoreGlobal {
      assert Moved(poll, |appNames|, j);
    }
  }
}
