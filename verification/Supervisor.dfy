/**
 * cmd/kaigara superviseChild: one loop that relays signals and restart requests to the child and
 * escalates to SIGKILL. The environment is a timed sequence of moments; at each one the select
 * tries the named channel, which may turn out not to be ready.
 */
module Supervisor {
  import opened Outcomes

  /** Milliseconds. */
  const SHUTDOWN_GRACE := 8000

  /** The signals kaigara subscribes to. */
  datatype Signal = SIGTERM | SIGINT | SIGHUP

  /** What exec.Cmd.Wait reports. */
  datatype WaitError = NoError | Exited(code: int) | Signaled(signal: nat) | Other

  datatype Channel =
    | WaitDone(err: WaitError)
    | SigCh(sig: Signal)
    | Restart(reason: string)
    | KillDeadline

  datatype Moment = Moment(now: int, channel: Channel)

  /** What the child is sent: a relayed signal, the SIGTERM of a restart request, or SIGKILL. */
  datatype Sent =
    | Relayed(at: int, sig: Signal)
    | AskedToStop(at: int)
    | Killed(at: int)

  // ---------------------------------------------------------------- specification

  /** A request that starts the shutdown clock. */
  predicate IsStop(s: Sent) {
    s.AskedToStop? || (s.Relayed? && s.sig != SIGHUP)
  }

  /** When the pending shutdown began: at the first stop request since the last kill. */
  function PendingSince(sent: seq<Sent>): Option<int> {
    if sent == [] then None
    else
      var last := sent[|sent| - 1];
      var before := PendingSince(sent[..|sent| - 1]);
      if last.Killed? then None
      else if IsStop(last) && before.None? then Some(last.at)
      else before
  }

  function Deadline(sent: seq<Sent>): Option<int> {
    if PendingSince(sent).Some? then Some(PendingSince(sent).value + SHUTDOWN_GRACE) else None
  }

  predicate KillIsDue(sent: seq<Sent>, now: int) {
    Deadline(sent).Some? && Deadline(sent).value <= now
  }

  function Answer(sent: seq<Sent>, m: Moment): seq<Sent> {
    match m.channel
    case WaitDone(_) => sent
    case SigCh(sig) => sent + [Relayed(m.now, sig)]
    case Restart(_) => sent + [AskedToStop(m.now)]
    case KillDeadline => if KillIsDue(sent, m.now) then sent + [Killed(m.now)] else sent
  }

  /** The moments up to the one that reports the child's exit. */
  function UntilExit(moments: seq<Moment>): seq<Moment> {
    if moments == [] || moments[0].channel.WaitDone? then [] else [moments[0]] + UntilExit(moments[1..])
  }

  function Transcript(moments: seq<Moment>): seq<Sent> {
    if moments == [] then [] else Answer(Transcript(moments[..|moments| - 1]), moments[|moments| - 1])
  }

  // ---------------------------------------------------------------- the loop

  /** `exit` is None when the moments end before the child does. */
  method SuperviseChild(moments: seq<Moment>) returns (sent: seq<Sent>, exit: Option<WaitError>)
    ensures sent == Transcript(UntilExit(moments))
    ensures exit.None? <==> UntilExit(moments) == moments
    ensures exit.Some? ==> |UntilExit(moments)| < |moments|
                           && moments[|UntilExit(moments)|].channel == WaitDone(exit.value)
  {
    sent := [];
    var killDeadline: Option<int> := None;
    var i := 0;
    while i < |moments|
      invariant 0 <= i <= |moments|
      invariant forall j :: 0 <= j < i ==> !moments[j].channel.WaitDone?
      invariant sent == Transcript(moments[..i])
      invariant killDeadline == Deadline(sent)
    {
      var now := moments[i].now;
      TranscriptStep(moments, i);
      match moments[i].channel {
        case WaitDone(err) =>
          UntilExitIs(moments, i);
          return sent, Some(err);
        case SigCh(sig) =>
          DeadlineAfter(sent, Relayed(now, sig));
          sent := sent + [Relayed(now, sig)];
          if sig != SIGHUP && killDeadline.None? {
            killDeadline := Some(now + SHUTDOWN_GRACE);
          }
        case Restart(_) =>
          DeadlineAfter(sent, AskedToStop(now));
          sent := sent + [AskedToStop(now)];
          if killDeadline.None? {
            killDeadline := Some(now + SHUTDOWN_GRACE);
          }
        case KillDeadline =>
          // A nil channel, or a timer that has not fired yet, blocks.
          if killDeadline.Some? && killDeadline.value <= now {
            DeadlineAfter(sent, Killed(now));
            sent := sent + [Killed(now)];
            killDeadline := None;
          }
      }
      i := i + 1;
    }
    UntilExitIs(moments, i);
    assert moments[..i] == moments;
    exit := None;
  }

  lemma DeadlineAfter(sent: seq<Sent>, s: Sent)
    ensures Deadline(sent + [s])
         == if s.Killed? then None
            else if IsStop(s) && Deadline(sent).None? then Some(s.at + SHUTDOWN_GRACE)
            else Deadline(sent)
  {
    assert (sent + [s])[..|sent|] == sent;
  }

  lemma TranscriptStep(moments: seq<Moment>, i: nat)
    requires i < |moments|
    ensures Transcript(moments[..i + 1]) == Answer(Transcript(moments[..i]), moments[i])
  {
    assert moments[..i + 1][..i] == moments[..i];
  }

  lemma {:induction false} UntilExitIs(moments: seq<Moment>, i: nat)
    requires i <= |moments| && forall j :: 0 <= j < i ==> !moments[j].channel.WaitDone?
    requires i < |moments| ==> moments[i].channel.WaitDone?
    ensures UntilExit(moments) == moments[..i]
  {
    if i > 0 {
      UntilExitIs(moments[1..], i - 1);
    }
  }

  // ---------------------------------------------------------------- what a run guarantees

  predicate Chronological(moments: seq<Moment>) {
    forall i, j :: 0 <= i < j < |moments| ==> moments[i].now <= moments[j].now
  }

  /** How many entries there are up to the last kill. */
  function Epoch(sent: seq<Sent>): (n: nat)
    ensures n <= |sent| && (n == 0 || sent[n - 1].Killed?)
    ensures forall i :: n <= i < |sent| ==> !sent[i].Killed?
  {
    if sent == [] then 0
    else if sent[|sent| - 1].Killed? then |sent|
    else Epoch(sent[..|sent| - 1])
  }

  /** Entry `j` is the first stop request between the last kill before entry `k` and entry `k`. */
  predicate Arms(sent: seq<Sent>, j: int, k: int)
    requires 0 <= k <= |sent|
  {
    && Epoch(sent[..k]) <= j < k && IsStop(sent[j])
    && forall i :: Epoch(sent[..k]) <= i < j ==> !IsStop(sent[i])
  }

  /** PendingSince is the time of the entry that arms, and None when there is none. */
  lemma {:induction false} PendingIsArmed(sent: seq<Sent>) returns (j: int)
    ensures PendingSince(sent).Some? ==> Arms(sent, j, |sent|) && sent[j].at == PendingSince(sent).value
    ensures PendingSince(sent).None? ==> forall i :: Epoch(sent) <= i < |sent| ==> !IsStop(sent[i])
  {
    assert sent[..|sent|] == sent;
    j := 0;
    if sent != [] && !sent[|sent| - 1].Killed? {
      var before := sent[..|sent| - 1];
      j := PendingIsArmed(before);
      assert before[..|before|] == before;
      assert Epoch(sent) == Epoch(before);
      if PendingSince(before).None? && IsStop(sent[|sent| - 1]) {
        j := |sent| - 1;
        forall i | Epoch(sent) <= i < j
          ensures !IsStop(sent[i])
        {
          assert sent[i] == before[i];
        }
      }
    }
  }

  ghost predicate KillsAreEarned(sent: seq<Sent>) {
    forall k :: 0 <= k < |sent| && sent[k].Killed? ==>
      exists j :: Arms(sent, j, k) && sent[j].at + 8000 <= sent[k].at
  }

  /** Everything sent but the kills. */
  function Requests(sent: seq<Sent>): seq<Sent> {
    if sent == [] then []
    else Requests(sent[..|sent| - 1]) + if sent[|sent| - 1].Killed? then [] else [sent[|sent| - 1]]
  }

  /** The accepted signals, and a SIGTERM for every restart, in the order they were accepted. */
  function Accepted(moments: seq<Moment>): seq<Sent> {
    if moments == [] then []
    else
      var m := moments[|moments| - 1];
      Accepted(moments[..|moments| - 1])
      + match m.channel
        case SigCh(sig) => [Relayed(m.now, sig)]
        case Restart(_) => [AskedToStop(m.now)]
        case _ => []
  }

  function Kills(sent: seq<Sent>): nat {
    if sent == [] then 0 else Kills(sent[..|sent| - 1]) + if sent[|sent| - 1].Killed? then 1 else 0
  }

  function Stops(sent: seq<Sent>): nat {
    if sent == [] then 0 else Stops(sent[..|sent| - 1]) + if IsStop(sent[|sent| - 1]) then 1 else 0
  }

  lemma KillsStayEarned(sent: seq<Sent>, s: Sent)
    requires KillsAreEarned(sent) && (s.Killed? ==> KillIsDue(sent, s.at))
    ensures KillsAreEarned(sent + [s])
  {
    var sent' := sent + [s];
    var armed := PendingIsArmed(sent);
    forall k | 0 <= k < |sent'| && sent'[k].Killed?
      ensures exists j :: Arms(sent', j, k) && sent'[j].at + 8000 <= sent'[k].at
    {
      if k < |sent| {
        var j :| Arms(sent, j, k) && sent[j].at + 8000 <= sent[k].at;
        StaysArmed(sent, s, j, k);
      } else {
        StaysArmed(sent, s, armed, k);
      }
    }
  }

  lemma StaysArmed(sent: seq<Sent>, s: Sent, j: int, k: nat)
    requires k <= |sent| && Arms(sent, j, k)
    ensures Arms(sent + [s], j, k) && (sent + [s])[j] == sent[j]
  {
    assert (sent + [s])[..k] == sent[..k];
  }

  /**
   * Main result, for every run: each SIGKILL comes at least eight seconds after the first stop
   * request since the previous SIGKILL; kills never outnumber stop requests; and apart from the
   * kills the child is sent exactly the accepted signals plus one SIGTERM per restart, in order,
   * at times that ascend as the clock does.
   */
  lemma {:induction false} EveryKillIsEarned(moments: seq<Moment>)
    ensures var sent := Transcript(moments);
            && KillsAreEarned(sent)
            && Kills(sent) + (if PendingSince(sent).Some? then 1 else 0) <= Stops(sent)
            && Requests(sent) == Accepted(moments)
            && (Chronological(moments) ==> Ascends(sent))
  {
    if Chronological(moments) {
      TranscriptIsChronological(moments);
    }
    if moments != [] {
      EveryKillIsEarned(moments[..|moments| - 1]);
      AnswerKeepsDiscipline(Transcript(moments[..|moments| - 1]), moments[|moments| - 1]);
    }
  }

  lemma AnswerKeepsDiscipline(sent: seq<Sent>, m: Moment)
    requires KillsAreEarned(sent) && Kills(sent) + (if PendingSince(sent).Some? then 1 else 0) <= Stops(sent)
    ensures var sent' := Answer(sent, m);
            && KillsAreEarned(sent')
            && Kills(sent') + (if PendingSince(sent').Some? then 1 else 0) <= Stops(sent')
            && Requests(sent') == Requests(sent) + match m.channel
                                                   case SigCh(sig) => [Relayed(m.now, sig)]
                                                   case Restart(_) => [AskedToStop(m.now)]
                                                   case _ => []
  {
    var sent' := Answer(sent, m);
    if sent' != sent {
      var s := sent'[|sent'| - 1];
      assert sent' == sent + [s] && sent'[..|sent'| - 1] == sent;
      KillsStayEarned(sent, s);
    }
  }

  ghost predicate Ascends(sent: seq<Sent>) {
    forall i, j :: 0 <= i < j < |sent| ==> sent[i].at <= sent[j].at
  }

  /** The sent times follow the clock, so "at least the grace period after" is about real time. */
  lemma {:induction false} TranscriptIsChronological(moments: seq<Moment>)
    requires Chronological(moments)
    ensures var sent := Transcript(moments);
            && Ascends(sent)
            && (sent != [] ==> moments != [] && sent[|sent| - 1].at <= moments[|moments| - 1].now)
  {
    if moments != [] {
      var before := moments[..|moments| - 1];
      TranscriptIsChronological(before);
      AnswerAscends(Transcript(before), moments[|moments| - 1]);
    }
  }

  lemma AnswerAscends(sent: seq<Sent>, m: Moment)
    requires Ascends(sent) && (sent != [] ==> sent[|sent| - 1].at <= m.now)
    ensures var sent' := Answer(sent, m);
            Ascends(sent') && (sent' != [] ==> sent'[|sent'| - 1].at <= m.now)
  {
  }

  /** SIGHUPs never arm, move or disarm the deadline. */
  lemma HupChangesNothing(sent: seq<Sent>, at: int)
    ensures PendingSince(sent + [Relayed(at, SIGHUP)]) == PendingSince(sent)
  {
    assert (sent + [Relayed(at, SIGHUP)])[..|sent|] == sent;
  }

  /** Any number of them: a daemon can be told to reload forever without the shutdown clock starting. */
  lemma {:induction false} HupsNeverArm(sent: seq<Sent>, hups: seq<int>)
    ensures PendingSince(sent + seq(|hups|, i requires 0 <= i < |hups| => Relayed(hups[i], SIGHUP))) == PendingSince(sent)
    decreases |hups|
  {
    var more := seq(|hups|, i requires 0 <= i < |hups| => Relayed(hups[i], SIGHUP));
    if hups == [] {
      assert sent + more == sent;
    } else {
      var n := |hups| - 1;
      var before := seq(n, i requires 0 <= i < n => Relayed(hups[..n][i], SIGHUP));
      HupsNeverArm(sent, hups[..n]);
      HupChangesNothing(sent + before, hups[n]);
      assert sent + more == sent + before + [Relayed(hups[n], SIGHUP)];
    }
  }

  /** Later requests of any kind never move an armed deadline, so the timer is always honoured. */
  lemma {:induction false} ArmedDeadlineStays(sent: seq<Sent>, more: seq<Sent>)
    requires PendingSince(sent).Some? && forall s :: s in more ==> !s.Killed?
    ensures PendingSince(sent + more) == PendingSince(sent)
  {
    if more == [] {
      assert sent + more == sent;
    } else {
      ArmedDeadlineStays(sent, more[..|more| - 1]);
      assert (sent + more)[..|sent + more| - 1] == sent + more[..|more| - 1];
    }
  }

  /** SIGTERM, SIGINT and restart requests start the shutdown clock, and if it runs they leave it alone. */
  lemma EveryStopArms(sent: seq<Sent>, at: int)
    ensures PendingSince(sent + [Relayed(at, SIGTERM)]) == OrElse(PendingSince(sent), Some(at))
    ensures PendingSince(sent + [Relayed(at, SIGINT)]) == OrElse(PendingSince(sent), Some(at))
    ensures PendingSince(sent + [AskedToStop(at)]) == OrElse(PendingSince(sent), Some(at))
    ensures PendingSince(sent + [Killed(at)]) == None
  {
    assert (sent + [Relayed(at, SIGTERM)])[..|sent|] == sent;
    assert (sent + [Relayed(at, SIGINT)])[..|sent|] == sent;
    assert (sent + [AskedToStop(at)])[..|sent|] == sent;
    assert (sent + [Killed(at)])[..|sent|] == sent;
  }

  lemma OneArms(sent: seq<Sent>, i: int, j: int)
    requires Arms(sent, i, |sent|) && Arms(sent, j, |sent|)
    ensures i == j
  {
    assert sent[..|sent|] == sent;
  }

  /**
   * Main result: a timer moment kills exactly if it comes eight seconds or more after the first
   * stop request since the last kill; otherwise the channel blocks and nothing is sent.
   */
  lemma TimerKillsIff(sent: seq<Sent>, now: int)
    ensures Answer(sent, Moment(now, KillDeadline))
         == if exists j :: Arms(sent, j, |sent|) && sent[j].at + 8000 <= now then sent + [Killed(now)] else sent
  {
    var armed := PendingIsArmed(sent);
    assert sent[..|sent|] == sent;
    if PendingSince(sent).Some? {
      forall j | Arms(sent, j, |sent|)
        ensures j == armed
      {
        OneArms(sent, armed, j);
      }
    }
  }

  lemma {:induction false} TranscriptGrows(moments: seq<Moment>, n: nat)
    requires n <= |moments|
    ensures Transcript(moments[..n]) <= Transcript(moments)
    decreases |moments|
  {
    if n == |moments| {
      assert moments[..n] == moments;
    } else {
      assert moments[..|moments| - 1][..n] == moments[..n];
      TranscriptGrows(moments[..|moments| - 1], n);
    }
  }

  /** The moment asks the child to stop. */
  predicate AsksToStop(m: Moment) {
    m.channel.Restart? || m.channel == SigCh(SIGTERM) || m.channel == SigCh(SIGINT)
  }

  /** A kill was sent at one of the timer moments after the i-th and up to the k-th. */
  ghost predicate KilledBetween(moments: seq<Moment>, sent: seq<Sent>, i: nat, k: nat) {
    exists m :: i < m <= k && m < |moments| && moments[m].channel == KillDeadline && Killed(moments[m].now) in sent
  }

  lemma KilledStays(moments: seq<Moment>, before: seq<Sent>, sent: seq<Sent>, i: nat, k: nat, k': nat)
    requires KilledBetween(moments, before, i, k) && before <= sent && k <= k'
    ensures KilledBetween(moments, sent, i, k')
  {
    var m :| i < m <= k && m < |moments| && moments[m].channel == KillDeadline && Killed(moments[m].now) in before;
    assert Killed(moments[m].now) in sent;
  }

  lemma KilledNow(moments: seq<Moment>, before: seq<Sent>, i: nat, k: nat)
    requires i < k < |moments| && moments[k].channel == KillDeadline
    ensures KilledBetween(moments, before + [Killed(moments[k].now)], i, k)
  {
    assert (before + [Killed(moments[k].now)])[|before|] == Killed(moments[k].now);
  }

  /** The clock runs, since the time or since before it. */
  predicate RunsSince(sent: seq<Sent>, at: int) {
    PendingSince(sent).Some? && PendingSince(sent).value <= at
  }

  /** It runs from a request until the next kill. */
  lemma {:induction false} PendingUntilKilled(moments: seq<Moment>, i: nat, k: nat)
    requires Chronological(moments) && i <= k < |moments| && AsksToStop(moments[i])
    ensures KilledBetween(moments, Transcript(moments[..k + 1]), i, k)
            || RunsSince(Transcript(moments[..k + 1]), moments[i].now)
    decreases k
  {
    TranscriptStep(moments, k);
    var before := Transcript(moments[..k]);
    if k == i {
      PendingIsPast(moments[..k], moments[i].now);
      StopStarts(before, moments[i]);
    } else {
      PendingUntilKilled(moments, i, k - 1);
      assert moments[..k - 1 + 1] == moments[..k];
      AnswerStep(moments, before, i, k);
    }
  }

  lemma StopStarts(sent: seq<Sent>, m: Moment)
    requires AsksToStop(m) && (PendingSince(sent).Some? ==> RunsSince(sent, m.now))
    ensures RunsSince(Answer(sent, m), m.now)
  {
    EveryStopArms(sent, m.now);
  }

  lemma AnswerStep(moments: seq<Moment>, before: seq<Sent>, i: nat, k: nat)
    requires i < k < |moments|
    requires KilledBetween(moments, before, i, k - 1) || RunsSince(before, moments[i].now)
    ensures var sent := Answer(before, moments[k]);
            KilledBetween(moments, sent, i, k) || RunsSince(sent, moments[i].now)
  {
    if KilledBetween(moments, before, i, k - 1) {
      KilledStays(moments, before, Answer(before, moments[k]), i, k - 1, k);
    } else if moments[k].channel == KillDeadline && KillIsDue(before, moments[k].now) {
      KilledNow(moments, before, i, k);
    } else {
      PendingGoesOn(before, moments[k]);
    }
  }

  lemma {:induction false} PendingIsPast(moments: seq<Moment>, now: int)
    requires forall i :: 0 <= i < |moments| ==> moments[i].now <= now
    ensures PendingSince(Transcript(moments)).Some? ==> RunsSince(Transcript(moments), now)
  {
    if moments != [] {
      var before := Transcript(moments[..|moments| - 1]);
      PendingIsPast(moments[..|moments| - 1], now);
      var m := moments[|moments| - 1];
      EveryStopArms(before, m.now);
      HupChangesNothing(before, m.now);
    }
  }

  lemma PendingGoesOn(sent: seq<Sent>, m: Moment)
    requires PendingSince(sent).Some? && !(m.channel.KillDeadline? && KillIsDue(sent, m.now))
    ensures PendingSince(Answer(sent, m)) == PendingSince(sent)
  {
    EveryStopArms(sent, m.now);
    HupChangesNothing(sent, m.now);
  }

  /**
   * Main result, for every run: if the timer channel is tried eight seconds or more after a stop
   * request and the child has not exited by then, a kill has been sent since the request.
   */
  lemma OverdueChildIsKilled(moments: seq<Moment>, i: nat, k: nat)
    requires Chronological(moments) && i < k < |UntilExit(moments)| && |UntilExit(moments)| <= |moments|
    requires AsksToStop(moments[i]) && moments[k].channel == KillDeadline && moments[i].now + 8000 <= moments[k].now
    ensures KilledBetween(moments, Transcript(UntilExit(moments)), i, k)
  {
    var run := UntilExit(moments);
    UntilExitMeans(moments);
    assert run[..k + 1] == moments[..k + 1];
    PendingUntilKilled(moments, i, k - 1);
    assert moments[..k - 1 + 1] == moments[..k];
    TranscriptStep(moments, k);
    TimerStep(moments, Transcript(moments[..k]), i, k);
    TranscriptGrows(run, k + 1);
    KilledStays(moments, Transcript(moments[..k + 1]), Transcript(run), i, k, k);
  }

  lemma TimerStep(moments: seq<Moment>, before: seq<Sent>, i: nat, k: nat)
    requires i < k < |moments| && moments[k].channel == KillDeadline && moments[i].now + 8000 <= moments[k].now
    requires KilledBetween(moments, before, i, k - 1) || RunsSince(before, moments[i].now)
    ensures KilledBetween(moments, Answer(before, moments[k]), i, k)
  {
    if KilledBetween(moments, before, i, k - 1) {
      KilledStays(moments, before, Answer(before, moments[k]), i, k - 1, k);
    } else {
      KilledNow(moments, before, i, k);
    }
  }

  /** The supervised stretch: everything before the first moment that reports the exit. */
  lemma {:induction false} UntilExitMeans(moments: seq<Moment>)
    ensures var run := UntilExit(moments);
            && run <= moments && (forall i :: 0 <= i < |run| ==> !run[i].channel.WaitDone?)
            && (|run| < |moments| ==> moments[|run|].channel.WaitDone?)
  {
    if moments != [] && !moments[0].channel.WaitDone? {
      UntilExitMeans(moments[1..]);
    }
  }

  // ---------------------------------------------------------------- exit status

  /** 128+signal for a signalled child, the child's own code, 1 for anything else. */
  function ExitCode(err: WaitError): (code: int)
    ensures code == 0 <==> err == NoError || err == Exited(0)
    ensures err.Signaled? ==> code == 128 + err.signal
    ensures err.Exited? && err.code >= 0 ==> code == err.code
    ensures err.Other? || (err.Exited? && err.code < 0) ==> code == 1
  {
    match err
    case NoError => 0
    case Exited(code) => if code >= 0 then code else 1
    case Signaled(signal) => 128 + signal
    case Other => 1
  }
}
