/** pkg/logstream: the log pump over one reused buffer, and the heartbeat key. */
module LogStream {
  import opened Outcomes

  newtype byte = x: int | 0 <= x < 256

  const PUBLISH_BUF_SIZE := 65536

  /** Milliseconds. */
  const TTL := 20000

  /** One `stream.Read(buf)`: the bytes it delivered, and whether it returned an error with them. */
  datatype ReadResult = ReadResult(data: seq<byte>, failed: bool)

  datatype Message = Message(channel: string, payload: seq<byte>)

  /** The Redis server: what was submitted for publishing, and the keys with their expiry times. */
  class Redis {
    var published: seq<Message>
    var expiry: map<string, int>

    constructor ()
      ensures published == [] && expiry == map[]
    {
      published, expiry := [], map[];
    }

    /** EXPIRE does nothing to a key that has already lapsed. */
    method Expire(key: string, now: int)
      modifies `expiry
      ensures expiry == Refreshed(old(expiry), key, now)
    {
      if key in expiry {
        if now < expiry[key] {
          expiry := expiry[key := now + TTL];
        } else {
          expiry := expiry - {key};
        }
      }
    }
  }

  function Refreshed(expiry: map<string, int>, key: string, now: int): map<string, int> {
    if key !in expiry then expiry
    else if now < expiry[key] then expiry[key := now + TTL]
    else expiry - {key}
  }

  /** The bytes the reads delivered, in order. */
  function Bytes(results: seq<ReadResult>): seq<byte> {
    if results == [] then [] else Bytes(results[..|results| - 1]) + results[|results| - 1].data
  }

  /** Up to and including the first read that fails. */
  function UntilFailure(results: seq<ReadResult>): seq<ReadResult> {
    if results == [] then []
    else if results[0].failed then [results[0]]
    else [results[0]] + UntilFailure(results[1..])
  }

  /** One message per read that delivered anything. */
  function Messages(channel: string, results: seq<ReadResult>): seq<Message> {
    if results == [] then []
    else
      var data := results[|results| - 1].data;
      Messages(channel, results[..|results| - 1]) + if data == [] then [] else [Message(channel, data)]
  }

  function Payloads(messages: seq<Message>): seq<byte> {
    if messages == [] then [] else Payloads(messages[..|messages| - 1]) + messages[|messages| - 1].payload
  }

  class RedisLogStream {
    const client: Redis?
    var stdout: seq<byte>

    constructor (client: Redis?)
      ensures this.client == client && stdout == []
    {
      this.client, stdout := client, [];
    }

    /** The pump: both sinks get the reads up to the first failure, message by message. */
    method Publish(channel: string, results: seq<ReadResult>)
      requires forall r :: r in results ==> |r.data| <= 65536
      modifies this, if client == null then {} else {client}
      ensures stdout == old(stdout) + Bytes(UntilFailure(results))
      ensures client != null ==> client.expiry == old(client.expiry)
      ensures client != null ==> client.published == old(client.published) + Messages(channel, UntilFailure(results))
    {
      var buf := new byte[PUBLISH_BUF_SIZE](_ => 0);
      var i := 0;
      while i < |results|
        invariant 0 <= i <= |results|
        invariant forall j :: 0 <= j < i ==> !results[j].failed
        invariant stdout == old(stdout) + Bytes(results[..i])
        invariant client != null ==> client.expiry == old(client.expiry)
        invariant client != null ==> client.published == old(client.published) + Messages(channel, results[..i])
      {
        OneMoreRead(channel, results, i, old(stdout), if client == null then [] else old(client.published));
        Handle(channel, buf, results[i].data);
        i := i + 1;
        if results[i - 1].failed {
          break;
        }
      }
      UntilFailureIs(results, i);
    }

    /** One read: what it left at the front of the buffer, if anything, goes to both sinks. */
    method Handle(channel: string, buf: array<byte>, data: seq<byte>)
      requires |data| <= buf.Length
      modifies this, buf, if client == null then {} else {client}
      ensures stdout == old(stdout) + data
      ensures client != null ==> client.expiry == old(client.expiry)
      ensures client != null ==>
                client.published == old(client.published) + if data == [] then [] else [Message(channel, data)]
    {
      var n := Fill(buf, data);
      if n > 0 {
        Emit(channel, buf[..n]);
      }
    }

    /** A failed publish is only logged, so every message is submitted once. */
    method Emit(channel: string, payload: seq<byte>)
      modifies this, if client == null then {} else {client}
      ensures stdout == old(stdout) + payload
      ensures client != null ==> client.expiry == old(client.expiry)
      ensures client != null ==> client.published == old(client.published) + [Message(channel, payload)]
    {
      stdout := stdout + payload;
      if client != null {
        client.published := client.published + [Message(channel, payload)];
      }
    }

    /**
     * The heartbeat: a SET, an EXPIRE at each beat, and a DEL once told to quit, any of which may
     * fail unnoticed. While it runs the key's expiry is what ExpiryAfter says; nothing else is touched.
     */
    method HeartBeat(name: string, first: Beat, beats: seq<Beat>, quit: bool, deleted: bool)
      modifies if client == null then {} else {client}
      ensures client != null ==> client.published == old(client.published)
      ensures client != null ==>
                var key := "service." + name;
                client.expiry == WithExpiry(old(client.expiry), key,
                                            if quit && deleted then None
                                            else ExpiryAfter(AfterSet(ExpiryOf(old(client.expiry), key), first), beats))
    {
      var key := "service." + name;
      ghost var was := if client != null then AfterSet(ExpiryOf(client.expiry, key), first) else None;
      if client != null && first.ok {
        client.expiry := client.expiry[key := first.at + TTL];
      }
      var i := 0;
      while i < |beats|
        invariant 0 <= i <= |beats|
        invariant client != null ==> client.published == old(client.published)
        invariant client != null ==> client.expiry == WithExpiry(old(client.expiry), key, ExpiryAfter(was, beats[..i]))
      {
        assert beats[..i + 1][..i] == beats[..i];
        if client != null && beats[i].ok {
          client.Expire(key, beats[i].at);
        }
        i := i + 1;
      }
      assert beats[..i] == beats;
      if quit && deleted && client != null {
        client.expiry := client.expiry - {key};
      }
    }
  }

  /** A call to Redis at some time, and whether it got through. */
  datatype Beat = Beat(at: int, ok: bool)

  function ExpiryOf(expiry: map<string, int>, key: string): Option<int> {
    if key in expiry then Some(expiry[key]) else None
  }

  function WithExpiry(expiry: map<string, int>, key: string, at: Option<int>): map<string, int> {
    match at
    case None => expiry - {key}
    case Some(t) => expiry[key := t]
  }

  /** A read stores its bytes at the front of the buffer and leaves the rest as it was. */
  method Fill(buf: array<byte>, data: seq<byte>) returns (n: nat)
    requires |data| <= buf.Length
    modifies buf
    ensures n == |data| && buf[..n] == data && buf[n..] == old(buf[n..])
  {
    n := |data|;
    var i := 0;
    while i < n
      invariant 0 <= i <= n
      invariant buf[..i] == data[..i]
      invariant buf[n..] == old(buf[n..])
    {
      buf[i] := data[i];
      i := i + 1;
    }
  }

  lemma {:induction false} UntilFailureIs(results: seq<ReadResult>, i: nat)
    requires i <= |results| && forall j :: 0 <= j < i - 1 ==> !results[j].failed
    requires i < |results| ==> i > 0 && results[i - 1].failed
    ensures UntilFailure(results) == results[..i]
  {
    if i > 1 {
      UntilFailureIs(results[1..], i - 1);
    }
  }

  lemma OneMoreRead(channel: string, results: seq<ReadResult>, i: nat, out: seq<byte>, sent: seq<Message>)
    requires i < |results|
    ensures out + Bytes(results[..i + 1]) == out + Bytes(results[..i]) + results[i].data
    ensures sent + Messages(channel, results[..i + 1])
         == sent + Messages(channel, results[..i])
            + if results[i].data == [] then [] else [Message(channel, results[i].data)]
  {
    assert results[..i + 1][..i] == results[..i];
  }

  /**
   * Main result: the messages carry exactly the bytes the reads delivered, those of the failing
   * read included and nothing after it, each in 1 to 65536 bytes on the given channel.
   */
  lemma {:induction false} MessagesConserve(channel: string, results: seq<ReadResult>)
    requires forall r :: r in results ==> |r.data| <= 65536
    ensures Payloads(Messages(channel, results)) == Bytes(results)
    ensures forall m :: m in Messages(channel, results) ==> m.channel == channel && 1 <= |m.payload| <= 65536
  {
    if results != [] {
      var before := results[..|results| - 1];
      MessagesConserve(channel, before);
      var data := results[|results| - 1].data;
      if data == [] {
        assert Bytes(before) + data == Bytes(before);
        assert Messages(channel, results) == Messages(channel, before);
      } else {
        assert (Messages(channel, before) + [Message(channel, data)])[..|Messages(channel, before)|]
            == Messages(channel, before);
      }
    }
  }

  /** Nothing is lost before the first failure and nothing is read after it. */
  lemma {:induction false} StopsAtFirstFailure(results: seq<ReadResult>)
    ensures var handled := UntilFailure(results);
            && handled <= results
            && (forall i :: 0 <= i < |handled| - 1 ==> !handled[i].failed)
            && (|handled| < |results| ==> handled != [] && handled[|handled| - 1].failed)
  {
    if results != [] && !results[0].failed {
      StopsAtFirstFailure(results[1..]);
    }
  }

  // ---------------------------------------------------------------- the heartbeat key

  /** When the key expires after the SET, given when it would have expired before. */
  function AfterSet(was: Option<int>, first: Beat): Option<int> {
    if first.ok then Some(first.at + TTL) else was
  }

  /** When the key expires after an EXPIRE at each beat; None once it lapsed. */
  function ExpiryAfter(was: Option<int>, beats: seq<Beat>): Option<int> {
    if beats == [] then was
    else
      var b := beats[|beats| - 1];
      match ExpiryAfter(was, beats[..|beats| - 1])
      case None => None
      case Some(at) => if !b.ok then Some(at) else if b.at < at then Some(b.at + TTL) else None
  }

  /** The times of the refreshes that got through. */
  function Through(beats: seq<Beat>): seq<int> {
    if beats == [] then []
    else
      var b := beats[|beats| - 1];
      Through(beats[..|beats| - 1]) + if b.ok then [b.at] else []
  }

  /** When the key expires if it is still there after refreshes at these times: 20 s after the last. */
  function Due(at: int, times: seq<int>): int {
    if times == [] then at else times[|times| - 1] + 20000
  }

  /** Every refresh came before the key was due. */
  predicate InTime(at: int, times: seq<int>) {
    forall i :: 0 <= i < |times| ==> times[i] < Due(at, times[..i])
  }

  /**
   * Main result, for a SET and the refreshes after it, any of which may fail: the key is present
   * exactly if it was there to begin with, because the SET got through or it was left from before,
   * and every refresh that got through came in time: within 20 s of the SET, or before the old
   * expiry if the SET failed, and then within 20 s of the one before. A single late one loses it
   * for good, because the loop only ever refreshes and never sets it again.
   */
  lemma PresentIffInTime(was: Option<int>, first: Beat, beats: seq<Beat>)
    ensures var due := if first.ok then Some(first.at + 20000) else was;
            var after := ExpiryAfter(AfterSet(was, first), beats);
            && (after.Some? <==> due.Some? && InTime(due.value, Through(beats)))
            && (after.Some? ==> after.value == Due(due.value, Through(beats)))
  {
    RefreshedInTime(AfterSet(was, first), beats);
  }

  lemma {:induction false} RefreshedInTime(was: Option<int>, beats: seq<Beat>)
    ensures ExpiryAfter(was, beats).Some? <==> was.Some? && InTime(was.value, Through(beats))
    ensures ExpiryAfter(was, beats).Some? ==> ExpiryAfter(was, beats).value == Due(was.value, Through(beats))
  {
    if beats != [] {
      var n := |beats| - 1;
      RefreshedInTime(was, beats[..n]);
      if was.Some? && beats[n].ok {
        OneMoreInTime(was.value, Through(beats[..n]), beats[n].at);
      } else {
        assert !beats[n].ok ==> Through(beats) == Through(beats[..n]);
      }
    }
  }

  lemma OneMoreInTime(at: int, times: seq<int>, time: int)
    ensures InTime(at, times + [time]) <==> InTime(at, times) && time < Due(at, times)
  {
    var more := times + [time];
    assert more[..|times|] == times && more[|times|] == time;
    assert forall i :: 0 <= i < |times| ==> more[..i] == times[..i] && more[i] == times[i];
    if InTime(at, more) {
      forall i | 0 <= i < |times|
        ensures times[i] < Due(at, times[..i])
      {
        assert more[i] < Due(at, more[..i]);
      }
      assert more[|times|] < Due(at, more[..|times|]);
    }
  }

  /** Nothing but the one key is touched. */
  lemma OtherKeysStay(expiry: map<string, int>, key: string, at: Option<int>, other: string)
    ensures ExpiryOf(WithExpiry(expiry, key, at), key) == at
    ensures other != key ==> (other in WithExpiry(expiry, key, at) <==> other in expiry)
    ensures other != key && other in expiry ==> WithExpiry(expiry, key, at)[other] == expiry[other]
  {
  }
}
