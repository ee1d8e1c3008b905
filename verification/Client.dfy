/**
 The host's client, lib/src/relay/client.dart: frames queued or handed to the
 one waiter, and a failure that is remembered.  No request is given a timeout.

 The client catches a violation; the exception of a payload that is not UTF-8
 leaves it as it was, with the bytes still in the decoder's buffer.
 */
module Client {
  import opened Text
  import opened Frames
  import opened FramesDart

  /** Why a client fails: the stream ended, or it broke the framing. */
  datatype Failure = RelayClosed | ProtocolViolation

  /** How a request completes. */
  datatype Result = Answered(frame: Frame) | Threw(failure: Failure)

  /** What becomes of a request at once: refused with `FrameTooLarge` it is not sent. */
  datatype Outcome = Started | TooLarge | Failed

  /** `result` is the completion of the outstanding request, not yet picked up. */
  datatype Client =
    Client(buffer: Bytes, queued: seq<Frame>, waiting: bool, result: Option<Result>, failure: Option<Failure>)

  const FRESH := Client([], [], false, None, None)

  /** The loop of `_onBytes` over the decoded frames. */
  function Deliver(c: Client, frames: seq<Frame>): Client
    decreases |frames|
  {
    if frames == [] then c
    else if c.waiting then Deliver(c.(waiting := false, result := Some(Answered(frames[0]))), frames[1..])
    else Deliver(c.(queued := c.queued + [frames[0]]), frames[1..])
  }

  function Fail(c: Client, failure: Failure): Client {
    if c.failure.Some? then c
    else if c.waiting then c.(failure := Some(failure), waiting := false, result := Some(Threw(failure)))
    else c.(failure := Some(failure))
  }

  function OnBytes(c: Client, chunk: Bytes, isObject: PayloadCheck): Client {
    match AddResult(c.buffer, chunk, isObject)
    case Frames(frames, tail) => Deliver(c.(buffer := tail), frames)
    case Violated => Fail(c.(buffer := c.buffer + chunk), ProtocolViolation)
    case Escaped => c.(buffer := c.buffer + chunk)
  }

  /** `_receive`: a queued frame first, then a remembered failure, then wait. */
  function Receive(c: Client): Client {
    if c.queued != [] then c.(queued := c.queued[1..], result := Some(Answered(c.queued[0])))
    else if c.failure.Some? then c.(result := Some(Threw(c.failure.value)))
    else c.(waiting := true)
  }

  /** The client object, with what it has handed to the transport. */
  class Relay {
    const decoder: DartDecoder
    var queued: seq<Frame>
    var waiting: bool
    var result: Option<Result>
    var failure: Option<Failure>
    var sent: Bytes

    constructor (isObject: PayloadCheck)
      ensures Now() == FRESH && sent == [] && fresh(decoder) && decoder.isObject == isObject
    {
      decoder := new DartDecoder(isObject);
      queued, waiting, result, failure, sent := [], false, None, None, [];
    }

    function Now(): Client
      reads this, decoder
    {
      Client(decoder.buffer, queued, waiting, result, failure)
    }

    method TakeBytes(chunk: Bytes)
      modifies this, decoder
      ensures Now() == OnBytes(old(Now()), chunk, decoder.isObject) && sent == old(sent)
    {
      hide AddResult;
      var added := decoder.Add(chunk);
      if added.Violated? {
        FailWith(ProtocolViolation);
        return;
      }
      if added.Escaped? { return; }
      var frames := added.frames;
      var i := 0;
      assert frames[0..] == frames;
      while i < |frames|
        invariant 0 <= i <= |frames| && sent == old(sent)
        invariant Deliver(Now(), frames[i..]) == OnBytes(old(Now()), chunk, decoder.isObject)
      {
        assert frames[i..][1..] == frames[i + 1..];
        var frame := frames[i];
        if waiting {
          waiting := false;
          result := Some(Answered(frame));
        } else {
          queued := queued + [frame];
        }
        i := i + 1;
      }
    }

    method FailWith(error: Failure)
      modifies this`failure, this`waiting, this`result
      ensures Now() == Fail(old(Now()), error)
    {
      if failure.Some? { return; }
      failure := Some(error);
      if waiting {
        waiting := false;
        result := Some(Threw(error));
      }
    }

    /**
     `_request` up to its wait.  A remembered failure is thrown first, then a
     request over the budget is refused; in neither case is anything sent.
     */
    method Request(request: Frame) returns (outcome: Outcome)
      modifies this
      ensures outcome == if old(failure).Some? then Failed else if WithinBudget(request) then Started else TooLarge
      ensures match outcome
              case Failed =>
                Now() == old(Now()).(result := Some(Threw(old(failure).value))) && sent == old(sent)
              case TooLarge => Now() == old(Now()) && sent == old(sent)
              case Started => Now() == Receive(old(Now())) && sent == old(sent) + Encode(request)
    {
      if failure.Some? {
        result := Some(Threw(failure.value));
        return Failed;
      }
      var bytes := EncodeChecked(request.kind, request.payload);
      if bytes.None? { return TooLarge; }
      sent := sent + bytes.value;
      if queued != [] {
        result := Some(Answered(queued[0]));
        queued := queued[1..];
      } else {
        waiting := true;
      }
      return Started;
    }
  }

  // ---------------------------------------------------------- in order

  /** What can happen to a client: bytes, the end of the stream, a wait for a reply, and its completion taken. */
  datatype Event = Arrival(chunk: Bytes) | Closing | Waits | Takes

  /** A client, the frames its requests were given and the failures thrown to them, in order. */
  datatype Life = Life(client: Client, given: seq<Frame>, thrown: seq<Failure>)

  function Happens(life: Life, e: Event, isObject: PayloadCheck): Life {
    var c := life.client;
    match e
    case Arrival(chunk) => life.(client := OnBytes(c, chunk, isObject))
    case Closing => life.(client := Fail(c, RelayClosed))
    case Waits => if c.waiting || c.result.Some? then life else life.(client := Receive(c))
    case Takes =>
      match c.result
      case None => life
      case Some(Answered(frame)) => Life(c.(result := None), life.given + [frame], life.thrown)
      case Some(Threw(failure)) => Life(c.(result := None), life.given, life.thrown + [failure])
  }

  function Lives(events: seq<Event>, isObject: PayloadCheck): Life {
    if events == [] then Life(FRESH, [], [])
    else Happens(Lives(events[..|events| - 1], isObject), events[|events| - 1], isObject)
  }

  /** All the bytes that arrived, chunk by chunk. */
  function Chunks(events: seq<Event>): seq<Bytes> {
    if events == [] then []
    else Chunks(events[..|events| - 1]) + if events[|events| - 1].Arrival? then [events[|events| - 1].chunk] else []
  }

  /** Frames on their way to requests: the completion not yet taken, then the queue. */
  function Pending(c: Client): seq<Frame> {
    (if c.result.Some? && c.result.value.Answered? then [c.result.value.frame] else []) + c.queued
  }

  predicate Settled(c: Client) { c.waiting ==> c.result.None? && c.queued == [] }

  lemma {:induction false} DeliverInOrder(c: Client, frames: seq<Frame>)
    requires Settled(c)
    ensures Settled(Deliver(c, frames)) && Pending(Deliver(c, frames)) == Pending(c) + frames
    ensures Deliver(c, frames).buffer == c.buffer && Deliver(c, frames).failure == c.failure
    decreases |frames|
  {
    if frames == [] {
      assert Pending(c) + [] == Pending(c);
    } else {
      var next := if c.waiting then c.(waiting := false, result := Some(Answered(frames[0])))
                  else c.(queued := c.queued + [frames[0]]);
      assert Pending(next) == Pending(c) + [frames[0]];
      DeliverInOrder(next, frames[1..]);
      Regroup(Pending(c), [frames[0]], frames[1..]);
      assert frames == [frames[0]] + frames[1..];
    }
  }

  lemma ArrivalInOrder(c: Client, chunk: Bytes, isObject: PayloadCheck)
    requires Settled(c)
    ensures var after, added := OnBytes(c, chunk, isObject), AddResult(c.buffer, chunk, isObject);
            && Settled(after) && Pending(after) == Pending(c) + HandedOver(added)
            && after.buffer == (if added.Frames? then added.tail else c.buffer + chunk)
            && after.failure == if added.Violated? && c.failure.None? then Some(ProtocolViolation) else c.failure
  {
    hide AddResult;
    match AddResult(c.buffer, chunk, isObject)
    case Frames(frames, tail) => DeliverInOrder(c.(buffer := tail), frames);
    case _ => assert Pending(c) + [] == Pending(c);
  }

  /**
   Whatever arrives and whenever requests wait: the frames they are given, then
   those on their way to them, are all that the decoder has handed over, in order
   and each once.
   */
  lemma {:induction false} EveryFrameOnceInOrder(events: seq<Event>, isObject: PayloadCheck)
    ensures var life, host := Lives(events, isObject), HostAfter(Chunks(events), isObject);
            && life.given + Pending(life.client) == host.0
            && life.client.buffer == host.1
            && Settled(life.client)
  {
    hide AddResult, OnBytes;
    if events != [] {
      var n := |events| - 1;
      var e, before := events[n], Lives(events[..n], isObject);
      EveryFrameOnceInOrder(events[..n], isObject);
      if e.Arrival? {
        ArrivalInOrder(before.client, e.chunk, isObject);
        var chunks := Chunks(events);
        assert chunks[..|chunks| - 1] == Chunks(events[..n]);
        Regroup(before.given, Pending(before.client), HandedOver(AddResult(before.client.buffer, e.chunk, isObject)));
        var host := HostAfter(Chunks(events[..n]), isObject).0;
        assert host + [] == host;
      } else {
        assert Chunks(events) == Chunks(events[..n]) + [] == Chunks(events[..n]);
        OtherInOrder(before, e, isObject);
      }
    }
  }

  lemma OtherInOrder(life: Life, e: Event, isObject: PayloadCheck)
    requires !e.Arrival? && Settled(life.client)
    ensures var after := Happens(life, e, isObject);
            && after.given + Pending(after.client) == life.given + Pending(life.client)
            && after.client.buffer == life.client.buffer && Settled(after.client)
  {
    var c := life.client;
    if e.Waits? && !c.waiting && c.result.None? && c.queued != [] {
      assert c.queued == [c.queued[0]] + c.queued[1..];
    }
    if e.Takes? && c.result.Some? && c.result.value.Answered? {
      Regroup(life.given, [c.result.value.frame], c.queued);
      assert [] + c.queued == c.queued;
    }
  }

  /** The first failure stays, wakes the request that waits, and is thrown to every later one that finds no frame. */
  lemma FirstFailureStays(life: Life, e: Event, isObject: PayloadCheck)
    requires Settled(life.client)
    ensures var c, after := life.client, Happens(life, e, isObject).client;
            var first := if e.Closing? then Some(RelayClosed)
                       else if e.Arrival? && AddResult(c.buffer, e.chunk, isObject).Violated? then Some(ProtocolViolation)
                       else None;
            && after.failure == (if c.failure.Some? then c.failure else first)
            && (c.failure.None? && first.Some? && c.waiting ==> !after.waiting && after.result == Some(Threw(first.value)))
            && (e.Waits? && !c.waiting && c.result.None? && c.queued == [] && c.failure.Some? ==>
                  after.result == Some(Threw(c.failure.value)))
  {
    hide AddResult;
    if e.Arrival? { ArrivalInOrder(life.client, e.chunk, isObject); }
  }

  // ------------------------------------------------------- requests that hang

  function Arrivals(c: Client, chunks: seq<Bytes>, isObject: PayloadCheck): Client {
    if chunks == [] then c else
      var n := |chunks| - 1;
      OnBytes(Arrivals(c, chunks[..n], isObject), chunks[n], isObject)
  }

  /** No frame complete and nothing wrong yet. */
  predicate Silent(s: Bytes) { Drain(s).frames == [] && Drain(s).error.None? }

  predicate NotTextFirst(s: Bytes, isObject: PayloadCheck) { Screen(Drain(s).frames, isObject) == NotText }

  /** Together with the first frame there arrived one that is not UTF-8, and no other fault before it. */
  ghost predicate Stuck(chunks: seq<Bytes>, isObject: PayloadCheck) {
    exists i: nat :: i < |chunks| && StuckAt(chunks, i, isObject)
  }

  predicate StuckAt(chunks: seq<Bytes>, i: nat, isObject: PayloadCheck)
    requires i < |chunks|
  {
    Silent(Concat(chunks[..i])) && NotTextFirst(Concat(chunks[..i + 1]), isObject)
  }

  lemma {:induction false} DeliverWakes(c: Client, frames: seq<Frame>)
    ensures Deliver(c, frames).waiting == (c.waiting && frames == [])
    decreases |frames|
  {
    if frames != [] {
      DeliverWakes(if c.waiting then c.(waiting := false, result := Some(Answered(frames[0])))
                   else c.(queued := c.queued + [frames[0]]), frames[1..]);
    }
  }

  /** What one more arrival does to a client that has had nothing but bytes so far. */
  lemma ArrivalOf(c: Client, chunk: Bytes, isObject: PayloadCheck)
    ensures var s := c.buffer + chunk;
            var after := OnBytes(c, chunk, isObject);
            && (Silent(s) || NotTextFirst(s, isObject) ==> after == c.(buffer := s))
            && (!Silent(s) && !NotTextFirst(s, isObject) ==> !after.waiting || c.failure.Some?)
            && (!c.waiting ==> !after.waiting)
  {
    hide Drain;
    var s := c.buffer + chunk;
    EncodeDecoded(s);
    assert Screen([], isObject) == Fine;
    match AddResult(c.buffer, chunk, isObject)
    case Frames(frames, tail) =>
      DeliverWakes(c.(buffer := tail), frames);
      if frames == [] { assert [] + tail == tail; }
    case _ =>
  }

  lemma NotTextStays(a: Bytes, b: Bytes, isObject: PayloadCheck)
    ensures NotTextFirst(a, isObject) ==> NotTextFirst(a + b, isObject)
    ensures !Silent(a) ==> !Silent(a + b)
    ensures Silent(a) ==> !NotTextFirst(a, isObject)
  {
    hide Drain;
    DrainAppend(a, b);
    ScreenAppend(Drain(a).frames, Drain(Drain(a).rest + b).frames, isObject);
    assert Screen([], isObject) == Fine;
  }

  lemma {:induction false} StuckSnoc(chunks: seq<Bytes>, isObject: PayloadCheck)
    requires chunks != []
    ensures var n := |chunks| - 1;
            Stuck(chunks, isObject) <==> Stuck(chunks[..n], isObject) || StuckAt(chunks, n, isObject)
  {
    hide Silent, NotTextFirst;
    var n := |chunks| - 1;
    forall i: nat | i < n ensures StuckAt(chunks, i, isObject) == StuckAt(chunks[..n], i, isObject) {
      assert chunks[..n][..i] == chunks[..i] && chunks[..n][..i + 1] == chunks[..i + 1];
    }
  }

  /**
   A request that waits on a client with nothing received goes on waiting, through
   any arrivals, exactly when they complete no frame and no violation, or the
   first frame came together with a payload that is not UTF-8.
   */
  lemma {:induction false} HangsExactly(c: Client, chunks: seq<Bytes>, isObject: PayloadCheck)
    requires c.waiting && c.failure.None? && c.buffer == []
    ensures var all, after := Concat(chunks), Arrivals(c, chunks, isObject);
            && (after.waiting <==> Silent(all) || Stuck(chunks, isObject))
            && (after.waiting ==> after == c.(buffer := all))
            && (Stuck(chunks, isObject) ==> NotTextFirst(all, isObject) && !Silent(all))
  {
    hide Silent, NotTextFirst, OnBytes, Stuck;
    if chunks == [] {
      NothingArrived(isObject);
    } else {
      var n := |chunks| - 1;
      var before, all := Concat(chunks[..n]), Concat(chunks);
      HangsExactly(c, chunks[..n], isObject);
      ConcatNext(chunks, n);
      assert chunks[..n + 1] == chunks;
      ArrivalOf(Arrivals(c, chunks[..n], isObject), chunks[n], isObject);
      NotTextStays(before, chunks[n], isObject);
      NotTextStays(all, [], isObject);
      StuckSnoc(chunks, isObject);
    }
  }

  lemma NothingArrived(isObject: PayloadCheck)
    ensures Silent([]) && !Stuck([], isObject)
  {
  }
}
