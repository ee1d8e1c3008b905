/** What holds of a session over every run, for every backend and every list of frames. */
module SessionRuns {
  import opened Text
  import opened JsonValue
  import opened JsonPrinter
  import opened Frames
  import opened Messages
  import opened Session

  /** The session and the backend after handling `frames` one after the other. */
  function After<B>(backend: Backend<B>, b: B, frames: seq<Frame>, f: Formatter): (State, B)
  {
    if frames == [] then (FRESH, b) else
      var (st, b') := After(backend, b, frames[..|frames| - 1], f);
      var r := React(backend, st, b', frames[|frames| - 1], f);
      (r.state, r.engine)
  }

  /** What the last of `frames` makes the session do. */
  function LastReaction<B>(backend: Backend<B>, b: B, frames: seq<Frame>, f: Formatter): Reaction<B>
    requires frames != []
  {
    var (st, b') := After(backend, b, frames[..|frames| - 1], f);
    React(backend, st, b', frames[|frames| - 1], f)
  }

  /** Everything the session sends while handling `frames`. */
  function Replies<B>(backend: Backend<B>, b: B, frames: seq<Frame>, f: Formatter): seq<Frame> {
    if frames == [] then [] else
      var r := LastReaction(backend, b, frames, f);
      Replies(backend, b, frames[..|frames| - 1], f) + (if r.reply.Some? then [r.reply.value] else [])
  }

  lemma LiveReplies<B>(backend: Backend<B>, st: State, b: B, kind: MessageType, payload: Value, f: Formatter)
    ensures var r := ReactLive(backend, st, b, kind, payload, f);
            r.reply.Some? && r.more && r.state.finished == st.finished
  {
    hide ErrorFrame, StatusFrame, ValueText, Find, TextAt, ReadHandle, DiagValue, CapsValue;
  }

  /** One frame, one reply, until the session is over; then nothing at all happens. */
  lemma OneReplyPerFrame<B>(backend: Backend<B>, st: State, b: B, frame: Frame, f: Formatter)
    ensures var r := React(backend, st, b, frame, f);
            && (r.reply.Some? <==> !st.finished)
            && (st.finished ==> r.state == st && r.engine == b && r.calls == [])
            && r.more == !r.state.finished
  {
    hide ErrorFrame, ValueText, ParsePayload, Find, BestRevision, Offered, ReactLive;
    var payload := ParsePayload(frame.payload);
    if payload.Some? { LiveReplies(backend, st, b, frame.kind, payload.value, f); }
  }

  /**
   Over a whole run: while the session is open there are exactly as many
   replies as frames; once it is over, no frame adds one.
   */
  lemma {:induction false} RepliesMatchFrames<B>(backend: Backend<B>, b: B, frames: seq<Frame>, f: Formatter)
    ensures |Replies(backend, b, frames, f)| <= |frames|
    ensures !After(backend, b, frames, f).0.finished ==> |Replies(backend, b, frames, f)| == |frames|
    ensures forall k | 0 <= k <= |frames| && !After(backend, b, frames[..k], f).0.finished ::
              |Replies(backend, b, frames, f)| >= k
    ensures forall k | 0 <= k <= |frames| && After(backend, b, frames[..k], f).0.finished ::
              Replies(backend, b, frames, f) == Replies(backend, b, frames[..k], f)
              && After(backend, b, frames, f) == After(backend, b, frames[..k], f)
  {
    hide React;
    assert frames[..|frames|] == frames;
    if frames != [] {
      var before := frames[..|frames| - 1];
      var (st, b') := After(backend, b, before, f);
      RepliesMatchFrames(backend, b, before, f);
      OneReplyPerFrame(backend, st, b', frames[|frames| - 1], f);
      forall k | 0 <= k < |frames| ensures frames[..k] == before[..k] {}
    }
  }

  // -------------------------------------------------------------- invariant

  /** What every reachable session state satisfies. */
  ghost predicate Sound(st: State) {
    && (st.identify ==> st.diagnose)
    && (st.diagnose ==> st.negotiated)
    && (st.negotiated <==> st.revision != 0)
    && (st.negotiated ==> st.revision in SUPPORTED_REVISIONS)
  }

  /** What every operation that reaches a backend satisfies. */
  predicate SoundCall(c: Call) {
    match c
    case CloseCall(handle) => handle != 0
    case PostCall(handle, _, args) => handle != 0 && args.Object?
    case SetCall(handle, _, level) => handle != 0 && 0.0 <= level <= 1.0
    case _ => true
  }

  lemma LiveSound<B>(backend: Backend<B>, st: State, b: B, kind: MessageType, payload: Value, f: Formatter)
    requires Sound(st) && st.negotiated
    ensures var r := ReactLive(backend, st, b, kind, payload, f);
            && Sound(r.state) && r.state.revision == st.revision
            && (forall i | 0 <= i < |r.calls| :: SoundCall(r.calls[i]))
            && |r.calls| <= 1
            && (r.calls == [] ==> r.engine == b)
  {
    hide ErrorFrame, StatusFrame, ValueText, Find, TextAt, DiagValue, CapsValue;
  }

  /** The backend's state after one call. */
  function AfterCall<B>(backend: Backend<B>, b: B, c: Call): B {
    match c
    case OpenCall(kind, name) => backend.openTarget(b, kind, name).0
    case CloseCall(handle) => backend.closeTarget(b, handle).0
    case PostCall(handle, action, args) => backend.post(b, handle, action, args).0
    case SetCall(handle, param, level) => backend.setLevel(b, handle, param, level).0
    case _ => b
  }

  /** The backend moves exactly as the calls recorded say. */
  lemma LiveEffect<B>(backend: Backend<B>, st: State, b: B, kind: MessageType, payload: Value, f: Formatter)
    ensures var r := ReactLive(backend, st, b, kind, payload, f);
            || (r.calls == [] && r.engine == b)
            || (|r.calls| == 1 && r.engine == AfterCall(backend, b, r.calls[0]))
  {
    hide ErrorFrame, StatusFrame, ValueText, Find, TextAt, ReadHandle, DiagValue, CapsValue;
  }

  lemma ReactSound<B>(backend: Backend<B>, st: State, b: B, frame: Frame, f: Formatter)
    requires Sound(st)
    ensures var r := React(backend, st, b, frame, f);
            && Sound(r.state)
            && (forall i | 0 <= i < |r.calls| :: SoundCall(r.calls[i]))
            && (!st.negotiated ==> r.calls == [] && r.engine == b)
            && (st.negotiated ==> r.state.revision == st.revision)
            && |r.calls| <= 1
            && (r.calls == [] ==> r.engine == b)
  {
    hide ErrorFrame, ValueText, ParsePayload, Find, Offered, BestRevision, ReactLive, SoundCall;
    var payload := ParsePayload(frame.payload);
    if payload.Some? && st.negotiated { LiveSound(backend, st, b, frame.kind, payload.value, f); }
    if !st.finished && !st.negotiated && frame.kind.Hello? {
      HelloSelects(st, b, frame.payload, f);
    }
  }

  lemma HelloSelects<B>(st: State, b: B, payload: Bytes, f: Formatter)
    ensures var r := ReactHello(st, b, payload, f);
            r.state.negotiated && !st.negotiated ==>
              r.state.revision != 0 && r.state.revision in SUPPORTED_REVISIONS
  {
    hide ErrorFrame, ValueText, ParsePayload, Find, Offered, HelloAckValue;
    var value := ParsePayload(payload);
    if value.Some? {
      var revisions := Find(value.value, KEY_REVISIONS);
      if revisions.Some? && revisions.value.Array? {
        BestRevisionIsGreatestCommon(Offered(revisions.value.items), SUPPORTED_REVISIONS);
      }
    }
  }

  /** The invariant of every run, the backend untouched before negotiation, and every call sound. */
  lemma {:induction false} EveryRunSound<B>(backend: Backend<B>, b: B, frames: seq<Frame>, f: Formatter)
    ensures Sound(After(backend, b, frames, f).0)
    ensures !After(backend, b, frames, f).0.negotiated ==> After(backend, b, frames, f).1 == b
    ensures frames != [] ==>
              var calls := LastReaction(backend, b, frames, f).calls;
              && (forall i | 0 <= i < |calls| :: SoundCall(calls[i]))
              && (calls != [] ==> After(backend, b, frames[..|frames| - 1], f).0.negotiated)
  {
    hide React, SoundCall;
    if frames != [] {
      var before := frames[..|frames| - 1];
      var (st, b') := After(backend, b, before, f);
      EveryRunSound(backend, b, before, f);
      ReactSound(backend, st, b', frames[|frames| - 1], f);
    }
  }

  // ------------------------------------------------------------ negotiation

  /** The revision a frame negotiates as a first frame; 0 for anything but a HELLO with a common one. */
  function Chosen(frame: Frame): int {
    if !frame.kind.Hello? then 0 else
      var value := ParsePayload(frame.payload);
      if value.None? then 0 else
        var revisions := Find(value.value, KEY_REVISIONS);
        if revisions.None? || !revisions.value.Array? then 0
        else BestRevision(Offered(revisions.value.items), SUPPORTED_REVISIONS)
  }

  /** How the first frame of a session decides it. */
  lemma FirstFrame<B>(backend: Backend<B>, b: B, frame: Frame, f: Formatter)
    ensures var st := React(backend, FRESH, b, frame, f).state;
            && st.revision == Chosen(frame)
            && (st.negotiated <==> Chosen(frame) != 0) && (st.finished <==> Chosen(frame) == 0)
  {
    hide ErrorFrame, ValueText, ParsePayload, Find, Offered, BestRevision, HelloAckValue, ReactLive;
  }

  /** What one frame does to the three facts a session's life hangs on. */
  lemma LaterFrame<B>(backend: Backend<B>, st: State, b: B, frame: Frame, f: Formatter)
    requires Sound(st) && (st.negotiated || st.finished)
    ensures var after := React(backend, st, b, frame, f).state;
            && after.negotiated == st.negotiated && after.revision == st.revision
            && (after.finished <==> st.finished || frame.kind.Bye?)
  {
    hide ErrorFrame, ValueText, ParsePayload, ReactLive, ReactHello, SoundCall;
    var payload := ParsePayload(frame.payload);
    if payload.Some? && st.negotiated {
      LiveReplies(backend, st, b, frame.kind, payload.value, f);
      LiveSound(backend, st, b, frame.kind, payload.value, f);
    }
  }

  ghost predicate HasBye(frames: seq<Frame>) { exists k :: 0 <= k < |frames| && frames[k].kind.Bye? }

  /**
   Over every run the first frame alone decides whether a session is negotiated,
   and at which revision; and the session is over exactly when that frame
   negotiated nothing or a BYE has come.
   */
  lemma {:induction false} DecidedByFirstFrame<B>(backend: Backend<B>, b: B, frames: seq<Frame>, f: Formatter)
    requires frames != []
    ensures var st := After(backend, b, frames, f).0;
            && st.revision == Chosen(frames[0])
            && (st.negotiated <==> Chosen(frames[0]) != 0)
            && (st.finished <==> Chosen(frames[0]) == 0 || HasBye(frames))
  {
    hide React, Chosen, Sound, SoundCall;
    var before, last := frames[..|frames| - 1], frames[|frames| - 1];
    var (st, b') := After(backend, b, before, f);
    if before == [] {
      FirstFrame(backend, b, last, f);
      ByeChoosesNothing(last);
    } else {
      DecidedByFirstFrame(backend, b, before, f);
      EveryRunSound(backend, b, before, f);
      LaterFrame(backend, st, b', last, f);
    }
    assert frames == before + [last];
    HasByeSnoc(before, last);
  }

  lemma ByeChoosesNothing(frame: Frame)
    ensures frame.kind.Bye? ==> Chosen(frame) == 0
  {
  }

  lemma HasByeSnoc(frames: seq<Frame>, last: Frame)
    ensures HasBye(frames + [last]) <==> HasBye(frames) || last.kind.Bye?
  {
    var all := frames + [last];
    assert all[|frames|] == last;
    if HasBye(frames) {
      var k :| 0 <= k < |frames| && frames[k].kind.Bye?;
      assert all[k].kind.Bye?;
    }
  }

  /** A numeric entry that the session takes for revision `r`. */
  predicate TakenFor(e: Value, r: int) { e.Number? && ToInt32(AsInt(e)) == r }

  lemma {:induction false} OfferedHolds(entries: seq<Value>, r: int)
    ensures r in Offered(entries) <==> exists i :: 0 <= i < |entries| && TakenFor(entries[i], r)
  {
    if entries != [] {
      var n := |entries| - 1;
      OfferedHolds(entries[..n], r);
      assert forall i | 0 <= i < n :: entries[..n][i] == entries[i];
      if TakenFor(entries[n], r) {
        assert 0 <= n < |entries| && TakenFor(entries[n], r);
      }
    }
  }

  /** The session negotiates exactly when some numeric entry is taken for revision 1. */
  lemma NegotiatesExactly(entries: seq<Value>)
    ensures BestRevision(Offered(entries), SUPPORTED_REVISIONS)
         == if exists i :: 0 <= i < |entries| && TakenFor(entries[i], 1) then 1 else 0
  {
    BestRevisionIsGreatestCommon(Offered(entries), SUPPORTED_REVISIONS);
    OfferedHolds(entries, 1);
  }

  /**
   What the two conversions let pass for 1: a finite number whose integer part is
   within 64 bits and one more than a multiple of 2^32.
   */
  predicate PassesForOne(e: Value) {
    && e.Number? && e.n.Finite?
    && var n := Truncate(e.n.r);
       INT64_MIN <= n < -INT64_MIN && n % 0x1_0000_0000 == 1
  }

  lemma TakenForOne(e: Value)
    ensures TakenFor(e, 1) <==> PassesForOne(e)
  {
    if e.Number? { ModuloOne(AsInt(e)); }
  }

  lemma ModuloOne(n: int)
    ensures ToInt32(n) == 1 <==> n % 0x1_0000_0000 == 1
  {
    var q, r := n / 0x1_0000_0000, n % 0x1_0000_0000;
    assert n == q * 0x1_0000_0000 + r;
    if r < 0x8000_0000 {
      assert (n + 0x8000_0000) % 0x1_0000_0000 == r + 0x8000_0000;
    } else {
      assert n + 0x8000_0000 == (q + 1) * 0x1_0000_0000 + (r - 0x8000_0000);
      assert (n + 0x8000_0000) % 0x1_0000_0000 == r - 0x8000_0000;
    }
  }

  /** The session negotiates exactly when some entry passes for 1, and 1 itself does. */
  lemma NegotiatesWhatPasses(entries: seq<Value>)
    ensures BestRevision(Offered(entries), SUPPORTED_REVISIONS)
         == if exists i :: 0 <= i < |entries| && PassesForOne(entries[i]) then 1 else 0
    ensures PassesForOne(Integer(1))
  {
    NegotiatesExactly(entries);
    forall i | 0 <= i < |entries| ensures TakenFor(entries[i], 1) <==> PassesForOne(entries[i]) {
      TakenForOne(entries[i]);
    }
    TruncateInteger(1);
  }

  /**
   For every offer: something is negotiated that was not offered if and only if 1
   is not among the entries and one of the others passes for it.
   */
  lemma NegotiationFaithfulExactly(entries: seq<Value>)
    ensures BestRevision(Offered(entries), SUPPORTED_REVISIONS) == 1 && Integer(1) !in entries
       <==> Integer(1) !in entries && exists i :: 0 <= i < |entries| && PassesForOne(entries[i])
    ensures Integer(1) in entries ==> BestRevision(Offered(entries), SUPPORTED_REVISIONS) == 1
  {
    hide PassesForOne, Offered, BestRevision;
    NegotiatesWhatPasses(entries);
    if Integer(1) in entries {
      var i :| 0 <= i < |entries| && entries[i] == Integer(1);
      assert PassesForOne(entries[i]);
    }
  }

  /** An entry that is a whole number the C++ `int` can hold. */
  predicate IsInt(e: Value) {
    e.Number? ==> e.n.Finite? && e.n.r == e.n.r.Floor as real && -0x8000_0000 <= e.n.r.Floor < 0x8000_0000
  }

  /** Offers of whole numbers within `int` negotiate exactly when they hold revision 1. */
  lemma NegotiatesWhatWasOffered(entries: seq<Value>)
    requires forall i | 0 <= i < |entries| :: IsInt(entries[i])
    ensures BestRevision(Offered(entries), SUPPORTED_REVISIONS) == 1 <==> Integer(1) in entries
  {
    NegotiatesWhatPasses(entries);
    forall i | 0 <= i < |entries| ensures PassesForOne(entries[i]) <==> entries[i] == Integer(1) {
      IntPasses(entries[i]);
    }
  }

  lemma IntPasses(e: Value)
    requires IsInt(e)
    ensures PassesForOne(e) <==> e == Integer(1)
  {
    if e.Number? {
      TruncateInteger(e.n.r.Floor);
    }
  }

  /** Beyond `int` the offer is not what is compared: 2^32 + 1 negotiates as revision 1. */
  lemma OutOfRangeOfferAliases()
    ensures BestRevision(Offered([Integer(0x1_0000_0001)]), SUPPORTED_REVISIONS) == 1
    ensures Integer(1) !in [Integer(0x1_0000_0001)]
  {
    var entries := [Integer(0x1_0000_0001)];
    TruncateInteger(0x1_0000_0001);
    assert 0x1_0000_0001 % 0x1_0000_0000 == 1;
    assert PassesForOne(entries[0]);
    NegotiatesWhatPasses(entries);
  }

  /** Within it a fraction is cut off: 1.5 negotiates as revision 1. */
  lemma FractionalOfferAliases()
    ensures BestRevision(Offered([Value.Number(Finite(1.5))]), SUPPORTED_REVISIONS) == 1
    ensures Integer(1) !in [Value.Number(Finite(1.5))]
  {
    var entries := [Value.Number(Finite(1.5))];
    assert Truncate(1.5) == 1;
    assert PassesForOne(entries[0]);
    NegotiatesWhatPasses(entries);
  }
}
