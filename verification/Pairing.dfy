/**
 Host client, transport and station together.  The transport is an adversary
 that hands over any number of bytes at a time, in order; the host has one
 request outstanding and sets no timeout.  Of the replies only this is taken
 for granted: that they are UTF-8 and within the frame budget.
 */
module Pairing {
  import opened Text
  import opened JsonPrinter
  import opened Frames
  import opened FramesDart
  import opened Utf8
  import opened HostJson
  import opened ReplyText
  import Client
  import S = Session
  import opened SessionRuns
  import Replies = SessionReplies
  import opened Station

  /** What does not change during a run. */
  datatype World<!B> = World(backend: S.Backend<B>, start: B, fractional: Formatter)

  /**
   `request` is the outstanding one, `handled` the frames the session has
   handled, `answered` the requests completed with a frame, each with it, and
   `thrown` those completed with a failure.
   */
  datatype System<B> = System(
    client: Client.Client, request: Option<Frame>,
    toStation: Bytes, stationBuffer: Bytes, session: S.State, engine: B, open: bool,
    toHost: Bytes,
    handled: seq<Frame>, answered: seq<(Frame, Frame)>, thrown: seq<Frame>)

  datatype Step =
    | Ask(frame: Frame)
    | StationReads(n: nat)
    | HostReads(m: nat)
    | HostSeesClose
    | PickUp

  function Initial<B>(w: World<B>): System<B> {
    System(Client.FRESH, None, [], [], S.FRESH, w.start, true, [], [], [], [])
  }

  /** Nothing may be outstanding; a failed client, and a request over the budget, throw at once. */
  function ApplyAsk<B>(s: System<B>, frame: Frame): Option<System<B>> {
    if s.request.Some? then None
    else if s.client.failure.Some? || !WithinBudget(frame) then Some(s.(thrown := s.thrown + [frame]))
    else Some(s.(request := Some(frame), toStation := s.toStation + Encode(frame),
                 client := Client.Receive(s.client)))
  }

  /** One read of the station's loop, with everything it decodes and handles from it. */
  function ApplyStation<B>(w: World<B>, s: System<B>, n: nat): Option<System<B>> {
    if !s.open || !(0 < n <= |s.toStation|) then None else
      var d := Drain(s.stationBuffer + s.toStation[..n]);
      var served := Feed(w.backend, Served(s.session, s.engine, []), d.frames, w.fractional);
      Some(s.(toStation := s.toStation[n..], stationBuffer := d.rest,
              session := served.state, engine := served.engine,
              open := !served.state.finished && d.error.None?,
              toHost := s.toHost + Concat(served.written), handled := s.handled + d.frames))
  }

  function ApplyHost<B>(s: System<B>, m: nat): Option<System<B>> {
    if !(0 < m <= |s.toHost|) then None
    else Some(s.(toHost := s.toHost[m..], client := Client.OnBytes(s.client, s.toHost[..m], IsObject)))
  }

  /** The end of the stream, seen once, when everything before it has been read. */
  function ApplyClose<B>(s: System<B>): Option<System<B>> {
    if s.open || s.toHost != [] || s.client.failure.Some? then None
    else Some(s.(client := Client.Fail(s.client, Client.RelayClosed)))
  }

  function ApplyPickUp<B>(s: System<B>): Option<System<B>> {
    if s.request.None? || s.client.result.None? then None else
      var next := s.(request := None, client := s.client.(result := None));
      match s.client.result.value
      case Answered(frame) => Some(next.(answered := s.answered + [(s.request.value, frame)]))
      case Threw(_) => Some(next.(thrown := s.thrown + [s.request.value]))
  }

  function Apply<B>(w: World<B>, s: System<B>, step: Step): Option<System<B>> {
    match step
    case Ask(frame) => ApplyAsk(s, frame)
    case StationReads(n) => ApplyStation(w, s, n)
    case HostReads(m) => ApplyHost(s, m)
    case HostSeesClose => ApplyClose(s)
    case PickUp => ApplyPickUp(s)
  }

  // -------------------------------------------------------------- invariant

  /** What the session answered to the j-th frame it handled. */
  function ReplyTo<B>(w: World<B>, handled: seq<Frame>, j: nat): Option<Frame>
    requires j < |handled|
  {
    LastReaction(w.backend, w.start, handled[..j + 1], w.fractional).reply
  }

  /** A reply within the budget and in UTF-8. */
  predicate Good(f: Option<Frame>) {
    f.Some? ==> WithinBudget(f.value) && WellFormed(f.value.payload)
  }

  /** Every reply so far was such a one. */
  ghost predicate GoodReplies<B>(w: World<B>, handled: seq<Frame>) {
    forall j | 0 <= j < |handled| :: Good(ReplyTo(w, handled, j))
  }

  /** The first `n` answers are the session's to the first `n` frames handled. */
  ghost predicate Paired<B>(w: World<B>, s: System<B>, n: nat) {
    && |s.answered| == n <= |s.handled|
    && forall j | 0 <= j < n ::
         s.answered[j].0 == s.handled[j] && ReplyTo(w, s.handled, j) == Some(s.answered[j].1)
  }

  predicate Quiet<B>(s: System<B>) {
    s.toHost == [] && s.client.buffer == [] && s.client.queued == []
  }

  /** No request outstanding. */
  ghost predicate Idle<B>(w: World<B>, s: System<B>) {
    && s.request.None? && Quiet(s) && !s.client.waiting && s.client.result.None?
    && Paired(w, s, |s.handled|)
    && (s.client.failure.None? ==> s.toStation == [] && s.stationBuffer == [])
  }

  /** The request is on its way, or never to be read by a station that has closed. */
  ghost predicate Asked<B>(w: World<B>, s: System<B>) {
    && s.request.Some? && WithinBudget(s.request.value) && Quiet(s)
    && s.client.waiting && s.client.result.None? && s.client.failure.None?
    && Paired(w, s, |s.handled|)
    && s.stationBuffer + s.toStation == Encode(s.request.value) && s.toStation != []
  }

  /** The session has handled the request and its answer is on its way back. */
  ghost predicate Replied<B>(w: World<B>, s: System<B>) {
    && s.request.Some? && s.handled != [] && s.handled[|s.handled| - 1] == s.request.value
    && s.toStation == [] && s.stationBuffer == [] && s.client.queued == []
    && s.client.waiting && s.client.result.None? && s.client.failure.None?
    && Paired(w, s, |s.handled| - 1)
    && var reply := ReplyTo(w, s.handled, |s.handled| - 1);
       reply.Some? && Good(reply) && s.client.buffer + s.toHost == Encode(reply.value) && s.toHost != []
  }

  /** The answer has arrived and been given to the request. */
  ghost predicate Delivered<B>(w: World<B>, s: System<B>) {
    && s.request.Some? && s.handled != [] && s.handled[|s.handled| - 1] == s.request.value
    && s.toStation == [] && s.stationBuffer == [] && Quiet(s)
    && !s.client.waiting
    && Paired(w, s, |s.handled| - 1)
    && s.client.result.Some? && s.client.result.value.Answered?
    && ReplyTo(w, s.handled, |s.handled| - 1) == Some(s.client.result.value.frame)
  }

  /** The station closed before reading the request. */
  ghost predicate Abandoned<B>(w: World<B>, s: System<B>) {
    && s.request.Some? && Quiet(s) && !s.client.waiting
    && s.client.result == Some(Client.Threw(Client.RelayClosed))
    && s.client.failure == Some(Client.RelayClosed)
    && Paired(w, s, |s.handled|)
  }

  ghost predicate Inv<B>(w: World<B>, s: System<B>) {
    && (s.session, s.engine) == After(w.backend, w.start, s.handled, w.fractional)
    && (s.open <==> !s.session.finished)
    && (s.client.failure.Some? ==> s.client.failure == Some(Client.RelayClosed) && !s.open)
    && (Idle(w, s) || Asked(w, s) || Replied(w, s) || Delivered(w, s) || Abandoned(w, s))
  }

  // ------------------------------------------------------------ preservation

  lemma InitialOk<B>(w: World<B>)
    ensures Inv(w, Initial(w))
  {
  }

  lemma AskKeeps<B>(w: World<B>, s: System<B>, frame: Frame)
    requires Inv(w, s) && ApplyAsk(s, frame).Some?
    ensures Inv(w, ApplyAsk(s, frame).value)
  {
    hide After, S.React, Encode, ReplyTo;
    EncodedNotEmpty(frame);
    var t := ApplyAsk(s, frame).value;
    assert Paired(w, t, |t.handled|);
    if s.client.failure.None? && WithinBudget(frame) {
      assert [] + Encode(frame) == Encode(frame);
      assert Asked(w, t);
    } else {
      assert Idle(w, t);
    }
  }

  lemma EncodedNotEmpty(frame: Frame)
    ensures Encode(frame) != []
  {
  }

  /** A proper prefix of one encoded frame holds no frame yet. */
  lemma PrefixNeedsMore(frame: Frame, prefix: Bytes, more: Bytes)
    requires WithinBudget(frame) && prefix + more == Encode(frame) && more != []
    ensures NextFrame(prefix) == NeedMore
    ensures Drain(prefix) == Decoded([], prefix, None)
  {
    EncodedComesBack(frame, []);
    assert Encode(frame) + [] == Encode(frame);
    if !NextFrame(prefix).NeedMore? {
      NextFrameStable(prefix, more);
    }
  }

  lemma WholeFrame(frame: Frame)
    requires WithinBudget(frame)
    ensures Drain(Encode(frame)) == Decoded([frame], [], None)
  {
    ComesBackExactlyWithinBudget(frame);
  }

  ghost predicate SameReplies<B>(w: World<B>, handled: seq<Frame>, longer: seq<Frame>)
    requires |handled| <= |longer|
  {
    forall j | 0 <= j < |handled| :: ReplyTo(w, longer, j) == ReplyTo(w, handled, j)
  }

  /** Handling one more frame extends the history without touching what came before. */
  lemma HandledMore<B>(w: World<B>, handled: seq<Frame>, frame: Frame)
    ensures var (st, b) := After(w.backend, w.start, handled, w.fractional);
            var r := S.React(w.backend, st, b, frame, w.fractional);
            && After(w.backend, w.start, handled + [frame], w.fractional) == (r.state, r.engine)
            && ReplyTo(w, handled + [frame], |handled|) == r.reply
    ensures SameReplies(w, handled, handled + [frame])
  {
    hide S.React;
    var all := handled + [frame];
    assert all[..|all| - 1] == handled && all[..|handled| + 1] == all;
    forall j | 0 <= j < |handled| ensures ReplyTo(w, all, j) == ReplyTo(w, handled, j) {
      assert all[..j + 1] == handled[..j + 1];
    }
  }

  lemma FeedOne<B>(w: World<B>, st: S.State, b: B, frame: Frame)
    requires !st.finished
    ensures var r := S.React(w.backend, st, b, frame, w.fractional);
            && r.reply.Some?
            && Feed(w.backend, Served(st, b, []), [frame], w.fractional)
               == Served(r.state, r.engine, [Encode(r.reply.value)])
  {
    OneReplyPerFrame(w.backend, st, b, frame, w.fractional);
    hide S.React, Encode;
    assert [frame][1..] == [];
    assert [] + [Encode(S.React(w.backend, st, b, frame, w.fractional).reply.value)]
        == [Encode(S.React(w.backend, st, b, frame, w.fractional).reply.value)];
  }

  lemma FeedNone<B>(w: World<B>, served: Served<B>)
    ensures Feed(w.backend, served, [], w.fractional) == served
  {
  }

  lemma StationKeeps<B>(w: World<B>, s: System<B>, n: nat)
    requires Inv(w, s) && ApplyStation(w, s, n).Some?
    requires GoodReplies(w, ApplyStation(w, s, n).value.handled)
    ensures Inv(w, ApplyStation(w, s, n).value)
  {
    hide After, S.React, Encode, ReplyTo, Drain, Feed, WithinBudget, Good;
    assert Asked(w, s);
    var q := s.request.value;
    var chunk, left := s.toStation[..n], s.toStation[n..];
    var t := ApplyStation(w, s, n).value;
    Cut(s.toStation, n);
    Regroup(s.stationBuffer, chunk, left);
    FeedNone(w, Served(s.session, s.engine, []));
    if left != [] {
      PrefixNeedsMore(q, s.stationBuffer + chunk, left);
      assert s.handled + [] == s.handled;
      assert s.toHost + Concat([]) == s.toHost;
      assert Paired(w, t, |t.handled|);
      assert Asked(w, t);
    } else {
      assert s.stationBuffer + chunk == Encode(q) by {
        assert (s.stationBuffer + chunk) + [] == s.stationBuffer + chunk;
      }
      WholeFrame(q);
      FeedOne(w, s.session, s.engine, q);
      HandledMore(w, s.handled, q);
      var r := S.React(w.backend, s.session, s.engine, q, w.fractional);
      ConcatOne(Encode(r.reply.value));
      assert [] + Encode(r.reply.value) == Encode(r.reply.value);
      EncodedNotEmpty(r.reply.value);
      assert Paired(w, t, |t.handled| - 1);
      assert Good(ReplyTo(w, t.handled, |t.handled| - 1));
      assert Replied(w, t);
    }
  }

  lemma HostTakesReply(reply: Frame)
    requires WithinBudget(reply) && Read(reply, IsObject) == Reading.Fine
    ensures AddResult([], Encode(reply), IsObject) == Frames([reply], [])
  {
    hide Read;
    WholeFrame(reply);
    assert [] + Encode(reply) == Encode(reply);
    NoFrames(IsObject);
    assert [reply][1..] == [];
  }

  lemma AddSplit(a: Bytes, b: Bytes)
    ensures AddResult(a, b, IsObject) == AddResult([], a + b, IsObject)
  {
    assert [] + (a + b) == a + b;
  }

  lemma NothingAdded(s: Bytes)
    requires Drain(s) == Decoded([], s, None)
    ensures AddResult([], s, IsObject) == Frames([], s)
  {
    assert [] + s == s;
    NoFrames(IsObject);
  }

  /** The host can read every good reply. */
  lemma GoodIsRead<B>(w: World<B>, handled: seq<Frame>, j: nat)
    requires WritesNumbers(w.fractional) && j < |handled| && ReplyTo(w, handled, j).Some?
    requires Good(ReplyTo(w, handled, j))
    ensures Read(ReplyTo(w, handled, j).value, IsObject) == Reading.Fine
  {
    hide S.React, WellFormed, IsObject, WritesNumbers, Utf8At;
    var upto := handled[..j + 1];
    var (st, b) := After(w.backend, w.start, upto[..j], w.fractional);
    RepliesReadable(w.backend, st, b, upto[j], w.fractional);
  }

  lemma HostKeeps<B>(w: World<B>, s: System<B>, m: nat)
    requires Inv(w, s) && ApplyHost(s, m).Some? && WritesNumbers(w.fractional)
    ensures Inv(w, ApplyHost(s, m).value)
  {
    hide After, S.React, Encode, ReplyTo, Drain, WithinBudget, NextFrame, AddResult, WritesNumbers, WellFormed, Read;
    assert Replied(w, s);
    var reply := ReplyTo(w, s.handled, |s.handled| - 1).value;
    var chunk, left := s.toHost[..m], s.toHost[m..];
    var t := ApplyHost(s, m).value;
    Cut(s.toHost, m);
    Regroup(s.client.buffer, chunk, left);
    AddSplit(s.client.buffer, chunk);
    assert Paired(w, t, |t.handled| - 1);
    if left != [] {
      PrefixNeedsMore(reply, s.client.buffer + chunk, left);
      NothingAdded(s.client.buffer + chunk);
      assert Replied(w, t);
    } else {
      assert s.client.buffer + chunk == Encode(reply) by {
        assert (s.client.buffer + chunk) + [] == s.client.buffer + chunk;
      }
      GoodIsRead(w, s.handled, |s.handled| - 1);
      HostTakesReply(reply);
      assert [reply][1..] == [];
      assert Client.Deliver(s.client.(buffer := []), [reply])
          == s.client.(buffer := [], waiting := false, result := Some(Client.Answered(reply)));
      assert Delivered(w, t);
    }
  }

  lemma CloseKeeps<B>(w: World<B>, s: System<B>)
    requires Inv(w, s) && ApplyClose(s).Some?
    ensures Inv(w, ApplyClose(s).value)
  {
    hide After, Encode, ReplyTo;
    var t := ApplyClose(s).value;
    if Asked(w, s) {
      assert Paired(w, t, |t.handled|);
      assert Abandoned(w, t);
    } else if Idle(w, s) {
      assert Paired(w, t, |t.handled|);
      assert Idle(w, t);
    } else {
      assert Delivered(w, s);
      assert Paired(w, t, |t.handled| - 1);
      assert Delivered(w, t);
    }
  }

  lemma PickUpKeeps<B>(w: World<B>, s: System<B>)
    requires Inv(w, s) && ApplyPickUp(s).Some?
    ensures Inv(w, ApplyPickUp(s).value)
  {
    hide After, Encode, ReplyTo;
    var t := ApplyPickUp(s).value;
    assert Paired(w, t, |t.handled|);
    assert Idle(w, t);
  }

  ghost predicate CanStep<B>(w: World<B>, s: System<B>, t: System<B>) {
    exists step :: Apply(w, s, step) == Some(t)
  }

  // -------------------------------------------------------------- progress

  /** More than the bytes of any frame within the budget. */
  const UNIT: nat := HEADER_BYTES + MAX_CONTROL_FRAME_BYTES + 2

  /** How far an outstanding request still has to go: its phase, then the bytes left to move in it. */
  function Rank<B>(s: System<B>): nat {
    if s.request.None? then 0
    else if s.client.result.Some? then if s.client.failure.None? then 2 else 1
    else if |s.handled| > |s.answered| then UNIT + |s.toHost|
    else 2 * UNIT + |s.toStation|
  }

  lemma RankBounds<B>(w: World<B>, s: System<B>)
    requires Inv(w, s) && s.request.Some?
    ensures Rank(s) > 0
    ensures s.client.result.Some? || |s.handled| > |s.answered| ==> Rank(s) < 2 * UNIT
    ensures Rank(s) <= 3 * UNIT
  {
    hide After, Encode, ReplyTo;
    if Replied(w, s) {
      var reply := ReplyTo(w, s.handled, |s.handled| - 1).value;
      assert |s.toHost| <= |Encode(reply)| && |reply.payload| < MAX_CONTROL_FRAME_BYTES;
    }
    if Asked(w, s) { assert |s.toStation| <= |Encode(s.request.value)|; }
  }

  /**
   The request of `s` is over in `t`: with what the session answered to it, or
   thrown because the session had ended.
   */
  ghost predicate Completed<B>(w: World<B>, s: System<B>, t: System<B>) {
    && s.request.Some? && t.request.None?
    && var q := s.request.value;
       (|| (exists reply: Frame ::
              && t.answered == s.answered + [(q, reply)] && t.thrown == s.thrown
              && t.handled != [] && t.handled[|t.handled| - 1] == q
              && ReplyTo(w, t.handled, |t.handled| - 1) == Some(reply))
        || (t.thrown == s.thrown + [q] && t.answered == s.answered && t.session.finished))
  }

  /** An outstanding request can always go on. */
  lemma NeverStuck<B>(w: World<B>, s: System<B>) returns (t: System<B>)
    requires Inv(w, s) && s.request.Some?
    ensures CanStep(w, s, t)
  {
    hide After, Encode, ReplyTo, Drain, Feed;
    var step :=
      if s.client.result.Some? then PickUp
      else if |s.handled| > |s.answered| then HostReads(1)
      else if s.open then StationReads(1)
      else HostSeesClose;
    assert Apply(w, s, step).Some?;
    t := Apply(w, s, step).value;
  }

  lemma PickUpCompletes<B>(w: World<B>, s: System<B>)
    requires Inv(w, s) && ApplyPickUp(s).Some?
    ensures Completed(w, s, ApplyPickUp(s).value)
  {
    hide After, Encode, ReplyTo;
    var t := ApplyPickUp(s).value;
    if s.client.result.value.Answered? {
      var reply := s.client.result.value.frame;
      assert t.answered == s.answered + [(s.request.value, reply)];
    }
  }

  lemma StationProgress<B>(w: World<B>, s: System<B>, n: nat)
    requires Inv(w, s) && s.request.Some? && ApplyStation(w, s, n).Some?
    requires Inv(w, ApplyStation(w, s, n).value)
    ensures var t := ApplyStation(w, s, n).value; t.request == s.request && Rank(t) < Rank(s)
  {
    hide After, Encode, ReplyTo, Drain, Feed;
    var t := ApplyStation(w, s, n).value;
    assert Asked(w, s);
    RankBounds(w, s);
    RankBounds(w, t);
  }

  lemma HostProgress<B>(w: World<B>, s: System<B>, m: nat)
    requires Inv(w, s) && s.request.Some? && ApplyHost(s, m).Some?
    requires Inv(w, ApplyHost(s, m).value)
    ensures var t := ApplyHost(s, m).value; t.request == s.request && Rank(t) < Rank(s)
  {
    hide After, Encode, ReplyTo, Client.OnBytes;
    assert Replied(w, s);
    RankBounds(w, s);
  }

  lemma CloseProgress<B>(w: World<B>, s: System<B>)
    requires Inv(w, s) && s.request.Some? && ApplyClose(s).Some?
    ensures var t := ApplyClose(s).value; t.request == s.request && Rank(t) < Rank(s)
  {
    hide After, Encode, ReplyTo;
  }

  /** Every step brings an outstanding request nearer to its end, or ends it. */
  lemma StepProgress<B>(w: World<B>, s: System<B>, t: System<B>)
    requires Inv(w, s) && s.request.Some? && CanStep(w, s, t) && Inv(w, t)
    ensures Completed(w, s, t) || (t.request == s.request && Rank(t) < Rank(s))
  {
    hide Inv, Completed, ApplyStation, ApplyHost, ApplyClose, ApplyPickUp, Rank;
    var step :| Apply(w, s, step) == Some(t);
    match step
    case Ask(frame) =>
    case StationReads(n) => StationProgress(w, s, n);
    case HostReads(m) => HostProgress(w, s, m);
    case HostSeesClose => CloseProgress(w, s);
    case PickUp => PickUpCompletes(w, s);
  }

  // ----------------------------------------------------------- whole runs

  /** Steps from the start, in which every reply was good. */
  ghost predicate IsRun<B>(w: World<B>, run: seq<System<B>>) {
    && WritesNumbers(w.fractional)
    && run != [] && run[0] == Initial(w)
    && (forall i | 0 <= i < |run| - 1 :: CanStep(w, run[i], run[i + 1]))
    && (forall i | 0 <= i < |run| :: GoodReplies(w, run[i].handled))
  }

  lemma CanStepKeeps<B>(w: World<B>, s: System<B>, t: System<B>)
    requires Inv(w, s) && CanStep(w, s, t) && GoodReplies(w, t.handled) && WritesNumbers(w.fractional)
    ensures Inv(w, t)
  {
    hide Inv, WritesNumbers, GoodReplies, ApplyAsk, ApplyStation, ApplyHost, ApplyClose, ApplyPickUp;
    var step :| Apply(w, s, step) == Some(t);
    match step
    case Ask(frame) => AskKeeps(w, s, frame);
    case StationReads(n) => StationKeeps(w, s, n);
    case HostReads(m) => HostKeeps(w, s, m);
    case HostSeesClose => CloseKeeps(w, s);
    case PickUp => PickUpKeeps(w, s);
  }

  lemma RunStep<B>(w: World<B>, run: seq<System<B>>, i: nat)
    requires IsRun(w, run) && i + 1 < |run|
    ensures CanStep(w, run[i], run[i + 1]) && GoodReplies(w, run[i + 1].handled) && WritesNumbers(w.fractional)
  {
  }

  lemma RunStart<B>(w: World<B>, run: seq<System<B>>)
    requires IsRun(w, run)
    ensures run[0] == Initial(w)
  {
  }

  lemma {:induction false} RunInvariant<B>(w: World<B>, run: seq<System<B>>, i: nat)
    requires IsRun(w, run) && i < |run|
    ensures Inv(w, run[i])
  {
    hide *;
    if i == 0 {
      RunStart(w, run);
      InitialOk(w);
    } else {
      RunInvariant(w, run, i - 1);
      RunStep(w, run, i - 1);
      CanStepKeeps(w, run[i - 1], run[i]);
    }
  }

  /**
   In every run: the client's queue is empty, so every request waits for its own
   reply; each request completed with a frame was completed with what the
   session answered to that very frame, in order; and the only failure a client
   ever sees is the station having closed.
   */
  lemma RequestsGetTheirReplies<B>(w: World<B>, run: seq<System<B>>, i: nat)
    requires IsRun(w, run) && i < |run|
    ensures var s := run[i];
            && s.client.queued == []
            && |s.answered| <= |s.handled| <= |s.answered| + 1
            && (s.request.None? ==> |s.handled| == |s.answered|)
            && (forall j | 0 <= j < |s.answered| ::
                  s.answered[j].0 == s.handled[j] && ReplyTo(w, s.handled, j) == Some(s.answered[j].1))
            && (s.client.failure.Some? ==> s.client.failure.value.RelayClosed? && s.session.finished)
  {
    RunInvariant(w, run, i);
  }

  /** The `k`-th step completes the request that is outstanding at `i`. */
  ghost predicate CompletedAt<B>(w: World<B>, run: seq<System<B>>, i: nat, k: nat)
    requires i < k < |run|
  {
    run[k - 1].request == run[i].request && Completed(w, run[k - 1], run[k])
  }

  ghost predicate CompletedWithin<B>(w: World<B>, run: seq<System<B>>, i: nat, j: nat)
    requires i <= j < |run|
  {
    exists k: nat :: i < k <= j && CompletedAt(w, run, i, k)
  }

  lemma {:induction false} CompletesIn<B>(w: World<B>, run: seq<System<B>>, i: nat, j: nat) returns (k: nat)
    requires IsRun(w, run) && i < |run| && run[i].request.Some? && i + Rank(run[i]) <= j < |run|
    ensures i < k <= j && run[k - 1].request == run[i].request && Completed(w, run[k - 1], run[k])
    decreases j - i
  {
    hide *;
    RunInvariant(w, run, i);
    RankBounds(w, run[i]);
    RunInvariant(w, run, i + 1);
    RunStep(w, run, i);
    StepProgress(w, run[i], run[i + 1]);
    if Completed(w, run[i], run[i + 1]) {
      k := i + 1;
    } else {
      k := CompletesIn(w, run, i + 1, j);
    }
  }

  /**
   Every request completes: while one is outstanding some step is possible, and
   within at most 3 * (2^20 + 6) steps, whichever are taken, it is completed with
   the session's answer to it, or thrown if the session had ended.
   */
  lemma EveryRequestCompletes<B>(w: World<B>, run: seq<System<B>>, i: nat)
    requires IsRun(w, run) && i < |run| && run[i].request.Some?
    ensures exists t :: CanStep(w, run[i], t)
    ensures Rank(run[i]) <= 3 * UNIT == 3 * (0x10_0000 + 6)
    ensures forall j | i + Rank(run[i]) <= j < |run| :: CompletedWithin(w, run, i, j)
  {
    hide IsRun, Inv, CanStep, Completed, Rank;
    RunInvariant(w, run, i);
    RankBounds(w, run[i]);
    var t := NeverStuck(w, run[i]);
    forall j | i + Rank(run[i]) <= j < |run|
      ensures CompletedWithin(w, run, i, j)
    {
      var k := CompletesIn(w, run, i, j);
      assert CompletedAt(w, run, i, k);
    }
  }

  /** A backend with UTF-8 names gives good replies whenever they are within the budget. */
  lemma Utf8BackendsAreGood<B>(w: World<B>, handled: seq<Frame>, j: nat)
    requires WritesNumbers(w.fractional) && j < |handled|
    requires Utf8At(w.backend, After(w.backend, w.start, handled[..j], w.fractional).1)
    ensures Good(ReplyTo(w, handled, j)) <==>
              (ReplyTo(w, handled, j).Some? ==> WithinBudget(ReplyTo(w, handled, j).value))
  {
    hide S.React, WellFormed, WritesNumbers, Utf8At;
    var upto := handled[..j + 1];
    assert upto[..j] == handled[..j];
    var (st, b) := After(w.backend, w.start, upto[..j], w.fractional);
    RepliesReadable(w.backend, st, b, upto[j], w.fractional);
  }

  /** A request that got no reply was made to a session that was already over. */
  lemma ThrownOnlyAfterEnd<B>(w: World<B>, run: seq<System<B>>, i: nat)
    requires IsRun(w, run) && i < |run|
    ensures run[i].client.result.Some? && run[i].client.result.value.Threw? ==> run[i].session.finished
  {
    RunInvariant(w, run, i);
  }

  /** What the host concluded from an answer holds of the session, then and ever after. */
  predicate Understood(request: Frame, reply: Frame, session: S.State) {
    match Replies.Understand(request.kind, reply)
    case UnexpectedType => false
    case UnusablePayload => false
    case Refused(reason) => reason.Some? && 1 <= reason.value <= 10
    case Agreed(revision) => session.negotiated && session.revision == revision
    case Opened(handle) => 0 < handle < 0x1_0000_0000
    case Fine => true
  }

  lemma AnswerUnderstood<B>(w: World<B>, handled: seq<Frame>, j: nat)
    requires j < |handled| && ReplyTo(w, handled, j).Some?
    ensures Understood(handled[j], ReplyTo(w, handled, j).value, After(w.backend, w.start, handled, w.fractional).0)
  {
    hide S.React, Replies.Understand;
    var upto := handled[..j + 1];
    assert upto[..j] == handled[..j] && upto[j] == handled[j];
    var (st, b) := After(w.backend, w.start, handled[..j], w.fractional);
    OneReplyPerFrame(w.backend, st, b, handled[j], w.fractional);
    Replies.EveryReplyUnderstood(w.backend, st, b, handled[j], w.fractional);
    if After(w.backend, w.start, upto, w.fractional).0.negotiated {
      Replies.RevisionStays(w.backend, w.start, handled, j + 1, w.fractional);
    }
  }

  /**
   In every run, every request the host completed with a reply was answered with
   the type it checks for, or an ERROR naming a reason; and the revision the host
   recorded is the one the session speaks.
   */
  lemma HostAndSessionAgree<B>(w: World<B>, run: seq<System<B>>, i: nat, j: nat)
    requires IsRun(w, run) && i < |run| && j < |run[i].answered|
    ensures Understood(run[i].answered[j].0, run[i].answered[j].1, run[i].session)
  {
    hide Understood, IsRun, ReplyTo, After;
    RequestsGetTheirReplies(w, run, i);
    RunInvariant(w, run, i);
    AnswerUnderstood(w, run[i].handled, j);
  }
}
