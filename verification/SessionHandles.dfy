/**
 Handles as a host sees them: the session over the probing backend, for every
 list of frames.
 */
module SessionHandles {
  import opened Text
  import opened JsonValue
  import opened JsonPrinter
  import opened Frames
  import opened Messages
  import opened Session
  import opened SessionRuns
  import opened SessionReplies
  import opened HostJson
  import opened Profiles
  import opened Prober
  import opened ProbingBackend
  import opened Handles

  /** What a call does to the handle table, if anything. */
  function OpOf(bound: bool, c: Call): seq<Op> {
    match c
    case OpenCall(_, _) => if bound then [OpenOp] else []
    case CloseCall(handle) => [CloseOp(handle)]
    case _ => []
  }

  function OpsOf(bound: bool, calls: seq<Call>): seq<Op> {
    if calls == [] then [] else OpsOf(bound, calls[..|calls| - 1]) + OpOf(bound, calls[|calls| - 1])
  }

  /** The opens and closes the frames have led to, in order. */
  function History(s: Setup, fw: nat, dr: nat, frames: seq<Frame>, f: Formatter): seq<Op> {
    if frames == [] then [] else
      History(s, fw, dr, frames[..|frames| - 1], f)
      + OpsOf(IsBound(Probe(s).engine), LastReaction(Operations(s, fw, dr), EMPTY, frames, f).calls)
  }

  lemma RunSnoc(ops: seq<Op>, more: seq<Op>)
    requires |more| <= 1
    ensures Run(ops + more) == if more == [] then Run(ops) else Handles.Apply(Run(ops), more[0])
  {
    if more == [] {
      assert ops + more == ops;
    } else {
      assert (ops + more)[..|ops|] == ops;
    }
  }

  lemma OneCall(bound: bool, c: Call)
    ensures OpsOf(bound, [c]) == OpOf(bound, c)
  {
    assert [c][..0] == [] && [] + OpOf(bound, c) == OpOf(bound, c);
  }

  lemma TableAfterCall(s: Setup, fw: nat, dr: nat, t: Table, c: Call)
    ensures var op := OpOf(IsBound(Probe(s).engine), c);
            AfterCall(Operations(s, fw, dr), t, c) == if op == [] then t else Handles.Apply(t, op[0])
  {
    hide Probe, IsBound;
  }

  lemma LiveTable(s: Setup, fw: nat, dr: nat, st: State, t: Table, kind: MessageType, payload: Value, f: Formatter)
    ensures var r := ReactLive(Operations(s, fw, dr), st, t, kind, payload, f);
            var ops := OpsOf(IsBound(Probe(s).engine), r.calls);
            |ops| <= 1 && r.engine == if ops == [] then t else Handles.Apply(t, ops[0])
  {
    hide ReactLive, Operations, Probe, IsBound, AfterCall;
    LiveEffect(Operations(s, fw, dr), st, t, kind, payload, f);
    var r := ReactLive(Operations(s, fw, dr), st, t, kind, payload, f);
    if r.calls != [] {
      assert r.calls == [r.calls[0]];
      OneCall(IsBound(Probe(s).engine), r.calls[0]);
      TableAfterCall(s, fw, dr, t, r.calls[0]);
    }
  }

  /** What one reaction does to the table is what its call does. */
  lemma ReactionTable(s: Setup, fw: nat, dr: nat, st: State, t: Table, frame: Frame, f: Formatter)
    ensures var r := React(Operations(s, fw, dr), st, t, frame, f);
            var ops := OpsOf(IsBound(Probe(s).engine), r.calls);
            |ops| <= 1 && r.engine == if ops == [] then t else Handles.Apply(t, ops[0])
  {
    hide ErrorFrame, ValueText, ParsePayload, Find, Offered, BestRevision, Operations, ReactLive, Probe, IsBound;
    var payload := ParsePayload(frame.payload);
    if payload.Some? { LiveTable(s, fw, dr, st, t, frame.kind, payload.value, f); }
  }

  /** Over every run the handle table is the one its opens and closes make. */
  lemma {:induction false} TableIsHistory(s: Setup, fw: nat, dr: nat, frames: seq<Frame>, f: Formatter)
    ensures After(Operations(s, fw, dr), EMPTY, frames, f).1 == Run(History(s, fw, dr, frames, f))
  {
    hide React, Operations, Probe;
    if frames != [] {
      var before := frames[..|frames| - 1];
      TableIsHistory(s, fw, dr, before, f);
      var (st, t) := After(Operations(s, fw, dr), EMPTY, before, f);
      ReactionTable(s, fw, dr, st, t, frames[|frames| - 1], f);
      RunSnoc(History(s, fw, dr, before, f),
              OpsOf(IsBound(Probe(s).engine), LastReaction(Operations(s, fw, dr), EMPTY, frames, f).calls));
    }
  }

  /** The fields a POST or SET must carry, of the right types. */
  predicate WellTyped(kind: MessageType, payload: Value)
    requires kind.Post? || kind.Set?
  {
    && ReadHandle(payload).Some?
    && if kind.Post? then TextAt(payload, KEY_ACTION).Some?
       else
         && TextAt(payload, KEY_PARAM).Some?
         && var level := Find(payload, KEY_VALUE); level.Some? && level.value.Number? && InUnitInterval(level.value.n)
  }

  /** The engine bound has an entry point of the right shape. */
  predicate Supports(s: Setup, kind: MessageType)
    requires kind.Post? || kind.Set?
  {
    && IsBound(Probe(s).engine)
    && if kind.Post? then Calls(Probe(s).engine, Role.Post, Name) else Calls(Probe(s).engine, Role.Set, Level)
  }

  /** In a live session, STATUS comes exactly when the fields are right, the engine can, and the handle is live. */
  lemma StatusWhenLive(s: Setup, fw: nat, dr: nat, st: State, t: Table, kind: MessageType, payload: Value, f: Formatter)
    requires kind.Post? || kind.Set?
    ensures var r := ReactLive(Operations(s, fw, dr), st, t, kind, payload, f);
            && r.reply.Some?
            && (r.reply.value.kind.Status? <==>
                  WellTyped(kind, payload) && Supports(s, kind) && ReadHandle(payload).value in t.live)
  {
    hide ReactPost, ReactSet, ReactOpen, ReactClose, ReactDiag, ReactCaps, Refuse, Operations, WellTyped, Supports,
      ReadHandle;
    if kind.Post? { PostStatus(s, fw, dr, st, t, payload, f); } else { SetStatus(s, fw, dr, st, t, payload, f); }
  }

  lemma PostOperation(s: Setup, fw: nat, dr: nat, t: Table, h: Handle, action: Bytes, args: Value)
    ensures Operations(s, fw, dr).post(t, h, action, args) == (t, CallResult(s, t, h, Role.Post, Name))
  {
    hide Probe, CallResult;
  }

  lemma SetOperation(s: Setup, fw: nat, dr: nat, t: Table, h: Handle, param: Bytes, level: real)
    ensures Operations(s, fw, dr).setLevel(t, h, param, level) == (t, CallResult(s, t, h, Role.Set, Level))
  {
    hide Probe, CallResult;
  }

  lemma CallSucceeds(s: Setup, t: Table, h: Handle, role: Role, shape: SymbolShape)
    ensures CallResult(s, t, h, role, shape).Ok? <==>
              IsBound(Probe(s).engine) && h in t.live && Calls(Probe(s).engine, role, shape)
  {
    hide Probe, IsBound, Calls;
  }

  lemma PostStatus(s: Setup, fw: nat, dr: nat, st: State, t: Table, payload: Value, f: Formatter)
    ensures var r := ReactPost(Operations(s, fw, dr), st, t, payload, f);
            && r.reply.Some?
            && (r.reply.value.kind.Status? <==>
                  WellTyped(MessageType.Post, payload) && Supports(s, MessageType.Post) && ReadHandle(payload).value in t.live)
  {
    hide ErrorFrame, ValueText, Find, TextAt, ReadHandle, Probe, IsBound, Calls, Operations, CallResult, StatusValue;
    ErrorIsNotStatus(f);
    var handle, action, given := ReadHandle(payload), TextAt(payload, KEY_ACTION), Find(payload, KEY_ARGS);
    if handle.Some? && action.Some? {
      var args := if given.Some? && given.value.Object? then given.value else Value.Object([]);
      PostOperation(s, fw, dr, t, handle.value, action.value, args);
      CallSucceeds(s, t, handle.value, Role.Post, Name);
    }
  }

  lemma SetStatus(s: Setup, fw: nat, dr: nat, st: State, t: Table, payload: Value, f: Formatter)
    ensures var r := ReactSet(Operations(s, fw, dr), st, t, payload, f);
            && r.reply.Some?
            && (r.reply.value.kind.Status? <==>
                  WellTyped(MessageType.Set, payload) && Supports(s, MessageType.Set)
                  && ReadHandle(payload).value in t.live)
  {
    hide ErrorFrame, ValueText, Find, TextAt, ReadHandle, Probe, IsBound, Calls, Operations, CallResult, StatusValue;
    ErrorIsNotStatus(f);
    var handle, param, value := ReadHandle(payload), TextAt(payload, KEY_PARAM), Find(payload, KEY_VALUE);
    if handle.Some? && param.Some? && value.Some? && value.value.Number? && InUnitInterval(value.value.n) {
      SetOperation(s, fw, dr, t, handle.value, param.value, value.value.n.r);
      CallSucceeds(s, t, handle.value, Role.Set, Level);
    }
  }

  lemma ErrorIsNotStatus(f: Formatter)
    ensures forall reason :: ErrorFrame(reason, f).kind.Error?
  {
  }

  // ----------------------------------------------------- as the host sees it

  /** The reply to the frame `i`. */
  function ReplyAt(s: Setup, fw: nat, dr: nat, frames: seq<Frame>, i: nat, f: Formatter): Option<Frame>
    requires i < |frames|
  {
    LastReaction(Operations(s, fw, dr), EMPTY, frames[..i + 1], f).reply
  }

  function OpenAckFrame(h: Handle, f: Formatter): Frame { Frame(OpenAck, ValueText(OpenAckValue(h), f)) }

  /** The frame `i` is an OPEN, and the host is sent the OPEN_ACK that carries `h`. */
  predicate Acked(s: Setup, fw: nat, dr: nat, frames: seq<Frame>, i: nat, h: Handle, f: Formatter)
    requires i < |frames|
  {
    frames[i].kind.Open? && ReplyAt(s, fw, dr, frames, i, f) == Some(OpenAckFrame(h, f))
  }

  /** The frame `i` is a CLOSE, and the host is sent the STATUS that says `h` is closed. */
  predicate Closed(s: Setup, fw: nat, dr: nat, frames: seq<Frame>, i: nat, h: Handle, f: Formatter)
    requires i < |frames|
  {
    frames[i].kind.Close? && ReplyAt(s, fw, dr, frames, i, f) == Some(StatusFrame(h, Ok, f))
  }

  /** The handle `h` was acknowledged at `i`, and nothing after it closed it. */
  ghost predicate AckedAndKept(s: Setup, fw: nat, dr: nat, frames: seq<Frame>, i: nat, h: Handle, f: Formatter)
    requires i < |frames|
  {
    Acked(s, fw, dr, frames, i, h, f) && forall j | i < j < |frames| :: !Closed(s, fw, dr, frames, j, h, f)
  }

  /** Replies that carry different handles differ. */
  lemma HandleShows(g: Handle, h: Handle, f: Formatter)
    ensures OpenAckFrame(g, f) == OpenAckFrame(h, f) ==> g == h
    ensures StatusFrame(g, Ok, f) == StatusFrame(h, Ok, f) ==> g == h
  {
    hide ValueText, IntegerField, OpenAckValue, StatusValue;
    OpenAckReads(g, f);
    OpenAckReads(h, f);
    StatusReads(g, Ok, f);
    StatusReads(h, Ok, f);
  }

  /** What a frame can do to the table, told by the reply it gets. */
  datatype Effect = OpenedNext | ClosedOne(handle: Handle) | Wrapped | Untouched

  ghost predicate Told(bound: bool, t: Table, kind: MessageType, r: Reaction<Table>, e: Effect, f: Formatter) {
    match e
    case OpenedNext =>
      && kind.Open? && t.next != 0 && r.reply == Some(OpenAckFrame(t.next, f)) && r.engine == OpenHandle(t).0
      && OpsOf(bound, r.calls) == [OpenOp]
    case ClosedOne(h) =>
      kind.Close? && r.reply == Some(StatusFrame(h, Ok, f)) && r.engine == CloseHandle(t, h)
    case Wrapped =>
      && kind.Open? && t.next == 0 && r.reply.Some? && r.reply.value.kind.Error?
      && OpsOf(bound, r.calls) == [OpenOp]
    case Untouched =>
      && r.engine == t
      && (r.reply.Some? && (kind.Open? || kind.Close?) ==> r.reply.value.kind.Error?)
  }

  lemma OpenTold(s: Setup, fw: nat, dr: nat, st: State, t: Table, payload: Value, f: Formatter) returns (e: Effect)
    ensures Told(IsBound(Probe(s).engine), t, Open, ReactOpen(Operations(s, fw, dr), st, t, payload, f), e, f)
  {
    hide ErrorFrame, ValueText, OpenAckValue, TextAt, Probe, IsBound, OpsOf;
    ErrorIsNotStatus(f);
    var bound := IsBound(Probe(s).engine);
    var kind, given := TextAt(payload, KEY_KIND), TextAt(payload, KEY_NAME);
    if kind.None? || !bound {
      e := Untouched;
    } else {
      OneCall(bound, OpenCall(kind.value, if given.Some? then given.value else []));
      e := if t.next == 0 then Wrapped else OpenedNext;
    }
  }

  lemma CloseTold(s: Setup, fw: nat, dr: nat, st: State, t: Table, payload: Value, f: Formatter) returns (e: Effect)
    ensures Told(IsBound(Probe(s).engine), t, Close, ReactClose(Operations(s, fw, dr), st, t, payload, f), e, f)
  {
    hide StatusFrame, ErrorFrame, ReadHandle, Probe;
    ErrorIsNotStatus(f);
    e := if ReadHandle(payload).Some? then ClosedOne(ReadHandle(payload).value) else Untouched;
  }

  lemma OtherLeavesTable(s: Setup, fw: nat, dr: nat, st: State, t: Table, kind: MessageType, payload: Value, f: Formatter)
    requires !kind.Open? && !kind.Close?
    ensures ReactLive(Operations(s, fw, dr), st, t, kind, payload, f).engine == t
  {
    hide ErrorFrame, StatusFrame, ValueText, Find, TextAt, ReadHandle, DiagValue, CapsValue, Probe;
  }

  lemma LiveTold(s: Setup, fw: nat, dr: nat, st: State, t: Table, kind: MessageType, payload: Value, f: Formatter)
    returns (e: Effect)
    ensures Told(IsBound(Probe(s).engine), t, kind, ReactLive(Operations(s, fw, dr), st, t, kind, payload, f), e, f)
  {
    hide ReactOpen, ReactClose, ReactPost, ReactSet, ReactDiag, ReactCaps, Refuse, Operations, Probe, IsBound,
      OpsOf, OpenAckFrame, StatusFrame, ReadHandle;
    if kind.Open? {
      e := OpenTold(s, fw, dr, st, t, payload, f);
    } else if kind.Close? {
      e := CloseTold(s, fw, dr, st, t, payload, f);
    } else {
      e := Untouched;
      OtherLeavesTable(s, fw, dr, st, t, kind, payload, f);
    }
  }

  lemma HelloLeavesTable(st: State, t: Table, payload: Bytes, f: Formatter)
    ensures ReactHello(st, t, payload, f).engine == t
  {
    hide ErrorFrame, ValueText, ParsePayload, Find, Offered, BestRevision, HelloAckValue;
  }

  lemma FrameTold(s: Setup, fw: nat, dr: nat, st: State, t: Table, frame: Frame, f: Formatter) returns (e: Effect)
    ensures Told(IsBound(Probe(s).engine), t, frame.kind, React(Operations(s, fw, dr), st, t, frame, f), e, f)
  {
    hide ErrorFrame, ValueText, ParsePayload, ReactHello, ReactLive, Operations, Probe, IsBound, OpenAckFrame,
      StatusFrame, OpsOf;
    ErrorIsNotStatus(f);
    HelloLeavesTable(st, t, frame.payload, f);
    var payload := ParsePayload(frame.payload);
    if !st.finished && !frame.kind.Bye? && st.negotiated && payload.Some? {
      e := LiveTold(s, fw, dr, st, t, frame.kind, payload.value, f);
    } else {
      e := Untouched;
    }
  }

  /** The opens that reached the handle table. */
  function OpensIn(s: Setup, fw: nat, dr: nat, frames: seq<Frame>, f: Formatter): nat {
    Opens(History(s, fw, dr, frames, f))
  }

  function TableAfter(s: Setup, fw: nat, dr: nat, frames: seq<Frame>, f: Formatter): Table {
    After(Operations(s, fw, dr), EMPTY, frames, f).1
  }

  /** How the last frame changes the table, under the bound on opens. */
  lemma LastTold(s: Setup, fw: nat, dr: nat, frames: seq<Frame>, f: Formatter) returns (e: Effect)
    requires frames != [] && OpensIn(s, fw, dr, frames, f) < Handles.U32
    ensures var n := |frames| - 1;
            var before, after := TableAfter(s, fw, dr, frames[..n], f), TableAfter(s, fw, dr, frames, f);
            && NoRepeats(before.live)
            && OpensIn(s, fw, dr, frames[..n], f) <= OpensIn(s, fw, dr, frames, f)
            && (forall h: Handle :: Acked(s, fw, dr, frames, n, h, f) <==> e.OpenedNext? && h == before.next)
            && (forall h: Handle :: Closed(s, fw, dr, frames, n, h, f) <==> e == ClosedOne(h))
            && after.live == (match e
                              case OpenedNext => before.live + [before.next]
                              case ClosedOne(h) => RemoveFirst(before.live, h)
                              case _ => before.live)
            && (e.OpenedNext? ==> before.next == 1 + OpensIn(s, fw, dr, frames[..n], f)
                                  && OpensIn(s, fw, dr, frames, f) == 1 + OpensIn(s, fw, dr, frames[..n], f))
  {
    hide React, Operations, Probe, IsBound, OpenAckFrame, StatusFrame, OpsOf, OpensIn, RemoveFirst, NoRepeats;
    var n := |frames| - 1;
    var (st, t) := After(Operations(s, fw, dr), EMPTY, frames[..n], f);
    assert frames[..n + 1] == frames;
    LastCounts(s, fw, dr, frames, f);
    e := FrameTold(s, fw, dr, st, t, frames[n], f);
    FramesTell(f);
  }

  /** How the last frame changes the count of opens. */
  lemma LastCounts(s: Setup, fw: nat, dr: nat, frames: seq<Frame>, f: Formatter)
    requires frames != []
    ensures var n := |frames| - 1;
            var before := TableAfter(s, fw, dr, frames[..n], f);
            var ops := OpsOf(IsBound(Probe(s).engine), LastReaction(Operations(s, fw, dr), EMPTY, frames, f).calls);
            && OpensIn(s, fw, dr, frames, f) == OpensIn(s, fw, dr, frames[..n], f) + (if ops == [OpenOp] then 1 else 0)
            && before.next == (1 + OpensIn(s, fw, dr, frames[..n], f)) % Handles.U32
            && (OpensIn(s, fw, dr, frames[..n], f) < Handles.U32 ==> NoRepeats(before.live))
  {
    hide React, Operations, Probe, IsBound, OpsOf, Run, Opens, NoRepeats;
    var n := |frames| - 1;
    var (st, t) := After(Operations(s, fw, dr), EMPTY, frames[..n], f);
    var ops := OpsOf(IsBound(Probe(s).engine), LastReaction(Operations(s, fw, dr), EMPTY, frames, f).calls);
    TableIsHistory(s, fw, dr, frames[..n], f);
    ReactionTable(s, fw, dr, st, t, frames[n], f);
    OpensSnoc(History(s, fw, dr, frames[..n], f), ops);
    NextIsCount(History(s, fw, dr, frames[..n], f));
    if OpensIn(s, fw, dr, frames[..n], f) < Handles.U32 { LiveOnce(History(s, fw, dr, frames[..n], f)); }
  }

  lemma OpensSnoc(ops: seq<Op>, more: seq<Op>)
    requires |more| <= 1
    ensures Opens(ops + more) == Opens(ops) + if more == [OpenOp] then 1 else 0
  {
    if more == [] {
      assert ops + more == ops;
    } else {
      assert (ops + more)[..|ops|] == ops && more == [more[0]];
    }
  }

  lemma FramesTell(f: Formatter)
    ensures forall g: Handle, h: Handle :: OpenAckFrame(g, f) == OpenAckFrame(h, f) ==> g == h
    ensures forall g: Handle, h: Handle :: StatusFrame(g, Ok, f) == StatusFrame(h, Ok, f) ==> g == h
    ensures forall h: Handle :: OpenAckFrame(h, f).kind.OpenAck? && StatusFrame(h, Ok, f).kind.Status?
  {
    forall g: Handle, h: Handle
      ensures OpenAckFrame(g, f) == OpenAckFrame(h, f) ==> g == h
      ensures StatusFrame(g, Ok, f) == StatusFrame(h, Ok, f) ==> g == h
    {
      HandleShows(g, h, f);
    }
  }

  lemma SameBefore(s: Setup, fw: nat, dr: nat, frames: seq<Frame>, i: nat, h: Handle, f: Formatter)
    requires i < |frames| - 1
    ensures var before := frames[..|frames| - 1];
            && Acked(s, fw, dr, before, i, h, f) == Acked(s, fw, dr, frames, i, h, f)
            && Closed(s, fw, dr, before, i, h, f) == Closed(s, fw, dr, frames, i, h, f)
  {
    assert frames[..|frames| - 1][..i + 1] == frames[..i + 1];
  }

  lemma KeptSnoc(s: Setup, fw: nat, dr: nat, frames: seq<Frame>, i: nat, h: Handle, f: Formatter)
    requires i < |frames| - 1
    ensures AckedAndKept(s, fw, dr, frames, i, h, f)
       <==> AckedAndKept(s, fw, dr, frames[..|frames| - 1], i, h, f) && !Closed(s, fw, dr, frames, |frames| - 1, h, f)
  {
    hide Acked, Closed;
    var n := |frames| - 1;
    SameBefore(s, fw, dr, frames, i, h, f);
    forall j | i < j < n ensures Closed(s, fw, dr, frames[..n], j, h, f) == Closed(s, fw, dr, frames, j, h, f) {
      SameBefore(s, fw, dr, frames, j, h, f);
    }
  }

  ghost predicate AckedAndOpen(s: Setup, fw: nat, dr: nat, frames: seq<Frame>, h: Handle, f: Formatter) {
    exists i :: 0 <= i < |frames| && AckedAndKept(s, fw, dr, frames, i, h, f)
  }

  lemma OpenSnoc(s: Setup, fw: nat, dr: nat, frames: seq<Frame>, h: Handle, f: Formatter)
    requires frames != []
    ensures var n := |frames| - 1;
            AckedAndOpen(s, fw, dr, frames, h, f)
            <==> Acked(s, fw, dr, frames, n, h, f)
                 || (AckedAndOpen(s, fw, dr, frames[..n], h, f) && !Closed(s, fw, dr, frames, n, h, f))
  {
    hide Acked, Closed;
    var n := |frames| - 1;
    forall i | 0 <= i < n
      ensures AckedAndKept(s, fw, dr, frames, i, h, f)
         <==> AckedAndKept(s, fw, dr, frames[..n], i, h, f) && !Closed(s, fw, dr, frames, n, h, f)
    {
      KeptSnoc(s, fw, dr, frames, i, h, f);
    }
    if Acked(s, fw, dr, frames, n, h, f) { assert AckedAndKept(s, fw, dr, frames, n, h, f); }
  }

  /** A handle is live exactly when an OPEN_ACK carried it to the host and no CLOSE has been acknowledged for it since. */
  lemma {:induction false} LiveAsAcked(s: Setup, fw: nat, dr: nat, frames: seq<Frame>, h: Handle, f: Formatter)
    requires OpensIn(s, fw, dr, frames, f) < Handles.U32
    ensures h in TableAfter(s, fw, dr, frames, f).live <==> AckedAndOpen(s, fw, dr, frames, h, f)
  {
    if frames == [] {
      NoFramesYet(s, fw, dr, h, f);
    } else {
      hide Acked, Closed, AckedAndOpen, OpensIn, TableAfter;
      var n := |frames| - 1;
      var e := LastTold(s, fw, dr, frames, f);
      LiveAsAcked(s, fw, dr, frames[..n], h, f);
      OpenSnoc(s, fw, dr, frames, h, f);
      if e.ClosedOne? { RemoveFirstEffect(TableAfter(s, fw, dr, frames[..n], f).live, e.handle); }
    }
  }

  lemma NoFramesYet(s: Setup, fw: nat, dr: nat, h: Handle, f: Formatter)
    ensures TableAfter(s, fw, dr, [], f).live == [] && !AckedAndOpen(s, fw, dr, [], h, f)
  {
  }

  /** The OPEN_ACKs of a run carry handles that are not zero and only grow. */
  lemma {:induction false} AckedHandleIsCount(s: Setup, fw: nat, dr: nat, frames: seq<Frame>, i: nat, h: Handle, f: Formatter)
    requires i < |frames| && OpensIn(s, fw, dr, frames, f) < Handles.U32 && Acked(s, fw, dr, frames, i, h, f)
    ensures h == OpensIn(s, fw, dr, frames[..i + 1], f) == 1 + OpensIn(s, fw, dr, frames[..i], f)
    ensures OpensIn(s, fw, dr, frames[..i + 1], f) <= OpensIn(s, fw, dr, frames, f)
  {
    hide Acked, Closed, OpensIn, TableAfter;
    var n := |frames| - 1;
    var e := LastTold(s, fw, dr, frames, f);
    if i < n {
      SameBefore(s, fw, dr, frames, i, h, f);
      AckedHandleIsCount(s, fw, dr, frames[..n], i, h, f);
      assert frames[..n][..i + 1] == frames[..i + 1] && frames[..n][..i] == frames[..i];
    } else {
      assert frames[..i + 1] == frames;
    }
  }

  lemma {:induction false} OpensInGrow(s: Setup, fw: nat, dr: nat, frames: seq<Frame>, i: nat, f: Formatter)
    requires i <= |frames| && OpensIn(s, fw, dr, frames, f) < Handles.U32
    ensures OpensIn(s, fw, dr, frames[..i], f) <= OpensIn(s, fw, dr, frames, f)
  {
    hide OpensIn, Acked, Closed, TableAfter;
    if i == |frames| {
      assert frames[..i] == frames;
    } else {
      var n := |frames| - 1;
      var e := LastTold(s, fw, dr, frames, f);
      OpensInGrow(s, fw, dr, frames[..n], i, f);
      assert frames[..n][..i] == frames[..i];
    }
  }

  /** Any two OPEN_ACKs of a run carry different handles, none of them zero. */
  lemma AckedHandlesDiffer(s: Setup, fw: nat, dr: nat, frames: seq<Frame>, i: nat, j: nat, g: Handle, h: Handle, f: Formatter)
    requires i < j < |frames| && OpensIn(s, fw, dr, frames, f) < Handles.U32
    requires Acked(s, fw, dr, frames, i, g, f) && Acked(s, fw, dr, frames, j, h, f)
    ensures 0 < g < h
  {
    hide Acked, OpensIn;
    AckedHandleIsCount(s, fw, dr, frames, i, g, f);
    AckedHandleIsCount(s, fw, dr, frames, j, h, f);
    OpensInGrow(s, fw, dr, frames, j, f);
    OpensInGrow(s, fw, dr, frames[..j], i + 1, f);
    assert frames[..j][..i + 1] == frames[..i + 1];
  }

  /** The session was negotiated by its first frame and has had no BYE. */
  ghost predicate LiveAfter(frames: seq<Frame>) { frames != [] && Chosen(frames[0]) != 0 && !HasBye(frames) }

  lemma LiveMeans(s: Setup, fw: nat, dr: nat, frames: seq<Frame>, f: Formatter)
    ensures var st := After(Operations(s, fw, dr), EMPTY, frames, f).0;
            LiveAfter(frames) <==> st.negotiated && !st.finished
  {
    hide Operations, Chosen, HasBye, React;
    if frames != [] { DecidedByFirstFrame(Operations(s, fw, dr), EMPTY, frames, f); }
  }

  /**
   POST and SET are answered with STATUS if and only if the session is live, the
   fields are right, the engine has the entry point, and the handle is one that an
   OPEN_ACK carried to the host and that no CLOSE has closed since.
   */
  lemma StatusExactlyForLiveHandle(s: Setup, fw: nat, dr: nat, frames: seq<Frame>, f: Formatter)
    requires frames != [] && frames[|frames| - 1].kind in {MessageType.Post, MessageType.Set}
    requires OpensIn(s, fw, dr, frames[..|frames| - 1], f) < Handles.U32
    ensures var before, frame := frames[..|frames| - 1], frames[|frames| - 1];
            var reply, payload := ReplyAt(s, fw, dr, frames, |frames| - 1, f), ParsePayload(frame.payload);
            reply.Some? && reply.value.kind.Status?
            <==> && LiveAfter(before) && payload.Some?
                 && WellTyped(frame.kind, payload.value) && Supports(s, frame.kind)
                 && AckedAndOpen(s, fw, dr, before, ReadHandle(payload.value).value, f)
  {
    hide Operations, Probe, ReactLive, ErrorFrame, ValueText, ReactHello, History, OpensIn, AckedAndOpen, LiveAfter,
      Supports, ParsePayload, IsBound, Calls;
    var n := |frames| - 1;
    var before, frame := frames[..n], frames[n];
    assert frames[..n + 1] == frames;
    var (st, t) := After(Operations(s, fw, dr), EMPTY, before, f);
    var payload := ParsePayload(frame.payload);
    ErrorIsNotStatus(f);
    LiveMeans(s, fw, dr, before, f);
    if payload.Some? {
      StatusWhenLive(s, fw, dr, st, t, frame.kind, payload.value, f);
      if ReadHandle(payload.value).Some? { LiveAsAcked(s, fw, dr, before, ReadHandle(payload.value).value, f); }
    }
  }

  /**
   An OPEN on a bound engine puts the next handle in the table and is acknowledged
   with it, unless it is 0: then the OPEN is refused, but 0 stays in the table and
   in the count of targets, and no CLOSE can name it.
   */
  lemma OpenGivesNext(s: Setup, fw: nat, dr: nat, st: State, t: Table, payload: Value, f: Formatter)
    requires TextAt(payload, KEY_KIND).Some?
    ensures var r := ReactOpen(Operations(s, fw, dr), st, t, payload, f);
            if IsBound(Probe(s).engine) then
              && r.engine.live == t.live + [t.next]
              && r.reply == Some(if t.next != 0 then OpenAckFrame(t.next, f) else ErrorFrame(Internal, f))
            else r.engine == t && r.reply == Some(ErrorFrame(NoEngine, f))
    ensures forall p :: ReadHandle(p) != Some(0)
  {
    hide ErrorFrame, ValueText, TextAt, Probe;
  }

  /** CLOSE of any handle in range is answered with STATUS, live or not. */
  lemma CloseAlwaysSucceeds(s: Setup, fw: nat, dr: nat, st: State, t: Table, payload: Value, f: Formatter)
    requires ReadHandle(payload).Some?
    ensures var r := ReactClose(Operations(s, fw, dr), st, t, payload, f);
            && r.reply == Some(StatusFrame(ReadHandle(payload).value, Ok, f))
            && r.engine == CloseHandle(t, ReadHandle(payload).value)
  {
    hide StatusFrame, ReadHandle, Probe;
  }
}
