/**
 What the session's replies say, read the way the host reads them: the text the
 printer wrote, parsed again, against the checks of lib/src/relay/client.dart.
 */
module SessionReplies {
  import opened Text
  import opened JsonValue
  import opened JsonPrinter
  import opened JsonRoundTrip
  import opened HostJson
  import opened Frames
  import opened Messages
  import opened Session
  import opened SessionRuns

  /** What the host makes of the reply to a request. */
  datatype Verdict =
    | Refused(reason: Option<int>)
    | UnexpectedType
    | UnusablePayload
    | Agreed(revision: int)
    | Opened(handle: int)
    | Fine

  /** `_request` with the checks of `negotiate`, `capabilities`, `open` and `diagnostics`. */
  function Understand(request: MessageType, reply: Frame): Verdict {
    if reply.kind.Error? then Refused(IntegerField(reply.payload, KEY_REASON))
    else match request
      case Hello =>
        if !reply.kind.HelloAck? then UnexpectedType else
          var n := IntegerField(reply.payload, KEY_REVISION);
          if n.None? then UnusablePayload else Agreed(n.value)
      case Open =>
        if !reply.kind.OpenAck? then UnexpectedType else
          var n := IntegerField(reply.payload, KEY_HANDLE);
          if n.None? || n.value == 0 then UnusablePayload else Opened(n.value)
      case CapsRequest => if reply.kind.CapsReply? then Fine else UnexpectedType
      case DiagRequest => if reply.kind.DiagReply? then Fine else UnexpectedType
      case _ => Fine
  }

  /** The reply type that goes with a request, where there is one. */
  function AnswerKind(request: MessageType): Option<MessageType> {
    match request
    case Hello => Some(HelloAck)
    case CapsRequest => Some(CapsReply)
    case Open => Some(OpenAck)
    case Post => Some(Status)
    case Set => Some(Status)
    case Close => Some(Status)
    case DiagRequest => Some(DiagReply)
    case Bye => Some(Bye)
    case _ => None
  }

  // ---------------------------------------------------------- flat payloads

  /** What a payload of HELLO_ACK, OPEN_ACK, STATUS or ERROR holds. */
  predicate Flat(v: Value) { (v.Number? && v.n.Finite? && PrintsAsInteger(v.n.r)) || v.String? || v == Value.Array([]) }

  lemma OneMemberReads(k: Bytes, n: nat, f: Formatter)
    requires n < 0x1_0000_0000
    ensures IntegerField(ValueText(JsonValue.Set(Value.Object([]), k, Integer(n)), f), k) == Some(n)
  {
    hide ValueText, IntegerField, PrintsAsInteger;
    var one := [Member(k, Integer(n))];
    IntegerPrintsAsInteger(n);
    assert [] + one == one && SetMember([], k, Integer(n)) == one;
    IntegerMemberReads(one, 0, n, f);
  }

  /** Of two members the first is an integer; the second may be. */
  lemma TwoMembersRead(k: Bytes, n: nat, l: Bytes, b: Value, f: Formatter)
    requires k != l && n < 0x1_0000_0000 && Flat(b)
    ensures var text := ValueText(JsonValue.Set(JsonValue.Set(Value.Object([]), k, Integer(n)), l, b), f);
            && IntegerField(text, k) == Some(n)
            && forall m: nat :: m < 0x1_0000_0000 && b == Integer(m) ==> IntegerField(text, l) == Some(m)
  {
    hide ValueText, IntegerField, PrintsAsInteger, Flat, UniqueKeys;
    TwoMembers(k, Integer(n), l, b);
    FlatPrintable(Integer(n), f);
    FlatPrintable(b, f);
    IntegerPrintsAsInteger(n);
    var two := [Member(k, Integer(n)), Member(l, b)];
    assert forall i | 0 <= i < |two| :: two[i].value == if i == 0 then Integer(n) else b;
    IntegerMemberReads(two, 0, n, f);
    forall m: nat | m < 0x1_0000_0000 && b == Integer(m)
      ensures IntegerField(ValueText(Value.Object(two), f), l) == Some(m)
    {
      IntegerMemberReads(two, 1, m, f);
    }
  }

  lemma FlatPrintable(v: Value, f: Formatter)
    ensures Flat(v) ==> Printable(v, f)
    ensures forall n: nat :: n < 0x1_0000_0000 && v == Integer(n) ==> Flat(v) && Printable(v, f)
  {
    forall n: nat | n < 0x1_0000_0000 && v == Integer(n) ensures PrintsAsInteger(v.n.r) { IntegerPrintsAsInteger(n); }
  }

  lemma TwoMembers(k: Bytes, a: Value, l: Bytes, b: Value)
    requires k != l
    ensures var two := [Member(k, a), Member(l, b)];
            && JsonValue.Set(JsonValue.Set(Value.Object([]), k, a), l, b) == Value.Object(two)
            && UniqueKeys(two)
  {
    var one := [Member(k, a)];
    var two := one + [Member(l, b)];
    assert [] + one == one && two == [Member(k, a), Member(l, b)];
    assert SetMember([], k, a) == one;
    assert SetMember(one, l, b) == two;
  }

  lemma KeysDiffer()
    ensures KEY_REVISION != KEY_FEATURES && KEY_HANDLE != KEY_REASON && KEY_REASON != KEY_DETAIL
  {
    assert KEY_REVISION[0] == 'r' as int && KEY_FEATURES[0] == 'f' as int;
    assert KEY_HANDLE[0] == 'h' as int && KEY_REASON[0] == 'r' as int && KEY_DETAIL[0] == 'd' as int;
  }

  /** An ERROR names its reason. */
  lemma ErrorReads(reason: Reason, f: Formatter)
    ensures ErrorFrame(reason, f).kind.Error?
    ensures IntegerField(ErrorFrame(reason, f).payload, KEY_REASON) == Some(ReasonCode(reason))
  {
    hide IntegerField, JsonValue.Set, ValueText, ReasonSummary;
    KeysDiffer();
    TwoMembersRead(KEY_REASON, ReasonCode(reason), KEY_DETAIL, Value.String(ReasonSummary(reason)), f);
  }

  lemma HelloAckReads(revision: int, f: Formatter)
    requires revision in SUPPORTED_REVISIONS
    ensures IntegerField(ValueText(HelloAckValue(revision), f), KEY_REVISION) == Some(revision)
  {
    hide IntegerField, JsonValue.Set, ValueText;
    KeysDiffer();
    TwoMembersRead(KEY_REVISION, revision, KEY_FEATURES, Value.Array([]), f);
  }

  lemma OpenAckReads(handle: Handle, f: Formatter)
    ensures IntegerField(ValueText(OpenAckValue(handle), f), KEY_HANDLE) == Some(handle)
  {
    hide IntegerField, JsonValue.Set, ValueText;
    OneMemberReads(KEY_HANDLE, handle, f);
  }

  lemma StatusReads(handle: Handle, reason: Reason, f: Formatter)
    ensures IntegerField(StatusFrame(handle, reason, f).payload, KEY_HANDLE) == Some(handle)
    ensures IntegerField(StatusFrame(handle, reason, f).payload, KEY_REASON) == Some(ReasonCode(reason))
  {
    hide IntegerField, JsonValue.Set, ValueText, ReasonCode;
    KeysDiffer();
    FlatPrintable(Integer(ReasonCode(reason)), f);
    CodeSmall(reason);
    TwoMembersRead(KEY_HANDLE, handle, KEY_REASON, Integer(ReasonCode(reason)), f);
  }

  lemma CodeSmall(reason: Reason)
    ensures ReasonCode(reason) < 0x1_0000_0000
  {
  }

  // ------------------------------------------------------- replies by request

  /** An ERROR frame of this session, for some reason other than "ok". */
  ghost predicate IsRefusal(reply: Frame, f: Formatter) {
    exists reason: Reason :: !reason.Ok? && reply == ErrorFrame(reason, f)
  }

  lemma RefusalReads(reply: Frame, f: Formatter)
    requires IsRefusal(reply, f)
    ensures reply.kind.Error?
    ensures var n := IntegerField(reply.payload, KEY_REASON); n.Some? && 1 <= n.value <= 10
  {
    hide ErrorFrame, IntegerField;
    var reason: Reason :| !reason.Ok? && reply == ErrorFrame(reason, f);
    ErrorReads(reason, f);
  }

  lemma HelloReply<B>(st: State, b: B, payload: Bytes, f: Formatter)
    ensures var r := ReactHello(st, b, payload, f);
            && r.reply.Some?
            && (|| IsRefusal(r.reply.value, f)
                || (r.state.negotiated && r.state.revision in SUPPORTED_REVISIONS
                    && r.reply.value == Frame(HelloAck, ValueText(HelloAckValue(r.state.revision), f))))
  {
    hide ErrorFrame, ValueText, ParsePayload, Find, Offered, HelloAckValue, BestRevision;
    var value := ParsePayload(payload);
    if value.Some? {
      var revisions := Find(value.value, KEY_REVISIONS);
      if revisions.Some? && revisions.value.Array? {
        BestRevisionIsGreatestCommon(Offered(revisions.value.items), SUPPORTED_REVISIONS);
      }
    }
  }

  lemma OpenReply<B>(backend: Backend<B>, st: State, b: B, payload: Value, f: Formatter)
    ensures var r := ReactOpen(backend, st, b, payload, f);
            && r.reply.Some?
            && (|| IsRefusal(r.reply.value, f)
                || (exists kind: Bytes, name: Bytes ::
                      var given := backend.openTarget(b, kind, name);
                      && r.calls == [OpenCall(kind, name)] && given.1 != 0 && r.engine == given.0
                      && r.reply.value == Frame(OpenAck, ValueText(OpenAckValue(given.1), f))))
  {
    hide ErrorFrame, ValueText, Find, TextAt, OpenAckValue;
  }

  /** How operations on a handle are answered. */
  ghost predicate Answered<B>(r: Reaction<B>, payload: Value, f: Formatter) {
    && r.reply.Some?
    && (|| IsRefusal(r.reply.value, f)
        || (ReadHandle(payload).Some? && r.reply.value == StatusFrame(ReadHandle(payload).value, Ok, f)))
  }

  /** STATUS answers POST, SET and CLOSE when they went well; every failure travels as ERROR. */
  lemma HandleReply<B>(backend: Backend<B>, st: State, b: B, kind: MessageType, payload: Value, f: Formatter)
    requires kind in {MessageType.Post, MessageType.Set, MessageType.Close}
    ensures Answered(ReactLive(backend, st, b, kind, payload, f), payload, f)
  {
    hide ErrorFrame, IsRefusal, StatusFrame, ReactPost, ReactSet, ReactClose;
    PostReply(backend, st, b, payload, f);
    SetReply(backend, st, b, payload, f);
    CloseReply(backend, st, b, payload, f);
  }

  lemma AnswerReads<B>(st: State, b: B, handle: Handle, reason: Reason, calls: seq<Call>, f: Formatter)
    ensures var reply := Answer(st, b, handle, reason, calls, f).reply;
            reply.Some? && (IsRefusal(reply.value, f) || reply.value == StatusFrame(handle, Ok, f))
  {
    hide ErrorFrame, StatusFrame, IsRefusal;
    Refusals(f);
    assert reason.Ok? ==> reason == Reason.Ok;
  }

  lemma PostReply<B>(backend: Backend<B>, st: State, b: B, payload: Value, f: Formatter)
    ensures Answered(ReactPost(backend, st, b, payload, f), payload, f)
  {
    hide ErrorFrame, IsRefusal, StatusFrame, Find, TextAt, ReadHandle, Answer;
    Refusals(f);
    var handle, action, given := ReadHandle(payload), TextAt(payload, KEY_ACTION), Find(payload, KEY_ARGS);
    if handle.Some? && action.Some? {
      var args := if given.Some? && given.value.Object? then given.value else Value.Object([]);
      var (b', reason) := backend.post(b, handle.value, action.value, args);
      AnswerReads(st, b', handle.value, reason, [PostCall(handle.value, action.value, args)], f);
    }
  }

  lemma SetReply<B>(backend: Backend<B>, st: State, b: B, payload: Value, f: Formatter)
    ensures Answered(ReactSet(backend, st, b, payload, f), payload, f)
  {
    hide ErrorFrame, IsRefusal, StatusFrame, Find, TextAt, ReadHandle, Answer;
    Refusals(f);
    var handle, param, value := ReadHandle(payload), TextAt(payload, KEY_PARAM), Find(payload, KEY_VALUE);
    if handle.Some? && param.Some? && value.Some? && value.value.Number? && value.value.n.Finite? {
      var level := value.value.n.r;
      var (b', reason) := backend.setLevel(b, handle.value, param.value, level);
      AnswerReads(st, b', handle.value, reason, [SetCall(handle.value, param.value, level)], f);
    }
  }

  lemma CloseReply<B>(backend: Backend<B>, st: State, b: B, payload: Value, f: Formatter)
    ensures Answered(ReactClose(backend, st, b, payload, f), payload, f)
  {
    hide ErrorFrame, IsRefusal, StatusFrame, Find, TextAt, ReadHandle, Answer;
    Refusals(f);
    var handle := ReadHandle(payload);
    if handle.Some? {
      var (b', reason) := backend.closeTarget(b, handle.value);
      AnswerReads(st, b', handle.value, reason, [CloseCall(handle.value)], f);
    }
  }

  lemma Refusals(f: Formatter)
    ensures forall reason: Reason :: !reason.Ok? ==> IsRefusal(ErrorFrame(reason, f), f)
  {
    hide ErrorFrame;
  }

  lemma DiagReplies<B>(backend: Backend<B>, st: State, b: B, payload: Value, f: Formatter)
    ensures var r := ReactDiag(backend, st, b, payload, f);
            r.reply.Some? && (IsRefusal(r.reply.value, f) || r.reply.value.kind.DiagReply?)
  {
    hide ErrorFrame, IsRefusal, ValueText, Find, DiagValue, Enabled;
    Refusals(f);
  }

  lemma OtherReply<B>(backend: Backend<B>, st: State, b: B, kind: MessageType, payload: Value, f: Formatter)
    requires kind !in {MessageType.Post, MessageType.Set, MessageType.Close, MessageType.Open}
    ensures var r := ReactLive(backend, st, b, kind, payload, f);
            && r.reply.Some?
            && (IsRefusal(r.reply.value, f) || (kind in {CapsRequest, DiagRequest} && AnswerKind(kind) == Some(r.reply.value.kind)))
  {
    hide ErrorFrame, IsRefusal, ValueText, ReactDiag, CapsValue, ReactOpen, ReactPost, ReactSet, ReactClose;
    DiagReplies(backend, st, b, payload, f);
    Refusals(f);
  }

  lemma LiveKind<B>(backend: Backend<B>, st: State, b: B, kind: MessageType, payload: Value, f: Formatter)
    ensures var r := ReactLive(backend, st, b, kind, payload, f);
            && r.reply.Some?
            && (IsRefusal(r.reply.value, f) || AnswerKind(kind) == Some(r.reply.value.kind))
            && !r.reply.value.kind.HelloAck?
  {
    hide ReactLive, ReactOpen, StatusFrame, IsRefusal, ValueText;
    var r := ReactLive(backend, st, b, kind, payload, f);
    RefusalKind(f);
    if kind in {MessageType.Post, MessageType.Set, MessageType.Close} {
      HandleReply(backend, st, b, kind, payload, f);
      StatusKind(f);
    } else if kind.Open? {
      LiveOpen(backend, st, b, payload, f);
      OpenReply(backend, st, b, payload, f);
    } else {
      OtherReply(backend, st, b, kind, payload, f);
    }
  }

  lemma LiveOpen<B>(backend: Backend<B>, st: State, b: B, payload: Value, f: Formatter)
    ensures ReactLive(backend, st, b, Open, payload, f) == ReactOpen(backend, st, b, payload, f)
  {
  }

  lemma StatusKind(f: Formatter)
    ensures forall handle: Handle, reason: Reason :: StatusFrame(handle, reason, f).kind.Status?
  {
  }

  lemma RefusalKind(f: Formatter)
    ensures forall reply: Frame :: IsRefusal(reply, f) ==> reply.kind.Error?
  {
  }

  /** Each request is answered with its own reply type or with an ERROR that names what is wrong. */
  lemma RepliesOfTheRightKind<B>(backend: Backend<B>, st: State, b: B, frame: Frame, f: Formatter)
    requires !st.finished
    ensures var r := React(backend, st, b, frame, f);
            && r.reply.Some?
            && (IsRefusal(r.reply.value, f) || AnswerKind(frame.kind) == Some(r.reply.value.kind))
  {
    hide ReactLive, ReactHello, IsRefusal, ErrorFrame, ValueText, ParsePayload;
    Refusals(f);
    var payload := ParsePayload(frame.payload);
    if payload.Some? { LiveKind(backend, st, b, frame.kind, payload.value, f); }
    if frame.kind.Hello? { HelloReply(st, b, frame.payload, f); }
  }

  /** Whatever the verdict, it agrees with what the session did. */
  ghost predicate Agrees<B>(backend: Backend<B>, b: B, r: Reaction<B>, verdict: Verdict) {
    match verdict
    case UnexpectedType => false
    case UnusablePayload => false
    case Refused(reason) => reason.Some? && 1 <= reason.value <= 10
    case Agreed(revision) => r.state.negotiated && revision == r.state.revision
    case Opened(handle) => 0 < handle < 0x1_0000_0000 && exists kind: Bytes, name: Bytes ::
      r.calls == [OpenCall(kind, name)] && backend.openTarget(b, kind, name).1 == handle
    case Fine => true
  }

  /**
   Against this session the host's checks never fail: no reply has a type it does
   not expect, no HELLO_ACK lacks an integer revision, no OPEN_ACK lacks a usable
   handle, and what the host reads is the revision the session now speaks and
   the handle the backend gave out.
   */
  lemma EveryReplyUnderstood<B>(backend: Backend<B>, st: State, b: B, frame: Frame, f: Formatter)
    requires !st.finished
    ensures var r := React(backend, st, b, frame, f);
            r.reply.Some? && Agrees(backend, b, r, Understand(frame.kind, r.reply.value))
  {
    hide React, IsRefusal, ErrorFrame, IntegerField;
    RepliesOfTheRightKind(backend, st, b, frame, f);
    var r := React(backend, st, b, frame, f);
    if IsRefusal(r.reply.value, f) {
      RefusalReads(r.reply.value, f);
    } else if frame.kind.Hello? {
      HelloUnderstood(backend, st, b, frame, f);
    } else if frame.kind.Open? {
      OpenUnderstood(backend, st, b, frame, f);
    }
  }

  lemma HelloUnderstood<B>(backend: Backend<B>, st: State, b: B, frame: Frame, f: Formatter)
    requires !st.finished && frame.kind.Hello?
    ensures var r := React(backend, st, b, frame, f);
            r.reply.Some? && !IsRefusal(r.reply.value, f) ==>
              Agrees(backend, b, r, Understand(Hello, r.reply.value))
  {
    hide ReactLive, ReactHello, IsRefusal, ErrorFrame, ValueText, ParsePayload, IntegerField, HelloAckValue;
    Refusals(f);
    HelloReply(st, b, frame.payload, f);
    var payload := ParsePayload(frame.payload);
    if payload.Some? { LiveKind(backend, st, b, Hello, payload.value, f); }
    var h := ReactHello(st, b, frame.payload, f);
    if !IsRefusal(h.reply.value, f) { HelloAckReads(h.state.revision, f); }
  }

  lemma OpenUnderstood<B>(backend: Backend<B>, st: State, b: B, frame: Frame, f: Formatter)
    requires !st.finished && frame.kind.Open?
    ensures var r := React(backend, st, b, frame, f);
            r.reply.Some? && !IsRefusal(r.reply.value, f) ==>
              Agrees(backend, b, r, Understand(Open, r.reply.value))
  {
    hide ReactLive, ReactOpen, IsRefusal, ErrorFrame, ValueText, ParsePayload, IntegerField, OpenAckValue;
    Refusals(f);
    var payload := ParsePayload(frame.payload);
    if payload.Some? {
      LiveOpen(backend, st, b, payload.value, f);
      OpenReply(backend, st, b, payload.value, f);
      var r := ReactOpen(backend, st, b, payload.value, f);
      if !IsRefusal(r.reply.value, f) {
        var kind: Bytes, name: Bytes :|
          var given := backend.openTarget(b, kind, name);
          && r.calls == [OpenCall(kind, name)] && given.1 != 0 && r.engine == given.0
          && r.reply.value == Frame(OpenAck, ValueText(OpenAckValue(given.1), f));
        OpenAckReads(backend.openTarget(b, kind, name).1, f);
      }
    }
  }

  /** STATUS names the handle the request named, and the reason "ok". */
  lemma StatusMeansSuccess<B>(backend: Backend<B>, st: State, b: B, kind: MessageType, payload: Value, f: Formatter)
    requires kind in {MessageType.Post, MessageType.Set, MessageType.Close}
    ensures var r := ReactLive(backend, st, b, kind, payload, f);
            r.reply.Some? && (r.reply.value.kind.Status? ==>
              && ReadHandle(payload).Some?
              && IntegerField(r.reply.value.payload, KEY_HANDLE) == Some(ReadHandle(payload).value)
              && IntegerField(r.reply.value.payload, KEY_REASON) == Some(0))
  {
    hide ReactLive, IsRefusal, StatusFrame, ReadHandle, IntegerField;
    HandleReply(backend, st, b, kind, payload, f);
    RefusalKind(f);
    if ReadHandle(payload).Some? { StatusReads(ReadHandle(payload).value, Ok, f); }
  }

  // --------------------------------------------------------------- over runs

  /** A revision once negotiated is kept for the rest of the run. */
  lemma {:induction false} RevisionStays<B>(backend: Backend<B>, b: B, frames: seq<Frame>, k: nat, f: Formatter)
    requires k <= |frames| && After(backend, b, frames[..k], f).0.negotiated
    ensures After(backend, b, frames, f).0.negotiated
    ensures After(backend, b, frames, f).0.revision == After(backend, b, frames[..k], f).0.revision
  {
    hide React, Sound, SoundCall;
    if k == |frames| {
      assert frames[..k] == frames;
    } else {
      var before := frames[..|frames| - 1];
      assert before[..k] == frames[..k];
      RevisionStays(backend, b, before, k, f);
      EveryRunSound(backend, b, before, f);
      EveryRunSound(backend, b, frames, f);
      var (st, b') := After(backend, b, before, f);
      ReactSound(backend, st, b', frames[|frames| - 1], f);
      SoundNegotiated(After(backend, b, frames, f).0);
      SoundNegotiated(st);
    }
  }

  lemma SoundNegotiated(st: State)
    requires Sound(st)
    ensures st.negotiated <==> st.revision != 0
  {
  }
}
