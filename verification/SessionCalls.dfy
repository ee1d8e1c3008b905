/**
 What each message does, told by the fields of its payload: the operation that
 reaches the backend, the reply that comes back, and what the session becomes.
 Nothing here refers to the functions the session is specified by, but `React`.
 */
module SessionCalls {
  import opened Text
  import opened JsonValue
  import opened JsonReader
  import opened JsonPrinter
  import opened Frames
  import opened Messages
  import opened Session
  import opened SessionReplies
  import HostJson

  /** The members of payloads. */
  const ACTION: AsciiText := Ascii("action")
  const ARGS: AsciiText := Ascii("args")
  const ENABLE: AsciiText := Ascii("enable")
  const HANDLE: AsciiText := Ascii("handle")
  const IDENTIFY: AsciiText := Ascii("identify")
  const KIND: AsciiText := Ascii("kind")
  const NAME: AsciiText := Ascii("name")
  const PARAM: AsciiText := Ascii("param")
  const REASON: AsciiText := Ascii("reason")
  const REVISIONS: AsciiText := Ascii("revisions")
  const VALUE: AsciiText := Ascii("value")

  /** The payload of a frame, as a value: nothing at all is an empty object. */
  predicate Reads(payload: Bytes, v: Value) {
    if payload == [] then v == Value.Object([]) else Parse(payload) == Some(v)
  }

  /** The member `handle` is a number whose integer part is `h`, from 1 to 2^32 - 1. */
  predicate NamesHandle(v: Value, h: Handle) {
    var m := Find(v, HANDLE);
    && m.Some? && m.value.Number? && m.value.n.Finite?
    && 1.0 <= m.value.n.r < 4294967296.0 && h as real <= m.value.n.r < h as real + 1.0
  }

  predicate HasText(v: Value, key: Bytes, s: Bytes) { Find(v, key) == Some(Value.String(s)) }

  predicate InSession(st: State) { st.negotiated && !st.finished }

  // ------------------------------------------------------------ the readers

  lemma HandleRead(v: Value, h: Handle)
    ensures ReadHandle(v) == Some(h) <==> NamesHandle(v, h)
  {
    hide AsInt, Find;
    var m := Find(v, KEY_HANDLE);
    assert KEY_HANDLE == HANDLE;
    if m.Some? && m.value.Number? { IntegerPart(m.value, h); }
  }

  /** Which numbers have the integer part `h`, from 1 to 2^32 - 1. */
  lemma IntegerPart(m: Value, h: Handle)
    requires m.Number?
    ensures 0 < AsInt(m) <= 0xFFFF_FFFF && AsInt(m) == h
       <==> m.n.Finite? && 1.0 <= m.n.r < 4294967296.0 && h as real <= m.n.r < h as real + 1.0
  {
    if m.n.Finite? {
      hide Truncate;
      TruncatesTowardZero(m.n.r);
      WholeBetween(Truncate(m.n.r), m.n.r);
      if h as real <= m.n.r < h as real + 1.0 { SameWhole(Truncate(m.n.r), h, m.n.r); }
    }
  }

  lemma WholeBetween(n: int, r: real)
    requires r >= 0.0 ==> n as real <= r < n as real + 1.0
    requires r <= 0.0 ==> n as real - 1.0 < r <= n as real
    ensures n > 0 <==> r >= 1.0
    ensures n <= 0xFFFF_FFFF <==> r < 4294967296.0
  {
  }

  lemma SameWhole(n: int, h: int, r: real)
    requires (r >= 0.0 ==> n as real <= r < n as real + 1.0) && h as real <= r < h as real + 1.0
    ensures r >= 0.0 ==> n == h
  {
  }

  /** `asInt` cuts toward zero. */
  lemma TruncatesTowardZero(r: real)
    ensures r >= 0.0 ==> Truncate(r) as real <= r < Truncate(r) as real + 1.0
    ensures r <= 0.0 ==> Truncate(r) as real - 1.0 < r <= Truncate(r) as real
  {
    if r < 0.0 { assert (-r).Floor as real <= -r < (-r).Floor as real + 1.0; }
  }

  lemma TextRead(v: Value, key: Bytes, s: Bytes)
    ensures TextAt(v, key) == Some(s) <==> HasText(v, key, s)
  {
  }

  lemma PayloadRead(payload: Bytes, v: Value)
    ensures ParsePayload(payload) == Some(v) <==> Reads(payload, v)
  {
  }

  lemma LiveReact<B>(backend: Backend<B>, st: State, b: B, frame: Frame, v: Value, f: Formatter)
    requires InSession(st) && !frame.kind.Bye? && Reads(frame.payload, v)
    ensures React(backend, st, b, frame, f) == ReactLive(backend, st, b, frame.kind, v, f)
  {
    hide ParsePayload, ReactLive;
    PayloadRead(frame.payload, v);
  }

  // ------------------------------------------------------------------- SET

  /** A SET that can be carried out: on `h`, of the parameter `p`, to `x`. */
  predicate Sets(payload: Bytes, v: Value, h: Handle, p: Bytes, x: real) {
    && Reads(payload, v) && NamesHandle(v, h) && HasText(v, PARAM, p)
    && Find(v, VALUE) == Some(Value.Number(Finite(x))) && 0.0 <= x <= 1.0
  }

  /** A SET in order reaches the backend with just its fields, and the answer is the backend's. */
  lemma SetReaches<B>(backend: Backend<B>, st: State, b: B, frame: Frame, v: Value, h: Handle, p: Bytes, x: real, f: Formatter)
    requires InSession(st) && frame.kind == MessageType.Set && Sets(frame.payload, v, h, p, x)
    ensures var r, (after, reason) := React(backend, st, b, frame, f), backend.setLevel(b, h, p, x);
            && r.calls == [SetCall(h, p, x)] && r.engine == after && r.state == st
            && r.reply == Some(if reason == Ok then StatusFrame(h, Ok, f) else ErrorFrame(reason, f))
  {
    hide ErrorFrame, StatusFrame, Reads, NamesHandle, ReadHandle, TextAt, Find;
    LiveReact(backend, st, b, frame, v, f);
    HandleRead(v, h);
    TextRead(v, KEY_PARAM, p);
  }

  /** Any other is refused as a bad argument, and nothing happens. */
  lemma SetRefused<B>(backend: Backend<B>, st: State, b: B, frame: Frame, f: Formatter)
    requires InSession(st) && frame.kind == MessageType.Set
    requires forall v: Value, h: Handle, p: Bytes, x: real :: !Sets(frame.payload, v, h, p, x)
    ensures React(backend, st, b, frame, f) == Reaction(st, b, Some(ErrorFrame(BadArgument, f)), true, [])
  {
    hide ErrorFrame, StatusFrame, NamesHandle, ReadHandle, TextAt, Find, Reads, ParsePayload;
    var payload := ParsePayload(frame.payload);
    if payload.Some? {
      var v := payload.value;
      PayloadRead(frame.payload, v);
      SetsWhenRead(frame.payload, v);
    }
  }

  lemma SetsWhenRead(payload: Bytes, v: Value)
    requires Reads(payload, v)
    ensures var handle, param, value := ReadHandle(v), TextAt(v, KEY_PARAM), Find(v, KEY_VALUE);
            handle.Some? && param.Some? && value.Some? && value.value.Number? && InUnitInterval(value.value.n) ==>
              Sets(payload, v, handle.value, param.value, value.value.n.r)
  {
    hide Reads, NamesHandle, ReadHandle, TextAt, Find;
    var handle, param := ReadHandle(v), TextAt(v, KEY_PARAM);
    if handle.Some? { HandleRead(v, handle.value); }
    if param.Some? { TextRead(v, KEY_PARAM, param.value); }
  }

  // ------------------------------------------------------------------ POST

  /** The arguments of a POST: an object, or an empty one. */
  function Arguments(v: Value): Value {
    var m := Find(v, ARGS);
    if m.Some? && m.value.Object? then m.value else Value.Object([])
  }

  predicate Posts(payload: Bytes, v: Value, h: Handle, a: Bytes) {
    Reads(payload, v) && NamesHandle(v, h) && HasText(v, ACTION, a)
  }

  lemma PostReaches<B>(backend: Backend<B>, st: State, b: B, frame: Frame, v: Value, h: Handle, a: Bytes, f: Formatter)
    requires InSession(st) && frame.kind == MessageType.Post && Posts(frame.payload, v, h, a)
    ensures var r, (after, reason) := React(backend, st, b, frame, f), backend.post(b, h, a, Arguments(v));
            && r.calls == [PostCall(h, a, Arguments(v))] && r.engine == after && r.state == st
            && r.reply == Some(if reason == Ok then StatusFrame(h, Ok, f) else ErrorFrame(reason, f))
  {
    hide ErrorFrame, StatusFrame, Reads, NamesHandle, ReadHandle, TextAt, Find;
    LiveReact(backend, st, b, frame, v, f);
    HandleRead(v, h);
    TextRead(v, KEY_ACTION, a);
  }

  lemma PostRefused<B>(backend: Backend<B>, st: State, b: B, frame: Frame, f: Formatter)
    requires InSession(st) && frame.kind == MessageType.Post
    requires forall v: Value, h: Handle, a: Bytes :: !Posts(frame.payload, v, h, a)
    ensures React(backend, st, b, frame, f) == Reaction(st, b, Some(ErrorFrame(BadArgument, f)), true, [])
  {
    hide ErrorFrame, StatusFrame, NamesHandle, ReadHandle, TextAt, Find, Reads, ParsePayload;
    var payload := ParsePayload(frame.payload);
    if payload.Some? {
      var v := payload.value;
      PayloadRead(frame.payload, v);
      PostsWhenRead(frame.payload, v);
    }
  }

  lemma PostsWhenRead(payload: Bytes, v: Value)
    requires Reads(payload, v)
    ensures var handle, action := ReadHandle(v), TextAt(v, KEY_ACTION);
            handle.Some? && action.Some? ==> Posts(payload, v, handle.value, action.value)
  {
    hide Reads, NamesHandle, ReadHandle, TextAt, Find;
    var handle, action := ReadHandle(v), TextAt(v, KEY_ACTION);
    if handle.Some? { HandleRead(v, handle.value); }
    if action.Some? { TextRead(v, KEY_ACTION, action.value); }
  }

  // ------------------------------------------------------------------ OPEN

  /** The name of a target: a string, or empty. */
  function TargetName(v: Value): Bytes {
    var m := Find(v, NAME);
    if m.Some? && m.value.String? then m.value.s else []
  }

  /** An OPEN that names a kind reaches the backend; the handle it gives is acknowledged unless it is 0. */
  lemma OpenReaches<B>(backend: Backend<B>, st: State, b: B, frame: Frame, v: Value, kind: Bytes, f: Formatter)
    requires InSession(st) && frame.kind == MessageType.Open
    requires Reads(frame.payload, v) && HasText(v, KIND, kind)
    ensures var r, (after, h, reason) := React(backend, st, b, frame, f), backend.openTarget(b, kind, TargetName(v));
            && r.calls == [OpenCall(kind, TargetName(v))] && r.engine == after && r.state == st
            && r.reply == Some(if h != 0 then Frame(OpenAck, ValueText(OpenAckValue(h), f))
                               else ErrorFrame(if reason == Ok then Internal else reason, f))
  {
    hide ErrorFrame, ValueText, OpenAckValue, Reads, Find;
    LiveReact(backend, st, b, frame, v, f);
    TextRead(v, KEY_KIND, kind);
  }

  lemma OpenRefused<B>(backend: Backend<B>, st: State, b: B, frame: Frame, f: Formatter)
    requires InSession(st) && frame.kind == MessageType.Open
    requires forall v: Value, kind: Bytes :: !(Reads(frame.payload, v) && HasText(v, KIND, kind))
    ensures React(backend, st, b, frame, f) == Reaction(st, b, Some(ErrorFrame(BadArgument, f)), true, [])
  {
    hide ErrorFrame, ValueText, OpenAckValue, Reads, Find, TextAt, ParsePayload;
    var payload := ParsePayload(frame.payload);
    if payload.Some? {
      PayloadRead(frame.payload, payload.value);
      var kind := TextAt(payload.value, KEY_KIND);
      if kind.Some? { TextRead(payload.value, KEY_KIND, kind.value); }
    }
  }

  // ----------------------------------------------------------------- CLOSE

  lemma CloseReaches<B>(backend: Backend<B>, st: State, b: B, frame: Frame, v: Value, h: Handle, f: Formatter)
    requires InSession(st) && frame.kind == MessageType.Close && Reads(frame.payload, v) && NamesHandle(v, h)
    ensures var r, (after, reason) := React(backend, st, b, frame, f), backend.closeTarget(b, h);
            && r.calls == [CloseCall(h)] && r.engine == after && r.state == st
            && r.reply == Some(if reason == Ok then StatusFrame(h, Ok, f) else ErrorFrame(reason, f))
  {
    hide ErrorFrame, StatusFrame, Reads, NamesHandle, ReadHandle;
    LiveReact(backend, st, b, frame, v, f);
    HandleRead(v, h);
  }

  lemma CloseRefused<B>(backend: Backend<B>, st: State, b: B, frame: Frame, f: Formatter)
    requires InSession(st) && frame.kind == MessageType.Close
    requires forall v: Value, h: Handle :: !(Reads(frame.payload, v) && NamesHandle(v, h))
    ensures React(backend, st, b, frame, f) == Reaction(st, b, Some(ErrorFrame(BadArgument, f)), true, [])
  {
    hide ErrorFrame, StatusFrame, Reads, NamesHandle, ReadHandle, ParsePayload;
    var payload := ParsePayload(frame.payload);
    if payload.Some? {
      PayloadRead(frame.payload, payload.value);
      var handle := ReadHandle(payload.value);
      if handle.Some? { HandleRead(payload.value, handle.value); }
    }
  }

  // ------------------------------------------------------ everything else

  /** BYE is answered with BYE and ends the session, negotiated or not, whatever it carries. */
  lemma ByeEnds<B>(backend: Backend<B>, st: State, b: B, frame: Frame, f: Formatter)
    requires !st.finished && frame.kind == Bye
    ensures React(backend, st, b, frame, f) == Reaction(st.(finished := true), b, Some(Frame(Bye, [])), false, [])
  {
  }

  /** Before negotiation anything but HELLO and BYE ends the session as a bad argument. */
  lemma TooEarlyEnds<B>(backend: Backend<B>, st: State, b: B, frame: Frame, f: Formatter)
    requires !st.finished && !st.negotiated && frame.kind != Hello && frame.kind != Bye
    ensures React(backend, st, b, frame, f)
         == Reaction(st.(finished := true), b, Some(ErrorFrame(BadArgument, f)), false, [])
  {
    hide ErrorFrame;
  }

  /** A HELLO without a list of revisions is a bad argument, one without a common revision says so; both end the session. */
  lemma HelloNegotiates<B>(backend: Backend<B>, st: State, b: B, frame: Frame, f: Formatter)
    requires !st.finished && !st.negotiated && frame.kind == Hello
    ensures (forall v: Value, offer: seq<Value> ::
               Reads(frame.payload, v) && Find(v, REVISIONS) == Some(Value.Array(offer)) ==>
                 var best := BestRevision(Offered(offer), SUPPORTED_REVISIONS);
                 React(backend, st, b, frame, f)
                 == if best == 0
                    then Reaction(st.(finished := true), b, Some(ErrorFrame(NoCommonRevision, f)), false, [])
                    else Reaction(st.(negotiated := true, revision := best), b,
                                  Some(Frame(HelloAck, ValueText(HelloAckValue(best), f))), true, []))
    ensures (forall v: Value, offer: seq<Value> ::
               !(Reads(frame.payload, v) && Find(v, REVISIONS) == Some(Value.Array(offer)))) ==>
              React(backend, st, b, frame, f)
              == Reaction(st.(finished := true), b, Some(ErrorFrame(BadArgument, f)), false, [])
  {
    hide ErrorFrame, ValueText, HelloAckValue, Find, BestRevision, Offered, Reads, ParsePayload;
    forall v: Value ensures ParsePayload(frame.payload) == Some(v) <==> Reads(frame.payload, v) {
      PayloadRead(frame.payload, v);
    }
    var payload := ParsePayload(frame.payload);
    if payload.Some? {
      var m := Find(payload.value, KEY_REVISIONS);
      if m.Some? && m.value.Array? { assert m == Some(Value.Array(m.value.items)); }
    }
  }

  /** In a live session a payload that is not JSON is a bad argument, and nothing happens. */
  lemma UnreadableRefused<B>(backend: Backend<B>, st: State, b: B, frame: Frame, f: Formatter)
    requires InSession(st) && frame.kind != Bye && frame.payload != [] && Parse(frame.payload).None?
    ensures React(backend, st, b, frame, f) == Reaction(st, b, Some(ErrorFrame(BadArgument, f)), true, [])
  {
    hide ErrorFrame, ReactLive, Parse;
  }

  /** A second HELLO, and what only a station sends, is not supported. */
  lemma StrayRefused<B>(backend: Backend<B>, st: State, b: B, frame: Frame, v: Value, f: Formatter)
    requires InSession(st) && Reads(frame.payload, v)
    requires frame.kind in {Hello, HelloAck, CapsReply, OpenAck, Status, DiagReply, MessageType.Error}
    ensures React(backend, st, b, frame, f) == Reaction(st, b, Some(ErrorFrame(UnsupportedOperation, f)), true, [])
  {
    hide ErrorFrame, Reads;
    LiveReact(backend, st, b, frame, v, f);
  }

  /** The numbers the host reads for the reasons. */
  lemma ReasonNumbers(f: Formatter)
    ensures forall reason: Reason :: HostJson.IntegerField(ErrorFrame(reason, f).payload, REASON)
              == Some(match reason
                      case Ok => 0 case NoEngine => 1 case NoCommonRevision => 2 case IncompatibleEngine => 3
                      case BindFailed => 4 case UnsupportedOperation => 5 case InvalidHandle => 6
                      case BadArgument => 7 case Busy => 8 case Internal => 9 case DiagDisabled => 10)
  {
    hide HostJson.IntegerField, ErrorFrame;
    assert KEY_REASON == REASON;
    forall reason: Reason ensures HostJson.IntegerField(ErrorFrame(reason, f).payload, KEY_REASON) == Some(ReasonCode(reason)) {
      ErrorReads(reason, f);
    }
  }

  // ----------------------------------------------------------- diagnostics

  function Switch(v: Value, key: Bytes): Option<bool> {
    var m := Find(v, key);
    if m.Some? && m.value.Bool? then Some(m.value.b) else None
  }

  /**
   The two switches after a DIAG_REQUEST: `enable` sets the first and, when it is
   off, clears the second; `identify: true` sets the second if the first is on.
   */
  function Switched(st: State, v: Value): State {
    var enable, identify := Switch(v, ENABLE), Switch(v, IDENTIFY);
    var on := if enable.Some? then enable.value else st.diagnose;
    st.(diagnose := on,
        identify := (if enable == Some(false) then false else st.identify) || (identify == Some(true) && on))
  }

  /** Refused: asking to be identified, or asking nothing, while diagnostics are off. */
  predicate Withheld(st: State, v: Value) {
    && !Switched(st, v).diagnose
    && (|| Switch(v, IDENTIFY) == Some(true)
        || (Find(v, ENABLE).None? && Find(v, IDENTIFY).None?))
  }

  lemma DiagSwitches<B>(backend: Backend<B>, st: State, b: B, frame: Frame, v: Value, f: Formatter)
    requires InSession(st) && frame.kind == DiagRequest && Reads(frame.payload, v)
    ensures var r, after := React(backend, st, b, frame, f), Switched(st, v);
            && r.state == after && r.engine == b
            && r.calls == (if Withheld(st, v) then [] else [DiagCall])
            && r.reply == Some(if Withheld(st, v) then ErrorFrame(DiagDisabled, f)
                               else Frame(DiagReply, ValueText(DiagValue(backend, b, after), f)))
  {
    hide ErrorFrame, ValueText, DiagValue, Reads, ReactDiag, Switched, Withheld;
    LiveReact(backend, st, b, frame, v, f);
    DiagReact(backend, st, b, v, f);
  }

  lemma SwitchNames()
    ensures KEY_ENABLE == ENABLE && KEY_IDENTIFY == IDENTIFY
  {
  }

  lemma DiagReact<B>(backend: Backend<B>, st: State, b: B, v: Value, f: Formatter)
    ensures var r, after := ReactDiag(backend, st, b, v, f), Switched(st, v);
            && r.state == after && r.engine == b
            && r.calls == (if Withheld(st, v) then [] else [DiagCall])
            && r.reply == Some(if Withheld(st, v) then ErrorFrame(DiagDisabled, f)
                               else Frame(DiagReply, ValueText(DiagValue(backend, b, after), f)))
  {
    hide ErrorFrame, ValueText, DiagValue, Find, Ascii, Enabled;
    SwitchNames();
    EnabledMeans(st, v);
  }

  lemma EnabledMeans(st: State, v: Value)
    ensures var enable := Switch(v, KEY_ENABLE);
            Enabled(st, Find(v, KEY_ENABLE))
            == st.(diagnose := if enable.Some? then enable.value else st.diagnose,
                   identify := if enable == Some(false) then false else st.identify)
  {
    hide Find, Ascii;
  }

  lemma CapsAnswered<B>(backend: Backend<B>, st: State, b: B, frame: Frame, v: Value, f: Formatter)
    requires InSession(st) && frame.kind == CapsRequest && Reads(frame.payload, v)
    ensures React(backend, st, b, frame, f)
         == Reaction(st, b, Some(Frame(CapsReply, ValueText(CapsValue(backend, b), f))), true, [CapsCall])
  {
    hide ValueText, CapsValue, Reads;
    LiveReact(backend, st, b, frame, v, f);
  }
}
