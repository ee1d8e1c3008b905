/**
 The session of src/relay/session.cpp.

 `React` says what one frame does: to the session's own state, to the engine
 behind the backend, and on the wire.  The class is the session itself, proved
 to do exactly that.  Reading a count or a class list does not change the
 backend; `calls` records, in order, the operations that reach it.
 */
module Session {
  import opened Text
  import opened JsonValue
  import opened JsonReader
  import opened JsonPrinter
  import opened Frames
  import opened Messages

  type Handle = n: nat | n < 0x1_0000_0000

  /** A backing engine with state `B`, reduced to the operations the protocol exposes. */
  datatype Backend<!B> = Backend(
    classes: B -> seq<Bytes>,
    limits: B -> Value,
    bulk: B -> bool,
    bytesForwarded: B -> nat,
    bytesDropped: B -> nat,
    symbols: B -> nat,
    targets: B -> nat,
    files: B -> nat,
    candidates: B -> nat,
    truncated: B -> bool,
    openTarget: (B, Bytes, Bytes) -> (B, Handle, Reason),
    closeTarget: (B, Handle) -> (B, Reason),
    post: (B, Handle, Bytes, Value) -> (B, Reason),
    setLevel: (B, Handle, Bytes, real) -> (B, Reason))

  datatype Call =
    | CapsCall
    | OpenCall(kind: Bytes, name: Bytes)
    | CloseCall(handle: Handle)
    | PostCall(handle: Handle, action: Bytes, args: Value)
    | SetCall(handle: Handle, param: Bytes, level: real)
    | DiagCall

  datatype State = State(finished: bool, negotiated: bool, diagnose: bool, identify: bool, revision: int)

  const FRESH := State(false, false, false, false, 0)

  datatype Reaction<B> =
    Reaction(state: State, engine: B, reply: Option<Frame>, more: bool, calls: seq<Call>)

  // ------------------------------------------------------------ negotiation

  const SUPPORTED_REVISIONS: seq<int> := [1]

  /** The running best after one candidate of the host's. */
  function Better(best: int, candidate: int, supported: seq<int>): int {
    if candidate in supported && candidate > best then candidate else best
  }

  function BestRevision(host: seq<int>, supported: seq<int>): int {
    if host == [] then 0
    else Better(BestRevision(host[..|host| - 1], supported), host[|host| - 1], supported)
  }

  /** `selectRevision`, over any list of supported revisions. */
  method SelectRevision(host: seq<int>, supported: seq<int>) returns (best: int)
    ensures best == BestRevision(host, supported)
  {
    best := 0;
    for i := 0 to |host|
      invariant best == BestRevision(host[..i], supported)
    {
      ghost var before := best;
      var candidate := host[i];
      for j := 0 to |supported|
        invariant best == Better(before, candidate, supported[..j])
      {
        if candidate == supported[j] && candidate > best { best := candidate; }
      }
      assert supported[..|supported|] == supported;
      assert host[..i + 1][..i] == host[..i];
    }
    assert host[..|host|] == host;
  }

  /** The revision chosen is the greatest both sides have, and 0 when there is none above 0. */
  lemma {:induction false} BestRevisionIsGreatestCommon(host: seq<int>, supported: seq<int>)
    ensures var best := BestRevision(host, supported);
            && best >= 0
            && (best != 0 ==> best in host && best in supported)
            && forall r | r in host && r in supported :: r <= best || r <= 0
  {
    if host != [] {
      var n := |host| - 1;
      BestRevisionIsGreatestCommon(host[..n], supported);
      assert host == host[..n] + [host[n]];
    }
  }

  /** The numeric entries of the offer, as 32-bit integers. */
  function Offered(entries: seq<Value>): seq<int> {
    if entries == [] then []
    else Offered(entries[..|entries| - 1])
         + (var e := entries[|entries| - 1]; if e.Number? then [ToInt32(AsInt(e))] else [])
  }

  // ----------------------------------------------------------------- frames

  const KEY_ACTION: AsciiText := Ascii("action")
  const KEY_ARGS: AsciiText := Ascii("args")
  const KEY_BULK: AsciiText := Ascii("bulk")
  const KEY_BULK_BYTES_DROPPED: AsciiText := Ascii("bulk_bytes_dropped")
  const KEY_BULK_BYTES_FORWARDED: AsciiText := Ascii("bulk_bytes_forwarded")
  const KEY_CANDIDATES_FOUND: AsciiText := Ascii("candidates_found")
  const KEY_CLASSES: AsciiText := Ascii("classes")
  const KEY_DETAIL: AsciiText := Ascii("detail")
  const KEY_DIAGNOSE: AsciiText := Ascii("diagnose")
  const KEY_DISCOVERY_TRUNCATED: AsciiText := Ascii("discovery_truncated")
  const KEY_ENABLE: AsciiText := Ascii("enable")
  const KEY_FEATURES: AsciiText := Ascii("features")
  const KEY_FILES_EXAMINED: AsciiText := Ascii("files_examined")
  const KEY_HANDLE: AsciiText := Ascii("handle")
  const KEY_IDENTIFY: AsciiText := Ascii("identify")
  const KEY_KIND: AsciiText := Ascii("kind")
  const KEY_LIMITS: AsciiText := Ascii("limits")
  const KEY_NAME: AsciiText := Ascii("name")
  const KEY_PARAM: AsciiText := Ascii("param")
  const KEY_REASON: AsciiText := Ascii("reason")
  const KEY_REVISION: AsciiText := Ascii("revision")
  const KEY_REVISIONS: AsciiText := Ascii("revisions")
  const KEY_SYMBOLS_RESOLVED: AsciiText := Ascii("symbols_resolved")
  const KEY_TARGETS: AsciiText := Ascii("targets")
  const KEY_VALUE: AsciiText := Ascii("value")

  function ErrorValue(reason: Reason): Value {
    JsonValue.Set(JsonValue.Set(Value.Object([]), KEY_REASON, Integer(ReasonCode(reason))),
        KEY_DETAIL, Value.String(ReasonSummary(reason)))
  }

  function ErrorFrame(reason: Reason, f: Formatter): Frame {
    Frame(MessageType.Error, ValueText(ErrorValue(reason), f))
  }

  function StatusValue(handle: Handle, reason: Reason): Value {
    JsonValue.Set(JsonValue.Set(Value.Object([]), KEY_HANDLE, Integer(handle)),
        KEY_REASON, Integer(ReasonCode(reason)))
  }

  function StatusFrame(handle: Handle, reason: Reason, f: Formatter): Frame {
    Frame(Status, ValueText(StatusValue(handle, reason), f))
  }

  function HelloAckValue(revision: int): Value {
    JsonValue.Set(JsonValue.Set(Value.Object([]), KEY_REVISION, Integer(revision)),
        KEY_FEATURES, Value.Array([]))
  }

  function OpenAckValue(handle: Handle): Value {
    JsonValue.Set(Value.Object([]), KEY_HANDLE, Integer(handle))
  }

  function Strings(names: seq<Bytes>): (r: Value)
    ensures r.Array? && |r.items| == |names|
    ensures forall i | 0 <= i < |names| :: r.items[i] == Value.String(names[i])
  {
    Value.Array(seq(|names|, i requires 0 <= i < |names| => Value.String(names[i])))
  }

  function CapsValue<B>(backend: Backend<B>, b: B): Value {
    var v := Value.Object([]);
    var v := JsonValue.Set(v, KEY_CLASSES, Strings(backend.classes(b)));
    var v := JsonValue.Set(v, KEY_LIMITS, backend.limits(b));
    JsonValue.Set(v, KEY_BULK, Value.Bool(backend.bulk(b)))
  }

  function DiagValue<B>(backend: Backend<B>, b: B, st: State): Value {
    var v := Value.Object([]);
    var v := JsonValue.Set(v, KEY_DIAGNOSE, Value.Bool(st.diagnose));
    var v := JsonValue.Set(v, KEY_IDENTIFY, Value.Bool(st.identify));
    var v := JsonValue.Set(v, KEY_REVISION, Integer(st.revision));
    var v := JsonValue.Set(v, KEY_TARGETS, Integer(backend.targets(b)));
    var v := JsonValue.Set(v, KEY_SYMBOLS_RESOLVED, Integer(backend.symbols(b)));
    var v := JsonValue.Set(v, KEY_FILES_EXAMINED, Integer(backend.files(b)));
    var v := JsonValue.Set(v, KEY_CANDIDATES_FOUND, Integer(backend.candidates(b)));
    var v := JsonValue.Set(v, KEY_DISCOVERY_TRUNCATED, Value.Bool(backend.truncated(b)));
    var v := JsonValue.Set(v, KEY_BULK, Value.Bool(backend.bulk(b)));
    var v := JsonValue.Set(v, KEY_BULK_BYTES_FORWARDED, Integer(backend.bytesForwarded(b)));
    var v := JsonValue.Set(v, KEY_BULK_BYTES_DROPPED, Integer(backend.bytesDropped(b)));
    JsonValue.Set(v, KEY_CLASSES, Strings(backend.classes(b)))
  }

  // -------------------------------------------------------------- reactions

  /** An absent payload reads as an empty object. */
  function ParsePayload(payload: Bytes): Option<Value> {
    if payload == [] then Some(Value.Object([])) else Parse(payload)
  }

  function ReadHandle(payload: Value): Option<Handle> {
    var h := Find(payload, KEY_HANDLE);
    if h.None? || !h.value.Number? then None else
      var raw := AsInt(h.value);
      if raw <= 0 || raw > 0xFFFF_FFFF then None else Some(raw)
  }

  function TextAt(payload: Value, key: Bytes): Option<Bytes> {
    var v := Find(payload, key);
    if v.Some? && v.value.String? then Some(v.value.s) else None
  }

  function EndWith<B>(st: State, b: B, reason: Reason, f: Formatter): Reaction<B> {
    Reaction(st.(finished := true), b, Some(ErrorFrame(reason, f)), false, [])
  }

  function Refuse<B>(st: State, b: B, reason: Reason, calls: seq<Call>, f: Formatter): Reaction<B> {
    Reaction(st, b, Some(ErrorFrame(reason, f)), true, calls)
  }

  /** The answer to an operation on a handle: STATUS when it went well, ERROR otherwise. */
  function Answer<B>(st: State, b: B, handle: Handle, reason: Reason, calls: seq<Call>, f: Formatter): Reaction<B> {
    if reason.Ok? then Reaction(st, b, Some(StatusFrame(handle, reason, f)), true, calls)
    else Refuse(st, b, reason, calls, f)
  }

  function ReactHello<B>(st: State, b: B, payload: Bytes, f: Formatter): Reaction<B> {
    var value := ParsePayload(payload);
    if value.None? then EndWith(st, b, BadArgument, f) else
      var revisions := Find(value.value, KEY_REVISIONS);
      if revisions.None? || !revisions.value.Array? then EndWith(st, b, BadArgument, f) else
        var selected := BestRevision(Offered(revisions.value.items), SUPPORTED_REVISIONS);
        if selected == 0 then EndWith(st, b, NoCommonRevision, f)
        else Reaction(st.(negotiated := true, revision := selected), b,
                      Some(Frame(HelloAck, ValueText(HelloAckValue(selected), f))), true, [])
  }

  function ReactOpen<B>(backend: Backend<B>, st: State, b: B, payload: Value, f: Formatter): Reaction<B> {
    var kind := TextAt(payload, KEY_KIND);
    if kind.None? then Refuse(st, b, BadArgument, [], f) else
      var given := TextAt(payload, KEY_NAME);
      var name := if given.Some? then given.value else [];
      var (b', handle, reason) := backend.openTarget(b, kind.value, name);
      var calls := [OpenCall(kind.value, name)];
      if handle == 0 then Refuse(st, b', if reason.Ok? then Internal else reason, calls, f)
      else Reaction(st, b', Some(Frame(OpenAck, ValueText(OpenAckValue(handle), f))), true, calls)
  }

  function ReactPost<B>(backend: Backend<B>, st: State, b: B, payload: Value, f: Formatter): Reaction<B> {
    var handle := ReadHandle(payload);
    var action := TextAt(payload, KEY_ACTION);
    if handle.None? || action.None? then Refuse(st, b, BadArgument, [], f) else
      var given := Find(payload, KEY_ARGS);
      var args := if given.Some? && given.value.Object? then given.value else Value.Object([]);
      var (b', reason) := backend.post(b, handle.value, action.value, args);
      Answer(st, b', handle.value, reason, [PostCall(handle.value, action.value, args)], f)
  }

  function ReactSet<B>(backend: Backend<B>, st: State, b: B, payload: Value, f: Formatter): Reaction<B> {
    var handle := ReadHandle(payload);
    var param := TextAt(payload, KEY_PARAM);
    var value := Find(payload, KEY_VALUE);
    if handle.None? || param.None? || value.None? || !value.value.Number? then Refuse(st, b, BadArgument, [], f)
    else if !InUnitInterval(value.value.n) then Refuse(st, b, BadArgument, [], f)
    else
      var level := value.value.n.r;
      var (b', reason) := backend.setLevel(b, handle.value, param.value, level);
      Answer(st, b', handle.value, reason, [SetCall(handle.value, param.value, level)], f)
  }

  /** The range test, written so that NaN fails it. */
  predicate InUnitInterval(n: Number) { n.Finite? && 0.0 <= n.r <= 1.0 }

  function ReactClose<B>(backend: Backend<B>, st: State, b: B, payload: Value, f: Formatter): Reaction<B> {
    var handle := ReadHandle(payload);
    if handle.None? then Refuse(st, b, BadArgument, [], f) else
      var (b', reason) := backend.closeTarget(b, handle.value);
      Answer(st, b', handle.value, reason, [CloseCall(handle.value)], f)
  }

  /** The two switches after a DIAG_REQUEST, before `identify` has been looked at. */
  function Enabled(st: State, enable: Option<Value>): State {
    if enable.Some? && enable.value.Bool?
    then st.(diagnose := enable.value.b, identify := enable.value.b && st.identify)
    else st
  }

  function ReactDiag<B>(backend: Backend<B>, st: State, b: B, payload: Value, f: Formatter): Reaction<B> {
    var enable := Find(payload, KEY_ENABLE);
    var identify := Find(payload, KEY_IDENTIFY);
    var st1 := Enabled(st, enable);
    var asked := identify.Some? && identify.value.Bool? && identify.value.b;
    if asked && !st1.diagnose then Refuse(st1, b, DiagDisabled, [], f) else
      var st2 := if asked then st1.(identify := true) else st1;
      if enable.None? && identify.None? && !st2.diagnose then Refuse(st2, b, DiagDisabled, [], f)
      else Reaction(st2, b, Some(Frame(DiagReply, ValueText(DiagValue(backend, b, st2), f))), true, [DiagCall])
  }

  function ReactCaps<B>(backend: Backend<B>, st: State, b: B, f: Formatter): Reaction<B> {
    Reaction(st, b, Some(Frame(CapsReply, ValueText(CapsValue(backend, b), f))), true, [CapsCall])
  }

  function ReactLive<B>(backend: Backend<B>, st: State, b: B, kind: MessageType, payload: Value, f: Formatter)
    : Reaction<B>
  {
    match kind
    case CapsRequest => ReactCaps(backend, st, b, f)
    case Open => ReactOpen(backend, st, b, payload, f)
    case Post => ReactPost(backend, st, b, payload, f)
    case Set => ReactSet(backend, st, b, payload, f)
    case Close => ReactClose(backend, st, b, payload, f)
    case DiagRequest => ReactDiag(backend, st, b, payload, f)
    case _ => Refuse(st, b, UnsupportedOperation, [], f)
  }

  /** What `handle` does with one frame. */
  function React<B>(backend: Backend<B>, st: State, b: B, frame: Frame, f: Formatter): Reaction<B> {
    if st.finished then Reaction(st, b, None, false, [])
    else if frame.kind.Bye? then Reaction(st.(finished := true), b, Some(Frame(Bye, [])), false, [])
    else if !st.negotiated then
      if frame.kind.Hello? then ReactHello(st, b, frame.payload, f) else EndWith(st, b, BadArgument, f)
    else
      var payload := ParsePayload(frame.payload);
      if payload.None? then Refuse(st, b, BadArgument, [], f)
      else ReactLive(backend, st, b, frame.kind, payload.value, f)
  }

  // ------------------------------------------------------------ the session

  class Session<B> {
    const backend: Backend<B>
    const fractional: Formatter
    /** The backend's own state. */
    var engine: B
    var finished: bool
    var negotiated: bool
    var diagnose: bool
    var identify: bool
    var revision: int
    /** The frames the sink was given, encoded, in order. */
    var written: seq<Bytes>
    ghost var calls: seq<Call>

    constructor (backend: Backend<B>, engine: B, fractional: Formatter)
      ensures this.backend == backend && this.engine == engine && this.fractional == fractional
      ensures Now() == FRESH && written == [] && calls == []
    {
      this.backend, this.engine, this.fractional := backend, engine, fractional;
      finished, negotiated, diagnose, identify := false, false, false, false;
      revision := 0;
      written, calls := [], [];
    }

    function Now(): State
      reads this
    {
      State(finished, negotiated, diagnose, identify, revision)
    }

    /** The session has done what `r` says, starting from what it had written and called. */
    twostate predicate Did(r: Reaction<B>, more: bool)
      reads this
    {
      && Now() == r.state && engine == r.engine && more == r.more
      && written == old(written) + (if r.reply.Some? then [Encode(r.reply.value)] else [])
      && calls == old(calls) + r.calls
    }

    method Send(kind: MessageType, payload: Bytes)
      modifies this`written
      ensures written == old(written) + [Encode(Frame(kind, payload))]
    {
      var bytes := EncodeFrame(kind, payload);
      written := written + [bytes];
    }

    method SendError(reason: Reason)
      modifies this`written
      ensures written == old(written) + [Encode(ErrorFrame(reason, fractional))]
    {
      var text := Dump(ErrorValue(reason), fractional);
      Send(MessageType.Error, text);
    }

    method SendStatus(handle: Handle, reason: Reason)
      modifies this`written
      ensures written == old(written) + [Encode(StatusFrame(handle, reason, fractional))]
    {
      var text := Dump(StatusValue(handle, reason), fractional);
      Send(Status, text);
    }

    /** Handles one frame; false once the session is over. */
    method Handle(frame: Frame) returns (more: bool)
      modifies this
      ensures Did(React(backend, old(Now()), old(engine), frame, fractional), more)
    {
      hide ErrorFrame, Encode, ParsePayload, ReactHello, ReactCaps, ReactOpen, ReactPost, ReactSet, ReactClose, ReactDiag;
      if finished { return false; }
      if frame.kind.Bye? {
        Send(Bye, []);
        finished := true;
        return false;
      }
      if !negotiated {
        if !frame.kind.Hello? {
          SendError(BadArgument);
          finished := true;
          return false;
        }
        more := HandleHello(frame.payload);
        return more;
      }
      var payload := ParsePayload(frame.payload);
      if payload.None? {
        SendError(BadArgument);
        return true;
      }
      match frame.kind {
        case CapsRequest =>
          more := HandleCapsRequest();
          return more;
        case Open =>
          more := HandleOpen(payload.value);
          return more;
        case Post =>
          more := HandlePost(payload.value);
          return more;
        case Set =>
          more := HandleSet(payload.value);
          return more;
        case Close =>
          more := HandleClose(payload.value);
          return more;
        case DiagRequest =>
          more := HandleDiagRequest(payload.value);
          return more;
        case _ =>
      }
      // What only opens a session, or only a station sends.
      SendError(UnsupportedOperation);
      return true;
    }

    method HandleHello(payload: Bytes) returns (more: bool)
      modifies this
      ensures Did(ReactHello(old(Now()), old(engine), payload, fractional), more)
    {
      hide ErrorFrame, Encode, Find, ParsePayload, AsInt, ToInt32;
      var value := ParsePayload(payload);
      if value.None? {
        SendError(BadArgument);
        finished := true;
        return false;
      }
      var revisions := Find(value.value, KEY_REVISIONS);
      if revisions.None? || !revisions.value.Array? {
        SendError(BadArgument);
        finished := true;
        return false;
      }
      var entries := revisions.value.items;
      var offered: seq<int> := [];
      for i := 0 to |entries|
        invariant offered == Offered(entries[..i])
      {
        assert entries[..i + 1][..i] == entries[..i];
        if entries[i].Number? { offered := offered + [ToInt32(AsInt(entries[i]))]; }
      }
      assert entries[..|entries|] == entries;
      var selected := SelectRevision(offered, SUPPORTED_REVISIONS);
      if selected == 0 {
        SendError(NoCommonRevision);
        finished := true;
        return false;
      }
      revision := selected;
      negotiated := true;
      var text := Dump(HelloAckValue(selected), fractional);
      Send(HelloAck, text);
      return true;
    }

    method HandleCapsRequest() returns (more: bool)
      modifies this
      ensures Did(ReactCaps(backend, old(Now()), old(engine), fractional), more)
    {
      calls := calls + [CapsCall];
      var text := Dump(CapsValue(backend, engine), fractional);
      Send(CapsReply, text);
      return true;
    }

    method HandleOpen(payload: Value) returns (more: bool)
      modifies this
      ensures Did(ReactOpen(backend, old(Now()), old(engine), payload, fractional), more)
    {
      hide ErrorFrame, StatusFrame, Encode, Find, TextAt, ReadHandle;
      var kind := TextAt(payload, KEY_KIND);
      if kind.None? {
        SendError(BadArgument);
        return true;
      }
      var name: Bytes := [];
      var given := TextAt(payload, KEY_NAME);
      if given.Some? { name := given.value; }
      calls := calls + [OpenCall(kind.value, name)];
      var (b, handle, reason) := backend.openTarget(engine, kind.value, name);
      engine := b;
      if handle == 0 {
        SendError(if reason.Ok? then Internal else reason);
        return true;
      }
      var text := Dump(OpenAckValue(handle), fractional);
      Send(OpenAck, text);
      return true;
    }

    method HandlePost(payload: Value) returns (more: bool)
      modifies this
      ensures Did(ReactPost(backend, old(Now()), old(engine), payload, fractional), more)
    {
      hide ErrorFrame, StatusFrame, Encode, Find, TextAt, ReadHandle;
      var handle := ReadHandle(payload);
      if handle.None? {
        SendError(BadArgument);
        return true;
      }
      var action := TextAt(payload, KEY_ACTION);
      if action.None? {
        SendError(BadArgument);
        return true;
      }
      var args := Value.Object([]);
      var given := Find(payload, KEY_ARGS);
      if given.Some? && given.value.Object? { args := given.value; }
      calls := calls + [PostCall(handle.value, action.value, args)];
      var (b, reason) := backend.post(engine, handle.value, action.value, args);
      engine := b;
      if reason.Ok? {
        SendStatus(handle.value, reason);
      } else {
        SendError(reason);
      }
      return true;
    }

    method HandleSet(payload: Value) returns (more: bool)
      modifies this
      ensures Did(ReactSet(backend, old(Now()), old(engine), payload, fractional), more)
    {
      hide ErrorFrame, StatusFrame, Encode, Find, TextAt, ReadHandle;
      var handle := ReadHandle(payload);
      if handle.None? {
        SendError(BadArgument);
        return true;
      }
      var param := TextAt(payload, KEY_PARAM);
      if param.None? {
        SendError(BadArgument);
        return true;
      }
      var value := Find(payload, KEY_VALUE);
      if value.None? || !value.value.Number? {
        SendError(BadArgument);
        return true;
      }
      if !InUnitInterval(value.value.n) {
        SendError(BadArgument);
        return true;
      }
      var level := value.value.n.r;
      calls := calls + [SetCall(handle.value, param.value, level)];
      var (b, reason) := backend.setLevel(engine, handle.value, param.value, level);
      engine := b;
      if reason.Ok? {
        SendStatus(handle.value, reason);
      } else {
        SendError(reason);
      }
      return true;
    }

    method HandleClose(payload: Value) returns (more: bool)
      modifies this
      ensures Did(ReactClose(backend, old(Now()), old(engine), payload, fractional), more)
    {
      hide ErrorFrame, StatusFrame, Encode, Find, TextAt, ReadHandle;
      var handle := ReadHandle(payload);
      if handle.None? {
        SendError(BadArgument);
        return true;
      }
      calls := calls + [CloseCall(handle.value)];
      var (b, reason) := backend.closeTarget(engine, handle.value);
      engine := b;
      if reason.Ok? {
        SendStatus(handle.value, reason);
      } else {
        SendError(reason);
      }
      return true;
    }

    method HandleDiagRequest(payload: Value) returns (more: bool)
      modifies this
      ensures Did(ReactDiag(backend, old(Now()), old(engine), payload, fractional), more)
    {
      hide DiagValue, ErrorFrame, Encode, Find;
      var enable := Find(payload, KEY_ENABLE);
      var wanted := Find(payload, KEY_IDENTIFY);
      if enable.Some? && enable.value.Bool? {
        diagnose := enable.value.b;
        if !diagnose { identify := false; }
      }
      if wanted.Some? && wanted.value.Bool? && wanted.value.b {
        if !diagnose {
          SendError(DiagDisabled);
          return true;
        }
        identify := true;
      }
      var querying := enable.None? && wanted.None?;
      if querying && !diagnose {
        SendError(DiagDisabled);
        return true;
      }
      calls := calls + [DiagCall];
      var text := Dump(DiagValue(backend, engine, Now()), fractional);
      Send(DiagReply, text);
      return true;
    }
  }
}
