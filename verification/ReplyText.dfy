/**
 Every reply of a session is a JSON object the host can decode, and UTF-8 when
 the backend's names are.
 */
module ReplyText {
  import opened Text
  import opened JsonValue
  import opened Utf8
  import opened JsonText
  import opened JsonPrinter
  import opened JsonRoundTrip
  import opened HostJson
  import opened Frames
  import opened FramesDart
  import opened Messages
  import opened Session
  import opened SessionReplies

  /** The formatter of fractional numbers writes numbers of the grammar, as `%.17g` does. */
  ghost predicate WritesNumbers(f: Formatter) { forall r: real :: IsNumber(f(r)) }

  lemma {:induction false} AllPrintable(v: Value, f: Formatter)
    requires WritesNumbers(f)
    ensures Printable(v, f)
    decreases v
  {
    hide IsNumber;
    match v
    case Array(items) =>
      forall i | 0 <= i < |items| ensures Printable(items[i], f) { AllPrintable(items[i], f); }
    case Object(members) =>
      forall i | 0 <= i < |members| ensures Printable(members[i].value, f) { AllPrintable(members[i].value, f); }
    case _ =>
  }

  /** A backend that names its classes and limits in UTF-8, where it stands. */
  predicate Utf8At<B>(backend: Backend<B>, b: B) {
    Utf8Names(backend.classes(b)) && Utf8Value(backend.limits(b))
  }

  predicate Utf8Names(names: seq<Bytes>) { forall i | 0 <= i < |names| :: WellFormed(names[i]) }

  /** An empty payload, or the text of an object, in UTF-8 if `utf8` says so. */
  ghost predicate PrintsObject(payload: Bytes, f: Formatter, utf8: bool) {
    payload == [] || exists v: Value :: v.Object? && (utf8 ==> Utf8Value(v)) && payload == ValueText(v, f)
  }

  // ------------------------------------------------------------- the values

  lemma SetKeeps(v: Value, key: Bytes, value: Value)
    requires v.Object?
    ensures JsonValue.Set(v, key, value).Object?
    ensures Utf8Value(v) && WellFormed(key) && Utf8Value(value) ==> Utf8Value(JsonValue.Set(v, key, value))
  {
    hide WellFormed;
  }

  lemma KeyUtf8(key: AsciiText)
    ensures WellFormed(key)
  {
    AsciiUtf8(key);
  }

  lemma SetFlag(v: Value, key: AsciiText, value: Value)
    requires v.Object? && (value.Bool? || value.Number? || value == Value.Array([]))
    ensures JsonValue.Set(v, key, value).Object?
    ensures Utf8Value(v) ==> Utf8Value(JsonValue.Set(v, key, value))
  {
    hide WellFormed, JsonValue.Set;
    KeyUtf8(key);
    SetKeeps(v, key, value);
  }

  lemma FlatUtf8(value: Value)
    requires value.Bool? || value.Number? || value == Value.Array([]) || value == Value.Object([])
    ensures Utf8Value(value)
  {
  }

  lemma ErrorPrints(reason: Reason, f: Formatter)
    ensures PrintsObject(ErrorFrame(reason, f).payload, f, true)
  {
    hide ValueText, JsonValue.Set, WellFormed;
    var empty, code, text := Value.Object([]), Integer(ReasonCode(reason)), Value.String(ReasonSummary(reason));
    KeyUtf8(ReasonSummary(reason));
    FlatUtf8(empty);
    SetFlag(empty, KEY_REASON, code);
    KeyUtf8(KEY_DETAIL);
    SetKeeps(JsonValue.Set(empty, KEY_REASON, code), KEY_DETAIL, text);
    assert ErrorValue(reason).Object? && Utf8Value(ErrorValue(reason));
  }

  lemma TwoFlagsPrint(k: AsciiText, a: Value, l: AsciiText, b: Value, f: Formatter)
    requires a.Number? && (b.Number? || b == Value.Array([]))
    ensures PrintsObject(ValueText(JsonValue.Set(JsonValue.Set(Value.Object([]), k, a), l, b), f), f, true)
    ensures PrintsObject(ValueText(JsonValue.Set(Value.Object([]), k, a), f), f, true)
  {
    hide ValueText, JsonValue.Set;
    var empty := Value.Object([]);
    FlatUtf8(empty);
    SetFlag(empty, k, a);
    SetFlag(JsonValue.Set(empty, k, a), l, b);
  }

  lemma StatusPrints(handle: Handle, reason: Reason, f: Formatter)
    ensures PrintsObject(StatusFrame(handle, reason, f).payload, f, true)
  {
    hide ValueText, PrintsObject;
    TwoFlagsPrint(KEY_HANDLE, Integer(handle), KEY_REASON, Integer(ReasonCode(reason)), f);
  }

  lemma AcksPrint(revision: int, handle: Handle, f: Formatter)
    ensures PrintsObject(ValueText(HelloAckValue(revision), f), f, true)
    ensures PrintsObject(ValueText(OpenAckValue(handle), f), f, true)
  {
    hide ValueText, PrintsObject;
    TwoFlagsPrint(KEY_REVISION, Integer(revision), KEY_FEATURES, Value.Array([]), f);
    TwoFlagsPrint(KEY_HANDLE, Integer(handle), KEY_REASON, Integer(0), f);
  }

  lemma StringsUtf8(names: seq<Bytes>)
    requires Utf8Names(names)
    ensures Utf8Value(Strings(names))
  {
  }

  lemma CapsPrints<B>(backend: Backend<B>, b: B, f: Formatter)
    ensures PrintsObject(ValueText(CapsValue(backend, b), f), f, Utf8At(backend, b))
  {
    hide ValueText, JsonValue.Set, WellFormed;
    var v0 := Value.Object([]);
    FlatUtf8(v0);
    if Utf8At(backend, b) { StringsUtf8(backend.classes(b)); }
    KeyUtf8(KEY_CLASSES);
    KeyUtf8(KEY_LIMITS);
    SetKeeps(v0, KEY_CLASSES, Strings(backend.classes(b)));
    var v1 := JsonValue.Set(v0, KEY_CLASSES, Strings(backend.classes(b)));
    SetKeeps(v1, KEY_LIMITS, backend.limits(b));
    SetFlag(JsonValue.Set(v1, KEY_LIMITS, backend.limits(b)), KEY_BULK, Value.Bool(backend.bulk(b)));
  }

  lemma DiagPrints<B>(backend: Backend<B>, b: B, st: State, f: Formatter)
    ensures PrintsObject(ValueText(DiagValue(backend, b, st), f), f, Utf8At(backend, b))
  {
    hide ValueText, JsonValue.Set, WellFormed, Strings, Utf8Value;
    var v0 := Value.Object([]);
    FlatUtf8(v0);
    var v1 := DiagFlag(v0, KEY_DIAGNOSE, Value.Bool(st.diagnose));
    var v2 := DiagFlag(v1, KEY_IDENTIFY, Value.Bool(st.identify));
    var v3 := DiagFlag(v2, KEY_REVISION, Integer(st.revision));
    var v4 := DiagFlag(v3, KEY_TARGETS, Integer(backend.targets(b)));
    var v5 := DiagFlag(v4, KEY_SYMBOLS_RESOLVED, Integer(backend.symbols(b)));
    var v6 := DiagFlag(v5, KEY_FILES_EXAMINED, Integer(backend.files(b)));
    var v7 := DiagFlag(v6, KEY_CANDIDATES_FOUND, Integer(backend.candidates(b)));
    var v8 := DiagFlag(v7, KEY_DISCOVERY_TRUNCATED, Value.Bool(backend.truncated(b)));
    var v9 := DiagFlag(v8, KEY_BULK, Value.Bool(backend.bulk(b)));
    var v10 := DiagFlag(v9, KEY_BULK_BYTES_FORWARDED, Integer(backend.bytesForwarded(b)));
    var v11 := DiagFlag(v10, KEY_BULK_BYTES_DROPPED, Integer(backend.bytesDropped(b)));
    if Utf8At(backend, b) { StringsUtf8(backend.classes(b)); }
    KeyUtf8(KEY_CLASSES);
    SetKeeps(v11, KEY_CLASSES, Strings(backend.classes(b)));
  }

  /** One more member of a report. */
  lemma DiagFlag(v: Value, key: AsciiText, value: Value) returns (r: Value)
    requires v.Object? && (value.Bool? || value.Number?) && Utf8Value(v)
    ensures r == JsonValue.Set(v, key, value) && r.Object? && Utf8Value(r)
  {
    hide JsonValue.Set, Utf8Value;
    r := JsonValue.Set(v, key, value);
    SetFlag(v, key, value);
  }

  // ------------------------------------------------------------- the replies

  lemma RefusalPrints(reply: Frame, f: Formatter)
    requires IsRefusal(reply, f)
    ensures PrintsObject(reply.payload, f, true)
  {
    hide ErrorFrame, PrintsObject;
    var reason: Reason :| !reason.Ok? && reply == ErrorFrame(reason, f);
    ErrorPrints(reason, f);
  }

  lemma OpenPrints<B>(backend: Backend<B>, st: State, b: B, payload: Value, f: Formatter)
    ensures var r := ReactOpen(backend, st, b, payload, f);
            r.reply.Some? && PrintsObject(r.reply.value.payload, f, true)
  {
    hide ReactOpen, IsRefusal, ValueText, PrintsObject, OpenAckValue;
    OpenReply(backend, st, b, payload, f);
    var r := ReactOpen(backend, st, b, payload, f);
    if IsRefusal(r.reply.value, f) {
      RefusalPrints(r.reply.value, f);
    } else {
      var kind: Bytes, name: Bytes :|
        var given := backend.openTarget(b, kind, name);
        && r.calls == [OpenCall(kind, name)] && given.1 != 0 && r.engine == given.0
        && r.reply.value == Frame(OpenAck, ValueText(OpenAckValue(given.1), f));
      AcksPrint(0, backend.openTarget(b, kind, name).1, f);
    }
  }

  lemma HandlePrints<B>(backend: Backend<B>, st: State, b: B, kind: MessageType, payload: Value, f: Formatter)
    requires kind in {MessageType.Post, MessageType.Set, MessageType.Close}
    ensures var r := ReactLive(backend, st, b, kind, payload, f);
            r.reply.Some? && PrintsObject(r.reply.value.payload, f, true)
  {
    hide ReactLive, IsRefusal, StatusFrame, ReadHandle, PrintsObject;
    HandleReply(backend, st, b, kind, payload, f);
    var r := ReactLive(backend, st, b, kind, payload, f);
    if IsRefusal(r.reply.value, f) {
      RefusalPrints(r.reply.value, f);
    } else {
      StatusPrints(ReadHandle(payload).value, Ok, f);
    }
  }

  lemma DiagReplyPrints<B>(backend: Backend<B>, st: State, b: B, payload: Value, f: Formatter)
    ensures var r := ReactDiag(backend, st, b, payload, f);
            r.reply.Some? && PrintsObject(r.reply.value.payload, f, Utf8At(backend, b))
  {
    hide ErrorFrame, ValueText, Find, DiagValue, PrintsObject, Utf8At, Enabled;
    Weakens(f);
    ErrorPrints(DiagDisabled, f);
    forall state: State ensures PrintsObject(ValueText(DiagValue(backend, b, state), f), f, Utf8At(backend, b)) {
      DiagPrints(backend, b, state, f);
    }
  }

  lemma LivePrints<B>(backend: Backend<B>, st: State, b: B, kind: MessageType, payload: Value, f: Formatter)
    ensures var r := ReactLive(backend, st, b, kind, payload, f);
            r.reply.Some? && PrintsObject(r.reply.value.payload, f, Utf8At(backend, b))
  {
    hide ErrorFrame, ValueText, CapsValue, PrintsObject, Utf8At, ReactOpen, ReactPost, ReactSet, ReactClose, ReactDiag;
    Weakens(f);
    ErrorPrints(UnsupportedOperation, f);
    CapsPrints(backend, b, f);
    OpenPrints(backend, st, b, payload, f);
    DiagReplyPrints(backend, st, b, payload, f);
    if kind in {MessageType.Post, MessageType.Set, MessageType.Close} {
      HandlePrints(backend, st, b, kind, payload, f);
    }
  }

  lemma Weakens(f: Formatter)
    ensures forall payload: Bytes, utf8: bool :: PrintsObject(payload, f, true) ==> PrintsObject(payload, f, utf8)
  {
  }

  /** Every reply has no payload or the text of an object. */
  lemma ReplyPrints<B>(backend: Backend<B>, st: State, b: B, frame: Frame, f: Formatter)
    ensures var r := React(backend, st, b, frame, f);
            r.reply.Some? ==> PrintsObject(r.reply.value.payload, f, Utf8At(backend, b))
  {
    hide ErrorFrame, ValueText, ParsePayload, Find, Offered, BestRevision, HelloAckValue, ReactLive, Utf8At;
    var payload := ParsePayload(frame.payload);
    if payload.Some? { LivePrints(backend, st, b, frame.kind, payload.value, f); }
    hide PrintsObject;
    Weakens(f);
    EmptyPrints(f);
    forall reason: Reason ensures PrintsObject(ErrorFrame(reason, f).payload, f, true) { ErrorPrints(reason, f); }
    forall revision: int ensures PrintsObject(ValueText(HelloAckValue(revision), f), f, true) {
      AcksPrint(revision, 0, f);
    }
  }

  lemma EmptyPrints(f: Formatter)
    ensures PrintsObject([], f, true)
  {
  }

  /** The host can decode every reply that is UTF-8, and every reply of a UTF-8 backend is. */
  lemma RepliesReadable<B>(backend: Backend<B>, st: State, b: B, frame: Frame, f: Formatter)
    requires WritesNumbers(f)
    ensures var r := React(backend, st, b, frame, f);
            r.reply.Some? ==>
              && (Read(r.reply.value, IsObject) == Reading.Fine <==> WellFormed(r.reply.value.payload))
              && (Utf8At(backend, b) ==> WellFormed(r.reply.value.payload))
  {
    hide React, IsObject, WellFormed, ValueText, WritesNumbers, Utf8Value, Utf8At;
    ReplyPrints(backend, st, b, frame, f);
    var r := React(backend, st, b, frame, f);
    EmptyUtf8();
    if r.reply.Some? && r.reply.value.payload != [] {
      var v: Value :| v.Object? && (Utf8At(backend, b) ==> Utf8Value(v)) && r.reply.value.payload == ValueText(v, f);
      AllPrintable(v, f);
      PrintedObject(v, f);
      if Utf8At(backend, b) { TextUtf8(v, f); }
    }
  }
}
