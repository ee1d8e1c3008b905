/**
 The station as it is deployed: the session over the probing backend, with
 profiles read from a UTF-8 document.  All that is left to ask of it is that its
 reports, CAPS_REPLY and DIAG_REPLY, fit the frame budget.
 */
module Deployment {
  import opened Text
  import opened JsonValue
  import opened Utf8
  import opened JsonReader
  import opened JsonText
  import opened JsonPrinter
  import opened Frames
  import opened Messages
  import S = Session
  import opened SessionRuns
  import opened SessionReplies
  import opened ReplyText
  import opened Profiles
  import opened Prober
  import opened ProbingBackend
  import opened Handles
  import opened Pairing

  // ---------------------------------------------------------- UTF-8 names

  lemma FindUtf8(v: Value, key: Bytes)
    requires Utf8Value(v) && Find(v, key).Some?
    ensures Utf8Value(Find(v, key).value)
  {
  }

  lemma ReadProfileUtf8(raw: Value)
    requires Utf8Value(raw) && ReadProfile(raw).Some?
    ensures WellFormed(ReadProfile(raw).value.capabilityClass)
  {
    hide WellFormed, Find, ReadBindings;
    FindUtf8(raw, KEY_CLASS);
  }

  predicate ClassesUtf8(ps: seq<Profile>) { forall p | p in ps :: WellFormed(p.capabilityClass) }

  lemma {:induction false} ReadListUtf8(raws: seq<Value>)
    requires (forall i | 0 <= i < |raws| :: Utf8Value(raws[i])) && ReadProfileList(raws).Some?
    ensures ClassesUtf8(ReadProfileList(raws).value)
  {
    hide WellFormed, ReadProfile, Utf8Value;
    if raws != [] {
      var n := |raws| - 1;
      ReadListUtf8(raws[..n]);
      ReadProfileUtf8(raws[n]);
    }
  }

  /** Profiles read from a UTF-8 document name their classes in UTF-8. */
  lemma ReadProfilesUtf8(text: Bytes)
    requires WellFormed(text) && ReadProfiles(text).Some?
    ensures ClassesUtf8(ReadProfiles(text).value)
  {
    hide WellFormed, Parse, ReadProfileList, Find;
    ParseKeepsUtf8(text);
    FindUtf8(Parse(text).value, KEY_PROFILES);
    ReadListUtf8(ArrayField(Parse(text).value, KEY_PROFILES).value);
  }

  /** The profiles of a setup come from a UTF-8 document, or there are none. */
  predicate FromUtf8(s: Setup, text: Bytes) {
    s.profiles == [] || (WellFormed(text) && ReadProfiles(text) == Some(s.profiles))
  }

  lemma EngineProfilesKnown(s: Setup)
    ensures forall p | p in Probe(s).engine.profiles :: p in s.profiles
  {
    hide FirstFit, RecordProfiles;
    var cs := Scanner.Candidates(Examined(s));
    var k := FirstFit(cs, s.profiles, s.load);
    if s.profiles != [] && k < |cs| { SatisfiedIsFilter(s.load(cs[k].path).value, s.profiles); }
  }

  lemma LimitsUtf8(s: Setup)
    ensures Utf8Value(LimitsValue(s))
  {
    hide JsonValue.Set;
    var empty := Value.Object([]);
    FlatUtf8(empty);
    SetFlag(empty, Ascii("max_candidates"), Integer(s.limits.maxFiles));
    SetFlag(JsonValue.Set(empty, Ascii("max_candidates"), Integer(s.limits.maxFiles)),
            Ascii("max_scan_depth"), Integer(s.limits.maxDepth));
  }

  /** Whatever its table, the backend names classes and limits in UTF-8. */
  lemma BackendUtf8(s: Setup, fw: nat, dr: nat, text: Bytes, t: Table)
    requires FromUtf8(s, text)
    ensures Utf8At(Operations(s, fw, dr), t)
  {
    hide WellFormed, ReadProfiles, Utf8Value, LimitsValue, CarriesAudio, Probe;
    if s.profiles != [] { ReadProfilesUtf8(text); }
    EngineProfilesKnown(s);
    LimitsUtf8(s);
    AsciiUtf8(BULK_CAPABILITY_CLASS);
    var names := OfferedClasses(s);
    var ps := Probe(s).engine.profiles;
    forall i | 0 <= i < |names| ensures WellFormed(names[i]) {
      if i < |ps| { assert ps[i] in ps; }
    }
  }

  // --------------------------------------------------------- sizes of replies

  function Ten(k: nat): nat { if k == 0 then 1 else 10 * Ten(k - 1) }

  lemma {:induction false} NatTextLength(n: nat, k: nat)
    requires k > 0 && n < Ten(k)
    ensures |NatText(n)| <= k
  {
    if n >= 10 { NatTextLength(n / 10, k - 1); }
  }

  lemma IntegerLength(n: nat, f: Formatter)
    requires n < 0x1_0000_0000
    ensures |ValueText(Integer(n), f)| <= 10
  {
    hide NatText;
    assert Ten(5) == 100000 && Ten(10) == 100000 * Ten(5);
    NatTextLength(n, 10);
    HostJson.IntegerPrintsAsInteger(n);
  }

  lemma {:induction false} EscapedLength(s: Bytes)
    ensures |EscapedText(s)| <= 6 * |s|
  {
    if s != [] { EscapedLength(s[..|s| - 1]); }
  }

  lemma MemberLength(m: Member, f: Formatter)
    ensures |MemberText(m, f)| <= 6 * |m.key| + 3 + |ValueText(m.value, f)|
  {
    hide ValueText, EscapedText;
    EscapedLength(m.key);
  }

  lemma TwoMembersLength(k: Bytes, a: Value, l: Bytes, b: Value, f: Formatter)
    requires k != l
    ensures |ValueText(JsonValue.Set(JsonValue.Set(Value.Object([]), k, a), l, b), f)|
         <= 6 * (|k| + |l|) + 9 + |ValueText(a, f)| + |ValueText(b, f)|
    ensures |ValueText(JsonValue.Set(Value.Object([]), k, a), f)| <= 6 * |k| + 5 + |ValueText(a, f)|
  {
    hide JsonValue.Set, ValueText, MemberText;
    var m, p := Member(k, a), Member(l, b);
    TwoMembers(k, a, l, b);
    OneMember(k, a);
    MemberLength(m, f);
    MemberLength(p, f);
    assert [m, p][1..] == [p];
    HostJson.ObjectText([m, p], f);
    HostJson.ObjectText([m], f);
  }

  lemma OneMember(k: Bytes, a: Value)
    ensures JsonValue.Set(Value.Object([]), k, a) == Value.Object([Member(k, a)])
  {
    assert [] + [Member(k, a)] == [Member(k, a)];
  }

  /** Well within any budget. */
  predicate Small(payload: Bytes) { |payload| < 1000 }

  lemma SummaryLength(reason: Reason)
    ensures |ReasonSummary(reason)| <= 64
  {
  }

  lemma TextLength(s: Bytes, f: Formatter)
    ensures |ValueText(Value.String(s), f)| <= 6 * |s| + 2
  {
    EscapedLength(s);
  }

  lemma EmptyArrayLength(f: Formatter)
    ensures |ValueText(Value.Array([]), f)| == 2
  {
  }

  lemma KeyLengths()
    ensures |S.KEY_REASON| <= 8 && |S.KEY_DETAIL| <= 8 && |S.KEY_HANDLE| <= 8 && |S.KEY_REVISION| <= 8
    ensures |S.KEY_FEATURES| <= 8
  {
  }

  lemma ErrorSmall(reason: Reason, f: Formatter)
    ensures Small(S.ErrorFrame(reason, f).payload)
  {
    hide JsonValue.Set, ValueText, ReasonSummary;
    SessionReplies.KeysDiffer();
    KeyLengths();
    SummaryLength(reason);
    TextLength(ReasonSummary(reason), f);
    IntegerLength(ReasonCode(reason), f);
    TwoMembersLength(S.KEY_REASON, Integer(ReasonCode(reason)), S.KEY_DETAIL, Value.String(ReasonSummary(reason)), f);
  }

  lemma StatusSmall(handle: S.Handle, f: Formatter)
    ensures Small(S.StatusFrame(handle, Ok, f).payload)
  {
    hide JsonValue.Set, ValueText;
    SessionReplies.KeysDiffer();
    KeyLengths();
    IntegerLength(handle, f);
    IntegerLength(0, f);
    TwoMembersLength(S.KEY_HANDLE, Integer(handle), S.KEY_REASON, Integer(0), f);
  }

  lemma AcksSmall(handle: S.Handle, f: Formatter)
    ensures Small(ValueText(S.OpenAckValue(handle), f))
    ensures Small(ValueText(S.HelloAckValue(1), f))
  {
    hide JsonValue.Set, ValueText;
    SessionReplies.KeysDiffer();
    KeyLengths();
    IntegerLength(handle, f);
    IntegerLength(1, f);
    EmptyArrayLength(f);
    TwoMembersLength(S.KEY_HANDLE, Integer(handle), S.KEY_REASON, Integer(0), f);
    TwoMembersLength(S.KEY_REVISION, Integer(1), S.KEY_FEATURES, Value.Array([]), f);
  }

  predicate IsReport(kind: MessageType) { kind.CapsReply? || kind.DiagReply? }

  /** A reply that is no report is small. */
  predicate SmallOrReport(reply: Frame) { IsReport(reply.kind) || Small(reply.payload) }

  lemma RefusalSmall(reply: Frame, f: Formatter)
    requires IsRefusal(reply, f)
    ensures Small(reply.payload)
  {
    hide S.ErrorFrame, Small;
    var reason: Reason :| !reason.Ok? && reply == S.ErrorFrame(reason, f);
    ErrorSmall(reason, f);
  }

  lemma OpenSmall<B>(backend: S.Backend<B>, st: S.State, b: B, payload: Value, f: Formatter)
    ensures var r := S.ReactOpen(backend, st, b, payload, f); r.reply.Some? && Small(r.reply.value.payload)
  {
    hide S.ReactOpen, IsRefusal, ValueText, Small, S.OpenAckValue;
    OpenReply(backend, st, b, payload, f);
    var r := S.ReactOpen(backend, st, b, payload, f);
    if IsRefusal(r.reply.value, f) {
      RefusalSmall(r.reply.value, f);
    } else {
      var kind: Bytes, name: Bytes :|
        var given := backend.openTarget(b, kind, name);
        && r.calls == [S.OpenCall(kind, name)] && given.1 != 0 && r.engine == given.0
        && r.reply.value == Frame(OpenAck, ValueText(S.OpenAckValue(given.1), f));
      AcksSmall(backend.openTarget(b, kind, name).1, f);
    }
  }

  lemma HandleSmall<B>(backend: S.Backend<B>, st: S.State, b: B, kind: MessageType, payload: Value, f: Formatter)
    requires kind in {MessageType.Post, MessageType.Set, MessageType.Close}
    ensures var r := S.ReactLive(backend, st, b, kind, payload, f); r.reply.Some? && Small(r.reply.value.payload)
  {
    hide S.ReactLive, IsRefusal, S.StatusFrame, S.ReadHandle, Small;
    HandleReply(backend, st, b, kind, payload, f);
    var r := S.ReactLive(backend, st, b, kind, payload, f);
    if IsRefusal(r.reply.value, f) {
      RefusalSmall(r.reply.value, f);
    } else {
      StatusSmall(S.ReadHandle(payload).value, f);
    }
  }

  lemma LiveSmall<B>(backend: S.Backend<B>, st: S.State, b: B, kind: MessageType, payload: Value, f: Formatter)
    ensures var r := S.ReactLive(backend, st, b, kind, payload, f); r.reply.Some? && SmallOrReport(r.reply.value)
  {
    hide S.ReactLive, S.ReactOpen, IsRefusal, Small, ValueText;
    if kind in {MessageType.Post, MessageType.Set, MessageType.Close} {
      HandleSmall(backend, st, b, kind, payload, f);
    } else if kind.Open? {
      LiveOpen(backend, st, b, payload, f);
      OpenSmall(backend, st, b, payload, f);
    } else {
      OtherReply(backend, st, b, kind, payload, f);
      var r := S.ReactLive(backend, st, b, kind, payload, f);
      if IsRefusal(r.reply.value, f) { RefusalSmall(r.reply.value, f); }
    }
  }

  lemma HelloSmall<B>(st: S.State, b: B, payload: Bytes, f: Formatter)
    ensures var r := S.ReactHello(st, b, payload, f); r.reply.Some? && Small(r.reply.value.payload)
  {
    hide S.ReactHello, IsRefusal, ValueText, Small, S.HelloAckValue;
    HelloReply(st, b, payload, f);
    var r := S.ReactHello(st, b, payload, f);
    if IsRefusal(r.reply.value, f) { RefusalSmall(r.reply.value, f); } else { AcksSmall(0, f); }
  }

  /** Only CAPS_REPLY and DIAG_REPLY can be over the budget, for any backend. */
  lemma OnlyReportsCanBeLarge<B>(backend: S.Backend<B>, st: S.State, b: B, frame: Frame, f: Formatter)
    ensures var r := S.React(backend, st, b, frame, f);
            r.reply.Some? && !IsReport(r.reply.value.kind) ==> WithinBudget(r.reply.value)
  {
    hide S.ErrorFrame, ValueText, S.ParsePayload, S.ReactHello, S.ReactLive;
    ErrorSmall(BadArgument, f);
    HelloSmall(st, b, frame.payload, f);
    var payload := S.ParsePayload(frame.payload);
    if payload.Some? { LiveSmall(backend, st, b, frame.kind, payload.value, f); }
  }

  // ------------------------------------------------------------- end to end

  /** The composed system with this station. */
  function Deployed(s: Setup, fw: nat, dr: nat, f: Formatter): World<Table> {
    World(Operations(s, fw, dr), EMPTY, f)
  }

  /** Every report so far fits the frame budget. */
  ghost predicate ReportsFit(w: World<Table>, handled: seq<Frame>) {
    forall j | 0 <= j < |handled| :: ReportFits(ReplyTo(w, handled, j))
  }

  predicate ReportFits(reply: Option<Frame>) {
    reply.Some? && IsReport(reply.value.kind) ==> WithinBudget(reply.value)
  }

  lemma ReplyGood(s: Setup, fw: nat, dr: nat, text: Bytes, f: Formatter, handled: seq<Frame>, j: nat)
    requires FromUtf8(s, text) && WritesNumbers(f) && j < |handled|
    ensures var reply := ReplyTo(Deployed(s, fw, dr, f), handled, j); Good(reply) <==> ReportFits(reply)
  {
    hide S.React, Operations, FromUtf8, WritesNumbers, WithinBudget, WellFormed, Utf8At, IsReport;
    var w := Deployed(s, fw, dr, f);
    var upto := handled[..j + 1];
    assert upto[..j] == handled[..j];
    var (st, t) := SessionRuns.After(w.backend, w.start, upto[..j], f);
    BackendUtf8(s, fw, dr, text, t);
    Utf8BackendsAreGood(w, handled, j);
    OnlyReportsCanBeLarge(w.backend, st, t, upto[j], f);
  }

  /**
   For the station as deployed, any steps from the start in which the reports fit
   make a run: every request completes, with its own reply, as shown of runs.
   */
  lemma DeployedRuns(s: Setup, fw: nat, dr: nat, text: Bytes, f: Formatter, run: seq<System<Table>>)
    requires FromUtf8(s, text) && WritesNumbers(f)
    requires var w := Deployed(s, fw, dr, f);
             && run != [] && run[0] == Initial(w)
             && (forall i | 0 <= i < |run| - 1 :: CanStep(w, run[i], run[i + 1]))
    ensures var w := Deployed(s, fw, dr, f);
            IsRun(w, run) <==> forall i | 0 <= i < |run| :: ReportsFit(w, run[i].handled)
  {
    hide CanStep, Good, ReportFits, ReplyTo, FromUtf8, WritesNumbers, Operations;
    var w := Deployed(s, fw, dr, f);
    forall i | 0 <= i < |run| ensures GoodReplies(w, run[i].handled) <==> ReportsFit(w, run[i].handled) {
      forall j | 0 <= j < |run[i].handled|
        ensures Good(ReplyTo(w, run[i].handled, j)) <==> ReportFits(ReplyTo(w, run[i].handled, j))
      {
        ReplyGood(s, fw, dr, text, f, run[i].handled, j);
      }
    }
  }
}
