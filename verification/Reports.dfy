/**
 The two reports, read back: what a host finds under each name in CAPS_REPLY and
 DIAG_REPLY, for any backend and for the station as deployed.
 */
module Reports {
  import opened Text
  import opened JsonValue
  import opened JsonReader
  import opened JsonPrinter
  import opened JsonRoundTrip
  import opened Messages
  import opened Session
  import HostJson
  import Scanner
  import opened Prober
  import opened ProbingBackend
  import opened Handles

  /** Objects that are printed and read back as they are. */
  predicate Exact(v: Value) { v.Object? && Integral(v) && Height(v) <= 64 }

  ghost predicate Prints(v: Value) { Exact(v) && Proper(v) }

  predicate Simple(v: Value) { Integral(v) && Height(v) <= 63 }

  lemma {:induction false} SetHeight(members: seq<Member>, key: Bytes, value: Value)
    ensures MembersHeight(SetMember(members, key, value)) <= if MembersHeight(members) < Height(value) then Height(value) else MembersHeight(members)
  {
    var i := IndexOf(members, key);
    var after := SetMember(members, key, value);
    var bound := if MembersHeight(members) < Height(value) then Height(value) else MembersHeight(members);
    forall j | 0 <= j < |after| ensures Height(after[j].value) <= bound {
      if j < |members| && j != i { assert after[j] == members[j]; }
    }
    HeightLeast(after, bound);
  }

  lemma {:induction false} HeightLeast(members: seq<Member>, bound: nat)
    requires forall i | 0 <= i < |members| :: Height(members[i].value) <= bound
    ensures MembersHeight(members) <= bound
  {
    if members != [] { HeightLeast(members[1..], bound); }
  }

  lemma SetReads(v: Value, key: Bytes, value: Value)
    requires Prints(v) && Proper(value) && Simple(value)
    ensures var w := JsonValue.Set(v, key, value);
            && Prints(w)
            && forall other :: Find(w, other) == if other == key then Some(value) else Find(v, other)
  {
    hide Height, MembersHeight, FindMember;
    SetMemberEffect(v.members, key, value);
    SetHeight(v.members, key, value);
    SetPlain(v.members, key, value);
    ObjectHeight(v.members);
    ObjectHeight(SetMember(v.members, key, value));
  }

  lemma ObjectHeight(members: seq<Member>)
    ensures Height(Value.Object(members)) <= 1 + MembersHeight(members)
    ensures MembersHeight(members) <= if Height(Value.Object(members)) == 0 then 0 else Height(Value.Object(members)) - 1
  {
  }

  lemma SetPlain(members: seq<Member>, key: Bytes, value: Value)
    requires forall i | 0 <= i < |members| :: Proper(members[i].value) && Integral(members[i].value)
    requires Proper(value) && Integral(value)
    ensures var after := SetMember(members, key, value);
            forall i | 0 <= i < |after| :: Proper(after[i].value) && Integral(after[i].value)
  {
    hide Proper, Integral;
    var after, i := SetMember(members, key, value), IndexOf(members, key);
    forall j | 0 <= j < |after| ensures Proper(after[j].value) && Integral(after[j].value) {
      if j < |members| && j != i { assert after[j] == members[j]; }
    }
  }

  lemma EmptyPrints()
    ensures Prints(Value.Object([])) && forall key :: Find(Value.Object([]), key).None?
  {
  }

  lemma CountSimple(n: nat)
    requires n < 1_000_000_000_000_000
    ensures Simple(Integer(n)) && Proper(Integer(n))
  {
    HostJson.IntegerPrintsAsInteger(n);
  }

  lemma FlagSimple(b: bool)
    ensures Simple(Value.Bool(b)) && Proper(Value.Bool(b))
  {
  }

  lemma StringsSimple(names: seq<Bytes>)
    ensures Simple(Strings(names)) && Proper(Strings(names))
  {
    StringsFlat(Strings(names).items);
  }

  lemma {:induction false} StringsFlat(items: seq<Value>)
    requires forall i | 0 <= i < |items| :: items[i].String?
    ensures ItemsHeight(items) == 0
  {
    if items != [] { StringsFlat(items[1..]); }
  }

  /** A report is a list of members, set one after the other. */
  function Built(fields: seq<Member>): Value {
    if fields == [] then Value.Object([])
    else JsonValue.Set(Built(fields[..|fields| - 1]), fields[|fields| - 1].key, fields[|fields| - 1].value)
  }

  lemma {:induction false} BuiltReads(fields: seq<Member>)
    requires forall i | 0 <= i < |fields| :: Proper(fields[i].value) && Simple(fields[i].value)
    requires UniqueKeys(fields)
    ensures Prints(Built(fields))
    ensures forall i | 0 <= i < |fields| :: Find(Built(fields), fields[i].key) == Some(fields[i].value)
  {
    hide Prints, Simple, Proper, Find, JsonValue.Set;
    if fields == [] {
      EmptyPrints();
    } else {
      var n := |fields| - 1;
      BuiltReads(fields[..n]);
      SetReads(Built(fields[..n]), fields[n].key, fields[n].value);
      forall i | 0 <= i < |fields| ensures Find(Built(fields), fields[i].key) == Some(fields[i].value) {
        if i < n { assert fields[..n][i] == fields[i]; }
      }
    }
  }

  /** Printed and parsed again, every member is what it was. */
  lemma ReportReads(fields: seq<Member>, f: Formatter)
    requires forall i | 0 <= i < |fields| :: Proper(fields[i].value) && Simple(fields[i].value)
    requires UniqueKeys(fields)
    ensures var read := Parse(ValueText(Built(fields), f));
            read.Some? && forall i | 0 <= i < |fields| :: Find(read.value, fields[i].key) == Some(fields[i].value)
  {
    hide ValueText, Parse, Find, Simple, Proper, Integral, Height;
    BuiltReads(fields);
    RoundTrip(Built(fields), f);
  }

  // ----------------------------------------------------------- diagnostics

  const DIAG_NAMES: seq<AsciiText> := [
    Ascii("diagnose"), Ascii("identify"), Ascii("revision"), Ascii("targets")]

  const COUNT_NAMES: seq<AsciiText> := [
    Ascii("symbols_resolved"), Ascii("files_examined"), Ascii("candidates_found"), Ascii("discovery_truncated")]

  const BULK_NAMES: seq<AsciiText> := [
    Ascii("bulk"), Ascii("bulk_bytes_forwarded"), Ascii("bulk_bytes_dropped"), Ascii("classes")]

  /** The members of a report, in the order they are set. */
  function DiagFields<B>(backend: Backend<B>, b: B, st: State): seq<Member> {
    [ Member(KEY_DIAGNOSE, Value.Bool(st.diagnose)),
      Member(KEY_IDENTIFY, Value.Bool(st.identify)),
      Member(KEY_REVISION, Integer(st.revision)),
      Member(KEY_TARGETS, Integer(backend.targets(b))),
      Member(KEY_SYMBOLS_RESOLVED, Integer(backend.symbols(b))),
      Member(KEY_FILES_EXAMINED, Integer(backend.files(b))),
      Member(KEY_CANDIDATES_FOUND, Integer(backend.candidates(b))),
      Member(KEY_DISCOVERY_TRUNCATED, Value.Bool(backend.truncated(b))),
      Member(KEY_BULK, Value.Bool(backend.bulk(b))),
      Member(KEY_BULK_BYTES_FORWARDED, Integer(backend.bytesForwarded(b))),
      Member(KEY_BULK_BYTES_DROPPED, Integer(backend.bytesDropped(b))),
      Member(KEY_CLASSES, Strings(backend.classes(b)))]
  }

  lemma DiagNames()
    ensures DIAG_NAMES == [KEY_DIAGNOSE, KEY_IDENTIFY, KEY_REVISION, KEY_TARGETS]
    ensures |KEY_DIAGNOSE| == |KEY_IDENTIFY| == |KEY_REVISION| == 8 && |KEY_TARGETS| == 7
    ensures KEY_DIAGNOSE[0] == 'd' as int && KEY_IDENTIFY[0] == 'i' as int && KEY_REVISION[0] == 'r' as int
    ensures KEY_TARGETS[0] == 't' as int
  {
  }

  lemma CountNames()
    ensures COUNT_NAMES == [KEY_SYMBOLS_RESOLVED, KEY_FILES_EXAMINED, KEY_CANDIDATES_FOUND, KEY_DISCOVERY_TRUNCATED]
    ensures |KEY_SYMBOLS_RESOLVED| == |KEY_CANDIDATES_FOUND| == 16 && |KEY_FILES_EXAMINED| == 14
    ensures |KEY_DISCOVERY_TRUNCATED| == 19
    ensures KEY_SYMBOLS_RESOLVED[0] == 's' as int && KEY_CANDIDATES_FOUND[0] == 'c' as int
  {
  }

  lemma BulkNames()
    ensures BULK_NAMES == [KEY_BULK, KEY_BULK_BYTES_FORWARDED, KEY_BULK_BYTES_DROPPED, KEY_CLASSES]
    ensures |KEY_BULK| == 4 && |KEY_BULK_BYTES_FORWARDED| == 20 && |KEY_BULK_BYTES_DROPPED| == 18
    ensures |KEY_CLASSES| == 7 && KEY_CLASSES[0] == 'c' as int
  {
  }

  lemma DiagKeysUnique<B>(backend: Backend<B>, b: B, st: State)
    ensures UniqueKeys(DiagFields(backend, b, st))
  {
    hide Ascii, Strings;
    DiagNames();
    CountNames();
    BulkNames();
    var fields := DiagFields(backend, b, st);
    assert |fields| == 12;
    KeyShapes(fields);
  }

  /** Names that differ in length or in the first character differ. */
  lemma KeyShapes(fields: seq<Member>)
    requires forall i, j | 0 <= i < j < |fields| ::
               |fields[i].key| != |fields[j].key|
               || (fields[i].key != [] && fields[j].key != [] && fields[i].key[0] != fields[j].key[0])
    ensures UniqueKeys(fields)
  {
  }

  lemma BuiltNext(fields: seq<Member>, i: nat)
    requires i < |fields|
    ensures Built(fields[..i + 1]) == JsonValue.Set(Built(fields[..i]), fields[i].key, fields[i].value)
  {
    assert fields[..i + 1][..i] == fields[..i];
  }

  lemma FourNext(fields: seq<Member>, i: nat)
    requires i + 4 <= |fields|
    ensures Built(fields[..i + 4])
         == (var v := JsonValue.Set(Built(fields[..i]), fields[i].key, fields[i].value);
             var v := JsonValue.Set(v, fields[i + 1].key, fields[i + 1].value);
             var v := JsonValue.Set(v, fields[i + 2].key, fields[i + 2].value);
             JsonValue.Set(v, fields[i + 3].key, fields[i + 3].value))
  {
    hide Built, JsonValue.Set;
    BuiltNext(fields, i);
    BuiltNext(fields, i + 1);
    BuiltNext(fields, i + 2);
    BuiltNext(fields, i + 3);
  }

  lemma BuiltFromNothing(fields: seq<Member>)
    ensures Built(fields[..0]) == Value.Object([]) && Built(fields[..|fields|]) == Built(fields)
  {
    assert fields[..|fields|] == fields;
  }

  lemma DiagBuilt<B>(backend: Backend<B>, b: B, st: State)
    ensures DiagValue(backend, b, st) == Built(DiagFields(backend, b, st))
  {
    hide JsonValue.Set, Ascii, Strings, Built;
    var fields := DiagFields(backend, b, st);
    BuiltFromNothing(fields);
    FourNext(fields, 0);
    FourNext(fields, 4);
    FourNext(fields, 8);
  }

  /** What the host finds in a DIAG_REPLY: each of twelve names, and what stands under it. */
  lemma DiagReads<B>(backend: Backend<B>, b: B, st: State, f: Formatter)
    requires 0 <= st.revision < 1_000_000_000_000_000
    requires backend.targets(b) < 1_000_000_000_000_000 && backend.symbols(b) < 1_000_000_000_000_000
    requires backend.files(b) < 1_000_000_000_000_000 && backend.candidates(b) < 1_000_000_000_000_000
    requires backend.bytesForwarded(b) < 1_000_000_000_000_000 && backend.bytesDropped(b) < 1_000_000_000_000_000
    ensures var read := Parse(ValueText(DiagValue(backend, b, st), f));
            && read.Some?
            && Find(read.value, DIAG_NAMES[0]) == Some(Value.Bool(st.diagnose))
            && Find(read.value, DIAG_NAMES[1]) == Some(Value.Bool(st.identify))
            && Find(read.value, DIAG_NAMES[2]) == Some(Integer(st.revision))
            && Find(read.value, DIAG_NAMES[3]) == Some(Integer(backend.targets(b)))
            && Find(read.value, COUNT_NAMES[0]) == Some(Integer(backend.symbols(b)))
            && Find(read.value, COUNT_NAMES[1]) == Some(Integer(backend.files(b)))
            && Find(read.value, COUNT_NAMES[2]) == Some(Integer(backend.candidates(b)))
            && Find(read.value, COUNT_NAMES[3]) == Some(Value.Bool(backend.truncated(b)))
            && Find(read.value, BULK_NAMES[0]) == Some(Value.Bool(backend.bulk(b)))
            && Find(read.value, BULK_NAMES[1]) == Some(Integer(backend.bytesForwarded(b)))
            && Find(read.value, BULK_NAMES[2]) == Some(Integer(backend.bytesDropped(b)))
            && Find(read.value, BULK_NAMES[3]) == Some(Strings(backend.classes(b)))
  {
    hide ValueText, Parse, Find, Ascii, Strings, Simple, Proper, DiagValue, Built, UniqueKeys;
    var fields := DiagFields(backend, b, st);
    DiagBuilt(backend, b, st);
    DiagKeysUnique(backend, b, st);
    DiagSimple(backend, b, st);
    DiagNames();
    CountNames();
    BulkNames();
    assert |fields| == 12;
    ReportReads(fields, f);
    var read := Parse(ValueText(DiagValue(backend, b, st), f)).value;
    assert forall i | 0 <= i < 12 :: Find(read, fields[i].key) == Some(fields[i].value);
    TwelveFields(fields, read);
  }

  lemma TwelveFields(fields: seq<Member>, read: Value)
    requires |fields| == 12 && forall i | 0 <= i < 12 :: Find(read, fields[i].key) == Some(fields[i].value)
    ensures Find(read, fields[0].key) == Some(fields[0].value) && Find(read, fields[1].key) == Some(fields[1].value)
    ensures Find(read, fields[2].key) == Some(fields[2].value) && Find(read, fields[3].key) == Some(fields[3].value)
    ensures Find(read, fields[4].key) == Some(fields[4].value) && Find(read, fields[5].key) == Some(fields[5].value)
    ensures Find(read, fields[6].key) == Some(fields[6].value) && Find(read, fields[7].key) == Some(fields[7].value)
    ensures Find(read, fields[8].key) == Some(fields[8].value) && Find(read, fields[9].key) == Some(fields[9].value)
    ensures Find(read, fields[10].key) == Some(fields[10].value) && Find(read, fields[11].key) == Some(fields[11].value)
  {
  }

  lemma DiagSimple<B>(backend: Backend<B>, b: B, st: State)
    requires 0 <= st.revision < 1_000_000_000_000_000
    requires backend.targets(b) < 1_000_000_000_000_000 && backend.symbols(b) < 1_000_000_000_000_000
    requires backend.files(b) < 1_000_000_000_000_000 && backend.candidates(b) < 1_000_000_000_000_000
    requires backend.bytesForwarded(b) < 1_000_000_000_000_000 && backend.bytesDropped(b) < 1_000_000_000_000_000
    ensures var fields := DiagFields(backend, b, st);
            forall i | 0 <= i < |fields| :: Proper(fields[i].value) && Simple(fields[i].value)
  {
    hide Proper, Simple, Strings, Ascii;
    FlagSimple(st.diagnose);
    FlagSimple(st.identify);
    CountSimple(st.revision);
    CountSimple(backend.targets(b));
    CountSimple(backend.symbols(b));
    CountSimple(backend.files(b));
    CountSimple(backend.candidates(b));
    FlagSimple(backend.truncated(b));
    FlagSimple(backend.bulk(b));
    CountSimple(backend.bytesForwarded(b));
    CountSimple(backend.bytesDropped(b));
    StringsSimple(backend.classes(b));
  }

  // ---------------------------------------------------------- capabilities

  const CAPS_NAMES: seq<AsciiText> := [Ascii("classes"), Ascii("limits"), Ascii("bulk")]

  lemma CapsNames()
    ensures CAPS_NAMES == [KEY_CLASSES, KEY_LIMITS, KEY_BULK]
    ensures |KEY_CLASSES| == 7 && |KEY_LIMITS| == 6 && |KEY_BULK| == 4
  {
  }

  function CapsFields<B>(backend: Backend<B>, b: B): seq<Member> {
    [ Member(KEY_CLASSES, Strings(backend.classes(b))),
      Member(KEY_LIMITS, backend.limits(b)),
      Member(KEY_BULK, Value.Bool(backend.bulk(b)))]
  }

  lemma CapsBuilt<B>(backend: Backend<B>, b: B)
    ensures CapsValue(backend, b) == Built(CapsFields(backend, b))
  {
    hide JsonValue.Set, Ascii, Strings, Built;
    var fields := CapsFields(backend, b);
    BuiltFromNothing(fields);
    BuiltNext(fields, 0);
    BuiltNext(fields, 1);
    BuiltNext(fields, 2);
  }

  /** What the host finds in a CAPS_REPLY. */
  lemma CapsReads<B>(backend: Backend<B>, b: B, f: Formatter)
    requires Proper(backend.limits(b)) && Simple(backend.limits(b))
    ensures var read := Parse(ValueText(CapsValue(backend, b), f));
            && read.Some?
            && Find(read.value, CAPS_NAMES[0]) == Some(Strings(backend.classes(b)))
            && Find(read.value, CAPS_NAMES[1]) == Some(backend.limits(b))
            && Find(read.value, CAPS_NAMES[2]) == Some(Value.Bool(backend.bulk(b)))
  {
    hide ValueText, Parse, Find, Ascii, Strings, Simple, Proper, CapsValue, Built;
    var fields := CapsFields(backend, b);
    CapsBuilt(backend, b);
    CapsNames();
    KeyShapes(fields);
    FlagSimple(backend.bulk(b));
    StringsSimple(backend.classes(b));
    ReportReads(fields, f);
    assert Find(Parse(ValueText(CapsValue(backend, b), f)).value, fields[0].key) == Some(fields[0].value);
    assert Find(Parse(ValueText(CapsValue(backend, b), f)).value, fields[1].key) == Some(fields[1].value);
    assert Find(Parse(ValueText(CapsValue(backend, b), f)).value, fields[2].key) == Some(fields[2].value);
  }

  // --------------------------------------------------------- flat replies

  const ERROR_NAMES: seq<AsciiText> := [Ascii("reason"), Ascii("detail")]
  const ACK_NAMES: seq<AsciiText> := [Ascii("revision"), Ascii("features")]

  lemma FlatNames()
    ensures ERROR_NAMES == [KEY_REASON, KEY_DETAIL] && ACK_NAMES == [KEY_REVISION, KEY_FEATURES]
    ensures |KEY_REASON| == |KEY_DETAIL| == 6 && KEY_REASON[0] == 'r' as int && KEY_DETAIL[0] == 'd' as int
    ensures |KEY_REVISION| == |KEY_FEATURES| == 8 && KEY_REVISION[0] == 'r' as int && KEY_FEATURES[0] == 'f' as int
  {
  }

  lemma TwoRead(a: Member, b: Member, f: Formatter)
    requires Proper(a.value) && Simple(a.value) && Proper(b.value) && Simple(b.value)
    requires |a.key| == |b.key| > 0 && a.key[0] != b.key[0]
    ensures var read := Parse(ValueText(JsonValue.Set(JsonValue.Set(Value.Object([]), a.key, a.value), b.key, b.value), f));
            read.Some? && Find(read.value, a.key) == Some(a.value) && Find(read.value, b.key) == Some(b.value)
  {
    hide ValueText, Parse, Find, Simple, Proper, JsonValue.Set, Built;
    var fields := [a, b];
    BuiltFromNothing(fields);
    BuiltNext(fields, 0);
    BuiltNext(fields, 1);
    ReportReads(fields, f);
    assert fields[0] == a && fields[1] == b;
  }

  /** An ERROR carries its reason and the phrase for it; a HELLO_ACK its revision and no features. */
  lemma FlatRepliesRead(reason: Reason, revision: nat, f: Formatter)
    requires revision < 1_000_000_000_000_000
    ensures var read := Parse(ErrorFrame(reason, f).payload);
            && read.Some? && Find(read.value, ERROR_NAMES[0]) == Some(Integer(ReasonCode(reason)))
            && Find(read.value, ERROR_NAMES[1]) == Some(Value.String(ReasonSummary(reason)))
    ensures var read := Parse(ValueText(HelloAckValue(revision), f));
            && read.Some? && Find(read.value, ACK_NAMES[0]) == Some(Integer(revision))
            && Find(read.value, ACK_NAMES[1]) == Some(Value.Array([]))
  {
    hide ValueText, Parse, Find, Simple, Proper, JsonValue.Set, Ascii, ReasonSummary, ReasonCode;
    FlatNames();
    SmallCode(reason);
    CountSimple(ReasonCode(reason));
    CountSimple(revision);
    PlainSimple(ReasonSummary(reason));
    TwoRead(Member(KEY_REASON, Integer(ReasonCode(reason))), Member(KEY_DETAIL, Value.String(ReasonSummary(reason))), f);
    TwoRead(Member(KEY_REVISION, Integer(revision)), Member(KEY_FEATURES, Value.Array([])), f);
  }

  lemma SmallCode(reason: Reason)
    ensures ReasonCode(reason) < 1_000_000_000_000_000
  {
  }

  lemma PlainSimple(s: Bytes)
    ensures Simple(Value.String(s)) && Proper(Value.String(s))
    ensures Simple(Value.Array([])) && Proper(Value.Array([]))
  {
  }

  // -------------------------------------------------- the station as deployed

  const LIMIT_NAMES: seq<AsciiText> := [Ascii("max_candidates"), Ascii("max_scan_depth")]

  /** The limits it names are the scan's, each under its own name. */
  lemma LimitsRead(s: Setup)
    requires s.limits.maxFiles < 1_000_000_000_000_000 && s.limits.maxDepth < 1_000_000_000_000_000
    ensures Proper(LimitsValue(s)) && Simple(LimitsValue(s))
    ensures Find(LimitsValue(s), LIMIT_NAMES[0]) == Some(Integer(s.limits.maxFiles))
    ensures Find(LimitsValue(s), LIMIT_NAMES[1]) == Some(Integer(s.limits.maxDepth))
  {
    var empty := Value.Object([]);
    LimitNames();
    hide JsonValue.Set, Find, Ascii, Simple, Prints;
    CountSimple(s.limits.maxFiles);
    CountSimple(s.limits.maxDepth);
    EmptyPrints();
    SetReads(empty, LIMIT_NAMES[0], Integer(s.limits.maxFiles));
    SetReads(JsonValue.Set(empty, LIMIT_NAMES[0], Integer(s.limits.maxFiles)), LIMIT_NAMES[1], Integer(s.limits.maxDepth));
    LimitsShallow(s);
  }

  lemma LimitNames()
    ensures LIMIT_NAMES == [Ascii("max_candidates"), Ascii("max_scan_depth")] && |LIMIT_NAMES[0]| == |LIMIT_NAMES[1]|
    ensures LIMIT_NAMES[0][4] == 'c' as int && LIMIT_NAMES[1][4] == 's' as int
  {
  }

  lemma LimitsShallow(s: Setup)
    ensures Prints(LimitsValue(s)) ==> Proper(LimitsValue(s)) && Simple(LimitsValue(s))
  {
    hide Ascii, Proper, Integral;
    var m := JsonValue.Set(Value.Object([]), Ascii("max_candidates"), Integer(s.limits.maxFiles)).members;
    SetHeight([], Ascii("max_candidates"), Integer(s.limits.maxFiles));
    SetHeight(m, Ascii("max_scan_depth"), Integer(s.limits.maxDepth));
    ObjectHeight(LimitsValue(s).members);
  }

  /** What its backend reports are the facts of the scan, the binding and the table. */
  lemma DeployedFacts(s: Setup, fw: nat, dr: nat, t: Table)
    ensures var ops := Operations(s, fw, dr);
            && ops.limits(t) == LimitsValue(s) && ops.classes(t) == OfferedClasses(s)
            && (|t.live| < 0x1_0000_0000 ==> ops.targets(t) == |t.live|)
            && (s.limits.maxFiles < 0x1_0000_0000 ==>
                  && ops.files(t) == Min(|Scanner.RootsListing(s.roots, s.limits.maxDepth)|, s.limits.maxFiles)
                  && ops.candidates(t) == |Scanner.LoadablePaths(Examined(s))|)
            && ops.truncated(t) == Scanner.RootsCut(s.roots, s.limits.maxFiles, s.limits.maxDepth)
            && ops.bulk(t) == CarriesAudio(s)
            && (CarriesAudio(s) ==> ops.bytesForwarded(t) == fw && ops.bytesDropped(t) == dr)
            && (|Probe(s).engine.addresses| < 0x1_0000_0000 ==> ops.symbols(t) == |Probe(s).engine.addresses|)
  {
    hide Operations, Probe, Examined, Scanner.Candidates, Scanner.RootsListing, LimitsValue, OfferedClasses, CarriesAudio;
    OperationsTold(s, fw, dr, t);
    ExaminedTold(s);
  }

  lemma OperationsTold(s: Setup, fw: nat, dr: nat, t: Table)
    ensures var ops := Operations(s, fw, dr);
            && ops.limits(t) == LimitsValue(s) && ops.classes(t) == OfferedClasses(s)
            && (|t.live| < 0x1_0000_0000 ==> ops.targets(t) == |t.live|)
            && (|Examined(s)| < 0x1_0000_0000 ==> ops.files(t) == |Examined(s)|)
            && (|Scanner.Candidates(Examined(s))| < 0x1_0000_0000 ==> ops.candidates(t) == |Scanner.Candidates(Examined(s))|)
            && ops.truncated(t) == Scanner.RootsCut(s.roots, s.limits.maxFiles, s.limits.maxDepth)
            && ops.bulk(t) == CarriesAudio(s)
            && (CarriesAudio(s) ==> ops.bytesForwarded(t) == fw && ops.bytesDropped(t) == dr)
            && (|Probe(s).engine.addresses| < 0x1_0000_0000 ==> ops.symbols(t) == |Probe(s).engine.addresses|)
  {
    hide Probe, CarriesAudio, LimitsValue, OfferedClasses, Scanner.RootsCut, Examined, Scanner.Candidates;
  }

  lemma ExaminedTold(s: Setup)
    ensures |Examined(s)| == Min(|Scanner.RootsListing(s.roots, s.limits.maxDepth)|, s.limits.maxFiles)
    ensures |Scanner.Candidates(Examined(s))| == |Scanner.LoadablePaths(Examined(s))| <= |Examined(s)|
  {
    hide Scanner.RootsListing;
    Scanner.CandidatesInOrder(Examined(s));
    FewerCandidates(Examined(s));
  }

  lemma {:induction false} FewerCandidates(found: seq<Scanner.Found>)
    ensures |Scanner.Candidates(found)| <= |found|
  {
    if found != [] { FewerCandidates(found[..|found| - 1]); }
  }
}
