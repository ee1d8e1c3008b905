/**
 Printing then parsing.  What the printer writes is the spelling of a syntax
 tree that means the value printed and is exactly as deeply nested, so the
 parser's completeness decides what comes back.
 */
module JsonRoundTrip {
  import opened Text
  import opened JsonValue
  import opened Utf8
  import opened JsonGrammar
  import opened JsonReader
  import opened JsonCorrectness
  import opened JsonPrinter
  import opened JsonText

  /** Every number is printed on the exact integer branch. */
  predicate Integral(v: Value)
    decreases v
  {
    match v
    case Number(n) => n.Finite? && PrintsAsInteger(n.r)
    case Array(items) => forall i | 0 <= i < |items| :: Integral(items[i])
    case Object(members) => forall i | 0 <= i < |members| :: Integral(members[i].value)
    case _ => true
  }

  /** `text` is a number of the grammar. */
  ghost predicate IsNumber(text: Bytes) { exists t: NumberToken :: TokenOk(t) && SpellNumber(t) == text }

  /** Every number that takes the other branch is printed as a number of the grammar. */
  ghost predicate Printable(v: Value, fractional: Formatter)
    decreases v
  {
    match v
    case Number(n) => n.Finite? ==> PrintsAsInteger(n.r) || IsNumber(fractional(n.r))
    case Array(items) => forall i | 0 <= i < |items| :: Printable(items[i], fractional)
    case Object(members) => forall i | 0 <= i < |members| :: Printable(members[i].value, fractional)
    case _ => true
  }

  lemma {:induction false} IntegralPrintable(v: Value, fractional: Formatter)
    requires Integral(v)
    ensures Printable(v, fractional)
    decreases v
  {
    match v
    case Array(items) =>
      forall i | 0 <= i < |items| ensures Printable(items[i], fractional) { IntegralPrintable(items[i], fractional); }
    case Object(members) =>
      forall i | 0 <= i < |members| ensures Printable(members[i].value, fractional) {
        IntegralPrintable(members[i].value, fractional);
      }
    case _ =>
  }

  // ---------------------------------------------------------------- numbers

  lemma {:induction false} NatTextDigits(n: nat)
    ensures AllDigits(NatText(n)) && DigitsValue(NatText(n)) == n
    ensures NatText(n)[0] == ZERO ==> n == 0 && |NatText(n)| == 1
  {
    var t := NatText(n);
    if n < 10 {
      assert t[..0] == [];
    } else {
      NatTextDigits(n / 10);
      assert t[..|t| - 1] == NatText(n / 10);
      assert t[|t| - 1] == 0x30 + n % 10;
      assert t[0] == NatText(n / 10)[0];
    }
  }

  function IntToken(n: int): NumberToken {
    NumberToken(n < 0, NatText(if n < 0 then -n else n), None, None)
  }

  lemma IntTokenSpells(t: NumberToken)
    requires t.fraction.None? && t.exponent.None?
    ensures SpellNumber(t) == if t.negative then [MINUS] + t.whole else t.whole
  {
    assert t.whole + ([] + []) == t.whole && [] + t.whole == t.whole;
  }

  lemma IntTokenDenotes(t: NumberToken)
    requires TokenOk(t) && t.fraction.None? && t.exponent.None?
    ensures TokenValue(t) == (if t.negative then -(DigitsValue(t.whole) as real) else DigitsValue(t.whole) as real)
  {
    assert t.whole + [] == t.whole;
    assert Scale(DigitsValue(t.whole) as real, 0) == DigitsValue(t.whole) as real * Power10(0);
  }

  /** Integers below 10^15 in magnitude print as a token that denotes them. */
  lemma IntTokenCorrect(n: int)
    requires -1_000_000_000_000_000 < n < 1_000_000_000_000_000
    ensures TokenOk(IntToken(n)) && SpellNumber(IntToken(n)) == IntText(n)
    ensures ToDouble(TokenValue(IntToken(n))) == Finite(n as real)
  {
    hide DigitsValue, NatText, AllDigits;
    var t := IntToken(n);
    NatTextDigits(if n < 0 then -n else n);
    IntTokenSpells(t);
    IntTokenDenotes(t);
    assert -1_000_000_000_000_000.0 < n as real < 1_000_000_000_000_000.0;
  }

  // ---------------------------------------------------------------- strings

  function CharOf(b: Byte): Char {
    if ShortEscape(b).Some? then Short(ShortEscape(b).value)
    else if b < 0x20 then Unicode([0x30, 0x30, HexDigit(b / 16), HexDigit(b % 16)])
    else if b < 0x80 then Scalar(b)
    else Bare(b)
  }

  lemma HexDigitValue(n: nat)
    requires n < 16
    ensures HexValue(HexDigit(n)) == Some(n)
  {
  }

  lemma CharOfCorrect(b: Byte)
    ensures CharOk(CharOf(b)) && SpellChar(CharOf(b)) == ByteText(b) && CharMeaning(CharOf(b)) == [b]
    ensures !HighEscape(CharOf(b)) && !LowEscape(CharOf(b))
  {
    if ShortEscape(b).None? && b < 0x20 {
      HexDigitValue(b / 16);
      HexDigitValue(b % 16);
      var h := [0x30, 0x30, HexDigit(b / 16), HexDigit(b % 16)];
      assert HexValue(h[0]) == Some(0) && HexValue(h[1]) == Some(0);
      assert IsHex4(h) && Hex4Value(h) == b;
    }
  }

  function CharsOf(s: Bytes): (cs: seq<Char>)
    ensures |cs| == |s|
    ensures forall i | 0 <= i < |s| :: cs[i] == CharOf(s[i])
  {
    seq(|s|, i requires 0 <= i < |s| => CharOf(s[i]))
  }

  lemma {:induction false} CharsSnoc(cs: seq<Char>, c: Char)
    requires CharsOk(cs) && CharOk(c) && Paired(cs) && !HighEscape(c) && !LowEscape(c)
    ensures CharsOk(cs + [c]) && Paired(cs + [c])
    ensures SpellChars(cs + [c]) == SpellChars(cs) + SpellChar(c)
    ensures CharsMeaning(cs + [c]) == CharsMeaning(cs) + CharMeaning(c)
    decreases |cs|
  {
    hide SpellChar, CharMeaning, PairMeaning, HighEscape, LowEscape, CharOk;
    var all := cs + [c];
    if cs == [] {
      assert all == [c] && [c][1..] == [];
      assert SpellChar(c) + [] == SpellChar(c) && CharMeaning(c) + [] == CharMeaning(c);
    } else {
      assert all[1..] == cs[1..] + [c];
      if StartsPair(cs) {
        assert all[2..] == cs[2..] + [c] && cs[1..][1..] == cs[2..] && all[1..][1..] == all[2..];
        CharsSnoc(cs[2..], c);
        Regroup(PairMeaning(cs[0], cs[1]), CharsMeaning(cs[2..]), CharMeaning(c));
        Regroup(SpellChar(cs[1]), SpellChars(cs[2..]), SpellChar(c));
      } else {
        CharsSnoc(cs[1..], c);
        Regroup(CharMeaning(cs[0]), CharsMeaning(cs[1..]), CharMeaning(c));
      }
      Regroup(SpellChar(cs[0]), SpellChars(cs[1..]), SpellChar(c));
    }
  }

  lemma CharsOfSnoc(s: Bytes, b: Byte)
    ensures CharsOf(s + [b]) == CharsOf(s) + [CharOf(b)]
    ensures EscapedText(s + [b]) == EscapedText(s) + ByteText(b)
  {
    hide CharOf, ByteText;
    assert (s + [b])[..|s|] == s;
  }

  lemma {:induction false} CharsOfCorrect(s: Bytes)
    ensures CharsOk(CharsOf(s)) && Paired(CharsOf(s))
    ensures SpellChars(CharsOf(s)) == EscapedText(s) && CharsMeaning(CharsOf(s)) == s
  {
    hide *;
    if s == [] {
      NoChars();
    } else {
      var n := |s| - 1;
      CharsOfCorrect(s[..n]);
      CharOfCorrect(s[n]);
      CharsSnoc(CharsOf(s[..n]), CharOf(s[n]));
      assert s == s[..n] + [s[n]];
      CharsOfSnoc(s[..n], s[n]);
    }
  }

  lemma NoChars()
    ensures CharsOk(CharsOf([])) && Paired(CharsOf([]))
    ensures SpellChars(CharsOf([])) == EscapedText([]) && CharsMeaning(CharsOf([])) == []
  {
  }

  lemma StringTextSpells(s: Bytes)
    ensures CharsOk(CharsOf(s)) && Paired(CharsOf(s)) && CharsMeaning(CharsOf(s)) == s
    ensures SpellString(CharsOf(s)) == StringText(s)
  {
    CharsOfCorrect(s);
  }

  // ----------------------------------------------------------------- values

  ghost function TokenOf(text: Bytes): (t: NumberToken)
    requires IsNumber(text)
    ensures TokenOk(t) && SpellNumber(t) == text
  {
    var t :| TokenOk(t) && SpellNumber(t) == text;
    t
  }

  ghost function NumberTreeOf(n: Number, fractional: Formatter): Tree
    requires Printable(Value.Number(n), fractional)
  {
    if !n.Finite? then NullTree
    else NumberTree(if PrintsAsInteger(n.r) then IntToken(n.r.Floor) else TokenOf(fractional(n.r)))
  }

  /** A tree for the text of a value. */
  ghost function TreeOf(v: Value, fractional: Formatter): Tree
    requires Printable(v, fractional)
    decreases v, 0
  {
    match v
    case Null => NullTree
    case Bool(b) => if b then TrueTree else FalseTree
    case Number(n) => NumberTreeOf(n, fractional)
    case String(s) => StringTree(CharsOf(s))
    case Array(items) => if items == [] then EmptyArray([]) else ArrayTree(ItemsOf(items, fractional))
    case Object(members) => if members == [] then EmptyObject([]) else ObjectTree(FieldsOf(members, fractional))
  }

  ghost function ItemsOf(items: seq<Value>, fractional: Formatter): Items
    requires items != [] && forall i | 0 <= i < |items| :: Printable(items[i], fractional)
    decreases items, 1
  {
    var first := Item([], TreeOf(items[0], fractional), []);
    if |items| == 1 then LastItem(first) else MoreItems(first, ItemsOf(items[1..], fractional))
  }

  ghost function FieldsOf(members: seq<Member>, fractional: Formatter): Fields
    requires members != [] && forall i | 0 <= i < |members| :: Printable(members[i].value, fractional)
    decreases members, 1
  {
    var first := Field([], CharsOf(members[0].key), [], [], TreeOf(members[0].value, fractional), []);
    if |members| == 1 then LastField(first) else MoreFields(first, FieldsOf(members[1..], fractional))
  }

  lemma NumberTreeCorrect(n: Number, fractional: Formatter)
    requires Printable(Value.Number(n), fractional)
    ensures var t := NumberTreeOf(n, fractional);
            && TreeOk(t) && PairedTree(t) && Spell(t) == NumberText(n, fractional) && TreeHeight(t) == 0
            && (Integral(Value.Number(n)) ==> Meaning(t) == Value.Number(n))
  {
    hide TokenOk, SpellNumber, IntText, IntToken, ToDouble, TokenValue;
    if n.Finite? && PrintsAsInteger(n.r) { IntTokenCorrect(n.r.Floor); }
  }

  /**
   The text of a value is in the grammar, its surrogates paired, and nested as
   deeply as the value; and it means the value when all numbers are exact and
   no key comes twice.
   */
  lemma {:induction false} TreeOfCorrect(v: Value, fractional: Formatter)
    requires Printable(v, fractional)
    ensures var t := TreeOf(v, fractional);
            && TreeOk(t) && PairedTree(t) && Spell(t) == ValueText(v, fractional) && TreeHeight(t) == Height(v)
            && (Proper(v) && Integral(v) ==> Meaning(t) == v)
    decreases v, 0
  {
    match v
    case Number(n) => NumberTreeCorrect(n, fractional);
    case String(s) => StringTreeCorrect(s, fractional);
    case Array(items) => ArrayTreeCorrect(items, fractional);
    case Object(members) => ObjectTreeCorrect(members, fractional);
    case _ =>
  }

  /** The contract of `TreeOfCorrect`. */
  ghost predicate TreeFits(v: Value, fractional: Formatter)
    requires Printable(v, fractional)
  {
    var t := TreeOf(v, fractional);
    && TreeOk(t) && PairedTree(t) && Spell(t) == ValueText(v, fractional) && TreeHeight(t) == Height(v)
    && (Proper(v) && Integral(v) ==> Meaning(t) == v)
  }

  lemma StringTreeCorrect(s: Bytes, fractional: Formatter)
    ensures TreeFits(Value.String(s), fractional)
  {
    hide CharsOf, CharsOk, Paired, SpellChars, CharsMeaning, EscapedText;
    CharsOfCorrect(s);
  }

  lemma {:induction false} ArrayTreeCorrect(items: seq<Value>, fractional: Formatter)
    requires Printable(Value.Array(items), fractional)
    ensures TreeFits(Value.Array(items), fractional)
    decreases items, 2
  {
    hide ItemsOk, EveryItemString, SpellItems, ItemsText, ItemsMeaning, ItemsTreeHeight, ItemsHeight, ItemsOf;
    if items != [] {
      ItemsOfCorrect(items, fractional);
    } else {
      NoItemsText(fractional);
    }
  }

  lemma {:induction false} ObjectTreeCorrect(members: seq<Member>, fractional: Formatter)
    requires Printable(Value.Object(members), fractional)
    ensures TreeFits(Value.Object(members), fractional)
    decreases members, 2
  {
    hide FieldsOk, EveryFieldString, SpellFields, MembersText, FieldsMeaning, FieldsTreeHeight, MembersHeight, FieldsOf,
      UniqueKeys;
    if members != [] {
      FieldsOfCorrect(members, [], fractional);
      assert [] + members == members;
    } else {
      NoItemsText(fractional);
    }
  }

  lemma {:induction false} ItemsOfCorrect(items: seq<Value>, fractional: Formatter)
    requires items != []
    requires forall i | 0 <= i < |items| :: Printable(items[i], fractional)
    ensures var t := ItemsOf(items, fractional);
            && ItemsOk(t) && EveryItemString(t, Paired) && SpellItems(t) == ItemsText(items, fractional)
            && ItemsTreeHeight(t) == ItemsHeight(items)
            && ((forall i | 0 <= i < |items| :: Proper(items[i]) && Integral(items[i])) ==> ItemsMeaning(t) == items)
    decreases items, 1
  {
    hide ValueText, TreeOf, Proper, Integral, Printable, Padded, Spell, Meaning, TreeHeight, Height, TreeOk, EveryString;
    TreeOfCorrect(items[0], fractional);
    PaddedPlain(ItemsOf(items, fractional).item, ValueText(items[0], fractional));
    if |items| == 1 {
      assert items[1..] == [];
    } else {
      ItemsOfCorrect(items[1..], fractional);
      assert items == [items[0]] + items[1..];
    }
  }

  lemma PaddedPlain(i: Item, value: Bytes)
    requires i.before == [] && i.after == []
    ensures Padded(i, value) == value
  {
    assert [] + (value + []) == value;
  }

  lemma KeyedPlain(f: Field, value: Bytes)
    requires f.before == [] && f.afterKey == [] && f.beforeValue == [] && f.after == []
    ensures Keyed(f, value) == SpellString(f.key) + ([COLON] + value)
  {
    assert value + [] == value;
    assert [] + value == value;
    assert [] + ([COLON] + value) == [COLON] + value;
    assert [] + (SpellString(f.key) + ([COLON] + value)) == SpellString(f.key) + ([COLON] + value);
  }

  lemma {:induction false} FieldsOfCorrect(members: seq<Member>, sofar: seq<Member>, fractional: Formatter)
    requires members != []
    requires forall i | 0 <= i < |members| :: Printable(members[i].value, fractional)
    ensures var t := FieldsOf(members, fractional);
            && FieldsOk(t) && EveryFieldString(t, Paired) && SpellFields(t) == MembersText(members, fractional)
            && FieldsTreeHeight(t) == MembersHeight(members)
            && (UniqueKeys(sofar + members)
                && (forall i | 0 <= i < |members| :: Proper(members[i].value) && Integral(members[i].value)) ==>
                  FieldsMeaning(t, sofar) == sofar + members)
    decreases members, 1
  {
    hide ValueText, StringText, CharsOf, SetMember, UniqueKeys, Keyed, CharsOk, TreeOf, Proper, Integral, Printable,
      Spell, Meaning, TreeHeight, Height, TreeOk, EveryString, Paired, CharsMeaning, SpellString, FieldsMeaning;
    var m := members[0];
    TreeOfCorrect(m.value, fractional);
    StringTextSpells(m.key);
    KeyedPlain(FieldsOf(members, fractional).field, ValueText(m.value, fractional));
    if |members| > 1 { FieldsOfCorrect(members[1..], sofar + [m], fractional); }
    if UniqueKeys(sofar + members) {
      NewKeyAppends(sofar, members);
      FirstMeaning(FieldsOf(members, fractional), sofar);
      if |members| == 1 { assert members == [m]; }
    }
  }

  /** How the meaning of an object unfolds. */
  lemma FirstMeaning(fields: Fields, sofar: seq<Member>)
    requires FieldsOk(fields)
    ensures var members := SetMember(sofar, CharsMeaning(fields.field.key), Meaning(fields.field.tree));
            FieldsMeaning(fields, sofar)
            == if fields.LastField? then members else FieldsMeaning(fields.others, members)
  {
  }

  lemma NewKeyAppends(sofar: seq<Member>, members: seq<Member>)
    requires members != [] && UniqueKeys(sofar + members)
    ensures SetMember(sofar, members[0].key, members[0].value) == sofar + [members[0]]
    ensures sofar + members == (sofar + [members[0]]) + members[1..]
  {
    var all := sofar + members;
    assert all[|sofar|] == members[0];
    assert forall j | 0 <= j < |sofar| :: all[j] == sofar[j];
  }

  /** The printed text as a derivation of the grammar. */
  lemma PrintedDerives(v: Value, fractional: Formatter) returns (document: Item)
    requires Printable(v, fractional)
    ensures Derives(ValueText(v, fractional), document) && document.tree == TreeOf(v, fractional)
    ensures PairedTree(document.tree) && TreeHeight(document.tree) == Height(v)
    ensures Proper(v) && Integral(v) ==> Meaning(document.tree) == v
  {
    hide TreeOf, ValueText, TreeOk, PairedTree, Spell, Meaning, TreeHeight;
    TreeOfCorrect(v, fractional);
    document := Item([], TreeOf(v, fractional), []);
    PaddedPlain(document, ValueText(v, fractional));
  }

  /** Reading back what was printed, with any nesting limit. */
  lemma RoundTripWithin(v: Value, fractional: Formatter, limit: nat)
    requires Proper(v) && Integral(v)
    ensures ParseWithin(ValueText(v, fractional), limit) == if Height(v) <= limit then Some(v) else None
  {
    hide *;
    IntegralPrintable(v, fractional);
    var document := PrintedDerives(v, fractional);
    DerivationRead(ValueText(v, fractional), document, limit);
  }

  /**
   `parse(dump(v))` gives `v` back, member order included, exactly when `v` is
   nested no deeper than the limit, and is refused otherwise.
   */
  lemma RoundTrip(v: Value, fractional: Formatter)
    requires Proper(v) && Integral(v)
    ensures Parse(ValueText(v, fractional)) == if Height(v) <= 64 then Some(v) else None
  {
    hide ValueText, ParseWithin, Height;
    RoundTripWithin(v, fractional, MAX_PARSE_DEPTH);
  }

  lemma ExpectedFits(v: Value, rest: Bytes, t: Tree)
    requires TreeHeight(t) <= MAX_PARSE_DEPTH && PairedTree(t)
    ensures Expected(v, rest, Fits(t, 0)) == Done(v, rest)
  {
  }

  /** Parsing the text of a value takes exactly that text, whatever number-free text follows. */
  lemma ReadsExactly(v: Value, fractional: Formatter, rest: Bytes)
    requires Proper(v) && Integral(v) && Height(v) <= MAX_PARSE_DEPTH && Stops(rest)
    ensures ReadValue(ValueText(v, fractional) + rest, 0) == Done(v, rest)
  {
    hide *;
    IntegralPrintable(v, fractional);
    TreeOfCorrect(v, fractional);
    TreeComplete(TreeOf(v, fractional), rest, 0);
    ExpectedFits(v, rest, TreeOf(v, fractional));
  }

  // ------------------------------------------------------------------ UTF-8

  lemma {:induction false} EscapedAppend(a: Bytes, b: Bytes)
    ensures EscapedText(a + b) == EscapedText(a) + EscapedText(b)
    decreases |b|
  {
    hide ByteText;
    if b == [] {
      assert a + b == a;
    } else {
      var n := |b| - 1;
      assert (a + b)[..|a + b| - 1] == a + b[..n];
      EscapedAppend(a, b[..n]);
      Regroup(EscapedText(a), EscapedText(b[..n]), ByteText(b[n]));
    }
  }

  lemma {:induction false} EscapedHigh(s: Bytes)
    requires forall i | 0 <= i < |s| :: s[i] >= 0x80
    ensures EscapedText(s) == s
  {
    if s != [] {
      var n := |s| - 1;
      EscapedHigh(s[..n]);
      assert ByteText(s[n]) == [s[n]];
      Cut(s, n);
    }
  }

  lemma ByteTextUtf8(b: Byte)
    requires b < 0x80
    ensures WellFormed(EscapedText([b]))
  {
    assert [b][..0] == [] && [] + ByteText(b) == ByteText(b);
    AsciiUtf8(ByteText(b));
  }

  /** Escaping keeps UTF-8. */
  lemma {:induction false} EscapedUtf8(s: Bytes)
    requires WellFormed(s)
    ensures WellFormed(EscapedText(s))
    decreases |s|
  {
    hide ByteText;
    if s != [] {
      var n := ScalarLength(s);
      EscapedUtf8(s[n..]);
      Cut(s, n);
      EscapedAppend(s[..n], s[n..]);
      if s[0] < 0x80 {
        ByteTextUtf8(s[0]);
        assert s[..n] == [s[0]];
      } else {
        TailsFollow(s);
        EscapedHigh(s[..n]);
        FirstScalarUtf8(s);
      }
      Joined(EscapedText(s[..n]), EscapedText(s[n..]));
    }
  }

  lemma FirstScalarUtf8(s: Bytes)
    requires ScalarLength(s) > 0
    ensures WellFormed(s[..ScalarLength(s)])
  {
    hide EncodeUtf8, DecodeScalar, ScalarLength, WellFormed;
    DecodeThenEncode(s);
    EncodeWellFormed(DecodeScalar(s));
  }

  lemma StringTextUtf8(s: Bytes)
    requires WellFormed(s)
    ensures WellFormed(StringText(s))
  {
    hide WellFormed, EscapedText;
    EscapedUtf8(s);
    BracketsUtf8(QUOTE, EscapedText(s), QUOTE);
  }

  lemma NumberTextUtf8(n: Number, fractional: Formatter)
    requires Printable(Value.Number(n), fractional)
    ensures WellFormed(NumberText(n, fractional))
  {
    hide WellFormed, Spell;
    NumberTreeCorrect(n, fractional);
    SpellUtf8(NumberTreeOf(n, fractional));
  }

  /** The text of a value whose strings and keys are UTF-8 is UTF-8. */
  lemma {:induction false} TextUtf8(v: Value, fractional: Formatter)
    requires Utf8Value(v) && Printable(v, fractional)
    ensures WellFormed(ValueText(v, fractional))
    decreases v, 0
  {
    hide WellFormed, StringText, NumberText;
    match v
    case Null => AsciiUtf8(NULL);
    case Bool(b) => AsciiUtf8(if b then TRUE else FALSE);
    case Number(n) => NumberTextUtf8(n, fractional);
    case String(s) => StringTextUtf8(s);
    case Array(items) =>
      ItemsTextUtf8(items, fractional);
      BracketsUtf8(OPEN_BRACKET, ItemsText(items, fractional), CLOSE_BRACKET);
    case Object(members) =>
      MembersTextUtf8(members, fractional);
      BracketsUtf8(OPEN_BRACE, MembersText(members, fractional), CLOSE_BRACE);
  }

  lemma {:induction false} ItemsTextUtf8(items: seq<Value>, fractional: Formatter)
    requires forall i | 0 <= i < |items| :: Utf8Value(items[i]) && Printable(items[i], fractional)
    ensures WellFormed(ItemsText(items, fractional))
    decreases items, 1
  {
    hide WellFormed, Utf8Value, Printable, ValueText;
    EmptyUtf8();
    if items != [] {
      var first := ValueText(items[0], fractional);
      TextUtf8(items[0], fractional);
      ItemsTextUtf8(items[1..], fractional);
      SeparatedUtf8(first, ItemsText(items[1..], fractional));
      assert first + [] == first;
    }
  }

  lemma MemberTextUtf8(m: Member, fractional: Formatter)
    requires WellFormed(m.key) && WellFormed(ValueText(m.value, fractional))
    ensures WellFormed(MemberText(m, fractional))
  {
    hide WellFormed, StringText, ValueText;
    StringTextUtf8(m.key);
    AsciiUtf8([COLON]);
    Joined([COLON], ValueText(m.value, fractional));
    Joined(StringText(m.key), [COLON] + ValueText(m.value, fractional));
  }

  lemma {:induction false} MembersTextUtf8(members: seq<Member>, fractional: Formatter)
    requires forall i | 0 <= i < |members| ::
               WellFormed(members[i].key) && Utf8Value(members[i].value) && Printable(members[i].value, fractional)
    ensures WellFormed(MembersText(members, fractional))
    decreases members, 1
  {
    hide WellFormed, Utf8Value, Printable, MemberText, ValueText;
    EmptyUtf8();
    if members != [] {
      var first := MemberText(members[0], fractional);
      TextUtf8(members[0].value, fractional);
      MemberTextUtf8(members[0], fractional);
      MembersTextUtf8(members[1..], fractional);
      SeparatedUtf8(first, MembersText(members[1..], fractional));
      assert first + [] == first;
    }
  }

  /**
   `dump` writes JSON by RFC 8259 for every value whose strings and keys are
   UTF-8, however deep it is nested.
   */
  lemma DumpIsRfc(v: Value, fractional: Formatter) returns (document: Item)
    requires Utf8Value(v) && Printable(v, fractional)
    ensures RfcDerives(ValueText(v, fractional), document) && PairedTree(document.tree)
    ensures TreeHeight(document.tree) == Height(v)
  {
    hide *;
    TextUtf8(v, fractional);
    var printed := PrintedDerives(v, fractional);
    document := RfcWhenUtf8(ValueText(v, fractional), printed);
  }
}
