/**
 What the parser takes against what RFC 8259 derives: the difference is exactly
 the texts that are not UTF-8, the nesting limit and unpaired surrogate escapes.
 And two things every parsed value has: unique keys in every object and, when
 the text is UTF-8, well-formed UTF-8 in every string and key.
 */
module JsonText {
  import opened Text
  import opened JsonValue
  import opened Utf8
  import opened JsonGrammar
  import opened JsonReader
  import opened JsonCorrectness

  // ------------------------------------------------------------ unique keys

  lemma {:induction false} MeaningProper(t: Tree)
    requires TreeOk(t)
    ensures Proper(Meaning(t))
    decreases t
  {
    match t
    case ArrayTree(items) => ItemsProper(items);
    case ObjectTree(fields) => FieldsProper(fields, []);
    case _ =>
  }

  lemma {:induction false} ItemsProper(items: Items)
    requires ItemsOk(items)
    ensures forall i | 0 <= i < |ItemsMeaning(items)| :: Proper(ItemsMeaning(items)[i])
    decreases items
  {
    MeaningProper(items.item.tree);
    if items.MoreItems? { ItemsProper(items.others); }
  }

  lemma {:induction false} FieldsProper(fields: Fields, sofar: seq<Member>)
    requires FieldsOk(fields) && Proper(Value.Object(sofar))
    ensures Proper(Value.Object(FieldsMeaning(fields, sofar)))
    decreases fields
  {
    hide CharsMeaning, SetMember, Proper, Meaning;
    var key, value := CharsMeaning(fields.field.key), Meaning(fields.field.tree);
    MeaningProper(fields.field.tree);
    SetMemberProper(sofar, key, value);
    if fields.MoreFields? { FieldsProper(fields.others, SetMember(sofar, key, value)); }
  }

  lemma SetMemberProper(sofar: seq<Member>, key: Bytes, value: Value)
    requires Proper(Value.Object(sofar)) && Proper(value)
    ensures Proper(Value.Object(SetMember(sofar, key, value)))
  {
    SetMemberEffect(sofar, key, value);
  }

  /** Whatever the text, no parsed object holds a key twice, at any depth. */
  lemma ParseProper(text: Bytes)
    ensures Parse(text).Some? ==> Proper(Parse(text).value)
  {
    if Parse(text).Some? {
      var tree := ValueSound(SkipWhitespace(text), 0);
      MeaningProper(tree);
    }
  }

  // ------------------------------------------------------- UTF-8 spellings

  predicate AllAscii(s: Bytes) { forall i | 0 <= i < |s| :: s[i] < 0x80 }

  lemma {:induction false} AsciiUtf8(s: Bytes)
    requires AllAscii(s)
    ensures WellFormed(s)
  {
    if s != [] { AsciiUtf8(s[1..]); }
  }

  lemma AsciiAppend(a: Bytes, b: Bytes)
    requires AllAscii(a) && AllAscii(b)
    ensures AllAscii(a + b)
  {
  }

  lemma ExponentAscii(e: Exponent)
    requires AllDigits(e.digits) && (e.sign.Some? ==> e.sign.value in {MINUS, PLUS})
    ensures AllAscii(SpellExponent(Some(e)))
  {
    AsciiAppend(SpellSign(e.sign), e.digits);
  }

  lemma TokenAscii(t: NumberToken)
    requires TokenOk(t)
    ensures AllAscii(SpellNumber(t))
  {
    hide SpellExponent;
    if t.exponent.Some? { ExponentAscii(t.exponent.value); }
    NoExponent();
    AsciiAppend(SpellFraction(t.fraction), SpellExponent(t.exponent));
    AsciiAppend(t.whole, SpellFraction(t.fraction) + SpellExponent(t.exponent));
  }

  lemma NoExponent()
    ensures SpellExponent(None) == []
  {
  }

  /** What two well-formed texts make together. */
  lemma Joined(a: Bytes, b: Bytes)
    requires WellFormed(a) && WellFormed(b)
    ensures WellFormed(a + b)
  {
    WellFormedAppend(a, b);
  }

  lemma CharSpellUtf8(c: Char)
    requires CharOk(c) && !c.Bare?
    ensures WellFormed(SpellChar(c))
  {
    match c
    case Scalar(cp) => EncodeWellFormed(cp);
    case Short(letter) => AsciiUtf8([BACKSLASH, letter]);
    case Unicode(hex) => AsciiUtf8([BACKSLASH, LOWER_U] + hex);
  }

  lemma {:induction false} CharsSpellUtf8(cs: seq<Char>)
    requires CharsOk(cs) && NoBareBytes(cs)
    ensures WellFormed(SpellChars(cs))
  {
    hide SpellChar, CharOk, WellFormed;
    EmptyUtf8();
    if cs != [] {
      CharSpellUtf8(cs[0]);
      CharsSpellUtf8(cs[1..]);
      Joined(SpellChar(cs[0]), SpellChars(cs[1..]));
    }
  }

  lemma EmptyUtf8()
    ensures WellFormed([])
  {
  }

  lemma StringSpellUtf8(cs: seq<Char>)
    requires CharsOk(cs) && NoBareBytes(cs)
    ensures WellFormed(SpellString(cs))
  {
    hide WellFormed, SpellChars;
    CharsSpellUtf8(cs);
    AsciiUtf8([QUOTE]);
    Joined(SpellChars(cs), [QUOTE]);
    Joined([QUOTE], SpellChars(cs) + [QUOTE]);
  }

  /** Text between two brackets. */
  lemma BracketsUtf8(open: Byte, inside: Bytes, close: Byte)
    requires open < 0x80 && close < 0x80 && WellFormed(inside)
    ensures WellFormed([open] + (inside + [close]))
  {
    hide WellFormed;
    AsciiUtf8([open]);
    AsciiUtf8([close]);
    Joined(inside, [close]);
    Joined([open], inside + [close]);
  }

  lemma PaddedUtf8(i: Item, value: Bytes)
    requires PaddingOk(i) && WellFormed(value)
    ensures WellFormed(Padded(i, value))
  {
    hide WellFormed;
    AsciiUtf8(i.before);
    AsciiUtf8(i.after);
    Joined(value, i.after);
    Joined(i.before, value + i.after);
  }

  lemma KeyedUtf8(f: Field, value: Bytes)
    requires KeyOk(f) && NoBareBytes(f.key) && WellFormed(value)
    ensures WellFormed(Keyed(f, value))
  {
    hide WellFormed, SpellString, CharsOk;
    AsciiUtf8(f.before);
    AsciiUtf8(f.afterKey);
    AsciiUtf8([COLON]);
    AsciiUtf8(f.beforeValue);
    AsciiUtf8(f.after);
    StringSpellUtf8(f.key);
    Joined(value, f.after);
    Joined(f.beforeValue, value + f.after);
    Joined([COLON], f.beforeValue + (value + f.after));
    Joined(f.afterKey, [COLON] + (f.beforeValue + (value + f.after)));
    Joined(SpellString(f.key), f.afterKey + ([COLON] + (f.beforeValue + (value + f.after))));
    Joined(f.before, SpellString(f.key) + (f.afterKey + ([COLON] + (f.beforeValue + (value + f.after)))));
  }

  lemma SeparatedUtf8(a: Bytes, b: Bytes)
    requires WellFormed(a) && WellFormed(b)
    ensures WellFormed(a + ([COMMA] + b))
  {
    hide WellFormed;
    AsciiUtf8([COMMA]);
    Joined([COMMA], b);
    Joined(a, [COMMA] + b);
  }

  /** Everything the RFC's own grammar spells is UTF-8. */
  lemma {:induction false} SpellUtf8(t: Tree)
    requires TreeOk(t) && BareFree(t)
    ensures WellFormed(Spell(t))
    decreases t
  {
    hide WellFormed, SpellString;
    match t
    case TrueTree => AsciiUtf8(TRUE);
    case FalseTree => AsciiUtf8(FALSE);
    case NullTree => AsciiUtf8(NULL);
    case NumberTree(token) =>
      TokenAscii(token);
      AsciiUtf8(SpellNumber(token));
    case StringTree(chars) => StringSpellUtf8(chars);
    case EmptyArray(inside) =>
      AsciiUtf8(inside);
      BracketsUtf8(OPEN_BRACKET, inside, CLOSE_BRACKET);
    case ArrayTree(items) =>
      ItemsSpellUtf8(items);
      BracketsUtf8(OPEN_BRACKET, SpellItems(items), CLOSE_BRACKET);
    case EmptyObject(inside) =>
      AsciiUtf8(inside);
      BracketsUtf8(OPEN_BRACE, inside, CLOSE_BRACE);
    case ObjectTree(fields) =>
      FieldsSpellUtf8(fields);
      BracketsUtf8(OPEN_BRACE, SpellFields(fields), CLOSE_BRACE);
  }

  lemma {:induction false} ItemsSpellUtf8(items: Items)
    requires ItemsOk(items) && EveryItemString(items, NoBareBytes)
    ensures WellFormed(SpellItems(items))
    decreases items
  {
    hide WellFormed, Spell, Padded;
    var text := Padded(items.item, Spell(items.item.tree));
    SpellUtf8(items.item.tree);
    PaddedUtf8(items.item, Spell(items.item.tree));
    if items.MoreItems? {
      ItemsSpellUtf8(items.others);
      SeparatedUtf8(text, SpellItems(items.others));
    }
  }

  lemma {:induction false} FieldsSpellUtf8(fields: Fields)
    requires FieldsOk(fields) && EveryFieldString(fields, NoBareBytes)
    ensures WellFormed(SpellFields(fields))
    decreases fields
  {
    hide WellFormed, Spell, Keyed;
    var text := Keyed(fields.field, Spell(fields.field.tree));
    SpellUtf8(fields.field.tree);
    KeyedUtf8(fields.field, Spell(fields.field.tree));
    if fields.MoreFields? {
      FieldsSpellUtf8(fields.others);
      SeparatedUtf8(text, SpellFields(fields.others));
    }
  }

  // ----------------------------------------------- back to the RFC's grammar

  lemma AfterFirst(b: Byte, more: Bytes, k: nat)
    requires 0 < k <= |more| + 1
    ensures ([b] + more)[k..] == more[k - 1..] && ([b] + more)[..k] == [b] + more[..k - 1]
    ensures forall i | 0 <= i < k - 1 :: more[i] == ([b] + more)[i + 1]
  {
  }

  /** Tail bytes can only come from bare bytes, one each. */
  lemma {:induction false} TailsAreBare(cs: seq<Char>, end: Bytes, k: nat)
    requires CharsOk(cs) && end != [] && end[0] < 0x80
    requires var s := SpellChars(cs) + end; k <= |s| && forall i | 0 <= i < k :: IsTail(s[i])
    ensures k <= |cs| && (SpellChars(cs) + end)[k..] == SpellChars(cs[k..]) + end
    ensures SpellChars(cs) == (SpellChars(cs) + end)[..k] + SpellChars(cs[k..])
    decreases k
  {
    hide CharOk, SpellChar;
    var s := SpellChars(cs) + end;
    assert cs == [] ==> s == end;
    if k > 0 {
      if cs != [] {
        var more := SpellChars(cs[1..]) + end;
        FirstIsTail(cs[0]);
        Regroup(SpellChar(cs[0]), SpellChars(cs[1..]), end);
        assert s == [s[0]] + more;
        AfterFirst(s[0], more, k);
        TailsAreBare(cs[1..], end, k - 1);
        assert cs[1..][k - 1..] == cs[k..];
        Regroup([s[0]], more[..k - 1], SpellChars(cs[k..]));
      }
    } else {
      assert cs[0..] == cs && s[..0] == [] && s[0..] == s;
    }
  }

  lemma FirstIsTail(c: Char)
    requires CharOk(c)
    ensures IsTail(SpellChar(c)[0]) ==> SpellChar(c) == [SpellChar(c)[0]]
  {
    if c.Scalar? { ScalarBytes(c.cp); }
  }

  /** In UTF-8 the bare bytes of a string fall into code points. */
  lemma {:induction false} CharsWithoutBare(cs: seq<Char>, end: Bytes) returns (rs: seq<Char>)
    requires CharsOk(cs) && end != [] && end[0] < 0x80 && WellFormed(SpellChars(cs) + end)
    ensures CharsOk(rs) && NoBareBytes(rs) && SpellChars(rs) == SpellChars(cs)
    decreases |cs|
  {
    hide CharOk, SpellChar;
    if cs == [] {
      rs := [];
    } else if cs[0].Bare? {
      rs := BareToScalar(cs, end);
    } else {
      var more := SpellChars(cs[1..]) + end;
      Regroup(SpellChar(cs[0]), SpellChars(cs[1..]), end);
      CharSpellUtf8(cs[0]);
      WellFormedAppend(SpellChar(cs[0]), more);
      var others := CharsWithoutBare(cs[1..], end);
      rs := [cs[0]] + others;
      assert rs[1..] == others;
    }
  }

  lemma {:induction false} BareToScalar(cs: seq<Char>, end: Bytes) returns (rs: seq<Char>)
    requires CharsOk(cs) && end != [] && end[0] < 0x80 && WellFormed(SpellChars(cs) + end)
    requires cs != [] && cs[0].Bare?
    ensures CharsOk(rs) && NoBareBytes(rs) && SpellChars(rs) == SpellChars(cs)
    decreases |cs|, 0
  {
    hide EncodeUtf8, DecodeScalar, ScalarLength, IsTail, IsScalar, SpellChars;
    var n, cp := BareRun(cs, end);
    var others := CharsWithoutBare(cs[n..], end);
    rs := [Scalar(cp)] + others;
    SpellFirst(Scalar(cp), others);
  }

  lemma SpellFirst(c: Char, others: seq<Char>)
    ensures SpellChars([c] + others) == SpellChar(c) + SpellChars(others)
  {
    assert ([c] + others)[1..] == others;
  }

  /** The bare bytes that make up the first code point. */
  lemma BareRun(cs: seq<Char>, end: Bytes) returns (n: nat, cp: CodePoint)
    requires CharsOk(cs) && end != [] && end[0] < 0x80 && WellFormed(SpellChars(cs) + end)
    requires cs != [] && cs[0].Bare?
    ensures 0 < n <= |cs| && cp >= 0x80 && IsScalar(cp)
    ensures SpellChars(cs) == EncodeUtf8(cp) + SpellChars(cs[n..])
    ensures WellFormed(SpellChars(cs[n..]) + end)
  {
    hide EncodeUtf8, DecodeScalar, ScalarLength, IsTail, IsScalar;
    var s := SpellChars(cs) + end;
    var more := SpellChars(cs[1..]) + end;
    Regroup(SpellChar(cs[0]), SpellChars(cs[1..]), end);
    BareFirst(cs[0], more);
    TailsFollow(s);
    n := ScalarLength(s);
    DecodeThenEncode(s);
    cp := DecodeScalar(s);
    AfterFirst(s[0], more, n);
    TailsAreBare(cs[1..], end, n - 1);
    hide SpellChars, WellFormed, CharsOk;
    assert cs[1..][n - 1..] == cs[n..];
    Regroup([s[0]], more[..n - 1], SpellChars(cs[n..]));
  }

  lemma BareFirst(c: Char, more: Bytes)
    requires CharOk(c) && c.Bare?
    ensures var s := SpellChar(c) + more; s == [s[0]] + more && s[0] >= 0x80 && SpellChar(c) == [s[0]]
  {
  }

  lemma TailsFollow(s: Bytes)
    requires ScalarLength(s) > 0 && s[0] >= 0x80
    ensures ScalarLength(s) >= 2 && DecodeScalar(s) >= 0x80
    ensures forall i | 1 <= i < ScalarLength(s) :: IsTail(s[i])
  {
  }

  /** A derivation of UTF-8 text can be had without bare bytes, with the same spelling and nesting. */
  lemma {:induction false} TreeWithoutBare(t: Tree, end: Bytes) returns (r: Tree)
    requires TreeOk(t) && WellFormed(Spell(t) + end)
    ensures TreeOk(r) && BareFree(r) && Spell(r) == Spell(t) && TreeHeight(r) == TreeHeight(t)
    ensures WellFormed(end)
    decreases t, 0
  {
    hide WellFormed, NoBareBytes, AllWhitespace;
    match t {
      case StringTree(chars) =>
        Regroup([QUOTE], SpellChars(chars) + [QUOTE], end);
        Regroup(SpellChars(chars), [QUOTE], end);
        AsciiBefore([QUOTE], SpellChars(chars) + ([QUOTE] + end));
        var rs := CharsWithoutBare(chars, [QUOTE] + end);
        r := StringTree(rs);
      case ArrayTree(items) =>
        BracketsSplit(OPEN_BRACKET, SpellItems(items), CLOSE_BRACKET, end);
        AsciiBefore([OPEN_BRACKET], SpellItems(items) + ([CLOSE_BRACKET] + end));
        var rs := ItemsWithoutBare(items, [CLOSE_BRACKET] + end);
        r := ArrayTree(rs);
      case ObjectTree(fields) =>
        BracketsSplit(OPEN_BRACE, SpellFields(fields), CLOSE_BRACE, end);
        AsciiBefore([OPEN_BRACE], SpellFields(fields) + ([CLOSE_BRACE] + end));
        var rs := FieldsWithoutBare(fields, [CLOSE_BRACE] + end);
        r := ObjectTree(rs);
      case _ =>
        r := t;
    }
    SpellUtf8(r);
    WellFormedAppend(Spell(r), end);
  }

  lemma AsciiBefore(a: Bytes, s: Bytes)
    requires AllAscii(a) && WellFormed(a + s)
    ensures WellFormed(s)
  {
    AsciiUtf8(a);
    WellFormedAppend(a, s);
  }

  lemma {:induction false} ItemsWithoutBare(items: Items, end: Bytes) returns (r: Items)
    requires ItemsOk(items) && WellFormed(SpellItems(items) + end)
    ensures ItemsOk(r) && EveryItemString(r, NoBareBytes) && SpellItems(r) == SpellItems(items)
    ensures ItemsTreeHeight(r) == ItemsTreeHeight(items)
    decreases items, 1
  {
    hide WellFormed, NoBareBytes;
    var i := items.item;
    var tail := i.after + ItemsTail(items, end);
    ItemsSplit(items, end);
    AsciiBefore(i.before, Spell(i.tree) + tail);
    var t := TreeWithoutBare(i.tree, tail);
    var item := Item(i.before, t, i.after);
    AsciiBefore(i.after, ItemsTail(items, end));
    if items.LastItem? {
      r := LastItem(item);
    } else {
      AsciiBefore([COMMA], SpellItems(items.others) + end);
      var others := ItemsWithoutBare(items.others, end);
      r := MoreItems(item, others);
    }
  }

  lemma {:induction false} FieldsWithoutBare(fields: Fields, end: Bytes) returns (r: Fields)
    requires FieldsOk(fields) && WellFormed(SpellFields(fields) + end)
    ensures FieldsOk(r) && EveryFieldString(r, NoBareBytes) && SpellFields(r) == SpellFields(fields)
    ensures FieldsTreeHeight(r) == FieldsTreeHeight(fields)
    decreases fields, 1
  {
    hide WellFormed, NoBareBytes, CharsOk, SpellString, AllWhitespace;
    var f := fields.field;
    var tail := FieldsTail(fields, end);
    FieldsSplit(fields, end);
    KeyedSplit(f, Spell(f.tree), tail);
    var key := KeyWithoutBare(f, Spell(f.tree) + (f.after + tail));
    var t := TreeWithoutBare(f.tree, f.after + tail);
    BlanksBefore(f.after, tail);
    var field := f.(key := key, tree := t);
    if fields.LastField? {
      r := LastField(field);
    } else {
      AsciiBefore([COMMA], SpellFields(fields.others) + end);
      var others := FieldsWithoutBare(fields.others, end);
      r := MoreFields(field, others);
    }
  }

  lemma BlanksBefore(ws: Bytes, s: Bytes)
    requires AllWhitespace(ws) && WellFormed(ws + s)
    ensures WellFormed(s)
  {
    AsciiBefore(ws, s);
  }

  lemma KeyWithoutBare(f: Field, tail: Bytes) returns (key: seq<Char>)
    requires KeyOk(f)
    requires WellFormed(f.before + (SpellString(f.key) + (f.afterKey + ([COLON] + (f.beforeValue + tail)))))
    ensures CharsOk(key) && NoBareBytes(key) && SpellString(key) == SpellString(f.key)
    ensures WellFormed(tail)
  {
    hide WellFormed, NoBareBytes, AllWhitespace, SpellChars;
    var rest := f.afterKey + ([COLON] + (f.beforeValue + tail));
    BlanksBefore(f.before, SpellString(f.key) + rest);
    Regroup([QUOTE], SpellChars(f.key) + [QUOTE], rest);
    Regroup(SpellChars(f.key), [QUOTE], rest);
    AsciiBefore([QUOTE], SpellChars(f.key) + ([QUOTE] + rest));
    key := CharsWithoutBare(f.key, [QUOTE] + rest);
    CharsSpellUtf8(key);
    WellFormedAppend(SpellChars(f.key), [QUOTE] + rest);
    AsciiBefore([QUOTE], rest);
    BlanksBefore(f.afterKey, [COLON] + (f.beforeValue + tail));
    AsciiBefore([COLON], f.beforeValue + tail);
    BlanksBefore(f.beforeValue, tail);
  }

  // ----------------------------------------------------- against the RFC

  /** `text` is a JSON text by RFC 8259: derived without bare bytes. */
  ghost predicate RfcDerives(text: Bytes, document: Item) { Derives(text, document) && BareFree(document.tree) }

  /** A derivation stays one without bare bytes exactly when the text is UTF-8. */
  lemma RfcWhenUtf8(text: Bytes, document: Item) returns (rfc: Item)
    requires Derives(text, document) && WellFormed(text)
    ensures RfcDerives(text, rfc) && TreeHeight(rfc.tree) == TreeHeight(document.tree)
    ensures PairedTree(rfc.tree) == PairedTree(document.tree)
    ensures PairedTree(rfc.tree) ==> Meaning(rfc.tree) == Meaning(document.tree)
  {
    hide WellFormed, Spell, TreeOk, Meaning, PairedTree, BareFree, AllWhitespace;
    BlanksBefore(document.before, Spell(document.tree) + document.after);
    var t := TreeWithoutBare(document.tree, document.after);
    rfc := Item(document.before, t, document.after);
    DerivationsAgree(text, rfc, document);
  }

  lemma RfcIsUtf8(text: Bytes, document: Item)
    requires RfcDerives(text, document)
    ensures WellFormed(text)
  {
    SpellUtf8(document.tree);
    PaddedUtf8(document, Spell(document.tree));
  }

  /** The grammar with bare bytes adds exactly the texts that are not UTF-8. */
  lemma RfcExactlyUtf8(text: Bytes)
    ensures (exists document: Item :: RfcDerives(text, document))
       <==> WellFormed(text) && exists document: Item :: Derives(text, document)
  {
    hide Derives, WellFormed, BareFree;
    forall document: Item | RfcDerives(text, document) ensures WellFormed(text) {
      RfcIsUtf8(text, document);
    }
    if document: Item :| WellFormed(text) && Derives(text, document) {
      var rfc := RfcWhenUtf8(text, document);
    }
  }

  /** `text` is a JSON text by RFC 8259, within the two limits the parser sets, and means `v`. */
  ghost predicate RfcMeans(text: Bytes, v: Value) {
    exists document: Item :: RfcDerives(text, document) && Fits(document.tree, 0) && Meaning(document.tree) == v
  }

  /**
   For every text: `parse` does what RFC 8259 says, within the two limits, if and
   only if the text is UTF-8 or has no derivation within them at all.
   */
  lemma ParseIsRfcExactly(text: Bytes)
    ensures (forall v :: Parse(text) == Some(v) <==> RfcMeans(text, v))
       <==> WellFormed(text) || !exists document: Item :: Derives(text, document) && Fits(document.tree, 0)
  {
    hide WellFormed, BareFree, Fits, Meaning, Parse, TreeOk, Spell;
    forall document: Item | Derives(text, document)
      ensures Parse(text) == if Fits(document.tree, 0) then Some(Meaning(document.tree)) else None
      ensures BareFree(document.tree) ==> WellFormed(text)
    {
      if BareFree(document.tree) { RfcIsUtf8(text, document); }
      Decided(text, document);
    }
    if Parse(text).Some? {
      ParseExactlyTheGrammar(text, Parse(text).value);
      if WellFormed(text) { AcceptedMeansRfc(text); }
    }
  }

  lemma Decided(text: Bytes, document: Item)
    requires Derives(text, document)
    ensures Parse(text) == if Fits(document.tree, 0) then Some(Meaning(document.tree)) else None
  {
    hide Derives, Parse, Meaning;
    ParseOfDerivation(text, document);
  }

  lemma AcceptedMeansRfc(text: Bytes)
    requires WellFormed(text) && Parse(text).Some?
    ensures RfcMeans(text, Parse(text).value)
  {
    hide Derives, WellFormed, BareFree, Meaning, TreeHeight, PairedTree, ParseWithin;
    var document := ReadDerivation(text, MAX_PARSE_DEPTH);
    var rfc := RfcWhenUtf8(text, document);
    assert Fits(rfc.tree, 0);
  }

  /** A bare byte: accepted, and no JSON text. */
  lemma AcceptedThoughNotUtf8()
    ensures Parse([QUOTE, 0xFF, QUOTE]) == Some(Value.String([0xFF]))
    ensures !WellFormed([QUOTE, 0xFF, QUOTE])
    ensures forall document: Item :: !RfcDerives([QUOTE, 0xFF, QUOTE], document)
  {
    var text := [QUOTE, 0xFF, QUOTE];
    var cs := [Bare(0xFF)];
    BareText(text, cs);
    assert ScalarLength(text) == 1 && text[1..][0] == 0xFF;
    forall document: Item ensures !RfcDerives(text, document) {
      if RfcDerives(text, document) { RfcIsUtf8(text, document); }
    }
  }

  lemma BareText(text: Bytes, cs: seq<Char>)
    requires text == [QUOTE, 0xFF, QUOTE] && cs == [Bare(0xFF)]
    ensures Parse(text) == Some(Value.String([0xFF]))
  {
    hide Parse;
    SpellOne(cs[0]);
    var document := Item([], StringTree(cs), []);
    assert Spell(document.tree) == text;
    assert [] + (text + []) == text;
    assert cs[1..] == [] && CharsMeaning(cs) == [0xFF];
    ParseOfDerivation(text, document);
  }

  /** A lone surrogate escape: a JSON text, and refused. */
  lemma RefusedThoughDerived(text: Bytes)
    requires text == [QUOTE, BACKSLASH, LOWER_U, 0x64, 0x38, 0x30, 0x30, QUOTE]
    ensures Parse(text).None?
    ensures exists document: Item :: RfcDerives(text, document)
  {
    hide Parse, Derives, RfcDerives, Fits;
    var document := LoneSurrogate(text);
    Decided(text, document);
  }

  lemma LoneSurrogate(text: Bytes) returns (document: Item)
    requires text == [QUOTE, BACKSLASH, LOWER_U, 0x64, 0x38, 0x30, 0x30, QUOTE]
    ensures RfcDerives(text, document) && Derives(text, document) && !Fits(document.tree, 0)
  {
    var hex := [0x64, 0x38, 0x30, 0x30];
    assert IsHex4(hex) && Hex4Value(hex) == 0xD800;
    var cs := [Unicode(hex)];
    SpellOne(cs[0]);
    document := Item([], StringTree(cs), []);
    assert Spell(document.tree) == text;
    assert [] + (text + []) == text;
    assert HighEscape(cs[0]) && !Paired(cs);
  }

  // ------------------------------------------------------- UTF-8 meanings

  predicate Utf8Value(v: Value)
    decreases v
  {
    match v
    case String(s) => WellFormed(s)
    case Array(items) => forall i | 0 <= i < |items| :: Utf8Value(items[i])
    case Object(members) =>
      forall i | 0 <= i < |members| :: WellFormed(members[i].key) && Utf8Value(members[i].value)
    case _ => true
  }

  lemma CharMeaningUtf8(c: Char)
    requires CharOk(c) && !c.Bare? && !HighEscape(c) && !LowEscape(c)
    ensures WellFormed(CharMeaning(c))
  {
    match c
    case Scalar(cp) => EncodeWellFormed(cp);
    case Short(letter) => AsciiUtf8(CharMeaning(c));
    case Unicode(hex) => EncodeWellFormed(Hex4Value(hex));
  }

  lemma PairMeaningUtf8(high: Char, low: Char)
    requires HighEscape(high) && LowEscape(low)
    ensures WellFormed(PairMeaning(high, low))
  {
    hide EncodeUtf8, WellFormed, IsHex4, Hex4Value;
    EncodeWellFormed(CombineSurrogates(Hex4Value(high.hex), Hex4Value(low.hex)));
  }

  lemma {:induction false} CharsMeaningUtf8(cs: seq<Char>)
    requires CharsOk(cs) && Paired(cs) && NoBareBytes(cs)
    ensures WellFormed(CharsMeaning(cs))
    decreases |cs|
  {
    hide WellFormed, HighEscape, LowEscape, CharOk, CharMeaning, PairMeaning;
    EmptyUtf8();
    if cs == [] {
    } else if StartsPair(cs) {
      PairMeaningUtf8(cs[0], cs[1]);
      CharsMeaningUtf8(cs[2..]);
      Joined(PairMeaning(cs[0], cs[1]), CharsMeaning(cs[2..]));
    } else {
      CharMeaningUtf8(cs[0]);
      CharsMeaningUtf8(cs[1..]);
      Joined(CharMeaning(cs[0]), CharsMeaning(cs[1..]));
    }
  }

  lemma {:induction false} MeaningUtf8(t: Tree)
    requires TreeOk(t) && PairedTree(t) && BareFree(t)
    ensures Utf8Value(Meaning(t))
    decreases t
  {
    match t
    case StringTree(chars) => CharsMeaningUtf8(chars);
    case ArrayTree(items) => ItemsUtf8(items);
    case ObjectTree(fields) => FieldsUtf8(fields, []);
    case _ =>
  }

  lemma {:induction false} ItemsUtf8(items: Items)
    requires ItemsOk(items) && EveryItemString(items, Paired) && EveryItemString(items, NoBareBytes)
    ensures forall i | 0 <= i < |ItemsMeaning(items)| :: Utf8Value(ItemsMeaning(items)[i])
    decreases items
  {
    MeaningUtf8(items.item.tree);
    if items.MoreItems? { ItemsUtf8(items.others); }
  }

  lemma {:induction false} FieldsUtf8(fields: Fields, sofar: seq<Member>)
    requires FieldsOk(fields) && EveryFieldString(fields, Paired) && EveryFieldString(fields, NoBareBytes)
    requires Utf8Value(Value.Object(sofar))
    ensures Utf8Value(Value.Object(FieldsMeaning(fields, sofar)))
    decreases fields
  {
    hide WellFormed, Paired, NoBareBytes;
    CharsMeaningUtf8(fields.field.key);
    MeaningUtf8(fields.field.tree);
    if fields.MoreFields? {
      FieldsUtf8(fields.others, SetMember(sofar, CharsMeaning(fields.field.key), Meaning(fields.field.tree)));
    }
  }

  /** A well-formed UTF-8 document only yields well-formed UTF-8 strings and keys. */
  lemma ParseKeepsUtf8(text: Bytes)
    requires WellFormed(text)
    ensures Parse(text).Some? ==> Utf8Value(Parse(text).value)
  {
    hide Derives, WellFormed, ParseWithin, Utf8Value;
    if Parse(text).Some? {
      var document := ReadDerivation(text, MAX_PARSE_DEPTH);
      var rfc := RfcWhenUtf8(text, document);
      RfcParts(text, rfc);
      MeaningUtf8(rfc.tree);
    }
  }

  lemma RfcParts(text: Bytes, document: Item)
    requires RfcDerives(text, document)
    ensures TreeOk(document.tree) && BareFree(document.tree)
  {
  }
}
