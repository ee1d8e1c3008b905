/**
 The parser accepts exactly the grammar, within the depth limit, and returns
 exactly what the text means.
 */
module JsonCorrectness {
  import opened Text
  import opened JsonValue
  import opened Utf8
  import opened JsonGrammar
  import opened JsonReader

  // ------------------------------------------------------- completeness

  /** `rest` cannot extend a number that ends just before it. */
  predicate Stops(rest: Bytes) {
    rest == [] || (!IsDigit(rest[0]) && rest[0] != POINT && rest[0] != LOWER_E && rest[0] != UPPER_E)
  }

  predicate NotBlank(s: Bytes) { s == [] || !IsWhitespace(s[0]) }

  lemma {:induction false} SkipOver(ws: Bytes, s: Bytes)
    requires AllWhitespace(ws)
    ensures NotBlank(s) ==> SkipWhitespace(ws + s) == s
    ensures SkipWhitespace(ws + s) == SkipWhitespace(s)
  {
    if ws == [] {
      assert ws + s == s;
    } else {
      assert (ws + s)[1..] == ws[1..] + s;
      SkipOver(ws[1..], s);
    }
  }

  lemma Hex4Complete(hex: Bytes, rest: Bytes)
    requires IsHex4(hex)
    ensures ReadHex4(hex + rest) == Done(Hex4Value(hex), rest)
  {
    Split(hex, rest);
  }

  /** Bytes from 0x80 up are copied through, however many there are. */
  lemma {:induction false} HighBytesCopied(head: Bytes, more: Bytes)
    requires forall i | 0 <= i < |head| :: head[i] >= 0x80
    ensures ReadChars(head + more) == Prepend(head, ReadChars(more))
    decreases |head|
  {
    if head == [] {
      assert head + more == more;
      if ReadChars(more).Done? { assert [] + ReadChars(more).value == ReadChars(more).value; }
    } else {
      assert head == [head[0]] + head[1..];
      Regroup([head[0]], head[1..], more);
      HighByteCopied(head[0], head[1..] + more);
      hide ReadChars;
      HighBytesCopied(head[1..], more);
      if ReadChars(more).Done? { Regroup([head[0]], head[1..], ReadChars(more).value); }
    }
  }

  lemma HighByteCopied(b: Byte, more: Bytes)
    requires b >= 0x80
    ensures ReadChars([b] + more) == Prepend([b], ReadChars(more))
  {
    Split([b], more);
  }

  lemma ScalarBytes(cp: CodePoint)
    requires IsScalar(cp)
    ensures cp >= 0x80 ==> EncodeUtf8(cp)[0] >= 0xC0 && forall i | 0 <= i < |EncodeUtf8(cp)| :: EncodeUtf8(cp)[i] >= 0x80
    ensures cp < 0x80 ==> EncodeUtf8(cp) == [cp]
  {
  }

  lemma ScalarComplete(cp: CodePoint, more: Bytes)
    requires CharOk(Scalar(cp))
    ensures ReadChars(EncodeUtf8(cp) + more) == Prepend(EncodeUtf8(cp), ReadChars(more))
  {
    hide EncodeUtf8;
    ScalarBytes(cp);
    if cp >= 0x80 { HighBytesCopied(EncodeUtf8(cp), more); } else { Split([cp as Byte], more); }
  }

  /** Reading on after one character that is no `\u` escape. */
  lemma PlainComplete(c: Char, more: Bytes)
    requires CharOk(c) && !c.Unicode?
    ensures ReadChars(SpellChar(c) + more) == Prepend(CharMeaning(c), ReadChars(more))
  {
    match c
    case Scalar(cp) =>
      ScalarComplete(cp, more);
    case Short(letter) =>
      var s := [BACKSLASH, letter] + more;
      assert s[0] == BACKSLASH && s[1] == letter && s[2..] == more;
    case Bare(b) =>
      Split([b], more);
  }

  /** A `\u` escape puts its four digits next. */
  lemma EscapeRead(hex: Bytes, more: Bytes)
    requires IsHex4(hex)
    ensures ReadChars(SpellChar(Unicode(hex)) + more)
         == match ReadUnicode(hex + more)
            case Fail => Fail
            case Done(piece, t) => Prepend(piece, ReadChars(t))
    ensures ReadHex4(hex + more) == Done(Hex4Value(hex), more)
  {
    hide ReadUnicode, IsHex4;
    Hex4Complete(hex, more);
    var s := [BACKSLASH, LOWER_U] + (hex + more);
    Regroup([BACKSLASH, LOWER_U], hex, more);
    assert s[0] == BACKSLASH && s[1] == LOWER_U && s[2..] == hex + more;
  }

  /** An escape that is no high surrogate: read by itself, and refused when it is a low one. */
  lemma UnitComplete(c: Char, more: Bytes)
    requires CharOk(c) && c.Unicode? && !HighEscape(c)
    ensures ReadChars(SpellChar(c) + more)
         == if LowEscape(c) then Fail else Prepend(CharMeaning(c), ReadChars(more))
  {
    EscapeRead(c.hex, more);
  }

  lemma PairComplete(high: Char, low: Char, more: Bytes)
    requires HighEscape(high) && LowEscape(low)
    ensures ReadChars(SpellChar(high) + (SpellChar(low) + more)) == Prepend(PairMeaning(high, low), ReadChars(more))
  {
    hide ReadChars, IsHex4, EncodeUtf8;
    EscapeRead(high.hex, SpellChar(low) + more);
    EscapeRead(low.hex, more);
    var t := SpellChar(low) + more;
    Regroup([BACKSLASH, LOWER_U], low.hex, more);
    assert t[0] == BACKSLASH && t[1] == LOWER_U && t[2..] == low.hex + more;
  }

  /** A high surrogate escape is refused unless an escaped low one follows. */
  lemma HighAlone(high: Char, more: Bytes)
    requires HighEscape(high) && more != []
    requires more[0] == BACKSLASH && |more| >= 2 && more[1] == LOWER_U ==>
               ReadHex4(more[2..]).Done? && !IsLow(ReadHex4(more[2..]).value)
    ensures ReadChars(SpellChar(high) + more) == Fail
  {
    hide ReadChars, IsHex4;
    EscapeRead(high.hex, more);
  }

  lemma HighUnpaired(cs: seq<Char>, tail: Bytes)
    requires CharsOk(cs) && cs != [] && HighEscape(cs[0]) && !StartsPair(cs)
    ensures ReadChars(SpellChars(cs) + ([QUOTE] + tail)) == Fail
  {
    hide ReadChars, ReadHex4;
    var end := [QUOTE] + tail;
    var more := SpellChars(cs[1..]) + end;
    Regroup(SpellChar(cs[0]), SpellChars(cs[1..]), end);
    if |cs| > 1 {
      var c, others := cs[1], SpellChars(cs[2..]) + end;
      assert cs[1..][0] == c && cs[1..][1..] == cs[2..];
      Regroup(SpellChar(c), SpellChars(cs[2..]), end);
      FirstBytes(c, others);
    }
    HighAlone(cs[0], more);
  }

  /** Only a `\u` escape begins as one. */
  lemma FirstBytes(c: Char, more: Bytes)
    requires CharOk(c)
    ensures var s := SpellChar(c) + more;
            && (s[0] == BACKSLASH && |s| >= 2 && s[1] == LOWER_U <==> c.Unicode?)
            && (c.Unicode? ==> ReadHex4(s[2..]) == Done(Hex4Value(c.hex), more))
            && s[0] != QUOTE
  {
    var s := SpellChar(c) + more;
    match c
    case Scalar(cp) => ScalarBytes(cp); assert s[0] == EncodeUtf8(cp)[0];
    case Short(letter) => assert s[1] == letter;
    case Unicode(hex) =>
      Regroup([BACKSLASH, LOWER_U], hex, more);
      assert s[2..] == hex + more;
      Hex4Complete(hex, more);
    case Bare(b) =>
  }

  /** A string is read as what it means when its surrogates are paired, and refused otherwise. */
  lemma {:induction false} CharsComplete(cs: seq<Char>, rest: Bytes)
    requires CharsOk(cs)
    ensures ReadChars(SpellChars(cs) + ([QUOTE] + rest)) == if Paired(cs) then Done(CharsMeaning(cs), rest) else Fail
    decreases |cs|
  {
    hide SpellChar, CharMeaning, PairMeaning, HighEscape, LowEscape, CharOk;
    var end := [QUOTE] + rest;
    if cs == [] {
      assert SpellChars(cs) + end == end;
      Split([QUOTE], rest);
    } else if StartsPair(cs) {
      hide ReadChars;
      var more := SpellChars(cs[2..]) + end;
      assert cs[1..][0] == cs[1] && cs[1..][1..] == cs[2..];
      Regroup(SpellChar(cs[1]), SpellChars(cs[2..]), end);
      Regroup(SpellChar(cs[0]), SpellChars(cs[1..]), end);
      PairComplete(cs[0], cs[1], more);
      CharsComplete(cs[2..], rest);
    } else if HighEscape(cs[0]) {
      HighUnpaired(cs, rest);
    } else {
      hide ReadChars;
      var more := SpellChars(cs[1..]) + end;
      Regroup(SpellChar(cs[0]), SpellChars(cs[1..]), end);
      CharsComplete(cs[1..], rest);
      EscapesAreUnicode(cs[0]);
      if cs[0].Unicode? { UnitComplete(cs[0], more); } else { PlainComplete(cs[0], more); }
    }
  }

  lemma EscapesAreUnicode(c: Char)
    ensures HighEscape(c) || LowEscape(c) ==> c.Unicode?
  {
  }

  lemma StringComplete(cs: seq<Char>, rest: Bytes)
    requires CharsOk(cs)
    ensures StartsWith(SpellString(cs) + rest, QUOTE)
    ensures ReadChars((SpellString(cs) + rest)[1..]) == if Paired(cs) then Done(CharsMeaning(cs), rest) else Fail
  {
    Regroup([QUOTE], SpellChars(cs) + [QUOTE], rest);
    Regroup(SpellChars(cs), [QUOTE], rest);
    Split([QUOTE], SpellChars(cs) + ([QUOTE] + rest));
    CharsComplete(cs, rest);
  }

  lemma {:induction false} DigitRunExact(digits: Bytes, rest: Bytes)
    requires AllDigits(digits) && (rest == [] || !IsDigit(rest[0]))
    ensures DigitRun(digits + rest) == |digits|
    ensures (digits + rest)[..|digits|] == digits && (digits + rest)[|digits|..] == rest
  {
    if digits == [] {
      assert digits + rest == rest;
    } else {
      assert (digits + rest)[1..] == digits[1..] + rest;
      DigitRunExact(digits[1..], rest);
    }
  }

  predicate ExponentOk(e: Exponent) {
    && e.digits != [] && AllDigits(e.digits)
    && (e.sign.Some? ==> e.sign.value in {MINUS, PLUS})
  }

  lemma SignComplete(sign: Option<Byte>, rest: Bytes)
    requires sign.Some? ==> sign.value in {MINUS, PLUS}
    requires rest != [] && IsDigit(rest[0])
    ensures ReadSign(SpellSign(sign) + rest) == (sign, rest)
  {
    Split(SpellSign(sign), rest);
    if sign.None? { assert SpellSign(sign) + rest == rest; }
  }

  lemma ExponentComplete(e: Option<Exponent>, rest: Bytes)
    requires Stops(rest)
    requires e.Some? ==> ExponentOk(e.value)
    ensures ReadExponent(SpellExponent(e) + rest) == Done(e, rest)
  {
    hide DigitRun, ReadSign, SpellSign;
    if e.None? {
      assert SpellExponent(e) + rest == rest;
    } else {
      var digits, sign := e.value.digits, SpellSign(e.value.sign);
      var letter := [if e.value.upper then UPPER_E else LOWER_E];
      DigitRunExact(digits, rest);
      assert IsDigit((digits + rest)[0]);
      SignComplete(e.value.sign, digits + rest);
      Regroup(letter, sign + digits, rest);
      Regroup(sign, digits, rest);
      Split(letter, sign + (digits + rest));
    }
  }

  lemma FractionComplete(f: Option<Bytes>, rest: Bytes)
    requires f.Some? ==> f.value != [] && AllDigits(f.value)
    requires rest == [] || (!IsDigit(rest[0]) && rest[0] != POINT)
    ensures ReadFraction(SpellFraction(f) + rest) == Done(f, rest)
  {
    var s := SpellFraction(f) + rest;
    if f.None? {
      assert s == rest;
    } else {
      hide DigitRun;
      DigitRunExact(f.value, rest);
      Regroup([POINT], f.value, rest);
      Split([POINT], f.value + rest);
    }
  }

  lemma WholeComplete(whole: Bytes, rest: Bytes)
    requires whole != [] && AllDigits(whole) && (whole[0] == ZERO ==> |whole| == 1)
    requires rest == [] || !IsDigit(rest[0])
    ensures ReadWhole(whole + rest) == Done(whole, rest)
  {
    DigitRunExact(whole, rest);
    if whole[0] == ZERO {
      assert whole == [ZERO];
    }
  }

  lemma TokenComplete(t: NumberToken, rest: Bytes)
    requires TokenOk(t) && Stops(rest)
    ensures ReadToken(SpellNumber(t) + rest) == Done(t, rest)
    ensures StartsWith(SpellNumber(t) + rest, MINUS) || IsDigit((SpellNumber(t) + rest)[0])
  {
    hide ReadWhole, ReadFraction, ReadExponent;
    var sign := if t.negative then [MINUS] else [];
    var fraction, exponent := SpellFraction(t.fraction), SpellExponent(t.exponent);
    var c := exponent + rest;
    var b := fraction + c;
    var a := t.whole + b;
    Regroup(sign, t.whole + (fraction + exponent), rest);
    Regroup(t.whole, fraction + exponent, rest);
    Regroup(fraction, exponent, rest);
    assert SpellNumber(t) + rest == sign + a;
    Split(sign, a);
    assert IsDigit(a[0]) by { assert a[0] == t.whole[0]; }
    if !t.negative { assert sign + a == a; }
    assert c == [] || c[0] == LOWER_E || c[0] == UPPER_E || c == rest by {
      if t.exponent.None? { assert c == rest; }
    }
    assert b == [] || b[0] == POINT || b == c by {
      if t.fraction.None? { assert b == c; }
    }
    WholeComplete(t.whole, b);
    FractionComplete(t.fraction, c);
    ExponentComplete(t.exponent, rest);
  }

  lemma NumberComplete(t: NumberToken, rest: Bytes)
    requires TokenOk(t) && Stops(rest)
    ensures ReadNumber(SpellNumber(t) + rest) == Done(Value.Number(ToDouble(TokenValue(t))), rest)
  {
    hide SpellNumber, ReadToken, TokenOk, TokenValue, ToDouble;
    TokenComplete(t, rest);
    TokenComplete(t, []);
    var s := SpellNumber(t) + rest;
    assert SpellNumber(t) + [] == SpellNumber(t);
    assert s[..|s| - |rest|] == SpellNumber(t);
  }

  lemma SpellStarts(t: Tree)
    requires TreeOk(t)
    ensures Spell(t) != []
    ensures !IsWhitespace(Spell(t)[0])
    ensures Spell(t)[0] != CLOSE_BRACKET && Spell(t)[0] != CLOSE_BRACE
  {
    if t.NumberTree? {
      TokenComplete(t.token, []);
      assert Spell(t) + [] == Spell(t);
    }
  }

  lemma LiteralComplete(literal: Bytes, value: Value, rest: Bytes)
    requires literal != []
    ensures ReadLiteral(literal + rest, literal, value) == Done(value, rest)
  {
    assert (literal + rest)[..|literal|] == literal;
    assert (literal + rest)[|literal|..] == rest;
  }

  /** What reading gives for content that means `value`, when it is within the limits. */
  function Expected(value: Value, rest: Bytes, ok: bool): Parsed<Value> {
    if ok then Done(value, rest) else Fail
  }

  /** The two limits of the parser: how deep a value may start, and surrogates in pairs. */
  predicate Fits(t: Tree, depth: int) { depth + TreeHeight(t) <= MAX_PARSE_DEPTH && PairedTree(t) }

  predicate FitItems(items: Items, depth: int) {
    depth + ItemsTreeHeight(items) <= MAX_PARSE_DEPTH && EveryItemString(items, Paired)
  }

  predicate FitFields(fields: Fields, depth: int) {
    depth + FieldsTreeHeight(fields) <= MAX_PARSE_DEPTH && EveryFieldString(fields, Paired)
  }

  lemma BracketsSplit(open: Byte, inside: Bytes, close: Byte, rest: Bytes)
    ensures ([open] + (inside + [close])) + rest == [open] + (inside + ([close] + rest))
    ensures ([open] + (inside + ([close] + rest)))[1..] == inside + ([close] + rest)
  {
    Regroup([open], inside + [close], rest);
    Regroup(inside, [close], rest);
    Split([open], inside + ([close] + rest));
  }

  /** What follows the first item of a list that `end` closes. */
  function ItemsTail(items: Items, end: Bytes): Bytes {
    if items.LastItem? then end else [COMMA] + (SpellItems(items.others) + end)
  }

  function FieldsTail(fields: Fields, end: Bytes): Bytes {
    if fields.LastField? then end else [COMMA] + (SpellFields(fields.others) + end)
  }

  lemma ItemsSplit(items: Items, end: Bytes)
    ensures SpellItems(items) + end
         == items.item.before + (Spell(items.item.tree) + (items.item.after + ItemsTail(items, end)))
  {
    var i, tail := items.item, ItemsTail(items, end);
    if items.MoreItems? {
      var others := SpellItems(items.others);
      Regroup(Padded(i, Spell(i.tree)), [COMMA] + others, end);
      Regroup([COMMA], others, end);
    }
    Regroup(i.before, Spell(i.tree) + i.after, tail);
    Regroup(Spell(i.tree), i.after, tail);
  }

  lemma KeyedSplit(f: Field, value: Bytes, tail: Bytes)
    ensures Keyed(f, value) + tail
         == f.before + (SpellString(f.key)
                        + (f.afterKey + ([COLON] + (f.beforeValue + (value + (f.after + tail))))))
  {
    var d := value + f.after;
    var c := f.beforeValue + d;
    var b := f.afterKey + ([COLON] + c);
    Regroup(f.before, SpellString(f.key) + b, tail);
    Regroup(SpellString(f.key), b, tail);
    Regroup(f.afterKey, [COLON] + c, tail);
    Regroup([COLON], c, tail);
    Regroup(f.beforeValue, d, tail);
    Regroup(value, f.after, tail);
  }

  lemma FieldsSplit(fields: Fields, end: Bytes)
    ensures SpellFields(fields) + end
         == Keyed(fields.field, Spell(fields.field.tree)) + FieldsTail(fields, end)
  {
    if fields.MoreFields? {
      var others := SpellFields(fields.others);
      Regroup(Keyed(fields.field, Spell(fields.field.tree)), [COMMA] + others, end);
      Regroup([COMMA], others, end);
    }
  }

  lemma SkipTwice(s: Bytes)
    ensures SkipWhitespace(SkipWhitespace(s)) == SkipWhitespace(s)
  {
  }

  lemma ReadItemsSkips(s: Bytes, depth: int, sofar: seq<Value>)
    ensures ReadItems(SkipWhitespace(s), depth, sofar) == ReadItems(s, depth, sofar)
  {
    SkipTwice(s);
  }

  lemma ReadFieldsSkips(s: Bytes, depth: int, sofar: seq<Member>)
    ensures ReadFields(SkipWhitespace(s), depth, sofar) == ReadFields(s, depth, sofar)
  {
    SkipTwice(s);
  }

  lemma ItemsHead(items: Items, end: Bytes)
    requires ItemsOk(items)
    ensures SkipWhitespace(SpellItems(items) + end)
         == Spell(items.item.tree) + (items.item.after + ItemsTail(items, end))
    ensures !StartsWith(SkipWhitespace(SpellItems(items) + end), CLOSE_BRACKET)
  {
    ItemsSplit(items, end);
    SpellStarts(items.item.tree);
    SkipOver(items.item.before, Spell(items.item.tree) + (items.item.after + ItemsTail(items, end)));
  }

  /** A separator or bracket ends both numbers and whitespace. */
  lemma AfterValue(after: Bytes, tail: Bytes)
    requires AllWhitespace(after)
    requires tail != [] && tail[0] in {COMMA, CLOSE_BRACKET, CLOSE_BRACE}
    ensures Stops(after + tail)
    ensures SkipWhitespace(after + tail) == tail
  {
    SkipOver(after, tail);
    if after == [] { assert after + tail == tail; }
  }

  lemma KeyComplete(f: Field, tail: Bytes)
    requires KeyOk(f) && NotBlank(tail)
    ensures var s := f.before + (SpellString(f.key) + (f.afterKey + ([COLON] + (f.beforeValue + tail))));
            && StartsWith(SkipWhitespace(s), QUOTE)
            && ReadKey(s) == if Paired(f.key) then Done(CharsMeaning(f.key), tail) else Fail
  {
    var c := [COLON] + (f.beforeValue + tail);
    SkipOver(f.before, SpellString(f.key) + (f.afterKey + c));
    StringComplete(f.key, f.afterKey + c);
    SkipOver(f.afterKey, c);
    Split([COLON], f.beforeValue + tail);
    SkipOver(f.beforeValue, tail);
  }

  lemma FieldsHead(fields: Fields, end: Bytes)
    requires FieldsOk(fields)
    ensures var f := fields.field;
            ReadKey(SpellFields(fields) + end)
            == if Paired(f.key)
               then Done(CharsMeaning(f.key), Spell(f.tree) + (f.after + FieldsTail(fields, end))) else Fail
    ensures StartsWith(SkipWhitespace(SpellFields(fields) + end), QUOTE)
  {
    var f := fields.field;
    FieldsSplit(fields, end);
    KeyedSplit(f, Spell(f.tree), FieldsTail(fields, end));
    SpellStarts(f.tree);
    KeyComplete(f, Spell(f.tree) + (f.after + FieldsTail(fields, end)));
  }

  lemma ArrayReads(inside: Bytes, rest: Bytes, depth: int)
    ensures var s := ([OPEN_BRACKET] + (inside + [CLOSE_BRACKET])) + rest;
            var body := inside + ([CLOSE_BRACKET] + rest);
            && StartsWith(s, OPEN_BRACKET)
            && ReadArray(s, depth)
               == if StartsWith(SkipWhitespace(body), CLOSE_BRACKET)
                  then Done(Value.Array([]), SkipWhitespace(body)[1..])
                  else ReadItems(body, depth, [])
  {
    BracketsSplit(OPEN_BRACKET, inside, CLOSE_BRACKET, rest);
    ReadItemsSkips(inside + ([CLOSE_BRACKET] + rest), depth, []);
  }

  lemma ObjectReads(inside: Bytes, rest: Bytes, depth: int)
    ensures var s := ([OPEN_BRACE] + (inside + [CLOSE_BRACE])) + rest;
            var body := inside + ([CLOSE_BRACE] + rest);
            && StartsWith(s, OPEN_BRACE)
            && ReadObject(s, depth)
               == if StartsWith(SkipWhitespace(body), CLOSE_BRACE)
                  then Done(Value.Object([]), SkipWhitespace(body)[1..])
                  else ReadFields(body, depth, [])
  {
    BracketsSplit(OPEN_BRACE, inside, CLOSE_BRACE, rest);
    ReadFieldsSkips(inside + ([CLOSE_BRACE] + rest), depth, []);
  }

  lemma EmptyComplete(inside: Bytes, close: Byte, rest: Bytes)
    requires AllWhitespace(inside) && !IsWhitespace(close)
    ensures StartsWith(SkipWhitespace(inside + ([close] + rest)), close)
    ensures SkipWhitespace(inside + ([close] + rest))[1..] == rest
  {
    SkipOver(inside, [close] + rest);
    Split([close], rest);
  }

  lemma EmptyArrayComplete(inside: Bytes, rest: Bytes, depth: int)
    requires AllWhitespace(inside) && depth <= MAX_PARSE_DEPTH
    ensures ReadValue(Spell(EmptyArray(inside)) + rest, depth) == Done(Value.Array([]), rest)
  {
    ArrayReads(inside, rest, depth);
    EmptyComplete(inside, CLOSE_BRACKET, rest);
  }

  lemma EmptyObjectComplete(inside: Bytes, rest: Bytes, depth: int)
    requires AllWhitespace(inside) && depth <= MAX_PARSE_DEPTH
    ensures ReadValue(Spell(EmptyObject(inside)) + rest, depth) == Done(Value.Object([]), rest)
  {
    ObjectReads(inside, rest, depth);
    EmptyComplete(inside, CLOSE_BRACE, rest);
  }

  lemma NumberTreeComplete(token: NumberToken, rest: Bytes, depth: int)
    requires TokenOk(token) && Stops(rest) && depth <= MAX_PARSE_DEPTH
    ensures ReadValue(SpellNumber(token) + rest, depth)
         == Done(Value.Number(ToDouble(TokenValue(token))), rest)
  {
    hide SpellNumber, ReadNumber, ReadValue, TokenOk, TokenValue, ToDouble, Stops;
    TokenComplete(token, rest);
    NumberComplete(token, rest);
    NumberRead(SpellNumber(token) + rest, depth);
  }

  lemma NumberRead(s: Bytes, depth: int)
    requires depth <= MAX_PARSE_DEPTH && s != [] && (s[0] == MINUS || IsDigit(s[0]))
    ensures ReadValue(s, depth) == ReadNumber(s)
  {
    hide ReadNumber, ReadObject, ReadArray, ReadChars, ReadLiteral;
  }

  lemma LeafComplete(t: Tree, rest: Bytes, depth: int)
    requires TreeOk(t) && Stops(rest) && depth <= MAX_PARSE_DEPTH
    requires !t.ArrayTree? && !t.ObjectTree?
    ensures ReadValue(Spell(t) + rest, depth) == Expected(Meaning(t), rest, Fits(t, depth))
  {
    match t
    case TrueTree => LiteralComplete(TRUE, Value.Bool(true), rest);
    case FalseTree => LiteralComplete(FALSE, Value.Bool(false), rest);
    case NullTree => LiteralComplete(NULL, Value.Null, rest);
    case NumberTree(token) => NumberTreeComplete(token, rest, depth);
    case StringTree(chars) => StringComplete(chars, rest);
    case EmptyArray(inside) => EmptyArrayComplete(inside, rest, depth);
    case EmptyObject(inside) => EmptyObjectComplete(inside, rest, depth);
  }

  /** One turn of the array loop. */
  lemma ReadItemsStep(s: Bytes, depth: int, sofar: seq<Value>, value: Value, after: Bytes, tail: Bytes)
    requires ReadValue(SkipWhitespace(s), depth + 1) == Done(value, after + tail)
    requires AllWhitespace(after)
    requires tail != [] && tail[0] in {COMMA, CLOSE_BRACKET}
    ensures ReadItems(s, depth, sofar)
         == if tail[0] == COMMA then ReadItems(tail[1..], depth, sofar + [value])
            else Done(Value.Array(sofar + [value]), tail[1..])
  {
    AfterValue(after, tail);
  }

  lemma ReadItemsFails(s: Bytes, depth: int, sofar: seq<Value>)
    requires ReadValue(SkipWhitespace(s), depth + 1) == Fail
    ensures ReadItems(s, depth, sofar) == Fail
  {
  }

  /** One turn of the object loop. */
  lemma ReadFieldsStep(s: Bytes, depth: int, sofar: seq<Member>, key: Bytes, t: Bytes,
                       value: Value, after: Bytes, tail: Bytes)
    requires ReadKey(s) == Done(key, t)
    requires ReadValue(t, depth + 1) == Done(value, after + tail)
    requires AllWhitespace(after)
    requires tail != [] && tail[0] in {COMMA, CLOSE_BRACE}
    ensures ReadFields(s, depth, sofar)
         == if tail[0] == COMMA then ReadFields(tail[1..], depth, SetMember(sofar, key, value))
            else Done(Value.Object(SetMember(sofar, key, value)), tail[1..])
  {
    AfterValue(after, tail);
  }

  lemma ReadFieldsFails(s: Bytes, depth: int, sofar: seq<Member>)
    requires ReadKey(s).Done? ==> ReadValue(ReadKey(s).rest, depth + 1) == Fail
    ensures ReadFields(s, depth, sofar) == Fail
  {
  }

  lemma TooDeep(s: Bytes, depth: int)
    requires depth > MAX_PARSE_DEPTH
    ensures ReadValue(s, depth) == Fail
  {
  }

  /**
   Reading what a tree spells consumes exactly that and gives its meaning, if no
   value in it is nested beyond the limit and its surrogates are paired, and fails
   otherwise.
   */
  lemma {:induction false} TreeComplete(t: Tree, rest: Bytes, depth: int)
    requires TreeOk(t) && Stops(rest)
    ensures ReadValue(Spell(t) + rest, depth) == Expected(Meaning(t), rest, Fits(t, depth))
    decreases t, 0
  {
    hide ReadValue, Stops;
    if depth > MAX_PARSE_DEPTH {
      TooDeep(Spell(t) + rest, depth);
    } else {
      match t
      case ArrayTree(items) => ArrayComplete(items, rest, depth);
      case ObjectTree(fields) => ObjectComplete(fields, rest, depth);
      case _ => LeafComplete(t, rest, depth);
    }
  }

  lemma {:induction false} ArrayComplete(items: Items, rest: Bytes, depth: int)
    requires ItemsOk(items) && depth <= MAX_PARSE_DEPTH
    ensures ReadValue(Spell(ArrayTree(items)) + rest, depth)
         == Expected(Value.Array(ItemsMeaning(items)), rest, FitItems(items, depth + 1))
    decreases items, 1
  {
    ArrayReads(SpellItems(items), rest, depth);
    ItemsHead(items, [CLOSE_BRACKET] + rest);
    ItemsComplete(items, rest, depth, []);
    assert [] + ItemsMeaning(items) == ItemsMeaning(items);
  }

  lemma {:induction false} ObjectComplete(fields: Fields, rest: Bytes, depth: int)
    requires FieldsOk(fields) && depth <= MAX_PARSE_DEPTH
    ensures ReadValue(Spell(ObjectTree(fields)) + rest, depth)
         == Expected(Value.Object(FieldsMeaning(fields, [])), rest, FitFields(fields, depth + 1))
    decreases fields, 1
  {
    ObjectReads(SpellFields(fields), rest, depth);
    FieldsHead(fields, [CLOSE_BRACE] + rest);
    FieldsComplete(fields, rest, depth, []);
  }

  lemma {:induction false} ItemsComplete(items: Items, rest: Bytes, depth: int, sofar: seq<Value>)
    requires ItemsOk(items)
    ensures ReadItems(SpellItems(items) + ([CLOSE_BRACKET] + rest), depth, sofar)
         == Expected(Value.Array(sofar + ItemsMeaning(items)), rest, FitItems(items, depth + 1))
    decreases items, 0
  {
    hide ReadValue, ReadItems, Stops, SkipWhitespace;
    var item, value := items.item, Meaning(items.item.tree);
    var end := [CLOSE_BRACKET] + rest;
    var tail := ItemsTail(items, end);
    ItemsHead(items, end);
    AfterValue(item.after, tail);
    TreeComplete(item.tree, item.after + tail, depth + 1);
    if Fits(item.tree, depth + 1) {
      ReadItemsStep(SpellItems(items) + end, depth, sofar, value, item.after, tail);
      if items.MoreItems? {
        Split([COMMA], SpellItems(items.others) + end);
        ItemsComplete(items.others, rest, depth, sofar + [value]);
        Regroup(sofar, [value], ItemsMeaning(items.others));
      } else {
        Split([CLOSE_BRACKET], rest);
        assert ItemsMeaning(items) == [value];
      }
    } else {
      ReadItemsFails(SpellItems(items) + end, depth, sofar);
    }
  }

  lemma {:induction false} FieldsComplete(fields: Fields, rest: Bytes, depth: int, sofar: seq<Member>)
    requires FieldsOk(fields)
    ensures ReadFields(SpellFields(fields) + ([CLOSE_BRACE] + rest), depth, sofar)
         == Expected(Value.Object(FieldsMeaning(fields, sofar)), rest, FitFields(fields, depth + 1))
    decreases fields, 0
  {
    hide ReadValue, ReadFields, ReadKey, CharsMeaning, SetMember, Stops, SkipWhitespace;
    var f, key, value := fields.field, CharsMeaning(fields.field.key), Meaning(fields.field.tree);
    var end := [CLOSE_BRACE] + rest;
    var tail := FieldsTail(fields, end);
    FieldsHead(fields, end);
    AfterValue(f.after, tail);
    TreeComplete(f.tree, f.after + tail, depth + 1);
    if Paired(f.key) && Fits(f.tree, depth + 1) {
      ReadFieldsStep(SpellFields(fields) + end, depth, sofar, key, Spell(f.tree) + (f.after + tail),
                     value, f.after, tail);
      if fields.MoreFields? {
        Split([COMMA], SpellFields(fields.others) + end);
        FieldsComplete(fields.others, rest, depth, SetMember(sofar, key, value));
      } else {
        Split([CLOSE_BRACE], rest);
      }
    } else {
      ReadFieldsFails(SpellFields(fields) + end, depth, sofar);
    }
  }

  // ---------------------------------------------------------- soundness

  lemma {:induction false} SkipSound(s: Bytes) returns (ws: Bytes)
    ensures AllWhitespace(ws)
    ensures s == ws + SkipWhitespace(s)
  {
    if s != [] && IsWhitespace(s[0]) {
      var more := SkipSound(s[1..]);
      ws := [s[0]] + more;
    } else {
      ws := [];
    }
  }

  lemma Hex4Sound(s: Bytes)
    requires ReadHex4(s).Done?
    ensures IsHex4(s[..4]) && s == s[..4] + ReadHex4(s).rest
    ensures ReadHex4(s).value == Hex4Value(s[..4])
  {
  }

  /** One or two escapes make what `ReadUnicode` read, after their first `\u`. */
  lemma UnicodeSound(s: Bytes) returns (cs: seq<Char>)
    requires ReadUnicode(s).Done?
    ensures CharsOk(cs) && Paired(cs) && cs != [] && (|cs| == 1 || (|cs| == 2 && StartsPair(cs)))
    ensures [BACKSLASH, LOWER_U] + s == SpellChars(cs) + ReadUnicode(s).rest
    ensures CharsMeaning(cs) == ReadUnicode(s).value
  {
    hide EncodeUtf8, CombineSurrogates, IsHex4, Hex4Value;
    Hex4Sound(s);
    var Done(first, t) := ReadHex4(s);
    var one := Unicode(s[..4]);
    Regroup([BACKSLASH, LOWER_U], s[..4], t);
    if IsHigh(first) {
      Hex4Sound(t[2..]);
      var two, rest := Unicode(t[2..][..4]), ReadHex4(t[2..]).rest;
      Cut(t, 2);
      assert t[..2] == [BACKSLASH, LOWER_U];
      cs := [one, two];
      Regroup([BACKSLASH, LOWER_U], two.hex, rest);
      Regroup(SpellChar(one), SpellChar(two), rest);
      SpellTwo(one, two);
      assert cs[2..] == [] && PairMeaning(one, two) + [] == PairMeaning(one, two);
    } else {
      cs := [one];
      SpellOne(one);
      assert cs[1..] == [] && CharMeaning(one) + [] == CharMeaning(one);
    }
  }

  lemma SpellOne(c: Char)
    ensures SpellChars([c]) == SpellChar(c)
  {
    assert [c][1..] == [] && SpellChar(c) + [] == SpellChar(c);
  }

  lemma SpellTwo(c: Char, d: Char)
    ensures SpellChars([c, d]) == SpellChar(c) + SpellChar(d)
  {
    assert [c, d][1..] == [d];
    SpellOne(d);
  }

  lemma CharSound(s: Bytes) returns (cs: seq<Char>, t: Bytes)
    requires s != [] && s[0] != QUOTE && ReadChar(s).Done?
    ensures CharsOk(cs) && Paired(cs) && cs != [] && (|cs| == 1 || (|cs| == 2 && StartsPair(cs)))
    ensures s == SpellChars(cs) + t
    ensures ReadChar(s) == Done(CharsMeaning(cs), t)
  {
    hide ReadUnicode, IsHex4, Hex4Value;
    if s[0] == BACKSLASH && s[1] == LOWER_U {
      Cut(s, 2);
      assert s[..2] == [BACKSLASH, LOWER_U];
      cs := UnicodeSound(s[2..]);
      t := ReadUnicode(s[2..]).rest;
    } else {
      var c: Char;
      if s[0] == BACKSLASH {
        Cut(s, 2);
        assert s[..2] == [BACKSLASH, s[1]];
        c, t := Short(s[1]), s[2..];
      } else {
        Cut(s, 1);
        c, t := if s[0] < 0x80 then Scalar(s[0]) else Bare(s[0]), s[1..];
      }
      cs := [c];
      SpellOne(c);
      assert cs[1..] == [] && CharMeaning(c) + [] == CharMeaning(c);
    }
  }

  /** A complete piece of one or two characters goes before paired text. */
  lemma PieceBefore(piece: seq<Char>, more: seq<Char>)
    requires CharsOk(piece) && Paired(piece) && CharsOk(more) && Paired(more)
    requires |piece| == 1 || (|piece| == 2 && StartsPair(piece))
    ensures CharsOk(piece + more) && Paired(piece + more)
    ensures SpellChars(piece + more) == SpellChars(piece) + SpellChars(more)
    ensures CharsMeaning(piece + more) == CharsMeaning(piece) + CharsMeaning(more)
  {
    hide SpellChar, CharMeaning, PairMeaning, HighEscape, LowEscape, CharOk;
    var all := piece + more;
    if |piece| == 1 {
      assert piece[1..] == [] && all[1..] == more;
      SpellOne(piece[0]);
      assert CharMeaning(piece[0]) + [] == CharMeaning(piece[0]);
    } else {
      assert piece == [piece[0], piece[1]];
      assert piece[2..] == [] && all[2..] == more && all[1..] == [piece[1]] + more && all[1..][1..] == more;
      SpellTwo(piece[0], piece[1]);
      Regroup(SpellChar(piece[0]), SpellChar(piece[1]), SpellChars(more));
      assert PairMeaning(piece[0], piece[1]) + [] == PairMeaning(piece[0], piece[1]);
    }
  }

  lemma {:induction false} CharsSound(s: Bytes) returns (cs: seq<Char>)
    requires ReadChars(s).Done?
    ensures CharsOk(cs) && Paired(cs)
    ensures s == SpellChars(cs) + ([QUOTE] + ReadChars(s).rest)
    ensures CharsMeaning(cs) == ReadChars(s).value
    decreases |s|
  {
    hide SpellChar, CharMeaning, CharOk, ReadChar;
    if s[0] == QUOTE {
      cs := [];
      Cut(s, 1);
    } else {
      var piece, t := CharSound(s);
      assert |t| < |s|;
      var more := CharsSound(t);
      cs := piece + more;
      PieceBefore(piece, more);
      Regroup(SpellChars(piece), SpellChars(more), [QUOTE] + ReadChars(s).rest);
    }
  }

  lemma WholeSound(s: Bytes)
    requires ReadWhole(s).Done?
    ensures var Done(whole, rest) := ReadWhole(s);
            && s == whole + rest
            && whole != [] && AllDigits(whole) && (whole[0] == ZERO ==> |whole| == 1)
  {
  }

  lemma FractionSound(s: Bytes)
    requires ReadFraction(s).Done?
    ensures var Done(f, rest) := ReadFraction(s);
            && s == SpellFraction(f) + rest
            && (f.Some? ==> f.value != [] && AllDigits(f.value))
  {
    hide DigitRun, AllDigits;
    if StartsWith(s, POINT) {
      var n := DigitRun(s[1..]);
      Cut(s, 1);
      Cut(s[1..], n);
      Regroup([POINT], s[1..][..n], s[1..][n..]);
    } else {
      assert [] + s == s;
    }
  }

  lemma SignSound(s: Bytes)
    ensures s == SpellSign(ReadSign(s).0) + ReadSign(s).1
    ensures ReadSign(s).0.Some? ==> ReadSign(s).0.value in {MINUS, PLUS}
  {
  }

  lemma ExponentSound(s: Bytes)
    requires ReadExponent(s).Done?
    ensures var Done(e, rest) := ReadExponent(s);
            s == SpellExponent(e) + rest && (e.Some? ==> ExponentOk(e.value))
  {
    hide DigitRun, ReadSign, SpellSign;
    var Done(e, rest) := ReadExponent(s);
    if e.Some? {
      Cut(s, 1);
      var (sign, u) := ReadSign(s[1..]);
      SignSound(s[1..]);
      Regroup(SpellSign(sign), e.value.digits, rest);
      Regroup([s[0]], SpellSign(sign) + e.value.digits, rest);
    }
  }

  lemma TokenSound(s: Bytes)
    requires ReadToken(s).Done?
    ensures TokenOk(ReadToken(s).value)
    ensures s == SpellNumber(ReadToken(s).value) + ReadToken(s).rest
  {
    hide ReadWhole, ReadFraction, ReadExponent, SpellFraction, SpellExponent;
    var Done(t, w) := ReadToken(s);
    var sign := if t.negative then [MINUS] else [];
    var a := if t.negative then s[1..] else s;
    var b := ReadWhole(a).rest;
    var c := ReadFraction(b).rest;
    var fraction, exponent := SpellFraction(t.fraction), SpellExponent(t.exponent);
    assert s == sign + a;
    WholeSound(a);
    FractionSound(b);
    ExponentSound(c);
    Regroup(sign, t.whole + (fraction + exponent), w);
    Regroup(t.whole, fraction + exponent, w);
    Regroup(fraction, exponent, w);
  }

  lemma NumberSound(s: Bytes) returns (t: Tree)
    requires ReadNumber(s).Done?
    ensures TreeOk(t) && s == Spell(t) + ReadNumber(s).rest
    ensures Meaning(t) == ReadNumber(s).value && TreeHeight(t) == 0
  {
    hide SpellNumber, ReadToken, TokenOk, TokenValue, ToDouble;
    TokenSound(s);
    var Done(token, rest) := ReadToken(s);
    t := NumberTree(token);
    Split(SpellNumber(token), rest);
    TokenComplete(token, []);
    assert SpellNumber(token) + [] == SpellNumber(token);
  }

  lemma {:induction false} ValueSound(s: Bytes, depth: int) returns (t: Tree)
    requires ReadValue(s, depth).Done?
    ensures TreeOk(t) && s == Spell(t) + ReadValue(s, depth).rest
    ensures Meaning(t) == ReadValue(s, depth).value
    ensures Fits(t, depth)
    decreases |s|, 1
  {
    Split([s[0]], s[1..]);
    assert s == [s[0]] + s[1..];
    if s[0] == OPEN_BRACE {
      t := ObjectSound(s, depth);
    } else if s[0] == OPEN_BRACKET {
      t := ArraySound(s, depth);
    } else if s[0] == QUOTE {
      var chars := CharsSound(s[1..]);
      t := StringTree(chars);
      var rest := ReadChars(s[1..]).rest;
      Regroup(SpellChars(chars), [QUOTE], rest);
      Regroup([QUOTE], SpellChars(chars) + [QUOTE], rest);
    } else if s[0] == TRUE[0] {
      t := TrueTree;
      assert s == TRUE + s[|TRUE|..];
    } else if s[0] == FALSE[0] {
      t := FalseTree;
      assert s == FALSE + s[|FALSE|..];
    } else if s[0] == NULL[0] {
      t := NullTree;
      assert s == NULL + s[|NULL|..];
    } else {
      t := NumberSound(s);
    }
  }

  lemma {:induction false} ArraySound(s: Bytes, depth: int) returns (t: Tree)
    requires s != [] && s[0] == OPEN_BRACKET && depth <= MAX_PARSE_DEPTH && ReadArray(s, depth).Done?
    ensures TreeOk(t) && s == Spell(t) + ReadArray(s, depth).rest
    ensures Meaning(t) == ReadArray(s, depth).value
    ensures Fits(t, depth)
    decreases |s|, 0
  {
    hide ReadItems, AllWhitespace, ReadValue, ItemsOk, SpellItems, ItemsMeaning, SkipWhitespace;
    var u := SkipWhitespace(s[1..]);
    Cut(s, 1);
    if StartsWith(u, CLOSE_BRACKET) {
      var inside := SkipSound(s[1..]);
      Cut(u, 1);
      t := EmptyArray(inside);
      BracketsSplit(OPEN_BRACKET, inside, CLOSE_BRACKET, u[1..]);
    } else {
      ReadItemsSkips(s[1..], depth, []);
      var items := ItemsSound(s[1..], depth, []);
      t := ArrayTree(items);
      BracketsSplit(OPEN_BRACKET, SpellItems(items), CLOSE_BRACKET, ReadArray(s, depth).rest);
      assert [] + ItemsMeaning(items) == ItemsMeaning(items);
    }
  }

  lemma {:induction false} ObjectSound(s: Bytes, depth: int) returns (t: Tree)
    requires s != [] && s[0] == OPEN_BRACE && depth <= MAX_PARSE_DEPTH && ReadObject(s, depth).Done?
    ensures TreeOk(t) && s == Spell(t) + ReadObject(s, depth).rest
    ensures Meaning(t) == ReadObject(s, depth).value
    ensures Fits(t, depth)
    decreases |s|, 0
  {
    hide ReadFields, AllWhitespace, ReadValue, FieldsOk, SpellFields, FieldsMeaning, SkipWhitespace;
    var u := SkipWhitespace(s[1..]);
    Cut(s, 1);
    if StartsWith(u, CLOSE_BRACE) {
      var inside := SkipSound(s[1..]);
      Cut(u, 1);
      t := EmptyObject(inside);
      BracketsSplit(OPEN_BRACE, inside, CLOSE_BRACE, u[1..]);
    } else {
      ReadFieldsSkips(s[1..], depth, []);
      var fields := FieldsSound(s[1..], depth, []);
      t := ObjectTree(fields);
      BracketsSplit(OPEN_BRACE, SpellFields(fields), CLOSE_BRACE, ReadObject(s, depth).rest);
    }
  }

  lemma {:induction false} ItemsSound(s: Bytes, depth: int, sofar: seq<Value>) returns (items: Items)
    requires ReadItems(s, depth, sofar).Done?
    ensures ItemsOk(items)
    ensures s == SpellItems(items) + ([CLOSE_BRACKET] + ReadItems(s, depth, sofar).rest)
    ensures ReadItems(s, depth, sofar).value == Value.Array(sofar + ItemsMeaning(items))
    ensures FitItems(items, depth + 1)
    decreases |s|, 2
  {
    var before := SkipSound(s);
    var tree := ValueSound(SkipWhitespace(s), depth + 1);
    var Done(value, t) := ReadValue(SkipWhitespace(s), depth + 1);
    var after := SkipSound(t);
    var u := SkipWhitespace(t);
    var item := Item(before, tree, after);
    var end := [CLOSE_BRACKET] + ReadItems(s, depth, sofar).rest;
    Cut(u, 1);
    if StartsWith(u, COMMA) {
      var more := ItemsSound(u[1..], depth, sofar + [value]);
      items := MoreItems(item, more);
      Regroup(sofar, [value], ItemsMeaning(more));
    } else {
      items := LastItem(item);
      assert ItemsMeaning(items) == [value];
    }
    assert u == ItemsTail(items, end);
    ItemsSplit(items, end);
  }

  lemma KeySound(s: Bytes) returns (before: Bytes, key: seq<Char>, afterKey: Bytes, beforeValue: Bytes)
    requires ReadKey(s).Done?
    ensures AllWhitespace(before) && CharsOk(key) && AllWhitespace(afterKey) && AllWhitespace(beforeValue)
    ensures Paired(key)
    ensures s == before + (SpellString(key) + (afterKey + ([COLON] + (beforeValue + ReadKey(s).rest))))
    ensures ReadKey(s).value == CharsMeaning(key)
  {
    hide ReadChars, SkipWhitespace, SpellChars, CharsMeaning, CharsOk, AllWhitespace;
    before := SkipSound(s);
    var t := SkipWhitespace(s);
    key := CharsSound(t[1..]);
    var u := ReadChars(t[1..]).rest;
    Cut(t, 1);
    Regroup([QUOTE], SpellChars(key) + [QUOTE], u);
    Regroup(SpellChars(key), [QUOTE], u);
    afterKey := SkipSound(u);
    var w := SkipWhitespace(u);
    beforeValue := SkipSound(w[1..]);
    Cut(w, 1);
  }

  lemma {:induction false} FieldsSound(s: Bytes, depth: int, sofar: seq<Member>) returns (fields: Fields)
    requires ReadFields(s, depth, sofar).Done?
    ensures FieldsOk(fields)
    ensures s == SpellFields(fields) + ([CLOSE_BRACE] + ReadFields(s, depth, sofar).rest)
    ensures ReadFields(s, depth, sofar).value == Value.Object(FieldsMeaning(fields, sofar))
    ensures FitFields(fields, depth + 1)
    decreases |s|, 2
  {
    hide ReadKey, ReadValue, SkipWhitespace, CharsMeaning, CharsOk, AllWhitespace, SetMember;
    var before, key, afterKey, beforeValue := KeySound(s);
    var t := ReadKey(s).rest;
    var tree := ValueSound(t, depth + 1);
    var Done(value, u) := ReadValue(t, depth + 1);
    var after := SkipSound(u);
    var w := SkipWhitespace(u);
    var f := Field(before, key, afterKey, beforeValue, tree, after);
    var end := [CLOSE_BRACE] + ReadFields(s, depth, sofar).rest;
    Cut(w, 1);
    if StartsWith(w, COMMA) {
      var more := FieldsSound(w[1..], depth, SetMember(sofar, CharsMeaning(key), value));
      fields := MoreFields(f, more);
    } else {
      fields := LastField(f);
    }
    assert w == FieldsTail(fields, end);
    FieldsSplit(fields, end);
    KeyedSplit(f, Spell(tree), w);
  }

  // ----------------------------------------------------------- theorems

  /** `text` is a value with whitespace around it, in the grammar. */
  ghost predicate Derives(text: Bytes, document: Item) {
    && PaddingOk(document) && TreeOk(document.tree)
    && text == Padded(document, Spell(document.tree))
  }

  /** Reading a document with the nesting limit `limit`: `parse` does so with 64. */
  lemma DerivationRead(text: Bytes, document: Item, limit: nat)
    requires Derives(text, document)
    ensures ParseWithin(text, limit)
         == if TreeHeight(document.tree) <= limit && PairedTree(document.tree)
            then Some(Meaning(document.tree)) else None
  {
    hide ReadValue, TreeOk, Spell, TreeHeight, Meaning, PairedTree;
    var tail := Spell(document.tree) + document.after;
    SpellStarts(document.tree);
    SkipOver(document.before, tail);
    BlankStops(document.after);
    TreeComplete(document.tree, document.after, MAX_PARSE_DEPTH - limit);
    SkipOver(document.after, []);
    assert document.after + [] == document.after;
  }

  lemma BlankStops(ws: Bytes)
    requires AllWhitespace(ws)
    ensures Stops(ws)
  {
  }

  /**
   Whatever derivation a text has, the verdict on the text is decided by it:
   accepted with its meaning when it is at most 64 deep and its surrogates are
   paired, and refused otherwise.
   */
  lemma ParseOfDerivation(text: Bytes, document: Item)
    requires Derives(text, document)
    ensures Parse(text)
         == if TreeHeight(document.tree) <= 64 && PairedTree(document.tree) then Some(Meaning(document.tree)) else None
  {
    DerivationRead(text, document, MAX_PARSE_DEPTH);
  }

  lemma ReadDerivation(text: Bytes, limit: nat) returns (document: Item)
    requires ParseWithin(text, limit).Some?
    ensures Derives(text, document) && PairedTree(document.tree) && TreeHeight(document.tree) <= limit
    ensures Meaning(document.tree) == ParseWithin(text, limit).value
  {
    hide ReadValue, TreeOk, Spell, TreeHeight, Meaning, PairedTree;
    var before := SkipSound(text);
    var tree := ValueSound(SkipWhitespace(text), MAX_PARSE_DEPTH - limit);
    var after := SkipSound(ReadValue(SkipWhitespace(text), MAX_PARSE_DEPTH - limit).rest);
    document := Item(before, tree, after);
    assert after + [] == after;
  }

  /**
   `parse` succeeds with `v` exactly when the grammar derives the text, meaning
   `v`, at most 64 deep and with its surrogates paired.
   */
  lemma ParseExactlyTheGrammar(text: Bytes, v: Value)
    ensures Parse(text) == Some(v)
       <==> exists document: Item ::
              Derives(text, document) && Fits(document.tree, 0) && Meaning(document.tree) == v
  {
    if Parse(text) == Some(v) {
      var document := ReadDerivation(text, MAX_PARSE_DEPTH);
    }
    forall document: Item | Derives(text, document)
      ensures Parse(text) == if Fits(document.tree, 0) then Some(Meaning(document.tree)) else None
    {
      ParseOfDerivation(text, document);
    }
  }

  /** However a text is derived, its surrogates are paired or not, and if they are it has one meaning. */
  lemma DerivationsAgree(text: Bytes, one: Item, two: Item)
    requires Derives(text, one) && Derives(text, two)
    ensures PairedTree(one.tree) <==> PairedTree(two.tree)
    ensures PairedTree(one.tree) ==> Meaning(one.tree) == Meaning(two.tree)
  {
    hide *;
    var limit := TreeHeight(one.tree) + TreeHeight(two.tree);
    DerivationRead(text, one, limit);
    DerivationRead(text, two, limit);
  }
}
