/**
 The JSON grammar of section 2 to section 7 of RFC 8259, as concrete syntax
 trees: what a tree spells, what it means, and when it is one the grammar
 produces.  Nothing here mentions a parser.

 An unescaped character is a code point, spelled in UTF-8.  One production is
 added to the RFC's: a bare byte from 0x80 up, which the parser lets through.
 A tree without bare bytes is one of the RFC's own (`BareFree`).
 */
module JsonGrammar {
  import opened Text
  import opened JsonValue
  import opened Utf8

  const QUOTE: Byte := 0x22
  const COMMA: Byte := 0x2C
  const COLON: Byte := 0x3A
  const BACKSLASH: Byte := 0x5C
  const OPEN_BRACKET: Byte := 0x5B
  const CLOSE_BRACKET: Byte := 0x5D
  const OPEN_BRACE: Byte := 0x7B
  const CLOSE_BRACE: Byte := 0x7D
  const MINUS: Byte := 0x2D
  const PLUS: Byte := 0x2B
  const POINT: Byte := 0x2E
  const ZERO: Byte := 0x30
  const UPPER_E: Byte := 0x45
  const LOWER_E: Byte := 0x65
  const LOWER_U: Byte := 0x75

  const TRUE: Bytes := [0x74, 0x72, 0x75, 0x65]
  const FALSE: Bytes := [0x66, 0x61, 0x6C, 0x73, 0x65]
  const NULL: Bytes := [0x6E, 0x75, 0x6C, 0x6C]

  /** Depth limit applied by `parse`. */
  const MAX_PARSE_DEPTH: nat := 64

  predicate IsDigit(b: Byte) { 0x30 <= b <= 0x39 }

  predicate IsWhitespace(b: Byte) { b == 0x20 || b == 0x09 || b == 0x0A || b == 0x0D }

  predicate AllDigits(s: Bytes) { forall i | 0 <= i < |s| :: IsDigit(s[i]) }

  predicate AllWhitespace(s: Bytes) { forall i | 0 <= i < |s| :: IsWhitespace(s[i]) }

  // ---------------------------------------------------------------- numbers

  datatype Exponent = Exponent(upper: bool, sign: Option<Byte>, digits: Bytes)

  datatype NumberToken =
    NumberToken(negative: bool, whole: Bytes, fraction: Option<Bytes>, exponent: Option<Exponent>)

  predicate TokenOk(t: NumberToken) {
    && t.whole != [] && AllDigits(t.whole) && (t.whole[0] == ZERO ==> |t.whole| == 1)
    && (t.fraction.Some? ==> t.fraction.value != [] && AllDigits(t.fraction.value))
    && (t.exponent.Some? ==>
          && t.exponent.value.digits != [] && AllDigits(t.exponent.value.digits)
          && (t.exponent.value.sign.Some? ==> t.exponent.value.sign.value in {MINUS, PLUS}))
  }

  function SpellFraction(f: Option<Bytes>): Bytes {
    if f.Some? then [POINT] + f.value else []
  }

  function SpellExponent(e: Option<Exponent>): Bytes {
    if e.None? then [] else
      [if e.value.upper then UPPER_E else LOWER_E] + (SpellSign(e.value.sign) + e.value.digits)
  }

  function SpellSign(sign: Option<Byte>): Bytes {
    if sign.Some? then [sign.value] else []
  }

  function SpellNumber(t: NumberToken): Bytes {
    (if t.negative then [MINUS] else [])
    + (t.whole + (SpellFraction(t.fraction) + SpellExponent(t.exponent)))
  }

  function DigitsValue(digits: Bytes): (n: nat)
    requires AllDigits(digits)
  {
    if digits == [] then 0 else
      var last := digits[|digits| - 1];
      DigitsValue(digits[..|digits| - 1]) * 10 + (last as int - 0x30)
  }

  function Power10(n: nat): (p: real)
    ensures p >= 1.0
  {
    if n == 0 then 1.0 else 10.0 * Power10(n - 1)
  }

  function Scale(mantissa: real, exponent: int): real {
    if exponent >= 0 then mantissa * Power10(exponent) else mantissa / Power10(-exponent)
  }

  function Negate(negative: bool, r: real): real { if negative then -r else r }

  /** The number a token denotes, exactly. */
  function TokenValue(t: NumberToken): real
    requires TokenOk(t)
  {
    var fraction := if t.fraction.Some? then t.fraction.value else [];
    var exponent: int :=
      if t.exponent.None? then 0
      else if t.exponent.value.sign == Some(MINUS) then -(DigitsValue(t.exponent.value.digits) as int)
      else DigitsValue(t.exponent.value.digits);
    Negate(t.negative, Scale(DigitsValue(t.whole + fraction) as real, exponent - |fraction|))
  }

  function Power16(n: nat): (p: nat)
    ensures p >= 1
  {
    if n == 0 then 1 else 16 * Power16(n - 1)
  }

  /** 2^1024 - 2^970: from here on the nearest double is an infinity. */
  function OverflowThreshold(): (t: real)
    ensures t > 1_000_000_000_000_000.0
  {
    (0xFF_FFFF_FFFF_FFFC * Power16(242)) as real
  }

  /** `strtod` on the exact value: overflow goes to an infinity, rounding is not modelled. */
  function ToDouble(r: real): Number {
    if r >= OverflowThreshold() then Infinite(false)
    else if r <= -OverflowThreshold() then Infinite(true)
    else Finite(r)
  }

  // ---------------------------------------------------------------- strings

  /** One `char` of section 7, or a bare byte that need not be part of any code point. */
  datatype Char =
    | Scalar(cp: CodePoint)
    | Short(letter: Byte)
    | Unicode(hex: Bytes)
    | Bare(b: Byte)

  function HexValue(b: Byte): (v: Option<nat>)
    ensures v.Some? ==> v.value < 16
  {
    if 0x30 <= b <= 0x39 then Some(b as int - 0x30)
    else if 0x61 <= b <= 0x66 then Some(b as int - 0x61 + 10)
    else if 0x41 <= b <= 0x46 then Some(b as int - 0x41 + 10)
    else None
  }

  predicate IsHex4(h: Bytes) {
    |h| == 4 && forall i | 0 <= i < 4 :: HexValue(h[i]).Some?
  }

  function Hex4Value(h: Bytes): (n: nat)
    requires IsHex4(h)
    ensures n < 0x10000
  {
    ((HexValue(h[0]).value * 16 + HexValue(h[1]).value) * 16 + HexValue(h[2]).value) * 16
    + HexValue(h[3]).value
  }

  /** The byte a two-character escape stands for. */
  function ShortMeaning(letter: Byte): Option<Byte> {
    match letter
    case 0x22 => Some(0x22)
    case 0x5C => Some(0x5C)
    case 0x2F => Some(0x2F)
    case 0x62 => Some(0x08)
    case 0x66 => Some(0x0C)
    case 0x6E => Some(0x0A)
    case 0x72 => Some(0x0D)
    case 0x74 => Some(0x09)
    case _ => None
  }

  predicate CharOk(c: Char) {
    match c
    case Scalar(cp) => IsScalar(cp) && cp >= 0x20 && cp != QUOTE as int && cp != BACKSLASH as int
    case Short(letter) => ShortMeaning(letter).Some?
    case Unicode(hex) => IsHex4(hex)
    case Bare(b) => b >= 0x80
  }

  function SpellChar(c: Char): (r: Bytes)
    ensures r != []
  {
    match c
    case Scalar(cp) => EncodeUtf8(cp)
    case Short(letter) => [BACKSLASH, letter]
    case Unicode(hex) => [BACKSLASH, LOWER_U] + hex
    case Bare(b) => [b]
  }

  predicate HighEscape(c: Char) { c.Unicode? && IsHex4(c.hex) && IsHigh(Hex4Value(c.hex)) }

  predicate LowEscape(c: Char) { c.Unicode? && IsHex4(c.hex) && IsLow(Hex4Value(c.hex)) }

  /**
   A character by itself.  What a surrogate escape without its partner means is
   left open by section 8.2; the value here is only ever used of paired text.
   */
  function CharMeaning(c: Char): Bytes
    requires CharOk(c)
  {
    match c
    case Scalar(cp) => EncodeUtf8(cp)
    case Short(letter) => [ShortMeaning(letter).value]
    case Unicode(hex) => EncodeUtf8(Hex4Value(hex))
    case Bare(b) => [b]
  }

  function PairMeaning(high: Char, low: Char): Bytes
    requires HighEscape(high) && LowEscape(low)
  {
    EncodeUtf8(CombineSurrogates(Hex4Value(high.hex), Hex4Value(low.hex)))
  }

  predicate CharsOk(cs: seq<Char>) { forall i | 0 <= i < |cs| :: CharOk(cs[i]) }

  function SpellChars(cs: seq<Char>): Bytes {
    if cs == [] then [] else SpellChar(cs[0]) + SpellChars(cs[1..])
  }

  predicate StartsPair(cs: seq<Char>) { |cs| >= 2 && HighEscape(cs[0]) && LowEscape(cs[1]) }

  /** Every surrogate escape is half of a pair: the high one directly before the low one. */
  predicate Paired(cs: seq<Char>)
    decreases |cs|
  {
    cs == [] ||
    (if StartsPair(cs) then Paired(cs[2..])
     else !HighEscape(cs[0]) && !LowEscape(cs[0]) && Paired(cs[1..]))
  }

  function CharsMeaning(cs: seq<Char>): Bytes
    requires CharsOk(cs)
    decreases |cs|
  {
    if cs == [] then []
    else if StartsPair(cs) then PairMeaning(cs[0], cs[1]) + CharsMeaning(cs[2..])
    else CharMeaning(cs[0]) + CharsMeaning(cs[1..])
  }

  predicate NoBareBytes(cs: seq<Char>) { forall i | 0 <= i < |cs| :: !cs[i].Bare? }

  function SpellString(cs: seq<Char>): Bytes { [QUOTE] + (SpellChars(cs) + [QUOTE]) }

  // ----------------------------------------------------------------- values

  datatype Tree =
    | TrueTree
    | FalseTree
    | NullTree
    | NumberTree(token: NumberToken)
    | StringTree(chars: seq<Char>)
    | EmptyArray(inside: Bytes)
    | ArrayTree(items: Items)
    | EmptyObject(inside: Bytes)
    | ObjectTree(fields: Fields)

  /** A value with the whitespace around it. */
  datatype Item = Item(before: Bytes, tree: Tree, after: Bytes)

  datatype Items = LastItem(item: Item) | MoreItems(item: Item, others: Items)

  /** `before` key `afterKey` `:` `beforeValue` value `after`. */
  datatype Field =
    Field(before: Bytes, key: seq<Char>, afterKey: Bytes, beforeValue: Bytes, tree: Tree, after: Bytes)

  datatype Fields = LastField(field: Field) | MoreFields(field: Field, others: Fields)

  predicate TreeOk(t: Tree) {
    match t
    case NumberTree(token) => TokenOk(token)
    case StringTree(chars) => CharsOk(chars)
    case EmptyArray(inside) => AllWhitespace(inside)
    case EmptyObject(inside) => AllWhitespace(inside)
    case ArrayTree(items) => ItemsOk(items)
    case ObjectTree(fields) => FieldsOk(fields)
    case _ => true
  }

  predicate PaddingOk(i: Item) { AllWhitespace(i.before) && AllWhitespace(i.after) }

  predicate ItemsOk(items: Items) {
    && PaddingOk(items.item)
    && TreeOk(items.item.tree)
    && (items.MoreItems? ==> ItemsOk(items.others))
  }

  predicate KeyOk(f: Field) {
    && AllWhitespace(f.before) && CharsOk(f.key) && AllWhitespace(f.afterKey)
    && AllWhitespace(f.beforeValue) && AllWhitespace(f.after)
  }

  predicate FieldsOk(fields: Fields) {
    && KeyOk(fields.field)
    && TreeOk(fields.field.tree)
    && (fields.MoreFields? ==> FieldsOk(fields.others))
  }

  /** What holds of every string and key of a tree. */
  predicate EveryString(t: Tree, p: seq<Char> -> bool) {
    match t
    case StringTree(chars) => p(chars)
    case ArrayTree(items) => EveryItemString(items, p)
    case ObjectTree(fields) => EveryFieldString(fields, p)
    case _ => true
  }

  predicate EveryItemString(items: Items, p: seq<Char> -> bool) {
    && EveryString(items.item.tree, p)
    && (items.MoreItems? ==> EveryItemString(items.others, p))
  }

  predicate EveryFieldString(fields: Fields, p: seq<Char> -> bool) {
    && p(fields.field.key)
    && EveryString(fields.field.tree, p)
    && (fields.MoreFields? ==> EveryFieldString(fields.others, p))
  }

  predicate PairedTree(t: Tree) { EveryString(t, Paired) }

  /** A tree of the RFC's grammar, without the production added here. */
  predicate BareFree(t: Tree) { EveryString(t, NoBareBytes) }

  function Spell(t: Tree): Bytes {
    match t
    case TrueTree => TRUE
    case FalseTree => FALSE
    case NullTree => NULL
    case NumberTree(token) => SpellNumber(token)
    case StringTree(chars) => SpellString(chars)
    case EmptyArray(inside) => [OPEN_BRACKET] + (inside + [CLOSE_BRACKET])
    case ArrayTree(items) => [OPEN_BRACKET] + (SpellItems(items) + [CLOSE_BRACKET])
    case EmptyObject(inside) => [OPEN_BRACE] + (inside + [CLOSE_BRACE])
    case ObjectTree(fields) => [OPEN_BRACE] + (SpellFields(fields) + [CLOSE_BRACE])
  }

  function Padded(i: Item, value: Bytes): Bytes { i.before + (value + i.after) }

  function SpellItems(items: Items): Bytes {
    match items
    case LastItem(item) => Padded(item, Spell(item.tree))
    case MoreItems(item, others) => Padded(item, Spell(item.tree)) + ([COMMA] + SpellItems(others))
  }

  function Keyed(f: Field, value: Bytes): Bytes {
    f.before + (SpellString(f.key) + (f.afterKey + ([COLON] + (f.beforeValue + (value + f.after)))))
  }

  function SpellFields(fields: Fields): Bytes {
    match fields
    case LastField(field) => Keyed(field, Spell(field.tree))
    case MoreFields(field, others) => Keyed(field, Spell(field.tree)) + ([COMMA] + SpellFields(others))
  }

  function Meaning(t: Tree): Value
    requires TreeOk(t)
  {
    match t
    case TrueTree => Value.Bool(true)
    case FalseTree => Value.Bool(false)
    case NullTree => Value.Null
    case NumberTree(token) => Value.Number(ToDouble(TokenValue(token)))
    case StringTree(chars) => Value.String(CharsMeaning(chars))
    case EmptyArray(_) => Value.Array([])
    case ArrayTree(items) => Value.Array(ItemsMeaning(items))
    case EmptyObject(_) => Value.Object([])
    case ObjectTree(fields) => Value.Object(FieldsMeaning(fields, []))
  }

  function ItemsMeaning(items: Items): seq<Value>
    requires ItemsOk(items)
  {
    [Meaning(items.item.tree)] + (if items.LastItem? then [] else ItemsMeaning(items.others))
  }

  /** Members are set one after the other onto `sofar`, so a repeated key takes its last value. */
  function FieldsMeaning(fields: Fields, sofar: seq<Member>): seq<Member>
    requires FieldsOk(fields)
  {
    var members := SetMember(sofar, CharsMeaning(fields.field.key), Meaning(fields.field.tree));
    if fields.LastField? then members else FieldsMeaning(fields.others, members)
  }

  /** Nesting height of the text, counted as the height of values is. */
  function TreeHeight(t: Tree): nat {
    match t
    case ArrayTree(items) => 1 + ItemsTreeHeight(items)
    case ObjectTree(fields) => 1 + FieldsTreeHeight(fields)
    case _ => 0
  }

  function Max(a: nat, b: nat): nat { if a < b then b else a }

  function ItemsTreeHeight(items: Items): nat {
    match items
    case LastItem(item) => TreeHeight(item.tree)
    case MoreItems(item, others) => Max(TreeHeight(item.tree), ItemsTreeHeight(others))
  }

  function FieldsTreeHeight(fields: Fields): nat {
    match fields
    case LastField(field) => TreeHeight(field.tree)
    case MoreFields(field, others) => Max(TreeHeight(field.tree), FieldsTreeHeight(others))
  }
}
