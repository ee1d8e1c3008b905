/**
 The smallest pieces of the grammar and of UTF-8, in the characters RFC 8259 and
 RFC 3629 use for them.
 */
module JsonTerminals {
  import opened Text
  import opened JsonValue
  import opened Utf8
  import opened JsonGrammar
  import opened JsonReader
  import opened JsonCorrectness
  import opened JsonPrinter
  import opened JsonRoundTrip

  /** Sections 2 and 3: structure, whitespace and the three names; and the nesting limit. */
  lemma Structure(b: Byte)
    ensures IsWhitespace(b) <==> b in {' ' as int, '\t' as int, '\n' as int, '\r' as int}
    ensures OPEN_BRACKET == '[' as int && CLOSE_BRACKET == ']' as int
    ensures OPEN_BRACE == '{' as int && CLOSE_BRACE == '}' as int
    ensures COMMA == ',' as int && COLON == ':' as int && QUOTE == '"' as int && BACKSLASH == '\\' as int
    ensures TRUE == Ascii("true") && FALSE == Ascii("false") && NULL == Ascii("null")
    ensures MAX_PARSE_DEPTH == 64
  {
  }

  /** Section 7: what the character after a backslash stands for. */
  lemma Escapes(b: Byte)
    ensures ShortMeaning(b).Some? <==>
              b in {'"' as int, '\\' as int, '/' as int, 'b' as int, 'f' as int, 'n' as int, 'r' as int, 't' as int}
    ensures ShortMeaning('"' as int) == Some('"' as int) && ShortMeaning('\\' as int) == Some('\\' as int)
    ensures ShortMeaning('/' as int) == Some('/' as int)
    ensures ShortMeaning('n' as int) == Some('\n' as int) && ShortMeaning('r' as int) == Some('\r' as int)
    ensures ShortMeaning('t' as int) == Some('\t' as int)
    ensures ShortMeaning('b' as int) == Some(8) && ShortMeaning('f' as int) == Some(12)
    ensures LOWER_U == 'u' as int
  {
  }

  const LOWER_HEX: AsciiText := Ascii("0123456789abcdef")
  const UPPER_HEX: AsciiText := Ascii("0123456789ABCDEF")

  /** A hex digit is worth its place in the list of them, in either case; nothing else is one. */
  lemma HexDigits(b: Byte, n: nat)
    requires n < 16
    ensures HexValue(b) == Some(n) <==> b == LOWER_HEX[n] || b == UPPER_HEX[n]
  {
  }

  /** The four digits of a code unit, in the given alphabet. */
  function Hex4(u: nat, alphabet: Bytes): Bytes
    requires u < 0x10000 && |alphabet| == 16
  {
    [alphabet[u / 4096], alphabet[u / 256 % 16], alphabet[u / 16 % 16], alphabet[u % 16]]
  }

  /** Every code unit is read from its four digits, most significant first. */
  lemma CodeUnitsRead(u: nat, upper: bool, rest: Bytes)
    requires u < 0x10000
    ensures ReadHex4(Hex4(u, if upper then UPPER_HEX else LOWER_HEX) + rest) == Done(u, rest)
  {
    hide HexValue;
    var h := Hex4(u, if upper then UPPER_HEX else LOWER_HEX);
    HexDigits(h[0], u / 4096);
    HexDigits(h[1], u / 256 % 16);
    HexDigits(h[2], u / 16 % 16);
    HexDigits(h[3], u % 16);
    assert IsHex4(h);
    FourPlaces(u);
    Hex4Complete(h, rest);
  }

  lemma FourPlaces(u: nat)
    requires u < 0x10000
    ensures ((u / 4096 * 16 + u / 256 % 16) * 16 + u / 16 % 16) * 16 + u % 16 == u
  {
  }

  /** Surrogate pairs, compared first by the high and then by the low one, are in code point order. */
  lemma SurrogatesInOrder(high: nat, low: nat, other: nat, last: nat)
    requires IsHigh(high) && IsLow(low) && IsHigh(other) && IsLow(last)
    ensures CombineSurrogates(high, low) < CombineSurrogates(other, last)
       <==> high < other || (high == other && low < last)
  {
  }

  predicate ByteOrder(a: Bytes, b: Bytes) {
    b != [] && (a == [] || a[0] < b[0] || (a[0] == b[0] && ByteOrder(a[1..], b[1..])))
  }

  /** UTF-8 keeps the order of code points (section 1 of RFC 3629), and ASCII as it is. */
  lemma EncodingKeepsOrder(a: CodePoint, b: CodePoint)
    requires a < b
    ensures ByteOrder(EncodeUtf8(a), EncodeUtf8(b))
    ensures a < 0x80 ==> EncodeUtf8(a) == [a]
  {
    var x, y := EncodeUtf8(a), EncodeUtf8(b);
    if x[0] == y[0] {
      SameLead(a, b);
    }
  }

  /** Encodings of one length and lead byte differ as their tails do. */
  lemma SameLead(a: CodePoint, b: CodePoint)
    requires a < b && EncodeUtf8(a)[0] == EncodeUtf8(b)[0]
    ensures ByteOrder(EncodeUtf8(a), EncodeUtf8(b))
  {
    var x, y := EncodeUtf8(a), EncodeUtf8(b);
    assert |x| == |y| >= 2;
    hide EncodeUtf8;
    Unroll(x, y);
    SameTails(a, b);
  }

  lemma Unroll(x: Bytes, y: Bytes)
    requires |x| == |y| >= 2 && x[0] == y[0]
    ensures ByteOrder(x, y) <==>
              || x[1] < y[1]
              || (x[1] == y[1] && |x| >= 3
                  && (x[2] < y[2] || (x[2] == y[2] && |x| >= 4 && (x[3] < y[3] || (x[3] == y[3] && ByteOrder(x[4..], y[4..]))))))
  {
    Peel(x, y);
    Peel(x[1..], y[1..]);
    if |x| >= 3 { Peel(x[2..], y[2..]); }
    if |x| >= 4 { Peel(x[3..], y[3..]); }
    assert !ByteOrder([], []);
  }

  lemma Peel(x: Bytes, y: Bytes)
    requires |x| == |y| >= 1
    ensures ByteOrder(x, y) <==> x[0] < y[0] || (x[0] == y[0] && ByteOrder(x[1..], y[1..]))
    ensures forall n | 1 <= n <= |x| :: x[1..][n - 1..] == x[n..] && y[1..][n - 1..] == y[n..]
  {
  }

  lemma SameTails(a: CodePoint, b: CodePoint)
    requires a < b && EncodeUtf8(a)[0] == EncodeUtf8(b)[0]
    ensures var x, y := EncodeUtf8(a), EncodeUtf8(b);
            && |x| == |y| >= 2
            && (|| x[1] < y[1]
                || (x[1] == y[1] && |x| >= 3
                    && (x[2] < y[2] || (x[2] == y[2] && |x| >= 4 && x[3] < y[3]))))
  {
    LastDigit(a, b);
    LastDigit(a / 0x40, b / 0x40);
    LastDigit(a / 0x40 / 0x40, b / 0x40 / 0x40);
    Quotients(a);
    Quotients(b);
  }

  lemma Quotients(a: nat)
    ensures a / 0x1000 == a / 0x40 / 0x40 && a / 0x40000 == a / 0x40 / 0x40 / 0x40
  {
  }

  lemma LastDigit(a: nat, b: nat)
    ensures a < b ==> a / 0x40 < b / 0x40 || (a / 0x40 == b / 0x40 && a % 0x40 < b % 0x40)
    ensures a == b ==> a / 0x40 == b / 0x40
  {
  }

  /** A number that is not finite is printed as null. */
  lemma NotFinitePrintsNull(n: Number, fractional: Formatter)
    requires !n.Finite?
    ensures Parse(ValueText(Value.Number(n), fractional)) == Some(Value.Null)
  {
    hide Parse;
    var document := Item([], NullTree, []);
    PaddedPlain(document, NULL);
    ParseOfDerivation(NULL, document);
  }

  // -------------------------------------------------------------- nesting

  function Repeated(piece: Bytes, n: nat): Bytes {
    if n == 0 then [] else piece + Repeated(piece, n - 1)
  }

  lemma {:induction false} RepeatedSnoc(piece: Bytes, n: nat)
    ensures Repeated(piece, n + 1) == Repeated(piece, n) + piece
  {
    if n == 0 {
      assert piece + [] == piece && [] + piece == piece;
    } else {
      RepeatedSnoc(piece, n - 1);
      Regroup(piece, Repeated(piece, n - 1), piece);
    }
  }

  /** A tree that opens `n` containers around an empty one. */
  function Nest(n: nat, objects: bool): Tree {
    if n == 0 then if objects then EmptyObject([]) else EmptyArray([])
    else if objects then ObjectTree(LastField(Field([], [], [], [], Nest(n - 1, objects), [])))
    else ArrayTree(LastItem(Item([], Nest(n - 1, objects), [])))
  }

  const OPEN_FIELD: Bytes := ['{' as int, '"' as int, '"' as int, ':' as int]

  /** What is written for one more container: an array, or an object with an empty key. */
  function Opening(objects: bool): Bytes { if objects then OPEN_FIELD else ['[' as int] }

  function Closing(objects: bool): Bytes { [if objects then '}' as int else ']' as int] }

  function Innermost(objects: bool): Bytes {
    if objects then ['{' as int, '}' as int] else ['[' as int, ']' as int]
  }

  lemma {:induction false} NestSpells(n: nat, objects: bool)
    ensures var t := Nest(n, objects);
            && TreeOk(t) && PairedTree(t) && TreeHeight(t) == n
            && Spell(t) == Repeated(Opening(objects), n) + (Innermost(objects) + Repeated(Closing(objects), n))
  {
    if n == 0 {
      NestEmpty(objects);
    } else {
      hide *;
      var open, core, close := Opening(objects), Innermost(objects), Closing(objects);
      NestSpells(n - 1, objects);
      NestStep(n, objects);
      RepeatedSnoc(close, n - 1);
      RepeatedFirst(open, n);
      Around(open, Repeated(open, n - 1), core, Repeated(close, n - 1), close);
    }
  }

  lemma Around(open: Bytes, before: Bytes, core: Bytes, behind: Bytes, close: Bytes)
    ensures open + ((before + (core + behind)) + close) == (open + before) + (core + (behind + close))
  {
    Regroup(before, core + behind, close);
    Regroup(core, behind, close);
    Regroup(open, before, core + (behind + close));
  }

  lemma RepeatedFirst(piece: Bytes, n: nat)
    requires n > 0
    ensures Repeated(piece, n) == piece + Repeated(piece, n - 1)
  {
  }

  lemma NestEmpty(objects: bool)
    ensures var t := Nest(0, objects);
            && TreeOk(t) && PairedTree(t) && TreeHeight(t) == 0
            && Spell(t) == Innermost(objects)
    ensures forall piece: Bytes, s: Bytes :: Repeated(piece, 0) + (s + Repeated(piece, 0)) == s
  {
    forall piece: Bytes, s: Bytes ensures Repeated(piece, 0) + (s + Repeated(piece, 0)) == s {
      assert [] + (s + []) == s;
    }
  }

  lemma NestStep(n: nat, objects: bool)
    requires n > 0
    requires var t := Nest(n - 1, objects); TreeOk(t) && PairedTree(t) && TreeHeight(t) == n - 1
    ensures var t := Nest(n, objects);
            && TreeOk(t) && PairedTree(t) && TreeHeight(t) == n
            && Spell(t) == Opening(objects) + (Spell(Nest(n - 1, objects)) + Closing(objects))
  {
    var inner := Nest(n - 1, objects);
    var text := Spell(inner);
    if objects {
      var f := Field([], [], [], [], inner, []);
      KeyedPlain(f, text);
      assert SpellString([]) == ['"' as int, '"' as int];
      assert Keyed(f, text) == ['"' as int, '"' as int, ':' as int] + text;
      assert ['{' as int] + ((['"' as int, '"' as int, ':' as int] + text) + ['}' as int])
          == OPEN_FIELD + (text + ['}' as int]);
    } else {
      PaddedPlain(Item([], inner, []), text);
    }
  }

  /**
   Arrays in arrays, and objects in objects, are accepted up to 65 of them one
   inside the other, and refused from 66 on.
   */
  lemma NestingLimit(n: nat, objects: bool)
    ensures var open, close := if objects then OPEN_FIELD else ['[' as int], [if objects then '}' as int else ']' as int];
            var core: Bytes := if objects then ['{' as int, '}' as int] else ['[' as int, ']' as int];
            Parse(Repeated(open, n) + (core + Repeated(close, n))).Some? <==> n <= 64
  {
    hide Parse, Spell, TreeOk, PairedTree, TreeHeight;
    NestSpells(n, objects);
    var document := Item([], Nest(n, objects), []);
    PaddedPlain(document, Spell(document.tree));
    ParseOfDerivation(Spell(document.tree), document);
  }
}
