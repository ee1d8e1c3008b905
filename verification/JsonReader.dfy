/**
 What the recursive-descent parser of src/relay/protocol/json.cpp computes, as
 functions from the remaining input to a result and the input after it.
 The class `JsonParser.Parser` is the parser itself, proved against these.

 `parse` starts at depth 0; starting lower allows so much more nesting.
 */
module JsonReader {
  import opened Text
  import opened JsonValue
  import opened Utf8
  import opened JsonGrammar

  datatype Parsed<+T> = Fail | Done(value: T, rest: Bytes)

  function SkipWhitespace(s: Bytes): (r: Bytes)
    ensures |r| <= |s|
  {
    if s != [] && IsWhitespace(s[0]) then SkipWhitespace(s[1..]) else s
  }

  function StartsWith(s: Bytes, b: Byte): bool {
    s != [] && s[0] == b
  }

  // ---------------------------------------------------------------- strings

  function ReadHex4(s: Bytes): (r: Parsed<nat>)
    ensures r.Done? ==> |r.rest| + 4 == |s| && r.value < 0x10000
  {
    if |s| >= 4 && IsHex4(s[..4]) then Done(Hex4Value(s[..4]), s[4..]) else Fail
  }

  /** What follows `\u`: one unit, or a surrogate pair, as UTF-8. */
  function ReadUnicode(s: Bytes): (r: Parsed<Bytes>)
    ensures r.Done? ==> |r.rest| < |s|
  {
    match ReadHex4(s)
    case Fail => Fail
    case Done(first, t) =>
      if IsHigh(first) then
        if |t| < 2 || t[0] != BACKSLASH || t[1] != LOWER_U then Fail else
        match ReadHex4(t[2..])
        case Fail => Fail
        case Done(second, u) =>
          if IsLow(second) then Done(EncodeUtf8(CombineSurrogates(first, second)), u) else Fail
      else if IsLow(first) then Fail
      else Done(EncodeUtf8(first), t)
  }

  function Prepend(head: Bytes, tail: Parsed<Bytes>): Parsed<Bytes> {
    if tail.Fail? then Fail else Done(head + tail.value, tail.rest)
  }

  /** One character of a string, escaped or not, as the bytes it adds. */
  function ReadChar(s: Bytes): (r: Parsed<Bytes>)
    requires s != []
    ensures r.Done? ==> |r.rest| < |s|
  {
    if s[0] == BACKSLASH then
      if |s| < 2 then Fail
      else if s[1] == LOWER_U then ReadUnicode(s[2..])
      else
        match ShortMeaning(s[1])
        case None => Fail
        case Some(b) => Done([b], s[2..])
    else if s[0] < 0x20 then Fail
    else Done([s[0]], s[1..])
  }

  /** The inside of a string, up to and including the closing quote. */
  function ReadChars(s: Bytes): (r: Parsed<Bytes>)
    ensures r.Done? ==> |r.rest| < |s|
    decreases |s|
  {
    if s == [] then Fail
    else if s[0] == QUOTE then Done([], s[1..])
    else
      match ReadChar(s)
      case Fail => Fail
      case Done(piece, t) => Prepend(piece, ReadChars(t))
  }

  // ---------------------------------------------------------------- numbers

  function DigitRun(s: Bytes): (n: nat)
    ensures n <= |s|
    ensures AllDigits(s[..n])
    ensures n < |s| ==> !IsDigit(s[n])
  {
    if s == [] || !IsDigit(s[0]) then 0 else
      var n := 1 + DigitRun(s[1..]);
      assert s[..n] == [s[0]] + s[1..][..n - 1];
      n
  }

  function ReadWhole(s: Bytes): (r: Parsed<Bytes>)
    ensures r.Done? ==> |r.rest| < |s|
  {
    if s == [] || !IsDigit(s[0]) then Fail
    else if s[0] == ZERO then Done([ZERO], s[1..])
    else Done(s[..DigitRun(s)], s[DigitRun(s)..])
  }

  function ReadFraction(s: Bytes): (r: Parsed<Option<Bytes>>)
    ensures r.Done? ==> |r.rest| <= |s|
  {
    if !StartsWith(s, POINT) then Done(None, s) else
      var n := DigitRun(s[1..]);
      if n == 0 then Fail else Done(Some(s[1..][..n]), s[1..][n..])
  }

  function ReadSign(s: Bytes): (r: (Option<Byte>, Bytes))
    ensures |r.1| <= |s|
  {
    if StartsWith(s, PLUS) || StartsWith(s, MINUS) then (Some(s[0]), s[1..]) else (None, s)
  }

  function ReadExponent(s: Bytes): (r: Parsed<Option<Exponent>>)
    ensures r.Done? ==> |r.rest| <= |s|
  {
    if !StartsWith(s, LOWER_E) && !StartsWith(s, UPPER_E) then Done(None, s) else
      var (sign, u) := ReadSign(s[1..]);
      var n := DigitRun(u);
      if n == 0 then Fail else Done(Some(Exponent(s[0] == UPPER_E, sign, u[..n])), u[n..])
  }

  function ReadToken(s: Bytes): (r: Parsed<NumberToken>)
    ensures r.Done? ==> |r.rest| < |s|
  {
    var negative := StartsWith(s, MINUS);
    match ReadWhole(if negative then s[1..] else s)
    case Fail => Fail
    case Done(whole, t) =>
      match ReadFraction(t)
      case Fail => Fail
      case Done(fraction, u) =>
        match ReadExponent(u)
        case Fail => Fail
        case Done(exponent, w) => Done(NumberToken(negative, whole, fraction, exponent), w)
  }

  /** `strtod` on a whole token: refused unless all of it is a number. */
  function Strtod(token: Bytes): Option<Number> {
    match ReadToken(token)
    case Fail => None
    case Done(t, rest) =>
      if rest == [] && TokenOk(t) then Some(ToDouble(TokenValue(t))) else None
  }

  /** The parser scans a token, then hands its text to `strtod`. */
  function ReadNumber(s: Bytes): (r: Parsed<Value>)
    ensures r.Done? ==> |r.rest| < |s|
  {
    match ReadToken(s)
    case Fail => Fail
    case Done(_, rest) =>
      match Strtod(s[..|s| - |rest|])
      case None => Fail
      case Some(n) => Done(Value.Number(n), rest)
  }

  // ----------------------------------------------------------------- values

  function ReadLiteral(s: Bytes, literal: Bytes, value: Value): (r: Parsed<Value>)
    requires literal != []
    ensures r.Done? ==> |r.rest| < |s|
  {
    if |s| < |literal| || s[..|literal|] != literal then Fail else Done(value, s[|literal|..])
  }

  function ReadValue(s: Bytes, depth: int): (r: Parsed<Value>)
    ensures r.Done? ==> |r.rest| < |s|
    decreases |s|, 2
  {
    if depth > MAX_PARSE_DEPTH || s == [] then Fail
    else if s[0] == OPEN_BRACE then ReadObject(s, depth)
    else if s[0] == OPEN_BRACKET then ReadArray(s, depth)
    else if s[0] == QUOTE then
      match ReadChars(s[1..])
      case Fail => Fail
      case Done(text, rest) => Done(Value.String(text), rest)
    else if s[0] == TRUE[0] then ReadLiteral(s, TRUE, Value.Bool(true))
    else if s[0] == FALSE[0] then ReadLiteral(s, FALSE, Value.Bool(false))
    else if s[0] == NULL[0] then ReadLiteral(s, NULL, Value.Null)
    else ReadNumber(s)
  }

  function ReadArray(s: Bytes, depth: int): (r: Parsed<Value>)
    requires s != []
    ensures r.Done? ==> |r.rest| < |s|
    decreases |s|, 1
  {
    var t := SkipWhitespace(s[1..]);
    if StartsWith(t, CLOSE_BRACKET) then Done(Value.Array([]), t[1..]) else ReadItems(t, depth, [])
  }

  function ReadItems(s: Bytes, depth: int, sofar: seq<Value>): (r: Parsed<Value>)
    ensures r.Done? ==> |r.rest| < |s|
    decreases |s|, 3
  {
    match ReadValue(SkipWhitespace(s), depth + 1)
    case Fail => Fail
    case Done(value, t) =>
      var u := SkipWhitespace(t);
      var items := sofar + [value];
      if StartsWith(u, COMMA) then ReadItems(u[1..], depth, items)
      else if StartsWith(u, CLOSE_BRACKET) then Done(Value.Array(items), u[1..])
      else Fail
  }

  function ReadObject(s: Bytes, depth: int): (r: Parsed<Value>)
    requires s != []
    ensures r.Done? ==> |r.rest| < |s|
    decreases |s|, 1
  {
    var t := SkipWhitespace(s[1..]);
    if StartsWith(t, CLOSE_BRACE) then Done(Value.Object([]), t[1..]) else ReadFields(t, depth, [])
  }

  /** A key with the colon after it, up to the value. */
  function ReadKey(s: Bytes): (r: Parsed<Bytes>)
    ensures r.Done? ==> |r.rest| < |s|
  {
    var t := SkipWhitespace(s);
    if !StartsWith(t, QUOTE) then Fail else
    match ReadChars(t[1..])
    case Fail => Fail
    case Done(key, u) =>
      var w := SkipWhitespace(u);
      if StartsWith(w, COLON) then Done(key, SkipWhitespace(w[1..])) else Fail
  }

  function ReadFields(s: Bytes, depth: int, sofar: seq<Member>): (r: Parsed<Value>)
    ensures r.Done? ==> |r.rest| < |s|
    decreases |s|, 3
  {
    match ReadKey(s)
    case Fail => Fail
    case Done(key, t) =>
      match ReadValue(t, depth + 1)
      case Fail => Fail
      case Done(value, u) =>
        var members := SetMember(sofar, key, value);
        var w := SkipWhitespace(u);
        if StartsWith(w, COMMA) then ReadFields(w[1..], depth, members)
        else if StartsWith(w, CLOSE_BRACE) then Done(Value.Object(members), w[1..])
        else Fail
  }

  lemma ReadItemsTurn(s: Bytes, depth: int, sofar: seq<Value>)
    ensures var first := ReadValue(SkipWhitespace(s), depth + 1);
            ReadItems(s, depth, sofar)
            == if first.Fail? then Fail
               else
                 var u := SkipWhitespace(first.rest);
                 var items := sofar + [first.value];
                 if StartsWith(u, COMMA) then ReadItems(u[1..], depth, items)
                 else if StartsWith(u, CLOSE_BRACKET) then Done(Value.Array(items), u[1..])
                 else Fail
  {
  }

  lemma ReadFieldsTurn(s: Bytes, depth: int, sofar: seq<Member>)
    ensures var key := ReadKey(s);
            ReadFields(s, depth, sofar)
            == if key.Fail? then Fail
               else
                 var first := ReadValue(key.rest, depth + 1);
                 if first.Fail? then Fail
                 else
                   var members := SetMember(sofar, key.value, first.value);
                   var w := SkipWhitespace(first.rest);
                   if StartsWith(w, COMMA) then ReadFields(w[1..], depth, members)
                   else if StartsWith(w, CLOSE_BRACE) then Done(Value.Object(members), w[1..])
                   else Fail
  {
  }

  /** One complete document, nothing after it, nested no deeper than `limit`. */
  function ParseWithin(text: Bytes, limit: nat): Option<Value> {
    match ReadValue(SkipWhitespace(text), MAX_PARSE_DEPTH - limit)
    case Fail => None
    case Done(value, rest) => if SkipWhitespace(rest) == [] then Some(value) else None
  }

  /** `parse`. */
  function Parse(text: Bytes): Option<Value> { ParseWithin(text, MAX_PARSE_DEPTH) }
}
