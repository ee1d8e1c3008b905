/**
 The recursive-descent parser of src/relay/protocol/json.cpp: one mutable
 position over a complete document.  Each method is proved to compute what the
 function of `JsonReader` says of the input from the position on, and to leave
 the position where that function's remaining input begins.
 */
module JsonParser {
  import opened Text
  import opened JsonValue
  import opened Utf8
  import opened JsonGrammar
  import opened JsonReader

  /** `result` and the new remaining input are what `expected` says. */
  ghost predicate Agrees<T>(result: Option<T>, rest: Bytes, expected: Parsed<T>) {
    match expected
    case Fail => result.None?
    case Done(value, expectedRest) => result == Some(value) && rest == expectedRest
  }

  class Parser {
    const text: Bytes
    var pos: nat

    constructor (text: Bytes)
      ensures this.text == text && pos == 0
    {
      this.text := text;
      pos := 0;
    }

    ghost predicate Valid()
      reads this
    {
      pos <= |text|
    }

    /** The input not yet consumed. */
    ghost function Rest(): Bytes
      requires Valid()
      reads this
    {
      text[pos..]
    }

    method ParseDocument() returns (r: Option<Value>)
      requires Valid() && pos == 0
      modifies this`pos
      ensures Valid()
      ensures r == Parse(text)
    {
      assert text[0..] == text;
      SkipBlanks();
      var value := ParseValue(0);
      if value.None? { return None; }
      SkipBlanks();
      if pos != |text| { return None; }
      return value;
    }

    method SkipBlanks()
      requires Valid()
      modifies this`pos
      ensures Valid() && old(pos) <= pos
      ensures Rest() == SkipWhitespace(old(Rest()))
    {
      while pos < |text| && IsWhitespace(text[pos])
        invariant old(pos) <= pos <= |text|
        invariant SkipWhitespace(text[pos..]) == SkipWhitespace(old(Rest()))
      {
        Advance(text, pos, 1);
        pos := pos + 1;
      }
    }

    method ParseValue(depth: nat) returns (r: Option<Value>)
      requires Valid()
      modifies this`pos
      ensures Valid() && old(pos) <= pos
      ensures Agrees(r, Rest(), ReadValue(old(Rest()), depth))
      decreases |text| - pos, 2
    {
      hide ReadObject, ReadArray, ReadChars, ReadLiteral, ReadNumber;
      if depth > MAX_PARSE_DEPTH { return None; }
      if pos >= |text| { return None; }
      var c := text[pos];
      if c == OPEN_BRACE {
        r := ParseObject(depth);
      } else if c == OPEN_BRACKET {
        r := ParseArray(depth);
      } else if c == QUOTE {
        var s := ParseString();
        r := if s.None? then None else Some(Value.String(s.value));
      } else if c == TRUE[0] {
        var ok := ConsumeLiteral(TRUE, Value.Bool(true));
        r := if ok then Some(Value.Bool(true)) else None;
      } else if c == FALSE[0] {
        var ok := ConsumeLiteral(FALSE, Value.Bool(false));
        r := if ok then Some(Value.Bool(false)) else None;
      } else if c == NULL[0] {
        var ok := ConsumeLiteral(NULL, Value.Null);
        r := if ok then Some(Value.Null) else None;
      } else {
        r := ParseNumber();
      }
    }

    /** `meaning` is only there for the postcondition to name what the caller returns. */
    method ConsumeLiteral(literal: Bytes, ghost meaning: Value) returns (ok: bool)
      requires Valid() && literal != []
      modifies this`pos
      ensures Valid() && old(pos) <= pos
      ensures Agrees(if ok then Some(meaning) else None, Rest(), ReadLiteral(old(Rest()), literal, meaning))
    {
      if |text| - pos < |literal| { return false; }
      assert text[pos..][..|literal|] == text[pos..pos + |literal|];
      if text[pos..pos + |literal|] != literal { return false; }
      Advance(text, pos, |literal|);
      pos := pos + |literal|;
      return true;
    }

    method ParseObject(depth: nat) returns (r: Option<Value>)
      requires Valid() && pos < |text|
      modifies this`pos
      ensures Valid() && old(pos) <= pos
      ensures Agrees(r, Rest(), ReadObject(old(Rest()), depth))
      decreases |text| - pos, 1
    {
      Advance(text, pos, 1);
      pos := pos + 1;
      SkipBlanks();
      if pos < |text| && text[pos] == CLOSE_BRACE {
        Advance(text, pos, 1);
        pos := pos + 1;
        return Some(Value.Object([]));
      }
      r := ParseFields(depth);
    }

    /** The loop of `parseObject`. */
    method ParseFields(depth: nat) returns (r: Option<Value>)
      requires Valid()
      modifies this`pos
      ensures Valid() && old(pos) <= pos
      ensures Agrees(r, Rest(), ReadFields(old(Rest()), depth, []))
      decreases |text| - pos, 3
    {
      hide ReadKey, ReadValue, ReadFields, SkipWhitespace, SetMember;
      var members: seq<Member> := [];
      while true
        invariant old(pos) <= pos <= |text|
        invariant ReadFields(Rest(), depth, members) == ReadFields(old(Rest()), depth, [])
        decreases |text| - pos
      {
        ReadFieldsTurn(Rest(), depth, members);
        var key := ParseKey();
        if key.None? { return None; }
        var value := ParseValue(depth + 1);
        if value.None? { return None; }
        members := SetMember(members, key.value, value.value);
        SkipBlanks();
        if pos >= |text| { return None; }
        Advance(text, pos, 1);
        if text[pos] == COMMA {
          pos := pos + 1;
          continue;
        }
        if text[pos] == CLOSE_BRACE {
          pos := pos + 1;
          return Some(Value.Object(members));
        }
        return None;
      }
    }

    /** The part of the object loop before the value. */
    method ParseKey() returns (r: Option<Bytes>)
      requires Valid()
      modifies this`pos
      ensures Valid() && old(pos) <= pos && (r.Some? ==> old(pos) < pos)
      ensures Agrees(r, Rest(), ReadKey(old(Rest())))
    {
      hide SkipWhitespace, ReadChars;
      SkipBlanks();
      if pos >= |text| || text[pos] != QUOTE { return None; }
      r := ParseString();
      if r.None? { return None; }
      SkipBlanks();
      if pos >= |text| || text[pos] != COLON { return None; }
      Advance(text, pos, 1);
      pos := pos + 1;
      SkipBlanks();
    }

    method ParseArray(depth: nat) returns (r: Option<Value>)
      requires Valid() && pos < |text|
      modifies this`pos
      ensures Valid() && old(pos) <= pos
      ensures Agrees(r, Rest(), ReadArray(old(Rest()), depth))
      decreases |text| - pos, 1
    {
      Advance(text, pos, 1);
      pos := pos + 1;
      SkipBlanks();
      if pos < |text| && text[pos] == CLOSE_BRACKET {
        Advance(text, pos, 1);
        pos := pos + 1;
        return Some(Value.Array([]));
      }
      r := ParseItems(depth);
    }

    /** The loop of `parseArray`. */
    method ParseItems(depth: nat) returns (r: Option<Value>)
      requires Valid()
      modifies this`pos
      ensures Valid() && old(pos) <= pos
      ensures Agrees(r, Rest(), ReadItems(old(Rest()), depth, []))
      decreases |text| - pos, 3
    {
      hide ReadValue, ReadItems, SkipWhitespace;
      var items: seq<Value> := [];
      while true
        invariant old(pos) <= pos <= |text|
        invariant ReadItems(Rest(), depth, items) == ReadItems(old(Rest()), depth, [])
        decreases |text| - pos
      {
        ReadItemsTurn(Rest(), depth, items);
        SkipBlanks();
        var value := ParseValue(depth + 1);
        if value.None? { return None; }
        items := items + [value.value];
        SkipBlanks();
        if pos >= |text| { return None; }
        Advance(text, pos, 1);
        if text[pos] == COMMA {
          pos := pos + 1;
          continue;
        }
        if text[pos] == CLOSE_BRACKET {
          pos := pos + 1;
          return Some(Value.Array(items));
        }
        return None;
      }
    }

    method ParseHex4() returns (r: Option<nat>)
      requires Valid()
      modifies this`pos
      ensures Valid() && old(pos) <= pos
      ensures Agrees(r, Rest(), ReadHex4(old(Rest())))
    {
      if |text| - pos < 4 { return None; }
      var value := 0;
      ghost var h := text[pos..][..4];
      for i := 0 to 4
        invariant pos == old(pos) + i <= |text|
        invariant forall j | 0 <= j < i :: HexValue(h[j]).Some?
        invariant i == 0 ==> value == 0
        invariant i == 1 ==> value == HexValue(h[0]).value
        invariant i == 2 ==> value == HexValue(h[0]).value * 16 + HexValue(h[1]).value
        invariant i == 3 ==>
          value == (HexValue(h[0]).value * 16 + HexValue(h[1]).value) * 16 + HexValue(h[2]).value
        invariant i == 4 ==> IsHex4(h) && value == Hex4Value(h)
      {
        var digit := HexValue(text[pos]);
        assert text[pos] == h[i];
        pos := pos + 1;
        if digit.None? { return None; }
        value := value * 16 + digit.value;
      }
      assert old(text[pos..])[4..] == text[pos..];
      return Some(value);
    }

    /** The `u` case of the escape switch: what follows `\u`, as UTF-8. */
    method ParseUnicodeEscape() returns (r: Option<Bytes>)
      requires Valid()
      modifies this`pos
      ensures Valid() && old(pos) <= pos && (r.Some? ==> old(pos) < pos)
      ensures Agrees(r, Rest(), ReadUnicode(old(Rest())))
    {
      var first := ParseHex4();
      if first.None? { return None; }
      var codePoint := first.value;
      if IsHigh(codePoint) {
        if |text| - pos < 2 || text[pos] != BACKSLASH || text[pos + 1] != LOWER_U { return None; }
        Advance(text, pos, 2);
        pos := pos + 2;
        var second := ParseHex4();
        if second.None? { return None; }
        if !IsLow(second.value) { return None; }
        codePoint := CombineSurrogates(codePoint, second.value);
      } else if IsLow(codePoint) {
        return None;
      }
      return Some(EncodeUtf8(codePoint));
    }

    method ParseString() returns (r: Option<Bytes>)
      requires Valid() && pos < |text|
      modifies this`pos
      ensures Valid() && old(pos) < pos
      ensures Agrees(r, Rest(), ReadChars(old(Rest())[1..]))
    {
      hide ReadChar;
      Advance(text, pos, 1);
      pos := pos + 1;
      var out: Bytes := [];
      ghost var expected := ReadChars(Rest());
      PrependNothing(expected);
      while true
        invariant old(pos) < pos <= |text|
        invariant Prepend(out, ReadChars(Rest())) == expected
        decreases |text| - pos
      {
        if pos >= |text| { return None; }
        if text[pos] == QUOTE {
          Advance(text, pos, 1);
          pos := pos + 1;
          assert out + [] == out;
          return Some(out);
        }
        var piece := ParseChar();
        if piece.None? { return None; }
        PrependTwice(out, piece.value, ReadChars(Rest()));
        out := out + piece.value;
      }
    }

    /** One turn of the string loop: what it adds to the output. */
    method ParseChar() returns (r: Option<Bytes>)
      requires Valid() && pos < |text|
      modifies this`pos
      ensures Valid() && old(pos) < pos
      ensures Agrees(r, Rest(), ReadChar(old(Rest())))
    {
      hide ReadUnicode;
      var c := text[pos];
      if c == BACKSLASH {
        pos := pos + 1;
        if pos >= |text| { return None; }
        var escape := text[pos];
        Advance(text, pos - 1, 2);
        pos := pos + 1;
        if escape == LOWER_U {
          r := ParseUnicodeEscape();
          return r;
        }
        var b := ShortMeaning(escape);
        if b.None? { return None; }
        return Some([b.value]);
      }
      Advance(text, pos, 1);
      pos := pos + 1;
      if c < 0x20 { return None; }
      return Some([c]);
    }

    method SkipDigits()
      requires Valid()
      modifies this`pos
      ensures Valid() && pos == old(pos) + DigitRun(old(Rest()))
    {
      while pos < |text| && IsDigit(text[pos])
        invariant old(pos) <= pos <= |text|
        invariant pos + DigitRun(text[pos..]) == old(pos) + DigitRun(old(Rest()))
      {
        Advance(text, pos, 1);
        pos := pos + 1;
      }
    }

    method ParseNumber() returns (r: Option<Value>)
      requires Valid()
      modifies this`pos
      ensures Valid() && old(pos) <= pos
      ensures Agrees(r, Rest(), ReadNumber(old(Rest())))
    {
      hide ReadToken, Strtod;
      var start := pos;
      var ok := ScanToken();
      if !ok { return None; }
      ghost var s := text[start..];
      Slice(text, start, pos);
      var parsed := Strtod(text[start..pos]);
      if parsed.None? { return None; }
      return Some(Value.Number(parsed.value));
    }

    /** Scans one number token and says whether there was one. */
    method ScanToken() returns (ok: bool)
      requires Valid()
      modifies this`pos
      ensures Valid() && old(pos) <= pos
      ensures ok == ReadToken(old(Rest())).Done?
      ensures ok ==> Rest() == ReadToken(old(Rest())).rest
    {
      if pos < |text| && text[pos] == MINUS {
        Advance(text, pos, 1);
        pos := pos + 1;
      }
      ok := ScanWhole();
      if ok {
        ok := ScanFraction();
        if ok {
          ok := ScanExponent();
        }
      }
    }

    method ScanWhole() returns (ok: bool)
      requires Valid()
      modifies this`pos
      ensures Valid() && old(pos) <= pos
      ensures ok == ReadWhole(old(Rest())).Done?
      ensures ok ==> Rest() == ReadWhole(old(Rest())).rest
    {
      if pos >= |text| { return false; }
      Advance(text, pos, 1);
      if text[pos] == ZERO {
        pos := pos + 1;
      } else if IsDigit(text[pos]) {
        ghost var n := DigitRun(Rest());
        Advance(text, pos, n);
        SkipDigits();
      } else {
        return false;
      }
      return true;
    }

    method ScanFraction() returns (ok: bool)
      requires Valid()
      modifies this`pos
      ensures Valid() && old(pos) <= pos
      ensures ok == ReadFraction(old(Rest())).Done?
      ensures ok ==> Rest() == ReadFraction(old(Rest())).rest
    {
      if pos < |text| && text[pos] == POINT {
        Advance(text, pos, 1);
        pos := pos + 1;
        if pos >= |text| || !IsDigit(text[pos]) { return false; }
        ghost var n := DigitRun(Rest());
        Advance(text, pos, n);
        SkipDigits();
      }
      return true;
    }

    method ScanSign()
      requires Valid()
      modifies this`pos
      ensures Valid() && old(pos) <= pos
      ensures Rest() == ReadSign(old(Rest())).1
    {
      if pos < |text| && (text[pos] == PLUS || text[pos] == MINUS) {
        Advance(text, pos, 1);
        pos := pos + 1;
      }
    }

    method ScanExponent() returns (ok: bool)
      requires Valid()
      modifies this`pos
      ensures Valid() && old(pos) <= pos
      ensures ok == ReadExponent(old(Rest())).Done?
      ensures ok ==> Rest() == ReadExponent(old(Rest())).rest
    {
      hide DigitRun, ReadSign;
      if pos < |text| && (text[pos] == LOWER_E || text[pos] == UPPER_E) {
        Advance(text, pos, 1);
        pos := pos + 1;
        ScanSign();
        if pos >= |text| || !IsDigit(text[pos]) { return false; }
        ghost var n := DigitRun(Rest());
        Advance(text, pos, n);
        SkipDigits();
      }
      return true;
    }
  }

  lemma Advance(text: Bytes, pos: nat, n: nat)
    requires pos + n <= |text|
    ensures text[pos..][n..] == text[pos + n..]
  {
  }

  lemma Slice(text: Bytes, start: nat, end: nat)
    requires start <= end <= |text|
    ensures text[start..][..|text[start..]| - |text[end..]|] == text[start..end]
  {
  }

  lemma PrependNothing(tail: Parsed<Bytes>)
    ensures Prepend([], tail) == tail
  {
    if tail.Done? { assert [] + tail.value == tail.value; }
  }

  lemma PrependTwice(a: Bytes, b: Bytes, tail: Parsed<Bytes>)
    ensures Prepend(a, Prepend(b, tail)) == Prepend(a + b, tail)
  {
    if tail.Done? { Regroup(a, b, tail.value); }
  }
}
