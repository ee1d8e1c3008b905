/**
 What a number of section 6 of RFC 8259 is worth, told by its digits: the parser
 reads `-12.34e-5` as the x with x * 10^2 * 10^5 = 1234, negated.
 */
module JsonNumbers {
  import opened Text
  import opened JsonValue
  import opened JsonGrammar
  import opened JsonReader
  import opened JsonCorrectness

  function Ten(k: nat): (n: nat)
    ensures n > 0
  {
    if k == 0 then 1 else 10 * Ten(k - 1)
  }

  function Two(k: nat): (n: nat)
    ensures n > 0
  {
    if k == 0 then 1 else 2 * Two(k - 1)
  }

  /** Digits in place value, the first one counting most. */
  function PlaceValue(digits: Bytes): nat
    requires forall i | 0 <= i < |digits| :: '0' as int <= digits[i] <= '9' as int
  {
    if digits == [] then 0 else (digits[0] - '0' as int) * Ten(|digits| - 1) + PlaceValue(digits[1..])
  }

  predicate Digits(s: Bytes) { forall i | 0 <= i < |s| :: '0' as int <= s[i] <= '9' as int }

  /** An exponent part, or nothing: `e` or `E`, a sign or none, digits. */
  ghost predicate ExponentSpells(tail: Bytes, e: int) {
    || (tail == [] && e == 0)
    || (exists mark: Byte, sign: Bytes, k: Bytes ::
          && (mark == 'e' as int || mark == 'E' as int) && k != [] && Digits(k)
          && tail == [mark] + (sign + k)
          && (|| ((sign == [] || sign == ['+' as int]) && e == PlaceValue(k))
              || (sign == ['-' as int] && e == -(PlaceValue(k) as int))))
  }

  /** `text` is a minus or none, the digits `w`, a point and the digits `f` if there are any, and an exponent `e`. */
  ghost predicate NumberSpells(text: Bytes, negative: bool, w: Bytes, f: Bytes, e: int) {
    && w != [] && Digits(w) && Digits(f) && (w[0] == '0' as int ==> |w| == 1)
    && exists tail: Bytes ::
         && ExponentSpells(tail, e)
         && text == (if negative then ['-' as int] else [])
                    + (w + ((if f == [] then [] else ['.' as int] + f) + tail))
  }

  /** `x` is the number of magnitude w.f times 10^e. */
  predicate Worth(x: real, w: Bytes, f: Bytes, e: int)
    requires Digits(w) && Digits(f)
  {
    Lifted(x, |f|, e) == PlaceValue(w + f) as real * Ten(if e < 0 then 0 else e) as real
  }

  /** `x` times 10 for every decimal place, and for a negative exponent. */
  function Lifted(x: real, places: nat, e: int): real {
    x * Ten(places) as real * Ten(if e < 0 then -e else 0) as real
  }

  /** From 2^1024 - 2^970 on, the nearest double is an infinity. */
  function Signed(negative: bool, x: real): Number {
    if x >= (Two(1024) - Two(970)) as real then Infinite(negative) else Finite(if negative then -x else x)
  }

  // ------------------------------------------------------------- arithmetic

  lemma {:induction false} TwoAdds(a: nat, b: nat)
    ensures Two(a + b) == Two(a) * Two(b)
  {
    if a > 0 { TwoAdds(a - 1, b); }
  }

  lemma {:induction false} SixteenIsTwos(n: nat)
    ensures Power16(n) == Two(4 * n)
  {
    if n > 0 {
      SixteenIsTwos(n - 1);
      TwoAdds(4, 4 * (n - 1));
      assert Two(4) == 16;
    }
  }

  lemma Threshold()
    ensures OverflowThreshold() == (Two(1024) - Two(970)) as real
  {
    hide Two, Power16;
    SixteenIsTwos(242);
    TwoAdds(56, 968);
    TwoAdds(2, 968);
    SmallTwos();
  }

  lemma SmallTwos()
    ensures Two(2) == 4 && Two(56) == 0x100_0000_0000_0000
  {
    SevenTwos();
    hide Two;
    TwoAdds(28, 28);
    TwoAdds(14, 14);
    TwoAdds(7, 7);
  }

  lemma SevenTwos()
    ensures Two(2) == 4 && Two(7) == 128
  {
  }

  lemma {:induction false} PowerIsTen(n: nat)
    ensures Power10(n) == Ten(n) as real
  {
    if n > 0 { PowerIsTen(n - 1); }
  }

  lemma {:induction false} TenAdds(a: nat, b: nat)
    ensures Ten(a + b) == Ten(a) * Ten(b)
  {
    if a > 0 { TenAdds(a - 1, b); }
  }

  lemma {:induction false} PlaceValueSnoc(digits: Bytes, d: Byte)
    requires Digits(digits) && Digits([d])
    ensures Digits(digits + [d]) && PlaceValue(digits + [d]) == PlaceValue(digits) * 10 + (d - '0' as int)
  {
    var all := digits + [d];
    if digits == [] {
      assert all == [d] && all[1..] == [];
      assert Ten(0) == 1;
    } else {
      hide Ten, PlaceValue;
      PlaceValueSnoc(digits[1..], d);
      assert all[1..] == digits[1..] + [d] && all[0] == digits[0];
      PlaceValueFirst(digits);
      PlaceValueFirst(all);
      Shift(digits[0] - '0' as int, Ten(|digits| - 1), PlaceValue(digits[1..]), d - '0' as int);
    }
  }

  lemma PlaceValueFirst(digits: Bytes)
    requires Digits(digits) && digits != []
    ensures PlaceValue(digits) == (digits[0] - '0' as int) * Ten(|digits| - 1) + PlaceValue(digits[1..])
    ensures Ten(|digits|) == 10 * Ten(|digits| - 1)
  {
  }

  lemma Shift(h: int, t: int, p: int, d: int)
    ensures h * (10 * t) + (p * 10 + d) == (h * t + p) * 10 + d
  {
  }

  lemma {:induction false} DigitsValueIs(digits: Bytes)
    requires Digits(digits)
    ensures AllDigits(digits) && DigitsValue(digits) == PlaceValue(digits)
  {
    if digits != [] {
      var n := |digits| - 1;
      DigitsValueIs(digits[..n]);
      PlaceValueSnoc(digits[..n], digits[n]);
      assert digits == digits[..n] + [digits[n]];
    }
  }

  lemma TenZero()
    ensures Ten(0) == 1
  {
  }

  /** Scaling by a difference of exponents, in whichever order. */
  lemma ScaleIs(m: real, e: int, places: nat)
    ensures Lifted(Scale(m, e - places), places, e) == m * Ten(if e < 0 then 0 else e) as real
  {
    hide Ten, Power10;
    var d := e - places;
    TenZero();
    PowerIsTen(if d >= 0 then d else -d);
    if d >= 0 {
      TenAdds(d, places);
      Grows(m, Ten(d) as real, Ten(places) as real);
    } else if e >= 0 {
      TenAdds(-d, e);
      Shrinks(m, Ten(-d) as real, Ten(e) as real);
    } else {
      TenAdds(-e, places);
      Cancels(m, Ten(-e) as real, Ten(places) as real);
    }
  }

  lemma Grows(m: real, a: real, b: real)
    ensures (m * a) * b * 1.0 == m * (a * b)
  {
  }

  lemma Shrinks(m: real, a: real, b: real)
    requires a > 0.0
    ensures (m / a) * (a * b) * 1.0 == m * b
  {
    var q := m / a;
    assert q * a == m;
    assert q * (a * b) == (q * a) * b;
  }

  lemma Cancels(m: real, a: real, b: real)
    requires a > 0.0 && b > 0.0
    ensures (m / (a * b)) * b * a == m
  {
    assert a * b > 0.0;
    var q := m / (a * b);
    assert q * (a * b) == m;
    assert q * b * a == q * (a * b);
  }

  lemma Unique(x: real, y: real, a: real, b: real)
    requires a > 0.0 && b > 0.0 && x * a * b == y * a * b
    ensures x == y
  {
    assert (x - y) * (a * b) == 0.0;
    assert a * b > 0.0;
  }

  // ----------------------------------------------------------------- tokens

  lemma ExponentToken(tail: Bytes, e: int) returns (x: Option<Exponent>)
    requires ExponentSpells(tail, e)
    ensures tail == SpellExponent(x) && (x.Some? ==> ExponentOk(x.value))
    ensures e == if x.None? then 0
                 else if x.value.sign == Some(MINUS) then -(DigitsValue(x.value.digits) as int)
                 else DigitsValue(x.value.digits)
  {
    if tail == [] && e == 0 {
      x := None;
    } else {
      var mark: Byte, sign: Bytes, k: Bytes :|
        && (mark == 'e' as int || mark == 'E' as int) && k != [] && Digits(k)
        && tail == [mark] + (sign + k)
        && (|| ((sign == [] || sign == ['+' as int]) && e == PlaceValue(k))
            || (sign == ['-' as int] && e == -(PlaceValue(k) as int)));
      DigitsValueIs(k);
      x := Some(Exponent(mark == 'E' as int, if sign == [] then None else Some(sign[0]), k));
    }
  }

  /** A spelled number is the spelling of one token, with this value. */
  lemma TokenOfText(text: Bytes, negative: bool, w: Bytes, f: Bytes, e: int) returns (t: NumberToken)
    requires NumberSpells(text, negative, w, f, e)
    ensures TokenOk(t) && SpellNumber(t) == text
    ensures AllDigits(w + f) && DigitsValue(w + f) == PlaceValue(w + f)
    ensures TokenValue(t) == Negate(negative, Scale(DigitsValue(w + f) as real, e - |f|))
  {
    hide Scale, DigitsValue, PlaceValue;
    var tail: Bytes :|
      && ExponentSpells(tail, e)
      && text == (if negative then ['-' as int] else []) + (w + ((if f == [] then [] else ['.' as int] + f) + tail));
    var x := ExponentToken(tail, e);
    t := NumberToken(negative, w, if f == [] then None else Some(f), x);
    DigitsValueIs(w);
    DigitsValueIs(f);
    DigitsValueIs(w + f);
  }

  /**
   A number text, whatever follows that cannot continue it, is read whole, and as
   the one number it is worth, or the infinity of its sign from 2^1024 - 2^970 on.
   */
  lemma NumbersMean(text: Bytes, negative: bool, w: Bytes, f: Bytes, e: int, x: real, rest: Bytes)
    requires NumberSpells(text, negative, w, f, e) && Stops(rest)
    requires Worth(x, w, f, e)
    ensures ReadNumber(text + rest) == Done(Value.Number(Signed(negative, x)), rest)
  {
    hide ReadNumber, SpellNumber, TokenOk, Two, Power16, Scale, DigitsValue, PlaceValue, Ten, OverflowThreshold, Stops;
    var t := TokenOfText(text, negative, w, f, e);
    NumberComplete(t, rest);
    WorthIsScale(x, w, f, e);
    Threshold();
    NotBelowZero(x, w, f, e);
  }

  lemma WorthIsScale(x: real, w: Bytes, f: Bytes, e: int)
    requires Digits(w) && Digits(f) && Worth(x, w, f, e)
    ensures x == Scale(PlaceValue(w + f) as real, e - |f|)
  {
    hide Scale, Ten, PlaceValue, Lifted;
    var m := PlaceValue(w + f) as real;
    ScaleIs(m, e, |f|);
    LiftedUnique(x, Scale(m, e - |f|), |f|, e);
  }

  lemma LiftedUnique(x: real, y: real, places: nat, e: int)
    requires Lifted(x, places, e) == Lifted(y, places, e)
    ensures x == y
  {
    hide Ten;
    var a, b := Ten(places) as real, Ten(if e < 0 then -e else 0) as real;
    assert Lifted(x, places, e) == x * a * b;
    assert Lifted(y, places, e) == y * a * b;
    Unique(x, y, a, b);
  }

  lemma NotBelowZero(x: real, w: Bytes, f: Bytes, e: int)
    requires Digits(w) && Digits(f) && Worth(x, w, f, e)
    ensures x >= 0.0
    ensures (Two(1024) - Two(970)) as real > 0.0
  {
    hide Two, PlaceValue, Ten;
    var a, b := Ten(|f|) as real, Ten(if e < 0 then -e else 0) as real;
    var m, c := PlaceValue(w + f) as real, Ten(if e < 0 then 0 else e) as real;
    assert m * c >= 0.0;
    assert x * (a * b) == m * c && a * b > 0.0;
    BigThreshold();
  }

  lemma BigThreshold()
    ensures (Two(1024) - Two(970)) as real > 15.0
  {
    hide Two;
    TwoAdds(54, 970);
    TwoAdds(4, 966);
    TwoAdds(50, 4);
    FourTwos();
    Multiplies(Two(50), 16);
    Multiplies(Two(966), 16);
    Multiplies(Two(970), Two(54));
    Multiplies(Two(54) - 16, Two(970));
  }

  /** A product is not below its factors. */
  lemma Multiplies(a: nat, b: nat)
    ensures a * b >= 0 && (a > 0 ==> a * b >= b) && (b > 0 ==> a * b >= a)
    ensures a * b + 16 * b == (a + 16) * b
  {
  }

  lemma FourTwos()
    ensures Two(4) == 16
  {
  }

  /** Every number text is worth exactly one number. */
  lemma WorthSomething(w: Bytes, f: Bytes, e: int) returns (x: real)
    requires Digits(w) && Digits(f)
    ensures Worth(x, w, f, e)
    ensures forall y: real :: Worth(y, w, f, e) ==> y == x
  {
    hide Scale, Ten, PlaceValue, Lifted;
    var m := PlaceValue(w + f) as real;
    x := Scale(m, e - |f|);
    ScaleIs(m, e, |f|);
    forall y: real | Worth(y, w, f, e) ensures y == x { WorthIsScale(y, w, f, e); }
  }

  const HALF: AsciiText := Ascii("0.5")
  const MINUS_TWO_AND_A_HALF: AsciiText := Ascii("-25e-1")

  /** For instance. */
  lemma HalfReads(rest: Bytes)
    requires Stops(rest)
    ensures ReadNumber(HALF + rest) == Done(Value.Number(Finite(0.5)), rest)
    ensures ReadNumber(MINUS_TWO_AND_A_HALF + rest) == Done(Value.Number(Finite(-2.5)), rest)
  {
    hide ReadNumber, Stops, Signed;
    HalfSpells();
    NumbersMean(HALF, false, ['0' as int], ['5' as int], 0, 0.5, rest);
    NumbersMean(MINUS_TWO_AND_A_HALF, true, ['2' as int, '5' as int], [], -1, 2.5, rest);
    SmallSigned();
  }

  lemma SmallSigned()
    ensures Signed(false, 0.5) == Finite(0.5) && Signed(true, 2.5) == Finite(-2.5)
  {
    BigThreshold();
  }

  lemma HalfSpells()
    ensures NumberSpells(HALF, false, ['0' as int], ['5' as int], 0) && Worth(0.5, ['0' as int], ['5' as int], 0)
    ensures NumberSpells(MINUS_TWO_AND_A_HALF, true, ['2' as int, '5' as int], [], -1)
    ensures Worth(2.5, ['2' as int, '5' as int], [], -1)
  {
    HalfText();
    MinusText();
    SmallPlaces();
  }

  lemma SmallPlaces()
    ensures PlaceValue(['0' as int] + ['5' as int]) == 5 && PlaceValue(['2' as int, '5' as int] + []) == 25
    ensures Ten(0) == 1 && Ten(1) == 10
  {
    var none: Bytes := [];
    assert ['2' as int, '5' as int] + none == ['2' as int] + ['5' as int];
    TwoPlaces('0' as int, '5' as int);
    TwoPlaces('2' as int, '5' as int);
  }

  lemma TwoPlaces(a: Byte, b: Byte)
    requires Digits([a]) && Digits([b])
    ensures Ten(0) == 1 && Ten(1) == 10
    ensures Digits([a] + [b]) && PlaceValue([a] + [b]) == 10 * (a - '0' as int) + (b - '0' as int)
  {
    assert [a][0] == a && [b][0] == b;
    var text: Bytes := [a] + [b];
    assert text[1..] == [b] && [b][1..] == [];
    assert PlaceValue([b]) == b - '0' as int;
  }

  lemma HalfText()
    ensures NumberSpells(HALF, false, ['0' as int], ['5' as int], 0)
  {
    hide PlaceValue;
    var none: Bytes := [];
    assert ExponentSpells(none, 0);
    assert HALF == none + (['0' as int] + ((['.' as int] + ['5' as int]) + none));
  }

  lemma OnePlace()
    ensures Digits(['1' as int]) && PlaceValue(['1' as int]) == 1
  {
    assert ['1' as int][1..] == [] && Ten(0) == 1;
  }

  lemma MinusText()
    ensures NumberSpells(MINUS_TWO_AND_A_HALF, true, ['2' as int, '5' as int], [], -1)
  {
    hide PlaceValue;
    OnePlace();
    var w: Bytes := ['2' as int, '5' as int];
    var none: Bytes := [];
    var one, minus, tail: Bytes := ['1' as int], ['-' as int], ['e' as int] + (['-' as int] + ['1' as int]);
    assert ExponentSpells(tail, -1);
    assert MINUS_TWO_AND_A_HALF == minus + (w + (none + tail));
  }
}
