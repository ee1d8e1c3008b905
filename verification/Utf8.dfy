/**
 UTF-8 as section 3 and section 4 of RFC 3629 define it, the encoder
 `appendUtf8`, and the surrogate-pair arithmetic of `parseString`.

 The encoder ORs together bit fields that do not overlap; that is written here
 as addition, with `/` and `%` by powers of two for the shifts and masks.
 */
module Utf8 {
  import opened Text

  type CodePoint = n: nat | n <= 0x10FFFF

  predicate IsScalar(cp: nat) {
    cp <= 0x10FFFF && !(0xD800 <= cp <= 0xDFFF)
  }

  function EncodeUtf8(cp: nat): (r: Bytes)
    requires cp <= 0x10FFFF
    ensures 1 <= |r| <= 4
  {
    if cp <= 0x7F then [cp]
    else if cp <= 0x7FF then [0xC0 + cp / 0x40, 0x80 + cp % 0x40]
    else if cp <= 0xFFFF then
      [0xE0 + cp / 0x1000, 0x80 + cp / 0x40 % 0x40, 0x80 + cp % 0x40]
    else
      [0xF0 + cp / 0x40000, 0x80 + cp / 0x1000 % 0x40, 0x80 + cp / 0x40 % 0x40, 0x80 + cp % 0x40]
  }

  predicate IsTail(b: Byte) { 0x80 <= b <= 0xBF }

  /** Length of the UTF8-char that `s` starts with (section 4 of RFC 3629), or 0. */
  function ScalarLength(s: Bytes): (n: nat)
    ensures n <= |s| && n <= 4
  {
    if s == [] then 0
    else if s[0] <= 0x7F then 1
    else if 0xC2 <= s[0] <= 0xDF then
      if |s| >= 2 && IsTail(s[1]) then 2 else 0
    else if 0xE0 <= s[0] <= 0xEF then
      if |s| >= 3 && IsTail(s[1]) && IsTail(s[2])
         && (s[0] == 0xE0 ==> 0xA0 <= s[1]) && (s[0] == 0xED ==> s[1] <= 0x9F)
      then 3 else 0
    else if 0xF0 <= s[0] <= 0xF4 then
      if |s| >= 4 && IsTail(s[1]) && IsTail(s[2]) && IsTail(s[3])
         && (s[0] == 0xF0 ==> 0x90 <= s[1]) && (s[0] == 0xF4 ==> s[1] <= 0x8F)
      then 4 else 0
    else 0
  }

  predicate WellFormed(s: Bytes)
    decreases |s|
  {
    s == [] || (ScalarLength(s) > 0 && WellFormed(s[ScalarLength(s)..]))
  }

  /** The code point of the UTF8-char that `s` starts with. */
  function DecodeScalar(s: Bytes): nat
    requires ScalarLength(s) > 0
  {
    match ScalarLength(s)
    case 1 => s[0]
    case 2 => (s[0] as int - 0xC0) * 0x40 + (s[1] as int - 0x80)
    case 3 => ((s[0] as int - 0xE0) * 0x40 + (s[1] as int - 0x80)) * 0x40 + (s[2] as int - 0x80)
    case _ => (((s[0] as int - 0xF0) * 0x40 + (s[1] as int - 0x80)) * 0x40 + (s[2] as int - 0x80)) * 0x40 + (s[3] as int - 0x80)
  }

  /** What the encoder wrote reads back as the same code point, whatever follows. */
  lemma EncodeThenDecode(cp: nat, rest: Bytes)
    requires IsScalar(cp)
    ensures ScalarLength(EncodeUtf8(cp) + rest) == |EncodeUtf8(cp)|
    ensures DecodeScalar(EncodeUtf8(cp) + rest) == cp
  {
    var s := EncodeUtf8(cp) + rest;
    assert forall i | 0 <= i < |EncodeUtf8(cp)| :: s[i] == EncodeUtf8(cp)[i];
    if 0x80 <= cp {
      var q := cp / 0x40;
      assert cp == q * 0x40 + cp % 0x40;
      if 0x800 <= cp {
        assert cp / 0x1000 == q / 0x40;
        assert q == q / 0x40 * 0x40 + q % 0x40;
        if 0x10000 <= cp {
          var p := q / 0x40;
          assert cp / 0x40000 == p / 0x40;
          assert p == p / 0x40 * 0x40 + p % 0x40;
        }
      }
    }
  }

  /** Every UTF8-char is what the encoder writes for the code point it denotes. */
  lemma DecodeThenEncode(s: Bytes)
    requires ScalarLength(s) > 0
    ensures IsScalar(DecodeScalar(s))
    ensures EncodeUtf8(DecodeScalar(s)) == s[..ScalarLength(s)]
  {
    var cp := DecodeScalar(s);
    match ScalarLength(s)
    case 1 =>
    case 2 =>
      assert cp / 0x40 == s[0] as int - 0xC0;
    case 3 =>
      var q := (s[0] as int - 0xE0) * 0x40 + (s[1] as int - 0x80);
      assert cp / 0x40 == q && q / 0x40 == s[0] as int - 0xE0;
      assert cp / 0x1000 == q / 0x40;
    case _ =>
      var p := (s[0] as int - 0xF0) * 0x40 + (s[1] as int - 0x80);
      var q := p * 0x40 + (s[2] as int - 0x80);
      assert cp / 0x40 == q && q / 0x40 == p && p / 0x40 == s[0] as int - 0xF0;
      assert cp / 0x1000 == p && cp / 0x40000 == p / 0x40;
  }

  lemma {:induction false} WellFormedAppend(a: Bytes, b: Bytes)
    requires WellFormed(a)
    ensures WellFormed(a + b) <==> WellFormed(b)
    decreases |a|
  {
    if a == [] {
      assert a + b == b;
    } else {
      var n := ScalarLength(a);
      assert ScalarLength(a + b) == n;
      WellFormedAppend(a[n..], b);
      assert (a + b)[n..] == a[n..] + b;
    }
  }

  lemma EncodeWellFormed(cp: nat)
    requires IsScalar(cp)
    ensures WellFormed(EncodeUtf8(cp))
  {
    EncodeThenDecode(cp, []);
    assert EncodeUtf8(cp) + [] == EncodeUtf8(cp);
  }

  // -------------------------------------------------------- surrogate pairs

  predicate IsHigh(u: nat) { 0xD800 <= u <= 0xDBFF }

  predicate IsLow(u: nat) { 0xDC00 <= u <= 0xDFFF }

  function CombineSurrogates(high: nat, low: nat): nat
    requires IsHigh(high) && IsLow(low)
  {
    0x10000 + (high - 0xD800) * 0x400 + (low - 0xDC00)
  }

  function SplitSurrogates(cp: nat): (nat, nat)
    requires 0x10000 <= cp <= 0x10FFFF
  {
    (0xD800 + (cp - 0x10000) / 0x400, 0xDC00 + (cp - 0x10000) % 0x400)
  }

  /** Surrogate pairs and the code points U+10000..U+10FFFF correspond one to one. */
  lemma SurrogatesBijective(high: nat, low: nat, cp: nat)
    requires IsHigh(high) && IsLow(low) && 0x10000 <= cp <= 0x10FFFF
    ensures 0x10000 <= CombineSurrogates(high, low) <= 0x10FFFF
    ensures SplitSurrogates(CombineSurrogates(high, low)) == (high, low)
    ensures IsHigh(SplitSurrogates(cp).0) && IsLow(SplitSurrogates(cp).1)
    ensures CombineSurrogates(SplitSurrogates(cp).0, SplitSurrogates(cp).1) == cp
  {
  }
}
