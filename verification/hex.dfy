/** Lowercase hexadecimal as the C++ iostreams print it with `std::hex`,
    `std::setw` and `std::setfill('0')`: the salt (AuthManager::generateSalt)
    and the rendering of a digest (AuthManager::computeHash). */
module Hex {
  import opened Wire

  const DIGITS: string := "0123456789abcdef"

  /** The characters `std::hex` writes: digits and lowercase a-f. */
  predicate IsHexDigit(c: char)
  {
    '0' <= c <= '9' || 'a' <= c <= 'f'
  }

  predicate IsHexString(s: string)
  {
    forall i :: 0 <= i < |s| ==> IsHexDigit(s[i])
  }

  function DigitValue(c: char): (d: nat)
    requires IsHexDigit(c)
    ensures d < 16
  {
    if c <= '9' then c as int - '0' as int else c as int - 'a' as int + 10
  }

  function DigitChar(d: nat): (c: char)
    requires d < 16
    ensures IsHexDigit(c) && DigitValue(c) == d
  {
    DIGITS[d]
  }

  function Pow16(n: nat): (p: nat)
    ensures p >= 1
  {
    if n == 0 then 1 else 16 * Pow16(n - 1)
  }

  /** The value of a hex string, most significant digit first. */
  function ParseHex(s: string): nat
    requires IsHexString(s)
  {
    if |s| == 0 then 0 else ParseHex(s[..|s| - 1]) * 16 + DigitValue(s[|s| - 1])
  }

  lemma {:induction false} ParseHexBound(s: string)
    requires IsHexString(s)
    ensures ParseHex(s) < Pow16(|s|)
  {
    if |s| > 0 {
      ParseHexBound(s[..|s| - 1]);
    }
  }

  /** The digits `std::hex` prints for `v`: no leading zeros, "0" for zero. */
  function ToHex(v: nat): (s: string)
    ensures 1 <= |s| && IsHexString(s)
    ensures ParseHex(s) == v
    ensures |s| > 1 ==> s[0] != '0'
    decreases v
  {
    if v < 16 then [DigitChar(v)]
    else
      var s := ToHex(v / 16) + [DigitChar(v % 16)];
      assert s[..|s| - 1] == ToHex(v / 16);
      s
  }

  /** A value below 16^width needs at most `width` digits. */
  lemma {:induction false} ToHexFits(v: nat, width: nat)
    ensures 1 <= width && v < Pow16(width) ==> |ToHex(v)| <= width
    decreases width
  {
    if 1 < width && v >= 16 {
      ToHexFits(v / 16, width - 1);
    }
  }

  function Zeros(k: nat): (z: string)
    ensures |z| == k && IsHexString(z)
    ensures forall i :: 0 <= i < k ==> z[i] == '0'
  {
    if k == 0 then [] else ['0'] + Zeros(k - 1)
  }

  /** Leading zeros do not change a hex value. */
  lemma {:induction false} ParseHexZeros(k: nat, s: string)
    requires IsHexString(s)
    ensures IsHexString(Zeros(k) + s)
    ensures ParseHex(Zeros(k) + s) == ParseHex(s)
  {
    if k > 0 {
      var t := Zeros(k - 1) + s;
      assert Zeros(k) == ['0'] + Zeros(k - 1);
      assert Zeros(k) + s == ['0'] + t;
      ParseHexZeros(k - 1, s);
      ParseHexLeadingZero(t);
    } else {
      assert Zeros(k) + s == s;
    }
  }

  lemma {:induction false} ParseHexLeadingZero(s: string)
    requires IsHexString(s)
    ensures IsHexString(['0'] + s)
    ensures ParseHex(['0'] + s) == ParseHex(s)
  {
    if |s| > 0 {
      assert (['0'] + s)[..|s|] == ['0'] + s[..|s| - 1];
      ParseHexLeadingZero(s[..|s| - 1]);
    }
  }

  /** `std::setw(width) << std::setfill('0') << std::hex << v`: the digits
      of `v`, padded on the left with '0' up to `width` characters (never
      truncated). */
  function FormatHex(v: nat, width: nat): (s: string)
    ensures IsHexString(s)
    ensures ParseHex(s) == v
    ensures |s| >= width
    ensures 1 <= width && v < Pow16(width) ==> |s| == width
  {
    var digits := ToHex(v);
    if |digits| < width then
      ParseHexZeros(width - |digits|, digits);
      Zeros(width - |digits|) + digits
    else
      ToHexFits(v, width);
      digits
  }

  lemma Pow16Sixteen()
    ensures Pow16(16) == 0x1_0000_0000_0000_0000
  {
    assert Pow16(4) == 0x1_0000;
    assert Pow16(8) == 0x1_0000 * 0x1_0000 by {
      assert Pow16(8) == 0x1_0000 * Pow16(4);
    }
    assert Pow16(12) == 0x1_0000 * Pow16(8);
    assert Pow16(16) == 0x1_0000 * Pow16(12);
  }

  /** generateSalt, after the random draw: the 64-bit value as exactly 16
      lowercase hex characters, zero-padded on the left, which read back
      as the value. */
  function GenerateSalt(value: uint64): (salt: string)
    ensures |salt| == 16
    ensures IsHexString(salt)
    ensures ParseHex(salt) == value
  {
    Pow16Sixteen();
    FormatHex(value, 16)
  }

  /** Distinct draws give distinct salts. */
  lemma SaltInjective(a: uint64, b: uint64)
    requires GenerateSalt(a) == GenerateSalt(b)
    ensures a == b
  {
  }

  /** Every 16-character lowercase hex string is the salt of the value it
      reads as. */
  lemma {:induction false} SaltSurjective(s: string)
    requires |s| == 16 && IsHexString(s)
    ensures ParseHex(s) < 0x1_0000_0000_0000_0000
    ensures GenerateSalt(ParseHex(s)) == s
  {
    ParseHexBound(s);
    Pow16Sixteen();
    HexCanonical(GenerateSalt(ParseHex(s)), s);
  }

  /** Two hex strings of the same length and value are equal. */
  lemma {:induction false} HexCanonical(a: string, b: string)
    requires IsHexString(a) && IsHexString(b)
    requires |a| == |b| && ParseHex(a) == ParseHex(b)
    ensures a == b
  {
    if |a| > 0 {
      var n := |a| - 1;
      var pa, pb := ParseHex(a[..n]), ParseHex(b[..n]);
      var da, db := DigitValue(a[n]), DigitValue(b[n]);
      DivModUnique(ParseHex(a), 16, pa, da);
      DivModUnique(ParseHex(b), 16, pb, db);
      HexCanonical(a[..n], b[..n]);
      DigitValueInjective(a[n], b[n]);
      assert a == a[..n] + [a[n]];
      assert b == b[..n] + [b[n]];
    }
  }

  lemma DigitValueInjective(c: char, d: char)
    requires IsHexDigit(c) && IsHexDigit(d) && DigitValue(c) == DigitValue(d)
    ensures c == d
  {
  }

  /** The digest rendering of computeHash: every byte as two lowercase hex
      characters, in order. */
  function HexEncode(bytes: seq<byte>): (s: string)
    ensures |s| == 2 * |bytes|
    ensures IsHexString(s)
  {
    if |bytes| == 0 then []
    else
      assert Pow16(2) == 256;
      FormatHex(bytes[0], 2) + HexEncode(bytes[1..])
  }

  /** Reads two hex characters per byte. */
  function HexDecode(s: string): seq<byte>
    requires IsHexString(s)
  {
    if |s| < 2 then []
    else
      ParseHexBound(s[..2]);
      assert Pow16(2) == 256;
      [ParseHex(s[..2])] + HexDecode(s[2..])
  }

  /** The rendering loses nothing: the digest bytes read back. */
  lemma {:induction false} HexRoundTrip(bytes: seq<byte>)
    ensures HexDecode(HexEncode(bytes)) == bytes
  {
    if |bytes| > 0 {
      var s := HexEncode(bytes);
      assert s[..2] == FormatHex(bytes[0], 2);
      assert s[2..] == HexEncode(bytes[1..]);
      HexRoundTrip(bytes[1..]);
      assert bytes == [bytes[0]] + bytes[1..];
    }
  }

  /** Distinct digests render differently. */
  lemma HexEncodeInjective(a: seq<byte>, b: seq<byte>)
    requires HexEncode(a) == HexEncode(b)
    ensures a == b
  {
    HexRoundTrip(a);
    HexRoundTrip(b);
  }
}
