/** Hex text and bytes: `decode_hex`, `nibble` and `hex_encode_lowercase`. */
module Hex {
  import opened Bytes

  /** UTF-8 text as its bytes. */
  type Text = bytes

  /** `nibble`: both cases accepted. */
  function Nibble(b: byte): (r: Option<byte>)
    ensures r.Some? ==> r.value < 16
  {
    if 0x30 <= b <= 0x39 then Some(b - 0x30)
    else if 0x61 <= b <= 0x66 then Some(b - 0x61 + 10)
    else if 0x41 <= b <= 0x46 then Some(b - 0x41 + 10)
    else None
  }

  /** What `decode_hex` computes: the bytes, or nothing for an odd length or a foreign character. */
  function HexDecode(s: Text): (r: Option<bytes>)
    ensures r.Some? ==> |s| == 2 * |r.value|
  {
    if s == [] then Some([])
    else if |s| == 1 || Nibble(s[0]).None? || Nibble(s[1]).None? then None
    else
      match HexDecode(s[2..])
      case None => None
      case Some(rest) => Some([16 * Nibble(s[0]).value + Nibble(s[1]).value] + rest)
  }

  /** `decode_hex` as the source runs it. */
  method DecodeHex(s: Text) returns (r: Option<bytes>)
    ensures r == HexDecode(s)
  {
    if |s| % 2 != 0 {
      OddLengthIsRejected(s);
      return None;
    }
    var out: bytes := [];
    var i := 0;
    assert s[0..] == s;
    while i < |s|
      invariant i % 2 == 0 && i <= |s|
      invariant HexDecode(s) == Prepend(out, HexDecode(s[i..]))
    {
      var hi, lo := Nibble(s[i]), Nibble(s[i + 1]);
      PrependOneByte(out, s, i);
      if hi.None? || lo.None? {
        return None;
      }
      out := out + [16 * hi.value + lo.value];
      i := i + 2;
    }
    r := Some(out);
  }

  function Prepend(out: bytes, r: Option<bytes>): (p: Option<bytes>)
    ensures out == [] ==> p == r
    ensures r == Some([]) ==> p == Some(out)
  {
    match r
    case None => None
    case Some(rest) =>
      assert out == [] ==> out + rest == rest;
      assert rest == [] ==> out + rest == out;
      Some(out + rest)
  }

  lemma PrependOneByte(out: bytes, s: Text, i: nat)
    requires i + 1 < |s|
    ensures
      var hi, lo := Nibble(s[i]), Nibble(s[i + 1]);
      Prepend(out, HexDecode(s[i..])) ==
      if hi.None? || lo.None? then None else Prepend(out + [16 * hi.value + lo.value], HexDecode(s[i + 2..]))
  {
    var t := s[i..];
    assert t[0] == s[i] && t[1] == s[i + 1] && t[2..] == s[i + 2..];
    var hi, lo, rest := Nibble(s[i]), Nibble(s[i + 1]), HexDecode(s[i + 2..]);
    if hi.Some? && lo.Some? && rest.Some? {
      assert out + ([16 * hi.value + lo.value] + rest.value) == (out + [16 * hi.value + lo.value]) + rest.value;
    }
  }

  lemma {:induction false} OddLengthIsRejected(s: Text)
    requires |s| % 2 != 0
    ensures HexDecode(s).None?
  {
  }

  function Digit(n: byte): (b: byte)
    requires n < 16
    ensures Nibble(b) == Some(n)
    ensures IsLowerHexDigit(b)
  {
    if n < 10 then 0x30 + n else 0x61 + n - 10
  }

  predicate IsLowerHexDigit(b: byte)
  {
    0x30 <= b <= 0x39 || 0x61 <= b <= 0x66
  }

  predicate IsLowerHex(s: Text)
  {
    forall i :: 0 <= i < |s| ==> IsLowerHexDigit(s[i])
  }

  /** `hex_encode_lowercase`. */
  function HexEncode(b: bytes): (s: Text)
    ensures |s| == 2 * |b| && IsLowerHex(s)
  {
    if b == [] then [] else [Digit(b[0] / 16), Digit(b[0] % 16)] + HexEncode(b[1..])
  }

  /** Encoding then decoding gives the bytes back. */
  lemma {:induction false} HexDecodeOfEncode(b: bytes)
    ensures HexDecode(HexEncode(b)) == Some(b)
  {
    if b != [] {
      HexDecodeOfEncode(b[1..]);
      DecodeOneByte(Digit(b[0] / 16), Digit(b[0] % 16), HexEncode(b[1..]), b[1..]);
      DigitsOfByte(b[0]);
      assert b == [b[0]] + b[1..];
    }
  }

  lemma DigitsOfByte(x: byte)
    ensures 16 * Nibble(Digit(x / 16)).value + Nibble(Digit(x % 16)).value == x
  {
  }

  lemma DecodeOneByte(hi: byte, lo: byte, rest: Text, b: bytes)
    requires Nibble(hi).Some? && Nibble(lo).Some? && HexDecode(rest) == Some(b)
    ensures HexDecode([hi, lo] + rest) == Some([16 * Nibble(hi).value + Nibble(lo).value] + b)
  {
  }

  /** Lowercase hex of even length decodes, and encoding gives the text back. */
  lemma {:induction false} HexEncodeOfDecode(s: Text)
    requires IsLowerHex(s) && |s| % 2 == 0
    ensures HexDecode(s).Some? && HexEncode(HexDecode(s).value) == s
  {
    if s != [] {
      HexEncodeOfDecode(s[2..]);
      assert IsLowerHexDigit(s[0]) && IsLowerHexDigit(s[1]);
      assert s == [s[0], s[1]] + s[2..];
      DecodeOneByte(s[0], s[1], s[2..], HexDecode(s[2..]).value);
      EncodeOneByte(s[0], s[1], HexDecode(s[2..]).value);
    }
  }

  lemma EncodeOneByte(hi: byte, lo: byte, rest: bytes)
    requires IsLowerHexDigit(hi) && IsLowerHexDigit(lo)
    ensures HexEncode([16 * Nibble(hi).value + Nibble(lo).value] + rest) == [hi, lo] + HexEncode(rest)
  {
  }

  predicate IsHexDigit(b: byte)
  {
    IsLowerHexDigit(b) || 0x41 <= b <= 0x46
  }

  function LowerByte(b: byte): (c: byte)
  {
    if 0x41 <= b <= 0x5A then b + 32 else b
  }

  /** Text in lowercase, letter by letter. */
  function Lower(s: Text): (t: Text)
    ensures |t| == |s| && forall i :: 0 <= i < |s| ==> t[i] == LowerByte(s[i])
  {
    if s == [] then [] else [LowerByte(s[0])] + Lower(s[1..])
  }

  /**
   What `decode_hex` accepts and what it returns: text of even length made of hex digits of either
   case, as the bytes whose lowercase form the text is; nothing else is accepted.
   */
  lemma HexDecodeExactly(s: Text)
    ensures HexDecode(s).Some? <==> |s| % 2 == 0 && forall i :: 0 <= i < |s| ==> IsHexDigit(s[i])
    ensures HexDecode(s).Some? ==> HexEncode(HexDecode(s).value) == Lower(s)
  {
    HexAcceptsExactly(s);
    if HexDecode(s).Some? {
      HexDecodeIsLower(s);
    }
  }

  lemma {:induction false} HexAcceptsExactly(s: Text)
    ensures HexDecode(s).Some? <==> |s| % 2 == 0 && forall i :: 0 <= i < |s| ==> IsHexDigit(s[i])
  {
    if |s| >= 2 {
      HexAcceptsExactly(s[2..]);
      NibbleOfLower(s[0]);
      NibbleOfLower(s[1]);
      assert forall i :: 2 <= i < |s| ==> s[i] == s[2..][i - 2];
      assert forall i :: 0 <= i < |s| - 2 ==> s[2..][i] == s[i + 2];
    }
  }

  lemma {:induction false} HexDecodeIsLower(s: Text)
    requires HexDecode(s).Some?
    ensures HexEncode(HexDecode(s).value) == Lower(s)
  {
    if s != [] {
      HexDecodeIsLower(s[2..]);
      LowerOneByte(s[0], s[1], s[2..], HexDecode(s[2..]).value);
      assert s == [s[0], s[1]] + s[2..];
    }
  }

  lemma LowerOneByte(hi: byte, lo: byte, t: Text, rest: bytes)
    requires Nibble(hi).Some? && Nibble(lo).Some? && HexEncode(rest) == Lower(t)
    ensures HexEncode([16 * Nibble(hi).value + Nibble(lo).value] + rest) == Lower([hi, lo] + t)
  {
    NibbleOfLower(hi);
    NibbleOfLower(lo);
    EncodeOneByte(LowerByte(hi), LowerByte(lo), rest);
    LowerSplits(hi, lo, t);
  }

  lemma LowerSplits(hi: byte, lo: byte, t: Text)
    ensures Lower([hi, lo] + t) == [LowerByte(hi), LowerByte(lo)] + Lower(t)
  {
  }

  lemma NibbleOfLower(b: byte)
    ensures Nibble(b).Some? <==> IsHexDigit(b)
    ensures IsHexDigit(b) ==> IsLowerHexDigit(LowerByte(b)) && Nibble(LowerByte(b)) == Nibble(b)
  {
  }

  /** Hex text sorts as the bytes do, so a hex cursor is a position in byte order. */
  lemma {:induction false} HexPreservesOrder(a: bytes, b: bytes)
    requires |a| == |b|
    ensures Lex(HexEncode(a), HexEncode(b)) <==> Lex(a, b)
  {
    if a != [] {
      var x, y := HexEncode(a), HexEncode(b);
      HexPreservesOrder(a[1..], b[1..]);
      assert x[1..][1..] == HexEncode(a[1..]) && y[1..][1..] == HexEncode(b[1..]);
      assert x[1] == x[1..][0] && y[1] == y[1..][0];
      DigitPreservesOrder(a[0] / 16, b[0] / 16);
      DigitPreservesOrder(a[0] % 16, b[0] % 16);
    }
  }

  lemma DigitPreservesOrder(m: byte, n: byte)
    requires m < 16 && n < 16
    ensures Digit(m) < Digit(n) <==> m < n
  {
  }
}
