/**
 * UTF-8 (RFC 3629): how a Rust `String` is laid out in bytes. `str::len`
 * is the length of this encoding, `str::as_bytes` is the encoding itself,
 * and `std::str::from_utf8` accepts exactly the byte strings `Decode` accepts.
 */
module Utf8 {
  import opened Wrappers

  type byte = x: int | 0 <= x < 256

  predicate IsContinuation(b: byte) {
    0x80 <= b < 0xC0
  }

  /** The one to four bytes that encode a Unicode scalar value. */
  function EncodeChar(c: char): (bs: seq<byte>)
    ensures 1 <= |bs| <= 4
    ensures |bs| == 1 <==> c as int < 0x80
    ensures forall i :: 1 <= i < |bs| ==> IsContinuation(bs[i])
  {
    var cp := c as int;
    if cp < 0x80 then
      [cp]
    else if cp < 0x800 then
      [0xC0 + cp / 64, 0x80 + cp % 64]
    else if cp < 0x10000 then
      [0xE0 + cp / 4096, 0x80 + cp / 64 % 64, 0x80 + cp % 64]
    else
      [0xF0 + cp / 262144, 0x80 + cp / 4096 % 64, 0x80 + cp / 64 % 64, 0x80 + cp % 64]
  }

  /** Every character is below U+0080. */
  predicate IsAscii(s: string) {
    forall i :: 0 <= i < |s| ==> s[i] as int < 0x80
  }

  /** `str::as_bytes`: each character's bytes in turn. */
  function Encode(s: string): (bs: seq<byte>)
    ensures |s| <= |bs| <= 4 * |s|
    ensures |bs| == |s| <==> IsAscii(s)
  {
    if s == [] then []
    else
      assert IsAscii(s) <==> s[0] as int < 0x80 && IsAscii(s[1..]) by {
        assert forall i :: 1 <= i < |s| ==> s[i] == s[1..][i - 1];
      }
      EncodeChar(s[0]) + Encode(s[1..])
  }

  /** `str::len`: the number of bytes in the encoding, one to four per character. */
  function ByteLen(s: string): (n: nat)
    ensures |s| <= n <= 4 * |s|
    ensures n == |s| <==> IsAscii(s)
  {
    |Encode(s)|
  }

  /**
   * Decodes the scalar value at the front of `bs` and says how many bytes it
   * took, or gives None when the front of `bs` is not a well-formed sequence:
   * a stray continuation byte, a truncated sequence, an overlong form, a
   * surrogate, or a value above U+10FFFF.
   */
  function DecodeChar(bs: seq<byte>): (r: Option<(char, nat)>)
    requires |bs| > 0
    ensures r.Some? ==> 1 <= r.value.1 <= |bs| && EncodeChar(r.value.0) == bs[..r.value.1]
  {
    var b0 := bs[0];
    if b0 < 0x80 then
      Some((b0 as char, 1))
    else if 0xC0 <= b0 < 0xE0 && |bs| >= 2 && IsContinuation(bs[1]) then
      var cp := Value2(b0, bs[1]);
      if cp < 0x80 then None
      else
        Encodes2(b0, bs[1]);
        Some((cp as char, 2))
    else if 0xE0 <= b0 < 0xF0 && |bs| >= 3 && IsContinuation(bs[1]) && IsContinuation(bs[2]) then
      var cp := Value3(b0, bs[1], bs[2]);
      if cp < 0x800 || 0xD800 <= cp < 0xE000 then None
      else
        Encodes3(b0, bs[1], bs[2]);
        Some((cp as char, 3))
    else if 0xF0 <= b0 < 0xF8 && |bs| >= 4
      && IsContinuation(bs[1]) && IsContinuation(bs[2]) && IsContinuation(bs[3]) then
      var cp := Value4(b0, bs[1], bs[2], bs[3]);
      if cp < 0x10000 || cp >= 0x110000 then None
      else
        Encodes4(b0, bs[1], bs[2], bs[3]);
        Some((cp as char, 4))
    else
      None
  }

  /** The scalar value a two-byte sequence spells: five bits from the lead byte, six from the other. */
  function Value2(b0: byte, b1: byte): int {
    (b0 as int - 0xC0) * 64 + (b1 as int - 0x80)
  }

  function Value3(b0: byte, b1: byte, b2: byte): int {
    (b0 as int - 0xE0) * 4096 + (b1 as int - 0x80) * 64 + (b2 as int - 0x80)
  }

  function Value4(b0: byte, b1: byte, b2: byte, b3: byte): int {
    (b0 as int - 0xF0) * 262144 + (b1 as int - 0x80) * 4096 + (b2 as int - 0x80) * 64 + (b3 as int - 0x80)
  }

  /** Splitting `q * 64 + d` back into its quotient and its six-bit digit. */
  lemma ContinuationDigits(q: nat, d: nat)
    requires d < 64
    ensures (q * 64 + d) / 64 == q && (q * 64 + d) % 64 == d
  {
  }

  /** A well-formed two-byte sequence is the encoding of the value it spells. */
  lemma Encodes2(b0: byte, b1: byte)
    requires 0xC0 <= b0 < 0xE0 && IsContinuation(b1) && Value2(b0, b1) >= 0x80
    ensures EncodeChar(Value2(b0, b1) as char) == [b0, b1]
  {
    ContinuationDigits(b0 - 0xC0, b1 - 0x80);
  }

  lemma Encodes3(b0: byte, b1: byte, b2: byte)
    requires 0xE0 <= b0 < 0xF0 && IsContinuation(b1) && IsContinuation(b2)
    requires var cp := Value3(b0, b1, b2); cp >= 0x800 && !(0xD800 <= cp < 0xE000)
    ensures EncodeChar(Value3(b0, b1, b2) as char) == [b0, b1, b2]
  {
    ContinuationDigits((b0 - 0xE0) * 64 + (b1 - 0x80), b2 - 0x80);
    ContinuationDigits(b0 - 0xE0, b1 - 0x80);
  }

  lemma Encodes4(b0: byte, b1: byte, b2: byte, b3: byte)
    requires 0xF0 <= b0 < 0xF8 && IsContinuation(b1) && IsContinuation(b2) && IsContinuation(b3)
    requires 0x10000 <= Value4(b0, b1, b2, b3) < 0x110000
    ensures EncodeChar(Value4(b0, b1, b2, b3) as char) == [b0, b1, b2, b3]
  {
    var hi := (b0 - 0xF0) * 64 + (b1 - 0x80);
    ContinuationDigits(hi * 64 + (b2 - 0x80), b3 - 0x80);
    ContinuationDigits(hi, b2 - 0x80);
    ContinuationDigits(b0 - 0xF0, b1 - 0x80);
  }

  /** `std::str::from_utf8`: the string whose encoding is `bs`, if `bs` is well-formed. */
  function Decode(bs: seq<byte>): (r: Option<string>)
    ensures r.Some? ==> Encode(r.value) == bs
    decreases |bs|
  {
    if bs == [] then Some([])
    else match DecodeChar(bs)
      case None => None
      case Some((c, w)) =>
        match Decode(bs[w..])
        case None => None
        case Some(rest) =>
          assert bs == bs[..w] + bs[w..];
          assert ([c] + rest)[0] == c && ([c] + rest)[1..] == rest;
          assert Encode([c] + rest) == EncodeChar(c) + Encode(rest);
          Some([c] + rest)
  }

  lemma {:induction false} EncodeAppend(a: string, b: string)
    ensures Encode(a + b) == Encode(a) + Encode(b)
    decreases |a|
  {
    if a == [] {
      assert a + b == b;
    } else {
      assert (a + b)[0] == a[0] && (a + b)[1..] == a[1..] + b;
      EncodeAppend(a[1..], b);
    }
  }

  lemma DecodeCharEncoded(c: char, rest: seq<byte>)
    ensures var bs := EncodeChar(c) + rest; DecodeChar(bs) == Some((c, |EncodeChar(c)|))
  {
    var cp := c as int;
    var bs := EncodeChar(c) + rest;
    if cp < 0x80 {
    } else if cp < 0x800 {
      Spells2(cp);
      assert bs[0] == 0xC0 + cp / 64 && bs[1] == 0x80 + cp % 64;
    } else if cp < 0x10000 {
      Spells3(cp);
      assert bs[0] == 0xE0 + cp / 4096 && bs[1] == 0x80 + cp / 64 % 64 && bs[2] == 0x80 + cp % 64;
    } else {
      Spells4(cp);
      assert bs[0] == 0xF0 + cp / 262144 && bs[1] == 0x80 + cp / 4096 % 64;
      assert bs[2] == 0x80 + cp / 64 % 64 && bs[3] == 0x80 + cp % 64;
    }
  }

  /** The bytes `EncodeChar` writes for a two-byte value spell that value. */
  lemma Spells2(cp: int)
    requires 0x80 <= cp < 0x800
    ensures Value2(0xC0 + cp / 64, 0x80 + cp % 64) == cp
  {
  }

  lemma Spells3(cp: int)
    requires 0x800 <= cp < 0x10000
    ensures Value3(0xE0 + cp / 4096, 0x80 + cp / 64 % 64, 0x80 + cp % 64) == cp
  {
    assert cp / 64 == (cp / 4096) * 64 + cp / 64 % 64;
  }

  lemma Spells4(cp: int)
    requires 0x10000 <= cp < 0x110000
    ensures Value4(0xF0 + cp / 262144, 0x80 + cp / 4096 % 64, 0x80 + cp / 64 % 64, 0x80 + cp % 64) == cp
  {
    assert cp / 4096 == (cp / 262144) * 64 + cp / 4096 % 64;
    assert cp / 64 == (cp / 4096) * 64 + cp / 64 % 64;
  }

  /** Decoding an encoding gives back the string. */
  lemma {:induction false} DecodeEncode(s: string)
    ensures Decode(Encode(s)) == Some(s)
    decreases |s|
  {
    if s != [] {
      var e, rest := EncodeChar(s[0]), Encode(s[1..]);
      assert Encode(s) == e + rest;
      DecodeCharEncoded(s[0], rest);
      assert (e + rest)[|e|..] == rest;
      DecodeEncode(s[1..]);
      assert s == [s[0]] + s[1..];
    }
  }

  /** Strings with the same encoding are the same string. */
  lemma EncodeInjective(a: string, b: string)
    requires Encode(a) == Encode(b)
    ensures a == b
  {
    DecodeEncode(a);
    DecodeEncode(b);
  }

  /** A character below U+0080 is the single byte of the same value. */
  lemma EncodeAscii(s: string)
    requires IsAscii(s)
    ensures Encode(s) == seq(|s|, i requires 0 <= i < |s| => s[i] as int)
  {
  }
}
