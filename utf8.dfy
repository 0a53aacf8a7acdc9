/**
 * UTF-8 (section 3.9 of the Unicode Standard, RFC 3629) as the entry codec
 * uses it: String.getBytes(UTF_8) to encode, new String(bytes, UTF_8) to
 * decode. Decoding never fails: every ill-formed part of the input becomes
 * one U+FFFD REPLACEMENT CHARACTER, as the JDK's decoder replaces it. That
 * is the maximal ill-formed subpart of section 3.9 ("U+FFFD substitution
 * of maximal subparts"), with one exception: after lead byte 0xED the
 * decoder accepts any continuation byte, so the three bytes of an encoded
 * surrogate (ED A0..BF 80..BF) become a single U+FFFD, and ED A0..BF
 * followed by anything else is a two-byte unit.
 */
module Utf8 {
  import opened Base64

  const Replacement: char := '\U{FFFD}'

  predicate IsContinuation(b: byte) {
    0x80 <= b <= 0xBF
  }

  /** The bytes of one scalar value: one to four bytes, by the size of the value. */
  function EncodeChar(c: char): (r: seq<byte>)
    ensures 1 <= |r| <= 4
    ensures |r| == 1 <==> c as int < 0x80
  {
    var v := c as int;
    if v < 0x80 then [v]
    else if v < 0x800 then [0xC0 + v / 64, 0x80 + v % 64]
    else if v < 0x10000 then [0xE0 + v / 4096, 0x80 + (v / 64) % 64, 0x80 + v % 64]
    else [0xF0 + v / 262144, 0x80 + (v / 4096) % 64, 0x80 + (v / 64) % 64, 0x80 + v % 64]
  }

  /** String.getBytes(UTF_8). */
  function Encode(s: string): (r: seq<byte>)
    ensures |s| <= |r| <= 4 * |s|
  {
    if s == [] then [] else EncodeChar(s[0]) + Encode(s[1..])
  }

  /**
   * The range the JDK's decoder lets a second byte lie in after lead byte
   * b0: that of Table 3-7 of the Unicode Standard, except that after 0xED
   * it accepts the whole continuation range A0..BF included, and leaves
   * the surrogates to DecodeFirst.
   */
  function SecondLow(b0: byte): int {
    if b0 == 0xE0 then 0xA0 else if b0 == 0xF0 then 0x90 else 0x80
  }

  function SecondHigh(b0: byte): int {
    if b0 == 0xF4 then 0x8F else 0xBF
  }

  predicate IsSurrogate(v: int) {
    0xD800 <= v <= 0xDFFF
  }

  /**
   * The first character of a non-empty byte sequence and how many bytes it
   * takes: a well-formed sequence decodes to its scalar value; otherwise the
   * longest prefix that could still begin a well-formed sequence (at least
   * one byte) becomes U+FFFD, and so do the three bytes of a surrogate.
   */
  function DecodeFirst(b: seq<byte>): (r: (char, nat))
    requires |b| >= 1
    ensures 1 <= r.1 <= |b| && r.1 <= 4
  {
    var b0: int := b[0];
    if b0 < 0x80 then (b0 as char, 1)
    else if 0xC2 <= b0 <= 0xDF then
      if |b| >= 2 && IsContinuation(b[1]) then (((b0 - 0xC0) * 64 + (b[1] as int - 0x80)) as char, 2)
      else (Replacement, 1)
    else if 0xE0 <= b0 <= 0xEF then
      if |b| >= 2 && SecondLow(b0) <= b[1] <= SecondHigh(b0) then
        if |b| >= 3 && IsContinuation(b[2]) then
          var v := (b0 - 0xE0) * 4096 + (b[1] as int - 0x80) * 64 + (b[2] as int - 0x80);
          if IsSurrogate(v) then (Replacement, 3) else (v as char, 3)
        else (Replacement, 2)
      else (Replacement, 1)
    else if 0xF0 <= b0 <= 0xF4 then
      if |b| >= 2 && SecondLow(b0) <= b[1] <= SecondHigh(b0) then
        if |b| >= 3 && IsContinuation(b[2]) then
          if |b| >= 4 && IsContinuation(b[3]) then
            (((b0 - 0xF0) * 262144 + (b[1] as int - 0x80) * 4096 + (b[2] as int - 0x80) * 64 + (b[3] as int - 0x80)) as char, 4)
          else (Replacement, 3)
        else (Replacement, 2)
      else (Replacement, 1)
    else (Replacement, 1)
  }

  /** new String(bytes, UTF_8): total, with ill-formed parts replaced. */
  function Decode(b: seq<byte>): (s: string)
    ensures |s| <= |b|
    decreases |b|
  {
    if b == [] then []
    else
      var (c, n) := DecodeFirst(b);
      [c] + Decode(b[n..])
  }

  /** The encoding of a character, followed by anything, decodes to that character first. */
  lemma DecodeFirstOfEncoded(c: char, rest: seq<byte>)
    ensures DecodeFirst(EncodeChar(c) + rest) == (c, |EncodeChar(c)|)
  {
    var v := c as int;
    if v < 0x80 {
    } else if v < 0x800 {
      DecodeTwoBytes(c, rest);
    } else if v < 0x10000 {
      DecodeThreeBytes(c, rest);
    } else {
      DecodeFourBytes(c, rest);
    }
  }

  /** A character with a two-byte encoding decodes from its lead and continuation byte. */
  lemma DecodeTwoBytes(c: char, rest: seq<byte>)
    requires 0x80 <= c as int < 0x800
    ensures DecodeFirst(EncodeChar(c) + rest) == (c, 2)
  {
    var v := c as int;
    var b := EncodeChar(c) + rest;
    assert b[0] == 0xC0 + v / 64 && b[1] == 0x80 + v % 64;
    assert (v / 64) * 64 + v % 64 == v;
  }

  /** A character with a three-byte encoding decodes from its three bytes. */
  lemma DecodeThreeBytes(c: char, rest: seq<byte>)
    requires 0x800 <= c as int < 0x10000
    ensures DecodeFirst(EncodeChar(c) + rest) == (c, 3)
  {
    var v := c as int;
    var b := EncodeChar(c) + rest;
    assert b[0] == 0xE0 + v / 4096 && b[1] == 0x80 + (v / 64) % 64 && b[2] == 0x80 + v % 64;
    ThreeByteValue(v);
  }

  /** A character with a four-byte encoding decodes from its four bytes. */
  lemma DecodeFourBytes(c: char, rest: seq<byte>)
    requires 0x10000 <= c as int
    ensures DecodeFirst(EncodeChar(c) + rest) == (c, 4)
  {
    var v := c as int;
    var b := EncodeChar(c) + rest;
    assert b[0] == 0xF0 + v / 262144 && b[1] == 0x80 + (v / 4096) % 64;
    assert b[2] == 0x80 + (v / 64) % 64 && b[3] == 0x80 + v % 64;
    FourByteValue(v);
  }

  /** A three-byte value is in the range its lead byte allows and adds back up. */
  lemma ThreeByteValue(v: int)
    requires 0x800 <= v < 0x10000 && !(0xD800 <= v < 0xE000)
    ensures var b0 := 0xE0 + v / 4096;
            SecondLow(b0) <= 0x80 + (v / 64) % 64 <= SecondHigh(b0)
    ensures (v / 4096) * 4096 + ((v / 64) % 64) * 64 + v % 64 == v
  {
  }

  /** A four-byte value is in the range its lead byte allows and adds back up. */
  lemma FourByteValue(v: int)
    requires 0x10000 <= v < 0x110000
    ensures var b0 := 0xF0 + v / 262144;
            b0 <= 0xF4 && SecondLow(b0) <= 0x80 + (v / 4096) % 64 <= SecondHigh(b0)
    ensures (v / 262144) * 262144 + ((v / 4096) % 64) * 4096 + ((v / 64) % 64) * 64 + v % 64 == v
  {
  }

  /** Decoding inverts encoding, for every string. */
  lemma {:induction false} DecodeEncode(s: string)
    ensures Decode(Encode(s)) == s
  {
    if s != [] {
      var e := EncodeChar(s[0]);
      var rest := Encode(s[1..]);
      DecodeFirstOfEncoded(s[0], rest);
      assert (e + rest)[|e|..] == rest;
      DecodeEncode(s[1..]);
      assert s == [s[0]] + s[1..];
    }
  }

  /**
   * Ill-formed input is replaced, not rejected: a lone continuation byte,
   * a truncated sequence, a byte that never starts one, an encoded
   * surrogate (one U+FFFD for all three bytes) and a surrogate's first two
   * bytes followed by an ASCII byte or by the end of the input.
   */
  lemma DecodeReplaces()
    ensures Decode([0x80]) == [Replacement]
    ensures Decode([0xE2, 0x82]) == [Replacement]
    ensures Decode([0x41, 0xFF, 0x42]) == ['A', Replacement, 'B']
    ensures Decode([0xED, 0xA0, 0x80]) == [Replacement]
    ensures Decode([0xED, 0xA0, 0x41]) == [Replacement, 'A']
    ensures Decode([0xED, 0xA0]) == [Replacement]
  {
    assert [0x80][1..] == [];
    var t: seq<byte> := [0xE2, 0x82];
    assert t[2..] == [];
    var u: seq<byte> := [0x41, 0xFF, 0x42];
    assert u[1..] == [0xFF, 0x42] && u[1..][1..] == [0x42] && u[1..][1..][1..] == [];
    var w: seq<byte> := [0xED, 0xA0, 0x80];
    assert w[3..] == [];
    var x: seq<byte> := [0xED, 0xA0, 0x41];
    assert x[2..] == [0x41] && x[2..][1..] == [];
    var y: seq<byte> := [0xED, 0xA0];
    assert y[2..] == [];
  }
}
