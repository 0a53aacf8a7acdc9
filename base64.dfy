/**
 * Base64 with the basic alphabet of RFC 4648 section 4, with padding, as
 * java.util.Base64.getEncoder() writes it and java.util.Base64.getDecoder()
 * reads it.
 *
 * The decoder is Java's basic (non-MIME) decoder: it reads the text one
 * character at a time, collecting six bits per alphabet character, and
 * fails (IllegalArgumentException, here None) on a character outside the
 * alphabet, on '=' at the start of a four-character unit, on a unit with a
 * single character, on a single '=' after two characters, and on anything
 * after the padding. It does not check that the unused low bits of the last
 * character are zero.
 */
module Base64 {
  import opened Wrappers
  import opened Arith

  type byte = b: int | 0 <= b < 256

  /** The character of a six-bit value: A-Z, a-z, 0-9, '+', '/'. */
  function EncodeDigit(v: int): (c: char)
    requires 0 <= v < 64
    ensures c != '='
  {
    if v < 26 then ('A' as int + v) as char
    else if v < 52 then ('a' as int + v - 26) as char
    else if v < 62 then ('0' as int + v - 52) as char
    else if v == 62 then '+'
    else '/'
  }

  /** The six-bit value of an alphabet character, -1 for any other character. */
  function DecodeDigit(c: char): (v: int)
    ensures -1 <= v < 64
    ensures v >= 0 ==> EncodeDigit(v) == c
  {
    if 'A' <= c <= 'Z' then c as int - 'A' as int
    else if 'a' <= c <= 'z' then c as int - 'a' as int + 26
    else if '0' <= c <= '9' then c as int - '0' as int + 52
    else if c == '+' then 62
    else if c == '/' then 63
    else -1
  }

  lemma DecodeEncodeDigit(v: int)
    requires 0 <= v < 64
    ensures DecodeDigit(EncodeDigit(v)) == v
  {
  }

  /** Four characters for three bytes. */
  function EncodeTriple(b0: byte, b1: byte, b2: byte): (s: string)
    ensures |s| == 4 && forall i | 0 <= i < 4 :: DecodeDigit(s[i]) >= 0
  {
    var n := b0 * 65536 + b1 * 256 + b2;
    DecodeEncodeDigit(n / 262144);
    DecodeEncodeDigit((n / 4096) % 64);
    DecodeEncodeDigit((n / 64) % 64);
    DecodeEncodeDigit(n % 64);
    [EncodeDigit(n / 262144), EncodeDigit((n / 4096) % 64), EncodeDigit((n / 64) % 64), EncodeDigit(n % 64)]
  }

  /** Base64.Encoder.encodeToString: whole units of three bytes, then the last one or two bytes padded with '='. */
  function Encode(b: seq<byte>): (s: string)
    ensures |s| == 4 * ((|b| + 2) / 3)
  {
    if |b| >= 3 then
      assert (|b| + 2) / 3 == (|b[3..]| + 2) / 3 + 1;
      EncodeTriple(b[0], b[1], b[2]) + Encode(b[3..])
    else if |b| == 2 then EncodeTriple(b[0], b[1], 0)[..3] + "="
    else if |b| == 1 then EncodeTriple(b[0], 0, 0)[..2] + "=="
    else ""
  }

  /** bits << shift for the shifts the decoder uses. */
  function ShiftLeft(v: int, shift: int): int {
    if shift == 18 then v * 262144
    else if shift == 12 then v * 4096
    else if shift == 6 then v * 64
    else v
  }

  /**
   * The end of decoding, at the end of the text or after the padding:
   * two pending characters give one more byte, three give two more, a
   * single one is an error, and nothing may follow.
   */
  function Finish(shift: int, bits: int, out: seq<byte>, rest: string): Option<seq<byte>> {
    if shift == 12 || rest != [] then None
    else if shift == 6 then Some(out + [(bits / 65536) % 256])
    else if shift == 0 then Some(out + [(bits / 65536) % 256, (bits / 256) % 256])
    else Some(out)
  }

  /**
   * The decoder loop over the remaining text `s`: `shift` is 18, 12, 6 or 0
   * as zero, one, two or three characters of the current unit are read,
   * `bits` holds them, `out` the bytes so far.
   */
  function DecodeLoop(s: string, shift: int, bits: int, out: seq<byte>): Option<seq<byte>>
    decreases |s|
  {
    if s == [] then Finish(shift, bits, out, [])
    else if s[0] == '=' then
      if shift == 18 then None
      else if shift == 6 then
        if |s| == 1 || s[1] != '=' then None else Finish(shift, bits, out, s[2..])
      else Finish(shift, bits, out, s[1..])
    else
      var v := DecodeDigit(s[0]);
      if v < 0 then None
      else
        var nbits := bits + ShiftLeft(v, shift);
        if shift - 6 < 0 then
          DecodeLoop(s[1..], 18, 0, out + [(nbits / 65536) % 256, (nbits / 256) % 256, nbits % 256])
        else
          DecodeLoop(s[1..], shift - 6, nbits, out)
  }

  /** Base64.Decoder.decode: the decoded bytes, or None where Java throws IllegalArgumentException. */
  function Decode(s: string): (r: Option<seq<byte>>)
    ensures s == [] ==> r == Some([])
  {
    DecodeLoop(s, 18, 0, [])
  }

  /** One alphabet character in the middle of a unit: its six bits join the pending ones. */
  lemma DigitStep(s: string, shift: int, bits: int, out: seq<byte>)
    requires s != [] && s[0] != '=' && DecodeDigit(s[0]) >= 0 && shift in {18, 12, 6}
    ensures DecodeLoop(s, shift, bits, out) == DecodeLoop(s[1..], shift - 6, bits + ShiftLeft(DecodeDigit(s[0]), shift), out)
  {
  }

  /** The fourth alphabet character of a unit: the unit's three bytes are emitted. */
  lemma LastDigitStep(s: string, bits: int, out: seq<byte>)
    requires s != [] && s[0] != '=' && DecodeDigit(s[0]) >= 0
    ensures var n := bits + DecodeDigit(s[0]);
            DecodeLoop(s, 0, bits, out) == DecodeLoop(s[1..], 18, 0, out + [(n / 65536) % 256, (n / 256) % 256, n % 256])
  {
  }

  /** "=" after three characters ends the text with two more bytes. */
  lemma OnePadEnd(bits: int, out: seq<byte>)
    ensures DecodeLoop("=", 0, bits, out) == Some(out + [(bits / 65536) % 256, (bits / 256) % 256])
  {
    assert "="[1..] == [];
  }

  /** "==" after two characters ends the text with one more byte. */
  lemma TwoPadEnd(bits: int, out: seq<byte>)
    ensures DecodeLoop("==", 6, bits, out) == Some(out + [(bits / 65536) % 256])
  {
    assert "=="[2..] == [];
  }

  /** Four alphabet characters are read as one unit: their 24 bits give three bytes. */
  lemma ReadUnit(s: string, out: seq<byte>)
    requires |s| >= 4 && forall i | 0 <= i < 4 :: s[i] != '=' && DecodeDigit(s[i]) >= 0
    ensures var m := DecodeDigit(s[0]) * 262144 + DecodeDigit(s[1]) * 4096 + DecodeDigit(s[2]) * 64 + DecodeDigit(s[3]);
            DecodeLoop(s, 18, 0, out) == DecodeLoop(s[4..], 18, 0, out + [(m / 65536) % 256, (m / 256) % 256, m % 256])
  {
    var d0, d1, d2 := DecodeDigit(s[0]), DecodeDigit(s[1]), DecodeDigit(s[2]);
    var s1 := s[1..];
    var s2 := s1[1..];
    var s3 := s2[1..];
    assert s1[0] == s[1] && s2[0] == s[2] && s3[0] == s[3] && s3[1..] == s[4..];
    DigitStep(s, 18, 0, out);
    DigitStep(s1, 12, d0 * 262144, out);
    DigitStep(s2, 6, d0 * 262144 + d1 * 4096, out);
    LastDigitStep(s3, d0 * 262144 + d1 * 4096 + d2 * 64, out);
  }

  /** The four digits of the unit for (b0, b1, b2) carry the 24 bits of the three bytes. */
  lemma TripleDigits(b0: byte, b1: byte, b2: byte)
    ensures var e := EncodeTriple(b0, b1, b2);
            DecodeDigit(e[0]) * 262144 + DecodeDigit(e[1]) * 4096 + DecodeDigit(e[2]) * 64 + DecodeDigit(e[3])
            == b0 * 65536 + b1 * 256 + b2
  {
    var n := b0 * 65536 + b1 * 256 + b2;
    DecodeEncodeDigit(n / 262144);
    DecodeEncodeDigit((n / 4096) % 64);
    DecodeEncodeDigit((n / 64) % 64);
    DecodeEncodeDigit(n % 64);
    DigitsOfTriple(n);
  }

  /** Reading the four characters of a unit gives its bits back, so the decoder emits the three bytes. */
  lemma DecodeTripleStep(b0: byte, b1: byte, b2: byte, rest: string, out: seq<byte>)
    ensures DecodeLoop(EncodeTriple(b0, b1, b2) + rest, 18, 0, out) == DecodeLoop(rest, 18, 0, out + [b0, b1, b2])
  {
    var e := EncodeTriple(b0, b1, b2);
    var s := e + rest;
    assert s[0] == e[0] && s[1] == e[1] && s[2] == e[2] && s[3] == e[3] && s[4..] == rest;
    ReadUnit(s, out);
    TripleDigits(b0, b1, b2);
    BytesOfTriple(b0, b1, b2);
  }

  /** The four six-bit digits of a 24-bit value add back up to it. */
  lemma DigitsOfTriple(n: int)
    requires 0 <= n < 16777216
    ensures (n / 262144) * 262144 + ((n / 4096) % 64) * 4096 + ((n / 64) % 64) * 64 + n % 64 == n
  {
    var a := n / 64;
    var b := a / 64;
    var r0, r1, r2 := n % 64, a % 64, b % 64;
    assert n == 4096 * b + 64 * r1 + r0;
    DivModUnique(n, 4096, b, 64 * r1 + r0);
    assert n == 262144 * (b / 64) + 4096 * r2 + 64 * r1 + r0;
    DivModUnique(n, 262144, b / 64, 4096 * r2 + 64 * r1 + r0);
  }

  /** Bytes pack into and out of a 24-bit value. */
  lemma BytesOfTriple(b0: byte, b1: byte, b2: byte)
    ensures ((b0 * 65536 + b1 * 256 + b2) / 65536) % 256 == b0
    ensures ((b0 * 65536 + b1 * 256 + b2) / 256) % 256 == b1
    ensures (b0 * 65536 + b1 * 256 + b2) % 256 == b2
  {
  }

  /** Decoding inverts encoding, for every byte sequence. */
  lemma {:induction false} DecodeEncode(b: seq<byte>)
    ensures Decode(Encode(b)) == Some(b)
  {
    DecodeEncodeFrom(b, []);
    assert [] + b == b;
  }

  lemma {:induction false} DecodeEncodeFrom(b: seq<byte>, out: seq<byte>)
    ensures DecodeLoop(Encode(b), 18, 0, out) == Some(out + b)
    decreases |b|
  {
    if |b| >= 3 {
      DecodeTripleStep(b[0], b[1], b[2], Encode(b[3..]), out);
      DecodeEncodeFrom(b[3..], out + [b[0], b[1], b[2]]);
      assert out + [b[0], b[1], b[2]] + b[3..] == out + b;
    } else if |b| == 2 {
      DecodeTwo(b[0], b[1], out);
      assert out + [b[0], b[1]] == out + b;
    } else if |b| == 1 {
      DecodeOne(b[0], out);
      assert out + [b[0]] == out + b;
    } else {
      assert out + b == out;
    }
  }

  /** Decoding "abc=": three alphabet characters, then one '=', end of text. */
  lemma ThreeDigitsOnePad(s: string, out: seq<byte>)
    requires |s| == 4 && s[3] == '='
    requires forall i | 0 <= i < 3 :: s[i] != '=' && DecodeDigit(s[i]) >= 0
    ensures var m := DecodeDigit(s[0]) * 262144 + DecodeDigit(s[1]) * 4096 + DecodeDigit(s[2]) * 64;
            DecodeLoop(s, 18, 0, out) == Some(out + [(m / 65536) % 256, (m / 256) % 256])
  {
    var d0, d1, d2 := DecodeDigit(s[0]), DecodeDigit(s[1]), DecodeDigit(s[2]);
    var s1 := s[1..];
    var s2 := s1[1..];
    var s3 := s2[1..];
    assert s1[0] == s[1] && s2[0] == s[2] && s3 == "=";
    DigitStep(s, 18, 0, out);
    DigitStep(s1, 12, d0 * 262144, out);
    DigitStep(s2, 6, d0 * 262144 + d1 * 4096, out);
    OnePadEnd(d0 * 262144 + d1 * 4096 + d2 * 64, out);
  }

  /** Decoding "ab==": two alphabet characters, then two '=', end of text. */
  lemma TwoDigitsTwoPads(s: string, out: seq<byte>)
    requires |s| == 4 && s[2] == '=' && s[3] == '='
    requires forall i | 0 <= i < 2 :: s[i] != '=' && DecodeDigit(s[i]) >= 0
    ensures var m := DecodeDigit(s[0]) * 262144 + DecodeDigit(s[1]) * 4096;
            DecodeLoop(s, 18, 0, out) == Some(out + [(m / 65536) % 256])
  {
    var d0, d1 := DecodeDigit(s[0]), DecodeDigit(s[1]);
    var s1 := s[1..];
    var s2 := s1[1..];
    assert s1[0] == s[1] && s2 == "==";
    DigitStep(s, 18, 0, out);
    DigitStep(s1, 12, d0 * 262144, out);
    TwoPadEnd(d0 * 262144 + d1 * 4096, out);
  }

  /** The first three digits of the unit for (b0, b1, 0) carry the bits of b0 and b1. */
  lemma TwoBytesDigits(b0: byte, b1: byte)
    ensures var e := EncodeTriple(b0, b1, 0);
            DecodeDigit(e[0]) * 262144 + DecodeDigit(e[1]) * 4096 + DecodeDigit(e[2]) * 64 == b0 * 65536 + b1 * 256
  {
    var n := b0 * 65536 + b1 * 256;
    DecodeEncodeDigit(n / 262144);
    DecodeEncodeDigit((n / 4096) % 64);
    DecodeEncodeDigit((n / 64) % 64);
    HighDigitsOfTwo(n, b0 * 1024 + b1 * 4);
  }

  /** A 24-bit multiple of 64 is given by its first three digits. */
  lemma HighDigitsOfTwo(n: int, q: int)
    requires 0 <= n < 16777216 && n == 64 * q
    ensures (n / 262144) * 262144 + ((n / 4096) % 64) * 4096 + ((n / 64) % 64) * 64 == n
  {
    assert n % 64 == 0;
    DigitsOfTriple(n);
  }

  /** The first two digits of the unit for (b0, 0, 0) carry the bits of b0. */
  lemma OneByteDigits(b0: byte)
    ensures var e := EncodeTriple(b0, 0, 0);
            DecodeDigit(e[0]) * 262144 + DecodeDigit(e[1]) * 4096 == b0 * 65536
  {
    var n := b0 * 65536;
    DecodeEncodeDigit(n / 262144);
    DecodeEncodeDigit((n / 4096) % 64);
    HighDigitsOfOne(n, b0 * 16);
  }

  /** A 24-bit multiple of 4096 is given by its first two digits. */
  lemma HighDigitsOfOne(n: int, q: int)
    requires 0 <= n < 16777216 && n == 4096 * q
    ensures (n / 262144) * 262144 + ((n / 4096) % 64) * 4096 == n
  {
    assert n % 4096 == 0;
    DigitsOfTriple(n);
  }

  /** A unit of three characters and one '=' decodes to its two bytes. */
  lemma DecodeTwo(b0: byte, b1: byte, out: seq<byte>)
    ensures DecodeLoop(EncodeTriple(b0, b1, 0)[..3] + "=", 18, 0, out) == Some(out + [b0, b1])
  {
    var e := EncodeTriple(b0, b1, 0);
    var s := e[..3] + "=";
    assert s[0] == e[0] && s[1] == e[1] && s[2] == e[2] && s[3] == '=';
    ThreeDigitsOnePad(s, out);
    TwoBytesDigits(b0, b1);
    BytesOfTriple(b0, b1, 0);
  }

  /** A unit of two characters and "==" decodes to its one byte. */
  lemma DecodeOne(b0: byte, out: seq<byte>)
    ensures DecodeLoop(EncodeTriple(b0, 0, 0)[..2] + "==", 18, 0, out) == Some(out + [b0])
  {
    var e := EncodeTriple(b0, 0, 0);
    var s := e[..2] + "==";
    assert s[0] == e[0] && s[1] == e[1] && s[2] == '=' && s[3] == '=';
    TwoDigitsTwoPads(s, out);
    OneByteDigits(b0);
    BytesOfTriple(b0, 0, 0);
  }

  /** What the decoder rejects: a lone character, leading '=', a single '=' after two characters, text after the padding, and a character outside the alphabet. */
  lemma DecodeRejects()
    ensures Decode("Q") == None
    ensures Decode("====") == None
    ensures Decode("QQ=") == None
    ensures Decode("QQ==QQ==") == None
    ensures Decode("QUJD\n") == None
  {
    assert DecodeDigit('Q') == 16;
    var s := "QQ==QQ==";
    assert s[1..][1..][0] == '=' && s[1..][1..][1] == '=';
    assert s[1..][1..][2..] != [];
    var t := "QUJD\n";
    assert t[1..][1..][1..][1..] == "\n";
  }

  /** The decoder ignores the unused low bits of a unit's last character: "QR==" reads as "QQ==", the byte 'A'. */
  lemma DecodeLenientTrailingBits()
    ensures Decode("QR==") == Some([65])
    ensures Decode("QQ==") == Some([65])
  {
    assert DecodeDigit('Q') == 16 && DecodeDigit('R') == 17;
    TwoDigitsTwoPads("QR==", []);
    assert ((16 * 262144 + 17 * 4096) / 65536) % 256 == 65;
    assert DecodeLoop("QR==", 18, 0, []) == Some([] + [65]);
    assert [] + [65] == [65];
    TwoDigitsTwoPads("QQ==", []);
    assert ((16 * 262144 + 16 * 4096) / 65536) % 256 == 65;
  }
}
