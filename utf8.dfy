/** `Encoding.UTF8` as the handler uses it: `GetBytes` turns text into UTF-8
    (RFC 3629, section 3), and `GetString` decodes bytes, replacing each
    maximal ill-formed subpart with U+FFFD as section 3.9 of the Unicode
    Standard recommends (the practice of .NET Core 3.0 and later). */
module Utf8 {
  import opened Base

  const Replacement: char := '\U{FFFD}'

  predicate IsContinuation(b: byte) { 0x80 <= b <= 0xBF }

  /** The UTF-8 bytes of one character. */
  function EncodeChar(c: char): (r: seq<byte>)
    ensures 1 <= |r| <= 4
    ensures |r| == 1 <==> c as int < 0x80
    ensures |r| == 1 ==> r[0] as int == c as int
  {
    var v := c as int;
    if v < 0x80 then [v as byte]
    else if v < 0x800 then [(0xC0 + v / 64) as byte, (0x80 + v % 64) as byte]
    else if v < 0x1_0000 then
      [(0xE0 + v / 4096) as byte, (0x80 + v / 64 % 64) as byte, (0x80 + v % 64) as byte]
    else
      [(0xF0 + v / 262144) as byte, (0x80 + v / 4096 % 64) as byte,
       (0x80 + v / 64 % 64) as byte, (0x80 + v % 64) as byte]
  }

  /** `Encoding.UTF8.GetBytes(s)`. */
  function Encode(s: string): (r: seq<byte>)
    ensures |r| >= |s|
    ensures |r| == |s| <==> IsAscii(s)
  {
    if s == [] then [] else EncodeChar(s[0]) + Encode(s[1..])
  }

  /** U+FFFD, which stands in for undecodable bytes, takes three bytes. */
  lemma ReplacementBytes()
    ensures Encode([Replacement]) == [0xEF, 0xBF, 0xBD]
  {
    assert 0xFFFD / 4096 == 15 && 0xFFFD / 64 == 1023 && 1023 % 64 == 63 && 0xFFFD % 64 == 61;
    assert EncodeChar(Replacement) == [0xEF, 0xBF, 0xBD];
    assert [Replacement][1..] == [];
  }

  /** A byte that can start no UTF-8 sequence (a continuation byte 80-BF,
      C0, C1 or F5-FF) decodes to U+FFFD on its own, whatever follows. */
  lemma DecodeInvalidByte(b: byte, rest: seq<byte>)
    requires !(b < 0x80 || 0xC2 <= b <= 0xF4)
    ensures DecodeOne([b] + rest) == (Replacement, 1)
    ensures Decode([b] + rest) == [Replacement] + Decode(rest)
  {
    assert ([b] + rest)[1..] == rest;
  }

  /** Encoding works character by character, so it distributes over
      concatenation. */
  lemma {:induction false} EncodeAppend(s: string, t: string)
    ensures Encode(s + t) == Encode(s) + Encode(t)
  {
    if s == [] {
      assert s + t == t;
    } else {
      assert (s + t)[1..] == s[1..] + t;
      EncodeAppend(s[1..], t);
    }
  }

  /** A string of ASCII characters encodes to one byte per character, each
      byte the character's code. */
  lemma {:induction false} EncodeAscii(s: string)
    requires IsAscii(s)
    ensures |Encode(s)| == |s|
    ensures forall i :: 0 <= i < |s| ==> Encode(s)[i] as int == s[i] as int
  {
    if s != [] {
      EncodeAscii(s[1..]);
    }
  }

  /** On ASCII text UTF-8 and the one-byte-per-character encoding agree. */
  lemma EncodeIsLatin1(s: string)
    requires IsAscii(s)
    ensures Encode(s) == Latin1Bytes(s)
  {
    EncodeAscii(s);
  }

  /** The character a well-formed sequence of `b`'s first bytes stands for,
      and how many bytes it takes; an ill-formed start yields U+FFFD and
      consumes the maximal subpart, at least one byte. */
  function DecodeOne(b: seq<byte>): (r: (char, nat))
    requires b != []
    ensures 1 <= r.1 <= |b| && r.1 <= 4
  {
    var b0 := b[0] as int;
    if b0 < 0x80 then (b0 as char, 1)
    else if 0xC2 <= b0 <= 0xDF then
      if |b| < 2 || !IsContinuation(b[1]) then (Replacement, 1)
      else (((b0 - 0xC0) * 64 + (b[1] as int - 0x80)) as char, 2)
    else if 0xE0 <= b0 <= 0xEF then
      var lo := if b0 == 0xE0 then 0xA0 else 0x80;
      var hi := if b0 == 0xED then 0x9F else 0xBF;
      if |b| < 2 || !(lo <= b[1] as int <= hi) then (Replacement, 1)
      else if |b| < 3 || !IsContinuation(b[2]) then (Replacement, 2)
      else (((b0 - 0xE0) * 4096 + (b[1] as int - 0x80) * 64 + (b[2] as int - 0x80)) as char, 3)
    else if 0xF0 <= b0 <= 0xF4 then
      var lo := if b0 == 0xF0 then 0x90 else 0x80;
      var hi := if b0 == 0xF4 then 0x8F else 0xBF;
      if |b| < 2 || !(lo <= b[1] as int <= hi) then (Replacement, 1)
      else if |b| < 3 || !IsContinuation(b[2]) then (Replacement, 2)
      else if |b| < 4 || !IsContinuation(b[3]) then (Replacement, 3)
      else (((b0 - 0xF0) * 262144 + (b[1] as int - 0x80) * 4096
             + (b[2] as int - 0x80) * 64 + (b[3] as int - 0x80)) as char, 4)
    else (Replacement, 1)
  }

  /** `Encoding.UTF8.GetString(b)`. */
  function Decode(b: seq<byte>): (s: string)
    ensures |s| <= |b| <= 4 * |s|
    decreases |b|
  {
    if b == [] then []
    else
      var (c, n) := DecodeOne(b);
      [c] + Decode(b[n..])
  }

  /** The six low bits of `v`, the next six, and so on: `v` is rebuilt from
      the digits its encoding stores. */
  lemma SixBitDigits(v: nat)
    ensures v == v / 64 * 64 + v % 64
    ensures v / 4096 == v / 64 / 64 && v / 64 == v / 4096 * 64 + v / 64 % 64
    ensures v / 262144 == v / 4096 / 64 && v / 4096 == v / 262144 * 64 + v / 4096 % 64
  {
    var q1, r1 := v / 64, v % 64;
    var q2, r2 := q1 / 64, q1 % 64;
    var q3, r3 := q2 / 64, q2 % 64;
    assert v == 4096 * q2 + (64 * r2 + r1);
    assert v == 262144 * q3 + (4096 * r3 + 64 * r2 + r1);
  }

  /** Decoding the encoding of a character gives that character back and
      consumes exactly its bytes, whatever follows. */
  lemma DecodeOneEncoded(c: char, rest: seq<byte>)
    ensures DecodeOne(EncodeChar(c) + rest) == (c, |EncodeChar(c)|)
  {
    var v := c as int;
    SixBitDigits(v);
    if v < 0x80 {
    } else if v < 0x800 {
      DecodeTwo(c, rest);
    } else if v < 0x1_0000 {
      DecodeThree(c, rest);
    } else {
      DecodeFour(c, rest);
    }
  }

  lemma DecodeTwo(c: char, rest: seq<byte>)
    requires 0x80 <= c as int < 0x800
    requires c as int == c as int / 64 * 64 + c as int % 64
    ensures DecodeOne(EncodeChar(c) + rest) == (c, 2)
  {
    var v, b := c as int, EncodeChar(c) + rest;
    assert b[0] as int == 0xC0 + v / 64 && b[1] as int == 0x80 + v % 64;
  }

  lemma DecodeThree(c: char, rest: seq<byte>)
    requires 0x800 <= c as int < 0x1_0000
    requires var v := c as int; v == v / 64 * 64 + v % 64 && v / 64 == v / 4096 * 64 + v / 64 % 64
    ensures DecodeOne(EncodeChar(c) + rest) == (c, 3)
  {
    var v, b := c as int, EncodeChar(c) + rest;
    assert b[0] as int == 0xE0 + v / 4096;
    assert b[1] as int == 0x80 + v / 64 % 64 && b[2] as int == 0x80 + v % 64;
  }

  lemma DecodeFour(c: char, rest: seq<byte>)
    requires 0x1_0000 <= c as int
    requires var v := c as int; v == v / 64 * 64 + v % 64 && v / 64 == v / 4096 * 64 + v / 64 % 64
    requires var v := c as int; v / 4096 == v / 262144 * 64 + v / 4096 % 64
    ensures DecodeOne(EncodeChar(c) + rest) == (c, 4)
  {
    var v, b := c as int, EncodeChar(c) + rest;
    assert b[0] as int == 0xF0 + v / 262144;
    assert b[1] as int == 0x80 + v / 4096 % 64;
    assert b[2] as int == 0x80 + v / 64 % 64 && b[3] as int == 0x80 + v % 64;
  }

  /** Round trip: decoding the UTF-8 encoding of any text gives the text. */
  lemma {:induction false} DecodeEncode(s: string)
    ensures Decode(Encode(s)) == s
  {
    if s != [] {
      var e := EncodeChar(s[0]);
      DecodeOneEncoded(s[0], Encode(s[1..]));
      assert Encode(s)[|e|..] == Encode(s[1..]);
      DecodeEncode(s[1..]);
    }
  }

  /** Re-encoding what was decoded gives back the bytes of well-formed
      input, that is, of any encoded text. */
  lemma EncodeDecodeEncoded(s: string)
    ensures Encode(Decode(Encode(s))) == Encode(s)
  {
    DecodeEncode(s);
  }
}
