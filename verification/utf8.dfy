/** UTF-8 as Python's `bytes.decode('utf-8', errors='replace')` reads it, and the encoder it inverts.
    An ill-formed stretch is replaced by one U+FFFD per maximal valid prefix (or per lone byte that
    cannot start a sequence), which is how CPython's decoder reports its errors. */
module Utf8 {

  type Byte = x: int | 0 <= x < 256

  const Replacement: char := '\U{FFFD}'

  predicate IsContinuation(x: Byte) {
    0x80 <= x <= 0xBF
  }

  /** Length of the sequence a lead byte announces; 0 when the byte cannot start one. */
  function SequenceLength(lead: Byte): nat {
    if lead < 0x80 then 1
    else if lead < 0xC2 then 0
    else if lead < 0xE0 then 2
    else if lead < 0xF0 then 3
    else if lead < 0xF5 then 4
    else 0
  }

  /** Bounds on the second byte, excluding overlong forms, surrogates and code points past U+10FFFF. */
  function SecondLow(lead: Byte): Byte {
    if lead == 0xE0 then 0xA0 else if lead == 0xF0 then 0x90 else 0x80
  }

  function SecondHigh(lead: Byte): Byte {
    if lead == 0xED then 0x9F else if lead == 0xF4 then 0x8F else 0xBF
  }

  /** How many bytes, from the lead byte on, are a valid start of the sequence `b[0]` announces. */
  function ValidPrefix(b: seq<Byte>): (m: nat)
    requires |b| > 0 && SequenceLength(b[0]) >= 2
    ensures 1 <= m <= SequenceLength(b[0]) && m <= |b|
  {
    var n := SequenceLength(b[0]);
    if |b| < 2 || !(SecondLow(b[0]) <= b[1] <= SecondHigh(b[0])) then 1
    else if n == 2 then 2
    else if |b| < 3 || !IsContinuation(b[2]) then 2
    else if n == 3 then 3
    else if |b| < 4 || !IsContinuation(b[3]) then 3
    else 4
  }

  /** The code point of a complete, well-formed multi-byte sequence. */
  function SequenceChar(b: seq<Byte>): char
    requires |b| > 0 && SequenceLength(b[0]) >= 2
    requires ValidPrefix(b) == SequenceLength(b[0])
  {
    var n := SequenceLength(b[0]);
    if n == 2 then
      ((b[0] as int - 0xC0) * 64 + (b[1] as int - 0x80)) as char
    else if n == 3 then
      ((b[0] as int - 0xE0) * 4096 + (b[1] as int - 0x80) * 64 + (b[2] as int - 0x80)) as char
    else
      ((b[0] as int - 0xF0) * 262144 + (b[1] as int - 0x80) * 4096 + (b[2] as int - 0x80) * 64 + (b[3] as int - 0x80)) as char
  }

  /** Decodes one character (or one replacement) from the front of `b`. */
  function Step(b: seq<Byte>): (r: (nat, char))
    requires |b| > 0
    ensures 1 <= r.0 <= |b|
  {
    var n := SequenceLength(b[0]);
    if n == 0 then (1, Replacement)
    else if n == 1 then (1, b[0] as char)
    else
      var m := ValidPrefix(b);
      if m == n then (n, SequenceChar(b)) else (m, Replacement)
  }

  function Decode(b: seq<Byte>): string
    decreases |b|
  {
    if b == [] then "" else [Step(b).1] + Decode(b[Step(b).0..])
  }

  /** The UTF-8 encoding of one code point. */
  function EncodeChar(c: char): (r: seq<Byte>)
    ensures 1 <= |r| <= 4
  {
    var cp := c as int;
    if cp < 0x80 then [cp]
    else if cp < 0x800 then [0xC0 + cp / 64, 0x80 + cp % 64]
    else if cp < 0x10000 then [0xE0 + cp / 4096, 0x80 + (cp / 64) % 64, 0x80 + cp % 64]
    else [0xF0 + cp / 262144, 0x80 + (cp / 4096) % 64, 0x80 + (cp / 64) % 64, 0x80 + cp % 64]
  }

  function Encode(s: string): seq<Byte> {
    if s == "" then [] else EncodeChar(s[0]) + Encode(s[1..])
  }

  /** Decoding reads exactly one encoded character back off the front of a byte string. */
  lemma StepEncodeChar(c: char, rest: seq<Byte>)
    ensures Step(EncodeChar(c) + rest) == (|EncodeChar(c)|, c)
  {
    var cp := c as int;
    if cp < 0x80 {
    } else if cp < 0x800 {
      StepTwo(c, rest);
    } else if cp < 0x10000 {
      StepThree(c, rest);
    } else {
      StepFour(c, rest);
    }
  }

  lemma StepTwo(c: char, rest: seq<Byte>)
    requires 0x80 <= c as int < 0x800
    ensures Step(EncodeChar(c) + rest) == (2, c)
  {
    var cp := c as int;
    var b := EncodeChar(c) + rest;
    assert b[0] == 0xC0 + cp / 64 && b[1] == 0x80 + cp % 64;
    assert (b[0] as int - 0xC0) * 64 + (b[1] as int - 0x80) == cp;
  }

  lemma StepThree(c: char, rest: seq<Byte>)
    requires 0x800 <= c as int < 0x10000
    ensures Step(EncodeChar(c) + rest) == (3, c)
  {
    var cp := c as int;
    var b := EncodeChar(c) + rest;
    var q := cp / 64;
    assert b[0] == 0xE0 + cp / 4096 && b[1] == 0x80 + q % 64 && b[2] == 0x80 + cp % 64;
    assert cp / 4096 == q / 64;
    assert (b[0] as int - 0xE0) * 4096 + (b[1] as int - 0x80) * 64 + (b[2] as int - 0x80) == cp;
  }

  lemma StepFour(c: char, rest: seq<Byte>)
    requires 0x10000 <= c as int
    ensures Step(EncodeChar(c) + rest) == (4, c)
  {
    var cp := c as int;
    var b := EncodeChar(c) + rest;
    var q := cp / 64;
    var q2 := q / 64;
    assert cp / 4096 == q2;
    assert cp / 262144 == q2 / 64;
    assert b[0] == 0xF0 + q2 / 64 && b[1] == 0x80 + q2 % 64 && b[2] == 0x80 + q % 64 && b[3] == 0x80 + cp % 64;
    assert (b[0] as int - 0xF0) * 262144 + (b[1] as int - 0x80) * 4096 + (b[2] as int - 0x80) * 64 + (b[3] as int - 0x80) == cp;
  }

  /** Decoding the encoding of any string gives the string back. */
  lemma {:induction false} DecodeEncode(s: string)
    ensures Decode(Encode(s)) == s
  {
    if s != "" {
      var b := Encode(s);
      StepEncodeChar(s[0], Encode(s[1..]));
      assert b[|EncodeChar(s[0])|..] == Encode(s[1..]);
      DecodeEncode(s[1..]);
    }
  }

  /** Bytes below 0x80 decode one to one. */
  lemma {:induction false} DecodeAscii(b: seq<Byte>)
    requires forall i :: 0 <= i < |b| ==> b[i] < 0x80
    ensures |Decode(b)| == |b|
    ensures forall i :: 0 <= i < |b| ==> Decode(b)[i] == b[i] as char
  {
    if b != [] {
      DecodeAscii(b[1..]);
    }
  }
}
