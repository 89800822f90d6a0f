/** UTF-8, as `encodeURIComponent` and `decodeURIComponent` use it: one code
    point to one to four octets, and back. A Dafny `char` is a Unicode scalar
    value, so every character here is one code point. */
module Utf8 {
  import opened Wrappers

  newtype byte = x: int | 0 <= x < 0x100

  predicate IsContinuation(b: byte) {
    0x80 <= b < 0xC0
  }

  /** The number of octets announced by a leading octet: its count of leading
      one bits, 1 for an ASCII octet, and 0 for an octet that cannot start a
      sequence (a continuation octet, or five or more leading ones). */
  function SequenceLength(b: byte): (n: nat)
    ensures n <= 4
  {
    if b < 0x80 then 1
    else if b < 0xC0 then 0
    else if b < 0xE0 then 2
    else if b < 0xF0 then 3
    else if b < 0xF8 then 4
    else 0
  }

  /** The UTF-8 octets of one code point, shortest form. */
  function EncodeChar(c: char): (bs: seq<byte>)
    ensures 1 <= |bs| <= 4 && SequenceLength(bs[0]) == |bs|
    ensures |bs| == 1 <==> c as int < 0x80
    ensures |bs| == 1 ==> bs[0] as int == c as int
    ensures AllContinuation(bs)
  {
    var n := c as int;
    if n < 0x80 then [n as byte]
    else if n < 0x800 then [(0xC0 + n / 64) as byte, (0x80 + n % 64) as byte]
    else if n < 0x10000 then
      [(0xE0 + n / 4096) as byte, (0x80 + (n / 64) % 64) as byte, (0x80 + n % 64) as byte]
    else
      [(0xF0 + n / 262144) as byte, (0x80 + (n / 4096) % 64) as byte,
       (0x80 + (n / 64) % 64) as byte, (0x80 + n % 64) as byte]
  }

  predicate AllContinuation(bs: seq<byte>) {
    forall i :: 1 <= i < |bs| ==> IsContinuation(bs[i])
  }

  predicate IsScalarValue(n: int) {
    (0 <= n < 0xD800) || (0xE000 <= n < 0x110000)
  }

  /** The code point of a complete sequence whose length its leading octet
      announces. `None` when a continuation octet is missing, when the form is
      not the shortest one, or when the value is a surrogate or beyond
      U+10FFFF: the cases in which `decodeURIComponent` throws a URIError. */
  function DecodeSequence(bs: seq<byte>): (r: Option<char>)
    requires 1 <= |bs| <= 4 && SequenceLength(bs[0]) == |bs|
  {
    var b0 := bs[0] as int;
    if |bs| == 1 then Some(b0 as char)
    else if !AllContinuation(bs) then None
    else if |bs| == 2 then
      var n := (b0 - 0xC0) * 64 + (bs[1] as int - 0x80);
      if 0x80 <= n then Some(n as char) else None
    else if |bs| == 3 then
      var n := (b0 - 0xE0) * 4096 + (bs[1] as int - 0x80) * 64 + (bs[2] as int - 0x80);
      if 0x800 <= n && IsScalarValue(n) then Some(n as char) else None
    else
      var n := (b0 - 0xF0) * 262144 + (bs[1] as int - 0x80) * 4096 + (bs[2] as int - 0x80) * 64 + (bs[3] as int - 0x80);
      if 0x10000 <= n < 0x110000 then Some(n as char) else None
  }

  /** Decoding the octets of a code point gives back that code point. */
  lemma DecodeEncodeChar(c: char)
    ensures DecodeSequence(EncodeChar(c)) == Some(c)
  {
    var n := c as int;
    if n < 0x80 {
    } else if n < 0x800 {
      DecodeTwo(c);
    } else if n < 0x10000 {
      DecodeThree(c);
    } else {
      DecodeFour(c);
    }
  }

  lemma DecodeTwo(c: char)
    requires 0x80 <= c as int < 0x800
    ensures DecodeSequence(EncodeChar(c)) == Some(c)
  {
    var n := c as int;
    var bs := EncodeChar(c);
    assert bs[0] as int - 0xC0 == n / 64 && bs[1] as int - 0x80 == n % 64;
  }

  lemma DecodeThree(c: char)
    requires 0x800 <= c as int < 0x10000
    ensures DecodeSequence(EncodeChar(c)) == Some(c)
  {
    var n := c as int;
    var bs := EncodeChar(c);
    var hi, lo := n / 64, n % 64;
    assert n == hi * 64 + lo;
    assert hi == (hi / 64) * 64 + hi % 64;
    assert n / 4096 == hi / 64;
    assert bs[0] as int - 0xE0 == hi / 64 && bs[1] as int - 0x80 == hi % 64 && bs[2] as int - 0x80 == lo;
  }

  lemma DecodeFour(c: char)
    requires 0x10000 <= c as int
    ensures DecodeSequence(EncodeChar(c)) == Some(c)
  {
    var n := c as int;
    var bs := EncodeChar(c);
    var q1, r1 := n / 64, n % 64;
    var q2, r2 := q1 / 64, q1 % 64;
    var q3, r3 := q2 / 64, q2 % 64;
    assert n == q1 * 64 + r1;
    assert q1 == q2 * 64 + r2;
    assert q2 == q3 * 64 + r3;
    assert n / 4096 == q2 && n / 262144 == q3;
    assert bs[0] as int - 0xF0 == q3 && bs[1] as int - 0x80 == r3;
    assert bs[2] as int - 0x80 == r2 && bs[3] as int - 0x80 == r1;
    assert q3 * 262144 + r3 * 4096 + r2 * 64 + r1 == n;
  }
}
