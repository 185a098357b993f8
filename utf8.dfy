/** The UTF-8 byte view of Rust's `str`.

    A Rust `str` is a valid UTF-8 byte sequence, so it is determined by the
    sequence of Unicode scalar values it encodes; this project models text as
    `string` (a sequence of scalar values) and recovers the bytes with `Encode`
    wherever the source indexes by byte.
 */
module Utf8 {

  newtype byte = x: int | 0 <= x < 256

  /** A byte of the form 10xxxxxx, which never starts a character. */
  predicate IsContinuation(b: byte) {
    0x80 <= b < 0xC0
  }

  /** The UTF-8 encoding of one scalar value (RFC 3629, section 3). */
  function EncodeChar(c: char): (bs: seq<byte>)
    ensures 1 <= |bs| <= 4
    ensures !IsContinuation(bs[0])
    ensures forall i :: 1 <= i < |bs| ==> IsContinuation(bs[i])
    ensures (c as int < 0x80) <==> |bs| == 1
  {
    var cp := c as int;
    if cp < 0x80 then
      [cp as byte]
    else if cp < 0x800 then
      [(0xC0 + cp / 0x40) as byte, (0x80 + cp % 0x40) as byte]
    else if cp < 0x1_0000 then
      [(0xE0 + cp / 0x1000) as byte, (0x80 + cp / 0x40 % 0x40) as byte, (0x80 + cp % 0x40) as byte]
    else
      [(0xF0 + cp / 0x4_0000) as byte, (0x80 + cp / 0x1000 % 0x40) as byte,
       (0x80 + cp / 0x40 % 0x40) as byte, (0x80 + cp % 0x40) as byte]
  }

  /** The bytes of a `str`: the encodings of its characters, in order. */
  function Encode(s: string): (bs: seq<byte>)
    ensures |bs| >= |s|
    ensures s != [] ==> !IsContinuation(bs[0])
  {
    if s == [] then [] else EncodeChar(s[0]) + Encode(s[1..])
  }

  lemma {:induction false} EncodeAppend(a: string, b: string)
    ensures Encode(a + b) == Encode(a) + Encode(b)
  {
    if a == [] {
      assert a + b == b;
    } else {
      assert (a + b)[1..] == a[1..] + b;
      EncodeAppend(a[1..], b);
    }
  }

  /** A text has one byte per character exactly when it is all ASCII. */
  lemma {:induction false} EncodeAsciiLength(s: string)
    ensures |Encode(s)| == |s| <==> forall i :: 0 <= i < |s| ==> s[i] as int < 0x80
  {
    if s != [] {
      EncodeAsciiLength(s[1..]);
      assert forall i :: 1 <= i < |s| ==> s[i] == s[1..][i - 1];
    }
  }

  /** Rust's `str::is_char_boundary(index)`: index 0, the end of the bytes,
      or an index inside them whose byte is not a continuation byte. Any
      index beyond the end is not a boundary. */
  predicate IsCharBoundary(s: string, index: nat)
    ensures index == 0 || index == |Encode(s)| ==> IsCharBoundary(s, index)
    ensures index > |Encode(s)| ==> !IsCharBoundary(s, index)
    ensures 0 < index < |Encode(s)| ==> (IsCharBoundary(s, index) <==> !IsContinuation(Encode(s)[index]))
  {
    var bs := Encode(s);
    index == 0 || index == |bs| || (index < |bs| && !IsContinuation(bs[index]))
  }
}
