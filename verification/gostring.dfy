/** Go strings as the authentication code sees them: immutable sequences of
    bytes. `len` counts bytes and `==`/`!=` compare bytes; string literals
    in the source are the UTF-8 encoding of their text. */
module GoString {

  newtype byte = b: int | 0 <= b < 0x100

  type Bytes = seq<byte>

  /** The number of bytes a UTF-8 sequence occupies, read off its leading byte. */
  function LeadLength(b: byte): nat
  {
    if b < 0x80 then 1 else if b < 0xE0 then 2 else if b < 0xF0 then 3 else 4
  }

  predicate IsContinuation(b: byte)
  {
    0x80 <= b < 0xC0
  }

  /** The code point a well-formed 1- to 4-byte UTF-8 sequence stands for. */
  function DecodeRune(r: Bytes): int
    requires 1 <= |r| <= 4
  {
    if |r| == 1 then r[0] as int
    else if |r| == 2 then (r[0] as int - 0xC0) * 64 + (r[1] as int - 0x80)
    else if |r| == 3 then
      ((r[0] as int - 0xE0) * 64 + (r[1] as int - 0x80)) * 64 + (r[2] as int - 0x80)
    else
      (((r[0] as int - 0xF0) * 64 + (r[1] as int - 0x80)) * 64 + (r[2] as int - 0x80)) * 64
      + (r[3] as int - 0x80)
  }

  /** UTF-8 encoding of one Unicode scalar value. */
  function EncodeRune(c: char): (r: Bytes)
    ensures 1 <= |r| <= 4
    ensures |r| == LeadLength(r[0])
    ensures forall i :: 1 <= i < |r| ==> IsContinuation(r[i])
    ensures |r| == (if c as int < 0x80 then 1 else if c as int < 0x800 then 2
                    else if c as int < 0x10000 then 3 else 4)
    ensures DecodeRune(r) == c as int
  {
    var cp := c as int;
    var q1 := cp / 64;
    var q2 := q1 / 64;
    var q3 := q2 / 64;
    if cp < 0x80 then [cp as byte]
    else if cp < 0x800 then
      [(0xC0 + q1) as byte, (0x80 + cp % 64) as byte]
    else if cp < 0x10000 then
      [(0xE0 + q2) as byte, (0x80 + q1 % 64) as byte, (0x80 + cp % 64) as byte]
    else
      [(0xF0 + q3) as byte, (0x80 + q2 % 64) as byte, (0x80 + q1 % 64) as byte,
       (0x80 + cp % 64) as byte]
  }

  /** UTF-8 encoding of a text: the bytes a Go string literal holds. */
  function Utf8(s: string): (r: Bytes)
    ensures |s| <= |r| <= 4 * |s|
    ensures r == [] <==> s == []
  {
    if s == [] then [] else EncodeRune(s[0]) + Utf8(s[1..])
  }

  /** Distinct texts have distinct encodings, so comparing the bytes of two
      strings is the same as comparing their text, case included. */
  lemma {:induction false} Utf8Injective(a: string, b: string)
    ensures Utf8(a) == Utf8(b) ==> a == b
  {
    if Utf8(a) == Utf8(b) && a != [] {
      assert b != [];
      var ea, eb := EncodeRune(a[0]), EncodeRune(b[0]);
      assert Utf8(a) == ea + Utf8(a[1..]);
      assert Utf8(b) == eb + Utf8(b[1..]);
      assert ea[0] == Utf8(a)[0] == eb[0];
      assert |ea| == |eb|;
      assert ea == Utf8(a)[..|ea|] == eb;
      assert a[0] == b[0];
      assert Utf8(a[1..]) == Utf8(a)[|ea|..] == Utf8(b[1..]);
      Utf8Injective(a[1..], b[1..]);
      assert a == [a[0]] + a[1..];
      assert b == [b[0]] + b[1..];
    }
  }

  /** Text made only of ASCII characters takes one byte per character. */
  lemma {:induction false} Utf8AsciiLength(s: string)
    requires forall i :: 0 <= i < |s| ==> s[i] as int < 0x80
    ensures |Utf8(s)| == |s|
  {
    if s != [] {
      Utf8AsciiLength(s[1..]);
    }
  }

  /** Text made only of characters U+0080..U+07FF (accented Latin letters
      among them) takes two bytes per character. */
  lemma {:induction false} Utf8TwoByteLength(s: string)
    requires forall i :: 0 <= i < |s| ==> 0x80 <= s[i] as int < 0x800
    ensures |Utf8(s)| == 2 * |s|
  {
    if s != [] {
      var e := EncodeRune(s[0]);
      assert e[0] == (0xC0 + (s[0] as int) / 64) as byte;
      Utf8TwoByteLength(s[1..]);
    }
  }

  /** Equality of Go strings, as `!=` tests it: the same length and the
      same byte at every position. */
  function SameBytes(a: Bytes, b: Bytes): (same: bool)
    ensures same <==> a == b
  {
    if |a| != |b| then false
    else if a == [] then true
    else a[0] == b[0] && SameBytes(a[1..], b[1..])
  }
}
