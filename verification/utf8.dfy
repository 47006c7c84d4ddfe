/** Python's `str.encode()` with its default UTF-8 codec. A Dafny `char` is a
    Unicode scalar value, so every string encodes (no surrogates). */
module Utf8 {

  newtype byte = b: int | 0 <= b < 256

  type bytes = seq<byte>

  /** `b` is a UTF-8 continuation byte, `10xxxxxx`. */
  predicate IsContinuation(b: byte) {
    0x80 <= b < 0xC0
  }

  /** The length of the UTF-8 sequence announced by its leading byte. */
  function LeadLength(b: byte): nat {
    if b < 0x80 then 1
    else if 0xC2 <= b < 0xE0 then 2
    else if 0xE0 <= b < 0xF0 then 3
    else if 0xF0 <= b < 0xF5 then 4
    else 0
  }

  /** The scalar value a well-formed 1- to 4-byte sequence stands for: the
      payload bits of the leading byte followed by six bits per continuation
      byte. */
  function DecodeScalar(bs: bytes): int
    requires 1 <= |bs| <= 4
  {
    var lead := bs[0] as int;
    var payload :=
      if |bs| == 1 then lead
      else if |bs| == 2 then lead - 0xC0
      else if |bs| == 3 then lead - 0xE0
      else lead - 0xF0;
    Continue(payload, bs[1..])
  }

  /** Appends six payload bits per continuation byte. */
  function Continue(acc: int, cont: bytes): int
    decreases |cont|
  {
    if |cont| == 0 then acc
    else Continue(acc * 64 + (cont[0] as int - 0x80), cont[1..])
  }

  /** The shortest UTF-8 sequence for one character: its length is fixed by
      the scalar value's range (1 byte below 0x80, 2 below 0x800, 3 below
      0x10000, 4 above), its leading byte announces that length, the rest are
      continuation bytes, and it decodes back to the character's scalar
      value. */
  function EncodeChar(c: char): (bs: bytes)
    ensures 1 <= |bs| <= 4
    ensures LeadLength(bs[0]) == |bs|
    ensures forall k :: 1 <= k < |bs| ==> IsContinuation(bs[k])
    ensures DecodeScalar(bs) == c as int
    ensures |bs| == 1 <==> c as int < 0x80
    ensures |bs| == (if c as int < 0x80 then 1 else if c as int < 0x800 then 2
                     else if c as int < 0x10000 then 3 else 4)
  {
    var n := c as int;
    var q1, r1 := n / 64, n % 64;
    var q2, r2 := q1 / 64, q1 % 64;
    var q3, r3 := q2 / 64, q2 % 64;
    if n < 0x80 then
      [n as byte]
    else if n < 0x800 then
      var bs := [(0xC0 + q1) as byte, (0x80 + r1) as byte];
      assert Continue(q1, bs[1..]) == q1 * 64 + r1;
      bs
    else if n < 0x10000 then
      var bs := [(0xE0 + q2) as byte, (0x80 + r2) as byte, (0x80 + r1) as byte];
      assert bs[1..][1..] == [(0x80 + r1) as byte];
      assert Continue(q2, bs[1..]) == Continue(q2 * 64 + r2, [(0x80 + r1) as byte]);
      assert Continue(q2, bs[1..]) == (q2 * 64 + r2) * 64 + r1;
      bs
    else
      var bs := [(0xF0 + q3) as byte, (0x80 + r3) as byte, (0x80 + r2) as byte, (0x80 + r1) as byte];
      assert bs[1..][1..] == [(0x80 + r2) as byte, (0x80 + r1) as byte];
      assert bs[1..][1..][1..] == [(0x80 + r1) as byte];
      var acc := (q3 * 64 + r3) * 64 + r2;
      assert Continue(q3 * 64 + r3, bs[1..][1..]) == Continue(acc, [(0x80 + r1) as byte]);
      assert Continue(q3, bs[1..]) == Continue(q3 * 64 + r3, bs[1..][1..]);
      assert Continue(q3, bs[1..]) == acc * 64 + r1;
      bs
  }

  /** `s.encode()`: the characters' encodings, one after the other, so
      between one and four bytes per character. */
  function Encode(s: string): (bs: bytes)
    ensures |s| <= |bs| <= 4 * |s|
  {
    if |s| == 0 then [] else EncodeChar(s[0]) + Encode(s[1..])
  }

  /** Encoding distributes over concatenation. */
  lemma {:induction false} EncodeAppend(a: string, b: string)
    ensures Encode(a + b) == Encode(a) + Encode(b)
    decreases |a|
  {
    if |a| == 0 {
      assert a + b == b;
    } else {
      assert (a + b)[1..] == a[1..] + b;
      EncodeAppend(a[1..], b);
    }
  }

  /** The encoding of `selector@domain` is the selector's bytes, the byte
      0x40, then the domain's bytes. */
  lemma EncodeAroundAt(selector: string, domain: string)
    ensures Encode(selector + "@" + domain) == Encode(selector) + [0x40] + Encode(domain)
  {
    EncodeAppend(selector + "@", domain);
    EncodeAppend(selector, "@");
    assert Encode("@") == EncodeChar('@') + Encode("");
  }

  /** Every character is in the ASCII range. */
  predicate IsAscii(s: string) {
    forall k :: 0 <= k < |s| ==> s[k] as int < 0x80
  }

  /** An ASCII string encodes to one byte per character, each byte being the
      character's code. */
  lemma {:induction false} EncodeAscii(s: string)
    requires IsAscii(s)
    ensures |Encode(s)| == |s|
    ensures forall k :: 0 <= k < |s| ==> Encode(s)[k] as int == s[k] as int
    decreases |s|
  {
    if |s| > 0 {
      EncodeAscii(s[1..]);
      assert Encode(s) == [s[0] as int as byte] + Encode(s[1..]);
    }
  }
}
