/**
 * UTF-8 as fixed by sections 3 and 4 of RFC 3629: a Unicode scalar value is
 * written with one to four bytes, and the lead byte decides both the length of
 * the sequence and the range its second byte may take (which excludes overlong
 * forms, surrogates and values above U+10FFFF).
 */
module Utf8 {

  type Byte = b: int | 0 <= b < 0x100

  /** Unicode scalar values: the integers a Dafny `char` can hold. */
  predicate IsScalar(n: int)
  {
    0 <= n < 0xD800 || 0xE000 <= n < 0x11_0000
  }

  predicate IsContinuation(b: Byte)
  {
    0x80 <= b <= 0xBF
  }

  /** Length of the sequence a lead byte starts, or 0 when the byte cannot
      start one (a continuation byte, C0, C1 or F5 to FF). */
  function SequenceLength(lead: Byte): (n: nat)
    ensures n <= 4
  {
    if lead < 0x80 then 1
    else if 0xC2 <= lead <= 0xDF then 2
    else if 0xE0 <= lead <= 0xEF then 3
    else if 0xF0 <= lead <= 0xF4 then 4
    else 0
  }

  /** Whether `b` may stand at position `i` (1 to 3) of a sequence led by `lead`. */
  predicate FitsAt(lead: Byte, i: nat, b: Byte)
  {
    if i == 1 then
      if lead == 0xE0 then 0xA0 <= b <= 0xBF
      else if lead == 0xED then 0x80 <= b <= 0x9F
      else if lead == 0xF0 then 0x90 <= b <= 0xBF
      else if lead == 0xF4 then 0x80 <= b <= 0x8F
      else IsContinuation(b)
    else IsContinuation(b)
  }

  /** A complete, well-formed multi-byte sequence. */
  predicate WellFormed(bs: seq<Byte>)
  {
    && 2 <= |bs| <= 4
    && SequenceLength(bs[0]) == |bs|
    && forall i :: 1 <= i < |bs| ==> FitsAt(bs[0], i, bs[i])
  }

  /** The scalar value a well-formed multi-byte sequence stands for. */
  function Value(bs: seq<Byte>): (n: int)
    requires WellFormed(bs)
    ensures IsScalar(n) && n >= 0x80
  {
    assert FitsAt(bs[0], 1, bs[1]);
    var b0: int, b1: int := bs[0], bs[1];
    if |bs| == 2 then
      (b0 - 0xC0) * 0x40 + (b1 - 0x80)
    else if |bs| == 3 then
      assert FitsAt(bs[0], 2, bs[2]);
      var b2: int := bs[2];
      (b0 - 0xE0) * 0x1000 + (b1 - 0x80) * 0x40 + (b2 - 0x80)
    else
      assert FitsAt(bs[0], 2, bs[2]) && FitsAt(bs[0], 3, bs[3]);
      var b2: int, b3: int := bs[2], bs[3];
      (b0 - 0xF0) * 0x4_0000 + (b1 - 0x80) * 0x1000 + (b2 - 0x80) * 0x40 + (b3 - 0x80)
  }

  /** The bytes RFC 3629 writes for one character. */
  function Encode(c: char): (bs: seq<Byte>)
    ensures 1 <= |bs| <= 4
    ensures |bs| == 1 <==> (c as int) < 0x80
  {
    var n := c as int;
    if n < 0x80 then [n]
    else if n < 0x800 then [0xC0 + n / 0x40, 0x80 + n % 0x40]
    else if n < 0x1_0000 then [0xE0 + n / 0x1000, 0x80 + n / 0x40 % 0x40, 0x80 + n % 0x40]
    else [0xF0 + n / 0x4_0000, 0x80 + n / 0x1000 % 0x40, 0x80 + n / 0x40 % 0x40, 0x80 + n % 0x40]
  }

  function EncodeText(s: string): seq<Byte>
  {
    if s == [] then [] else Encode(s[0]) + EncodeText(s[1..])
  }

  lemma TwoBytesDecode(n: int)
    requires 0x80 <= n < 0x800
    ensures var bs: seq<Byte> := [0xC0 + n / 0x40, 0x80 + n % 0x40];
      WellFormed(bs) && Value(bs) == n
  {
    var q0, r0 := n / 0x40, n % 0x40;
    assert n == q0 * 0x40 + r0;
  }

  lemma ThreeBytesDecode(n: int)
    requires 0x800 <= n < 0x1_0000 && IsScalar(n)
    ensures var bs: seq<Byte> := [0xE0 + n / 0x1000, 0x80 + n / 0x40 % 0x40, 0x80 + n % 0x40];
      WellFormed(bs) && Value(bs) == n
  {
    var q0, r0 := n / 0x40, n % 0x40;
    assert n == q0 * 0x40 + r0;
    var q1, r1 := q0 / 0x40, q0 % 0x40;
    assert q0 == q1 * 0x40 + r1;
    assert n / 0x1000 == q1;
  }

  lemma FourBytesDecode(n: int)
    requires 0x1_0000 <= n < 0x11_0000
    ensures var bs: seq<Byte> := [0xF0 + n / 0x4_0000, 0x80 + n / 0x1000 % 0x40, 0x80 + n / 0x40 % 0x40, 0x80 + n % 0x40];
      WellFormed(bs) && Value(bs) == n
  {
    var q0, r0 := n / 0x40, n % 0x40;
    assert n == q0 * 0x40 + r0;
    var q1, r1 := q0 / 0x40, q0 % 0x40;
    assert q0 == q1 * 0x40 + r1;
    var q2, r2 := q1 / 0x40, q1 % 0x40;
    assert q1 == q2 * 0x40 + r2;
    assert n / 0x1000 == q1;
    assert n / 0x4_0000 == q2;
  }

  /** Decoding undoes encoding: the bytes of a non-ASCII character form a
      well-formed sequence whose value is that character. An ASCII character is
      the single byte of its own value. */
  lemma EncodeDecodes(c: char)
    ensures (c as int) < 0x80 ==> Encode(c) == [c as int]
    ensures (c as int) >= 0x80 ==> WellFormed(Encode(c)) && Value(Encode(c)) == c as int
  {
    var n := c as int;
    var bs := Encode(c);
    if n < 0x80 {
    } else if n < 0x800 {
      TwoBytesDecode(n);
      assert bs == [0xC0 + n / 0x40, 0x80 + n % 0x40];
    } else if n < 0x1_0000 {
      ThreeBytesDecode(n);
      assert bs == [0xE0 + n / 0x1000, 0x80 + n / 0x40 % 0x40, 0x80 + n % 0x40];
    } else {
      FourBytesDecode(n);
      assert bs == [0xF0 + n / 0x4_0000, 0x80 + n / 0x1000 % 0x40, 0x80 + n / 0x40 % 0x40, 0x80 + n % 0x40];
    }
  }
}
