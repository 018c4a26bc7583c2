/** Well-formed UTF-8: the grammar of section 4 of RFC 3629 as the reference, and the
    journal parser's own code-point arithmetic, proved to accept exactly that grammar. */
module Utf8 {

  import opened Bytes

  predicate Tail(b: byte) {
    0x80 <= b <= 0xbf
  }

  /** The length of the UTF8-char that `s` starts with, 0 when it starts with none;
      one line for every alternative of the grammar. */
  function CharLength(s: bytes): (n: nat)
    ensures n <= 4 && n <= |s|
  {
    if |s| >= 1 && s[0] <= 0x7f then 1
    else if |s| >= 2 && 0xc2 <= s[0] <= 0xdf && Tail(s[1]) then 2
    else if |s| >= 3 && s[0] == 0xe0 && 0xa0 <= s[1] <= 0xbf && Tail(s[2]) then 3
    else if |s| >= 3 && 0xe1 <= s[0] <= 0xec && Tail(s[1]) && Tail(s[2]) then 3
    else if |s| >= 3 && s[0] == 0xed && 0x80 <= s[1] <= 0x9f && Tail(s[2]) then 3
    else if |s| >= 3 && 0xee <= s[0] <= 0xef && Tail(s[1]) && Tail(s[2]) then 3
    else if |s| >= 4 && s[0] == 0xf0 && 0x90 <= s[1] <= 0xbf && Tail(s[2]) && Tail(s[3]) then 4
    else if |s| >= 4 && 0xf1 <= s[0] <= 0xf3 && Tail(s[1]) && Tail(s[2]) && Tail(s[3]) then 4
    else if |s| >= 4 && s[0] == 0xf4 && 0x80 <= s[1] <= 0x8f && Tail(s[2]) && Tail(s[3]) then 4
    else 0
  }

  /** UTF8-octets: a series of UTF8-chars. */
  predicate Valid(s: bytes) {
    s == [] || (CharLength(s) > 0 && Valid(s[CharLength(s)..]))
  }

  /** The sequence length announced by a lead octet, 0 for an octet that leads nothing. */
  function LeadLength(lead: byte): nat {
    if 0xc2 <= lead <= 0xdf then 2
    else if 0xe0 <= lead <= 0xef then 3
    else if 0xf0 <= lead <= 0xf4 then 4
    else 0
  }

  function LeadBits(lead: byte): nat {
    if LeadLength(lead) == 2 then lead % 0x20
    else if LeadLength(lead) == 3 then lead % 0x10
    else lead % 0x08
  }

  /** The code point collected from the lead and the continuation octets, by shifting in six bits each. */
  function CollectedPoint(s: bytes, length: nat): nat
    requires 1 <= length <= |s|
  {
    if length == 1 then LeadBits(s[0]) else CollectedPoint(s, length - 1) * 64 + s[length - 1] % 64
  }

  predicate OverlongOrUnassigned(length: nat, point: nat) {
    || (length == 2 && point < 0x80)
    || (length == 3 && point < 0x800)
    || (length == 4 && point < 0x10000)
    || 0xd800 <= point <= 0xdfff
    || point > 0x10ffff
  }

  /** ParseRawUtf8: the number of octets it accepts, 0 when it refuses. */
  function RawLength(s: bytes): (n: nat)
    requires s != []
    ensures n <= |s|
  {
    var length := LeadLength(s[0]);
    if length == 0 || length > |s| then 0
    else if exists i :: 1 <= i < length && !Tail(s[i]) then 0
    else if OverlongOrUnassigned(length, CollectedPoint(s, length)) then 0
    else length
  }

  /** The arithmetic check accepts exactly the multi-octet alternatives of the grammar. */
  lemma RawLengthIsCharLength(s: bytes)
    requires s != [] && s[0] >= 0x80
    ensures RawLength(s) == CharLength(s)
  {
    var length := LeadLength(s[0]);
    if 0 < length <= |s| && forall i :: 1 <= i < length ==> Tail(s[i]) {
      if length == 2 {
        TwoOctets(s);
      } else if length == 3 {
        ThreeOctets(s);
      } else {
        FourOctets(s);
      }
    } else if 0 < length <= |s| {
      var i :| 1 <= i < length && !Tail(s[i]);
      assert i == 1 || i == 2 || i == 3;
    }
  }

  lemma TwoOctets(r: bytes)
    requires |r| >= 2 && 0xc2 <= r[0] <= 0xdf && Tail(r[1])
    ensures CollectedPoint(r, 2) == (r[0] as int - 0xc0) * 64 + r[1] as int - 0x80
  {
  }

  /** AppendCodePoint: the octets of one scalar value. */
  function EncodePoint(point: nat): (r: bytes)
    requires point <= 0x10ffff
  {
    if point <= 0x7f then [point]
    else if point <= 0x7ff then [0xc0 + point / 64, 0x80 + point % 64]
    else if point <= 0xffff then [0xe0 + point / 4096, 0x80 + point / 64 % 64, 0x80 + point % 64]
    else [0xf0 + point / 262144, 0x80 + point / 4096 % 64, 0x80 + point / 64 % 64, 0x80 + point % 64]
  }

  lemma ThreeDigits(point: nat)
    requires 0x7ff < point <= 0xffff
    ensures point / 4096 <= 0xf && (point / 4096 == 0 ==> point / 64 % 64 >= 0x20)
    ensures point / 4096 == 0xd && !(0xd800 <= point <= 0xdfff) ==> point / 64 % 64 < 0x20
    ensures (point / 4096 * 64 + point / 64 % 64) * 64 + point % 64 == point
  {
    assert point / 4096 == point / 64 / 64;
  }

  lemma FourDigits(point: nat)
    requires 0xffff < point <= 0x10ffff
    ensures point / 262144 <= 4 && (point / 262144 == 0 ==> point / 4096 % 64 >= 0x10)
    ensures point / 262144 == 4 ==> point / 4096 % 64 < 0x10
    ensures ((point / 262144 * 64 + point / 4096 % 64) * 64 + point / 64 % 64) * 64 + point % 64 == point
  {
    assert point / 4096 == point / 64 / 64;
    assert point / 262144 == point / 4096 / 64;
  }

  /** Every scalar value is encoded as one UTF8-char, and the collected code point is that value. */
  lemma EncodedPointIsOneChar(point: nat)
    requires point <= 0x10ffff && !(0xd800 <= point <= 0xdfff)
    ensures CharLength(EncodePoint(point)) == |EncodePoint(point)|
    ensures point > 0x7f ==> CollectedPoint(EncodePoint(point), |EncodePoint(point)|) == point
  {
    if 0x7f < point <= 0x7ff {
      TwoOctets(EncodePoint(point));
    } else if 0x7ff < point <= 0xffff {
      PointOfThree(point);
    } else if point > 0xffff {
      PointOfFour(point);
    }
  }

  lemma PointOfThree(point: nat)
    requires 0x7ff < point <= 0xffff && !(0xd800 <= point <= 0xdfff)
    ensures |EncodePoint(point)| == 3 == CharLength(EncodePoint(point))
      && CollectedPoint(EncodePoint(point), 3) == point
  {
    hide CollectedPoint;
    ThreeDigits(point);
    ThreeOctets(EncodePoint(point));
  }

  lemma PointOfFour(point: nat)
    requires 0xffff < point <= 0x10ffff
    ensures |EncodePoint(point)| == 4 == CharLength(EncodePoint(point))
      && CollectedPoint(EncodePoint(point), 4) == point
  {
    hide CollectedPoint;
    FourDigits(point);
    FourOctets(EncodePoint(point));
  }

  lemma ThreeOctets(r: bytes)
    requires |r| >= 3 && 0xe0 <= r[0] <= 0xef && Tail(r[1]) && Tail(r[2])
    ensures CollectedPoint(r, 3) == ((r[0] as int - 0xe0) * 64 + r[1] as int - 0x80) * 64 + r[2] as int - 0x80
  {
    assert CollectedPoint(r, 2) == (r[0] as int - 0xe0) * 64 + r[1] as int - 0x80;
  }

  lemma FourOctets(r: bytes)
    requires |r| >= 4 && 0xf0 <= r[0] <= 0xf4 && Tail(r[1]) && Tail(r[2]) && Tail(r[3])
    ensures CollectedPoint(r, 4) == (((r[0] as int - 0xf0) * 64 + r[1] as int - 0x80) * 64 + r[2] as int - 0x80) * 64
      + r[3] as int - 0x80
  {
    assert CollectedPoint(r, 2) == (r[0] as int - 0xf0) * 64 + r[1] as int - 0x80;
    assert CollectedPoint(r, 3) == CollectedPoint(r, 2) * 64 + r[2] as int - 0x80;
  }

  /** Only the first octets decide which UTF8-char a string starts with. */
  lemma CharLengthOfPrefix(a: bytes, b: bytes)
    requires CharLength(a) > 0
    ensures CharLength(a + b) == CharLength(a)
  {
    assert forall i :: 0 <= i < |a| ==> (a + b)[i] == a[i];
  }

  /** Valid octet strings are closed under concatenation. */
  lemma {:induction false} ValidConcat(a: bytes, b: bytes)
    requires Valid(a) && Valid(b)
    ensures Valid(a + b)
    decreases |a|
  {
    hide CharLength;
    if a == [] {
      assert a + b == b;
    } else {
      var n := CharLength(a);
      CharLengthOfPrefix(a, b);
      ValidConcat(a[n..], b);
      ConcatDrop(a, b, n);
    }
  }
}
