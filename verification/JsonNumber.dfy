/** JSON numbers (section 6 of RFC 8259): the grammar, the journal's scanner, and bounded integers. */
module JsonNumber {

  import opened Bytes

  predicate IsDigit(b: byte) {
    ZERO <= b <= NINE
  }

  predicate AllDigits(s: bytes) {
    forall i :: 0 <= i < |s| ==> IsDigit(s[i])
  }

  predicate StartsWith(s: bytes, b: byte) {
    s != [] && s[0] == b
  }

  predicate StartsWithExponent(s: bytes) {
    StartsWith(s, 101) || StartsWith(s, 69)
  }

  // ---- The grammar

  predicate IsInteger(i: bytes) {
    i == [ZERO] || (i != [] && AllDigits(i) && i[0] != ZERO)
  }

  predicate IsFraction(f: bytes) {
    f == [] || (|f| >= 2 && f[0] == DOT && AllDigits(f[1..]))
  }

  predicate IsSign(b: byte) {
    b == PLUS || b == MINUS
  }

  predicate IsExponent(e: bytes) {
    || e == []
    || (StartsWithExponent(e) && |e| >= 2 && AllDigits(e[1..]))
    || (StartsWithExponent(e) && |e| >= 3 && IsSign(e[1]) && AllDigits(e[2..]))
  }

  /** number = [ minus ] int [ frac ] [ exp ] */
  datatype Parts = Parts(negative: bool, integer: bytes, fraction: bytes, exponent: bytes) {
    predicate Grammatical() {
      IsInteger(integer) && IsFraction(fraction) && IsExponent(exponent)
    }

    function Text(): bytes {
      (if negative then [MINUS] else []) + (integer + (fraction + exponent))
    }
  }

  ghost predicate IsNumber(t: bytes) {
    exists p: Parts :: p.Grammatical() && p.Text() == t
  }

  // ---- The scanner: what is left after a number, as ParseNumber advances its position

  function SkipDigits(s: bytes): (r: bytes)
    ensures |r| <= |s|
  {
    if s != [] && IsDigit(s[0]) then SkipDigits(s[1..]) else s
  }

  lemma {:induction false} SkippedDigits(s: bytes)
    ensures var r := SkipDigits(s); s == s[..|s| - |r|] + r && AllDigits(s[..|s| - |r|])
    ensures s != [] && IsDigit(s[0]) ==> |SkipDigits(s)| < |s|
  {
    if s != [] && IsDigit(s[0]) {
      SkippedDigits(s[1..]);
      var r := SkipDigits(s[1..]);
      assert s[..|s| - |r|] == [s[0]] + s[1..][..|s[1..]| - |r|];
    }
  }

  function SkipInteger(s: bytes): (r: Option<bytes>)
    ensures r.Some? ==> |r.value| < |s|
  {
    if s == [] then None
    else if s[0] == ZERO then (if |s| > 1 && IsDigit(s[1]) then None else Some(s[1..]))
    else if IsDigit(s[0]) then Some(SkipDigits(s[1..]))
    else None
  }

  function SkipFraction(s: bytes): (r: Option<bytes>)
    ensures r.Some? ==> |r.value| <= |s|
  {
    if !StartsWith(s, DOT) then Some(s)
    else
      var r := SkipDigits(s[1..]);
      if |r| == |s| - 1 then None else Some(r)
  }

  function SkipExponent(s: bytes): (r: Option<bytes>)
    ensures r.Some? ==> |r.value| <= |s|
  {
    if !StartsWithExponent(s) then Some(s)
    else
      var t := if |s| > 1 && IsSign(s[1]) then s[2..] else s[1..];
      var r := SkipDigits(t);
      if |r| == |t| then None else Some(r)
  }

  function SkipNumber(s: bytes): (r: Option<bytes>)
    ensures r.Some? ==> |r.value| < |s|
  {
    var afterSign := if StartsWith(s, MINUS) then s[1..] else s;
    var afterInteger := SkipInteger(afterSign);
    if afterInteger.None? then None
    else
      var afterFraction := SkipFraction(afterInteger.value);
      if afterFraction.None? then None else SkipExponent(afterFraction.value)
  }

  // ---- The scanner takes exactly the grammar, and as much of it as there is

  /** Text that cannot continue a number. */
  predicate Delimits(s: bytes) {
    s == [] || (!IsDigit(s[0]) && s[0] != DOT && s[0] != 101 && s[0] != 69)
  }

  lemma {:induction false} SkipAllDigits(d: bytes, rest: bytes)
    requires AllDigits(d) && (rest == [] || !IsDigit(rest[0]))
    ensures SkipDigits(d + rest) == rest
  {
    if d == [] {
      assert d + rest == rest;
    } else {
      assert (d + rest)[1..] == d[1..] + rest;
      SkipAllDigits(d[1..], rest);
    }
  }

  lemma IntegerScans(i: bytes, rest: bytes)
    requires IsInteger(i) && (rest == [] || !IsDigit(rest[0]))
    ensures SkipInteger(i + rest) == Some(rest)
  {
    if i == [ZERO] {
      assert (i + rest)[1..] == rest;
    } else {
      assert (i + rest)[1..] == i[1..] + rest;
      SkipAllDigits(i[1..], rest);
    }
  }

  lemma FractionScans(f: bytes, rest: bytes)
    requires IsFraction(f) && (rest == [] || (!IsDigit(rest[0]) && rest[0] != DOT))
    ensures SkipFraction(f + rest) == Some(rest)
    ensures f + rest == [] || !IsDigit((f + rest)[0])
  {
    if f == [] {
      assert f + rest == rest;
    } else {
      assert (f + rest)[1..] == f[1..] + rest;
      SkipAllDigits(f[1..], rest);
    }
  }

  lemma ExponentScans(e: bytes, rest: bytes)
    requires IsExponent(e) && Delimits(rest)
    ensures SkipExponent(e + rest) == Some(rest)
    ensures e + rest == [] || (!IsDigit((e + rest)[0]) && (e + rest)[0] != DOT)
  {
    if e == [] {
      assert e + rest == rest;
    } else if IsSign(e[1]) {
      assert (e + rest)[2..] == e[2..] + rest;
      SkipAllDigits(e[2..], rest);
    } else {
      assert (e + rest)[1..] == e[1..] + rest;
      SkipAllDigits(e[1..], rest);
    }
  }

  /** Every grammatical number is scanned to its end, whatever delimiter follows. */
  lemma NumberScans(t: bytes, rest: bytes)
    requires IsNumber(t) && Delimits(rest)
    ensures SkipNumber(t + rest) == Some(rest)
    ensures t != [] && (t[0] == MINUS || IsDigit(t[0]))
  {
    var p: Parts :| p.Grammatical() && p.Text() == t;
    PartsScan(p, rest);
    TextStart(p);
  }

  lemma PartsScan(p: Parts, rest: bytes)
    requires p.Grammatical() && Delimits(rest)
    ensures SkipNumber(p.Text() + rest) == Some(rest)
  {
    var afterFraction := p.exponent + rest;
    var afterInteger := p.fraction + afterFraction;
    var afterSign := p.integer + afterInteger;
    ExponentScans(p.exponent, rest);
    FractionScans(p.fraction, afterFraction);
    IntegerScans(p.integer, afterInteger);
    var s := p.Text() + rest;
    assert afterSign == if StartsWith(s, MINUS) then s[1..] else s by {
      Regroup(p, rest);
      FirstOctet(p, afterInteger);
      ConcatSplit([MINUS], afterSign);
    }
    ScanSteps(s, afterSign, afterInteger, afterFraction, rest);
  }

  lemma TextStart(p: Parts)
    requires p.Grammatical()
    ensures p.Text() != [] && (p.Text()[0] == MINUS || IsDigit(p.Text()[0]))
  {
    if !p.negative {
      assert p.Text()[0] == p.integer[0];
    }
  }

  lemma FirstOctet(p: Parts, more: bytes)
    requires p.Grammatical()
    ensures p.integer + more != [] && IsDigit((p.integer + more)[0])
  {
    assert (p.integer + more)[0] == p.integer[0];
  }

  lemma ScanSteps(s: bytes, s1: bytes, s2: bytes, s3: bytes, s4: bytes)
    requires s1 == if StartsWith(s, MINUS) then s[1..] else s
    requires SkipInteger(s1) == Some(s2) && SkipFraction(s2) == Some(s3) && SkipExponent(s3) == Some(s4)
    ensures SkipNumber(s) == Some(s4)
  {
  }

  lemma Regroup(p: Parts, rest: bytes)
    ensures p.Text() + rest == if p.negative then [MINUS] + (p.integer + (p.fraction + (p.exponent + rest)))
                               else p.integer + (p.fraction + (p.exponent + rest))
  {
    var fe := p.fraction + p.exponent;
    ConcatIsAssociative(p.fraction, p.exponent, rest);
    ConcatIsAssociative(p.integer, fe, rest);
    ConcatIsAssociative([MINUS], p.integer + fe, rest);
    assert [] + (p.integer + fe) == p.integer + fe;
  }

  /** Whatever the scanner accepts is a grammatical number. */
  lemma ScannedIsNumber(s: bytes)
    requires SkipNumber(s).Some?
    ensures var n := |s| - |SkipNumber(s).value|; IsNumber(s[..n]) && s[n..] == SkipNumber(s).value
  {
    hide IsNumber, SkipInteger, SkipFraction, SkipExponent, IsInteger, IsFraction, IsExponent;
    var s1 := if StartsWith(s, MINUS) then s[1..] else s;
    var i, s2 := IntegerPart(s1);
    var f, s3 := FractionPart(s2);
    var e, s4 := ExponentPart(s3);
    var p := Parts(StartsWith(s, MINUS), i, f, e);
    assert p.negative ==> s == [MINUS] + s1;
    TextIsHead(p, s, s4);
  }

  lemma TextIsHead(p: Parts, s: bytes, rest: bytes)
    requires p.Grammatical()
    requires s == if p.negative then [MINUS] + (p.integer + (p.fraction + (p.exponent + rest)))
                  else p.integer + (p.fraction + (p.exponent + rest))
    ensures |rest| <= |s| && IsNumber(s[..|s| - |rest|]) && s[|s| - |rest|..] == rest
  {
    hide IsInteger, IsFraction, IsExponent;
    Regroup(p, rest);
    ConcatSplit(p.Text(), rest);
    assert p.Text() == s[..|s| - |rest|];
  }

  lemma IntegerPart(s: bytes) returns (i: bytes, rest: bytes)
    requires SkipInteger(s).Some?
    ensures rest == SkipInteger(s).value && s == i + rest && IsInteger(i)
  {
    hide SkipDigits;
    rest := SkipInteger(s).value;
    var digits := if s[0] == ZERO then [] else s[1..][..|s[1..]| - |rest|];
    i := [s[0]] + digits;
    SkippedDigits(s[1..]);
    assert s == [s[0]] + s[1..];
    ConcatIsAssociative([s[0]], digits, rest);
    assert [] + rest == rest;
  }

  lemma FractionPart(s: bytes) returns (f: bytes, rest: bytes)
    requires SkipFraction(s).Some?
    ensures rest == SkipFraction(s).value && s == f + rest && IsFraction(f)
  {
    rest := SkipFraction(s).value;
    f := s[..|s| - |rest|];
    if StartsWith(s, DOT) {
      SkippedDigits(s[1..]);
      assert s == [s[0]] + s[1..];
      assert f == [s[0]] + s[1..][..|s[1..]| - |rest|];
    }
  }

  lemma ExponentPart(s: bytes) returns (e: bytes, rest: bytes)
    requires SkipExponent(s).Some?
    ensures rest == SkipExponent(s).value && s == e + rest && IsExponent(e)
  {
    rest := SkipExponent(s).value;
    e := s[..|s| - |rest|];
    if StartsWithExponent(s) {
      var head := if |s| > 1 && IsSign(s[1]) then s[..2] else s[..1];
      var t := s[|head|..];
      SkippedDigits(t);
      var digits := t[..|t| - |rest|];
      assert s == head + t;
      ConcatIsAssociative(head, digits, rest);
      ConcatSplit(head + digits, rest);
      ConcatSplit(head, digits);
      ExponentFrom(head, digits);
    }
  }

  lemma ExponentFrom(head: bytes, digits: bytes)
    requires digits != [] && AllDigits(digits)
    requires |head| == 1 || (|head| == 2 && IsSign(head[1]))
    requires StartsWithExponent(head)
    ensures IsExponent(head + digits)
  {
    ConcatSplit(head, digits);
  }

  // ---- Integers of a fixed width

  /** The range of a C++ integer type. */
  datatype Width = Width(min: int, max: nat) {
    predicate Machine() {
      max >= 9 && (min == 0 || min + max == -1)
    }
  }

  const Int32 := Width(-0x8000_0000, 0x7fff_ffff)
  const Int64 := Width(-0x8000_0000_0000_0000, 0x7fff_ffff_ffff_ffff)
  const UInt64 := Width(0, 0xffff_ffff_ffff_ffff)

  /** The number a digit string denotes, unbounded. */
  function DigitsValue(d: bytes): nat
    requires AllDigits(d)
  {
    if d == [] then 0 else DigitsValue(d[..|d| - 1]) * 10 + (d[|d| - 1] - ZERO)
  }

  predicate IntegerText(t: bytes) {
    t != [] && AllDigits(if t[0] == MINUS then t[1..] else t)
  }

  function IntegerValue(t: bytes): int
    requires IntegerText(t)
  {
    if t[0] == MINUS then 0 - DigitsValue(t[1..]) else DigitsValue(t)
  }

  /** ReadInteger as a caller sees it: plain integer text whose exact value fits the type; an
      unsigned type takes no minus sign at all, not even on zero. */
  function Fit(t: bytes, w: Width): Option<int> {
    if IntegerText(t) && (t[0] == MINUS ==> w.min < 0) && w.min <= IntegerValue(t) <= w.max
    then Some(IntegerValue(t)) else None
  }

  lemma PrefixValueGrows(d: bytes, k: nat)
    requires AllDigits(d) && k <= |d|
    ensures DigitsValue(d[..k]) <= DigitsValue(d)
  {
    if k < |d| {
      PrefixValueGrows(d[..|d| - 1], k);
      assert d[..|d| - 1][..k] == d[..k];
    } else {
      assert d[..k] == d;
    }
  }

  /** The digit loop: it refuses before the multiplication could leave the range, and never otherwise. */
  method ReadMagnitude(digits: bytes, limit: nat) returns (r: Option<nat>)
    requires limit >= 9
    ensures r == if AllDigits(digits) && DigitsValue(digits) <= limit then Some(DigitsValue(digits)) else None
  {
    var magnitude := 0;
    var index := 0;
    while index < |digits|
      invariant 0 <= index <= |digits|
      invariant AllDigits(digits[..index]) && magnitude == DigitsValue(digits[..index]) <= limit
    {
      var digit := digits[index] - ZERO;
      assert digits[..index + 1][..index] == digits[..index];
      if digit < 0 || digit > 9 || magnitude > (limit - digit) / 10 {
        if AllDigits(digits) {
          PrefixValueGrows(digits, index + 1);
          assert DigitsValue(digits[..index + 1]) == magnitude * 10 + digit;
        }
        return None;
      }
      magnitude := magnitude * 10 + digit;
      index := index + 1;
    }
    assert digits[..index] == digits;
    return Some(magnitude);
  }

  /** ReadInteger on the text of a number field: a non-integer spelling is refused first, then the
      digit loop runs against the magnitude limit of the sign. */
  method ReadInteger(t: bytes, w: Width) returns (r: Option<int>)
    requires w.Machine() && IsNumber(t)
    ensures r == Fit(t, w)
  {
    hide IsNumber, DigitsValue, AllDigits;
    IntegerSpelling(t);
    if exists i :: 0 <= i < |t| && (t[i] == DOT || t[i] == 101 || t[i] == 69) {
      return None;
    }
    var negative := t[0] == MINUS;
    if negative && w.min == 0 {
      return None;
    }
    var magnitude := ReadMagnitude(if negative then t[1..] else t, if negative then w.max + 1 else w.max);
    if magnitude.None? {
      return None;
    }
    var value: int := magnitude.value;
    return Some(if negative then -value else value);
  }

  /** A grammatical number is spelled as an integer exactly when it has no point and no exponent. */
  lemma IntegerSpelling(t: bytes)
    requires IsNumber(t)
    ensures t != []
    ensures IntegerText(t) <==> forall i :: 0 <= i < |t| ==> t[i] != DOT && t[i] != 101 && t[i] != 69
  {
    var p: Parts :| p.Grammatical() && p.Text() == t;
    var head := (if p.negative then [MINUS] else []) + p.integer;
    var tail := p.fraction + p.exponent;
    ConcatIsAssociative(if p.negative then [MINUS] else [], p.integer, tail);
    if tail == [] {
      assert t == head;
      WholeSpelling(p.negative, p.integer, t);
    } else {
      assert tail[0] == if p.fraction == [] then p.exponent[0] else p.fraction[0];
      BrokenSpelling(t, head, tail);
    }
  }

  lemma BrokenSpelling(t: bytes, head: bytes, tail: bytes)
    requires t == head + tail && head != [] && tail != [] && (tail[0] == DOT || tail[0] == 101 || tail[0] == 69)
    ensures !IntegerText(t)
    ensures exists i :: 0 <= i < |t| && (t[i] == DOT || t[i] == 101 || t[i] == 69)
  {
    assert t[|head|] == tail[0];
    assert t[0] == MINUS ==> t[1..][|head| - 1] == t[|head|];
  }

  lemma WholeSpelling(negative: bool, integer: bytes, t: bytes)
    requires IsInteger(integer) && t == (if negative then [MINUS] else []) + integer
    ensures IntegerText(t) && forall i :: 0 <= i < |t| ==> t[i] != DOT && t[i] != 101 && t[i] != 69
  {
    if negative {
      ConcatSplit([MINUS], integer);
      assert forall i :: 1 <= i < |t| ==> t[i] == integer[i - 1];
    } else {
      assert t == integer;
    }
  }

  // ---- Printing integers

  function NatText(n: nat): (r: bytes)
    ensures AllDigits(r) && r != [] && DigitsValue(r) == n
    ensures r == [ZERO] || r[0] != ZERO
  {
    if n < 10 then
      assert [ZERO + n][..0] == [];
      [ZERO + n]
    else
      var r := NatText(n / 10) + [ZERO + n % 10];
      assert r[..|r| - 1] == NatText(n / 10);
      r
  }

  function IntText(n: int): bytes {
    if n < 0 then [MINUS] + NatText(-n) else NatText(n)
  }

  lemma IntTextIsNumber(n: int)
    ensures IsNumber(IntText(n))
  {
    PlainDigitsAreNumber(n < 0, NatText(if n < 0 then -n else n));
  }

  /** A printed integer is a JSON number, and reading it back gives it exactly when it fits. */
  lemma IntRoundTrip(n: int, w: Width)
    requires w.Machine()
    ensures IsNumber(IntText(n))
    ensures Fit(IntText(n), w) == if w.min <= n <= w.max then Some(n) else None
  {
    hide IsNumber, NatText;
    var digits := NatText(if n < 0 then -n else n);
    PlainDigitsAreNumber(n < 0, digits);
    if n < 0 {
      ConcatSplit([MINUS], digits);
    }
  }

  lemma PlainDigitsAreNumber(negative: bool, digits: bytes)
    requires IsInteger(digits)
    ensures IsNumber(if negative then [MINUS] + digits else digits)
  {
    var p := Parts(negative, digits, [], []);
    assert digits + ([] + []) == digits;
    assert [] + digits == digits;
    assert p.Grammatical() && p.Text() == if negative then [MINUS] + digits else digits;
  }
}
