/** JSON strings (section 7 of RFC 8259) as the journal prints and parses them. The parser is a
    function of the unread input: it returns the value and what is left unread. */
module JsonString {

  import opened Bytes
  import Utf8

  datatype Parsed<+T> = Fail | Ok(value: T, rest: bytes)

  function HexValue(c: byte): Option<nat> {
    if 48 <= c <= 57 then Some(c - 48)
    else if 97 <= c <= 102 then Some(c - 97 + 10)
    else if 65 <= c <= 70 then Some(c - 65 + 10)
    else None
  }

  /** ParseHexQuad: the value of the first four hexadecimal digits, by shifting in four bits each. */
  function HexPrefix(s: bytes, count: nat): (r: Option<nat>)
    requires count <= 4
    ensures r.Some? ==> count <= |s| && r.value < [1, 0x10, 0x100, 0x1000, 0x10000][count]
  {
    if count == 0 then Some(0)
    else if count > |s| then None
    else
      match (HexPrefix(s, count - 1), HexValue(s[count - 1]))
      case (Some(v), Some(d)) => Some(v * 16 + d)
      case _ => None
  }

  datatype Step = Bad | Close | Emit(value: bytes, length: nat)

  /** What the loop of ParseString does with the next character of the string. */
  function NextStep(s: bytes): (r: Step)
    requires s != []
    ensures r.Emit? ==> 1 <= r.length <= |s|
  {
    var c := s[0];
    if c == QUOTE then Close
    else if c < 0x20 then Bad
    else if c >= 0x80 then
      var n := Utf8.RawLength(s);
      if n == 0 then Bad else Emit(s[..n], n)
    else if c != BACKSLASH then Emit([c], 1)
    else if |s| < 2 then Bad
    else if s[1] == QUOTE || s[1] == BACKSLASH || s[1] == SLASH then Emit([s[1]], 2)
    else if s[1] == 98 then Emit([8], 2)
    else if s[1] == 102 then Emit([12], 2)
    else if s[1] == 110 then Emit([LF], 2)
    else if s[1] == 114 then Emit([CR], 2)
    else if s[1] == 116 then Emit([TAB], 2)
    else if s[1] == 117 then UnicodeStep(s)
    else Bad
  }

  /** The `\u` escapes: one quad, or a surrogate pair of two. */
  function UnicodeStep(s: bytes): (r: Step)
    requires |s| >= 2
    ensures r.Emit? ==> 1 <= r.length <= |s|
  {
    var high := HexPrefix(s[2..], 4);
    if high.None? then Bad
    else if 0xdc00 <= high.value <= 0xdfff then Bad
    else if !(0xd800 <= high.value <= 0xdbff) then Emit(Utf8.EncodePoint(high.value), 6)
    else if |s| < 8 || s[6] != BACKSLASH || s[7] != 117 then Bad
    else
      var low := HexPrefix(s[8..], 4);
      if low.None? || !(0xdc00 <= low.value <= 0xdfff) then Bad
      else Emit(Utf8.EncodePoint(0x10000 + (high.value - 0xd800) * 1024 + (low.value - 0xdc00)), 12)
  }

  /** The rest of a string after its opening quote, up to and including the closing one. */
  function ParseTail(s: bytes): (r: Parsed<bytes>)
    ensures r.Ok? ==> |r.rest| < |s|
  {
    if s == [] then Fail
    else
      match NextStep(s)
      case Bad => Fail
      case Close => Ok([], s[1..])
      case Emit(value, length) =>
        var r := ParseTail(s[length..]);
        if r.Fail? then Fail else Ok(value + r.value, r.rest)
  }

  function ParseString(s: bytes): (r: Parsed<bytes>)
    ensures r.Ok? ==> |r.rest| < |s|
  {
    if s != [] && s[0] == QUOTE then ParseTail(s[1..]) else Fail
  }

  // ---- Printing

  function HexDigit(d: nat): byte
    requires d < 16
  {
    if d < 10 then 48 + d else 97 + d - 10
  }

  function EscapeByte(b: byte): (r: bytes)
    ensures r != []
  {
    if b == BACKSLASH || b == QUOTE then [BACKSLASH, b]
    else if b == LF then [BACKSLASH, 110]
    else if b == CR then [BACKSLASH, 114]
    else if b == TAB then [BACKSLASH, 116]
    else if b == 8 then [BACKSLASH, 98]
    else if b == 12 then [BACKSLASH, 102]
    else if b < 0x20 then [BACKSLASH, 117, 48, 48, HexDigit(b / 16), HexDigit(b % 16)]
    else [b]
  }

  function Escape(s: bytes): bytes {
    if s == [] then [] else EscapeByte(s[0]) + Escape(s[1..])
  }

  function Quoted(s: bytes): bytes {
    [QUOTE] + Escape(s) + [QUOTE]
  }

  lemma {:induction false} EscapeAppend(s: bytes, t: bytes)
    ensures Escape(s + t) == Escape(s) + Escape(t)
  {
    hide EscapeByte;
    if s == [] {
      assert s + t == t;
    } else {
      assert (s + t)[1..] == s[1..] + t;
      EscapeAppend(s[1..], t);
      ConcatIsAssociative(EscapeByte(s[0]), Escape(s[1..]), Escape(t));
    }
  }

  /** EscapeJson: one pass over the string, appending to the output. */
  method EscapeJson(s: bytes) returns (out: bytes)
    ensures out == Escape(s)
  {
    out := [];
    var i := 0;
    while i < |s|
      invariant 0 <= i <= |s|
      invariant out == Escape(s[..i])
    {
      EscapeAppend(s[..i], [s[i]]);
      assert s[..i + 1] == s[..i] + [s[i]];
      out := out + EscapeByte(s[i]);
      i := i + 1;
    }
    assert s[..|s|] == s;
  }

  /** Escaped text holds no control octet, so an encoded line never contains a raw newline. */
  lemma {:induction false} EscapedIsPrintable(s: bytes)
    ensures forall b :: b in Escape(s) ==> b >= 0x20
  {
    if s != [] {
      EscapedIsPrintable(s[1..]);
    }
  }

  // ---- Round trip

  /** One escaped ASCII octet is read back as itself. */
  lemma EscapedByteReadsBack(b: byte, more: bytes)
    requires b < 0x80
    ensures NextStep(EscapeByte(b) + more) == Emit([b], |EscapeByte(b)|)
  {
    var s := EscapeByte(b) + more;
    if b < 0x20 && |EscapeByte(b)| == 6 {
      assert s[2..][..4] == [48, 48, HexDigit(b / 16), HexDigit(b % 16)];
      var q := s[2..];
      assert q[0] == 48 && q[1] == 48 && q[2] == HexDigit(b / 16) && q[3] == HexDigit(b % 16);
      assert HexPrefix(q, 1) == Some(0);
      assert HexPrefix(q, 2) == Some(0);
      assert HexPrefix(q, 3) == Some(b / 16);
      assert HexPrefix(q, 4) == Some(b);
    }
  }

  lemma EscapedHead(b: byte)
    ensures EscapeByte(b) != [] && if b >= 0x80 then EscapeByte(b) == [b] else EscapeByte(b)[0] < 0x80
  {
  }

  lemma {:induction false} EscapeHead(s: bytes, n: nat)
    requires n <= |s| && forall i :: 0 <= i < n ==> s[i] >= 0x80
    ensures Escape(s) == s[..n] + Escape(s[n..])
  {
    hide EscapeByte;
    if n == 0 {
      assert s[0..] == s && s[..0] == [];
    } else {
      var rest := s[1..];
      EscapeHead(rest, n - 1);
      EscapedHead(s[0]);
      assert [s[0]] + rest[..n - 1] == s[..n] && rest[n - 1..] == s[n..];
      ConcatIsAssociative([s[0]], rest[..n - 1], Escape(s[n..]));
    }
  }

  lemma FirstOctet(s: bytes, more: bytes)
    requires more != [] && more[0] < 0x80
    ensures Escape(s) + more != []
    ensures if s != [] && s[0] >= 0x80 then (Escape(s) + more)[0] == s[0] else (Escape(s) + more)[0] < 0x80
  {
    hide EscapeByte;
    if s != [] {
      EscapedHead(s[0]);
      assert (Escape(s) + more)[0] == EscapeByte(s[0])[0];
    }
  }

  /** Escaping leaves octets above 0x7f alone and turns every other octet into ASCII text. */
  lemma EscapedOctets(s: bytes, more: bytes, n: nat)
    requires n <= |s| && more != [] && more[0] < 0x80
    requires forall i :: 0 <= i < n ==> s[i] >= 0x80
    ensures n < |Escape(s) + more|
    ensures (Escape(s) + more)[..n] == s[..n]
    ensures if n < |s| && s[n] >= 0x80 then (Escape(s) + more)[n] == s[n] else (Escape(s) + more)[n] < 0x80
  {
    hide Escape;
    EscapeHead(s, n);
    FirstOctet(s[n..], more);
    var a, b := s[..n], Escape(s[n..]) + more;
    ConcatIsAssociative(a, Escape(s[n..]), more);
    assert (a + b)[n] == b[0];
    ConcatSplit(a, b);
  }

  lemma EscapedAgrees(s: bytes, t: bytes, more: bytes)
    requires HighAt(s, 0) && more != [] && more[0] < 0x80 && t == Escape(s) + more
    ensures AgreeAt(s, t, 0) && AgreeAt(s, t, 1)
    ensures HighAt(s, 1) ==> AgreeAt(s, t, 2)
    ensures HighAt(s, 1) && HighAt(s, 2) ==> AgreeAt(s, t, 3)
  {
    EscapedOctets(s, more, 0);
    EscapedOctets(s, more, 1);
    if HighAt(s, 1) {
      EscapedOctets(s, more, 2);
      if HighAt(s, 2) {
        EscapedOctets(s, more, 3);
      }
    }
  }

  lemma EscapedSplit(s: bytes, t: bytes, more: bytes, n: nat)
    requires n <= |s| && t == Escape(s) + more && forall i :: 0 <= i < n ==> s[i] >= 0x80
    ensures n <= |t| && t[..n] == s[..n] && t[n..] == Escape(s[n..]) + more
  {
    EscapeHead(s, n);
    var a, b := s[..n], Escape(s[n..]);
    ConcatIsAssociative(a, b, more);
    ConcatSplit(a, b + more);
  }

  /** The parser sees in the escaped text exactly the UTF8-char that the string starts with. */
  lemma RawLengthOfEscaped(s: bytes, t: bytes, more: bytes)
    requires HighAt(s, 0) && more != [] && more[0] < 0x80 && t == Escape(s) + more
    ensures HighAt(t, 0) && Utf8.RawLength(t) == Utf8.CharLength(s)
    ensures t[..Utf8.CharLength(s)] == s[..Utf8.CharLength(s)]
    ensures t[Utf8.CharLength(s)..] == Escape(s[Utf8.CharLength(s)..]) + more
  {
    EscapedAgrees(s, t, more);
    SameChar(s, t);
    Utf8.RawLengthIsCharLength(t);
    CharIsHigh(s);
    EscapedSplit(s, t, more, Utf8.CharLength(s));
  }

  predicate HighAt(s: bytes, k: nat) {
    k < |s| && s[k] >= 0x80
  }

  predicate AgreeAt(s: bytes, t: bytes, k: nat) {
    HighAt(s, k) == HighAt(t, k) && (HighAt(s, k) ==> s[k] == t[k])
  }

  lemma SameChar(s: bytes, t: bytes)
    requires HighAt(s, 0) && AgreeAt(s, t, 0) && AgreeAt(s, t, 1)
    requires HighAt(s, 1) ==> AgreeAt(s, t, 2)
    requires HighAt(s, 1) && HighAt(s, 2) ==> AgreeAt(s, t, 3)
    ensures Utf8.CharLength(t) == Utf8.CharLength(s)
  {
  }

  lemma CharIsHigh(s: bytes)
    requires HighAt(s, 0)
    ensures forall i :: 0 <= i < Utf8.CharLength(s) ==> s[i] >= 0x80
  {
  }

  /** Parsing escaped text up to its closing quote succeeds exactly on valid UTF-8, and gives it back. */
  lemma {:induction false} TailRoundTrip(s: bytes, rest: bytes)
    ensures ParseTail(Escape(s) + [QUOTE] + rest) == if Utf8.Valid(s) then Ok(s, rest) else Fail
    decreases |s|
  {
    hide NextStep, Utf8.CharLength;
    var more := [QUOTE] + rest;
    ConcatIsAssociative(Escape(s), [QUOTE], rest);
    if s == [] {
      ClosingStep(rest);
      assert Escape(s) + more == more;
      ConcatSplit([QUOTE], rest);
    } else if s[0] < 0x80 {
      TailRoundTrip(s[1..], rest);
      ConcatIsAssociative(Escape(s[1..]), [QUOTE], rest);
      PlainStep(s, more);
      assert [s[0]] + s[1..] == s;
    } else {
      if Utf8.CharLength(s) > 0 {
        TailRoundTrip(s[Utf8.CharLength(s)..], rest);
      }
      RawTail(s, rest);
    }
  }

  /** The step over a character of several octets, or over what is none. */
  lemma RawTail(s: bytes, rest: bytes)
    requires HighAt(s, 0)
    requires
      var n := Utf8.CharLength(s);
      n > 0 ==> ParseTail(Escape(s[n..]) + [QUOTE] + rest) == if Utf8.Valid(s[n..]) then Ok(s[n..], rest) else Fail
    ensures ParseTail(Escape(s) + [QUOTE] + rest) == if Utf8.Valid(s) then Ok(s, rest) else Fail
  {
    hide NextStep, Utf8.CharLength, Escape;
    var n, more := Utf8.CharLength(s), [QUOTE] + rest;
    ConcatIsAssociative(Escape(s), [QUOTE], rest);
    RawLengthOfEscaped(s, Escape(s) + more, more);
    RawStep(Escape(s) + more);
    if n > 0 {
      ConcatIsAssociative(Escape(s[n..]), [QUOTE], rest);
      assert s[..n] + s[n..] == s by { hide *; }
    }
  }

  lemma ClosingStep(rest: bytes)
    ensures NextStep([QUOTE] + rest) == Close
  {
  }

  lemma RawStep(t: bytes)
    requires HighAt(t, 0)
    ensures var n := Utf8.RawLength(t); NextStep(t) == if n > 0 then Emit(t[..n], n) else Bad
  {
  }

  lemma PlainStep(s: bytes, more: bytes)
    requires s != [] && s[0] < 0x80
    ensures Escape(s) + more != [] && Utf8.CharLength(s) == 1
    ensures NextStep(Escape(s) + more) == Emit([s[0]], |EscapeByte(s[0])|)
    ensures (Escape(s) + more)[|EscapeByte(s[0])|..] == Escape(s[1..]) + more
  {
    var e := EscapeByte(s[0]);
    ConcatIsAssociative(e, Escape(s[1..]), more);
    EscapedByteReadsBack(s[0], Escape(s[1..]) + more);
    ConcatSplit(e, Escape(s[1..]) + more);
  }

  /** Parsing the quoted escape of an octet string succeeds exactly when the string is valid UTF-8,
      and then returns that string and everything after it. */
  lemma StringRoundTrip(s: bytes, rest: bytes)
    ensures ParseString(Quoted(s) + rest) == if Utf8.Valid(s) then Ok(s, rest) else Fail
  {
    var t := Quoted(s) + rest;
    assert t[1..] == Escape(s) + [QUOTE] + rest;
    TailRoundTrip(s, rest);
  }

  lemma StepEmitsValid(s: bytes)
    requires s != [] && NextStep(s).Emit?
    ensures Utf8.Valid(NextStep(s).value)
  {
    var v := NextStep(s).value;
    if s[0] >= 0x80 {
      Utf8.RawLengthIsCharLength(s);
      var n := Utf8.RawLength(s);
      assert v == s[..n];
      assert Utf8.CharLength(v) == n;
      assert v[n..] == [];
    } else if s[0] == BACKSLASH && s[1] == 117 {
      UnicodeEmitsValid(s);
    } else {
      assert |v| == 1 && v[0] < 0x80;
      assert v[1..] == [];
    }
  }

  lemma UnicodeEmitsValid(s: bytes)
    requires |s| >= 2 && UnicodeStep(s).Emit?
    ensures Utf8.Valid(UnicodeStep(s).value)
  {
    var high := HexPrefix(s[2..], 4).value;
    var point := if 0xd800 <= high <= 0xdbff
                 then 0x10000 + (high - 0xd800) * 1024 + (HexPrefix(s[8..], 4).value - 0xdc00)
                 else high;
    var v := UnicodeStep(s).value;
    assert v == Utf8.EncodePoint(point);
    Utf8.EncodedPointIsOneChar(point);
    assert v[|v|..] == [];
  }

  /** Whatever the text, a string value the parser returns is valid UTF-8 (lone surrogates,
      overlong forms and out-of-range escapes never get through). */
  lemma {:induction false} ParsedStringIsValid(s: bytes)
    ensures ParseTail(s).Ok? ==> Utf8.Valid(ParseTail(s).value)
    decreases |s|
  {
    if s != [] && NextStep(s).Emit? {
      var step := NextStep(s);
      ParsedStringIsValid(s[step.length..]);
      if ParseTail(s[step.length..]).Ok? {
        StepEmitsValid(s);
        Utf8.ValidConcat(step.value, ParseTail(s[step.length..]).value);
      }
    }
  }
}
