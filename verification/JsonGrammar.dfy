/** The grammar of JSON texts (RFC 8259) and the value each of them has, and the proof that the strict parser takes
    exactly the texts of the grammar. Every production says which octets it covers. */
module JsonGrammar {

  import opened Bytes
  import opened JsonString
  import opened JsonNumber
  import opened JsonObject
  import Utf8

  // ---- Strings: section 7

  predicate HexDigitOf(c: byte, v: int) {
    (0 <= v <= 9 && c == 48 + v) || (10 <= v <= 15 && (c == 97 + v - 10 || c == 65 + v - 10))
  }

  /** Four hexadecimal digits, upper or lower case. */
  ghost predicate IsQuad(t: bytes, point: int) {
    && |t| == 4
    && exists a, b, c, d ::
         && HexDigitOf(t[0], a) && HexDigitOf(t[1], b) && HexDigitOf(t[2], c) && HexDigitOf(t[3], d)
         && point == a * 0x1000 + b * 0x100 + c * 0x10 + d
  }

  /** The two-character escapes. */
  predicate IsShort(c: byte, v: byte) {
    (c, v) in {(34, 34), (92, 92), (47, 47), (98, 8), (102, 12), (110, 10), (114, 13), (116, 9)}
  }

  predicate IsPlain(t: bytes) {
    |t| == 1 && 0x20 <= t[0] < 0x80 && t[0] != QUOTE && t[0] != BACKSLASH
  }

  predicate IsWide(t: bytes) {
    t != [] && t[0] >= 0x80 && Utf8.CharLength(t) == |t|
  }

  ghost predicate IsEscaped(t: bytes, point: int) {
    |t| == 6 && t[0] == BACKSLASH && t[1] == 117 && IsQuad(t[2..], point)
  }

  /** A surrogate pair stands for one scalar value. */
  ghost predicate IsPair(t: bytes, point: int) {
    && |t| == 12
    && exists high, low ::
         && IsEscaped(t[..6], high) && 0xd800 <= high <= 0xdbff
         && IsEscaped(t[6..], low) && 0xdc00 <= low <= 0xdfff
         && point == 0x10000 + (high - 0xd800) * 0x400 + (low - 0xdc00)
  }

  /** One character of a string and the octets it stands for. */
  ghost predicate IsChar(t: bytes, v: bytes) {
    || (IsPlain(t) && v == t)
    || (IsWide(t) && v == t)
    || (|t| == 2 && t[0] == BACKSLASH && |v| == 1 && IsShort(t[1], v[0]))
    || (exists point: nat :: IsEscaped(t, point) && point <= 0xffff && !(0xd800 <= point <= 0xdfff)
                        && v == Utf8.EncodePoint(point))
    || (exists point: nat :: IsPair(t, point) && point <= 0x10ffff && v == Utf8.EncodePoint(point))
  }

  ghost predicate IsChars(t: bytes, v: bytes)
    decreases |t|
  {
    if t == [] then v == []
    else exists n: nat, a: bytes :: 0 < n <= |t| && IsChar(t[..n], a) && a <= v && IsChars(t[n..], v[|a|..])
  }

  ghost predicate IsString(t: bytes, v: bytes) {
    |t| >= 2 && t[0] == QUOTE && t[|t| - 1] == QUOTE && IsChars(t[1..|t| - 1], v)
  }

  lemma HexMeans(c: byte, v: int)
    ensures HexDigitOf(c, v) <==> v >= 0 && HexValue(c) == Some(v)
  {
  }

  lemma PrefixMeans(s: bytes)
    requires |s| >= 4
    ensures
      var a, b, c, d := HexValue(s[0]), HexValue(s[1]), HexValue(s[2]), HexValue(s[3]);
      HexPrefix(s, 4) ==
        if a.Some? && b.Some? && c.Some? && d.Some?
        then Some(((a.value * 16 + b.value) * 16 + c.value) * 16 + d.value) else None
  {
    hide HexValue;
    assert HexPrefix(s, 0) == Some(0);
    assert HexPrefix(s, 1) == HexValue(s[0]);
    assert HexPrefix(s, 2).Some? <==> HexValue(s[0]).Some? && HexValue(s[1]).Some?;
    assert HexPrefix(s, 3).Some? <==> HexPrefix(s, 2).Some? && HexValue(s[2]).Some?;
  }

  lemma QuadMeans(s: bytes, point: int)
    ensures (point >= 0 && HexPrefix(s, 4) == Some(point)) <==> |s| >= 4 && IsQuad(s[..4], point)
  {
    hide HexPrefix, HexValue, HexDigitOf;
    if |s| >= 4 {
      var t := s[..4];
      PrefixMeans(s);
      assert t[0] == s[0] && t[1] == s[1] && t[2] == s[2] && t[3] == s[3];
      if HexPrefix(s, 4).Some? {
        HexMeans(s[0], HexValue(s[0]).value);
        HexMeans(s[1], HexValue(s[1]).value);
        HexMeans(s[2], HexValue(s[2]).value);
        HexMeans(s[3], HexValue(s[3]).value);
      }
      if IsQuad(t, point) {
        var a, b, c, d :|
          && HexDigitOf(t[0], a) && HexDigitOf(t[1], b) && HexDigitOf(t[2], c) && HexDigitOf(t[3], d)
          && point == a * 0x1000 + b * 0x100 + c * 0x10 + d;
        HexMeans(t[0], a);
        HexMeans(t[1], b);
        HexMeans(t[2], c);
        HexMeans(t[3], d);
      }
    } else {
      ShortHasNone(s);
    }
  }

  lemma ShortHasNone(s: bytes)
    requires |s| < 4
    ensures HexPrefix(s, 4).None?
  {
  }

  lemma EscapedMeans(t: bytes, point: int)
    requires |t| == 6
    ensures IsEscaped(t, point) <==>
      t[0] == BACKSLASH && t[1] == 117 && point >= 0 && HexPrefix(t[2..], 4) == Some(point)
  {
    QuadMeans(t[2..], point);
    assert t[2..][..4] == t[2..];
  }

  /** Only four digits are looked at. */
  lemma HexPrefixOf(s: bytes, t: bytes)
    requires |s| >= 4 && |t| >= 4 && s[..4] == t[..4]
    ensures HexPrefix(s, 4) == HexPrefix(t, 4)
  {
    assert forall i :: 0 <= i < 4 ==> s[i] == s[..4][i] && t[i] == t[..4][i];
    assert HexPrefix(s, 1) == HexPrefix(t, 1);
    assert HexPrefix(s, 2) == HexPrefix(t, 2);
    assert HexPrefix(s, 3) == HexPrefix(t, 3);
  }

  /** What the loop of the parser takes next is one character of the grammar. */
  lemma StepIsChar(s: bytes)
    requires s != [] && NextStep(s).Emit?
    ensures IsChar(s[..NextStep(s).length], NextStep(s).value)
  {
    var t, v := s[..NextStep(s).length], NextStep(s).value;
    if s[0] >= 0x80 {
      Utf8.RawLengthIsCharLength(s);
      WideIsWhole(s);
    } else if s[0] == BACKSLASH && s[1] == 117 {
      UnicodeIsChar(s);
    } else if s[0] == BACKSLASH {
      assert |v| == 1 && IsShort(t[1], v[0]);
    }
  }

  lemma WideIsWhole(s: bytes)
    requires s != [] && s[0] >= 0x80 && Utf8.CharLength(s) > 0
    ensures IsWide(s[..Utf8.CharLength(s)])
  {
    var t := s[..Utf8.CharLength(s)];
    assert forall i :: 0 <= i < |t| ==> t[i] == s[i];
  }

  lemma UnicodeIsChar(s: bytes)
    requires |s| >= 2 && s[0] == BACKSLASH && s[1] == 117 && UnicodeStep(s).Emit?
    ensures IsChar(s[..UnicodeStep(s).length], UnicodeStep(s).value)
  {
    var step := UnicodeStep(s);
    var high := HexPrefix(s[2..], 4).value;
    var t := s[..6];
    assert t[2..] == s[2..][..4] && t[2..][..4] == s[2..][..4];
    HexPrefixOf(s[2..], t[2..]);
    EscapedMeans(t, high);
    if step.length == 12 {
      var low, whole := HexPrefix(s[8..], 4).value, s[..12];
      var u := whole[6..];
      assert u[2..] == s[8..][..4] && u[2..][..4] == s[8..][..4] && whole[..6] == t;
      assert u[0] == s[6] && u[1] == s[7];
      HexPrefixOf(s[8..], u[2..]);
      EscapedMeans(u, low);
      assert IsPair(whole, 0x10000 + (high - 0xd800) * 0x400 + (low - 0xdc00));
    }
  }

  /** A character of the grammar is taken as that by the loop of the parser, whatever follows. */
  lemma CharIsStep(t: bytes, v: bytes, rest: bytes)
    requires IsChar(t, v)
    ensures t != [] && NextStep(t + rest) == Emit(v, |t|)
  {
    var s := t + rest;
    assert t != [] ==> s[0] == t[0];
    if IsWide(t) {
      Utf8.CharLengthOfPrefix(t, rest);
      Utf8.RawLengthIsCharLength(s);
      ConcatSplit(t, rest);
    } else if IsPlain(t) {
    } else if |t| == 2 {
      assert s[1] == t[1];
    } else if point: nat :| IsEscaped(t, point) && point <= 0xffff && !(0xd800 <= point <= 0xdfff)
                            && v == Utf8.EncodePoint(point) {
      EscapedSteps(t, point, rest);
    } else {
      var point: nat :| IsPair(t, point) && point <= 0x10ffff && v == Utf8.EncodePoint(point);
      PairSteps(t, point, rest);
    }
  }

  lemma EscapedSteps(t: bytes, point: nat, rest: bytes)
    requires IsEscaped(t, point) && point <= 0xffff && !(0xd800 <= point <= 0xdfff)
    ensures NextStep(t + rest) == Emit(Utf8.EncodePoint(point), 6)
  {
    var s := t + rest;
    EscapedMeans(t, point);
    assert s[0] == t[0] && s[1] == t[1] && s[2..][..4] == t[2..][..4];
    HexPrefixOf(s[2..], t[2..]);
  }

  /** The four digits of an escape, wherever it stands. */
  lemma EscapeAt(s: bytes, at: nat, t: bytes, point: int)
    requires at + 6 <= |s| && s[at..at + 6] == t && IsEscaped(t, point)
    ensures s[at] == BACKSLASH && s[at + 1] == 117 && point >= 0 && HexPrefix(s[at + 2..], 4) == Some(point)
  {
    hide HexPrefix, IsQuad;
    EscapedMeans(t, point);
    assert s[at] == t[0] && s[at + 1] == t[1];
    assert s[at + 2..][..4] == t[2..][..4];
    HexPrefixOf(s[at + 2..], t[2..]);
  }

  lemma PairSteps(t: bytes, point: nat, rest: bytes)
    requires IsPair(t, point) && point <= 0x10ffff
    ensures NextStep(t + rest) == Emit(Utf8.EncodePoint(point), 12)
  {
    hide IsEscaped, HexPrefix, Utf8.EncodePoint, NextStep;
    var s := t + rest;
    var high, low :|
      && IsEscaped(t[..6], high) && 0xd800 <= high <= 0xdbff
      && IsEscaped(t[6..], low) && 0xdc00 <= low <= 0xdfff
      && point == 0x10000 + (high - 0xd800) * 0x400 + (low - 0xdc00);
    EscapeAt(s, 0, t[..6], high);
    EscapeAt(s, 6, t[6..], low);
    PairStep(s, high, low);
  }

  lemma PairStep(s: bytes, high: nat, low: nat)
    requires |s| >= 12 && s[0] == BACKSLASH && s[1] == 117 && s[6] == BACKSLASH && s[7] == 117
    requires HexPrefix(s[2..], 4) == Some(high) && 0xd800 <= high <= 0xdbff
    requires HexPrefix(s[8..], 4) == Some(low) && 0xdc00 <= low <= 0xdfff
    ensures NextStep(s) == Emit(Utf8.EncodePoint(0x10000 + (high - 0xd800) * 1024 + (low - 0xdc00)), 12)
  {
    hide HexPrefix, Utf8.EncodePoint;
  }

  lemma TailTurn(s: bytes, a: bytes, n: nat, v: bytes, rest: bytes)
    requires s != [] && NextStep(s) == Emit(a, n) && ParseTail(s[n..]) == Ok(v, rest)
    ensures ParseTail(s) == Ok(a + v, rest)
  {
    hide NextStep;
  }

  lemma {:induction false} CharsAreRead(t: bytes, v: bytes, rest: bytes)
    requires IsChars(t, v)
    ensures ParseTail(t + [QUOTE] + rest) == Ok(v, rest)
    decreases |t|
  {
    hide NextStep, IsChar, IsChars, ParseTail;
    if t == [] {
      EndIsRead(rest);
      NoMore(v);
      assert t + [QUOTE] + rest == [QUOTE] + rest;
    } else {
      var n, a := FirstChar(t, v);
      CharsAreRead(t[n..], v[|a|..], rest);
      var more := t[n..] + [QUOTE] + rest;
      assert t + [QUOTE] + rest == t[..n] + more;
      CharIsStep(t[..n], a, more);
      ConcatSplit(t[..n], more);
      TailTurn(t[..n] + more, a, n, v[|a|..], rest);
      assert a + v[|a|..] == v;
    }
  }

  lemma NoMore(v: bytes)
    requires IsChars([], v)
    ensures v == []
  {
  }

  lemma FirstChar(t: bytes, v: bytes) returns (n: nat, a: bytes)
    requires t != [] && IsChars(t, v)
    ensures 0 < n <= |t| && IsChar(t[..n], a) && a <= v && IsChars(t[n..], v[|a|..])
  {
    hide IsChar;
    n, a :| 0 < n <= |t| && IsChar(t[..n], a) && a <= v && IsChars(t[n..], v[|a|..]);
  }

  lemma EndIsRead(rest: bytes)
    ensures ParseTail([QUOTE] + rest) == Ok([], rest)
  {
    ClosingStep(rest);
    ConcatSplit([QUOTE], rest);
  }

  lemma CharsFrom(t: bytes, n: nat, a: bytes, v: bytes)
    requires 0 < n <= |t| && IsChar(t[..n], a) && IsChars(t[n..], v)
    ensures IsChars(t, a + v)
  {
    hide IsChar;
    ConcatSplit(a, v);
    assert a <= a + v;
  }

  lemma {:induction false} ReadAreChars(s: bytes)
    requires ParseTail(s).Ok?
    ensures
      var r := ParseTail(s);
      var n := |s| - |r.rest| - 1;
      s[n] == QUOTE && s[n + 1..] == r.rest && IsChars(s[..n], r.value)
    decreases |s|
  {
    hide NextStep, IsChar, IsChars;
    var r := ParseTail(s);
    match NextStep(s)
    case Close =>
      CloseIsQuote(s);
      NoChars(s[..0]);
    case Emit(value, length) =>
      ReadAreChars(s[length..]);
      StepIsChar(s);
      var n, rest := |s| - |r.rest| - 1, ParseTail(s[length..]);
      assert s[..n][..length] == s[..length] && s[..n][length..] == s[length..][..n - length];
      CharsFrom(s[..n], length, value, rest.value);
  }

  lemma NoChars(t: bytes)
    requires t == []
    ensures IsChars(t, [])
  {
  }

  lemma CloseIsQuote(s: bytes)
    requires s != [] && NextStep(s) == Close
    ensures s[0] == QUOTE
  {
  }

  /** The parser reads a string from some octets exactly when they begin with a string of the grammar. */
  lemma StringMeans(t: bytes, v: bytes, rest: bytes)
    ensures ParseString(t + rest) == Ok(v, rest) <==> IsString(t, v)
  {
    hide ParseTail, IsChars;
    var s := t + rest;
    if IsString(t, v) {
      var inner := t[1..|t| - 1];
      CharsAreRead(inner, v, rest);
      assert s[1..] == inner + [QUOTE] + rest;
    }
    if ParseString(s) == Ok(v, rest) {
      ReadAreChars(s[1..]);
      var n := |s[1..]| - |rest| - 1;
      assert |t| == n + 2;
      assert s[1..][n] == t[|t| - 1] && s[1..][..n] == t[1..|t| - 1];
    }
  }

  // ---- Values: sections 2 to 6

  predicate IsSpaces(t: bytes) {
    forall i :: 0 <= i < |t| ==> t[i] in {0x20, 0x09, 0x0a, 0x0d}
  }

  predicate IsLiteral(t: bytes) {
    t == Ascii("true") || t == Ascii("false") || t == Ascii("null")
  }

  /** A value, nested less than 64 deep: a string or a number as such, anything else without its content. */
  ghost predicate IsValue(t: bytes, f: Field, depth: nat)
    decreases |t|, 2
  {
    && depth < 64
    && match f
       case Text(v) => IsString(t, v)
       case Number(n) => n == t && IsNumber(t)
       case Other => IsLiteral(t) || IsArray(t, depth) || exists fields: Fields :: IsObject(t, fields, depth)
  }

  ghost predicate IsArray(t: bytes, depth: nat)
    decreases |t|, 1
  {
    || (exists w: bytes :: IsSpaces(w) && t == [0x5b] + w + [0x5d])
    || (exists w: bytes, e: bytes :: t == [0x5b] + w + e + [0x5d] && IsSpaces(w) && IsElements(e, depth))
  }

  /** Values with commas between them, and white space behind each and behind each comma. */
  ghost predicate IsElements(t: bytes, depth: nat)
    decreases |t|, 4
  {
    exists v: bytes, f: Field, w: bytes, more: bytes :: ElementsAs(t, depth, v, f, w, more)
  }

  ghost predicate ElementsAs(t: bytes, depth: nat, v: bytes, f: Field, w: bytes, more: bytes)
    decreases |t|, 3
  {
    v != [] && t == v + w + more && IsValue(v, f, depth + 1) && IsSpaces(w) && ElementsTail(more, depth)
  }

  ghost predicate ElementsTail(t: bytes, depth: nat)
    decreases |t|, 5
  {
    t == [] || exists w: bytes, e: bytes :: t == [0x2c] + w + e && IsSpaces(w) && IsElements(e, depth)
  }

  ghost predicate IsObject(t: bytes, fields: Fields, depth: nat)
    decreases |t|, 1
  {
    && depth < 64
    && (|| (fields == map[] && exists w: bytes :: IsSpaces(w) && t == [0x7b] + w + [0x7d])
        || (exists w: bytes, e: bytes ::
              t == [0x7b] + w + e + [0x7d] && IsSpaces(w) && IsMembers(e, map[], fields, depth)))
  }

  /** Members with commas between them, each under a key that is new; `seen` are the fields before them. */
  ghost predicate IsMembers(t: bytes, seen: Fields, fields: Fields, depth: nat)
    decreases |t|, 8
  {
    exists m: bytes, key: bytes, f: Field, w: bytes, more: bytes ::
      MembersAs(t, seen, fields, depth, m, key, f, w, more)
  }

  ghost predicate MembersAs(t: bytes, seen: Fields, fields: Fields, depth: nat, m: bytes, key: bytes, f: Field,
                            w: bytes, more: bytes)
    decreases |t|, 7
  {
    && m != [] && t == m + w + more && IsMember(m, key, f, depth) && IsSpaces(w) && key !in seen
    && MembersTail(more, seen[key := f], fields, depth)
  }

  ghost predicate MembersTail(t: bytes, seen: Fields, fields: Fields, depth: nat)
    decreases |t|, 9
  {
    || (t == [] && fields == seen)
    || (exists w: bytes, e: bytes :: t == [0x2c] + w + e && IsSpaces(w) && IsMembers(e, seen, fields, depth))
  }

  /** A key, a colon and a value, with white space around the colon. */
  ghost predicate IsMember(t: bytes, key: bytes, f: Field, depth: nat)
    decreases |t|, 3
  {
    exists k: bytes, a: bytes, b: bytes, v: bytes :: MemberAs(t, key, f, depth, k, a, b, v)
  }

  ghost predicate MemberAs(t: bytes, key: bytes, f: Field, depth: nat, k: bytes, a: bytes, b: bytes, v: bytes)
    decreases |t|, 2
  {
    && k != [] && t == k + a + [0x3a] + b + v && IsString(k, key) && IsSpaces(a) && IsSpaces(b)
    && IsValue(v, f, depth + 1)
  }

  /** One object with white space around it. */
  ghost predicate IsDocument(t: bytes, fields: Fields) {
    exists a: bytes, o: bytes, b: bytes ::
      t == a + o + b && IsSpaces(a) && IsObject(o, fields, 0) && IsSpaces(b)
  }

  // ---- What the grammar describes is read

  lemma {:induction false} SpacesAreSkipped(t: bytes, rest: bytes)
    requires IsSpaces(t) && (rest == [] || !IsSpace(rest[0]))
    ensures SkipSpace(t + rest) == rest
  {
    if t == [] {
      assert t + rest == rest;
    } else {
      assert (t + rest)[0] == t[0] && (t + rest)[1..] == t[1..] + rest;
      SpacesAreSkipped(t[1..], rest);
    }
  }

  /** What may follow a value. */
  predicate Follows(rest: bytes) {
    rest != [] && rest[0] in {0x20, 0x09, 0x0a, 0x0d, 0x2c, 0x5d, 0x7d}
  }

  /** A separator or a closing bracket. */
  predicate Ends(rest: bytes) {
    rest != [] && rest[0] in {0x2c, 0x5d, 0x7d}
  }

  lemma SpacesThen(w: bytes, rest: bytes)
    requires IsSpaces(w) && Ends(rest)
    ensures Follows(w + rest) && SkipSpace(w + rest) == rest
  {
    assert (w + rest)[0] == if w == [] then rest[0] else w[0];
    SpacesAreSkipped(w, rest);
  }

  lemma StringStarts(t: bytes, v: bytes)
    requires IsString(t, v)
    ensures t != [] && t[0] == QUOTE
  {
  }

  lemma {:induction false} LiteralIsRead(t: bytes, literal: bytes, rest: bytes)
    requires t == literal + rest
    ensures SkipLiteral(t, literal) == Some(rest)
    decreases |literal|
  {
    if literal == [] {
      assert t == rest;
    } else {
      assert t[0] == literal[0] && t[1..] == literal[1..] + rest;
      LiteralIsRead(t[1..], literal[1..], rest);
    }
  }

  lemma LiteralStarts(t: bytes, rest: bytes)
    requires IsLiteral(t)
    ensures |t| >= 4 && (t[0] == 116 || t[0] == 102 || t[0] == 110)
    ensures SkipLiteral(t + rest, LiteralFor(t[0])) == Some(rest)
  {
    assert Ascii("true") == [116, 114, 117, 101] && Ascii("false") == [102, 97, 108, 115, 101];
    assert Ascii("null") == [110, 117, 108, 108];
    LiteralIsRead(t + rest, t, rest);
  }

  /** How a value begins. */
  predicate Starts(t: bytes) {
    t != [] && !IsSpace(t[0]) && t[0] != 0x5d && t[0] != 0x7d && t[0] != 0x2c
  }

  lemma {:induction false} ValueIsRead(t: bytes, f: Field, depth: nat, rest: bytes)
    requires IsValue(t, f, depth) && Follows(rest)
    ensures ParseValue(t + rest, depth) == Ok(f, rest) && Starts(t)
    decreases |t|, 2
  {
    hide ParseArray, ParseObject, ParseString, SkipNumber, SkipLiteral;
    hide IsString, IsNumber, IsLiteral, IsArray, IsObject;
    var s := t + rest;
    match f
    case Text(v) =>
      StringStarts(t, v);
      StringMeans(t, v, rest);
      assert s[0] == t[0];
    case Number(n) =>
      NumberScans(t, rest);
      assert s[0] == t[0];
      ConcatSplit(t, rest);
    case Other =>
      if IsLiteral(t) {
        LiteralStarts(t, rest);
        assert s[0] == t[0];
      } else if IsArray(t, depth) {
        ArrayIsRead(t, depth, rest);
        assert s[0] == t[0];
      } else {
        var fields: Fields :| IsObject(t, fields, depth);
        ObjectIsRead(t, fields, depth, rest);
        assert s[0] == t[0];
      }
  }

  /** Behind an opening bracket and white space. */
  lemma Opened(open: byte, w: bytes, inner: bytes)
    requires IsSpaces(w) && inner != [] && !IsSpace(inner[0])
    ensures
      var s := [open] + w + inner;
      s[0] == open && SkipSpace(s[1..]) == inner
  {
    assert ([open] + w + inner)[1..] == w + inner;
    SpacesAreSkipped(w, inner);
  }

  lemma {:induction false} ArrayIsRead(t: bytes, depth: nat, rest: bytes)
    requires IsArray(t, depth) && depth < 64
    ensures ParseArray(t + rest, depth) == Some(rest) && t != [] && t[0] == OPEN_BRACKET
    decreases |t|, 1
  {
    hide Elements, IsElements, IsSpaces, SkipSpace;
    if w: bytes :| IsSpaces(w) && t == [0x5b] + w + [0x5d] {
      var inner := [CLOSE_BRACKET] + rest;
      assert t + rest == [OPEN_BRACKET] + w + inner;
      Opened(OPEN_BRACKET, w, inner);
      ConcatSplit([CLOSE_BRACKET], rest);
    } else {
      var w: bytes, e: bytes :| t == [0x5b] + w + e + [0x5d] && IsSpaces(w) && IsElements(e, depth);
      ElementsAreRead(e, depth, rest);
      var inner := e + [CLOSE_BRACKET] + rest;
      assert t + rest == [OPEN_BRACKET] + w + inner && inner[0] == e[0];
      Opened(OPEN_BRACKET, w, inner);
    }
  }

  lemma ElementsUnfold(s: bytes, depth: nat, u: bytes)
    requires ParseValue(s, depth + 1).Ok? && SkipSpace(ParseValue(s, depth + 1).rest) == u
    ensures Elements(s, depth) ==
      if StartsWith(u, CLOSE_BRACKET) then Some(u[1..])
      else if StartsWith(u, COMMA) then Elements(SkipSpace(u[1..]), depth) else None
  {
    hide ParseValue, SkipSpace;
  }

  lemma {:induction false} ElementsAreRead(t: bytes, depth: nat, rest: bytes)
    requires IsElements(t, depth)
    ensures Elements(t + [CLOSE_BRACKET] + rest, depth) == Some(rest) && Starts(t)
    decreases |t|, 3
  {
    hide ParseValue, Elements, IsValue, IsSpaces, SkipSpace, ElementsTail, Follows;
    var v: bytes, f: Field, w: bytes, more: bytes :| ElementsAs(t, depth, v, f, w, more);
    var behind := more + ([CLOSE_BRACKET] + rest);
    ElementsBehind(more, depth, rest);
    SpacesThen(w, behind);
    ValueIsRead(v, f, depth + 1, w + behind);
    assert t[0] == v[0];
    assert t + [CLOSE_BRACKET] + rest == v + (w + behind);
    ElementsUnfold(v + (w + behind), depth, behind);
    if more == [] {
      assert behind == [CLOSE_BRACKET] + rest;
      ConcatSplit([CLOSE_BRACKET], rest);
    } else {
      MoreElementsAreRead(more, depth, rest);
    }
  }

  lemma ElementsBehind(more: bytes, depth: nat, rest: bytes)
    requires ElementsTail(more, depth)
    ensures more + ([CLOSE_BRACKET] + rest) != []
    ensures (more + ([CLOSE_BRACKET] + rest))[0] == if more == [] then CLOSE_BRACKET else COMMA
    ensures Ends(more + ([CLOSE_BRACKET] + rest))
  {
    hide IsElements, IsSpaces;
  }

  lemma {:induction false} MoreElementsAreRead(t: bytes, depth: nat, rest: bytes)
    requires ElementsTail(t, depth) && t != []
    ensures Elements(SkipSpace((t + ([CLOSE_BRACKET] + rest))[1..]), depth) == Some(rest)
    decreases |t|, 2
  {
    hide ParseValue, Elements, IsElements, IsSpaces, SkipSpace;
    var w: bytes, e: bytes :| t == [0x2c] + w + e && IsSpaces(w) && IsElements(e, depth);
    ElementsAreRead(e, depth, rest);
    var inner := e + [CLOSE_BRACKET] + rest;
    assert t + ([CLOSE_BRACKET] + rest) == [COMMA] + w + inner && inner[0] == e[0];
    Opened(COMMA, w, inner);
  }

  lemma {:induction false} ObjectIsRead(t: bytes, fields: Fields, depth: nat, rest: bytes)
    requires IsObject(t, fields, depth)
    ensures ParseObject(t + rest, depth) == Ok(fields, rest) && t != [] && t[0] == OPEN_BRACE
    decreases |t|, 1
  {
    hide Members, IsMembers, IsSpaces, SkipSpace;
    if fields == map[] && exists w: bytes :: IsSpaces(w) && t == [0x7b] + w + [0x7d] {
      var w: bytes :| IsSpaces(w) && t == [0x7b] + w + [0x7d];
      var inner := [CLOSE_BRACE] + rest;
      assert t + rest == [OPEN_BRACE] + w + inner;
      Opened(OPEN_BRACE, w, inner);
      ConcatSplit([CLOSE_BRACE], rest);
    } else {
      var w: bytes, e: bytes :| t == [0x7b] + w + e + [0x7d] && IsSpaces(w) && IsMembers(e, map[], fields, depth);
      MembersAreRead(e, map[], fields, depth, rest);
      var inner := e + [CLOSE_BRACE] + rest;
      assert t + rest == [OPEN_BRACE] + w + inner && inner[0] == e[0];
      Opened(OPEN_BRACE, w, inner);
    }
  }

  lemma MembersUnfold(s: bytes, depth: nat, seen: Fields, key: bytes, t: bytes, f: Field, u: bytes)
    requires ParseString(s).Ok? && ParseString(s).value == key && key !in seen
    requires SkipSpace(ParseString(s).rest) == [COLON] + t
    requires ParseValue(SkipSpace(t), depth + 1).Ok? && ParseValue(SkipSpace(t), depth + 1).value == f
    requires SkipSpace(ParseValue(SkipSpace(t), depth + 1).rest) == u
    ensures Members(s, depth, seen) ==
      if StartsWith(u, CLOSE_BRACE) then Ok(seen[key := f], u[1..])
      else if StartsWith(u, COMMA) then Members(SkipSpace(u[1..]), depth, seen[key := f]) else Fail
  {
    hide ParseValue, ParseString, SkipSpace;
    ConcatSplit([COLON], t);
  }

  lemma {:induction false} MembersAreRead(t: bytes, seen: Fields, fields: Fields, depth: nat, rest: bytes)
    requires IsMembers(t, seen, fields, depth)
    ensures Members(t + [CLOSE_BRACE] + rest, depth, seen) == Ok(fields, rest) && t != [] && t[0] == QUOTE
    decreases |t|, 4
  {
    hide ParseValue, Members, IsMember, IsSpaces, SkipSpace, MembersTail, Follows;
    var m: bytes, key: bytes, f: Field, w: bytes, more: bytes :|
      MembersAs(t, seen, fields, depth, m, key, f, w, more);
    var behind := more + ([CLOSE_BRACE] + rest);
    MembersBehind(more, seen[key := f], fields, depth, rest);
    SpacesThen(w, behind);
    MemberIsRead(m, key, f, depth, seen, w + behind, behind);
    assert t[0] == m[0];
    assert t + [CLOSE_BRACE] + rest == m + (w + behind);
    if more == [] {
      assert behind == [CLOSE_BRACE] + rest;
      ConcatSplit([CLOSE_BRACE], rest);
      NothingMore(seen[key := f], fields, depth);
    } else {
      MoreMembersAreRead(more, seen[key := f], fields, depth, rest);
    }
  }

  lemma NothingMore(seen: Fields, fields: Fields, depth: nat)
    requires MembersTail([], seen, fields, depth)
    ensures fields == seen
  {
    hide IsMembers, IsSpaces;
  }

  lemma MembersBehind(more: bytes, seen: Fields, fields: Fields, depth: nat, rest: bytes)
    requires MembersTail(more, seen, fields, depth)
    ensures more + ([CLOSE_BRACE] + rest) != []
    ensures (more + ([CLOSE_BRACE] + rest))[0] == if more == [] then CLOSE_BRACE else COMMA
    ensures Ends(more + ([CLOSE_BRACE] + rest))
  {
    hide IsMembers, IsSpaces;
  }

  lemma {:induction false} MoreMembersAreRead(t: bytes, seen: Fields, fields: Fields, depth: nat, rest: bytes)
    requires MembersTail(t, seen, fields, depth) && t != []
    ensures Members(SkipSpace((t + ([CLOSE_BRACE] + rest))[1..]), depth, seen) == Ok(fields, rest)
    decreases |t|, 2
  {
    hide ParseValue, Members, IsMembers, IsSpaces, SkipSpace;
    var w: bytes, e: bytes :| t == [0x2c] + w + e && IsSpaces(w) && IsMembers(e, seen, fields, depth);
    MembersAreRead(e, seen, fields, depth, rest);
    var inner := e + [CLOSE_BRACE] + rest;
    assert t + ([CLOSE_BRACE] + rest) == [COMMA] + w + inner && inner[0] == e[0];
    Opened(COMMA, w, inner);
  }

  /** What the member loop makes of one member of the grammar. */
  lemma {:induction false} MemberIsRead(t: bytes, key: bytes, f: Field, depth: nat, seen: Fields, rest: bytes, u: bytes)
    requires IsMember(t, key, f, depth) && key !in seen && Follows(rest) && SkipSpace(rest) == u
    ensures t != [] && t[0] == QUOTE
    ensures Members(t + rest, depth, seen) ==
      if StartsWith(u, CLOSE_BRACE) then Ok(seen[key := f], u[1..])
      else if StartsWith(u, COMMA) then Members(SkipSpace(u[1..]), depth, seen[key := f]) else Fail
    decreases |t|, 3
  {
    hide ParseValue, ParseString, Members, IsValue, IsString, IsSpaces, SkipSpace, Follows;
    var k: bytes, a: bytes, b: bytes, v: bytes :| MemberAs(t, key, f, depth, k, a, b, v);
    var value := v + rest;
    var behind := b + value;
    var colon := [COLON] + behind;
    StringStarts(k, key);
    StringMeans(k, key, a + colon);
    ValueIsRead(v, f, depth + 1, rest);
    assert t[0] == k[0] && value[0] == v[0];
    assert t + rest == k + (a + colon);
    SpacesAreSkipped(a, colon);
    SpacesAreSkipped(b, value);
    MembersUnfold(t + rest, depth, seen, key, behind, f, u);
  }

  // ---- What is read is in the grammar

  lemma {:induction false} SkippedAreSpaces(s: bytes) returns (w: bytes)
    ensures s == w + SkipSpace(s) && IsSpaces(w)
  {
    if s != [] && IsSpace(s[0]) {
      w := SkippedAreSpaces(s[1..]);
      assert s == [s[0]] + s[1..] == [s[0]] + w + SkipSpace(s);
      w := [s[0]] + w;
    } else {
      w := [];
      assert s == [] + s;
    }
  }

  lemma {:induction false} SkippedIsLiteral(s: bytes, literal: bytes)
    requires SkipLiteral(s, literal).Some?
    ensures s == literal + SkipLiteral(s, literal).value
    decreases |literal|
  {
    if literal == [] {
      assert s == [] + s;
    } else {
      SkippedIsLiteral(s[1..], literal[1..]);
      assert s == [s[0]] + s[1..] && literal == [literal[0]] + literal[1..];
    }
  }

  lemma LiteralsAre(b: byte)
    requires b == 116 || b == 102 || b == 110
    ensures IsLiteral(LiteralFor(b))
  {
    assert Ascii("true") == [116, 114, 117, 101] && Ascii("false") == [102, 97, 108, 115, 101];
    assert Ascii("null") == [110, 117, 108, 108];
  }

  lemma ReadIsString(s: bytes) returns (t: bytes)
    requires ParseString(s).Ok?
    ensures s == t + ParseString(s).rest && IsString(t, ParseString(s).value)
  {
    hide ParseTail, IsString;
    var r := ParseString(s);
    assert s != [];
    ReadAreChars(s[1..]);
    var n := |s| - |r.rest|;
    t := s[..n];
    assert s[1..][n - 1..] == s[n..] && s == s[..n] + s[n..];
    StringMeans(t, r.value, r.rest);
  }

  lemma ReadIsNumber(s: bytes) returns (t: bytes)
    requires SkipNumber(s).Some?
    ensures s == t + SkipNumber(s).value && IsNumber(t)
    ensures t == s[..|s| - |SkipNumber(s).value|]
  {
    hide SkipNumber, IsNumber;
    ScannedIsNumber(s);
    var n := |s| - |SkipNumber(s).value|;
    t := s[..n];
  }

  lemma {:induction false} ReadIsValue(s: bytes, depth: nat) returns (t: bytes)
    requires ParseValue(s, depth).Ok?
    ensures s == t + ParseValue(s, depth).rest && IsValue(t, ParseValue(s, depth).value, depth)
    decreases |s|, 2
  {
    hide ParseArray, ParseObject, ParseString, SkipNumber, SkipLiteral;
    hide IsString, IsNumber, IsLiteral, IsArray, IsObject;
    if s[0] == OPEN_BRACE {
      t := ReadIsObject(s, depth);
    } else if s[0] == OPEN_BRACKET {
      t := ReadIsArray(s, depth);
    } else if s[0] == QUOTE {
      t := ReadIsString(s);
    } else if s[0] == 116 || s[0] == 102 || s[0] == 110 {
      t := LiteralFor(s[0]);
      SkippedIsLiteral(s, t);
      LiteralsAre(s[0]);
    } else {
      t := ReadIsNumber(s);
    }
  }

  lemma {:induction false} ReadIsArray(s: bytes, depth: nat) returns (t: bytes)
    requires ParseArray(s, depth).Some?
    ensures s == t + ParseArray(s, depth).value && IsArray(t, depth)
    decreases |s|, 1
  {
    hide Elements, IsElements, IsSpaces, SkipSpace;
    var w := SkippedAreSpaces(s[1..]);
    var u := SkipSpace(s[1..]);
    assert s == [OPEN_BRACKET] + s[1..] == [OPEN_BRACKET] + w + u;
    if StartsWith(u, CLOSE_BRACKET) {
      t := [0x5b] + w + [0x5d];
      assert u == [CLOSE_BRACKET] + u[1..];
    } else {
      var e := ReadAreElements(u, depth);
      t := [0x5b] + w + e + [0x5d];
      assert s == t + Elements(u, depth).value;
    }
  }

  lemma {:induction false} ReadAreElements(s: bytes, depth: nat) returns (t: bytes)
    requires Elements(s, depth).Some?
    ensures s == t + [CLOSE_BRACKET] + Elements(s, depth).value && IsElements(t, depth)
    decreases |s|, 3
  {
    hide ParseValue, IsElements, ElementsTail, IsValue, IsSpaces, SkipSpace;
    var r := ParseValue(s, depth + 1);
    var v := ReadIsValue(s, depth + 1);
    var w := SkippedAreSpaces(r.rest);
    var u := SkipSpace(r.rest);
    ElementsUnfold(s, depth, u);
    assert u == [u[0]] + u[1..];
    if StartsWith(u, CLOSE_BRACKET) {
      t := v + w + [];
      LastElement(t, depth, v, r.value, w);
      assert s == t + [CLOSE_BRACKET] + u[1..];
    } else {
      var x := SkippedAreSpaces(u[1..]);
      var next := SkipSpace(u[1..]);
      var e := ReadAreElements(next, depth);
      t := v + w + ([0x2c] + x + e);
      OneMoreElement(t, depth, v, r.value, w, x, e);
      assert s == t + [CLOSE_BRACKET] + Elements(next, depth).value;
    }
  }

  lemma LastElement(t: bytes, depth: nat, v: bytes, f: Field, w: bytes)
    requires v != [] && t == v + w + [] && IsValue(v, f, depth + 1) && IsSpaces(w)
    ensures IsElements(t, depth)
  {
    hide IsValue, IsSpaces;
    assert ElementsAs(t, depth, v, f, w, []);
  }

  lemma OneMoreElement(t: bytes, depth: nat, v: bytes, f: Field, w: bytes, x: bytes, e: bytes)
    requires v != [] && t == v + w + ([0x2c] + x + e) && IsValue(v, f, depth + 1) && IsSpaces(w)
    requires IsSpaces(x) && IsElements(e, depth)
    ensures IsElements(t, depth)
  {
    hide IsValue, IsSpaces;
    assert ElementsTail([0x2c] + x + e, depth);
    assert ElementsAs(t, depth, v, f, w, [0x2c] + x + e);
  }

  lemma {:induction false} ReadIsObject(s: bytes, depth: nat) returns (t: bytes)
    requires ParseObject(s, depth).Ok?
    ensures s == t + ParseObject(s, depth).rest && IsObject(t, ParseObject(s, depth).value, depth)
    decreases |s|, 1
  {
    hide Members, IsMembers, IsSpaces, SkipSpace;
    var w := SkippedAreSpaces(s[1..]);
    var u := SkipSpace(s[1..]);
    assert s == [OPEN_BRACE] + s[1..] == [OPEN_BRACE] + w + u;
    if StartsWith(u, CLOSE_BRACE) {
      t := [0x7b] + w + [0x7d];
      assert u == [CLOSE_BRACE] + u[1..];
    } else {
      var e := ReadAreMembers(u, depth, map[]);
      t := [0x7b] + w + e + [0x7d];
      assert s == t + Members(u, depth, map[]).rest;
    }
  }

  /** One turn of the member loop that did not fail. */
  lemma MembersTurn(s: bytes, depth: nat, seen: Fields)
    requires Members(s, depth, seen).Ok?
    ensures
      var key := ParseString(s);
      && key.Ok? && key.value !in seen && |key.rest| < |s|
      && var t := SkipSpace(key.rest);
         && StartsWith(t, COLON) && |SkipSpace(t[1..])| < |s|
         && var v := ParseValue(SkipSpace(t[1..]), depth + 1);
            && v.Ok?
            && var u := SkipSpace(v.rest);
               && u != [] && |SkipSpace(u[1..])| < |s|
               && var fields := seen[key.value := v.value];
                  || (u[0] == CLOSE_BRACE && Members(s, depth, seen) == Ok(fields, u[1..]))
                  || (u[0] == COMMA && Members(s, depth, seen) == Members(SkipSpace(u[1..]), depth, fields))
  {
    hide ParseValue, ParseString, SkipSpace;
  }

  lemma {:induction false} ReadAreMembers(s: bytes, depth: nat, seen: Fields) returns (t: bytes)
    requires Members(s, depth, seen).Ok?
    ensures s == t + [CLOSE_BRACE] + Members(s, depth, seen).rest
    ensures IsMembers(t, seen, Members(s, depth, seen).value, depth)
    decreases |s|, 3
  {
    hide ParseValue, ParseString, Members, IsMembers, IsMember, IsSpaces, SkipSpace;
    var fields := Members(s, depth, seen).value;
    var m, key, f, after := ReadIsMember(s, depth, seen);
    var w := SkippedAreSpaces(after);
    var u := SkipSpace(after);
    assert u == [u[0]] + u[1..];
    if u[0] == CLOSE_BRACE {
      t := m + w + [];
      LastMember(t, seen, depth, m, key, f, w);
      assert s == t + [CLOSE_BRACE] + u[1..];
    } else {
      var x := SkippedAreSpaces(u[1..]);
      var next := SkipSpace(u[1..]);
      var e := ReadAreMembers(next, depth, seen[key := f]);
      t := m + w + ([0x2c] + x + e);
      OneMoreMember(t, seen, fields, depth, m, key, f, w, x, e);
      assert s == t + [CLOSE_BRACE] + Members(next, depth, seen[key := f]).rest;
    }
  }

  lemma {:induction false} ReadIsMember(s: bytes, depth: nat, seen: Fields)
    returns (t: bytes, key: bytes, f: Field, rest: bytes)
    requires Members(s, depth, seen).Ok?
    ensures s == t + rest && t != [] && IsMember(t, key, f, depth) && key !in seen
    ensures
      var u := SkipSpace(rest);
      && u != [] && |SkipSpace(u[1..])| < |s|
      && (|| (u[0] == CLOSE_BRACE && Members(s, depth, seen) == Ok(seen[key := f], u[1..]))
          || (u[0] == COMMA && Members(s, depth, seen) == Members(SkipSpace(u[1..]), depth, seen[key := f])))
    decreases |s|, 2
  {
    hide ParseValue, ParseString, Members, IsMember, IsSpaces, SkipSpace, IsString, IsValue;
    MembersTurn(s, depth, seen);
    var r := ParseString(s);
    key := r.value;
    var k := ReadIsString(s);
    var a := SkippedAreSpaces(r.rest);
    var colon := SkipSpace(r.rest);
    var b := SkippedAreSpaces(colon[1..]);
    var value := SkipSpace(colon[1..]);
    var v := ReadIsValue(value, depth + 1);
    f, rest := ParseValue(value, depth + 1).value, ParseValue(value, depth + 1).rest;
    assert colon == [COLON] + colon[1..];
    t := k + a + [0x3a] + b + v;
    MemberFrom(t, key, f, depth, k, a, b, v);
  }

  lemma MemberFrom(t: bytes, key: bytes, f: Field, depth: nat, k: bytes, a: bytes, b: bytes, v: bytes)
    requires k != [] && t == k + a + [0x3a] + b + v && IsString(k, key) && IsSpaces(a) && IsSpaces(b)
    requires IsValue(v, f, depth + 1)
    ensures IsMember(t, key, f, depth)
  {
    hide IsValue, IsSpaces, IsString;
    assert MemberAs(t, key, f, depth, k, a, b, v);
  }

  lemma LastMember(t: bytes, seen: Fields, depth: nat, m: bytes, key: bytes, f: Field, w: bytes)
    requires m != [] && t == m + w + [] && IsMember(m, key, f, depth) && IsSpaces(w) && key !in seen
    ensures IsMembers(t, seen, seen[key := f], depth)
  {
    hide IsMember, IsSpaces;
    assert MembersAs(t, seen, seen[key := f], depth, m, key, f, w, []);
  }

  lemma OneMoreMember(t: bytes, seen: Fields, fields: Fields, depth: nat, m: bytes, key: bytes, f: Field, w: bytes,
                      x: bytes, e: bytes)
    requires m != [] && t == m + w + ([0x2c] + x + e) && IsMember(m, key, f, depth) && IsSpaces(w) && key !in seen
    requires IsSpaces(x) && IsMembers(e, seen[key := f], fields, depth)
    ensures IsMembers(t, seen, fields, depth)
  {
    hide IsMember, IsSpaces;
    assert MembersTail([0x2c] + x + e, seen[key := f], fields, depth);
    assert MembersAs(t, seen, fields, depth, m, key, f, w, [0x2c] + x + e);
  }

  // ---- The parser and the grammar

  /** A text is read as some fields exactly when the grammar gives it those fields: white space anywhere between
      tokens, values nested less than 64 deep, no key twice in one object and nothing behind the object. */
  lemma DocumentMeans(t: bytes, fields: Fields)
    ensures ParseDocument(t) == Some(fields) <==> IsDocument(t, fields)
  {
    hide ParseObject, IsObject, IsSpaces, SkipSpace;
    if IsDocument(t, fields) {
      var a: bytes, o: bytes, b: bytes :| t == a + o + b && IsSpaces(a) && IsObject(o, fields, 0) && IsSpaces(b);
      ObjectIsRead(o, fields, 0, b);
      assert t == a + (o + b) && (o + b)[0] == o[0];
      SpacesAreSkipped(a, o + b);
      assert b == b + [];
      SpacesAreSkipped(b, []);
    }
    if ParseDocument(t) == Some(fields) {
      var a := SkippedAreSpaces(t);
      var o := ReadIsObject(SkipSpace(t), 0);
      var b := ParseObject(SkipSpace(t), 0).rest;
      var x := SkippedAreSpaces(b);
      assert b == x && t == a + o + b;
    }
  }
}
