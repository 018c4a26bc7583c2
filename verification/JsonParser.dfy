/** The journal's JsonObjectParser: a cursor over its input. Each method reads exactly what the
    corresponding function of the unread input says, and leaves the cursor where it says. */
module JsonParser {

  import opened Bytes
  import opened JsonString
  import opened JsonNumber
  import opened JsonObject
  import Utf8

  function Prefixed(value: bytes, r: Parsed<bytes>): Parsed<bytes> {
    if r.Fail? then Fail else Ok(value + r.value, r.rest)
  }

  lemma PrefixedEmpty(r: Parsed<bytes>)
    ensures Prefixed([], r) == r
  {
    assert r.Ok? ==> [] + r.value == r.value;
  }

  lemma PrefixedTwice(a: bytes, b: bytes, r: Parsed<bytes>)
    ensures Prefixed(a, Prefixed(b, r)) == Prefixed(a + b, r)
  {
    if r.Ok? {
      ConcatIsAssociative(a, b, r.value);
    }
  }

  class JsonObjectParser {
    const input: bytes
    var pos: nat

    ghost predicate Valid()
      reads this
    {
      pos <= |input|
    }

    ghost function Unread(): bytes
      requires Valid()
      reads this
    {
      input[pos..]
    }

    constructor (input: bytes)
      ensures Valid() && this.input == input && Unread() == input
    {
      this.input := input;
      pos := 0;
    }

    method SkipWhitespace()
      requires Valid()
      modifies this
      ensures Valid() && pos >= old(pos) && Unread() == SkipSpace(old(Unread()))
    {
      while pos < |input| && IsSpace(input[pos])
        invariant Valid() && pos >= old(pos)
        invariant SkipSpace(Unread()) == SkipSpace(old(Unread()))
      {
        assert input[pos..][1..] == input[pos + 1..];
        pos := pos + 1;
      }
    }

    method Consume(value: byte) returns (ok: bool)
      requires Valid()
      modifies this
      ensures Valid()
      ensures ok == StartsWith(old(Unread()), value)
      ensures Unread() == if ok then old(Unread())[1..] else old(Unread())
      ensures pos == if ok then old(pos) + 1 else old(pos)
    {
      if pos >= |input| || input[pos] != value {
        return false;
      }
      pos := pos + 1;
      return true;
    }

    method ConsumeLiteral(literal: bytes) returns (ok: bool)
      requires Valid()
      modifies this
      ensures Valid() && pos >= old(pos)
      ensures ok == SkipLiteral(old(Unread()), literal).Some?
      ensures ok ==> Unread() == SkipLiteral(old(Unread()), literal).value
    {
      var cursor := 0;
      while cursor < |literal|
        invariant Valid() && pos >= old(pos) && 0 <= cursor <= |literal|
        invariant SkipLiteral(old(Unread()), literal) == SkipLiteral(Unread(), literal[cursor..])
      {
        var next := Consume(literal[cursor]);
        if !next {
          return false;
        }
        cursor := cursor + 1;
      }
      return true;
    }

    method ParseHexQuad() returns (ok: bool, value: nat)
      requires Valid()
      modifies this
      ensures Valid() && pos >= old(pos)
      ensures ok == HexPrefix(old(Unread()), 4).Some?
      ensures ok ==> value == HexPrefix(old(Unread()), 4).value && pos == old(pos) + 4
    {
      ghost var start := Unread();
      value := 0;
      if pos + 4 > |input| {
        return false, 0;
      }
      var i := 0;
      while i < 4
        invariant 0 <= i <= 4 && pos == old(pos) + i && Valid() && |start| >= 4
        invariant HexPrefix(start, i) == Some(value)
      {
        var digit := HexValue(input[pos]);
        assert input[pos] == start[i];
        pos := pos + 1;
        if digit.None? {
          HexPrefixFails(start, i + 1, 4);
          return false, 0;
        }
        value := value * 16 + digit.value;
        i := i + 1;
      }
      return true, value;
    }

    method ParseRawUtf8() returns (ok: bool, value: bytes)
      requires Valid() && pos < |input|
      modifies this
      ensures Valid()
      ensures ok == (Utf8.RawLength(old(Unread())) > 0)
      ensures ok ==> value == old(Unread())[..Utf8.RawLength(old(Unread()))]
      ensures pos == old(pos) + if ok then Utf8.RawLength(old(Unread())) else 0
    {
      ghost var start := Unread();
      value := [];
      var length := Utf8.LeadLength(input[pos]);
      if length == 0 || pos + length > |input| {
        return false, [];
      }
      var codePoint: nat := Utf8.LeadBits(input[pos]);
      var i := 1;
      while i < length
        invariant 1 <= i <= length && codePoint == Utf8.CollectedPoint(start, i)
        invariant forall k :: 1 <= k < i ==> Utf8.Tail(start[k])
      {
        var next := input[pos + i];
        assert next == start[i];
        if !Utf8.Tail(next) {
          return false, [];
        }
        codePoint := codePoint * 64 + (next as nat) % 64;
        i := i + 1;
      }
      if Utf8.OverlongOrUnassigned(length, codePoint) {
        return false, [];
      }
      value := input[pos..pos + length];
      assert value == start[..length];
      pos := pos + length;
      return true, value;
    }

    /** The escape after a `\u`: the cursor stands on the first quad. */
    method ParseUnicode(ghost start: bytes) returns (ok: bool, value: bytes)
      requires Valid() && pos >= 2 && start == input[pos - 2..]
      modifies this
      ensures Valid() && pos >= old(pos)
      ensures ok == UnicodeStep(start).Emit?
      ensures ok ==> value == UnicodeStep(start).value && pos == old(pos) - 2 + UnicodeStep(start).length
    {
      assert start[2..] == input[pos..];
      var quad, codePoint := ParseHexQuad();
      if !quad {
        return false, [];
      }
      if 0xd800 <= codePoint <= 0xdbff {
        if pos + 2 > |input| || input[pos] != BACKSLASH || input[pos + 1] != 117 {
          return false, [];
        }
        assert start[6] == input[pos] && start[7] == input[pos + 1];
        pos := pos + 2;
        assert start[8..] == input[pos..];
        var low, lowPoint := ParseHexQuad();
        if !low || lowPoint < 0xdc00 || lowPoint > 0xdfff {
          return false, [];
        }
        codePoint := 0x10000 + (codePoint - 0xd800) * 1024 + (lowPoint - 0xdc00);
      } else if 0xdc00 <= codePoint <= 0xdfff {
        return false, [];
      }
      return true, Utf8.EncodePoint(codePoint);
    }

    /** One character of a string: the body of ParseString's loop. */
    method ParseCharacter() returns (step: Step)
      requires Valid() && pos < |input|
      modifies this
      ensures Valid() && pos >= old(pos)
      ensures step == NextStep(old(Unread()))
      ensures step.Close? ==> pos == old(pos) + 1
      ensures step.Emit? ==> pos == old(pos) + step.length
    {
      ghost var start := Unread();
      var c := input[pos];
      assert c == start[0];
      pos := pos + 1;
      if c == QUOTE {
        return Close;
      }
      if c < 0x20 {
        return Bad;
      }
      if c >= 0x80 {
        pos := pos - 1;
        var raw, octets := ParseRawUtf8();
        return if raw then Emit(octets, |octets|) else Bad;
      }
      if c != BACKSLASH {
        return Emit([c], 1);
      }
      if pos >= |input| {
        return Bad;
      }
      var escaped := input[pos];
      assert escaped == start[1];
      pos := pos + 1;
      if escaped == QUOTE || escaped == BACKSLASH || escaped == SLASH {
        return Emit([escaped], 2);
      } else if escaped == 98 {
        return Emit([8], 2);
      } else if escaped == 102 {
        return Emit([12], 2);
      } else if escaped == 110 {
        return Emit([LF], 2);
      } else if escaped == 114 {
        return Emit([CR], 2);
      } else if escaped == 116 {
        return Emit([TAB], 2);
      } else if escaped == 117 {
        var begin := pos;
        var unicode, octets := ParseUnicode(start);
        return if unicode then Emit(octets, pos - begin + 2) else Bad;
      }
      return Bad;
    }

    method ParseString() returns (ok: bool, value: bytes)
      requires Valid()
      modifies this
      ensures Valid() && pos >= old(pos)
      ensures ok == JsonString.ParseString(old(Unread())).Ok?
      ensures ok ==> Ok(value, Unread()) == JsonString.ParseString(old(Unread()))
      ensures ok ==> pos > old(pos)
    {
      value := [];
      var begun := Consume(QUOTE);
      if !begun {
        return false, [];
      }
      PrefixedEmpty(ParseTail(Unread()));
      while pos < |input|
        invariant Valid() && pos > old(pos)
        invariant JsonString.ParseString(old(Unread())) == Prefixed(value, ParseTail(Unread()))
        decreases |input| - pos
      {
        ghost var before := Unread();
        var step := ParseCharacter();
        match step {
          case Bad => return false, [];
          case Close =>
            assert Unread() == before[1..];
            assert value + [] == value;
            return true, value;
          case Emit(octets, length) =>
            assert Unread() == before[length..];
            PrefixedTwice(value, octets, ParseTail(Unread()));
            value := value + octets;
        }
      }
      return false, [];
    }

    method SkipDigitRun() returns (some: bool)
      requires Valid()
      modifies this
      ensures Valid() && pos >= old(pos) && Unread() == SkipDigits(old(Unread()))
      ensures some == (pos > old(pos))
    {
      var digits := pos;
      while pos < |input| && IsDigit(input[pos])
        invariant Valid() && pos >= old(pos) && SkipDigits(Unread()) == SkipDigits(old(Unread()))
      {
        assert input[pos..][1..] == input[pos + 1..];
        pos := pos + 1;
      }
      return pos > digits;
    }

    method ParseInteger() returns (ok: bool)
      requires Valid()
      modifies this
      ensures Valid() && pos >= old(pos)
      ensures ok == SkipInteger(old(Unread())).Some?
      ensures ok ==> Unread() == SkipInteger(old(Unread())).value
    {
      if pos >= |input| {
        return false;
      }
      if input[pos] == ZERO {
        pos := pos + 1;
        return !(pos < |input| && IsDigit(input[pos]));
      }
      if !IsDigit(input[pos]) {
        return false;
      }
      pos := pos + 1;
      var more := SkipDigitRun();
      return true;
    }

    method ParseFraction() returns (ok: bool)
      requires Valid()
      modifies this
      ensures Valid() && pos >= old(pos)
      ensures ok == SkipFraction(old(Unread())).Some?
      ensures ok ==> Unread() == SkipFraction(old(Unread())).value
    {
      ok := true;
      if pos < |input| && input[pos] == DOT {
        pos := pos + 1;
        ok := SkipDigitRun();
      }
    }

    method ParseExponent() returns (ok: bool)
      requires Valid()
      modifies this
      ensures Valid() && pos >= old(pos)
      ensures ok == SkipExponent(old(Unread())).Some?
      ensures ok ==> Unread() == SkipExponent(old(Unread())).value
    {
      ok := true;
      if pos < |input| && (input[pos] == 101 || input[pos] == 69) {
        ghost var start := Unread();
        pos := pos + 1;
        if pos < |input| && IsSign(input[pos]) {
          assert input[pos] == start[1];
          pos := pos + 1;
          assert Unread() == start[2..];
        }
        ok := SkipDigitRun();
      }
    }

    method ParseNumber() returns (ok: bool)
      requires Valid()
      modifies this
      ensures Valid() && pos >= old(pos)
      ensures ok == SkipNumber(old(Unread())).Some?
      ensures ok ==> Unread() == SkipNumber(old(Unread())).value
    {
      if pos < |input| && input[pos] == MINUS {
        pos := pos + 1;
      }
      ok := ParseInteger();
      if !ok {
        return;
      }
      ok := ParseFraction();
      if !ok {
        return;
      }
      ok := ParseExponent();
    }

    method ParseArray(depth: nat) returns (ok: bool)
      requires Valid()
      modifies this
      ensures Valid() && pos >= old(pos)
      ensures ok == JsonObject.ParseArray(old(Unread()), depth).Some?
      ensures ok ==> Unread() == JsonObject.ParseArray(old(Unread()), depth).value
      decreases |input| - pos, 1
    {
      if depth >= MAX_DEPTH {
        return false;
      }
      var begun := Consume(OPEN_BRACKET);
      if !begun {
        return false;
      }
      SkipWhitespace();
      var closed := Consume(CLOSE_BRACKET);
      if closed {
        return true;
      }
      ghost var whole := JsonObject.ParseArray(old(Unread()), depth);
      while true
        invariant Valid() && pos > old(pos)
        invariant whole == Elements(Unread(), depth)
        decreases |input| - pos
      {
        ghost var before := pos;
        var value, _ := ParseValue(depth + 1);
        if !value {
          return false;
        }
        SkipWhitespace();
        closed := Consume(CLOSE_BRACKET);
        if closed {
          return true;
        }
        var comma := Consume(COMMA);
        if !comma {
          return false;
        }
        SkipWhitespace();
      }
    }

    method ParseObject(depth: nat) returns (ok: bool, fields: Fields)
      requires Valid()
      modifies this
      ensures Valid() && pos >= old(pos)
      ensures ok == JsonObject.ParseObject(old(Unread()), depth).Ok?
      ensures ok ==> Ok(fields, Unread()) == JsonObject.ParseObject(old(Unread()), depth)
      decreases |input| - pos, 1
    {
      fields := map[];
      if depth >= MAX_DEPTH {
        return false, map[];
      }
      var begun := Consume(OPEN_BRACE);
      if !begun {
        return false, map[];
      }
      SkipWhitespace();
      var closed := Consume(CLOSE_BRACE);
      if closed {
        return true, fields;
      }
      ghost var whole := JsonObject.ParseObject(old(Unread()), depth);
      while true
        invariant Valid() && pos > old(pos)
        invariant whole == Members(Unread(), depth, fields)
        decreases |input| - pos
      {
        var named, key := ParseString();
        if !named || key in fields {
          return false, map[];
        }
        SkipWhitespace();
        var colon := Consume(COLON);
        if !colon {
          return false, map[];
        }
        SkipWhitespace();
        var value, field := ParseValue(depth + 1);
        if !value {
          return false, map[];
        }
        fields := fields[key := field];
        SkipWhitespace();
        closed := Consume(CLOSE_BRACE);
        if closed {
          return true, fields;
        }
        var comma := Consume(COMMA);
        if !comma {
          return false, map[];
        }
        SkipWhitespace();
      }
    }

    method ParseValue(depth: nat) returns (ok: bool, field: Field)
      requires Valid()
      modifies this
      ensures Valid() && pos >= old(pos)
      ensures ok == JsonObject.ParseValue(old(Unread()), depth).Ok?
      ensures ok ==> Ok(field, Unread()) == JsonObject.ParseValue(old(Unread()), depth)
      decreases |input| - pos, 2
    {
      field := Other;
      if depth >= MAX_DEPTH || pos >= |input| {
        return false, Other;
      }
      var start := pos;
      ghost var begin := Unread();
      var c := input[pos];
      assert c == begin[0];
      if c == OPEN_BRACE {
        var nested;
        ok, nested := ParseObject(depth);
      } else if c == OPEN_BRACKET {
        ok := ParseArray(depth);
      } else if c == QUOTE {
        var value;
        ok, value := ParseString();
        field := Text(value);
      } else if c == 116 || c == 102 || c == 110 {
        ok := ConsumeLiteral(LiteralFor(c));
      } else {
        ok := ParseNumber();
        if ok {
          assert |Unread()| == |input| - pos && |begin| == |input| - start;
          assert begin[..pos - start] == input[start..pos];
          field := Number(input[start..pos]);
        }
      }
    }

    method Parse() returns (ok: bool, fields: Fields)
      requires Valid() && pos == 0
      modifies this
      ensures Valid()
      ensures ok == ParseDocument(input).Some?
      ensures ok ==> fields == ParseDocument(input).value
    {
      assert Unread() == input;
      SkipWhitespace();
      ok, fields := ParseObject(0);
      if !ok {
        return;
      }
      SkipWhitespace();
      ok := pos == |input|;
    }
  }

  lemma {:induction false} HexPrefixFails(s: bytes, k: nat, n: nat)
    requires k <= n <= 4 && HexPrefix(s, k).None?
    ensures HexPrefix(s, n).None?
  {
    if k < n {
      HexPrefixFails(s, k, n - 1);
    }
  }
}
