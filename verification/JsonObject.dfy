/** The strict one-object parser of the journal: the grammar of values as functions of the unread
    input, and what it makes of a printed flat object. */
module JsonObject {

  import opened Bytes
  import opened JsonString
  import opened JsonNumber
  import Utf8

  const OPEN_BRACE: byte := 123
  const CLOSE_BRACE: byte := 125
  const OPEN_BRACKET: byte := 91
  const CLOSE_BRACKET: byte := 93

  /** Values nest at most this deep. */
  const MAX_DEPTH: nat := 64

  datatype Field = Text(value: bytes) | Number(text: bytes) | Other

  type Fields = map<bytes, Field>

  predicate IsSpace(b: byte) {
    b == SPACE || b == TAB || b == CR || b == LF
  }

  function SkipSpace(s: bytes): (r: bytes)
    ensures |r| <= |s|
  {
    if s != [] && IsSpace(s[0]) then SkipSpace(s[1..]) else s
  }

  function SkipLiteral(s: bytes, literal: bytes): (r: Option<bytes>)
    ensures r.Some? ==> |r.value| == |s| - |literal|
  {
    if literal == [] then Some(s)
    else if s == [] || s[0] != literal[0] then None
    else SkipLiteral(s[1..], literal[1..])
  }

  function LiteralFor(b: byte): bytes {
    if b == 116 then [116, 114, 117, 101]
    else if b == 102 then [102, 97, 108, 115, 101]
    else [110, 117, 108, 108]
  }

  function ParseValue(s: bytes, depth: nat): (r: Parsed<Field>)
    ensures r.Ok? ==> |r.rest| < |s|
    decreases |s|, 2
  {
    if depth >= MAX_DEPTH || s == [] then Fail
    else if s[0] == OPEN_BRACE then
      var r := ParseObject(s, depth);
      if r.Fail? then Fail else Ok(Other, r.rest)
    else if s[0] == OPEN_BRACKET then
      var r := ParseArray(s, depth);
      if r.None? then Fail else Ok(Other, r.value)
    else if s[0] == QUOTE then
      var r := ParseString(s);
      if r.Fail? then Fail else Ok(Text(r.value), r.rest)
    else if s[0] == 116 || s[0] == 102 || s[0] == 110 then
      var r := SkipLiteral(s, LiteralFor(s[0]));
      if r.None? then Fail else Ok(Other, r.value)
    else
      var r := SkipNumber(s);
      if r.None? then Fail else Ok(Number(s[..|s| - |r.value|]), r.value)
  }

  function ParseArray(s: bytes, depth: nat): (r: Option<bytes>)
    ensures r.Some? ==> |r.value| < |s|
    decreases |s|, 1
  {
    if depth >= MAX_DEPTH || !StartsWith(s, OPEN_BRACKET) then None
    else
      var t := SkipSpace(s[1..]);
      if StartsWith(t, CLOSE_BRACKET) then Some(t[1..]) else Elements(t, depth)
  }

  function Elements(s: bytes, depth: nat): (r: Option<bytes>)
    ensures r.Some? ==> |r.value| < |s|
    decreases |s|, 3
  {
    var v := ParseValue(s, depth + 1);
    if v.Fail? then None
    else
      var t := SkipSpace(v.rest);
      if StartsWith(t, CLOSE_BRACKET) then Some(t[1..])
      else if StartsWith(t, COMMA) then Elements(SkipSpace(t[1..]), depth)
      else None
  }

  function ParseObject(s: bytes, depth: nat): (r: Parsed<Fields>)
    ensures r.Ok? ==> |r.rest| < |s|
    decreases |s|, 1
  {
    if depth >= MAX_DEPTH || !StartsWith(s, OPEN_BRACE) then Fail
    else
      var t := SkipSpace(s[1..]);
      if StartsWith(t, CLOSE_BRACE) then Ok(map[], t[1..]) else Members(t, depth, map[])
  }

  /** The member loop of ParseObject, with the fields read so far; a repeated key is refused. */
  function Members(s: bytes, depth: nat, seen: Fields): (r: Parsed<Fields>)
    ensures r.Ok? ==> |r.rest| < |s|
    decreases |s|, 3
  {
    var key := ParseString(s);
    if key.Fail? || key.value in seen then Fail
    else
      var t := SkipSpace(key.rest);
      if !StartsWith(t, COLON) then Fail
      else
        var v := ParseValue(SkipSpace(t[1..]), depth + 1);
        if v.Fail? then Fail
        else
          var u := SkipSpace(v.rest);
          var fields := seen[key.value := v.value];
          if StartsWith(u, CLOSE_BRACE) then Ok(fields, u[1..])
          else if StartsWith(u, COMMA) then Members(SkipSpace(u[1..]), depth, fields)
          else Fail
  }

  /** The whole input is one object, with white space around it and nothing else. */
  function ParseDocument(input: bytes): Option<Fields> {
    var r := ParseObject(SkipSpace(input), 0);
    if r.Ok? && SkipSpace(r.rest) == [] then Some(r.value) else None
  }

  // ---- Printing a flat object

  datatype Member = Member(key: bytes, field: Field)

  /** A key that is printed between quotes as it stands. */
  predicate PlainKey(k: bytes) {
    forall i :: 0 <= i < |k| ==> 0x20 <= k[i] < 0x80 && k[i] != QUOTE && k[i] != BACKSLASH
  }

  ghost predicate Printable(m: Member) {
    PlainKey(m.key) && !m.field.Other? && (m.field.Number? ==> IsNumber(m.field.text))
  }

  predicate DistinctKeys(ms: seq<Member>) {
    forall i, j :: 0 <= i < j < |ms| ==> ms[i].key != ms[j].key
  }

  function PrintField(f: Field): bytes {
    match f
    case Text(v) => Quoted(v)
    case Number(t) => t
    case Other => LiteralFor(110)
  }

  function PrintMember(m: Member): bytes {
    [QUOTE] + m.key + [QUOTE] + ([COLON] + PrintField(m.field))
  }

  function PrintMembers(ms: seq<Member>): bytes
    requires ms != []
  {
    if |ms| == 1 then PrintMember(ms[0]) + [CLOSE_BRACE]
    else PrintMember(ms[0]) + ([COMMA] + PrintMembers(ms[1..]))
  }

  function PrintObject(ms: seq<Member>): bytes
    requires ms != []
  {
    [OPEN_BRACE] + PrintMembers(ms)
  }

  /** The fields a list of members stands for, added to those already known. */
  function AddAll(seen: Fields, ms: seq<Member>): Fields
    decreases |ms|
  {
    if ms == [] then seen else AddAll(seen[ms[0].key := ms[0].field], ms[1..])
  }

  predicate ValidField(f: Field) {
    f.Text? ==> Utf8.Valid(f.value)
  }

  predicate ValidText(ms: seq<Member>) {
    forall i :: 0 <= i < |ms| ==> ValidField(ms[i].field)
  }

  // ---- A printed object parses back to its fields, exactly when its strings are UTF-8

  lemma {:induction false} PlainKeyIsItsEscape(k: bytes)
    requires PlainKey(k)
    ensures Escape(k) == k && Utf8.Valid(k)
  {
    if k != [] {
      PlainKeyIsItsEscape(k[1..]);
      assert k == [k[0]] + k[1..];
    }
  }

  lemma KeyReadsBack(k: bytes, rest: bytes)
    requires PlainKey(k)
    ensures ParseString([QUOTE] + k + [QUOTE] + rest) == Ok(k, rest)
  {
    PlainKeyIsItsEscape(k);
    StringRoundTrip(k, rest);
  }

  /** A separator that may follow a printed field. */
  predicate Separator(s: bytes) {
    StartsWith(s, COMMA) || StartsWith(s, CLOSE_BRACE)
  }

  lemma FieldReadsBack(f: Field, depth: nat, rest: bytes)
    requires !f.Other? && (f.Number? ==> IsNumber(f.text)) && depth < MAX_DEPTH && Separator(rest)
    ensures ParseValue(PrintField(f) + rest, depth) == if ValidField(f) then Ok(f, rest) else Fail
    ensures PrintField(f) + rest != [] && !IsSpace((PrintField(f) + rest)[0])
  {
    match f
    case Text(v) => TextReadsBack(v, depth, rest);
    case Number(t) => NumberReadsBack(t, depth, rest);
  }

  lemma TextReadsBack(v: bytes, depth: nat, rest: bytes)
    requires depth < MAX_DEPTH
    ensures ParseValue(Quoted(v) + rest, depth) == if Utf8.Valid(v) then Ok(Text(v), rest) else Fail
    ensures Quoted(v) + rest != [] && !IsSpace((Quoted(v) + rest)[0])
  {
    hide ParseString, Utf8.Valid;
    StringRoundTrip(v, rest);
    assert (Quoted(v) + rest)[0] == QUOTE;
  }

  lemma NumberReadsBack(t: bytes, depth: nat, rest: bytes)
    requires IsNumber(t) && depth < MAX_DEPTH && Separator(rest)
    ensures ParseValue(t + rest, depth) == Ok(Number(t), rest)
    ensures t + rest != [] && !IsSpace((t + rest)[0])
  {
    NumberScans(t, rest);
    assert (t + rest)[0] == t[0];
    ConcatSplit(t, rest);
  }

  lemma NoSpace(s: bytes)
    requires s != [] && !IsSpace(s[0])
    ensures SkipSpace(s) == s
  {
  }

  /** What the member loop does with one printed member followed by a separator. */
  lemma MemberReadsBack(m: Member, depth: nat, seen: Fields, rest: bytes)
    requires Printable(m) && depth + 1 < MAX_DEPTH && Separator(rest) && m.key !in seen
    ensures
      var fields := seen[m.key := m.field];
      Members(PrintMember(m) + rest, depth, seen) ==
      if !ValidField(m.field) then Fail
      else if rest[0] == CLOSE_BRACE then Ok(fields, rest[1..])
      else Members(SkipSpace(rest[1..]), depth, fields)
  {
    hide ParseValue, ParseString, SkipSpace, ValidField, PrintField, IsNumber;
    var value := PrintField(m.field) + rest;
    var colon := [COLON] + value;
    var quoted := [QUOTE] + m.key + [QUOTE];
    assert PrintMember(m) + rest == quoted + colon by {
      ConcatIsAssociative(quoted, [COLON] + PrintField(m.field), rest);
      ConcatIsAssociative([COLON], PrintField(m.field), rest);
    }
    KeyReadsBack(m.key, colon);
    NoSpace(colon);
    ConcatSplit([COLON], value);
    FieldReadsBack(m.field, depth + 1, rest);
    NoSpace(value);
    NoSpace(rest);
  }

  lemma {:induction false} MembersReadBack(ms: seq<Member>, depth: nat, seen: Fields, rest: bytes)
    requires ms != [] && depth + 1 < MAX_DEPTH && DistinctKeys(ms)
    requires forall i :: 0 <= i < |ms| ==> Printable(ms[i]) && ms[i].key !in seen
    ensures Members(PrintMembers(ms) + rest, depth, seen) ==
      if ValidText(ms) then Ok(AddAll(seen, ms), rest) else Fail
    decreases |ms|
  {
    hide Members, PrintMember, Printable, ValidField, SkipSpace;
    var m := ms[0];
    var fields := seen[m.key := m.field];
    if |ms| == 1 {
      var more := [CLOSE_BRACE] + rest;
      ConcatIsAssociative(PrintMember(m), [CLOSE_BRACE], rest);
      MemberReadsBack(m, depth, seen, more);
      ConcatSplit([CLOSE_BRACE], rest);
      assert ms[1..] == [];
    } else {
      var tail := PrintMembers(ms[1..]) + rest;
      var more := [COMMA] + tail;
      ConcatIsAssociative(PrintMember(m), [COMMA] + PrintMembers(ms[1..]), rest);
      ConcatIsAssociative([COMMA], PrintMembers(ms[1..]), rest);
      MemberReadsBack(m, depth, seen, more);
      ConcatSplit([COMMA], tail);
      MembersStart(ms[1..], rest);
      NoSpace(tail);
      MembersReadBack(ms[1..], depth, fields, rest);
      ValidTextSplit(ms);
    }
  }

  lemma MembersStart(ms: seq<Member>, rest: bytes)
    requires ms != []
    ensures PrintMembers(ms) + rest != [] && (PrintMembers(ms) + rest)[0] == QUOTE
  {
    assert PrintMember(ms[0])[0] == QUOTE;
    assert PrintMembers(ms)[0] == PrintMember(ms[0])[0];
  }

  lemma ValidTextSplit(ms: seq<Member>)
    requires ms != []
    ensures ValidText(ms) <==> ValidField(ms[0].field) && ValidText(ms[1..])
  {
    assert forall i :: 1 <= i < |ms| ==> ms[i] == ms[1..][i - 1];
  }

  /** A printed flat object with distinct keys is accepted exactly when all its strings are valid
      UTF-8, and the fields read are the fields printed. */
  lemma ObjectRoundTrip(ms: seq<Member>)
    requires ms != [] && DistinctKeys(ms)
    requires forall i :: 0 <= i < |ms| ==> Printable(ms[i])
    ensures ParseDocument(PrintObject(ms)) == if ValidText(ms) then Some(AddAll(map[], ms)) else None
  {
    var body := PrintMembers(ms);
    assert body + [] == body;
    MembersStart(ms, []);
    MembersReadBack(ms, 0, map[], []);
    BracedMembers(body);
  }

  lemma BracedMembers(body: bytes)
    requires StartsWith(body, QUOTE)
    ensures
      var r := Members(body, 0, map[]);
      ParseDocument([OPEN_BRACE] + body) == if r.Ok? && SkipSpace(r.rest) == [] then Some(r.value) else None
  {
    ConcatSplit([OPEN_BRACE], body);
    NoSpace([OPEN_BRACE] + body);
    NoSpace(body);
    assert ParseObject([OPEN_BRACE] + body, 0) == Members(body, 0, map[]);
  }

  /** With distinct keys, every member is found under its key, and nothing else is there. */
  lemma {:induction false} AddAllLooksUp(seen: Fields, ms: seq<Member>)
    requires DistinctKeys(ms) && forall i :: 0 <= i < |ms| ==> ms[i].key !in seen
    ensures forall i :: 0 <= i < |ms| ==> ms[i].key in AddAll(seen, ms) && AddAll(seen, ms)[ms[i].key] == ms[i].field
    ensures forall k :: k in seen ==> k in AddAll(seen, ms) && AddAll(seen, ms)[k] == seen[k]
    ensures forall k :: k in AddAll(seen, ms) ==> k in seen || exists i :: 0 <= i < |ms| && ms[i].key == k
    decreases |ms|
  {
    if ms != [] {
      var next := seen[ms[0].key := ms[0].field];
      AddAllLooksUp(next, ms[1..]);
      assert AddAll(seen, ms) == AddAll(next, ms[1..]);
      assert forall i :: 1 <= i < |ms| ==> ms[i] == ms[1..][i - 1];
      forall k | k in AddAll(seen, ms) ensures k in seen || exists i :: 0 <= i < |ms| && ms[i].key == k {
        if k !in next {
          var i :| 0 <= i < |ms[1..]| && ms[1..][i].key == k;
          assert ms[i + 1].key == k;
        }
      }
    }
  }
}
