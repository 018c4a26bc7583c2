/** The resident cache of verified attribution segments: a read re-parses only what was appended, and is
    proved to give what a full parse of the current file gives. */
module SegmentCache {

  import opened Bytes

  const MAX_RECORD: nat := 262144
  const MAX_STREAM: nat := 16 * 1024 * 1024
  const MAX_TOTAL: nat := 256 * 1024 * 1024

  /** What a stat call tells apart; `stamp` stands for size, times, mode and owner. */
  datatype Identity = Identity(device: nat, inode: nat, stamp: nat)

  datatype Prefix = Prefix(path: bytes, length: nat, hash: bytes)

  datatype Located<+R> = Located(record: R, prefix: Prefix)

  datatype Segment<+R> = Segment(prefix: Prefix, records: seq<Located<R>>)

  datatype Entry<+R> = Entry(identity: Identity, segment: Segment<R>)

  type Parser<!R> = bytes -> Option<R>

  type Hash = bytes -> bytes

  ghost predicate Injective(hash: Hash) {
    forall a, b :: hash(a) == hash(b) ==> a == b
  }

  // ---- Lines

  /** The length of the first line with its end, which is a line feed, a carriage return or both. */
  function FirstLine(s: bytes): (n: nat)
    requires s != []
    ensures 0 < n <= |s|
  {
    if s[0] == LF then 1
    else if s[0] == CR then (if |s| > 1 && s[1] == LF then 2 else 1)
    else if |s| == 1 then 1
    else 1 + FirstLine(s[1..])
  }

  /** splitlines with the line ends kept. */
  function SplitLines(s: bytes): seq<bytes> {
    if s == [] then [] else [s[..FirstLine(s)]] + SplitLines(s[FirstLine(s)..])
  }

  /** The octets up to and including the last line feed. */
  function Complete(raw: bytes): (blob: bytes)
    ensures CompletePart(raw, blob)
  {
    if raw == [] || raw[|raw| - 1] == LF then raw else Complete(raw[..|raw| - 1])
  }

  predicate Whole(s: bytes) {
    s == [] || s[|s| - 1] == LF
  }

  /** What is left when everything behind the last line feed is cut off. */
  predicate CompletePart(raw: bytes, blob: bytes) {
    blob <= raw && Whole(blob) && forall i :: |blob| <= i < |raw| ==> raw[i] != LF
  }

  lemma OneCompletePart(raw: bytes, a: bytes, b: bytes)
    requires CompletePart(raw, a) && CompletePart(raw, b)
    ensures a == b
  {
  }

  // ---- What splitting means

  predicate NoLineEnd(s: bytes) {
    LF !in s && CR !in s
  }

  /** Exactly one line end, at the end. */
  predicate Ended(line: bytes) {
    var n := |line|;
    && n > 0
    && (|| (line[n - 1] == CR && NoLineEnd(line[..n - 1]))
        || (line[n - 1] == LF && NoLineEnd(line[..n - 1]))
        || (n > 1 && line[n - 2] == CR && line[n - 1] == LF && NoLineEnd(line[..n - 2])))
  }

  /** A carriage return and a line feed behind it are one line end. */
  predicate KeptTogether(line: bytes, rest: bytes) {
    line != [] && line[|line| - 1] == CR ==> rest == [] || rest[0] != LF
  }

  /** A first line of some octets: it has its one line end, or it is all of them and has none. */
  predicate LineOf(line: bytes, rest: bytes) {
    (Ended(line) && KeptTogether(line, rest)) || (rest == [] && line != [] && NoLineEnd(line))
  }

  /** The octets cut into lines. */
  ghost predicate IsSplit(s: bytes, lines: seq<bytes>)
    decreases |lines|
  {
    if lines == [] then s == []
    else lines[0] <= s && LineOf(lines[0], s[|lines[0]|..]) && IsSplit(s[|lines[0]|..], lines[1..])
  }

  lemma {:induction false} FirstLineIsLine(s: bytes)
    requires s != []
    ensures LineOf(s[..FirstLine(s)], s[FirstLine(s)..])
  {
    var n := FirstLine(s);
    if s[0] != LF && s[0] != CR && |s| > 1 {
      var rest := s[1..];
      FirstLineIsLine(rest);
      FrontedLine(s[0], rest[..n - 1], rest[n - 1..]);
      assert [s[0]] + rest[..n - 1] == s[..n] && rest[n - 1..] == s[n..];
    } else {
      assert s[..n][..n - 1] == s[..n - 1];
      assert n == 2 ==> s[..n][..0] == [];
    }
  }

  lemma FrontedLine(b: byte, line: bytes, rest: bytes)
    requires LineOf(line, rest) && b != LF && b != CR
    ensures LineOf([b] + line, rest)
  {
    var more, n := [b] + line, |line|;
    assert more[n] == line[n - 1];
    assert more[..n] == [b] + line[..n - 1];
    if n > 1 {
      assert more[n - 1] == line[n - 2] && more[..n - 1] == [b] + line[..n - 2];
    }
  }

  /** There is only one first line. */
  lemma OneFirstLine(s: bytes, m: nat, n: nat)
    requires m < n <= |s| && LineOf(s[..m], s[m..])
    ensures !LineOf(s[..n], s[n..])
  {
    var a, b := s[..m], s[..n];
    assert a == b[..m];
    assert s[m..][0] == s[m];
    assert b[..n - 1] == s[..n - 1] && (n > 1 ==> b[..n - 2] == s[..n - 2]);
  }

  lemma {:induction false} SplitMeans(s: bytes)
    ensures IsSplit(s, SplitLines(s))
  {
    hide FirstLine, LineOf;
    if s != [] {
      FirstLineIsLine(s);
      SplitMeans(s[FirstLine(s)..]);
      var lines := SplitLines(s);
      assert lines[0] == s[..FirstLine(s)] && lines[1..] == SplitLines(s[FirstLine(s)..]);
    }
  }

  /** There is only one way to cut octets into lines. */
  lemma {:induction false} OneSplit(s: bytes, lines: seq<bytes>)
    requires IsSplit(s, lines)
    ensures lines == SplitLines(s)
    decreases |lines|
  {
    hide FirstLine, LineOf;
    if lines != [] {
      var m := |lines[0]|;
      assert lines[0] == s[..m];
      LineIsThere(lines[0], s[m..]);
      FirstLineIsLine(s);
      var n := FirstLine(s);
      if m < n {
        OneFirstLine(s, m, n);
      } else if n < m {
        OneFirstLine(s, n, m);
      }
      OneSplit(s[m..], lines[1..]);
      assert lines == [lines[0]] + lines[1..];
    }
  }

  lemma LineIsThere(line: bytes, rest: bytes)
    requires LineOf(line, rest)
    ensures line != []
  {
  }

  lemma {:induction false} FirstLineOfWhole(a: bytes, b: bytes)
    requires a != [] && Whole(a)
    ensures FirstLine(a + b) == FirstLine(a) && Whole(a[FirstLine(a)..])
  {
    if a[0] != LF && a[0] != CR && |a| > 1 {
      ConcatDrop(a, b, 1);
      FirstLineOfWhole(a[1..], b);
    }
  }

  /** Complete lines split the same with or without what follows them. */
  lemma {:induction false} SplitJoins(a: bytes, b: bytes)
    requires Whole(a)
    ensures SplitLines(a + b) == SplitLines(a) + SplitLines(b)
    decreases |a|
  {
    hide FirstLine;
    if a == [] {
      assert a + b == b;
    } else {
      var n := FirstLine(a);
      FirstLineOfWhole(a, b);
      ConcatDrop(a, b, n);
      assert (a + b)[..n] == a[..n];
      SplitJoins(a[n..], b);
      ConcatIsAssociative([a[..n]], SplitLines(a[n..]), SplitLines(b));
    }
  }

  // ---- The reference: a full parse

  /** The records of some lines that follow the octets already done; each is located by the length and
      the hash of everything up to its end. */
  function Locate<R>(parse: Parser<R>, hash: Hash, path: bytes, done: bytes, lines: seq<bytes>): Option<seq<Located<R>>>
    decreases |lines|
  {
    if lines == [] then Some([])
    else if |lines[0]| > MAX_RECORD || parse(lines[0]).None? then None
    else
      var more := done + lines[0];
      var rest := Locate(parse, hash, path, more, lines[1..]);
      if rest.None? then None
      else Some([Located(parse(lines[0]).value, Prefix(path, |more|, hash(more)))] + rest.value)
  }

  function FullParse<R>(parse: Parser<R>, hash: Hash, path: bytes, raw: bytes): Option<Segment<R>> {
    var blob := Complete(raw);
    var records := Locate(parse, hash, path, [], SplitLines(blob));
    if records.None? then None else Some(Segment(Prefix(path, |blob|, hash(blob)), records.value))
  }

  function Joined(lines: seq<bytes>): bytes {
    if lines == [] then [] else lines[0] + Joined(lines[1..])
  }

  // ---- What a full parse means

  /** The record of line k and its place: everything up to the end of that line. */
  ghost predicate LocatedAt<R>(parse: Parser<R>, hash: Hash, path: bytes, done: bytes, lines: seq<bytes>, k: nat,
                         record: Located<R>)
    requires k < |lines|
  {
    var upTo := done + Joined(lines[..k + 1]);
    && |lines[k]| <= MAX_RECORD && parse(lines[k]) == Some(record.record)
    && record.prefix == Prefix(path, |upTo|, hash(upTo))
  }

  ghost predicate AllLocated<R(!new)>(parse: Parser<R>, hash: Hash, path: bytes, done: bytes, lines: seq<bytes>,
                                      records: seq<Located<R>>)
  {
    |records| == |lines| && forall k :: 0 <= k < |lines| ==> LocatedAt(parse, hash, path, done, lines, k, records[k])
  }

  lemma {:induction false} LocateMeans<R(!new)>(parse: Parser<R>, hash: Hash, path: bytes, done: bytes,
                                                lines: seq<bytes>, records: seq<Located<R>>)
    ensures Locate(parse, hash, path, done, lines) == Some(records) <==>
      AllLocated(parse, hash, path, done, lines, records)
    decreases |lines|
  {
    hide LocatedAt;
    if lines != [] {
      var more := done + lines[0];
      if records != [] {
        LocatedFirst(parse, hash, path, done, lines, records[0]);
        LocateMeans(parse, hash, path, more, lines[1..], records[1..]);
        assert records == [records[0]] + records[1..];
        if |records| == |lines| {
          forall k | 0 < k < |lines|
            ensures LocatedAt(parse, hash, path, done, lines, k, records[k])
               <==> LocatedAt(parse, hash, path, more, lines[1..], k - 1, records[1..][k - 1]) {
            LocatedLater(parse, hash, path, done, lines, k, records[k]);
          }
          AllButFirst(parse, hash, path, done, lines, records);
        }
      }
    }
  }

  lemma LocatedFirst<R>(parse: Parser<R>, hash: Hash, path: bytes, done: bytes, lines: seq<bytes>, record: Located<R>)
    requires lines != []
    ensures LocatedAt(parse, hash, path, done, lines, 0, record) <==>
      var more := done + lines[0];
      && |lines[0]| <= MAX_RECORD && parse(lines[0]).Some?
      && record == Located(parse(lines[0]).value, Prefix(path, |more|, hash(more)))
  {
    assert lines[..1][1..] == [] && lines[..1][0] == lines[0];
    assert lines[0] + [] == lines[0];
    assert Joined(lines[..1]) == lines[0];
  }

  lemma LocatedLater<R>(parse: Parser<R>, hash: Hash, path: bytes, done: bytes, lines: seq<bytes>, k: nat,
                        record: Located<R>)
    requires 0 < k < |lines|
    ensures LocatedAt(parse, hash, path, done, lines, k, record)
       <==> LocatedAt(parse, hash, path, done + lines[0], lines[1..], k - 1, record)
  {
    assert lines[..k + 1][1..] == lines[1..][..k];
    ConcatIsAssociative(done, lines[0], Joined(lines[1..][..k]));
  }

  lemma AllButFirst<R(!new)>(parse: Parser<R>, hash: Hash, path: bytes, done: bytes, lines: seq<bytes>,
                             records: seq<Located<R>>)
    requires lines != [] && |records| == |lines|
    requires forall k :: 0 < k < |lines| ==>
      (LocatedAt(parse, hash, path, done, lines, k, records[k])
       <==> LocatedAt(parse, hash, path, done + lines[0], lines[1..], k - 1, records[1..][k - 1]))
    ensures AllLocated(parse, hash, path, done, lines, records) <==>
      && LocatedAt(parse, hash, path, done, lines, 0, records[0])
      && AllLocated(parse, hash, path, done + lines[0], lines[1..], records[1..])
  {
    hide LocatedAt;
    if AllLocated(parse, hash, path, done, lines, records) {
      forall k | 0 <= k < |lines[1..]|
        ensures LocatedAt(parse, hash, path, done + lines[0], lines[1..], k, records[1..][k]) {
        assert LocatedAt(parse, hash, path, done, lines, k + 1, records[k + 1]);
      }
    }
  }

  /** The segment of raw octets: what is complete of them, cut into lines, one record for each line, in order,
      each located by all the octets up to the end of its line. */
  ghost predicate ParsesAs<R(!new)>(parse: Parser<R>, hash: Hash, path: bytes, raw: bytes, segment: Segment<R>) {
    exists blob: bytes, lines: seq<bytes> ::
      && CompletePart(raw, blob) && IsSplit(blob, lines)
      && segment.prefix == Prefix(path, |blob|, hash(blob))
      && AllLocated(parse, hash, path, [], lines, segment.records)
  }

  /** A full parse succeeds with a segment exactly when it is the segment of the octets. */
  lemma FullParseMeans<R(!new)>(parse: Parser<R>, hash: Hash, path: bytes, raw: bytes, segment: Segment<R>)
    ensures FullParse(parse, hash, path, raw) == Some(segment) <==> ParsesAs(parse, hash, path, raw, segment)
  {
    hide Complete, SplitLines, Locate, CompletePart, IsSplit, AllLocated;
    var whole := Complete(raw);
    SplitMeans(whole);
    LocateMeans(parse, hash, path, [], SplitLines(whole), segment.records);
    if blob: bytes, lines: seq<bytes> :|
         && CompletePart(raw, blob) && IsSplit(blob, lines)
         && segment.prefix == Prefix(path, |blob|, hash(blob))
         && AllLocated(parse, hash, path, [], lines, segment.records) {
      OneCompletePart(raw, blob, whole);
      OneSplit(blob, lines);
    }
  }

  lemma {:induction false} SplitIsExact(s: bytes)
    ensures Joined(SplitLines(s)) == s
  {
    if s != [] {
      SplitIsExact(s[FirstLine(s)..]);
    }
  }

  function Both<R>(a: Option<seq<R>>, b: Option<seq<R>>): Option<seq<R>> {
    if a.None? || b.None? then None else Some(a.value + b.value)
  }

  lemma {:induction false} LocateJoins<R>(parse: Parser<R>, hash: Hash, path: bytes, done: bytes, a: seq<bytes>,
                                          b: seq<bytes>)
    ensures Locate(parse, hash, path, done, a + b) ==
      Both(Locate(parse, hash, path, done, a), Locate(parse, hash, path, done + Joined(a), b))
    decreases |a|
  {
    if a == [] {
      assert a + b == b && done + [] == done;
      var r := Locate(parse, hash, path, done, b);
      assert r.Some? ==> [] + r.value == r.value;
    } else {
      assert (a + b)[1..] == a[1..] + b;
      LocateJoins(parse, hash, path, done + a[0], a[1..], b);
      ConcatIsAssociative(done, a[0], Joined(a[1..]));
      var first, rest := Locate(parse, hash, path, done + a[0], a[1..]), Locate(parse, hash, path, done + Joined(a), b);
      if parse(a[0]).Some? && first.Some? && rest.Some? {
        var more := done + a[0];
        ConcatIsAssociative([Located(parse(a[0]).value, Prefix(path, |more|, hash(more)))], first.value, rest.value);
      }
    }
  }

  /** A full parse of appended octets is the old parse and a parse of what was appended. */
  lemma AppendedParse<R>(parse: Parser<R>, hash: Hash, path: bytes, before: bytes, appended: bytes)
    requires Whole(before)
    ensures Locate(parse, hash, path, [], SplitLines(before + appended)) ==
      Both(Locate(parse, hash, path, [], SplitLines(before)), Locate(parse, hash, path, before, SplitLines(appended)))
  {
    hide Locate, SplitLines, Joined;
    SplitJoins(before, appended);
    SplitIsExact(before);
    LocateJoins(parse, hash, path, [], SplitLines(before), SplitLines(appended));
    assert [] + before == before;
  }

  lemma {:induction false} OffsetsGrow<R>(parse: Parser<R>, hash: Hash, path: bytes, done: bytes, lines: seq<bytes>)
    requires Locate(parse, hash, path, done, lines).Some? && forall i :: 0 <= i < |lines| ==> lines[i] != []
    ensures
      var records := Locate(parse, hash, path, done, lines).value;
      && (forall i :: 0 <= i < |records| ==> records[i].prefix.path == path && |done| < records[i].prefix.length)
      && (forall i, j :: 0 <= i < j < |records| ==> records[i].prefix.length < records[j].prefix.length)
    decreases |lines|
  {
    if lines != [] {
      OffsetsGrow(parse, hash, path, done + lines[0], lines[1..]);
    }
  }

  // ---- The cache

  /** Octets held for all other paths. */
  function Held<R>(entries: map<bytes, Entry<R>>, names: seq<bytes>, except: bytes): nat
    requires forall i :: 0 <= i < |names| ==> names[i] in entries
  {
    if names == [] then 0
    else
      var n := |names| - 1;
      Held(entries, names[..n], except) + if names[n] == except then 0 else entries[names[n]].segment.prefix.length
  }

  /** Octets held in all. */
  function Total<R>(entries: map<bytes, Entry<R>>, names: seq<bytes>): nat
    requires forall i :: 0 <= i < |names| ==> names[i] in entries
  {
    if names == [] then 0
    else
      var n := |names| - 1;
      Total(entries, names[..n]) + entries[names[n]].segment.prefix.length
  }

  /** The names are the keys of the entries, each once. */
  ghost predicate Lists<R(!new)>(entries: map<bytes, Entry<R>>, names: seq<bytes>) {
    && (forall i :: 0 <= i < |names| ==> names[i] in entries)
    && (forall i, j :: 0 <= i < j < |names| ==> names[i] != names[j])
    && (forall p :: p in entries ==> p in names)
  }

  /** A new entry counts in place of what its path held before. */
  lemma {:induction false} TotalAfter<R>(entries: map<bytes, Entry<R>>, names: seq<bytes>, path: bytes, entry: Entry<R>)
    requires forall i :: 0 <= i < |names| ==> names[i] in entries
    requires forall i, j :: 0 <= i < j < |names| ==> names[i] != names[j]
    ensures Total(entries[path := entry], names)
         == Held(entries, names, path) + if path in names then entry.segment.prefix.length else 0
  {
    if names != [] {
      TotalAfter(entries, names[..|names| - 1], path, entry);
      assert names == names[..|names| - 1] + [names[|names| - 1]];
    }
  }

  /** The names and the total after a new entry. */
  lemma ListsAfter<R(!new)>(entries: map<bytes, Entry<R>>, names: seq<bytes>, path: bytes, entry: Entry<R>)
    requires Lists(entries, names)
    ensures
      var more, listed := entries[path := entry], if path in entries then names else names + [path];
      Lists(more, listed) && Total(more, listed) == Held(entries, names, path) + entry.segment.prefix.length
  {
    TotalAfter(entries, names, path, entry);
    if path !in entries {
      var listed := names + [path];
      assert listed[..|names|] == names && listed[|names|] == path;
      assert forall i :: 0 <= i < |names| ==> listed[i] == names[i];
      forall p | p in entries[path := entry] ensures p in listed {
      }
    }
  }

  lemma ParsedLength<R>(parse: Parser<R>, hash: Hash, path: bytes, raw: bytes)
    ensures FullParse(parse, hash, path, raw).Some? ==>
      FullParse(parse, hash, path, raw).value.prefix.length == |Complete(raw)|
  {
  }

  class VerifiedSegmentCache<R(!new)> {
    const parse: Parser<R>
    const hash: Hash
    /** Equal identity of a path means equal octets. */
    const content: (bytes, Identity) -> bytes

    var entries: map<bytes, Entry<R>>
    /** The keys of the entries in insertion order. */
    var names: seq<bytes>

    /** Every entry is what a full parse of the file it was read from gives, and all of them together stay within
        the budget. */
    ghost predicate Valid()
      reads this
    {
      && Injective(hash)
      && Lists(entries, names) && Total(entries, names) <= MAX_TOTAL
      && (forall p :: p in entries ==> Faithful(p, entries[p]))
    }

    ghost predicate Faithful(path: bytes, entry: Entry<R>) {
      FullParse(parse, hash, path, content(path, entry.identity)) == Some(entry.segment)
    }

    constructor (parse: Parser<R>, hash: Hash, content: (bytes, Identity) -> bytes)
      requires Injective(hash)
      ensures Valid() && entries == map[]
      ensures this.parse == parse && this.hash == hash && this.content == content
    {
      this.parse, this.hash, this.content := parse, hash, content;
      entries, names := map[], [];
    }

    /** The file is still the one that was cached, and only grew. */
    ghost predicate Extends(path: bytes, identity: Identity)
      reads this
    {
      path in entries ==>
        var before := entries[path].identity;
        && identity.device == before.device && identity.inode == before.inode
        && Complete(content(path, before)) <= Complete(content(path, identity))
    }

    /** Whether a read must succeed. */
    ghost predicate Readable(path: bytes, first: Identity, second: Identity, available: bool)
      reads this
      requires Lists(entries, names)
    {
      || (path in entries && entries[path].identity == first)
      || (&& available && second == first && |content(path, first)| <= MAX_STREAM
          && Extends(path, first)
          && FullParse(parse, hash, path, content(path, first)).Some?
          && |Complete(content(path, first))| + Held(entries, names, path) <= MAX_TOTAL)
    }

    /** read: `first` and `second` are the identities before and after the octets were read, which are
        those of `first` when the two are equal. */
    method Read(path: bytes, first: Identity, second: Identity, available: bool) returns (r: Option<Segment<R>>)
      requires Valid()
      modifies this
      ensures Valid()
      ensures r.Some? ==> r == FullParse(parse, hash, path, content(path, first))
      ensures r.Some? ==> ParsesAs(parse, hash, path, content(path, first), r.value)
      ensures r.Some? <==> old(Readable(path, first, second, available))
      ensures entries == if r.Some? then old(entries)[path := Entry(first, r.value)] else old(entries)
    {
      hide Lists, Total, Held, FullParse, ParsesAs, Complete;
      if path in entries && entries[path].identity == first {
        assert Faithful(path, entries[path]);
        FullParseMeans(parse, hash, path, content(path, first), entries[path].segment);
        return Some(entries[path].segment);
      }
      if !available || second != first || |content(path, first)| > MAX_STREAM {
        return None;
      }
      var blob := Complete(content(path, first));
      r := Reparse(path, first, blob);
      if r.Some? {
        FullParseMeans(parse, hash, path, content(path, first), r.value);
        ParsedLength(parse, hash, path, content(path, first));
        var kept := Store(path, Entry(first, r.value));
        if !kept {
          r := None;
        }
      }
    }

    /** The entry is kept when all the octets held stay within the budget. */
    method Store(path: bytes, entry: Entry<R>) returns (kept: bool)
      requires Lists(entries, names) && Total(entries, names) <= MAX_TOTAL
      modifies this`entries, this`names
      ensures Lists(entries, names) && Total(entries, names) <= MAX_TOTAL
      ensures kept <==> entry.segment.prefix.length + Held(old(entries), old(names), path) <= MAX_TOTAL
      ensures entries == if kept then old(entries)[path := entry] else old(entries)
    {
      var total := entry.segment.prefix.length + Held(entries, names, path);
      kept := total <= MAX_TOTAL;
      if kept {
        ListsAfter(entries, names, path, entry);
        if path !in entries {
          names := names + [path];
        }
        entries := entries[path := entry];
      }
    }

    /** The part of read that looks at the octets: an unchanged prefix keeps its records. */
    method Reparse(path: bytes, identity: Identity, blob: bytes) returns (r: Option<Segment<R>>)
      requires Valid() && blob == Complete(content(path, identity))
      ensures r == if Extends(path, identity) then FullParse(parse, hash, path, content(path, identity)) else None
    {
      hide Locate, SplitLines, Complete, Joined;
      NothingDone(path);
      var offset, records := 0, [];
      if path in entries {
        var entry := entries[path];
        ghost var before := Complete(content(path, entry.identity));
        assert Faithful(path, entry);
        offset := entry.segment.prefix.length;
        if identity.device != entry.identity.device || identity.inode != entry.identity.inode || |blob| < offset {
          return None;
        }
        assert before <= blob ==> blob[..offset] == before;
        if hash(blob[..offset]) != entry.segment.prefix.hash {
          return None;
        }
        assert blob[..offset] == before;
        records := entry.segment.records;
      }
      assert blob[..offset] + blob[offset..] == blob;
      AppendedParse(parse, hash, path, blob[..offset], blob[offset..]);
      var more := ParseLines(path, blob[..offset], SplitLines(blob[offset..]));
      SplitIsExact(blob[offset..]);
      r := if more.None? then None else Some(Segment(Prefix(path, |blob|, hash(blob)), records + more.value));
    }

    lemma NothingDone(path: bytes)
      ensures Locate(parse, hash, path, [], SplitLines([])) == Some([])
    {
    }

    /** The loop over the appended lines, with the hash taken along. */
    method ParseLines(path: bytes, done: bytes, lines: seq<bytes>) returns (r: Option<seq<Located<R>>>)
      ensures r == Locate(parse, hash, path, done, lines)
    {
      var hashed, records, i := done, [], 0;
      assert lines[0..] == lines;
      ghost var all := Locate(parse, hash, path, done, lines);
      assert all.Some? ==> [] + all.value == all.value;
      while i < |lines|
        invariant 0 <= i <= |lines|
        invariant Locate(parse, hash, path, done, lines) == Both(Some(records),
                                                                 Locate(parse, hash, path, hashed, lines[i..]))
      {
        var line := lines[i];
        assert lines[i..][0] == line && lines[i..][1..] == lines[i + 1..];
        if |line| > MAX_RECORD || parse(line).None? {
          return None;
        }
        hashed := hashed + line;
        ghost var rest := Locate(parse, hash, path, hashed, lines[i + 1..]);
        var located := Located(parse(line).value, Prefix(path, |hashed|, hash(hashed)));
        assert rest.Some? ==> records + ([located] + rest.value) == (records + [located]) + rest.value;
        records := records + [located];
        i := i + 1;
      }
      assert records + [] == records;
      r := Some(records);
    }
  }
}
