/** Replay of a decoded journal stream: bounded collection of records from arbitrary chunks, and the
    verdict on the whole stream that it has to agree with. The line parser is a parameter. */
module Replay {

  import opened Bytes

  datatype Limits = Limits(maxBytes: nat, maxRecords: nat, maxRecordBytes: nat)

  datatype Reason =
    | IoFailure | ByteLimit | StorageLimit | RecordByteLimit | RecordCountLimit | InvalidRecord
    | TornRecord | ArchiveInvalid | ArchiveMemberLimit

  /** Either still collecting, with a partial record pending, or refused for good. */
  datatype Scan<+E> = Collecting(events: seq<E>, pending: bytes) | Refused(reason: Reason)

  type Parser<!E> = bytes -> Option<E>

  // ---- The reference: split the whole stream at its newlines and judge the lines in order

  datatype Split = Split(lines: seq<bytes>, tail: bytes)

  function SplitStream(s: bytes): Split {
    if s == [] then Split([], [])
    else
      var before := SplitStream(s[..|s| - 1]);
      if s[|s| - 1] == LF then Split(before.lines + [before.tail], [])
      else Split(before.lines, before.tail + [s[|s| - 1]])
  }

  function Unlines(lines: seq<bytes>): bytes {
    if lines == [] then [] else Unlines(lines[..|lines| - 1]) + lines[|lines| - 1] + [LF]
  }

  /** What is wrong with a line at the given position of the stream, if anything. */
  function Fault<E>(parse: Parser<E>, limits: Limits, position: nat, line: bytes): Option<Reason> {
    if |line| > limits.maxRecordBytes then Some(RecordByteLimit)
    else if position == limits.maxRecords then Some(RecordCountLimit)
    else if line == [] || parse(line).None? then Some(InvalidRecord)
    else None
  }

  /** The events of the lines, or the fault of the first faulty one. */
  function Judge<E>(parse: Parser<E>, limits: Limits, lines: seq<bytes>): (r: Scan<E>)
    ensures r.Collecting? ==> |r.events| == |lines| && r.pending == []
  {
    if lines == [] then Collecting([], [])
    else
      var before := Judge(parse, limits, lines[..|lines| - 1]);
      var line := lines[|lines| - 1];
      if before.Refused? then before
      else
        var fault := Fault(parse, limits, |lines| - 1, line);
        if fault.Some? then Refused(fault.value) else Collecting(before.events + [parse(line).value], [])
  }

  function JudgeStream<E>(parse: Parser<E>, limits: Limits, stream: bytes): Scan<E> {
    var split := SplitStream(stream);
    var judged := Judge(parse, limits, split.lines);
    if judged.Refused? then judged
    else if |split.tail| > limits.maxRecordBytes then Refused(RecordByteLimit)
    else Collecting(judged.events, split.tail)
  }

  /** The verdict of a replay: a torn last record refuses the whole stream. */
  function Verdict<E>(scan: Scan<E>): Scan<E> {
    if scan.Collecting? && scan.pending != [] then Refused(TornRecord) else scan
  }

  // ---- The collector: what it does with the next octet, and so with any chunk

  function FeedByte<E>(parse: Parser<E>, limits: Limits, scan: Scan<E>, b: byte): Scan<E> {
    if scan.Refused? then scan
    else if b == LF then
      var fault := Fault(parse, limits, |scan.events|, scan.pending);
      if fault.Some? then Refused(fault.value) else Collecting(scan.events + [parse(scan.pending).value], [])
    else if |scan.pending| == limits.maxRecordBytes then Refused(RecordByteLimit)
    else Collecting(scan.events, scan.pending + [b])
  }

  function Feed<E>(parse: Parser<E>, limits: Limits, scan: Scan<E>, chunk: bytes): Scan<E> {
    if chunk == [] then scan
    else FeedByte(parse, limits, Feed(parse, limits, scan, chunk[..|chunk| - 1]), chunk[|chunk| - 1])
  }

  function FeedAll<E>(parse: Parser<E>, limits: Limits, scan: Scan<E>, chunks: seq<bytes>): Scan<E> {
    if chunks == [] then scan
    else Feed(parse, limits, FeedAll(parse, limits, scan, chunks[..|chunks| - 1]), chunks[|chunks| - 1])
  }

  function Concat(chunks: seq<bytes>): bytes {
    if chunks == [] then [] else Concat(chunks[..|chunks| - 1]) + chunks[|chunks| - 1]
  }

  lemma {:induction false} FeedJoins<E>(parse: Parser<E>, limits: Limits, scan: Scan<E>, a: bytes, b: bytes)
    ensures Feed(parse, limits, scan, a + b) == Feed(parse, limits, Feed(parse, limits, scan, a), b)
    decreases |b|
  {
    if b == [] {
      assert a + b == a;
    } else {
      assert (a + b)[..|a + b| - 1] == a + b[..|b| - 1];
      FeedJoins(parse, limits, scan, a, b[..|b| - 1]);
    }
  }

  lemma {:induction false} ChunksJoin<E>(parse: Parser<E>, limits: Limits, scan: Scan<E>, chunks: seq<bytes>)
    ensures FeedAll(parse, limits, scan, chunks) == Feed(parse, limits, scan, Concat(chunks))
  {
    if chunks != [] {
      var before := chunks[..|chunks| - 1];
      ChunksJoin(parse, limits, scan, before);
      FeedJoins(parse, limits, scan, Concat(before), chunks[|chunks| - 1]);
    }
  }

  lemma {:induction false} FeedJudges<E>(parse: Parser<E>, limits: Limits, stream: bytes)
    ensures Feed(parse, limits, Collecting([], []), stream) == JudgeStream(parse, limits, stream)
  {
    if stream != [] {
      var n := |stream| - 1;
      FeedJudges(parse, limits, stream[..n]);
      var before := SplitStream(stream[..n]);
      if stream[n] == LF {
        var lines := before.lines + [before.tail];
        assert lines[..|lines| - 1] == before.lines;
      }
    }
  }

  /** However a stream is cut into chunks, the collector ends with the verdict on the whole stream:
      the same events in the same order, or the same reason. */
  lemma ReplayIgnoresChunking<E>(parse: Parser<E>, limits: Limits, chunks: seq<bytes>)
    ensures FeedAll(parse, limits, Collecting([], []), chunks) == JudgeStream(parse, limits, Concat(chunks))
  {
    ChunksJoin(parse, limits, Collecting([], []), chunks);
    FeedJudges(parse, limits, Concat(chunks));
  }

  // ---- What the verdict means

  predicate NoNewline(s: bytes) {
    LF !in s
  }

  /** Splitting loses nothing: joining the pieces gives the stream. */
  lemma {:induction false} SplitIsExact(s: bytes)
    ensures Unlines(SplitStream(s).lines) + SplitStream(s).tail == s
  {
    if s != [] {
      var n := |s| - 1;
      SplitIsExact(s[..n]);
      var before := SplitStream(s[..n]);
      assert s == s[..n] + [s[n]];
      if s[n] == LF {
        var lines := before.lines + [before.tail];
        assert lines[..|lines| - 1] == before.lines;
        assert Unlines(lines) == Unlines(before.lines) + before.tail + [LF];
        assert Unlines(lines) + [] == Unlines(lines);
      } else {
        ConcatIsAssociative(Unlines(before.lines), before.tail, [s[n]]);
      }
    }
  }

  lemma {:induction false} PiecesHaveNoNewline(s: bytes)
    ensures NoNewline(SplitStream(s).tail)
    ensures forall i :: 0 <= i < |SplitStream(s).lines| ==> NoNewline(SplitStream(s).lines[i])
  {
    if s != [] {
      PiecesHaveNoNewline(s[..|s| - 1]);
    }
  }

  lemma {:induction false} SplitRun(s: bytes, run: bytes)
    requires NoNewline(run)
    ensures SplitStream(s + run) == Split(SplitStream(s).lines, SplitStream(s).tail + run)
    decreases |run|
  {
    if run == [] {
      assert s + run == s;
      assert SplitStream(s).tail + run == SplitStream(s).tail;
    } else {
      var n := |run| - 1;
      assert (s + run)[..|s + run| - 1] == s + run[..n];
      SplitRun(s, run[..n]);
      assert run == run[..n] + [run[n]];
      ConcatIsAssociative(SplitStream(s).tail, run[..n], [run[n]]);
    }
  }

  /** A complete line more behind complete lines. */
  lemma LineMore(s: bytes, line: bytes)
    requires SplitStream(s).tail == [] && NoNewline(line)
    ensures SplitStream(s + (line + [LF])) == Split(SplitStream(s).lines + [line], [])
  {
    SplitRun(s, line);
    assert [] + line == line;
    ConcatIsAssociative(s, line, [LF]);
    NewlineMore(s + line);
  }

  lemma NewlineMore(s: bytes)
    ensures SplitStream(s + [LF]) == Split(SplitStream(s).lines + [SplitStream(s).tail], [])
  {
    assert (s + [LF])[..|s|] == s;
  }

  /** Printed lines split back into themselves. */
  lemma {:induction false} LinesSplitBack(lines: seq<bytes>)
    requires forall i :: 0 <= i < |lines| ==> NoNewline(lines[i])
    ensures SplitStream(Unlines(lines)) == Split(lines, [])
  {
    if lines != [] {
      var n := |lines| - 1;
      var before := Unlines(lines[..n]);
      LinesSplitBack(lines[..n]);
      LineMore(before, lines[n]);
      ConcatIsAssociative(before, lines[n], [LF]);
      assert lines == lines[..n] + [lines[n]];
    }
  }

  /** A record that replay takes at the given position. */
  predicate Good<E>(parse: Parser<E>, limits: Limits, position: nat, line: bytes) {
    line != [] && |line| <= limits.maxRecordBytes && position < limits.maxRecords && parse(line).Some?
  }

  predicate AllGood<E>(parse: Parser<E>, limits: Limits, lines: seq<bytes>) {
    forall i :: 0 <= i < |lines| ==> Good(parse, limits, i, lines[i])
  }

  lemma {:induction false} JudgeMeans<E>(parse: Parser<E>, limits: Limits, lines: seq<bytes>)
    ensures Judge(parse, limits, lines).Collecting? <==> AllGood(parse, limits, lines)
    ensures AllGood(parse, limits, lines) ==>
      forall i :: 0 <= i < |lines| ==> parse(lines[i]) == Some(Judge(parse, limits, lines).events[i])
  {
    if lines != [] {
      var n := |lines| - 1;
      var before := lines[..n];
      JudgeMeans(parse, limits, before);
      assert forall i :: 0 <= i < n ==> before[i] == lines[i];
      if AllGood(parse, limits, lines) {
        assert forall i :: 0 <= i < n ==> Good(parse, limits, i, lines[i]);
        assert Good(parse, limits, n, lines[n]);
      } else if Judge(parse, limits, before).Collecting? {
        CountBound(parse, limits, before);
      }
    }
  }

  lemma CountBound<E>(parse: Parser<E>, limits: Limits, lines: seq<bytes>)
    requires AllGood(parse, limits, lines)
    ensures |lines| <= limits.maxRecords
  {
    if lines != [] {
      assert Good(parse, limits, |lines| - 1, lines[|lines| - 1]);
    }
  }

  /** Replay accepts exactly the streams that are a series of complete, bounded, parsable records
      within the record budget, and delivers the event of every one of them, in order. */
  lemma AcceptedStreams<E>(parse: Parser<E>, limits: Limits, stream: bytes)
    ensures
      var v := Verdict(Feed(parse, limits, Collecting([], []), stream));
      v.Collecting? <==> exists lines: seq<bytes> :: DecodesTo(parse, limits, stream, lines)
    ensures
      var v := Verdict(Feed(parse, limits, Collecting([], []), stream));
      forall lines: seq<bytes> :: DecodesTo(parse, limits, stream, lines) ==>
        v.Collecting? && |v.events| == |lines| && forall i :: 0 <= i < |lines| ==> parse(lines[i]) == Some(v.events[i])
  {
    FeedJudges(parse, limits, stream);
    SplitIsExact(stream);
    PiecesHaveNoNewline(stream);
    var split := SplitStream(stream);
    JudgeMeans(parse, limits, split.lines);
    forall lines: seq<bytes> | DecodesTo(parse, limits, stream, lines) ensures split == Split(lines, []) {
      LinesSplitBack(lines);
    }
    if Verdict(JudgeStream(parse, limits, stream)).Collecting? {
      assert Unlines(split.lines) + [] == Unlines(split.lines);
      assert DecodesTo(parse, limits, stream, split.lines);
    }
  }

  predicate DecodesTo<E>(parse: Parser<E>, limits: Limits, stream: bytes, lines: seq<bytes>) {
    && stream == Unlines(lines)
    && (forall i :: 0 <= i < |lines| ==> NoNewline(lines[i]))
    && AllGood(parse, limits, lines)
  }
}
