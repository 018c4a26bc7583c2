/** What a journal of plain storage gives back after crashes: its file is cut anywhere at or behind the
    synced length, and is reopened when it is empty or ends with a newline. */
module JournalCrashes {

  import opened Bytes
  import opened Replay
  import opened JournalModel
  import opened JournalRuns
  import opened JournalReplay
  import ArchiveCodec

  // ---- Lines of a cut file

  /** A longer stream has the same lines first. */
  lemma {:induction false} LinesOfPrefix(a: bytes, b: bytes)
    requires a <= b
    ensures SplitStream(a).lines <= SplitStream(b).lines
    decreases |b|
  {
    if |a| < |b| {
      LinesOfPrefix(a, b[..|b| - 1]);
    } else {
      assert a == b;
    }
  }

  /** What OpenPinnedFileLocked asks of a plain file. */
  predicate Reopens(file: bytes) {
    file == [] || file[|file| - 1] == LF
  }

  lemma ReopensMeans(file: bytes)
    ensures Reopens(file) <==> SplitStream(file).tail == []
  {
  }

  // ---- Subsequences

  /** These come among those, in this order. */
  predicate Among<T(==)>(some: seq<T>, all: seq<T>) {
    some == []
    || (all != []
        && ((some[|some| - 1] == all[|all| - 1] && Among(some[..|some| - 1], all[..|all| - 1]))
            || Among(some, all[..|all| - 1])))
  }

  lemma {:induction false} AmongMore<T>(some: seq<T>, all: seq<T>, longer: seq<T>)
    requires Among(some, all) && all <= longer
    ensures Among(some, longer)
    decreases |longer|
  {
    if all == longer {
    } else {
      AmongMore(some, all, longer[..|longer| - 1]);
    }
  }

  lemma AmongNext<T>(some: seq<T>, all: seq<T>, x: T)
    requires Among(some, all)
    ensures Among(some + [x], all + [x])
  {
    assert (some + [x])[..|some|] == some && (all + [x])[..|all|] == all;
  }

  // ---- Committed lines stay among the synced lines

  ghost function SyncedLines(s: State): seq<bytes>
    requires s.synced <= |s.file|
  {
    SplitStream(s.file[..s.synced]).lines
  }

  lemma SurvivesLines(s: State, t: State)
    requires Survives(s, t)
    ensures SyncedLines(s) <= SyncedLines(t)
  {
    assert s.file[..s.synced] <= t.file[..t.synced];
    LinesOfPrefix(s.file[..s.synced], t.file[..t.synced]);
  }

  lemma RecordsAreLines(c: Config, base: bytes, written: seq<Entry>)
    requires !c.gzip && SplitStream(base).tail == [] && forall i :: 0 <= i < |written| ==> NoNewline(written[i].line)
    ensures SplitStream(base + Records(c, written)) == Split(SplitStream(base).lines + Lines(written), [])
  {
    hide Records, SplitStream;
    RecordsHold(c, base, written);
  }

  /** Lines written behind a longer list of records, all synced, come behind the synced lines of before. */
  lemma DirectIsAmong(c: Config, s: State, lines: seq<bytes>, middle: seq<Entry>, t: State, some: seq<bytes>)
    requires !c.gzip && FileExact(c, s) && FileExact(c, t) && !s.poisoned && !t.poisoned && s.base == t.base
    requires t.synced == |t.file| && t.written == s.written + middle + AsDirect(lines)
    requires SplitStream(s.base).tail == [] && forall i :: 0 <= i < |t.written| ==> NoNewline(t.written[i].line)
    requires Among(some, SyncedLines(s))
    ensures Among(some + lines, SyncedLines(t))
  {
    hide Records, SplitStream;
    var w := s.written + middle;
    WholeFile(c, s);
    WholeFile(c, t);
    RecordsJoin(c, s.written, middle);
    ConcatIsAssociative(s.base, Records(c, s.written), Records(c, middle));
    assert forall i :: 0 <= i < |w| ==> w[i] == t.written[i];
    RecordsAreLines(c, s.base, w);
    RecordsAreLines(c, s.base, t.written);
    var file := s.base + Records(c, w);
    assert s.file[..s.synced] <= file;
    LinesOfPrefix(s.file[..s.synced], file);
    AmongMore(some, SyncedLines(s), SplitStream(file).lines);
    AmongAll(some, SplitStream(file).lines, lines);
    assert Lines(t.written) == Lines(w) + lines;
    ConcatIsAssociative(SplitStream(s.base).lines, Lines(w), lines);
    assert t.file[..t.synced] == t.file;
  }

  lemma {:induction false} AmongAll<T>(some: seq<T>, all: seq<T>, more: seq<T>)
    requires Among(some, all)
    ensures Among(some + more, all + more)
    decreases |more|
  {
    hide Among;
    if more == [] {
      assert some + more == some && all + more == all;
    } else {
      var n := |more| - 1;
      AmongAll(some, all, more[..n]);
      AmongNext(some + more[..n], all + more[..n], more[n]);
      assert more == more[..n] + [more[n]];
      ConcatIsAssociative(some, more[..n], [more[n]]);
      ConcatIsAssociative(all, more[..n], [more[n]]);
    }
  }

  lemma AppendIsAmong<E>(parse: Parser<E>, c: Config, s: State, line: bytes, t: State, some: seq<bytes>)
    requires !c.gzip && Inv(parse, c, s) && Inv(parse, c, t) && AppendStep(c, s, line, true, t, true)
    requires SplitStream(s.base).tail == [] && Among(some, SyncedLines(s))
    ensures Among(some + [line], SyncedLines(t))
  {
    hide FileExact, BacklogExact, AllChecked, CapacityExact, Among;
    CheckedHaveNoNewline(parse, c, t);
    var w := t.written[..|t.written| - 1];
    var n: nat :| n <= |Backlog(s)| && w == s.written + AsQueued(Backlog(s)[..n]);
    assert t.written == w + AsDirect([line]);
    DirectIsAmong(c, s, [line], AsQueued(Backlog(s)[..n]), t, some);
  }

  lemma PairIsAmong<E>(parse: Parser<E>, c: Config, s: State, first: bytes, second: bytes, t: State, some: seq<bytes>)
    requires !c.gzip && Inv(parse, c, s) && Inv(parse, c, t) && PairStep(c, s, first, second, t, Committed)
    requires SplitStream(s.base).tail == [] && Among(some, SyncedLines(s))
    ensures Among(some + [first, second], SyncedLines(t))
  {
    hide FileExact, BacklogExact, AllChecked, CapacityExact, Among;
    CheckedHaveNoNewline(parse, c, t);
    var w := t.written[..|t.written| - 2];
    var n: nat :| n <= |Backlog(s)| && w == s.written + AsQueued(Backlog(s)[..n]);
    assert t.written == w + AsDirect([first, second]);
    DirectIsAmong(c, s, [first, second], AsQueued(Backlog(s)[..n]), t, some);
  }

  lemma StepIsAmong<E(!new)>(parse: Parser<E>, c: Config, s: State, op: Op<E>, t: State, some: seq<bytes>)
    requires ArchiveCodec.IsDecoder(c.decode) && Inv(parse, c, s) && Inv(parse, c, t) && Step(parse, c, s, op, t)
    requires !c.gzip && SplitStream(s.base).tail == [] && s.synced <= |s.file| && t.synced <= |t.file|
    requires Among(some, SyncedLines(s))
    ensures Among(some + WrittenByOne(op), SyncedLines(t))
  {
    hide Inv, AppendStep, PairStep, FlushStep, ReplayStep, Survives, Among, SyncedLines;
    if op.Appended? && op.direct && op.ok {
      AppendIsAmong(parse, c, s, op.line, t, some);
    } else if op.Paired? && op.result == Committed {
      PairIsAmong(parse, c, s, op.first, op.second, t, some);
    } else {
      StepSurvives(parse, c, s, op, t);
      SurvivesLines(s, t);
      AmongMore(some, SyncedLines(s), SyncedLines(t));
      assert some + [] == some;
    }
  }

  // ---- Every record of the file stays good

  /** A file of complete records that were all checked. */
  ghost predicate GoodFile<E>(parse: Parser<E>, c: Config, file: bytes) {
    && SplitStream(file).tail == []
    && forall i :: 0 <= i < |SplitStream(file).lines| ==> Checked(parse, c, SplitStream(file).lines[i])
  }

  /** Without poison the lines of the file are those of before and the acknowledged ones. */
  lemma FileLines<E>(parse: Parser<E>, c: Config, s: State)
    requires !c.gzip && Inv(parse, c, s) && SplitStream(s.base).tail == []
    ensures SplitStream(s.base + Records(c, s.written)) == Split(SplitStream(s.base).lines + Lines(s.written), [])
    ensures s.file == s.base + Records(c, s.written) + s.torn
    ensures LinesChecked(parse, c, Lines(s.written)) && TornChecked(parse, c, s.torn)
  {
    hide BacklogExact, CapacityExact, SplitStream, Records;
    CheckedHaveNoNewline(parse, c, s);
    RecordsAreLines(c, s.base, s.written);
  }

  /** Whatever a crash leaves of the file, its complete lines were all checked. */
  lemma CutIsGood<E>(parse: Parser<E>, c: Config, s: State, file: bytes)
    requires !c.gzip && Inv(parse, c, s) && GoodFile(parse, c, s.base) && file <= s.file
    ensures LinesChecked(parse, c, SplitStream(file).lines)
  {
    hide Inv, SplitStream, Checked;
    FileLines(parse, c, s);
    var whole := s.base + Records(c, s.written);
    LinesOfPrefix(file, s.file);
    TornLines(parse, c, whole, s.torn);
    assert LinesChecked(parse, c, SplitStream(whole).lines);
  }

  lemma TornLines<E>(parse: Parser<E>, c: Config, whole: bytes, torn: bytes)
    requires !c.gzip && SplitStream(whole).tail == [] && TornChecked(parse, c, torn)
    ensures LinesChecked(parse, c, SplitStream(whole).lines) ==> LinesChecked(parse, c, SplitStream(whole + torn).lines)
  {
    hide SplitStream;
    if torn == [] {
      assert whole + torn == whole;
    } else {
      var line: bytes :| Checked(parse, c, line) && torn <= c.Record(line);
      LineMore(whole, line);
      LinesOfPrefix(whole + torn, whole + (line + [LF]));
    }
  }

  lemma StepIsGood<E(!new)>(parse: Parser<E>, c: Config, s: State, op: Op<E>, t: State)
    requires ArchiveCodec.IsDecoder(c.decode) && Inv(parse, c, s) && Step(parse, c, s, op, t)
    requires !c.gzip && GoodFile(parse, c, s.base) && (op.Crashed? ==> Reopens(t.file))
    ensures GoodFile(parse, c, t.base)
  {
    hide Inv, SplitStream;
    if op.Crashed? {
      ReopensMeans(t.file);
      CutIsGood(parse, c, s, t.file);
    } else {
      StepBase(parse, c, s, op, t);
    }
  }

  lemma StepBase<E(!new)>(parse: Parser<E>, c: Config, s: State, op: Op<E>, t: State)
    requires ArchiveCodec.IsDecoder(c.decode) && Step(parse, c, s, op, t) && !op.Crashed?
    ensures t.base == s.base
  {
    hide DrainedFrom, Drained, TornFrom, Replayable, Backlog;
  }

  // ---- Whole runs

  /** Every crash of the run left a file that could be reopened. */
  ghost predicate AllReopen<E>(states: seq<State>, ops: seq<Op<E>>)
    requires |states| == |ops| + 1
  {
    forall i :: 0 <= i < |ops| && ops[i].Crashed? ==> Reopens(states[i + 1].file)
  }

  /** Through any run with any crashes, the file stays a file of good records, and the lines that were
      committed come among its synced lines, in call order. */
  lemma {:induction false} CommittedStay<E(!new)>(parse: Parser<E>, c: Config, states: seq<State>, ops: seq<Op<E>>,
                                                  some: seq<bytes>)
    requires ArchiveCodec.IsDecoder(c.decode) && !c.gzip && |states| == |ops| + 1 && IsRun(parse, c, states, ops)
    requires AllReopen(states, ops) && GoodFile(parse, c, states[0].base)
    requires states[0].synced <= |states[0].file| && Among(some, SyncedLines(states[0]))
    ensures GoodFile(parse, c, states[|ops|].base) && states[|ops|].synced <= |states[|ops|].file|
    ensures Among(some + WrittenBy(ops), SyncedLines(states[|ops|]))
    decreases |ops|
  {
    hide Step, Inv, IsRun, Among, SyncedLines, WrittenByOne, Reopens;
    var n := |ops|;
    if n == 0 {
      assert some + [] == some;
    } else {
      RunBefore(parse, c, states, ops);
      var before, s, t := ops[..n - 1], states[n - 1], states[n];
      CommittedStay(parse, c, states[..n], before, some);
      RunKeeps(parse, c, states, ops, n - 1);
      RunKeeps(parse, c, states, ops, n);
      UnpoisonedIsWhole(parse, c, t);
      StepIsGood(parse, c, s, ops[n - 1], t);
      StepIsAmong(parse, c, s, ops[n - 1], t, some + WrittenBy(before));
      ConcatIsAssociative(some, WrittenBy(before), WrittenByOne(ops[n - 1]));
    }
  }

  /** The verdict on a file of good records, behind what was acknowledged since it was opened. */
  lemma GoodVerdict<E(!new)>(parse: Parser<E>, c: Config, s: State)
    requires ArchiveCodec.IsDecoder(c.decode) && !c.gzip && Inv(parse, c, s) && !s.poisoned
      && GoodFile(parse, c, s.base)
    ensures SplitStream(s.file).tail == []
    ensures
      var lines := SplitStream(s.file).lines;
      Replayable(parse, c, s.file) <==> |s.file| <= c.limits.maxBytes && |lines| <= c.limits.maxRecords
  {
    hide SplitStream, Inv, Replayable;
    FileHolds(parse, c, s);
    CutIsGood(parse, c, s, s.file);
    ReplayableMeans(parse, c, s.file);
  }

  /** After any run with any failures and any crashes that left a file to reopen, a replay delivers the
      event of every record in the file, and every committed record is among them, in call order. When
      nothing fails in it, it succeeds exactly when the file is within its byte and record budgets. */
  lemma CommittedComesBack<E(!new)>(parse: Parser<E>, c: Config, states: seq<State>, ops: seq<Op<E>>)
    requires ArchiveCodec.IsDecoder(c.decode) && !c.gzip && |states| == |ops| + 1 && IsRun(parse, c, states, ops)
    requires AllReopen(states, ops) && states[0] == Opened([])
    requires ops != [] && ops[|ops| - 1].Replayed?
    ensures
      var s, t, events := states[|ops| - 1], states[|ops|], ops[|ops| - 1].events;
      var lines := SplitStream(t.file).lines;
      && (events.Some? ==> ParsesTo(parse, lines, events.value) && Among(WrittenBy(ops), lines))
      && (Undisturbed(c, s, t) ==> (events.Some? <==> |t.file| <= c.limits.maxBytes && |lines| <= c.limits.maxRecords))
  {
    hide Step, Inv, IsRun, ParsesTo, Among, SplitStream, WrittenBy, ReplayStep, AllReopen;
    var n := |ops|;
    var s, t := states[n - 1], states[n];
    StartsGood(parse, c);
    CommittedStay(parse, c, states, ops, []);
    assert [] + WrittenBy(ops) == WrittenBy(ops);
    RunBefore(parse, c, states, ops);
    RunKeeps(parse, c, states, ops, n);
    ReplayedStep(parse, c, s, ops[n - 1], t);
    ReplayGives(parse, c, s, t, ops[n - 1].events);
  }

  lemma StartsGood<E>(parse: Parser<E>, c: Config)
    ensures GoodFile(parse, c, []) && Among([], SyncedLines(Opened([])))
  {
  }

  lemma ReplayGives<E(!new)>(parse: Parser<E>, c: Config, s: State, t: State, events: Option<seq<E>>)
    requires ArchiveCodec.IsDecoder(c.decode) && !c.gzip && Inv(parse, c, t) && ReplayStep(parse, c, s, t, events)
    requires GoodFile(parse, c, t.base)
    ensures events.Some? ==> ParsesTo(parse, SplitStream(t.file).lines, events.value)
    ensures events.Some? ==> t.synced == |t.file| && t.file[..t.synced] == t.file
    ensures Undisturbed(c, s, t) ==>
      (events.Some? <==> |t.file| <= c.limits.maxBytes && |SplitStream(t.file).lines| <= c.limits.maxRecords)
  {
    hide Inv, ParsesTo, SplitStream, Evolves, DrainedFrom, Replayable, JudgeStream;
    if !t.poisoned {
      GoodVerdict(parse, c, t);
    }
    if events.Some? {
      EventsOfLines(parse, c.limits, t.file, events.value);
    }
  }
}
