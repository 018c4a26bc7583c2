/** Whole runs of the journal: what a crash cannot take away, what poison stops, and what a replay of a
    fault-free run delivers. */
module JournalRuns {

  import opened Bytes
  import opened Replay
  import opened JournalModel
  import ArchiveCodec

  /** A call with its outcome, or a crash that keeps some octets at or behind the synced length. */
  datatype Op<+E> =
    | Appended(line: bytes, direct: bool, ok: bool)
    | Paired(first: bytes, second: bytes, result: PairResult)
    | Flushed(ok: bool)
    | Declined
    | Replayed(events: Option<seq<E>>)
    | Crashed(kept: nat)

  ghost predicate Step<E(!new)>(parse: Parser<E>, c: Config, s: State, op: Op<E>, t: State)
    requires ArchiveCodec.IsDecoder(c.decode)
  {
    match op
    case Appended(line, direct, ok) => AppendStep(c, s, line, direct, t, ok)
    case Paired(first, second, result) => PairStep(c, s, first, second, t, result)
    case Flushed(ok) => FlushStep(c, s, t, ok)
    case Declined => TurnedDown(s, t)
    case Replayed(events) => ReplayStep(parse, c, s, t, events)
    case Crashed(kept) => s.synced <= kept <= |s.file| && t == Opened(s.file[..kept])
  }

  ghost predicate IsRun<E(!new)>(parse: Parser<E>, c: Config, states: seq<State>, ops: seq<Op<E>>)
    requires ArchiveCodec.IsDecoder(c.decode)
  {
    && |states| == |ops| + 1
    && (forall i :: 0 <= i < |states| ==> Inv(parse, c, states[i]))
    && (forall i :: 0 <= i < |ops| ==> Step(parse, c, states[i], ops[i], states[i + 1]))
  }

  lemma RunStarts<E(!new)>(parse: Parser<E>, c: Config, s: State)
    requires ArchiveCodec.IsDecoder(c.decode) && Inv(parse, c, s)
    ensures IsRun<E>(parse, c, [s], []) && NoCrash<E>([])
  {
  }

  lemma RunGrows<E(!new)>(parse: Parser<E>, c: Config, states: seq<State>, ops: seq<Op<E>>, op: Op<E>, t: State)
    requires ArchiveCodec.IsDecoder(c.decode) && IsRun(parse, c, states, ops)
    requires Inv(parse, c, t) && Step(parse, c, states[|ops|], op, t)
    ensures IsRun(parse, c, states + [t], ops + [op])
  {
    hide Inv, Step;
    var ss, os := states + [t], ops + [op];
    forall i | 0 <= i < |os| ensures Step(parse, c, ss[i], os[i], ss[i + 1]) {
      if i < |ops| {
        assert ss[i] == states[i] && os[i] == ops[i] && ss[i + 1] == states[i + 1];
      }
    }
  }

  lemma RunBefore<E(!new)>(parse: Parser<E>, c: Config, states: seq<State>, ops: seq<Op<E>>)
    requires ArchiveCodec.IsDecoder(c.decode) && IsRun(parse, c, states, ops) && ops != []
    ensures IsRun(parse, c, states[..|ops|], ops[..|ops| - 1])
    ensures Step(parse, c, states[|ops| - 1], ops[|ops| - 1], states[|ops|])
    ensures ops == ops[..|ops| - 1] + [ops[|ops| - 1]]
  {
    hide Step, Inv;
    var before := ops[..|ops| - 1];
    forall i | 0 <= i < |before| ensures Step(parse, c, states[..|ops|][i], before[i], states[..|ops|][i + 1]) {
      assert Step(parse, c, states[i], ops[i], states[i + 1]);
    }
    var last := |ops| - 1;
    assert Step(parse, c, states[last], ops[last], states[last + 1]);
  }

  // ---- Crash safety

  /** What was synced in s is still at the head of the file in t, and still synced. */
  ghost predicate Survives(s: State, t: State) {
    s.synced <= |s.file| && s.synced <= t.synced <= |t.file| && s.file[..s.synced] <= t.file
  }

  lemma StepSurvives<E(!new)>(parse: Parser<E>, c: Config, s: State, op: Op<E>, t: State)
    requires ArchiveCodec.IsDecoder(c.decode) && Inv(parse, c, s) && Inv(parse, c, t) && Step(parse, c, s, op, t)
    ensures Survives(s, t)
  {
    hide BacklogExact, AllChecked, CapacityExact, DrainedFrom, Drained, TornFrom, Replayable;
  }

  /** Nothing that was synced is ever lost, whatever fails and however often the process dies. */
  lemma {:induction false} SyncedSurvives<E(!new)>(parse: Parser<E>, c: Config, states: seq<State>, ops: seq<Op<E>>,
                                                   i: nat)
    requires ArchiveCodec.IsDecoder(c.decode) && IsRun(parse, c, states, ops) && i < |states|
    ensures Survives(states[i], states[|ops|])
    decreases |ops|
  {
    hide Inv, Step;
    var n := |ops|;
    if i == n {
      UnpoisonedIsWhole(parse, c, states[n]);
    } else {
      RunBefore(parse, c, states, ops);
      SyncedSurvives(parse, c, states[..n], ops[..n - 1], i);
      StepSurvives(parse, c, states[n - 1], ops[n - 1], states[n]);
      var s, t, u := states[i], states[n - 1], states[n];
      assert s.file[..s.synced] <= t.file[..t.synced];
    }
  }

  /** The octets lie contiguously inside the synced part of the file. */
  ghost predicate Keeps(s: State, octets: bytes) {
    s.synced <= |s.file| && exists before: bytes :: before + octets <= s.file[..s.synced]
  }

  lemma DirectIsKept(c: Config, s: State, line: bytes)
    requires FileExact(c, s) && !s.poisoned && s.synced == |s.file|
    requires s.written != [] && s.written[|s.written| - 1] == Direct(line)
    ensures Keeps(s, c.Record(line))
  {
    var n := |s.written| - 1;
    assert s.written == s.written[..n] + [Direct(line)];
    RecordsGrow(c, s.written[..n], Direct(line));
    var before := Records(c, s.written[..n]);
    ConcatIsAssociative(s.base, before, c.Record(line));
    assert (s.base + before) + c.Record(line) + [] == (s.base + before) + c.Record(line);
    assert (s.base + before) + c.Record(line) <= s.file[..s.synced];
  }

  lemma PairIsKept(c: Config, s: State, first: bytes, second: bytes)
    requires FileExact(c, s) && !s.poisoned && s.synced == |s.file|
    requires |s.written| >= 2 && s.written[|s.written| - 2..] == [Direct(first), Direct(second)]
    ensures Keeps(s, c.Record(first) + c.Record(second))
  {
    var n := |s.written| - 2;
    var w, r1, r2 := s.written[..n], c.Record(first), c.Record(second);
    assert s.written == w + [Direct(first)] + [Direct(second)];
    RecordsGrow(c, w, Direct(first));
    RecordsGrow(c, w + [Direct(first)], Direct(second));
    var before := Records(c, w);
    ConcatIsAssociative(before, r1, r2);
    ConcatIsAssociative(s.base, before, r1 + r2);
    assert (s.base + before) + (r1 + r2) + [] == (s.base + before) + (r1 + r2);
    assert (s.base + before) + (r1 + r2) <= s.file[..s.synced];
  }

  lemma KeptFurther(s: State, octets: bytes, t: State)
    requires Keeps(s, octets) && Survives(s, t)
    ensures Keeps(t, octets)
  {
    var before: bytes :| before + octets <= s.file[..s.synced];
    assert s.file[..s.synced] <= t.file[..t.synced];
    assert before + octets <= t.file[..t.synced];
  }

  /** A critical Append in sync mode that returned true, and a pair that returned Committed, lie whole
      and in order inside the synced part of the file after every later step, crashes included. */
  lemma CommittedSurvives<E(!new)>(parse: Parser<E>, c: Config, states: seq<State>, ops: seq<Op<E>>, i: nat)
    requires ArchiveCodec.IsDecoder(c.decode) && IsRun(parse, c, states, ops) && i < |ops|
    ensures ops[i].Appended? && ops[i].direct && ops[i].ok ==> Keeps(states[|ops|], c.Record(ops[i].line))
    ensures ops[i].Paired? && ops[i].result == Committed ==>
      Keeps(states[|ops|], c.Record(ops[i].first) + c.Record(ops[i].second))
  {
    hide Evolves, DrainedFrom, BacklogExact, AllChecked, CapacityExact, FileExact, Keeps, Survives, FlushStep,
      ReplayStep;
    assert Step(parse, c, states[i], ops[i], states[i + 1]);
    var s := states[i + 1];
    SyncedSurvives(parse, c, states, ops, i + 1);
    if ops[i].Appended? && ops[i].direct && ops[i].ok {
      DirectIsKept(c, s, ops[i].line);
      KeptFurther(s, c.Record(ops[i].line), states[|ops|]);
    } else if ops[i].Paired? && ops[i].result == Committed {
      PairIsKept(c, s, ops[i].first, ops[i].second);
      KeptFurther(s, c.Record(ops[i].first) + c.Record(ops[i].second), states[|ops|]);
    }
  }

  // ---- Poison

  predicate Succeeds<E>(op: Op<E>) {
    match op
    case Appended(_, _, ok) => ok
    case Paired(_, _, result) => result == Committed
    case Replayed(events) => events.Some?
    case _ => false
  }

  /** Once poisoned, until the process dies, no call adds an octet or reports success. */
  lemma {:induction false} PoisonIsFinal<E(!new)>(parse: Parser<E>, c: Config, states: seq<State>, ops: seq<Op<E>>,
                                                  i: nat)
    requires ArchiveCodec.IsDecoder(c.decode) && IsRun(parse, c, states, ops) && i < |states| && states[i].poisoned
    requires forall k :: i <= k < |ops| ==> !ops[k].Crashed?
    ensures states[|ops|].poisoned && states[|ops|].file == states[i].file && states[|ops|].synced == states[i].synced
    ensures forall k :: i <= k < |ops| ==> !Succeeds(ops[k])
    decreases |ops|
  {
    hide Step, Inv;
    var n := |ops|;
    if i < n {
      RunBefore(parse, c, states, ops);
      PoisonIsFinal(parse, c, states[..n], ops[..n - 1], i);
      PoisonedStep(parse, c, states[n - 1], ops[n - 1], states[n]);
      forall k | i <= k < n ensures !Succeeds(ops[k]) {
        assert k < n - 1 ==> ops[k] == ops[..n - 1][k];
      }
    }
  }

  lemma PoisonedStep<E(!new)>(parse: Parser<E>, c: Config, s: State, op: Op<E>, t: State)
    requires ArchiveCodec.IsDecoder(c.decode) && Step(parse, c, s, op, t) && s.poisoned && !op.Crashed?
    ensures t.poisoned && t.file == s.file && t.synced == s.synced && !Succeeds(op)
  {
    hide DrainedFrom, Drained, TornFrom, Replayable, Backlog;
  }

  // ---- A failed pair

  lemma {:induction false} RecordsJoin(c: Config, a: seq<Entry>, b: seq<Entry>)
    ensures Records(c, a + b) == Records(c, a) + Records(c, b)
    decreases |b|
  {
    if b == [] {
      assert a + b == a;
      assert Records(c, a) + [] == Records(c, a);
    } else {
      var n := |b| - 1;
      assert a + b == (a + b[..n]) + [b[n]] && b == b[..n] + [b[n]];
      RecordsJoin(c, a, b[..n]);
      RecordsGrow(c, a + b[..n], b[n]);
      RecordsGrow(c, b[..n], b[n]);
      ConcatIsAssociative(Records(c, a), Records(c, b[..n]), c.Record(b[n].line));
    }
  }

  /** A pair that returned FirstFailed added whole records of the backlog at most, and behind them no
      octet but a beginning of one record that is not the second of the pair, which poisons. */
  lemma FirstFailedLeaves(c: Config, s: State, first: bytes, second: bytes, t: State)
    requires FileExact(c, s) && FileExact(c, t) && !s.poisoned && PairStep(c, s, first, second, t, FirstFailed)
    ensures exists n: nat :: n <= |Backlog(s)| && t.file == s.file + Records(c, AsQueued(Backlog(s)[..n])) + t.torn
    ensures t.torn != [] ==> t.poisoned
    ensures t.torn <= c.Record(first) || exists i :: 0 <= i < |Backlog(s)| && t.torn <= c.Record(Backlog(s)[i])
  {
    var n: nat :| n <= |Backlog(s)| && t.written == s.written + AsQueued(Backlog(s)[..n]);
    var more := AsQueued(Backlog(s)[..n]);
    RecordsJoin(c, s.written, more);
    ConcatIsAssociative(s.base, Records(c, s.written), Records(c, more));
    assert s.base + Records(c, s.written) + [] == s.base + Records(c, s.written);
    assert t.file == s.file + Records(c, more) + t.torn;
    assert t.torn == [] ==> t.torn <= c.Record(first);
  }

  // ---- Fault-free runs and replay

  function DirectLines(written: seq<Entry>): seq<bytes> {
    if written == [] then []
    else
      var before := DirectLines(written[..|written| - 1]);
      if written[|written| - 1].Direct? then before + [written[|written| - 1].line] else before
  }

  /** The lines whose admission to the backlog was reported, in call order. */
  function QueuedBy<E>(ops: seq<Op<E>>): seq<bytes> {
    if ops == [] then [] else QueuedBy(ops[..|ops| - 1]) + QueuedByOne(ops[|ops| - 1])
  }

  function QueuedByOne<E>(op: Op<E>): seq<bytes> {
    if op.Appended? && !op.direct && op.ok then [op.line] else []
  }

  /** The lines written past the backlog with success, in call order. */
  function WrittenBy<E>(ops: seq<Op<E>>): seq<bytes> {
    if ops == [] then [] else WrittenBy(ops[..|ops| - 1]) + WrittenByOne(ops[|ops| - 1])
  }

  function WrittenByOne<E>(op: Op<E>): seq<bytes> {
    if op.Appended? && op.direct && op.ok then [op.line]
    else if op.Paired? && op.result == Committed then [op.first, op.second]
    else []
  }

  lemma DirectGrow(written: seq<Entry>, entry: Entry)
    ensures DirectLines(written + [entry]) == DirectLines(written) + if entry.Direct? then [entry.line] else []
  {
    assert (written + [entry])[..|written|] == written;
  }

  lemma {:induction false} DrainIsNotDirect(written: seq<Entry>, lines: seq<bytes>)
    ensures DirectLines(written + AsQueued(lines)) == DirectLines(written)
    decreases |lines|
  {
    if lines == [] {
      assert written + AsQueued(lines) == written;
    } else {
      var n := |lines| - 1;
      DrainIsNotDirect(written, lines[..n]);
      assert written + AsQueued(lines) == (written + AsQueued(lines[..n])) + [Queued(lines[n])];
      DirectGrow(written + AsQueued(lines[..n]), Queued(lines[n]));
    }
  }

  lemma DrainedIsNotDirect(s: State, lines: seq<bytes>, written: seq<Entry>)
    requires DrainedFrom(s, lines, written)
    ensures DirectLines(written) == DirectLines(s.written)
  {
    var n: nat :| n <= |lines| && written == s.written + AsQueued(lines[..n]);
    DrainIsNotDirect(s.written, lines[..n]);
  }

  /** What one call adds when nothing fails. */
  ghost predicate Adds(s: State, queued: seq<bytes>, direct: seq<bytes>, t: State) {
    && !t.poisoned && t.base == s.base
    && t.admitted == s.admitted + queued
    && DirectLines(t.written) == DirectLines(s.written) + direct
  }

  lemma AppendAdds(c: Config, s: State, line: bytes, direct: bool, t: State, ok: bool)
    requires AppendStep(c, s, line, direct, t, ok) && Smooth(c, s, t)
    ensures Adds(s, if !direct && ok then [line] else [], if direct && ok then [line] else [], t)
  {
    hide DrainedFrom;
    if direct && ok {
      var w := t.written[..|t.written| - 1];
      DrainedIsNotDirect(s, Backlog(s), w);
      assert t.written == w + [Direct(line)];
      DirectGrow(w, Direct(line));
    } else {
      DrainedIsNotDirect(s, if ok then Backlog(s) + [line] else Backlog(s), t.written);
    }
  }

  lemma PairAdds(c: Config, s: State, first: bytes, second: bytes, t: State, result: PairResult)
    requires PairStep(c, s, first, second, t, result) && Smooth(c, s, t)
    ensures result == Committed && Adds(s, [], [first, second], t)
  {
    hide DrainedFrom;
    var w := t.written[..|t.written| - 2];
    DrainedIsNotDirect(s, Backlog(s), w);
    assert t.written == w + [Direct(first)] + [Direct(second)];
    DirectGrow(w, Direct(first));
    DirectGrow(w + [Direct(first)], Direct(second));
  }

  lemma FlushAdds(c: Config, s: State, t: State, ok: bool)
    requires FlushStep(c, s, t, ok) && Smooth(c, s, t)
    ensures Adds(s, [], [], t)
  {
    hide DrainedFrom, DirectLines;
    FlushDrained(c, s, t, ok);
    DrainedIsNotDirect(s, Backlog(s), t.written);
  }

  lemma ReplayAdds<E(!new)>(parse: Parser<E>, c: Config, s: State, t: State, events: Option<seq<E>>)
    requires ArchiveCodec.IsDecoder(c.decode) && ReplayStep(parse, c, s, t, events) && Smooth(c, s, t)
    ensures Adds(s, [], [], t)
  {
    hide DrainedFrom, DirectLines, Replayable, JudgeStream;
    DrainedIsNotDirect(s, Backlog(s), t.written);
  }

  lemma SmoothStep<E(!new)>(parse: Parser<E>, c: Config, s: State, op: Op<E>, t: State)
    requires ArchiveCodec.IsDecoder(c.decode) && Step(parse, c, s, op, t) && Smooth(c, s, t) && !op.Crashed?
    ensures Adds(s, QueuedByOne(op), WrittenByOne(op), t)
  {
    hide AppendStep, PairStep, FlushStep, ReplayStep, DirectLines;
    match op
    case Appended(line, direct, ok) => AppendAdds(c, s, line, direct, t, ok);
    case Paired(first, second, result) => PairAdds(c, s, first, second, t, result);
    case Flushed(ok) => FlushAdds(c, s, t, ok);
    case Declined =>
    case Replayed(events) => ReplayAdds(parse, c, s, t, events);
  }

  lemma StepFaults<E(!new)>(parse: Parser<E>, c: Config, s: State, op: Op<E>, t: State)
    requires ArchiveCodec.IsDecoder(c.decode) && Step(parse, c, s, op, t) && !op.Crashed?
    ensures s.faults <= t.faults
  {
    hide DrainedFrom, Drained, TornFrom, Replayable, Backlog;
  }

  /** A backlog that is not taken stays so while nothing fails. */
  lemma StuckStays<E(!new)>(parse: Parser<E>, c: Config, s: State, op: Op<E>, t: State)
    requires ArchiveCodec.IsDecoder(c.decode) && Step(parse, c, s, op, t) && !op.Crashed?
    requires Calm(s, t) && Stuck(c, s)
    ensures Stuck(c, t)
  {
    hide Evolves, DrainedFrom, Drained, TornFrom, Replayable, JudgeStream, Backlog;
  }

  lemma SmoothBefore<E(!new)>(parse: Parser<E>, c: Config, start: State, s: State, op: Op<E>, t: State)
    requires ArchiveCodec.IsDecoder(c.decode) && Step(parse, c, s, op, t) && !op.Crashed?
    requires Smooth(c, start, t) && s.faults == start.faults
    ensures Smooth(c, start, s)
  {
    hide Step, Backlog;
    if c.gzip {
      if s.poisoned {
        PoisonedStep(parse, c, s, op, t);
      } else if Stuck(c, s) {
        StuckStays(parse, c, s, op, t);
      }
    }
  }

  lemma {:induction false} RunFaults<E(!new)>(parse: Parser<E>, c: Config, states: seq<State>, ops: seq<Op<E>>)
    requires ArchiveCodec.IsDecoder(c.decode) && IsRun(parse, c, states, ops) && NoCrash(ops)
    ensures states[0].faults <= states[|ops|].faults
    decreases |ops|
  {
    hide Step, Inv;
    var n := |ops|;
    if n > 0 {
      RunBefore(parse, c, states, ops);
      RunFaults(parse, c, states[..n], ops[..n - 1]);
      StepFaults(parse, c, states[n - 1], ops[n - 1], states[n]);
    }
  }

  predicate NoCrash<E>(ops: seq<Op<E>>) {
    forall i :: 0 <= i < |ops| ==> !ops[i].Crashed?
  }

  lemma RunLength<E(!new)>(parse: Parser<E>, c: Config, states: seq<State>, ops: seq<Op<E>>)
    requires ArchiveCodec.IsDecoder(c.decode) && IsRun(parse, c, states, ops)
    ensures |states| == |ops| + 1
  {
  }

  lemma AddsNothing(s: State)
    requires !s.poisoned
    ensures Adds(s, [], [], s)
  {
  }

  lemma AddsIsUnpoisoned(s: State, queued: seq<bytes>, direct: seq<bytes>, t: State)
    requires Adds(s, queued, direct, t)
    ensures !t.poisoned
  {
  }

  lemma AddsFurther(s: State, q: seq<bytes>, d: seq<bytes>, t: State, q': seq<bytes>, d': seq<bytes>, u: State)
    requires Adds(s, q, d, t) && Adds(t, q', d', u)
    ensures Adds(s, q + q', d + d', u)
  {
    hide DirectLines;
    ConcatIsAssociative(s.admitted, q, q');
    ConcatIsAssociative(DirectLines(s.written), d, d');
  }

  /** A smooth run admits and writes exactly what its calls reported. */
  lemma {:induction false} FaultFreeRun<E(!new)>(parse: Parser<E>, c: Config, states: seq<State>, ops: seq<Op<E>>)
    requires ArchiveCodec.IsDecoder(c.decode) && IsRun(parse, c, states, ops) && NoCrash(ops)
    requires Smooth(c, states[0], states[|ops|])
    ensures Adds(states[0], QueuedBy(ops), WrittenBy(ops), states[|ops|])
    decreases |ops|
  {
    hide Step, Inv, Adds, IsRun, QueuedByOne, WrittenByOne;
    var n := |ops|;
    RunLength(parse, c, states, ops);
    if n == 0 {
      AddsNothing(states[0]);
    } else {
      RunBefore(parse, c, states, ops);
      var before, s, t := ops[..n - 1], states[n - 1], states[n];
      RunFaults(parse, c, states[..n], before);
      StepFaults(parse, c, s, ops[n - 1], t);
      SmoothBefore(parse, c, states[0], s, ops[n - 1], t);
      FaultFreeRun(parse, c, states[..n], before);
      AddsIsUnpoisoned(states[0], QueuedBy(before), WrittenBy(before), s);
      SmoothStep(parse, c, s, ops[n - 1], t);
      AddsFurther(states[0], QueuedBy(before), WrittenBy(before), s, QueuedByOne(ops[n - 1]), WrittenByOne(ops[n - 1]),
                  t);
    }
  }

  // ---- Fault-free runs that keep the order

  function Lines(written: seq<Entry>): seq<bytes> {
    seq(|written|, i requires 0 <= i < |written| => written[i].line)
  }

  /** The lines of the calls that reported success, in call order. */
  function AddedBy<E>(ops: seq<Op<E>>): seq<bytes> {
    if ops == [] then [] else AddedBy(ops[..|ops| - 1]) + AddedByOne(ops[|ops| - 1])
  }

  function AddedByOne<E>(op: Op<E>): seq<bytes> {
    if op.Appended? && op.ok then [op.line] else WrittenByOne(op)
  }

  /** The file and the backlog behind it grow by these lines at their end. */
  ghost predicate Lengthens(s: State, lines: seq<bytes>, t: State) {
    Lines(t.written) + Backlog(t) == Lines(s.written) + Backlog(s) + lines
  }

  lemma {:induction false} DrainIsQueued(written: seq<Entry>, lines: seq<bytes>)
    ensures QueuedLines(written + AsQueued(lines)) == QueuedLines(written) + lines
    decreases |lines|
  {
    if lines == [] {
      assert written + AsQueued(lines) == written;
    } else {
      var n := |lines| - 1;
      DrainIsQueued(written, lines[..n]);
      var before := written + AsQueued(lines[..n]);
      assert written + AsQueued(lines) == before + [Queued(lines[n])];
      assert (before + [Queued(lines[n])])[..|before|] == before;
      assert lines == lines[..n] + [lines[n]];
      ConcatIsAssociative(QueuedLines(written), lines[..n], [lines[n]]);
    }
  }

  /** What a drain did not write is still pending. */
  lemma RestIsPending(s: State, lines: seq<bytes>, t: State)
    requires DrainedFrom(s, lines, t.written) && QueuedLines(t.written) + Backlog(t) == QueuedLines(s.written) + lines
    ensures Lines(t.written) + Backlog(t) == Lines(s.written) + lines
  {
    hide QueuedLines, Backlog;
    var n: nat :| n <= |lines| && t.written == s.written + AsQueued(lines[..n]);
    DrainIsQueued(s.written, lines[..n]);
    assert lines == lines[..n] + lines[n..];
    var q := QueuedLines(s.written) + lines[..n];
    ConcatIsAssociative(QueuedLines(s.written), lines[..n], lines[n..]);
    ConcatSplit(q, Backlog(t));
    ConcatSplit(q, lines[n..]);
    ConcatIsAssociative(Lines(s.written), lines[..n], lines[n..]);
    assert Lines(t.written) == Lines(s.written) + lines[..n];
  }

  /** Lines written past an emptied backlog come behind it. */
  lemma DirectIsLast(s: State, lines: seq<bytes>, t: State)
    requires t.written == s.written + AsQueued(Backlog(s)) + AsDirect(lines)
    requires QueuedLines(t.written) + Backlog(t) == QueuedLines(s.written) + Backlog(s)
    ensures Lengthens(s, lines, t)
  {
    hide QueuedLines, Backlog;
    DrainIsQueued(s.written, Backlog(s));
    DirectIsNotQueued(s.written + AsQueued(Backlog(s)), lines);
    assert Backlog(t) == [];
    assert Lines(t.written) == Lines(s.written) + Backlog(s) + lines;
    assert Lines(t.written) + [] == Lines(t.written);
  }

  function AsDirect(lines: seq<bytes>): seq<Entry> {
    seq(|lines|, i requires 0 <= i < |lines| => Direct(lines[i]))
  }

  lemma {:induction false} DirectIsNotQueued(written: seq<Entry>, lines: seq<bytes>)
    ensures QueuedLines(written + AsDirect(lines)) == QueuedLines(written)
    decreases |lines|
  {
    if lines == [] {
      assert written + AsDirect(lines) == written;
    } else {
      var n := |lines| - 1;
      DirectIsNotQueued(written, lines[..n]);
      var before := written + AsDirect(lines[..n]);
      assert written + AsDirect(lines) == before + [Direct(lines[n])];
      assert (before + [Direct(lines[n])])[..|before|] == before;
    }
  }

  lemma AppendLengthens(c: Config, s: State, line: bytes, direct: bool, t: State, ok: bool)
    requires AppendStep(c, s, line, direct, t, ok) && Smooth(c, s, t) && c.InOrder()
    requires BacklogExact(c, s) && BacklogExact(c, t)
    ensures Lengthens(s, if ok then [line] else [], t)
  {
    hide DrainedFrom, QueuedLines, Backlog;
    if direct && ok {
      assert t.written == t.written[..|t.written| - 1] + [Direct(line)];
      assert AsDirect([line]) == [Direct(line)];
      DirectIsLast(s, [line], t);
    } else {
      var more := if ok then [line] else [];
      assert Backlog(s) + [] == Backlog(s);
      ConcatIsAssociative(QueuedLines(s.written), Backlog(s), more);
      RestIsPending(s, Backlog(s) + more, t);
      ConcatIsAssociative(Lines(s.written), Backlog(s), more);
    }
  }

  lemma PairLengthens(c: Config, s: State, first: bytes, second: bytes, t: State)
    requires PairStep(c, s, first, second, t, Committed) && c.InOrder() && BacklogExact(c, s) && BacklogExact(c, t)
    ensures Lengthens(s, [first, second], t)
  {
    hide DrainedFrom, QueuedLines, Backlog;
    var n := |t.written| - 2;
    assert t.written == t.written[..n] + t.written[n..];
    assert AsDirect([first, second]) == [Direct(first), Direct(second)];
    DirectIsLast(s, [first, second], t);
  }

  lemma DrainLengthens(c: Config, s: State, t: State)
    requires DrainedFrom(s, Backlog(s), t.written) && t.admitted == s.admitted && BacklogExact(c, s)
      && BacklogExact(c, t)
    ensures Lengthens(s, [], t)
  {
    hide DrainedFrom, QueuedLines, Backlog;
    RestIsPending(s, Backlog(s), t);
    assert Lines(s.written) + Backlog(s) + [] == Lines(s.written) + Backlog(s);
  }

  lemma StepLengthens<E(!new)>(parse: Parser<E>, c: Config, s: State, op: Op<E>, t: State)
    requires ArchiveCodec.IsDecoder(c.decode) && Step(parse, c, s, op, t) && Smooth(c, s, t) && !op.Crashed?
    requires c.InOrder() && Inv(parse, c, s) && Inv(parse, c, t)
    ensures Lengthens(s, AddedByOne(op), t)
  {
    hide AppendStep, PairStep, FlushStep, Lengthens, DrainedFrom, Evolves, FileExact, BacklogExact, AllChecked,
      CapacityExact;
    match op
    case Appended(line, direct, ok) => AppendLengthens(c, s, line, direct, t, ok);
    case Paired(first, second, result) =>
      PairAdds(c, s, first, second, t, result);
      PairLengthens(c, s, first, second, t);
    case Flushed(ok) =>
      FlushDrained(c, s, t, ok);
      FlushAdmits(c, s, t, ok);
      DrainLengthens(c, s, t);
    case Declined =>
      NothingDrained(s);
      DrainLengthens(c, s, t);
    case Replayed(events) => DrainLengthens(c, s, t);
  }

  lemma FlushAdmits(c: Config, s: State, t: State, ok: bool)
    requires FlushStep(c, s, t, ok)
    ensures t.admitted == s.admitted
  {
  }

  lemma LengthensFurther(s: State, a: seq<bytes>, t: State, b: seq<bytes>, u: State)
    requires Lengthens(s, a, t) && Lengthens(t, b, u)
    ensures Lengthens(s, a + b, u)
  {
    hide Lines, Backlog;
    ConcatIsAssociative(Lines(s.written) + Backlog(s), a, b);
  }

  /** In the synchronous mode, and when critical records flush the queue, a fault-free run leaves the lines of
      its successful calls in the file and the backlog behind it, in call order. */
  lemma {:induction false} OrderedRun<E(!new)>(parse: Parser<E>, c: Config, states: seq<State>, ops: seq<Op<E>>)
    requires ArchiveCodec.IsDecoder(c.decode) && IsRun(parse, c, states, ops) && NoCrash(ops)
    requires Smooth(c, states[0], states[|ops|]) && c.InOrder()
    ensures Lengthens(states[0], AddedBy(ops), states[|ops|])
    decreases |ops|
  {
    hide Step, Inv, Adds, Lengthens, IsRun, AddedByOne, QueuedBy, WrittenBy;
    var n := |ops|;
    RunLength(parse, c, states, ops);
    if n == 0 {
      LengthensNothing(states[0]);
    } else {
      RunBefore(parse, c, states, ops);
      var before, s, t := ops[..n - 1], states[n - 1], states[n];
      RunFaults(parse, c, states[..n], before);
      StepFaults(parse, c, s, ops[n - 1], t);
      SmoothBefore(parse, c, states[0], s, ops[n - 1], t);
      FaultFreeRun(parse, c, states[..n], before);
      AddsIsUnpoisoned(states[0], QueuedBy(before), WrittenBy(before), s);
      OrderedRun(parse, c, states[..n], before);
      RunKeeps(parse, c, states, ops, n - 1);
      RunKeeps(parse, c, states, ops, n);
      StepLengthens(parse, c, s, ops[n - 1], t);
      LengthensFurther(states[0], AddedBy(before), s, AddedByOne(ops[n - 1]), t);
    }
  }

  lemma LengthensNothing(s: State)
    ensures Lengthens(s, [], s)
  {
  }

  // ---- Replay

  /** The events are those of the lines, one for each. */
  ghost predicate ParsesTo<E(!new)>(parse: Parser<E>, lines: seq<bytes>, events: seq<E>) {
    |events| == |lines| && forall i :: 0 <= i < |lines| ==> parse(lines[i]) == Some(events[i])
  }

  lemma EventsOfLines<E(!new)>(parse: Parser<E>, limits: Limits, stream: bytes, events: seq<E>)
    requires Verdict(JudgeStream(parse, limits, stream)) == Collecting(events, [])
    ensures ParsesTo(parse, SplitStream(stream).lines, events)
  {
    hide SplitStream, AllGood;
    JudgeMeans(parse, limits, SplitStream(stream).lines);
  }

  lemma ReplayedStep<E(!new)>(parse: Parser<E>, c: Config, s: State, op: Op<E>, t: State)
    requires ArchiveCodec.IsDecoder(c.decode) && Step(parse, c, s, op, t) && op.Replayed?
    ensures ReplayStep(parse, c, s, t, op.events)
  {
  }

  lemma RunKeeps<E(!new)>(parse: Parser<E>, c: Config, states: seq<State>, ops: seq<Op<E>>, i: nat)
    requires ArchiveCodec.IsDecoder(c.decode) && IsRun(parse, c, states, ops) && i < |states|
    ensures Inv(parse, c, states[i])
  {
  }
}
