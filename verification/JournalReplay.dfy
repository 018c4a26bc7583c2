/** What a replay returns after a run in which nothing failed: the events of the file as it was opened, then those
    of the calls that reported success. Plain and gzip storage alike. */
module JournalReplay {

  import opened Bytes
  import opened Replay
  import opened JournalModel
  import opened JournalRuns
  import ArchiveCodec

  // ---- What lines weigh

  function Weight(w: bytes -> nat, lines: seq<bytes>): nat {
    if lines == [] then 0 else Weight(w, lines[..|lines| - 1]) + w(lines[|lines| - 1])
  }

  function LineOctets(line: bytes): nat {
    |line| + 1
  }

  function StoredOctets(c: Config): bytes -> nat {
    (line: bytes) => |c.Record(line)|
  }

  lemma NoWeight(w: bytes -> nat)
    ensures Weight(w, []) == 0
  {
  }

  lemma WeightMore(w: bytes -> nat, lines: seq<bytes>, line: bytes)
    ensures Weight(w, lines + [line]) == Weight(w, lines) + w(line)
  {
    assert (lines + [line])[..|lines|] == lines;
  }

  lemma {:induction false} WeightJoins(w: bytes -> nat, a: seq<bytes>, b: seq<bytes>)
    ensures Weight(w, a + b) == Weight(w, a) + Weight(w, b)
    decreases |b|
  {
    if b == [] {
      assert a + b == a;
    } else {
      var n := |b| - 1;
      WeightJoins(w, a, b[..n]);
      WeightMore(w, a + b[..n], b[n]);
      assert a + b == a + b[..n] + [b[n]];
    }
  }

  /** The lines of a file are those from the backlog and those written past it. */
  lemma {:induction false} WeightOfKinds(w: bytes -> nat, written: seq<Entry>)
    ensures Weight(w, Lines(written)) == Weight(w, QueuedLines(written)) + Weight(w, DirectLines(written))
    ensures |written| == |QueuedLines(written)| + |DirectLines(written)|
  {
    hide Weight;
    if written == [] {
      NoWeight(w);
    } else {
      var n := |written| - 1;
      WeightOfKinds(w, written[..n]);
      assert Lines(written) == Lines(written[..n]) + [written[n].line];
      WeightMore(w, Lines(written[..n]), written[n].line);
      WeightMore(w, QueuedLines(written[..n]), written[n].line);
      WeightMore(w, DirectLines(written[..n]), written[n].line);
    }
  }

  lemma {:induction false} WeightOfCalls<E>(w: bytes -> nat, ops: seq<Op<E>>)
    ensures Weight(w, AddedBy(ops)) == Weight(w, QueuedBy(ops)) + Weight(w, WrittenBy(ops))
    ensures |AddedBy(ops)| == |QueuedBy(ops)| + |WrittenBy(ops)|
  {
    hide Weight;
    NoWeight(w);
    if ops != [] {
      var n := |ops| - 1;
      WeightOfCalls(w, ops[..n]);
      WeightJoins(w, AddedBy(ops[..n]), AddedByOne(ops[n]));
      WeightJoins(w, QueuedBy(ops[..n]), QueuedByOne(ops[n]));
      WeightJoins(w, WrittenBy(ops[..n]), WrittenByOne(ops[n]));
    }
  }

  // ---- What a file holds

  /** Plain octets or an archive, of complete lines. */
  ghost predicate Whole(c: Config, file: bytes) {
    Lawful(c) && Logical(c, file).Some? && SplitStream(Logical(c, file).value).tail == []
  }

  ghost function Held(c: Config, file: bytes): seq<bytes>
    requires Whole(c, file)
  {
    SplitStream(Logical(c, file).value).lines
  }

  ghost function HeldOctets(c: Config, file: bytes): nat
    requires Whole(c, file)
  {
    |Logical(c, file).value|
  }

  ghost function MembersIn(c: Config, file: bytes): nat
    requires Whole(c, file)
  {
    if c.gzip then ArchiveCodec.Members(c.decode, file).value.members else 0
  }

  /** One record more. */
  lemma RecordHolds(c: Config, file: bytes, line: bytes)
    requires Whole(c, file) && c.Stored(line).Some? && NoNewline(line)
    ensures
      var more := file + c.Record(line);
      && Whole(c, more) && Held(c, more) == Held(c, file) + [line]
      && HeldOctets(c, more) == HeldOctets(c, file) + LineOctets(line)
      && MembersIn(c, more) == MembersIn(c, file) + if c.gzip then 1 else 0
  {
    hide SplitStream, Lawful, Logical;
    LogicalMore(c, file, line);
    LineMore(Logical(c, file).value, line);
  }

  /** The file is what it was, and then its records: their lines, their octets, one member each. */
  ghost predicate Holds(c: Config, base: bytes, lines: seq<bytes>, file: bytes)
    requires Whole(c, base)
  {
    && Whole(c, file) && Held(c, file) == Held(c, base) + lines
    && HeldOctets(c, file) == HeldOctets(c, base) + Weight(LineOctets, lines)
    && |file| == |base| + Weight(StoredOctets(c), lines)
    && MembersIn(c, file) == MembersIn(c, base) + if c.gzip then |lines| else 0
  }

  lemma HoldsNothing(c: Config, base: bytes)
    requires Whole(c, base)
    ensures Holds(c, base, [], base)
  {
    hide Whole;
    assert Held(c, base) + [] == Held(c, base);
  }

  lemma HoldsMore(c: Config, base: bytes, lines: seq<bytes>, file: bytes, line: bytes)
    requires Whole(c, base) && Holds(c, base, lines, file) && c.Stored(line).Some? && NoNewline(line)
    ensures Holds(c, base, lines + [line], file + c.Record(line))
  {
    hide Whole, Held, HeldOctets, MembersIn, Weight;
    RecordHolds(c, file, line);
    WeightMore(LineOctets, lines, line);
    WeightMore(StoredOctets(c), lines, line);
    ConcatIsAssociative(Held(c, base), lines, [line]);
  }

  lemma {:induction false} RecordsHold(c: Config, base: bytes, written: seq<Entry>)
    requires Whole(c, base) && AllStored(c, written) && forall i :: 0 <= i < |written| ==> NoNewline(written[i].line)
    ensures Holds(c, base, Lines(written), base + Records(c, written))
  {
    hide Whole, Holds;
    if written == [] {
      HoldsNothing(c, base);
      assert base + [] == base;
    } else {
      var n := |written| - 1;
      RecordsHold(c, base, written[..n]);
      HoldsMore(c, base, Lines(written[..n]), base + Records(c, written[..n]), written[n].line);
      assert Lines(written) == Lines(written[..n]) + [written[n].line];
      ConcatIsAssociative(base, Records(c, written[..n]), c.Record(written[n].line));
    }
  }

  lemma WholeFile(c: Config, s: State)
    requires FileExact(c, s) && !s.poisoned
    ensures s.file == s.base + Records(c, s.written) && AllStored(c, s.written)
  {
  }

  lemma CheckedHaveNoNewline<E>(parse: Parser<E>, c: Config, s: State)
    requires AllChecked(parse, c, s)
    ensures forall i :: 0 <= i < |s.written| ==> NoNewline(s.written[i].line)
    ensures LinesChecked(parse, c, Lines(s.written))
  {
  }

  /** An unpoisoned journal: the file as it was opened and then the acknowledged lines. */
  lemma FileHolds<E>(parse: Parser<E>, c: Config, s: State)
    requires Inv(parse, c, s) && !s.poisoned && Whole(c, s.base)
    ensures Holds(c, s.base, Lines(s.written), s.file) && LinesChecked(parse, c, Lines(s.written))
  {
    hide Holds, Records, BacklogExact, CapacityExact, Whole;
    WholeFile(c, s);
    CheckedHaveNoNewline(parse, c, s);
    RecordsHold(c, s.base, s.written);
  }

  // ---- What a replay accepts

  ghost predicate LinesChecked<E>(parse: Parser<E>, c: Config, lines: seq<bytes>) {
    forall i :: 0 <= i < |lines| ==> Checked(parse, c, lines[i])
  }

  /** Everything a replay bounds: decoded octets and records, for an archive also stored octets and members. */
  predicate Within(c: Config, stored: nat, members: nat, octets: nat, records: nat) {
    && octets <= c.limits.maxBytes && records <= c.limits.maxRecords
    && (c.gzip ==> 0 < stored <= 2 * c.limits.maxBytes + 1048576 && members <= ArchiveCodec.MAX_MEMBERS)
  }

  lemma GoodMeans<E>(parse: Parser<E>, c: Config, lines: seq<bytes>)
    requires forall i :: 0 <= i < |lines| ==> NoNewline(lines[i])
    ensures AllGood(parse, c.limits, lines) <==> LinesChecked(parse, c, lines) && |lines| <= c.limits.maxRecords
  {
    if AllGood(parse, c.limits, lines) {
      CountBound(parse, c.limits, lines);
      forall i | 0 <= i < |lines| ensures Checked(parse, c, lines[i]) {
        assert Good(parse, c.limits, i, lines[i]);
      }
    }
  }

  /** A file of complete lines is replayable exactly when every line is good and it is within its budgets. */
  lemma ReplayableMeans<E(!new)>(parse: Parser<E>, c: Config, file: bytes)
    requires ArchiveCodec.IsDecoder(c.decode) && Whole(c, file)
    ensures Replayable(parse, c, file) <==>
      && LinesChecked(parse, c, Held(c, file))
      && Within(c, |file|, MembersIn(c, file), HeldOctets(c, file), |Held(c, file)|)
  {
    hide ArchiveCodec.Members, Judge, SplitStream, AllGood, LinesChecked;
    var content := Logical(c, file).value;
    PiecesHaveNoNewline(content);
    GoodMeans(parse, c, SplitStream(content).lines);
    JudgeMeans(parse, c.limits, SplitStream(content).lines);
  }

  /** The file with these lines behind it is within its budgets. */
  ghost predicate Fits(c: Config, existing: bytes, lines: seq<bytes>)
    requires Whole(c, existing)
  {
    Within(c, |existing| + Weight(StoredOctets(c), lines), MembersIn(c, existing) + if c.gzip then |lines| else 0,
           HeldOctets(c, existing) + Weight(LineOctets, lines), |Held(c, existing)| + |lines|)
  }

  lemma ReplayVerdict<E(!new)>(parse: Parser<E>, c: Config, t: State)
    requires ArchiveCodec.IsDecoder(c.decode) && Inv(parse, c, t) && !t.poisoned && Whole(c, t.base)
    ensures Replayable(parse, c, t.file) <==>
      LinesChecked(parse, c, Held(c, t.base)) && Fits(c, t.base, Lines(t.written))
    ensures Whole(c, t.file) && Held(c, t.file) == Held(c, t.base) + Lines(t.written)
  {
    hide Inv, Whole, Held, HeldOctets, MembersIn, Replayable, Weight, Checked;
    FileHolds(parse, c, t);
    ReplayableMeans(parse, c, t.file);
    var base, lines := Held(c, t.base), Lines(t.written);
    assert forall i :: 0 <= i < |base| ==> (base + lines)[i] == base[i];
    assert forall i :: 0 <= i < |lines| ==> (base + lines)[|base| + i] == lines[i];
  }

  // ---- Runs in which nothing failed

  /** Whether gzip storage knows its capacity: the last replay decides. */
  function KnownAfter<E>(known: bool, ops: seq<Op<E>>): bool {
    if ops == [] then known
    else
      var op := ops[|ops| - 1];
      if op.Replayed? then op.events.Some? else KnownAfter(known, ops[..|ops| - 1])
  }

  lemma KnownStep<E(!new)>(parse: Parser<E>, c: Config, s: State, op: Op<E>, t: State)
    requires ArchiveCodec.IsDecoder(c.decode) && Step(parse, c, s, op, t) && Calm(s, t) && !op.Crashed? && c.gzip
    ensures t.capacityKnown == if op.Replayed? then op.events.Some? else s.capacityKnown
  {
    hide Evolves, DrainedFrom, Drained, TornFrom, Replayable, JudgeStream, Backlog;
  }

  /** What a smooth run keeps to at every step. */
  lemma {:induction false} SmoothThroughout<E(!new)>(parse: Parser<E>, c: Config, states: seq<State>, ops: seq<Op<E>>,
                                                     i: nat)
    requires ArchiveCodec.IsDecoder(c.decode) && IsRun(parse, c, states, ops) && NoCrash(ops) && i < |ops|
    requires Smooth(c, states[0], states[|ops|])
    ensures Smooth(c, states[i], states[i + 1]) && Step(parse, c, states[i], ops[i], states[i + 1])
    ensures c.gzip ==> states[i].capacityKnown == KnownAfter(states[0].capacityKnown, ops[..i])
    decreases |ops|
  {
    hide Step, Inv, IsRun, Adds, Stuck;
    RunLength(parse, c, states, ops);
    var n := |ops|;
    RunBefore(parse, c, states, ops);
    var before, s, t := ops[..n - 1], states[n - 1], states[n];
    RunFaults(parse, c, states[..n], before);
    StepFaults(parse, c, s, ops[n - 1], t);
    SmoothBefore(parse, c, states[0], s, ops[n - 1], t);
    if i < n - 1 {
      SmoothThroughout(parse, c, states[..n], before, i);
      assert before[..i] == ops[..i] && before[i] == ops[i];
    } else {
      FaultFreeRun(parse, c, states[..n], before);
      AddsIsUnpoisoned(states[0], QueuedBy(before), WrittenBy(before), s);
      if c.gzip && n > 1 {
        SmoothThroughout(parse, c, states[..n], before, n - 2);
        KnownStep(parse, c, states[n - 2], ops[n - 2], s);
        assert before[..n - 2] == ops[..n - 2] && before[n - 2] == ops[n - 2];
      }
    }
  }

  /** In a smooth run a line is written past the backlog exactly when the storage can take it: always by plain
      storage, by gzip storage while the last replay succeeded and a member can be made. A pair is committed, and
      any other line is admitted exactly when the backlog has room. */
  lemma AnswersExactly<E(!new)>(parse: Parser<E>, c: Config, states: seq<State>, ops: seq<Op<E>>, i: nat)
    requires ArchiveCodec.IsDecoder(c.decode) && IsRun(parse, c, states, ops) && NoCrash(ops) && i < |ops|
    requires Smooth(c, states[0], states[|ops|])
    ensures ops[i].Appended? && ops[i].direct ==>
      (ops[i].ok <==> !c.gzip || (KnownAfter(states[0].capacityKnown, ops[..i]) && c.Stored(ops[i].line).Some?))
    ensures ops[i].Appended? && !ops[i].direct ==> (ops[i].ok <==> Room(c, states[i], ops[i].line))
    ensures ops[i].Paired? ==> ops[i].result == Committed
  {
    hide Inv, IsRun, FlushStep, ReplayStep, Evolves, DrainedFrom, TornFrom, Backlog, Stuck;
    RunLength(parse, c, states, ops);
    SmoothThroughout(parse, c, states, ops, i);
    var s, op, t := states[i], ops[i], states[i + 1];
    if op.Paired? {
      SmoothPair(c, s, op.first, op.second, t, op.result);
    }
  }

  lemma SmoothPair(c: Config, s: State, first: bytes, second: bytes, t: State, result: PairResult)
    requires PairStep(c, s, first, second, t, result) && Smooth(c, s, t)
    ensures result == Committed
  {
  }

  /** From a file of complete lines, after any run of appends, pairs, flushes and replays in which nothing failed,
      a replay delivers the events of that file, then the event of every record written since, in file order and
      none besides. The records are the admitted lines and the lines written past the backlog, each kind in call
      order, and all of them in call order in the modes that keep it. It succeeds exactly when every line of the
      file was good and the lines of the successful calls are within the budgets. Gzip storage is not poisoned and
      has nothing pending before that replay. */
  lemma ReplayDelivers<E(!new)>(parse: Parser<E>, c: Config, existing: bytes, states: seq<State>, ops: seq<Op<E>>)
    requires ArchiveCodec.IsDecoder(c.decode) && IsRun(parse, c, states, ops) && NoCrash(ops) && Whole(c, existing)
    requires states[0] == Opened(existing) && states[|ops|].faults == 0
    requires ops != [] && ops[|ops| - 1].Replayed?
    requires c.gzip ==> !states[|ops| - 1].poisoned && Backlog(states[|ops| - 1]) == []
    ensures Smooth(c, states[0], states[|ops|])
    ensures
      var t, events := states[|ops|], ops[|ops| - 1].events;
      && QueuedLines(t.written) == QueuedBy(ops) && DirectLines(t.written) == WrittenBy(ops)
      && (c.InOrder() ==> Lines(t.written) == AddedBy(ops))
      && (events.Some? <==> LinesChecked(parse, c, Held(c, existing)) && Fits(c, existing, AddedBy(ops)))
      && (events.Some? ==> ParsesTo(parse, Held(c, existing) + Lines(t.written), events.value))
  {
    hide Step, Inv, IsRun, Adds, ReplayStep, DirectLines, ParsesTo, Lines, Weight, AddedBy, Lengthens, Whole, Held,
         LinesChecked, Fits, NoCrash;
    RunLength(parse, c, states, ops);
    var n := |ops|;
    var s, t := states[n - 1], states[n];
    ReplayIsSmooth(parse, c, existing, states, ops);
    FaultFreeRun(parse, c, states, ops);
    AddsToOpened(existing, QueuedBy(ops), WrittenBy(ops), t);
    RunBefore(parse, c, states, ops);
    RunKeeps(parse, c, states, ops, n);
    ReplayedStep(parse, c, s, ops[n - 1], t);
    ReplayOutcome(parse, c, s, t, ops[n - 1].events);
    SameFits(c, existing, t.written, ops);
    if c.InOrder() {
      OrderedRun(parse, c, states, ops);
      LengthensOpened(existing, AddedBy(ops), t);
    }
  }

  /** The replay itself is smooth, and so is everything before it. */
  lemma ReplayIsSmooth<E(!new)>(parse: Parser<E>, c: Config, existing: bytes, states: seq<State>, ops: seq<Op<E>>)
    requires ArchiveCodec.IsDecoder(c.decode) && IsRun(parse, c, states, ops) && NoCrash(ops)
    requires states[0] == Opened(existing) && states[|ops|].faults == 0
    requires ops != [] && ops[|ops| - 1].Replayed?
    requires c.gzip ==> !states[|ops| - 1].poisoned && Backlog(states[|ops| - 1]) == []
    ensures Smooth(c, states[0], states[|ops|]) && Undisturbed(c, states[|ops| - 1], states[|ops|])
  {
    hide Step, Inv, Adds, ReplayStep, QueuedBy, WrittenBy;
    RunLength(parse, c, states, ops);
    var n := |ops|;
    RunBefore(parse, c, states, ops);
    var before, s, t := ops[..n - 1], states[n - 1], states[n];
    RunFaults(parse, c, states[..n], before);
    StepFaults(parse, c, s, ops[n - 1], t);
    if !c.gzip {
      FaultFreeRun(parse, c, states[..n], before);
      AddsIsUnpoisoned(states[0], QueuedBy(before), WrittenBy(before), s);
    }
    ReplayedStep(parse, c, s, ops[n - 1], t);
    UndisturbedReplay(parse, c, s, t, ops[n - 1].events);
  }

  lemma UndisturbedReplay<E(!new)>(parse: Parser<E>, c: Config, s: State, t: State, events: Option<seq<E>>)
    requires ArchiveCodec.IsDecoder(c.decode) && ReplayStep(parse, c, s, t, events) && Undisturbed(c, s, t)
    ensures !t.poisoned && Backlog(t) == []
    ensures events.Some? <==> Replayable(parse, c, t.file)
    ensures events.Some? ==>
      Verdict(JudgeStream(parse, c.limits, c.Content(t.file).value)) == Collecting(events.value, [])
  {
    hide Evolves, DrainedFrom, Replayable, JudgeStream;
  }

  lemma AddsToOpened(existing: bytes, queued: seq<bytes>, direct: seq<bytes>, t: State)
    requires Adds(Opened(existing), queued, direct, t)
    ensures t.admitted == queued && DirectLines(t.written) == direct && t.base == existing && !t.poisoned
  {
    assert [] + queued == queued && [] + direct == direct;
  }

  lemma LengthensOpened(existing: bytes, lines: seq<bytes>, t: State)
    requires Lengthens(Opened(existing), lines, t) && Backlog(t) == []
    ensures Lines(t.written) == lines
  {
    assert [] + [] + lines == lines && Lines(t.written) + [] == Lines(t.written);
  }

  lemma SameFits<E>(c: Config, existing: bytes, written: seq<Entry>, ops: seq<Op<E>>)
    requires Whole(c, existing) && QueuedLines(written) == QueuedBy(ops) && DirectLines(written) == WrittenBy(ops)
    ensures Fits(c, existing, Lines(written)) <==> Fits(c, existing, AddedBy(ops))
  {
    hide Whole, Held, HeldOctets, MembersIn, Weight, AddedBy;
    WeightOfKinds(LineOctets, written);
    WeightOfKinds(StoredOctets(c), written);
    WeightOfCalls(LineOctets, ops);
    WeightOfCalls(StoredOctets(c), ops);
  }

  lemma ReplayOutcome<E(!new)>(parse: Parser<E>, c: Config, s: State, t: State, events: Option<seq<E>>)
    requires ArchiveCodec.IsDecoder(c.decode) && ReplayStep(parse, c, s, t, events) && Undisturbed(c, s, t)
    requires Inv(parse, c, t) && Whole(c, t.base)
    ensures QueuedLines(t.written) == t.admitted && Backlog(t) == []
    ensures events.Some? <==> LinesChecked(parse, c, Held(c, t.base)) && Fits(c, t.base, Lines(t.written))
    ensures events.Some? ==> ParsesTo(parse, Held(c, t.base) + Lines(t.written), events.value)
  {
    hide ParsesTo, ReplayStep, Replayable, AllChecked, FileExact, CapacityExact, JudgeStream, Fits, LinesChecked;
    UndisturbedReplay(parse, c, s, t, events);
    ReplayVerdict(parse, c, t);
    assert QueuedLines(t.written) + [] == QueuedLines(t.written);
    if events.Some? {
      ContentIsLogical(parse, c, t.file);
      EventsOfLines(parse, c.limits, c.Content(t.file).value, events.value);
    }
  }

  lemma ContentIsLogical<E(!new)>(parse: Parser<E>, c: Config, file: bytes)
    requires ArchiveCodec.IsDecoder(c.decode) && Whole(c, file) && Replayable(parse, c, file)
    ensures c.Content(file) == Logical(c, file)
  {
    hide JudgeStream, SplitStream;
  }
}
