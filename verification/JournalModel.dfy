/** The journal as a state machine: the file with its synced length, the bounded backlog, the poison
    flag, and what every operation may do to them. The class OmsJournal is proved to take only these
    steps; here they are followed through whole runs, crashes included. */
module JournalModel {

  import opened Bytes
  import opened Replay
  import ArchiveCodec

  const UINT64_MAX: nat := 0xffff_ffff_ffff_ffff

  // ---- Configuration and state

  datatype Config = Config(
    limits: Limits,
    maxPendingBytes: nat,
    maxPendingRecords: nat,
    batchSize: nat,
    asyncEnabled: bool,
    syncCritical: bool,
    criticalFlushQueued: bool,
    gzip: bool,
    member: bytes -> Option<bytes>,
    decode: ArchiveCodec.Decoder
  ) {
    /** What is written for a line: the line and its newline, in gzip storage as one member. */
    function Stored(line: bytes): Option<bytes> {
      if gzip then member(line + [LF]) else Some(line + [LF])
    }

    /** A line that is written past the backlog waits until the backlog is in the file. */
    predicate InOrder() {
      !asyncEnabled || criticalFlushQueued
    }

    function Record(line: bytes): bytes {
      if Stored(line).Some? then Stored(line).value else []
    }

    /** What the file holds once decoded. */
    ghost function Content(file: bytes): Option<bytes>
      requires ArchiveCodec.IsDecoder(decode)
    {
      if !gzip then Some(file)
      else
        var archive := ArchiveCodec.Decode(decode, file);
        if archive.None? then None else Some(archive.value.content)
    }
  }

  /** How an acknowledged line came into the file: from the backlog, or written at once. */
  datatype Entry = Queued(line: bytes) | Direct(line: bytes)

  datatype State = State(
    poisoned: bool,
    buffered: seq<bytes>,
    queue: seq<bytes>,
    pendingBytes: nat,
    file: bytes,
    synced: nat,
    capacityKnown: bool,
    capacityBytes: nat,
    capacityRecords: nat,
    storageBytes: nat,
    // Bookkeeping for the statements: the file as it was opened, the acknowledged lines in file order,
    // an unacknowledged last record, every line admitted to the backlog, and the failures so far. A counter
    // of gzip storage that cannot count any further is a failure.
    base: bytes,
    written: seq<Entry>,
    torn: bytes,
    admitted: seq<bytes>,
    faults: nat
  )

  function Backlog(s: State): seq<bytes> {
    s.buffered + s.queue
  }

  /** Every pending line counts with its newline. */
  function Cost(lines: seq<bytes>): nat {
    if lines == [] then 0 else |lines[0]| + 1 + Cost(lines[1..])
  }

  function Records(c: Config, written: seq<Entry>): bytes {
    if written == [] then []
    else Records(c, written[..|written| - 1]) + c.Record(written[|written| - 1].line)
  }

  function QueuedLines(written: seq<Entry>): seq<bytes> {
    if written == [] then []
    else
      var before := QueuedLines(written[..|written| - 1]);
      if written[|written| - 1].Queued? then before + [written[|written| - 1].line] else before
  }

  function AsQueued(lines: seq<bytes>): seq<Entry> {
    seq(|lines|, i requires 0 <= i < |lines| => Queued(lines[i]))
  }

  /** A journal just opened on a file that was synced: only an empty one has a known capacity. */
  function Opened(existing: bytes): State {
    State(false, [], [], 0, existing, |existing|, existing == [], 0, 0, |existing|, existing, [], [], [], 0)
  }

  // ---- The invariant

  /** Every acknowledged line could be stored. */
  ghost predicate AllStored(c: Config, written: seq<Entry>) {
    forall i :: 0 <= i < |written| ==> c.Stored(written[i].line).Some?
  }

  /** The file is what it was when opened, then the acknowledged records, then at most one torn
      record, which poisons the journal. */
  ghost predicate FileExact(c: Config, s: State) {
    && s.file == s.base + Records(c, s.written) + s.torn
    && AllStored(c, s.written)
    && (s.torn != [] ==> s.poisoned)
    && s.synced <= |s.file|
  }

  /** Nothing is lost, reordered or counted twice on the way through buffer and queue. */
  ghost predicate BacklogExact(c: Config, s: State) {
    && QueuedLines(s.written) + Backlog(s) == s.admitted
    && s.pendingBytes == Cost(Backlog(s))
    && s.pendingBytes <= c.maxPendingBytes
    && |Backlog(s)| <= c.maxPendingRecords
    && (!c.asyncEnabled ==> s.queue == [])
  }

  /** A line that was size- and parse-checked before it was admitted or written. */
  ghost predicate Checked<E>(parse: Parser<E>, c: Config, line: bytes) {
    line != [] && NoNewline(line) && |line| <= c.limits.maxRecordBytes && parse(line).Some?
  }

  /** What is torn is the beginning of a record that was checked. */
  ghost predicate TornChecked<E>(parse: Parser<E>, c: Config, torn: bytes) {
    torn == [] || exists line: bytes :: Checked(parse, c, line) && torn <= c.Record(line)
  }

  ghost predicate AllChecked<E>(parse: Parser<E>, c: Config, s: State) {
    && (forall i :: 0 <= i < |s.written| ==> Checked(parse, c, s.written[i].line))
    && (forall i :: 0 <= i < |Backlog(s)| ==> Checked(parse, c, Backlog(s)[i]))
    && TornChecked(parse, c, s.torn)
  }

  /** What a compressor and its decompressor promise: a member decodes to what it was made of, whatever follows. */
  ghost predicate IsCodec(c: Config) {
    && ArchiveCodec.IsDecoder(c.decode) && ArchiveCodec.IsPrefixCode(c.decode)
    && forall x, rest: bytes :: c.member(x).Some? ==>
         && c.member(x).value != []
         && c.decode(c.member(x).value + rest) == Some(ArchiveCodec.Member(|c.member(x).value|, x))
  }

  /** Plain storage, or gzip storage with a codec that keeps its promise. */
  ghost predicate Lawful(c: Config) {
    c.gzip ==> IsCodec(c)
  }

  /** What the file holds, an empty archive included. */
  ghost function Logical(c: Config, file: bytes): Option<bytes>
    requires Lawful(c)
  {
    if !c.gzip then Some(file)
    else
      var archive := ArchiveCodec.Members(c.decode, file);
      if archive.None? then None else Some(archive.value.content)
  }

  /** Complete lines, so many octets and so many of them. */
  ghost predicate Counts(content: Option<bytes>, octets: nat, records: nat) {
    && content.Some? && octets == |content.value|
    && records == |SplitStream(content.value).lines| && SplitStream(content.value).tail == []
  }

  /** A known capacity is exact: the stored octets are the length of the file, and the other two are the length
      of what it holds and its number of lines. */
  ghost predicate CapacityExact(c: Config, s: State) {
    s.capacityKnown && !s.poisoned ==>
      && s.storageBytes == |s.file|
      && (Lawful(c) ==> Counts(Logical(c, s.file), s.capacityBytes, s.capacityRecords))
  }

  ghost predicate Inv<E>(parse: Parser<E>, c: Config, s: State) {
    FileExact(c, s) && BacklogExact(c, s) && AllChecked(parse, c, s) && CapacityExact(c, s)
  }

  // ---- Steps

  /** What every operation respects: the file only grows and a synced prefix stays synced, lines are
      only added, and a poisoned journal stays exactly as it is. */
  ghost predicate Evolves(s: State, t: State) {
    && s.base == t.base
    && s.file <= t.file && s.synced <= t.synced
    && s.written <= t.written && s.admitted <= t.admitted && s.faults <= t.faults
    && (s.poisoned ==> t.poisoned && t.file == s.file && t.synced == s.synced && t.written == s.written
                       && t.admitted == s.admitted && Backlog(t) == Backlog(s))
  }

  /** No operation of the environment failed on the way. */
  ghost predicate Calm(s: State, t: State) {
    !s.poisoned && t.faults == s.faults
  }

  /** Plain storage takes every line, gzip storage while its capacity is known and a member can be made. */
  predicate Writable(c: Config, s: State, line: bytes) {
    !c.gzip || (s.capacityKnown && c.Stored(line).Some?)
  }

  /** The backlog begins with a line that is not taken. */
  predicate Stuck(c: Config, s: State) {
    Backlog(s) != [] && !Writable(c, s, Backlog(s)[0])
  }

  /** Nothing failed, and the storage refused nothing that is pending or was to be written as a pair. */
  ghost predicate Smooth(c: Config, s: State, t: State) {
    Calm(s, t) && !Stuck(c, t) && (c.gzip ==> !t.poisoned)
  }

  /** The counters can count one record more. */
  predicate Countable(c: Config, s: State, line: bytes) {
    && s.capacityBytes + |line| + 1 <= UINT64_MAX && s.storageBytes + |c.Record(line)| <= UINT64_MAX
    && s.capacityRecords != UINT64_MAX
  }

  /** Some of these lines, in order, have been written from the backlog. */
  ghost predicate DrainedFrom(s: State, lines: seq<bytes>, written: seq<Entry>) {
    exists n: nat :: n <= |lines| && written == s.written + AsQueued(lines[..n])
  }

  ghost predicate Drained(s: State, n: nat, t: State) {
    && n <= |Backlog(s)|
    && Backlog(t) == Backlog(s)[n..]
    && t.written == s.written + AsQueued(Backlog(s)[..n])
  }

  /** A flush moves a prefix of the backlog into the file and nothing else. */
  ghost predicate FlushStep(c: Config, s: State, t: State, ok: bool) {
    && Evolves(s, t) && t.synced == s.synced && t.admitted == s.admitted
    && (exists n: nat :: Drained(s, n, t))
    && (!s.poisoned ==> TornFrom(c, Backlog(s), t))
    && (ok && !s.poisoned ==> !t.poisoned)
    && (Backlog(s) == [] ==> ok)
    && (Calm(s, t) ==> !t.poisoned && (!ok || Stuck(c, s) ==> Stuck(c, t)))
    && (t.capacityKnown ==> s.capacityKnown) && KnownStays(c, s, t)
    && (c.gzip && !s.capacityKnown ==> t.file == s.file && Backlog(t) == Backlog(s))
  }

  /** Only a failure makes gzip storage lose count. */
  ghost predicate KnownStays(c: Config, s: State, t: State) {
    c.gzip && Calm(s, t) ==> t.capacityKnown == s.capacityKnown
  }

  /** Whatever is torn is the beginning of one of these records. */
  ghost predicate TornFrom(c: Config, lines: seq<bytes>, t: State) {
    t.torn == [] || exists i :: 0 <= i < |lines| && t.torn <= c.Record(lines[i])
  }

  /** The bounded backlog has room for a line. */
  predicate Room(c: Config, s: State, line: bytes) {
    |Backlog(s)| < c.maxPendingRecords && s.pendingBytes + |line| + 1 <= c.maxPendingBytes
  }

  /** Append of a line: a direct one is in the synced file when it succeeds, behind the whole backlog if
      the mode keeps the order, and any other one is the last line admitted. Without failures the only
      refusals are a full backlog, and a direct line that the storage does not take. */
  ghost predicate AppendStep(c: Config, s: State, line: bytes, direct: bool, t: State, ok: bool) {
    && Evolves(s, t)
    && (ok ==> !t.poisoned)
    && (ok && direct ==>
          && t.admitted == s.admitted && t.synced == |t.file| && t.written != []
          && t.written[|t.written| - 1] == Direct(line)
          && DrainedFrom(s, Backlog(s), t.written[..|t.written| - 1])
          && (c.InOrder() ==> t.written[..|t.written| - 1] == s.written + AsQueued(Backlog(s))))
    && (ok && !direct ==> t.admitted == s.admitted + [line] && DrainedFrom(s, Backlog(s) + [line], t.written))
    && (!ok ==> (t.admitted == s.admitted || (!direct && t.admitted == s.admitted + [line])))
    && (!ok ==> DrainedFrom(s, if t.admitted == s.admitted then Backlog(s) else Backlog(s) + [line], t.written))
    && (Calm(s, t) && Stuck(c, s) ==> Stuck(c, t)) && KnownStays(c, s, t)
    && (Smooth(c, s, t) ==> !t.poisoned && (ok <==> if direct then Writable(c, s, line) else Room(c, s, line)))
    && (Smooth(c, s, t) && !ok ==> t.admitted == s.admitted)
  }

  /** A call that was turned down: at most its path check failed, which poisons. */
  ghost predicate TurnedDown(s: State, t: State) {
    t == s || (!s.poisoned && t == s.(poisoned := true, faults := s.faults + 1))
  }

  datatype PairResult = Committed | FirstFailed | SecondFailed

  /** The two-record append of checked lines. FirstFailed leaves nothing of the second record, and
      anything left of either record by a failed call poisons the journal. */
  ghost predicate PairStep(c: Config, s: State, first: bytes, second: bytes, t: State, result: PairResult) {
    && Evolves(s, t) && t.admitted == s.admitted
    && (result == Committed ==>
          && t.synced == |t.file| && !t.poisoned && |t.written| >= 2
          && t.written[|t.written| - 2..] == [Direct(first), Direct(second)]
          && DrainedFrom(s, Backlog(s), t.written[..|t.written| - 2])
          && (c.InOrder() ==> t.written[..|t.written| - 2] == s.written + AsQueued(Backlog(s))))
    && (result == FirstFailed ==>
          && DrainedFrom(s, Backlog(s), t.written)
          && (s.poisoned || t.torn <= c.Record(first) || TornFrom(c, Backlog(s), t)))
    && (result == SecondFailed ==>
          && t.poisoned && t.written != [] && t.written[|t.written| - 1] == Direct(first)
          && DrainedFrom(s, Backlog(s), t.written[..|t.written| - 1]) && t.torn <= c.Record(second))
    && (Calm(s, t) && Stuck(c, s) ==> Stuck(c, t)) && KnownStays(c, s, t)
    && (Calm(s, t) && !Stuck(c, t) ==> (result == Committed <==> Writable(c, s, first) && Writable(c, s, second)))
    && (Calm(s, t) && !Stuck(c, t) && result != Committed ==> t.poisoned)
  }

  /** A file whose content is within its budgets and a series of good records. */
  ghost predicate Replayable<E(!new)>(parse: Parser<E>, c: Config, file: bytes)
    requires ArchiveCodec.IsDecoder(c.decode)
  {
    && (if c.gzip then ArchiveCodec.Readable(c.decode, parse, c.limits, file) else |file| <= c.limits.maxBytes)
    && Verdict(JudgeStream(parse, c.limits, c.Content(file).value)).Collecting?
  }

  /** No operation of the environment failed, and gzip storage had nothing pending. */
  ghost predicate Undisturbed(c: Config, s: State, t: State) {
    !s.poisoned && t.faults == s.faults && (c.gzip ==> Backlog(s) == [])
  }

  /** Replay: the backlog is flushed and synced first, then the verdict on the whole content is given. */
  ghost predicate ReplayStep<E(!new)>(parse: Parser<E>, c: Config, s: State, t: State, result: Option<seq<E>>)
    requires ArchiveCodec.IsDecoder(c.decode)
  {
    && Evolves(s, t) && t.admitted == s.admitted
    && DrainedFrom(s, Backlog(s), t.written)
    && (result.Some? ==>
          && !t.poisoned && Backlog(t) == [] && t.synced == |t.file|
          && Replayable(parse, c, t.file)
          && Verdict(JudgeStream(parse, c.limits, c.Content(t.file).value)) == Collecting(result.value, []))
    && (Undisturbed(c, s, t) ==> !t.poisoned && Backlog(t) == [] && (result.Some? <==> Replayable(parse, c, t.file)))
    && (c.gzip && Backlog(s) != [] ==> result.None? && t.file == s.file && Backlog(t) == Backlog(s))
    && (c.gzip && Calm(s, t) ==> t.capacityKnown == result.Some?)
  }

  /** One record written to the file, or not. A failure poisons the journal, except that gzip storage
      refuses quietly while its capacity is unknown or a member cannot be made. */
  ghost predicate Wrote(c: Config, s: State, entry: Entry, durable: bool, t: State, ok: bool) {
    && t.base == s.base && s.file <= t.file && s.synced <= t.synced && s.faults <= t.faults
    && (t.buffered, t.queue, t.pendingBytes, t.admitted) == (s.buffered, s.queue, s.pendingBytes, s.admitted)
    && (t.capacityKnown ==> s.capacityKnown)
    && (s.poisoned ==> !ok && t == s.(faults := t.faults))
    && (ok ==> !t.poisoned && t.written == s.written + [entry])
    && (ok ==> t.synced == if durable then |t.file| else s.synced)
    && (!ok ==> t.written == s.written && (s.poisoned || t.torn <= c.Record(entry.line)))
    && (!ok && !t.poisoned ==> c.gzip && t.file == s.file)
    && (!durable ==> t.synced == s.synced)
    && (c.gzip && !s.capacityKnown ==> !ok && t.file == s.file)
    && (Calm(s, t) ==> !t.poisoned && (ok <==> Writable(c, s, entry.line))) && KnownStays(c, s, t)
    && (ok && s.capacityKnown ==> (t.capacityKnown <==> Countable(c, s, entry.line)))
    && (ok ==> t.faults == s.faults + if c.gzip && !t.capacityKnown then 1 else 0)
  }

  /** The record was never started: the path check failed, or gzip storage refused. */
  lemma NotStarted(c: Config, s: State, entry: Entry, durable: bool, t: State)
    requires FileExact(c, s) && CapacityExact(c, s)
    requires t == s || (!s.poisoned && t == s.(poisoned := true, faults := s.faults + 1))
    requires t == s ==> s.poisoned || (c.gzip && (!s.capacityKnown || c.Stored(entry.line).None?))
    ensures FileExact(c, t) && CapacityExact(c, t) && Wrote(c, s, entry, durable, t, false)
  {
  }

  lemma NotTorn(c: Config, s: State)
    requires FileExact(c, s)
    ensures !s.poisoned ==> s.torn == []
    ensures s.synced <= |s.file|
  {
  }

  /** The record was started and failed. */
  lemma LeftTorn(c: Config, s: State, entry: Entry, durable: bool, part: bytes, t: State)
    requires FileExact(c, s) && CapacityExact(c, s) && !s.poisoned && part <= c.Record(entry.line)
    requires c.gzip ==> s.capacityKnown
    requires t == s.(poisoned := true, file := s.file + part, torn := part, synced := t.synced, faults := t.faults)
    requires s.synced <= t.synced <= |t.file| && (!durable ==> t.synced == s.synced) && t.faults > s.faults
    ensures FileExact(c, t) && CapacityExact(c, t) && Wrote(c, s, entry, durable, t, false)
  {
    assert s.file + [] == s.file;
    assert s.base + Records(c, s.written) + [] == s.base + Records(c, s.written);
  }

  /** The record is complete; a known capacity counts it or stops being known. */
  lemma WroteRecord(c: Config, s: State, entry: Entry, durable: bool, t: State)
    requires FileExact(c, s) && CapacityExact(c, s) && !s.poisoned && NoNewline(entry.line)
    requires c.Stored(entry.line).Some? && (c.gzip ==> s.capacityKnown)
    requires t == s.(file := s.file + c.Record(entry.line), synced := t.synced, written := s.written + [entry],
                     capacityKnown := t.capacityKnown, capacityBytes := t.capacityBytes,
                     capacityRecords := t.capacityRecords, storageBytes := t.storageBytes, faults := t.faults)
    requires s.capacityKnown ==> (t.capacityKnown <==> Countable(c, s, entry.line))
    requires t.faults == s.faults + if c.gzip && !t.capacityKnown then 1 else 0
    requires t.synced == if durable then |t.file| else s.synced
    requires t.capacityKnown ==> s.capacityKnown && t.capacityBytes == s.capacityBytes + |entry.line| + 1
                                 && t.capacityRecords == s.capacityRecords + 1
                                 && t.storageBytes == s.storageBytes + |c.Record(entry.line)|
    ensures FileExact(c, t) && CapacityExact(c, t) && Wrote(c, s, entry, durable, t, true)
  {
    hide Records, Lawful, Logical, Counts;
    assert s.base + Records(c, s.written) + [] == s.base + Records(c, s.written) by { hide *; }
    AcknowledgedFile(c, s.base, s.written, entry, t.file);
    StoredMore(c, s.written, entry);
    if t.capacityKnown && Lawful(c) {
      CountsMore(c, s.file, entry.line, s.capacityBytes, s.capacityRecords);
    }
  }

  lemma OneMember(c: Config, line: bytes)
    requires c.gzip && IsCodec(c) && c.Stored(line).Some?
    ensures ArchiveCodec.Members(c.decode, c.Record(line)) == Some(ArchiveCodec.Archive(line + [LF], 1))
  {
    var r := c.Record(line);
    assert r + [] == r;
    assert c.decode(r + []) == Some(ArchiveCodec.Member(|r|, line + [LF]));
    assert r[|r|..] == [];
    assert (line + [LF]) + [] == line + [LF];
  }

  /** A record more holds its line more. */
  lemma LogicalMore(c: Config, file: bytes, line: bytes)
    requires Lawful(c) && Logical(c, file).Some? && c.Stored(line).Some?
    ensures Logical(c, file + c.Record(line)) == Some(Logical(c, file).value + (line + [LF]))
    ensures c.gzip ==>
      ArchiveCodec.Members(c.decode, file + c.Record(line)).value.members
      == ArchiveCodec.Members(c.decode, file).value.members + 1
  {
    hide IsCodec, ArchiveCodec.Members;
    if c.gzip {
      CodecIsPrefixCode(c);
      OneMember(c, line);
      ArchiveCodec.MembersJoin(c.decode, file, c.Record(line));
    }
  }

  lemma CodecIsPrefixCode(c: Config)
    requires IsCodec(c)
    ensures ArchiveCodec.IsDecoder(c.decode) && ArchiveCodec.IsPrefixCode(c.decode)
  {
  }

  lemma CountsMore(c: Config, file: bytes, line: bytes, octets: nat, records: nat)
    requires Lawful(c) && Counts(Logical(c, file), octets, records) && c.Stored(line).Some? && NoNewline(line)
    ensures Counts(Logical(c, file + c.Record(line)), octets + |line| + 1, records + 1)
  {
    hide Lawful, Logical, SplitStream;
    LogicalMore(c, file, line);
    LineMore(Logical(c, file).value, line);
  }

  lemma StoredMore(c: Config, written: seq<Entry>, entry: Entry)
    requires AllStored(c, written) && c.Stored(entry.line).Some?
    ensures AllStored(c, written + [entry])
  {
  }

  // ---- Arithmetic of lines, entries and records

  lemma AsQueuedJoins(a: seq<bytes>, b: seq<bytes>)
    ensures AsQueued(a) + AsQueued(b) == AsQueued(a + b)
  {
  }

  lemma {:induction false} CostJoins(a: seq<bytes>, b: seq<bytes>)
    ensures Cost(a + b) == Cost(a) + Cost(b)
  {
    if a == [] {
      assert a + b == b;
    } else {
      assert (a + b)[1..] == a[1..] + b;
      CostJoins(a[1..], b);
    }
  }

  lemma RecordsGrow(c: Config, written: seq<Entry>, entry: Entry)
    ensures Records(c, written + [entry]) == Records(c, written) + c.Record(entry.line)
    ensures QueuedLines(written + [entry]) == QueuedLines(written) + if entry.Queued? then [entry.line] else []
  {
    assert (written + [entry])[..|written|] == written;
  }

  /** An acknowledged record keeps the file exact. */
  lemma AcknowledgedFile(c: Config, base: bytes, written: seq<Entry>, entry: Entry, file: bytes)
    requires file == base + Records(c, written) + c.Record(entry.line)
    ensures file == base + Records(c, written + [entry]) + []
  {
    RecordsGrow(c, written, entry);
    ConcatIsAssociative(base, Records(c, written), c.Record(entry.line));
    assert file + [] == file;
  }

  lemma EvolvesFurther(s: State, t: State, u: State)
    requires Evolves(s, t) && Evolves(t, u)
    ensures Evolves(s, u)
  {
  }

  lemma WroteEvolves(c: Config, s: State, entry: Entry, durable: bool, t: State, ok: bool)
    requires Wrote(c, s, entry, durable, t, ok)
    ensures Evolves(s, t)
  {
  }

  lemma WroteBacklog(c: Config, s: State, entry: Entry, durable: bool, t: State, ok: bool)
    requires Wrote(c, s, entry, durable, t, ok)
    ensures Backlog(t) == Backlog(s)
  {
  }

  lemma FlushEvolves(c: Config, s: State, t: State, ok: bool)
    requires FlushStep(c, s, t, ok)
    ensures Evolves(s, t) && s.faults <= t.faults
  {
  }

  // ---- Composing the writes of a flush

  /** The first buffered line has been written and leaves the buffer. */
  function Popped(s: State): State
    requires s.buffered != [] && s.pendingBytes >= |s.buffered[0]| + 1
  {
    s.(buffered := s.buffered[1..], pendingBytes := s.pendingBytes - (|s.buffered[0]| + 1))
  }

  lemma BacklogHead(s: State)
    requires s.buffered != []
    ensures Backlog(s) == [s.buffered[0]] + (s.buffered[1..] + s.queue)
    ensures Backlog(s)[0] == s.buffered[0] && Backlog(s)[1..] == s.buffered[1..] + s.queue
    ensures Backlog(s)[0..] == Backlog(s) && Backlog(s)[..0] == [] && Backlog(s)[..1] == [s.buffered[0]]
  {
  }

  lemma HeadIsChecked<E>(parse: Parser<E>, c: Config, s: State)
    requires AllChecked(parse, c, s) && s.buffered != []
    ensures NoNewline(s.buffered[0])
  {
    assert Backlog(s)[0] == s.buffered[0];
  }

  lemma PoppedBacklog(c: Config, s: State, t: State)
    requires BacklogExact(c, s) && s.buffered != []
    requires (t.buffered, t.queue, t.pendingBytes, t.admitted) == (s.buffered, s.queue, s.pendingBytes, s.admitted)
    requires t.written == s.written + [Queued(s.buffered[0])]
    ensures t.pendingBytes >= |s.buffered[0]| + 1
    ensures BacklogExact(c, Popped(t)) && Drained(s, 1, Popped(t))
  {
    var line := s.buffered[0];
    var rest := s.buffered[1..] + s.queue;
    BacklogHead(s);
    assert Cost(Backlog(s)) == |line| + 1 + Cost(rest);
    var u := Popped(t);
    assert Backlog(u) == rest;
    RecordsGrow(c, s.written, Queued(line));
    ConcatIsAssociative(QueuedLines(s.written), [line], rest);
    assert AsQueued([line]) == [Queued(line)];
  }

  lemma PoppedChecked<E>(parse: Parser<E>, c: Config, s: State, t: State)
    requires AllChecked(parse, c, s) && s.buffered != [] && t.pendingBytes >= |s.buffered[0]| + 1
    requires (t.buffered, t.queue) == (s.buffered, s.queue) && t.written == s.written + [Queued(s.buffered[0])]
    requires t.torn == []
    ensures AllChecked(parse, c, Popped(t))
  {
    BacklogHead(s);
    var b, u := Backlog(s), Popped(t);
    forall i | 0 <= i < |Backlog(u)| ensures Checked(parse, c, Backlog(u)[i]) {
      assert Backlog(u)[i] == b[i + 1];
    }
    forall i | 0 <= i < |u.written| ensures Checked(parse, c, u.written[i].line) {
      if i == |s.written| { assert u.written[i].line == b[0]; } else { assert u.written[i] == s.written[i]; }
    }
  }

  lemma DrainOne<E>(parse: Parser<E>, c: Config, s: State, t: State)
    requires Inv(parse, c, s) && s.buffered != [] && Wrote(c, s, Queued(s.buffered[0]), false, t, true)
    requires FileExact(c, t) && CapacityExact(c, t)
    ensures t.pendingBytes >= |s.buffered[0]| + 1
    ensures Inv(parse, c, Popped(t)) && FlushStep(c, s, Popped(t), true)
  {
    PoppedBacklog(c, s, t);
    PoppedChecked(parse, c, s, t);
  }

  lemma DrainNone<E>(parse: Parser<E>, c: Config, s: State, t: State)
    requires Inv(parse, c, s) && s.buffered != [] && Wrote(c, s, Queued(s.buffered[0]), false, t, false)
    requires FileExact(c, t) && CapacityExact(c, t)
    ensures Inv(parse, c, t) && FlushStep(c, s, t, false)
  {
    BacklogHead(s);
    assert Backlog(t) == Backlog(s);
    assert Checked(parse, c, Backlog(s)[0]);
    assert s.written + AsQueued([]) == s.written;
    assert Drained(s, 0, t);
    assert !s.poisoned ==> t.torn <= c.Record(Backlog(s)[0]);
  }

  lemma DrainedFurther(s: State, n: nat, t: State, m: nat, u: State)
    requires Drained(s, n, t) && Drained(t, m, u)
    ensures Drained(s, n + m, u)
  {
    var b := Backlog(s);
    assert b[n..][..m] == b[n..n + m] && b[n..][m..] == b[n + m..];
    AsQueuedJoins(b[..n], b[n..n + m]);
    assert b[..n] + b[n..n + m] == b[..n + m];
    ConcatIsAssociative(s.written, AsQueued(b[..n]), AsQueued(b[n..n + m]));
  }

  lemma TornFurther(c: Config, s: State, n: nat, t: State, u: State)
    requires Drained(s, n, t) && TornFrom(c, Backlog(t), u)
    ensures TornFrom(c, Backlog(s), u)
  {
    if u.torn != [] {
      var i :| 0 <= i < |Backlog(t)| && u.torn <= c.Record(Backlog(t)[i]);
      assert Backlog(t)[i] == Backlog(s)[n + i];
    }
  }

  lemma FlushFurther(c: Config, s: State, t: State, u: State, ok: bool)
    requires FlushStep(c, s, t, true) && FlushStep(c, t, u, ok)
    ensures FlushStep(c, s, u, ok)
  {
    var n: nat :| Drained(s, n, t);
    var m: nat :| Drained(t, m, u);
    DrainedFurther(s, n, t, m, u);
    EvolvesFurther(s, t, u);
    if !s.poisoned {
      TornFurther(c, s, n, t, u);
    }
  }

  lemma NoFlush(c: Config, s: State)
    requires s.torn != [] ==> s.poisoned
    ensures FlushStep(c, s, s, true)
  {
    var b := Backlog(s);
    assert b[0..] == b && s.written + AsQueued(b[..0]) == s.written;
    assert Drained(s, 0, s);
  }

  lemma OpenedKeeps<E>(parse: Parser<E>, c: Config, existing: bytes)
    ensures Inv(parse, c, Opened(existing))
  {
    assert existing + [] + [] == existing;
    assert existing == [] && Lawful(c) ==> Logical(c, existing) == Some([]);
  }

  lemma UnpoisonedIsWhole<E>(parse: Parser<E>, c: Config, s: State)
    requires Inv(parse, c, s)
    ensures s.torn != [] ==> s.poisoned
    ensures s.synced <= |s.file|
  {
  }

  /** A failed path check keeps the invariant. */
  lemma PathRefused<E>(parse: Parser<E>, c: Config, s: State, t: State)
    requires Inv(parse, c, s) && (t == s || t == s.(poisoned := true, faults := s.faults + 1))
    ensures Inv(parse, c, t)
  {
    assert Backlog(t) == Backlog(s);
  }

  // ---- Moving the queue into the buffer

  function Moved(s: State): State
    requires s.queue != []
  {
    s.(buffered := s.buffered + [s.queue[0]], queue := s.queue[1..])
  }

  lemma MoveStep<E>(parse: Parser<E>, c: Config, s: State)
    requires Inv(parse, c, s) && s.queue != []
    ensures Backlog(Moved(s)) == Backlog(s)
    ensures Inv(parse, c, Moved(s)) && FlushStep(c, s, Moved(s), true)
  {
    var t := Moved(s);
    assert [s.queue[0]] + s.queue[1..] == s.queue;
    ConcatIsAssociative(s.buffered, [s.queue[0]], s.queue[1..]);
    var b := Backlog(s);
    assert b[0..] == b && s.written + AsQueued(b[..0]) == s.written;
    assert Drained(s, 0, t);
  }

  // ---- Admitting a line

  function Admitted(s: State, line: bytes, asynchronous: bool): State {
    var t := s.(pendingBytes := s.pendingBytes + |line| + 1, admitted := s.admitted + [line]);
    if asynchronous then t.(queue := s.queue + [line]) else t.(buffered := s.buffered + [line])
  }

  lemma AdmittedBacklog(c: Config, s: State, line: bytes, asynchronous: bool)
    requires BacklogExact(c, s) && Room(c, s, line) && asynchronous == c.asyncEnabled
    ensures Backlog(Admitted(s, line, asynchronous)) == Backlog(s) + [line]
    ensures BacklogExact(c, Admitted(s, line, asynchronous))
  {
    var t := Admitted(s, line, asynchronous);
    if asynchronous {
      ConcatIsAssociative(s.buffered, s.queue, [line]);
    } else {
      assert Backlog(s) == s.buffered && Backlog(t) == t.buffered;
    }
    CostJoins(Backlog(s), [line]);
    assert Cost([line]) == |line| + 1 + Cost([]);
    ConcatIsAssociative(QueuedLines(s.written), Backlog(s), [line]);
  }

  lemma AdmittedStep<E>(parse: Parser<E>, c: Config, s: State, line: bytes, asynchronous: bool)
    requires Inv(parse, c, s) && Room(c, s, line) && asynchronous == c.asyncEnabled && Checked(parse, c, line)
    ensures Inv(parse, c, Admitted(s, line, asynchronous))
  {
    AdmittedBacklog(c, s, line, asynchronous);
  }

  // ---- Append

  lemma NothingDrained(s: State)
    ensures DrainedFrom(s, Backlog(s), s.written)
  {
    assert s.written + AsQueued(Backlog(s)[..0]) == s.written;
  }

  lemma FlushDrained(c: Config, s: State, t: State, ok: bool)
    requires FlushStep(c, s, t, ok)
    ensures DrainedFrom(s, Backlog(s), t.written)
  {
    var n: nat :| Drained(s, n, t);
  }

  lemma FlushedAll(c: Config, s: State, t: State, ok: bool)
    requires FlushStep(c, s, t, ok) && Backlog(t) == []
    ensures t.written == s.written + AsQueued(Backlog(s))
  {
    var n: nat :| Drained(s, n, t);
    assert Backlog(s)[..n] == Backlog(s);
  }

  /** The call is refused before anything happens, or by a path check. */
  lemma AppendRefused(c: Config, s: State, line: bytes, direct: bool, t: State)
    requires TurnedDown(s, t)
    requires t == s ==> s.poisoned || (!direct && !Room(c, s, line))
    ensures AppendStep(c, s, line, direct, t, false)
  {
    NothingDrained(s);
  }

  lemma AppendQueued(c: Config, s: State, line: bytes, asynchronous: bool, t: State, ok: bool)
    requires BacklogExact(c, s) && !s.poisoned && Room(c, s, line) && asynchronous == c.asyncEnabled
    requires FlushStep(c, Admitted(s, line, asynchronous), t, ok)
    ensures AppendStep(c, s, line, false, t, ok)
  {
    AdmittedBacklog(c, s, line, asynchronous);
    FlushDrained(c, Admitted(s, line, asynchronous), t, ok);
  }

  lemma AppendNotFlushed(c: Config, s: State, line: bytes, t: State)
    requires !s.poisoned && FlushStep(c, s, t, false)
    ensures AppendStep(c, s, line, true, t, false)
  {
    FlushDrained(c, s, t, false);
  }

  lemma AppendDirect(c: Config, s: State, line: bytes, m: State, t: State, ok: bool)
    requires !s.poisoned && FlushStep(c, s, m, true) && Wrote(c, m, Direct(line), true, t, ok)
    requires c.InOrder() ==> Backlog(m) == []
    ensures AppendStep(c, s, line, true, t, ok)
  {
    hide Drained, DrainedFrom, TornFrom, Evolves;
    FlushDrained(c, s, m, true);
    if c.InOrder() {
      FlushedAll(c, s, m, true);
    }
    FlushEvolves(c, s, m, true);
    WroteEvolves(c, m, Direct(line), true, t, ok);
    EvolvesFurther(s, m, t);
    assert ok ==> t.written[..|t.written| - 1] == m.written;
  }

  /** A line written past the backlog keeps the invariant. */
  lemma DirectKeeps<E>(parse: Parser<E>, c: Config, s: State, line: bytes, durable: bool, t: State, ok: bool)
    requires Inv(parse, c, s) && Wrote(c, s, Direct(line), durable, t, ok) && Checked(parse, c, line)
    requires FileExact(c, t) && CapacityExact(c, t)
    ensures Inv(parse, c, t)
  {
    hide QueuedLines, Cost, Checked, FileExact, CapacityExact;
    RecordsGrow(c, s.written, Direct(line));
    assert QueuedLines(s.written) + [] == QueuedLines(s.written);
    assert Backlog(t) == Backlog(s);
    NotTorn(c, t);
    WrittenIsChecked(parse, c, s.written, line);
  }

  lemma WrittenIsChecked<E>(parse: Parser<E>, c: Config, written: seq<Entry>, line: bytes)
    requires Checked(parse, c, line) && forall i :: 0 <= i < |written| ==> Checked(parse, c, written[i].line)
    ensures
      var more := written + [Direct(line)];
      forall i :: 0 <= i < |more| ==> Checked(parse, c, more[i].line)
  {
    hide Checked;
  }

  // ---- AppendDurablePair

  lemma PairRefused(c: Config, s: State, first: bytes, second: bytes, t: State)
    requires s.torn != [] ==> s.poisoned
    requires (s.poisoned && t == s) || (!s.poisoned && t == s.(poisoned := true, faults := s.faults + 1))
    ensures PairStep(c, s, first, second, t, FirstFailed)
  {
    NothingDrained(s);
  }

  lemma PairNotFlushed(c: Config, s: State, first: bytes, second: bytes, t: State)
    requires !s.poisoned && FlushStep(c, s, t, false)
    ensures PairStep(c, s, first, second, t, FirstFailed)
  {
    hide Drained, DrainedFrom, Evolves;
    FlushDrained(c, s, t, false);
  }

  lemma PoisonedFurther(s: State, t: State)
    requires Evolves(s, t)
    ensures Evolves(s, t.(poisoned := true))
  {
  }

  lemma PairFirstFailed(c: Config, s: State, first: bytes, second: bytes, m: State, t: State)
    requires !s.poisoned && FlushStep(c, s, m, true) && Wrote(c, m, Direct(first), false, t, false)
    ensures PairStep(c, s, first, second, t.(poisoned := true), FirstFailed)
  {
    hide Drained, DrainedFrom, TornFrom, Evolves;
    FlushDrained(c, s, m, true);
    FlushEvolves(c, s, m, true);
    WroteEvolves(c, m, Direct(first), false, t, false);
    EvolvesFurther(s, m, t);
    PoisonedFurther(s, t);
  }

  lemma PairSecondFailed(c: Config, s: State, first: bytes, second: bytes, m: State, u: State, t: State)
    requires !s.poisoned && FlushStep(c, s, m, true)
    requires Wrote(c, m, Direct(first), false, u, true) && Wrote(c, u, Direct(second), true, t, false)
    ensures PairStep(c, s, first, second, t.(poisoned := true), SecondFailed)
  {
    hide Drained, DrainedFrom, TornFrom, Evolves;
    FlushDrained(c, s, m, true);
    FlushEvolves(c, s, m, true);
    WroteEvolves(c, m, Direct(first), false, u, true);
    WroteEvolves(c, u, Direct(second), true, t, false);
    EvolvesFurther(s, m, u);
    EvolvesFurther(s, u, t);
    PoisonedFurther(s, t);
    assert t.written[..|t.written| - 1] == m.written;
  }

  lemma PairCommitted(c: Config, s: State, first: bytes, second: bytes, m: State, u: State, t: State)
    requires !s.poisoned && FlushStep(c, s, m, true)
    requires Wrote(c, m, Direct(first), false, u, true) && Wrote(c, u, Direct(second), true, t, true)
    requires c.InOrder() ==> Backlog(m) == []
    ensures PairStep(c, s, first, second, t, Committed)
  {
    hide Drained, DrainedFrom, TornFrom, Evolves;
    FlushDrained(c, s, m, true);
    if c.InOrder() {
      FlushedAll(c, s, m, true);
    }
    FlushEvolves(c, s, m, true);
    WroteEvolves(c, m, Direct(first), false, u, true);
    WroteEvolves(c, u, Direct(second), true, t, true);
    EvolvesFurther(s, m, u);
    EvolvesFurther(s, u, t);
    ConcatIsAssociative(m.written, [Direct(first)], [Direct(second)]);
    assert t.written == m.written + [Direct(first), Direct(second)];
    assert t.written[..|t.written| - 2] == m.written;
  }

  lemma PoisonKeeps<E>(parse: Parser<E>, c: Config, s: State, t: State)
    requires Inv(parse, c, s) && t == s.(poisoned := true, faults := t.faults)
    ensures Inv(parse, c, t)
  {
    assert Backlog(t) == Backlog(s);
  }

  // ---- Replay

  function Forgotten(s: State): State {
    s.(capacityKnown := false)
  }

  lemma ForgottenKeeps<E>(parse: Parser<E>, c: Config, s: State)
    requires Inv(parse, c, s)
    ensures Inv(parse, c, Forgotten(s))
  {
    assert Backlog(Forgotten(s)) == Backlog(s);
  }

  /** The flush of a replay, seen from the state before the capacity was forgotten. */
  lemma ReplayFlush(c: Config, s: State, m: State, ok: bool)
    requires FlushStep(c, Forgotten(s), m, ok)
    ensures Evolves(s, m) && m.admitted == s.admitted && DrainedFrom(s, Backlog(s), m.written)
    ensures c.gzip ==> m.file == s.file && Backlog(m) == Backlog(s)
    ensures s.faults <= m.faults && (Undisturbed(c, s, m) ==> ok)
    ensures ok && !s.poisoned ==> !m.poisoned
    ensures !m.capacityKnown
  {
    FlushDrained(c, Forgotten(s), m, ok);
  }

  lemma ReplayRefused<E(!new)>(parse: Parser<E>, c: Config, s: State, m: State, ok: bool, t: State)
    requires ArchiveCodec.IsDecoder(c.decode)
    requires FlushStep(c, Forgotten(s), m, ok) && (ok ==> Backlog(m) == [])
    requires t == m.(poisoned := t.poisoned, synced := t.synced, faults := t.faults)
    requires m.synced <= t.synced && m.faults <= t.faults && (m.poisoned ==> t == m)
    requires Undisturbed(c, s, t) ==> ok && !t.poisoned && !Replayable(parse, c, t.file)
    ensures ReplayStep(parse, c, s, t, None)
  {
    hide DrainedFrom, FlushStep;
    ReplayFlush(c, s, m, ok);
    assert Backlog(t) == Backlog(m);
  }

  lemma ReplayDone<E(!new)>(parse: Parser<E>, c: Config, s: State, m: State, t: State, events: seq<E>)
    requires ArchiveCodec.IsDecoder(c.decode)
    requires FlushStep(c, Forgotten(s), m, true) && Backlog(m) == [] && !m.poisoned && m.synced <= |m.file|
    requires t == m.(synced := |m.file|, capacityKnown := true, capacityBytes := t.capacityBytes,
                     capacityRecords := |events|, storageBytes := |m.file|)
    requires Replayable(parse, c, m.file)
    requires Verdict(JudgeStream(parse, c.limits, c.Content(m.file).value)) == Collecting(events, [])
    ensures ReplayStep(parse, c, s, t, Some(events))
  {
    hide DrainedFrom, FlushStep;
    ReplayFlush(c, s, m, true);
    assert Backlog(t) == Backlog(m);
  }

  /** After an accepted replay the recounted capacity is exact. */
  lemma ReplayKeeps<E>(parse: Parser<E>, c: Config, m: State, t: State, events: seq<E>)
    requires Inv(parse, c, m) && ArchiveCodec.IsDecoder(c.decode) && c.Content(m.file).Some?
    requires t == m.(synced := |m.file|, capacityKnown := true, capacityBytes := |c.Content(m.file).value|,
                     capacityRecords := |events|, storageBytes := |m.file|)
    requires Verdict(JudgeStream(parse, c.limits, c.Content(m.file).value)) == Collecting(events, [])
    ensures Inv(parse, c, t)
  {
    hide Lawful;
    assert Backlog(t) == Backlog(m);
    assert Lawful(c) ==> Logical(c, m.file) == c.Content(m.file);
  }

  lemma SyncKeeps<E>(parse: Parser<E>, c: Config, m: State, t: State)
    requires Inv(parse, c, m)
    requires t == m.(synced := |m.file|, poisoned := t.poisoned, faults := t.faults) && (m.poisoned ==> t.poisoned)
    ensures Inv(parse, c, t)
  {
    assert Backlog(t) == Backlog(m);
  }
}
