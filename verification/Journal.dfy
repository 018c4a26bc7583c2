/** OmsJournal: the durable write-ahead log. Every call of the operating system that can fail may fail
    here at any time; the contracts hold whatever it does. */
module Journal {

  import opened Bytes
  import opened Replay
  import opened ArchiveCodec
  import opened JournalModel

  class OmsJournal<E(!new)> {
    const c: Config
    const parse: Parser<E>
    const build: E -> bytes
    const encodable: E -> bool
    const critical: E -> bool

    var poisoned: bool
    var buffered: seq<bytes>
    var queue: seq<bytes>
    var pendingBytes: nat
    var capacityKnown: bool
    var capacityBytes: nat
    var capacityRecords: nat
    var storageBytes: nat
    /** The file and how much of it a crash cannot take away. */
    var file: bytes
    var synced: nat

    ghost var base: bytes
    ghost var written: seq<Entry>
    ghost var torn: bytes
    ghost var admitted: seq<bytes>
    ghost var faults: nat

    ghost function View(): State
      reads this
    {
      State(poisoned, buffered, queue, pendingBytes, file, synced, capacityKnown, capacityBytes, capacityRecords,
            storageBytes, base, written, torn, admitted, faults)
    }

    ghost predicate Setup()
      reads {}
    {
      IsDecoder(c.decode) && c.batchSize > 0 && forall e :: encodable(e) ==> build(e) != [] && NoNewline(build(e))
    }

    ghost predicate Valid()
      reads this
    {
      Setup() && Inv(parse, c, View())
    }

    /** OpenPinnedFileLocked on a file that is empty, ends with a newline or is an archive. */
    constructor (c: Config, parse: Parser<E>, build: E -> bytes, encodable: E -> bool, critical: E -> bool,
                 existing: bytes)
      requires IsDecoder(c.decode) && c.batchSize > 0
      requires forall e :: encodable(e) ==> build(e) != [] && NoNewline(build(e))
      requires c.gzip || existing == [] || existing[|existing| - 1] == LF
      ensures Valid() && View() == Opened(existing)
      ensures this.c == c && this.parse == parse && this.build == build && this.encodable == encodable
        && this.critical == critical
    {
      this.c, this.parse, this.build, this.encodable, this.critical := c, parse, build, encodable, critical;
      poisoned, buffered, queue, pendingBytes := false, [], [], 0;
      capacityKnown, capacityBytes, capacityRecords, storageBytes := existing == [], 0, 0, |existing|;
      file, synced := existing, |existing|;
      base, written, torn, admitted, faults := existing, [], [], [], 0;
      new;
      hide Inv;
      OpenedKeeps(parse, c, existing);
    }

    /** ValidatePinnedPathLocked: the path may have been replaced at any time, which poisons. */
    method PathIsPinned() returns (safe: bool)
      modifies this`poisoned, this`faults
      ensures old(poisoned) ==> !safe && View() == old(View())
      ensures !old(poisoned) ==> safe == !poisoned
      ensures safe ==> View() == old(View())
      ensures !old(poisoned) && !safe ==> View() == old(View()).(poisoned := true, faults := old(faults) + 1)
    {
      if poisoned {
        return false;
      }
      safe := *;
      if !safe {
        poisoned := true;
        faults := faults + 1;
      }
    }

    /** WriteLineToPinnedFileLocked. */
    method WriteLine(ghost entry: Entry, line: bytes, durable: bool) returns (ok: bool)
      requires FileExact(c, View()) && CapacityExact(c, View()) && entry.line == line && NoNewline(line)
      modifies this`poisoned, this`file, this`synced, this`capacityKnown, this`capacityBytes, this`capacityRecords,
               this`storageBytes, this`written, this`torn, this`faults
      ensures FileExact(c, View()) && CapacityExact(c, View())
      ensures Wrote(c, old(View()), entry, durable, View(), ok)
    {
      hide Wrote, FileExact, CapacityExact;
      ghost var start := View();
      NotTorn(c, start);
      var safe := PathIsPinned();
      var stored := if safe && (!c.gzip || capacityKnown) then c.Stored(line) else None;
      ok := false;
      if stored.None? {
        NotStarted(c, start, entry, durable, View());
      } else {
        ok := Persist(stored.value, durable);
        if ok {
          Acknowledge(entry, line, |stored.value|, start, durable);
        } else {
          LeftTorn(c, start, entry, durable, torn, View());
        }
      }
    }

    /** The octets of a record, the path check after them, and for a durable one the sync barrier with
        another path check. */
    method Persist(record: bytes, durable: bool) returns (ok: bool)
      requires !poisoned && torn == [] && synced <= |file|
      modifies this`poisoned, this`file, this`synced, this`torn, this`faults
      ensures old(synced) <= synced <= |file| && (!durable ==> synced == old(synced))
      ensures ok ==> !poisoned && torn == [] && file == old(file) + record && faults == old(faults)
      ensures ok && durable ==> synced == |file|
      ensures !ok ==> poisoned && torn <= record && file == old(file) + torn && faults > old(faults)
    {
      ok := WriteOctets(record);
      if !ok {
        return false;
      }
      var safe := PathIsPinned();
      if !safe {
        torn := record;
        return false;
      }
      if durable {
        var synchronised: bool := *;
        if !synchronised {
          poisoned := true;
          faults := faults + 1;
          torn := record;
          return false;
        }
        synced := |file|;
        safe := PathIsPinned();
        if !safe {
          torn := record;
          return false;
        }
      }
      return true;
    }

    /** The record counts as written; a capacity that would overflow becomes unknown. */
    method Acknowledge(ghost entry: Entry, line: bytes, stored: nat, ghost start: State, ghost durable: bool)
      requires FileExact(c, start) && CapacityExact(c, start) && !start.poisoned && (c.gzip ==> start.capacityKnown)
      requires entry.line == line && NoNewline(line) && c.Stored(line).Some? && stored == |c.Record(line)|
      requires View() == start.(file := start.file + c.Record(line), synced := synced)
      requires synced == if durable then |file| else start.synced
      modifies this`written, this`capacityKnown, this`capacityBytes, this`capacityRecords,
               this`storageBytes, this`faults
      ensures FileExact(c, View()) && CapacityExact(c, View())
      ensures Wrote(c, start, entry, durable, View(), true)
    {
      hide Wrote, FileExact, CapacityExact;
      written := written + [entry];
      if capacityKnown {
        if |line| + 1 > UINT64_MAX - capacityBytes || stored > UINT64_MAX - storageBytes
          || capacityRecords == UINT64_MAX {
          capacityKnown := false;
          if c.gzip {
            faults := faults + 1;
          }
        } else {
          capacityBytes := capacityBytes + |line| + 1;
          storageBytes := storageBytes + stored;
          capacityRecords := capacityRecords + 1;
        }
      }
      WroteRecord(c, start, entry, durable, View());
    }

    /** The write loop: any number of short writes; a failed one leaves a torn record and poisons. */
    method WriteOctets(record: bytes) returns (ok: bool)
      requires !poisoned && torn == []
      modifies this`poisoned, this`file, this`torn, this`faults
      ensures ok ==> !poisoned && file == old(file) + record && torn == [] && faults == old(faults)
      ensures !ok ==> poisoned && torn <= record && file == old(file) + torn && faults > old(faults)
    {
      var offset := 0;
      assert old(file) + [] == old(file);
      while offset < |record|
        invariant 0 <= offset <= |record| && !poisoned && torn == [] && faults == old(faults)
        invariant file == old(file) + record[..offset]
      {
        if offset > 0 {
          var safe := PathIsPinned();
          if !safe {
            torn := record[..offset];
            return false;
          }
        }
        var fails: bool := *;
        if fails {
          poisoned := true;
          faults := faults + 1;
          torn := record[..offset];
          return false;
        }
        var count :| 0 < count <= |record| - offset;
        ConcatIsAssociative(old(file), record[..offset], record[offset..offset + count]);
        assert record[..offset] + record[offset..offset + count] == record[..offset + count];
        file := file + record[offset..offset + count];
        offset := offset + count;
      }
      assert record[..offset] == record;
      return true;
    }

    method FlushOne() returns (ok: bool)
      requires Valid() && buffered != []
      modifies this
      ensures Valid() && FlushStep(c, old(View()), View(), ok)
      ensures queue == old(queue) && |buffered| == |old(buffered)| - if ok then 1 else 0
    {
      hide FlushStep, Wrote, FileExact, BacklogExact, AllChecked, CapacityExact;
      ghost var before := View();
      var line := buffered[0];
      HeadIsChecked(parse, c, before);
      ok := WriteLine(Queued(line), line, false);
      ghost var mid := View();
      if ok {
        DrainOne(parse, c, before, mid);
        pendingBytes, buffered := pendingBytes - (|line| + 1), buffered[1..];
        assert View() == Popped(mid);
      } else {
        DrainNone(parse, c, before, View());
      }
    }

    /** FlushBufferedLocked. */
    method FlushBuffered() returns (ok: bool)
      requires Valid()
      modifies this
      ensures Valid() && FlushStep(c, old(View()), View(), ok)
      ensures queue == old(queue) && (ok ==> buffered == [])
    {
      NoFlush(c, View());
      ok := true;
      while ok && buffered != []
        invariant Valid() && queue == old(queue) && FlushStep(c, old(View()), View(), ok)
        decreases |buffered|, ok
      {
        ghost var before := View();
        ok := FlushOne();
        FlushFurther(c, old(View()), before, View(), ok);
      }
    }

    method MoveFront()
      requires Valid() && queue != []
      modifies this`buffered, this`queue
      ensures Valid() && FlushStep(c, old(View()), View(), true) && |queue| < |old(queue)|
    {
      hide FlushStep, Inv;
      ghost var before := View();
      MoveStep(parse, c, before);
      buffered, queue := buffered + [queue[0]], queue[1..];
      assert View() == Moved(before);
    }

    /** FlushQueuedNoLock: the queue passes through the buffer, a batch at a time. */
    method FlushQueued() returns (ok: bool)
      requires Valid()
      modifies this
      ensures Valid() && FlushStep(c, old(View()), View(), ok)
      ensures ok ==> Backlog(View()) == []
    {
      hide FlushStep, Inv;
      UnpoisonedIsWhole(parse, c, View());
      NoFlush(c, View());
      ok := true;
      while ok && queue != []
        invariant Valid() && FlushStep(c, old(View()), View(), ok)
        decreases |queue|, ok
      {
        ghost var before := View();
        MoveFront();
        FlushFurther(c, old(View()), before, View(), true);
        if |buffered| >= c.batchSize {
          ghost var moved := View();
          ok := FlushBuffered();
          FlushFurther(c, old(View()), moved, View(), ok);
        }
      }
      if ok {
        ghost var moved := View();
        ok := FlushBuffered();
        FlushFurther(c, old(View()), moved, View(), ok);
      }
    }

    /** What a critical record does with the backlog before it is written past it. */
    method FlushAhead() returns (ok: bool)
      requires Valid()
      modifies this
      ensures Valid() && FlushStep(c, old(View()), View(), ok)
      ensures if c.InOrder() then ok ==> Backlog(View()) == [] else ok && View() == old(View())
    {
      hide FlushStep, FileExact, AllChecked, CapacityExact;
      if !c.asyncEnabled {
        ok := FlushBuffered();
      } else if c.criticalFlushQueued {
        ok := FlushQueued();
      } else {
        UnpoisonedIsWhole(parse, c, View());
        NoFlush(c, View());
        ok := true;
      }
    }

    /** QueueLineLocked: a line is admitted exactly when both caps leave room for it. */
    method QueueLine(line: bytes, asynchronous: bool) returns (ok: bool)
      requires Valid() && asynchronous == c.asyncEnabled && Checked(parse, c, line)
      modifies this`queue, this`buffered, this`pendingBytes, this`admitted
      ensures Valid() && ok == Room(c, old(View()), line)
      ensures View() == if ok then Admitted(old(View()), line, asynchronous) else old(View())
    {
      hide Inv, Checked, Setup;
      ghost var before := View();
      var pending := |queue| + |buffered|;
      if pending >= c.maxPendingRecords || pendingBytes > c.maxPendingBytes
        || |line| >= c.maxPendingBytes - pendingBytes {
        ok := false;
      } else {
        if asynchronous {
          queue := queue + [line];
        } else {
          buffered := buffered + [line];
        }
        pendingBytes := pendingBytes + |line| + 1;
        admitted := admitted + [line];
        ok := true;
        assert View() == Admitted(before, line, asynchronous);
        AdmittedStep(parse, c, before, line, asynchronous);
      }
    }

    predicate Accepts(e: E) {
      encodable(e) && |build(e)| <= c.limits.maxRecordBytes && parse(build(e)).Some?
    }

    /** Append. */
    method Append(e: E) returns (ok: bool)
      requires Valid()
      modifies this
      ensures Valid()
      ensures Accepts(e) ==> AppendStep(c, old(View()), build(e), critical(e) && c.syncCritical, View(), ok)
      ensures ok && critical(e) && !c.asyncEnabled ==> Backlog(View()) == []
      ensures !Accepts(e) ==> !ok && TurnedDown(old(View()), View())
    {
      hide AppendStep, FlushStep, Wrote, FileExact, BacklogExact, AllChecked, CapacityExact;
      ghost var start := View();
      var direct := critical(e) && c.syncCritical;
      var safe := PathIsPinned();
      if !safe {
        PathRefused(parse, c, start, View());
        AppendRefused(c, start, build(e), direct, View());
        return false;
      }
      if !Accepts(e) {
        return false;
      }
      var line := build(e);
      if direct {
        ok := WriteCritical(line);
      } else {
        ok := QueueLine(line, c.asyncEnabled);
        if !ok {
          AppendRefused(c, start, line, false, View());
        } else {
          var byAge: bool := *;
          ok := FlushQueuedLine(critical(e), byAge, line, start);
        }
      }
    }

    /** The critical path of Append: past the backlog, with the sync barrier. */
    method WriteCritical(line: bytes) returns (ok: bool)
      requires Valid() && !poisoned && Checked(parse, c, line)
      modifies this
      ensures Valid() && AppendStep(c, old(View()), line, true, View(), ok)
      ensures ok && c.InOrder() ==> Backlog(View()) == []
    {
      hide AppendStep, FlushStep, Wrote, FileExact, BacklogExact, AllChecked, CapacityExact;
      ghost var start := View();
      ok := FlushAhead();
      if !ok {
        AppendNotFlushed(c, start, line, View());
      } else {
        ghost var flushed := View();
        ok := WriteLine(Direct(line), line, true);
        DirectKeeps(parse, c, flushed, line, true, View(), ok);
        WroteBacklog(c, flushed, Direct(line), true, View(), ok);
        AppendDirect(c, start, line, flushed, View(), ok);
      }
    }

    /** After admission: the synchronous mode flushes by kind, size or age, the other one leaves it to the worker. */
    method FlushQueuedLine(now: bool, byAge: bool, ghost line: bytes, ghost start: State) returns (ok: bool)
      requires Valid() && Inv(parse, c, start) && !start.poisoned && Room(c, start, line)
      requires View() == Admitted(start, line, c.asyncEnabled)
      modifies this
      ensures Valid() && AppendStep(c, start, line, false, View(), ok)
      ensures
        if c.asyncEnabled || !(now || byAge || |start.buffered| + 1 >= c.batchSize) then ok && View() == old(View())
        else ok ==> Backlog(View()) == []
    {
      hide AppendStep, FlushStep, FileExact, AllChecked, CapacityExact;
      UnpoisonedIsWhole(parse, c, View());
      NoFlush(c, View());
      ok := true;
      if !c.asyncEnabled && (now || |buffered| >= c.batchSize || byAge) {
        ok := FlushBuffered();
      }
      AppendQueued(c, start, line, c.asyncEnabled, View(), ok);
    }

    /** AppendDurablePair. */
    method AppendDurablePair(first: E, second: E) returns (result: PairResult)
      requires Valid()
      modifies this
      ensures Valid()
      ensures critical(first) && Accepts(first) && critical(second) && Accepts(second) ==>
        PairStep(c, old(View()), build(first), build(second), View(), result)
      ensures !(critical(first) && Accepts(first) && critical(second) && Accepts(second)) ==>
        result != Committed && TurnedDown(old(View()), View())
      ensures !(critical(first) && Accepts(first)) ==> result == FirstFailed
    {
      hide PairStep, FlushStep, Wrote, FileExact, BacklogExact, AllChecked, CapacityExact;
      ghost var start := View();
      UnpoisonedIsWhole(parse, c, start);
      var safe := PathIsPinned();
      if !safe {
        PathRefused(parse, c, start, View());
        PairRefused(c, start, build(first), build(second), View());
        return FirstFailed;
      }
      if !critical(first) || !Accepts(first) {
        return FirstFailed;
      }
      if !critical(second) || !Accepts(second) {
        return SecondFailed;
      }
      result := WritePair(build(first), build(second));
    }

    method WritePair(first: bytes, second: bytes) returns (result: PairResult)
      requires Valid() && !poisoned && Checked(parse, c, first) && Checked(parse, c, second)
      modifies this
      ensures Valid() && PairStep(c, old(View()), first, second, View(), result)
    {
      hide PairStep, FlushStep, Wrote, FileExact, BacklogExact, AllChecked, CapacityExact;
      ghost var start := View();
      result := FirstFailed;
      var ok := FlushAhead();
      if !ok {
        PairNotFlushed(c, start, first, second, View());
        return;
      }
      ghost var flushed := View();
      ok := WriteLine(Direct(first), first, false);
      ghost var one := View();
      DirectKeeps(parse, c, flushed, first, false, one, ok);
      if !ok {
        poisoned := true;
        PoisonKeeps(parse, c, one, View());
        PairFirstFailed(c, start, first, second, flushed, one);
        return;
      }
      ok := WriteLine(Direct(second), second, true);
      ghost var two := View();
      DirectKeeps(parse, c, one, second, true, two, ok);
      if !ok {
        poisoned := true;
        PoisonKeeps(parse, c, two, View());
        PairSecondFailed(c, start, first, second, flushed, one, two);
        return SecondFailed;
      }
      PairCommitted(c, start, first, second, flushed, one, two);
      return Committed;
    }

    /** The read of a replay: the events of a replayable file, or nothing and whether I/O was the reason. */
    method ReadSnapshot() returns (events: Option<seq<E>>, logicalBytes: nat, io: bool)
      requires IsDecoder(c.decode)
      ensures events.Some? ==> Replayable(parse, c, file)
      ensures events.Some? ==>
        Verdict(JudgeStream(parse, c.limits, c.Content(file).value)) == Collecting(events.value, [])
      ensures events.Some? ==> c.Content(file).Some? && logicalBytes == |c.Content(file).value|
      ensures events.None? && !io ==> !Replayable(parse, c, file)
    {
      hide JudgeStream;
      logicalBytes := 0;
      var collector := new Collector(parse, c.limits);
      var failure: Option<Reason>;
      if c.gzip {
        var result := ReadGzip(file, c.decode, collector);
        failure := if result.Failed? then Some(result.reason) else None;
        logicalBytes := if result.Read? then result.logicalBytes else 0;
      } else {
        failure, logicalBytes := ReadPlain(file, collector);
      }
      io := failure == Some(IoFailure);
      events := if failure.None? && collector.pending == [] then Some(collector.events) else None;
    }

    /** Replay. */
    method Replay() returns (result: Option<seq<E>>)
      requires Valid()
      modifies this
      ensures Valid() && ReplayStep(parse, c, old(View()), View(), result)
    {
      hide ReplayStep, Replayable, JudgeStream, FlushStep, Evolves, DrainedFrom, Inv;
      ghost var start := View();
      capacityKnown := false;
      ForgottenKeeps(parse, c, start);
      assert View() == Forgotten(start);
      var ok := FlushQueued();
      ghost var flushed := View();
      UnpoisonedIsWhole(parse, c, flushed);
      ReplayFlush(c, start, flushed, ok);
      var safe := false;
      if ok {
        safe := PathIsPinned();
        PathRefused(parse, c, flushed, View());
      }
      result := None;
      if !safe {
        ReplayRefused(parse, c, start, flushed, ok, View());
        return;
      }
      var synchronised: bool := *;
      if !synchronised {
        poisoned := true;
        faults := faults + 1;
        PoisonKeeps(parse, c, flushed, View());
        ReplayRefused(parse, c, start, flushed, ok, View());
        return;
      }
      result := Validate(start, flushed);
    }

    /** The rest of a replay, behind its sync barrier. */
    method Validate(ghost start: State, ghost flushed: State) returns (result: Option<seq<E>>)
      requires Valid() && !poisoned && View() == flushed && Backlog(flushed) == [] && synced <= |file|
      requires FlushStep(c, Forgotten(start), flushed, true)
      modifies this`synced, this`poisoned, this`faults, this`capacityKnown, this`capacityBytes, this`capacityRecords,
               this`storageBytes
      ensures Valid() && ReplayStep(parse, c, start, View(), result)
    {
      hide ReplayStep, Replayable, JudgeStream, FlushStep, Evolves, DrainedFrom, Inv;
      ReplayFlush(c, start, flushed, true);
      synced := |file|;
      result := None;
      var events, logicalBytes, io := ReadSnapshot();
      var described: bool := *;
      if !described || (events.None? && io) {
        faults := faults + 1;
      } else if events.Some? {
        var safe := PathIsPinned();
        var same: bool := *;
        if safe && same {
          result := events;
        } else if safe {
          faults := faults + 1;
        }
      }
      if result.None? {
        SyncKeeps(parse, c, flushed, View());
        ReplayRefused(parse, c, start, flushed, true, View());
      } else {
        Recount(start, flushed, events.value, logicalBytes);
      }
    }

    /** An accepted replay makes the capacity known. */
    method Recount(ghost start: State, ghost flushed: State, events: seq<E>, logicalBytes: nat)
      requires Setup() && Inv(parse, c, flushed) && !flushed.poisoned && Backlog(flushed) == []
        && flushed.synced <= |flushed.file|
      requires FlushStep(c, Forgotten(start), flushed, true) && View() == flushed.(synced := |flushed.file|)
      requires Replayable(parse, c, file) && c.Content(file).Some? && logicalBytes == |c.Content(file).value|
      requires Verdict(JudgeStream(parse, c.limits, c.Content(file).value)) == Collecting(events, [])
      modifies this`capacityKnown, this`capacityBytes, this`capacityRecords,
               this`storageBytes
      ensures Valid() && ReplayStep(parse, c, start, View(), Some(events))
    {
      hide ReplayStep, Replayable, JudgeStream, FlushStep, Inv;
      capacityBytes := logicalBytes;
      storageBytes := |file|;
      capacityRecords := |events|;
      capacityKnown := true;
      ReplayKeeps(parse, c, flushed, View(), events);
      ReplayDone(parse, c, start, flushed, View(), events);
    }
  }
}
