/** The owner Resume slice of a Gateway maintenance transaction: a checkpoint file is saved around every
    external effect, and a run may end at any step, by a failed check or by the death of the process,
    to be taken up again from the checkpoint. */
module OwnerResume {

  import opened Bytes

  const MIN_TTL_MS: int := 4 * 60 * 60 * 1000 + 120000

  /** A record of the authenticated catalog. `scope` stands for its agent, session, account and domain,
      `settled` for no pending or complete fence and no finalization. */
  datatype Row = Row(token: nat, paper: bool, watch: bool, scope: bytes, generation: nat, recoveryOnly: bool,
                     recoveryCommand: Option<bytes>, expiresAt: int, settled: bool)

  /** What is fixed about an owner: its token, its controller's unit, whether that was running, and the
      generation its local state held at the start. */
  datatype Owner = Owner(token: nat, unit: nat, resident: bool, stateGeneration: nat)

  datatype Progress = Progress(sent: bool, synced: bool)

  /** The transaction state as it is saved; `bound` is the record bound to each owner. */
  datatype Checkpoint = Checkpoint(bound: seq<Row>, records: seq<Row>, deadline: int, fenced: bool,
                                   progress: map<nat, Progress>, starting: Option<nat>, started: set<nat>)

  /** External effects and the observations they rest on. */
  datatype Action =
    | ResumeSent(token: nat, at: int, ttl: int)
    | Confirmed(row: Row)
    | Synced(token: nat)
    | CatalogStood(rows: seq<Row>)
    | StartIssued(unit: nat)
    | StartRecorded(unit: nat)

  function ProgressOf(c: Checkpoint, token: nat): Progress {
    if token in c.progress then c.progress[token] else Progress(false, false)
  }

  function RowOf(rows: seq<Row>, token: nat): (r: Option<Row>)
    ensures r.Some? ==> r.value in rows && r.value.token == token
    ensures r.None? ==> forall i :: 0 <= i < |rows| ==> rows[i].token != token
  {
    if rows == [] then None
    else if rows[0].token == token then Some(rows[0])
    else RowOf(rows[1..], token)
  }

  /** The record a confirmed Resume leaves: the next generation of the same owner, within the deadline. */
  predicate Resumed(row: Row, before: Row, deadline: int) {
    && row.generation == before.generation + 1 && !row.recoveryOnly && row.recoveryCommand.None?
    && row.expiresAt <= deadline && row.token == before.token && row.scope == before.scope && row.settled
  }

  // ---- check_transition_catalog

  /** The expected records without a WATCH that expired and is gone. */
  function Comparable(expected: seq<Row>, actual: seq<Row>, now: int): seq<Row> {
    if expected == [] then []
    else
      var rest := Comparable(expected[1..], actual, now);
      var row := expected[0];
      if row.watch && row.expiresAt <= now && RowOf(actual, row.token).None? then rest else [row] + rest
  }

  predicate RowMayStand(c: Checkpoint, expected: seq<Row>, row: Row) {
    var before := RowOf(expected, row.token);
    && before.Some? && row.paper != row.watch
    && if row.watch || !ProgressOf(c, row.token).sent then row == before.value
      else Resumed(row, before.value, c.deadline)
  }

  predicate CatalogMayStand(c: Checkpoint, rows: seq<Row>, now: int) {
    var expected := Comparable(c.records, rows, now);
    && (forall i :: 0 <= i < |expected| ==> RowOf(rows, expected[i].token).Some?)
    && (forall i :: 0 <= i < |rows| ==> RowMayStand(c, expected, rows[i]))
  }

  // ---- What a transaction keeps

  ghost predicate Bound(owners: seq<Owner>, bound: seq<Row>) {
    && |bound| == |owners|
    && forall i :: 0 <= i < |owners| ==>
         bound[i].token == owners[i].token && bound[i].generation == owners[i].stateGeneration
  }

  ghost predicate Distinct(owners: seq<Owner>) {
    forall i, j :: 0 <= i < j < |owners| ==> owners[i].token != owners[j].token
  }

  /** Once fenced, the kept catalog holds the bound record of every owner. */
  ghost predicate Fenced(owners: seq<Owner>, c: Checkpoint) {
    && Bound(owners, c.bound)
    && (c.fenced ==> forall i :: 0 <= i < |owners| ==>
          RowOf(c.records, owners[i].token) == Some(c.bound[i]) && c.bound[i].paper && !c.bound[i].watch)
  }

  /** A checkpoint agrees with the effects there have been. */
  ghost predicate Covers(owners: seq<Owner>, c: Checkpoint, log: seq<Action>) {
    && Fenced(owners, c)
    && (c.progress != map[] ==> c.fenced)
    && (forall t :: t in c.progress && c.progress[t].synced ==> c.progress[t].sent)
    && (forall k :: 0 <= k < |log| ==> Recorded(c, log[k]))
  }

  /** A Resume that was sent is on record, and what it asked for ends before the recorded deadline; so is a start
      that is done with. */
  ghost predicate Recorded(c: Checkpoint, action: Action) {
    && (action.ResumeSent? ==> ProgressOf(c, action.token).sent && action.at + 1000 * action.ttl < c.deadline)
    && (action.StartRecorded? ==> action.unit in c.started)
  }

  predicate WasRunning(owners: seq<Owner>, unit: nat) {
    exists i :: 0 <= i < |owners| && owners[i].resident && owners[i].unit == unit
  }

  /** Only controllers that were running are started, and none again that was recorded as started. */
  ghost predicate StartsFit(owners: seq<Owner>, log: seq<Action>) {
    forall k :: 0 <= k < |log| && log[k].StartIssued? ==>
      && WasRunning(owners, log[k].unit)
      && forall j :: 0 <= j < k ==> log[j] != StartRecorded(log[k].unit)
  }

  lemma StartsFitMore(owners: seq<Owner>, c: Checkpoint, log: seq<Action>, action: Action)
    requires StartsFit(owners, log) && forall k :: 0 <= k < |log| ==> Recorded(c, log[k])
    requires action.StartIssued? ==> action.unit !in c.started
    requires action.StartIssued? ==> WasRunning(owners, action.unit)
    ensures StartsFit(owners, log + [action])
  {
    var more := log + [action];
    forall k | 0 <= k < |more| && more[k].StartIssued?
      ensures WasRunning(owners, more[k].unit)
      ensures forall j :: 0 <= j < k ==> more[j] != StartRecorded(more[k].unit) {
      if k < |log| {
        assert more[k] == log[k] && forall j :: 0 <= j < k ==> more[j] == log[j];
      } else {
        forall j | 0 <= j < k ensures more[j] != StartRecorded(more[k].unit) {
          assert more[j] == log[j] && Recorded(c, log[j]);
        }
      }
    }
  }

  ghost predicate SentOnce(log: seq<Action>) {
    forall i, j :: 0 <= i < j < |log| && log[i].ResumeSent? && log[j].ResumeSent? ==> log[i].token != log[j].token
  }

  /** Every controller start comes after the confirmation and the local bookkeeping of every owner, and
      after a catalog in which every owner is one generation further. */
  ghost predicate StartsLast(owners: seq<Owner>, log: seq<Action>) {
    forall k :: 0 <= k < |log| && log[k].StartIssued? ==> Ready(owners, log[..k])
  }

  ghost predicate Ready(owners: seq<Owner>, log: seq<Action>) {
    AllDone(owners, log) && exists k :: 0 <= k < |log| && CatalogShowsAll(owners, log[k])
  }

  ghost predicate CatalogShowsAll(owners: seq<Owner>, action: Action) {
    action.CatalogStood? && forall i :: 0 <= i < |owners| ==> ShownResumed(owners[i], action.rows)
  }

  ghost predicate ShownResumed(owner: Owner, rows: seq<Row>) {
    var row := RowOf(rows, owner.token);
    row.Some? && row.value.generation == owner.stateGeneration + 1 && !row.value.recoveryOnly
  }

  ghost predicate AllDone(owners: seq<Owner>, log: seq<Action>) {
    forall i :: 0 <= i < |owners| ==> Done(owners[i], log)
  }

  /** The owner was seen one generation further in the catalog, and later its local state was synced. */
  ghost predicate Done(owner: Owner, log: seq<Action>) {
    exists i, j :: 0 <= i < j < |log| && ConfirmedFor(owner, log[i]) && log[j] == Synced(owner.token)
  }

  ghost predicate ConfirmedFor(owner: Owner, action: Action) {
    && action.Confirmed? && action.row.token == owner.token && !action.row.recoveryOnly
    && action.row.generation == owner.stateGeneration + 1
  }

  ghost predicate WasConfirmed(owner: Owner, log: seq<Action>) {
    exists k :: 0 <= k < |log| && ConfirmedFor(owner, log[k])
  }

  /** A local generation is the one of the start, or the next one and the catalog has confirmed that. */
  ghost predicate Generations(owners: seq<Owner>, local: map<nat, nat>, log: seq<Action>) {
    forall i :: 0 <= i < |owners| ==>
      && owners[i].token in local
      && (local[owners[i].token] == owners[i].stateGeneration
          || (local[owners[i].token] == owners[i].stateGeneration + 1 && WasConfirmed(owners[i], log)))
  }

  lemma GenerationsStay(owners: seq<Owner>, local: map<nat, nat>, log: seq<Action>, more: seq<Action>)
    requires Generations(owners, local, log) && log <= more
    ensures Generations(owners, local, more)
  {
    forall i | 0 <= i < |owners| && WasConfirmed(owners[i], log) ensures WasConfirmed(owners[i], more) {
      var k :| 0 <= k < |log| && ConfirmedFor(owners[i], log[k]);
      assert more[k] == log[k];
    }
  }

  // ---- Lemmas on the history

  lemma DoneStays(owner: Owner, log: seq<Action>, more: seq<Action>)
    requires Done(owner, log) && log <= more
    ensures Done(owner, more)
  {
    var i, j :| 0 <= i < j < |log| && ConfirmedFor(owner, log[i]) && log[j] == Synced(owner.token);
    assert more[i] == log[i] && more[j] == log[j];
  }

  lemma ReadyStays(owners: seq<Owner>, log: seq<Action>, more: seq<Action>)
    requires Ready(owners, log) && log <= more
    ensures Ready(owners, more)
  {
    forall i | 0 <= i < |owners| ensures Done(owners[i], more) {
      DoneStays(owners[i], log, more);
    }
    var k :| 0 <= k < |log| && CatalogShowsAll(owners, log[k]);
    assert more[k] == log[k];
  }

  // ---- What the catalog check means

  lemma {:induction false} ComparableKeeps(expected: seq<Row>, actual: seq<Row>, now: int, token: nat)
    requires RowOf(expected, token).Some? && !RowOf(expected, token).value.watch
    ensures RowOf(Comparable(expected, actual, now), token) == RowOf(expected, token)
  {
    var rest := Comparable(expected[1..], actual, now);
    assert ([expected[0]] + rest)[1..] == rest;
    if expected[0].token != token {
      ComparableKeeps(expected[1..], actual, now, token);
    }
  }

  /** A catalog that may stand when every Resume was sent shows every owner one generation further. */
  lemma StandingCatalogShowsAll(owners: seq<Owner>, c: Checkpoint, rows: seq<Row>, now: int)
    requires Fenced(owners, c) && c.fenced && CatalogMayStand(c, rows, now)
    requires forall i :: 0 <= i < |owners| ==> ProgressOf(c, owners[i].token).sent
    ensures CatalogShowsAll(owners, CatalogStood(rows))
  {
    var expected := Comparable(c.records, rows, now);
    forall i | 0 <= i < |owners| ensures ShownResumed(owners[i], rows) {
      var token := owners[i].token;
      ComparableKeeps(c.records, rows, now, token);
      var k := IndexOf(expected, token);
      assert RowOf(rows, expected[k].token).Some?;
      var row := RowOf(rows, token).value;
      var n :| 0 <= n < |rows| && rows[n] == row;
      assert RowMayStand(c, expected, rows[n]);
    }
  }

  lemma {:induction false} IndexOf(rows: seq<Row>, token: nat) returns (k: nat)
    requires RowOf(rows, token).Some?
    ensures k < |rows| && rows[k].token == token
  {
    if rows[0].token == token {
      k := 0;
    } else {
      var rest := IndexOf(rows[1..], token);
      k := rest + 1;
    }
  }

  lemma StartsGrow(owners: seq<Owner>, log: seq<Action>, action: Action)
    requires StartsLast(owners, log) && (action.StartIssued? ==> Ready(owners, log))
    ensures StartsLast(owners, log + [action])
  {
    hide Ready;
    var more := log + [action];
    forall k | 0 <= k < |more| && more[k].StartIssued? ensures Ready(owners, more[..k]) {
      if k < |log| {
        assert more[..k] == log[..k];
      } else {
        assert more[..k] == log;
      }
    }
  }

  lemma CoversMore(owners: seq<Owner>, c: Checkpoint, log: seq<Action>, action: Action)
    requires Covers(owners, c, log) && Recorded(c, action)
    ensures Covers(owners, c, log + [action])
  {
    var more := log + [action];
    forall k | 0 <= k < |more| ensures Recorded(c, more[k]) {
      assert k < |log| ==> Recorded(c, log[k]);
    }
  }

  /** Progress is only added to, and the deadline stands once a Resume may be sent. */
  ghost predicate Advances(c: Checkpoint, d: Checkpoint) {
    && c.started <= d.started
    && d.deadline <= c.deadline && (c.fenced ==> d.fenced && d.deadline == c.deadline)
    && forall t :: ProgressOf(c, t).sent ==> ProgressOf(d, t).sent
  }

  lemma StillCovers(owners: seq<Owner>, c: Checkpoint, d: Checkpoint, log: seq<Action>)
    requires Covers(owners, c, log) && Advances(c, d) && Fenced(owners, d)
    requires d.progress != map[] ==> d.fenced
    requires forall t :: t in d.progress && d.progress[t].synced ==> d.progress[t].sent
    ensures Covers(owners, d, log)
  {
    forall k | 0 <= k < |log| ensures Recorded(d, log[k]) {
      assert Recorded(c, log[k]);
    }
  }

  // ---- The transaction

  class Transaction {
    const owners: seq<Owner>
    /** The checkpoint file, and the state of the running process. */
    var saved: Checkpoint
    var state: Checkpoint
    /** lease_generation in the controllers' local state files, and the clock. */
    var local: map<nat, nat>
    var clock: int
    ghost var log: seq<Action>
    /** Reads, writes and checks of the host that failed. */
    ghost var faults: nat

    ghost predicate Valid()
      reads this
    {
      && Distinct(owners) && SentOnce(log) && StartsLast(owners, log) && StartsFit(owners, log)
      && Covers(owners, saved, log) && Generations(owners, local, log)
    }

    /** While a process runs, its state is at least as far as the file. */
    ghost predicate Running()
      reads this
    {
      Valid() && Covers(owners, state, log) && Advances(saved, state)
    }

    /** What every part of a run keeps: the history grows, the recorded deadline does not. */
    twostate predicate Grows()
      reads this
    {
      old(log) <= log && saved.deadline <= old(saved.deadline) && old(faults) <= faults
    }

    /** Nothing failed. */
    twostate predicate Calm()
      reads this
    {
      faults == old(faults)
    }

    /** A read, a write or a check of the host. */
    method Try() returns (ok: bool)
      modifies this`faults
      ensures old(faults) <= faults && (Calm() ==> ok)
    {
      ok := *;
      if !ok {
        faults := faults + 1;
      }
    }

    /** inspect: the owners are bound to catalog records and nothing has happened. */
    constructor (owners: seq<Owner>, bound: seq<Row>, records: seq<Row>, deadline: int, local: map<nat, nat>,
                 clock: int)
      requires Distinct(owners) && Bound(owners, bound)
      requires forall i :: 0 <= i < |owners| ==>
        owners[i].token in local && local[owners[i].token] == owners[i].stateGeneration
      ensures Valid() && log == [] && saved.deadline == deadline && faults == 0
    {
      this.owners, this.local, this.clock := owners, local, clock;
      saved := Checkpoint(bound, records, deadline, false, map[], None, {});
      state := saved;
      log, faults := [], 0;
    }

    method Now() returns (now: int)
      modifies this`clock
      ensures old(clock) <= now == clock
    {
      var elapsed: nat := *;
      clock := if elapsed > 0 then clock + elapsed else clock;
      now := clock;
    }

    /** context: every frozen condition of the host still holds, and the time left is enough. */
    method Context() returns (ok: bool)
      modifies this`clock, this`faults
      ensures ok ==> clock + MIN_TTL_MS < state.deadline
      ensures old(faults) <= faults && (Calm() ==> (ok <==> clock + MIN_TTL_MS < state.deadline))
    {
      ok := Try();
      var now := Now();
      ok := ok && now + MIN_TTL_MS < state.deadline;
    }

    /** atomic_json of the checkpoint: it may be replaced and the call still fail. */
    method Save() returns (ok: bool)
      requires Running()
      modifies this`saved, this`faults
      ensures Running() && Grows() && (saved == state || saved == old(saved)) && (ok ==> saved == state)
      ensures Calm() ==> ok
    {
      var replaced: bool := *;
      ok := Try();
      if replaced || ok {
        saved := state;
      }
    }

    /** An effect that needs nothing on record. */
    method Note(ghost action: Action)
      requires Running() && !action.ResumeSent? && (action.StartIssued? ==> Ready(owners, log))
      requires action.StartIssued? ==> action.unit !in state.started
      requires action.StartIssued? ==> WasRunning(owners, action.unit)
      requires action.StartRecorded? ==> action.unit in saved.started
      modifies this`log
      ensures Running() && Grows() && log == old(log) + [action]
    {
      CoversMore(owners, saved, log, action);
      CoversMore(owners, state, log, action);
      StartsFitMore(owners, state, log, action);
      StartsGrow(owners, log, action);
      GenerationsStay(owners, local, log, log + [action]);
      log := log + [action];
    }

    /** The process updates its state. */
    method Change(next: Checkpoint)
      requires Running() && Advances(state, next) && Fenced(owners, next)
      requires next.progress != map[] ==> next.fenced
      requires forall t :: t in next.progress && next.progress[t].synced ==> next.progress[t].sent
      modifies this`state
      ensures Running() && Grows() && state == next
    {
      StillCovers(owners, state, next, log);
      state := next;
    }

    /** The authenticated catalog, or a failed read. */
    method Catalog() returns (rows: Option<seq<Row>>)
    {
      rows := *;
    }

    /** check_transition_catalog. */
    method CheckTransitionCatalog() returns (ok: bool)
      requires Running() && state.fenced
      modifies this`clock, this`log
      ensures Running() && Grows()
      ensures ok && (forall i :: 0 <= i < |owners| ==> ProgressOf(state, owners[i].token).sent) ==>
        log != [] && CatalogShowsAll(owners, log[|log| - 1])
    {
      var rows := Catalog();
      var now := Now();
      ok := false;
      if rows.Some? {
        ok := CompareCatalog(rows.value, now);
      }
      if ok {
        if forall i :: 0 <= i < |owners| ==> ProgressOf(state, owners[i].token).sent {
          StandingCatalogShowsAll(owners, state, rows.value, now);
        }
        Note(CatalogStood(rows.value));
      }
    }

    /** The comparison of expected and actual records. */
    method CompareCatalog(rows: seq<Row>, now: int) returns (ok: bool)
      ensures ok <==> CatalogMayStand(state, rows, now)
    {
      var expected := ComparableCatalog(state.records, rows, now);
      var i := 0;
      while i < |expected|
        invariant 0 <= i <= |expected| && forall k :: 0 <= k < i ==> RowOf(rows, expected[k].token).Some?
      {
        if RowOf(rows, expected[i].token).None? {
          return false;
        }
        i := i + 1;
      }
      i := 0;
      while i < |rows|
        invariant 0 <= i <= |rows| && forall k :: 0 <= k < i ==> RowMayStand(state, expected, rows[k])
      {
        var fits := CompareRow(expected, rows[i]);
        if !fits {
          return false;
        }
        i := i + 1;
      }
      ok := true;
    }

    /** comparable_catalog: only a known WATCH may be missing, from its own expiry on. */
    method ComparableCatalog(expected: seq<Row>, actual: seq<Row>, now: int) returns (kept: seq<Row>)
      ensures kept == Comparable(expected, actual, now)
    {
      kept := [];
      var n := |expected|;
      assert expected[n..] == [];
      while n > 0
        invariant 0 <= n <= |expected| && kept == Comparable(expected[n..], actual, now)
      {
        n := n - 1;
        var row := expected[n];
        assert expected[n..][0] == row && expected[n..][1..] == expected[n + 1..];
        if !row.watch || row.expiresAt > now || RowOf(actual, row.token).Some? {
          kept := [row] + kept;
        }
      }
      assert expected[0..] == expected;
    }

    /** One actual record against the expected one. */
    method CompareRow(expected: seq<Row>, row: Row) returns (ok: bool)
      ensures ok <==> RowMayStand(state, expected, row)
    {
      var found := RowOf(expected, row.token);
      if found.None? || row.paper == row.watch {
        return false;
      }
      var before := found.value;
      if row.watch {
        return row == before;
      }
      if row.token !in state.progress || !state.progress[row.token].sent {
        return row == before;
      }
      ok := IsResumed(row, before);
    }

    /** The record a confirmed Resume leaves, field by field. */
    method IsResumed(row: Row, before: Row) returns (ok: bool)
      ensures ok <==> Resumed(row, before, state.deadline)
    {
      if row.generation != before.generation + 1 || row.recoveryOnly || row.expiresAt > state.deadline {
        return false;
      }
      if row.recoveryCommand.Some? || row.scope != before.scope || row.token != before.token {
        return false;
      }
      ok := row.settled;
    }

    /** The first half of resume_owner: the Resume is sent only when no checkpoint says it may have been,
        and only after a checkpoint says so. */
    method SendResume(i: nat, row: Row) returns (ok: bool)
      requires Running() && i < |owners| && state.fenced && !ProgressOf(state, owners[i].token).sent
      modifies this`state, this`saved, this`log, this`clock, this`faults
      ensures Running() && Grows() && Advances(old(state), state) && state == old(state).(progress := state.progress)
      ensures ok ==> ProgressOf(state, owners[i].token).sent && saved == state
      ensures Calm() ==>
        (ok <==> row == state.bound[i] && row.recoveryOnly
                 && (state.deadline - clock) / 1000 - 1 >= MIN_TTL_MS / 1000)
    {
      hide SentOnce, StartsLast, Generations, Recorded, StartsFit;
      var audited := Try();
      var fine := Context();
      var now := Now();
      var token, ttl := owners[i].token, (state.deadline - now) / 1000 - 1;
      if !audited || !fine || row != state.bound[i] || !row.recoveryOnly || ttl < MIN_TTL_MS / 1000 {
        return false;
      }
      ghost var before := state;
      Change(state.(progress := state.progress[token := Progress(true, ProgressOf(state, token).synced)]));
      ok := Save();
      if ok {
        Send(before, token, now, ttl);
        ok := Try();
      }
    }

    /** The paper-resume call: its reply may be lost. */
    method Send(ghost before: Checkpoint, token: nat, now: int, ttl: int)
      requires Running() && saved == state && ProgressOf(saved, token).sent && now + 1000 * ttl < saved.deadline
      requires Covers(owners, before, log) && !ProgressOf(before, token).sent
      modifies this`log
      ensures Running() && Grows()
    {
      ghost var action := ResumeSent(token, now, ttl);
      SendIsFirst(owners, before, log, action);
      CoversMore(owners, saved, log, action);
      StartsFitMore(owners, saved, log, action);
      StartsGrow(owners, log, action);
      GenerationsStay(owners, local, log, log + [action]);
      log := log + [action];
    }

    /** sync_confirmed_generation: only a local generation that is the old one is moved, and by one. */
    method SyncConfirmedGeneration(i: nat, row: Row) returns (ok: bool)
      requires Running() && i < |owners| && Resumed(row, state.bound[i], state.deadline) && WasConfirmed(owners[i], log)
      modifies this`local, this`faults
      ensures Running() && Grows() && (Calm() ==> ok)
      ensures local == old(local) || local == old(local)[owners[i].token := owners[i].stateGeneration + 1]
      ensures ok ==> owners[i].token in local && local[owners[i].token] == owners[i].stateGeneration + 1
    {
      var owner := owners[i];
      var undisturbed := Try();
      if !undisturbed || owner.token !in local {
        return false;
      }
      if row.generation != owner.stateGeneration + 1 || row.recoveryOnly {
        return false;
      }
      if local[owner.token] != owner.stateGeneration && local[owner.token] != owner.stateGeneration + 1 {
        return false;
      }
      if local[owner.token] == owner.stateGeneration + 1 {
        return true;
      }
      var replaced: bool := *;
      ok := Try();
      if replaced || ok {
        local := local[owner.token := owner.stateGeneration + 1];
      }
    }

    /** The second half of resume_owner: the catalog shows the next generation, the local state follows. */
    method ConfirmResume(i: nat, row: Row) returns (ok: bool)
      requires Running() && i < |owners| && state.fenced && ProgressOf(state, owners[i].token).sent
      modifies this
      ensures Running() && Grows() && Advances(old(state), state) && state == old(state).(progress := state.progress)
      ensures ok ==> Done(owners[i], log) && saved == state
      ensures ok ==> owners[i].token in local && local[owners[i].token] == owners[i].stateGeneration + 1
      ensures Calm() ==>
        (ok <==>
           && Resumed(row, state.bound[i], state.deadline) && clock + MIN_TTL_MS < state.deadline
           && (ProgressOf(old(state), owners[i].token).synced ==>
                 owners[i].token in old(local) && old(local)[owners[i].token] == row.generation))
    {
      hide SentOnce, StartsLast, Generations, Recorded, Ready, Done, StartsFit;
      var token := owners[i].token;
      var audited := Try();
      var fine := Context();
      var resumed := IsResumed(row, state.bound[i]);
      if !resumed || !audited || !fine {
        return false;
      }
      Note(Confirmed(row));
      assert ConfirmedFor(owners[i], log[|log| - 1]);
      if ProgressOf(state, token).synced {
        ok := Try();
        ok := ok && token in local && local[token] == row.generation;
      } else {
        ok := SyncConfirmedGeneration(i, row);
      }
      if ok {
        ok := RecordSynced(i);
      }
    }

    /** The checkpoint behind a synced local state. */
    method RecordSynced(i: nat) returns (ok: bool)
      requires Running() && i < |owners| && state.fenced && log != [] && ConfirmedFor(owners[i], log[|log| - 1])
      modifies this`state, this`saved, this`log, this`faults
      ensures Running() && Grows() && Advances(old(state), state) && state == old(state).(progress := state.progress)
      ensures Done(owners[i], log) && (ok ==> saved == state) && (Calm() ==> ok)
    {
      hide SentOnce, StartsLast, Generations, Recorded, Ready, ConfirmedFor, StartsFit;
      var token := owners[i].token;
      ghost var n := |log|;
      Note(Synced(token));
      assert ConfirmedFor(owners[i], log[n - 1]) && log[n] == Synced(token);
      Change(state.(progress := state.progress[token := Progress(true, true)]));
      ok := Save();
    }

    /** resume_owner. */
    method ResumeOwner(i: nat) returns (ok: bool)
      requires Running() && i < |owners| && state.fenced
      modifies this
      ensures Running() && Grows() && Advances(old(state), state) && state == old(state).(progress := state.progress)
      ensures ok ==> Done(owners[i], log) && saved == state
      ensures ok ==> owners[i].token in local && local[owners[i].token] == owners[i].stateGeneration + 1
      ensures ok ==> ProgressOf(state, owners[i].token).sent
    {
      hide SentOnce, StartsLast, Generations, Recorded, StartsFit;
      ok := Context();
      var rows := Catalog();
      if !ok || rows.None? {
        return false;
      }
      var row := RowOf(rows.value, owners[i].token);
      if row.None? || row.value.scope != state.bound[i].scope {
        return false;
      }
      if !ProgressOf(state, owners[i].token).sent {
        ok := SendResume(i, row.value);
        rows := Catalog();
        if !ok || rows.None? {
          return false;
        }
        row := RowOf(rows.value, owners[i].token);
        if row.None? {
          return false;
        }
      }
      ok := ConfirmResume(i, row.value);
    }

    /** bind_owners: every owner is bound to its current record, which has the generation of its local
        state; a failure may leave some of them bound. */
    method BindOwners(rows: seq<Row>) returns (ok: bool, earliest: int)
      requires Running() && !state.fenced
      modifies this`state
      ensures Running() && Grows() && state == old(state).(bound := state.bound)
      ensures ok ==> forall i :: 0 <= i < |owners| ==>
        RowOf(rows, owners[i].token) == Some(state.bound[i]) && state.bound[i].paper && !state.bound[i].watch
      ensures ok ==> forall i :: 0 <= i < |owners| ==> earliest <= state.bound[i].expiresAt
      ensures ok && owners != [] ==> exists i :: 0 <= i < |owners| && earliest == state.bound[i].expiresAt
    {
      hide SentOnce, StartsLast, Generations, Recorded, StartsFit;
      ok, earliest := true, 0;
      var i := 0;
      while ok && i < |owners|
        invariant 0 <= i <= |owners| && Running() && !state.fenced && state == old(state).(bound := state.bound)
        invariant forall k :: 0 <= k < i ==>
          RowOf(rows, owners[k].token) == Some(state.bound[k]) && state.bound[k].paper && !state.bound[k].watch
        invariant forall k :: 0 <= k < i ==> earliest <= state.bound[k].expiresAt
        invariant i > 0 ==> exists k :: 0 <= k < i && earliest == state.bound[k].expiresAt
        decreases |owners| - i, ok
      {
        var row := RowOf(rows, owners[i].token);
        ok := *;
        ok := ok && row.Some? && row.value.paper && !row.value.watch
            && row.value.generation == owners[i].stateGeneration;
        if ok {
          Change(state.(bound := state.bound[i := row.value]));
          earliest := if i == 0 || row.value.expiresAt < earliest then row.value.expiresAt else earliest;
          if earliest == row.value.expiresAt {
            assert earliest == state.bound[i].expiresAt;
          }
          i := i + 1;
        }
      }
    }

    /** The fence of all owners, which may only bring the deadline forward. */
    method FenceOwners() returns (ok: bool)
      requires Running() && !state.fenced
      modifies this`state, this`saved, this`faults
      ensures Running() && Grows() && state.progress == old(state.progress) && (ok ==> state.fenced && saved == state)
      ensures state.starting == old(state.starting) && state.started == old(state.started)
      ensures ok ==> forall i :: 0 <= i < |owners| ==> state.deadline <= state.bound[i].expiresAt
    {
      hide SentOnce, StartsLast, Generations, Recorded, StartsFit;
      var rows := Catalog();
      if rows.None? {
        return false;
      }
      var earliest: int;
      ok, earliest := BindOwners(rows.value);
      var answered: bool := *;
      rows := Catalog();
      if !ok || !answered || rows.None? {
        return false;
      }
      ok, earliest := BindOwners(rows.value);
      if ok {
        var deadline := if earliest < state.deadline then earliest else state.deadline;
        Change(state.(deadline := deadline, records := rows.value, fenced := true));
        ok := Save();
      }
    }

    /** Every owner in turn. */
    method ResumeAll() returns (ok: bool)
      requires Running() && state.fenced && saved == state
      modifies this
      ensures Running() && Grows() && state == old(state).(progress := state.progress)
      ensures ok ==> Ready(owners, log) && saved == state
    {
      hide SentOnce, StartsLast, Generations, Recorded, StartsFit;
      ok := true;
      var i := 0;
      while ok && i < |owners|
        invariant 0 <= i <= |owners| && Running() && Grows() && state == old(state).(progress := state.progress)
        invariant ok ==> saved == state
        invariant forall k :: 0 <= k < i ==> Done(owners[k], log) && ProgressOf(state, owners[k].token).sent
        decreases |owners| - i, ok
      {
        ghost var before := log;
        ok := CheckTransitionCatalog();
        if ok {
          ok := ResumeOwner(i);
        }
        forall k | 0 <= k < i ensures Done(owners[k], log) {
          DoneStays(owners[k], before, log);
        }
        if ok {
          i := i + 1;
        }
      }
      if ok {
        ghost var before := log;
        ok := CheckTransitionCatalog();
        forall k | 0 <= k < |owners| ensures Done(owners[k], log) {
          DoneStays(owners[k], before, log);
        }
      }
    }

    /** The controllers that were running are started, each after its own checkpoint. */
    method StartControllers() returns (ok: bool)
      requires Running() && Ready(owners, log) && saved == state
      modifies this
      ensures Running() && Grows()
      ensures ok ==> forall i :: 0 <= i < |owners| && owners[i].resident ==> owners[i].unit in saved.started
    {
      hide SentOnce, StartsLast, Generations, Recorded, StartsFit;
      ok := true;
      var i := 0;
      while ok && i < |owners|
        invariant 0 <= i <= |owners| && Running() && Grows() && Ready(owners, log)
        invariant ok ==> saved == state
        invariant forall k :: 0 <= k < i && owners[k].resident ==> ok ==> owners[k].unit in saved.started
        decreases |owners| - i, ok
      {
        if owners[i].resident && owners[i].unit !in state.started {
          ghost var before := log;
          ok := StartController(i);
          ReadyStays(owners, before, log);
        }
        i := i + 1;
      }
    }

    method StartController(i: nat) returns (ok: bool)
      requires Running() && Ready(owners, log) && i < |owners| && owners[i].resident
      requires owners[i].unit !in state.started && saved == state
      modifies this
      ensures Running() && Grows() && old(saved.started) <= saved.started
      ensures ok ==> saved == state && owners[i].unit in saved.started
      ensures ok ==> |log| >= 2 && log[|log| - 2..] == [StartIssued(owners[i].unit), StartRecorded(owners[i].unit)]
      ensures Calm() ==> (ok <==> clock + MIN_TTL_MS < old(state).deadline)
    {
      hide SentOnce, StartsLast, Generations, Recorded, StartsFit;
      var unit := owners[i].unit;
      ok := Context();
      if !ok {
        return;
      }
      Change(state.(starting := Some(unit)));
      ok := Save();
      if !ok {
        return;
      }
      assert WasRunning(owners, unit);
      Note(StartIssued(unit));
      ok := Try();
      if ok {
        ok := RecordStart(unit);
      }
    }

    /** The checkpoint behind a start. */
    method RecordStart(unit: nat) returns (ok: bool)
      requires Running()
      modifies this`state, this`saved, this`log, this`faults
      ensures Running() && Grows() && old(saved.started) <= saved.started && (Calm() ==> ok)
      ensures ok ==> saved == state && unit in saved.started && log == old(log) + [StartRecorded(unit)]
    {
      hide SentOnce, StartsLast, Generations, Recorded, StartsFit;
      Change(state.(starting := None, started := state.started + {unit}));
      ok := Save();
      if ok {
        Note(StartRecorded(unit));
      }
    }

    method OwnerOf(unit: nat) returns (i: nat)
      ensures i <= |owners| && (i < |owners| ==> owners[i].unit == unit)
    {
      i := 0;
      while i < |owners| && owners[i].unit != unit
        invariant i <= |owners|
      {
        i := i + 1;
      }
    }

    /** A start that was requested when the last run ended is only looked at, never repeated here. */
    method SettleStart() returns (ok: bool)
      requires Running() && state.starting.Some?
      modifies this
      ensures Running() && Grows() && (ok ==> state.starting.None? && saved == state)
    {
      hide SentOnce, StartsLast, Generations, Recorded, StartsFit;
      var unit := state.starting.value;
      var i := OwnerOf(unit);
      if i == |owners| || !ProgressOf(state, owners[i].token).synced {
        return false;
      }
      ok := CheckTransitionCatalog();
      if ok {
        ok := ResumeOwner(i);
      }
      if ok {
        var observed: bool := *;
        Change(state.(starting := None, started := if observed then state.started + {unit} else state.started));
        ok := Save();
        if ok && observed {
          Note(StartRecorded(unit));
        }
      }
    }

    /** The part of maintenance_upgrade from a loaded checkpoint to the started controllers. */
    method Proceed() returns (ok: bool)
      requires Running()
      modifies this
      ensures Running() && Grows()
    {
      hide SentOnce, StartsLast, Generations, Recorded, StartsFit;
      ok := Save();
      if ok {
        ok := Context();
      }
      if ok && state.starting.Some? {
        ok := SettleStart();
      }
      if ok && !state.fenced {
        ok := FenceOwners();
      }
      var gatewayRuns: bool := *;
      if ok && gatewayRuns {
        ok := ResumeAll();
        if ok {
          ok := StartControllers();
        }
      }
    }

    /** One run from the checkpoint. Whatever ends it, the handler may or may not save once more. */
    method Maintain() returns (ok: bool)
      requires Valid()
      modifies this
      ensures Valid() && Grows()
    {
      hide SentOnce, StartsLast, Generations, Recorded, StartsFit;
      state := saved;
      ok := Proceed();
      if !ok {
        var handled: bool := *;
        if handled {
          var _ := Save();
        }
      }
    }
  }

  /** However often the transaction is taken up again, and wherever each run ends: at most one Resume per
      owner, no controller start before every owner is confirmed and synced, none of a controller that was not
      running before or is recorded as started, a local generation that is
      the old one or the confirmed next, and a recorded deadline that never grows. */
  method MaintainRepeatedly(transaction: Transaction, runs: nat)
    requires transaction.Valid()
    modifies transaction
    ensures transaction.Valid() && transaction.Grows()
    ensures SentOnce(transaction.log) && StartsLast(transaction.owners, transaction.log)
    ensures StartsFit(transaction.owners, transaction.log)
    ensures Generations(transaction.owners, transaction.local, transaction.log)
  {
    for i := 0 to runs
      invariant transaction.Valid() && transaction.Grows()
    {
      var _ := transaction.Maintain();
    }
  }

  lemma SendIsFirst(owners: seq<Owner>, c: Checkpoint, log: seq<Action>, action: Action)
    requires Covers(owners, c, log) && SentOnce(log) && action.ResumeSent? && !ProgressOf(c, action.token).sent
    ensures SentOnce(log + [action])
  {
    forall k | 0 <= k < |log| ensures Recorded(c, log[k]) {
    }
  }
}
