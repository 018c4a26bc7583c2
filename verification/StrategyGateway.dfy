/** One application key of the strategy gateway: a directory of immutable records that decides whether a
    native call may still be made. Every operation runs alone under the key's lock and may end at any
    step, by an exception or by the death of its process; a power loss may drop every directory entry
    that was not synced. */
module StrategyGateway {

  import opened Bytes

  datatype Name = Intent | Command | Sent

  /** The normalised intent; `order` stands for everything in it but its expiry. */
  datatype Fields = Fields(order: bytes, expiresAt: nat)

  datatype Record = Record(key: bytes, fields: Fields, binding: bytes)

  /** The native calls that matter, with what they carried, and when it was looked whether they are in time. */
  datatype Native =
    | Prepare(record: Record, at: nat)
    | Validate(record: Record, command: bytes)
    | Submit(record: Record, command: bytes, at: nat)
    | Inspect(record: Record, command: bytes)

  // ---- What the history of native calls promises

  predicate Commits(call: Native) {
    call.Submit? || call.Inspect?
  }

  /** At most one prepare and at most one submit, both before the intent expires; every call is for the same
      record, and every submit and inspect for the same command. */
  ghost predicate AtMostOnce(log: seq<Native>) {
    && (forall i, j :: 0 <= i < j < |log| ==> !(log[i].Prepare? && log[j].Prepare?))
    && (forall i, j :: 0 <= i < j < |log| ==> !(log[i].Submit? && log[j].Submit?))
    && (forall i, j :: 0 <= i < j < |log| ==> log[i].record == log[j].record)
    && (forall i, j :: 0 <= i < j < |log| && Commits(log[i]) && Commits(log[j]) ==> log[i].command == log[j].command)
    && (forall i :: 0 <= i < |log| ==> InTime(log[i]))
  }

  predicate InTime(call: Native) {
    call.Prepare? || call.Submit? ==> call.at < call.record.fields.expiresAt
  }

  // ---- The directory

  type Files = map<Name, bytes>

  /** The history agrees with the records that a power loss cannot take away. */
  ghost predicate Agrees(files: Files, durable: set<Name>, decode: bytes -> Option<Record>, call: Native) {
    && Intent in durable && Intent in files && decode(files[Intent]) == Some(call.record)
    && InTime(call)
    && (call.Submit? ==> Sent in durable)
    && (Commits(call) ==> Command in durable && Command in files && files[Command] == call.command)
  }

  ghost predicate Consistent(files: Files, durable: set<Name>, decode: bytes -> Option<Record>, log: seq<Native>) {
    && durable <= files.Keys
    && AtMostOnce(log)
    && forall i :: 0 <= i < |log| ==> Agrees(files, durable, decode, log[i])
  }

  /** Records are only added, or dropped by a power loss while not durable. */
  ghost predicate Keeps(files: Files, durable: set<Name>, files': Files, durable': set<Name>) {
    && durable <= durable' <= files'.Keys
    && forall n :: n in durable && n in files ==> n in files' && files'[n] == files[n]
  }

  /** The durable records are an intent of this key with these fields, and this command. */
  ghost predicate PreparedIn(key: bytes, decode: bytes -> Option<Record>, files: Files, durable: set<Name>,
                             fields: Fields, command: bytes)
  {
    && Intent in durable && Intent in files && decode(files[Intent]).Some?
    && decode(files[Intent]).value.key == key && decode(files[Intent]).value.fields == fields
    && Command in durable && Command in files && files[Command] == command
  }

  lemma StaysConsistent(files: Files, durable: set<Name>, files': Files, durable': set<Name>,
                        decode: bytes -> Option<Record>, log: seq<Native>)
    requires Consistent(files, durable, decode, log) && Keeps(files, durable, files', durable')
    ensures Consistent(files', durable', decode, log)
  {
    forall i | 0 <= i < |log| ensures Agrees(files', durable', decode, log[i]) {
      assert Agrees(files, durable, decode, log[i]);
    }
  }

  lemma KeepsFurther(f: Files, d: set<Name>, f': Files, d': set<Name>, f'': Files, d'': set<Name>)
    requires Keeps(f, d, f', d') && Keeps(f', d', f'', d'')
    ensures Keeps(f, d, f'', d'')
  {
  }

  /** A native call may be made when the durable records allow it: a prepare before the intent was
      durable in any earlier operation, a submit before the marker was. */
  lemma CallIsConsistent(files: Files, durable: set<Name>, decode: bytes -> Option<Record>, log: seq<Native>,
                         call: Native)
    requires Consistent(files, durable, decode, log) && Agrees(files, durable, decode, call)
    requires call.Prepare? ==> forall i :: 0 <= i < |log| ==> !log[i].Prepare?
    requires call.Submit? ==> forall i :: 0 <= i < |log| ==> !log[i].Submit?
    ensures Consistent(files, durable, decode, log + [call])
  {
    var more := log + [call];
    forall i | 0 <= i < |more| ensures Agrees(files, durable, decode, more[i]) {
      assert i < |log| ==> Agrees(files, durable, decode, log[i]);
    }
    forall i, j | 0 <= i < j < |more|
      ensures more[i].record == more[j].record
      ensures Commits(more[i]) && Commits(more[j]) ==> more[i].command == more[j].command {
      assert Agrees(files, durable, decode, more[i]) && Agrees(files, durable, decode, more[j]);
    }
  }

  lemma NoneYet(files: Files, durable: set<Name>, decode: bytes -> Option<Record>, log: seq<Native>)
    requires Consistent(files, durable, decode, log)
    ensures Intent !in durable ==> log == []
    ensures Sent !in durable ==> forall i :: 0 <= i < |log| ==> !log[i].Submit?
  {
    forall i | 0 <= i < |log| ensures Agrees(files, durable, decode, log[i]) {
    }
    if log != [] {
      assert Agrees(files, durable, decode, log[0]);
    }
  }

  // ---- The operations

  class KeyStore {
    const key: bytes
    const encode: Record -> bytes
    const decode: bytes -> Option<Record>
    const isCommand: bytes -> bool
    const isBinding: bytes -> bool
    const isNormal: Fields -> bool

    var files: Files
    /** Published names whose temporary name still exists: they have two links and cannot be read. */
    var doubled: set<Name>
    /** Temporary files and the requests directory. */
    var leftovers: bool
    var requests: bool

    /** The entries that a power loss cannot take away. */
    var durable: set<Name>
    /** Every native call made so far, and the failures of file system and transport so far. */
    ghost var log: seq<Native>
    ghost var faults: nat

    ghost predicate Valid()
      reads this
    {
      && (forall r: Record :: decode(encode(r)) == Some(r))
      && Consistent(files, durable, decode, log)
    }

    constructor (key: bytes, encode: Record -> bytes, decode: bytes -> Option<Record>, isCommand: bytes -> bool,
                 isBinding: bytes -> bool, isNormal: Fields -> bool)
      requires forall r: Record :: decode(encode(r)) == Some(r)
      ensures Valid() && log == [] && files == map[] && doubled == {} && !leftovers && !requests && faults == 0
      ensures this.key == key && this.encode == encode && this.decode == decode
      ensures this.isCommand == isCommand && this.isBinding == isBinding && this.isNormal == isNormal
    {
      this.key, this.encode, this.decode := key, encode, decode;
      this.isCommand, this.isBinding, this.isNormal := isCommand, isBinding, isNormal;
      files, doubled, leftovers, requests := map[], {}, false, false;
      durable, log, faults := {}, [], 0;
    }

    /** What no operation but a native call changes. */
    twostate predicate Kept()
      reads this
    {
      log == old(log) && old(faults) <= faults && Keeps(old(files), old(durable), files, durable)
    }

    /** What every operation keeps. */
    twostate predicate Stands()
      reads this
    {
      old(log) <= log && old(faults) <= faults && Keeps(old(files), old(durable), files, durable)
    }

    /** Nothing failed in the operation. */
    twostate predicate Calm()
      reads this
    {
      faults == old(faults)
    }

    /** The record of a name, if there is one that can be read. */
    function Whole(name: Name): Option<bytes>
      reads this`files, this`doubled
    {
      if name in files && name !in doubled then Some(files[name]) else None
    }

    /** The stored intent, if it is one of this key and of the session. */
    function Usable(scope: bytes): (r: Option<Record>)
      reads this`files, this`doubled
      ensures r.Some? ==> Intent in files && decode(files[Intent]) == r
      ensures r.Some? ==> r.value.key == key && r.value.binding == scope
    {
      var data := Whole(Intent);
      if data.None? || decode(data.value).None? then None
      else
        var record := decode(data.value).value;
        if record.key == key && record.binding == scope && isNormal(record.fields) && isBinding(scope) then Some(record)
        else None
    }

    /** The stored command, if it is one. */
    function Usual(): (r: Option<bytes>)
      reads this`files, this`doubled
      ensures r.Some? ==> Command in files && files[Command] == r.value && isCommand(r.value)
    {
      var data := Whole(Command);
      if data.Some? && isCommand(data.value) then data else None
    }

    /** Both of them. */
    function Order(scope: bytes): Option<(Record, bytes)>
      reads this`files, this`doubled
    {
      if Usable(scope).Some? && Usual().Some? then Some((Usable(scope).value, Usual().value)) else None
    }

    /** The key is prepared with these fields and this command, for good. */
    ghost predicate Prepared(fields: Fields, command: bytes)
      reads this
    {
      isCommand(command) && PreparedIn(key, decode, files, durable, fields, command)
    }

    /** Taking the lock syncs the directory, or the operation ends. */
    method Enter() returns (ok: bool)
      requires Valid()
      modifies this`durable, this`faults
      ensures Valid() && Kept() && (ok ==> durable == files.Keys) && (Calm() ==> ok)
    {
      ok := *;
      if ok {
        durable := files.Keys;
        StaysConsistent(old(files), old(durable), files, durable, decode, log);
      } else {
        faults := faults + 1;
      }
    }

    /** _read: nothing, the whole record, or a failure; a record with two links is refused. */
    method Read(name: Name) returns (ok: bool, data: Option<bytes>)
      modifies this`faults
      ensures old(faults) <= faults
      ensures ok ==> data == Whole(name) && (name in files ==> data.Some?)
      ensures Calm() ==> (ok <==> name !in files || name !in doubled)
    {
      data := None;
      var fails: bool := *;
      if fails {
        faults := faults + 1;
        return false, None;
      }
      if name !in files {
        return true, None;
      }
      return name !in doubled, Some(files[name]);
    }

    /** _publish: no-replace publication. Only success says that the record is there and durable; a
        failure leaves the old record, or the new one, complete, where there was none. */
    method Publish(name: Name, data: bytes) returns (ok: bool)
      requires Valid()
      modifies this`files, this`doubled, this`leftovers, this`durable, this`faults
      ensures Valid() && Kept()
      ensures ok ==> name in files && files[name] == data && durable == files.Keys
      ensures ok && Calm() ==> doubled == old(doubled) - {name} && leftovers == old(leftovers)
      ensures files == old(files) || (name !in old(files) && files == old(files)[name := data])
      ensures Calm() ==> (ok <==> name !in old(files) || old(Whole(name)) == Some(data))
    {
      var fine, present := Read(name);
      if !fine {
        return false;
      }
      if present.Some? {
        var synced: bool := *;
        if !synced {
          faults := faults + 1;
        }
        ok := synced && present.value == data;
        if ok {
          durable := files.Keys;
          StaysConsistent(old(files), old(durable), files, durable, decode, log);
        }
        return;
      }
      ok := Link(name, data);
    }

    /** The publication of a record that is not there: a temporary file, written in any number of
        pieces and synced, is linked under the name and then unlinked. */
    method Link(name: Name, data: bytes) returns (ok: bool)
      requires Valid() && name !in files
      modifies this`files, this`doubled, this`leftovers, this`durable, this`faults
      ensures Valid() && Kept()
      ensures ok ==> name in files && files[name] == data && durable == files.Keys
      ensures ok ==> doubled == old(doubled) - {name} && leftovers == old(leftovers)
      ensures files == old(files) || files == old(files)[name := data]
      ensures Calm() ==> ok
    {
      ok := *;
      if !ok {
        faults := faults + 1;
        return;
      }
      var cleaned: bool := *;
      var temporary: bytes := WriteAll(data);
      ok := *;
      if !ok || temporary != data {
        leftovers := leftovers || !cleaned;
        faults := faults + 1;
        return false;
      }
      files := files[name := temporary];
      doubled := doubled + {name};
      StaysConsistent(old(files), old(durable), files, durable, decode, log);
      ok := *;
      if !ok {
        if cleaned {
          doubled := doubled - {name};
        }
        faults := faults + 1;
        return;
      }
      doubled := doubled - {name};
      ok := *;
      if ok {
        durable := files.Keys;
        StaysConsistent(old(files), old(durable), files, durable, decode, log);
      } else {
        faults := faults + 1;
      }
    }

    /** The write loop: what the temporary file holds when it ends or is cut short. */
    method WriteAll(data: bytes) returns (temporary: bytes)
      modifies this`faults
      ensures old(faults) <= faults && temporary <= data && (Calm() ==> temporary == data)
    {
      temporary := [];
      while |temporary| < |data|
        invariant temporary <= data && faults == old(faults)
        decreases |data| - |temporary|
      {
        var fails: bool := *;
        if fails {
          faults := faults + 1;
          return;
        }
        var count :| 0 < count <= |data| - |temporary|;
        temporary := temporary + data[|temporary|..|temporary| + count];
      }
    }

    /** transport.call: the call is made, and its outcome may be lost. */
    method Invoke(call: Native) returns (ok: bool)
      requires Valid() && Agrees(files, durable, decode, call)
      requires call.Prepare? ==> forall i :: 0 <= i < |log| ==> !log[i].Prepare?
      requires call.Submit? ==> forall i :: 0 <= i < |log| ==> !log[i].Submit?
      modifies this`log, this`faults
      ensures Valid() && log == old(log) + [call] && old(faults) <= faults && (Calm() ==> ok)
    {
      CallIsConsistent(files, durable, decode, log, call);
      log := log + [call];
      ok := *;
      if !ok {
        faults := faults + 1;
      }
    }

    /** _record: the stored intent, for this key and the current native scope. */
    method StoredRecord(scope: bytes) returns (record: Option<Record>)
      modifies this`faults
      ensures old(faults) <= faults && (record.Some? || Calm() ==> record == Usable(scope))
    {
      var ok, data := Read(Intent);
      if !ok || data.None? {
        return None;
      }
      record := decode(data.value);
      if record.Some? {
        var r := record.value;
        if r.key != key || !isNormal(r.fields) || !isBinding(r.binding) || r.binding != scope {
          record := None;
        }
      }
    }

    /** _command. */
    method StoredCommand() returns (command: Option<bytes>)
      modifies this`faults
      ensures old(faults) <= faults && (command.Some? || Calm() ==> command == Usual())
    {
      var ok, data := Read(Command);
      command := if ok && data.Some? && isCommand(data.value) then data else None;
    }

    /** prepare. A key that was prepared before gives the same command again, for the same fields only; a key that
        never was is prepared natively, unless the intent has expired or something is left in its directory. */
    method PrepareIntent(fields: Fields, now: nat, scope: bytes) returns (command: Option<bytes>)
      requires Valid()
      modifies this
      ensures Valid() && Stands()
      ensures command.Some? ==> Prepared(fields, command.value)
      ensures Calm() && Intent in old(files) ==>
        command == if old(Usable(scope)).Some? && old(Usable(scope)).value.fields == fields then old(Usual()) else None
      ensures Calm() && Intent !in old(files) ==>
        (command.Some? <==>
           old(files) == map[] && !old(leftovers) && !old(requests) && now < fields.expiresAt && isBinding(scope))
    {
      command := None;
      var ok := Enter();
      if !ok {
        return;
      }
      var fine, present := Read(Intent);
      if !fine {
        return;
      }
      if present.Some? {
        command := Revalidate(fields, scope);
        return;
      }
      if files != map[] || leftovers || requests || fields.expiresAt <= now || !isBinding(scope) {
        return;
      }
      command := FirstPreparation(Record(key, fields, scope), now);
    }

    /** A key that was prepared before: the same intent gets the same command again. */
    method Revalidate(fields: Fields, scope: bytes) returns (command: Option<bytes>)
      requires Valid() && durable == files.Keys
      modifies this`log, this`faults
      ensures Valid() && Stands()
      ensures command.Some? ==> Prepared(fields, command.value)
      ensures command.Some? || Calm() ==>
        command == if Usable(scope).Some? && Usable(scope).value.fields == fields then Usual() else None
    {
      var record := StoredRecord(scope);
      if record.None? || record.value.fields != fields {
        return None;
      }
      command := StoredCommand();
      if command.Some? {
        var ok := Invoke(Validate(record.value, command.value));
        if !ok {
          command := None;
        }
      }
    }

    /** The intent is the marker of a preparation: it is durable before the native prepare is called. */
    method FirstPreparation(record: Record, now: nat) returns (command: Option<bytes>)
      requires Valid() && files == map[] && record.key == key && now < record.fields.expiresAt
      modifies this
      ensures Valid() && Stands()
      ensures command.Some? ==> Prepared(record.fields, command.value)
      ensures Calm() ==> command.Some?
    {
      NoneYet(files, durable, decode, log);
      var ok := Publish(Intent, encode(record));
      if !ok {
        return None;
      }
      requests := true;
      ok := *;
      if !ok {
        faults := faults + 1;
        return None;
      }
      ok := Invoke(Prepare(record, now));
      var answer: bytes := *;
      if !isCommand(answer) {
        faults := faults + 1;
      }
      if !ok || !isCommand(answer) {
        return None;
      }
      ok := Publish(Command, answer);
      command := if ok then Some(answer) else None;
    }

    /** adopt_preparation: a command is recorded only where no other one is. */
    method AdoptPreparation(candidate: bytes, scope: bytes) returns (ok: bool)
      requires Valid()
      modifies this
      ensures Valid() && Stands()
      ensures ok ==> old(Usable(scope)).Some? && Prepared(old(Usable(scope)).value.fields, candidate)
      ensures Calm() ==>
        (ok <==> isCommand(candidate) && old(Usable(scope)).Some?
                 && (Command !in old(files) || old(Whole(Command)) == Some(candidate)))
    {
      if !isCommand(candidate) {
        return false;
      }
      ok := Enter();
      if ok {
        var record := StoredRecord(scope);
        ok := record.Some?;
        if ok {
          ok := Invoke(Validate(record.value, candidate));
        }
      }
      if ok {
        ok := Publish(Command, candidate);
      }
    }

    /** submit: inspects when the marker is there; otherwise publishes the marker and only then sends. */
    method SubmitOnce(now: nat, scope: bytes) returns (ok: bool)
      requires Valid()
      modifies this
      ensures Valid() && Stands()
      ensures ok ==> old(Order(scope)).Some? && log != []
      ensures ok ==>
        var order, last := old(Order(scope)).value, log[|log| - 1];
        last == if Sent in old(files) then Inspect(order.0, order.1) else Submit(order.0, order.1, now)
      ensures Calm() ==>
        (ok <==>
           && old(Order(scope)).Some?
           && if Sent in old(files) then old(Whole(Sent)) == Some(old(Order(scope)).value.1)
              else now < old(Order(scope)).value.0.fields.expiresAt)
    {
      hide Consistent, Keeps, Order, Whole;
      ok := Enter();
      if ok {
        ghost var entered := durable;
        ok := SubmitLocked(now, scope);
        KeepsFurther(old(files), old(durable), old(files), entered, files, durable);
      }
    }

    /** The part of submit behind the lock. */
    method SubmitLocked(now: nat, scope: bytes) returns (ok: bool)
      requires Valid() && durable == files.Keys
      modifies this
      ensures Valid() && Stands()
      ensures ok ==> old(Order(scope)).Some? && log != []
      ensures ok ==>
        var order, last := old(Order(scope)).value, log[|log| - 1];
        last == if Sent in old(files) then Inspect(order.0, order.1) else Submit(order.0, order.1, now)
      ensures Calm() ==>
        (ok <==>
           && old(Order(scope)).Some?
           && if Sent in old(files) then old(Whole(Sent)) == Some(old(Order(scope)).value.1)
              else now < old(Order(scope)).value.0.fields.expiresAt)
    {
      hide Consistent, Usable, Usual;
      var record := StoredRecord(scope);
      var command := StoredCommand();
      var fine, marker := Read(Sent);
      if record.None? || command.None? || !fine {
        return false;
      }
      if marker.Some? {
        if marker.value != command.value {
          return false;
        }
        ok := Invoke(Inspect(record.value, command.value));
      } else {
        ok := Send(record.value, command.value, now);
      }
    }

    /** The marker is durable before the one native submit, which is made only while the intent is in time. */
    method Send(record: Record, command: bytes, now: nat) returns (ok: bool)
      requires Valid() && durable == files.Keys && Sent !in files
      requires Intent in files && decode(files[Intent]) == Some(record) && Command in files && files[Command] == command
      modifies this
      ensures Valid() && Stands()
      ensures ok ==> log != [] && log[|log| - 1] == Submit(record, command, now)
      ensures ok || Calm() ==> (ok <==> now < record.fields.expiresAt)
    {
      NoneYet(files, durable, decode, log);
      ok := Invoke(Validate(record, command));
      if !ok || record.fields.expiresAt <= now {
        return false;
      }
      ok := Publish(Sent, command);
      if ok {
        ok := Invoke(Submit(record, command, now));
      }
    }

    method InspectCommand(scope: bytes) returns (ok: bool)
      requires Valid()
      modifies this
      ensures Valid() && Stands()
      ensures ok ==> old(Order(scope)).Some? && log != []
      ensures ok ==> log[|log| - 1] == Inspect(old(Order(scope)).value.0, old(Order(scope)).value.1)
      ensures Calm() ==> (ok <==> old(Order(scope)).Some?)
    {
      ok := Enter();
      if !ok {
        return;
      }
      var record := StoredRecord(scope);
      var command := StoredCommand();
      if record.None? || command.None? {
        return false;
      }
      ok := Invoke(Inspect(record.value, command.value));
    }

    /** A power loss: entries that were not synced are kept or dropped, and an unsynced unlink may be
        undone. */
    method PowerLoss()
      requires Valid()
      modifies this`files, this`doubled, this`leftovers, this`requests, this`faults
      ensures Valid() && log == old(log) && Stands()
    {
      var dropped: set<Name> := *;
      ghost var before := files;
      files := map n | n in files && (n in durable || n !in dropped) :: files[n];
      doubled, leftovers, requests := *, *, *;
      faults := faults + 1;
      StaysConsistent(before, durable, files, durable, decode, log);
    }
  }

  // ---- Every run

  datatype Request =
    | AskPrepare(fields: Fields)
    | AskAdopt(command: bytes)
    | AskSubmit
    | AskInspect
    | LosePower

  /** A request, when it is made and from which session. */
  datatype Turn = Turn(request: Request, now: nat, scope: bytes)

  predicate Grants(turn: Turn, answer: Option<bytes>) {
    turn.request.AskPrepare? && answer.Some?
  }

  /** Every prepare that succeeded stands in the durable records. */
  ghost predicate AllStand(key: bytes, decode: bytes -> Option<Record>, files: Files, durable: set<Name>,
                           turns: seq<Turn>, answers: seq<Option<bytes>>)
  {
    && |answers| <= |turns|
    && forall i :: 0 <= i < |answers| && Grants(turns[i], answers[i]) ==>
         PreparedIn(key, decode, files, durable, turns[i].request.fields, answers[i].value)
  }

  lemma AllStillStand(key: bytes, decode: bytes -> Option<Record>, files: Files, durable: set<Name>, files': Files,
                      durable': set<Name>, turns: seq<Turn>, answers: seq<Option<bytes>>)
    requires AllStand(key, decode, files, durable, turns, answers) && Keeps(files, durable, files', durable')
    ensures AllStand(key, decode, files', durable', turns, answers)
  {
  }

  /** Every prepare that succeeded was asked with the same fields and gave the same command. */
  ghost predicate OneIntent(turns: seq<Turn>, answers: seq<Option<bytes>>)
    requires |answers| == |turns|
  {
    forall i, j :: 0 <= i < j < |turns| && Grants(turns[i], answers[i]) && Grants(turns[j], answers[j]) ==>
      turns[i].request.fields == turns[j].request.fields && answers[i] == answers[j]
  }

  /** Whatever is asked of one key, in whatever order, and wherever each operation ends: at most one native prepare
      and at most one native submit, both in time, one record for every call and one command for every submit and
      inspect; and one intent for every prepare that succeeds. */
  method Serve(store: KeyStore, turns: seq<Turn>) returns (answers: seq<Option<bytes>>)
    requires store.Valid()
    modifies store
    ensures store.Valid() && old(store.log) <= store.log && AtMostOnce(store.log)
    ensures |answers| == |turns| && OneIntent(turns, answers)
  {
    hide AtMostOnce, Keeps;
    answers := [];
    while |answers| < |turns|
      invariant store.Valid() && old(store.log) <= store.log
      invariant AllStand(store.key, store.decode, store.files, store.durable, turns, answers)
      decreases |turns| - |answers|
    {
      ghost var files, durable := store.files, store.durable;
      var answer := ServeOne(store, turns[|answers|]);
      AllStillStand(store.key, store.decode, files, durable, store.files, store.durable, turns, answers);
      answers := answers + [answer];
    }
  }

  /** One turn. */
  method ServeOne(store: KeyStore, turn: Turn) returns (answer: Option<bytes>)
    requires store.Valid()
    modifies store
    ensures store.Valid() && store.Stands()
    ensures Grants(turn, answer) ==> store.Prepared(turn.request.fields, answer.value)
  {
    hide AtMostOnce, Keeps;
    answer := None;
    match turn.request {
      case AskPrepare(fields) => answer := store.PrepareIntent(fields, turn.now, turn.scope);
      case AskAdopt(command) => var _ := store.AdoptPreparation(command, turn.scope);
      case AskSubmit => var _ := store.SubmitOnce(turn.now, turn.scope);
      case AskInspect => var _ := store.InspectCommand(turn.scope);
      case LosePower => store.PowerLoss();
    }
  }
}
