/** The audited switch of a resident driver and its rollback. Every operation on the service manager, the
    drop-in files and the session service may fail, before or after it took effect. */
module DriverSwitch {

  import opened Bytes

  /** The two reviewed releases, or anything else found in the ExecStart drop-in or running. */
  datatype Release = Original | Candidate | Foreign

  datatype Guard = RefusesStop | AllowsStop | Tampered

  datatype Process = Process(pid: nat, release: Release)

  datatype Service = Active(process: Process) | Inactive | FailedUnit | Unsettled

  datatype Event = Audited(process: Process) | StopRequested(process: Process)

  datatype Status = Activating | Activated | Failed

  datatype Rollback = NotNeeded | OriginalRunning | OriginalRestored | IncompleteHeld

  datatype Receipt = Receipt(status: Status, rollback: Rollback, guardRestored: bool)

  /** Every requested stop directly follows an accepted audit of the very process it stops. */
  ghost predicate AuditedStops(log: seq<Event>) {
    forall k :: 0 <= k < |log| && log[k].StopRequested? ==> k > 0 && log[k - 1] == Audited(log[k].process)
  }

  lemma AuditedMore(log: seq<Event>, event: Event)
    requires AuditedStops(log)
    requires event.StopRequested? ==> log != [] && log[|log| - 1] == Audited(event.process)
    ensures AuditedStops(log + [event])
  {
    var more := log + [event];
    forall k | 0 <= k < |more| && more[k].StopRequested? ensures k > 0 && more[k - 1] == Audited(more[k].process) {
      if k < |log| {
        assert more[k] == log[k];
      }
    }
  }

  class Upgrade {
    /** The drop-in files and what the service manager has loaded of them. */
    var execFile: Release
    var guardFile: Guard
    var loadedExec: Release
    var loadedGuard: Guard
    var service: Service
    var nextPid: nat
    ghost var log: seq<Event>
    /** The operations that failed, and the audits that were not accepted. */
    ghost var faults: nat

    /** Processes are never confused with later ones. */
    ghost predicate Valid()
      reads this
    {
      AuditedStops(log) && (service.Active? ==> service.process.pid < nextPid)
    }

    ghost predicate Guarded()
      reads this
    {
      guardFile == RefusesStop && loadedGuard == RefusesStop
    }

    /** Nothing failed. */
    twostate predicate Calm()
      reads this
    {
      faults == old(faults)
    }

    /** The state the switch is entered in, after its inspections. */
    constructor (pid: nat)
      ensures Valid() && log == [] && service == Active(Process(pid, Original)) && faults == 0
      ensures execFile == loadedExec == Original && Guarded()
    {
      execFile, loadedExec := Original, Original;
      guardFile, loadedGuard := RefusesStop, RefusesStop;
      service, nextPid := Active(Process(pid, Original)), pid + 1;
      log, faults := [], 0;
    }

    // ---- Operations

    /** An operation of the host: what does not succeed counts as a fault. */
    method Try() returns (ok: bool)
      modifies this`faults
      ensures old(faults) <= faults && (Calm() ==> ok)
    {
      ok := *;
      if !ok {
        faults := faults + 1;
      }
    }

    /** systemctl daemon-reload. */
    method DaemonReload() returns (ok: bool)
      modifies this`loadedExec, this`loadedGuard, this`faults
      ensures old(faults) <= faults && (Calm() ==> ok)
      ensures ok ==> loadedExec == execFile && loadedGuard == guardFile
    {
      ok := Try();
      var effective: bool := *;
      if ok || effective {
        loadedExec, loadedGuard := execFile, guardFile;
      }
    }

    /** systemctl stop: refused while the loaded guard refuses it. */
    method StopUnit(ghost process: Process) returns (ok: bool)
      requires Valid() && log != [] && log[|log| - 1] == Audited(process)
      modifies this`service, this`log, this`faults
      ensures Valid() && old(faults) <= faults
      ensures ok ==> service == Inactive
      ensures service == old(service) || service == Inactive || service == Unsettled
      ensures Calm() ==> (ok <==> loadedGuard == AllowsStop)
    {
      AuditedMore(log, StopRequested(process));
      log := log + [StopRequested(process)];
      if loadedGuard != AllowsStop {
        return false;
      }
      ok := Try();
      var effective: bool := *;
      if ok {
        service := Inactive;
      } else if effective {
        var settled: bool := *;
        service := if settled then Inactive else Unsettled;
      }
    }

    /** systemctl start of an inactive unit: whatever ExecStart is loaded becomes the process. */
    method StartUnit() returns (ok: bool)
      requires Valid()
      modifies this`service, this`nextPid, this`faults
      ensures Valid() && old(faults) <= faults && old(nextPid) <= nextPid
      ensures old(service).Active? ==> service == old(service)
      ensures service.Active? && service != old(service) ==>
        service == Active(Process(old(nextPid), loadedExec))
      ensures Calm() ==> ok && service.Active?
    {
      ok := Try();
      if service.Active? {
        return;
      }
      var outcome: nat := *;
      if outcome == 0 {
        service := Active(Process(nextPid, loadedExec));
        nextPid := nextPid + 1;
      } else {
        faults := faults + 1;
        if outcome == 1 {
          service := FailedUnit;
        } else if outcome == 2 {
          service := Unsettled;
        }
      }
    }

    /** replace_exact on the ExecStart drop-in. */
    method ReplaceExec(expected: Release, replacement: Release) returns (ok: bool)
      modifies this`execFile, this`faults
      ensures old(faults) <= faults
      ensures execFile == old(execFile) || (old(execFile) == expected && execFile == replacement)
      ensures ok ==> old(execFile) == expected && execFile == replacement
      ensures Calm() ==> (ok <==> old(execFile) == expected)
    {
      if execFile != expected {
        return false;
      }
      ok := Try();
      var effective: bool := *;
      if ok || effective {
        execFile := replacement;
      }
    }

    /** replace_exact on the stop guard. */
    method ReplaceGuard(expected: Guard, replacement: Guard) returns (ok: bool)
      modifies this`guardFile, this`faults
      ensures old(faults) <= faults
      ensures guardFile == old(guardFile) || (old(guardFile) == expected && guardFile == replacement)
      ensures ok ==> old(guardFile) == expected && guardFile == replacement
      ensures Calm() ==> (ok <==> old(guardFile) == expected)
    {
      if guardFile != expected {
        return false;
      }
      ok := Try();
      var effective: bool := *;
      if ok || effective {
        guardFile := replacement;
      }
    }

    /** restore_exact on the ExecStart drop-in: already restored, replaced, or neither of the two known. */
    method RestoreExec() returns (ok: bool)
      modifies this`execFile, this`faults
      ensures old(faults) <= faults
      ensures ok ==> execFile == Original
      ensures execFile == old(execFile) || (old(execFile) == Candidate && execFile == Original)
      ensures Calm() ==> (ok <==> old(execFile) != Foreign)
    {
      if execFile == Original {
        return true;
      }
      ok := ReplaceExec(Candidate, Original);
    }

    // ---- Checks

    /** context: nothing else on the host changed, the guard is the expected one in file and manager, and
        the expected driver, if any, is still the running one. */
    method Context(expected: Option<Process>, guard: Guard) returns (ok: bool)
      modifies this`faults
      ensures old(faults) <= faults
      ensures ok ==> guardFile == guard && loadedGuard == guard
      ensures ok && expected.Some? ==> service == Active(expected.value)
      ensures Calm() ==>
        (ok <==> guardFile == guard && loadedGuard == guard && (expected.Some? ==> service == Active(expected.value)))
    {
      ok := Try();
      ok := ok && guardFile == guard && loadedGuard == guard && (expected.Some? ==> service == Active(expected.value));
    }

    /** stopped: the unit is inactive and the old process is gone. */
    method Stopped() returns (ok: bool)
      modifies this`faults
      ensures old(faults) <= faults && (ok ==> service == Inactive)
      ensures Calm() ==> (ok <==> service == Inactive)
    {
      ok := Try();
      ok := ok && service == Inactive;
    }

    /** ensure_guard: the readback decides, not the local phase. */
    method EnsureGuard() returns (ok: bool)
      modifies this`guardFile, this`loadedGuard, this`loadedExec, this`faults
      ensures old(faults) <= faults
      ensures ok ==> Guarded()
      ensures guardFile == old(guardFile) || (old(guardFile) == AllowsStop && guardFile == RefusesStop)
      ensures Calm() ==> (ok <==> old(guardFile) != Tampered)
    {
      var changed := false;
      ok := Try();
      if ok && guardFile != RefusesStop {
        ok := ReplaceGuard(AllowsStop, RefusesStop);
        changed := ok;
      }
      if ok && (changed || loadedGuard != RefusesStop) {
        ok := DaemonReload();
      }
      ok := ok && loadedGuard == RefusesStop;
    }

    /** fresh_audit: up to three attempts; only an accepted zero-owner reply with the driver unchanged
        before and after it counts. */
    method FreshAudit(expected: Process) returns (ok: bool)
      requires Valid()
      modifies this`log, this`faults
      ensures Valid() && old(faults) <= faults
      ensures ok ==> log != [] && log[|log| - 1] == Audited(expected) && service == Active(expected) && Guarded()
      ensures Calm() ==> (ok <==> service == Active(expected) && Guarded())
    {
      var attempt := 0;
      while attempt < 3
        invariant 0 <= attempt <= 3 && Valid() && old(faults) <= faults
        invariant attempt > 0 ==> old(faults) < faults
      {
        ok := Context(Some(expected), RefusesStop);
        if !ok {
          return false;
        }
        var accepted: bool := *;
        var retry: bool := *;
        if accepted {
          ok := Context(Some(expected), RefusesStop);
          if ok {
            AuditedMore(log, Audited(expected));
            log := log + [Audited(expected)];
          }
          return ok;
        }
        faults := faults + 1;
        if !retry || attempt == 2 {
          return false;
        }
        attempt := attempt + 1;
      }
      return false;
    }

    /** start_verified: the unit is started and observed running the wanted release. */
    method StartVerified(release: Release) returns (actual: Option<Process>)
      requires Valid()
      modifies this`service, this`nextPid, this`faults
      ensures Valid() && old(faults) <= faults && old(nextPid) <= nextPid
      ensures actual.Some? ==> service == Active(actual.value) && actual.value.release == release && Guarded()
      ensures old(service).Active? ==> service == old(service)
      ensures service.Active? && service != old(service) ==>
        service == Active(Process(old(nextPid), loadedExec))
      ensures Calm() && !old(service).Active? ==> (actual.Some? <==> Guarded() && loadedExec == release)
    {
      actual := None;
      var ok := Context(None, RefusesStop);
      if ok {
        ok := StartUnit();
      }
      if !ok || !service.Active? || service.process.release != release {
        return;
      }
      actual := Some(service.process);
      ok := Context(actual, RefusesStop);
      if !ok {
        actual := None;
      }
    }

    // ---- The switch

    /** What a switch to a replacement may leave: the drop-in is the old or the new one, the driver is the expected
        one, gone, unsettled, or the replacement from its own drop-in, and the guard is one of the two. */
    ghost predicate MidSwitch(expected: Process, before: Release, replacement: Release)
      reads this
    {
      && guardFile != Tampered && (execFile == before || execFile == replacement)
      && (service.Active? ==>
            service.process == expected || (service.process.release == replacement && execFile == replacement))
    }

    /** The body of the switch, without its final guard restoration. */
    method SwitchBody(expected: Process, before: Release, replacement: Release) returns (actual: Option<Process>)
      requires Valid() && log != [] && log[|log| - 1] == Audited(expected)
      requires service == Active(expected) && Guarded() && execFile == before
      modifies this
      ensures Valid() && old(faults) <= faults && MidSwitch(expected, before, replacement)
      ensures actual.Some? ==>
        service == Active(actual.value) && actual.value.release == replacement && execFile == replacement
      ensures Calm() ==> actual.Some?
    {
      actual := None;
      var ok := ReplaceGuard(RefusesStop, AllowsStop);
      if ok {
        ok := DaemonReload();
      }
      if ok {
        ok := Context(Some(expected), AllowsStop);
      }
      if !ok {
        return;
      }
      ok := StopUnit(expected);
      if ok {
        ok := Stopped();
      }
      if ok {
        ok := Context(None, AllowsStop);
      }
      if ok {
        actual := StartReplacement(expected, before, replacement);
      }
    }

    /** The second half: the drop-in is replaced while nothing runs, and the replacement started. */
    method StartReplacement(expected: Process, before: Release, replacement: Release) returns (actual: Option<Process>)
      requires Valid() && service == Inactive && guardFile == loadedGuard == AllowsStop && execFile == before
      requires expected.pid < nextPid
      modifies this`execFile, this`guardFile, this`loadedExec, this`loadedGuard, this`service, this`nextPid, this`faults
      ensures Valid() && old(faults) <= faults && MidSwitch(expected, before, replacement)
      ensures actual.Some? ==>
        service == Active(actual.value) && actual.value.release == replacement && execFile == replacement
      ensures Calm() ==> actual.Some?
    {
      actual := None;
      var ok := ReplaceExec(before, replacement);
      if ok {
        ok := ReplaceGuard(AllowsStop, RefusesStop);
      }
      if ok {
        ok := DaemonReload();
      }
      if ok {
        ok := Context(None, RefusesStop);
      }
      if ok {
        ok := Stopped();
      }
      if ok {
        actual := StartVerified(replacement);
        if actual.Some? && actual.value.pid == expected.pid {
          actual := None;
        }
      }
    }

    /** switch: activation and rollback use the same audited stop sequence. */
    method Switch(expected: Process, before: Release, replacement: Release) returns (actual: Option<Process>)
      requires Valid()
      modifies this
      ensures Valid() && old(faults) <= faults
      ensures actual.Some? ==>
        service == Active(actual.value) && actual.value.release == replacement && execFile == replacement
      ensures actual.Some? ==> Guarded()
      ensures old(MidSwitch(expected, before, replacement)) ==> MidSwitch(expected, before, replacement)
      ensures Calm() ==>
        (actual.Some? <==> old(service) == Active(expected) && old(Guarded()) && old(execFile) == before)
    {
      actual := None;
      var ok := Context(Some(expected), RefusesStop);
      if !ok || execFile != before {
        return;
      }
      ok := FreshAudit(expected);
      if !ok {
        return;
      }
      actual := SwitchBody(expected, before, replacement);
      ok := EnsureGuard();
      if !ok {
        actual := None;
      }
    }

    /** What a rollback can undo: the guard and the drop-in are among the known ones, and the original runs, or the
        candidate from its own drop-in, or nothing. */
    ghost predicate Recoverable()
      reads this
    {
      && guardFile != Tampered && execFile != Foreign
      && match service
         case Active(process) => process.release == Original || (process.release == Candidate && execFile == Candidate)
         case Unsettled => false
         case _ => true
    }

    /** The rollback branches: what is found running decides. When nothing fails, exactly the recoverable states end
        with the original running from the original drop-in. */
    method RollBack() returns (rollback: Rollback)
      requires Valid()
      modifies this
      ensures Valid() && old(faults) <= faults
      ensures rollback == OriginalRunning || rollback == OriginalRestored || rollback == IncompleteHeld
      ensures rollback != IncompleteHeld ==>
        service.Active? && service.process.release == Original && execFile == Original
      ensures Calm() ==> (rollback != IncompleteHeld <==> old(Recoverable()))
      ensures Calm() && rollback != IncompleteHeld ==> Guarded()
    {
      rollback := IncompleteHeld;
      var ok := EnsureGuard();
      if ok {
        ok := Context(None, RefusesStop);
      }
      if !ok {
        return;
      }
      match service
      case Active(process) =>
        if process.release == Original {
          ok := RestoreExec();
          if ok {
            ok := DaemonReload();
          }
          if ok {
            ok := Context(Some(process), RefusesStop);
          }
          if ok {
            rollback := OriginalRunning;
          }
        } else if process.release == Candidate {
          var actual := Switch(process, Candidate, Original);
          if actual.Some? {
            rollback := OriginalRestored;
          }
        }
      case Unsettled =>
      case _ =>
        var gone := Try();
        if gone {
          rollback := RestoreStopped();
        }
    }

    /** The rollback of a unit that does not run. */
    method RestoreStopped() returns (rollback: Rollback)
      requires Valid() && (service == Inactive || service == FailedUnit) && Guarded()
      modifies this
      ensures Valid() && old(faults) <= faults && (rollback == OriginalRestored || rollback == IncompleteHeld)
      ensures rollback != IncompleteHeld ==>
        service.Active? && service.process.release == Original && execFile == Original && Guarded()
      ensures Calm() ==> (rollback != IncompleteHeld <==> old(execFile) != Foreign)
    {
      rollback := IncompleteHeld;
      var ok := RestoreExec();
      if ok {
        ok := EnsureGuard();
      }
      if ok {
        ok := DaemonReload();
      }
      if ok {
        ok := Context(None, RefusesStop);
      }
      if ok {
        var actual := StartVerified(Original);
        if actual.Some? {
          rollback := OriginalRestored;
        }
      }
    }

    /** maintenance_upgrade from the prepared state on. ACTIVATED means the candidate runs from its own
        drop-in with the guard restored; a finished rollback means the original runs from the original
        drop-in; everything else is reported as held. Every stop has its own audit. When nothing fails the candidate
        is activated; when something failed in the switch and nothing after it, the original is restored with its
        guard, unless the unit was left unsettled. */
    method Maintain(original: Process) returns (receipt: Receipt, ghost switched: nat, ghost unsettled: bool)
      requires Valid() && original.release == Original
      modifies this
      ensures Valid() && old(faults) <= switched <= faults
      ensures receipt.status == Activated ==>
        service.Active? && service.process.release == Candidate && execFile == Candidate && Guarded()
      ensures receipt.status != Activated ==> receipt.status == Failed && receipt.rollback != NotNeeded
      ensures receipt.rollback == OriginalRunning || receipt.rollback == OriginalRestored ==>
        receipt.status == Failed && service.Active? && service.process.release == Original && execFile == Original
      ensures receipt.guardRestored ==> Guarded()
      ensures old(service) == Active(original) && old(Guarded()) && old(execFile) == Original ==>
        && (Calm() ==> receipt == Receipt(Activated, NotNeeded, true))
        && (receipt.status == Failed && faults == switched && !unsettled ==>
              receipt.rollback != IncompleteHeld && receipt.guardRestored)
    {
      var actual := Switch(original, Original, Candidate);
      switched, unsettled := faults, service == Unsettled;
      if actual.Some? {
        receipt := Receipt(Activated, NotNeeded, true);
        return;
      }
      var rollback := RollBack();
      var restored := EnsureGuard();
      receipt := Receipt(Failed, rollback, restored);
    }
  }
}
