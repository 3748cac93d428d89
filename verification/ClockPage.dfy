/** The clock page and its leases updated in place, as src/backedge_clock.rs does it. */
module ClockPage {
  import opened Wrappers
  import opened RegionClock
  import opened BackedgeClock

  class Page {
    const pid: int
    var active: bool
    var words: ClockWords
    var leases: seq<Lease>

    ghost function State(): Clock
      reads this
    {
      Clock(pid, active, words, leases)
    }

    /** Adopts a page: zero words, nobody owns it. */
    constructor (pid: int)
      ensures State() == Clock(pid, false, ClockWords(0, 0, 0, 0), []) && Inv(State())
    {
      this.pid := pid;
      active, words, leases := false, ClockWords(0, 0, 0, 0), [];
    }

    method Acquire(caller: Caller, quantum: nat, maxWork: nat) returns (r: Result<nat, ClockError>)
      requires Inv(State())
      modifies this
      ensures Inv(State()) && (State(), r) == BackedgeClock.Acquire(old(State()), caller, quantum, maxWork)
      ensures r.Ok? <==> 0 < quantum && 0 < maxWork <= MAX_WORK && pid == caller.pid && !old(active)
      ensures r.Ok? ==> active && words == ClockWords(0, 0, 0, quantum)
      ensures r.Err? ==> active == old(active) && words == old(words) && leases == old(leases)
    {
      AcquireKeepsInv(State(), caller, quantum, maxWork);
      if quantum == 0 || maxWork == 0 || maxWork > MAX_WORK {
        return Err(Invocation);
      }
      if pid != caller.pid || active {
        return Err(Owner);
      }
      active := true;
      leases := leases + [Lease(caller.tid, false, maxWork, Fresh, None, true, false, 0, 0)];
      words := ClockWords(0, 0, 0, quantum);
      r := Ok(|leases| - 1);
    }

    method RefillAfterResume(caller: Caller, quantum: nat) returns (r: Result<(), ClockError>)
      requires Inv(State())
      modifies this`words
      ensures Inv(State()) && (State(), r) == Refill(old(State()), caller, quantum)
      ensures r.Ok? <==> 0 < quantum && pid == caller.pid && active && old(words).remaining == 0
      ensures words == if r.Ok? then old(words).(remaining := quantum) else old(words)
    {
      if quantum == 0 || pid != caller.pid || !active {
        return Err(Invocation);
      }
      if words.remaining != 0 {
        return Err(Invocation);
      }
      words := words.(remaining := quantum);
      r := Ok(());
    }

    method BeginCall(l: nat, caller: Caller) returns (r: Result<(), ClockError>)
      requires Inv(State()) && HasLease(State(), l)
      modifies this`leases
      ensures Inv(State()) && (State(), r) == BackedgeClock.BeginCall(old(State()), l, caller)
      ensures r.Ok? <==>
                && pid == caller.pid && old(leases)[l].tid == caller.tid
                && (old(leases)[l].admission.Fresh? || old(leases)[l].admission.Ordinary?) && !old(leases)[l].inCall
      ensures r.Err? ==> leases == old(leases)
    {
      StepKeepsInv(State(), BeginCallEvent(l, caller));
      var lease := leases[l];
      if pid != caller.pid || lease.tid != caller.tid {
        return Err(Owner);
      }
      if lease.admission.Batched? || lease.admission.Finished? {
        return Err(Invocation);
      }
      var was := lease.inCall;
      leases := leases[l := lease.(inCall := true)];
      if was {
        assert leases == old(leases);
        return Err(Invocation);
      }
      leases := leases[l := leases[l].(admission := Ordinary, flying := leases[l].flying + 1)];
      assert leases == old(leases)[l := lease.(inCall := true, admission := Ordinary, flying := lease.flying + 1)];
      r := Ok(());
    }

    /** The drop of a call guard. */
    method EndCall(l: nat)
      requires Inv(State()) && Enabled(State(), EndCallEvent(l))
      modifies this`leases
      ensures Inv(State()) && State() == BackedgeClock.EndCall(old(State()), l)
    {
      StepKeepsInv(State(), EndCallEvent(l));
      leases := leases[l := leases[l].(inCall := false, flying := leases[l].flying - 1)];
    }

    /** The drop of a lease: only its own idle worker gives the page back. */
    method DropLease(l: nat, caller: Caller)
      requires Inv(State()) && HasLease(State(), l)
      modifies this`leases, this`active
      ensures Inv(State()) && State() == BackedgeClock.DropLease(old(State()), l, caller)
      ensures !active <==> !old(leases)[l].inCall && pid == caller.pid && old(leases)[l].tid == caller.tid
    {
      DropKeepsInv(State(), l, caller);
      HeldIsActive(State(), l);
      leases := leases[l := leases[l].(live := false)];
      if !leases[l].inCall && pid == caller.pid && leases[l].tid == caller.tid {
        active := false;
        leases := leases[l := leases[l].(released := true)];
      }
    }

    method BeginBatch(l: nat, caller: Caller, calls: nat, workPerCall: nat) returns (r: Result<(), ClockError>)
      requires Inv(State()) && HasLease(State(), l)
      modifies this`leases
      ensures Inv(State()) && (State(), r) == BackedgeClock.BeginBatch(old(State()), l, caller, calls, workPerCall)
      ensures r.Ok? <==>
                && pid == caller.pid && old(leases)[l].tid == caller.tid
                && old(leases)[l].admission.Fresh? && !old(leases)[l].inCall
                && 0 < calls && 0 < workPerCall && calls * workPerCall <= old(leases)[l].admittedWork <= MAX_WORK
      ensures r.Err? ==> leases == old(leases)
    {
      StepKeepsInv(State(), BeginBatchEvent(l, caller, calls, workPerCall));
      var lease := leases[l];
      if pid != caller.pid || lease.tid != caller.tid {
        return Err(Owner);
      }
      if !lease.admission.Fresh? || lease.inCall {
        return Err(Invocation);
      }
      var work := calls * workPerCall;
      if work >= 0x1_0000_0000_0000_0000 || calls == 0 || workPerCall == 0 || work > lease.admittedWork || lease.admittedWork > MAX_WORK {
        return Err(Invocation);
      }
      lease := lease.(inCall := true);
      lease := lease.(admission := Batched, batch := Some(Batch(calls, calls, work, workPerCall, 0, false, false)));
      leases := leases[l := lease];
      r := Ok(());
    }

    method BatchCall(l: nat) returns (r: Result<(), ClockError>)
      requires Inv(State()) && Enabled(State(), BatchCallEvent(l))
      modifies this`leases
      ensures Inv(State()) && (State(), r) == BackedgeClock.BatchCall(old(State()), l)
      ensures var batch := old(leases)[l].batch.value;
              r.Ok? <==> !batch.poisoned && !batch.inCall && 0 < batch.remainingCalls
      ensures r.Err? ==> leases == old(leases)
      ensures r.Ok? ==> leases[l].charged == old(leases)[l].charged + old(leases)[l].batch.value.workPerCall
    {
      StepKeepsInv(State(), BatchCallEvent(l));
      var lease := leases[l];
      var batch := lease.batch.value;
      if batch.poisoned || batch.inCall || batch.remainingCalls == 0 || batch.remainingWork < batch.workPerCall {
        return Err(Invocation);
      }
      batch := batch.(remainingCalls := batch.remainingCalls - 1);
      batch := batch.(remainingWork := batch.remainingWork - batch.workPerCall);
      batch := batch.(inCall := true);
      leases := leases[l := lease.(batch := Some(batch), flying := lease.flying + 1, charged := lease.charged + batch.workPerCall)];
      r := Ok(());
    }

    /** `returned`, and the token's drop when unwinding. */
    method BatchReturned(l: nat, panicking: bool)
      requires Inv(State()) && Enabled(State(), BatchReturnedEvent(l, panicking))
      modifies this`leases
      ensures Inv(State()) && State() == BackedgeClock.BatchReturned(old(State()), l, panicking)
    {
      StepKeepsInv(State(), BatchReturnedEvent(l, panicking));
      var lease := leases[l];
      var batch := lease.batch.value;
      if panicking {
        batch := batch.(poisoned := true);
        leases := leases[l := lease.(batch := Some(batch))];
      } else {
        batch := batch.(completed := batch.completed + 1);
        batch := batch.(inCall := false);
        leases := leases[l := lease.(batch := Some(batch), flying := lease.flying - 1)];
      }
    }

    method Finish(l: nat, caller: Caller, panicking: bool) returns (r: Result<(), ClockError>)
      requires Inv(State()) && Enabled(State(), FinishEvent(l, caller, panicking))
      modifies this`leases
      ensures Inv(State()) && (State(), r) == BackedgeClock.Finish(old(State()), l, caller, panicking)
    {
      StepKeepsInv(State(), FinishEvent(l, caller, panicking));
      var lease := leases[l];
      var batch := lease.batch.value;
      leases := leases[l := lease.(batch := None)];
      if pid != caller.pid || lease.tid != caller.tid {
        return Err(Owner);
      }
      if panicking || !BatchComplete(batch) || !lease.admission.Batched? || !lease.inCall {
        return Err(Invocation);
      }
      leases := leases[l := leases[l].(admission := Finished, inCall := false)];
      assert leases == old(leases)[l := lease.(batch := None, admission := Finished, inCall := false)];
      r := Ok(());
    }
  }

  lemma HeldIsActive(c: Clock, l: nat)
    requires Inv(c) && HasLease(c, l)
    ensures c.active
  {
    assert LeaseOk(c.leases[l]);
  }
}
