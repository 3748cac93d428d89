/** The lease of a clock page and its admission of calls and batches: src/backedge_clock.rs and batch.rs. */
module BackedgeClock {
  import opened Wrappers
  import opened RegionClock

  datatype ClockError = Mapping | Owner | Invocation | Source

  datatype Admission = Fresh | Ordinary | Batched | Finished

  /** The budget of one admitted batch. */
  datatype Batch = Batch(
    calls: nat, remainingCalls: nat, remainingWork: nat, workPerCall: nat, completed: nat, inCall: bool, poisoned: bool)

  /**
   * A lease handle and what was admitted through it. `live` ends with the handle, `released` when its drop cleared
   * the owner bit; `flying` counts native invocations begun and not known to have returned, `charged` their work.
   */
  datatype Lease = Lease(
    tid: int, inCall: bool, admittedWork: nat, admission: Admission, batch: Option<Batch>,
    live: bool, released: bool, flying: nat, charged: nat)

  /** The page, its owner bit and process, and every lease ever acquired. */
  datatype Clock = Clock(pid: int, active: bool, words: ClockWords, leases: seq<Lease>)

  /** The process and thread that runs an operation. */
  datatype Caller = Caller(pid: int, tid: int)

  predicate Owns(c: Clock, l: Lease, caller: Caller) {
    c.pid == caller.pid && l.tid == caller.tid
  }

  function SetLease(c: Clock, l: nat, lease: Lease): Clock
    requires l < |c.leases|
  {
    c.(leases := c.leases[l := lease])
  }

  // ---------------------------------------------------------------- operations

  function Acquire(c: Clock, caller: Caller, quantum: nat, maxWork: nat): (Clock, Result<nat, ClockError>) {
    if quantum == 0 || maxWork == 0 || maxWork > MAX_WORK then (c, Err(Invocation))
    else if c.pid != caller.pid || c.active then (c, Err(Owner))
    else
      var lease := Lease(caller.tid, false, maxWork, Fresh, None, true, false, 0, 0);
      (c.(active := true, words := ClockWords(0, 0, 0, quantum), leases := c.leases + [lease]), Ok(|c.leases|))
  }

  /** An idle page of this process starts a lease with nothing counted and the whole quantum left; else nothing changes. */
  lemma AcquireExactly(c: Clock, caller: Caller, quantum: nat, maxWork: nat)
    ensures var (next, r) := Acquire(c, caller, quantum, maxWork);
            && (r.Ok? <==> 0 < quantum && 0 < maxWork <= MAX_WORK && c.pid == caller.pid && !c.active)
            && (r.Err? ==> next == c && (r.error.Owner? <==> 0 < quantum && 0 < maxWork <= MAX_WORK))
            && (r.Ok? ==>
                  && next.active && next.pid == c.pid && next.words.remaining == quantum
                  && next.words.savedRcx == 0 && next.words.encounters == 0 && next.words.counted == 0
                  && r.value == |c.leases| && |next.leases| == |c.leases| + 1 && next.leases[..r.value] == c.leases
                  && next.leases[r.value].tid == caller.tid && next.leases[r.value].admittedWork == maxWork
                  && next.leases[r.value].admission.Fresh? && next.leases[r.value].charged == 0)
  {
  }

  function Refill(c: Clock, caller: Caller, quantum: nat): (Clock, Result<(), ClockError>) {
    if quantum == 0 || c.pid != caller.pid || !c.active then (c, Err(Invocation))
    else if c.words.remaining != 0 then (c, Err(Invocation))
    else (c.(words := c.words.(remaining := quantum)), Ok(()))
  }

  function BeginCall(c: Clock, l: nat, caller: Caller): (Clock, Result<(), ClockError>)
    requires l < |c.leases|
  {
    var lease := c.leases[l];
    if !Owns(c, lease, caller) then (c, Err(Owner))
    else if lease.admission.Batched? || lease.admission.Finished? then (c, Err(Invocation))
    else if lease.inCall then (c, Err(Invocation))
    else (SetLease(c, l, lease.(inCall := true, admission := Ordinary, flying := lease.flying + 1)), Ok(()))
  }

  /** The call guard's drop, after the native call has returned. */
  function EndCall(c: Clock, l: nat): Clock
    requires l < |c.leases| && c.leases[l].flying > 0
  {
    SetLease(c, l, c.leases[l].(inCall := false, flying := c.leases[l].flying - 1))
  }

  function DropLease(c: Clock, l: nat, caller: Caller): Clock
    requires l < |c.leases|
  {
    var lease := c.leases[l];
    if !lease.inCall && Owns(c, lease, caller) then SetLease(c, l, lease.(live := false, released := true)).(active := false)
    else SetLease(c, l, lease.(live := false))
  }

  function BeginBatch(c: Clock, l: nat, caller: Caller, calls: nat, workPerCall: nat): (Clock, Result<(), ClockError>)
    requires l < |c.leases|
  {
    var lease := c.leases[l];
    var work := calls * workPerCall;
    if !Owns(c, lease, caller) then (c, Err(Owner))
    else if !lease.admission.Fresh? || lease.inCall then (c, Err(Invocation))
    else if work >= 0x1_0000_0000_0000_0000 || calls == 0 || workPerCall == 0 || work > lease.admittedWork
            || lease.admittedWork > MAX_WORK then (c, Err(Invocation))
    else
      var batch := Batch(calls, calls, work, workPerCall, 0, false, false);
      (SetLease(c, l, lease.(inCall := true, admission := Batched, batch := Some(batch))), Ok(()))
  }

  /** Precharges one call of the batch. */
  function BatchCall(c: Clock, l: nat): (Clock, Result<(), ClockError>)
    requires l < |c.leases| && c.leases[l].batch.Some?
  {
    var lease := c.leases[l];
    var b := lease.batch.value;
    if b.poisoned || b.inCall || b.remainingCalls == 0 then (c, Err(Invocation))
    else if b.remainingWork < b.workPerCall then (c, Err(Invocation))
    else
      var charged := b.(remainingCalls := b.remainingCalls - 1, remainingWork := b.remainingWork - b.workPerCall, inCall := true);
      (SetLease(c, l, lease.(batch := Some(charged), flying := lease.flying + 1, charged := lease.charged + b.workPerCall)), Ok(()))
  }

  /** The token's explicit completion; during unwinding it only poisons, like a dropped token. */
  function BatchReturned(c: Clock, l: nat, panicking: bool): Clock
    requires l < |c.leases| && c.leases[l].batch.Some? && c.leases[l].flying > 0
  {
    var lease := c.leases[l];
    var b := lease.batch.value;
    if panicking then SetLease(c, l, lease.(batch := Some(b.(poisoned := true))))
    else SetLease(c, l, lease.(batch := Some(b.(completed := b.completed + 1, inCall := false)), flying := lease.flying - 1))
  }

  predicate BatchComplete(b: Batch) {
    !b.poisoned && !b.inCall && b.remainingCalls == 0 && b.remainingWork == 0 && b.completed == b.calls
  }

  /** Consumes the batch handle whatever it answers. */
  function Finish(c: Clock, l: nat, caller: Caller, panicking: bool): (Clock, Result<(), ClockError>)
    requires l < |c.leases| && c.leases[l].batch.Some?
  {
    var lease := c.leases[l];
    var gone := SetLease(c, l, lease.(batch := None));
    if !Owns(c, lease, caller) then (gone, Err(Owner))
    else if panicking || !BatchComplete(lease.batch.value) || !lease.admission.Batched? || !lease.inCall then (gone, Err(Invocation))
    else (SetLease(c, l, lease.(batch := None, admission := Finished, inCall := false)), Ok(()))
  }

  // ---------------------------------------------------------------- events

  datatype Event =
    | AcquireEvent(caller: Caller, quantum: nat, maxWork: nat)
    | RefillEvent(caller: Caller, quantum: nat)
    | BeginCallEvent(lease: nat, caller: Caller)
    | EndCallEvent(lease: nat)
    | DropLeaseEvent(lease: nat, caller: Caller)
    | BeginBatchEvent(lease: nat, caller: Caller, calls: nat, workPerCall: nat)
    | BatchCallEvent(lease: nat)
    | BatchReturnedEvent(lease: nat, panicking: bool)
    | FinishEvent(lease: nat, caller: Caller, panicking: bool)
    | ForgetBatchEvent(lease: nat)
    | GeneratedEvent(words: ClockWords)

  /** Operations need the handle they are called on; generated code runs only inside an invocation. */
  ghost predicate Enabled(c: Clock, e: Event) {
    match e
    case AcquireEvent(_, _, _) => true
    case RefillEvent(_, _) => true
    case BeginCallEvent(l, _) => HasLease(c, l)
    case EndCallEvent(l) => HasLease(c, l) && c.leases[l].admission.Ordinary? && c.leases[l].flying > 0
    case DropLeaseEvent(l, _) => HasLease(c, l)
    case BeginBatchEvent(l, _, _, _) => HasLease(c, l)
    case BatchCallEvent(l) => HasLease(c, l) && c.leases[l].batch.Some?
    case BatchReturnedEvent(l, _) =>
      HasLease(c, l) && c.leases[l].batch.Some? && c.leases[l].batch.value.inCall && !c.leases[l].batch.value.poisoned && c.leases[l].flying > 0
    case FinishEvent(l, _, _) => HasLease(c, l) && c.leases[l].batch.Some?
    case ForgetBatchEvent(l) => HasLease(c, l) && c.leases[l].batch.Some?
    case GeneratedEvent(_) => exists l | 0 <= l < |c.leases| :: c.leases[l].flying > 0
  }

  ghost predicate HasLease(c: Clock, l: nat) {
    l < |c.leases| && c.leases[l].live
  }

  ghost function Apply(c: Clock, e: Event): Clock
    requires Enabled(c, e)
  {
    match e
    case AcquireEvent(caller, quantum, maxWork) => Acquire(c, caller, quantum, maxWork).0
    case RefillEvent(caller, quantum) => Refill(c, caller, quantum).0
    case BeginCallEvent(l, caller) => BeginCall(c, l, caller).0
    case EndCallEvent(l) => EndCall(c, l)
    case DropLeaseEvent(l, caller) => DropLease(c, l, caller)
    case BeginBatchEvent(l, caller, calls, work) => BeginBatch(c, l, caller, calls, work).0
    case BatchCallEvent(l) => BatchCall(c, l).0
    case BatchReturnedEvent(l, panicking) => BatchReturned(c, l, panicking)
    case FinishEvent(l, caller, panicking) => Finish(c, l, caller, panicking).0
    case ForgetBatchEvent(l) => SetLease(c, l, c.leases[l].(batch := None))
    case GeneratedEvent(words) => c.(words := words)
  }

  // ---------------------------------------------------------------- invariant

  /** What a batch still owes: every admitted call is completed, in flight or still to come, and only begun calls are charged. */
  ghost predicate BatchOk(b: Batch, lease: Lease) {
    && b.remainingWork == b.remainingCalls * b.workPerCall
    && lease.charged + b.remainingWork == b.calls * b.workPerCall <= lease.admittedWork
    && b.calls == b.completed + b.remainingCalls + lease.flying
    && b.inCall == (lease.flying == 1) && (b.poisoned ==> b.inCall)
  }

  ghost predicate LeaseOk(lease: Lease) {
    && lease.flying <= 1 && lease.charged <= lease.admittedWork <= MAX_WORK
    && (lease.released ==> !lease.live && !lease.inCall)
    && (match lease.admission
        case Fresh => !lease.inCall && lease.flying == 0 && lease.charged == 0 && lease.batch.None?
        case Ordinary => lease.inCall == (lease.flying == 1) && lease.charged == 0 && lease.batch.None?
        case Batched => lease.inCall && (lease.batch.Some? ==> BatchOk(lease.batch.value, lease))
        case Finished => !lease.inCall && lease.flying == 0 && lease.batch.None?)
  }

  /** The owner bit is set exactly while some lease has not been released, and there is at most one such lease. */
  ghost predicate Inv(c: Clock) {
    && (forall l | 0 <= l < |c.leases| :: LeaseOk(c.leases[l]))
    && (forall i, j | 0 <= i < |c.leases| && 0 <= j < |c.leases| && !c.leases[i].released && !c.leases[j].released :: i == j)
    && (c.active <==> exists l | 0 <= l < |c.leases| :: !c.leases[l].released)
  }

  /** Updating one lease without changing whether it is released. */
  lemma UpdateKeepsInv(c: Clock, l: nat, lease: Lease)
    requires Inv(c) && l < |c.leases| && LeaseOk(lease) && lease.released == c.leases[l].released
    ensures Inv(SetLease(c, l, lease))
  {
    hide LeaseOk;
    var d := SetLease(c, l, lease);
    assert forall i | 0 <= i < |c.leases| :: d.leases[i].released == c.leases[i].released;
  }

  lemma AcquireKeepsInv(c: Clock, caller: Caller, quantum: nat, maxWork: nat)
    requires Inv(c)
    ensures Inv(Acquire(c, caller, quantum, maxWork).0)
  {
    var d := Acquire(c, caller, quantum, maxWork).0;
    if d != c {
      assert LeaseOk(d.leases[|c.leases|]);
      assert forall i | 0 <= i < |c.leases| :: d.leases[i] == c.leases[i] && c.leases[i].released;
    }
  }

  lemma DropKeepsInv(c: Clock, l: nat, caller: Caller)
    requires Inv(c) && HasLease(c, l)
    ensures Inv(DropLease(c, l, caller))
  {
    var lease := c.leases[l];
    assert LeaseOk(lease);
    if !lease.inCall && Owns(c, lease, caller) {
      var d := DropLease(c, l, caller);
      assert forall i | 0 <= i < |c.leases| && i != l :: d.leases[i] == c.leases[i] && c.leases[i].released;
    } else {
      UpdateKeepsInv(c, l, lease.(live := false));
    }
  }

  lemma BatchCallKeepsLease(c: Clock, l: nat)
    requires l < |c.leases| && c.leases[l].batch.Some? && LeaseOk(c.leases[l])
    ensures LeaseOk(BatchCall(c, l).0.leases[l])
  {
    var b := c.leases[l].batch.value;
    if b.remainingCalls > 0 {
      assert b.remainingCalls * b.workPerCall == (b.remainingCalls - 1) * b.workPerCall + b.workPerCall;
    }
  }

  lemma StepKeepsLease(c: Clock, e: Event, l: nat)
    requires Inv(c) && Enabled(c, e) && l < |c.leases| && LeaseOk(c.leases[l])
    requires e.BeginCallEvent? || e.EndCallEvent? || e.BeginBatchEvent? || e.BatchCallEvent? || e.BatchReturnedEvent? || e.FinishEvent? || e.ForgetBatchEvent?
    requires l == e.lease
    ensures Apply(c, e) == c || Apply(c, e) == SetLease(c, l, Apply(c, e).leases[l])
    ensures LeaseOk(Apply(c, e).leases[l]) && Apply(c, e).leases[l].released == c.leases[l].released
  {
    hide Inv;
    if e.BatchCallEvent? {
      BatchCallKeepsLease(c, l);
    }
  }

  lemma StepKeepsInv(c: Clock, e: Event)
    requires Inv(c) && Enabled(c, e)
    ensures Inv(Apply(c, e))
  {
    hide LeaseOk;
    match e
    case AcquireEvent(caller, quantum, maxWork) => AcquireKeepsInv(c, caller, quantum, maxWork);
    case DropLeaseEvent(l, caller) => DropKeepsInv(c, l, caller);
    case RefillEvent(_, _) =>
    case GeneratedEvent(_) =>
    case _ =>
      StepKeepsLease(c, e, e.lease);
      UpdateKeepsInv(c, e.lease, Apply(c, e).leases[e.lease]);
  }

  // ---------------------------------------------------------------- every run

  ghost predicate Next(c: Clock, d: Clock) {
    exists e :: Enabled(c, e) && d == Apply(c, e)
  }

  /** A run of one adopted page, from zeroed words and no lease. */
  ghost predicate IsRun(states: seq<Clock>) {
    && states != [] && !states[0].active && states[0].leases == []
    && forall i, j | 0 <= i < |states| && j == i + 1 && j < |states| :: Next(states[i], states[j])
  }

  lemma {:induction false} RunKeepsInv(states: seq<Clock>, n: nat)
    requires IsRun(states) && n < |states|
    ensures Inv(states[n])
  {
    hide Inv, Enabled, Apply;
    if n == 0 {
      EmptyInv(states[0]);
    } else {
      RunKeepsInv(states, n - 1);
      assert Next(states[n - 1], states[n]);
      var e :| Enabled(states[n - 1], e) && states[n] == Apply(states[n - 1], e);
      StepKeepsInv(states[n - 1], e);
    }
  }

  lemma EmptyInv(c: Clock)
    requires !c.active && c.leases == []
    ensures Inv(c)
  {
  }

  /** Never two native invocations at once, over all leases, calls and batches; and none while the page is free. */
  lemma OneInvocationAtATime(states: seq<Clock>, n: nat, i: nat, j: nat)
    requires IsRun(states) && n < |states| && i < |states[n].leases| && j < |states[n].leases|
    requires states[n].leases[i].flying > 0 && states[n].leases[j].flying > 0
    ensures i == j && states[n].leases[i].flying == 1 && states[n].active
  {
    hide IsRun;
    RunKeepsInv(states, n);
    assert LeaseOk(states[n].leases[i]) && LeaseOk(states[n].leases[j]);
  }

  /** Batches never charge more than was admitted at acquisition, nor that more than the profile's ceiling. */
  lemma ChargesStayAdmitted(states: seq<Clock>, n: nat, l: nat)
    requires IsRun(states) && n < |states| && l < |states[n].leases|
    ensures states[n].leases[l].charged <= states[n].leases[l].admittedWork <= MAX_WORK
  {
    hide IsRun;
    RunKeepsInv(states, n);
    assert LeaseOk(states[n].leases[l]);
  }

  /** A handle that is gone without having released the page. */
  ghost predicate Abandoned(c: Clock, l: nat) {
    l < |c.leases| && !c.leases[l].live && !c.leases[l].released
  }

  lemma StepKeepsAbandoned(c: Clock, e: Event, l: nat)
    requires Inv(c) && Enabled(c, e) && Abandoned(c, l)
    ensures Abandoned(Apply(c, e), l) && Apply(c, e).active && |Apply(c, e).leases| == |c.leases|
  {
    hide LeaseOk;
    assert c.active;
    NoLiveLease(c, l);
  }

  lemma NoLiveLease(c: Clock, l: nat)
    requires Inv(c) && Abandoned(c, l)
    ensures forall k | 0 <= k < |c.leases| :: !c.leases[k].live
  {
    assert forall k | 0 <= k < |c.leases| :: LeaseOk(c.leases[k]);
    assert forall k | 0 <= k < |c.leases| :: c.leases[k].live ==> !c.leases[k].released;
  }

  /** A lease dropped inside a call, or by the wrong thread or process, keeps the page for ever: no later acquisition succeeds. */
  lemma {:induction false} AbandonedPageIsLost(states: seq<Clock>, m: nat, n: nat, l: nat, caller: Caller, quantum: nat, maxWork: nat)
    requires IsRun(states) && m <= n < |states| && Abandoned(states[m], l)
    ensures Abandoned(states[n], l) && states[n].active && |states[n].leases| == |states[m].leases|
    ensures Acquire(states[n], caller, quantum, maxWork).1.Err?
  {
    hide Inv, Enabled, Apply;
    if m < n {
      AbandonedPageIsLost(states, m, n - 1, l, caller, quantum, maxWork);
      RunKeepsInv(states, n - 1);
      assert Next(states[n - 1], states[n]);
      var e :| Enabled(states[n - 1], e) && states[n] == Apply(states[n - 1], e);
      StepKeepsAbandoned(states[n - 1], e, l);
    } else {
      RunKeepsInv(states, n);
      AbandonedIsActive(states[n], l);
    }
  }

  lemma AbandonedIsActive(c: Clock, l: nat)
    requires Inv(c) && Abandoned(c, l)
    ensures c.active
  {
  }

  /** A batch finishes exactly on its own worker, outside unwinding, after every declared call has returned and been charged. */
  lemma FinishesExactly(states: seq<Clock>, n: nat, l: nat, caller: Caller, panicking: bool)
    requires IsRun(states) && n < |states| && HasLease(states[n], l) && states[n].leases[l].batch.Some?
    ensures var lease := states[n].leases[l];
            var b := lease.batch.value;
            && (Finish(states[n], l, caller, panicking).1.Ok? <==>
                  Owns(states[n], lease, caller) && !panicking && b.completed == b.calls)
            && (b.completed == b.calls ==> lease.charged == b.calls * b.workPerCall && lease.flying == 0)
  {
    hide IsRun;
    RunKeepsInv(states, n);
    assert LeaseOk(states[n].leases[l]);
    var b := states[n].leases[l].batch.value;
    assert b.remainingCalls == 0 ==> b.remainingCalls * b.workPerCall == 0;
  }

  /** The lease has been used for a batch. */
  ghost predicate Spent(c: Clock, l: nat) {
    l < |c.leases| && (c.leases[l].admission.Batched? || c.leases[l].admission.Finished?)
  }

  lemma StepKeepsSpent(c: Clock, e: Event, l: nat)
    requires Inv(c) && Enabled(c, e) && Spent(c, l)
    ensures Spent(Apply(c, e), l)
  {
    hide LeaseOk;
    assert forall k | 0 <= k < |c.leases| :: LeaseOk(c.leases[k]);
  }

  /** A lease used for a batch, finished or abandoned, never admits a call or another batch again, whoever asks. */
  lemma {:induction false} SpentLeaseAdmitsNothing(
    states: seq<Clock>, m: nat, n: nat, l: nat, caller: Caller, calls: nat, workPerCall: nat)
    requires IsRun(states) && m <= n < |states| && Spent(states[m], l)
    ensures Spent(states[n], l)
    ensures BeginCall(states[n], l, caller).1.Err? && BeginCall(states[n], l, caller).0 == states[n]
    ensures BeginBatch(states[n], l, caller, calls, workPerCall).1.Err?
    ensures BeginBatch(states[n], l, caller, calls, workPerCall).0 == states[n]
  {
    hide Inv, Enabled, Apply;
    if m < n {
      SpentLeaseAdmitsNothing(states, m, n - 1, l, caller, calls, workPerCall);
      RunKeepsInv(states, n - 1);
      assert Next(states[n - 1], states[n]);
      var e :| Enabled(states[n - 1], e) && states[n] == Apply(states[n - 1], e);
      StepKeepsSpent(states[n - 1], e, l);
    }
  }
}
