/** Runs of publish, retire and rollback against one lease, with any pattern of failures. */
module BundleRuns {
  import opened LittleEndian
  import opened Wrappers
  import opened Contracts
  import opened VirtualImage
  import opened CompositionRuns
  import opened Snapshots
  import opened LockRanges
  import opened Aliases
  import opened Leases
  import opened Placement
  import opened Bundle
  import opened LeaseGates
  import opened Publication

  /** What the caller holds: nothing yet, a live handle, a retired handle, or a handle lost to a gated failure. */
  datatype Phase = Unpublished | Installed | Retired | Lost

  /** The lease is one object: its generation and ranges never change, only its poison. */
  datatype World = World(
    memory: Image, poisoned: bool, reserved: bool, phase: Phase, rolledBack: bool,
    identity: CodeIdentity, held: seq<AddressRange>)

  /** Source bytes as the bundle expects them, and as it leaves them. */
  ghost function Before(plan: BundlePlan): Image {
    View(plan.originals)
  }

  ghost function After(plan: BundlePlan): Image {
    View(plan.finalBytes)
  }

  datatype Outcome = Refused | Gated | Completed

  ghost predicate PublishNext(plan: BundlePlan, w: World, next: World, outcome: Outcome) {
    match outcome
    case Refused => next == w
    case Gated =>
      && !w.poisoned && !w.reserved && Admitted(plan, w.identity, w.held, true)
      && Includes(w.memory, Before(plan)) && SwappedIn(w.memory, After(plan), next.memory)
      && next == w.(memory := next.memory, poisoned := true, reserved := true, phase := Lost, rolledBack := false)
    case Completed =>
      && !w.poisoned && !w.reserved && Admitted(plan, w.identity, w.held, true)
      && Includes(w.memory, Before(plan)) && SwappedIn(w.memory, After(plan), next.memory)
      && next == w.(memory := next.memory, reserved := true, phase := Installed, rolledBack := false)
  }

  ghost predicate RetireNext(plan: BundlePlan, w: World, next: World, outcome: Outcome) {
    (w.phase.Installed? || w.phase.Retired?) &&
    match outcome
    case Refused => next == w
    case Gated =>
      && w.phase.Installed? && !w.poisoned && Admitted(plan, w.identity, w.held, false)
      && Includes(w.memory, After(plan)) && SwappedIn(w.memory, Before(plan), next.memory)
      && next == w.(memory := next.memory, poisoned := true)
    case Completed =>
      && !w.poisoned
      && if w.phase.Retired? then Admitted(plan, w.identity, w.held, true) && next == w
         else
           && Admitted(plan, w.identity, w.held, false)
           && Includes(w.memory, After(plan)) && SwappedIn(w.memory, Before(plan), next.memory)
           && next == w.(memory := next.memory, reserved := false, phase := Retired, rolledBack := false)
  }

  /** `rollback_verified`: its caller has put every original byte back before clearing the poison. */
  ghost predicate RollbackNext(plan: BundlePlan, w: World, next: World) {
    && w.poisoned && SwappedIn(w.memory, Before(plan), next.memory)
    && next == w.(memory := next.memory, poisoned := false, rolledBack := true)
  }

  ghost predicate Next(plan: BundlePlan, w: World, next: World) {
    || (exists outcome :: PublishNext(plan, w, next, outcome))
    || (exists outcome :: RetireNext(plan, w, next, outcome))
    || RollbackNext(plan, w, next)
  }

  // ---------------------------------------------------------------- the real methods take these steps

  ghost function LocksReserved(plan: BundlePlan, registry: TrapRegistry): bool
    reads registry
  {
    exists i :: 0 <= i < |plan.locks| && plan.locks[i] in registry.reserved
  }

  ghost function Observed(
    plan: BundlePlan, aliases: seq<WritableAlias>, lease: QuiescenceLease, registry: TrapRegistry, phase: Phase, rolledBack: bool): World
    reads lease, registry, Buffers(aliases)
  {
    World(Memory(aliases), lease.poisoned, LocksReserved(plan, registry), phase, rolledBack, lease.identity, lease.ranges)
  }

  lemma ComposedHasLocks(plan: BundlePlan)
    requires Composed(plan)
    ensures plan.locks != []
  {
    var n := |plan.steps| - 1;
    var start := Initial(plan.identity, View(plan.originals));
    StepIsAccepted(Run(start, plan.steps[..n]).value, plan.steps[n]);
    var owned := OwnedRange(plan.steps[n]);
    assert owned.start in owned.Addresses();
    assert owned.start in Union(plan.locks);
    hide Append, Accepts, Run, View, IsPatchPlan, OwnedRange;
  }

  lemma GateImplies(plan: BundlePlan, aliases: seq<WritableAlias>, lease: QuiescenceLease, registry: TrapRegistry, host: Host)
    requires Composed(plan) && Owned(aliases) && PublishGate(plan, aliases, lease, registry, host).Ok?
    ensures !lease.poisoned && !LocksReserved(plan, registry) && Includes(Memory(aliases), Before(plan))
    ensures Admitted(plan, lease.identity, lease.ranges, true)
  {
    hide View, Memory, IsPatchPlan, Run, SnapshotsChecked, PlaceSteps, StagingGate, Canonical, Union;
    CheckedMemoryIncludes(aliases, Memory(aliases), plan.originals);
    PublishGateOnLease(plan, aliases, lease, registry, host);
    assert forall i | 0 <= i < |plan.locks| :: registry.Unowned(plan.locks[i]) && plan.locks[i].Overlaps(plan.locks[i]);
    hide CheckLease;
  }

  /** Calling `publish_with`, for the first time or again, is one publish step. */
  method PublishStep(
    plan: BundlePlan, aliases: seq<WritableAlias>, lease: QuiescenceLease, registry: TrapRegistry, host: Host,
    ghost phase: Phase, ghost rolledBack: bool)
    returns (r: Result<InstalledBundle, PublicationFailure>, ghost outcome: Outcome)
    requires Composed(plan) && Owned(aliases)
    modifies lease, registry, Buffers(aliases)
    ensures outcome == if r.Ok? then Completed else if r.error.stage.KeepGated? then Gated else Refused
    ensures PublishNext(
              plan,
              old(Observed(plan, aliases, lease, registry, phase, rolledBack)),
              Observed(plan, aliases, lease, registry,
                       if r.Ok? then Installed else if outcome.Gated? then Lost else phase,
                       if outcome.Refused? then rolledBack else false),
              outcome)
  {
    hide View, Memory, Composed, Includes, SwappedIn, PublishGate, Owned;
    ComposedHasLocks(plan);
    if PublishGate(plan, aliases, lease, registry, host).Ok? {
      GateImplies(plan, aliases, lease, registry, host);
    }
    r := PublishWith(plan, aliases, lease, registry, host);
    outcome := if r.Ok? then Completed else if r.error.stage.KeepGated? then Gated else Refused;
    ghost var gate := old(PublishGate(plan, aliases, lease, registry, host));
    assert plan.locks[0] in RangeSet(plan.locks);
  }

  lemma RetireGateImplies(plan: BundlePlan, aliases: seq<WritableAlias>, lease: QuiescenceLease, retired: bool, routing: bool, host: Host)
    requires Composed(plan) && RetireGate(plan, aliases, lease, retired, routing, host).Ok?
    ensures !lease.poisoned && (!retired ==> Includes(Memory(aliases), After(plan)))
    ensures Admitted(plan, lease.identity, lease.ranges, retired)
  {
    hide View, Memory, IsPatchPlan, Run, SnapshotsChecked, Canonical, Union;
    if !retired {
      CheckedMemoryIncludes(aliases, Memory(aliases), plan.finalBytes);
    }
    RetireGateOnLease(plan, aliases, lease, retired, routing, host);
    hide CheckLease;
  }

  /** Calling `retire_with` is one retire step. */
  method RetireStep(bundle: InstalledBundle, lease: QuiescenceLease, registry: TrapRegistry, host: Host, ghost rolledBack: bool)
    returns (r: Result<(), PublicationFailure>, ghost outcome: Outcome)
    requires bundle.Valid() && (!bundle.retired ==> bundle.reservations == RangeSet(bundle.plan.locks))
    modifies bundle, lease, registry, Buffers(bundle.aliases)
    ensures bundle.Valid()
    ensures outcome == if r.Ok? then Completed else if r.error.stage.KeepGated? then Gated else Refused
    ensures RetireNext(
              bundle.plan,
              old(Observed(bundle.plan, bundle.aliases, lease, registry, if bundle.retired then Retired else Installed, rolledBack)),
              Observed(bundle.plan, bundle.aliases, lease, registry, if bundle.retired then Retired else Installed,
                       if outcome.Completed? && !old(bundle.retired) then false else rolledBack),
              outcome)
  {
    hide View, Memory, Composed, Includes, SwappedIn, RetireGate, Owned, PlaceSteps, Apart;
    var plan, aliases := bundle.plan, bundle.aliases;
    if RetireGate(plan, aliases, lease, bundle.retired, bundle.routing, host).Ok? {
      RetireGateImplies(plan, aliases, lease, bundle.retired, bundle.routing, host);
    }
    r := bundle.RetireWith(lease, registry, host);
    outcome := if r.Ok? then Completed else if r.error.stage.KeepGated? then Gated else Refused;
    ghost var gate := old(RetireGate(plan, aliases, lease, bundle.retired, bundle.routing, host));
    assert forall i | 0 <= i < |plan.locks| :: plan.locks[i] in RangeSet(plan.locks);
  }

  // ---------------------------------------------------------------- all runs

  /** Between the two images, source memory is never anything else; outside them it never changes. */
  ghost predicate Safe(start: Image, plan: BundlePlan, w: World) {
    && (SwappedIn(start, Before(plan), w.memory) || SwappedIn(start, After(plan), w.memory))
    && (!w.poisoned && !w.rolledBack ==>
          match w.phase
          case Unpublished => SwappedIn(start, Before(plan), w.memory)
          case Installed => SwappedIn(start, After(plan), w.memory)
          case Retired => SwappedIn(start, Before(plan), w.memory)
          case Lost => false)
    && (w.rolledBack && !w.poisoned ==> SwappedIn(start, Before(plan), w.memory))
    && (w.phase.Lost? ==> w.poisoned || w.rolledBack)
    && (w.phase.Installed? || w.phase.Lost? ==> w.reserved)
  }

  lemma SwapCompose(start: Image, first: Image, second: Image, before: Image, after: Image)
    requires first.Keys == second.Keys && SwappedIn(start, first, before) && SwappedIn(before, second, after)
    ensures SwappedIn(start, second, after)
  {
    assert forall a | a in start :: a in second <==> a in first.Keys;
  }

  lemma StepKeepsSafe(start: Image, plan: BundlePlan, w: World, next: World)
    requires Composed(plan) && Safe(start, plan, w) && Next(plan, w, next)
    ensures Safe(start, plan, next)
  {
    hide SwappedIn, Includes, Admitted, Before, After, Composed;
    SameAddresses(plan);
    var held := if SwappedIn(start, Before(plan), w.memory) then Before(plan) else After(plan);
    if SwappedIn(w.memory, After(plan), next.memory) {
      SwapCompose(start, held, After(plan), w.memory, next.memory);
    }
    if SwappedIn(w.memory, Before(plan), next.memory) {
      SwapCompose(start, held, Before(plan), w.memory, next.memory);
    }
  }

  lemma SameAddresses(plan: BundlePlan)
    requires Composed(plan)
    ensures Before(plan).Keys == After(plan).Keys
  {
    hide Run, IsPatchPlan, View;
    SameExtentsSameDomain(plan.originals, plan.finalBytes);
  }

  ghost predicate Execution(plan: BundlePlan, worlds: seq<World>) {
    && worlds != []
    && (forall i | 0 <= i < |worlds| - 1 :: Next(plan, worlds[i], worlds[i + 1]))
  }

  /** Every world of every run is safe: whatever fails, memory is the originals or the published image. */
  lemma {:induction false} EveryRunIsSafe(plan: BundlePlan, worlds: seq<World>, i: nat)
    requires Composed(plan) && Execution(plan, worlds) && i < |worlds|
    requires var w := worlds[0]; SwappedIn(w.memory, Before(plan), w.memory) && w == World(w.memory, false, false, Unpublished, false, w.identity, w.held)
    ensures Safe(worlds[0].memory, plan, worlds[i])
  {
    hide SwappedIn, Next;
    if i > 0 {
      EveryRunIsSafe(plan, worlds, i - 1);
      assert Next(plan, worlds[i - 1], worlds[i]);
      StepKeepsSafe(worlds[0].memory, plan, worlds[i - 1], worlds[i]);
    }
  }

  /** While the lease is poisoned the only step that changes anything is a verified rollback. */
  lemma PoisonGates(plan: BundlePlan, w: World, next: World)
    requires w.poisoned && Next(plan, w, next)
    ensures next == w || RollbackNext(plan, w, next)
  {
    hide SwappedIn, Includes;
  }

  /** A handle lost to a gated publication is lost for good: no later run installs or retires anything. */
  lemma {:induction false} LostForever(plan: BundlePlan, worlds: seq<World>, i: nat, j: nat)
    requires Execution(plan, worlds) && i <= j < |worlds|
    requires worlds[i].phase.Lost? && worlds[i].reserved
    ensures worlds[j].phase.Lost? && worlds[j].reserved
    ensures !worlds[i].poisoned ==> worlds[j] == worlds[i]
    decreases j - i
  {
    hide SwappedIn, Includes;
    if i < j {
      assert Next(plan, worlds[i], worlds[i + 1]);
      LostForever(plan, worlds, i + 1, j);
    }
  }

  /** What the lease must admit is fixed for the whole run; taking back asks for more than writing. */
  lemma StepIsAdmitted(plan: BundlePlan, w: World, next: World)
    requires Next(plan, w, next)
    ensures next.identity == w.identity && next.held == w.held
    ensures next != w && !RollbackNext(plan, w, next) ==> !w.poisoned && Admitted(plan, w.identity, w.held, true)
    ensures next != w && !RollbackNext(plan, w, next) && w.phase.Installed? && !next.phase.Installed? && next.phase.Retired? ==>
              Admitted(plan, w.identity, w.held, false)
  {
    hide SwappedIn, Includes, StepAdmitted, SourceHeld, MappingsHeld, Before, After;
  }

  /**
   * In every run, whatever changes was changed under an unpoisoned lease of every step's generation that holds every
   * dependency and original snapshot, or by a verified rollback.
   */
  lemma {:induction false} EveryChangeWasAdmitted(plan: BundlePlan, worlds: seq<World>, i: nat)
    requires Execution(plan, worlds) && i + 1 < |worlds|
    ensures worlds[i].identity == worlds[0].identity && worlds[i].held == worlds[0].held
    ensures || worlds[i + 1] == worlds[i]
            || RollbackNext(plan, worlds[i], worlds[i + 1])
            || (!worlds[i].poisoned && Admitted(plan, worlds[0].identity, worlds[0].held, true))
  {
    hide Next, RollbackNext, Admitted;
    if i > 0 {
      EveryChangeWasAdmitted(plan, worlds, i - 1);
      assert Next(plan, worlds[i - 1], worlds[i]);
      StepIsAdmitted(plan, worlds[i - 1], worlds[i]);
    }
    assert Next(plan, worlds[i], worlds[i + 1]);
    StepIsAdmitted(plan, worlds[i], worlds[i + 1]);
  }

  /** Under an unpoisoned lease that does not admit the bundle, of another generation say, no run ever changes anything. */
  lemma {:induction false} ForeignLeaseChangesNothing(plan: BundlePlan, worlds: seq<World>, i: nat)
    requires Execution(plan, worlds) && i < |worlds| && !worlds[0].poisoned
    requires !Admitted(plan, worlds[0].identity, worlds[0].held, true)
    ensures worlds[i] == worlds[0]
  {
    hide Next, Admitted, SwappedIn;
    if i > 0 {
      ForeignLeaseChangesNothing(plan, worlds, i - 1);
      EveryChangeWasAdmitted(plan, worlds, i - 1);
    }
  }

  /** A lease that does not hold every generated mapping never retires the bundle. */
  lemma {:induction false} MappingsAreDrained(plan: BundlePlan, worlds: seq<World>, i: nat)
    requires Execution(plan, worlds) && i < |worlds| && !worlds[0].phase.Retired?
    requires !Admitted(plan, worlds[0].identity, worlds[0].held, false)
    ensures !worlds[i].phase.Retired? && worlds[i].identity == worlds[0].identity && worlds[i].held == worlds[0].held
  {
    hide Admitted, SwappedIn, Includes;
    if i > 0 {
      MappingsAreDrained(plan, worlds, i - 1);
      assert Next(plan, worlds[i - 1], worlds[i]);
    }
  }

  /** From a retired bundle nothing is written except by publishing it again. */
  lemma RetiredWritesOnlyByPublishing(plan: BundlePlan, w: World, next: World)
    requires w.phase.Retired? && !w.poisoned && Next(plan, w, next) && next != w
    ensures exists outcome: Outcome :: !outcome.Refused? && PublishNext(plan, w, next, outcome)
  {
    hide SwappedIn, Includes;
  }

  ghost predicate RolledBackBetween(plan: BundlePlan, worlds: seq<World>, i: nat, j: nat) {
    exists m, n :: i <= m && n == m + 1 && n <= j < |worlds| && worlds[m] == worlds[i] && RollbackNext(plan, worlds[m], worlds[n])
  }

  /** From a poisoned world on nothing changes until a verified rollback. */
  lemma {:induction false} PoisonedUntilRollback(plan: BundlePlan, worlds: seq<World>, i: nat, j: nat)
    requires Execution(plan, worlds) && i <= j < |worlds| && worlds[i].poisoned
    ensures worlds[j] == worlds[i] || RolledBackBetween(plan, worlds, i, j)
  {
    hide Next, RollbackNext;
    if i < j {
      PoisonedUntilRollback(plan, worlds, i, j - 1);
      if worlds[j - 1] == worlds[i] {
        assert Next(plan, worlds[j - 1], worlds[j]);
        PoisonGates(plan, worlds[j - 1], worlds[j]);
      }
    }
  }

  /** A gated publication or retirement freezes memory, lease, reservation and handle until a verified rollback. */
  lemma GatedOutcomeFreezes(plan: BundlePlan, worlds: seq<World>, i: nat, j: nat)
    requires Execution(plan, worlds) && 0 < i <= j < |worlds|
    requires PublishNext(plan, worlds[i - 1], worlds[i], Gated) || RetireNext(plan, worlds[i - 1], worlds[i], Gated)
    ensures worlds[j] == worlds[i] || RolledBackBetween(plan, worlds, i, j)
  {
    hide Execution, SwappedIn, Includes, RolledBackBetween;
    PoisonedUntilRollback(plan, worlds, i, j);
  }

  ghost predicate PublishedBetween(plan: BundlePlan, worlds: seq<World>, i: nat, j: nat) {
    exists m, n, outcome: Outcome ::
      && i <= m && n == m + 1 && n <= j < |worlds| && worlds[m] == worlds[i]
      && !outcome.Refused? && PublishNext(plan, worlds[m], worlds[n], outcome)
  }

  /** After a completed retirement nothing changes until the bundle is published again. */
  lemma {:induction false} RetiredUntilPublished(plan: BundlePlan, worlds: seq<World>, i: nat, j: nat)
    requires Execution(plan, worlds) && i <= j < |worlds| && worlds[i].phase.Retired? && !worlds[i].poisoned
    ensures worlds[j] == worlds[i] || PublishedBetween(plan, worlds, i, j)
  {
    hide Next, PublishNext;
    if i < j {
      RetiredUntilPublished(plan, worlds, i, j - 1);
      if worlds[j - 1] == worlds[i] && worlds[j] != worlds[i] {
        assert Next(plan, worlds[j - 1], worlds[j]);
        RetiredWritesOnlyByPublishing(plan, worlds[j - 1], worlds[j]);
      }
    }
  }
}
