/** What a quiescence lease must cover before a bundle may be written or taken back: src/contracts.rs:555-571, src/bundle.rs:94-113. */
module LeaseGates {
  import opened LittleEndian
  import opened Wrappers
  import opened Contracts
  import opened Snapshots
  import opened Leases
  import opened Bundle

  function StepsLeased(steps: seq<PlanParts>, lease: QuiescenceLease): Result<(), Refusal>
    reads lease
  {
    if steps == [] then Ok(())
    else
      var _ :- lease.Check(steps[0]);
      StepsLeased(steps[1..], lease)
  }

  function SnapshotsLeased(snapshots: seq<ExpectedBytes>, lease: QuiescenceLease): Result<(), Refusal> {
    if snapshots == [] then Ok(())
    else
      var range :- snapshots[0].Range();
      var _ :- Need(lease.Covers(range), DependencyNotHeld);
      SnapshotsLeased(snapshots[1..], lease)
  }

  /** `BundlePlan::check`: every step, every snapshot, and when retiring every generated mapping. */
  function CheckLease(plan: BundlePlan, lease: QuiescenceLease, retiring: bool): Result<(), Refusal>
    reads lease
  {
    var _ :- StepsLeased(plan.steps, lease);
    var _ :- SnapshotsLeased(plan.originals, lease);
    Need(!retiring || forall m | m in AllMappings(plan.steps) :: lease.Covers(m), DependencyNotHeld)
  }

  lemma PoisonRefusesEverything(plan: BundlePlan, lease: QuiescenceLease, retiring: bool)
    requires plan.steps != [] && lease.poisoned
    ensures CheckLease(plan, lease, retiring) == Err(LeasePoisoned)
  {
  }

  // ---------------------------------------------------------------- the same without an order

  /** One held range covers all of it. */
  ghost predicate Held(ranges: seq<AddressRange>, from: int, end: int) {
    exists k | 0 <= k < |ranges| :: ranges[k].start <= from && end <= ranges[k].end
  }

  ghost predicate DependenciesHeld(step: PlanParts, ranges: seq<AddressRange>) {
    forall k | 0 <= k < |step.dependencies| :: Held(ranges, step.dependencies[k].start, step.dependencies[k].end)
  }

  /** Nothing about the ways into this code is left open. */
  ghost predicate EntriesResolved(step: PlanParts) {
    && !step.entries.completeness.Incomplete? && !step.entries.resumes.UnresolvedResumes?
    && forall k | 0 <= k < |step.obligations| :: !step.obligations[k].Unresolved?
  }

  ghost predicate StepAdmitted(step: PlanParts, identity: CodeIdentity, ranges: seq<AddressRange>) {
    step.identity == identity && DependenciesHeld(step, ranges) && EntriesResolved(step)
  }

  ghost predicate SourceHeld(plan: BundlePlan, ranges: seq<AddressRange>) {
    forall k | 0 <= k < |plan.originals| :: Held(ranges, plan.originals[k].address, plan.originals[k].End())
  }

  ghost predicate MappingsHeld(plan: BundlePlan, ranges: seq<AddressRange>) {
    forall s, k | 0 <= s < |plan.steps| && 0 <= k < |plan.steps[s].allocations| ::
      Held(ranges, plan.steps[s].allocations[k].start, plan.steps[s].allocations[k].end)
  }

  /**
   * A lease of this generation over these ranges lets the bundle be written (`sourceOnly`), or taken back: then the
   * generated mappings must be held too.
   */
  ghost predicate Admitted(plan: BundlePlan, identity: CodeIdentity, ranges: seq<AddressRange>, sourceOnly: bool) {
    && (forall s | 0 <= s < |plan.steps| :: StepAdmitted(plan.steps[s], identity, ranges))
    && SourceHeld(plan, ranges)
    && (sourceOnly || MappingsHeld(plan, ranges))
  }

  /** What is wrong with one step, in order: its generation, its dependencies, its entries. */
  ghost predicate StepRefused(step: PlanParts, identity: CodeIdentity, ranges: seq<AddressRange>, refusal: Refusal) {
    match refusal
    case StaleGeneration => step.identity != identity
    case DependencyNotHeld => step.identity == identity && !DependenciesHeld(step, ranges)
    case UnresolvedEntry => step.identity == identity && DependenciesHeld(step, ranges) && !EntriesResolved(step)
    case _ => false
  }

  /** The refusal of a lease: poison, then the first step that is not admitted, then source or mappings not held. */
  ghost predicate LeaseRefused(
    plan: BundlePlan, identity: CodeIdentity, ranges: seq<AddressRange>, poisoned: bool, sourceOnly: bool, refusal: Refusal)
  {
    if poisoned then refusal == LeasePoisoned
    else
      || (exists s | 0 <= s < |plan.steps| ::
            && StepRefused(plan.steps[s], identity, ranges, refusal)
            && forall earlier | 0 <= earlier < s :: StepAdmitted(plan.steps[earlier], identity, ranges))
      || (&& refusal == DependencyNotHeld
          && (forall s | 0 <= s < |plan.steps| :: StepAdmitted(plan.steps[s], identity, ranges))
          && !(SourceHeld(plan, ranges) && (sourceOnly || MappingsHeld(plan, ranges))))
  }

  lemma CoversMeans(lease: QuiescenceLease, range: AddressRange)
    ensures lease.Covers(range) <==> Held(lease.ranges, range.start, range.end)
  {
    if Held(lease.ranges, range.start, range.end) {
      var k :| 0 <= k < |lease.ranges| && lease.ranges[k].start <= range.start && range.end <= lease.ranges[k].end;
      assert lease.ranges[k] in lease.ranges;
    }
  }

  lemma CheckMeans(lease: QuiescenceLease, step: PlanParts)
    ensures lease.Check(step).Ok? <==> !lease.poisoned && StepAdmitted(step, lease.identity, lease.ranges)
    ensures lease.Check(step).Err? ==>
              if lease.poisoned then lease.Check(step).error == LeasePoisoned
              else StepRefused(step, lease.identity, lease.ranges, lease.Check(step).error)
    ensures lease.Check(step).Ok? ==> lease.Check(step) == Ok(())
  {
    forall k | 0 <= k < |step.dependencies|
      ensures lease.Covers(step.dependencies[k]) <==> Held(lease.ranges, step.dependencies[k].start, step.dependencies[k].end)
    {
      CoversMeans(lease, step.dependencies[k]);
    }
    assert (exists d | d in step.dependencies :: !lease.Covers(d)) <==> !DependenciesHeld(step, lease.ranges) by {
      hide Held, QuiescenceLease.Covers;
    }
    assert CheckEntryObligations(step).Ok? <==> EntriesResolved(step);
    hide Held, QuiescenceLease.Covers;
  }

  lemma {:induction false} StepsLeasedMeaning(steps: seq<PlanParts>, lease: QuiescenceLease)
    requires !lease.poisoned
    ensures StepsLeased(steps, lease).Ok? <==> forall s | 0 <= s < |steps| :: StepAdmitted(steps[s], lease.identity, lease.ranges)
    ensures StepsLeased(steps, lease).Err? ==>
              exists s | 0 <= s < |steps| ::
                && StepRefused(steps[s], lease.identity, lease.ranges, StepsLeased(steps, lease).error)
                && forall earlier | 0 <= earlier < s :: StepAdmitted(steps[earlier], lease.identity, lease.ranges)
  {
    hide StepAdmitted, StepRefused, QuiescenceLease.Check;
    if steps != [] {
      var rest := steps[1..];
      CheckMeans(lease, steps[0]);
      StepsLeasedMeaning(rest, lease);
      assert forall s | 0 < s < |steps| :: steps[s] == rest[s - 1];
      if lease.Check(steps[0]).Ok? && StepsLeased(rest, lease).Err? {
        var error := StepsLeased(rest, lease).error;
        var s :| 0 <= s < |rest| && StepRefused(rest[s], lease.identity, lease.ranges, error)
                 && forall earlier | 0 <= earlier < s :: StepAdmitted(rest[earlier], lease.identity, lease.ranges);
        assert StepRefused(steps[s + 1], lease.identity, lease.ranges, error);
      }
    }
  }

  lemma {:induction false} SnapshotsLeasedMeaning(snapshots: seq<ExpectedBytes>, lease: QuiescenceLease)
    requires forall k | 0 <= k < |snapshots| :: snapshots[k].Proper()
    ensures SnapshotsLeased(snapshots, lease).Ok? <==>
              forall k | 0 <= k < |snapshots| :: Held(lease.ranges, snapshots[k].address, snapshots[k].End())
    ensures SnapshotsLeased(snapshots, lease).Err? ==> SnapshotsLeased(snapshots, lease).error == DependencyNotHeld
  {
    hide Held, QuiescenceLease.Covers;
    if snapshots != [] {
      SnapshotsLeasedMeaning(snapshots[1..], lease);
      CoversMeans(lease, snapshots[0].Range().value);
      assert forall k | 0 < k < |snapshots| :: snapshots[k] == snapshots[1..][k - 1];
    }
  }

  lemma MappingsMeaning(plan: BundlePlan, lease: QuiescenceLease)
    ensures (forall m | m in AllMappings(plan.steps) :: lease.Covers(m)) <==> MappingsHeld(plan, lease.ranges)
  {
    hide Held, QuiescenceLease.Covers;
    MappingsAreMembers(plan.steps);
    forall m: AddressRange ensures lease.Covers(m) <==> Held(lease.ranges, m.start, m.end) {
      CoversMeans(lease, m);
    }
    if MappingsHeld(plan, lease.ranges) {
      forall m | m in AllMappings(plan.steps) ensures lease.Covers(m) {
        var s :| 0 <= s < |plan.steps| && m in plan.steps[s].allocations;
        var k :| 0 <= k < |plan.steps[s].allocations| && plan.steps[s].allocations[k] == m;
      }
    } else {
      var s, k :| 0 <= s < |plan.steps| && 0 <= k < |plan.steps[s].allocations|
                  && !Held(lease.ranges, plan.steps[s].allocations[k].start, plan.steps[s].allocations[k].end);
      assert plan.steps[s].allocations[k] in AllMappings(plan.steps);
    }
  }

  /** The ordered check passes exactly for an unpoisoned lease that admits the bundle. */
  lemma LeaseAcceptsExactly(plan: BundlePlan, lease: QuiescenceLease, sourceOnly: bool)
    requires Composed(plan)
    ensures CheckLease(plan, lease, !sourceOnly).Ok? <==> !lease.poisoned && Admitted(plan, lease.identity, lease.ranges, sourceOnly)
    ensures CheckLease(plan, lease, !sourceOnly).Err? ==>
              LeaseRefused(plan, lease.identity, lease.ranges, lease.poisoned, sourceOnly, CheckLease(plan, lease, !sourceOnly).error)
  {
    hide StepsLeased, SnapshotsLeased, AllMappings, IsPatchPlan, StepAdmitted, StepRefused, Held, QuiescenceLease.Covers, MappingsHeld;
    ComposedParts(plan);
    hide Composed;
    if lease.poisoned {
      PoisonRefusesEverything(plan, lease, !sourceOnly);
    } else {
      StepsLeasedMeaning(plan.steps, lease);
      SnapshotsLeasedMeaning(plan.originals, lease);
      MappingsMeaning(plan, lease);
    }
  }

  lemma ComposedParts(plan: BundlePlan)
    requires Composed(plan)
    ensures plan.steps != [] && forall k | 0 <= k < |plan.originals| :: plan.originals[k].Proper()
  {
  }

  /** A lease is refused for one reason only, and refused for one exactly if it may not write. */
  lemma RefusalIsUnique(
    plan: BundlePlan, identity: CodeIdentity, ranges: seq<AddressRange>, poisoned: bool, sourceOnly: bool, one: Refusal, other: Refusal)
    requires LeaseRefused(plan, identity, ranges, poisoned, sourceOnly, one)
    requires LeaseRefused(plan, identity, ranges, poisoned, sourceOnly, other)
    ensures one == other && (poisoned || !Admitted(plan, identity, ranges, sourceOnly))
  {
    hide DependenciesHeld, EntriesResolved, SourceHeld, MappingsHeld;
  }
}
