/** Publication and retirement of a composed bundle in live memory: src/bundle.rs. */
module Publication {
  import opened LittleEndian
  import opened Wrappers
  import opened Contracts
  import opened VirtualImage
  import opened CompositionRuns
  import opened StoreOrder
  import opened Snapshots
  import opened LockRanges
  import opened Aliases
  import opened Leases
  import opened Placement
  import opened Bundle
  import opened LeaseGates

  datatype FailureStage = BeforeWrite | KeepGated

  datatype PublicationFailure = PublicationFailure(reason: Refusal, stage: FailureStage)

  /** Outcomes of kernel, allocator and router operations, which this model does not look inside. */
  datatype Host = Host(
    artifactImages: bool,
    qualified: Result<(), Refusal>,
    layout: Result<(), Refusal>,
    prepared: Result<(), Refusal>,
    staged: Result<(), Refusal>,
    routed: Result<(), Refusal>,
    verified: Result<(), Refusal>,
    finalized: Result<(), Refusal>)

  predicate HasRoutes(steps: seq<PlanParts>) {
    exists step | step in steps :: exists o | o in step.obligations :: o.Routed?
  }

  // ---------------------------------------------------------------- what stands between a call and its first write

  /** Refusals up to placing the stores; nothing has been staged yet. */
  ghost function PlacementGate(plan: BundlePlan, aliases: seq<WritableAlias>, lease: QuiescenceLease, host: Host)
    : Result<seq<PlacedStore>, Refusal>
    requires Owned(aliases)
    reads lease, Buffers(aliases)
  {
    var _ :- Need(!host.artifactImages, InvalidPlan);
    var _ :- CheckLease(plan, lease, false);
    var _ :- host.qualified;
    var _ :- Need(Apart(aliases), InvalidRange);
    var _ :- SnapshotsChecked(aliases, Memory(aliases), plan.originals);
    PlaceSteps(plan.steps, aliases)
  }

  /** Staging images and routes once the reservations are made. */
  function StagingGate(steps: seq<PlanParts>, host: Host): Result<(), Refusal> {
    var _ :- host.staged;
    var _ :- if HasRoutes(steps) then host.routed else Ok(());
    if HasRoutes(steps) then host.verified else Ok(())
  }

  /** Refusals between placing the stores and the first source byte. */
  ghost function ReservationGate(plan: BundlePlan, registry: TrapRegistry, host: Host): Result<(), Refusal>
    reads registry
  {
    var _ :- host.layout;
    var _ :- host.prepared;
    var _ :- Need(forall i | 0 <= i < |plan.locks| :: registry.Unowned(plan.locks[i]), OwnershipConflict);
    StagingGate(plan.steps, host)
  }

  /** All refusals before the first source byte, in order; on success the placed stores. */
  ghost function PublishGate(
    plan: BundlePlan, aliases: seq<WritableAlias>, lease: QuiescenceLease, registry: TrapRegistry, host: Host)
    : Result<seq<PlacedStore>, Refusal>
    requires Owned(aliases)
    reads lease, registry, Buffers(aliases)
  {
    var placed :- PlacementGate(plan, aliases, lease, host);
    var _ :- ReservationGate(plan, registry, host);
    Ok(placed)
  }

  ghost function RetireGate(
    plan: BundlePlan, aliases: seq<WritableAlias>, lease: QuiescenceLease, retired: bool, routing: bool, host: Host)
    : Result<(), Refusal>
    reads lease, Buffers(aliases)
  {
    var _ :- CheckLease(plan, lease, !retired);
    if retired then Ok(())
    else
      var _ :- if routing then host.verified else Ok(());
      var _ :- SnapshotsChecked(aliases, Memory(aliases), plan.finalBytes);
      host.prepared
  }

  /** The gate of a publication on its lease alone: what it lets through, and what it refuses before anything else. */
  lemma PublishGateOnLease(
    plan: BundlePlan, aliases: seq<WritableAlias>, lease: QuiescenceLease, registry: TrapRegistry, host: Host)
    requires Composed(plan) && Owned(aliases)
    ensures PublishGate(plan, aliases, lease, registry, host).Ok? ==>
              !lease.poisoned && Admitted(plan, lease.identity, lease.ranges, true)
    ensures !host.artifactImages ==>
              forall refusal | LeaseRefused(plan, lease.identity, lease.ranges, lease.poisoned, true, refusal) ::
                PublishGate(plan, aliases, lease, registry, host) == Err(refusal)
  {
    hide CheckLease, Admitted, LeaseRefused, Composed, Memory, SnapshotsChecked, PlaceSteps, Apart, ReservationGate;
    LeaseAcceptsExactly(plan, lease, true);
    LeaseDecides(plan, lease, true);
  }

  lemma LeaseDecides(plan: BundlePlan, lease: QuiescenceLease, sourceOnly: bool)
    requires Composed(plan)
    ensures forall refusal | LeaseRefused(plan, lease.identity, lease.ranges, lease.poisoned, sourceOnly, refusal) ::
              CheckLease(plan, lease, !sourceOnly) == Err(refusal)
  {
    hide CheckLease, Admitted, LeaseRefused, Composed;
    LeaseAcceptsExactly(plan, lease, sourceOnly);
    forall refusal | LeaseRefused(plan, lease.identity, lease.ranges, lease.poisoned, sourceOnly, refusal)
      ensures CheckLease(plan, lease, !sourceOnly) == Err(refusal)
    {
      RefusalIsUnique(plan, lease.identity, lease.ranges, lease.poisoned, sourceOnly, refusal, refusal);
      RefusalIsUnique(plan, lease.identity, lease.ranges, lease.poisoned, sourceOnly, refusal, CheckLease(plan, lease, !sourceOnly).error);
    }
  }

  lemma RetireGateOnLease(
    plan: BundlePlan, aliases: seq<WritableAlias>, lease: QuiescenceLease, retired: bool, routing: bool, host: Host)
    requires Composed(plan)
    ensures RetireGate(plan, aliases, lease, retired, routing, host).Ok? ==>
              !lease.poisoned && Admitted(plan, lease.identity, lease.ranges, retired)
    ensures forall refusal | LeaseRefused(plan, lease.identity, lease.ranges, lease.poisoned, retired, refusal) ::
              RetireGate(plan, aliases, lease, retired, routing, host) == Err(refusal)
  {
    hide CheckLease, Admitted, LeaseRefused, Composed, Memory, SnapshotsChecked;
    LeaseAcceptsExactly(plan, lease, retired);
    LeaseDecides(plan, lease, retired);
  }

  /** Everything a publication needs before its first byte, in no order. */
  lemma PublishPassesExactly(
    plan: BundlePlan, aliases: seq<WritableAlias>, lease: QuiescenceLease, registry: TrapRegistry, host: Host)
    requires Composed(plan) && Owned(aliases)
    ensures PublishGate(plan, aliases, lease, registry, host).Ok? <==>
              && !host.artifactImages && !lease.poisoned && Admitted(plan, lease.identity, lease.ranges, true)
              && host.qualified.Ok? && host.layout.Ok? && host.prepared.Ok? && host.staged.Ok?
              && (HasRoutes(plan.steps) ==> host.routed.Ok? && host.verified.Ok?)
              && Apart(aliases) && SnapshotsChecked(aliases, Memory(aliases), plan.originals).Ok?
              && PlaceSteps(plan.steps, aliases).Ok?
              && forall i, held | 0 <= i < |plan.locks| && held in registry.reserved :: !held.Overlaps(plan.locks[i])
  {
    hide CheckLease, Admitted, LeaseRefused, Composed, Memory, SnapshotsChecked, PlaceSteps, Apart, HasRoutes;
    LeaseAcceptsExactly(plan, lease, true);
  }

  /** The same for a retirement; a repeated one needs only its lease. */
  lemma RetirePassesExactly(
    plan: BundlePlan, aliases: seq<WritableAlias>, lease: QuiescenceLease, retired: bool, routing: bool, host: Host)
    requires Composed(plan)
    ensures RetireGate(plan, aliases, lease, retired, routing, host).Ok? <==>
              && !lease.poisoned && Admitted(plan, lease.identity, lease.ranges, retired)
              && (retired || (&& (routing ==> host.verified.Ok?) && host.prepared.Ok?
                              && SnapshotsChecked(aliases, Memory(aliases), plan.finalBytes).Ok?))
  {
    hide CheckLease, Admitted, LeaseRefused, Composed, Memory, SnapshotsChecked;
    LeaseAcceptsExactly(plan, lease, retired);
  }

  /** A byte may have been written: the call succeeded, or failed with the region kept gated. */
  predicate MayHaveWritten<T>(r: Result<T, PublicationFailure>) {
    r.Err? ==> r.error.stage.KeepGated?
  }

  // ---------------------------------------------------------------- what the checks establish about memory

  lemma {:induction false} SnapshotsCheckedMeans(aliases: seq<WritableAlias>, memory: Image, snapshots: seq<ExpectedBytes>, k: nat)
    requires SnapshotsChecked(aliases, memory, snapshots).Ok? && k < |snapshots|
    ensures Holds(memory, snapshots[k].address, snapshots[k].bytes)
  {
    hide FindAlias, Holds;
    if k > 0 {
      SnapshotsCheckedMeans(aliases, memory, snapshots[1..], k - 1);
    }
  }

  /** Authenticated snapshots: memory holds their whole image. */
  lemma CheckedMemoryIncludes(aliases: seq<WritableAlias>, memory: Image, snapshots: seq<ExpectedBytes>)
    requires Laid(snapshots) && SnapshotsChecked(aliases, memory, snapshots).Ok?
    ensures Includes(memory, View(snapshots))
  {
    hide View, SnapshotsChecked, Laid;
    forall a | a in View(snapshots) ensures a in memory && memory[a] == View(snapshots)[a] {
      ImageByteIsHeld(aliases, memory, snapshots, a);
    }
  }

  lemma ImageByteIsHeld(aliases: seq<WritableAlias>, memory: Image, snapshots: seq<ExpectedBytes>, a: int)
    requires Laid(snapshots) && SnapshotsChecked(aliases, memory, snapshots).Ok? && a in View(snapshots)
    ensures a in memory && memory[a] == View(snapshots)[a]
  {
    hide View, SnapshotsChecked;
    var i := Holder(snapshots, a);
    SnapshotsCheckedMeans(aliases, memory, snapshots, i);
    ViewAt(snapshots, i, a);
    assert snapshots[i].Contains(a);
  }

  // ---------------------------------------------------------------- the stores themselves

  lemma OverlayOneMore(image: Image, spans: seq<Span>, k: nat)
    requires k < |spans|
    ensures OverlayAll(image, spans[..k + 1]) == Overlay(OverlayAll(image, spans[..k]), spans[k])
  {
    assert spans[..k + 1] == spans[..k] + [spans[k]];
    OverlayAllConcat(image, spans[..k], [spans[k]]);
    var middle := OverlayAll(image, spans[..k]);
    assert [spans[k]][1..] == [];
    assert OverlayAll(middle, [spans[k]]) == OverlayAll(Overlay(middle, spans[k]), []);
  }

  /** Every store in order. */
  method WriteAll(aliases: seq<WritableAlias>, placed: seq<PlacedStore>)
    requires Owned(aliases) && Apart(aliases) && forall i | 0 <= i < |placed| :: Placed(aliases, placed[i])
    modifies Buffers(aliases)
    ensures Memory(aliases) == OverlayAll(old(Memory(aliases)), Published(Stores(placed)))
  {
    hide Memory, Owned, Apart, Placed, Contents, Buffers, Overlay;
    ghost var spans := Published(Stores(placed));
    assert OverlayAll(Memory(aliases), spans[..0]) == Memory(aliases);
    for k := 0 to |placed|
      invariant Memory(aliases) == OverlayAll(old(Memory(aliases)), spans[..k])
    {
      OverlayOneMore(old(Memory(aliases)), spans, k);
      WriteStore(aliases, placed[k], false);
    }
    assert spans[..|placed|] == spans;
  }

  /** Every original back, last store first. */
  method RestoreAll(aliases: seq<WritableAlias>, placed: seq<PlacedStore>)
    requires Owned(aliases) && Apart(aliases) && forall i | 0 <= i < |placed| :: Placed(aliases, placed[i])
    modifies Buffers(aliases)
    ensures Memory(aliases) == OverlayAll(old(Memory(aliases)), Restored(Stores(placed)))
  {
    hide Memory, Owned, Apart, Placed, Contents, Buffers, Overlay;
    ghost var spans := Restored(Stores(placed));
    assert OverlayAll(Memory(aliases), spans[..0]) == Memory(aliases);
    for k := 0 to |placed|
      invariant Memory(aliases) == OverlayAll(old(Memory(aliases)), spans[..k])
    {
      OverlayOneMore(old(Memory(aliases)), spans, k);
      WriteStore(aliases, placed[|placed| - 1 - k], true);
    }
    assert spans[..|placed|] == spans;
  }

  // ---------------------------------------------------------------- publication

  ghost predicate WellPlaced(plan: BundlePlan, aliases: seq<WritableAlias>, stores: seq<PlacedStore>) {
    && Composed(plan) && Owned(aliases) && Apart(aliases)
    && PlaceSteps(plan.steps, aliases) == Ok(stores)
  }

  lemma WellPlacedStores(plan: BundlePlan, aliases: seq<WritableAlias>, stores: seq<PlacedStore>)
    requires WellPlaced(plan, aliases, stores)
    ensures SourceStores(plan.steps).Ok? && Stores(stores) == SourceStores(plan.steps).value
    ensures forall i | 0 <= i < |stores| :: Placed(aliases, stores[i])
    ensures Owned(aliases) && Apart(aliases)
  {
    hide IsPatchPlan, Run, View, Union, PlaceSteps, SourceStores, Placed;
    PlacedStepsAreStores(plan.steps, aliases);
  }

  /** A permanently active transaction; its reservations stay until explicit retirement. */
  class InstalledBundle {
    const plan: BundlePlan
    const aliases: seq<WritableAlias>
    const stores: seq<PlacedStore>
    var reservations: set<AddressRange>
    var routing: bool
    var retired: bool

    ghost predicate Valid()
      reads this
    {
      WellPlaced(plan, aliases, stores) && (retired ==> reservations == {} && !routing)
    }

    constructor (plan: BundlePlan, aliases: seq<WritableAlias>, stores: seq<PlacedStore>, reservations: set<AddressRange>, routing: bool)
      requires WellPlaced(plan, aliases, stores)
      ensures Valid() && this.plan == plan && this.aliases == aliases && this.stores == stores
      ensures this.reservations == reservations && this.routing == routing && !retired
    {
      this.plan, this.aliases, this.stores := plan, aliases, stores;
      this.reservations, this.routing, retired := reservations, routing, false;
    }

    /**
     * Restores every member in reverse order as one unit.
     *
     * Nothing changes when any check refuses. Once the first byte is written the originals are all
     * back, and only the finalizer decides whether the lease is released or stays poisoned.
     */
    method RetireWith(lease: QuiescenceLease, registry: TrapRegistry, host: Host)
      returns (r: Result<(), PublicationFailure>)
      requires Valid()
      modifies this, lease, registry, Buffers(aliases)
      ensures Valid()
      ensures var gate := old(RetireGate(plan, aliases, lease, retired, routing, host));
              if gate.Err? then
                && r == Err(PublicationFailure(gate.error, BeforeWrite))
                && Memory(aliases) == old(Memory(aliases)) && lease.poisoned == old(lease.poisoned)
                && registry.reserved == old(registry.reserved) && unchanged(this)
              else if old(retired) then
                && r.Ok?
                && Memory(aliases) == old(Memory(aliases)) && lease.poisoned == old(lease.poisoned)
                && registry.reserved == old(registry.reserved) && unchanged(this)
              else
                && SwappedIn(old(Memory(aliases)), View(plan.originals), Memory(aliases))
                && (host.finalized.Err? ==>
                      && r == Err(PublicationFailure(host.finalized.error, KeepGated)) && lease.poisoned
                      && registry.reserved == old(registry.reserved) && unchanged(this))
                && (!host.finalized.Err? ==>
                      && r.Ok? && !lease.poisoned && retired
                      && registry.reserved == old(registry.reserved) - old(reservations))
      ensures if MayHaveWritten(r) then !old(lease.poisoned) && Admitted(plan, lease.identity, lease.ranges, old(retired))
              else Memory(aliases) == old(Memory(aliases))
      ensures forall refusal | LeaseRefused(plan, lease.identity, lease.ranges, old(lease.poisoned), old(retired), refusal) ::
                r == Err(PublicationFailure(refusal, BeforeWrite))
    {
      hide Memory, Composed, Owned, Apart, View, SnapshotsChecked, SwappedIn, CheckLease, Buffers, Placed, Admitted, LeaseRefused;
      RetireGateOnLease(plan, aliases, lease, retired, routing, host);
      ghost var before := Memory(aliases);
      var check := CheckLease(plan, lease, !retired);
      if check.Err? {
        return Err(PublicationFailure(check.error, BeforeWrite));
      }
      if retired {
        return Ok(());
      }
      if routing && host.verified.Err? {
        return Err(PublicationFailure(host.verified.error, BeforeWrite));
      }
      var same := CheckSnapshots(aliases, plan.finalBytes);
      if same.Err? {
        return Err(PublicationFailure(same.error, BeforeWrite));
      }
      if host.prepared.Err? {
        return Err(PublicationFailure(host.prepared.error, BeforeWrite));
      }
      lease.Poison();
      WellPlacedStores(plan, aliases, stores);
      RestoreAll(aliases, stores);
      RestoredSwap(plan, aliases, stores, before);
      if host.finalized.Err? {
        return Err(PublicationFailure(host.finalized.error, KeepGated));
      }
      routing := false;
      registry.Release(reservations);
      reservations, retired := {}, true;
      lease.PublicationCompleted();
      return Ok(());
    }
  }

  lemma RestoredSwap(plan: BundlePlan, aliases: seq<WritableAlias>, stores: seq<PlacedStore>, before: Image)
    requires WellPlaced(plan, aliases, stores) && SnapshotsChecked(aliases, before, plan.finalBytes).Ok?
    ensures SwappedIn(before, View(plan.originals), OverlayAll(before, Restored(Stores(stores))))
  {
    hide IsPatchPlan, Run, View, Union, SnapshotsChecked, OverlayAll, PlaceSteps, SourceStores, SwappedIn, Includes;
    WellPlacedStores(plan, aliases, stores);
    CheckedMemoryIncludes(aliases, before, plan.finalBytes);
    RetireSwapsOriginalsIn(Initial(plan.identity, View(plan.originals)), plan.steps, before);
  }

  lemma PublishedSwap(plan: BundlePlan, aliases: seq<WritableAlias>, stores: seq<PlacedStore>, before: Image)
    requires WellPlaced(plan, aliases, stores) && SnapshotsChecked(aliases, before, plan.originals).Ok?
    ensures SwappedIn(before, View(plan.finalBytes), OverlayAll(before, Published(Stores(stores))))
  {
    hide IsPatchPlan, Run, View, Union, SnapshotsChecked, OverlayAll, PlaceSteps, SourceStores, SwappedIn, Includes;
    WellPlacedStores(plan, aliases, stores);
    CheckedMemoryIncludes(aliases, before, plan.originals);
    PublishSwapsFinalIn(Initial(plan.identity, View(plan.originals)), plan.steps, before);
  }

  method CheckPlacement(plan: BundlePlan, aliases: seq<WritableAlias>, lease: QuiescenceLease, host: Host)
    returns (r: Result<seq<PlacedStore>, Refusal>)
    requires Composed(plan) && Owned(aliases)
    ensures r == old(PlacementGate(plan, aliases, lease, host))
    ensures r.Ok? ==> WellPlaced(plan, aliases, r.value)
    ensures r.Ok? ==> SnapshotsChecked(aliases, old(Memory(aliases)), plan.originals).Ok?
    ensures Memory(aliases) == old(Memory(aliases))
  {
    hide Memory, Composed, Owned, Apart, View, SnapshotsChecked, CheckLease, Buffers, PlaceSteps;
    if host.artifactImages {
      return Err(InvalidPlan);
    }
    var check := CheckLease(plan, lease, false);
    if check.Err? {
      return Err(check.error);
    }
    if host.qualified.Err? {
      return Err(host.qualified.error);
    }
    check := CheckAliases(aliases);
    assert forall b | b in Buffers(aliases) :: old(allocated(b)) && b[..] == old(b[..]);
    assert Memory(aliases) == old(Memory(aliases));
    if check.Err? {
      return Err(check.error);
    }
    check := CheckSnapshots(aliases, plan.originals);
    assert Memory(aliases) == old(Memory(aliases));
    if check.Err? {
      return Err(check.error);
    }
    r := PlaceAllSteps(plan.steps, aliases);
  }

  /**
   * Stages everything, then writes every store, then finalizes.
   *
   * A refusal before the first store leaves memory, lease and reservations as they were. After it,
   * memory holds exactly the composed bytes, the reservations stay even if the handle is lost, and
   * the lease is released only by a successful finalizer.
   */
  method PublishWith(
    plan: BundlePlan, aliases: seq<WritableAlias>, lease: QuiescenceLease, registry: TrapRegistry, host: Host)
    returns (r: Result<InstalledBundle, PublicationFailure>)
    requires Composed(plan) && Owned(aliases)
    modifies lease, registry, Buffers(aliases)
    ensures var gate := old(PublishGate(plan, aliases, lease, registry, host));
            if gate.Err? then
              && r == Err(PublicationFailure(gate.error, BeforeWrite))
              && Memory(aliases) == old(Memory(aliases)) && lease.poisoned == old(lease.poisoned)
              && registry.reserved == old(registry.reserved)
            else
              && SwappedIn(old(Memory(aliases)), View(plan.finalBytes), Memory(aliases))
              && registry.reserved == old(registry.reserved) + RangeSet(plan.locks)
              && (host.finalized.Err? ==>
                    r == Err(PublicationFailure(host.finalized.error, KeepGated)) && lease.poisoned)
              && (!host.finalized.Err? ==>
                    && r.Ok? && fresh(r.value) && r.value.Valid() && !lease.poisoned
                    && r.value.plan == plan && r.value.aliases == aliases && !r.value.retired
                    && r.value.reservations == RangeSet(plan.locks))
    ensures if MayHaveWritten(r) then !old(lease.poisoned) && Admitted(plan, lease.identity, lease.ranges, true)
            else Memory(aliases) == old(Memory(aliases))
    ensures !host.artifactImages ==>
              forall refusal | LeaseRefused(plan, lease.identity, lease.ranges, old(lease.poisoned), true, refusal) ::
                r == Err(PublicationFailure(refusal, BeforeWrite))
  {
    hide Memory, Composed, Owned, Apart, View, PlacementGate, ReservationGate, SwappedIn, Buffers, Placed, WellPlaced, Admitted,
         LeaseRefused;
    PublishGateOnLease(plan, aliases, lease, registry, host);
    var placed := CheckPlacement(plan, aliases, lease, host);
    if placed.Err? {
      return Err(PublicationFailure(placed.error, BeforeWrite));
    }
    r := ReserveAndWrite(plan, aliases, placed.value, lease, registry, host);
  }

  /** Reserves the locked ranges, stages images and routes, and goes on to write. */
  method ReserveAndWrite(
    plan: BundlePlan, aliases: seq<WritableAlias>, stores: seq<PlacedStore>, lease: QuiescenceLease, registry: TrapRegistry, host: Host)
    returns (r: Result<InstalledBundle, PublicationFailure>)
    requires WellPlaced(plan, aliases, stores) && SnapshotsChecked(aliases, Memory(aliases), plan.originals).Ok?
    modifies lease, registry, Buffers(aliases)
    ensures var gate := old(ReservationGate(plan, registry, host));
            if gate.Err? then
              && r == Err(PublicationFailure(gate.error, BeforeWrite))
              && Memory(aliases) == old(Memory(aliases)) && lease.poisoned == old(lease.poisoned)
              && registry.reserved == old(registry.reserved)
            else
              && SwappedIn(old(Memory(aliases)), View(plan.finalBytes), Memory(aliases))
              && registry.reserved == old(registry.reserved) + RangeSet(plan.locks)
              && (host.finalized.Err? ==>
                    r == Err(PublicationFailure(host.finalized.error, KeepGated)) && lease.poisoned)
              && (!host.finalized.Err? ==>
                    && r.Ok? && fresh(r.value) && r.value.Valid() && !lease.poisoned
                    && r.value.plan == plan && r.value.aliases == aliases && !r.value.retired
                    && r.value.reservations == RangeSet(plan.locks))
  {
    hide Memory, Composed, Owned, Apart, View, StagingGate, SwappedIn, Buffers, Placed, WellPlaced, SnapshotsChecked;
    if host.layout.Err? {
      return Err(PublicationFailure(host.layout.error, BeforeWrite));
    }
    if host.prepared.Err? {
      return Err(PublicationFailure(host.prepared.error, BeforeWrite));
    }
    ComposedLocksApart(plan, aliases, stores);
    var reserved := registry.ReserveAll(plan.locks);
    if !reserved {
      return Err(PublicationFailure(OwnershipConflict, BeforeWrite));
    }
    var reservations := RangeSet(plan.locks);
    var staged := StagingGate(plan.steps, host);
    if staged.Err? {
      registry.Release(reservations);
      return Err(PublicationFailure(staged.error, BeforeWrite));
    }
    var installed := new InstalledBundle(plan, aliases, stores, reservations, HasRoutes(plan.steps));
    var finished := WriteAndFinalize(plan, aliases, stores, lease, host);
    if finished.Err? {
      return Err(finished.error);
    }
    return Ok(installed);
  }

  /** Past the point of no return: poison, write every store, finalize. */
  method WriteAndFinalize(
    plan: BundlePlan, aliases: seq<WritableAlias>, stores: seq<PlacedStore>, lease: QuiescenceLease, host: Host)
    returns (r: Result<(), PublicationFailure>)
    requires WellPlaced(plan, aliases, stores) && SnapshotsChecked(aliases, Memory(aliases), plan.originals).Ok?
    modifies lease, Buffers(aliases)
    ensures SwappedIn(old(Memory(aliases)), View(plan.finalBytes), Memory(aliases))
    ensures host.finalized.Err? ==>
              r == Err(PublicationFailure(host.finalized.error, KeepGated)) && lease.poisoned
    ensures !host.finalized.Err? ==> r.Ok? && !lease.poisoned
  {
    hide Memory, Composed, Owned, Apart, View, SwappedIn, Buffers, Placed, WellPlaced, SnapshotsChecked;
    ghost var before := Memory(aliases);
    WellPlacedStores(plan, aliases, stores);
    lease.Poison();
    WriteAll(aliases, stores);
    PublishedSwap(plan, aliases, stores, before);
    if host.finalized.Err? {
      return Err(PublicationFailure(host.finalized.error, KeepGated));
    }
    lease.PublicationCompleted();
    return Ok(());
  }

  lemma ComposedLocksApart(plan: BundlePlan, aliases: seq<WritableAlias>, stores: seq<PlacedStore>)
    requires WellPlaced(plan, aliases, stores)
    ensures forall i, j | 0 <= i < j < |plan.locks| :: plan.locks[i].end < plan.locks[j].start
  {
  }
}
