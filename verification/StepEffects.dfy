/** Everything one accepted step of src/composition.rs changes, written out; and the fetch locks of routed markers. */
module StepEffects {
  import opened LittleEndian
  import opened Wrappers
  import opened Contracts
  import opened GeneratedImages
  import opened VirtualImage
  import opened CompositionRuns
  import opened Snapshots
  import opened LockRanges
  import C = Composition

  // ---------------------------------------------------------------- fetch envelopes

  /** A routed head that reads 0x62 in this image: the processor may fetch fifteen bytes from it before it faults. */
  ghost predicate MarkedHead(image: Image, obligation: EntryObligation) {
    obligation.Routed? && obligation.route.original in image && image[obligation.route.original] == 0x62
  }

  /** The address is one of the fifteen bytes from some marked head. */
  ghost predicate InFetch(image: Image, obligations: seq<EntryObligation>, a: int) {
    exists k | 0 <= k < |obligations| && MarkedHead(image, obligations[k]) ::
      obligations[k].route.original <= a < obligations[k].route.original + 15
  }

  lemma {:induction false} FetchLocksExactly(image: Image, obligations: seq<EntryObligation>)
    requires FetchLocks(image, obligations).Ok?
    ensures forall a :: a in FetchLocks(image, obligations).value <==> InFetch(image, obligations, a)
  {
    if obligations != [] {
      var first, rest := obligations[0], obligations[1..];
      if first.Routed? {
        MarkerMatch(image, first.route.original, 0x62);
      }
      FetchLocksExactly(image, rest);
      forall a ensures InFetch(image, obligations, a) <==>
                       || InFetch(image, rest, a)
                       || (MarkedHead(image, first) && first.route.original <= a < first.route.original + 15) {
        assert forall k | 0 < k < |obligations| :: obligations[k] == rest[k - 1];
        assert forall k | 0 <= k < |rest| :: rest[k] == obligations[k + 1];
      }
    }
  }

  // ---------------------------------------------------------------- one step

  /** A store of this step: one of its writes, or the padded store of a pun. */
  ghost predicate StoredBy(plan: PlanParts, edit: ByteEdit) {
    edit in plan.writes || (plan.IsPun() && edit == plan.Shape().store)
  }

  ghost predicate Stores(plan: PlanParts, a: int) {
    exists edit :: StoredBy(plan, edit) && edit.Contains(a)
  }

  /** Displaced bytes, or all that a pun's jump consumes. */
  ghost predicate Owns(plan: PlanParts, a: int) {
    if plan.IsPun() then plan.Shape().consumed.Contains(a) else plan.displaced.Contains(a)
  }

  lemma EditsAreStores(plan: PlanParts)
    ensures forall edit :: edit in Edits(plan) <==> StoredBy(plan, edit)
    ensures forall a :: a in AddressesOf(Edits(plan)) <==> Stores(plan, a)
  {
  }

  /**
   * After a step: stored bytes are the stores' bytes, every other byte is as it was; the locked addresses are those
   * locked before, the owned ones, the stored ones and the fetch envelopes of the step's marked heads, read in the
   * finished image.
   */
  lemma StepChangesExactly(state: State, plan: PlanParts)
    requires state.Valid() && Append(state, plan).Ok?
    ensures var next := Append(state, plan).value;
            && next.identity == state.identity && next.originals == state.originals && next.image.Keys == state.image.Keys
            && next.sites == state.sites + {plan.physicalPc}
            && (forall edit, a | StoredBy(plan, edit) && edit.Contains(a) :: a in next.image && next.image[a] == edit.At(a))
            && (forall a | a in state.image && !Stores(plan, a) :: next.image[a] == state.image[a])
            && (forall a :: a in next.mapped <==> a in state.mapped || exists q | q in plan.allocations :: q.Contains(a))
            && (forall a :: a in next.locked <==>
                              a in state.locked || Owns(plan, a) || Stores(plan, a) || InFetch(next.image, plan.obligations, a))
  {
    hide Append, Accepts, Edits, OverlayAll, AddressesOf, FetchLocks, InFetch, StoredBy, Owns;
    var next, edits := Append(state, plan).value, Edits(plan);
    StepIsAccepted(state, plan);
    EditsAreStores(plan);
    StepMapsExclusively(state, plan);
    OverlayAllKeepsDomain(state.image, edits);
    forall edit, a | StoredBy(plan, edit) && edit.Contains(a) ensures a in next.image && next.image[a] == edit.At(a) {
      var k :| 0 <= k < |edits| && edits[k] == edit;
      StepStoresItsEdits(state, plan, k);
    }
    forall a | a in state.image && !Stores(plan, a) ensures next.image[a] == state.image[a] {
      OverlayUntouched(state.image, edits, a);
    }
    LocksAreExactly(state, plan);
  }

  lemma LocksAreExactly(state: State, plan: PlanParts)
    requires Append(state, plan).Ok?
    ensures var next := Append(state, plan).value;
            forall a :: a in next.locked <==>
                          a in state.locked || Owns(plan, a) || Stores(plan, a) || InFetch(next.image, plan.obligations, a)
  {
    var next := Append(state, plan).value;
    EditsAreStores(plan);
    FetchLocksExactly(next.image, plan.obligations);
    assert forall a :: a in OwnedRange(plan).Addresses() <==> Owns(plan, a);
    assert next.locked == state.locked + OwnedRange(plan).Addresses() + AddressesOf(Edits(plan)) + FetchLocks(next.image, plan.obligations).value;
    hide Append, Edits, OverlayAll, AddressesOf, FetchLocks, InFetch, Stores, Owns, OwnedRange;
  }

  // ---------------------------------------------------------------- locked fetches over a whole run

  /** All fifteen bytes from this address are locked in both states, and hold the same bytes. */
  ghost predicate FetchKept(early: State, late: State, original: U64) {
    forall a: int | original <= a < original + 15 ::
      && a in early.locked && a in late.locked
      && a in early.image && a in late.image && late.image[a] == early.image[a]
  }

  /**
   * A routed 0x62 marker stands in any later state with all fifteen bytes that may be fetched from it: they were
   * locked by the step that left the marker, and none of them ever changed afterwards.
   */
  lemma FetchesNeverChange(start: State, plans: seq<PlanParts>, i: nat, obligation: EntryObligation)
    requires start.Valid() && Run(start, plans).Ok? && i < |plans| && obligation in plans[i].obligations
    ensures Run(start, plans[..i + 1]).Ok?
    ensures MarkedHead(Run(start, plans[..i + 1]).value.image, obligation) ==>
              FetchKept(Run(start, plans[..i + 1]).value, Run(start, plans).value, obligation.route.original)
  {
    hide Append, Run, Accepts;
    var before, after := StepOf(start, plans, i);
    LocksAreExactly(before, plans[i]);
    RunKeepsLocks(start, plans, i + 1);
    var k :| 0 <= k < |plans[i].obligations| && plans[i].obligations[k] == obligation;
    if MarkedHead(after.image, obligation) {
      var original := obligation.route.original;
      forall a: int | original <= a < original + 15 ensures a in after.locked {
        assert InFetch(after.image, plans[i].obligations, a);
      }
    }
  }

  /** The state that the first accepted plans of a composition lead to. */
  ghost function StateAfter(composition: C.Composition, count: nat): Result<State, Refusal>
    requires count <= |composition.history|
    reads composition
  {
    Run(Initial(composition.identity, View(composition.originals)), composition.history[..count])
  }

  /** In any valid composition the fetch envelope of every routed head that its step left marked is locked, in full. */
  lemma MarkedFetchesAreLocked(composition: C.Composition, i: nat, obligation: EntryObligation)
    requires composition.Valid() && i < |composition.history| && obligation in composition.history[i].obligations
    ensures StateAfter(composition, i + 1).Ok?
    ensures MarkedHead(StateAfter(composition, i + 1).value.image, obligation) ==>
              && MarkedHead(View(composition.finalBytes), obligation)
              && forall a: int | obligation.route.original <= a < obligation.route.original + 15 :: InSome(composition.locks, a)
  {
    hide Run, IsPatchPlan, View, Domain, Laid, SameExtents, Canonical, InSome;
    var start := Initial(composition.identity, View(composition.originals));
    FetchesNeverChange(start, composition.history, i, obligation);
    if MarkedHead(StateAfter(composition, i + 1).value.image, obligation) {
      var original: int := obligation.route.original;
      assert FetchKept(StateAfter(composition, i + 1).value, composition.Abstract(), obligation.route.original);
      assert original <= original < original + 15;
    }
  }

  /** A store that would change a locked byte is an ownership conflict, once everything checked before it is in order. */
  lemma ChangingALockIsConflict(state: State, plan: PlanParts, edit: ByteEdit, a: int)
    requires state.Valid() && a in state.locked && StoredBy(plan, edit) && edit.Contains(a) && edit.At(a) != state.image[a]
    requires plan.identity == state.identity && CheckEntryObligations(plan).Ok? && plan.physicalPc !in state.sites
    requires DependenciesCovered(state.originals, plan.dependencies) && ReadsHold(state.image, plan.readSet)
    requires forall other | StoredBy(plan, other) :: other.Proper() && forall b | other.Contains(b) :: b in state.originals
    ensures Append(state, plan) == Err(OwnershipConflict)
  {
    hide Edits, Allocate, GeneratedChecked, FetchLocks, StoredBy;
    EditsAreStores(plan);
    DependenciesMeaning(state.originals, plan.dependencies);
    ReadsMeaning(state.image, plan.readSet);
    EditsMeaning(state, Edits(plan), 0);
    forall k | 0 <= k < |Edits(plan)|
      ensures Edits(plan)[k].Proper() && forall b | Edits(plan)[k].Contains(b) :: b in state.originals
    {
      assert Edits(plan)[k] in Edits(plan);
    }
    OnlyConflicts(state, Edits(plan), 0);
    hide EditsChecked, DependenciesChecked, ReadsChecked;
  }

  lemma {:induction false} OnlyConflicts(state: State, edits: seq<ByteEdit>, i: nat)
    requires i <= |edits|
    requires forall k | 0 <= k < |edits| :: edits[k].Proper() && forall b | edits[k].Contains(b) :: b in state.originals
    ensures EditsChecked(state, edits, i).Err? ==> EditsChecked(state, edits, i) == Err(OwnershipConflict)
    decreases |edits| - i
  {
    if i < |edits| {
      OnlyConflicts(state, edits, i + 1);
    }
  }

  // ---------------------------------------------------------------- which refusal

  /** The first read that does not hold, and why. */
  ghost predicate ReadRefused(image: Image, readSet: seq<ExpectedBytes>, k: nat, refusal: Refusal) {
    && k < |readSet| && ReadsHold(image, readSet[..k])
    && match refusal
       case InvalidRange => !readSet[k].Proper()
       case DependencyNotHeld => readSet[k].Proper() && exists a: int :: readSet[k].Contains(a) && a !in image
       case ExpectedBytesChanged =>
         && readSet[k].Proper() && (forall a: int | readSet[k].Contains(a) :: a in image)
         && exists a: int :: readSet[k].Contains(a) && image[a] != readSet[k].At(a)
       case _ => false
  }

  /** The first store that is not allowed, and why. */
  ghost predicate EditRefused(state: State, edits: seq<ByteEdit>, k: nat, refusal: Refusal) {
    && k < |edits| && EditsCompatible(state, edits[..k])
    && match refusal
       case InvalidRange => !edits[k].Proper()
       case DependencyNotHeld => edits[k].Proper() && exists a: int :: edits[k].Contains(a) && a !in state.originals
       case OwnershipConflict =>
         && edits[k].Proper() && (forall a: int | edits[k].Contains(a) :: a in state.originals)
         && (!EditKeepsLocks(state, edits[k]) || exists j | 0 <= j < k :: !EditsAgree(edits[k], edits[j]))
       case _ => false
  }

  /** The first routed head that cannot be fetched from, and why. */
  ghost predicate RouteRefused(image: Image, obligations: seq<EntryObligation>, k: nat, refusal: Refusal) {
    && k < |obligations| && RoutesSatisfied(image, obligations[..k]) && obligations[k].Routed?
    && var original := obligations[k].route.original;
       match refusal
       case InvalidRange =>
         || original == 0xffff_ffff_ffff_ffff
         || (original in image && image[original] == 0x62 && original + 15 >= 0x1_0000_0000_0000_0000)
       case DependencyNotHeld =>
         && original < 0xffff_ffff_ffff_ffff
         && (original in image ==>
               && image[original] == 0x62 && original + 15 < 0x1_0000_0000_0000_0000
               && exists a: int :: original <= a < original + 15 && a !in image)
       case _ => false
  }

  /** Why a step is refused: the first of these in order. */
  ghost predicate Refused(state: State, plan: PlanParts, refusal: Refusal) {
    if plan.identity != state.identity then refusal == StaleGeneration
    else if CheckEntryObligations(plan).Err? then refusal == UnresolvedEntry
    else if plan.physicalPc in state.sites then refusal == OwnershipConflict
    else if !DependenciesCovered(state.originals, plan.dependencies) then refusal == DependencyNotHeld
    else if !ReadsHold(state.image, plan.readSet) then exists k: nat :: ReadRefused(state.image, plan.readSet, k, refusal)
    else if !EditsCompatible(state, Edits(plan)) then exists k: nat :: EditRefused(state, Edits(plan), k, refusal)
    else if !Covered(state.originals, OwnedRange(plan)) then refusal == DependencyNotHeld
    else if !AllocationsExclusive(state, plan.allocations) then refusal == OwnershipConflict
    else if !Consistent(plan.generated) then refusal in {InvalidRange, InvalidPlan, OwnershipConflict}
    else exists k: nat :: RouteRefused(OverlayAll(state.image, Edits(plan)), plan.obligations, k, refusal)
  }

  lemma {:induction false} DependencyRefusals(image: Image, dependencies: seq<AddressRange>)
    ensures DependenciesChecked(image, dependencies).Err? ==> DependenciesChecked(image, dependencies).error == DependencyNotHeld
  {
    if dependencies != [] {
      DependencyRefusals(image, dependencies[1..]);
    }
  }

  lemma {:induction false} ReadRefusals(image: Image, readSet: seq<ExpectedBytes>)
    requires ReadsChecked(image, readSet).Err?
    ensures exists k: nat :: ReadRefused(image, readSet, k, ReadsChecked(image, readSet).error)
  {
    var first, rest, error := readSet[0], readSet[1..], ReadsChecked(image, readSet).error;
    var same := BytesMatch(image, first);
    if same.Ok? && same.value {
      ReadRefusals(image, rest);
      var k: nat :| ReadRefused(image, rest, k, error);
      assert readSet[..k + 1] == [first] + rest[..k];
      assert ReadRefused(image, readSet, k + 1, error);
    } else {
      assert readSet[..0] == [];
      assert ReadRefused(image, readSet, 0, error);
    }
  }

  lemma {:induction false} EditRefusals(state: State, edits: seq<ByteEdit>, i: nat)
    requires i <= |edits| && EditsCompatible(state, edits[..i]) && EditsChecked(state, edits, i).Err?
    ensures exists k: nat :: EditRefused(state, edits, k, EditsChecked(state, edits, i).error)
    decreases |edits| - i
  {
    var error := EditsChecked(state, edits, i).error;
    if edits[i].Range().Ok? && Covered(state.originals, edits[i].Range().value) && EditKeepsLocks(state, edits[i])
       && forall j | 0 <= j < i :: EditsAgree(edits[i], edits[j]) {
      OneMoreCompatible(state, edits, i);
      EditRefusals(state, edits, i + 1);
    } else {
      assert EditRefused(state, edits, i, error);
    }
  }

  lemma OneMoreCompatible(state: State, edits: seq<ByteEdit>, i: nat)
    requires i < |edits| && EditsCompatible(state, edits[..i]) && EditAllowed(state, edits[i])
    requires forall j | 0 <= j < i :: EditsAgree(edits[i], edits[j])
    ensures EditsCompatible(state, edits[..i + 1])
  {
    hide EditAllowed, EditsAgree;
    assert edits[..i + 1] == edits[..i] + [edits[i]];
    assert forall k | 0 <= k < i :: edits[..i][k] == edits[k];
  }

  lemma {:induction false} AllocationRefusals(source: set<int>, mapped: set<int>, requests: seq<AddressRange>)
    ensures Allocate(source, mapped, requests).Err? ==> Allocate(source, mapped, requests).error == OwnershipConflict
    decreases |requests|
  {
    if requests != [] {
      AllocationRefusals(source, mapped + requests[0].Addresses(), requests[1..]);
    }
  }

  lemma {:induction false} MappingRefusals(range: AddressRange, mappings: seq<ProgramCounterMapping>, i: nat)
    requires i <= |mappings|
    ensures var r := MappingsChecked(range, mappings, i); r.Err? ==> r.error in {InvalidRange, InvalidPlan, OwnershipConflict}
    decreases |mappings| - i
  {
    if i < |mappings| {
      MappingRefusals(range, mappings, i + 1);
    }
  }

  lemma {:induction false} ImageRefusals(images: seq<GeneratedCode>, i: nat)
    requires i <= |images|
    ensures var r := GeneratedChecked(images, i); r.Err? ==> r.error in {InvalidRange, InvalidPlan, OwnershipConflict}
    decreases |images| - i
  {
    hide Agree;
    if i < |images| {
      if images[i].image.Range().Ok? {
        MappingRefusals(images[i].image.Range().value, images[i].programCounters, 0);
      }
      ImageRefusals(images, i + 1);
    }
  }

  lemma {:induction false} RouteRefusals(image: Image, obligations: seq<EntryObligation>)
    requires FetchLocks(image, obligations).Err?
    ensures exists k: nat :: RouteRefused(image, obligations, k, FetchLocks(image, obligations).error)
  {
    var first, rest, error := obligations[0], obligations[1..], FetchLocks(image, obligations).error;
    OneRoute(image, first);
    assert [first][1..] == [];
    if RouteSatisfied(image, first) {
      RouteRefusals(image, rest);
      var k: nat :| RouteRefused(image, rest, k, error);
      assert obligations[..k + 1] == [first] + rest[..k];
      assert RouteRefused(image, obligations, k + 1, error);
    } else {
      MarkerMatch(image, first.route.original, 0x62);
      assert obligations[..0] == [];
      assert RouteRefused(image, obligations, 0, error);
    }
  }

  /** A refused step is refused for the first thing that is wrong with it, with that refusal. */
  lemma AppendRefusesFirst(state: State, plan: PlanParts)
    requires Append(state, plan).Err?
    ensures Refused(state, plan, Append(state, plan).error)
  {
    hide Consistent, GeneratedChecked, ReadsHold, DependenciesCovered, AllocationsExclusive, RoutesSatisfied, OverlayAll, Edits,
         EditsCompatible, ReadRefused, EditRefused, RouteRefused, Allocate, EditsChecked, ReadsChecked, DependenciesChecked, FetchLocks;
    var edits := Edits(plan);
    var image := OverlayAll(state.image, edits);
    DependenciesMeaning(state.originals, plan.dependencies);
    DependencyRefusals(state.originals, plan.dependencies);
    ReadsMeaning(state.image, plan.readSet);
    if ReadsChecked(state.image, plan.readSet).Err? {
      ReadRefusals(state.image, plan.readSet);
    }
    EditsCheckedMeans(state, edits);
    if EditsChecked(state, edits, 0).Err? {
      NothingYet(state, edits);
      EditRefusals(state, edits, 0);
    }
    AllocateMeansExclusive(state, plan.allocations);
    AllocationRefusals(state.originals.Keys, state.mapped, plan.allocations);
    AcceptsExactlyConsistent(plan.generated);
    ImageRefusals(plan.generated, 0);
    FetchLocksMeaning(image, plan.obligations);
    if FetchLocks(image, plan.obligations).Err? {
      RouteRefusals(image, plan.obligations);
    }
  }

  lemma EditsCheckedMeans(state: State, edits: seq<ByteEdit>)
    ensures EditsChecked(state, edits, 0).Ok? <==> EditsCompatible(state, edits)
  {
    hide EditsChecked;
    EditsMeaning(state, edits, 0);
  }

  lemma NothingYet(state: State, edits: seq<ByteEdit>)
    ensures EditsCompatible(state, edits[..0])
  {
  }
}
