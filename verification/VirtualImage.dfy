/**
 * The composition rules of src/composition.rs over a plain address-to-byte map.
 *
 * Nothing here knows how the source image is cut into snapshots: this is the meaning that the
 * snapshot code in Composition.dfy is proved against.
 */
module VirtualImage {
  import opened LittleEndian
  import opened Wrappers
  import opened Contracts
  import opened GeneratedImages

  type Image = map<int, byte>

  ghost predicate Covered(image: Image, range: Interval) {
    forall a | range.start <= a < range.end :: a in image
  }

  /** The image after one store; addresses it does not hold stay absent. */
  function Overlay(image: Image, edit: Span): Image {
    map a | a in image :: if edit.Contains(a) then edit.At(a) else image[a]
  }

  function OverlayAll(image: Image, edits: seq<Span>): Image {
    if edits == [] then image else OverlayAll(Overlay(image, edits[0]), edits[1..])
  }

  ghost function AddressesOf(spans: seq<Span>): (addresses: set<int>)
    ensures forall a :: a in addresses <==> exists e | e in spans :: e.Contains(a)
  {
    if spans == [] then {}
    else
      var rest := AddressesOf(spans[1..]);
      (set a: int | spans[0].address <= a < spans[0].End() && spans[0].Contains(a)) + rest
  }

  /** What is owned, locked and stored after the accepted steps. */
  datatype State = State(
    identity: CodeIdentity,
    originals: Image,
    image: Image,
    locked: set<int>,
    mapped: set<int>,
    sites: set<U64>)
  {
    ghost predicate Valid() {
      originals.Keys == image.Keys && locked <= image.Keys
    }
  }

  ghost function Initial(identity: CodeIdentity, originals: Image): State {
    State(identity, originals, originals, {}, {}, {})
  }

  // ---------------------------------------------------------------- one step, refusals in source order

  /** All stores of a step: its writes, and a pun's actual padded store after them. */
  function Edits(plan: PlanParts): seq<ByteEdit> {
    if plan.IsPun() then plan.writes + [plan.Shape().store] else plan.writes
  }

  /** The range a step owns besides its stores. */
  function OwnedRange(plan: PlanParts): AddressRange {
    if plan.IsPun() then plan.Shape().consumed else plan.displaced
  }

  ghost function DependenciesChecked(image: Image, dependencies: seq<AddressRange>): Result<(), Refusal> {
    if dependencies == [] then Ok(())
    else
      var _ :- Need(Covered(image, dependencies[0]), DependencyNotHeld);
      DependenciesChecked(image, dependencies[1..])
  }

  /** `bytes_match`: does the image hold these bytes; a gap is an error, not a mismatch. */
  ghost function BytesMatch(image: Image, span: Span): Result<bool, Refusal> {
    var range :- span.Range();
    var _ :- Need(Covered(image, range), DependencyNotHeld);
    Ok(Holds(image, span.address, span.bytes))
  }

  ghost function ReadsChecked(image: Image, readSet: seq<ExpectedBytes>): Result<(), Refusal> {
    if readSet == [] then Ok(())
    else
      var same :- BytesMatch(image, readSet[0]);
      var _ :- Need(same, ExpectedBytesChanged);
      ReadsChecked(image, readSet[1..])
  }

  ghost predicate EditKeepsLocks(state: State, edit: ByteEdit) {
    forall a | a in state.locked && a in state.image && edit.Contains(a) :: edit.At(a) == state.image[a]
  }

  ghost predicate EditsAgree(left: ByteEdit, right: ByteEdit) {
    forall a | left.Contains(a) && right.Contains(a) :: left.At(a) == right.At(a)
  }

  ghost function EditsChecked(state: State, edits: seq<ByteEdit>, i: nat): Result<(), Refusal>
    requires i <= |edits|
    decreases |edits| - i
  {
    if i == |edits| then Ok(())
    else
      var range :- edits[i].Range();
      var _ :- Need(Covered(state.originals, range), DependencyNotHeld);
      var _ :- Need(EditKeepsLocks(state, edits[i]), OwnershipConflict);
      var _ :- Need(forall j | 0 <= j < i :: EditsAgree(edits[i], edits[j]), OwnershipConflict);
      EditsChecked(state, edits, i + 1)
  }

  ghost predicate Free(owned: set<int>, range: AddressRange) {
    forall a | range.start <= a < range.end :: a !in owned
  }

  ghost function Allocate(source: set<int>, mapped: set<int>, requests: seq<AddressRange>): Result<set<int>, Refusal>
    decreases |requests|
  {
    if requests == [] then Ok(mapped)
    else
      var _ :- Need(Free(source + mapped, requests[0]), OwnershipConflict);
      Allocate(source, mapped + requests[0].Addresses(), requests[1..])
  }

  /** Locks for routed 0x62 markers: the whole fifteen-byte fetch, read from the finished image. */
  ghost function FetchLocks(image: Image, obligations: seq<EntryObligation>): Result<set<int>, Refusal> {
    if obligations == [] then Ok({})
    else if !obligations[0].Routed? then FetchLocks(image, obligations[1..])
    else
      var original := obligations[0].route.original;
      var marked :- BytesMatch(image, Span(original, [0x62]));
      if !marked then FetchLocks(image, obligations[1..])
      else
        var fetch :- NewRange(original, 15);
        var _ :- Need(Covered(image, fetch), DependencyNotHeld);
        var rest :- FetchLocks(image, obligations[1..]);
        Ok(fetch.Addresses() + rest)
  }

  ghost function Append(state: State, plan: PlanParts): Result<State, Refusal> {
    var _ :- Need(plan.identity == state.identity, StaleGeneration);
    var _ :- CheckEntryObligations(plan);
    var _ :- Need(plan.physicalPc !in state.sites, OwnershipConflict);
    var _ :- DependenciesChecked(state.originals, plan.dependencies);
    var _ :- ReadsChecked(state.image, plan.readSet);
    var edits := Edits(plan);
    var _ :- EditsChecked(state, edits, 0);
    var _ :- Need(Covered(state.originals, OwnedRange(plan)), DependencyNotHeld);
    var mapped :- Allocate(state.originals.Keys, state.mapped, plan.allocations);
    var _ :- GeneratedChecked(plan.generated, 0);
    var image := OverlayAll(state.image, edits);
    var fetched :- FetchLocks(image, plan.obligations);
    Ok(state.(image := image,
              locked := state.locked + OwnedRange(plan).Addresses() + AddressesOf(edits) + fetched,
              mapped := mapped,
              sites := state.sites + {plan.physicalPc}))
  }

  // ---------------------------------------------------------------- what acceptance means

  ghost predicate RouteSatisfied(image: Image, obligation: EntryObligation) {
    obligation.Routed? ==>
      var original := obligation.route.original;
      && original in image && original < 0xffff_ffff_ffff_ffff
      && (image[original] == 0x62 ==>
            original + 15 < 0x1_0000_0000_0000_0000 && Covered(image, Interval(original, original + 15)))
  }

  ghost predicate DependenciesCovered(image: Image, dependencies: seq<AddressRange>) {
    forall k | 0 <= k < |dependencies| :: Covered(image, dependencies[k])
  }

  ghost predicate ReadsHold(image: Image, readSet: seq<ExpectedBytes>) {
    forall k | 0 <= k < |readSet| :: readSet[k].Proper() && Holds(image, readSet[k].address, readSet[k].bytes)
  }

  /** A store inside the source that repeats locked bytes exactly. */
  ghost predicate EditAllowed(state: State, edit: ByteEdit) {
    && edit.Proper()
    && (forall a | edit.Contains(a) :: a in state.originals)
    && EditKeepsLocks(state, edit)
  }

  ghost predicate EditsCompatible(state: State, edits: seq<ByteEdit>) {
    && (forall k | 0 <= k < |edits| :: EditAllowed(state, edits[k]))
    && (forall i, j | 0 <= j < i < |edits| :: EditsAgree(edits[i], edits[j]))
  }

  ghost predicate AllocationsExclusive(state: State, requests: seq<AddressRange>) {
    && (forall k | 0 <= k < |requests| :: Free(state.originals.Keys + state.mapped, requests[k]))
    && (forall i, j | 0 <= j < i < |requests| :: !requests[i].Overlaps(requests[j]))
  }

  ghost predicate RoutesSatisfied(image: Image, obligations: seq<EntryObligation>) {
    forall k | 0 <= k < |obligations| :: RouteSatisfied(image, obligations[k])
  }

  /** A step is accepted under these conditions, none of which mentions an order of checks. */
  ghost predicate Accepts(state: State, plan: PlanParts) {
    && plan.identity == state.identity
    && CheckEntryObligations(plan).Ok?
    && plan.physicalPc !in state.sites
    && DependenciesCovered(state.originals, plan.dependencies)
    && ReadsHold(state.image, plan.readSet)
    && EditsCompatible(state, Edits(plan))
    && Covered(state.originals, OwnedRange(plan))
    && AllocationsExclusive(state, plan.allocations)
    && Consistent(plan.generated)
    && RoutesSatisfied(OverlayAll(state.image, Edits(plan)), plan.obligations)
  }

  lemma {:induction false} DependenciesMeaning(image: Image, dependencies: seq<AddressRange>)
    ensures DependenciesChecked(image, dependencies).Ok? <==> DependenciesCovered(image, dependencies)
  {
    if dependencies != [] {
      DependenciesMeaning(image, dependencies[1..]);
      assert forall k | 0 < k < |dependencies| :: dependencies[k] == dependencies[1..][k - 1];
    }
  }

  lemma {:induction false} ReadsMeaning(image: Image, readSet: seq<ExpectedBytes>)
    ensures ReadsChecked(image, readSet).Ok? <==> ReadsHold(image, readSet)
  {
    if readSet != [] {
      ReadsMeaning(image, readSet[1..]);
      assert forall k | 0 < k < |readSet| :: readSet[k] == readSet[1..][k - 1];
    }
  }

  lemma {:induction false} EditsMeaning(state: State, edits: seq<ByteEdit>, i: nat)
    requires i <= |edits|
    ensures EditsChecked(state, edits, i).Ok? <==>
              && (forall k | i <= k < |edits| :: EditAllowed(state, edits[k]))
              && (forall k, j | i <= k < |edits| && 0 <= j < k :: EditsAgree(edits[k], edits[j]))
    decreases |edits| - i
  {
    if i < |edits| {
      EditsMeaning(state, edits, i + 1);
      assert EditAllowed(state, edits[i]) <==>
             edits[i].Range().Ok? && Covered(state.originals, edits[i].Range().value) && EditKeepsLocks(state, edits[i]);
    }
  }

  lemma {:induction false} AllocateMeaning(source: set<int>, mapped: set<int>, requests: seq<AddressRange>)
    ensures Allocate(source, mapped, requests).Ok? <==>
              && (forall k | 0 <= k < |requests| :: Free(source + mapped, requests[k]))
              && (forall i, j | 0 <= j < i < |requests| :: !requests[i].Overlaps(requests[j]))
    ensures var r := Allocate(source, mapped, requests);
            r.Ok? ==> forall a :: a in r.value <==> a in mapped || exists q | q in requests :: q.Contains(a)
    decreases |requests|
  {
    if requests != [] {
      var first, rest := requests[0], requests[1..];
      var more := mapped + first.Addresses();
      AllocateMeaning(source, more, rest);
      forall k | 0 <= k < |rest| ensures Free(source + more, rest[k]) <==> Free(source + mapped, rest[k]) && !rest[k].Overlaps(first) {
        if rest[k].Overlaps(first) {
          var a := if rest[k].start < first.start then first.start else rest[k].start;
          assert a in more;
        }
      }
      if Allocate(source, mapped, requests).Ok? {
        forall i, j | 0 <= j < i < |requests| ensures !requests[i].Overlaps(requests[j]) {
          assert requests[i] == rest[i - 1];
          if j > 0 {
            assert requests[j] == rest[j - 1];
          }
        }
      }
    }
  }

  lemma MarkerMatch(image: Image, original: U64, marker: byte)
    ensures var r := BytesMatch(image, Span(original, [marker]));
            && (r.Ok? <==> original < 0xffff_ffff_ffff_ffff && original in image)
            && (r.Ok? ==> r.value == (image[original] == marker))
  {
    var span := Span(original, [marker]);
    assert span.Range().Ok? ==> (Covered(image, span.Range().value) <==> original in image);
  }

  lemma OneRoute(image: Image, obligation: EntryObligation)
    ensures FetchLocks(image, [obligation]).Ok? <==> RouteSatisfied(image, obligation)
    ensures FetchLocks(image, [obligation]).Ok? ==> FetchLocks(image, [obligation]).value <= image.Keys
  {
    assert [obligation][1..] == [];
    if obligation.Routed? {
      var original := obligation.route.original;
      MarkerMatch(image, original, 0x62);
      var fetch := NewRange(original, 15);
      if fetch.Ok? {
        assert Covered(image, fetch.value) <==> Covered(image, Interval(original, original + 15));
      }
    }
  }

  lemma {:induction false} FetchLocksMeaning(image: Image, obligations: seq<EntryObligation>)
    ensures FetchLocks(image, obligations).Ok? <==> RoutesSatisfied(image, obligations)
    ensures FetchLocks(image, obligations).Ok? ==> FetchLocks(image, obligations).value <= image.Keys
  {
    if obligations != [] {
      var first, rest := obligations[0], obligations[1..];
      FetchLocksMeaning(image, rest);
      OneRoute(image, first);
      assert [first][1..] == [];
      assert FetchLocks(image, [first]).Ok? && FetchLocks(image, rest).Ok? <==> FetchLocks(image, obligations).Ok?;
      assert forall k | 0 < k < |obligations| :: obligations[k] == rest[k - 1];
      hide RouteSatisfied;
    }
  }

  lemma {:induction false} OverlayAllKeepsDomain(image: Image, edits: seq<Span>)
    ensures OverlayAll(image, edits).Keys == image.Keys
  {
    if edits != [] {
      OverlayAllKeepsDomain(Overlay(image, edits[0]), edits[1..]);
    }
  }

  lemma AllocateMeansExclusive(state: State, requests: seq<AddressRange>)
    ensures Allocate(state.originals.Keys, state.mapped, requests).Ok? <==> AllocationsExclusive(state, requests)
  {
    AllocateMeaning(state.originals.Keys, state.mapped, requests);
  }

  /** The ordered checks accept exactly the steps that meet the unordered conditions. */
  lemma AppendAcceptsExactly(state: State, plan: PlanParts)
    ensures Append(state, plan).Ok? <==> Accepts(state, plan)
  {
    hide Consistent, GeneratedChecked, ReadsHold, DependenciesCovered, AllocationsExclusive, RoutesSatisfied, OverlayAll, Edits;
    DependenciesMeaning(state.originals, plan.dependencies);
    ReadsMeaning(state.image, plan.readSet);
    EditsMeaning(state, Edits(plan), 0);
    AllocateMeansExclusive(state, plan.allocations);
    AcceptsExactlyConsistent(plan.generated);
    FetchLocksMeaning(OverlayAll(state.image, Edits(plan)), plan.obligations);
  }
}
