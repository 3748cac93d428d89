/** Source stores of a bundle: publishing them all, and restoring them in reverse. */
module StoreOrder {
  import opened LittleEndian
  import opened Wrappers
  import opened Contracts
  import opened VirtualImage
  import opened CompositionRuns

  /** One source store with the bytes it replaces, as `SourceStore` keeps them. */
  datatype SourceStore = SourceStore(address: U64, before: seq<byte>, after: seq<byte>, single: bool) {
    function Publish(): Span {
      Span(address, after)
    }

    function Restore(): Span {
      Span(address, before)
    }
  }

  /** The first read that covers the range, if any: `find` over the step's reads. */
  function CoveringBytes(readSet: seq<ExpectedBytes>, range: AddressRange): (r: Option<seq<byte>>)
    ensures r.Some? ==> |r.value| == range.Len()
  {
    if readSet == [] then None
    else
      var read := readSet[0];
      if read.Proper() && read.address <= range.start && range.end <= read.End() then
        Some(read.bytes[range.start - read.address..range.end - read.address])
      else CoveringBytes(readSet[1..], range)
  }

  /** Stores for the edits a step really performs, or the refusal of `source_stores`. */
  function StoresFor(edits: seq<ByteEdit>, readSet: seq<ExpectedBytes>, single: bool): Result<seq<SourceStore>, Refusal> {
    if edits == [] then Ok([])
    else
      var range :- edits[0].Range();
      var before := CoveringBytes(readSet, range);
      var _ :- Need(before.Some?, InvalidPlan);
      var rest :- StoresFor(edits[1..], readSet, single);
      Ok([SourceStore(edits[0].address, before.value, edits[0].bytes, single)] + rest)
  }

  /** A pun is published by its single padded store alone; a relocation by all its writes. */
  function StepStores(plan: PlanParts): Result<seq<SourceStore>, Refusal> {
    if plan.IsPun() then StoresFor([plan.Shape().store], plan.readSet, true)
    else StoresFor(plan.writes, plan.readSet, false)
  }

  function SourceStores(plans: seq<PlanParts>): Result<seq<SourceStore>, Refusal> {
    if plans == [] then Ok([])
    else
      var first :- StepStores(plans[0]);
      var rest :- SourceStores(plans[1..]);
      Ok(first + rest)
  }

  function Published(stores: seq<SourceStore>): (spans: seq<Span>)
    ensures |spans| == |stores|
    ensures forall i | 0 <= i < |stores| :: spans[i] == stores[i].Publish()
  {
    seq(|stores|, i requires 0 <= i < |stores| => stores[i].Publish())
  }

  /** Restoration runs over the stores in reverse. */
  function Restored(stores: seq<SourceStore>): (spans: seq<Span>)
    ensures |spans| == |stores|
    ensures forall i | 0 <= i < |stores| :: spans[i] == stores[|stores| - 1 - i].Restore()
  {
    seq(|stores|, i requires 0 <= i < |stores| => stores[|stores| - 1 - i].Restore())
  }

  // ---------------------------------------------------------------- the stores of checked plans exist

  lemma {:induction false} ReadsOfCheckedPlansAreProper(spans: seq<Span>, held: seq<AddressRange>, k: nat)
    requires SpansHeld(spans, held).Ok? && k < |spans|
    ensures spans[k].Proper()
  {
    if k > 0 {
      ReadsOfCheckedPlansAreProper(spans[1..], held, k - 1);
    }
  }

  /** For proper reads, `find` and the search of `original_bytes` give the same bytes. */
  lemma {:induction false} CoveringIsOriginal(readSet: seq<ExpectedBytes>, range: AddressRange)
    requires forall k | 0 <= k < |readSet| :: readSet[k].Proper()
    ensures CoveringBytes(readSet, range).Some? <==> OriginalBytes(readSet, range).Ok?
    ensures CoveringBytes(readSet, range).Some? ==> CoveringBytes(readSet, range).value == OriginalBytes(readSet, range).value
  {
    if readSet != [] {
      assert forall k | 0 <= k < |readSet| - 1 :: readSet[1..][k] == readSet[k + 1];
      CoveringIsOriginal(readSet[1..], range);
    }
  }

  lemma {:induction false} CoveredReadIsFound(readSet: seq<ExpectedBytes>, range: AddressRange)
    requires SomeReadCovers(readSet, range)
    ensures CoveringBytes(readSet, range).Some?
  {
    if !(readSet[0].Proper() && readSet[0].address <= range.start && range.end <= readSet[0].End()) {
      assert SomeReadCovers(readSet[1..], range);
      CoveredReadIsFound(readSet[1..], range);
    }
  }

  lemma {:induction false} AuthenticatedWritesHaveStores(writes: seq<ByteEdit>, readSet: seq<ExpectedBytes>)
    requires WritesAuthenticated(writes, readSet).Ok?
    ensures StoresFor(writes, readSet, false).Ok?
  {
    if writes != [] {
      CoveredReadIsFound(readSet, writes[0].Range().value);
      AuthenticatedWritesHaveStores(writes[1..], readSet);
    }
  }

  lemma CheckedReadsAreProper(plan: PlanParts)
    requires IsPatchPlan(plan)
    ensures forall k | 0 <= k < |plan.readSet| :: plan.readSet[k].Proper()
  {
    forall k | 0 <= k < |plan.readSet| ensures plan.readSet[k].Proper() {
      assert (plan.readSet + plan.writes)[k] == plan.readSet[k];
      ReadsOfCheckedPlansAreProper(plan.readSet + plan.writes, plan.dependencies, k);
    }
    hide CheckPun, WritesAuthenticated, ImagesAllocated, SpansHeld;
  }

  lemma PunHasItsStore(plan: PlanParts)
    requires PunAccepted(plan) && forall k | 0 <= k < |plan.readSet| :: plan.readSet[k].Proper()
    ensures StoresFor([plan.Shape().store], plan.readSet, true).Ok?
  {
    hide CheckPun, OriginalBytes, CoveringBytes;
    PunStoreBytes(plan);
    CoveringIsOriginal(plan.readSet, plan.Shape().store.Range().value);
    assert [plan.Shape().store][1..] == [];
    assert StoresFor([], plan.readSet, true).Ok?;
  }

  /** `source_stores` never reaches its refusals on plans that passed the check. */
  lemma CheckedPlansHaveStores(plan: PlanParts)
    requires IsPatchPlan(plan)
    ensures StepStores(plan).Ok?
  {
    if plan.IsPun() {
      CheckedReadsAreProper(plan);
      CheckedPunAccepted(plan);
      PunHasItsStore(plan);
    } else {
      AuthenticatedWritesHaveStores(plan.writes, plan.readSet);
    }
    hide StoresFor, WritesAuthenticated, CheckPun, SpansHeld, ImagesAllocated;
  }

  lemma {:induction false} CheckedRunsHaveStores(plans: seq<PlanParts>)
    requires forall i | 0 <= i < |plans| :: IsPatchPlan(plans[i])
    ensures SourceStores(plans).Ok?
  {
    if plans != [] {
      CheckedPlansHaveStores(plans[0]);
      CheckedRunsHaveStores(plans[1..]);
      hide IsPatchPlan, StepStores;
    }
  }

  // ---------------------------------------------------------------- one step forward and back

  lemma {:induction false} StoresForMatchEdits(image: Image, edits: seq<ByteEdit>, readSet: seq<ExpectedBytes>, single: bool)
    requires StoresFor(edits, readSet, single).Ok? && ReadsHold(image, readSet)
    ensures var stores := StoresFor(edits, readSet, single).value;
            && |stores| == |edits|
            && (forall k | 0 <= k < |stores| ::
                  && stores[k].Publish() == edits[k]
                  && stores[k].single == single
                  && |stores[k].before| == |edits[k].bytes|
                  && Holds(image, stores[k].address, stores[k].before))
  {
    if edits != [] {
      CoveringHolds(image, readSet, edits[0].Range().value);
      StoresForMatchEdits(image, edits[1..], readSet, single);
      hide CoveringBytes, Holds;
    }
  }

  lemma {:induction false} CoveringHolds(image: Image, readSet: seq<ExpectedBytes>, range: AddressRange)
    requires CoveringBytes(readSet, range).Some? && ReadsHold(image, readSet)
    ensures Holds(image, range.start, CoveringBytes(readSet, range).value)
  {
    var read := readSet[0];
    assert readSet[0].Proper() && Holds(image, read.address, read.bytes);
    if !(read.address <= range.start && range.end <= read.End()) {
      assert forall k | 0 <= k < |readSet| - 1 :: readSet[1..][k] == readSet[k + 1];
      CoveringHolds(image, readSet[1..], range);
    }
  }

  lemma StoreCoversWrite(image: Image, written: Span, store: Span)
    requires store.address <= written.address && written.End() <= store.End()
    ensures Overlay(Overlay(image, written), store) == Overlay(image, store)
  {
  }

  /** What a step's stores are, relative to the image the step was accepted on. */
  lemma StoresOfStep(before: State, plan: PlanParts)
    requires Append(before, plan).Ok? && IsPatchPlan(plan)
    ensures StepStores(plan).Ok?
    ensures var stores := StepStores(plan).value;
            && (forall k | 0 <= k < |stores| ::
                  && |stores[k].before| == |stores[k].after|
                  && Holds(before.image, stores[k].address, stores[k].before))
            && OverlayAll(before.image, Published(stores)) == Append(before, plan).value.image
            && (forall e, a | e in Edits(plan) && e.Contains(a) ::
                  exists k | 0 <= k < |stores| :: stores[k].Publish().Contains(a))
  {
    hide Append, IsPatchPlan, Holds, Accepts;
    CheckedPlansHaveStores(plan);
    StepIsAccepted(before, plan);
    if plan.IsPun() {
      CheckedPunAccepted(plan);
      PunEdits(plan);
      var written, store := plan.writes[0], plan.Shape().store;
      StoresForMatchEdits(before.image, [store], plan.readSet, true);
      var stores := StepStores(plan).value;
      assert Published(stores) == [store];
      StoreCoversWrite(before.image, written, store);
      TwoStores(before.image, written, store);
      hide PunAccepted, StoresFor;
      forall e, a | e in Edits(plan) && e.Contains(a) ensures exists k | 0 <= k < |stores| :: stores[k].Publish().Contains(a) {
        assert stores[0].Publish().Contains(a);
      }
    } else {
      StoresForMatchEdits(before.image, plan.writes, plan.readSet, false);
      var stores := StepStores(plan).value;
      assert Published(stores) == plan.writes;
      hide StoresFor;
      forall e, a | e in Edits(plan) && e.Contains(a) ensures exists k | 0 <= k < |stores| :: stores[k].Publish().Contains(a) {
        var k :| 0 <= k < |plan.writes| && plan.writes[k] == e;
        assert stores[k].Publish().Contains(a);
      }
    }
  }

  lemma TwoStores(image: Image, first: Span, second: Span)
    ensures OverlayAll(image, [first, second]) == Overlay(Overlay(image, first), second)
    ensures OverlayAll(image, [second]) == Overlay(image, second)
  {
    assert [first, second][1..] == [second] && [second][1..] == [];
    var middle := Overlay(image, first);
    assert OverlayAll(middle, [second]) == OverlayAll(Overlay(middle, second), []);
    assert OverlayAll(image, [second]) == OverlayAll(Overlay(image, second), []);
  }

  /** Restoring one step's stores in reverse gives back the image the step was accepted on. */
  lemma RestoringOneStep(before: State, plan: PlanParts)
    requires Append(before, plan).Ok? && IsPatchPlan(plan)
    ensures StepStores(plan).Ok?
    ensures OverlayAll(Append(before, plan).value.image, Restored(StepStores(plan).value)) == before.image
  {
    hide Append, IsPatchPlan, Accepts, StepStores, OverlayAll;
    StoresOfStep(before, plan);
    StepIsAccepted(before, plan);
    var stores, after := StepStores(plan).value, Append(before, plan).value;
    var n := |stores|;
    OverlayAllKeepsDomain(before.image, Edits(plan));
    forall a | a in before.image && (forall k | 0 <= k < n :: !Restored(stores)[k].Contains(a))
      ensures after.image[a] == before.image[a]
    {
      forall k | 0 <= k < n ensures !stores[k].Publish().Contains(a) {
        assert Restored(stores)[n - 1 - k] == stores[k].Restore();
      }
      OverlayUntouched(before.image, Edits(plan), a);
    }
    OverlayOfTruth(after.image, before.image, Restored(stores));
  }

  // ---------------------------------------------------------------- whole bundles forward and back

  lemma {:induction false} SourceStoresOfLast(plans: seq<PlanParts>)
    requires plans != [] && SourceStores(plans).Ok?
    ensures var n := |plans| - 1;
            && SourceStores(plans[..n]).Ok? && StepStores(plans[n]).Ok?
            && SourceStores(plans).value == SourceStores(plans[..n]).value + StepStores(plans[n]).value
  {
    hide StepStores;
    var n := |plans| - 1;
    if n == 0 {
      assert plans[1..] == [] && plans[..0] == [];
    } else {
      SourceStoresOfLast(plans[1..]);
      assert plans[1..][..n - 1] == plans[..n][1..];
    }
  }

  lemma StoresSplit(first: seq<SourceStore>, second: seq<SourceStore>)
    ensures Published(first + second) == Published(first) + Published(second)
    ensures Restored(first + second) == Restored(second) + Restored(first)
  {
  }

  /** Writing every store of an accepted run turns the originals into exactly the composed image. */
  lemma {:induction false} PublishingGivesFinalBytes(start: State, plans: seq<PlanParts>)
    requires Run(start, plans).Ok? && forall i | 0 <= i < |plans| :: IsPatchPlan(plans[i])
    ensures SourceStores(plans).Ok?
    ensures OverlayAll(start.image, Published(SourceStores(plans).value)) == Run(start, plans).value.image
    decreases |plans|
  {
    CheckedRunsHaveStores(plans);
    if plans != [] {
      var n := |plans| - 1;
      var before := Run(start, plans[..n]).value;
      PublishingGivesFinalBytes(start, plans[..n]);
      SourceStoresOfLast(plans);
      var earlier, last := SourceStores(plans[..n]).value, StepStores(plans[n]).value;
      StoresSplit(earlier, last);
      OverlayAllConcat(start.image, Published(earlier), Published(last));
      StoresOfStep(before, plans[n]);
      hide Append, IsPatchPlan, StepStores, SourceStores, Published;
    }
  }

  /** Restoring every store in reverse order gives back exactly the originals, overlaps included. */
  lemma {:induction false} RetiringGivesOriginals(start: State, plans: seq<PlanParts>)
    requires Run(start, plans).Ok? && forall i | 0 <= i < |plans| :: IsPatchPlan(plans[i])
    ensures SourceStores(plans).Ok?
    ensures OverlayAll(Run(start, plans).value.image, Restored(SourceStores(plans).value)) == start.image
    decreases |plans|
  {
    CheckedRunsHaveStores(plans);
    if plans != [] {
      var n := |plans| - 1;
      var before, after := Run(start, plans[..n]).value, Run(start, plans).value;
      RetiringGivesOriginals(start, plans[..n]);
      SourceStoresOfLast(plans);
      var earlier, last := SourceStores(plans[..n]).value, StepStores(plans[n]).value;
      StoresSplit(earlier, last);
      OverlayAllConcat(after.image, Restored(last), Restored(earlier));
      RestoringOneStep(before, plans[n]);
      hide Append, IsPatchPlan, StepStores, SourceStores, Restored;
    }
  }
}
