/** Whole-run properties of composition: what every accepted step keeps, for any number of steps. */
module CompositionRuns {
  import opened LittleEndian
  import opened Wrappers
  import opened Contracts
  import opened GeneratedImages
  import opened VirtualImage

  // ---------------------------------------------------------------- overlays, byte by byte

  lemma {:induction false} OverlayUntouched(image: Image, edits: seq<Span>, a: int)
    requires a in image && forall k | 0 <= k < |edits| :: !edits[k].Contains(a)
    ensures a in OverlayAll(image, edits) && OverlayAll(image, edits)[a] == image[a]
  {
    if edits != [] {
      assert !edits[0].Contains(a);
      OverlayUntouched(Overlay(image, edits[0]), edits[1..], a);
    }
  }

  lemma {:induction false} OverlayGives(image: Image, edits: seq<Span>, k: nat, a: int)
    requires k < |edits| && edits[k].Contains(a) && a in image
    requires forall i, j | 0 <= j < i < |edits| :: EditsAgree(edits[i], edits[j])
    ensures a in OverlayAll(image, edits) && OverlayAll(image, edits)[a] == edits[k].At(a)
  {
    var first, rest := edits[0], edits[1..];
    var stored := Overlay(image, first);
    assert forall i | 0 <= i < |rest| :: rest[i] == edits[i + 1];
    if k > 0 {
      OverlayGives(stored, rest, k - 1, a);
    } else if later :| 0 <= later < |rest| && rest[later].Contains(a) {
      OverlayGives(stored, rest, later, a);
      assert EditsAgree(edits[later + 1], edits[0]);
    } else {
      OverlayUntouched(stored, rest, a);
    }
  }

  lemma {:induction false} OverlayAllConcat(image: Image, first: seq<Span>, second: seq<Span>)
    ensures OverlayAll(image, first + second) == OverlayAll(OverlayAll(image, first), second)
  {
    if first == [] {
      assert first + second == second;
    } else {
      assert (first + second)[1..] == first[1..] + second;
      OverlayAllConcat(Overlay(image, first[0]), first[1..], second);
    }
  }

  /** Two images that differ only where some span is about to be written. */
  ghost predicate DiffersOnlyIn(changed: Image, image: Image, spans: seq<Span>) {
    && changed.Keys == image.Keys
    && forall a | a in image && (forall k | 0 <= k < |spans| :: !spans[k].Contains(a)) :: changed[a] == image[a]
  }

  /** Writing true bytes back over every difference gives the true image, in any order of spans. */
  lemma {:induction false} OverlayOfTruth(changed: Image, image: Image, spans: seq<Span>)
    requires DiffersOnlyIn(changed, image, spans)
    requires forall k | 0 <= k < |spans| :: Holds(image, spans[k].address, spans[k].bytes)
    ensures OverlayAll(changed, spans) == image
  {
    if spans == [] {
      forall a | a in image ensures changed[a] == image[a] {}
    } else {
      var first, rest := spans[0], spans[1..];
      var next := Overlay(changed, first);
      forall a | a in image && (forall k | 0 <= k < |rest| :: !rest[k].Contains(a)) ensures next[a] == image[a] {
        if !first.Contains(a) {
          assert forall k | 0 < k < |spans| :: spans[k] == rest[k - 1];
        }
      }
      OverlayOfTruth(next, image, rest);
    }
  }

  // ---------------------------------------------------------------- facts about one checked plan

  lemma CheckedPunAccepted(plan: PlanParts)
    requires IsPatchPlan(plan) && plan.IsPun()
    ensures PunAccepted(plan)
  {
    hide CheckPun, SpansHeld, WritesAuthenticated, ImagesAllocated;
  }

  /** Bytes taken from the reads are bytes of any image the reads hold in. */
  lemma {:induction false} OriginalBytesHold(image: Image, readSet: seq<ExpectedBytes>, range: AddressRange)
    requires ReadsHold(image, readSet)
    requires OriginalBytes(readSet, range).Ok?
    ensures Holds(image, range.start, OriginalBytes(readSet, range).value)
  {
    var read := readSet[0];
    if read.Range().value.Covers(range) {
      var bytes := OriginalBytes(readSet, range).value;
      forall a | range.start <= a < range.end ensures a in image && image[a] == bytes[a - range.start] {
        assert read.address <= a < read.address + |read.bytes|;
      }
    } else {
      assert forall k | 0 <= k < |readSet| - 1 :: readSet[1..][k] == readSet[k + 1];
      OriginalBytesHold(image, readSet[1..], range);
    }
  }

  lemma PunEdits(plan: PlanParts)
    requires PunAccepted(plan)
    ensures Edits(plan) == [plan.writes[0], plan.Shape().store]
    ensures |plan.writes| == 1 && plan.writes[0].address == plan.displaced.start == plan.physicalPc == plan.Shape().consumed.start
    ensures |plan.writes[0].bytes| == plan.displaced.Len() == plan.Width() <= 4
    ensures plan.Shape().store.Proper()
    ensures plan.Shape().store.address <= plan.displaced.start && plan.displaced.end <= plan.Shape().store.End()
    ensures plan.Shape().consumed.Len() == 5 + plan.Prefixes()
    ensures OwnedRange(plan) == plan.Shape().consumed
    ensures |plan.generated| == 1
  {
  }

  /** The one native store repeats the original bytes on both sides of the written instruction. */
  lemma PunStoreBytes(plan: PlanParts)
    requires PunAccepted(plan)
    ensures var store := plan.Shape().store;
            && |plan.writes| == 1 && store.Range().Ok?
            && OriginalBytes(plan.readSet, store.Range().value).Ok?
            && store.Range().value.start == store.address
            && var written, padded := plan.writes[0], OriginalBytes(plan.readSet, store.Range().value).value;
               && |padded| == |store.bytes|
               && forall a | store.Contains(a) ::
                    store.At(a) == if written.Contains(a) then written.At(a) else padded[a - store.address]
  {
    hide CheckPunWindow, OriginalBytes, PunTarget, Pow256;
    PunEdits(plan);
  }

  // ---------------------------------------------------------------- what one step keeps

  lemma StepIsAccepted(state: State, plan: PlanParts)
    requires Append(state, plan).Ok?
    ensures Accepts(state, plan) && ReadsHold(state.image, plan.readSet)
    ensures var next := Append(state, plan).value;
            && next.identity == state.identity
            && next.originals == state.originals
            && next.image == OverlayAll(state.image, Edits(plan))
            && state.locked <= next.locked
            && OwnedRange(plan).Addresses() <= next.locked
            && AddressesOf(Edits(plan)) <= next.locked
            && plan.physicalPc !in state.sites && next.sites == state.sites + {plan.physicalPc}
  {
    AppendAcceptsExactly(state, plan);
    assert ReadsHold(state.image, plan.readSet);
    hide Accepts, DependenciesChecked, ReadsChecked, EditsChecked, Allocate, GeneratedChecked, FetchLocks, OverlayAll, Edits, AddressesOf, OwnedRange;
  }

  /** Valid states stay valid; locks only grow; a locked byte keeps its value. */
  lemma StepKeepsLocks(state: State, plan: PlanParts)
    requires state.Valid() && Append(state, plan).Ok?
    ensures var next := Append(state, plan).value;
            && next.Valid()
            && state.locked <= next.locked
            && (forall a | a in state.locked :: next.image[a] == state.image[a])
  {
    var next := Append(state, plan).value;
    var edits := Edits(plan);
    StepIsAccepted(state, plan);
    OverlayAllKeepsDomain(state.image, edits);
    FetchLocksMeaning(next.image, plan.obligations);
    LocksStayInside(state, plan);
    forall a | a in state.locked ensures next.image[a] == state.image[a] {
      if k :| 0 <= k < |edits| && edits[k].Contains(a) {
        OverlayGives(state.image, edits, k, a);
        assert EditAllowed(state, edits[k]);
      } else {
        OverlayUntouched(state.image, edits, a);
      }
    }
    hide Append;
  }

  lemma LocksStayInside(state: State, plan: PlanParts)
    requires state.Valid() && Append(state, plan).Ok?
    ensures Append(state, plan).value.locked <= state.image.Keys
  {
    var next := Append(state, plan).value;
    var edits := Edits(plan);
    StepIsAccepted(state, plan);
    OverlayAllKeepsDomain(state.image, edits);
    FetchLocksMeaning(next.image, plan.obligations);
    forall a | a in AddressesOf(edits) ensures a in state.image {
      var e :| e in edits && e.Contains(a);
      var k :| 0 <= k < |edits| && edits[k] == e;
      assert EditAllowed(state, edits[k]);
    }
    assert OwnedRange(plan).Addresses() <= state.image.Keys;
    hide DependenciesChecked, ReadsChecked, EditsChecked, Allocate, GeneratedChecked, FetchLocks, OverlayAll, Edits, AddressesOf, OwnedRange, Accepts;
  }

  /** Right after a step the image holds every one of its stores, and each stored byte is locked. */
  lemma StepStoresItsEdits(state: State, plan: PlanParts, k: nat)
    requires state.Valid() && Append(state, plan).Ok? && k < |Edits(plan)|
    ensures var next, edit := Append(state, plan).value, Edits(plan)[k];
            && Holds(next.image, edit.address, edit.bytes)
            && forall a | edit.Contains(a) :: a in next.locked
  {
    var next, edits := Append(state, plan).value, Edits(plan);
    StepIsAccepted(state, plan);
    assert EditAllowed(state, edits[k]);
    forall a | edits[k].Contains(a)
      ensures a in next.image && next.image[a] == edits[k].At(a) && a in next.locked
    {
      OverlayGives(state.image, edits, k, a);
      assert edits[k] in edits && a in AddressesOf(edits);
    }
    hide Append;
  }

  /** The instruction's bytes and then its padded store: the consumed range ends up written ++ successors. */
  lemma PunOverlay(image: Image, written: Span, store: Span, original: seq<byte>, padded: seq<byte>)
    requires |written.bytes| <= |original| && |padded| == |store.bytes|
    requires Holds(image, written.address, original) && Holds(image, store.address, padded)
    requires forall a | store.Contains(a) ::
               store.At(a) == if written.Contains(a) then written.At(a) else padded[a - store.address]
    ensures Holds(OverlayAll(image, [written, store]), written.address, written.bytes + original[|written.bytes|..])
  {
    var after := OverlayAll(image, [written, store]);
    var middle := Overlay(image, written);
    assert [written, store][1..] == [store] && [store][1..] == [];
    assert OverlayAll(middle, [store]) == OverlayAll(Overlay(middle, store), []);
    assert after == Overlay(middle, store);
  }

  lemma SuccessorsComeFromReads(plan: PlanParts)
    requires PunAccepted(plan)
    ensures |plan.writes| == 1 && OriginalBytes(plan.readSet, plan.Shape().consumed).Ok?
    ensures var original := OriginalBytes(plan.readSet, plan.Shape().consumed).value;
            && |plan.writes[0].bytes| <= |original|
            && PunBytes(plan) == plan.writes[0].bytes + original[|plan.writes[0].bytes|..]
  {
  }

  /** Right after a pun its consumed range holds exactly the encoding the check validated, all locked. */
  lemma StepWritesThePun(state: State, plan: PlanParts)
    requires state.Valid() && Append(state, plan).Ok? && PunAccepted(plan)
    ensures var next := Append(state, plan).value;
            && Holds(next.image, plan.physicalPc, PunBytes(plan))
            && forall a | plan.Shape().consumed.Contains(a) :: a in next.locked
  {
    hide Append, Accepts, CheckPun, CheckPunEncoding, CheckPunStore, CheckPunWindow, OriginalBytes, OverlayAll, Edits,
         PunBytes, SuccessorBytes, OwnedRange, ReadsHold;
    StepIsAccepted(state, plan);
    PunEdits(plan);
    SuccessorsComeFromReads(plan);
    PunStoreBytes(plan);
    var store := plan.Shape().store;
    var original := OriginalBytes(plan.readSet, plan.Shape().consumed).value;
    var padded := OriginalBytes(plan.readSet, store.Range().value).value;
    OriginalBytesHold(state.image, plan.readSet, plan.Shape().consumed);
    OriginalBytesHold(state.image, plan.readSet, store.Range().value);
    PunOverlay(state.image, plan.writes[0], store, original, padded);
  }

  // ---------------------------------------------------------------- whole runs

  /** Appending plans in caller order; the first refusal ends the run. */
  ghost function Run(start: State, plans: seq<PlanParts>): Result<State, Refusal> {
    if plans == [] then Ok(start)
    else
      var before :- Run(start, plans[..|plans| - 1]);
      Append(before, plans[|plans| - 1])
  }

  /** Every prefix of an accepted run was accepted, and its locked bytes never changed afterwards. */
  lemma {:induction false} RunKeepsLocks(start: State, plans: seq<PlanParts>, i: nat)
    requires start.Valid() && Run(start, plans).Ok? && i <= |plans|
    ensures Run(start, plans[..i]).Ok?
    ensures var early, late := Run(start, plans[..i]).value, Run(start, plans).value;
            && early.Valid() && late.Valid()
            && early.originals == late.originals == start.originals
            && early.locked <= late.locked
            && (forall a | a in early.locked :: late.image[a] == early.image[a])
    decreases |plans|
  {
    if i == |plans| {
      assert plans[..i] == plans;
      if plans != [] {
        RunKeepsLocks(start, plans[..|plans| - 1], |plans| - 1);
        assert plans[..|plans| - 1][..|plans| - 1] == plans[..|plans| - 1];
        LastStep(start, plans);
      }
    } else {
      assert plans[..|plans| - 1][..i] == plans[..i];
      RunKeepsLocks(start, plans[..|plans| - 1], i);
      LastStep(start, plans);
    }
  }

  lemma LastStep(start: State, plans: seq<PlanParts>)
    requires plans != [] && Run(start, plans).Ok?
    ensures Run(start, plans[..|plans| - 1]).Ok?
    ensures var before, after := Run(start, plans[..|plans| - 1]).value, Run(start, plans).value;
            before.Valid() ==>
              && after.Valid() && after.originals == before.originals && before.locked <= after.locked
              && (forall a | a in before.locked :: after.image[a] == before.image[a])
  {
    var before, last := Run(start, plans[..|plans| - 1]).value, plans[|plans| - 1];
    if before.Valid() {
      StepKeepsLocks(before, last);
      StepIsAccepted(before, last);
    }
    hide Append;
  }

  /** Every pun ever accepted still decodes in the current bytes to its own generated image. */
  lemma EveryPunStillLands(start: State, plans: seq<PlanParts>, i: nat)
    requires start.Valid() && Run(start, plans).Ok?
    requires i < |plans| && IsPatchPlan(plans[i]) && plans[i].IsPun()
    ensures |plans[i].generated| == 1
    ensures Lands(Run(start, plans).value.image, plans[i].physicalPc, plans[i].generated[0].image.address)
  {
    hide Append, Checked, CheckPun, PunBytes, Lands, Run;
    CheckedPunAccepted(plans[i]);
    var before, after := StepOf(start, plans, i);
    StepWritesThePun(before, plans[i]);
    RunKeepsLocks(start, plans, i + 1);
    PunEdits(plans[i]);
    var final := Run(start, plans).value;
    assert Holds(final.image, plans[i].physicalPc, PunBytes(plans[i])) by {
      hide PunAccepted;
    }
    AcceptedPunLands(plans[i], final.image);
  }

  /** The states around step i of an accepted run. */
  lemma StepOf(start: State, plans: seq<PlanParts>, i: nat) returns (before: State, after: State)
    requires start.Valid() && Run(start, plans).Ok? && i < |plans|
    ensures Run(start, plans[..i]) == Ok(before) && Run(start, plans[..i + 1]) == Ok(after)
    ensures before.Valid() && Append(before, plans[i]) == Ok(after)
  {
    RunKeepsLocks(start, plans, i);
    RunKeepsLocks(start, plans, i + 1);
    assert plans[..i + 1][..i] == plans[..i];
    before, after := Run(start, plans[..i]).value, Run(start, plans[..i + 1]).value;
  }

  /** Every byte ever stored by an accepted step is still there at the end. */
  lemma EveryStoreSurvives(start: State, plans: seq<PlanParts>, i: nat, k: nat)
    requires start.Valid() && Run(start, plans).Ok? && i < |plans| && k < |Edits(plans[i])|
    ensures var edit := Edits(plans[i])[k]; Holds(Run(start, plans).value.image, edit.address, edit.bytes)
  {
    hide Append, Edits, Run;
    var before, after := StepOf(start, plans, i);
    StepStoresItsEdits(before, plans[i], k);
    RunKeepsLocks(start, plans, i + 1);
  }

  /** A step maps only addresses that neither the source nor an earlier step holds, and keeps them. */
  lemma StepMapsExclusively(state: State, plan: PlanParts)
    requires Append(state, plan).Ok?
    ensures AllocationsExclusive(state, plan.allocations)
    ensures forall a :: a in Append(state, plan).value.mapped <==>
                        a in state.mapped || exists q | q in plan.allocations :: q.Contains(a)
  {
    AllocateMeaning(state.originals.Keys, state.mapped, plan.allocations);
    AllocateMeansExclusive(state, plan.allocations);
    hide AllocationsExclusive, Allocate, DependenciesChecked, ReadsChecked, EditsChecked, GeneratedChecked, FetchLocks,
         OverlayAll, Edits, AddressesOf, OwnedRange;
  }

  /** Whether two steps map disjoint ranges. */
  ghost predicate MapApart(left: PlanParts, right: PlanParts) {
    forall i, j | 0 <= i < |left.allocations| && 0 <= j < |right.allocations| ::
      !left.allocations[i].Overlaps(right.allocations[j])
  }

  /** A run remembers every site it took and every address it mapped. */
  lemma {:induction false} RunRecords(start: State, plans: seq<PlanParts>, i: nat)
    requires Run(start, plans).Ok? && i < |plans|
    ensures plans[i].physicalPc in Run(start, plans).value.sites
    ensures forall q | q in plans[i].allocations :: q.Addresses() <= Run(start, plans).value.mapped
    decreases |plans|
  {
    hide Append, Accepts, OverlayAll, AddressesOf, AllocationsExclusive;
    var n := |plans| - 1;
    var before := Run(start, plans[..n]).value;
    StepIsAccepted(before, plans[n]);
    StepMapsExclusively(before, plans[n]);
    if i < n {
      RunRecords(start, plans[..n], i);
    }
  }

  /** No run takes a site twice, and no two steps map a common address. */
  lemma SitesAndMappingsAreExclusive(start: State, plans: seq<PlanParts>, i: nat, j: nat)
    requires start.Valid() && Run(start, plans).Ok? && j < i < |plans|
    ensures plans[i].physicalPc != plans[j].physicalPc && MapApart(plans[i], plans[j])
    ensures forall k | 0 <= k < |plans[i].allocations| :: Free(start.originals.Keys, plans[i].allocations[k])
  {
    hide Append, Run, MapApart, Accepts, OverlayAll, AddressesOf;
    var before, after := StepOf(start, plans, i);
    RunKeepsLocks(start, plans, i);
    RunRecords(start, plans[..i], j);
    StepIsAccepted(before, plans[i]);
    StepMapsExclusively(before, plans[i]);
    MappedBeforeIsApart(before, plans[i], plans[j]);
  }

  lemma MappedBeforeIsApart(before: State, plan: PlanParts, earlier: PlanParts)
    requires AllocationsExclusive(before, plan.allocations)
    requires forall q | q in earlier.allocations :: q.Addresses() <= before.mapped
    ensures MapApart(plan, earlier)
  {
    forall i, j | 0 <= i < |plan.allocations| && 0 <= j < |earlier.allocations|
      ensures !plan.allocations[i].Overlaps(earlier.allocations[j])
    {
      var r, q := plan.allocations[i], earlier.allocations[j];
      assert Free(before.originals.Keys + before.mapped, r);
      assert r.Overlaps(q) ==> (if r.start < q.start then q.start else r.start) in q.Addresses();
    }
  }
}
