/** Resolving a bundle's source stores to aliases: `source_stores` of src/bundle.rs. */
module Placement {
  import opened LittleEndian
  import opened Wrappers
  import opened Contracts
  import opened VirtualImage
  import opened CompositionRuns
  import opened StoreOrder
  import opened Aliases

  /** Where one edit goes: a covering alias, equal cache-line offsets for single stores, a covering read. */
  function PlaceEdit(edit: ByteEdit, readSet: seq<ExpectedBytes>, single: bool, aliases: seq<WritableAlias>)
    : (r: Result<PlacedStore, Refusal>)
  {
    var range :- edit.Range();
    var found := FindAlias(aliases, range);
    var _ :- Need(found.Some?, InvalidRange);
    var alias := aliases[found.value];
    var offset := range.start - alias.range.start;
    var _ :- Need(!single || (alias.pointer + offset) % 64 == edit.address % 64, InvalidRange);
    var before := CoveringBytes(readSet, range);
    var _ :- Need(before.Some?, InvalidPlan);
    Ok(PlacedStore(SourceStore(edit.address, before.value, edit.bytes, single), found.value, offset))
  }

  function PlaceEdits(edits: seq<ByteEdit>, readSet: seq<ExpectedBytes>, single: bool, aliases: seq<WritableAlias>)
    : Result<seq<PlacedStore>, Refusal>
  {
    if edits == [] then Ok([])
    else
      var first :- PlaceEdit(edits[0], readSet, single, aliases);
      var rest :- PlaceEdits(edits[1..], readSet, single, aliases);
      Ok([first] + rest)
  }

  function PlaceStep(plan: PlanParts, aliases: seq<WritableAlias>): Result<seq<PlacedStore>, Refusal> {
    if plan.IsPun() then PlaceEdits([plan.Shape().store], plan.readSet, true, aliases)
    else PlaceEdits(plan.writes, plan.readSet, false, aliases)
  }

  function PlaceSteps(plans: seq<PlanParts>, aliases: seq<WritableAlias>): Result<seq<PlacedStore>, Refusal> {
    if plans == [] then Ok([])
    else
      var first :- PlaceStep(plans[0], aliases);
      var rest :- PlaceSteps(plans[1..], aliases);
      Ok(first + rest)
  }

  /** The stores without their places. */
  function Stores(placed: seq<PlacedStore>): (stores: seq<SourceStore>)
    ensures |stores| == |placed| && forall i | 0 <= i < |placed| :: stores[i] == placed[i].store
  {
    seq(|placed|, i requires 0 <= i < |placed| => placed[i].store)
  }

  lemma {:induction false} PlacedEditsAreStores(
    edits: seq<ByteEdit>, readSet: seq<ExpectedBytes>, single: bool, aliases: seq<WritableAlias>)
    requires StoresFor(edits, readSet, single).Ok?
    ensures PlaceEdits(edits, readSet, single, aliases).Err? ==>
              PlaceEdits(edits, readSet, single, aliases).error == InvalidRange
    ensures PlaceEdits(edits, readSet, single, aliases).Ok? ==>
              var placed := PlaceEdits(edits, readSet, single, aliases).value;
              && Stores(placed) == StoresFor(edits, readSet, single).value
              && forall i | 0 <= i < |placed| :: Placed(aliases, placed[i])
  {
    hide CoveringBytes, FindAlias;
    if edits != [] {
      PlacedEditsAreStores(edits[1..], readSet, single, aliases);
    }
  }

  /** Placing checked plans can fail only for want of a suitable alias, and yields exactly their stores. */
  lemma {:induction false} PlacedStepsAreStores(plans: seq<PlanParts>, aliases: seq<WritableAlias>)
    requires forall i | 0 <= i < |plans| :: IsPatchPlan(plans[i])
    ensures PlaceSteps(plans, aliases).Err? ==> PlaceSteps(plans, aliases).error == InvalidRange
    ensures SourceStores(plans).Ok?
    ensures PlaceSteps(plans, aliases).Ok? ==>
              var placed := PlaceSteps(plans, aliases).value;
              && Stores(placed) == SourceStores(plans).value
              && forall i | 0 <= i < |placed| :: Placed(aliases, placed[i])
  {
    hide IsPatchPlan, StoresFor, PlaceEdits, Placed;
    if plans != [] {
      var plan := plans[0];
      CheckedPlansHaveStores(plan);
      PlacedStepsAreStores(plans[1..], aliases);
      if plan.IsPun() {
        PlacedEditsAreStores([plan.Shape().store], plan.readSet, true, aliases);
      } else {
        PlacedEditsAreStores(plan.writes, plan.readSet, false, aliases);
      }
    }
  }

  function Prepend(made: seq<PlacedStore>, rest: Result<seq<PlacedStore>, Refusal>): Result<seq<PlacedStore>, Refusal> {
    if rest.Ok? then Ok(made + rest.value) else rest
  }

  lemma PrependMore(made: seq<PlacedStore>, first: seq<PlacedStore>, rest: Result<seq<PlacedStore>, Refusal>)
    ensures Prepend(made + first, rest) == Prepend(made, Prepend(first, rest))
    ensures Prepend([], rest) == rest
    ensures Prepend(made, Ok([])) == Ok(made)
  {
    assert made + [] == made;
    if rest.Ok? {
      assert (made + first) + rest.value == made + (first + rest.value);
      assert [] + rest.value == rest.value;
    }
  }

  method PlaceAllEdits(edits: seq<ByteEdit>, readSet: seq<ExpectedBytes>, single: bool, aliases: seq<WritableAlias>)
    returns (r: Result<seq<PlacedStore>, Refusal>)
    ensures r == PlaceEdits(edits, readSet, single, aliases)
  {
    hide PlaceEdit;
    var made: seq<PlacedStore> := [];
    PrependMore([], [], PlaceEdits(edits, readSet, single, aliases));
    for k := 0 to |edits|
      invariant PlaceEdits(edits, readSet, single, aliases)
                == Prepend(made, PlaceEdits(edits[k..], readSet, single, aliases))
    {
      assert edits[k..][1..] == edits[k + 1..];
      var one := PlaceEdit(edits[k], readSet, single, aliases);
      if one.Err? {
        return Err(one.error);
      }
      PrependMore(made, [one.value], PlaceEdits(edits[k + 1..], readSet, single, aliases));
      made := made + [one.value];
    }
    PrependMore(made, [], Ok([]));
    return Ok(made);
  }

  method PlaceAllSteps(plans: seq<PlanParts>, aliases: seq<WritableAlias>) returns (r: Result<seq<PlacedStore>, Refusal>)
    ensures r == PlaceSteps(plans, aliases)
  {
    hide PlaceEdits;
    var made: seq<PlacedStore> := [];
    PrependMore([], [], PlaceSteps(plans, aliases));
    for k := 0 to |plans|
      invariant PlaceSteps(plans, aliases) == Prepend(made, PlaceSteps(plans[k..], aliases))
    {
      assert plans[k..][1..] == plans[k + 1..];
      var step;
      if plans[k].IsPun() {
        step := PlaceAllEdits([plans[k].Shape().store], plans[k].readSet, true, aliases);
      } else {
        step := PlaceAllEdits(plans[k].writes, plans[k].readSet, false, aliases);
      }
      if step.Err? {
        return Err(step.error);
      }
      PrependMore(made, step.value, PlaceSteps(plans[k + 1..], aliases));
      made := made + step.value;
    }
    PrependMore(made, [], Ok([]));
    return Ok(made);
  }

  // ---------------------------------------------------------------- a bundle inside a larger memory

  /** `memory` holds the whole image. */
  ghost predicate Includes(memory: Image, image: Image) {
    forall a | a in image :: a in memory && memory[a] == image[a]
  }

  lemma {:induction false} OverlayOnPart(memory: Image, image: Image, spans: seq<Span>)
    requires Includes(memory, image)
    ensures Includes(OverlayAll(memory, spans), OverlayAll(image, spans))
  {
    if spans != [] {
      OverlayOnPart(Overlay(memory, spans[0]), Overlay(image, spans[0]), spans[1..]);
    }
  }

  /** `after` is `before` with one image swapped in at exactly the image's addresses. */
  ghost predicate SwappedIn(before: Image, image: Image, after: Image) {
    && after.Keys == before.Keys && image.Keys <= before.Keys
    && forall a | a in before :: after[a] == if a in image then image[a] else before[a]
  }

  lemma SwapByOverlay(memory: Image, image: Image, spans: seq<Span>)
    requires Includes(memory, image)
    requires forall k, a | 0 <= k < |spans| && spans[k].Contains(a) :: a in image
    ensures SwappedIn(memory, OverlayAll(image, spans), OverlayAll(memory, spans))
  {
    OverlayAllKeepsDomain(memory, spans);
    OverlayAllKeepsDomain(image, spans);
    OverlayOnPart(memory, image, spans);
    hide OverlayAll;
    assert image.Keys <= memory.Keys by {
      forall a | a in image.Keys ensures a in memory.Keys {
        assert a in image;
      }
    }
    forall a | a in memory
      ensures OverlayAll(memory, spans)[a] == if a in image then OverlayAll(image, spans)[a] else memory[a]
    {
      if a in image {
        assert a in OverlayAll(image, spans).Keys;
      } else {
        OverlayUntouched(memory, spans, a);
      }
    }
  }

  lemma {:induction false} StoresStayInside(start: State, plans: seq<PlanParts>)
    requires Run(start, plans).Ok? && forall i | 0 <= i < |plans| :: IsPatchPlan(plans[i])
    ensures SourceStores(plans).Ok?
    ensures Run(start, plans).value.image.Keys == start.image.Keys
    ensures forall k, a | 0 <= k < |SourceStores(plans).value| && SourceStores(plans).value[k].Publish().Contains(a) ::
              a in start.image
    ensures forall k | 0 <= k < |SourceStores(plans).value| ::
              |SourceStores(plans).value[k].before| == |SourceStores(plans).value[k].after|
    decreases |plans|
  {
    hide IsPatchPlan, StepStores, Append, Accepts;
    CheckedRunsHaveStores(plans);
    if plans != [] {
      var n := |plans| - 1;
      var before := Run(start, plans[..n]).value;
      StoresStayInside(start, plans[..n]);
      SourceStoresOfLast(plans);
      StoresOfStep(before, plans[n]);
      StepIsAccepted(before, plans[n]);
      OverlayAllKeepsDomain(before.image, Edits(plans[n]));
      hide SourceStores, OverlayAll, Edits;
    }
  }

  /** Publishing in live memory: the composed image appears, every other byte stays. */
  lemma PublishSwapsFinalIn(start: State, plans: seq<PlanParts>, memory: Image)
    requires Run(start, plans).Ok? && forall i | 0 <= i < |plans| :: IsPatchPlan(plans[i])
    requires Includes(memory, start.image)
    ensures SourceStores(plans).Ok?
    ensures SwappedIn(memory, Run(start, plans).value.image, OverlayAll(memory, Published(SourceStores(plans).value)))
  {
    hide IsPatchPlan, Run, SourceStores, OverlayAll, Includes, SwappedIn;
    PublishingGivesFinalBytes(start, plans);
    StoresStayInside(start, plans);
    SwapByOverlay(memory, start.image, Published(SourceStores(plans).value));
  }

  /** Retiring in live memory: the originals reappear, every other byte stays. */
  lemma RetireSwapsOriginalsIn(start: State, plans: seq<PlanParts>, memory: Image)
    requires Run(start, plans).Ok? && forall i | 0 <= i < |plans| :: IsPatchPlan(plans[i])
    requires Includes(memory, Run(start, plans).value.image)
    ensures SourceStores(plans).Ok?
    ensures SwappedIn(memory, start.image, OverlayAll(memory, Restored(SourceStores(plans).value)))
  {
    hide IsPatchPlan, Run, SourceStores, OverlayAll, Includes, SwappedIn;
    RetiringGivesOriginals(start, plans);
    StoresStayInside(start, plans);
    var stores := SourceStores(plans).value;
    assert forall k | 0 <= k < |stores| :: |stores[k].before| == |stores[k].after|;
    forall k, a | 0 <= k < |stores| && Restored(stores)[k].Contains(a) ensures a in Run(start, plans).value.image {
      assert stores[|stores| - 1 - k].Publish().Contains(a);
    }
    SwapByOverlay(memory, Run(start, plans).value.image, Restored(stores));
  }
}
