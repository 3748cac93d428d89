/** A concrete chain: a two-byte selected head and a five-byte anchor whose redirect the head's pun inherits. */
module SampleChain {
  import opened LittleEndian
  import opened Wrappers
  import opened Contracts
  import opened GeneratedImages
  import opened VirtualImage
  import opened CompositionRuns
  import opened LockRanges
  import opened Snapshots
  import opened Bundle
  import opened EvictionChain
  import opened ChainMembers
  import opened ChainPlanner
  import opened SampleRun

  const ANCHOR_RANGE: AddressRange := Interval(0x1002, 0x1007)
  const ANCHOR_PAGES: AddressRange := Interval(0x11000, 0x12000)
  const REDIRECT: seq<byte> := [0xe9, 0x00, 0x00, 0x01, 0x00]

  /** The relocation of the anchor at 0x1002 to its image at 0x11007. */
  const ANCHOR := PlanParts(
    IDENTITY, InstallOnce, Relocation, 0x1002, 0x1002, ANCHOR_RANGE,
    [Span(BASE, BEFORE)], [Span(0x1002, REDIRECT)], [SOURCE],
    LegalEntrySet(IDENTITY, SOURCE, Complete, NoneExist), [Preserved(0x1002)],
    [ANCHOR_PAGES], [GeneratedCode(Span(0x11007, [0xcc]), [])], Requirements(true, true, false))

  const NODES := [OriginalNode(0x1000, 2), OriginalNode(0x1002, 5)]

  function Chain(): ChainContext {
    var policy := EvictionChain.AllocationPolicy(None, [], 1, 1, PAGE);
    ChainContext(
      IDENTITY, LegalEntrySet(IDENTITY, SOURCE, Complete, NoneExist), SOURCE, BEFORE, NODES, [policy, policy],
      GeneralizedPunOnly, GeneralizedPunOnly, 2, [], BundleBudget(2, 2, 0x10000, 0x10000, 0x10000),
      Leaves(_ => Err(AllocationUnavailable), Ok(()), (_, _, _, _, _) => Err(AllocationUnavailable)))
  }

  const FINISHED := BundlePlan(
    IDENTITY, [Span(BASE, BEFORE)], [Span(BASE, AFTER)], [ANCHOR, SELECTED], [SOURCE], BundleMemory(2, 1, 1, 0x1001, 0x1001, 0x26eb))

  lemma RedirectOfAnchor()
    ensures NearRedirect(0x1002, 0x11007) == Ok(REDIRECT)
  {
    var tail: seq<byte> := [0x00, 0x00, 0x01, 0x00];
    UnsignedFour(0, 0, 1, 0);
    EncodeOfUnsigned(tail);
    assert Pow256(4) == 0x1_0000_0000;
    assert [0xe9] + tail == REDIRECT;
  }

  lemma AnchorChecks()
    ensures IsPatchPlan(ANCHOR)
  {
    var spans := ANCHOR.readSet + ANCHOR.writes;
    assert spans == [Span(BASE, BEFORE), Span(0x1002, REDIRECT)];
    assert spans[1..] == [Span(0x1002, REDIRECT)] && spans[1..][1..] == [];
    assert SOURCE in ANCHOR.dependencies && SOURCE.Covers(Interval(BASE, BASE + 7)) && SOURCE.Covers(ANCHOR_RANGE);
    assert SpansHeld([], ANCHOR.dependencies) == Ok(());
    assert SpansHeld([Span(0x1002, REDIRECT)], ANCHOR.dependencies).Ok?;
    assert Span(BASE, BEFORE) in ANCHOR.readSet && ANCHOR.writes[1..] == [];
    assert SpansHeld(spans, ANCHOR.dependencies).Ok?;
    assert WritesAuthenticated(ANCHOR.writes, ANCHOR.readSet).Ok?;
    assert ANCHOR_PAGES in ANCHOR.allocations && ANCHOR_PAGES.Covers(Interval(0x11007, 0x11008)) && ANCHOR.generated[1..] == [];
    assert ImagesAllocated([], ANCHOR.allocations) == Ok(());
    assert ImagesAllocated(ANCHOR.generated, ANCHOR.allocations).Ok?;
    hide SpansHeld, WritesAuthenticated, ImagesAllocated;
  }

  lemma AnchorIsAccepted()
    ensures Accepts(START(), ANCHOR)
  {
    hide OverlayAll, Overlay;
    assert START().originals.Keys == ImageOf(BEFORE).Keys;
    assert Holds(START().image, BASE, BEFORE);
    assert EditAllowed(START(), Span(0x1002, REDIRECT));
    assert Edits(ANCHOR) == [Span(0x1002, REDIRECT)];
    assert ImageWellFormed(ANCHOR.generated[0]);
  }

  lemma AnchorStep()
    ensures START().Valid() && Append(START(), ANCHOR).Ok?
    ensures var next := Append(START(), ANCHOR).value;
            && next.identity == IDENTITY && next.originals == ImageOf(BEFORE) && next.image == ImageOf(BETWEEN)
            && next.locked == ANCHOR_RANGE.Addresses() && next.mapped == ANCHOR_PAGES.Addresses() && next.sites == {0x1002}
  {
    var edit := Span(0x1002, REDIRECT);
    AnchorIsAccepted();
    AppendAcceptsExactly(START(), ANCHOR);
    WrittenOnce(START().image, edit);
    PagesAreFree();
    NothingFetched(OverlayAll(START().image, [edit]));
    StoredOnce(edit, ANCHOR_RANGE);
    OverlayIs(BEFORE, 0x1002, REDIRECT, BETWEEN);
    hide Accepts, Overlay, OverlayAll, EditsChecked, ReadsChecked, DependenciesChecked, GeneratedChecked, Allocate, FetchLocks, AddressesOf, ImageOf;
    assert Edits(ANCHOR) == [edit];
  }

  lemma WrittenOnce(image: Image, edit: Span)
    ensures OverlayAll(image, [edit]) == Overlay(image, edit)
  {
    assert [edit][1..] == [];
  }

  lemma PagesAreFree()
    ensures Allocate(START().originals.Keys, START().mapped, [ANCHOR_PAGES]) == Ok(ANCHOR_PAGES.Addresses())
  {
    assert [ANCHOR_PAGES][1..] == [];
    assert START().originals.Keys == SOURCE.Addresses();
    assert START().mapped + ANCHOR_PAGES.Addresses() == ANCHOR_PAGES.Addresses();
  }

  lemma NothingFetched(image: Image)
    ensures FetchLocks(image, ANCHOR.obligations) == Ok({})
  {
    assert ANCHOR.obligations[1..] == [];
    assert FetchLocks(image, []) == Ok({});
  }

  lemma StoredOnce(edit: Span, range: AddressRange)
    requires range.start <= edit.address && edit.End() <= range.end
    ensures {} + range.Addresses() + AddressesOf([edit]) + {} == range.Addresses()
  {
    forall a | a in AddressesOf([edit]) ensures a in range.Addresses() {
    }
  }

  lemma SelectedStep()
    ensures Append(START(), ANCHOR).Ok? && Append(Append(START(), ANCHOR).value, SELECTED).Ok?
    ensures var final := Append(Append(START(), ANCHOR).value, SELECTED).value;
            final.image == ImageOf(AFTER) && final.locked == SOURCE.Addresses()
  {
    hide Append;
    AnchorStep();
    PunAccepts(Append(START(), ANCHOR).value, 0x1000, BETWEEN, [0xe9, 0x10], Interval(0xf905, 0xfa05), 0xf915);
    OverlayIs(BETWEEN, 0x1000, [0xe9, 0x10], AFTER);
    var head: AddressRange := Interval(0x1000, 0x1005);
    assert ANCHOR_RANGE.Addresses() + head.Addresses() == SOURCE.Addresses();
  }

  lemma WholeView(code: seq<byte>)
    requires |code| == 7
    ensures Laid([Span(BASE, code)]) && View([Span(BASE, code)]) == ImageOf(code)
  {
    var snapshots := [Span(BASE, code)];
    forall a | SOURCE.Contains(a) ensures a in View(snapshots) && View(snapshots)[a] == code[a - BASE] {
      ViewAt(snapshots, 0, a);
    }
    assert View(snapshots).Keys == SOURCE.Addresses();
  }

  lemma ChainIsComposed()
    ensures Composed(FINISHED)
  {
    hide Append, IsPatchPlan, View, Laid;
    AnchorChecks();
    SelectedChecks();
    AnchorStep();
    SelectedStep();
    WholeView(BEFORE);
    WholeView(AFTER);
    var steps := [ANCHOR, SELECTED];
    assert steps[..1] == [ANCHOR] && [ANCHOR][..0] == [];
    assert Run(START(), []) == Ok(START());
    assert Run(START(), [ANCHOR]) == Append(START(), ANCHOR);
    UnionOfOne(SOURCE);
  }

  /** This is a whole chain, and both its heads land: the anchor on 0x11007, the selected head on 0xf915. */
  lemma ChainExists()
    ensures Chain().Valid() && WholeChain(Chain(), FINISHED)
    ensures Lands(View(FINISHED.finalBytes), 0x1000, 0xf915) && Lands(View(FINISHED.finalBytes), 0x1002, 0x11007)
  {
    hide Composed, IsPatchPlan, View, Lands, NearRedirect;
    ChainIsComposed();
    AnchorChecks();
    SelectedChecks();
    RedirectOfAnchor();
    SampleTargets();
    assert StepFor(NODES, 1, ANCHOR);
    assert StepFor(NODES, 0, SELECTED);
    EveryHeadLands(Chain(), FINISHED, 0);
    EveryHeadLands(Chain(), FINISHED, 1);
  }
}
