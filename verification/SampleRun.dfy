/**
 * A concrete run of two puns in seven bytes: the second inherits, as its high displacement bytes, the redirect
 * that the first has just written. It shows that the whole-run theorems speak of runs that exist.
 */
module SampleRun {
  import opened LittleEndian
  import opened Wrappers
  import opened Contracts
  import opened GeneratedImages
  import opened VirtualImage
  import opened CompositionRuns

  const BASE: U64 := 0x1000
  const SOURCE: AddressRange := Interval(0x1000, 0x1007)
  const IDENTITY := CodeIdentity([], 0x1000, 1)

  /** A general pun at `pc` that reads the whole source as `code` and writes `written`. */
  function Pun(pc: U64, code: seq<byte>, written: seq<byte>, window: AddressRange, target: U64): PlanParts
    requires BASE <= pc && 1 <= |written| <= 4 && pc + 5 <= SOURCE.end && target < 0x1_0000_0000
  {
    PlanParts(
      IDENTITY, InstallOnce,
      GeneralizedPun(PunShape(|written|, 0, Interval(pc, pc + 5), window, Span(pc, written))),
      pc, pc, Interval(pc, pc + |written|),
      [Span(BASE, code)], [Span(pc, written)], [SOURCE],
      LegalEntrySet(IDENTITY, SOURCE, Complete, NoneExist), [],
      [Interval(target, target + 1)], [GeneratedCode(Span(target, [0xcc]), [])],
      Requirements(true, true, false))
  }

  lemma UnsignedCons(x: byte, rest: seq<byte>)
    ensures Unsigned([x] + rest) == x + 0x100 * Unsigned(rest)
  {
    assert ([x] + rest)[1..] == rest;
  }

  lemma UnsignedFour(a: byte, b: byte, c: byte, d: byte)
    ensures Unsigned([a, b, c, d]) == a + 0x100 * b + 0x1_0000 * c + 0x100_0000 * d
    ensures d < 128 ==> Signed([a, b, c, d]) == Unsigned([a, b, c, d])
  {
    assert [a, b, c, d] == [a] + [b, c, d] && [b, c, d] == [b] + [c, d] && [c, d] == [c] + [d] && [d] == [d] + [];
    UnsignedCons(a, [b, c, d]);
    UnsignedCons(b, [c, d]);
    UnsignedCons(c, [d]);
    UnsignedCons(d, []);
  }

  /** The window and the target are the ones the bytes encode. */
  ghost predicate Encodes(pc: U64, low: seq<byte>, high: seq<byte>, window: AddressRange, target: U64) {
    && |low| + |high| == 4
    && window.start == PunTarget(pc + 5, Zeros(|low|), high) && window.end == window.start + Pow256(|low|)
    && window.Contains(target) && target == PunTarget(pc + 5, low, high)
  }

  /** The check accepts such a pun when its window and target are the ones its bytes encode. */
  lemma PunChecks(pc: U64, code: seq<byte>, low: seq<byte>, high: seq<byte>, window: AddressRange, target: U64)
    requires (|low| == 1 || |low| == 3) && |code| == 7 && BASE <= pc && pc + 5 <= SOURCE.end && target < 0x1_0000_0000
    requires pc / 64 == (pc + |low|) / 64
    requires high == code[pc - BASE + 1 + |low|..pc - BASE + 5] && Encodes(pc, low, high, window, target)
    ensures IsPatchPlan(Pun(pc, code, [0xe9] + low, window, target)) && Pun(pc, code, [0xe9] + low, window, target).IsPun()
  {
    hide SpansHeld, WritesAuthenticated, ImagesAllocated, CheckPunEncoding, CheckPunStore, CheckPunWindow, Encodes;
    var written := [0xe9] + low;
    SpansAndImages(pc, code, written, window, target);
    PunEncodingChecks(pc, code, written, window, target);
    PunStoreChecks(pc, code, written, window, target);
    PunWindowChecks(pc, code, low, high, window, target);
  }

  lemma SpansAndImages(pc: U64, code: seq<byte>, written: seq<byte>, window: AddressRange, target: U64)
    requires BASE <= pc && 1 <= |written| <= 4 && pc + 5 <= SOURCE.end && target < 0x1_0000_0000 && |code| == 7
    ensures var plan := Pun(pc, code, written, window, target);
            && SpansHeld(plan.readSet + plan.writes, plan.dependencies).Ok?
            && WritesAuthenticated(plan.writes, plan.readSet).Ok?
            && ImagesAllocated(plan.generated, plan.allocations).Ok?
  {
    var plan := Pun(pc, code, written, window, target);
    assert plan.readSet + plan.writes == [Span(BASE, code), Span(pc, written)];
    assert (plan.readSet + plan.writes)[1..] == [Span(pc, written)];
    assert [Span(pc, written)][1..] == [] && SpansHeld([], plan.dependencies) == Ok(());
    assert SOURCE in plan.dependencies && SOURCE.Covers(Interval(BASE, BASE + 7)) && SOURCE.Covers(Interval(pc, pc + |written|));
    assert SpansHeld([Span(pc, written)], plan.dependencies).Ok?;
    assert Span(BASE, code) in plan.readSet && plan.writes[1..] == [];
    assert Interval(target, target + 1) in plan.allocations && plan.generated[1..] == [];
  }

  lemma PunEncodingChecks(pc: U64, code: seq<byte>, written: seq<byte>, window: AddressRange, target: U64)
    requires BASE <= pc && pc + 5 <= SOURCE.end && target < 0x1_0000_0000 && 1 <= |written| <= 4 && written[0] == 0xe9
    ensures CheckPunEncoding(Pun(pc, code, written, window, target)).Ok?
  {
  }

  lemma ReadsOriginal(code: seq<byte>, range: AddressRange)
    requires |code| == 7 && BASE <= range.start && range.end <= BASE + 7
    ensures OriginalBytes([Span(BASE, code)], range) == Ok(code[range.start - BASE..range.end - BASE])
  {
  }

  lemma PunStoreChecks(pc: U64, code: seq<byte>, written: seq<byte>, window: AddressRange, target: U64)
    requires BASE <= pc && pc + 5 <= SOURCE.end && target < 0x1_0000_0000 && (|written| == 2 || |written| == 4) && written[0] == 0xe9
    requires |code| == 7 && pc / 64 == (pc + |written| - 1) / 64
    ensures CheckPunEncoding(Pun(pc, code, written, window, target)).Ok?
    ensures CheckPunStore(Pun(pc, code, written, window, target)).Ok?
  {
    PunEncodingChecks(pc, code, written, window, target);
    hide OriginalBytes, CheckPunEncoding;
    var plan := Pun(pc, code, written, window, target);
    var store: AddressRange := Interval(pc, pc + |written|);
    ReadsOriginal(code, store);
    assert SOURCE in plan.dependencies && SOURCE.Covers(store) && SOURCE.Covers(plan.Shape().consumed);
    assert plan.Shape().store.Range() == Ok(store);
    var padded := code[pc - BASE..pc - BASE + |written|];
    assert padded[..0] + written + padded[0 + |written|..] == written;
  }

  /** The window group of the check, for any pun whose free and inherited bytes are known. */
  lemma WindowAccepts(parts: PlanParts, original: seq<byte>, low: seq<byte>, high: seq<byte>, target: U64)
    requires parts.IsPun() && CheckPunEncoding(parts).Ok? && parts.Prefixes() == 0
    requires OriginalBytes(parts.readSet, parts.Shape().consumed) == Ok(original)
    requires |original| == 5 && 1 <= parts.Width() <= 4 && |low| == parts.Width() - 1
    requires |parts.writes| == 1 && |parts.writes[0].bytes| == parts.Width() && |parts.generated| == 1
    requires original[parts.Width()..] == high && parts.writes[0].bytes[1..] == low
    requires parts.generated[0].image.address == target
    requires Encodes(parts.physicalPc, low, high, parts.Shape().targetWindow, target)
    ensures CheckPunWindow(parts).Ok?
  {
    hide PunTarget, Pow256, OriginalBytes, CheckPunEncoding, Zeros;
  }

  lemma PunWindowChecks(pc: U64, code: seq<byte>, low: seq<byte>, high: seq<byte>, window: AddressRange, target: U64)
    requires 1 <= |low| <= 3 && |code| == 7 && BASE <= pc && pc + 5 <= SOURCE.end && target < 0x1_0000_0000
    requires high == code[pc - BASE + 1 + |low|..pc - BASE + 5] && Encodes(pc, low, high, window, target)
    ensures CheckPunEncoding(Pun(pc, code, [0xe9] + low, window, target)).Ok?
    ensures CheckPunWindow(Pun(pc, code, [0xe9] + low, window, target)).Ok?
  {
    PunEncodingChecks(pc, code, [0xe9] + low, window, target);
    hide PunTarget, Pow256, OriginalBytes, CheckPunEncoding, CheckPunWindow, Zeros, Encodes;
    var original := code[pc - BASE..pc - BASE + 5];
    ReadsOriginal(code, Interval(pc, pc + 5));
    assert original[1 + |low|..] == high;
    assert ([0xe9] + low)[1..] == low;
    WindowAccepts(Pun(pc, code, [0xe9] + low, window, target), original, low, high, target);
  }

  // ---------------------------------------------------------------- the run

  const BEFORE: seq<byte> := [0x48, 0x90, 0x0f, 0x1f, 0x40, 0x00, 0x00]
  const BETWEEN: seq<byte> := [0x48, 0x90, 0xe9, 0x00, 0x00, 0x01, 0x00]
  const AFTER: seq<byte> := [0xe9, 0x10, 0xe9, 0x00, 0x00, 0x01, 0x00]

  /** The successor at 0x1002: three free displacement bytes, one inherited. */
  const SUCCESSOR := Pun(0x1002, BEFORE, [0xe9, 0x00, 0x00, 0x01], Interval(0x1007, 0x1001007), 0x11007)

  /** The selected instruction at 0x1000: one free byte, the other three are the successor's new bytes. */
  const SELECTED := Pun(0x1000, BETWEEN, [0xe9, 0x10], Interval(0xf905, 0xfa05), 0xf915)

  lemma SuccessorChecks()
    ensures IsPatchPlan(SUCCESSOR) && SUCCESSOR.IsPun()
  {
    assert BEFORE[6..7] == [0x00] && Zeros(3) + [0x00] == [0, 0, 0, 0] && [0x00, 0x00, 0x01] + [0x00] == [0x00, 0x00, 0x01, 0x00];
    UnsignedFour(0, 0, 0, 0);
    UnsignedFour(0, 0, 1, 0);
    assert Pow256(3) == 0x100_0000;
    assert [0xe9] + [0x00, 0x00, 0x01] == [0xe9, 0x00, 0x00, 0x01];
    PunChecks(0x1002, BEFORE, [0x00, 0x00, 0x01], [0x00], Interval(0x1007, 0x1001007), 0x11007);
  }

  lemma SelectedChecks()
    ensures IsPatchPlan(SELECTED) && SELECTED.IsPun()
  {
    var high := BETWEEN[2..5];
    assert high == [0xe9, 0x00, 0x00];
    assert Zeros(1) + high == [0, 0xe9, 0x00, 0x00] && [0x10] + high == [0x10, 0xe9, 0x00, 0x00];
    UnsignedFour(0, 0xe9, 0, 0);
    UnsignedFour(0x10, 0xe9, 0, 0);
    assert Pow256(1) == 0x100;
    assert [0xe9] + [0x10] == [0xe9, 0x10];
    PunChecks(0x1000, BETWEEN, [0x10], high, Interval(0xf905, 0xfa05), 0xf915);
  }

  ghost function ImageOf(code: seq<byte>): (image: Image)
    requires |code| == 7
    ensures image.Keys == SOURCE.Addresses()
    ensures forall a | SOURCE.Contains(a) :: image[a] == code[a - BASE]
  {
    map a: int | BASE <= a < BASE + 7 && SOURCE.Contains(a) :: code[a - BASE]
  }

  ghost function START(): State {
    Initial(IDENTITY, ImageOf(BEFORE))
  }

  /** A pun of this shape is accepted on an image that still reads as its code and has none of its bytes locked. */
  lemma PunAccepts(state: State, pc: U64, code: seq<byte>, written: seq<byte>, window: AddressRange, target: U64)
    requires BASE <= pc && 1 <= |written| <= 4 && pc + 5 <= SOURCE.end && 0x2000 <= target < 0x1_0000_0000 && |code| == 7
    requires state.identity == IDENTITY && state.originals.Keys == SOURCE.Addresses() && state.image == ImageOf(code)
    requires pc !in state.sites && target !in state.mapped && forall a | pc <= a < pc + |written| :: a !in state.locked
    ensures Append(state, Pun(pc, code, written, window, target)).Ok?
    ensures var next := Append(state, Pun(pc, code, written, window, target)).value;
            && next.identity == IDENTITY && next.originals == state.originals
            && next.image == Overlay(state.image, Span(pc, written))
            && next.locked == state.locked + Interval(pc, pc + 5).Addresses()
            && next.mapped == state.mapped + {target} && next.sites == state.sites + {pc}
  {
    var plan := Pun(pc, code, written, window, target);
    var edit := Span(pc, written);
    PunConditions(state, pc, code, written, window, target);
    AppendAcceptsExactly(state, plan);
    StoredTwice(state.image, edit);
    AllocatesOne(state, target);
    StoredInside(edit, Interval(pc, pc + 5));
    hide Accepts, Overlay, OverlayAll, AddressesOf, Allocate, EditsChecked, ReadsChecked, DependenciesChecked, GeneratedChecked;
    assert Edits(plan) == [edit, edit];
  }

  lemma StoredTwice(image: Image, edit: Span)
    ensures OverlayAll(image, [edit, edit]) == Overlay(image, edit)
  {
    assert [edit, edit][1..] == [edit] && [edit][1..] == [];
    var once := Overlay(image, edit);
    assert OverlayAll(once, [edit]) == Overlay(once, edit);
    assert Overlay(once, edit) == once;
  }

  lemma StoredInside(edit: Span, range: AddressRange)
    requires range.start <= edit.address && edit.End() <= range.end
    ensures range.Addresses() + AddressesOf([edit, edit]) == range.Addresses()
    ensures forall locked: set<int> :: locked + range.Addresses() + AddressesOf([edit, edit]) + {} == locked + range.Addresses()
  {
    forall a | a in AddressesOf([edit, edit]) ensures a in range.Addresses() {
    }
  }

  lemma AllocatesOne(state: State, target: U64)
    requires target < 0x1_0000_0000 && target !in state.originals.Keys && target !in state.mapped
    ensures Allocate(state.originals.Keys, state.mapped, [Interval(target, target + 1)]) == Ok(state.mapped + {target})
  {
    var range: AddressRange := Interval(target, target + 1);
    assert [range][1..] == [];
    assert range.Addresses() == {target};
  }

  lemma PunConditions(state: State, pc: U64, code: seq<byte>, written: seq<byte>, window: AddressRange, target: U64)
    requires BASE <= pc && 1 <= |written| <= 4 && pc + 5 <= SOURCE.end && 0x2000 <= target < 0x1_0000_0000 && |code| == 7
    requires state.identity == IDENTITY && state.originals.Keys == SOURCE.Addresses() && state.image == ImageOf(code)
    requires pc !in state.sites && target !in state.mapped && forall a | pc <= a < pc + |written| :: a !in state.locked
    ensures Accepts(state, Pun(pc, code, written, window, target))
  {
    hide OverlayAll;
    var plan := Pun(pc, code, written, window, target);
    assert state.originals.Keys == ImageOf(code).Keys;
    assert Holds(state.image, BASE, code);
    assert EditAllowed(state, Span(pc, written));
  }

  /** Both puns pass the check, the run accepts them in this order, and both decode in its final bytes. */
  lemma TwoPunsAreAccepted()
    ensures IsPatchPlan(SUCCESSOR) && IsPatchPlan(SELECTED) && SUCCESSOR.IsPun() && SELECTED.IsPun()
    ensures START().Valid() && Run(START(), [SUCCESSOR, SELECTED]).Ok?
    ensures var final := Run(START(), [SUCCESSOR, SELECTED]).value;
            final.image == ImageOf(AFTER) && Lands(final.image, 0x1000, 0xf915) && Lands(final.image, 0x1002, 0x11007)
  {
    hide Pun, Append, Lands, IsPatchPlan;
    SuccessorChecks();
    SelectedChecks();
    FirstStep();
    SecondStep();
    var plans := [SUCCESSOR, SELECTED];
    assert plans[..1] == [SUCCESSOR] && [SUCCESSOR][..0] == [];
    assert Run(START(), []) == Ok(START());
    assert Run(START(), [SUCCESSOR]) == Append(START(), SUCCESSOR);
    EveryPunStillLands(START(), plans, 0);
    EveryPunStillLands(START(), plans, 1);
    SampleTargets();
  }

  lemma SampleTargets()
    ensures SUCCESSOR.physicalPc == 0x1002 && |SUCCESSOR.generated| == 1 && SUCCESSOR.generated[0].image.address == 0x11007
    ensures SELECTED.physicalPc == 0x1000 && |SELECTED.generated| == 1 && SELECTED.generated[0].image.address == 0xf915
  {
  }

  lemma FirstStep()
    ensures START().Valid() && Append(START(), SUCCESSOR).Ok?
    ensures var next := Append(START(), SUCCESSOR).value;
            && next.identity == IDENTITY && next.originals == ImageOf(BEFORE) && next.image == ImageOf(BETWEEN)
            && next.locked == Interval(0x1002, 0x1007).Addresses() && next.mapped == {0x11007} && next.sites == {0x1002}
  {
    hide Append;
    var written := [0xe9, 0x00, 0x00, 0x01];
    PunAccepts(START(), 0x1002, BEFORE, written, Interval(0x1007, 0x1001007), 0x11007);
    OverlayIs(BEFORE, 0x1002, written, BETWEEN);
  }

  lemma SecondStep()
    ensures Append(START(), SUCCESSOR).Ok? && Append(Append(START(), SUCCESSOR).value, SELECTED).Ok?
    ensures Append(Append(START(), SUCCESSOR).value, SELECTED).value.image == ImageOf(AFTER)
  {
    hide Append;
    FirstStep();
    PunAccepts(Append(START(), SUCCESSOR).value, 0x1000, BETWEEN, [0xe9, 0x10], Interval(0xf905, 0xfa05), 0xf915);
    OverlayIs(BETWEEN, 0x1000, [0xe9, 0x10], AFTER);
  }

  lemma OverlayIs(code: seq<byte>, pc: U64, written: seq<byte>, after: seq<byte>)
    requires |code| == 7 && |after| == 7 && BASE <= pc && pc + |written| <= SOURCE.end
    requires after == code[..pc - BASE] + written + code[pc - BASE + |written|..]
    ensures Overlay(ImageOf(code), Span(pc, written)) == ImageOf(after)
  {
    var l, r := Overlay(ImageOf(code), Span(pc, written)), ImageOf(after);
    assert l.Keys == r.Keys;
    forall a | a in l.Keys ensures l[a] == r[a] {
    }
  }
}
