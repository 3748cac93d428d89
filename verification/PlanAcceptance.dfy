/** Which plans `PatchPlan::checked` of src/contracts.rs:301-370 and 401-467 accepts, as conditions without an order. */
module PlanAcceptance {
  import opened LittleEndian
  import opened Wrappers
  import opened Contracts

  // ---------------------------------------------------------------- the conditions

  ghost predicate Inside(from: int, end: int, held: seq<AddressRange>) {
    exists k | 0 <= k < |held| :: held[k].start <= from && end <= held[k].end
  }

  /** One instruction, in scope of its legal entries, to be published at rest and with a core synchronization. */
  ghost predicate Located(parts: PlanParts) {
    && parts.displaced.start <= parts.logicalPc < parts.displaced.end && parts.physicalPc == parts.displaced.start
    && parts.entries.scope.start <= parts.displaced.start && parts.displaced.end <= parts.entries.scope.end
    && parts.requirements.quiescent && parts.requirements.syncCore
  }

  /** Every span is nonempty, does not wrap and lies in one held range. */
  ghost predicate AllHeld(spans: seq<Span>, held: seq<AddressRange>) {
    forall k | 0 <= k < |spans| :: HeldSpan(spans[k], held)
  }

  ghost predicate HeldSpan(span: Span, held: seq<AddressRange>) {
    span.Proper() && Inside(span.address, span.End(), held)
  }

  ghost predicate ReadAround(readSet: seq<ExpectedBytes>, i: nat, from: int, end: int) {
    i < |readSet| && readSet[i].address <= from && end <= readSet[i].End()
  }

  /** Every write lies in one proper read, which authenticates the bytes it replaces. */
  ghost predicate AllAuthenticated(writes: seq<ByteEdit>, readSet: seq<ExpectedBytes>) {
    forall k | 0 <= k < |writes| :: Authenticated(writes[k], readSet)
  }

  ghost predicate Authenticated(write: ByteEdit, readSet: seq<ExpectedBytes>) {
    exists i: nat :: ReadAround(readSet, i, write.address, write.End())
  }

  ghost predicate AllAllocated(images: seq<GeneratedCode>, allocations: seq<AddressRange>) {
    forall k | 0 <= k < |images| :: HeldSpan(images[k].image, allocations)
  }

  /** The first read around the range; its bytes count as the original ones. */
  ghost predicate FirstRead(readSet: seq<ExpectedBytes>, i: nat, from: int, end: int) {
    ReadAround(readSet, i, from, end) && forall j: nat | j < i :: !ReadAround(readSet, j, from, end)
  }

  /** CS prefixes, E9 and free displacement bytes over one short instruction, with one image. */
  ghost predicate PunShaped(parts: PlanParts)
    requires parts.IsPun()
  {
    var len, prefixes := parts.Width(), parts.Prefixes();
    && 1 <= len <= 4 && prefixes < len && (parts.kind.PrefixedPun? ==> prefixes > 0)
    && parts.profile.InstallOnce? && parts.logicalPc == parts.physicalPc
    && parts.displaced.end == parts.displaced.start + len
    && parts.Shape().consumed.start == parts.physicalPc && parts.Shape().consumed.end == parts.physicalPc + 5 + prefixes
    && |parts.writes| == 1 && parts.writes[0].address == parts.physicalPc && |parts.writes[0].bytes| == len
    && (forall i | 0 <= i < prefixes :: parts.writes[0].bytes[i] == 0x2e) && parts.writes[0].bytes[prefixes] == 0xe9
    && |parts.generated| == 1 && !parts.requirements.sigillRouter
    && forall k | 0 <= k < |parts.obligations| :: parts.obligations[k].Preserved?
  }

  /** What one native store can write at once: 1, 2, 4 or 4 bytes for an instruction of 1, 2, 3 or 4. */
  predicate StoreWidth(instruction: nat, store: nat) {
    match instruction
    case 1 => store == 1
    case 2 => store == 2
    case 3 => store == 4
    case 4 => store == 4
    case _ => false
  }

  /** One store of native width in one cache line, repeating original bytes around the written ones. */
  ghost predicate StoreFits(parts: PlanParts)
    requires parts.IsPun() && PunShaped(parts)
  {
    var store, written := parts.Shape().store, parts.writes[0];
    && StoreWidth(parts.Width(), |store.bytes|) && store.Proper()
    && store.address <= written.address && written.End() <= store.End()
    && store.address / 64 == (store.End() - 1) / 64
    && Inside(store.address, store.End(), parts.dependencies)
    && Inside(parts.Shape().consumed.start, parts.Shape().consumed.end, parts.dependencies)
    && exists i: nat :: FirstRead(parts.readSet, i, store.address, store.End()) && Pads(store, written, parts.readSet[i])
  }

  /** The store holds the written bytes and, around them, the bytes of this read. */
  ghost predicate Pads(store: Span, written: Span, read: Span)
    requires read.address <= store.address && store.End() <= read.End()
  {
    forall a | store.Contains(a) :: store.At(a) == if written.Contains(a) then written.At(a) else read.At(a)
  }

  /** How many addresses `free` displacement bytes reach. */
  function WindowSize(free: nat): nat {
    match free
    case 0 => 1
    case 1 => 0x100
    case 2 => 0x1_0000
    case _ => 0x100_0000
  }

  /** The bytes behind the instruction that the jump consumes as the high end of its displacement. */
  function Inherited(parts: PlanParts, read: ExpectedBytes): (high: seq<byte>)
    requires parts.IsPun() && parts.physicalPc + 5 + parts.Prefixes() <= read.End() && read.address <= parts.physicalPc
    requires parts.Prefixes() < parts.Width() <= 4
    ensures |high| == 5 + parts.Prefixes() - parts.Width()
  {
    read.bytes[parts.physicalPc + parts.Width() - read.address..parts.physicalPc + 5 + parts.Prefixes() - read.address]
  }

  /** The stated window is what the free bytes reach, inside the address space; the image is where the jump goes. */
  ghost predicate TargetFits(parts: PlanParts)
    requires parts.IsPun() && PunShaped(parts)
  {
    var next, free := parts.physicalPc + 5 + parts.Prefixes(), parts.Width() - parts.Prefixes() - 1;
    exists i: nat ::
      && FirstRead(parts.readSet, i, parts.physicalPc, next)
      && var high := Inherited(parts, parts.readSet[i]);
         && parts.Shape().targetWindow.start == next + Signed(seq(free, _ => 0) + high)
         && parts.Shape().targetWindow.end == parts.Shape().targetWindow.start + WindowSize(free)
         && parts.generated[0].image.address == next + Signed(parts.writes[0].bytes[parts.Prefixes() + 1..] + high)
  }

  /** Everything the check asks of a plan. */
  ghost predicate Acceptable(parts: PlanParts) {
    && parts.entries.identity == parts.identity
    && Located(parts)
    && AllHeld(parts.readSet, parts.dependencies) && AllHeld(parts.writes, parts.dependencies)
    && AllAuthenticated(parts.writes, parts.readSet)
    && AllAllocated(parts.generated, parts.allocations)
    && (parts.IsPun() ==> PunShaped(parts) && StoreFits(parts) && TargetFits(parts))
  }

  // ---------------------------------------------------------------- the loops

  lemma Covering(range: AddressRange, held: seq<AddressRange>)
    ensures (exists h | h in held :: h.Covers(range)) <==> Inside(range.start, range.end, held)
  {
    if Inside(range.start, range.end, held) {
      var k :| 0 <= k < |held| && held[k].start <= range.start && range.end <= held[k].end;
      assert held[k] in held;
    }
  }

  lemma {:induction false} SpansHeldMeaning(spans: seq<Span>, held: seq<AddressRange>)
    ensures SpansHeld(spans, held).Ok? <==> AllHeld(spans, held)
  {
    if spans != [] {
      SpansHeldMeaning(spans[1..], held);
      if spans[0].Range().Ok? {
        Covering(spans[0].Range().value, held);
      }
      assert forall k | 0 < k < |spans| :: spans[k] == spans[1..][k - 1];
      hide Inside;
    }
  }

  lemma HeldTogether(first: seq<Span>, second: seq<Span>, held: seq<AddressRange>)
    ensures AllHeld(first + second, held) <==> AllHeld(first, held) && AllHeld(second, held)
  {
    hide HeldSpan;
    if AllHeld(first + second, held) {
      assert forall k | 0 <= k < |first| :: first[k] == (first + second)[k];
      assert forall k | 0 <= k < |second| :: second[k] == (first + second)[|first| + k];
    }
  }

  lemma {:induction false} AuthenticatedMeaning(writes: seq<ByteEdit>, readSet: seq<ExpectedBytes>)
    requires forall k | 0 <= k < |readSet| :: readSet[k].Proper()
    requires forall k | 0 <= k < |writes| :: writes[k].Proper()
    ensures WritesAuthenticated(writes, readSet).Ok? <==> AllAuthenticated(writes, readSet)
  {
    if writes != [] {
      AuthenticatedMeaning(writes[1..], readSet);
      SomeReadMeaning(readSet, writes[0]);
      assert forall k | 0 < k < |writes| :: writes[k] == writes[1..][k - 1];
      hide Authenticated, SomeReadCovers;
    }
  }

  lemma SomeReadMeaning(readSet: seq<ExpectedBytes>, write: ByteEdit)
    requires write.Proper() && forall k | 0 <= k < |readSet| :: readSet[k].Proper()
    ensures SomeReadCovers(readSet, write.Range().value) <==> Authenticated(write, readSet)
  {
    var range := write.Range().value;
    if SomeReadCovers(readSet, range) {
      var read :| read in readSet && read.Proper() && read.address <= range.start && range.end <= read.End();
      var i :| 0 <= i < |readSet| && readSet[i] == read;
      assert ReadAround(readSet, i, write.address, write.End());
    }
    if Authenticated(write, readSet) {
      var i: nat :| ReadAround(readSet, i, write.address, write.End());
      assert readSet[i] in readSet;
    }
  }

  lemma {:induction false} AllocatedMeaning(images: seq<GeneratedCode>, allocations: seq<AddressRange>)
    ensures ImagesAllocated(images, allocations).Ok? <==> AllAllocated(images, allocations)
  {
    if images != [] {
      AllocatedMeaning(images[1..], allocations);
      if images[0].image.Range().Ok? {
        Covering(images[0].image.Range().value, allocations);
      }
      assert forall k | 0 < k < |images| :: images[k] == images[1..][k - 1];
      hide Inside;
    }
  }

  function Part(read: ExpectedBytes, from: int, end: int): seq<byte>
    requires read.address <= from <= end <= read.End()
  {
    read.bytes[from - read.address..end - read.address]
  }

  /** Without any read around the range there are no original bytes. */
  lemma {:induction false} NoOriginal(readSet: seq<ExpectedBytes>, range: AddressRange)
    requires forall k | 0 <= k < |readSet| :: readSet[k].Proper()
    requires forall i: nat :: !ReadAround(readSet, i, range.start, range.end)
    ensures OriginalBytes(readSet, range).Err?
  {
    if readSet != [] {
      assert !ReadAround(readSet, 0, range.start, range.end);
      forall i: nat ensures !ReadAround(readSet[1..], i, range.start, range.end) {
        assert !ReadAround(readSet, i + 1, range.start, range.end);
      }
      NoOriginal(readSet[1..], range);
    }
  }

  /** Otherwise they are those of the first such read. */
  lemma {:induction false} OriginalOfFirst(readSet: seq<ExpectedBytes>, i: nat, range: AddressRange)
    requires forall k | 0 <= k < |readSet| :: readSet[k].Proper()
    requires FirstRead(readSet, i, range.start, range.end)
    ensures OriginalBytes(readSet, range) == Ok(Part(readSet[i], range.start, range.end))
  {
    if i > 0 {
      assert !ReadAround(readSet, 0, range.start, range.end);
      forall j: nat | j < i - 1 ensures !ReadAround(readSet[1..], j, range.start, range.end) {
        assert !ReadAround(readSet, j + 1, range.start, range.end);
      }
      OriginalOfFirst(readSet[1..], i - 1, range);
    }
  }

  /** If there is a read around the range there is a first one. */
  lemma {:induction false} SomeFirst(readSet: seq<ExpectedBytes>, i: nat, from: int, end: int) returns (first: nat)
    requires ReadAround(readSet, i, from, end)
    ensures FirstRead(readSet, first, from, end)
  {
    if j: nat :| j < i && ReadAround(readSet, j, from, end) {
      first := SomeFirst(readSet, j, from, end);
    } else {
      first := i;
    }
  }

  /** The read that the original bytes come from; every other read that is the first is this one. */
  lemma TheFirst(readSet: seq<ExpectedBytes>, range: AddressRange) returns (i: nat)
    requires forall k | 0 <= k < |readSet| :: readSet[k].Proper()
    requires OriginalBytes(readSet, range).Ok?
    ensures FirstRead(readSet, i, range.start, range.end)
    ensures OriginalBytes(readSet, range).value == Part(readSet[i], range.start, range.end)
    ensures forall j: nat | FirstRead(readSet, j, range.start, range.end) :: j == i
  {
    if forall j: nat :: !ReadAround(readSet, j, range.start, range.end) {
      NoOriginal(readSet, range);
    }
    var some: nat :| ReadAround(readSet, some, range.start, range.end);
    i := SomeFirst(readSet, some, range.start, range.end);
    OriginalOfFirst(readSet, i, range);
    forall j: nat | FirstRead(readSet, j, range.start, range.end) ensures j == i {
      FirstReadIsUnique(readSet, i, j, range.start, range.end);
    }
  }

  /** Without original bytes no read is the first around the range. */
  lemma NoFirst(readSet: seq<ExpectedBytes>, range: AddressRange)
    requires forall k | 0 <= k < |readSet| :: readSet[k].Proper()
    requires OriginalBytes(readSet, range).Err?
    ensures forall i: nat :: !FirstRead(readSet, i, range.start, range.end)
  {
    if i: nat :| FirstRead(readSet, i, range.start, range.end) {
      OriginalOfFirst(readSet, i, range);
    }
  }

  lemma FirstReadIsUnique(readSet: seq<ExpectedBytes>, i: nat, j: nat, from: int, end: int)
    requires FirstRead(readSet, i, from, end) && FirstRead(readSet, j, from, end)
    ensures i == j
  {
  }

  // ---------------------------------------------------------------- the pun check

  lemma ShapeMeaning(parts: PlanParts)
    requires parts.IsPun() && parts.displaced.start == parts.physicalPc
    ensures CheckPunEncoding(parts).Ok? && (parts.kind.PrefixedPun? ==> parts.Prefixes() > 0) <==> PunShaped(parts)
  {
    assert (forall o | o in parts.obligations :: o.Preserved?) <==> forall k | 0 <= k < |parts.obligations| :: parts.obligations[k].Preserved?;
  }

  lemma StoreWidths(len: nat, store: nat)
    requires 1 <= len <= 4
    ensures StoreWidth(len, store) <==> store == NextPowerOfTwo(len)
  {
  }

  /** Padding with the written bytes put in, byte by byte. */
  lemma PaddedStore(store: Span, written: Span, read: Span)
    requires read.address <= store.address <= written.address && written.End() <= store.End() <= read.End()
    ensures var padded, offset := Part(read, store.address, store.End()), written.address - store.address;
            store.bytes == padded[..offset] + written.bytes + padded[offset + |written.bytes|..] <==> Pads(store, written, read)
  {
    var padded, offset := Part(read, store.address, store.End()), written.address - store.address;
    var expected := padded[..offset] + written.bytes + padded[offset + |written.bytes|..];
    forall a | store.Contains(a)
      ensures expected[a - store.address] == if written.Contains(a) then written.At(a) else read.At(a)
    {
    }
    if Pads(store, written, read) {
      forall k | 0 <= k < |expected| ensures store.bytes[k] == expected[k] {
        assert store.At(store.address + k) == expected[k];
      }
    }
  }

  lemma StoreMeaning(parts: PlanParts)
    requires parts.IsPun() && parts.displaced.start == parts.physicalPc && CheckPunEncoding(parts).Ok? && PunShaped(parts)
    requires forall k | 0 <= k < |parts.readSet| :: parts.readSet[k].Proper()
    ensures CheckPunStore(parts).Ok? <==> StoreFits(parts)
  {
    hide OriginalBytes, CheckPunEncoding, NextPowerOfTwo, StoreWidth, Inside, Pads;
    var store, written := parts.Shape().store, parts.writes[0];
    StoreWidths(parts.Width(), |store.bytes|);
    if store.Range().Ok? {
      var range := store.Range().value;
      Covering(range, parts.dependencies);
      Covering(parts.Shape().consumed, parts.dependencies);
      if OriginalBytes(parts.readSet, range).Err? {
        NoFirst(parts.readSet, range);
      } else {
        var i := TheFirst(parts.readSet, range);
        if store.address <= written.address && written.End() <= store.End() {
          PaddedStore(store, written, parts.readSet[i]);
        }
      }
    }
  }

  lemma WindowSizes(free: nat)
    requires free <= 3
    ensures WindowSize(free) == Pow256(free)
  {
    assert Pow256(0) == 1 && Pow256(1) == 0x100 && Pow256(2) == 0x1_0000 && Pow256(3) == 0x100_0000;
  }

  lemma TargetMeaning(parts: PlanParts)
    requires parts.IsPun() && CheckPunEncoding(parts).Ok? && PunShaped(parts)
    requires forall k | 0 <= k < |parts.readSet| :: parts.readSet[k].Proper()
    ensures CheckPunWindow(parts).Ok? <==> TargetFits(parts)
  {
    hide OriginalBytes, CheckPunEncoding, Signed, Unsigned, Pow256, WindowSize, CheckPunWindow;
    ContainmentIsImplied(parts);
    var range, free := parts.Shape().consumed, parts.Free();
    WindowSizes(free);
    if OriginalBytes(parts.readSet, range).Err? {
      NoFirst(parts.readSet, range);
    } else {
      var i := TheFirst(parts.readSet, range);
      assert OriginalBytes(parts.readSet, range).value[parts.Width()..] == Inherited(parts, parts.readSet[i]);
      assert Zeros(free) == seq(free, _ => 0);
    }
  }

  // ---------------------------------------------------------------- the whole check

  /** The ordered check accepts exactly the plans that meet these conditions, and hands them on unchanged. */
  lemma CheckedAcceptsExactly(parts: PlanParts)
    ensures Checked(parts).Ok? <==> Acceptable(parts)
    ensures Checked(parts).Ok? ==> Checked(parts).value == parts
  {
    hide SpansHeld, WritesAuthenticated, ImagesAllocated, CheckPunEncoding, CheckPunStore, CheckPunWindow,
         AllHeld, AllAuthenticated, AllAllocated, PunShaped, StoreFits, TargetFits;
    SpansHeldMeaning(parts.readSet + parts.writes, parts.dependencies);
    HeldTogether(parts.readSet, parts.writes, parts.dependencies);
    AllocatedMeaning(parts.generated, parts.allocations);
    if AllHeld(parts.readSet, parts.dependencies) && AllHeld(parts.writes, parts.dependencies) {
      HeldAreProper(parts);
      AuthenticatedMeaning(parts.writes, parts.readSet);
      if parts.IsPun() && Located(parts) {
        ShapeMeaning(parts);
        if PunShaped(parts) {
          StoreMeaning(parts);
          TargetMeaning(parts);
        }
      }
    }
  }

  lemma HeldAreProper(parts: PlanParts)
    requires AllHeld(parts.readSet, parts.dependencies) && AllHeld(parts.writes, parts.dependencies)
    ensures forall k | 0 <= k < |parts.readSet| :: parts.readSet[k].Proper()
    ensures forall k | 0 <= k < |parts.writes| :: parts.writes[k].Proper()
  {
    hide Inside;
  }

  lemma {:induction false} SpansHeldRefusals(spans: seq<Span>, held: seq<AddressRange>)
    ensures SpansHeld(spans, held).Err? ==> SpansHeld(spans, held).error in {InvalidRange, DependencyNotHeld}
  {
    if spans != [] {
      SpansHeldRefusals(spans[1..], held);
    }
  }

  lemma {:induction false} AuthenticationRefusals(writes: seq<ByteEdit>, readSet: seq<ExpectedBytes>)
    ensures var r := WritesAuthenticated(writes, readSet); r.Err? ==> r.error in {InvalidRange, InvalidPlan}
  {
    if writes != [] {
      AuthenticationRefusals(writes[1..], readSet);
    }
  }

  lemma {:induction false} AllocationRefusals(images: seq<GeneratedCode>, allocations: seq<AddressRange>)
    ensures var r := ImagesAllocated(images, allocations); r.Err? ==> r.error in {InvalidRange, InvalidPlan}
  {
    if images != [] {
      AllocationRefusals(images[1..], allocations);
    }
  }

  lemma {:induction false} OriginalRefusals(readSet: seq<ExpectedBytes>, range: AddressRange)
    ensures var r := OriginalBytes(readSet, range); r.Err? ==> r.error in {InvalidRange, InvalidPlan}
  {
    if readSet != [] {
      OriginalRefusals(readSet[1..], range);
    }
  }

  lemma PunRefusals(parts: PlanParts)
    requires parts.IsPun() && parts.displaced.start == parts.physicalPc
    ensures CheckPun(parts).Err? ==> CheckPun(parts).error in {InvalidRange, InvalidPlan}
  {
    hide OriginalBytes, Signed, Pow256, Zeros, PunTarget, NextPowerOfTwo;
    forall range: AddressRange ensures OriginalBytes(parts.readSet, range).Err? ==>
                                         OriginalBytes(parts.readSet, range).error in {InvalidRange, InvalidPlan} {
      OriginalRefusals(parts.readSet, range);
    }
  }

  /** Which refusal a plan meets: a foreign identity first, then misplacement, then spans that are not held. */
  lemma CheckedRefuses(parts: PlanParts)
    ensures parts.entries.identity != parts.identity <==> Checked(parts) == Err(StaleGeneration)
    ensures parts.entries.identity == parts.identity && !Located(parts) ==> Checked(parts) == Err(InvalidPlan)
    ensures var spansHeld := AllHeld(parts.readSet, parts.dependencies) && AllHeld(parts.writes, parts.dependencies);
            parts.entries.identity == parts.identity && Located(parts) && !Acceptable(parts) ==>
              && Checked(parts).Err?
              && Checked(parts).error in if spansHeld then {InvalidRange, InvalidPlan} else {InvalidRange, DependencyNotHeld}
  {
    hide SpansHeld, WritesAuthenticated, ImagesAllocated, CheckPun, Acceptable, AllHeld;
    CheckedAcceptsExactly(parts);
    SpansHeldMeaning(parts.readSet + parts.writes, parts.dependencies);
    HeldTogether(parts.readSet, parts.writes, parts.dependencies);
    SpansHeldRefusals(parts.readSet + parts.writes, parts.dependencies);
    AuthenticationRefusals(parts.writes, parts.readSet);
    AllocationRefusals(parts.generated, parts.allocations);
    if parts.IsPun() && parts.displaced.start == parts.physicalPc {
      PunRefusals(parts);
    }
  }
}
