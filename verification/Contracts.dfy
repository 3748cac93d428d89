/** Plans, ranges and refusals of src/contracts.rs, and the structural check every plan passes. */
module Contracts {
  import opened LittleEndian
  import opened Wrappers

  type U64 = x: int | 0 <= x < 0x1_0000_0000_0000_0000

  datatype Refusal =
    | InvalidRange
    | InvalidPlan
    | StaleGeneration
    | ExpectedBytesChanged
    | DependencyNotHeld
    | LeasePoisoned
    | UnresolvedEntry
    | NotInstructionHead
    | NoPatchWindow
    | UnsupportedSemantics(meaning: string)
    | AllocationUnavailable
    | OwnershipConflict
    | SignalContract
    | Synchronization
    | Backend(detail: string)

  datatype Interval = Interval(start: U64, end: U64) {
    function Len(): int {
      end - start
    }

    predicate Contains(address: int) {
      start <= address < end
    }

    predicate Covers(other: Interval) {
      start <= other.start && other.end <= end
    }

    predicate Overlaps(other: Interval) {
      start < other.end && other.start < end
    }

    ghost function Addresses(): (addresses: set<int>)
      ensures forall a :: a in addresses <==> Contains(a)
    {
      set a: int | start <= a < end && Contains(a)
    }
  }

  /** The original's ranges are private and only built checked: never empty, never wrapping. */
  type AddressRange = r: Interval | r.start < r.end witness Interval(0, 1)

  function NewRange(start: U64, len: nat): (r: Result<AddressRange, Refusal>)
    ensures r.Ok? <==> len > 0 && start + len < 0x1_0000_0000_0000_0000
    ensures r.Ok? ==> r.value.start == start && r.value.end == start + len
    ensures r.Err? ==> r.error == InvalidRange
  {
    if start + len >= 0x1_0000_0000_0000_0000 || len == 0 then Err(InvalidRange)
    else Ok(Interval(start, start + len))
  }

  /** `ExpectedBytes` and `ByteEdit` both are an address and the bytes at it. */
  datatype Span = Span(address: U64, bytes: seq<byte>) {
    function Range(): Result<AddressRange, Refusal> {
      NewRange(address, |bytes|)
    }

    predicate Proper() {
      bytes != [] && address + |bytes| < 0x1_0000_0000_0000_0000
    }

    function End(): int {
      address + |bytes|
    }

    predicate Contains(a: int) {
      address <= a < End()
    }

    function At(a: int): byte
      requires Contains(a)
    {
      bytes[a - address]
    }

    predicate Overlaps(other: Span) {
      address < other.End() && other.address < End()
    }
  }

  type ExpectedBytes = Span
  type ByteEdit = Span

  datatype CodeIdentity = CodeIdentity(source: seq<byte>, mapping: U64, generation: U64)

  datatype ApplicationProfile = InstallOnce | ToggleProfile

  datatype EntryCompleteness = Complete | AllInstructionHeads | Incomplete

  datatype ResumeObligation = NoneExist | Enumerated(heads: seq<U64>) | UnresolvedResumes

  datatype LegalEntrySet = LegalEntrySet(
    identity: CodeIdentity, scope: AddressRange, completeness: EntryCompleteness, resumes: ResumeObligation)

  datatype EntryRoute = EntryRoute(original: U64, generated: U64)

  datatype EntryObligation = Preserved(address: U64) | Routed(route: EntryRoute) | Unresolved

  datatype ProgramCounterMapping = ProgramCounterMapping(
    generatedStart: U64, generatedEnd: U64, logicalAddress: U64)
  {
    function Translate(pc: int): Option<U64> {
      if generatedStart <= pc < generatedEnd then Some(logicalAddress) else None
    }
  }

  datatype GeneratedCode = GeneratedCode(image: Span, programCounters: seq<ProgramCounterMapping>)

  datatype Requirements = Requirements(quiescent: bool, syncCore: bool, sigillRouter: bool)

  /** Geometry of a pun: how many instruction bytes and prefixes, what E9 consumes, where it can land. */
  datatype PunShape = PunShape(
    instructionLen: byte, prefixCount: byte, consumed: AddressRange, targetWindow: AddressRange, store: ByteEdit)

  datatype PlanKind =
    | Relocation
    | GeneralizedPun(general: PunShape)  // its prefixCount is not a field of the original and is never read
    | PrefixedPun(prefixed: PunShape)

  datatype PlanParts = PlanParts(
    identity: CodeIdentity,
    profile: ApplicationProfile,
    kind: PlanKind,
    logicalPc: U64,
    physicalPc: U64,
    displaced: AddressRange,
    readSet: seq<ExpectedBytes>,
    writes: seq<ByteEdit>,
    dependencies: seq<AddressRange>,
    entries: LegalEntrySet,
    obligations: seq<EntryObligation>,
    allocations: seq<AddressRange>,
    generated: seq<GeneratedCode>,
    requirements: Requirements)
  {
    predicate IsPun() {
      !kind.Relocation?
    }

    function Shape(): PunShape
      requires IsPun()
    {
      if kind.GeneralizedPun? then kind.general else kind.prefixed
    }

    function Prefixes(): nat
      requires IsPun()
    {
      if kind.GeneralizedPun? then 0 else kind.prefixed.prefixCount
    }

    function Width(): nat
      requires IsPun()
    {
      Shape().instructionLen
    }

    /** Displacement bytes that the rewritten instruction itself supplies. */
    function Free(): int
      requires IsPun()
    {
      Width() - Prefixes() - 1
    }
  }

  // ---------------------------------------------------------------- PatchPlan::checked

  function SpansHeld(spans: seq<Span>, held: seq<AddressRange>): Result<(), Refusal> {
    if spans == [] then Ok(())
    else
      var range :- spans[0].Range();
      var _ :- Need(exists h | h in held :: h.Covers(range), DependencyNotHeld);
      SpansHeld(spans[1..], held)
  }

  predicate SomeReadCovers(readSet: seq<ExpectedBytes>, range: AddressRange) {
    exists read | read in readSet :: read.Proper() && read.address <= range.start && range.end <= read.End()
  }

  function WritesAuthenticated(writes: seq<ByteEdit>, readSet: seq<ExpectedBytes>): Result<(), Refusal> {
    if writes == [] then Ok(())
    else
      var range :- writes[0].Range();
      var _ :- Need(SomeReadCovers(readSet, range), InvalidPlan);
      WritesAuthenticated(writes[1..], readSet)
  }

  function ImagesAllocated(images: seq<GeneratedCode>, allocations: seq<AddressRange>): Result<(), Refusal> {
    if images == [] then Ok(())
    else
      var range :- images[0].image.Range();
      var _ :- Need(exists a | a in allocations :: a.Covers(range), InvalidPlan);
      ImagesAllocated(images[1..], allocations)
  }

  /** Structural validation of one plan, in the original's order of refusals. */
  function Checked(parts: PlanParts): Result<PlanParts, Refusal> {
    var _ :- Need(parts.entries.identity == parts.identity, StaleGeneration);
    var _ :- Need(
      && parts.displaced.Contains(parts.logicalPc)
      && parts.displaced.start == parts.physicalPc
      && parts.entries.scope.Covers(parts.displaced)
      && parts.requirements.quiescent
      && parts.requirements.syncCore, InvalidPlan);
    var _ :- SpansHeld(parts.readSet + parts.writes, parts.dependencies);
    var _ :- WritesAuthenticated(parts.writes, parts.readSet);
    var _ :- ImagesAllocated(parts.generated, parts.allocations);
    var _ :- match parts.kind
             case Relocation => Ok(())
             case GeneralizedPun(_) => CheckPun(parts)
             case PrefixedPun(shape) => if shape.prefixCount == 0 then Err(InvalidPlan) else CheckPun(parts);
    Ok(parts)
  }

  /** Values of this type are what the original's private `PatchPlan` holds: plans that passed the check. */
  predicate IsPatchPlan(parts: PlanParts) {
    Checked(parts).Ok?
  }

  ghost predicate PunAccepted(parts: PlanParts) {
    parts.IsPun() && parts.displaced.start == parts.physicalPc && CheckPun(parts).Ok?
  }

  /** Facts a publisher refuses while they are unresolved. */
  function CheckEntryObligations(parts: PlanParts): Result<(), Refusal> {
    Need(
      && !parts.entries.completeness.Incomplete?
      && !parts.entries.resumes.UnresolvedResumes?
      && (forall o | o in parts.obligations :: !o.Unresolved?), UnresolvedEntry)
  }

  /** The bytes of the first read that covers the range. */
  function OriginalBytes(readSet: seq<ExpectedBytes>, range: AddressRange): (r: Result<seq<byte>, Refusal>)
    ensures r.Ok? ==> |r.value| == range.Len()
  {
    if readSet == [] then Err(InvalidPlan)
    else
      var held :- readSet[0].Range();
      if held.Covers(range) then
        Ok(readSet[0].bytes[range.start - held.start..range.end - held.start])
      else OriginalBytes(readSet[1..], range)
  }

  function NextPowerOfTwo(n: nat): nat
    requires 1 <= n <= 4
  {
    if n == 3 then 4 else n
  }

  /** Where an E9 ends up: its own low displacement bytes, then successor bytes it must leave alone. */
  function PunTarget(next: int, low: seq<byte>, high: seq<byte>): int
    requires |low| + |high| == 4
  {
    next + Signed(low + high)
  }

  /** First group of conditions of `check_pun`: lengths, prefixes, opcode and a single image. */
  function CheckPunEncoding(parts: PlanParts): Result<(), Refusal>
    requires parts.IsPun()
  {
    var len, prefixes := parts.Width(), parts.Prefixes();
    var _ :- Need(
      && 1 <= len <= 4
      && prefixes < len
      && parts.profile.InstallOnce?
      && parts.logicalPc == parts.physicalPc
      && parts.displaced.Len() == len, InvalidPlan);
    var consumed :- NewRange(parts.physicalPc, 5 + prefixes);
    Need(
      && parts.Shape().consumed == consumed
      && |parts.writes| == 1
      && parts.writes[0].address == parts.physicalPc
      && |parts.writes[0].bytes| == len
      && (forall i | 0 <= i < prefixes :: parts.writes[0].bytes[i] == 0x2e)
      && parts.writes[0].bytes[prefixes] == 0xe9
      && |parts.generated| == 1
      && !parts.requirements.sigillRouter
      && (forall o | o in parts.obligations :: o.Preserved?), InvalidPlan)
  }

  /** Second group: one aligned store that repeats authenticated padding around the written bytes. */
  function CheckPunStore(parts: PlanParts): Result<(), Refusal>
    requires parts.IsPun() && parts.displaced.start == parts.physicalPc && CheckPunEncoding(parts).Ok?
  {
    var len, edit := parts.Width(), parts.Shape().store;
    var store :- edit.Range();
    var _ :- Need(
      && |edit.bytes| == NextPowerOfTwo(len)
      && store.Covers(parts.displaced)
      && store.start / 64 == (store.end - 1) / 64
      && (exists d | d in parts.dependencies :: d.Covers(store))
      && (exists d | d in parts.dependencies :: d.Covers(parts.Shape().consumed)), InvalidPlan);
    var padded :- OriginalBytes(parts.readSet, store);
    var offset := parts.physicalPc - store.start;
    Need(edit.bytes == padded[..offset] + parts.writes[0].bytes + padded[offset + len..], InvalidPlan)
  }

  /** Third group: the window of encodable targets, and the one target the written bytes encode. */
  function CheckPunWindow(parts: PlanParts): Result<(), Refusal>
    requires parts.IsPun() && CheckPunEncoding(parts).Ok?
  {
    var original :- OriginalBytes(parts.readSet, parts.Shape().consumed);
    var free, high := parts.Free(), original[parts.Width()..];
    var next := parts.physicalPc + 5 + parts.Prefixes();
    var low := PunTarget(next, Zeros(free), high);
    var _ :- Need(0 <= low < 0x1_0000_0000_0000_0000, InvalidPlan);
    var window :- NewRange(low, Pow256(free));
    var _ :- Need(parts.Shape().targetWindow == window, InvalidPlan);
    var target := PunTarget(next, parts.writes[0].bytes[parts.Prefixes() + 1..], high);
    var _ :- Need(0 <= target < 0x1_0000_0000_0000_0000, InvalidPlan);
    Need(window.Contains(target) && parts.generated[0].image.address == target, InvalidPlan)
  }

  function CheckPun(parts: PlanParts): Result<(), Refusal>
    requires parts.IsPun() && parts.displaced.start == parts.physicalPc
  {
    var _ :- CheckPunEncoding(parts);
    var _ :- CheckPunStore(parts);
    CheckPunWindow(parts)
  }

  // ---------------------------------------------------------------- what a processor would fetch

  /**
   * Independent reading of code bytes: skip CS prefixes, require E9 and follow its rel32.
   * `budget` is the number of bytes one instruction may still take (15 in all).
   */
  function FetchJump(memory: map<int, byte>, pc: int, budget: nat): Option<int>
    decreases budget
  {
    if budget < 5 || pc !in memory then None
    else if memory[pc] == 0x2e then FetchJump(memory, pc + 1, budget - 1)
    else if memory[pc] == 0xe9 && (forall a | pc < a <= pc + 4 :: a in memory) then
      Some(pc + 5 + Signed([memory[pc + 1], memory[pc + 2], memory[pc + 3], memory[pc + 4]]))
    else None
  }

  const INSTRUCTION_LIMIT := 15

  predicate Lands(memory: map<int, byte>, pc: int, target: int) {
    FetchJump(memory, pc, INSTRUCTION_LIMIT) == Some(target)
  }

  /** Whether memory holds these bytes from this address on. */
  predicate Holds(memory: map<int, byte>, address: int, bytes: seq<byte>) {
    forall a | address <= a < address + |bytes| :: a in memory && memory[a] == bytes[a - address]
  }

  lemma {:induction false} FetchSkipsPrefixes(memory: map<int, byte>, pc: int, prefixes: nat, budget: nat)
    requires budget >= 5 + prefixes
    requires forall a | pc <= a < pc + prefixes :: a in memory && memory[a] == 0x2e
    requires pc + prefixes in memory && memory[pc + prefixes] == 0xe9
    ensures FetchJump(memory, pc, budget) == FetchJump(memory, pc + prefixes, budget - prefixes)
    decreases prefixes
  {
    if prefixes > 0 {
      FetchSkipsPrefixes(memory, pc + 1, prefixes - 1, budget - 1);
    }
  }

  /** Prefixes, E9, free low bytes, untouched high bytes: fetched as one jump from `pc`. */
  lemma PunEncodingLands(memory: map<int, byte>, pc: int, prefixes: nat, low: seq<byte>, high: seq<byte>, bytes: seq<byte>)
    requires prefixes < 4 && |low| + |high| == 4
    requires |bytes| == 5 + prefixes && bytes[prefixes + 1..] == low + high
    requires (forall i | 0 <= i < prefixes :: bytes[i] == 0x2e) && bytes[prefixes] == 0xe9
    requires Holds(memory, pc, bytes)
    ensures Lands(memory, pc, PunTarget(pc + 5 + prefixes, low, high))
  {
    FetchSkipsPrefixes(memory, pc, prefixes, INSTRUCTION_LIMIT);
    var e9 := pc + prefixes;
    assert [memory[e9 + 1], memory[e9 + 2], memory[e9 + 3], memory[e9 + 4]] == bytes[prefixes + 1..];
  }

  /** Successor bytes inside the consumed range, as the plan's reads give them. */
  function SuccessorBytes(parts: PlanParts): (high: seq<byte>)
    requires PunAccepted(parts)
    ensures |high| == 4 - parts.Free() && 1 <= |high| <= 4
  {
    OriginalBytes(parts.readSet, parts.Shape().consumed).value[parts.Width()..]
  }

  /** The bytes a pun leaves in its consumed range: its own, then the untouched successors. */
  function PunBytes(parts: PlanParts): (bytes: seq<byte>)
    requires PunAccepted(parts)
    ensures |bytes| == 5 + parts.Prefixes() == parts.Shape().consumed.Len()
  {
    parts.writes[0].bytes + SuccessorBytes(parts)
  }

  /** An accepted pun, read back by the processor, lands on its own generated image. */
  lemma AcceptedPunLands(parts: PlanParts, memory: map<int, byte>)
    requires PunAccepted(parts)
    requires Holds(memory, parts.physicalPc, PunBytes(parts))
    ensures |parts.generated| == 1
    ensures Lands(memory, parts.physicalPc, parts.generated[0].image.address)
  {
    hide Unsigned, Signed, FetchJump, OriginalBytes, Pow256, CheckPunStore;
    var written, p := parts.writes[0].bytes, parts.Prefixes();
    PunEncodingLands(memory, parts.physicalPc, p, written[p + 1..], SuccessorBytes(parts), PunBytes(parts));
  }

  // ---------------------------------------------------------------- the target window

  /** The free bytes that make a pun land on an address of its window. */
  function BytesFor(target: int, windowStart: int, free: nat): (bytes: seq<byte>)
    requires windowStart <= target < windowStart + Pow256(free)
    ensures |bytes| == free
  {
    Encode(target - windowStart, free)
  }

  /** Free bytes reach exactly [low, low + 256^free), each address by exactly one choice. */
  lemma WindowIsExact(next: int, free: nat, high: seq<byte>)
    requires free + |high| == 4 && high != []
    ensures var low := PunTarget(next, Zeros(free), high);
            && (forall bytes: seq<byte> {:trigger PunTarget(next, bytes, high)} | |bytes| == free ::
                  && low <= PunTarget(next, bytes, high) < low + Pow256(free)
                  && BytesFor(PunTarget(next, bytes, high), low, free) == bytes)
            && (forall target {:trigger BytesFor(target, low, free)} | low <= target < low + Pow256(free) ::
                  PunTarget(next, BytesFor(target, low, free), high) == target)
  {
    hide *;
    var low := PunTarget(next, Zeros(free), high);
    forall bytes: seq<byte> | |bytes| == free
      ensures && low <= PunTarget(next, bytes, high) < low + Pow256(free)
              && BytesFor(PunTarget(next, bytes, high), low, free) == bytes
    {
      BytesReachTheirTarget(next, bytes, high);
    }
    forall target | low <= target < low + Pow256(free)
      ensures PunTarget(next, BytesFor(target, low, free), high) == target
    {
      TargetHasItsBytes(next, target, free, high);
    }
  }

  lemma TargetHasItsBytes(next: int, target: int, free: nat, high: seq<byte>)
    requires free + |high| == 4 && high != []
    requires var low := PunTarget(next, Zeros(free), high); low <= target < low + Pow256(free)
    ensures PunTarget(next, BytesFor(target, PunTarget(next, Zeros(free), high), free), high) == target
  {
    hide Unsigned, Encode, Pow256;
    var low := PunTarget(next, Zeros(free), high);
    UnsignedOfEncode(target - low, free);
    SignedOfSplit(BytesFor(target, low, free), high);
  }

  lemma BytesReachTheirTarget(next: int, bytes: seq<byte>, high: seq<byte>)
    requires |bytes| + |high| == 4 && high != []
    ensures var low := PunTarget(next, Zeros(|bytes|), high);
            && PunTarget(next, bytes, high) == low + Unsigned(bytes)
            && BytesFor(low + Unsigned(bytes), low, |bytes|) == bytes
  {
    hide Unsigned, Encode, Pow256;
    SignedOfSplit(bytes, high);
    EncodeOfUnsigned(bytes);
  }

  /** Some choice of the free bytes lands on this address. */
  ghost predicate Encodable(next: int, free: nat, high: seq<byte>, target: int)
    requires free + |high| == 4
  {
    exists bytes: seq<byte> :: |bytes| == free && PunTarget(next, bytes, high) == target
  }

  lemma WindowIsEncodable(next: int, free: nat, high: seq<byte>)
    requires free + |high| == 4 && high != []
    ensures var low := PunTarget(next, Zeros(free), high);
            forall target :: low <= target < low + Pow256(free) <==> Encodable(next, free, high, target)
  {
    var low := PunTarget(next, Zeros(free), high);
    WindowIsExact(next, free, high);
    forall target: int ensures low <= target < low + Pow256(free) <==> Encodable(next, free, high, target) {
      if low <= target < low + Pow256(free) {
        assert PunTarget(next, BytesFor(target, low, free), high) == target;
      }
    }
  }

  /** Where an accepted pun's window starts and how long it is. */
  lemma AcceptedGeometry(parts: PlanParts)
    requires PunAccepted(parts)
    ensures parts.Shape().targetWindow.start
            == PunTarget(parts.physicalPc + 5 + parts.Prefixes(), Zeros(parts.Free()), SuccessorBytes(parts))
    ensures parts.Shape().targetWindow.Len() == Pow256(parts.Free())
  {
  }

  /** An accepted plan's window holds exactly the addresses its free bytes can encode. */
  lemma AcceptedWindowIsExact(parts: PlanParts)
    requires PunAccepted(parts)
    ensures forall target ::
              parts.Shape().targetWindow.Contains(target)
              <==> Encodable(parts.physicalPc + 5 + parts.Prefixes(), parts.Free(), SuccessorBytes(parts), target)
  {
    hide CheckPun, PunTarget, Pow256, Encodable, SuccessorBytes;
    AcceptedGeometry(parts);
    WindowIsEncodable(parts.physicalPc + 5 + parts.Prefixes(), parts.Free(), SuccessorBytes(parts));
  }

  /** `CheckPunWindow` without its second range test and without asking whether the window contains the target. */
  function CheckPunWindowBriefly(parts: PlanParts): Result<(), Refusal>
    requires parts.IsPun() && CheckPunEncoding(parts).Ok?
  {
    var original :- OriginalBytes(parts.readSet, parts.Shape().consumed);
    var free, high := parts.Free(), original[parts.Width()..];
    var next := parts.physicalPc + 5 + parts.Prefixes();
    var low := PunTarget(next, Zeros(free), high);
    var _ :- Need(0 <= low < 0x1_0000_0000_0000_0000, InvalidPlan);
    var window :- NewRange(low, Pow256(free));
    var _ :- Need(parts.Shape().targetWindow == window, InvalidPlan);
    Need(parts.generated[0].image.address == PunTarget(next, parts.writes[0].bytes[parts.Prefixes() + 1..], high), InvalidPlan)
  }

  /** The containment test and the second range test refuse nothing that the window test lets through. */
  lemma ContainmentIsImplied(parts: PlanParts)
    requires parts.IsPun() && CheckPunEncoding(parts).Ok?
    ensures CheckPunWindow(parts).Ok? <==> CheckPunWindowBriefly(parts).Ok?
  {
    hide OriginalBytes, Signed, Unsigned, Pow256, Zeros, PunTarget;
    if CheckPunWindowBriefly(parts).Ok? {
      var original := OriginalBytes(parts.readSet, parts.Shape().consumed).value;
      var high := original[parts.Width()..];
      BytesReachTheirTarget(parts.physicalPc + 5 + parts.Prefixes(), parts.writes[0].bytes[parts.Prefixes() + 1..], high);
    }
  }
}
