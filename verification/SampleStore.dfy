/** A three-byte instruction at the end of a cache line: its pun needs the aligned four-byte store that starts a byte early. */
module SampleStore {
  import opened LittleEndian
  import opened Wrappers
  import opened Contracts
  import opened PlanAcceptance
  import opened SampleRun

  const READ: AddressRange := Interval(0x103c, 0x1042)
  const CODE: seq<byte> := [0x90, 0x0f, 0x1f, 0x00, 0x48, 0x01]
  const WRITTEN: seq<byte> := [0xe9, 0x34, 0x12]

  /** The pun of `0F 1F 00` at 0x103d with this store; it inherits `48 01`. */
  function ThreeBytePun(store: ByteEdit): PlanParts {
    PlanParts(
      IDENTITY, InstallOnce,
      GeneralizedPun(PunShape(3, 0, Interval(0x103d, 0x1042), Interval(0x1481042, 0x1491042), store)),
      0x103d, 0x103d, Interval(0x103d, 0x1040),
      [Span(0x103c, CODE)], [Span(0x103d, WRITTEN)], [READ],
      LegalEntrySet(IDENTITY, READ, Complete, NoneExist), [],
      [Interval(0x1482276, 0x1482277)], [GeneratedCode(Span(0x1482276, [0xcc]), [])],
      Requirements(true, true, false))
  }

  const ALIGNED := Span(0x103c, [0x90, 0xe9, 0x34, 0x12])

  lemma ThreeBytesFit(store: ByteEdit)
    ensures PunShaped(ThreeBytePun(store)) && TargetFits(ThreeBytePun(store)) && Located(ThreeBytePun(store))
    ensures var parts := ThreeBytePun(store);
            && AllHeld(parts.readSet, parts.dependencies) && AllHeld(parts.writes, parts.dependencies)
            && AllAuthenticated(parts.writes, parts.readSet) && AllAllocated(parts.generated, parts.allocations)
  {
    var parts := ThreeBytePun(store);
    assert parts.dependencies[0] == READ;
    assert ReadAround(parts.readSet, 0, parts.writes[0].address, parts.writes[0].End());
    assert Authenticated(parts.writes[0], parts.readSet);
    assert parts.allocations[0] == Interval(0x1482276, 0x1482277);
    assert FirstRead(parts.readSet, 0, 0x103d, 0x1042);
    ThreeByteTarget(store);
  }

  lemma ThreeByteTarget(store: ByteEdit)
    requires PunShaped(ThreeBytePun(store)) && FirstRead([Span(0x103c, CODE)], 0, 0x103d, 0x1042)
    ensures TargetFits(ThreeBytePun(store))
  {
    var parts := ThreeBytePun(store);
    var high := Inherited(parts, parts.readSet[0]);
    assert high == [0x48, 0x01];
    assert seq(2, _ => 0) + high == [0, 0, 0x48, 0x01];
    assert parts.writes[0].bytes[1..] == [0x34, 0x12] && [0x34, 0x12] + high == [0x34, 0x12, 0x48, 0x01];
    UnsignedFour(0, 0, 0x48, 0x01);
    UnsignedFour(0x34, 0x12, 0x48, 0x01);
    hide Unsigned, Signed;
  }

  /** The four-byte store is accepted. */
  lemma ThreeBytePunIsAccepted()
    ensures IsPatchPlan(ThreeBytePun(ALIGNED))
  {
    var parts := ThreeBytePun(ALIGNED);
    ThreeBytesFit(ALIGNED);
    assert parts.dependencies[0] == READ;
    assert FirstRead(parts.readSet, 0, 0x103c, 0x1040);
    assert Pads(ALIGNED, parts.writes[0], parts.readSet[0]);
    CheckedAcceptsExactly(parts);
    hide Checked, TargetFits, PunShaped;
  }

  /** A store of exactly the three written bytes is refused, and so is any other width. */
  lemma OnlyFourBytesAreAccepted(store: ByteEdit)
    requires |store.bytes| != 4
    ensures Checked(ThreeBytePun(store)) == Err(InvalidPlan) || Checked(ThreeBytePun(store)) == Err(InvalidRange)
  {
    ThreeBytesFit(store);
    CheckedRefuses(ThreeBytePun(store));
    hide Checked, TargetFits;
  }
}
