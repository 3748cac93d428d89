/** Agreement of overlapping generated images: `validate_generated` of src/composition.rs. */
module GeneratedImages {
  import opened LittleEndian
  import opened Wrappers
  import opened Contracts

  function MappingRange(mapping: ProgramCounterMapping): Result<AddressRange, Refusal> {
    if mapping.generatedEnd < mapping.generatedStart then Err(InvalidRange)
    else NewRange(mapping.generatedStart, mapping.generatedEnd - mapping.generatedStart)
  }

  /** First-match translation, as `find_map` over the image's mappings. */
  function Translate(mappings: seq<ProgramCounterMapping>, pc: int): Option<U64> {
    if mappings == [] then None
    else
      var first := mappings[0].Translate(pc);
      if first.Some? then first else Translate(mappings[1..], pc)
  }

  // ---------------------------------------------------------------- pointwise meaning

  /** Both images hold `a`, with the same byte and the same application program counter. */
  predicate AgreeAt(left: GeneratedCode, right: GeneratedCode, a: int)
    requires left.image.Contains(a) && right.image.Contains(a)
  {
    left.image.At(a) == right.image.At(a) && Translate(left.programCounters, a) == Translate(right.programCounters, a)
  }

  ghost predicate Agree(left: GeneratedCode, right: GeneratedCode) {
    forall a | left.image.Contains(a) && right.image.Contains(a) :: AgreeAt(left, right, a)
  }

  predicate MappingsCompatible(left: ProgramCounterMapping, right: ProgramCounterMapping) {
    left.generatedStart < right.generatedEnd && right.generatedStart < left.generatedEnd
    ==> left.logicalAddress == right.logicalAddress
  }

  ghost predicate ImageWellFormed(code: GeneratedCode) {
    && code.image.Proper()
    && (forall m | m in code.programCounters ::
          code.image.address <= m.generatedStart < m.generatedEnd <= code.image.End())
    && (forall i, j | 0 <= j < i < |code.programCounters| ::
          MappingsCompatible(code.programCounters[j], code.programCounters[i]))
  }

  /** What acceptance means, address by address and without any sampling. */
  ghost predicate Consistent(images: seq<GeneratedCode>) {
    && (forall code | code in images :: ImageWellFormed(code))
    && (forall i, j | 0 <= j < i < |images| :: Agree(images[i], images[j]))
  }

  // ---------------------------------------------------------------- refusals in source order

  function MappingsChecked(range: AddressRange, mappings: seq<ProgramCounterMapping>, i: nat): Result<(), Refusal>
    requires i <= |mappings|
    decreases |mappings| - i
  {
    if i == |mappings| then Ok(())
    else
      var mapped :- MappingRange(mappings[i]);
      var _ :- Need(range.Covers(mapped), InvalidPlan);
      var _ :- Need(forall j | 0 <= j < i :: MappingsCompatible(mappings[j], mappings[i]), OwnershipConflict);
      MappingsChecked(range, mappings, i + 1)
  }

  ghost function GeneratedChecked(images: seq<GeneratedCode>, i: nat): Result<(), Refusal>
    requires i <= |images|
    decreases |images| - i
  {
    if i == |images| then Ok(())
    else
      var range :- images[i].image.Range();
      var _ :- MappingsChecked(range, images[i].programCounters, 0);
      var _ :- Need(forall j | 0 <= j < i :: Agree(images[i], images[j]), OwnershipConflict);
      GeneratedChecked(images, i + 1)
  }

  lemma {:induction false} MappingsCheckedMeans(range: AddressRange, mappings: seq<ProgramCounterMapping>, i: nat)
    requires i <= |mappings|
    ensures MappingsChecked(range, mappings, i).Ok? <==>
              forall k | i <= k < |mappings| ::
                && range.start <= mappings[k].generatedStart < mappings[k].generatedEnd <= range.end
                && forall j | 0 <= j < k :: MappingsCompatible(mappings[j], mappings[k])
    decreases |mappings| - i
  {
    if i < |mappings| {
      MappingsCheckedMeans(range, mappings, i + 1);
    }
  }

  lemma {:induction false} GeneratedCheckedFrom(images: seq<GeneratedCode>, i: nat)
    requires i <= |images|
    ensures GeneratedChecked(images, i).Ok? <==>
              forall k | i <= k < |images| ::
                ImageWellFormed(images[k]) && forall j | 0 <= j < k :: Agree(images[k], images[j])
    decreases |images| - i
  {
    if i < |images| {
      GeneratedCheckedFrom(images, i + 1);
      var image := images[i].image;
      if image.Proper() {
        MappingsCheckedMeans(image.Range().value, images[i].programCounters, 0);
      }
    }
  }

  /** The ordered check accepts exactly the pointwise consistent image lists. */
  lemma AcceptsExactlyConsistent(images: seq<GeneratedCode>)
    ensures GeneratedChecked(images, 0).Ok? <==> Consistent(images)
  {
    GeneratedCheckedFrom(images, 0);
  }

  // ---------------------------------------------------------------- sampling the boundaries

  ghost predicate BoundaryOf(mappings: seq<ProgramCounterMapping>, pc: int) {
    exists m | m in mappings :: m.generatedStart == pc || m.generatedEnd == pc
  }

  lemma {:induction false} ConstantOffBoundaries(mappings: seq<ProgramCounterMapping>, pc: int)
    requires !BoundaryOf(mappings, pc)
    ensures Translate(mappings, pc) == Translate(mappings, pc - 1)
  {
    if mappings != [] {
      assert mappings[0].generatedStart != pc && mappings[0].generatedEnd != pc;
      ConstantOffBoundaries(mappings[1..], pc);
    }
  }

  /** Translations that agree on the first shared address and on every boundary agree everywhere. */
  lemma {:induction false} BoundarySamplesSuffice(
    left: seq<ProgramCounterMapping>, right: seq<ProgramCounterMapping>, shared: AddressRange, pc: int)
    requires shared.Contains(pc)
    requires Translate(left, shared.start) == Translate(right, shared.start)
    requires forall b | shared.Contains(b) && (BoundaryOf(left, b) || BoundaryOf(right, b)) ::
               Translate(left, b) == Translate(right, b)
    ensures Translate(left, pc) == Translate(right, pc)
    decreases pc
  {
    if pc != shared.start && !BoundaryOf(left, pc) && !BoundaryOf(right, pc) {
      BoundarySamplesSuffice(left, right, shared, pc - 1);
      ConstantOffBoundaries(left, pc);
      ConstantOffBoundaries(right, pc);
    }
  }

  // ---------------------------------------------------------------- the original's loops

  method SharedBytesEqual(left: Span, right: Span, shared: AddressRange) returns (equal: bool)
    requires left.address <= shared.start && shared.end <= left.End()
    requires right.address <= shared.start && shared.end <= right.End()
    ensures equal <==> forall a | shared.Contains(a) :: left.At(a) == right.At(a)
  {
    var l := left.bytes[shared.start - left.address..shared.end - left.address];
    var r := right.bytes[shared.start - right.address..shared.end - right.address];
    equal := l == r;
    assert forall a | shared.Contains(a) :: left.At(a) == l[a - shared.start] && right.At(a) == r[a - shared.start];
    if !equal {
      var i :| 0 <= i < |l| && l[i] != r[i];
      assert shared.Contains(shared.start + i) && left.At(shared.start + i) != right.At(shared.start + i);
    }
  }

  lemma BoundaryOfOneMore(mappings: seq<ProgramCounterMapping>, k: nat, pc: int)
    requires k < |mappings|
    ensures BoundaryOf(mappings[..k + 1], pc) <==>
            BoundaryOf(mappings[..k], pc) || pc == mappings[k].generatedStart || pc == mappings[k].generatedEnd
  {
    assert mappings[..k + 1] == mappings[..k] + [mappings[k]];
    assert mappings[k] in mappings[..k + 1];
  }

  method CollectBoundaries(mappings: seq<ProgramCounterMapping>, shared: AddressRange, earlier: seq<int>)
    returns (boundaries: seq<int>)
    ensures forall b :: b in boundaries <==> b in earlier || (shared.Contains(b) && BoundaryOf(mappings, b))
  {
    boundaries := earlier;
    for k := 0 to |mappings|
      invariant forall b :: b in boundaries <==> b in earlier || (shared.Contains(b) && BoundaryOf(mappings[..k], b))
    {
      var m := mappings[k];
      forall b ensures BoundaryOf(mappings[..k + 1], b) <==>
                       BoundaryOf(mappings[..k], b) || b == m.generatedStart || b == m.generatedEnd
      {
        BoundaryOfOneMore(mappings, k, b);
      }
      if shared.Contains(m.generatedStart) {
        boundaries := boundaries + [m.generatedStart];
      }
      if shared.Contains(m.generatedEnd) {
        boundaries := boundaries + [m.generatedEnd];
      }
    }
    assert mappings[..|mappings|] == mappings;
  }

  method TranslationsAgreeOn(left: GeneratedCode, right: GeneratedCode, boundaries: seq<int>) returns (agree: bool)
    ensures agree <==> forall b | b in boundaries ::
                         Translate(left.programCounters, b) == Translate(right.programCounters, b)
  {
    for k := 0 to |boundaries|
      invariant forall i | 0 <= i < k ::
                  Translate(left.programCounters, boundaries[i]) == Translate(right.programCounters, boundaries[i])
    {
      if Translate(left.programCounters, boundaries[k]) != Translate(right.programCounters, boundaries[k]) {
        assert boundaries[k] in boundaries;
        return false;
      }
    }
    return true;
  }

  /** The sampled comparison of two images decides pointwise agreement. */
  method ImagesAgree(left: GeneratedCode, right: GeneratedCode) returns (agree: bool)
    requires left.image.Proper() && right.image.Proper()
    ensures agree <==> Agree(left, right)
  {
    var start := if left.image.address < right.image.address then right.image.address else left.image.address;
    var end := if left.image.End() < right.image.End() then left.image.End() else right.image.End();
    if start >= end {
      return true;
    }
    var shared: AddressRange := Interval(start, end);
    assert forall a :: shared.Contains(a) <==> left.image.Contains(a) && right.image.Contains(a);
    var equal := SharedBytesEqual(left.image, right.image, shared);
    if !equal {
      return false;
    }
    var boundaries := CollectBoundaries(left.programCounters, shared, [start]);
    boundaries := CollectBoundaries(right.programCounters, shared, boundaries);
    agree := TranslationsAgreeOn(left, right, boundaries);
    assert start in boundaries;
    if agree {
      forall a | left.image.Contains(a) && right.image.Contains(a) ensures AgreeAt(left, right, a) {
        BoundarySamplesSuffice(left.programCounters, right.programCounters, shared, a);
      }
    } else {
      var b :| b in boundaries && Translate(left.programCounters, b) != Translate(right.programCounters, b);
      assert shared.Contains(b) && !AgreeAt(left, right, b);
    }
  }

  method CheckMappings(range: AddressRange, mappings: seq<ProgramCounterMapping>) returns (r: Result<(), Refusal>)
    ensures r == MappingsChecked(range, mappings, 0)
  {
    for i := 0 to |mappings|
      invariant MappingsChecked(range, mappings, 0) == MappingsChecked(range, mappings, i)
      invariant forall j | 0 <= j < i :: MappingRange(mappings[j]).Ok?
    {
      var mapped :- MappingRange(mappings[i]);
      if !range.Covers(mapped) {
        return Err(InvalidPlan);
      }
      for j := 0 to i
        invariant forall k | 0 <= k < j :: MappingsCompatible(mappings[k], mappings[i])
      {
        var prior := MappingRange(mappings[j]).value;
        if prior.Overlaps(mapped) && mappings[j].logicalAddress != mappings[i].logicalAddress {
          return Err(OwnershipConflict);
        }
      }
    }
    return Ok(());
  }

  method ValidateGenerated(images: seq<GeneratedCode>) returns (r: Result<(), Refusal>)
    ensures r == GeneratedChecked(images, 0)
    ensures r.Ok? <==> Consistent(images)
  {
    hide Consistent, MappingsChecked, Agree;
    AcceptsExactlyConsistent(images);
    for i := 0 to |images|
      invariant GeneratedChecked(images, 0) == GeneratedChecked(images, i)
      invariant forall j | 0 <= j < i :: images[j].image.Proper()
    {
      var range :- images[i].image.Range();
      var mapped := CheckMappings(range, images[i].programCounters);
      var _ :- mapped;
      for j := 0 to i
        invariant forall k | 0 <= k < j :: Agree(images[i], images[k])
      {
        var agree := ImagesAgree(images[i], images[j]);
        if !agree {
          return Err(OwnershipConflict);
        }
      }
    }
    return Ok(());
  }
}
