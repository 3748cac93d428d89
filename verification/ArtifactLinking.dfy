/** The linking loop of src/artifact_fixups.rs and what a linked image is good for. */
module ArtifactLinking {
  import opened LittleEndian
  import opened Wrappers
  import opened Sorting
  import opened ArtifactFixups
  import opened ArtifactTargets

  // ---------------------------------------------------------------- the loop

  datatype Write = Write(start: nat, bytes: seq<byte>)

  predicate Inside(writes: seq<Write>, size: nat) {
    forall k | 0 <= k < |writes| :: writes[k].start + |writes[k].bytes| <= size
  }

  function Patched(template: seq<byte>, writes: seq<Write>): (r: seq<byte>)
    requires Inside(writes, |template|)
    ensures |r| == |template|
  {
    if writes == [] then template
    else
      var n := |writes| - 1;
      Patch(Patched(template, writes[..n]), writes[n].start, writes[n].bytes)
  }

  /** A refused prefix refuses the whole ledger, with the same error. */
  lemma {:induction false} PrefixRefuses(l: Linkage, ordered: seq<Fixup>, k: nat)
    requires |l.template| == l.current.len && k <= |ordered| && LedgerLinked(l, ordered[..k]).Err?
    ensures LedgerLinked(l, ordered) == LedgerLinked(l, ordered[..k])
    decreases |ordered|
  {
    hide FieldChecked;
    if k == |ordered| {
      assert ordered[..k] == ordered;
    } else {
      var n := |ordered| - 1;
      assert ordered[..n][..k] == ordered[..k];
      PrefixRefuses(l, ordered[..n], k);
    }
  }

  /** One more field of a ledger whose first k fields have linked. */
  lemma LedgerStep(l: Linkage, ordered: seq<Fixup>, k: nat, writes: seq<Write>)
    requires |l.template| == l.current.len && k < |ordered| && Inside(writes, |l.template|)
    requires LedgerLinked(l, ordered[..k]) == Ok(Patched(l.template, writes))
    ensures var checked := FieldChecked(l, ordered[k], if k == 0 then None else Some(ordered[k - 1]));
            if checked.Err? then LedgerLinked(l, ordered) == Err(checked.error)
            else
              var more := writes + [Write(ordered[k].offset, checked.value)];
              Inside(more, |l.template|) && LedgerLinked(l, ordered[..k + 1]) == Ok(Patched(l.template, more))
  {
    hide FieldChecked, LedgerLinked, Patched, Patch;
    UnfoldLedger(l, ordered, k);
    var checked := FieldChecked(l, ordered[k], if k == 0 then None else Some(ordered[k - 1]));
    if checked.Err? {
      PrefixRefuses(l, ordered, k + 1);
    } else {
      PatchedGrows(l.template, writes, Write(ordered[k].offset, checked.value));
    }
  }

  lemma UnfoldLedger(l: Linkage, ordered: seq<Fixup>, k: nat)
    requires |l.template| == l.current.len && k < |ordered| && LedgerLinked(l, ordered[..k]).Ok?
    ensures var checked := FieldChecked(l, ordered[k], if k == 0 then None else Some(ordered[k - 1]));
            if checked.Err? then LedgerLinked(l, ordered[..k + 1]) == Err(checked.error)
            else
              && ordered[k].offset + |checked.value| <= |l.template|
              && LedgerLinked(l, ordered[..k + 1]) == Ok(Patch(LedgerLinked(l, ordered[..k]).value, ordered[k].offset, checked.value))
  {
    hide FieldBytes, Patch;
    assert ordered[..k + 1][..k] == ordered[..k] && ordered[..k + 1][k] == ordered[k];
  }

  lemma PatchedGrows(template: seq<byte>, writes: seq<Write>, write: Write)
    requires Inside(writes, |template|) && write.start + |write.bytes| <= |template|
    ensures Inside(writes + [write], |template|)
    ensures Patched(template, writes + [write]) == Patch(Patched(template, writes), write.start, write.bytes)
  {
    hide Patch;
    assert (writes + [write])[..|writes|] == writes;
  }

  method CheckPlacements(placements: seq<ImagePlacement>) returns (r: Result<(), Error>)
    ensures r == PlacementsChecked(placements, 0)
  {
    var index := 0;
    while index < |placements|
      invariant index <= |placements| && PlacementsChecked(placements, 0) == PlacementsChecked(placements, index)
    {
      var item := placements[index];
      if exists j | 0 <= j < index :: placements[j].image == item.image {
        return Err(DuplicateImage(item.image));
      }
      if !FitsI128(item.address.offset + item.len) {
        return Err(ArithmeticOverflow);
      }
      index := index + 1;
    }
    r := Ok(());
  }

  lemma NothingLinked(l: Linkage, ordered: seq<Fixup>)
    requires |l.template| == l.current.len
    ensures LedgerLinked(l, ordered[..0]) == Ok(Patched(l.template, []))
  {
  }

  /** Validates every field in offset order and collects its bytes; nothing is written yet. */
  method CollectWrites(l: Linkage, ordered: seq<Fixup>) returns (r: Result<seq<Write>, Error>)
    requires |l.template| == l.current.len
    ensures match r
            case Err(error) => LedgerLinked(l, ordered) == Err(error)
            case Ok(writes) => Inside(writes, |l.template|) && LedgerLinked(l, ordered) == Ok(Patched(l.template, writes))
  {
    hide FieldChecked, Patched, Patch, LedgerLinked;
    assert LedgerLinked(l, ordered[..0]) == Ok(Patched(l.template, [])) by {
      NothingLinked(l, ordered);
    }
    var previous: Option<(U64, U64)> := None;
    var writes: seq<Write> := [];
    var k := 0;
    while k < |ordered|
      invariant k <= |ordered| && Inside(writes, |l.template|)
      invariant LedgerLinked(l, ordered[..k]) == Ok(Patched(l.template, writes))
      invariant previous == if k == 0 then None else Some((ordered[k - 1].offset, ordered[k - 1].End()))
    {
      var field := ordered[k];
      var checked := CheckField(l, field, previous, if k == 0 then None else Some(ordered[k - 1]));
      LedgerStep(l, ordered, k, writes);
      if checked.Err? {
        return Err(checked.error);
      }
      previous := Some((field.offset, field.End()));
      writes := writes + [Write(field.offset, checked.value)];
      k := k + 1;
    }
    assert ordered[..k] == ordered;
    r := Ok(writes);
  }

  method CheckField(l: Linkage, field: Fixup, previous: Option<(U64, U64)>, ghost before: Option<Fixup>)
    returns (r: Result<seq<byte>, Error>)
    requires |l.template| == l.current.len
    requires match before
             case None => previous.None?
             case Some(earlier) => previous.Some? && previous.value == (earlier.offset, earlier.End())
    ensures r == FieldChecked(l, field, before)
    ensures r.Ok? ==> field.offset + |r.value| <= |l.template| && field.End() < 0x1_0000_0000_0000_0000
  {
    hide FieldBytes;
    var width := field.encoding.Width();
    var end := field.offset + width;
    if end >= 0x1_0000_0000_0000_0000 {
      return Err(ArithmeticOverflow);
    }
    if end > |l.template| {
      return Err(FieldOutOfBounds(field.offset, width, l.current.len));
    }
    if previous.Some? && field.offset < previous.value.1 {
      return Err(OverlappingFields(previous.value.0, field.offset));
    }
    if |field.expected| != width {
      return Err(ExpectedWidth(field.offset, |field.expected|, width));
    }
    if l.template[field.offset..end] != field.expected {
      return Err(TemplateMismatch(field.offset));
    }
    r := FieldBytes(l, field);
  }

  method CopyWrites(template: seq<byte>, writes: seq<Write>) returns (linked: seq<byte>)
    requires Inside(writes, |template|)
    ensures linked == Patched(template, writes)
  {
    hide Patch;
    var buffer := new byte[|template|](i requires 0 <= i < |template| => template[i]);
    var k := 0;
    assert buffer[..] == template;
    while k < |writes|
      invariant k <= |writes| && buffer[..] == Patched(template, writes[..k])
      modifies buffer
    {
      PatchedGrows(template, writes[..k], writes[k]);
      assert writes[..k + 1] == writes[..k] + [writes[k]];
      CopyInto(buffer, writes[k].start, writes[k].bytes);
      k := k + 1;
    }
    assert writes[..k] == writes;
    linked := buffer[..];
  }

  method CopyInto(buffer: array<byte>, start: nat, bytes: seq<byte>)
    requires start + |bytes| <= buffer.Length
    modifies buffer
    ensures buffer[..] == Patch(old(buffer[..]), start, bytes)
  {
    forall i | start <= i < start + |bytes| {
      buffer[i] := bytes[i - start];
    }
  }

  method Link(
    image: ImageId, template: seq<byte>, fields: seq<Fixup>, placements: seq<ImagePlacement>, fixedDomain: Option<BiasDomain>)
    returns (r: Result<seq<byte>, Error>)
    ensures r == Linked(image, template, fields, placements, fixedDomain)
  {
    hide StableSort, LedgerLinked, FieldChecked, Patched;
    var checked := CheckPlacements(placements);
    if checked.Err? {
      return Err(checked.error);
    }
    var current := Placement(placements, image);
    if current.Err? {
      return Err(current.error);
    }
    if |template| >= 0x1_0000_0000_0000_0000 {
      return Err(ArithmeticOverflow);
    }
    if current.value.len != |template| {
      return Err(ImageLengthMismatch(current.value.len, |template|));
    }
    var writes := CollectWrites(Linkage(template, current.value, placements, fixedDomain), StableSort(fields, FIELD_KEY));
    if writes.Err? {
      return Err(writes.error);
    }
    var linked := CopyWrites(template, writes.value);
    r := Ok(linked);
  }

  // ---------------------------------------------------------------- every field reaches its target

  /** Where a processor reading the linked field with the image loaded at `bias` ends up. */
  function Resolves(l: Linkage, field: Fixup, out: seq<byte>, bias: int): int
    requires field.encoding.Origin().Some? && field.End() <= |out|
  {
    bias + l.current.address.offset + field.encoding.Origin().value + Signed(out[field.offset..field.End()])
  }

  /**
   * The field leads to the point its target denotes, moved by the load bias; a fixed one is left as the encoder wrote
   * it and holds its target's coordinate.
   */
  ghost predicate Reaches(l: Linkage, field: Fixup, out: seq<byte>, bias: int) {
    && field.End() <= |out| == |l.template|
    && (if field.encoding.FixedSigned32? then
          && l.fixedDomain == Some(l.current.address.domain)
          && Denotes(l.placements, field.target, l.current.address.domain, Signed(out[field.offset..field.End()]))
          && out[field.offset..field.End()] == l.template[field.offset..field.End()]
        else
          && field.encoding.Origin().Some?
          && Denotes(l.placements, field.target, l.current.address.domain, Resolves(l, field, out, bias) - bias))
  }

  lemma FieldHoldsItsBytes(l: Linkage, fields: seq<Fixup>, out: seq<byte>, k: nat)
    requires GoodLedger(l, fields) && LinkedBytes(l, fields, out) && k < |fields|
    ensures fields[k].End() <= |out| == |l.template| && FieldBytes(l, fields[k]).Ok?
    ensures out[fields[k].offset..fields[k].End()] == FieldBytes(l, fields[k]).value
  {
    hide FieldBytes, Apart;
    assert FieldFits(l, fields[k]);
    var field, bytes := fields[k], FieldBytes(l, fields[k]).value;
    forall i | field.offset <= i < field.End() ensures out[i] == bytes[i - field.offset] {
      assert field.Contains(i);
    }
  }

  /**
   * Load-bias cancellation: a relative field of a linked image reaches its target's own run-time address
   * at every load bias. A fixed field is left as the encoder wrote it and holds its target's address.
   */
  lemma FieldsReachTheirTargets(
    image: ImageId, template: seq<byte>, fields: seq<Fixup>, placements: seq<ImagePlacement>,
    fixedDomain: Option<BiasDomain>, k: nat, bias: int)
    requires Linked(image, template, fields, placements, fixedDomain).Ok? && k < |fields|
    ensures var l := Prepare(image, template, placements, fixedDomain).value;
            l.placements == placements && l.fixedDomain == fixedDomain && l.template == template
    ensures Reaches(
              Prepare(image, template, placements, fixedDomain).value, fields[k],
              Linked(image, template, fields, placements, fixedDomain).value, bias)
  {
    hide GoodLedger, LinkedBytes, Linked, FieldBytes, Denotes, TargetAddress;
    LinkedMeans(image, template, fields, placements, fixedDomain);
    var l := Prepare(image, template, placements, fixedDomain).value;
    FieldHoldsItsBytes(l, fields, Linked(image, template, fields, placements, fixedDomain).value, k);
    FieldFitsOf(l, fields, k);
    FieldLinksExactly(l, fields[k]);
  }

  /** A relative field's bytes are the distance from its origin to the point its target denotes. */
  ghost predicate LinksAt(l: Linkage, field: Fixup, coordinate: int) {
    var width := field.encoding.Width();
    && Denotes(l.placements, field.target, l.current.address.domain, coordinate)
    && (if field.encoding.FixedSigned32? then
          && l.fixedDomain == Some(l.current.address.domain)
          && FitsSigned(coordinate, 4) && EncodeSigned(coordinate, 4) == field.expected
        else
          && field.encoding.Origin().Some? && field.encoding.Origin().value <= |l.template|
          && FitsI128(l.current.address.offset + field.encoding.Origin().value)
          && FitsSigned(coordinate - (l.current.address.offset + field.encoding.Origin().value), width))
  }

  /** A field links exactly when its target denotes a point of the image's own domain that the field can express. */
  lemma FieldLinksExactly(l: Linkage, field: Fixup)
    requires PlacementsChecked(l.placements, 0).Ok?
    ensures FieldBytes(l, field).Ok? <==> exists coordinate: int :: LinksAt(l, field, coordinate)
    ensures FieldBytes(l, field).Ok? ==>
              if field.encoding.FixedSigned32? then
                && FieldBytes(l, field).value == field.expected
                && LinksAt(l, field, Signed(FieldBytes(l, field).value))
              else
                && field.encoding.Origin().Some?
                && LinksAt(l, field, l.current.address.offset + field.encoding.Origin().value + Signed(FieldBytes(l, field).value))
  {
    hide PlacementsChecked, Signed, EncodeSigned, Denotes, TargetAddress, Resolvable;
    TargetAddressExactly(l.placements, field.target);
    SmallWidths();
    var goal := TargetAddress(l.placements, field.target);
    if FieldBytes(l, field).Ok? {
      assert LinksAt(l, field, goal.value.offset);
      if field.encoding.FixedSigned32? {
        EncodeSignedRoundTrip(goal.value.offset, 4);
      } else {
        EncodeSignedRoundTrip(goal.value.offset - (l.current.address.offset + field.encoding.Origin().value), field.encoding.Width());
      }
    }
  }

  /** What fits a field fits 128 bits. */
  lemma SmallWidths()
    ensures forall v, width | FitsSigned(v, width) && (width == 1 || width == 4 || width == 8) :: FitsI128(v)
  {
    assert Pow256(4) == 0x1_0000_0000;
    assert Pow256(8) == 256 * (256 * (256 * (256 * Pow256(4))));
  }

  /**
   * In numbers: a relative field at load bias b leads to b + value for an address, and to b + start + offset for an
   * offset into the image that placements[k] lists; a fixed field holds that coordinate itself.
   */
  lemma LinkedFieldGoesTo(
    image: ImageId, template: seq<byte>, fields: seq<Fixup>, placements: seq<ImagePlacement>,
    fixedDomain: Option<BiasDomain>, f: nat, k: nat, bias: int)
    requires Linked(image, template, fields, placements, fixedDomain).Ok? && f < |fields| && k < |placements|
    ensures var l, out := Prepare(image, template, placements, fixedDomain).value, Linked(image, template, fields, placements, fixedDomain).value;
            var field := fields[f];
            && field.End() <= |out| && (field.encoding.FixedSigned32? || field.encoding.Origin().Some?)
            && var start := if field.encoding.FixedSigned32? then 0 else bias;
               var reached := if field.encoding.FixedSigned32? then Signed(out[field.offset..field.End()]) else Resolves(l, field, out, bias);
               && !field.target.UnresolvedTarget?
               && (field.target.Address? ==> reached == start + field.target.value.offset)
               && (field.target.Image? && field.target.image == placements[k].image ==>
                     field.target.offset <= placements[k].len && reached == start + placements[k].address.offset + field.target.offset)
  {
    hide Linked, Signed;
    LinkedIsPrepared(image, template, fields, placements, fixedDomain);
    FieldsReachTheirTargets(image, template, fields, placements, fixedDomain, f, bias);
    ChecksPassExactly(placements);
    hide Prepare, PlacementsChecked;
  }

  lemma FieldFitsOf(l: Linkage, fields: seq<Fixup>, k: nat)
    requires GoodLedger(l, fields) && k < |fields|
    ensures FieldFits(l, fields[k])
  {
  }

  // ---------------------------------------------------------------- the two linkers

  /** Links without fixed fields; in the result every field reaches its target at every load bias. */
  method LinkBiasInvariant(image: ImageId, template: seq<byte>, fields: seq<Fixup>, placements: seq<ImagePlacement>)
    returns (r: Result<seq<byte>, Error>)
    ensures r == Linked(image, template, fields, placements, None)
    ensures !r.Err? ==>
              && Prepare(image, template, placements, None).Ok?
              && (forall k | 0 <= k < |fields| :: !fields[k].encoding.FixedSigned32?)
              && forall k, bias: int | 0 <= k < |fields| :: Reaches(Prepare(image, template, placements, None).value, fields[k], r.value, bias)
  {
    hide Linked, Prepare, Reaches;
    r := Link(image, template, fields, placements, None);
    if !r.Err? {
      LinkedIsPrepared(image, template, fields, placements, None);
      forall k | 0 <= k < |fields| ensures !fields[k].encoding.FixedSigned32? {
        NoFixedField(image, template, fields, placements, k);
      }
      forall k, bias: int | 0 <= k < |fields|
        ensures Reaches(Prepare(image, template, placements, None).value, fields[k], r.value, bias)
      {
        FieldsReachTheirTargets(image, template, fields, placements, None, k, bias);
      }
    }
  }

  /** Links fixed fields of one domain too; they reach their targets when the image is loaded at bias zero. */
  method LinkFixedZeroBias(
    image: ImageId, template: seq<byte>, fields: seq<Fixup>, placements: seq<ImagePlacement>, domain: BiasDomain)
    returns (r: Result<seq<byte>, Error>)
    ensures r == Linked(image, template, fields, placements, Some(domain))
    ensures !r.Err? ==>
              && Prepare(image, template, placements, Some(domain)).Ok?
              && forall k | 0 <= k < |fields| :: Reaches(Prepare(image, template, placements, Some(domain)).value, fields[k], r.value, 0)
  {
    hide Linked, Prepare, Reaches;
    r := Link(image, template, fields, placements, Some(domain));
    if !r.Err? {
      LinkedIsPrepared(image, template, fields, placements, Some(domain));
      forall k | 0 <= k < |fields|
        ensures Reaches(Prepare(image, template, placements, Some(domain)).value, fields[k], r.value, 0)
      {
        FieldsReachTheirTargets(image, template, fields, placements, Some(domain), k, 0);
      }
    }
  }

  lemma LinkedIsPrepared(
    image: ImageId, template: seq<byte>, fields: seq<Fixup>, placements: seq<ImagePlacement>, fixedDomain: Option<BiasDomain>)
    ensures Linked(image, template, fields, placements, fixedDomain).Ok? ==> Prepare(image, template, placements, fixedDomain).Ok?
  {
    hide LedgerLinked, StableSort, Prepare;
  }

  /** The bias-invariant linker refuses every fixed field. */
  lemma NoFixedField(image: ImageId, template: seq<byte>, fields: seq<Fixup>, placements: seq<ImagePlacement>, k: nat)
    requires Linked(image, template, fields, placements, None).Ok? && k < |fields|
    ensures !fields[k].encoding.FixedSigned32?
  {
    LinkedMeans(image, template, fields, placements, None);
    hide Linked, LinkedBytes;
    var l := Prepare(image, template, placements, None).value;
    FieldFitsOf(l, fields, k);
  }

  // ---------------------------------------------------------------- ledger order

  /** With distinct offsets even the refusal is the same in every ledger order. */
  lemma DistinctOffsetsFixTheResult(
    image: ImageId, template: seq<byte>, left: seq<Fixup>, right: seq<Fixup>, placements: seq<ImagePlacement>, fixedDomain: Option<BiasDomain>)
    requires multiset(left) == multiset(right)
    requires forall i, j | 0 <= i < j < |left| :: left[i].offset != left[j].offset
    ensures Linked(image, template, left, placements, fixedDomain) == Linked(image, template, right, placements, fixedDomain)
  {
    var l, r := StableSort(left, FIELD_KEY), StableSort(right, FIELD_KEY);
    assert l == r by {
      hide LedgerLinked, StableSort;
      StableSortSorts(left, FIELD_KEY);
      StableSortSorts(right, FIELD_KEY);
      forall i, j | 0 <= i < j < |l| ensures FIELD_KEY(l[i]) != FIELD_KEY(l[j]) {
        PairPermutes(l, left, i, j);
        var m, n :| 0 <= m < |left| && 0 <= n < |left| && m != n && left[m] == l[i] && left[n] == l[j];
        assert left[m].offset != left[n].offset;
      }
      SortedIsUnique(l, r, FIELD_KEY);
    }
  }

  /** Equal offsets: both orders refuse, but the stable sort lets the order choose the refusal. */
  lemma EqualOffsetsCanChangeTheRefusal()
    ensures var a := Fixup(0, PcRelative8(1), UnresolvedTarget(1), Return, [0]);
            var b := Fixup(0, PcRelative8(1), UnresolvedTarget(2), Return, [0]);
            var here := [ImagePlacement(0, RelativeAddress(0, 0), 1)];
            && Linked(0, [0], [a, b], here, None) == Err(UnresolvedSymbol(1))
            && Linked(0, [0], [b, a], here, None) == Err(UnresolvedSymbol(2))
  {
    var a := Fixup(0, PcRelative8(1), UnresolvedTarget(1), Return, [0]);
    var b := Fixup(0, PcRelative8(1), UnresolvedTarget(2), Return, [0]);
    var here := [ImagePlacement(0, RelativeAddress(0, 0), 1)];
    FirstRefusalWins(a, b, here, 1);
    FirstRefusalWins(b, a, here, 2);
  }

  lemma FirstRefusalWins(first: Fixup, second: Fixup, here: seq<ImagePlacement>, symbol: U64)
    requires here == [ImagePlacement(0, RelativeAddress(0, 0), 1)] && second.offset == 0
    requires first == Fixup(0, PcRelative8(1), UnresolvedTarget(symbol), Return, [0])
    ensures Linked(0, [0], [first, second], here, None) == Err(UnresolvedSymbol(symbol))
  {
    var fields := [first, second];
    assert fields[..1] == [first] && fields[..1][..0] == [];
    assert StableSort([first], FIELD_KEY) == [first];
    assert StableSort(fields, FIELD_KEY) == fields;
    var l := Linkage([0], here[0], here, None);
    assert PlacementsChecked(here, 1) == Ok(());
    assert LedgerLinked(l, []) == Ok([0]);
    assert [first][..0] == [];
    assert LedgerLinked(l, [first]) == Err(UnresolvedSymbol(symbol));
    PrefixRefuses(l, fields, 1);
  }
}
