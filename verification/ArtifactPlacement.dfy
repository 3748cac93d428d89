/** Moving what src/artifact_fixups.rs links: a whole bias domain, or a fragment into its container. */
module ArtifactPlacement {
  import opened LittleEndian
  import opened Wrappers
  import opened Sorting
  import opened ArtifactFixups
  import opened ArtifactTargets
  import opened ArtifactLinking

  // ---------------------------------------------------------------- shifting a domain

  /** The same address after every coordinate of domain `d` has moved by `c`. */
  predicate AddressShifted(x: RelativeAddress, y: RelativeAddress, d: BiasDomain, c: int) {
    y.domain == x.domain && y.offset == x.offset + if x.domain == d then c else 0
  }

  predicate TargetShifted(x: Target, y: Target, d: BiasDomain, c: int) {
    if x.Address? then y.Address? && AddressShifted(x.value, y.value, d, c) else y == x
  }

  predicate FieldShifted(x: Fixup, y: Fixup, d: BiasDomain, c: int) {
    y == x.(target := y.target) && TargetShifted(x.target, y.target, d, c)
  }

  /** The image moves with its domain, and its end leaves the coordinate space neither by moving nor by moving back. */
  predicate ImageShifted(x: ImagePlacement, y: ImagePlacement, d: BiasDomain, c: int) {
    && y == x.(address := y.address) && AddressShifted(x.address, y.address, d, c)
    && (FitsI128(x.address.offset + x.len) <==> FitsI128(y.address.offset + y.len))
  }

  ghost predicate ImagesShifted(left: seq<ImagePlacement>, right: seq<ImagePlacement>, d: BiasDomain, c: int) {
    |left| == |right| && forall i | 0 <= i < |left| :: ImageShifted(left[i], right[i], d, c)
  }

  ghost predicate FieldsShifted(left: seq<Fixup>, right: seq<Fixup>, d: BiasDomain, c: int) {
    |left| == |right| && forall i | 0 <= i < |left| :: FieldShifted(left[i], right[i], d, c)
  }

  lemma {:induction false} ChecksShift(left: seq<ImagePlacement>, right: seq<ImagePlacement>, d: BiasDomain, c: int, i: nat)
    requires ImagesShifted(left, right, d, c) && i <= |left|
    ensures PlacementsChecked(left, i) == PlacementsChecked(right, i)
    decreases |left| - i
  {
    if i < |left| {
      ChecksShift(left, right, d, c, i + 1);
    }
  }

  lemma {:induction false} LookupShifts(left: seq<ImagePlacement>, right: seq<ImagePlacement>, d: BiasDomain, c: int, image: ImageId)
    requires ImagesShifted(left, right, d, c)
    ensures match Placement(left, image)
            case Err(e) => Placement(right, image) == Err(e)
            case Ok(x) => x in left && Placement(right, image).Ok? && ImageShifted(x, Placement(right, image).value, d, c)
  {
    if left != [] {
      LookupShifts(left[1..], right[1..], d, c, image);
    }
  }

  lemma TargetShifts(left: seq<ImagePlacement>, right: seq<ImagePlacement>, d: BiasDomain, c: int, x: Target, y: Target)
    requires ImagesShifted(left, right, d, c) && TargetShifted(x, y, d, c) && PlacementsChecked(left, 0).Ok?
    ensures match TargetAddress(left, x)
            case Err(e) => TargetAddress(right, y) == Err(e)
            case Ok(a) => TargetAddress(right, y).Ok? && AddressShifted(a, TargetAddress(right, y).value, d, c)
  {
    hide PlacementsChecked, Placement, ImagesShifted;
    if x.Image? {
      LookupShifts(left, right, d, c, x.image);
      if Placement(left, x.image).Ok? {
        var k :| 0 <= k < |left| && left[k] == Placement(left, x.image).value;
        CheckedEnds(left, 0, k);
      }
    }
  }

  lemma FieldBytesShift(l: Linkage, m: Linkage, d: BiasDomain, c: int, x: Fixup, y: Fixup)
    requires LinkagesShifted(l, m, d, c) && FieldShifted(x, y, d, c)
    ensures FieldBytes(l, x) == FieldBytes(m, y)
  {
    hide ImagesShifted, PlacementsChecked, TargetAddress, EncodeSigned, FitsSigned;
    TargetShifts(l.placements, m.placements, d, c, x.target, y.target);
  }

  ghost predicate LinkagesShifted(l: Linkage, m: Linkage, d: BiasDomain, c: int) {
    && l.template == m.template && |l.template| == l.current.len
    && l.fixedDomain.None? && m.fixedDomain.None?
    && ImageShifted(l.current, m.current, d, c) && ImagesShifted(l.placements, m.placements, d, c)
    && PlacementsChecked(l.placements, 0).Ok? && FitsI128(l.current.address.offset + l.current.len)
  }

  lemma {:induction false} LedgerShifts(l: Linkage, m: Linkage, d: BiasDomain, c: int, left: seq<Fixup>, right: seq<Fixup>)
    requires LinkagesShifted(l, m, d, c) && FieldsShifted(left, right, d, c)
    ensures LedgerLinked(l, left) == LedgerLinked(m, right)
  {
    hide FieldBytes, ImagesShifted, PlacementsChecked;
    if left != [] {
      var n := |left| - 1;
      LedgerShifts(l, m, d, c, left[..n], right[..n]);
      assert FieldShifted(left[n], right[n], d, c);
      assert n > 0 ==> FieldShifted(left[n - 1], right[n - 1], d, c);
      FieldBytesShift(l, m, d, c, left[n], right[n]);
    }
  }

  /** Moving every placement and target of one bias domain by the same amount changes neither image nor refusal. */
  lemma ShiftingADomainChangesNothing(
    image: ImageId, template: seq<byte>, left: seq<Fixup>, right: seq<Fixup>,
    before: seq<ImagePlacement>, after: seq<ImagePlacement>, d: BiasDomain, c: int)
    requires FieldsShifted(left, right, d, c) && ImagesShifted(before, after, d, c)
    ensures Linked(image, template, left, before, None) == Linked(image, template, right, after, None)
  {
    hide StableSort, LedgerLinked, ImagesShifted, PlacementsChecked, Placement;
    ChecksShift(before, after, d, c, 0);
    LookupShifts(before, after, d, c, image);
    var l := Prepare(image, template, before, None);
    if l.Ok? {
      var k :| 0 <= k < |before| && before[k] == l.value.current;
      CheckedEnds(before, 0, k);
      SortRelates(left, right, FIELD_KEY, (x, y) => FieldShifted(x, y, d, c), 0);
      LedgerShifts(l.value, Prepare(image, template, after, None).value, d, c,
                   StableSort(left, FIELD_KEY), StableSort(right, FIELD_KEY));
    }
  }

  // ---------------------------------------------------------------- exactly when a shift is invisible

  /** The images of domain `d` have moved by `c`; nothing is said about their ends. */
  ghost predicate ImagesMoved(left: seq<ImagePlacement>, right: seq<ImagePlacement>, d: BiasDomain, c: int) {
    && |left| == |right|
    && forall i | 0 <= i < |left| :: right[i] == left[i].(address := right[i].address) && AddressShifted(left[i].address, right[i].address, d, c)
  }

  lemma MovedImagesStayDistinct(left: seq<ImagePlacement>, right: seq<ImagePlacement>, d: BiasDomain, c: int)
    requires ImagesMoved(left, right, d, c)
    ensures DistinctImages(left) <==> DistinctImages(right)
  {
    assert forall i | 0 <= i < |left| :: left[i].image == right[i].image;
  }

  lemma RefusedPlacementsRefuse(image: ImageId, template: seq<byte>, fields: seq<Fixup>, placements: seq<ImagePlacement>)
    requires PlacementsChecked(placements, 0).Err?
    ensures Linked(image, template, fields, placements, None) == Err(PlacementsChecked(placements, 0).error)
  {
    hide PlacementsChecked;
  }

  /**
   * A shift of one domain is invisible exactly when the placement check answers alike before and after it, or the
   * list that passes the check links to the very overflow the other list is refused with.
   */
  lemma ShiftIsInvisibleExactly(
    image: ImageId, template: seq<byte>, left: seq<Fixup>, right: seq<Fixup>,
    before: seq<ImagePlacement>, after: seq<ImagePlacement>, d: BiasDomain, c: int)
    requires FieldsShifted(left, right, d, c) && ImagesMoved(before, after, d, c)
    ensures var x, y := PlacementsChecked(before, 0), PlacementsChecked(after, 0);
            Linked(image, template, left, before, None) == Linked(image, template, right, after, None) <==>
              || x == y
              || (x.Ok? && Linked(image, template, left, before, None) == Err(ArithmeticOverflow))
              || (y.Ok? && Linked(image, template, right, after, None) == Err(ArithmeticOverflow))
  {
    hide Linked, PlacementsChecked;
    ChecksPassExactly(before);
    ChecksPassExactly(after);
    MovedImagesStayDistinct(before, after, d, c);
    if PlacementsChecked(before, 0).Err? {
      RefusedPlacementsRefuse(image, template, left, before);
    }
    if PlacementsChecked(after, 0).Err? {
      RefusedPlacementsRefuse(image, template, right, after);
    }
    if PlacementsChecked(before, 0).Ok? && PlacementsChecked(after, 0).Ok? {
      assert ImagesShifted(before, after, d, c);
      ShiftingADomainChangesNothing(image, template, left, right, before, after, d, c);
    }
  }

  /** What links before the shift links to the same image after it exactly when every shifted image end still fits. */
  lemma LinkedImageSurvivesShiftExactly(
    image: ImageId, template: seq<byte>, left: seq<Fixup>, right: seq<Fixup>,
    before: seq<ImagePlacement>, after: seq<ImagePlacement>, d: BiasDomain, c: int)
    requires FieldsShifted(left, right, d, c) && ImagesMoved(before, after, d, c)
    requires Linked(image, template, left, before, None).Ok?
    ensures Linked(image, template, right, after, None) == Linked(image, template, left, before, None) <==> EndsFit(after)
  {
    hide LedgerLinked, StableSort, PlacementsChecked, Placement;
    ChecksPassExactly(before);
    ChecksPassExactly(after);
    MovedImagesStayDistinct(before, after, d, c);
    ShiftIsInvisibleExactly(image, template, left, right, before, after, d, c);
  }

  /** One byte at coordinate 0 links; shifted to the last coordinate its end does not fit and it is refused. */
  lemma ShiftCanOverflow()
    ensures var before := [ImagePlacement(0, RelativeAddress(0, 0), 1)];
            var after := [ImagePlacement(0, RelativeAddress(0, I128_LIMIT - 1), 1)];
            && ImagesMoved(before, after, 0, I128_LIMIT - 1)
            && Linked(0, [0], [], before, None) == Ok([0])
            && Linked(0, [0], [], after, None) == Err(ArithmeticOverflow)
  {
    var before := [ImagePlacement(0, RelativeAddress(0, 0), 1)];
    assert PlacementsChecked(before, 1) == Ok(());
    assert StableSort([], FIELD_KEY) == [];
  }

  // ---------------------------------------------------------------- placing a fragment in a container

  /** The container holds the fragment's template after its prefix, and the fragment was linked at that address. */
  ghost predicate Contains(part: Linkage, whole: Linkage, prefix: seq<byte>, suffix: seq<byte>) {
    && whole.template == prefix + part.template + suffix
    && |part.template| == part.current.len && |whole.template| == whole.current.len
    && part.fixedDomain.None? && whole.fixedDomain.None?
    && part.current.address.domain == whole.current.address.domain
    && part.current.address.offset == whole.current.address.offset + |prefix|
    && FitsI128(whole.current.address.offset + whole.current.len)
  }

  ghost predicate FieldsMoved(fields: seq<Fixup>, moved: seq<Fixup>, shift: int) {
    && 0 <= shift < 0x1_0000_0000_0000_0000 && |moved| == |fields|
    && forall k | 0 <= k < |fields| :: Rebased(fields[k], shift) == Ok(moved[k])
  }

  ghost predicate SameTargets(fields: seq<Fixup>, left: seq<ImagePlacement>, right: seq<ImagePlacement>) {
    forall k | 0 <= k < |fields| :: TargetAddress(left, fields[k].target) == TargetAddress(right, fields[k].target)
  }

  /** A field that links in its fragment can always be moved. */
  lemma LinkedFieldsMove(part: Linkage, whole: Linkage, prefix: seq<byte>, suffix: seq<byte>, field: Fixup)
    requires Contains(part, whole, prefix, suffix) && FieldFits(part, field)
    ensures Rebased(field, |prefix|).Ok?
  {
    hide TargetAddress, EncodeSigned, FitsSigned;
  }

  lemma FieldMoves(part: Linkage, whole: Linkage, prefix: seq<byte>, suffix: seq<byte>, x: Fixup, y: Fixup)
    requires Contains(part, whole, prefix, suffix) && FieldFits(part, x) && |prefix| < 0x1_0000_0000_0000_0000
    requires Rebased(x, |prefix|) == Ok(y) && TargetAddress(part.placements, x.target) == TargetAddress(whole.placements, x.target)
    ensures y.offset == x.offset + |prefix| && y.End() == x.End() + |prefix|
    ensures FieldFits(whole, y) && FieldBytes(whole, y) == FieldBytes(part, x)
  {
    hide TargetAddress, EncodeSigned, FitsSigned;
    assert whole.template[y.offset..y.End()] == part.template[x.offset..x.End()];
  }

  lemma LedgerMoves(
    part: Linkage, whole: Linkage, prefix: seq<byte>, suffix: seq<byte>, fields: seq<Fixup>, moved: seq<Fixup>)
    requires Contains(part, whole, prefix, suffix) && FieldsMoved(fields, moved, |prefix|)
    requires SameTargets(fields, part.placements, whole.placements) && GoodLedger(part, fields)
    ensures GoodLedger(whole, moved)
    ensures forall k | 0 <= k < |fields| ::
              && moved[k].offset == fields[k].offset + |prefix| && moved[k].End() == fields[k].End() + |prefix|
              && FieldBytes(whole, moved[k]) == FieldBytes(part, fields[k])
  {
    hide FieldBytes, FieldFits, Contains, Rebased, TargetAddress;
    forall k | 0 <= k < |fields|
      ensures FieldFits(whole, moved[k]) && FieldBytes(whole, moved[k]) == FieldBytes(part, fields[k])
      ensures moved[k].offset == fields[k].offset + |prefix| && moved[k].End() == fields[k].End() + |prefix|
    {
      FieldMoves(part, whole, prefix, suffix, fields[k], moved[k]);
    }
    forall i, j | 0 <= i < |moved| && 0 <= j < |moved| && i != j ensures Apart(moved[i], moved[j]) {
      assert Apart(fields[i], fields[j]);
    }
  }

  lemma BytesMove(
    part: Linkage, whole: Linkage, prefix: seq<byte>, suffix: seq<byte>, fields: seq<Fixup>, moved: seq<Fixup>, out: seq<byte>)
    requires Contains(part, whole, prefix, suffix) && LinkedBytes(part, fields, out) && |moved| == |fields|
    requires GoodLedger(part, fields)
    requires forall k | 0 <= k < |fields| ::
               && moved[k].offset == fields[k].offset + |prefix| && moved[k].End() == fields[k].End() + |prefix|
               && FieldBytes(whole, moved[k]) == FieldBytes(part, fields[k])
    ensures LinkedBytes(whole, moved, prefix + out + suffix)
  {
    hide FieldBytes;
    var placed := prefix + out + suffix;
    forall k, i | 0 <= k < |moved| && moved[k].Contains(i) && 0 <= i < |placed| && FieldBytes(whole, moved[k]).Ok?
      ensures placed[i] == FieldBytes(whole, moved[k]).value[i - moved[k].offset]
    {
      assert FieldFits(part, fields[k]);
      assert fields[k].Contains(i - |prefix|);
    }
    forall i | 0 <= i < |placed| && !InSomeField(moved, i) ensures placed[i] == whole.template[i] {
      if |prefix| <= i < |prefix| + |out| {
        assert forall k | 0 <= k < |fields| :: fields[k].Contains(i - |prefix|) <==> moved[k].Contains(i);
        assert !InSomeField(fields, i - |prefix|);
      }
    }
  }

  /**
   * Linking commutes with placement: what links alone at A + |prefix| links, after moving its fields by |prefix|,
   * inside a container at A, and the container then holds exactly the fragment's linked bytes.
   */
  lemma LinkingCommutesWithPlacement(
    part: ImageId, whole: ImageId, prefix: seq<byte>, template: seq<byte>, suffix: seq<byte>,
    fields: seq<Fixup>, moved: seq<Fixup>, alone: seq<ImagePlacement>, together: seq<ImagePlacement>)
    requires Linked(part, template, fields, alone, None).Ok?
    requires Prepare(whole, prefix + template + suffix, together, None).Ok?
    requires var p, w := Prepare(part, template, alone, None).value, Prepare(whole, prefix + template + suffix, together, None).value;
             && p.current.address.domain == w.current.address.domain
             && p.current.address.offset == w.current.address.offset + |prefix|
    requires FieldsMoved(fields, moved, |prefix|) && SameTargets(fields, alone, together)
    ensures Linked(whole, prefix + template + suffix, moved, together, None)
         == Ok(prefix + Linked(part, template, fields, alone, None).value + suffix)
  {
    var container := prefix + template + suffix;
    var p, w := Prepare(part, template, alone, None).value, Prepare(whole, container, together, None).value;
    var out := Linked(part, template, fields, alone, None).value;
    ContainerContains(part, whole, prefix, template, suffix, alone, together);
    hide *;
    LinkedMeans(part, template, fields, alone, None);
    LinkedMeans(whole, container, moved, together, None);
    LedgerMoves(p, w, prefix, suffix, fields, moved);
    BytesMove(p, w, prefix, suffix, fields, moved, out);
    BytesAreUnique(w, moved, Linked(whole, container, moved, together, None).value, prefix + out + suffix);
  }

  lemma ContainerContains(
    part: ImageId, whole: ImageId, prefix: seq<byte>, template: seq<byte>, suffix: seq<byte>,
    alone: seq<ImagePlacement>, together: seq<ImagePlacement>)
    requires Prepare(part, template, alone, None).Ok? && Prepare(whole, prefix + template + suffix, together, None).Ok?
    requires var p, w := Prepare(part, template, alone, None).value, Prepare(whole, prefix + template + suffix, together, None).value;
             && p.current.address.domain == w.current.address.domain
             && p.current.address.offset == w.current.address.offset + |prefix|
    ensures Contains(Prepare(part, template, alone, None).value, Prepare(whole, prefix + template + suffix, together, None).value, prefix, suffix)
  {
    PreparedEnd(whole, prefix + template + suffix, together);
    PreparedEnd(part, template, alone);
    hide Prepare;
  }

  /** Looking up another image does not see this entry. */
  lemma {:induction false} LookupSkips(front: seq<ImagePlacement>, entry: ImagePlacement, back: seq<ImagePlacement>, image: ImageId)
    requires image != entry.image
    ensures Placement(front + [entry] + back, image) == Placement(front + back, image)
  {
    var all := front + [entry] + back;
    if front == [] {
      assert all[1..] == back && front + back == back;
    } else {
      assert all[1..] == front[1..] + [entry] + back && (front + back)[1..] == front[1..] + back;
      if front[0].image != image {
        LookupSkips(front[1..], entry, back, image);
      }
    }
  }

  lemma {:induction false} LookupFinds(front: seq<ImagePlacement>, entry: ImagePlacement, back: seq<ImagePlacement>)
    requires forall k | 0 <= k < |front| :: front[k].image != entry.image
    ensures Placement(front + [entry] + back, entry.image) == Ok(entry)
  {
    var all := front + [entry] + back;
    if front != [] {
      assert all[1..] == front[1..] + [entry] + back;
      LookupFinds(front[1..], entry, back);
    }
  }

  /** A target outside both images is found alike whichever of the two is listed, and wherever. */
  lemma OtherTargetsStay(
    front: seq<ImagePlacement>, entry: ImagePlacement, back: seq<ImagePlacement>,
    front': seq<ImagePlacement>, entry': ImagePlacement, back': seq<ImagePlacement>, target: Target)
    requires front + back == front' + back'
    requires target.Image? ==> target.image != entry.image && target.image != entry'.image
    ensures TargetAddress(front + [entry] + back, target) == TargetAddress(front' + [entry'] + back', target)
  {
    hide Placement;
    if target.Image? {
      LookupSkips(front, entry, back, target.image);
      LookupSkips(front', entry', back', target.image);
    }
  }

  /** Targets that name neither the fragment nor its container. */
  ghost predicate NonSelf(fields: seq<Fixup>, part: ImageId, whole: ImageId) {
    forall k | 0 <= k < |fields| && fields[k].target.Image? :: fields[k].target.image != part && fields[k].target.image != whole
  }

  lemma PlacedEntry(image: ImageId, template: seq<byte>, front: seq<ImagePlacement>, entry: ImagePlacement, back: seq<ImagePlacement>)
    requires entry.image == image && Prepare(image, template, front + [entry] + back, None).Ok?
    ensures Prepare(image, template, front + [entry] + back, None).value.current == entry
  {
    hide PlacementsChecked, Placement;
    var all := front + [entry] + back;
    ChecksPassExactly(all);
    forall k | 0 <= k < |front| ensures front[k].image != entry.image {
      assert all[k] == front[k] && all[|front|] == entry;
    }
    LookupFinds(front, entry, back);
  }

  function RebasedFields(fields: seq<Fixup>, shift: U64): (moved: seq<Fixup>)
    requires forall k | 0 <= k < |fields| :: Rebased(fields[k], shift).Ok?
    ensures |moved| == |fields| && forall k | 0 <= k < |fields| :: Rebased(fields[k], shift) == Ok(moved[k])
  {
    seq(|fields|, k requires 0 <= k < |fields| => Rebased(fields[k], shift).value)
  }

  /**
   * A fragment that links at A + |prefix| next to any other images can be rebased, and inside a container at A next
   * to the same images it links to its own linked bytes between prefix and suffix. The two lists may place the
   * fragment's and the container's entry anywhere and under different ids.
   */
  lemma FragmentLinksInContainer(
    part: ImagePlacement, whole: ImagePlacement, prefix: seq<byte>, template: seq<byte>, suffix: seq<byte>, fields: seq<Fixup>,
    front: seq<ImagePlacement>, back: seq<ImagePlacement>, front': seq<ImagePlacement>, back': seq<ImagePlacement>)
    requires front + back == front' + back' && NonSelf(fields, part.image, whole.image)
    requires part.address.domain == whole.address.domain && part.address.offset == whole.address.offset + |prefix|
    requires Linked(part.image, template, fields, front + [part] + back, None).Ok?
    requires Prepare(whole.image, prefix + template + suffix, front' + [whole] + back', None).Ok?
    ensures |prefix| < 0x1_0000_0000_0000_0000 && forall k | 0 <= k < |fields| :: Rebased(fields[k], |prefix|).Ok?
    ensures Linked(whole.image, prefix + template + suffix, RebasedFields(fields, |prefix|), front' + [whole] + back', None)
         == Ok(prefix + Linked(part.image, template, fields, front + [part] + back, None).value + suffix)
  {
    var alone, together := front + [part] + back, front' + [whole] + back';
    var container := prefix + template + suffix;
    PlacedEntry(part.image, template, front, part, back);
    PlacedEntry(whole.image, container, front', whole, back');
    ContainerContains(part.image, whole.image, prefix, template, suffix, alone, together);
    var p, w := Prepare(part.image, template, alone, None).value, Prepare(whole.image, container, together, None).value;
    FieldsCanMove(p, w, prefix, suffix, part.image, template, fields, alone);
    hide Linked, Prepare, Contains, Rebased, TargetAddress;
    forall k | 0 <= k < |fields| ensures TargetAddress(alone, fields[k].target) == TargetAddress(together, fields[k].target) {
      OtherTargetsStay(front, part, back, front', whole, back', fields[k].target);
    }
    LinkingCommutesWithPlacement(
      part.image, whole.image, prefix, template, suffix, fields, RebasedFields(fields, |prefix|), alone, together);
  }

  lemma FieldsCanMove(
    p: Linkage, w: Linkage, prefix: seq<byte>, suffix: seq<byte>, part: ImageId, template: seq<byte>, fields: seq<Fixup>,
    alone: seq<ImagePlacement>)
    requires Contains(p, w, prefix, suffix) && Prepare(part, template, alone, None) == Ok(p)
    requires Linked(part, template, fields, alone, None).Ok?
    ensures |prefix| < 0x1_0000_0000_0000_0000 && forall k | 0 <= k < |fields| :: Rebased(fields[k], |prefix|).Ok?
  {
    assert |prefix| <= |w.template| == w.current.len;
    hide Linked, Prepare, Rebased, FieldFits, LinkedBytes;
    LinkedMeans(part, template, fields, alone, None);
    forall k | 0 <= k < |fields| ensures Rebased(fields[k], |prefix|).Ok? {
      FieldFitsOf(p, fields, k);
      LinkedFieldsMove(p, w, prefix, suffix, fields[k]);
    }
  }
}
