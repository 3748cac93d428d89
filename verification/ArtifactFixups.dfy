/** Linking encoder-owned address fields of an artifact image: src/artifact_fixups.rs. */
module ArtifactFixups {
  import opened LittleEndian
  import opened Wrappers
  import opened Sorting

  type U64 = x: int | 0 <= x < 0x1_0000_0000_0000_0000
  const I128_LIMIT := 0x8000_0000_0000_0000_0000_0000_0000_0000
  type I128 = x: int | -0x8000_0000_0000_0000_0000_0000_0000_0000 <= x < 0x8000_0000_0000_0000_0000_0000_0000_0000

  predicate FitsI128(x: int) {
    -I128_LIMIT <= x < I128_LIMIT
  }

  type BiasDomain = U64
  type ImageId = U64

  datatype RelativeAddress = RelativeAddress(domain: BiasDomain, offset: I128)

  datatype ImagePlacement = ImagePlacement(image: ImageId, address: RelativeAddress, len: U64)

  datatype Target =
    | Address(value: RelativeAddress)
    | Image(image: ImageId, offset: U64)
    | UnresolvedTarget(symbol: U64)

  datatype Encoding =
    | PcRelative8(next: U64)
    | PcRelative32(next: U64)
    | Delta64(anchor: U64)
    | Absolute64
    | FixedSigned32
  {
    function Width(): nat {
      match this
      case PcRelative8(_) => 1
      case PcRelative32(_) => 4
      case FixedSigned32 => 4
      case Delta64(_) => 8
      case Absolute64 => 8
    }

    /** Offset of the instruction pointer the field is relative to. */
    function Origin(): Option<U64> {
      match this
      case PcRelative8(next) => Some(next)
      case PcRelative32(next) => Some(next)
      case Delta64(anchor) => Some(anchor)
      case Absolute64 => None
      case FixedSigned32 => None
    }
  }

  datatype Role =
    | LogicalPc
    | HookCall
    | OriginalBranch(originalPc: U64)
    | OriginalBranchBridge(originalPc: U64)
    | OriginalRipOperand(originalPc: U64)
    | Return
    | EntryVeneer(originalPc: U64)
    | OriginalAbsoluteOperand(originalPc: U64)
    | OriginalIndexedJump(originalPc: U64, instructionLen: nat)

  datatype Fixup = Fixup(offset: U64, encoding: Encoding, target: Target, role: Role, expected: seq<byte>) {
    function End(): int {
      offset + encoding.Width()
    }

    predicate Contains(i: int) {
      offset <= i < End()
    }
  }

  datatype Error =
    | ArithmeticOverflow
    | DuplicateImage(image: ImageId)
    | UnknownImage(unknown: ImageId)
    | ImageLengthMismatch(declared: U64, actual: U64)
    | ImageOffsetOutOfBounds(outside: ImageId, offset: U64, len: U64)
    | FieldOutOfBounds(field: U64, width: nat, imageLen: U64)
    | OriginOutOfBounds(origin: U64, imageLen: U64)
    | ExpectedWidth(field: U64, expected: nat, required: nat)
    | TemplateMismatch(field: U64)
    | OverlappingFields(earlier: U64, later: U64)
    | CrossBiasDomain(source: BiasDomain, target: BiasDomain)
    | UnresolvedSymbol(symbol: U64)
    | RequiresRuntimeAbsoluteFixup(field: U64, role: Role)
    | DisplacementOutOfRange(field: U64, width: nat, displacement: I128)

  // ---------------------------------------------------------------- moving a fragment

  function AddU64(value: U64, shift: U64): Result<U64, Error> {
    if value + shift < 0x1_0000_0000_0000_0000 then Ok(value + shift) else Err(ArithmeticOverflow)
  }

  /** Moves a field, and the local instruction pointer it is relative to, into a containing image. */
  function Rebased(field: Fixup, shift: U64): Result<Fixup, Error> {
    var encoding :- match field.encoding
                    case PcRelative8(next) => (var moved :- AddU64(next, shift); Ok(PcRelative8(moved)))
                    case PcRelative32(next) => (var moved :- AddU64(next, shift); Ok(PcRelative32(moved)))
                    case Delta64(anchor) => (var moved :- AddU64(anchor, shift); Ok(Delta64(moved)))
                    case Absolute64 => Ok(Absolute64)
                    case FixedSigned32 => Ok(FixedSigned32);
    var offset :- AddU64(field.offset, shift);
    Ok(field.(offset := offset, encoding := encoding))
  }

  // ---------------------------------------------------------------- one field

  function Placement(placements: seq<ImagePlacement>, image: ImageId): Result<ImagePlacement, Error> {
    if placements == [] then Err(UnknownImage(image))
    else if placements[0].image == image then Ok(placements[0])
    else Placement(placements[1..], image)
  }

  function TargetAddress(placements: seq<ImagePlacement>, target: Target): Result<RelativeAddress, Error> {
    match target
    case Address(value) => Ok(value)
    case UnresolvedTarget(symbol) => Err(UnresolvedSymbol(symbol))
    case Image(image, offset) =>
      var placed :- Placement(placements, image);
      var _ :- Need(offset <= placed.len, ImageOffsetOutOfBounds(image, offset, placed.len));
      var _ :- Need(FitsI128(placed.address.offset + offset), ArithmeticOverflow);
      Ok(RelativeAddress(placed.address.domain, placed.address.offset + offset))
  }

  /** Ids appear once and no placement runs past the coordinate space. */
  function PlacementsChecked(placements: seq<ImagePlacement>, i: nat): Result<(), Error>
    requires i <= |placements|
    decreases |placements| - i
  {
    if i == |placements| then Ok(())
    else
      var item := placements[i];
      var _ :- Need(forall j | 0 <= j < i :: placements[j].image != item.image, DuplicateImage(item.image));
      var _ :- Need(FitsI128(item.address.offset + item.len), ArithmeticOverflow);
      PlacementsChecked(placements, i + 1)
  }

  /** What is fixed while one image is linked. */
  datatype Linkage = Linkage(
    template: seq<byte>, current: ImagePlacement, placements: seq<ImagePlacement>, fixedDomain: Option<BiasDomain>)

  function FixedBytes(l: Linkage, field: Fixup): Result<seq<byte>, Error> {
    var _ :- Need(l.fixedDomain.Some?, RequiresRuntimeAbsoluteFixup(field.offset, field.role));
    var target :- TargetAddress(l.placements, field.target);
    var domain := l.fixedDomain.value;
    var _ :- Need(l.current.address.domain == domain, CrossBiasDomain(domain, l.current.address.domain));
    var _ :- Need(target.domain == domain, CrossBiasDomain(domain, target.domain));
    var _ :- Need(FitsSigned(target.offset, 4), DisplacementOutOfRange(field.offset, 4, target.offset));
    var bytes := EncodeSigned(target.offset, 4);
    var _ :- Need(bytes == field.expected, TemplateMismatch(field.offset));
    Ok(bytes)
  }

  function RelativeBytes(l: Linkage, field: Fixup): Result<seq<byte>, Error> {
    var _ :- Need(field.encoding.Origin().Some?, RequiresRuntimeAbsoluteFixup(field.offset, field.role));
    var origin := field.encoding.Origin().value;
    var _ :- Need(origin <= |l.template|, OriginOutOfBounds(origin, l.current.len));
    var target :- TargetAddress(l.placements, field.target);
    var _ :- Need(target.domain == l.current.address.domain, CrossBiasDomain(l.current.address.domain, target.domain));
    var base := l.current.address.offset + origin;
    var _ :- Need(FitsI128(base), ArithmeticOverflow);
    var displacement := target.offset - base;
    var _ :- Need(FitsI128(displacement), ArithmeticOverflow);
    var width := field.encoding.Width();
    var _ :- Need(FitsSigned(displacement, width), DisplacementOutOfRange(field.offset, width, displacement));
    Ok(EncodeSigned(displacement, width))
  }

  /** The bytes one field resolves to; its place in the ledger plays no part. */
  function FieldBytes(l: Linkage, field: Fixup): (r: Result<seq<byte>, Error>)
    ensures r.Ok? ==> |r.value| == field.encoding.Width()
  {
    if field.encoding.FixedSigned32? then FixedBytes(l, field) else RelativeBytes(l, field)
  }

  /** Checks of a field against the template, in source order around the overlap test. */
  function FieldChecked(l: Linkage, field: Fixup, previous: Option<Fixup>): Result<seq<byte>, Error>
    requires |l.template| == l.current.len
  {
    var width := field.encoding.Width();
    var _ :- Need(field.End() < 0x1_0000_0000_0000_0000, ArithmeticOverflow);
    var _ :- Need(field.End() <= |l.template|, FieldOutOfBounds(field.offset, width, l.current.len));
    var _ :- Need(previous.None? || previous.value.End() <= field.offset,
                  OverlappingFields(if previous.Some? then previous.value.offset else 0, field.offset));
    var _ :- Need(|field.expected| == width, ExpectedWidth(field.offset, |field.expected|, width));
    var _ :- Need(l.template[field.offset..field.End()] == field.expected, TemplateMismatch(field.offset));
    FieldBytes(l, field)
  }

  // ---------------------------------------------------------------- the ledger

  function Patch(bytes: seq<byte>, at: nat, patch: seq<byte>): (r: seq<byte>)
    requires at + |patch| <= |bytes|
    ensures |r| == |bytes|
    ensures forall i | 0 <= i < |bytes| :: r[i] == if at <= i < at + |patch| then patch[i - at] else bytes[i]
  {
    bytes[..at] + patch + bytes[at + |patch|..]
  }

  /** Fields in ledger order: each is checked against its predecessor and then written. */
  function LedgerLinked(l: Linkage, ordered: seq<Fixup>): (r: Result<seq<byte>, Error>)
    requires |l.template| == l.current.len
    ensures r.Ok? ==> |r.value| == |l.template|
  {
    if ordered == [] then Ok(l.template)
    else
      var n := |ordered| - 1;
      var earlier :- LedgerLinked(l, ordered[..n]);
      var bytes :- FieldChecked(l, ordered[n], if n == 0 then None else Some(ordered[n - 1]));
      Ok(Patch(earlier, ordered[n].offset, bytes))
  }

  const FIELD_KEY: Fixup -> int := (field: Fixup) => field.offset

  function Prepare(image: ImageId, template: seq<byte>, placements: seq<ImagePlacement>, fixedDomain: Option<BiasDomain>)
    : (r: Result<Linkage, Error>)
    ensures r.Ok? ==> |r.value.template| == r.value.current.len && r.value.template == template
    ensures r.Ok? ==> r.value.placements == placements && r.value.fixedDomain == fixedDomain
  {
    var _ :- PlacementsChecked(placements, 0);
    var current :- Placement(placements, image);
    var _ :- Need(|template| < 0x1_0000_0000_0000_0000, ArithmeticOverflow);
    var _ :- Need(current.len == |template|, ImageLengthMismatch(current.len, |template|));
    Ok(Linkage(template, current, placements, fixedDomain))
  }

  function Linked(
    image: ImageId, template: seq<byte>, fields: seq<Fixup>, placements: seq<ImagePlacement>, fixedDomain: Option<BiasDomain>)
    : (r: Result<seq<byte>, Error>)
  {
    var l :- Prepare(image, template, placements, fixedDomain);
    LedgerLinked(l, StableSort(fields, FIELD_KEY))
  }

  // ---------------------------------------------------------------- what linking means

  /** A field in bounds whose template bytes are the expected ones and whose target resolves. */
  ghost predicate FieldFits(l: Linkage, field: Fixup) {
    && field.End() <= |l.template|
    && |field.expected| == field.encoding.Width()
    && l.template[field.offset..field.End()] == field.expected
    && FieldBytes(l, field).Ok?
  }

  predicate Apart(left: Fixup, right: Fixup) {
    left.End() <= right.offset || right.End() <= left.offset
  }

  /** Each field fits on its own and no two share a byte: no mention of any order. */
  ghost predicate GoodLedger(l: Linkage, fields: seq<Fixup>) {
    && (forall k | 0 <= k < |fields| :: FieldFits(l, fields[k]))
    && (forall i, j | 0 <= i < |fields| && 0 <= j < |fields| && i != j :: Apart(fields[i], fields[j]))
  }

  ghost predicate InSomeField(fields: seq<Fixup>, i: int) {
    exists k | 0 <= k < |fields| :: fields[k].Contains(i)
  }

  /** Every field holds its own bytes; every other byte is the template's. */
  ghost predicate LinkedBytes(l: Linkage, fields: seq<Fixup>, out: seq<byte>) {
    && |out| == |l.template|
    && (forall k, i | 0 <= k < |fields| && fields[k].Contains(i) && 0 <= i < |out| && FieldBytes(l, fields[k]).Ok? ::
          out[i] == FieldBytes(l, fields[k]).value[i - fields[k].offset])
    && (forall i | 0 <= i < |out| && !InSomeField(fields, i) :: out[i] == l.template[i])
  }

  lemma {:induction false} SortedLedger(l: Linkage, ordered: seq<Fixup>)
    requires |l.template| == l.current.len && SortedByKey(ordered, FIELD_KEY)
    ensures LedgerLinked(l, ordered).Ok? <==> GoodLedger(l, ordered)
    ensures LedgerLinked(l, ordered).Ok? ==> LinkedBytes(l, ordered, LedgerLinked(l, ordered).value)
    decreases |ordered|
  {
    hide FieldBytes, LedgerLinked, GoodLedger, LinkedBytes;
    if ordered == [] {
      EmptyLedger(l);
    } else {
      var n := |ordered| - 1;
      assert forall i | 0 <= i < n :: ordered[..n][i] == ordered[i];
      SortedLedger(l, ordered[..n]);
      SortedStep(l, ordered);
    }
  }

  lemma EmptyLedger(l: Linkage)
    requires |l.template| == l.current.len
    ensures LedgerLinked(l, []) == Ok(l.template) && GoodLedger(l, []) && LinkedBytes(l, [], l.template)
  {
  }

  lemma SortedStep(l: Linkage, ordered: seq<Fixup>)
    requires |l.template| == l.current.len && SortedByKey(ordered, FIELD_KEY) && ordered != []
    requires LedgerLinked(l, ordered[..|ordered| - 1]).Ok? <==> GoodLedger(l, ordered[..|ordered| - 1])
    requires LedgerLinked(l, ordered[..|ordered| - 1]).Ok? ==>
               LinkedBytes(l, ordered[..|ordered| - 1], LedgerLinked(l, ordered[..|ordered| - 1]).value)
    ensures LedgerLinked(l, ordered).Ok? <==> GoodLedger(l, ordered)
    ensures LedgerLinked(l, ordered).Ok? ==> LinkedBytes(l, ordered, LedgerLinked(l, ordered).value)
  {
    hide FieldBytes, LinkedBytes, FieldFits, Apart;
    var n := |ordered| - 1;
    var before, last := ordered[..n], ordered[n];
    GoodGrows(l, ordered);
    LastChecked(l, ordered);
    if LedgerLinked(l, ordered).Ok? {
      BytesGrow(l, ordered, LedgerLinked(l, before).value);
    }
  }

  /** The predecessor test is enough: in a sorted ledger it keeps the new field apart from all earlier ones. */
  lemma LastChecked(l: Linkage, ordered: seq<Fixup>)
    requires |l.template| == l.current.len && SortedByKey(ordered, FIELD_KEY) && ordered != []
    ensures var n := |ordered| - 1;
            GoodLedger(l, ordered[..n]) ==>
              (FieldChecked(l, ordered[n], if n == 0 then None else Some(ordered[n - 1])).Ok? <==>
                 FieldFits(l, ordered[n]) && forall i | 0 <= i < n :: Apart(ordered[i], ordered[n]))
    ensures var n := |ordered| - 1;
            FieldFits(l, ordered[n]) ==>
              var checked := FieldChecked(l, ordered[n], if n == 0 then None else Some(ordered[n - 1]));
              checked.Ok? ==> checked == FieldBytes(l, ordered[n])
  {
    hide FieldBytes;
    var n := |ordered| - 1;
    if GoodLedger(l, ordered[..n]) && n > 0 {
      forall i | 0 <= i < n ensures FIELD_KEY(ordered[i]) <= FIELD_KEY(ordered[n]) && (i < n - 1 ==> ordered[i].End() <= ordered[n - 1].offset) {
        assert ordered[..n][i] == ordered[i] && ordered[..n][n - 1] == ordered[n - 1];
      }
    }
  }

  lemma GoodGrows(l: Linkage, ordered: seq<Fixup>)
    requires ordered != []
    ensures var n := |ordered| - 1;
            GoodLedger(l, ordered) <==>
              GoodLedger(l, ordered[..n]) && FieldFits(l, ordered[n]) && forall i | 0 <= i < n :: Apart(ordered[i], ordered[n])
  {
    hide FieldFits;
    var n := |ordered| - 1;
    assert forall i | 0 <= i < n :: ordered[..n][i] == ordered[i];
  }

  lemma BytesGrow(l: Linkage, ordered: seq<Fixup>, earlier: seq<byte>)
    requires ordered != [] && GoodLedger(l, ordered) && LinkedBytes(l, ordered[..|ordered| - 1], earlier)
    ensures var last := ordered[|ordered| - 1];
            && last.End() <= |earlier|
            && LinkedBytes(l, ordered, Patch(earlier, last.offset, FieldBytes(l, last).value))
  {
    hide FieldBytes;
    var n := |ordered| - 1;
    var before, last := ordered[..n], ordered[n];
    var out := Patch(earlier, last.offset, FieldBytes(l, last).value);
    assert forall k | 0 <= k < n :: before[k] == ordered[k];
    forall k, i | 0 <= k < |ordered| && ordered[k].Contains(i) && 0 <= i < |out|
      ensures out[i] == FieldBytes(l, ordered[k]).value[i - ordered[k].offset]
    {
      assert FieldFits(l, ordered[k]);
      assert k != n ==> Apart(ordered[k], last);
    }
    forall i | 0 <= i < |out| && !InSomeField(ordered, i) ensures out[i] == l.template[i] {
      assert !last.Contains(i);
      assert !InSomeField(before, i);
    }
  }

  lemma GoodPermutes(l: Linkage, left: seq<Fixup>, right: seq<Fixup>)
    requires multiset(left) == multiset(right) && GoodLedger(l, left)
    ensures GoodLedger(l, right)
  {
    hide FieldFits;
    forall k | 0 <= k < |right| ensures FieldFits(l, right[k]) {
      assert right[k] in multiset(left);
    }
    forall i, j | 0 <= i < j < |right| ensures Apart(right[i], right[j]) && Apart(right[j], right[i]) {
      PairPermutes(right, left, i, j);
      var m, n :| 0 <= m < |left| && 0 <= n < |left| && m != n && left[m] == right[i] && left[n] == right[j];
      assert Apart(left[m], left[n]);
    }
  }

  lemma BytesPermute(l: Linkage, left: seq<Fixup>, right: seq<Fixup>, out: seq<byte>)
    requires multiset(left) == multiset(right) && LinkedBytes(l, left, out)
    ensures LinkedBytes(l, right, out)
  {
    hide FieldBytes;
    forall k, i | 0 <= k < |right| && right[k].Contains(i) && 0 <= i < |out| && FieldBytes(l, right[k]).Ok?
      ensures out[i] == FieldBytes(l, right[k]).value[i - right[k].offset]
    {
      assert right[k] in multiset(left);
      var m :| 0 <= m < |left| && left[m] == right[k];
    }
    forall i | 0 <= i < |out| && !InSomeField(right, i) ensures out[i] == l.template[i] {
      InSomeFieldPermutes(left, right, i);
    }
  }

  lemma InSomeFieldPermutes(left: seq<Fixup>, right: seq<Fixup>, i: int)
    requires multiset(left) == multiset(right)
    ensures InSomeField(left, i) ==> InSomeField(right, i)
  {
    if InSomeField(left, i) {
      var m :| 0 <= m < |left| && left[m].Contains(i);
      assert left[m] in multiset(right);
      var n :| 0 <= n < |right| && right[n] == left[m];
    }
  }

  lemma BytesAreUnique(l: Linkage, fields: seq<Fixup>, left: seq<byte>, right: seq<byte>)
    requires GoodLedger(l, fields) && LinkedBytes(l, fields, left) && LinkedBytes(l, fields, right)
    ensures left == right
  {
    hide FieldBytes;
    forall i | 0 <= i < |left| ensures left[i] == right[i] {
      if k :| 0 <= k < |fields| && fields[k].Contains(i) {
        assert FieldFits(l, fields[k]);
      }
    }
  }

  /** Linking succeeds exactly for good ledgers, and then writes exactly the fields' bytes. */
  lemma LinkedMeans(
    image: ImageId, template: seq<byte>, fields: seq<Fixup>, placements: seq<ImagePlacement>, fixedDomain: Option<BiasDomain>)
    ensures var p := Prepare(image, template, placements, fixedDomain);
            var r := Linked(image, template, fields, placements, fixedDomain);
            && (r.Ok? <==> p.Ok? && GoodLedger(p.value, fields))
            && (r.Ok? ==> LinkedBytes(p.value, fields, r.value))
  {
    hide GoodLedger, LinkedBytes, LedgerLinked, StableSort, SortedByKey;
    var p := Prepare(image, template, placements, fixedDomain);
    if p.Ok? {
      var ordered := StableSort(fields, FIELD_KEY);
      StableSortSorts(fields, FIELD_KEY);
      SortedLedger(p.value, ordered);
      if GoodLedger(p.value, fields) {
        GoodPermutes(p.value, fields, ordered);
      }
      if GoodLedger(p.value, ordered) {
        GoodPermutes(p.value, ordered, fields);
        BytesPermute(p.value, ordered, fields, LedgerLinked(p.value, ordered).value);
      }
    }
  }

  /** The linked image does not depend on the order of the ledger. */
  lemma OrderDoesNotMatter(
    image: ImageId, template: seq<byte>, left: seq<Fixup>, right: seq<Fixup>, placements: seq<ImagePlacement>, fixedDomain: Option<BiasDomain>)
    requires multiset(left) == multiset(right)
    ensures var l, r := Linked(image, template, left, placements, fixedDomain), Linked(image, template, right, placements, fixedDomain);
            (l.Ok? <==> r.Ok?) && (l.Ok? ==> l == r)
  {
    hide Linked, Prepare, GoodLedger, LinkedBytes;
    LinkedMeans(image, template, left, placements, fixedDomain);
    LinkedMeans(image, template, right, placements, fixedDomain);
    var p := Prepare(image, template, placements, fixedDomain);
    if p.Ok? {
      if GoodLedger(p.value, left) {
        GoodPermutes(p.value, left, right);
        BytesPermute(p.value, left, right, Linked(image, template, left, placements, fixedDomain).value);
        BytesAreUnique(p.value, right, Linked(image, template, left, placements, fixedDomain).value,
                       Linked(image, template, right, placements, fixedDomain).value);
      } else if GoodLedger(p.value, right) {
        GoodPermutes(p.value, right, left);
      }
    }
  }
}
