/**
 * Byte images held as sorted, disjoint snapshots: the helpers at the end of src/composition.rs.
 *
 * `View` is the plain address-to-byte map the snapshots stand for. Every method here is proved
 * against it, so no result can depend on where adjacent snapshots meet.
 */
module Snapshots {
  import opened LittleEndian
  import opened Wrappers
  import opened Contracts
  import opened VirtualImage

  /** Nonempty, nonwrapping, ascending and disjoint; adjacency is allowed. */
  ghost predicate Laid(snapshots: seq<Span>) {
    && (forall i | 0 <= i < |snapshots| :: snapshots[i].Proper())
    && (forall i, j | 0 <= i < j < |snapshots| :: snapshots[i].End() <= snapshots[j].address)
  }

  /** Nonempty, nonwrapping and pairwise apart, in any order. */
  ghost predicate Disjoint(snapshots: seq<Span>) {
    && (forall i | 0 <= i < |snapshots| :: snapshots[i].Proper())
    && (forall i, j | 0 <= i < |snapshots| && 0 <= j < |snapshots| && i != j :: !snapshots[i].Overlaps(snapshots[j]))
  }

  ghost predicate HeldBy(snapshots: seq<Span>, a: int) {
    exists i | 0 <= i < |snapshots| :: snapshots[i].Contains(a)
  }

  ghost function Domain(snapshots: seq<Span>): (addresses: set<int>)
    ensures forall a :: a in addresses <==> HeldBy(snapshots, a)
  {
    if snapshots == [] then {}
    else
      var n := |snapshots| - 1;
      var last := snapshots[n];
      assert forall a :: HeldBy(snapshots, a) <==> HeldBy(snapshots[..n], a) || last.Contains(a) by {
        assert snapshots == snapshots[..n] + [last];
      }
      Domain(snapshots[..n]) + set a: int | last.address <= a < last.End() && last.Contains(a)
  }

  ghost function Holder(snapshots: seq<Span>, a: int): (i: nat)
    requires HeldBy(snapshots, a)
    ensures i < |snapshots| && snapshots[i].Contains(a)
  {
    var i :| 0 <= i < |snapshots| && snapshots[i].Contains(a); i
  }

  /** The image these snapshots stand for. */
  ghost function View(snapshots: seq<Span>): (image: Image)
    ensures image.Keys == Domain(snapshots)
  {
    map a | a in Domain(snapshots) :: snapshots[Holder(snapshots, a)].At(a)
  }

  lemma ViewAt(snapshots: seq<Span>, i: nat, a: int)
    requires Disjoint(snapshots) && i < |snapshots| && snapshots[i].Contains(a)
    ensures a in View(snapshots) && View(snapshots)[a] == snapshots[i].At(a)
  {
    var j := Holder(snapshots, a);
    assert i != j ==> snapshots[i].Overlaps(snapshots[j]);
  }

  /** The image does not depend on the order of disjoint snapshots. */
  lemma ViewPermutes(left: seq<Span>, right: seq<Span>)
    requires Disjoint(left) && Disjoint(right) && multiset(left) == multiset(right)
    ensures View(left) == View(right)
  {
    hide View, Domain;
    ViewIncluded(left, right);
    ViewIncluded(right, left);
    var l, r := View(left), View(right);
    assert forall a :: a in l <==> a in r;
    SameImages(l, r);
  }

  lemma SameImages(left: Image, right: Image)
    requires forall a :: a in left <==> a in right
    requires forall a | a in left :: left[a] == right[a]
    ensures left == right
  {
    assert forall a :: a in left.Keys <==> a in right.Keys;
    assert left.Keys == right.Keys;
    forall a | a in left.Keys ensures left[a] == right[a] {}
  }

  lemma ViewIncluded(left: seq<Span>, right: seq<Span>)
    requires Disjoint(left) && Disjoint(right) && multiset(left) == multiset(right)
    ensures forall a | a in View(left) :: a in View(right) && View(right)[a] == View(left)[a]
  {
    hide View, Domain;
    forall a | a in View(left) ensures a in View(right) && View(right)[a] == View(left)[a] {
      var i := Holder(left, a);
      assert left[i] in multiset(right);
      var j :| 0 <= j < |right| && right[j] == left[i];
      ViewAt(left, i, a);
      ViewAt(right, j, a);
    }
  }

  /** The laid-out snapshots of one image with given extents are unique. */
  lemma ViewDetermines(left: seq<Span>, right: seq<Span>)
    requires Laid(left) && Laid(right) && |left| == |right|
    requires forall i | 0 <= i < |left| :: left[i].address == right[i].address && |left[i].bytes| == |right[i].bytes|
    requires View(left) == View(right)
    ensures left == right
  {
    forall i | 0 <= i < |left| ensures left[i] == right[i] {
      forall k | 0 <= k < |left[i].bytes| ensures left[i].bytes[k] == right[i].bytes[k] {
        SameByte(left, right, i, left[i].address + k);
      }
      assert left[i].bytes == right[i].bytes;
    }
    hide View, Laid;
  }

  lemma SameByte(left: seq<Span>, right: seq<Span>, i: nat, a: int)
    requires Laid(left) && Laid(right) && i < |left| && i < |right|
    requires View(left) == View(right) && left[i].Contains(a) && right[i].Contains(a)
    ensures left[i].At(a) == right[i].At(a)
  {
    hide View;
    ViewAt(left, i, a);
    ViewAt(right, i, a);
  }

  /** Coverage may span adjacent snapshots but never a gap: one cursor walk decides it. */
  method IsCovered(snapshots: seq<Span>, wanted: AddressRange) returns (covered: bool)
    requires Laid(snapshots)
    ensures covered <==> Covered(View(snapshots), wanted)
  {
    var cursor := wanted.start;
    for i := 0 to |snapshots|
      invariant wanted.start <= cursor < wanted.end
      invariant forall a | wanted.start <= a < cursor :: HeldBy(snapshots, a)
      invariant forall j | 0 <= j < i :: snapshots[j].End() <= cursor
    {
      var snapshot := snapshots[i];
      if snapshot.End() > cursor {
        if snapshot.address > cursor {
          assert !HeldBy(snapshots, cursor);
          return false;
        }
        assert forall a | cursor <= a < snapshot.End() :: snapshot.Contains(a);
        cursor := if snapshot.End() < wanted.end then snapshot.End() else wanted.end;
        if cursor == wanted.end {
          return true;
        }
      }
    }
    assert !HeldBy(snapshots, cursor);
    return false;
  }

  function Intersection(left: AddressRange, right: AddressRange): (r: Option<AddressRange>)
    ensures r.Some? <==> left.Overlaps(right)
    ensures r.Some? ==> forall a :: r.value.Contains(a) <==> left.Contains(a) && right.Contains(a)
  {
    var start := if left.start < right.start then right.start else left.start;
    var end := if left.end < right.end then left.end else right.end;
    if start < end then Some(Interval(start, end)) else None
  }

  function BytesAt(span: Span, range: AddressRange): (bytes: seq<byte>)
    requires span.address <= range.start && range.end <= span.End()
    ensures |bytes| == range.Len()
    ensures forall a | range.Contains(a) :: bytes[a - range.start] == span.At(a)
  {
    span.bytes[range.start - span.address..range.end - span.address]
  }

  lemma SameBytesAt(left: Span, right: Span, range: AddressRange)
    requires left.address <= range.start && range.end <= left.End()
    requires right.address <= range.start && range.end <= right.End()
    ensures BytesAt(left, range) == BytesAt(right, range) <==> forall a | range.Contains(a) :: left.At(a) == right.At(a)
  {
    var l, r := BytesAt(left, range), BytesAt(right, range);
    if l != r {
      var k :| 0 <= k < |l| && l[k] != r[k];
      assert range.Contains(range.start + k);
    }
  }

  /** Matching every snapshot's shared part is matching the image. */
  lemma MatchMeansHolds(snapshots: seq<Span>, expected: Span)
    requires Laid(snapshots) && forall a | expected.Contains(a) :: a in View(snapshots)
    ensures Holds(View(snapshots), expected.address, expected.bytes) <==>
            forall j | 0 <= j < |snapshots| :: EditsAgree(snapshots[j], expected)
  {
    hide View, Domain;
    if Holds(View(snapshots), expected.address, expected.bytes) {
      forall j, a | 0 <= j < |snapshots| && snapshots[j].Contains(a) && expected.Contains(a)
        ensures snapshots[j].At(a) == expected.At(a)
      {
        ViewAt(snapshots, j, a);
      }
    }
    if forall j | 0 <= j < |snapshots| :: EditsAgree(snapshots[j], expected) {
      forall a | expected.Contains(a) ensures View(snapshots)[a] == expected.At(a) {
        var i := Holder(snapshots, a);
        ViewAt(snapshots, i, a);
        assert EditsAgree(snapshots[i], expected);
      }
    }
  }

  /** One snapshot's part of the comparison in `bytes_match`. */
  predicate SharedPartMatches(snapshot: Span, expected: Span): (same: bool)
    requires snapshot.Proper() && expected.Proper()
    ensures same <==> EditsAgree(snapshot, expected)
  {
    var shared := Intersection(snapshot.Range().value, expected.Range().value);
    if shared.None? then true
    else
      SameBytesAt(snapshot, expected, shared.value);
      BytesAt(snapshot, shared.value) == BytesAt(expected, shared.value)
  }

  method MatchBytes(snapshots: seq<Span>, expected: Span) returns (r: Result<bool, Refusal>)
    requires Laid(snapshots)
    ensures r == BytesMatch(View(snapshots), expected)
  {
    var wanted :- expected.Range();
    var covered := IsCovered(snapshots, wanted);
    if !covered {
      return Err(DependencyNotHeld);
    }
    MatchMeansHolds(snapshots, expected);
    hide View, Domain, Holds, SharedPartMatches, EditsAgree;
    for i := 0 to |snapshots|
      invariant forall j | 0 <= j < i :: EditsAgree(snapshots[j], expected)
    {
      if !SharedPartMatches(snapshots[i], expected) {
        return Ok(false);
      }
    }
    return Ok(true);
  }

  /** Same extents: what `apply` preserves, so coverage never has to be checked again. */
  ghost predicate SameExtents(left: seq<Span>, right: seq<Span>) {
    && |left| == |right|
    && forall i | 0 <= i < |left| :: left[i].address == right[i].address && |left[i].bytes| == |right[i].bytes|
  }

  lemma SameExtentsSameDomain(left: seq<Span>, right: seq<Span>)
    requires SameExtents(left, right)
    ensures Domain(left) == Domain(right)
    ensures Laid(left) ==> Laid(right)
  {
    forall a ensures HeldBy(left, a) <==> HeldBy(right, a) {
      if HeldBy(left, a) {
        assert right[Holder(left, a)].Contains(a);
      }
      if HeldBy(right, a) {
        assert left[Holder(right, a)].Contains(a);
      }
    }
  }

  /** `copy_from_slice` of the shared part into one snapshot's buffer. */
  function Patched(snapshot: Span, edit: Span, shared: AddressRange): (r: Span)
    requires snapshot.address <= shared.start && shared.end <= snapshot.End()
    requires edit.address <= shared.start && shared.end <= edit.End()
    ensures r.address == snapshot.address && |r.bytes| == |snapshot.bytes|
    ensures forall a | r.Contains(a) :: r.At(a) == if shared.Contains(a) then edit.At(a) else snapshot.At(a)
  {
    var from, to := shared.start - snapshot.address, shared.end - snapshot.address;
    snapshot.(bytes := snapshot.bytes[..from] + BytesAt(edit, shared) + snapshot.bytes[to..])
  }

  /** The snapshot after one edit, byte by byte. */
  ghost predicate PatchedBy(before: Span, after: Span, edit: Span) {
    && after.address == before.address && |after.bytes| == |before.bytes|
    && forall a | before.Contains(a) :: after.At(a) == if edit.Contains(a) then edit.At(a) else before.At(a)
  }

  lemma PatchedView(before: seq<Span>, after: seq<Span>, edit: Span)
    requires Disjoint(before) && |after| == |before|
    requires forall i | 0 <= i < |before| :: PatchedBy(before[i], after[i], edit)
    ensures SameExtents(before, after) && Disjoint(after) && View(after) == Overlay(View(before), edit)
  {
    hide Disjoint, PatchedBy, Domain, View, SameExtents, HeldBy;
    PatchedExtents(before, after, edit);
    SameExtentsSameDomain(before, after);
    var image, wanted := View(after), Overlay(View(before), edit);
    assert image.Keys == wanted.Keys;
    forall a | a in image.Keys ensures image[a] == wanted[a] {
      PatchedByte(before, after, edit, a);
    }
  }

  lemma PatchedExtents(before: seq<Span>, after: seq<Span>, edit: Span)
    requires Disjoint(before) && |after| == |before|
    requires forall i | 0 <= i < |before| :: PatchedBy(before[i], after[i], edit)
    ensures SameExtents(before, after) && Disjoint(after)
  {
    forall i | 0 <= i < |before| ensures before[i].address == after[i].address && |before[i].bytes| == |after[i].bytes| {
      assert PatchedBy(before[i], after[i], edit);
    }
    hide PatchedBy;
    assert SameExtents(before, after);
    forall i, j | 0 <= i < |after| && 0 <= j < |after| && i != j ensures !after[i].Overlaps(after[j]) {
      assert !before[i].Overlaps(before[j]);
    }
  }

  lemma PatchedByte(before: seq<Span>, after: seq<Span>, edit: Span, a: int)
    requires Disjoint(before) && Disjoint(after) && |after| == |before| && a in View(before)
    requires forall i | 0 <= i < |before| :: PatchedBy(before[i], after[i], edit)
    ensures a in View(after) && View(after)[a] == if edit.Contains(a) then edit.At(a) else View(before)[a]
  {
    hide View, Disjoint;
    var i := Holder(before, a);
    assert PatchedBy(before[i], after[i], edit);
    ViewAt(before, i, a);
    ViewAt(after, i, a);
  }

  method ApplyEdit(snapshots: seq<Span>, edit: Span) returns (r: Result<seq<Span>, Refusal>)
    requires Laid(snapshots)
    ensures !edit.Proper() ==> r == Err(InvalidRange)
    ensures edit.Proper() ==>
              (r.Ok? <==> Covered(View(snapshots), edit.Range().value)) && (r.Err? ==> r.error == DependencyNotHeld)
    ensures r.Ok? ==> SameExtents(snapshots, r.value) && Laid(r.value) && View(r.value) == Overlay(View(snapshots), edit)
  {
    var wanted :- edit.Range();
    var covered := IsCovered(snapshots, wanted);
    if !covered {
      return Err(DependencyNotHeld);
    }
    hide View, Domain, Overlay;
    var next := snapshots;
    for i := 0 to |snapshots|
      invariant |next| == |snapshots|
      invariant forall j | i <= j < |snapshots| :: next[j] == snapshots[j]
      invariant forall j | 0 <= j < i :: PatchedBy(snapshots[j], next[j], edit)
    {
      var shared := Intersection(next[i].Range().value, wanted);
      if shared.Some? {
        next := next[i := Patched(next[i], edit, shared.value)];
      }
      assert PatchedBy(snapshots[i], next[i], edit);
    }
    PatchedView(snapshots, next, edit);
    SameExtentsSameDomain(snapshots, next);
    return Ok(next);
  }
}
