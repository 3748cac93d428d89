/** Lock intervals of a composition: `merge_ranges` of src/composition.rs. */
module LockRanges {
  import opened Wrappers
  import opened Contracts
  import opened Sorting

  ghost predicate InSome(ranges: seq<AddressRange>, a: int) {
    exists i | 0 <= i < |ranges| :: ranges[i].Contains(a)
  }

  /** All addresses in some range. */
  ghost function Union(ranges: seq<AddressRange>): (addresses: set<int>)
    ensures forall a :: a in addresses <==> InSome(ranges, a)
  {
    if ranges == [] then {}
    else
      var n := |ranges| - 1;
      assert forall a :: InSome(ranges, a) <==> InSome(ranges[..n], a) || ranges[n].Contains(a) by {
        assert ranges == ranges[..n] + [ranges[n]];
      }
      Union(ranges[..n]) + ranges[n].Addresses()
  }

  /** Sorted, and separated by at least one address: no two ranges could be merged. */
  ghost predicate Canonical(ranges: seq<AddressRange>) {
    forall i, j | 0 <= i < j < |ranges| :: ranges[i].end < ranges[j].start
  }

  lemma UnionOfConcat(left: seq<AddressRange>, right: seq<AddressRange>)
    ensures Union(left + right) == Union(left) + Union(right)
  {
    forall a ensures InSome(left + right, a) <==> InSome(left, a) || InSome(right, a) {
      if i :| 0 <= i < |left| && left[i].Contains(a) {
        assert (left + right)[i] == left[i];
      }
      if i :| 0 <= i < |right| && right[i].Contains(a) {
        assert (left + right)[|left| + i] == right[i];
      }
    }
  }

  lemma UnionOfPermutation(left: seq<AddressRange>, right: seq<AddressRange>)
    requires multiset(left) == multiset(right)
    ensures Union(left) == Union(right)
  {
    forall a ensures InSome(left, a) <==> InSome(right, a) {
      if i :| 0 <= i < |left| && left[i].Contains(a) {
        assert left[i] in multiset(right);
      }
      if i :| 0 <= i < |right| && right[i].Contains(a) {
        assert right[i] in multiset(left);
      }
    }
  }

  /** Replacing the last range by its hull with an overlapping or adjacent one adds just that range. */
  lemma UnionOfMerged(merged: seq<AddressRange>, range: AddressRange, hull: AddressRange)
    requires merged != []
    requires var last := merged[|merged| - 1];
             && last.start <= range.start <= last.end && hull.start == last.start
             && hull.end == if last.end < range.end then range.end else last.end
    ensures Union(merged[..|merged| - 1] + [hull]) == Union(merged) + range.Addresses()
  {
    hide Union, InSome;
    var n := |merged| - 1;
    UnionOfConcat(merged[..n], [merged[n]]);
    UnionOfConcat(merged[..n], [hull]);
    assert merged == merged[..n] + [merged[n]];
    UnionOfOne(merged[n]);
    UnionOfOne(hull);
    assert hull.Addresses() == merged[n].Addresses() + range.Addresses();
  }

  /** One round of the merging loop: extend the last range, or start a new one. */
  function Absorb(merged: seq<AddressRange>, range: AddressRange): (r: seq<AddressRange>)
    requires merged != [] ==> merged[|merged| - 1].start <= range.start
    ensures r != []
  {
    if merged != [] && range.start <= merged[|merged| - 1].end then
      var previous := merged[|merged| - 1];
      merged[..|merged| - 1] + [Interval(previous.start, if range.end < previous.end then previous.end else range.end)]
    else merged + [range]
  }

  lemma AbsorbKeepsCanonical(merged: seq<AddressRange>, range: AddressRange)
    requires Canonical(merged) && (merged != [] ==> merged[|merged| - 1].start <= range.start)
    ensures var r := Absorb(merged, range);
            Canonical(r) && r[|r| - 1].start <= range.start && Union(r) == Union(merged) + range.Addresses()
  {
    hide Union, InSome;
    var r := Absorb(merged, range);
    if merged != [] && range.start <= merged[|merged| - 1].end {
      UnionOfMerged(merged, range, r[|r| - 1]);
    } else {
      UnionOfConcat(merged, [range]);
      UnionOfOne(range);
    }
  }

  method MergeRanges(ranges: seq<AddressRange>) returns (merged: seq<AddressRange>)
    ensures Canonical(merged) && Union(merged) == Union(ranges)
  {
    hide Union, InSome, Absorb, Canonical;
    var sorted := SortUnstable(ranges, (range: AddressRange) => range.start);
    assert forall i, j | 0 <= i < j < |sorted| :: sorted[i].start <= sorted[j].start;
    UnionOfPermutation(sorted, ranges);
    merged := [];
    NothingMerged();
    assert sorted[..0] == [];
    hide *;
    for k := 0 to |sorted|
      invariant Canonical(merged) && Union(merged) == Union(sorted[..k])
      invariant merged != [] ==> k > 0 && merged[|merged| - 1].start <= sorted[k - 1].start
    {
      assert k > 0 ==> sorted[k - 1].start <= sorted[k].start;
      assert sorted[..k + 1] == sorted[..k] + [sorted[k]];
      UnionOfConcat(sorted[..k], [sorted[k]]);
      UnionOfOne(sorted[k]);
      AbsorbKeepsCanonical(merged, sorted[k]);
      merged := Absorb(merged, sorted[k]);
    }
    assert sorted[..|sorted|] == sorted;
  }

  lemma NothingMerged()
    ensures Canonical([]) && Union([]) == {}
  {
  }

  lemma UnionOfOne(range: AddressRange)
    ensures Union([range]) == range.Addresses()
  {
    forall a ensures a in Union([range]) <==> a in range.Addresses() {
      assert InSome([range], a) <==> [range][0].Contains(a);
    }
  }

  lemma CanonicalHead(ranges: seq<AddressRange>)
    requires Canonical(ranges) && ranges != []
    ensures forall a | a in Union(ranges) :: ranges[0].start <= a
    ensures ranges[0].start in Union(ranges) && ranges[0].end !in Union(ranges)
    ensures forall a | ranges[0].Contains(a) :: a in Union(ranges)
    ensures Union(ranges[1..]) == Union(ranges) - ranges[0].Addresses()
  {
    assert ranges == [ranges[0]] + ranges[1..];
    UnionOfConcat([ranges[0]], ranges[1..]);
    UnionOfOne(ranges[0]);
    forall a | a in Union(ranges[1..]) ensures ranges[0].end < a {
      var i :| 0 <= i < |ranges[1..]| && ranges[1..][i].Contains(a);
      assert ranges[1..][i] == ranges[i + 1];
    }
  }

  lemma SameHead(left: seq<AddressRange>, right: seq<AddressRange>)
    requires Canonical(left) && Canonical(right) && Union(left) == Union(right) && left != [] && right != []
    ensures left[0] == right[0]
  {
    CanonicalHead(left);
    CanonicalHead(right);
    hide Union, Canonical;
    var l, r := left[0], right[0];
    assert l.start == r.start;
    assert l.end < r.end ==> r.Contains(l.end);
    assert r.end < l.end ==> l.Contains(r.end);
  }

  /** One set of addresses has one canonical list of ranges. */
  lemma {:induction false} CanonicalIsUnique(left: seq<AddressRange>, right: seq<AddressRange>)
    requires Canonical(left) && Canonical(right) && Union(left) == Union(right)
    ensures left == right
    decreases |left|
  {
    hide Union, Canonical;
    if left == [] {
      EmptyUnion(right);
    } else if right == [] {
      EmptyUnion(left);
    } else {
      SameHead(left, right);
      CanonicalTail(left);
      CanonicalTail(right);
      CanonicalIsUnique(left[1..], right[1..]);
      assert left == [left[0]] + left[1..] && right == [right[0]] + right[1..];
    }
  }

  /** Canonical ranges of no addresses are no ranges. */
  lemma EmptyUnion(ranges: seq<AddressRange>)
    requires Canonical(ranges) && Union(ranges) == Union([])
    ensures ranges == []
  {
    assert forall a :: !InSome([], a);
    if ranges != [] {
      CanonicalHead(ranges);
    }
  }

  lemma CanonicalTail(ranges: seq<AddressRange>)
    requires Canonical(ranges) && ranges != []
    ensures Canonical(ranges[1..]) && Union(ranges[1..]) == Union(ranges) - ranges[0].Addresses()
  {
    CanonicalHead(ranges);
    hide Union;
  }
}
