/** The mutable composition of src/composition.rs, proved against the byte-map rules of VirtualImage.dfy. */
module Composition {
  import opened LittleEndian
  import opened Wrappers
  import opened Contracts
  import opened GeneratedImages
  import opened VirtualImage
  import opened CompositionRuns
  import opened Snapshots
  import opened LockRanges
  import opened Sorting

  ghost predicate AnyOverlap(snapshots: seq<Span>) {
    exists i, j | 0 <= i < j < |snapshots| :: snapshots[i].Overlaps(snapshots[j])
  }

  class Composition {
    const identity: CodeIdentity
    const originals: seq<ExpectedBytes>
    var finalBytes: seq<ExpectedBytes>
    var locks: seq<AddressRange>
    var allocations: seq<AddressRange>
    var physicalSites: set<U64>
    /** Every plan accepted so far, in order. */
    ghost var history: seq<PlanParts>

    /** Snapshots keep their extents and locks stay canonical. */
    ghost predicate WellFormed()
      reads this
    {
      && Laid(originals) && Laid(finalBytes) && SameExtents(originals, finalBytes)
      && Canonical(locks) && Union(locks) <= Domain(originals)
    }

    /** The plain state these fields stand for. */
    ghost function Abstract(): State
      reads this
    {
      State(identity, View(originals), View(finalBytes), Union(locks), Union(allocations), physicalSites)
    }

    /** The current fields are what the accepted plans, replayed over the originals, lead to. */
    ghost predicate Valid()
      reads this
    {
      && WellFormed()
      && (forall i | 0 <= i < |history| :: IsPatchPlan(history[i]))
      && Run(Initial(identity, View(originals)), history) == Ok(Abstract())
    }

    /** Callers see it only after `New` has sorted the snapshots and refused any overlap. */
    constructor Over(identity: CodeIdentity, sorted: seq<ExpectedBytes>)
      requires Laid(sorted)
      ensures Valid() && this.identity == identity && originals == sorted && finalBytes == sorted
      ensures locks == [] && allocations == [] && physicalSites == {} && history == []
    {
      this.identity, originals, finalBytes := identity, sorted, sorted;
      locks, allocations, physicalSites, history := [], [], {}, [];
    }

    constructor Clone(other: Composition)
      ensures identity == other.identity && originals == other.originals && finalBytes == other.finalBytes
      ensures locks == other.locks && allocations == other.allocations
      ensures physicalSites == other.physicalSites && history == other.history
    {
      identity, originals, finalBytes := other.identity, other.originals, other.finalBytes;
      locks, allocations, physicalSites := other.locks, other.allocations, other.physicalSites;
      history := other.history;
    }

    method CheckDependencies(dependencies: seq<AddressRange>) returns (r: Result<(), Refusal>)
      requires WellFormed()
      ensures r == DependenciesChecked(View(originals), dependencies)
    {
      hide View, Covered, Laid;
      for k := 0 to |dependencies|
        invariant DependenciesChecked(View(originals), dependencies) == DependenciesChecked(View(originals), dependencies[k..])
      {
        var covered := IsCovered(originals, dependencies[k]);
        assert dependencies[k..][1..] == dependencies[k + 1..];
        if !covered {
          return Err(DependencyNotHeld);
        }
      }
      return Ok(());
    }

    method CheckReads(readSet: seq<ExpectedBytes>) returns (r: Result<(), Refusal>)
      requires WellFormed()
      ensures r == ReadsChecked(View(finalBytes), readSet)
    {
      hide View, BytesMatch;
      for k := 0 to |readSet|
        invariant ReadsChecked(View(finalBytes), readSet) == ReadsChecked(View(finalBytes), readSet[k..])
      {
        var same := MatchBytes(finalBytes, readSet[k]);
        assert readSet[k..][1..] == readSet[k + 1..];
        if same.Err? {
          return Err(same.error);
        }
        if !same.value {
          return Err(ExpectedBytesChanged);
        }
      }
      return Ok(());
    }

    method CheckEdits(edits: seq<ByteEdit>) returns (r: Result<(), Refusal>)
      requires WellFormed()
      ensures r == EditsChecked(Abstract(), edits, 0)
    {
      hide View, EditsAgree, SharedPartMatches, Covered, Union, Domain, Laid, InSome, HeldBy;
      SameExtentsSameDomain(originals, finalBytes);
      for i := 0 to |edits|
        invariant EditsChecked(Abstract(), edits, 0) == EditsChecked(Abstract(), edits, i)
        invariant forall j | 0 <= j < i :: edits[j].Proper()
      {
        var range :- edits[i].Range();
        var covered := IsCovered(originals, range);
        if !covered {
          return Err(DependencyNotHeld);
        }
        var keeps := KeepsLocks(finalBytes, locks, edits[i]);
        if !keeps {
          return Err(OwnershipConflict);
        }
        for j := 0 to i
          invariant forall k | 0 <= k < j :: EditsAgree(edits[i], edits[k])
        {
          if !SharedPartMatches(edits[i], edits[j]) {
            return Err(OwnershipConflict);
          }
        }
      }
      return Ok(());
    }

    method Reserve(requests: seq<AddressRange>) returns (r: Result<(), Refusal>)
      requires Laid(originals)
      modifies this`allocations
      ensures var spec := Allocate(Domain(originals), old(Union(allocations)), requests);
              && (r.Ok? <==> spec.Ok?)
              && (r.Err? ==> r.error == spec.error)
              && (r.Ok? ==> Union(allocations) == spec.value)
    {
      hide Domain, Union, Free;
      ghost var spec := Allocate(Domain(originals), Union(allocations), requests);
      for k := 0 to |requests|
        invariant Allocate(Domain(originals), Union(allocations), requests[k..]) == spec
      {
        var free := IsFree(originals, allocations, requests[k]);
        assert requests[k..][1..] == requests[k + 1..];
        if !free {
          return Err(OwnershipConflict);
        }
        UnionOfConcat(allocations, [requests[k]]);
        UnionOfOne(requests[k]);
        allocations := allocations + [requests[k]];
      }
      return Ok(());
    }

    method ApplyEdits(edits: seq<ByteEdit>)
      requires Laid(originals) && Laid(finalBytes) && SameExtents(originals, finalBytes)
      requires forall k | 0 <= k < |edits| :: edits[k].Proper() && Covered(View(originals), edits[k].Range().value)
      modifies this`finalBytes
      ensures Laid(finalBytes) && SameExtents(originals, finalBytes)
      ensures View(finalBytes) == OverlayAll(old(View(finalBytes)), edits)
    {
      hide View, Laid, Overlay, Domain;
      ghost var target := OverlayAll(View(finalBytes), edits);
      for k := 0 to |edits|
        invariant Laid(finalBytes) && SameExtents(originals, finalBytes)
        invariant OverlayAll(View(finalBytes), edits[k..]) == target
      {
        SameExtentsSameDomain(originals, finalBytes);
        assert Covered(View(originals), edits[k].Range().value);
        assert Covered(View(finalBytes), edits[k].Range().value);
        var applied := ApplyEdit(finalBytes, edits[k]);
        assert edits[k..][1..] == edits[k + 1..];
        finalBytes := applied.value;
      }
    }

    /** Fetch envelopes of routed 0x62 markers, read from the finished image. */
    method CollectFetchLocks(obligations: seq<EntryObligation>) returns (r: Result<seq<AddressRange>, Refusal>)
      requires Laid(originals) && Laid(finalBytes) && SameExtents(originals, finalBytes)
      ensures var spec := FetchLocks(View(finalBytes), obligations);
              && (r.Ok? <==> spec.Ok?)
              && (r.Err? ==> r.error == spec.error)
              && (r.Ok? ==> Union(r.value) == spec.value)
    {
      SameExtentsSameDomain(originals, finalBytes);
      var fetches: seq<AddressRange> := [];
      assert Union(fetches) == {};
      hide View, Domain, Union, BytesMatch;
      ghost var spec := FetchLocks(View(finalBytes), obligations);
      for k := 0 to |obligations|
        invariant var rest := FetchLocks(View(finalBytes), obligations[k..]);
                  && (rest.Ok? <==> spec.Ok?)
                  && (rest.Err? ==> spec == rest)
                  && (rest.Ok? ==> spec.value == Union(fetches) + rest.value)
      {
        assert obligations[k..][1..] == obligations[k + 1..];
        if obligations[k].Routed? {
          var original := obligations[k].route.original;
          var marked := MatchBytes(finalBytes, Span(original, [0x62]));
          if marked.Err? {
            return Err(marked.error);
          }
          if marked.value {
            var fetch := NewRange(original, 15);
            if fetch.Err? {
              return Err(fetch.error);
            }
            var covered := IsCovered(originals, fetch.value);
            assert covered <==> Covered(View(finalBytes), fetch.value);
            if !covered {
              return Err(DependencyNotHeld);
            }
            UnionOfConcat(fetches, [fetch.value]);
            UnionOfOne(fetch.value);
            fetches := fetches + [fetch.value];
          }
        }
      }
      return Ok(fetches);
    }

    /** All checks and updates of one step; a refusal may leave these fields half changed. */
    method AppendFields(plan: PlanParts) returns (r: Result<(), Refusal>)
      requires WellFormed()
      modifies this`finalBytes, this`locks, this`allocations, this`physicalSites
      ensures var spec := VirtualImage.Append(old(Abstract()), plan);
              && (r.Ok? <==> spec.Ok?)
              && (r.Err? ==> r.error == spec.error)
              && (r.Ok? ==> WellFormed() && Abstract() == spec.value)
    {
      hide View, Domain, Union, Laid, Canonical, InSome, HeldBy, Covered, EditsChecked, ReadsChecked, DependenciesChecked,
           Allocate, FetchLocks, OverlayAll, GeneratedChecked, AddressesOf, Edits, Consistent, SameExtents;
      ghost var before := Abstract();
      SameExtentsSameDomain(originals, finalBytes);
      var edits := Edits(plan);
      if plan.identity != identity {
        return Err(StaleGeneration);
      }
      var _ :- CheckEntryObligations(plan);
      if plan.physicalPc in physicalSites {
        return Err(OwnershipConflict);
      }
      var step := CheckDependencies(plan.dependencies);
      var _ :- step;
      step := CheckReads(plan.readSet);
      var _ :- step;
      step := CheckEdits(edits);
      var _ :- step;
      var covered := IsCovered(originals, OwnedRange(plan));
      if !covered {
        return Err(DependencyNotHeld);
      }
      step := Reserve(plan.allocations);
      var _ :- step;
      step := ValidateGenerated(plan.generated);
      var _ :- step;
      EditsAreCovered(before, edits);
      ApplyEdits(edits);
      var fetches := CollectFetchLocks(plan.obligations);
      if fetches.Err? {
        return Err(fetches.error);
      }
      physicalSites := physicalSites + {plan.physicalPc};
      ghost var spec := VirtualImage.Append(before, plan).value;
      var added := [OwnedRange(plan)] + RangesOf(edits) + fetches.value;
      UnionOfStep(locks, OwnedRange(plan), edits, fetches.value);
      locks := MergeRanges(locks + added);
      assert Abstract() == spec;
      LocksStayInside(before, plan);
      return Ok(());
    }

    /** The same step with its history; only ever run on a private clone. */
    method AppendInner(plan: PlanParts) returns (r: Result<(), Refusal>)
      requires Valid() && IsPatchPlan(plan)
      modifies this
      ensures var spec := VirtualImage.Append(old(Abstract()), plan);
              && (r.Ok? <==> spec.Ok?)
              && (r.Err? ==> r.error == spec.error)
              && (r.Ok? ==> Valid() && Abstract() == spec.value && history == old(history) + [plan])
    {
      hide View, Union, VirtualImage.Append, IsPatchPlan, Domain, Laid, Canonical, SameExtents, Run, Initial;
      ghost var before := Abstract();
      r := AppendFields(plan);
      if r.Ok? {
        RunOneMore(Initial(identity, View(originals)), history, plan, before);
        history := history + [plan];
      }
    }

    /** Adds one plan transactionally: any refusal leaves every field as it was. */
    method Append(plan: PlanParts) returns (r: Result<(), Refusal>)
      requires Valid() && IsPatchPlan(plan)
      modifies this
      ensures Valid()
      ensures match VirtualImage.Append(old(Abstract()), plan)
              case Ok(next) => r.Ok? && Abstract() == next && history == old(history) + [plan]
              case Err(refusal) => r == Err(refusal) && unchanged(this)
    {
      hide View, Union, VirtualImage.Append, IsPatchPlan, Run, Domain, Laid, Canonical;
      var next := new Composition.Clone(this);
      r := next.AppendInner(plan);
      if r.Ok? {
        finalBytes, locks, allocations := next.finalBytes, next.locks, next.allocations;
        physicalSites, history := next.physicalSites, next.history;
      }
    }

    /** Sorts the snapshots and starts from them, or refuses an empty, wrapping or overlapping one. */
    static method New(identity: CodeIdentity, snapshots: seq<ExpectedBytes>) returns (r: Result<Composition, Refusal>)
      ensures r.Ok? <==> (forall i | 0 <= i < |snapshots| :: snapshots[i].Proper()) && !AnyOverlap(snapshots)
      ensures r.Err? && (forall i | 0 <= i < |snapshots| :: snapshots[i].Proper()) ==> r.error == OwnershipConflict
      ensures r.Err? && !AnyOverlap(snapshots) ==> r.error == InvalidRange
      ensures r.Err? ==> r.error == InvalidRange || r.error == OwnershipConflict
      ensures r.Ok? ==> fresh(r.value) && r.value.Valid() && r.value.identity == identity && r.value.history == []
      ensures r.Ok? ==> multiset(r.value.originals) == multiset(snapshots) && r.value.finalBytes == r.value.originals
    {
      var sorted := SortUnstable(snapshots, (snapshot: Span) => snapshot.address);
      SnapshotsPermuted(sorted, snapshots);
      for i := 0 to |sorted|
        invariant Laid(sorted[..i])
      {
        if !sorted[i].Proper() {
          return Err(InvalidRange);
        }
        if i > 0 && sorted[i - 1].Overlaps(sorted[i]) {
          return Err(OwnershipConflict);
        }
        NextIsLaid(sorted, i);
      }
      assert sorted[..|sorted|] == sorted;
      var composition := new Composition.Over(identity, sorted);
      return Ok(composition);
    }

    /** Covered and still unclaimed source ranges; a query that changes nothing. */
    method RequireUnclaimedRanges(ranges: seq<AddressRange>) returns (r: Result<(), Refusal>)
      requires WellFormed()
      ensures r.Ok? <==>
                && (forall i | 0 < i < |ranges| :: ranges[i - 1].end <= ranges[i].start)
                && (forall i | 0 <= i < |ranges| ::
                      Covered(Abstract().originals, ranges[i]) && Free(Abstract().locked, ranges[i]))
      ensures r.Err? ==> r.error == if exists i :: 0 < i < |ranges| && ranges[i - 1].end > ranges[i].start then InvalidRange
                                    else if exists i :: 0 <= i < |ranges| && !Covered(Abstract().originals, ranges[i])
                                      then DependencyNotHeld
                                    else OwnershipConflict
    {
      hide View, Domain, Union, Laid, Canonical, Covered, Free;
      for i := 0 to |ranges|
        invariant forall j | 0 < j < i :: ranges[j - 1].end <= ranges[j].start
      {
        if i > 0 && ranges[i - 1].end > ranges[i].start {
          return Err(InvalidRange);
        }
      }
      for i := 0 to |ranges|
        invariant forall j | 0 <= j < i :: Covered(Abstract().originals, ranges[j])
      {
        var covered := IsCovered(originals, ranges[i]);
        if !covered {
          return Err(DependencyNotHeld);
        }
      }
      for i := 0 to |ranges|
        invariant forall j | 0 <= j < i :: Free(Abstract().locked, ranges[j])
      {
        var free := IsUnlocked(locks, ranges[i]);
        if !free {
          return Err(OwnershipConflict);
        }
      }
      return Ok(());
    }

    /** Authenticates an original view and returns the current bytes of the same range. */
    method PlanningOverlay(wanted: CodeIdentity, view: ExpectedBytes) returns (r: Result<seq<byte>, Refusal>)
      requires WellFormed()
      ensures r.Ok? <==> wanted == identity && BytesMatch(Abstract().originals, view) == Ok(true)
      ensures r.Ok? ==> |r.value| == |view.bytes| && Holds(Abstract().image, view.address, r.value)
      ensures r.Err? ==> r.error == if wanted != identity then StaleGeneration
                                    else if BytesMatch(Abstract().originals, view).Err?
                                      then BytesMatch(Abstract().originals, view).error
                                    else ExpectedBytesChanged
    {
      hide View, Domain, Union, Canonical;
      if wanted != identity {
        return Err(StaleGeneration);
      }
      var same := MatchBytes(originals, view);
      if same.Err? {
        return Err(same.error);
      }
      if !same.value {
        return Err(ExpectedBytesChanged);
      }
      SameExtentsSameDomain(originals, finalBytes);
      var current := CurrentBytes(finalBytes, view.Range().value);
      return Ok(current);
    }
  }

  /** In any valid composition every accepted pun decodes, in the current snapshots, to its own image. */
  lemma AcceptedPunsStillLand(composition: Composition, i: nat)
    requires composition.Valid() && i < |composition.history| && composition.history[i].IsPun()
    ensures var plan := composition.history[i];
            |plan.generated| == 1 && Lands(View(composition.finalBytes), plan.physicalPc, plan.generated[0].image.address)
  {
    hide Run, IsPatchPlan, Lands, View, Union, Domain, Laid, SameExtents, Canonical;
    EveryPunStillLands(Initial(composition.identity, View(composition.originals)), composition.history, i);
  }

  /** The interval list is determined by the locked addresses, however the source was cut. */
  lemma LocksDependOnlyOnState(left: Composition, right: Composition)
    requires left.Valid() && right.Valid() && left.Abstract().locked == right.Abstract().locked
    ensures left.locks == right.locks
  {
    hide Run, IsPatchPlan, Union, View, Domain;
    CanonicalIsUnique(left.locks, right.locks);
  }

  lemma RunOneMore(start: State, plans: seq<PlanParts>, plan: PlanParts, before: State)
    requires Run(start, plans) == Ok(before)
    ensures Run(start, plans + [plan]) == VirtualImage.Append(before, plan)
  {
    assert (plans + [plan])[..|plans|] == plans;
  }

  lemma SnapshotsPermuted(sorted: seq<Span>, snapshots: seq<Span>)
    requires multiset(sorted) == multiset(snapshots)
    ensures (forall i | 0 <= i < |sorted| :: sorted[i].Proper()) <==> forall i | 0 <= i < |snapshots| :: snapshots[i].Proper()
    ensures AnyOverlap(sorted) <==> AnyOverlap(snapshots)
  {
    forall i | 0 <= i < |sorted| ensures sorted[i] in snapshots {
      assert sorted[i] in multiset(snapshots);
    }
    forall i | 0 <= i < |snapshots| ensures snapshots[i] in sorted {
      assert snapshots[i] in multiset(sorted);
    }
    if AnyOverlap(sorted) {
      OverlapPermutes(sorted, snapshots);
    }
    if AnyOverlap(snapshots) {
      OverlapPermutes(snapshots, sorted);
    }
  }

  lemma OverlapPermutes(left: seq<Span>, right: seq<Span>)
    requires multiset(left) == multiset(right) && AnyOverlap(left)
    ensures AnyOverlap(right)
  {
    var i, j :| 0 <= i < j < |left| && left[i].Overlaps(left[j]);
    PairPermutes(left, right, i, j);
    var m, n :| 0 <= m < |right| && 0 <= n < |right| && m != n && right[m] == left[i] && right[n] == left[j];
    assert right[m].Overlaps(right[n]) && right[n].Overlaps(right[m]);
  }

  lemma NextIsLaid(sorted: seq<Span>, i: nat)
    requires i < |sorted| && Laid(sorted[..i]) && sorted[i].Proper()
    requires i > 0 ==> sorted[i - 1].address <= sorted[i].address && !sorted[i - 1].Overlaps(sorted[i])
    ensures Laid(sorted[..i + 1])
  {
    assert sorted[..i + 1] == sorted[..i] + [sorted[i]];
    if i > 0 {
      assert sorted[..i][i - 1] == sorted[i - 1];
    }
  }

  method IsUnlocked(locks: seq<AddressRange>, range: AddressRange) returns (free: bool)
    ensures free <==> Free(Union(locks), range)
  {
    for k := 0 to |locks|
      invariant forall j | 0 <= j < k :: !locks[j].Overlaps(range)
    {
      if locks[k].Overlaps(range) {
        var a := if locks[k].start < range.start then range.start else locks[k].start;
        assert locks[k].Contains(a) && InSome(locks, a);
        return false;
      }
    }
    return true;
  }

  /** The next snapshot that shares anything with a covered range starts exactly where the walk stands. */
  lemma NextShared(snapshots: seq<Span>, wanted: AddressRange, i: nat, position: int)
    requires Laid(snapshots) && Covered(View(snapshots), wanted) && i < |snapshots|
    requires wanted.start <= position < wanted.end && forall j | 0 <= j < i :: snapshots[j].End() <= position
    requires position > wanted.start ==> forall j | i <= j < |snapshots| :: position <= snapshots[j].address
    ensures snapshots[i].address < wanted.end
    ensures wanted.start < snapshots[i].End() ==> snapshots[i].Contains(position)
  {
    hide View, Domain;
    assert position in View(snapshots);
    var h := Holder(snapshots, position);
    assert h >= i;
  }

  /** `current` is what the first i snapshots contribute to a covered range. */
  ghost predicate Walked(snapshots: seq<Span>, wanted: AddressRange, i: nat, current: seq<byte>) {
    && |current| <= wanted.Len() && Holds(View(snapshots), wanted.start, current)
    && (wanted.start + |current| < wanted.end ==>
          forall j | 0 <= j < i && j < |snapshots| :: snapshots[j].End() <= wanted.start + |current|)
    && (|current| > 0 ==> forall j | i <= j < |snapshots| :: wanted.start + |current| <= snapshots[j].address)
  }

  function WithShared(current: seq<byte>, snapshot: Span, wanted: AddressRange): seq<byte>
    requires snapshot.Proper()
  {
    var shared := Intersection(RangeOf(snapshot), wanted);
    if shared.Some? then current + BytesAt(snapshot, shared.value) else current
  }

  lemma WalkOn(snapshots: seq<Span>, wanted: AddressRange, i: nat, current: seq<byte>)
    requires Laid(snapshots) && Covered(View(snapshots), wanted) && i < |snapshots|
    requires Walked(snapshots, wanted, i, current)
    ensures Walked(snapshots, wanted, i + 1, WithShared(current, snapshots[i], wanted))
  {
    hide View, Domain, Covered, Holds, BytesAt;
    var position, snapshot := wanted.start + |current|, snapshots[i];
    var shared := Intersection(RangeOf(snapshot), wanted);
    if position < wanted.end {
      NextShared(snapshots, wanted, i, position);
    }
    if shared.Some? {
      SharedHolds(snapshots, i, shared.value);
      HoldsConcat(View(snapshots), wanted.start, current, BytesAt(snapshot, shared.value));
      assert shared.value.start == position && shared.value.end <= snapshot.End();
    }
  }

  lemma HoldsConcat(image: Image, address: int, first: seq<byte>, second: seq<byte>)
    requires Holds(image, address, first) && Holds(image, address + |first|, second)
    ensures Holds(image, address, first + second)
  {
  }

  lemma WalkEnds(snapshots: seq<Span>, wanted: AddressRange, current: seq<byte>)
    requires Laid(snapshots) && Covered(View(snapshots), wanted) && Walked(snapshots, wanted, |snapshots|, current)
    ensures |current| == wanted.Len()
  {
    hide View, Domain;
    var position := wanted.start + |current|;
    assert position < wanted.end ==> HeldBy(snapshots, position);
  }

  /** Concatenates the shared part of every snapshot: the whole range, once it is covered. */
  method CurrentBytes(snapshots: seq<Span>, wanted: AddressRange) returns (current: seq<byte>)
    requires Laid(snapshots) && Covered(View(snapshots), wanted)
    ensures |current| == wanted.Len() && Holds(View(snapshots), wanted.start, current)
  {
    current := [];
    hide View, Domain, Covered;
    for i := 0 to |snapshots|
      invariant Walked(snapshots, wanted, i, current)
    {
      WalkOn(snapshots, wanted, i, current);
      current := WithShared(current, snapshots[i], wanted);
    }
    WalkEnds(snapshots, wanted, current);
  }

  lemma SharedHolds(snapshots: seq<Span>, i: nat, shared: AddressRange)
    requires Laid(snapshots) && i < |snapshots|
    requires snapshots[i].address <= shared.start && shared.end <= snapshots[i].End()
    ensures Holds(View(snapshots), shared.start, BytesAt(snapshots[i], shared))
  {
    hide View, BytesAt, Laid;
    forall a | shared.start <= a < shared.end
      ensures a in View(snapshots) && View(snapshots)[a] == BytesAt(snapshots[i], shared)[a - shared.start]
    {
      SharedByte(snapshots, i, shared, a);
    }
  }

  lemma SharedByte(snapshots: seq<Span>, i: nat, shared: AddressRange, a: int)
    requires Laid(snapshots) && i < |snapshots| && shared.Contains(a)
    requires snapshots[i].address <= shared.start && shared.end <= snapshots[i].End()
    ensures a in View(snapshots) && View(snapshots)[a] == BytesAt(snapshots[i], shared)[a - shared.start]
  {
    hide View;
    ViewAt(snapshots, i, a);
  }

  function RangeOf(edit: ByteEdit): (range: AddressRange)
    requires edit.Proper()
    ensures range.start == edit.address && range.end == edit.End()
  {
    Interval(edit.address, edit.End())
  }

  /** The ranges of a step's stores. */
  function RangesOf(edits: seq<ByteEdit>): (ranges: seq<AddressRange>)
    requires forall k | 0 <= k < |edits| :: edits[k].Proper()
    ensures |ranges| == |edits| && forall k | 0 <= k < |edits| :: ranges[k] == RangeOf(edits[k])
  {
    seq(|edits|, k requires 0 <= k < |edits| && edits[k].Proper() => RangeOf(edits[k]))
  }

  lemma RangesOfEdits(edits: seq<ByteEdit>)
    requires forall k | 0 <= k < |edits| :: edits[k].Proper()
    ensures Union(RangesOf(edits)) == AddressesOf(edits)
  {
    hide Union, AddressesOf, RangesOf;
    forall a ensures a in Union(RangesOf(edits)) <==> a in AddressesOf(edits) {
      if k :| 0 <= k < |edits| && RangesOf(edits)[k].Contains(a) {
        assert edits[k] in edits && edits[k].Contains(a);
      }
      if e :| e in edits && e.Contains(a) {
        var k :| 0 <= k < |edits| && edits[k] == e;
        assert RangesOf(edits)[k].Contains(a);
      }
    }
    assert Union(RangesOf(edits)) == AddressesOf(edits);
  }

  lemma UnionOfStep(locks: seq<AddressRange>, owned: AddressRange, edits: seq<ByteEdit>, fetches: seq<AddressRange>)
    requires forall k | 0 <= k < |edits| :: edits[k].Proper()
    ensures Union(locks + ([owned] + RangesOf(edits) + fetches))
            == Union(locks) + owned.Addresses() + AddressesOf(edits) + Union(fetches)
  {
    hide Union, AddressesOf, RangesOf;
    UnionOfConcat(locks, [owned] + RangesOf(edits) + fetches);
    UnionOfConcat([owned] + RangesOf(edits), fetches);
    UnionOfConcat([owned], RangesOf(edits));
    UnionOfOne(owned);
    RangesOfEdits(edits);
  }

  lemma EditsAreCovered(state: State, edits: seq<ByteEdit>)
    requires EditsChecked(state, edits, 0).Ok?
    ensures forall k | 0 <= k < |edits| :: edits[k].Proper() && Covered(state.originals, edits[k].Range().value)
  {
    hide EditsChecked;
    EditsMeaning(state, edits, 0);
    forall k | 0 <= k < |edits| ensures edits[k].Proper() && Covered(state.originals, edits[k].Range().value) {
      assert EditAllowed(state, edits[k]);
    }
  }


  // ---------------------------------------------------------------- sets of ranges, range by range

  /** The part of an edit that falls in one lock repeats the current bytes. */
  method KeepsLock(finalBytes: seq<Span>, lock: AddressRange, edit: ByteEdit) returns (keeps: bool)
    requires Laid(finalBytes) && edit.Proper() && Covered(View(finalBytes), lock)
    ensures keeps <==> KeepsRange(View(finalBytes), edit, lock)
  {
    hide View, Laid, KeepsRange;
    var shared := Intersection(edit.Range().value, lock);
    if shared.None? {
      NothingShared(View(finalBytes), edit, lock);
      return true;
    }
    var expected := Span(shared.value.start, BytesAt(edit, shared.value));
    var same := MatchBytes(finalBytes, expected);
    LockedPart(View(finalBytes), edit, lock, shared.value);
    // A locked range is always covered, so the comparison itself is never refused.
    assert Covered(View(finalBytes), expected.Range().value);
    return same == Ok(true);
  }

  /** Whether every locked byte the edit touches keeps its current value. */
  method KeepsLocks(finalBytes: seq<Span>, locks: seq<AddressRange>, edit: ByteEdit) returns (keeps: bool)
    requires Laid(finalBytes) && Union(locks) <= Domain(finalBytes) && edit.Proper()
    ensures keeps <==> KeepsAll(Union(locks), View(finalBytes), edit)
  {
    hide *;
    LocksRangeByRange(locks, View(finalBytes), edit);
    LocksAreHeld(finalBytes, locks);
    for k := 0 to |locks|
      invariant forall j | 0 <= j < k :: KeepsRange(View(finalBytes), edit, locks[j])
    {
      var kept := KeepsLock(finalBytes, locks[k], edit);
      if !kept {
        return false;
      }
    }
    return true;
  }

  /** No snapshot and no earlier mapping overlaps the requested range. */
  method IsFree(originals: seq<Span>, allocations: seq<AddressRange>, range: AddressRange) returns (free: bool)
    requires Laid(originals)
    ensures free <==> Free(Domain(originals) + Union(allocations), range)
  {
    hide *;
    FreeRangeByRange(originals, allocations, range);
    for k := 0 to |originals|
      invariant forall j | 0 <= j < k :: Apart(originals[j], range)
    {
      if !Apart(originals[k], range) {
        return false;
      }
    }
    for k := 0 to |allocations|
      invariant forall j | 0 <= j < k :: !allocations[j].Overlaps(range)
    {
      if allocations[k].Overlaps(range) {
        return false;
      }
    }
    return true;
  }

  predicate Apart(snapshot: Span, range: AddressRange) {
    snapshot.End() <= range.start || range.end <= snapshot.address
  }

  ghost predicate KeepsAll(locked: set<int>, image: Image, edit: ByteEdit) {
    forall a | a in locked && a in image && edit.Contains(a) :: edit.At(a) == image[a]
  }

  ghost predicate KeepsRange(image: Image, edit: ByteEdit, lock: AddressRange) {
    forall a | lock.Contains(a) && edit.Contains(a) :: a in image && edit.At(a) == image[a]
  }

  lemma LocksRangeByRange(locks: seq<AddressRange>, image: Image, edit: ByteEdit)
    requires Union(locks) <= image.Keys
    ensures KeepsAll(Union(locks), image, edit) <==> forall k | 0 <= k < |locks| :: KeepsRange(image, edit, locks[k])
  {
    hide Union;
    if forall a | a in Union(locks) && a in image && edit.Contains(a) :: edit.At(a) == image[a] {
      forall k, a | 0 <= k < |locks| && locks[k].Contains(a) && edit.Contains(a)
        ensures a in image && edit.At(a) == image[a]
      {
        assert InSome(locks, a);
      }
    }
    if forall k | 0 <= k < |locks| :: KeepsRange(image, edit, locks[k]) {
      forall a | a in Union(locks) && a in image && edit.Contains(a) ensures edit.At(a) == image[a] {
        var k :| 0 <= k < |locks| && locks[k].Contains(a);
        assert KeepsRange(image, edit, locks[k]);
      }
    }
  }

  lemma LocksAreHeld(finalBytes: seq<Span>, locks: seq<AddressRange>)
    requires Union(locks) <= Domain(finalBytes)
    ensures forall k | 0 <= k < |locks| :: Covered(View(finalBytes), locks[k])
  {
    forall k, a | 0 <= k < |locks| && locks[k].start <= a < locks[k].end ensures a in View(finalBytes) {
      assert InSome(locks, a) by { assert locks[k].Contains(a); }
      assert a in Domain(finalBytes);
    }
    hide View, Domain, Union;
  }

  lemma LockedPart(image: Image, edit: ByteEdit, lock: AddressRange, shared: AddressRange)
    requires edit.Proper() && forall a :: shared.Contains(a) <==> edit.Contains(a) && lock.Contains(a)
    requires edit.address <= shared.start && shared.end <= edit.End()
    ensures KeepsRange(image, edit, lock) <==> Holds(image, shared.start, BytesAt(edit, shared))
  {
  }

  lemma NothingShared(image: Image, edit: ByteEdit, lock: AddressRange)
    requires edit.Proper() && !edit.Range().value.Overlaps(lock)
    ensures KeepsRange(image, edit, lock)
  {
  }

  lemma FreeRangeByRange(snapshots: seq<Span>, ranges: seq<AddressRange>, range: AddressRange)
    requires Laid(snapshots)
    ensures Free(Domain(snapshots) + Union(ranges), range) <==>
              && (forall j | 0 <= j < |snapshots| :: Apart(snapshots[j], range))
              && (forall j | 0 <= j < |ranges| :: !ranges[j].Overlaps(range))
  {
    hide Domain, Union;
    if Free(Domain(snapshots) + Union(ranges), range) {
      forall j | 0 <= j < |snapshots| ensures Apart(snapshots[j], range) {
        var a := if snapshots[j].address < range.start then range.start else snapshots[j].address;
        assert snapshots[j].Contains(a) ==> HeldBy(snapshots, a);
      }
      forall j | 0 <= j < |ranges| ensures !ranges[j].Overlaps(range) {
        var a := if ranges[j].start < range.start then range.start else ranges[j].start;
        assert ranges[j].Contains(a) ==> InSome(ranges, a);
      }
    }
  }
}
