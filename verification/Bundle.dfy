/** Composing a bundle of trusted plans, and its one-shot publication and retirement: src/bundle.rs. */
module Bundle {
  import opened LittleEndian
  import opened Wrappers
  import opened Contracts
  import opened VirtualImage
  import opened CompositionRuns
  import opened StoreOrder
  import opened Snapshots
  import opened LockRanges
  import opened Aliases
  import C = Composition

  datatype BundleBudget = BundleBudget(
    maxSteps: nat, maxMappings: nat, maxVirtualBytes: U64, maxBackingBytes: U64, maxVirtualSpan: U64)

  datatype BundleMemory = BundleMemory(
    mappings: nat, virtualPages: nat, backingPages: nat, virtualBytes: U64, backingBytes: U64, virtualSpan: U64)

  datatype BundlePlan = BundlePlan(
    identity: CodeIdentity,
    originals: seq<ExpectedBytes>,
    finalBytes: seq<ExpectedBytes>,
    steps: seq<PlanParts>,
    locks: seq<AddressRange>,
    memory: BundleMemory)

  /** What composition establishes about a plan's fields, and nothing outside this module can forge. */
  ghost predicate Composed(plan: BundlePlan) {
    && plan.steps != []
    && (forall i | 0 <= i < |plan.steps| :: IsPatchPlan(plan.steps[i]))
    && Laid(plan.originals) && Laid(plan.finalBytes) && SameExtents(plan.originals, plan.finalBytes)
    && Run(Initial(plan.identity, View(plan.originals)), plan.steps).Ok?
    && var final := Run(Initial(plan.identity, View(plan.originals)), plan.steps).value;
       View(plan.finalBytes) == final.image && Canonical(plan.locks) && Union(plan.locks) == final.locked
  }

  // ---------------------------------------------------------------- composition

  function AllMappings(members: seq<PlanParts>): seq<AddressRange> {
    if members == [] then [] else members[0].allocations + AllMappings(members[1..])
  }

  function TotalLength(ranges: seq<AddressRange>): nat {
    if ranges == [] then 0 else ranges[0].Len() + TotalLength(ranges[1..])
  }

  function Lowest(ranges: seq<AddressRange>): (low: U64)
    requires ranges != []
    ensures forall i | 0 <= i < |ranges| :: low <= ranges[i].start
    ensures exists i | 0 <= i < |ranges| :: low == ranges[i].start
  {
    if |ranges| == 1 then ranges[0].start
    else
      var rest := Lowest(ranges[1..]);
      assert forall i | 0 < i < |ranges| :: ranges[i] == ranges[1..][i - 1];
      if ranges[0].start < rest then ranges[0].start else rest
  }

  function Highest(ranges: seq<AddressRange>): (high: U64)
    requires ranges != []
    ensures forall i | 0 <= i < |ranges| :: ranges[i].end <= high
    ensures exists i | 0 <= i < |ranges| :: high == ranges[i].end
  {
    if |ranges| == 1 then ranges[0].end
    else
      var rest := Highest(ranges[1..]);
      assert forall i | 0 < i < |ranges| :: ranges[i] == ranges[1..][i - 1];
      if rest < ranges[0].end then ranges[0].end else rest
  }

  function CheckedBundleMemory(mappings: nat, virtualBytes: U64, backingBytes: U64, virtualSpan: U64, budget: BundleBudget)
    : Result<BundleMemory, Refusal>
  {
    if mappings > budget.maxMappings || virtualBytes > budget.maxVirtualBytes
       || backingBytes > budget.maxBackingBytes || virtualSpan > budget.maxVirtualSpan
    then Err(AllocationUnavailable)
    else Ok(BundleMemory(mappings, virtualBytes / 4096, backingBytes / 4096, virtualBytes, backingBytes, virtualSpan))
  }

  /** Members are appended in order, each only if it asks for permanent installation. */
  ghost function RunMembers(start: State, members: seq<PlanParts>): Result<State, Refusal> {
    if members == [] then Ok(start)
    else
      var n := |members| - 1;
      var before :- RunMembers(start, members[..n]);
      var _ :- Need(members[n].profile.InstallOnce?, InvalidPlan);
      VirtualImage.Append(before, members[n])
  }

  /** Mapping totals against the budget; ungrouped images back every virtual byte themselves. */
  function AccountedMemory(members: seq<PlanParts>, budget: BundleBudget): Result<BundleMemory, Refusal> {
    var mappings := AllMappings(members);
    var total := TotalLength(mappings);
    var _ :- Need(total < 0x1_0000_0000_0000_0000, InvalidRange);
    var _ :- Need(mappings != [], InvalidPlan);
    var span := Highest(mappings) - Lowest(mappings);
    assert Lowest(mappings) <= Highest(mappings) by {
      var i :| 0 <= i < |mappings| && Lowest(mappings) == mappings[i].start;
    }
    CheckedBundleMemory(|mappings|, total, total, span, budget)
  }

  lemma {:induction false} MappingsAreMembers(members: seq<PlanParts>)
    ensures forall q :: q in AllMappings(members) <==> exists i | 0 <= i < |members| :: q in members[i].allocations
  {
    if members != [] {
      var rest := members[1..];
      MappingsAreMembers(rest);
      assert forall i | 0 < i < |members| :: members[i] == rest[i - 1];
      assert forall i | 0 <= i < |rest| :: rest[i] == members[i + 1];
    }
  }

  ghost function AddressesIn(ranges: seq<AddressRange>): (addresses: set<int>)
    ensures forall a :: a in addresses <==> exists i | 0 <= i < |ranges| :: ranges[i].Contains(a)
  {
    if ranges == [] then {}
    else
      var rest := AddressesIn(ranges[1..]);
      assert forall i | 0 < i < |ranges| :: ranges[i] == ranges[1..][i - 1];
      assert forall i | 0 <= i < |ranges| - 1 :: ranges[1..][i] == ranges[i + 1];
      ranges[0].Addresses() + rest
  }

  lemma {:induction false} RangeSize(start: int, end: int, addresses: set<int>)
    requires start <= end && forall a :: a in addresses <==> start <= a < end
    ensures |addresses| == end - start
    decreases end - start
  {
    if start < end {
      RangeSize(start, end - 1, addresses - {end - 1});
    } else {
      assert forall a :: a !in addresses;
    }
  }

  lemma RangesApart(ranges: seq<AddressRange>)
    requires ranges != [] && forall i, j | 0 <= i < j < |ranges| :: !ranges[i].Overlaps(ranges[j])
    ensures ranges[0].Addresses() !! AddressesIn(ranges[1..])
    ensures forall i, j | 0 <= i < j < |ranges[1..]| :: !ranges[1..][i].Overlaps(ranges[1..][j])
  {
    assert forall i | 0 <= i < |ranges[1..]| :: ranges[1..][i] == ranges[i + 1];
  }

  /** Of ranges that share no address, the total length is the number of their addresses. */
  lemma {:induction false} TotalLengthCounts(ranges: seq<AddressRange>)
    requires forall i, j | 0 <= i < j < |ranges| :: !ranges[i].Overlaps(ranges[j])
    ensures TotalLength(ranges) == |AddressesIn(ranges)|
  {
    if ranges != [] {
      RangesApart(ranges);
      TotalLengthCounts(ranges[1..]);
      RangeSize(ranges[0].start, ranges[0].end, ranges[0].Addresses());
    }
  }

  /** Every mapping counts once, in number and in bytes; all bytes are backed; the span reaches over all mappings. */
  lemma AccountedExactly(members: seq<PlanParts>, budget: BundleBudget)
    ensures var mappings, r := AllMappings(members), AccountedMemory(members, budget);
            && (r.Ok? <==>
                  && mappings != [] && TotalLength(mappings) < 0x1_0000_0000_0000_0000
                  && |mappings| <= budget.maxMappings
                  && TotalLength(mappings) <= budget.maxVirtualBytes && TotalLength(mappings) <= budget.maxBackingBytes
                  && forall i, j | 0 <= i < |mappings| && 0 <= j < |mappings| :: mappings[i].end - mappings[j].start <= budget.maxVirtualSpan)
            && (r.Err? ==> r.error == if TotalLength(mappings) >= 0x1_0000_0000_0000_0000 then InvalidRange
                                      else if mappings == [] then InvalidPlan else AllocationUnavailable)
            && (r.Ok? ==>
                  && r.value.mappings == |mappings|
                  && r.value.virtualBytes == r.value.backingBytes == TotalLength(mappings)
                  && r.value.virtualPages == r.value.backingPages
                  && r.value.virtualPages * 4096 <= r.value.virtualBytes < (r.value.virtualPages + 1) * 4096
                  && exists i, j | 0 <= i < |mappings| && 0 <= j < |mappings| :: r.value.virtualSpan == mappings[i].end - mappings[j].start)
  {
    hide Lowest, Highest, TotalLength, AllMappings;
    var mappings := AllMappings(members);
    if mappings != [] {
      var low, high := Lowest(mappings), Highest(mappings);
      var j :| 0 <= j < |mappings| && low == mappings[j].start;
      var i :| 0 <= i < |mappings| && high == mappings[i].end;
      assert mappings[i].end - mappings[j].start == high - low;
    }
  }

  ghost predicate GoodSnapshots(snapshots: seq<Span>) {
    (forall i | 0 <= i < |snapshots| :: snapshots[i].Proper()) && !C.AnyOverlap(snapshots)
  }

  lemma GoodIsDisjoint(snapshots: seq<Span>)
    ensures GoodSnapshots(snapshots) <==> Disjoint(snapshots)
  {
    if GoodSnapshots(snapshots) {
      forall i, j | 0 <= i < |snapshots| && 0 <= j < |snapshots| && i != j ensures !snapshots[i].Overlaps(snapshots[j]) {
        assert i < j || !snapshots[j].Overlaps(snapshots[i]);
      }
    }
  }

  lemma {:induction false} RunMembersIsRun(start: State, members: seq<PlanParts>)
    requires RunMembers(start, members).Ok?
    ensures Run(start, members) == RunMembers(start, members)
    decreases |members|
  {
    if members != [] {
      RunMembersIsRun(start, members[..|members| - 1]);
    }
  }

  /** All members are appended exactly if each asks for permanent installation and their run is accepted. */
  lemma {:induction false} RunMembersExactly(start: State, members: seq<PlanParts>)
    ensures RunMembers(start, members).Ok? <==>
              Run(start, members).Ok? && forall i | 0 <= i < |members| :: members[i].profile.InstallOnce?
    decreases |members|
  {
    hide VirtualImage.Append;
    if members != [] {
      var n := |members| - 1;
      RunMembersExactly(start, members[..n]);
      if RunMembers(start, members[..n]).Ok? {
        RunMembersIsRun(start, members[..n]);
      }
      assert members == members[..n] + [members[n]];
    }
  }

  /** The first member that cannot be appended decides the outcome of the whole list. */
  lemma {:induction false} RunMembersStops(start: State, members: seq<PlanParts>, k: nat)
    requires k <= |members| && RunMembers(start, members[..k]).Err?
    ensures RunMembers(start, members) == RunMembers(start, members[..k])
    decreases |members|
  {
    if k < |members| {
      assert members[..|members| - 1][..k] == members[..k];
      RunMembersStops(start, members[..|members| - 1], k);
    } else {
      assert members[..k] == members;
    }
  }

  /** Loop over the members, on one mutable composition. */
  method AppendMembers(composition: C.Composition, members: seq<PlanParts>) returns (r: Result<(), Refusal>)
    requires composition.Valid() && forall i | 0 <= i < |members| :: IsPatchPlan(members[i])
    requires composition.history == []
    modifies composition
    ensures composition.Valid()
    ensures var spec := RunMembers(old(composition.Abstract()), members);
            && (r.Ok? <==> spec.Ok?)
            && (r.Err? ==> r.error == spec.error)
            && (r.Ok? ==> composition.Abstract() == spec.value && composition.history == members)
  {
    hide View, Union, IsPatchPlan, VirtualImage.Append, Run, Laid, Domain, SameExtents, Canonical;
    ghost var start := composition.Abstract();
    for k := 0 to |members|
      invariant composition.Valid() && composition.history == members[..k]
      invariant RunMembers(start, members[..k]) == Ok(composition.Abstract())
    {
      assert members[..k + 1][..k] == members[..k];
      if !members[k].profile.InstallOnce? {
        RunMembersStops(start, members, k + 1);
        return Err(InvalidPlan);
      }
      var appended := composition.Append(members[k]);
      if appended.Err? {
        RunMembersStops(start, members, k + 1);
        return Err(appended.error);
      }
      assert members[..k + 1] == members[..k] + [members[k]];
    }
    assert members[..|members|] == members;
    return Ok(());
  }

  /** `compose` without grouping: one private backing allocation per image. */
  method Compose(originals: seq<ExpectedBytes>, members: seq<PlanParts>, budget: BundleBudget)
    returns (r: Result<BundlePlan, Refusal>)
    requires forall i | 0 <= i < |members| :: IsPatchPlan(members[i])
    ensures members == [] ==> r == Err(InvalidPlan)
    ensures members != [] && |members| > budget.maxSteps ==> r == Err(AllocationUnavailable)
    ensures members != [] && |members| <= budget.maxSteps ==>
              if !GoodSnapshots(originals) then r.Err? && r.error in {InvalidRange, OwnershipConflict}
              else
                var run := RunMembers(Initial(members[0].identity, View(originals)), members);
                if run.Err? then r == Err(run.error)
                else if AccountedMemory(members, budget).Err? then r == Err(AccountedMemory(members, budget).error)
                else
                  && r.Ok? && Composed(r.value)
                  && r.value.steps == members && r.value.identity == members[0].identity
                  && multiset(r.value.originals) == multiset(originals) && View(r.value.originals) == View(originals)
                  && Run(Initial(members[0].identity, View(originals)), members) == run
                  && View(r.value.finalBytes) == run.value.image
                  && r.value.memory == AccountedMemory(members, budget).value
  {
    hide View, Union, IsPatchPlan, Run, RunMembers, AccountedMemory, Laid, Domain, SameExtents, Canonical;
    if members == [] {
      return Err(InvalidPlan);
    }
    if |members| > budget.maxSteps {
      return Err(AllocationUnavailable);
    }
    var created := C.Composition.New(members[0].identity, originals);
    if created.Err? {
      return Err(created.error);
    }
    var composition := created.value;
    GoodIsDisjoint(originals);
    LaidPermutes(composition.originals, originals);
    StartsInitial(composition);
    var appended := AppendMembers(composition, members);
    if appended.Err? {
      return Err(appended.error);
    }
    RunMembersIsRun(Initial(members[0].identity, View(originals)), members);
    var memory := AccountedMemory(members, budget);
    if memory.Err? {
      return Err(memory.error);
    }
    return Ok(BundlePlan(
      members[0].identity, composition.originals, composition.finalBytes, members, composition.locks, memory.value));
  }

  lemma StartsInitial(composition: C.Composition)
    requires composition.Valid() && composition.history == []
    ensures composition.Abstract() == Initial(composition.identity, View(composition.originals))
  {
  }

  lemma LaidPermutes(sorted: seq<Span>, snapshots: seq<Span>)
    requires Laid(sorted) && Disjoint(snapshots) && multiset(sorted) == multiset(snapshots)
    ensures View(sorted) == View(snapshots)
  {
    hide View;
    ViewPermutes(sorted, snapshots);
  }
}
