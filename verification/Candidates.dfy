/** What `pun_candidates` of src/quiescent.rs:1339-1371 lists: the first few of one fixed order of addresses. */
module Candidates {
  import opened Wrappers
  import opened Contracts
  import opened EvictionChain

  // ---------------------------------------------------------------- the whole list, without any limit

  /** An address, then every page boundary above it, below `end`. */
  function Boundaries(address: int, end: U64): (r: seq<U64>)
    requires 0 <= address
    decreases end - address
  {
    if address >= end then [] else [address] + Boundaries(address - address % PAGE + PAGE, end)
  }

  function RoundedUp(address: U64): int {
    var up := address + (PAGE - 1);
    up - up % PAGE
  }

  function Later(a: int, b: int): int {
    if a < b then b else a
  }

  function Earlier(a: U64, b: U64): U64 {
    if a < b then a else b
  }

  /** Where one range of the policy meets the window; a range whose first boundary is no address gives none. */
  function RangeAddresses(range: AddressRange, window: AddressRange): seq<U64> {
    if range.start + (PAGE - 1) >= 0x1_0000_0000_0000_0000 then []
    else Boundaries(Later(window.start, RoundedUp(range.start)), Earlier(window.end, range.end))
  }

  function AllRangeAddresses(ranges: seq<AddressRange>, window: AddressRange): seq<U64> {
    if ranges == [] then [] else RangeAddresses(ranges[0], window) + AllRangeAddresses(ranges[1..], window)
  }

  function PreferredAddress(window: AddressRange, policy: AllocationPolicy): seq<U64> {
    if policy.preferred.Some? && window.Contains(policy.preferred.value) then [policy.preferred.value] else []
  }

  /** Appends what is not there yet. */
  function Merged(seen: seq<U64>, more: seq<U64>): seq<U64>
    decreases |more|
  {
    if more == [] then seen
    else Merged(if more[0] in seen then seen else seen + [more[0]], more[1..])
  }

  /** Preferred address first, then the policy's ranges in order, each address once. */
  function AllCandidates(window: AddressRange, policy: AllocationPolicy): seq<U64> {
    Merged([], PreferredAddress(window, policy) + AllRangeAddresses(policy.ranges, window))
  }

  function First(addresses: seq<U64>, max: nat): seq<U64> {
    if |addresses| <= max then addresses else addresses[..max]
  }

  // ---------------------------------------------------------------- which addresses those are

  /** An address of the window on a page boundary of the range, or the window's start itself inside the range. */
  ghost predicate InRange(window: AddressRange, range: AddressRange, address: U64) {
    && window.Contains(address) && range.Contains(address)
    && (address % PAGE == 0 || (address == window.start && RoundedUp(range.start) <= address))
  }

  ghost predicate IsCandidate(window: AddressRange, policy: AllocationPolicy, address: U64) {
    || (policy.preferred == Some(address) && window.Contains(address))
    || exists range | range in policy.ranges :: InRange(window, range, address)
  }

  lemma {:induction false} BoundariesMeaning(address: int, end: U64)
    requires 0 <= address
    ensures forall a :: a in Boundaries(address, end) <==> address <= a < end && (a == address || a % PAGE == 0)
    decreases end - address
  {
    if address < end {
      var next := address - address % PAGE + PAGE;
      BoundariesMeaning(next, end);
      forall a ensures a in Boundaries(address, end) <==> address <= a < end && (a == address || a % PAGE == 0) {
        NothingBetween(address, a);
      }
    }
  }

  /** Between an address and the page boundary after it there is no other. */
  lemma NothingBetween(address: int, a: int)
    requires 0 <= address
    ensures var next := address - address % PAGE + PAGE;
            && next % PAGE == 0 && (address < a < next ==> a % PAGE != 0)
  {
    var next := address - address % PAGE + PAGE;
    assert next == (address / PAGE + 1) * PAGE;
    if address < a < next {
      assert a / PAGE == address / PAGE;
      assert a % PAGE == a - address / PAGE * PAGE > 0;
    }
  }

  lemma RangeAddressesMeaning(range: AddressRange, window: AddressRange)
    ensures forall a: U64 :: a in RangeAddresses(range, window) <==> InRange(window, range, a)
  {
    var from := Later(window.start, RoundedUp(range.start));
    BoundariesMeaning(from, Earlier(window.end, range.end));
    forall a: U64 ensures a in RangeAddresses(range, window) <==> InRange(window, range, a) {
      RoundingUp(range.start, a);
    }
  }

  lemma RoundingUp(start: U64, a: U64)
    ensures start <= RoundedUp(start) < start + PAGE && RoundedUp(start) % PAGE == 0
    ensures a % PAGE == 0 ==> (start <= a <==> RoundedUp(start) <= a)
    ensures start + (PAGE - 1) >= 0x1_0000_0000_0000_0000 ==> a < RoundedUp(start)
  {
    var up := start + (PAGE - 1);
    assert RoundedUp(start) == up / PAGE * PAGE;
    assert a % PAGE == 0 ==> a == a / PAGE * PAGE;
  }

  lemma {:induction false} AllRangeAddressesMeaning(ranges: seq<AddressRange>, window: AddressRange)
    ensures forall a: U64 ::
              a in AllRangeAddresses(ranges, window) <==> exists range | range in ranges :: InRange(window, range, a)
  {
    hide InRange;
    if ranges != [] {
      RangeAddressesMeaning(ranges[0], window);
      AllRangeAddressesMeaning(ranges[1..], window);
      hide RangeAddresses;
      assert ranges == [ranges[0]] + ranges[1..];
    }
  }

  lemma {:induction false} MergedMeaning(seen: seq<U64>, more: seq<U64>)
    ensures seen <= Merged(seen, more)
    ensures forall a :: a in Merged(seen, more) <==> a in seen || a in more
    decreases |more|
  {
    if more != [] {
      MergedMeaning(if more[0] in seen then seen else seen + [more[0]], more[1..]);
      assert more == [more[0]] + more[1..];
    }
  }

  lemma {:induction false} MergedInParts(seen: seq<U64>, more: seq<U64>, rest: seq<U64>)
    ensures Merged(seen, more + rest) == Merged(Merged(seen, more), rest)
    decreases |more|
  {
    if more == [] {
      assert more + rest == rest;
    } else {
      assert (more + rest)[1..] == more[1..] + rest;
      MergedInParts(if more[0] in seen then seen else seen + [more[0]], more[1..], rest);
    }
  }

  /** Cutting the list off early and going on gives the same first addresses as cutting it off at the end. */
  lemma FirstOfMerged(seen: seq<U64>, more: seq<U64>, rest: seq<U64>, max: nat)
    ensures First(Merged(First(Merged(seen, more), max), rest), max) == First(Merged(seen, more + rest), max)
  {
    var part := Merged(seen, more);
    MergedInParts(seen, more, rest);
    MergedMeaning(part, rest);
    MergedMeaning(First(part, max), rest);
    if |part| > max {
      assert First(Merged(part, rest), max) == part[..max];
    }
  }

  // ---------------------------------------------------------------- the bounded loops list the same

  /** Distinct members cannot outnumber the list that holds them. */
  lemma {:induction false} DistinctFit(distinct: seq<U64>, list: seq<U64>)
    requires forall i, j | 0 <= i < j < |distinct| :: distinct[i] != distinct[j]
    requires forall i | 0 <= i < |distinct| :: distinct[i] in list
    ensures |distinct| <= |list|
  {
    if distinct != [] {
      var n := |distinct| - 1;
      var k :| 0 <= k < |list| && list[k] == distinct[n];
      var rest := list[..k] + list[k + 1..];
      forall i | 0 <= i < n ensures distinct[..n][i] in rest {
        var at :| 0 <= at < |list| && list[at] == distinct[i];
        assert at != k;
        assert if at < k then rest[at] == distinct[i] else rest[at - 1] == distinct[i];
      }
      DistinctFit(distinct[..n], rest);
    }
  }

  /** Boundaries visited before `address`, all of them already listed unless the list is full. */
  ghost predicate Visited(done: seq<U64>, address: int, addresses: seq<U64>, max: nat) {
    && (forall i, j | 0 <= i < j < |done| :: done[i] != done[j])
    && (forall i | 0 <= i < |done| :: done[i] < address)
    && (|addresses| < max ==> forall i | 0 <= i < |done| :: done[i] in addresses)
  }

  /** The step bound of the loop never cuts a range short: by then the list is full. */
  lemma {:induction false} PageCandidatesExactly(
    addresses: seq<U64>, address: U64, end: U64, steps: nat, window: AddressRange, max: nat, done: seq<U64>)
    requires CandidateList(addresses, window, max) && window.start <= address && end <= window.end
    requires Visited(done, address, addresses, max) && steps + |done| == max
    ensures PageCandidates(addresses, address, end, steps, window, max)
            == First(Merged(addresses, Boundaries(address, end)), max)
    decreases steps
  {
    hide CandidateList, Visited, Merged;
    if steps == 0 {
      FullList(addresses, Boundaries(address, end), window, max, done, address);
    } else if address >= end {
      MergedWithNothing(addresses, window, max);
    } else {
      hide First;
      var more := AddCandidate(addresses, address, window, max);
      var next := address - address % PAGE + PAGE;
      FirstOfMerged(addresses, [address], Boundaries(next, end), max);
      OneMore(addresses, address, window, max, done);
      if next < 0x1_0000_0000_0000_0000 {
        PageCandidatesExactly(more, next, end, steps - 1, window, max, done + [address]);
      } else {
        assert Boundaries(next, end) == [];
        MergedWithNothing(more, window, max);
      }
    }
  }

  lemma MergedWithNothing(addresses: seq<U64>, window: AddressRange, max: nat)
    requires CandidateList(addresses, window, max)
    ensures First(Merged(addresses, []), max) == addresses == First(addresses, max)
  {
  }

  lemma FullList(addresses: seq<U64>, more: seq<U64>, window: AddressRange, max: nat, done: seq<U64>, address: int)
    requires CandidateList(addresses, window, max) && Visited(done, address, addresses, max) && |done| == max
    ensures addresses == First(Merged(addresses, more), max)
  {
    MergedMeaning(addresses, more);
    if |addresses| < max {
      DistinctFit(done, addresses);
    }
  }

  lemma OneMore(addresses: seq<U64>, address: U64, window: AddressRange, max: nat, done: seq<U64>)
    requires CandidateList(addresses, window, max) && window.Contains(address) && Visited(done, address, addresses, max)
    ensures AddCandidate(addresses, address, window, max) == First(Merged(addresses, [address]), max)
    ensures |AddCandidate(addresses, address, window, max)| <= max
    ensures First(AddCandidate(addresses, address, window, max), max) == AddCandidate(addresses, address, window, max)
    ensures forall next: int :: address < next ==>
              Visited(done + [address], next, AddCandidate(addresses, address, window, max), max)
  {
    assert Merged(addresses, [address]) == if address in addresses then addresses else addresses + [address] by {
      assert [address][1..] == [];
    }
  }

  /** The loop over one range of the policy. */
  function OneRange(addresses: seq<U64>, range: AddressRange, window: AddressRange, max: nat): (r: seq<U64>)
    requires CandidateList(addresses, window, max)
    ensures CandidateList(r, window, max)
  {
    if range.start + (PAGE - 1) >= 0x1_0000_0000_0000_0000 then addresses
    else PageCandidates(
      addresses, Later(window.start, RoundedUp(range.start)), Earlier(window.end, range.end), max, window, max)
  }

  lemma OneRangeExactly(addresses: seq<U64>, range: AddressRange, window: AddressRange, max: nat)
    requires CandidateList(addresses, window, max)
    ensures OneRange(addresses, range, window, max) == First(Merged(addresses, RangeAddresses(range, window)), max)
  {
    hide PageCandidates, Boundaries;
    if range.start + (PAGE - 1) < 0x1_0000_0000_0000_0000 {
      var from, end := Later(window.start, RoundedUp(range.start)), Earlier(window.end, range.end);
      PageCandidatesExactly(addresses, from, end, max, window, max, []);
    }
  }

  lemma {:induction false} RangeCandidatesExactly(
    addresses: seq<U64>, ranges: seq<AddressRange>, window: AddressRange, max: nat)
    requires CandidateList(addresses, window, max)
    ensures RangeCandidates(addresses, ranges, window, max) == First(Merged(addresses, AllRangeAddresses(ranges, window)), max)
    decreases |ranges|
  {
    hide PageCandidates, RangeAddresses;
    if ranges != [] {
      hide Merged, First;
      var range, rest := ranges[0], ranges[1..];
      var next := OneRange(addresses, range, window, max);
      assert RangeCandidates(addresses, ranges, window, max) == RangeCandidates(next, rest, window, max);
      FirstOfMerged(addresses, RangeAddresses(range, window), AllRangeAddresses(rest, window), max);
      OneRangeExactly(addresses, range, window, max);
      RangeCandidatesExactly(next, rest, window, max);
    }
  }

  /** The bounded search lists exactly the first addresses of the unlimited list. */
  lemma CandidatesAreTheFirst(window: AddressRange, policy: AllocationPolicy)
    ensures PunCandidates(window, policy) == First(AllCandidates(window, policy), policy.maxCandidates)
  {
    var preferred := PreferredAddress(window, policy);
    var listed := if preferred != [] then AddCandidate([], preferred[0], window, policy.maxCandidates) else [];
    RangeCandidatesExactly(listed, policy.ranges, window, policy.maxCandidates);
    FirstOfMerged([], preferred, AllRangeAddresses(policy.ranges, window), policy.maxCandidates);
    assert preferred != [] ==> Merged([], preferred) == preferred;
  }

  lemma AllCandidatesMeaning(window: AddressRange, policy: AllocationPolicy)
    ensures forall a: U64 :: a in AllCandidates(window, policy) <==> IsCandidate(window, policy, a)
  {
    hide InRange, AllRangeAddresses, Merged;
    var preferred, ranged := PreferredAddress(window, policy), AllRangeAddresses(policy.ranges, window);
    AllRangeAddressesMeaning(policy.ranges, window);
    MergedMeaning([], preferred + ranged);
    assert forall a :: a in preferred + ranged <==> a in preferred || a in ranged;
  }

  /** Every listed address is a candidate, and a list shorter than the limit has them all. */
  lemma CandidatesExactly(window: AddressRange, policy: AllocationPolicy)
    ensures forall a | a in PunCandidates(window, policy) :: IsCandidate(window, policy, a)
    ensures |PunCandidates(window, policy)| < policy.maxCandidates ==>
              forall a: U64 | IsCandidate(window, policy, a) :: a in PunCandidates(window, policy)
  {
    hide IsCandidate, AllCandidates, PunCandidates;
    AllCandidatesMeaning(window, policy);
    CandidatesAreTheFirst(window, policy);
  }

  /** A smaller limit that was not used up lists the same addresses. */
  lemma UnusedLimit(window: AddressRange, policy: AllocationPolicy, limit: nat)
    requires limit <= policy.maxCandidates && |PunCandidates(window, policy.(maxCandidates := limit))| < limit
    ensures PunCandidates(window, policy.(maxCandidates := limit)) == PunCandidates(window, policy)
  {
    hide PunCandidates, Merged, AllRangeAddresses;
    CandidatesAreTheFirst(window, policy.(maxCandidates := limit));
    CandidatesAreTheFirst(window, policy);
    assert AllCandidates(window, policy.(maxCandidates := limit)) == AllCandidates(window, policy);
  }

  /** A smaller limit lists no other address. */
  lemma FewerCandidates(window: AddressRange, policy: AllocationPolicy, limit: nat)
    requires limit <= policy.maxCandidates
    ensures forall a | a in PunCandidates(window, policy.(maxCandidates := limit)) :: a in PunCandidates(window, policy)
  {
    hide PunCandidates, Merged, AllRangeAddresses;
    CandidatesAreTheFirst(window, policy.(maxCandidates := limit));
    CandidatesAreTheFirst(window, policy);
    assert AllCandidates(window, policy.(maxCandidates := limit)) == AllCandidates(window, policy);
  }

  /** A smaller limit lists the beginning of the same list. */
  lemma BeginningOfCandidates(window: AddressRange, policy: AllocationPolicy, limit: nat)
    requires limit <= policy.maxCandidates
    ensures PunCandidates(window, policy.(maxCandidates := limit)) <= PunCandidates(window, policy)
  {
    hide PunCandidates, Merged, AllRangeAddresses;
    CandidatesAreTheFirst(window, policy.(maxCandidates := limit));
    CandidatesAreTheFirst(window, policy);
    assert AllCandidates(window, policy.(maxCandidates := limit)) == AllCandidates(window, policy);
  }
}
