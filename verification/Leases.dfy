/** The quiescence lease of src/contracts.rs and the source reservations of src/trap.rs. */
module Leases {
  import opened Wrappers
  import opened Contracts

  function RangeSet(ranges: seq<AddressRange>): set<AddressRange> {
    set range | range in ranges
  }

  /** Exclusive evidence for one generation and dependency set. */
  class QuiescenceLease {
    const identity: CodeIdentity
    const ranges: seq<AddressRange>
    var poisoned: bool

    constructor (identity: CodeIdentity, ranges: seq<AddressRange>)
      ensures this.identity == identity && this.ranges == ranges && !poisoned
    {
      this.identity, this.ranges, poisoned := identity, ranges, false;
    }

    predicate Covers(range: AddressRange) {
      exists held | held in ranges :: held.Covers(range)
    }

    /** Identity, dependencies and entry facts of one plan; a poisoned lease refuses everything. */
    function Check(plan: PlanParts): Result<(), Refusal>
      reads this
    {
      if poisoned then Err(LeasePoisoned)
      else if identity != plan.identity then Err(StaleGeneration)
      else if exists d | d in plan.dependencies :: !Covers(d) then Err(DependencyNotHeld)
      else CheckEntryObligations(plan)
    }

    method Poison()
      modifies this
      ensures poisoned
    {
      poisoned := true;
    }

    method PublicationCompleted()
      modifies this
      ensures !poisoned
    {
      poisoned := false;
    }
  }

  /** Source ranges some installed patch owns; dropping a reservation releases it. */
  class TrapRegistry {
    var reserved: set<AddressRange>

    constructor ()
      ensures reserved == {}
    {
      reserved := {};
    }

    ghost predicate Unowned(range: AddressRange)
      reads this
    {
      forall held | held in reserved :: !held.Overlaps(range)
    }

    /** Reserves every range, or none: a refused publisher drops the reservations it already made. */
    method ReserveAll(ranges: seq<AddressRange>) returns (ok: bool)
      requires forall i, j | 0 <= i < j < |ranges| :: ranges[i].end < ranges[j].start
      modifies this
      ensures ok <==> forall i | 0 <= i < |ranges| :: old(Unowned(ranges[i]))
      ensures reserved == if ok then old(reserved) + RangeSet(ranges) else old(reserved)
    {
      ghost var before := reserved;
      var made: set<AddressRange> := {};
      for k := 0 to |ranges|
        invariant made == RangeSet(ranges[..k])
        invariant reserved == before + made
        invariant forall i | 0 <= i < k :: old(Unowned(ranges[i]))
        invariant before !! made
      {
        assert ranges[..k + 1] == ranges[..k] + [ranges[k]];
        if exists held | held in reserved :: held.Overlaps(ranges[k]) {
          assert forall i | 0 <= i < k :: !ranges[i].Overlaps(ranges[k]);
          reserved := reserved - made;
          return false;
        }
        assert !ranges[k].Overlaps(ranges[k]) ==> false;
        reserved, made := reserved + {ranges[k]}, made + {ranges[k]};
      }
      assert ranges[..|ranges|] == ranges;
      return true;
    }

    method Release(ranges: set<AddressRange>)
      modifies this
      ensures reserved == old(reserved) - ranges
    {
      reserved := reserved - ranges;
    }
  }
}
