/** The registry's list operations as their code performs them: src/entry_router.rs. */
module RouterList {
  import opened Wrappers
  import opened Sorting
  import opened Contracts
  import opened EntryRouter

  ghost predicate Distinct(routes: seq<Route>) {
    forall i, j | 0 <= i < j < |routes| :: routes[i].original != routes[j].original
  }

  predicate Routes(batch: Batch, pc: Address) {
    batch.active && exists k | 0 <= k < |batch.routes| :: batch.routes[k].original == pc
  }

  /** Some active batch already routes an address of the new routes. */
  ghost predicate Conflicts(batches: seq<Batch>, routes: seq<Route>) {
    exists b, k | 0 <= b < |batches| && 0 <= k < |routes| :: Routes(batches[b], routes[k].original)
  }

  lemma SortedDistinct(routes: seq<Route>, sorted: seq<Route>)
    requires SortedByKey(sorted, ROUTE_KEY) && multiset(sorted) == multiset(routes)
    ensures Distinct(routes) <==> StrictlySorted(sorted)
  {
    if Distinct(routes) {
      forall i, j | 0 <= i < j < |sorted| ensures sorted[i].original < sorted[j].original {
        PairPermutes(sorted, routes, i, j);
        var m, n :| 0 <= m < |routes| && 0 <= n < |routes| && m != n && routes[m] == sorted[i] && routes[n] == sorted[j];
        assert routes[m].original != routes[n].original;
        assert ROUTE_KEY(sorted[i]) <= ROUTE_KEY(sorted[j]);
      }
    }
    if StrictlySorted(sorted) {
      forall i, j | 0 <= i < j < |routes| ensures routes[i].original != routes[j].original {
        PairPermutes(routes, sorted, i, j);
        var m, n :| 0 <= m < |sorted| && 0 <= n < |sorted| && m != n && sorted[m] == routes[i] && sorted[n] == routes[j];
        assert sorted[m].original != sorted[n].original;
      }
    }
  }

  /** Looking at neighbours in sorted order finds any repeated address. */
  method HasRepeat(sorted: seq<Route>) returns (repeated: bool)
    requires SortedByKey(sorted, ROUTE_KEY)
    ensures !repeated <==> StrictlySorted(sorted)
  {
    var k := 1;
    while k < |sorted|
      invariant 1 <= k && (|sorted| > 0 ==> k <= |sorted|)
      invariant forall i, j | 0 <= i < j < k && j < |sorted| :: sorted[i].original < sorted[j].original
    {
      assert ROUTE_KEY(sorted[k - 1]) <= ROUTE_KEY(sorted[k]);
      if sorted[k - 1].original == sorted[k].original {
        return true;
      }
      k := k + 1;
    }
    repeated := false;
  }

  lemma OverlapMeans(batch: Batch, routes: seq<Route>, sorted: seq<Route>)
    requires multiset(sorted) == multiset(routes)
    ensures batch.active && Overlaps(batch.routes, sorted) <==> exists k | 0 <= k < |routes| :: Routes(batch, routes[k].original)
  {
    if batch.active && Overlaps(batch.routes, sorted) {
      var i :| 0 <= i < |batch.routes| && Lookup(sorted, batch.routes[i].original).Some?;
      var j :| 0 <= j < |sorted| && sorted[j].original == batch.routes[i].original;
      assert sorted[j] in multiset(routes);
      var k :| 0 <= k < |routes| && routes[k] == sorted[j];
      assert Routes(batch, routes[k].original);
    }
    if k :| 0 <= k < |routes| && Routes(batch, routes[k].original) {
      var i :| 0 <= i < |batch.routes| && batch.routes[i].original == routes[k].original;
      assert routes[k] in multiset(sorted);
      var j :| 0 <= j < |sorted| && sorted[j] == routes[k];
      assert Lookup(sorted, batch.routes[i].original).Some?;
    }
  }

  ghost predicate StageResult(batches: seq<Batch>, routes: seq<Route>, verified: bool, hasMemory: bool, r: Result<nat, Refusal>) {
    if !verified then r == Err(SignalContract)
    else if routes == [] || exists k | 0 <= k < |routes| :: !Routable(routes[k]) then r == Err(InvalidPlan)
    else if !hasMemory then r == Err(AllocationUnavailable)
    else if !Distinct(routes) then r == Err(InvalidPlan)
    else if Conflicts(batches, routes) then r == Err(OwnershipConflict)
    else r == Ok(|batches|)
  }

  /** The process-wide list; batch i + 1 points to batch i and the last batch is the head. */
  class Registry {
    var batches: seq<Batch>
    var handled: seq<nat>

    ghost predicate Valid()
      reads this
    {
      |handled| == |batches| && Inv(State(batches, None, map[]))
    }

    constructor ()
      ensures Valid() && batches == []
    {
      batches, handled := [], [];
    }

    /**
     * Stages routes with the mutex held. Signal verification and allocation are outcomes of the platform.
     * Acceptance appends one active batch; every refusal leaves the list as it was.
     */
    method Stage(routes: seq<Route>, verified: bool, hasMemory: bool) returns (r: Result<nat, Refusal>)
      requires Valid()
      modifies this
      ensures Valid() && StageResult(old(batches), routes, verified, hasMemory, r)
      ensures r.Err? ==> batches == old(batches) && handled == old(handled)
      ensures !r.Err? ==>
                && |batches| == |old(batches)| + 1 && batches[..|old(batches)|] == old(batches)
                && batches[r.value].active && batches[r.value].handle == Held(false)
                && StrictlySorted(batches[r.value].routes) && multiset(batches[r.value].routes) == multiset(routes)
                && handled == old(handled) + [0]
    {
      hide Inv, Lookup, StrictlySorted, Distinct, Overlaps, Routes, Routable;
      if !verified {
        return Err(SignalContract);
      }
      if routes == [] || exists k | 0 <= k < |routes| :: !Routable(routes[k]) {
        return Err(InvalidPlan);
      }
      if !hasMemory {
        return Err(AllocationUnavailable);
      }
      var owned := SortUnstable(routes, ROUTE_KEY);
      SortedDistinct(routes, owned);
      var repeated := HasRepeat(owned);
      if repeated {
        return Err(InvalidPlan);
      }
      var current: nat := |batches|;
      while current > 0
        invariant current <= |batches| && batches == old(batches) && handled == old(handled)
        invariant forall b, k | current <= b < |batches| && 0 <= k < |routes| :: !Routes(batches[b], routes[k].original)
        invariant forall b | current <= b < |batches| && batches[b].active :: !Overlaps(batches[b].routes, owned)
      {
        var other := batches[current - 1];
        OverlapMeans(other, routes, owned);
        if other.active && Overlaps(other.routes, owned) {
          return Err(OwnershipConflict);
        }
        current := current - 1;
      }
      ghost var was := batches;
      batches := batches + [Batch(owned, true, Held(false))];
      handled := handled + [0];
      AppendKeepsInv(was, owned);
      assert batches[..|was|] == was;
      r := Ok(|batches| - 1);
    }

    method Deactivate(b: nat)
      requires Valid() && b < |batches| && batches[b].handle.Held?
      modifies this`batches
      ensures Valid() && State(batches, None, map[]) == Apply(State(old(batches), None, map[]), EntryRouter.Event.Deactivate(b))
    {
      ghost var s := State(batches, None, map[]);
      StepKeepsInv(s, EntryRouter.Event.Deactivate(b));
      batches := batches[b := batches[b].(active := false)];
    }

    method Commit(b: nat)
      requires Valid() && b < |batches| && batches[b].handle.Held?
      modifies this`batches
      ensures Valid() && State(batches, None, map[]) == Apply(State(old(batches), None, map[]), EntryRouter.Event.Commit(b))
    {
      ghost var s := State(batches, None, map[]);
      StepKeepsInv(s, EntryRouter.Event.Commit(b));
      batches := batches[b := batches[b].(handle := Held(true))];
    }

    /** The registration's destructor. */
    method Drop(b: nat)
      requires Valid() && b < |batches| && batches[b].handle.Held?
      modifies this`batches
      ensures Valid() && State(batches, None, map[]) == Apply(State(old(batches), None, map[]), EntryRouter.Event.Drop(b))
    {
      ghost var s := State(batches, None, map[]);
      StepKeepsInv(s, EntryRouter.Event.Drop(b));
      var held := batches[b];
      var committed := held.handle.committed;
      if !committed {
        held := held.(active := false);
      }
      batches := batches[b := held.(handle := Dropped(committed))];
    }

    /** The list walk of a fault at `pc`. */
    method WalkList(pc: Address) returns (r: Option<(nat, Address)>)
      requires Valid()
      ensures r.None? <==> forall b | 0 <= b < |batches| :: !Routes(batches[b], pc)
      ensures r.Some? ==> r.value.0 < |batches| && batches[r.value.0].active && Route(pc, r.value.1) in batches[r.value.0].routes
      ensures r.Some? ==> OnlyRoute(batches, pc, r.value.0, r.value.1)
    {
      hide Inv, StrictlySorted, OnlyRoute;
      var current: nat := |batches|;
      while current > 0
        invariant current <= |batches|
        invariant forall b | current <= b < |batches| :: !Routes(batches[b], pc)
      {
        var batch := batches[current - 1];
        var matched := if batch.active then Lookup(batch.routes, pc) else None;
        if matched.Some? {
          FoundIsOnlyRoute(batches, current - 1, pc, matched.value);
          return Some((current - 1, matched.value));
        }
        current := current - 1;
      }
      r := None;
    }

    /** Whether this signal is an owned fault, and of which batch: an authentic illegal operand at a routed address. */
    method OwnedFault(fault: Fault) returns (r: Option<(nat, Address)>)
      requires Valid()
      ensures r.Some? <==> Authentic(fault) && exists b | 0 <= b < |batches| :: Routes(batches[b], fault.pc)
      ensures r.Some? ==> r.value.0 < |batches| && batches[r.value.0].active && Route(fault.pc, r.value.1) in batches[r.value.0].routes
      ensures r.Some? ==> OnlyRoute(batches, fault.pc, r.value.0, r.value.1)
    {
      hide Inv, OnlyRoute, Routes;
      if fault.signal != SIGILL || !fault.hasInfo || !fault.hasContext {
        return None;
      }
      if fault.signo != SIGILL || fault.code != ILL_ILLOPN || fault.trap != UNDEFINED_OPCODE || fault.address != fault.pc {
        return None;
      }
      r := WalkList(fault.pc);
    }

    /**
     * The signal handler. An owned fault resumes at the generated address and is counted, modulo 2^64; any other is
     * raised again under the default action, and the process exits at once when that cannot be arranged.
     */
    method Handle(fault: Fault, restored: bool, raised: bool) returns (r: Delivery)
      requires Valid()
      modifies this`handled
      ensures Valid()
      ensures r.Resumes? <==> Authentic(fault) && exists b | 0 <= b < |batches| :: Routes(batches[b], fault.pc)
      ensures r.Resumes? ==> exists b | 0 <= b < |batches| ::
                && Routes(batches[b], fault.pc) && Route(fault.pc, r.pc) in batches[b].routes
                && OnlyRoute(batches, fault.pc, b, r.pc)
                && handled == old(handled)[b := (old(handled)[b] + 1) % 0x1_0000_0000_0000_0000]
      ensures !r.Resumes? ==> handled == old(handled) && r == if restored && raised then RaisesDefault else Exits(128 + fault.signal)
    {
      hide Inv, OnlyRoute;
      var owned := OwnedFault(fault);
      if owned.Some? {
        var (batch, generated) := owned.value;
        handled := handled[batch := (handled[batch] + 1) % 0x1_0000_0000_0000_0000];
        return Resumes(generated);
      }
      if !restored || !raised {
        return Exits(128 + fault.signal);
      }
      r := RaisesDefault;
    }
  }

  const SIGILL := 4
  const ILL_ILLOPN := 2
  const UNDEFINED_OPCODE := 6

  /** What the kernel hands to the handler. */
  datatype Fault = Fault(
    signal: int, hasInfo: bool, hasContext: bool, signo: int, code: int, trap: int, address: Address, pc: Address)

  /** A synchronous illegal operand at the interrupted address. */
  predicate Authentic(fault: Fault) {
    && fault.signal == SIGILL && fault.hasInfo && fault.hasContext
    && fault.signo == SIGILL && fault.code == ILL_ILLOPN && fault.trap == UNDEFINED_OPCODE && fault.address == fault.pc
  }

  datatype Delivery = Resumes(pc: Address) | RaisesDefault | Exits(status: int)

  /** Batch b and this generated address are the only active route of the address. */
  ghost predicate OnlyRoute(batches: seq<Batch>, pc: Address, b: nat, generated: Address) {
    forall other, route | 0 <= other < |batches| && batches[other].active && route in batches[other].routes && route.original == pc ::
      other == b && route.generated == generated
  }

  lemma FoundIsOnlyRoute(batches: seq<Batch>, a: nat, pc: Address, generated: Address)
    requires Inv(State(batches, None, map[])) && a < |batches| && batches[a].active && Lookup(batches[a].routes, pc) == Some(generated)
    ensures OnlyRoute(batches, pc, a, generated)
  {
    hide StrictlySorted;
    OnlyOneRoutes(batches, a, pc);
    forall other, route | 0 <= other < |batches| && batches[other].active && route in batches[other].routes && route.original == pc
      ensures other == a && route.generated == generated
    {
      var k :| 0 <= k < |batches[other].routes| && batches[other].routes[k] == route;
      assert Routes(batches[other], pc);
      assert BatchOk(batches[a]);
      LookupIsTheRoute(batches[a].routes, route);
    }
  }

  lemma AppendKeepsInv(batches: seq<Batch>, owned: seq<Route>)
    requires Inv(State(batches, None, map[])) && StrictlySorted(owned)
    requires forall b | 0 <= b < |batches| && batches[b].active :: !Overlaps(batches[b].routes, owned)
    ensures Inv(State(batches + [Batch(owned, true, Held(false))], None, map[]))
  {
    hide Lookup, StrictlySorted, Overlaps;
    var s := State(batches, Some(Staging(owned, |batches|, 0)), map[]);
    forall b, pc | 0 <= b < |batches| && batches[b].active ensures Lookup(batches[b].routes, pc).None? || Lookup(owned, pc).None? {
      OverlapFree(batches[b].routes, owned);
    }
    assert Inv(s);
    PublishKeepsInv(s);
    assert batches[..|batches|] == batches;
  }

  lemma OnlyOneRoutes(batches: seq<Batch>, a: nat, pc: Address)
    requires Inv(State(batches, None, map[])) && a < |batches| && Routes(batches[a], pc)
    ensures forall b | 0 <= b < |batches| && Routes(batches[b], pc) :: b == a
  {
    hide StrictlySorted, BatchOk;
    forall b | 0 <= b < |batches| && Routes(batches[b], pc) ensures b == a {
      assert Lookup(batches[a].routes, pc).Some? && Lookup(batches[b].routes, pc).Some?;
    }
  }
}
