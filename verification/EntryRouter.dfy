/** Invalid-opcode routing as interleaved atomic steps: src/entry_router.rs. */
module EntryRouter {
  import opened Wrappers
  import opened Sorting

  type Address = x: int | 0 <= x < 0x1_0000_0000_0000_0000

  datatype Route = Route(original: Address, generated: Address)

  /** The registration of a batch; dropping it without a commit deactivates the batch. */
  datatype Handle = Held(committed: bool) | Dropped(committed: bool)

  /** A published batch: its routes never change and it is never freed. */
  datatype Batch = Batch(routes: seq<Route>, active: bool, handle: Handle)

  /** The one thread inside `stage`: its sorted routes, the head it loaded and the batches it still has to look at. */
  datatype Staging = Staging(owned: seq<Route>, head: nat, current: nat)

  /** A fault walking the list: `current` batches, the older ones, are still to be looked at. */
  datatype Walk =
    | Walking(pc: Address, current: nat)
    | Found(pc: Address, batch: nat, generated: Address)
    | Missed(pc: Address)

  /** Batches are numbered oldest first: the list head is the last one, and `next` of batch i + 1 is batch i. */
  datatype State = State(batches: seq<Batch>, writer: Option<Staging>, walks: map<nat, Walk>)

  const INIT := State([], None, map[])

  const ROUTE_KEY: Route -> int := (route: Route) => route.original

  // ---------------------------------------------------------------- routes

  ghost predicate StrictlySorted(routes: seq<Route>) {
    forall i, j | 0 <= i < j < |routes| :: routes[i].original < routes[j].original
  }

  predicate Routable(route: Route) {
    route.original != 0 && route.generated != 0 && route.original != route.generated
  }

  /** What the binary search over strictly sorted routes finds. */
  function Lookup(routes: seq<Route>, pc: Address): (r: Option<Address>)
    ensures r.Some? <==> exists k | 0 <= k < |routes| :: routes[k].original == pc
    ensures r.Some? ==> Route(pc, r.value) in routes
  {
    if routes == [] then None
    else if routes[0].original == pc then Some(routes[0].generated)
    else
      var rest := Lookup(routes[1..], pc);
      assert forall k | 0 <= k < |routes| - 1 :: routes[1..][k] == routes[k + 1];
      assert (exists k | 0 <= k < |routes| :: routes[k].original == pc) ==> exists k | 0 <= k < |routes| - 1 :: routes[1..][k].original == pc by {
        if k :| 0 <= k < |routes| && routes[k].original == pc {
          assert routes[1..][k - 1].original == pc;
        }
      }
      rest
  }

  lemma LookupIsTheRoute(routes: seq<Route>, route: Route)
    requires StrictlySorted(routes) && route in routes
    ensures Lookup(routes, route.original) == Some(route.generated)
  {
    var k :| 0 <= k < |routes| && routes[k] == route;
    var other := Route(route.original, Lookup(routes, route.original).value);
    var j :| 0 <= j < |routes| && routes[j] == other;
  }

  /** Some original address of one batch is routed by the other. */
  predicate Overlaps(left: seq<Route>, right: seq<Route>) {
    exists k | 0 <= k < |left| :: Lookup(right, left[k].original).Some?
  }

  // ---------------------------------------------------------------- steps

  datatype Event =
    | BeginStage(owned: seq<Route>)
    | LookForConflict
    | Publish
    | Deactivate(batch: nat)
    | Commit(batch: nat)
    | Drop(batch: nat)
    | BeginWalk(walk: nat, pc: Address)
    | Look(walk: nat)

  ghost predicate Enabled(s: State, e: Event) {
    match e
    case BeginStage(owned) => s.writer.None? && owned != [] && StrictlySorted(owned)
    case LookForConflict => s.writer.Some? && s.writer.value.current > 0
    case Publish => s.writer.Some? && s.writer.value.current == 0
    case Deactivate(b) => b < |s.batches| && s.batches[b].handle.Held?
    case Commit(b) => b < |s.batches| && s.batches[b].handle.Held?
    case Drop(b) => b < |s.batches| && s.batches[b].handle.Held?
    case BeginWalk(w, _) => w !in s.walks
    case Look(w) => w in s.walks && s.walks[w].Walking?
  }

  function SetBatch(s: State, b: nat, batch: Batch): State
    requires b < |s.batches|
  {
    s.(batches := s.batches[b := batch])
  }

  function LookResult(s: State, w: Walk): Walk
    requires w.Walking? && w.current <= |s.batches|
  {
    if w.current == 0 then Missed(w.pc)
    else
      var batch := s.batches[w.current - 1];
      var matched := if batch.active then Lookup(batch.routes, w.pc) else None;
      if matched.Some? then Found(w.pc, w.current - 1, matched.value) else Walking(w.pc, w.current - 1)
  }

  ghost predicate WalksInList(s: State) {
    && (s.writer.Some? ==> s.writer.value.current <= s.writer.value.head <= |s.batches|)
    && forall w | w in s.walks && s.walks[w].Walking? :: s.walks[w].current <= |s.batches|
  }

  /** The effect of one atomic step; the list head is stored with the head the writer loaded as its next pointer. */
  function Apply(s: State, e: Event): State
    requires WalksInList(s) && Enabled(s, e)
  {
    match e
    case BeginStage(owned) => s.(writer := Some(Staging(owned, |s.batches|, |s.batches|)))
    case LookForConflict =>
      var writer := s.writer.value;
      var other := s.batches[writer.current - 1];
      if other.active && Overlaps(other.routes, writer.owned) then s.(writer := None)
      else s.(writer := Some(writer.(current := writer.current - 1)))
    case Publish =>
      State(s.batches[..s.writer.value.head] + [Batch(s.writer.value.owned, true, Held(false))], None, s.walks)
    case Deactivate(b) => SetBatch(s, b, s.batches[b].(active := false))
    case Commit(b) => SetBatch(s, b, s.batches[b].(handle := Held(true)))
    case Drop(b) =>
      var held := s.batches[b];
      SetBatch(s, b, held.(active := held.active && held.handle.committed, handle := Dropped(held.handle.committed)))
    case BeginWalk(w, pc) => s.(walks := s.walks[w := Walking(pc, |s.batches|)])
    case Look(w) => s.(walks := s.walks[w := LookResult(s, s.walks[w])])
  }

  // ---------------------------------------------------------------- the invariant

  /** The promise of the router: an address is routed by at most one active batch. */
  ghost predicate OneRoute(batches: seq<Batch>) {
    forall i, j, pc | 0 <= i < j < |batches| && batches[i].active && batches[j].active ::
      Lookup(batches[i].routes, pc).None? || Lookup(batches[j].routes, pc).None?
  }

  ghost predicate BatchOk(batch: Batch) {
    StrictlySorted(batch.routes) && (batch.handle.Dropped? && batch.active ==> batch.handle.committed)
  }

  /** Nobody else appends while the mutex is held, and what the writer has passed stays out of its way. */
  ghost predicate WriterOk(s: State) {
    s.writer.Some? ==>
      var w := s.writer.value;
      && w.current <= w.head == |s.batches| && StrictlySorted(w.owned)
      && forall i, pc | w.current <= i < |s.batches| && s.batches[i].active ::
           Lookup(s.batches[i].routes, pc).None? || Lookup(w.owned, pc).None?
  }

  ghost predicate WalkOk(batches: seq<Batch>, w: Walk) {
    match w
    case Walking(_, current) => current <= |batches|
    case Found(pc, b, generated) => b < |batches| && Lookup(batches[b].routes, pc) == Some(generated)
    case Missed(_) => true
  }

  ghost predicate Inv(s: State) {
    && (forall i | 0 <= i < |s.batches| :: BatchOk(s.batches[i]))
    && OneRoute(s.batches)
    && WriterOk(s)
    && forall w | w in s.walks :: WalkOk(s.batches, s.walks[w])
  }

  lemma InvInList(s: State)
    requires Inv(s)
    ensures WalksInList(s)
  {
    hide OneRoute, BatchOk;
    forall w | w in s.walks && s.walks[w].Walking? ensures s.walks[w].current <= |s.batches| {
      assert WalkOk(s.batches, s.walks[w]);
    }
  }

  lemma OverlapFree(left: seq<Route>, right: seq<Route>)
    requires !Overlaps(left, right)
    ensures forall pc :: Lookup(left, pc).None? || Lookup(right, pc).None?
  {
    forall pc | Lookup(left, pc).Some? ensures Lookup(right, pc).None? {
      var k :| 0 <= k < |left| && left[k].original == pc;
    }
  }

  /** A batch that keeps its routes and is not reactivated can only remove routes. */
  lemma WeakerBatchKeepsInv(s: State, b: nat, batch: Batch)
    requires Inv(s) && b < |s.batches| && batch.routes == s.batches[b].routes && BatchOk(batch)
    requires batch.active ==> s.batches[b].active
    ensures Inv(SetBatch(s, b, batch))
  {
    hide Lookup, StrictlySorted;
    var t := SetBatch(s, b, batch);
    assert forall i | 0 <= i < |s.batches| :: t.batches[i].routes == s.batches[i].routes && (t.batches[i].active ==> s.batches[i].active);
    forall w | w in t.walks ensures WalkOk(t.batches, t.walks[w]) {
      assert WalkOk(s.batches, s.walks[w]);
    }
  }

  lemma PublishKeepsInv(s: State)
    requires Inv(s) && WalksInList(s) && Enabled(s, Publish)
    ensures Inv(Apply(s, Publish))
  {
    hide Lookup, StrictlySorted;
    var t := Apply(s, Publish);
    var n := |s.batches|;
    assert forall i | 0 <= i < n :: t.batches[i] == s.batches[i];
    assert BatchOk(t.batches[n]);
    forall w | w in t.walks ensures WalkOk(t.batches, t.walks[w]) {
      assert WalkOk(s.batches, s.walks[w]);
    }
  }

  lemma ConflictLookKeepsInv(s: State)
    requires Inv(s) && WalksInList(s) && Enabled(s, LookForConflict)
    ensures Inv(Apply(s, LookForConflict))
  {
    hide Lookup, StrictlySorted, Overlaps;
    var writer := s.writer.value;
    var other := s.batches[writer.current - 1];
    if !Overlaps(other.routes, writer.owned) {
      OverlapFree(other.routes, writer.owned);
    }
    var t := Apply(s, LookForConflict);
    assert t.batches == s.batches && t.walks == s.walks;
  }

  /** Looking at one batch ends the staging exactly if that batch is active and shares an address with the new routes. */
  lemma ConflictLookDecides(s: State)
    requires Inv(s) && WalksInList(s) && Enabled(s, LookForConflict)
    ensures var t, w := Apply(s, LookForConflict), s.writer.value;
            var batch := s.batches[w.current - 1];
            && t.batches == s.batches && t.walks == s.walks
            && (t.writer.None? <==>
                  && batch.active
                  && exists i, j | 0 <= i < |batch.routes| && 0 <= j < |w.owned| :: batch.routes[i].original == w.owned[j].original)
            && (t.writer.Some? ==> t.writer.value == Staging(w.owned, w.head, w.current - 1))
  {
  }

  /** Publishing appends one active batch to the list as it is now, although the head was loaded when staging began. */
  lemma PublishAppends(s: State)
    requires Inv(s) && WalksInList(s) && Enabled(s, Publish)
    ensures var t := Apply(s, Publish);
            && t.batches == s.batches + [Batch(s.writer.value.owned, true, Held(false))] && t.writer.None? && t.walks == s.walks
  {
    hide Lookup, StrictlySorted, OneRoute;
    assert s.batches[..|s.batches|] == s.batches;
  }

  lemma WalkKeepsInv(s: State, e: Event)
    requires Inv(s) && WalksInList(s) && Enabled(s, e) && (e.BeginWalk? || e.Look?)
    ensures Inv(Apply(s, e))
  {
    hide Lookup, StrictlySorted;
    var t := Apply(s, e);
    forall w | w in t.walks ensures WalkOk(t.batches, t.walks[w]) {
      if w in s.walks {
        assert WalkOk(s.batches, s.walks[w]);
      }
    }
  }

  lemma StepKeepsInv(s: State, e: Event)
    requires Inv(s) && Enabled(s, e)
    ensures WalksInList(s) && Inv(Apply(s, e))
  {
    InvInList(s);
    match e
    case BeginStage(_) => BeginStageKeepsInv(s, e);
    case LookForConflict => ConflictLookKeepsInv(s);
    case Publish => PublishKeepsInv(s);
    case Deactivate(b) => HandleStepKeepsInv(s, b, s.batches[b].(active := false));
    case Commit(b) => HandleStepKeepsInv(s, b, s.batches[b].(handle := Held(true)));
    case Drop(b) =>
      var held := s.batches[b];
      HandleStepKeepsInv(s, b, held.(active := held.active && held.handle.committed, handle := Dropped(held.handle.committed)));
    case BeginWalk(_, _) => WalkKeepsInv(s, e);
    case Look(_) => WalkKeepsInv(s, e);
  }

  lemma HandleStepKeepsInv(s: State, b: nat, batch: Batch)
    requires Inv(s) && b < |s.batches| && s.batches[b].handle.Held? && batch.routes == s.batches[b].routes
    requires batch.active ==> s.batches[b].active && (batch.handle.Dropped? ==> batch.handle.committed)
    ensures Inv(SetBatch(s, b, batch))
  {
    hide OneRoute, WriterOk, WalkOk;
    assert BatchOk(s.batches[b]);
    WeakerBatchKeepsInv(s, b, batch);
  }

  lemma BeginStageKeepsInv(s: State, e: Event)
    requires Inv(s) && WalksInList(s) && Enabled(s, e) && e.BeginStage?
    ensures Inv(Apply(s, e))
  {
    hide Lookup, StrictlySorted, OneRoute, BatchOk, WalkOk;
  }

  // ---------------------------------------------------------------- every interleaving

  ghost predicate Next(s: State, t: State) {
    exists e :: WalksInList(s) && Enabled(s, e) && t == Apply(s, e)
  }

  /** A run from the empty list, in any interleaving of its steps. */
  ghost predicate IsRun(states: seq<State>) {
    && states != [] && states[0] == INIT
    && forall i, j | 0 <= i < |states| && j == i + 1 && j < |states| :: Next(states[i], states[j])
  }

  lemma {:induction false} RunKeepsInv(states: seq<State>, i: nat)
    requires IsRun(states) && i < |states|
    ensures Inv(states[i])
  {
    hide Inv, Enabled, Apply;
    if i == 0 {
      InitInv();
    } else {
      RunKeepsInv(states, i - 1);
      assert Next(states[i - 1], states[i]);
      var e :| WalksInList(states[i - 1]) && Enabled(states[i - 1], e) && states[i] == Apply(states[i - 1], e);
      StepKeepsInv(states[i - 1], e);
    }
  }

  lemma InitInv()
    ensures Inv(INIT)
  {
  }

  /** In every reachable state two active batches never route the same address. */
  lemma AtMostOneActiveRoute(states: seq<State>, n: nat, i: nat, j: nat, pc: Address)
    requires IsRun(states) && n < |states| && i < |states[n].batches| && j < |states[n].batches|
    requires states[n].batches[i].active && states[n].batches[j].active
    requires Lookup(states[n].batches[i].routes, pc).Some? && Lookup(states[n].batches[j].routes, pc).Some?
    ensures i == j
  {
    hide Lookup, IsRun;
    RunKeepsInv(states, n);
  }

  /** Batches stay where they are with the routes they had, never come back to life, and outlive their committed handle. */
  ghost predicate Later(s: State, t: State) {
    && |s.batches| <= |t.batches|
    && (forall i | 0 <= i < |s.batches| :: BatchLater(s.batches[i], t.batches[i]))
    && (forall w | w in s.walks :: w in t.walks && t.walks[w].pc == s.walks[w].pc && (!s.walks[w].Walking? ==> t.walks[w] == s.walks[w]))
  }

  predicate BatchLater(x: Batch, y: Batch) {
    && y.routes == x.routes && (y.active ==> x.active)
    && (x.handle.Dropped? ==> y == x)
  }

  lemma StepLater(s: State, e: Event)
    requires Inv(s) && WalksInList(s) && Enabled(s, e)
    ensures Later(s, Apply(s, e))
  {
    hide Lookup, StrictlySorted, OneRoute, WalkOk, Overlaps;
  }

  lemma {:induction false} RunGrows(states: seq<State>, i: nat, j: nat)
    requires IsRun(states) && i <= j < |states|
    ensures Later(states[i], states[j])
  {
    hide Inv, Enabled, Apply, WalksInList;
    if i < j {
      RunGrows(states, i, j - 1);
      RunKeepsInv(states, j - 1);
      assert Next(states[j - 1], states[j]);
      var e :| WalksInList(states[j - 1]) && Enabled(states[j - 1], e) && states[j] == Apply(states[j - 1], e);
      StepLater(states[j - 1], e);
      LaterStill(states[i], states[j - 1], states[j]);
    }
  }

  lemma LaterStill(s: State, t: State, u: State)
    requires Later(s, t) && Later(t, u)
    ensures Later(s, u)
  {
  }

  /** A route that is active and whose handle was dropped committed is active in every later state. */
  lemma CommittedRoutesStay(states: seq<State>, i: nat, j: nat, b: nat)
    requires IsRun(states) && i <= j < |states| && b < |states[i].batches|
    requires states[i].batches[b].active && states[i].batches[b].handle.Dropped?
    ensures b < |states[j].batches| && states[j].batches[b].active && states[j].batches[b].handle == Dropped(true)
  {
    hide IsRun;
    RunKeepsInv(states, i);
    RunGrows(states, i, j);
    assert BatchOk(states[i].batches[b]);
    assert BatchLater(states[i].batches[b], states[j].batches[b]);
  }

  // ---------------------------------------------------------------- what a walk returns

  /** The walk has not yet passed batch b, or has already returned its route. */
  ghost predicate WillFind(s: State, walk: nat, b: nat, pc: Address, generated: Address) {
    walk in s.walks && match s.walks[walk]
                       case Walking(at, current) => at == pc && b < current
                       case Found(at, batch, to) => at == pc && batch == b && to == generated
                       case Missed(_) => false
  }

  /** No step makes a walk miss a batch that is active while the step is taken. */
  lemma StepKeepsFinding(s: State, e: Event, walk: nat, b: nat, pc: Address, generated: Address)
    requires Inv(s) && WalksInList(s) && Enabled(s, e) && WillFind(s, walk, b, pc, generated)
    requires b < |s.batches| && s.batches[b].active && Lookup(s.batches[b].routes, pc) == Some(generated)
    ensures WillFind(Apply(s, e), walk, b, pc, generated)
  {
    hide Lookup, StrictlySorted, BatchOk, WriterOk, WalkOk, Overlaps;
    if e == Look(walk) {
      var at := s.walks[walk].current - 1;
      assert b < at && s.batches[at].active ==> Lookup(s.batches[at].routes, pc).None?;
    }
  }

  /**
   * A fault that walks the list while some batch routes its address throughout the walk returns that batch's
   * generated address, whatever else is staged, deactivated, committed or dropped meanwhile.
   */
  lemma {:induction false} WalkFindsSteadyRoute(
    states: seq<State>, start: nat, n: nat, walk: nat, b: nat, pc: Address, generated: Address)
    requires IsRun(states) && start <= n < |states|
    requires walk in states[start].walks && states[start].walks[walk] == Walking(pc, |states[start].batches|)
    requires b < |states[start].batches| && Lookup(states[start].batches[b].routes, pc) == Some(generated)
    requires forall i | start <= i <= n :: b < |states[i].batches| && states[i].batches[b].active
    ensures WillFind(states[n], walk, b, pc, generated)
    ensures !states[n].walks[walk].Walking? ==> states[n].walks[walk] == Found(pc, b, generated)
  {
    hide Inv, Enabled, Apply, WalksInList, Lookup;
    if start < n {
      WalkFindsSteadyRoute(states, start, n - 1, walk, b, pc, generated);
      RunKeepsInv(states, n - 1);
      RunGrows(states, start, n - 1);
      assert BatchLater(states[start].batches[b], states[n - 1].batches[b]);
      assert Next(states[n - 1], states[n]);
      var e :| WalksInList(states[n - 1]) && Enabled(states[n - 1], e) && states[n] == Apply(states[n - 1], e);
      StepKeepsFinding(states[n - 1], e, walk, b, pc, generated);
    }
  }

  /** What a walk returns was routed by a batch that was active when the walk looked at it. */
  lemma FoundRouteWasActive(s: State, e: Event, walk: nat)
    requires Inv(s) && WalksInList(s) && Enabled(s, e) && walk in s.walks && s.walks[walk].Walking?
    requires Apply(s, e).walks[walk].Found?
    ensures var found := Apply(s, e).walks[walk];
            && found.pc == s.walks[walk].pc && found.batch < |s.batches| && s.batches[found.batch].active
            && Route(found.pc, found.generated) in s.batches[found.batch].routes
  {
    hide StrictlySorted, BatchOk, OneRoute, WriterOk, Overlaps;
  }

  /** A walk that gives up had no steady route: each batch it started with was inactive at some moment or never matched. */
  lemma MissMeansNoSteadyRoute(states: seq<State>, start: nat, n: nat, walk: nat, b: nat, pc: Address)
    requires IsRun(states) && start <= n < |states|
    requires walk in states[start].walks && states[start].walks[walk] == Walking(pc, |states[start].batches|)
    requires walk in states[n].walks && states[n].walks[walk] == Missed(pc)
    requires b < |states[start].batches| && Lookup(states[start].batches[b].routes, pc).Some?
    ensures exists i :: start <= i <= n && b < |states[i].batches| && !states[i].batches[b].active
  {
    hide IsRun, Lookup;
    forall i | start <= i <= n ensures b < |states[i].batches| {
      RunGrows(states, start, i);
    }
    if forall i | start <= i <= n :: states[i].batches[b].active {
      WalkFindsSteadyRoute(states, start, n, walk, b, pc, Lookup(states[start].batches[b].routes, pc).value);
    }
  }
}
