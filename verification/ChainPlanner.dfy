/** `ChainPlanner::descend` of src/eviction_chain.rs: placing every node of a chain, anchor first, with backtracking. */
module ChainPlanner {
  import opened LittleEndian
  import opened Wrappers
  import opened Contracts
  import opened VirtualImage
  import opened CompositionRuns
  import opened Snapshots
  import opened Bundle
  import opened EvictionChain
  import opened Candidates
  import opened ChainMembers

  datatype ChainRun = ChainRun(
    original: U64, prefixCount: Option<nat>, localLimit: nat, remainingAtEntry: nat, examined: nat, stop: SearchStop)

  datatype ChainAttempt = ChainAttempt(
    original: U64, target: Option<U64>, prefixCount: Option<nat>, refusal: Option<Refusal>, completeChain: bool)

  // ---------------------------------------------------------------- work accounting

  function TotalExamined(runs: seq<ChainRun>): nat {
    if runs == [] then 0 else TotalExamined(runs[..|runs| - 1]) + runs[|runs| - 1].examined
  }

  lemma {:induction false} OneMoreExamined(runs: seq<ChainRun>, k: nat, run: ChainRun)
    requires k < |runs|
    ensures TotalExamined(runs[k := run]) == TotalExamined(runs) - runs[k].examined + run.examined
  {
    var n := |runs| - 1;
    if k == n {
      assert runs[k := run][..n] == runs[..n];
    } else {
      OneMoreExamined(runs[..n], k, run);
      assert runs[k := run][..n] == runs[..n][k := run];
    }
  }

  /** The last refusal that named something other than an unavailable address, if there was one. */
  function LastSpecific(attempts: seq<ChainAttempt>): Refusal {
    if attempts == [] then AllocationUnavailable
    else
      var last := attempts[|attempts| - 1].refusal;
      if last.Some? && last.value != AllocationUnavailable then last.value else LastSpecific(attempts[..|attempts| - 1])
  }

  /** It is the refusal of the last attempt that was refused for something else than an unavailable address. */
  lemma {:induction false} LastSpecificExactly(attempts: seq<ChainAttempt>)
    ensures || (&& LastSpecific(attempts) == AllocationUnavailable
                && forall k | 0 <= k < |attempts| :: attempts[k].refusal in {None, Some(AllocationUnavailable)})
            || exists k | 0 <= k < |attempts| ::
                 && attempts[k].refusal == Some(LastSpecific(attempts)) && LastSpecific(attempts) != AllocationUnavailable
                 && forall later | k < later < |attempts| :: attempts[later].refusal in {None, Some(AllocationUnavailable)}
  {
    if attempts != [] {
      var n := |attempts| - 1;
      LastSpecificExactly(attempts[..n]);
      assert forall k | 0 <= k < n :: attempts[..n][k] == attempts[k];
      if attempts[n].refusal in {None, Some(AllocationUnavailable)} {
        assert LastSpecific(attempts) == LastSpecific(attempts[..n]);
      } else {
        assert attempts[n].refusal == Some(LastSpecific(attempts));
      }
    }
  }

  function CompleteAttempts(attempts: seq<ChainAttempt>): nat {
    if attempts == [] then 0
    else CompleteAttempts(attempts[..|attempts| - 1]) + if attempts[|attempts| - 1].completeChain then 1 else 0
  }

  ghost predicate RunsKept(before: seq<ChainRun>, after: seq<ChainRun>) {
    |before| <= |after| && forall k | 0 <= k < |before| :: after[k] == before[k]
  }

  /** A run enters no more slots than it was offered, and is offered no more than its own and the global limit allow. */
  predicate RunWithin(run: ChainRun, slots: nat) {
    run.examined <= slots <= run.localLimit && slots <= run.remainingAtEntry + 1
  }

  /** Every slot offered to a run from this index on was entered. */
  ghost predicate Exhausted(runs: seq<ChainRun>, offered: seq<nat>, from: nat) {
    |offered| == |runs| && forall k | from <= k < |runs| :: runs[k].examined == offered[k]
  }

  /** Some run from this index on had a further slot when the search was cut off. */
  ghost predicate CutShort(runs: seq<ChainRun>, offered: seq<nat>, from: nat) {
    |offered| == |runs| && exists k | from <= k < |runs| :: runs[k].stop.BudgetLimited? && runs[k].examined < offered[k]
  }

  /** A complete chain: every node placed, over the original source bytes. */
  ghost predicate WholeChain(c: ChainContext, bundle: BundlePlan) {
    && Composed(bundle) && |bundle.steps| == |c.nodes| && PlacedSuffix(c.nodes, bundle.steps)
    && bundle.originals == [Span(c.source.start, c.code)]
  }

  function Bounded(limit: nat, bound: nat): nat {
    if limit < bound then limit else bound
  }

  lemma BoundedCandidates(window: AddressRange, policy: AllocationPolicy, limit: nat, remaining: nat)
    requires limit == Bounded(policy.maxCandidates, remaining + 1)
    ensures var bounded := PunCandidates(window, policy.(maxCandidates := limit));
            && (forall a | a in bounded :: a in PunCandidates(window, policy))
            && (|bounded| <= remaining ==> bounded == PunCandidates(window, policy))
  {
    hide PunCandidates;
    var bounded := PunCandidates(window, policy.(maxCandidates := limit));
    if limit == policy.maxCandidates {
      assert policy.(maxCandidates := limit) == policy;
    } else {
      FewerCandidates(window, policy, limit);
      if |bounded| <= remaining {
        UnusedLimit(window, policy, limit);
      }
    }
  }

  /** None of the first `count` slots leads anywhere. */
  ghost predicate SlotsDead(
    c: ChainContext, index: nat, members: seq<PlanParts>, overlay: seq<byte>, prefix: Option<nat>,
    slots: seq<Option<U64>>, count: nat)
    requires c.Valid() && index < |c.nodes| && |overlay| == c.source.Len() && count <= |slots|
  {
    forall slot | 0 <= slot < count && slots[slot].Some? ::
      DeadEnd(c, index, members, overlay, prefix, slots[slot].value)
  }

  ghost predicate SlotStops(
    c: ChainContext, index: nat, members: seq<PlanParts>, overlay: seq<byte>, prefix: Option<nat>,
    slots: seq<Option<U64>>, error: Refusal)
    requires c.Valid() && index < |c.nodes| && |overlay| == c.source.Len()
  {
    exists slot | 0 <= slot < |slots| && slots[slot].Some? ::
      StopsAt(c, index, members, overlay, prefix, slots[slot].value, error)
  }

  /** The steps go on from one slot, after every slot before it was a dead end. */
  ghost predicate SlotLeads(
    c: ChainContext, index: nat, members: seq<PlanParts>, overlay: seq<byte>, prefix: Option<nat>,
    slots: seq<Option<U64>>, steps: seq<PlanParts>)
    requires c.Valid() && index < |c.nodes| && |overlay| == c.source.Len()
  {
    exists slot: nat :: slot < |slots| && slots[slot].Some? && SlotsDead(c, index, members, overlay, prefix, slots, slot)
                        && LeadsFrom(c, index, members, overlay, prefix, slots[slot].value, steps)
  }

  /** One more slot, entered or skipped. */
  lemma SlotsOneMore(
    c: ChainContext, index: nat, members: seq<PlanParts>, overlay: seq<byte>, prefix: Option<nat>,
    slots: seq<Option<U64>>, slot: nat)
    requires c.Valid() && index < |c.nodes| && |overlay| == c.source.Len() && slot < |slots|
    requires SlotsDead(c, index, members, overlay, prefix, slots, slot)
    ensures slots[slot].None? || DeadEnd(c, index, members, overlay, prefix, slots[slot].value) ==>
              SlotsDead(c, index, members, overlay, prefix, slots, slot + 1)
    ensures slots[slot].Some? && !DeadEnd(c, index, members, overlay, prefix, slots[slot].value) ==>
              !SlotsDead(c, index, members, overlay, prefix, slots, |slots|)
    ensures forall error :: slots[slot].Some? && StopsAt(c, index, members, overlay, prefix, slots[slot].value, error) ==>
              SlotStops(c, index, members, overlay, prefix, slots, error)
    ensures forall steps :: slots[slot].Some? && LeadsFrom(c, index, members, overlay, prefix, slots[slot].value, steps) ==>
              SlotLeads(c, index, members, overlay, prefix, slots, steps)
  {
    hide DeadEnd, StopsAt, LeadsFrom;
  }

  lemma NoSlotsYet(
    c: ChainContext, index: nat, members: seq<PlanParts>, overlay: seq<byte>, prefix: Option<nat>, slots: seq<Option<U64>>)
    requires c.Valid() && index < |c.nodes| && |overlay| == c.source.Len()
    ensures SlotsDead(c, index, members, overlay, prefix, slots, 0)
  {
  }

  class Planner {
    const c: ChainContext
    var trials: nat
    var cutoff: bool
    var runs: seq<ChainRun>
    var attempts: seq<ChainAttempt>
    var lastError: Refusal
    /** How many slots each run was given, for the evidence only. */
    ghost var offered: seq<nat>

    ghost predicate Valid()
      reads this
    {
      && c.Valid()
      && trials == TotalExamined(runs) && trials <= c.maxTrials
      && lastError == LastSpecific(attempts)
      && |offered| == |runs| && forall k | 0 <= k < |runs| :: RunWithin(runs[k], offered[k])
    }

    constructor (c: ChainContext)
      requires c.Valid()
      ensures Valid() && this.c == c && !cutoff && runs == [] && attempts == []
    {
      this.c := c;
      trials, cutoff, runs, attempts, lastError, offered := 0, false, [], [], AllocationUnavailable, [];
    }

    method Record(original: U64, target: Option<U64>, prefix: Option<nat>, refusal: Option<Refusal>, complete: bool)
      requires lastError == LastSpecific(attempts)
      modifies this`attempts, this`lastError
      ensures lastError == LastSpecific(attempts)
      ensures attempts == old(attempts) + [ChainAttempt(original, target, prefix, refusal, complete)]
      ensures CompleteAttempts(attempts) == old(CompleteAttempts(attempts)) + if complete then 1 else 0
    {
      if refusal.Some? && (lastError == AllocationUnavailable || refusal.value != AllocationUnavailable) {
        lastError := refusal.value;
      }
      attempts := attempts + [ChainAttempt(original, target, prefix, refusal, complete)];
      assert attempts[..|attempts| - 1] == old(attempts);
    }

    /** Composes the placed suffix from the original bytes, as after every successful placement. */
    method ComposeSuffix(members: seq<PlanParts>) returns (r: Result<BundlePlan, Refusal>)
      requires c.Valid() && forall j | 0 <= j < |members| :: IsPatchPlan(members[j])
      requires members != []
      ensures r.Ok? <==> SuffixComposes(c, members)
      ensures r.Ok? ==> Composed(r.value) && r.value.steps == members && r.value.originals == [Whole(c)]
      ensures r.Ok? ==> |r.value.finalBytes| == 1 && r.value.finalBytes[0].bytes == SuffixBytes(c, members)
    {
      hide IsPatchPlan, RunMembers, GoodSnapshots, View, Run, AccountedMemory, SuffixBytes;
      WholeIsGood(c);
      r := Compose([Whole(c)], members, c.budget);
      if r.Ok? {
        SingleSnapshot(r.value.originals, Whole(c));
        BytesOfSuffix(c, members, r.value.finalBytes);
      }
    }

    /** What every level of the search leaves behind, whatever it returns. */
    ghost predicate Searched(from: nat, complete: nat, r: Result<Option<BundlePlan>, Refusal>)
      reads this
    {
      && Valid()
      && (cutoff ==> r == Err(AllocationUnavailable) && trials == c.maxTrials && CutShort(runs, offered, from))
      && (r.Ok? && r.value.None? ==> Exhausted(runs, offered, from))
      && (r.Ok? && r.value.Some? ==> WholeChain(c, r.value.value))
      && CompleteAttempts(attempts) == complete + if r.Ok? && r.value.Some? then 1 else 0
    }

    /** Places node `index` and then every node before it, under a suffix that is already placed. */
    method Descend(index: nat, members: seq<PlanParts>, overlay: seq<byte>)
      returns (r: Result<Option<BundlePlan>, Refusal>)
      requires Valid() && !cutoff
      requires index < |c.nodes| && |members| == |c.nodes| - 1 - index && PlacedSuffix(c.nodes, members)
      requires |overlay| == c.source.Len()
      modifies this
      ensures Searched(|old(runs)|, old(CompleteAttempts(attempts)), r)
      ensures RunsKept(old(runs), runs) && old(offered) <= offered && trials >= old(trials)
      ensures r.Ok? && r.value.Some? ==> members <= r.value.value.steps
      ensures r.Ok? ==> (r.value.None? <==> NoChain(c, index, members, overlay))
      ensures r.Err? && !cutoff ==> Stops(c, index, members, overlay, r.error)
      ensures r.Ok? && r.value.Some? ==> Leads(c, index, members, overlay, r.value.value.steps)
      decreases index, 2
    {
      hide WholeChain, PlacedSuffix, LastSpecific, TotalExamined, CompleteAttempts, AllDead, SomeStops, LeadsUnder;
      var node, policy := c.nodes[index], c.policies[index];
      if policy.maxMappings == 0 || policy.maxMappedBytes < PAGE {
        Record(node.pc, None, None, Some(AllocationUnavailable), false);
        return Ok(None);
      }
      var prefixes: seq<nat> := [0];
      if index != c.Anchor() {
        var choices := PrefixChoices(TacticsFor(c, index), node.len);
        if choices.Err? {
          return Err(choices.error);
        }
        prefixes := choices.value;
        PrefixChoicesExactly(TacticsFor(c, index), node.len);
      }
      for p := 0 to |prefixes|
        invariant Valid() && !cutoff
        invariant RunsKept(old(runs), runs) && old(offered) <= offered && Exhausted(runs, offered, |old(runs)|)
        invariant CompleteAttempts(attempts) == old(CompleteAttempts(attempts)) && trials >= old(trials)
        invariant forall q | 0 <= q < p ::
                    AllDead(c, index, members, overlay, if index == c.Anchor() then None else Some(prefixes[q]))
      {
        r := TryPrefix(index, members, overlay, if index == c.Anchor() then None else Some(prefixes[p]));
        if r.Err? {
          assert index != c.Anchor() ==> prefixes[p] in prefixes;
          return;
        }
        if r.value.Some? {
          assert index != c.Anchor() ==> prefixes[p] in prefixes;
          assert forall fewer: nat | fewer in prefixes && fewer < prefixes[p] :: exists q | 0 <= q < p :: prefixes[q] == fewer;
          return;
        }
      }
      assert prefixes != [] ==> prefixes[0] in prefixes;
      return Ok(None);
    }

    method SetRun(k: nat, run: ChainRun)
      requires Valid() && k < |runs| && RunWithin(run, offered[k])
      requires trials - runs[k].examined + run.examined <= c.maxTrials
      modifies this`runs, this`trials
      ensures Valid() && runs == old(runs)[k := run]
      ensures trials == old(trials) - old(runs)[k].examined + run.examined
    {
      hide LastSpecific, ChainContext.Valid;
      OneMoreExamined(runs, k, run);
      trials := trials - runs[k].examined + run.examined;
      runs := runs[k := run];
    }

    /** The slots a run may enter: candidates in order, or the refusal that leaves it none. */
    function Slots(index: nat, overlay: seq<byte>, prefix: Option<nat>, limit: nat): (r: Result<seq<Option<U64>>, Refusal>)
      requires c.Valid() && index < |c.nodes| && |overlay| == c.source.Len()
      ensures r.Ok? ==> |r.value| <= limit
    {
      var node, policy := c.nodes[index], c.policies[index];
      if prefix.None? then Ok(seq(limit, (slot: nat) => CandidateTarget(node.pc, policy.preferred, slot)))
      else
        var window :- PunWindow(c.source, overlay, node, prefix.value);
        var addresses := PunCandidates(window, policy.(maxCandidates := limit));
        Ok(seq(|addresses|, slot requires 0 <= slot < |addresses| => Some(addresses[slot])))
    }

    /** A run without slots offers nothing. */
    lemma NothingOffered(index: nat, members: seq<PlanParts>, overlay: seq<byte>, prefix: Option<nat>, limit: nat)
      requires c.Valid() && index < |c.nodes| && |overlay| == c.source.Len() && Slots(index, overlay, prefix, limit).Err?
      ensures AllDead(c, index, members, overlay, prefix)
    {
      hide DeadEnd, PunWindow, PunCandidates;
    }

    /** Slots under a bounded limit are offered ones, and all of them if the bound was not used up. */
    lemma SlotsAreOffers(index: nat, overlay: seq<byte>, prefix: Option<nat>, remaining: nat, target: U64)
      requires c.Valid() && index < |c.nodes| && |overlay| == c.source.Len()
      requires Slots(index, overlay, prefix, Bounded(c.policies[index].maxCandidates, remaining + 1)).Ok?
      ensures var slots := Slots(index, overlay, prefix, Bounded(c.policies[index].maxCandidates, remaining + 1)).value;
              && (Some(target) in slots ==> Offers(c, index, overlay, prefix, target))
              && (|slots| <= remaining && Offers(c, index, overlay, prefix, target) ==> Some(target) in slots)
    {
      hide PunWindow, PunCandidates, CandidateTarget, AnchorAddress, ChainContext.LeavesHonest;
      var node, policy := c.nodes[index], c.policies[index];
      var limit := Bounded(policy.maxCandidates, remaining + 1);
      var slots := Slots(index, overlay, prefix, limit).value;
      if prefix.None? {
        forall slot: nat ensures CandidateTarget(node.pc, policy.preferred, slot) == Some(target)
                                 <==> AnchorAddress(node.pc, policy.preferred, slot, target) {
          CandidateTargetExactly(node.pc, policy.preferred, slot, target);
        }
        assert forall slot: nat | slot < limit :: slots[slot] == CandidateTarget(node.pc, policy.preferred, slot);
      } else {
        BoundedCandidates(PunWindow(c.source, overlay, node, prefix.value).value, policy, limit, remaining);
        var addresses := PunCandidates(PunWindow(c.source, overlay, node, prefix.value).value, policy.(maxCandidates := limit));
        assert forall slot | 0 <= slot < |addresses| :: slots[slot] == Some(addresses[slot]);
        assert Some(target) in slots <==> target in addresses by {
          if target in addresses {
            var slot :| 0 <= slot < |addresses| && addresses[slot] == target;
            assert slots[slot] == Some(target);
          }
        }
      }
    }

    /** What the slots of one run say about everything the run's prefix choice offers. */
    lemma SlotsDecide(
      index: nat, members: seq<PlanParts>, overlay: seq<byte>, prefix: Option<nat>, remaining: nat,
      slots: seq<Option<U64>>, dead: bool)
      requires c.Valid() && index < |c.nodes| && |overlay| == c.source.Len()
      requires Slots(index, overlay, prefix, Bounded(c.policies[index].maxCandidates, remaining + 1)) == Ok(slots)
      requires dead ==> |slots| <= remaining
      requires dead <==> SlotsDead(c, index, members, overlay, prefix, slots, |slots|)
      ensures dead <==> AllDead(c, index, members, overlay, prefix)
    {
      hide Slots, Offers, DeadEnd, ChainContext.Valid;
      forall target: U64
        ensures Some(target) in slots ==> Offers(c, index, overlay, prefix, target)
        ensures dead && Offers(c, index, overlay, prefix, target) ==> DeadEnd(c, index, members, overlay, prefix, target)
      {
        SlotsAreOffers(index, overlay, prefix, remaining, target);
      }
    }

    lemma SlotsStop(
      index: nat, members: seq<PlanParts>, overlay: seq<byte>, prefix: Option<nat>, remaining: nat,
      slots: seq<Option<U64>>, error: Refusal)
      requires c.Valid() && index < |c.nodes| && |overlay| == c.source.Len()
      requires Slots(index, overlay, prefix, Bounded(c.policies[index].maxCandidates, remaining + 1)) == Ok(slots)
      requires SlotStops(c, index, members, overlay, prefix, slots, error)
      ensures SomeStops(c, index, members, overlay, prefix, error)
    {
      hide Slots, Offers, StopsAt, ChainContext.Valid;
      var slot :| 0 <= slot < |slots| && slots[slot].Some? && StopsAt(c, index, members, overlay, prefix, slots[slot].value, error);
      SlotsAreOffers(index, overlay, prefix, remaining, slots[slot].value);
    }

    /** Whatever is tried before the target of a slot stands in an earlier slot. */
    lemma EarlierSlot(index: nat, overlay: seq<byte>, prefix: Option<nat>, remaining: nat, slots: seq<Option<U64>>, slot: nat, earlier: U64)
      returns (before: nat)
      requires c.Valid() && index < |c.nodes| && |overlay| == c.source.Len()
      requires Slots(index, overlay, prefix, Bounded(c.policies[index].maxCandidates, remaining + 1)) == Ok(slots)
      requires slot < |slots| && slots[slot].Some? && Offers(c, index, overlay, prefix, earlier)
      requires TriedBefore(c, index, overlay, prefix, earlier, slots[slot].value)
      ensures before < slot && slots[before] == Some(earlier)
    {
      hide PunWindow, PunCandidates, CandidateTarget, ChainContext.LeavesHonest;
      var node, policy := c.nodes[index], c.policies[index];
      var limit := Bounded(policy.maxCandidates, remaining + 1);
      if prefix.None? {
        before :| before < policy.maxCandidates && AnchorAddress(node.pc, policy.preferred, before, earlier);
        CandidateTargetExactly(node.pc, policy.preferred, slot, slots[slot].value);
        CandidateTargetExactly(node.pc, policy.preferred, before, earlier);
      } else {
        var window := PunWindow(c.source, overlay, node, prefix.value).value;
        var all := PunCandidates(window, policy);
        BeginningOfCandidates(window, policy, limit);
        var i, j :| 0 <= i < j < |all| && all[i] == earlier && all[j] == slots[slot].value;
        assert all[slot] == slots[slot].value;
        assert j == slot;
        before := i;
      }
    }

    lemma SlotsLead(
      index: nat, members: seq<PlanParts>, overlay: seq<byte>, prefix: Option<nat>, remaining: nat,
      slots: seq<Option<U64>>, steps: seq<PlanParts>)
      requires c.Valid() && index < |c.nodes| && |overlay| == c.source.Len()
      requires Slots(index, overlay, prefix, Bounded(c.policies[index].maxCandidates, remaining + 1)) == Ok(slots)
      requires SlotLeads(c, index, members, overlay, prefix, slots, steps)
      ensures LeadsUnder(c, index, members, overlay, prefix, steps)
    {
      hide Slots, Offers, DeadEnd, LeadsFrom, TriedBefore, ChainContext.Valid;
      var slot: nat :| slot < |slots| && slots[slot].Some? && SlotsDead(c, index, members, overlay, prefix, slots, slot)
                       && LeadsFrom(c, index, members, overlay, prefix, slots[slot].value, steps);
      var target := slots[slot].value;
      SlotsAreOffers(index, overlay, prefix, remaining, target);
      forall earlier: U64 | Offers(c, index, overlay, prefix, earlier) && TriedBefore(c, index, overlay, prefix, earlier, target)
        ensures DeadEnd(c, index, members, overlay, prefix, earlier)
      {
        var before := EarlierSlot(index, overlay, prefix, remaining, slots, slot, earlier);
      }
    }

    /** Opens a run, before any slot of it is entered. */
    method OpenRun(run: ChainRun, slots: nat)
      requires Valid() && RunWithin(run, slots) && run.examined == 0
      modifies this`runs, this`offered
      ensures Valid() && runs == old(runs) + [run] && offered == old(offered) + [slots]
    {
      hide LastSpecific, ChainContext.Valid;
      runs := runs + [run];
      offered := offered + [slots];
      assert runs[..|runs| - 1] == old(runs);
    }

    /** One local search run: all slots of one prefix choice. */
    method TryPrefix(index: nat, members: seq<PlanParts>, overlay: seq<byte>, prefix: Option<nat>)
      returns (r: Result<Option<BundlePlan>, Refusal>)
      requires Valid() && !cutoff
      requires index < |c.nodes| && |members| == |c.nodes| - 1 - index && PlacedSuffix(c.nodes, members)
      requires |overlay| == c.source.Len() && (prefix.None? <==> index == c.Anchor())
      modifies this
      ensures Searched(|old(runs)|, old(CompleteAttempts(attempts)), r)
      ensures RunsKept(old(runs), runs) && old(offered) <= offered && trials >= old(trials)
      ensures r.Ok? && r.value.Some? ==> members <= r.value.value.steps
      ensures r.Ok? ==> (r.value.None? <==> AllDead(c, index, members, overlay, prefix))
      ensures r.Err? && !cutoff ==> SomeStops(c, index, members, overlay, prefix, r.error)
      ensures r.Ok? && r.value.Some? ==> LeadsUnder(c, index, members, overlay, prefix, r.value.value.steps)
      decreases index, 1
    {
      hide WholeChain, PlacedSuffix, LastSpecific, CompleteAttempts, Slots, TotalExamined, AllDead, DeadEnd, Offers, SomeStops, LeadsUnder;
      var node, policy := c.nodes[index], c.policies[index];
      var remaining := c.maxTrials - trials;
      var limit := Bounded(policy.maxCandidates, remaining + 1);
      var run := |runs|;
      var slots := Slots(index, overlay, prefix, limit);
      OpenRun(ChainRun(node.pc, prefix, policy.maxCandidates, remaining, 0, Interrupted), if slots.Ok? then |slots.value| else 0);
      if slots.Err? {
        Record(node.pc, None, prefix, Some(slots.error), false);
        NothingOffered(index, members, overlay, prefix, limit);
        return Ok(None);
      }
      r := EnterSlots(index, members, overlay, prefix, run, slots.value);
      if r.Ok? {
        SlotsDecide(index, members, overlay, prefix, remaining, slots.value, r.value.None?);
        if r.value.Some? {
          SlotsLead(index, members, overlay, prefix, remaining, slots.value, r.value.value.steps);
        }
      } else if !cutoff {
        SlotsStop(index, members, overlay, prefix, remaining, slots.value, r.error);
      }
    }

    /** The loop over one run's slots; entering a slot the global cap forbids ends the whole search. */
    method EnterSlots(
      index: nat, members: seq<PlanParts>, overlay: seq<byte>, prefix: Option<nat>, run: nat, targets: seq<Option<U64>>)
      returns (r: Result<Option<BundlePlan>, Refusal>)
      requires Valid() && !cutoff
      requires index < |c.nodes| && |members| == |c.nodes| - 1 - index && PlacedSuffix(c.nodes, members)
      requires |overlay| == c.source.Len() && (prefix.None? <==> index == c.Anchor())
      requires |runs| == run + 1 && runs[run].examined == 0 && offered[run] == |targets|
      modifies this
      ensures Searched(run, old(CompleteAttempts(attempts)), r)
      ensures RunsKept(old(runs)[..run], runs) && old(offered) <= offered && trials >= old(trials)
      ensures r.Ok? && r.value.Some? ==> members <= r.value.value.steps
      ensures r.Ok? ==> (r.value.None? <==> SlotsDead(c, index, members, overlay, prefix, targets, |targets|))
      ensures r.Err? && !cutoff ==> SlotStops(c, index, members, overlay, prefix, targets, r.error)
      ensures r.Ok? && r.value.Some? ==> SlotLeads(c, index, members, overlay, prefix, targets, r.value.value.steps)
      ensures r.Ok? && r.value.None? ==> |targets| <= c.maxTrials - old(trials)
      decreases index, 1, 0
    {
      hide WholeChain, PlacedSuffix, LastSpecific, CompleteAttempts, TotalExamined, ChainContext.Valid, DeadEnd, StopsAt, LeadsFrom, SlotsDead, SlotStops, SlotLeads;
      NoSlotsYet(c, index, members, overlay, prefix, targets);
      var node := c.nodes[index];
      var seen: set<U64> := {};
      for slot := 0 to |targets|
        invariant Valid() && !cutoff
        invariant run < |runs| && runs[run].examined == slot && offered[run] == |targets|
        invariant RunsKept(old(runs)[..run], runs) && old(offered) <= offered && Exhausted(runs, offered, run + 1)
        invariant CompleteAttempts(attempts) == old(CompleteAttempts(attempts)) && trials >= old(trials) + slot
        invariant SlotsDead(c, index, members, overlay, prefix, targets, slot)
        invariant forall target | target in seen :: DeadEnd(c, index, members, overlay, prefix, target)
      {
        if trials == c.maxTrials {
          cutoff := true;
          SetRun(run, runs[run].(stop := BudgetLimited));
          return Err(AllocationUnavailable);
        }
        SetRun(run, runs[run].(examined := slot + 1));
        SlotsOneMore(c, index, members, overlay, prefix, targets, slot);
        if targets[slot].None? || targets[slot].value in seen {
          Record(node.pc, targets[slot], prefix, Some(AllocationUnavailable), false);
        } else {
          seen := seen + {targets[slot].value};
          r := TryTarget(index, members, overlay, prefix, targets[slot].value);
          if r.Err? {
            return;
          }
          if r.value.Some? {
            SetRun(run, runs[run].(stop := Accepted));
            return;
          }
        }
      }
      SetRun(run, runs[run].(stop := Finished));
      return Ok(None);
    }

    /** One target: build the member, compose the longer suffix, and descend to the previous node. */
    method TryTarget(
      index: nat, members: seq<PlanParts>, overlay: seq<byte>, prefix: Option<nat>, target: U64)
      returns (r: Result<Option<BundlePlan>, Refusal>)
      requires Valid() && !cutoff
      requires index < |c.nodes| && |members| == |c.nodes| - 1 - index && PlacedSuffix(c.nodes, members)
      requires |overlay| == c.source.Len() && (prefix.None? <==> index == c.Anchor())
      modifies this
      ensures Searched(|old(runs)|, old(CompleteAttempts(attempts)), r)
      ensures RunsKept(old(runs), runs) && old(offered) <= offered && trials >= old(trials)
      ensures r.Ok? && r.value.Some? ==> members <= r.value.value.steps
      ensures r.Ok? ==> (r.value.None? <==> DeadEnd(c, index, members, overlay, prefix, target))
      ensures r.Err? && !cutoff ==> StopsAt(c, index, members, overlay, prefix, target, r.error)
      ensures r.Ok? && r.value.Some? ==> LeadsFrom(c, index, members, overlay, prefix, target, r.value.value.steps)
      decreases index, 0
    {
      hide LastSpecific, CompleteAttempts, TotalExamined, Member, Composed, StepFor, IsPatchPlan, SuffixComposes, SuffixBytes, NoChain, Stops, Leads;
      var node := c.nodes[index];
      if index != 0 {
        var block := NewRange(node.pc, node.len);
        if block.Err? {
          return Err(block.error);
        }
      }
      var member := Member(c, index, members, overlay, prefix, target);
      if member.Err? {
        Record(node.pc, Some(target), prefix, Some(member.error), false);
        return Ok(None);
      }
      MemberFits(c, index, members, overlay, prefix, target);
      var next := members + [member.value];
      assert PlacedSuffix(c.nodes, next);
      MembersAreChecked(c.nodes, next);
      var composed := ComposeSuffix(next);
      if composed.Err? {
        Record(node.pc, Some(target), prefix, Some(composed.error), false);
        return Ok(None);
      }
      Record(node.pc, Some(target), prefix, None, index == 0);
      if index == 0 {
        return Ok(Some(composed.value));
      }
      r := Descend(index - 1, next, composed.value.finalBytes[0].bytes);
    }
  }

  // ---------------------------------------------------------------- what a placed chain does

  /**
   * In the finished bytes every original head of the chain jumps to its own image, although each
   * pun's high displacement bytes are the redirect that was written into its successor before it.
   */
  lemma EveryHeadLands(c: ChainContext, bundle: BundlePlan, index: nat)
    requires WholeChain(c, bundle) && index < |c.nodes|
    ensures var step := bundle.steps[|c.nodes| - 1 - index];
            && |step.generated| == 1 && step.physicalPc == c.nodes[index].pc
            && Lands(View(bundle.finalBytes), c.nodes[index].pc, step.generated[0].image.address)
  {
    hide IsPatchPlan, Run, View, Lands, NearRedirect;
    var j := |c.nodes| - 1 - index;
    var step, start := bundle.steps[j], Initial(bundle.identity, View(bundle.originals));
    assert StepFor(c.nodes, |c.nodes| - 1 - j, step);
    if index == |c.nodes| - 1 {
      EveryStoreSurvives(start, bundle.steps, j, 0);
      NearRedirectLands(step.physicalPc, step.generated[0].image.address, View(bundle.finalBytes));
    } else {
      EveryPunStillLands(start, bundle.steps, j);
    }
  }

  /** One node of a finished chain as it is reported, selected head first. */
  datatype ChainNode = ChainNode(original: U64, originalLen: nat, target: U64, prefixCount: Option<nat>, hasSelectedHook: bool)

  function ReportedNode(step: PlanParts, index: nat): ChainNode
    requires |step.generated| == 1
  {
    ChainNode(
      step.physicalPc, step.displaced.Len(), step.generated[0].image.address,
      match step.kind
      case Relocation => None
      case GeneralizedPun(_) => Some(0)
      case PrefixedPun(shape) => Some(shape.prefixCount as nat),
      index == 0)
  }

  /** Steps reversed, as the report lists them. */
  function ReportedNodes(steps: seq<PlanParts>): (nodes: seq<ChainNode>)
    requires forall j | 0 <= j < |steps| :: |steps[j].generated| == 1
    ensures |nodes| == |steps|
    ensures forall i | 0 <= i < |steps| :: nodes[i] == ReportedNode(steps[|steps| - 1 - i], i)
  {
    seq(|steps|, i requires 0 <= i < |steps| => ReportedNode(steps[|steps| - 1 - i], i))
  }

  lemma StepsHaveOneImage(c: ChainContext, bundle: BundlePlan)
    requires WholeChain(c, bundle)
    ensures forall j | 0 <= j < |bundle.steps| :: |bundle.steps[j].generated| == 1
  {
    hide Composed, AnchorMemberFor, PunMember;
    forall j | 0 <= j < |bundle.steps| ensures |bundle.steps[j].generated| == 1 {
      assert StepFor(c.nodes, |c.nodes| - 1 - j, bundle.steps[j]);
    }
  }

  /** The report covers the discovered run head for head, with one hook, and each listed target is where its head lands. */
  lemma ReportIsFaithful(c: ChainContext, bundle: BundlePlan)
    requires WholeChain(c, bundle)
    ensures forall j | 0 <= j < |bundle.steps| :: |bundle.steps[j].generated| == 1
    ensures var report := ReportedNodes(bundle.steps);
            && |report| == |c.nodes|
            && (forall i | 0 <= i < |report| ::
                  && report[i].original == c.nodes[i].pc
                  && report[i].originalLen == c.nodes[i].len
                  && (report[i].hasSelectedHook <==> i == 0)
                  && (report[i].prefixCount.None? <==> i == |report| - 1)
                  && Lands(View(bundle.finalBytes), report[i].original, report[i].target))
  {
    hide Composed, View, Lands, IsPatchPlan, NearRedirect, CheckPun;
    StepsHaveOneImage(c, bundle);
    var report := ReportedNodes(bundle.steps);
    forall i | 0 <= i < |report|
      ensures && report[i].original == c.nodes[i].pc
              && report[i].originalLen == c.nodes[i].len
              && (report[i].hasSelectedHook <==> i == 0)
              && (report[i].prefixCount.None? <==> i == |report| - 1)
              && Lands(View(bundle.finalBytes), report[i].original, report[i].target)
    {
      EveryHeadLands(c, bundle, i);
      ReportedLength(c, bundle, i);
    }
  }

  lemma ReportedLength(c: ChainContext, bundle: BundlePlan, i: nat)
    requires WholeChain(c, bundle) && i < |c.nodes|
    ensures var step := bundle.steps[|c.nodes| - 1 - i];
            step.displaced.Len() == c.nodes[i].len && (step.kind.Relocation? <==> i == |c.nodes| - 1)
  {
    hide Composed, NearRedirect;
    var step := bundle.steps[|c.nodes| - 1 - i];
    assert StepFor(c.nodes, i, step);
    if i < |c.nodes| - 1 {
      CheckedPunAccepted(step);
      PunEdits(step);
    }
    hide IsPatchPlan, PunAccepted;
  }

  // ---------------------------------------------------------------- the public planner

  datatype PlannedChain = PlannedChain(bundle: BundlePlan, nodes: seq<ChainNode>)

  /** Bounds that every image of the chain must be able to pay before any search begins. */
  predicate BudgetAdmits(budget: BundleBudget, nodes: nat) {
    && budget.maxSteps >= nodes && budget.maxMappings >= nodes
    && budget.maxVirtualBytes >= nodes * PAGE && budget.maxBackingBytes >= nodes * PAGE
  }

  /**
   * `plan_successor_chain_inner` without grouping, from the discovered nodes on.
   *
   * A search that is cut off has spent the cap while some run had a slot left. One that ends without a chain either
   * met a structural refusal, or there is no chain: it then reports the last specific refusal.
   */
  method PlanChain(c: ChainContext) returns (r: Result<PlannedChain, Refusal>, planner: Planner?)
    requires c.WellFormed()
    ensures |c.nodes| != |c.policies| ==> r == Err(InvalidPlan) && planner == null
    ensures |c.nodes| == |c.policies| ==> planner != null && fresh(planner) && planner.c == c && planner.Valid()
    ensures |c.nodes| == |c.policies|
            && (c.budget.maxSteps < |c.nodes| || c.budget.maxMappings < |c.nodes|
                || c.budget.maxVirtualBytes < |c.nodes| * 4096 || c.budget.maxBackingBytes < |c.nodes| * 4096) ==>
              r == Err(AllocationUnavailable) && planner.runs == [] && !planner.cutoff
    ensures |c.nodes| == |c.policies| && planner.cutoff ==>
              r == Err(AllocationUnavailable) && planner.trials == c.maxTrials && CutShort(planner.runs, planner.offered, 0)
    ensures |c.nodes| == |c.policies| && BudgetAdmits(c.budget, |c.nodes|) && r.Err? && !planner.cutoff ==>
              || Stops(c, |c.nodes| - 1, [], c.code, r.error)
              || (&& r.error == LastSpecific(planner.attempts) && Exhausted(planner.runs, planner.offered, 0)
                  && NoChain(c, |c.nodes| - 1, [], c.code))
    ensures r.Ok? ==> !NoChain(c, |c.nodes| - 1, [], c.code) && Leads(c, |c.nodes| - 1, [], c.code, r.value.bundle.steps)
    ensures r.Ok? ==> WholeChain(c, r.value.bundle) && forall j | 0 <= j < |r.value.bundle.steps| :: |r.value.bundle.steps[j].generated| == 1
    ensures r.Ok? ==> r.value.nodes == ReportedNodes(r.value.bundle.steps)
    ensures |c.nodes| == |c.policies| ==> CompleteAttempts(planner.attempts) == if r.Ok? then 1 else 0
  {
    hide WholeChain, PlacedSuffix, LastSpecific, TotalExamined, Stops, NoChain, Leads;
    if |c.nodes| != |c.policies| {
      return Err(InvalidPlan), null;
    }
    var search := new Planner(c);
    planner := search;
    if !BudgetAdmits(c.budget, |c.nodes|) {
      return Err(AllocationUnavailable), planner;
    }
    NothingPlaced(c.nodes);
    var found := search.Descend(|c.nodes| - 1, [], c.code);
    if found.Err? {
      return Err(found.error), planner;
    }
    if found.value.None? {
      return Err(search.lastError), planner;
    }
    StepsHaveOneImage(c, found.value.value);
    return Ok(PlannedChain(found.value.value, ReportedNodes(found.value.value.steps))), planner;
  }

  lemma NothingPlaced(nodes: seq<OriginalNode>)
    ensures PlacedSuffix(nodes, [])
  {
  }
}
