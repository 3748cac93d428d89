/** Budgets of the neighbour search across foreign owners: src/engine_foreign.rs and src/neighbor_cross_function.rs. */
module ForeignSearch {
  import opened Wrappers
  import opened Contracts

  datatype Domain = Victims | JointPairs | VictimImages | SelectedImages | OtherDomain

  datatype Run = Run(domain: Domain, examined: nat)

  type Evidence = seq<Run>

  /** All examined candidates of one domain. */
  function Examined(search: Evidence, domain: Domain): nat {
    if search == [] then 0
    else Examined(search[..|search| - 1], domain) + if search[|search| - 1].domain == domain then search[|search| - 1].examined else 0
  }

  datatype Work = Work(victims: nat, pairs: nat) {
    function Plus(search: Evidence): Work {
      Work(victims + Examined(search, Victims), pairs + Examined(search, JointPairs))
    }

    predicate Counted() {
      victims < USIZE && pairs < USIZE
    }
  }

  const USIZE := 0x1_0000_0000_0000_0000

  lemma {:induction false} ExaminedGrows(search: Evidence, k: nat, domain: Domain)
    requires k <= |search|
    ensures Examined(search[..k], domain) <= Examined(search, domain)
    decreases |search|
  {
    if k < |search| {
      ExaminedGrows(search[..|search| - 1], k, domain);
      assert search[..|search| - 1][..k] == search[..k];
    } else {
      assert search[..k] == search;
    }
  }

  /** Checked addition run by run: it fails exactly when a total does not fit. */
  method AddWork(used: Work, search: Evidence) returns (r: Option<Work>)
    requires used.Counted()
    ensures r == if used.Plus(search).Counted() then Some(used.Plus(search)) else None
  {
    var total := used;
    var k := 0;
    assert search[..0] == [];
    while k < |search|
      invariant k <= |search| && total == used.Plus(search[..k]) && total.Counted()
    {
      var run := search[k];
      assert search[..k + 1][..k] == search[..k];
      ExaminedGrows(search, k + 1, Victims);
      ExaminedGrows(search, k + 1, JointPairs);
      if run.domain == Victims {
        if total.victims + run.examined >= USIZE {
          return None;
        }
        total := total.(victims := total.victims + run.examined);
      } else if run.domain == JointPairs {
        if total.pairs + run.examined >= USIZE {
          return None;
        }
        total := total.(pairs := total.pairs + run.examined);
      }
      k := k + 1;
    }
    assert search[..k] == search;
    r := Some(total);
  }

  // ---------------------------------------------------------------- requests

  datatype Tactic = NeighborEviction | OtherTactic(id: nat)

  datatype Attempt = Attempt(tactic: Tactic, search: Evidence, refusal: Option<Refusal>)

  datatype Failure = Failure(reason: Refusal, attempts: seq<Attempt>)

  datatype Allocation = Allocation(
    ranges: seq<Interval>, preferredAddress: Option<U64>, maxCandidates: nat, maxMappings: nat, maxMappedBytes: nat)

  datatype Site = Site(logicalPc: U64, allocation: Allocation)

  datatype Limits = Limits(maxVictims: nat, maxPairs: nat)

  datatype Policy = Policy(forcedTactic: Option<Tactic>, forcedVictim: Option<U64>, limits: Limits)

  /** What the two-owner planner answers for one foreign site. */
  datatype Leaf = Planned(search: Evidence) | Rejected(search: Evidence, reason: Refusal)

  datatype Outcome = LocalPlan(plan: nat) | ForeignPlan(head: U64, evidence: seq<Attempt>) | Failed(failure: Failure)

  predicate OpenedVictims(search: Evidence) {
    exists k | 0 <= k < |search| :: search[k].domain == Victims
  }

  /** The planner stays inside what is left and looks at its one forced victim once it opens that run. */
  predicate WithinLimits(answer: Leaf, left: Limits) {
    && Examined(answer.search, Victims) <= left.maxVictims && Examined(answer.search, JointPairs) <= left.maxPairs
    && (answer.Planned? || OpenedVictims(answer.search) ==> Examined(answer.search, Victims) == 1)
    && (!OpenedVictims(answer.search) ==> Examined(answer.search, JointPairs) == 0)
  }

  ghost predicate Honours(leaf: (Site, Limits) -> Leaf) {
    forall site, left :: WithinLimits(leaf(site, left), left)
  }

  predicate Eligible(policy: Policy, site: Site) {
    policy.forcedVictim.None? || policy.forcedVictim.value == site.logicalPc
  }

  function EligibleSites(policy: Policy, foreign: seq<Site>): seq<Site> {
    if foreign == [] then []
    else (if Eligible(policy, foreign[0]) then [foreign[0]] else []) + EligibleSites(policy, foreign[1..])
  }

  lemma {:induction false} EligibleInParts(policy: Policy, first: seq<Site>, second: seq<Site>)
    ensures EligibleSites(policy, first + second) == EligibleSites(policy, first) + EligibleSites(policy, second)
  {
    if first == [] {
      assert first + second == second;
    } else {
      assert (first + second)[1..] == first[1..] + second;
      EligibleInParts(policy, first[1..], second);
    }
  }

  /** Each site stays or goes on its own, in place: all stay without a forced victim, else only those at its head. */
  lemma EligibleSitesExactly(policy: Policy, before: seq<Site>, site: Site, after: seq<Site>)
    ensures EligibleSites(policy, before + [site] + after)
         == EligibleSites(policy, before)
            + (if policy.forcedVictim == None || policy.forcedVictim == Some(site.logicalPc) then [site] else [])
            + EligibleSites(policy, after)
  {
    EligibleInParts(policy, before + [site], after);
    EligibleInParts(policy, before, [site]);
    assert [site][1..] == [];
  }

  lemma {:induction false} AllAreEligible(policy: Policy, foreign: seq<Site>)
    requires policy.forcedVictim.None?
    ensures EligibleSites(policy, foreign) == foreign
  {
    if foreign != [] {
      AllAreEligible(policy, foreign[1..]);
    }
  }

  ghost predicate DistinctHeads(sites: seq<Site>) {
    forall i, j | 0 <= i < j < |sites| :: sites[i].logicalPc != sites[j].logicalPc
  }

  /** T3 work of all recorded attempts. */
  function TotalWork(attempts: seq<Attempt>): Work {
    if attempts == [] then Work(0, 0)
    else
      var earlier := TotalWork(attempts[..|attempts| - 1]);
      var last := attempts[|attempts| - 1];
      if last.tactic == NeighborEviction then earlier.Plus(last.search) else earlier
  }

  lemma TotalGrows(attempts: seq<Attempt>, last: Attempt)
    ensures TotalWork(attempts + [last])
         == if last.tactic == NeighborEviction then TotalWork(attempts).Plus(last.search) else TotalWork(attempts)
  {
    assert (attempts + [last])[..|attempts|] == attempts;
  }

  /** One foreign site under the allocation rule, with the admission visit charged when no victim run was opened. */
  function Tried(leaf: (Site, Limits) -> Leaf, allocation: Allocation, site: Site, left: Limits): Leaf {
    var answer := if site.allocation == allocation then leaf(site, left) else Rejected([], InvalidRange);
    if answer.Rejected? && !OpenedVictims(answer.search) then answer.(search := answer.search + [Run(Victims, 1)]) else answer
  }

  /** A site of another allocation is never searched; every rejection accounts for at least the visit of its victim. */
  lemma TriedExactly(leaf: (Site, Limits) -> Leaf, allocation: Allocation, site: Site, left: Limits)
    ensures var answer, searched := Tried(leaf, allocation, site, left), leaf(site, left);
            && (site.allocation != allocation ==> answer == Rejected([Run(Victims, 1)], InvalidRange))
            && (site.allocation == allocation ==>
                  && (answer.Planned? <==> searched.Planned?)
                  && (answer.Rejected? ==> answer.reason == searched.reason)
                  && answer.search == if searched.Planned? || exists k | 0 <= k < |searched.search| :: searched.search[k].domain == Victims
                                      then searched.search else searched.search + [Run(Victims, 1)])
  {
  }

  function Left(policy: Policy, used: Work): Limits
    requires Within(policy, used)
  {
    Limits(policy.limits.maxVictims - used.victims, policy.limits.maxPairs - used.pairs)
  }

  predicate Within(policy: Policy, used: Work) {
    used.victims <= policy.limits.maxVictims && used.pairs <= policy.limits.maxPairs
  }

  predicate Spent(policy: Policy, used: Work) {
    used.victims == policy.limits.maxVictims || used.pairs == policy.limits.maxPairs
  }

  function AttemptOf(answer: Leaf): Attempt {
    Attempt(NeighborEviction, answer.search, if answer.Planned? then None else Some(answer.reason))
  }

  lemma OneTryStaysWithin(leaf: (Site, Limits) -> Leaf, allocation: Allocation, policy: Policy, site: Site, used: Work)
    requires Honours(leaf) && Within(policy, used) && !Spent(policy, used)
    ensures var answer := Tried(leaf, allocation, site, Left(policy, used));
            Within(policy, used.Plus(answer.search)) && Examined(answer.search, Victims) == 1
  {
    hide Examined, OpenedVictims;
    var left := Left(policy, used);
    assert WithinLimits(leaf(site, left), left);
    hide Honours;
    NothingExamined();
    var answer := if site.allocation == allocation then leaf(site, left) else Rejected([], InvalidRange);
    if answer.Rejected? && !OpenedVictims(answer.search) {
      AdmissionVisit(answer.search);
    }
  }

  lemma NothingExamined()
    ensures forall domain :: Examined([], domain) == 0
    ensures !OpenedVictims([])
  {
  }

  /** A search without a victim run is charged one visit and no pair. */
  lemma AdmissionVisit(search: Evidence)
    requires !OpenedVictims(search)
    ensures Examined(search + [Run(Victims, 1)], Victims) == 1
    ensures Examined(search + [Run(Victims, 1)], JointPairs) == Examined(search, JointPairs)
  {
    NoVictimsExamined(search);
    var more := search + [Run(Victims, 1)];
    assert more[..|search|] == search;
  }

  lemma {:induction false} NoVictimsExamined(search: Evidence)
    requires !OpenedVictims(search)
    ensures Examined(search, Victims) == 0
  {
    if search != [] {
      var before := search[..|search| - 1];
      assert forall k | 0 <= k < |before| :: before[k] == search[k];
      NoVictimsExamined(before);
    }
  }

  /**
   * After `base`, sites were tried in order: each attempt is the answer for its site under what the earlier attempts
   * left of the budget, the budget was not spent before it, and all but the last were refusals.
   */
  ghost predicate Recorded(
    leaf: (Site, Limits) -> Leaf, allocation: Allocation, policy: Policy, base: seq<Attempt>, attempts: seq<Attempt>, sites: seq<Site>)
    decreases |attempts|
  {
    if |attempts| <= |base| then attempts == base
    else
      var n := |attempts| - 1;
      var used := TotalWork(attempts[..n]);
      && n - |base| < |sites| && Recorded(leaf, allocation, policy, base, attempts[..n], sites)
      && (n > |base| ==> attempts[n - 1].refusal.Some?)
      && Within(policy, used) && !Spent(policy, used)
      && attempts[n] == AttemptOf(Tried(leaf, allocation, sites[n - |base|], Left(policy, used)))
  }

  lemma RecordedGrows(
    leaf: (Site, Limits) -> Leaf, allocation: Allocation, policy: Policy, base: seq<Attempt>, attempts: seq<Attempt>, sites: seq<Site>)
    requires Recorded(leaf, allocation, policy, base, attempts, sites) && |base| <= |attempts| < |base| + |sites|
    requires |attempts| > |base| ==> attempts[|attempts| - 1].refusal.Some?
    requires Within(policy, TotalWork(attempts)) && !Spent(policy, TotalWork(attempts))
    ensures var site := sites[|attempts| - |base|];
            var answer := Tried(leaf, allocation, site, Left(policy, TotalWork(attempts)));
            Recorded(leaf, allocation, policy, base, attempts + [AttemptOf(answer)], sites)
  {
    hide TotalWork, Tried, Within, Spent, Left, AttemptOf;
    var next := AttemptOf(Tried(leaf, allocation, sites[|attempts| - |base|], Left(policy, TotalWork(attempts))));
    assert (attempts + [next])[..|attempts|] == attempts;
  }

  /** Every try charges exactly one victim, so the victims left over bound the tries. */
  lemma {:induction false} TriesAreCharged(
    leaf: (Site, Limits) -> Leaf, allocation: Allocation, policy: Policy, base: seq<Attempt>, attempts: seq<Attempt>, sites: seq<Site>)
    requires Honours(leaf) && Recorded(leaf, allocation, policy, base, attempts, sites)
    ensures base <= attempts && |attempts| <= |base| + |sites|
    ensures TotalWork(attempts).victims == TotalWork(base).victims + |attempts| - |base|
    decreases |attempts|
  {
    hide Honours, Tried, Examined, TotalWork;
    if |attempts| > |base| {
      var n := |attempts| - 1;
      var before := attempts[..n];
      TriesAreCharged(leaf, allocation, policy, base, before, sites);
      OneTryStaysWithin(leaf, allocation, policy, sites[n - |base|], TotalWork(before));
      assert attempts == before + [attempts[n]];
      TotalGrows(before, attempts[n]);
    }
  }

  // ---------------------------------------------------------------- the engine's continuation

  ghost predicate ForeignAllowed(policy: Policy, local: Failure, foreign: seq<Site>) {
    && foreign != [] && (policy.forcedTactic.None? || policy.forcedTactic.value == NeighborEviction)
    && local.attempts != [] && local.attempts[|local.attempts| - 1].tactic == NeighborEviction
  }

  method LocalWork(attempts: seq<Attempt>) returns (r: Option<Work>)
    ensures r.Some? ==> r.value == TotalWork(attempts) && r.value.Counted()
    ensures TotalWork(attempts).Counted() ==> r.Some?
  {
    var used := Work(0, 0);
    var k := 0;
    assert attempts[..0] == [];
    while k < |attempts|
      invariant k <= |attempts| && used == TotalWork(attempts[..k]) && used.Counted()
    {
      assert attempts[..k + 1] == attempts[..k] + [attempts[k]];
      TotalGrows(attempts[..k], attempts[k]);
      PrefixWork(attempts, k + 1);
      if attempts[k].tactic == NeighborEviction {
        var more := AddWork(used, attempts[k].search);
        if more.None? {
          return None;
        }
        used := more.value;
      }
      k := k + 1;
    }
    assert attempts[..k] == attempts;
    r := Some(used);
  }

  lemma {:induction false} PrefixWork(attempts: seq<Attempt>, k: nat)
    requires k <= |attempts|
    ensures TotalWork(attempts[..k]).victims <= TotalWork(attempts).victims
    ensures TotalWork(attempts[..k]).pairs <= TotalWork(attempts).pairs
    decreases |attempts|
  {
    if k < |attempts| {
      PrefixWork(attempts[..|attempts| - 1], k);
      assert attempts[..|attempts| - 1][..k] == attempts[..k];
    } else {
      assert attempts[..k] == attempts;
    }
  }

  ghost predicate IsHeadOf(sites: seq<Site>, pc: U64) {
    exists i | 0 <= i < |sites| :: sites[i].logicalPc == pc
  }

  lemma HeadsGrow(seen: seq<Site>, site: Site, heads: set<U64>)
    requires forall pc | pc in heads :: IsHeadOf(seen, pc)
    ensures forall pc | pc in heads + {site.logicalPc} :: IsHeadOf(seen + [site], pc)
  {
    forall pc | pc in heads + {site.logicalPc} ensures IsHeadOf(seen + [site], pc) {
      if pc in heads {
        var i :| 0 <= i < |seen| && seen[i].logicalPc == pc;
        assert (seen + [site])[i] == seen[i];
      } else {
        assert (seen + [site])[|seen|] == site;
      }
    }
  }

  /** The first eligible head that was seen before, if any. */
  method RepeatedHead(sites: seq<Site>) returns (repeated: Option<U64>)
    ensures repeated.None? <==> DistinctHeads(sites)
    ensures repeated.Some? ==> IsHeadOf(sites, repeated.value)
  {
    var heads: set<U64> := {};
    var k := 0;
    while k < |sites|
      invariant k <= |sites| && DistinctHeads(sites[..k])
      invariant forall i | 0 <= i < k :: sites[i].logicalPc in heads
      invariant forall pc | pc in heads :: IsHeadOf(sites[..k], pc)
    {
      if sites[k].logicalPc in heads {
        assert IsHeadOf(sites[..k], sites[k].logicalPc);
        return Some(sites[k].logicalPc);
      }
      HeadsGrow(sites[..k], sites[k], heads);
      assert sites[..k + 1] == sites[..k] + [sites[k]];
      heads := heads + {sites[k].logicalPc};
      k := k + 1;
    }
    assert sites[..k] == sites;
    repeated := None;
  }

  /** The answer of a continued search: which attempts it records beyond the local ones, and for which sites. */
  ghost predicate Continued(
    leaf: (Site, Limits) -> Leaf, allocation: Allocation, policy: Policy, local: Failure, sites: seq<Site>,
    r: Outcome, attempts: seq<Attempt>)
  {
    && |local.attempts| <= |attempts| <= |local.attempts| + |sites|
    && Recorded(leaf, allocation, policy, local.attempts, attempts, sites)
    && Within(policy, TotalWork(attempts))
    && match r
       case LocalPlan(_) => false
       case ForeignPlan(head, evidence) =>
         && evidence == attempts && |attempts| > |local.attempts| && attempts[|attempts| - 1].refusal.None?
         && head == sites[|attempts| - |local.attempts| - 1].logicalPc
       case Failed(failure) =>
         && failure.attempts == attempts && (|attempts| == |local.attempts| + |sites| || Spent(policy, TotalWork(attempts)))
         && (if |attempts| > |local.attempts| then attempts[|attempts| - 1].refusal == Some(failure.reason)
             else failure.reason == local.reason)
  }

  /** The next try would leave the policy: its evidence is recorded if it was a refusal, and the plan is refused. */
  ghost predicate Exceeded(
    leaf: (Site, Limits) -> Leaf, allocation: Allocation, policy: Policy, local: Failure, sites: seq<Site>,
    r: Outcome, attempts: seq<Attempt>)
  {
    && |local.attempts| <= |attempts| < |local.attempts| + |sites|
    && Recorded(leaf, allocation, policy, local.attempts, attempts, sites)
    && Within(policy, TotalWork(attempts)) && !Spent(policy, TotalWork(attempts))
    && var answer := Tried(leaf, allocation, sites[|attempts| - |local.attempts|], Left(policy, TotalWork(attempts)));
       && !Within(policy, TotalWork(attempts).Plus(answer.search))
       && r == Failed(Failure(InvalidPlan, if answer.Planned? then attempts else attempts + [AttemptOf(answer)]))
  }

  /**
   * Local result first; then, within what the local T3 runs left of the policy, one try per eligible foreign head.
   * `overBudget` marks the two exits for a planner that spent more than it was given.
   */
  method PlanAfterWithForeign(
    local: Result<nat, Failure>, policy: Policy, allocation: Allocation, foreign: seq<Site>, leaf: (Site, Limits) -> Leaf)
    returns (r: Outcome, overBudget: bool)
    requires policy.limits.maxVictims < USIZE && policy.limits.maxPairs < USIZE
    ensures !local.Err? ==> r == LocalPlan(local.value) && !overBudget
    ensures local.Err? && !ForeignAllowed(policy, local.error, foreign) ==> r == Failed(local.error) && !overBudget
    ensures local.Err? && ForeignAllowed(policy, local.error, foreign) ==>
              var used := TotalWork(local.error.attempts);
              var sites := EligibleSites(policy, foreign);
              if !Within(policy, used) then overBudget && r == Failed(Failure(InvalidPlan, local.error.attempts))
              else if Spent(policy, used) then !overBudget && r == Failed(local.error)
              else if !DistinctHeads(sites) then
                !overBudget
                && r == Failed(Failure(OwnershipConflict, local.error.attempts + [Attempt(NeighborEviction, [], Some(OwnershipConflict))]))
              else if overBudget then exists attempts :: Exceeded(leaf, allocation, policy, local.error, sites, r, attempts)
              else exists attempts :: Continued(leaf, allocation, policy, local.error, sites, r, attempts)
    ensures local.Err? && Within(policy, TotalWork(local.error.attempts)) && Honours(leaf) ==> !overBudget
  {
    hide Honours, TotalWork, Examined, EligibleSites, Tried, DistinctHeads, Recorded;
    if !local.Err? {
      return LocalPlan(local.value), false;
    }
    var base := local.error.attempts;
    var failure := local.error;
    if foreign == [] || (policy.forcedTactic.Some? && policy.forcedTactic.value != NeighborEviction)
       || base == [] || base[|base| - 1].tactic != NeighborEviction {
      return Failed(failure), false;
    }
    var counted := LocalWork(base);
    if counted.None? || !Within(policy, counted.value) {
      return Failed(Failure(InvalidPlan, base)), true;
    }
    var used := counted.value;
    if Spent(policy, used) {
      return Failed(failure), false;
    }
    var sites := EligibleSites(policy, foreign);
    var repeated := RepeatedHead(sites);
    if repeated.Some? {
      return Failed(Failure(OwnershipConflict, base + [Attempt(NeighborEviction, [], Some(OwnershipConflict))])), false;
    }
    var k := 0;
    RecordedNothing(leaf, allocation, policy, base, sites);
    while k < |sites|
      invariant k <= |sites| && |failure.attempts| == |base| + k && Within(policy, used)
      invariant used == TotalWork(failure.attempts) && used.Counted()
      invariant Recorded(leaf, allocation, policy, base, failure.attempts, sites)
      invariant if k == 0 then failure.reason == local.error.reason else failure.attempts[|base| + k - 1].refusal == Some(failure.reason)
    {
      if Spent(policy, used) {
        ghost var done := failure.attempts;
        assert Continued(leaf, allocation, policy, local.error, sites, Failed(failure), done);
        return Failed(failure), false;
      }
      var answer := Tried(leaf, allocation, sites[k], Left(policy, used));
      var total := AddWork(used, answer.search);
      RecordedGrows(leaf, allocation, policy, base, failure.attempts, sites);
      TotalGrows(failure.attempts, AttemptOf(answer));
      if Honours(leaf) {
        OneTryStaysWithin(leaf, allocation, policy, sites[k], used);
      }
      var attempts := failure.attempts + [AttemptOf(answer)];
      if answer.Planned? {
        if total.None? || !Within(policy, total.value) {
          r := Failed(Failure(InvalidPlan, failure.attempts));
          assert Exceeded(leaf, allocation, policy, local.error, sites, r, failure.attempts);
          return r, true;
        }
        r := ForeignPlan(sites[k].logicalPc, attempts);
        assert Continued(leaf, allocation, policy, local.error, sites, r, attempts);
        return r, false;
      }
      ghost var before := failure.attempts;
      failure := Failure(answer.reason, attempts);
      if total.None? || !Within(policy, total.value) {
        r := Failed(failure.(reason := InvalidPlan));
        assert Exceeded(leaf, allocation, policy, local.error, sites, r, before);
        return r, true;
      }
      used := total.value;
      k := k + 1;
    }
    assert Continued(leaf, allocation, policy, local.error, sites, Failed(failure), failure.attempts);
    return Failed(failure), false;
  }

  lemma RecordedNothing(leaf: (Site, Limits) -> Leaf, allocation: Allocation, policy: Policy, base: seq<Attempt>, sites: seq<Site>)
    ensures Recorded(leaf, allocation, policy, base, base, sites)
  {
  }

  /** However the search ends, recorded victims and pairs stay inside the policy and no head is tried twice. */
  lemma ContinuationStaysInBudget(
    leaf: (Site, Limits) -> Leaf, allocation: Allocation, policy: Policy, local: Failure, sites: seq<Site>,
    r: Outcome, attempts: seq<Attempt>)
    requires Honours(leaf) && Continued(leaf, allocation, policy, local, sites, r, attempts)
    ensures TotalWork(attempts).victims <= policy.limits.maxVictims && TotalWork(attempts).pairs <= policy.limits.maxPairs
    ensures |attempts| - |local.attempts| <= |sites|
    ensures |attempts| - |local.attempts| == TotalWork(attempts).victims - TotalWork(local.attempts).victims
  {
    hide TotalWork, Honours;
    TriesAreCharged(leaf, allocation, policy, local.attempts, attempts, sites);
  }
}
