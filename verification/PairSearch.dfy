/** The joint search of one forced victim: the candidate loops of src/neighbor_cross_function.rs. */
module PairSearch {
  import opened Wrappers
  import opened Contracts
  import opened ForeignSearch

  /** Answers of the planner's surroundings; none stands for success. */
  datatype World = World(
    unprepared: Option<Refusal>,
    disqualified: Option<Refusal>,
    victimSlots: nat,
    selectedSlots: nat,
    placeVictim: nat -> Option<Refusal>,
    placeSelected: (nat, nat) -> Option<Refusal>,
    compose: (nat, nat) -> Option<Refusal>)

  /** Why a pair of candidate slots is refused, if it is. */
  function PairRefusal(w: World, pair: (nat, nat)): Option<Refusal> {
    if w.placeSelected(pair.0, pair.1).Some? then w.placeSelected(pair.0, pair.1) else w.compose(pair.0, pair.1)
  }

  /** All pairs from here on: victim slots in order, unplaceable ones skipped, and under each the selected slots in order. */
  function PairsFrom(w: World, v: nat, s: nat): seq<(nat, nat)>
    requires v <= w.victimSlots && s <= w.selectedSlots
    decreases w.victimSlots - v, w.selectedSlots - s
  {
    if v == w.victimSlots then []
    else if s == w.selectedSlots || (s == 0 && w.placeVictim(v).Some?) then PairsFrom(w, v + 1, 0)
    else [(v, s)] + PairsFrom(w, v, s + 1)
  }

  function Pairs(w: World): seq<(nat, nat)> {
    PairsFrom(w, 0, 0)
  }

  predicate Earlier(p: (nat, nat), q: (nat, nat)) {
    p.0 < q.0 || (p.0 == q.0 && p.1 < q.1)
  }

  lemma {:induction false} PairsFromExactly(w: World, v: nat, s: nat)
    requires v <= w.victimSlots && s <= w.selectedSlots && (0 < s && v < w.victimSlots ==> w.placeVictim(v).None?)
    ensures forall p :: p in PairsFrom(w, v, s) <==>
                          && p.0 < w.victimSlots && p.1 < w.selectedSlots && w.placeVictim(p.0).None?
                          && (v < p.0 || (v == p.0 && s <= p.1))
    ensures forall i, j | 0 <= i < j < |PairsFrom(w, v, s)| :: Earlier(PairsFrom(w, v, s)[i], PairsFrom(w, v, s)[j])
    decreases w.victimSlots - v, w.selectedSlots - s
  {
    if v < w.victimSlots {
      if s == w.selectedSlots || (s == 0 && w.placeVictim(v).Some?) {
        PairsFromExactly(w, v + 1, 0);
      } else {
        PairsFromExactly(w, v, s + 1);
        var rest := PairsFrom(w, v, s + 1);
        assert PairsFrom(w, v, s) == [(v, s)] + rest;
        forall j | 0 <= j < |rest| ensures Earlier((v, s), rest[j]) {
          assert rest[j] in rest;
        }
      }
    }
  }

  /** Every selected slot under every placeable victim slot, once, row by row. */
  lemma PairsExactly(w: World)
    ensures forall p :: p in Pairs(w) <==> p.0 < w.victimSlots && p.1 < w.selectedSlots && w.placeVictim(p.0).None?
    ensures forall i, j | 0 <= i < j < |Pairs(w)| :: Earlier(Pairs(w)[i], Pairs(w)[j])
  {
    hide PairsFrom;
    PairsFromExactly(w, 0, 0);
  }

  ghost predicate AllRefused(w: World, pairs: seq<(nat, nat)>) {
    forall k | 0 <= k < |pairs| :: PairRefusal(w, pairs[k]).Some?
  }

  datatype Answer = Answer(search: Evidence, accepted: Option<(nat, nat)>, refusal: Option<Refusal>, limitHit: bool)

  /** The specification: the first pair that composes within the limit, or the refusal of the last pair looked at. */
  ghost predicate Searched(w: World, maxPairs: nat, examined: nat, r: Answer) {
    var pairs := Pairs(w);
    && examined <= |pairs| && examined <= maxPairs
    && match r.accepted
       case Some(pair) =>
         && examined > 0 && pair == pairs[examined - 1] && PairRefusal(w, pair).None? && AllRefused(w, pairs[..examined - 1])
         && r.refusal.None? && !r.limitHit
       case None =>
         && AllRefused(w, pairs[..examined]) && (r.limitHit <==> maxPairs < |pairs|)
         && examined == (if r.limitHit then maxPairs else |pairs|)
         && r.refusal.Some? && (examined > 0 ==> r.refusal == PairRefusal(w, pairs[examined - 1]))
  }

  /** Runs 0, 1 and 2 are the victims, the pairs and the victim images; the selected images of each placed victim follow. */
  ghost predicate RunsOf(search: Evidence, pairsExamined: nat) {
    && |search| >= 3 && search[0] == Run(Victims, 1) && search[1] == Run(JointPairs, pairsExamined)
    && search[2].domain == VictimImages
    && forall k | 3 <= k < |search| :: search[k].domain == SelectedImages
  }

  /** The recorded number of pairs looked at. */
  function PairsLookedAt(search: Evidence): nat {
    if |search| > 1 then search[1].examined else 0
  }

  function Visit(search: Evidence, id: nat): Evidence
    requires id < |search|
  {
    search[id := search[id].(examined := search[id].examined + 1)]
  }

  lemma PairsAreRecorded(search: Evidence, pairsExamined: nat)
    requires RunsOf(search, pairsExamined)
    ensures PairsLookedAt(search) == pairsExamined
  {
  }

  lemma VisitKeepsRuns(search: Evidence, pairsExamined: nat, id: nat)
    requires RunsOf(search, pairsExamined) && 1 <= id < |search|
    ensures RunsOf(Visit(search, id), if id == 1 then pairsExamined + 1 else pairsExamined)
    ensures |Visit(search, id)| == |search|
  {
  }

  lemma ImagesKeepRuns(search: Evidence, pairsExamined: nat)
    requires RunsOf(search, pairsExamined)
    ensures RunsOf(search + [Run(SelectedImages, 0)], pairsExamined)
  {
  }

  /** What the loops know: the pairs looked at so far, all refused, and the refusal of the last one. */
  ghost predicate Looking(w: World, maxPairs: nat, seen: seq<(nat, nat)>, pairsExamined: nat, jointError: Option<Refusal>) {
    && pairsExamined == |seen| <= maxPairs && AllRefused(w, seen)
    && jointError == if seen == [] then None else PairRefusal(w, seen[|seen| - 1])
  }

  lemma LookedAt(w: World, maxPairs: nat, seen: seq<(nat, nat)>, pairsExamined: nat, jointError: Option<Refusal>, pair: (nat, nat))
    requires Looking(w, maxPairs, seen, pairsExamined, jointError) && pairsExamined < maxPairs && PairRefusal(w, pair).Some?
    ensures Looking(w, maxPairs, seen + [pair], pairsExamined + 1, PairRefusal(w, pair))
  {
    hide PairRefusal;
  }

  lemma LimitHit(w: World, maxPairs: nat, seen: seq<(nat, nat)>, jointError: Option<Refusal>, search: Evidence)
    requires Looking(w, maxPairs, seen, maxPairs, jointError) && maxPairs > 0 && seen < Pairs(w)
    ensures jointError.Some? && Searched(w, maxPairs, maxPairs, Answer(search, None, jointError, true))
  {
    hide PairRefusal, Pairs;
    assert Pairs(w)[..|seen|] == seen;
    assert seen[|seen| - 1] == Pairs(w)[|seen| - 1];
  }

  lemma FoundPair(w: World, maxPairs: nat, seen: seq<(nat, nat)>, pairsExamined: nat, jointError: Option<Refusal>, search: Evidence)
    requires Looking(w, maxPairs, seen, pairsExamined, jointError) && pairsExamined < maxPairs && seen < Pairs(w)
    requires PairRefusal(w, Pairs(w)[|seen|]).None?
    ensures Searched(w, maxPairs, pairsExamined + 1, Answer(search, Some(Pairs(w)[|seen|]), None, false))
  {
    hide PairRefusal, Pairs;
    assert Pairs(w)[..|seen|] == seen;
  }

  lemma LookedAtAll(w: World, maxPairs: nat, pairsExamined: nat, jointError: Option<Refusal>, last: Refusal, search: Evidence)
    requires Looking(w, maxPairs, Pairs(w), pairsExamined, jointError)
    ensures Searched(w, maxPairs, pairsExamined, Answer(search, None, if jointError.Some? then jointError else Some(last), false))
  {
    hide PairRefusal, Pairs;
    assert Pairs(w)[..|Pairs(w)|] == Pairs(w);
  }

  /** The guards before any candidate is looked at. */
  predicate Opens(w: World, limits: Limits) {
    w.unprepared.None? && limits.maxVictims > 0 && limits.maxPairs > 0 && w.victimSlots > 0 && w.selectedSlots > 0
  }

  /** What the search answers, guards and qualification first. */
  ghost predicate Answered(w: World, limits: Limits, r: Answer) {
    if w.unprepared.Some? then r == Answer([], None, w.unprepared, false)
    else if !Opens(w, limits) then r == Answer([], None, Some(AllocationUnavailable), false)
    else if w.disqualified.Some? then r == Answer([Run(Victims, 1), Run(JointPairs, 0)], None, w.disqualified, false)
    else Searched(w, limits.maxPairs, PairsLookedAt(r.search), r) && RunsOf(r.search, PairsLookedAt(r.search))
  }

  method Search(w: World, limits: Limits) returns (r: Answer)
    ensures Answered(w, limits, r)
  {
    if w.unprepared.Some? {
      return Answer([], None, w.unprepared, false);
    }
    if !Opens(w, limits) {
      return Answer([], None, Some(AllocationUnavailable), false);
    }
    var search := [Run(Victims, 0), Run(JointPairs, 0)];
    search := Visit(search, 0);
    assert search == [Run(Victims, 1), Run(JointPairs, 0)];
    if w.disqualified.Some? {
      return Answer(search, None, w.disqualified, false);
    }
    search := search + [Run(VictimImages, 0)];
    r := SearchPairs(w, limits.maxPairs, search);
  }

  method SearchPairs(w: World, maxPairs: nat, begun: Evidence) returns (r: Answer)
    requires |begun| >= 3 && RunsOf(begun, 0) && maxPairs > 0
    ensures Searched(w, maxPairs, PairsLookedAt(r.search), r) && RunsOf(r.search, PairsLookedAt(r.search))
  {
    hide PairRefusal, Looking, Searched, RunsOf, AllRefused, PairsLookedAt;
    var search := begun;
    var pairsExamined := 0;
    var lastError := NoPatchWindow;
    var jointError: Option<Refusal> := None;
    ghost var seen: seq<(nat, nat)> := [];
    NothingLookedAt(w, maxPairs);
    var v := 0;
    while v < w.victimSlots
      invariant v <= w.victimSlots && Pairs(w) == seen + PairsFrom(w, v, 0)
      invariant Looking(w, maxPairs, seen, pairsExamined, jointError) && RunsOf(search, pairsExamined) && |search| >= 3
    {
      VisitKeepsRuns(search, pairsExamined, 2);
      search := Visit(search, 2);
      var misplaced := w.placeVictim(v);
      if misplaced.Some? {
        lastError := misplaced.value;
      } else {
        ImagesKeepRuns(search, pairsExamined);
        search := search + [Run(SelectedImages, 0)];
        var images := |search| - 1;
        var s := 0;
        while s < w.selectedSlots
          invariant s <= w.selectedSlots && Pairs(w) == seen + PairsFrom(w, v, s)
          invariant Looking(w, maxPairs, seen, pairsExamined, jointError)
          invariant RunsOf(search, pairsExamined) && images == |search| - 1 && images >= 3
        {
          NextPair(w, v, s, seen);
          LookingCounts(w, maxPairs, seen, pairsExamined, jointError);
          if pairsExamined == maxPairs {
            PairsAreRecorded(search, pairsExamined);
            LimitHit(w, maxPairs, seen, jointError, search);
            var refusal := if jointError.Some? then jointError.value else AllocationUnavailable;
            return Answer(search, None, Some(refusal), true);
          }
          VisitKeepsRuns(search, pairsExamined, 1);
          search := Visit(search, 1);
          VisitKeepsRuns(search, pairsExamined + 1, images);
          search := Visit(search, images);
          var refused := Try(w, v, s);
          if refused.None? {
            PairsAreRecorded(search, pairsExamined + 1);
            FoundPair(w, maxPairs, seen, pairsExamined, jointError, search);
            return Answer(search, Some((v, s)), None, false);
          }
          LookedAt(w, maxPairs, seen, pairsExamined, jointError, (v, s));
          seen := seen + [(v, s)];
          pairsExamined := pairsExamined + 1;
          jointError := refused;
          s := s + 1;
        }
      }
      v := v + 1;
    }
    assert Pairs(w) == seen;
    PairsAreRecorded(search, pairsExamined);
    LookedAtAll(w, maxPairs, pairsExamined, jointError, lastError, search);
    return Answer(search, None, if jointError.Some? then jointError else Some(lastError), false);
  }

  method Try(w: World, v: nat, s: nat) returns (refused: Option<Refusal>)
    ensures refused == PairRefusal(w, (v, s))
  {
    refused := w.placeSelected(v, s);
    if refused.None? {
      refused := w.compose(v, s);
    }
  }

  lemma NothingLookedAt(w: World, maxPairs: nat)
    ensures Looking(w, maxPairs, [], 0, None) && Pairs(w) == [] + PairsFrom(w, 0, 0)
  {
  }

  lemma LookingCounts(w: World, maxPairs: nat, seen: seq<(nat, nat)>, pairsExamined: nat, jointError: Option<Refusal>)
    requires Looking(w, maxPairs, seen, pairsExamined, jointError)
    ensures pairsExamined == |seen| <= maxPairs
  {
  }

  lemma NextPair(w: World, v: nat, s: nat, seen: seq<(nat, nat)>)
    requires v < w.victimSlots && s < w.selectedSlots && w.placeVictim(v).None?
    requires Pairs(w) == seen + PairsFrom(w, v, s)
    ensures seen < Pairs(w) && Pairs(w)[|seen|] == (v, s)
    ensures Pairs(w) == (seen + [(v, s)]) + PairsFrom(w, v, s + 1)
  {
    assert PairsFrom(w, v, s) == [(v, s)] + PairsFrom(w, v, s + 1);
  }

  /** The answer as the engine receives it. */
  function AsLeaf(r: Answer): Leaf {
    if r.accepted.Some? then Planned(r.search)
    else Rejected(r.search, if r.refusal.Some? then r.refusal.value else NoPatchWindow)
  }

  /** Whatever the search answers, early exits included, it spends one victim at most and no more pairs than it was given. */
  lemma SearchHonoursLimits(w: World, limits: Limits, r: Answer)
    requires Answered(w, limits, r)
    ensures WithinLimits(AsLeaf(r), limits)
  {
    if !Opens(w, limits) {
      NothingExamined();
    } else if w.disqualified.Some? {
      assert r.search == ([] + [Run(Victims, 1)]) + [Run(JointPairs, 0)] && r.search[0].domain == Victims;
      TwoRuns(Victims);
      TwoRuns(JointPairs);
    } else {
      hide Searched, Examined;
      SearchedWithin(w, limits.maxPairs, r);
      assert r.search[0].domain == Victims;
      ExaminedOf(r.search, PairsLookedAt(r.search), |r.search|);
      assert r.search[..|r.search|] == r.search;
    }
  }

  lemma TwoRuns(domain: Domain)
    ensures Examined(([] + [Run(Victims, 1)]) + [Run(JointPairs, 0)], domain) == if domain == Victims then 1 else 0
  {
    hide Examined;
    ExaminedLast([], Run(Victims, 1), domain);
    ExaminedLast([] + [Run(Victims, 1)], Run(JointPairs, 0), domain);
  }

  lemma SearchedWithin(w: World, maxPairs: nat, r: Answer)
    requires Searched(w, maxPairs, PairsLookedAt(r.search), r)
    ensures PairsLookedAt(r.search) <= maxPairs
  {
    hide PairRefusal, AllRefused, PairsLookedAt;
  }

  // ---------------------------------------------------------------- a planner that honours its limits

  /** The first of the leading n pairs that composes, or n. */
  function FirstGood(w: World, pairs: seq<(nat, nat)>, n: nat): (k: nat)
    requires n <= |pairs|
    ensures k <= n && AllRefused(w, pairs[..k]) && (k < n ==> PairRefusal(w, pairs[k]).None?)
  {
    if n == 0 then 0
    else
      var k := FirstGood(w, pairs, n - 1);
      assert pairs[..n] == pairs[..n - 1] + [pairs[n - 1]];
      if k < n - 1 || PairRefusal(w, pairs[n - 1]).None? then k else n
  }

  /** An answer of the search, computed from its specification. */
  function Reference(w: World, limits: Limits): (r: Answer)
    ensures Answered(w, limits, r)
  {
    if w.unprepared.Some? then Answer([], None, w.unprepared, false)
    else if !Opens(w, limits) then Answer([], None, Some(AllocationUnavailable), false)
    else if w.disqualified.Some? then Answer([Run(Victims, 1), Run(JointPairs, 0)], None, w.disqualified, false)
    else
      var pairs := Pairs(w);
      var n := if limits.maxPairs < |pairs| then limits.maxPairs else |pairs|;
      var k := FirstGood(w, pairs, n);
      var runs := (examined: nat) => [Run(Victims, 1), Run(JointPairs, examined), Run(VictimImages, w.victimSlots)];
      if k < n then Answer(runs(k + 1), Some(pairs[k]), None, false)
      else
        assert n > 0 ==> pairs[..n][n - 1] == pairs[n - 1];
        Answer(runs(n), None, if n > 0 then PairRefusal(w, pairs[n - 1]) else Some(NoPatchWindow), limits.maxPairs < |pairs|)
  }

  /** Any planner that answers as the search does, whatever surrounds each site, honours its limits; and there is one. */
  lemma SearchingPlannerHonours(worlds: Site -> World, leaf: (Site, Limits) -> Leaf)
    requires forall site, left :: AnswersLike(worlds(site), left, leaf(site, left))
    ensures Honours(leaf)
    ensures Honours((site, left) => AsLeaf(Reference(worlds(site), left)))
  {
    hide Answered, WithinLimits, AsLeaf;
    forall site, left ensures WithinLimits(leaf(site, left), left) {
      assert AnswersLike(worlds(site), left, leaf(site, left));
      var r :| Answered(worlds(site), left, r) && leaf(site, left) == AsLeaf(r);
      SearchHonoursLimits(worlds(site), left, r);
    }
    ReferencePlannerHonours(worlds);
  }

  ghost predicate AnswersLike(w: World, limits: Limits, leaf: Leaf) {
    exists r :: Answered(w, limits, r) && leaf == AsLeaf(r)
  }

  lemma ReferencePlannerHonours(worlds: Site -> World)
    ensures Honours((site, left) => AsLeaf(Reference(worlds(site), left)))
  {
    hide Answered, WithinLimits, AsLeaf, Reference;
    forall site, left ensures WithinLimits(AsLeaf(Reference(worlds(site), left)), left) {
      ReferenceHonours(worlds(site), left);
    }
  }

  lemma ReferenceHonours(w: World, limits: Limits)
    ensures WithinLimits(AsLeaf(Reference(w, limits)), limits)
  {
    hide Answered;
    SearchHonoursLimits(w, limits, Reference(w, limits));
  }

  lemma ExaminedLast(search: Evidence, last: Run, domain: Domain)
    ensures Examined(search + [last], domain) == Examined(search, domain) + if last.domain == domain then last.examined else 0
    ensures Examined([], domain) == 0
  {
    assert (search + [last])[..|search|] == search;
  }

  lemma {:induction false} ExaminedOf(search: Evidence, pairsExamined: nat, n: nat)
    requires RunsOf(search, pairsExamined) && 3 <= n <= |search|
    ensures Examined(search[..n], Victims) == 1 && Examined(search[..n], JointPairs) == pairsExamined
  {
    if n == 3 {
      hide Examined;
      assert search[..3] == (([] + [search[0]]) + [search[1]]) + [search[2]];
      forall domain | domain == Victims || domain == JointPairs
        ensures Examined(search[..3], domain) == if domain == Victims then 1 else pairsExamined
      {
        ExaminedLast([], search[0], domain);
        ExaminedLast([] + [search[0]], search[1], domain);
        ExaminedLast([] + [search[0]] + [search[1]], search[2], domain);
      }
    } else {
      ExaminedOf(search, pairsExamined, n - 1);
      assert search[..n][..n - 1] == search[..n - 1];
    }
  }
}
