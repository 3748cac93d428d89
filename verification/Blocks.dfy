/** Block partitions of a linear scan: `collect_block_cuts`, `block_cuts` and `blocks` of src/control_flow.rs. */
module Blocks {
  import opened Wrappers
  import opened ControlFlow

  // ---------------------------------------------------------------- cuts

  ghost predicate IsFollowingCut(items: seq<Instruction>, includeFollowing: (nat, nat) -> bool, i: nat, x: nat)
    requires i < |items|
  {
    !items[i].flow.Next? && x == items[i].NextIp() && includeFollowing(i, x)
  }

  ghost predicate IsDirectCut<E>(items: seq<Instruction>, includeDirect: (nat, nat) -> Result<bool, E>, i: nat, x: nat)
    requires i < |items|
  {
    items[i].near == Some(x) && includeDirect(i, x) == Ok(true)
  }

  ghost predicate IsCut<E>(
    owners: seq<(nat, nat)>, items: seq<Instruction>, includeFollowing: (nat, nat) -> bool,
    includeDirect: (nat, nat) -> Result<bool, E>, x: nat)
  {
    || (exists k | 0 <= k < |owners| :: x == owners[k].0 || x == owners[k].1)
    || (exists i | 0 <= i < |items| :: IsFollowingCut(items, includeFollowing, i, x))
    || (exists i | 0 <= i < |items| :: IsDirectCut(items, includeDirect, i, x))
  }

  predicate DirectRefused<E>(items: seq<Instruction>, includeDirect: (nat, nat) -> Result<bool, E>, i: nat)
    requires i < |items|
  {
    items[i].near.Some? && includeDirect(i, items[i].near.value).Err?
  }

  /** Owner boundaries, chosen following cuts and admitted direct targets; the first refused target stops the collection. */
  method CollectBlockCuts<E>(
    owners: seq<(nat, nat)>, items: seq<Instruction>, includeFollowing: (nat, nat) -> bool,
    includeDirect: (nat, nat) -> Result<bool, E>)
    returns (r: Result<set<nat>, E>)
    ensures r.Err? <==> exists i | 0 <= i < |items| :: DirectRefused(items, includeDirect, i)
    ensures r.Err? ==> exists i | 0 <= i < |items| ::
              && DirectRefused(items, includeDirect, i) && includeDirect(i, items[i].near.value) == Err(r.error)
              && forall k | 0 <= k < i :: !DirectRefused(items, includeDirect, k)
    ensures !r.Err? ==> forall x: nat :: x in r.value <==> IsCut(owners, items, includeFollowing, includeDirect, x)
  {
    var cuts: set<nat> := {};
    var index := 0;
    while index < |owners|
      invariant index <= |owners|
      invariant forall x: nat :: x in cuts <==> exists k | 0 <= k < index :: x == owners[k].0 || x == owners[k].1
    {
      cuts := cuts + {owners[index].0, owners[index].1};
      index := index + 1;
    }
    ghost var boundaries := cuts;
    index := 0;
    while index < |items|
      invariant index <= |items|
      invariant forall k | 0 <= k < index :: !DirectRefused(items, includeDirect, k)
      invariant forall x: nat :: x in cuts <==>
                  || x in boundaries
                  || (exists i | 0 <= i < index :: IsFollowingCut(items, includeFollowing, i, x))
                  || (exists i | 0 <= i < index :: IsDirectCut(items, includeDirect, i, x))
    {
      var item := items[index];
      ghost var before := cuts;
      if !item.flow.Next? && includeFollowing(index, item.NextIp()) {
        cuts := cuts + {item.NextIp()};
      }
      if item.near.Some? {
        var admitted := includeDirect(index, item.near.value);
        if admitted.Err? {
          assert DirectRefused(items, includeDirect, index);
          return Err(admitted.error);
        }
        if admitted.value {
          cuts := cuts + {item.near.value};
        }
      }
      assert forall x: nat :: x in cuts <==>
          x in before || IsFollowingCut(items, includeFollowing, index, x) || IsDirectCut(items, includeDirect, index, x);
      index := index + 1;
    }
    r := Ok(cuts);
  }

  predicate LocalBranch(facts: GraphFacts, i: nat) {
    i < |facts.rows| && facts.rows[i].branchTarget.Some? && facts.rows[i].branchTarget.value.Head?
  }

  ghost predicate IsBlockCut(facts: GraphFacts, owner: (nat, nat), includeBranch: nat -> bool, x: nat) {
    || x == owner.0 || x == owner.1
    || (exists i | 0 <= i < |facts.items| :: !facts.items[i].flow.Next? && x == facts.items[i].NextIp() && x < owner.1)
    || (exists i | 0 <= i < |facts.items| :: facts.items[i].near == Some(x) && LocalBranch(facts, i) && includeBranch(i))
  }

  /** Every non-sequential instruction cuts after itself below the owner's end; chosen local branches cut at their target. */
  method BlockCuts(facts: GraphFacts, owner: (nat, nat), includeBranch: nat -> bool) returns (cuts: set<nat>)
    ensures forall x: nat :: x in cuts <==> IsBlockCut(facts, owner, includeBranch, x)
  {
    var following := (i: nat, next: nat) => next < owner.1;
    var direct: (nat, nat) -> Result<bool, ()> := (i: nat, target: nat) => Ok(LocalBranch(facts, i) && includeBranch(i));
    var r := CollectBlockCuts([owner], facts.items, following, direct);
    cuts := r.value;
    forall x: nat ensures IsCut([owner], facts.items, following, direct, x) <==> IsBlockCut(facts, owner, includeBranch, x) {
      assert [owner][0] == owner;
      assert forall i | 0 <= i < |facts.items| :: IsFollowingCut(facts.items, following, i, x) <==>
          !facts.items[i].flow.Next? && x == facts.items[i].NextIp() && x < owner.1;
      assert forall i | 0 <= i < |facts.items| :: IsDirectCut(facts.items, direct, i, x) <==>
          facts.items[i].near == Some(x) && LocalBranch(facts, i) && includeBranch(i);
    }
  }

  // ---------------------------------------------------------------- ascending sequences

  ghost predicate Ascending(s: seq<nat>) {
    forall i, j | 0 <= i < j < |s| :: s[i] < s[j]
  }

  /** An ascending sequence is determined by its elements. */
  lemma {:induction false} AscendingIsUnique(a: seq<nat>, b: seq<nat>)
    requires Ascending(a) && Ascending(b) && forall x :: x in a <==> x in b
    ensures a == b
  {
    if a == [] {
      HasElement(b);
    } else {
      var m, n := |a| - 1, |b| - 1;
      assert a[m] in b;
      var i :| 0 <= i < |b| && b[i] == a[m];
      assert b[n] in a;
      var j :| 0 <= j < |a| && a[j] == b[n];
      assert a[m] == b[n];
      forall x ensures x in a[..m] <==> x in b[..n] {
        InFront(a, x);
        InFront(b, x);
      }
      AscendingIsUnique(a[..m], b[..n]);
      assert a == a[..m] + [a[m]] && b == b[..n] + [b[n]];
    }
  }

  lemma HasElement(b: seq<nat>)
    ensures b != [] ==> exists x :: x in b
  {
    assert b != [] ==> b[0] in b;
  }

  lemma InFront(a: seq<nat>, x: nat)
    requires Ascending(a) && a != []
    ensures x in a[..|a| - 1] <==> x in a && x != a[|a| - 1]
  {
    assert a == a[..|a| - 1] + [a[|a| - 1]];
    if x in a[..|a| - 1] {
      var i :| 0 <= i < |a| - 1 && a[..|a| - 1][i] == x;
      assert a[i] < a[|a| - 1];
    }
  }

  predicate IsLeast(s: set<nat>, m: nat) {
    m in s && forall x | x in s :: m <= x
  }

  lemma {:induction false} LeastExists(s: set<nat>) returns (m: nat)
    requires s != {}
    ensures IsLeast(s, m)
    decreases |s|
  {
    m :| m in s;
    var others := s - {m};
    if others != {} {
      var least := LeastExists(others);
      LeastOfBoth(s, m, least);
      m := if m < least then m else least;
    } else {
      OnlyOne(s, m);
    }
  }

  lemma OnlyOne(s: set<nat>, m: nat)
    requires m in s && s - {m} == {}
    ensures IsLeast(s, m)
  {
    forall x | x in s ensures x == m {
      assert x !in s - {m};
    }
  }

  lemma LeastOfBoth(s: set<nat>, m: nat, least: nat)
    requires m in s && IsLeast(s - {m}, least)
    ensures IsLeast(s, if m < least then m else least)
  {
    forall x | x in s ensures x == m || least <= x {
      assert x == m || x in s - {m};
    }
  }

  method Least(s: set<nat>) returns (m: nat)
    requires s != {}
    ensures m in s && forall x | x in s :: m <= x
  {
    ghost var least := LeastExists(s);
    m :| m in s && forall x | x in s :: m <= x;
  }

  /** Elements in order, as a `BTreeSet` iterates. */
  method InOrder(s: set<nat>) returns (q: seq<nat>)
    ensures Ascending(q) && forall x :: x in q <==> x in s
  {
    q := [];
    var rest := s;
    while rest != {}
      invariant Ascending(q) && rest <= s
      invariant forall x :: x in q <==> x in s && x !in rest
      invariant forall i, x | 0 <= i < |q| && x in rest :: q[i] < x
      decreases |rest|
    {
      var m := Least(rest);
      q := q + [m];
      rest := rest - {m};
    }
  }

  // ---------------------------------------------------------------- runs of reached instructions

  /** Instructions first, first + 1, ... up to but not including end. */
  datatype Run = Run(first: nat, end: nat)

  /** No straight-line run continues from i - 1 into i. */
  predicate Breaks(facts: GraphFacts, i: nat)
    requires 0 < i < |facts.items|
  {
    !facts.items[i - 1].flow.Next? || i in facts.branchEntries
  }

  ghost predicate InRun(runs: seq<Run>, i: nat) {
    exists k | 0 <= k < |runs| :: runs[k].first <= i < runs[k].end
  }

  ghost predicate InOrderRuns(runs: seq<Run>, n: nat) {
    && (forall k | 0 <= k < |runs| :: runs[k].first < runs[k].end <= n)
    && forall j, k | 0 <= j < k < |runs| :: runs[j].end <= runs[k].first
  }

  /** A run neither contains a break nor stops without a reason. */
  ghost predicate Straight(facts: GraphFacts, reached: seq<bool>, run: Run)
    requires run.first < run.end <= |facts.items| == |reached|
  {
    && (forall i | run.first < i < run.end :: !Breaks(facts, i))
    && (run.end < |facts.items| ==> !reached[run.end] || Breaks(facts, run.end))
  }

  /** Ordered, disjoint, maximal straight-line runs that cover exactly the reached instructions. */
  ghost predicate IsPartition(facts: GraphFacts, reached: seq<bool>, runs: seq<Run>) {
    && |reached| == |facts.items|
    && InOrderRuns(runs, |facts.items|)
    && (forall i | 0 <= i < |reached| :: reached[i] <==> InRun(runs, i))
    && forall k | 0 <= k < |runs| :: Straight(facts, reached, runs[k])
  }

  function BlockOf(items: seq<Instruction>, run: Run): (nat, nat)
    requires run.first < run.end <= |items|
  {
    (items[run.first].address, items[run.end - 1].NextIp())
  }

  ghost predicate BlocksOf(items: seq<Instruction>, runs: seq<Run>, blocks: seq<(nat, nat)>) {
    && InOrderRuns(runs, |items|) && |blocks| == |runs|
    && forall k | 0 <= k < |runs| :: blocks[k] == BlockOf(items, runs[k])
  }

  /** The partition of everything before `index`, with nothing left open there. */
  ghost predicate PartitionedTo(facts: GraphFacts, reached: seq<bool>, runs: seq<Run>, index: nat) {
    && |reached| == |facts.items| && index <= |reached|
    && InOrderRuns(runs, index)
    && (forall i | 0 <= i < index :: reached[i] <==> InRun(runs, i))
    && forall k | 0 <= k < |runs| :: Straight(facts, reached, runs[k])
  }

  lemma RunAdded(facts: GraphFacts, reached: seq<bool>, runs: seq<Run>, first: nat, end: nat)
    requires PartitionedTo(facts, reached, runs, first) && first < end <= |reached|
    requires Straight(facts, reached, Run(first, end)) && forall i | first <= i < end :: reached[i]
    ensures PartitionedTo(facts, reached, runs + [Run(first, end)], end)
  {
    hide Straight;
    var more := runs + [Run(first, end)];
    forall i | 0 <= i < end ensures reached[i] <==> InRun(more, i) {
      assert more[|runs|] == Run(first, end);
      if i < first && InRun(runs, i) {
        var k :| 0 <= k < |runs| && runs[k].first <= i < runs[k].end;
        assert more[k] == runs[k];
      }
    }
  }

  lemma GapAdded(facts: GraphFacts, reached: seq<bool>, runs: seq<Run>, index: nat)
    requires PartitionedTo(facts, reached, runs, index) && index < |reached| && !reached[index]
    ensures PartitionedTo(facts, reached, runs, index + 1)
  {
    hide Straight;
  }

  method ReachableBlocks(facts: GraphFacts, reached: seq<bool>)
    returns (r: Result<seq<(nat, nat)>, GraphError>)
    ensures r.Err? <==> |reached| != |facts.items|
    ensures r.Err? ==> r.error == CoverageLength
    ensures !r.Err? ==> exists runs :: IsPartition(facts, reached, runs) && BlocksOf(facts.items, runs, r.value)
  {
    hide Straight, PartitionedTo;
    var items := facts.items;
    if |reached| != |items| {
      return Err(CoverageLength);
    }
    ghost var runs: seq<Run> := [];
    var blocks: seq<(nat, nat)> := [];
    var index := 0;
    assert PartitionedTo(facts, reached, runs, 0) by { NothingPartitioned(facts, reached); }
    while index < |items|
      invariant index <= |items| && PartitionedTo(facts, reached, runs, index)
      invariant BlocksOf(items, runs, blocks)
    {
      if !reached[index] {
        GapAdded(facts, reached, runs, index);
        index := index + 1;
      } else {
        var first := index;
        var terminal := false;
        while !terminal
          invariant first <= index <= |items| && (terminal ==> first < index) && (!terminal ==> index < |items|)
          invariant forall i | first <= i < index || (i == index && !terminal) :: reached[i]
          invariant forall i | first < i < index || (i == index && !terminal && i > first) :: !Breaks(facts, i)
          invariant terminal && index < |items| ==> !reached[index] || Breaks(facts, index)
          decreases |items| - index, !terminal
        {
          terminal := !items[index].flow.Next? || index + 1 == |items| || !reached[index + 1] || index + 1 in facts.branchEntries;
          index := index + 1;
        }
        RunIsStraight(facts, reached, first, index);
        RunAdded(facts, reached, runs, first, index);
        PartitionInOrder(facts, reached, runs + [Run(first, index)], index);
        runs := runs + [Run(first, index)];
        blocks := blocks + [(items[first].address, items[index - 1].NextIp())];
      }
    }
    PartitionDone(facts, reached, runs);
    r := Ok(blocks);
  }

  lemma NothingPartitioned(facts: GraphFacts, reached: seq<bool>)
    requires |reached| == |facts.items|
    ensures PartitionedTo(facts, reached, [], 0)
  {
  }

  lemma RunIsStraight(facts: GraphFacts, reached: seq<bool>, first: nat, end: nat)
    requires first < end <= |facts.items| == |reached|
    requires forall i | first < i < end :: !Breaks(facts, i)
    requires end < |facts.items| ==> !reached[end] || Breaks(facts, end)
    ensures Straight(facts, reached, Run(first, end))
  {
  }

  lemma PartitionInOrder(facts: GraphFacts, reached: seq<bool>, runs: seq<Run>, index: nat)
    requires PartitionedTo(facts, reached, runs, index)
    ensures InOrderRuns(runs, |facts.items|)
  {
  }

  lemma PartitionDone(facts: GraphFacts, reached: seq<bool>, runs: seq<Run>)
    requires PartitionedTo(facts, reached, runs, |reached|)
    ensures IsPartition(facts, reached, runs)
  {
    hide Straight;
  }

  /** All cuts of the decoded owner, in order. */
  ghost predicate CutsInOrder(facts: GraphFacts, owner: (nat, nat), cuts: seq<nat>) {
    Ascending(cuts) && forall x: nat :: x in cuts <==> IsBlockCut(facts, owner, i => true, x)
  }

  /** Complete decoded ownership: consecutive cuts bound the blocks. */
  method AllDecodedBlocks(facts: GraphFacts, owner: (nat, nat)) returns (blocks: seq<(nat, nat)>)
    ensures exists cuts :: CutsInOrder(facts, owner, cuts) && IsWindows(cuts, blocks)
  {
    var s := BlockCuts(facts, owner, i => true);
    var cuts := InOrder(s);
    blocks := if cuts == [] then [] else seq(|cuts| - 1, k requires 0 <= k < |cuts| - 1 => (cuts[k], cuts[k + 1]));
    assert CutsInOrder(facts, owner, cuts) && IsWindows(cuts, blocks);
  }

  ghost predicate IsWindows(cuts: seq<nat>, blocks: seq<(nat, nat)>) {
    && |blocks| == (if cuts == [] then 0 else |cuts| - 1)
    && forall k | 0 <= k < |blocks| :: blocks[k].0 == cuts[k] && blocks[k].1 == cuts[k + 1]
  }
}
