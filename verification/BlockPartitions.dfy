/** The partitions of src/control_flow.rs are canonical, and its two ways of computing one agree. */
module BlockPartitions {
  import opened Wrappers
  import opened ControlFlow
  import opened Blocks

  // ---------------------------------------------------------------- one partition only

  /** A run must start here: nothing reached flows sequentially into i. */
  predicate Starts(facts: GraphFacts, reached: seq<bool>, i: nat)
    requires |reached| == |facts.items|
  {
    i < |reached| && reached[i] && (i == 0 || !reached[i - 1] || Breaks(facts, i))
  }

  function Firsts(runs: seq<Run>): (s: seq<nat>)
    ensures |s| == |runs| && forall k | 0 <= k < |runs| :: s[k] == runs[k].first
  {
    seq(|runs|, k requires 0 <= k < |runs| => runs[k].first)
  }

  lemma RunsStart(facts: GraphFacts, reached: seq<bool>, runs: seq<Run>, k: nat)
    requires IsPartition(facts, reached, runs) && k < |runs|
    ensures Starts(facts, reached, runs[k].first)
  {
    var i := runs[k].first;
    assert InRun(runs, i);
    if i > 0 && reached[i - 1] {
      assert InRun(runs, i - 1);
      var j :| 0 <= j < |runs| && runs[j].first <= i - 1 < runs[j].end;
      assert j < k;
      assert runs[j].end <= runs[k].first;
      assert Straight(facts, reached, runs[j]);
    }
  }

  lemma StartsAreRuns(facts: GraphFacts, reached: seq<bool>, runs: seq<Run>, i: nat)
    requires |reached| == |facts.items| && IsPartition(facts, reached, runs)
    ensures Starts(facts, reached, i) ==> i in Firsts(runs)
  {
    if i < |reached| && reached[i] {
      var k :| 0 <= k < |runs| && runs[k].first <= i < runs[k].end;
      assert runs[k].first < i ==> InRun(runs, i - 1);
      assert Straight(facts, reached, runs[k]);
      assert Firsts(runs)[k] == runs[k].first;
    }
  }

  lemma FirstsAreStarts(facts: GraphFacts, reached: seq<bool>, runs: seq<Run>)
    requires |reached| == |facts.items| && IsPartition(facts, reached, runs)
    ensures Ascending(Firsts(runs))
    ensures forall i :: i in Firsts(runs) <==> Starts(facts, reached, i)
  {
    hide IsPartition, Starts, Firsts;
    FirstsAscend(facts, reached, runs);
    forall i ensures i in Firsts(runs) <==> Starts(facts, reached, i) {
      if i in Firsts(runs) {
        var k :| 0 <= k < |runs| && Firsts(runs)[k] == i;
        RunsStart(facts, reached, runs, k);
      } else if Starts(facts, reached, i) {
        StartsAreRuns(facts, reached, runs, i);
      }
    }
  }

  lemma FirstsAscend(facts: GraphFacts, reached: seq<bool>, runs: seq<Run>)
    requires IsPartition(facts, reached, runs)
    ensures Ascending(Firsts(runs))
  {
    hide Straight;
  }

  lemma EndsAgree(facts: GraphFacts, reached: seq<bool>, left: seq<Run>, right: seq<Run>, k: nat)
    requires IsPartition(facts, reached, left) && IsPartition(facts, reached, right)
    requires k < |left| && k < |right| && left[k].first == right[k].first
    ensures left[k].end <= right[k].end
  {
    assert Straight(facts, reached, left[k]) && Straight(facts, reached, right[k]);
    if right[k].end < left[k].end {
      assert InRun(left, right[k].end);
    }
  }

  /** Order, coverage, straightness and maximality leave room for exactly one partition of any reached mask. */
  lemma PartitionIsUnique(facts: GraphFacts, reached: seq<bool>, left: seq<Run>, right: seq<Run>)
    requires |reached| == |facts.items| && IsPartition(facts, reached, left) && IsPartition(facts, reached, right)
    ensures left == right
  {
    hide IsPartition, Starts, Firsts;
    FirstsAreStarts(facts, reached, left);
    FirstsAreStarts(facts, reached, right);
    AscendingIsUnique(Firsts(left), Firsts(right));
    forall k | 0 <= k < |left| ensures left[k] == right[k] {
      assert Firsts(left)[k] == Firsts(right)[k];
      EndsAgree(facts, reached, left, right, k);
      EndsAgree(facts, reached, right, left, k);
    }
  }

  // ---------------------------------------------------------------- decoded ownership and full reachability

  /** What `Build` promises of its facts. */
  ghost predicate Built(facts: GraphFacts) {
    && Scanned(facts.items)
    && |facts.rows| == |facts.items|
    && (forall i | 0 <= i < |facts.items| :: facts.rows[i] == RowOf(facts.items[i], Heads(facts.items)))
    && (forall j: nat :: j in facts.branchEntries <==> IsBranchEntry(facts.items, j))
  }

  function Owner(items: seq<Instruction>): (nat, nat)
    requires items != []
  {
    (items[0].address, items[|items| - 1].NextIp())
  }

  ghost predicate IsPoint(facts: GraphFacts, x: nat)
    requires facts.items != []
  {
    x == Owner(facts.items).1
    || exists i | 0 <= i < |facts.items| :: facts.items[i].address == x && (i == 0 || Breaks(facts, i))
  }

  lemma CutsArePoints(facts: GraphFacts, x: nat)
    requires Built(facts) && facts.items != [] && IsBlockCut(facts, Owner(facts.items), i => true, x)
    ensures IsPoint(facts, x)
  {
    hide HeadsIndexed, RowOf, IsBranchEntry;
    var items, owner := facts.items, Owner(facts.items);
    if i :| 0 <= i < |items| && !items[i].flow.Next? && x == items[i].NextIp() && x < owner.1 {
      assert i + 1 < |items| && items[i + 1].address == x && Breaks(facts, i + 1);
    } else if i :| 0 <= i < |items| && items[i].near == Some(x) && LocalBranch(facts, i) {
      BranchCutsArePoints(facts, i, x);
    }
  }

  lemma BranchCutsArePoints(facts: GraphFacts, i: nat, x: nat)
    requires Built(facts) && i < |facts.items| && facts.items[i].near == Some(x) && LocalBranch(facts, i)
    ensures IsPoint(facts, x)
  {
    hide HeadsIndexed, Scanned;
    HeadsResolve(facts.items);
    var t := facts.rows[i].branchTarget.value.index;
    TargetsInScan(facts.items, Heads(facts.items), i);
    RowListsFlows(facts.items, Heads(facts.items), i, t);
    assert BranchEntersAt(facts.items, i, t);
    assert IsBranchEntry(facts.items, t);
  }

  lemma PointsAreCuts(facts: GraphFacts, x: nat)
    requires Built(facts) && facts.items != [] && IsPoint(facts, x)
    ensures IsBlockCut(facts, Owner(facts.items), i => true, x)
  {
    hide HeadsIndexed, RowOf;
    HeadsResolve(facts.items);
    var items, owner := facts.items, Owner(facts.items);
    if x != owner.1 && x != owner.0 {
      var i :| 0 <= i < |items| && items[i].address == x && (i == 0 || Breaks(facts, i));
      BelowOwnerEnd(items, i);
      if !items[i - 1].flow.Next? {
        assert items[i - 1].NextIp() == x;
      } else {
        var j :| 0 <= j < |items| && BranchEntersAt(items, j, i);
        RowListsFlows(items, Heads(items), j, i);
        assert Branches(items[j].flow) && items[j].near == Some(x) ==> LocalBranch(facts, j);
      }
    }
  }

  lemma BelowOwnerEnd(items: seq<Instruction>, i: nat)
    requires Scanned(items) && i < |items|
    ensures items[i].address < items[i].NextIp() <= Owner(items).1
  {
    if i < |items| - 1 {
      AddressesAscend(items, i, |items| - 1);
    }
  }

  function AllReached(facts: GraphFacts): seq<bool> {
    seq(|facts.items|, _ => true)
  }

  /** Where the runs start, and where the last one ends. */
  function Points(items: seq<Instruction>, runs: seq<Run>): (s: seq<nat>)
    requires items != [] && InOrderRuns(runs, |items|)
    ensures |s| == |runs| + 1
    ensures forall k | 0 <= k < |runs| :: s[k] == items[runs[k].first].address
    ensures s[|runs|] == Owner(items).1
  {
    seq(|runs|, k requires 0 <= k < |runs| => items[runs[k].first].address) + [Owner(items).1]
  }

  lemma PointsAscend(items: seq<Instruction>, runs: seq<Run>)
    requires Scanned(items) && items != [] && InOrderRuns(runs, |items|)
    ensures Ascending(Points(items, runs))
  {
    forall j, k | 0 <= j < k < |runs| + 1 ensures Points(items, runs)[j] < Points(items, runs)[k] {
      BelowOwnerEnd(items, runs[j].first);
      if k < |runs| {
        AddressesAscend(items, runs[j].first, runs[k].first);
      }
    }
  }

  lemma PointsAreStarts(facts: GraphFacts, runs: seq<Run>, x: nat)
    requires facts.items != [] && IsPartition(facts, AllReached(facts), runs)
    ensures x in Points(facts.items, runs) <==> IsPoint(facts, x)
  {
    hide IsPartition;
    InOrderOf(facts, AllReached(facts), runs);
    FirstsAreStarts(facts, AllReached(facts), runs);
    var points := Points(facts.items, runs);
    if x in points {
      var k :| 0 <= k < |points| && points[k] == x;
      if k < |runs| {
        assert Firsts(runs)[k] in Firsts(runs);
      }
    }
    if IsPoint(facts, x) && x != Owner(facts.items).1 {
      var i :| 0 <= i < |facts.items| && facts.items[i].address == x && (i == 0 || Breaks(facts, i));
      assert Starts(facts, AllReached(facts), i);
      var k :| 0 <= k < |runs| && Firsts(runs)[k] == i;
      assert points[k] == x;
    } else if IsPoint(facts, x) {
      assert points[|runs|] == x;
    }
  }

  lemma InOrderOf(facts: GraphFacts, reached: seq<bool>, runs: seq<Run>)
    requires IsPartition(facts, reached, runs)
    ensures InOrderRuns(runs, |facts.items|)
  {
    hide Straight;
  }

  /** With everything reached, each run ends where the next one starts. */
  lemma RunsTouch(facts: GraphFacts, runs: seq<Run>, k: nat)
    requires Scanned(facts.items) && facts.items != [] && IsPartition(facts, AllReached(facts), runs) && k < |runs|
    ensures runs[k].end == if k + 1 < |runs| then runs[k + 1].first else |facts.items|
  {
    var n, end := |facts.items|, runs[k].end;
    assert Straight(facts, AllReached(facts), runs[k]);
    if end < n {
      assert Starts(facts, AllReached(facts), end);
      StartsAreRuns(facts, AllReached(facts), runs, end);
      var m :| 0 <= m < |runs| && Firsts(runs)[m] == end;
      assert m > k;
    }
  }

  /** Cutting the decoded owner gives the blocks that walking a fully reached mask gives. */
  lemma DecodedOwnerIsFullReachability(
    facts: GraphFacts, cuts: seq<nat>, decoded: seq<(nat, nat)>, runs: seq<Run>, walked: seq<(nat, nat)>)
    requires Built(facts) && facts.items != []
    requires CutsInOrder(facts, Owner(facts.items), cuts)
    requires IsWindows(cuts, decoded)
    requires IsPartition(facts, AllReached(facts), runs) && BlocksOf(facts.items, runs, walked)
    ensures decoded == walked
  {
    hide IsPartition, IsPoint, IsBlockCut, HeadsIndexed, IsBranchEntry, RowOf, Points;
    var items, points := facts.items, Points(facts.items, runs);
    PointsAscend(items, runs);
    forall x: nat ensures x in cuts <==> x in points {
      PointsAreStarts(facts, runs, x);
      if x in cuts {
        CutsArePoints(facts, x);
      }
      if IsPoint(facts, x) {
        PointsAreCuts(facts, x);
      }
    }
    AscendingIsUnique(cuts, points);
    forall k | 0 <= k < |runs| ensures decoded[k] == walked[k] {
      RunsTouch(facts, runs, k);
      var end := runs[k].end;
      assert end < |items| ==> items[end].address == items[end - 1].NextIp();
    }
  }
}
