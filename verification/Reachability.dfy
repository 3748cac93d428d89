/** Graph walks over indexed successors: `reachable_from` and `can_reach_any` of src/control_flow.rs. */
module Reachability {
  import opened Wrappers
  import opened ControlFlow

  type Graph = seq<seq<nat>>

  ghost predicate IsGraph(g: Graph) {
    forall i, k | 0 <= i < |g| && 0 <= k < |g[i]| :: g[i][k] < |g|
  }

  // ---------------------------------------------------------------- paths

  ghost predicate IsPath(g: Graph, path: seq<nat>) {
    && path != [] && (forall i | 0 <= i < |path| :: path[i] < |g|)
    && forall i | 0 < i < |path| :: path[i] in g[path[i - 1]]
  }

  /** Some sequence of edges, possibly none, leads from a to b. */
  ghost predicate Reaches(g: Graph, a: nat, b: nat) {
    exists path :: IsPath(g, path) && path[0] == a && path[|path| - 1] == b
  }

  lemma ReachesItself(g: Graph, a: nat)
    requires a < |g|
    ensures Reaches(g, a, a)
  {
    assert IsPath(g, [a]);
  }

  lemma ReachesFurther(g: Graph, a: nat, b: nat, c: nat)
    requires IsGraph(g) && Reaches(g, a, b) && b < |g| && c in g[b]
    ensures Reaches(g, a, c)
  {
    var path :| IsPath(g, path) && path[0] == a && path[|path| - 1] == b;
    assert IsPath(g, path + [c]);
  }

  lemma ReachesEarlier(g: Graph, a: nat, b: nat, c: nat)
    requires IsGraph(g) && a < |g| && b in g[a] && Reaches(g, b, c)
    ensures Reaches(g, a, c)
  {
    var path :| IsPath(g, path) && path[0] == b && path[|path| - 1] == c;
    var longer := [a] + path;
    assert longer[|longer| - 1] == c;
    assert forall i | 0 < i < |path| :: longer[i] == path[i - 1];
    assert IsPath(g, longer);
  }

  // ---------------------------------------------------------------- marks

  ghost predicate ClosedForward(g: Graph, marks: seq<bool>) {
    |marks| == |g| && forall i, t | 0 <= i < |g| && marks[i] && t in g[i] && t < |g| :: marks[t]
  }

  ghost predicate ClosedBackward(g: Graph, marks: seq<bool>) {
    |marks| == |g| && forall i, t | 0 <= i < |g| && t in g[i] && t < |g| && marks[t] :: marks[i]
  }

  /** A mark set closed under successors that holds a holds everything a reaches. */
  lemma {:induction false} ClosedHoldsPath(g: Graph, marks: seq<bool>, path: seq<nat>, n: nat)
    requires ClosedForward(g, marks) && IsPath(g, path) && marks[path[0]] && n < |path|
    ensures marks[path[n]]
  {
    if n > 0 {
      ClosedHoldsPath(g, marks, path, n - 1);
      assert path[n] in g[path[n - 1]];
    }
  }

  /** Backwards: a mark set closed under predecessors holds whatever reaches a marked node. */
  lemma {:induction false} ClosedHoldsPathBack(g: Graph, marks: seq<bool>, path: seq<nat>, n: nat)
    requires ClosedBackward(g, marks) && IsPath(g, path) && marks[path[|path| - 1]] && n < |path|
    ensures marks[path[n]]
    decreases |path| - n
  {
    if n < |path| - 1 {
      ClosedHoldsPathBack(g, marks, path, n + 1);
      assert path[n + 1] in g[path[n]];
    }
  }

  function Count(marks: seq<bool>): (n: nat)
    ensures n <= |marks|
  {
    if marks == [] then 0 else Count(marks[..|marks| - 1]) + if marks[|marks| - 1] then 1 else 0
  }

  ghost predicate Grown(before: seq<bool>, after: seq<bool>) {
    |before| == |after| && forall i | 0 <= i < |before| && before[i] :: after[i]
  }

  /** Marks only added: the count grows unless nothing changed. */
  lemma {:induction false} CountGrows(before: seq<bool>, after: seq<bool>)
    requires Grown(before, after)
    ensures Count(before) <= Count(after)
    ensures before != after ==> Count(before) < Count(after)
  {
    if before != [] {
      var n := |before| - 1;
      CountGrows(before[..n], after[..n]);
      assert before == before[..n] + [before[n]] && after == after[..n] + [after[n]];
    }
  }

  lemma {:induction false} FullCount(marks: seq<bool>)
    requires Count(marks) == |marks|
    ensures forall i | 0 <= i < |marks| :: marks[i]
  {
    if marks != [] {
      FullCount(marks[..|marks| - 1]);
      assert forall i | 0 <= i < |marks| - 1 :: marks[..|marks| - 1][i] == marks[i];
    }
  }

  // ---------------------------------------------------------------- depth-first search

  /** What is marked or still pending can be reached, and every edge out of a marked node has been followed or queued. */
  ghost predicate Searching(g: Graph, entry: nat, reached: seq<bool>, pending: seq<nat>) {
    && |reached| == |g| && entry < |g|
    && (forall k | 0 <= k < |pending| :: pending[k] < |g| && Reaches(g, entry, pending[k]))
    && (forall i | 0 <= i < |g| && reached[i] :: Reaches(g, entry, i))
    && (reached[entry] || entry in pending)
    && forall i, t | 0 <= i < |g| && reached[i] && t in g[i] && t < |g| :: reached[t] || t in pending
  }

  /** Marks exactly the entry and everything it reaches. */
  method ReachableFrom(g: Graph, entry: nat) returns (r: Result<seq<bool>, GraphError>)
    requires IsGraph(g)
    ensures r.Err? <==> entry >= |g|
    ensures r.Err? ==> r.error == InvalidIndex(entry)
    ensures !r.Err? ==> |r.value| == |g| && forall i | 0 <= i < |g| :: r.value[i] <==> Reaches(g, entry, i)
  {
    hide Reaches, Count;
    if entry >= |g| {
      return Err(InvalidIndex(entry));
    }
    var reached := new bool[|g|](_ => false);
    var pending := [entry];
    ReachesItself(g, entry);
    while pending != []
      invariant Searching(g, entry, reached[..], pending)
      decreases |g| - Count(reached[..]), |pending|
    {
      ghost var was, queue := reached[..], pending;
      var index := pending[|pending| - 1];
      pending := pending[..|pending| - 1];
      if !reached[index] {
        reached[index] := true;
        pending := pending + g[index];
        assert reached[..] == was[index := true];
        assert was[index] != reached[..][index];
        CountGrows(was, reached[..]);
        Visited(g, entry, was, queue);
      } else {
        Skipped(g, entry, was, queue);
        assert reached[..] == was;
      }
    }
    SearchDone(g, entry, reached[..]);
    r := Ok(reached[..]);
  }

  lemma Visited(g: Graph, entry: nat, reached: seq<bool>, pending: seq<nat>)
    requires IsGraph(g) && Searching(g, entry, reached, pending) && pending != []
    ensures var last := pending[|pending| - 1];
            Searching(g, entry, reached[last := true], pending[..|pending| - 1] + g[last])
  {
    hide Reaches;
    var last, rest := pending[|pending| - 1], pending[..|pending| - 1];
    var next := rest + g[last];
    forall k | 0 <= k < |next| ensures next[k] < |g| && Reaches(g, entry, next[k]) {
      if k >= |rest| {
        assert next[k] == g[last][k - |rest|];
        ReachesFurther(g, entry, last, next[k]);
      }
    }
    forall t | t in pending ensures t == last || t in next {
      var k :| 0 <= k < |pending| && pending[k] == t;
      assert k < |rest| ==> next[k] == t;
    }
    assert forall t | t in g[last] :: t in next;
  }

  lemma Skipped(g: Graph, entry: nat, reached: seq<bool>, pending: seq<nat>)
    requires Searching(g, entry, reached, pending) && pending != [] && reached[pending[|pending| - 1]]
    ensures Searching(g, entry, reached, pending[..|pending| - 1])
  {
    hide Reaches;
    var rest := pending[..|pending| - 1];
    forall t | t in pending ensures t == pending[|pending| - 1] || t in rest {
      var k :| 0 <= k < |pending| && pending[k] == t;
      assert k < |rest| ==> rest[k] == t;
    }
  }

  lemma SearchDone(g: Graph, entry: nat, reached: seq<bool>)
    requires Searching(g, entry, reached, [])
    ensures forall i | 0 <= i < |g| :: reached[i] <==> Reaches(g, entry, i)
  {
    forall i | 0 <= i < |g| && Reaches(g, entry, i) ensures reached[i] {
      var path :| IsPath(g, path) && path[0] == entry && path[|path| - 1] == i;
      ClosedHoldsPath(g, reached, path, |path| - 1);
    }
  }

  // ---------------------------------------------------------------- the backward fixpoint

  ghost predicate ReachesAny(g: Graph, a: nat, exits: seq<nat>) {
    exists k | 0 <= k < |exits| :: Reaches(g, a, exits[k])
  }

  /** Only nodes with a path to an exit are marked, and all exits are. */
  ghost predicate Marking(g: Graph, exits: seq<nat>, marks: seq<bool>) {
    && |marks| == |g|
    && (forall i | 0 <= i < |g| && marks[i] :: ReachesAny(g, i, exits))
    && forall k | 0 <= k < |exits| && exits[k] < |g| :: marks[exits[k]]
  }

  /** As many sweeps as nodes mark exactly the nodes with a path to a listed exit, although each sweep works in place. */
  method CanReachAny(g: Graph, exits: seq<nat>) returns (r: Result<seq<bool>, GraphError>)
    requires IsGraph(g)
    ensures r.Err? <==> exists k | 0 <= k < |exits| :: exits[k] >= |g|
    ensures r.Err? ==> exists k | 0 <= k < |exits| ::
              r.error == InvalidIndex(exits[k]) && exits[k] >= |g| && forall e | 0 <= e < k :: exits[e] < |g|
    ensures !r.Err? ==> |r.value| == |g| && forall i | 0 <= i < |g| :: r.value[i] <==> ReachesAny(g, i, exits)
  {
    hide Reaches, ReachesAny, Count;
    var k := 0;
    while k < |exits|
      invariant k <= |exits| && forall e | 0 <= e < k :: exits[e] < |g|
    {
      if exits[k] >= |g| {
        return Err(InvalidIndex(exits[k]));
      }
      k := k + 1;
    }
    var marks := new bool[|g|](_ => false);
    k := 0;
    while k < |exits|
      invariant k <= |exits|
      invariant forall e | 0 <= e < k :: marks[exits[e]]
      invariant forall i | 0 <= i < |g| && marks[i] :: ReachesAny(g, i, exits)
    {
      ExitReachesItself(g, exits, k);
      marks[exits[k]] := true;
      k := k + 1;
    }
    var sweeps := 0;
    while sweeps < |g|
      invariant sweeps <= |g| && Marking(g, exits, marks[..])
      invariant ClosedBackward(g, marks[..]) || sweeps <= Count(marks[..])
    {
      Sweep(g, exits, marks);
      sweeps := sweeps + 1;
    }
    SweptEnough(g, exits, marks[..], sweeps);
    r := Ok(marks[..]);
  }

  lemma ExitReachesItself(g: Graph, exits: seq<nat>, k: nat)
    requires k < |exits| && exits[k] < |g|
    ensures ReachesAny(g, exits[k], exits)
  {
    ReachesItself(g, exits[k]);
  }

  /** One sweep in place: it either finds the marks already closed or adds at least one. */
  method Sweep(g: Graph, ghost exits: seq<nat>, marks: array<bool>)
    requires IsGraph(g) && marks.Length == |g| && Marking(g, exits, marks[..])
    modifies marks
    ensures Marking(g, exits, marks[..]) && Grown(old(marks[..]), marks[..])
    ensures old(ClosedBackward(g, marks[..])) ==> marks[..] == old(marks[..])
    ensures ClosedBackward(g, marks[..]) || Count(old(marks[..])) < Count(marks[..])
  {
    hide Reaches, ReachesAny, Count;
    ghost var was := marks[..];
    var index := 0;
    while index < |g|
      invariant index <= |g| && Marking(g, exits, marks[..]) && Grown(was, marks[..])
      invariant forall i, t | 0 <= i < index && t in g[i] && t < |g| && was[t] :: marks[i]
      invariant ClosedBackward(g, was) ==> marks[..] == was
    {
      var reaches := exists k | 0 <= k < |g[index]| :: marks[g[index][k]];
      ghost var before := marks[..];
      if reaches {
        var k :| 0 <= k < |g[index]| && marks[g[index][k]];
        StepBack(g, exits, index, g[index][k]);
        assert g[index][k] in g[index];
      }
      marks[index] := marks[index] || reaches;
      assert marks[..] == before[index := before[index] || reaches];
      forall t | t in g[index] && t < |g| && was[t] ensures marks[index] {
        var k :| 0 <= k < |g[index]| && g[index][k] == t;
        assert before[t];
      }
      index := index + 1;
    }
    CountGrows(was, marks[..]);
  }

  lemma StepBack(g: Graph, exits: seq<nat>, a: nat, b: nat)
    requires IsGraph(g) && a < |g| && b in g[a] && ReachesAny(g, b, exits)
    ensures ReachesAny(g, a, exits)
  {
    hide Reaches;
    var k :| 0 <= k < |exits| && Reaches(g, b, exits[k]);
    ReachesEarlier(g, a, b, exits[k]);
  }

  lemma SweptEnough(g: Graph, exits: seq<nat>, marks: seq<bool>, sweeps: nat)
    requires Marking(g, exits, marks) && sweeps == |g| && (ClosedBackward(g, marks) || sweeps <= Count(marks))
    requires forall k | 0 <= k < |exits| :: exits[k] < |g|
    ensures forall i | 0 <= i < |g| :: marks[i] <==> ReachesAny(g, i, exits)
  {
    if !ClosedBackward(g, marks) {
      FullCount(marks);
    }
    forall i | 0 <= i < |g| && ReachesAny(g, i, exits) ensures marks[i] {
      var k :| 0 <= k < |exits| && Reaches(g, i, exits[k]);
      var path :| IsPath(g, path) && path[0] == i && path[|path| - 1] == exits[k];
      ClosedHoldsPathBack(g, marks, path, 0);
    }
  }
}
