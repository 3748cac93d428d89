/** Transfer facts of one linear scan: the graph half of src/control_flow.rs. */
module ControlFlow {
  import opened Wrappers

  datatype Flow = Next | Call | IndirectCall | ConditionalBranch | UnconditionalBranch | Return | Unsupported

  /** A decoded instruction; `near` is its encoded near operand, whatever its flow. */
  datatype Instruction = Instruction(address: nat, len: nat, flow: Flow, near: Option<nat>) {
    function NextIp(): nat {
      address + len
    }
  }

  /** What a scan of one contiguous region yields: nonempty instructions, each starting where the previous one ends. */
  ghost predicate Scanned(items: seq<Instruction>) {
    && (forall i | 0 <= i < |items| :: items[i].len > 0)
    && (forall i, j | 0 <= i < |items| && j == i + 1 && j < |items| :: items[j].address == items[i].NextIp())
  }

  lemma {:induction false} AddressesAscend(items: seq<Instruction>, i: nat, j: nat)
    requires Scanned(items) && i < j < |items|
    ensures items[i].NextIp() <= items[j].address
  {
    if i + 1 < j {
      AddressesAscend(items, i, j - 1);
      assert items[j].address == items[j - 1].NextIp();
    }
  }

  datatype Target = Head(index: nat) | NotHead(address: nat)

  datatype RowFacts = RowFacts(
    successors: seq<Target>, branchTarget: Option<Target>, callTarget: Option<nat>,
    continuation: Option<Target>, unresolvedTransfer: bool)

  datatype GraphFacts = GraphFacts(items: seq<Instruction>, rows: seq<RowFacts>, branchEntries: set<nat>)

  datatype GraphError =
    | UnresolvedTransfer(index: nat)
    | UnresolvedTarget(from: nat, address: nat)
    | InvalidIndex(requested: nat)
    | CoverageLength

  // ---------------------------------------------------------------- one row

  /** The index of the instruction at this address, if the scan has one. */
  ghost predicate IsResolved(items: seq<Instruction>, address: nat, target: Target) {
    match target
    case Head(i) => i < |items| && items[i].address == address
    case NotHead(a) => a == address && forall i | 0 <= i < |items| :: items[i].address != address
  }

  function Resolve(heads: map<nat, nat>, address: nat): Target {
    if address in heads then Head(heads[address]) else NotHead(address)
  }

  /** The index from head address to instruction number. */
  function Heads(items: seq<Instruction>): map<nat, nat> {
    if items == [] then map[] else Heads(items[..|items| - 1])[items[|items| - 1].address := |items| - 1]
  }

  ghost predicate HeadsIndexed(items: seq<Instruction>, heads: map<nat, nat>) {
    forall address :: IsResolved(items, address, Resolve(heads, address))
  }

  /** Every address resolves to a head that is there, or to none when there is none. */
  lemma {:induction false} HeadsResolve(items: seq<Instruction>)
    ensures HeadsIndexed(items, Heads(items))
  {
    if items != [] {
      var n := |items| - 1;
      HeadsResolve(items[..n]);
      forall address ensures IsResolved(items, address, Resolve(Heads(items), address)) {
        assert IsResolved(items[..n], address, Resolve(Heads(items[..n]), address));
        assert forall i | 0 <= i < n :: items[..n][i] == items[i];
      }
    }
  }

  method IndexHeads(items: seq<Instruction>) returns (heads: map<nat, nat>)
    ensures heads == Heads(items)
  {
    heads := map[];
    var index := 0;
    while index < |items|
      invariant index <= |items| && heads == Heads(items[..index])
    {
      assert items[..index + 1][..index] == items[..index];
      heads := heads[items[index].address := index];
      index := index + 1;
    }
    assert items[..index] == items;
  }

  /** One row: its local edges in order, and what stays unresolved. */
  function RowOf(item: Instruction, heads: map<nat, nat>): RowFacts {
    var next := Resolve(heads, item.NextIp());
    match item.flow
    case Next => RowFacts([next], None, None, None, false)
    case Call => RowFacts([next], None, item.near, Some(next), item.near.None?)
    case IndirectCall => RowFacts([next], None, item.near, Some(next), item.near.None?)
    case ConditionalBranch => BranchRow(item, heads, [next], Some(next))
    case UnconditionalBranch => BranchRow(item, heads, [], None)
    case Return => RowFacts([], None, None, None, false)
    case Unsupported => RowFacts([], None, None, None, true)
  }

  function BranchRow(item: Instruction, heads: map<nat, nat>, after: seq<Target>, continuation: Option<Target>): RowFacts {
    match item.near
    case Some(address) =>
      RowFacts([Resolve(heads, address)] + after, Some(Resolve(heads, address)), None, continuation, false)
    case None => RowFacts(after, None, None, continuation, true)
  }

  // ---------------------------------------------------------------- meaning of the facts

  predicate FallsThrough(flow: Flow) {
    flow in {Next, Call, IndirectCall, ConditionalBranch}
  }

  predicate Branches(flow: Flow) {
    flow == ConditionalBranch || flow == UnconditionalBranch
  }

  /** Execution may pass locally from instruction i to instruction j. */
  predicate Flows(items: seq<Instruction>, i: nat, j: nat)
    requires i < |items| && j < |items|
  {
    || (FallsThrough(items[i].flow) && items[j].address == items[i].NextIp())
    || (Branches(items[i].flow) && items[i].near == Some(items[j].address))
  }

  predicate BranchEntersAt(items: seq<Instruction>, i: nat, j: nat)
    requires i < |items| && j < |items|
  {
    || (Branches(items[i].flow) && items[i].near == Some(items[j].address))
    || (items[i].flow.ConditionalBranch? && items[j].address == items[i].NextIp())
  }

  /** The scan's first head, a local branch target, or the fallthrough of a conditional branch. */
  ghost predicate IsBranchEntry(items: seq<Instruction>, j: nat) {
    j < |items| && (j == 0 || exists i | 0 <= i < |items| :: BranchEntersAt(items, i, j))
  }

  /** No two instructions share an address, so every address resolves in one way only. */
  lemma ResolvesUniquely(items: seq<Instruction>, heads: map<nat, nat>, j: nat)
    requires Scanned(items) && HeadsIndexed(items, heads) && j < |items|
    ensures Resolve(heads, items[j].address) == Head(j)
  {
    assert IsResolved(items, items[j].address, Resolve(heads, items[j].address));
    var i := Resolve(heads, items[j].address).index;
    if i < j {
      AddressesAscend(items, i, j);
    } else if j < i {
      AddressesAscend(items, j, i);
    }
  }

  /** A row lists head j exactly when execution may flow there, and is unresolved exactly when its transfer is unknown. */
  lemma RowListsFlows(items: seq<Instruction>, heads: map<nat, nat>, i: nat, j: nat)
    requires Scanned(items) && HeadsIndexed(items, heads) && i < |items| && j < |items|
    ensures Head(j) in RowOf(items[i], heads).successors <==> Flows(items, i, j)
    ensures RowOf(items[i], heads).branchTarget == Some(Head(j)) <==> Branches(items[i].flow) && items[i].near == Some(items[j].address)
    ensures RowOf(items[i], heads).continuation == Some(Head(j)) <==>
              items[i].flow in {Call, IndirectCall, ConditionalBranch} && items[j].address == items[i].NextIp()
    ensures RowOf(items[i], heads).unresolvedTransfer <==>
              items[i].flow.Unsupported? || (items[i].flow in {Call, IndirectCall, ConditionalBranch, UnconditionalBranch} && items[i].near.None?)
  {
    hide HeadsIndexed, Scanned;
    ResolvesUniquely(items, heads, j);
    ResolvedAt(items, heads, items[i].NextIp(), j);
    if items[i].near.Some? {
      ResolvedAt(items, heads, items[i].near.value, j);
    }
  }

  lemma ResolvedAt(items: seq<Instruction>, heads: map<nat, nat>, address: nat, j: nat)
    requires HeadsIndexed(items, heads) && j < |items| && Resolve(heads, items[j].address) == Head(j)
    ensures Resolve(heads, address) == Head(j) <==> items[j].address == address
  {
    assert IsResolved(items, address, Resolve(heads, address));
  }

  // ---------------------------------------------------------------- building and indexing

  /** Rows in source order; the caller's check runs once per head and its first refusal stops the construction. */
  method Build<E>(items: seq<Instruction>, check: (nat, Instruction, RowFacts) -> Result<(), E>) returns (r: Result<GraphFacts, E>)
    requires Scanned(items)
    ensures r.Err? <==> exists i | 0 <= i < |items| :: check(i, items[i], RowOf(items[i], Heads(items))).Err?
    ensures r.Err? ==> exists i | 0 <= i < |items| ::
              && check(i, items[i], RowOf(items[i], Heads(items))) == Err(r.error)
              && forall k | 0 <= k < i :: !check(k, items[k], RowOf(items[k], Heads(items))).Err?
    ensures !r.Err? ==>
              && r.value.items == items && |r.value.rows| == |items|
              && (forall i | 0 <= i < |items| :: r.value.rows[i] == RowOf(items[i], Heads(items)))
              && (forall j: nat :: j in r.value.branchEntries <==> IsBranchEntry(items, j))
  {
    hide RowOf;
    var heads := IndexHeads(items);
    HeadsResolve(items);
    var rows: seq<RowFacts> := [];
    var entries: set<nat> := if items != [] then {0} else {};
    var index := 0;
    while index < |items|
      invariant index <= |items| && |rows| == index
      invariant forall i | 0 <= i < index :: rows[i] == RowOf(items[i], heads) && !check(i, items[i], rows[i]).Err?
      invariant forall j: nat :: j in entries <==> j < |items| && (j == 0 || exists i | 0 <= i < index :: BranchEntersAt(items, i, j))
    {
      var row := RowOf(items[index], heads);
      var checked := check(index, items[index], row);
      if checked.Err? {
        return Err(checked.error);
      }
      ghost var before := entries;
      if row.branchTarget.Some? && row.branchTarget.value.Head? {
        entries := entries + {row.branchTarget.value.index};
      }
      if items[index].flow.ConditionalBranch? && row.continuation.Some? && row.continuation.value.Head? {
        entries := entries + {row.continuation.value.index};
      }
      NewEntries(items, heads, index, before, entries);
      rows := rows + [row];
      index := index + 1;
    }
    r := Ok(GraphFacts(items, rows, entries));
  }

  lemma NewEntries(items: seq<Instruction>, heads: map<nat, nat>, index: nat, before: set<nat>, after: set<nat>)
    requires Scanned(items) && HeadsIndexed(items, heads) && index < |items|
    requires var row := RowOf(items[index], heads);
             after == before
                    + (if row.branchTarget.Some? && row.branchTarget.value.Head? then {row.branchTarget.value.index} else {})
                    + (if items[index].flow.ConditionalBranch? && row.continuation.Some? && row.continuation.value.Head?
                       then {row.continuation.value.index} else {})
    ensures forall j: nat :: j in after <==> j in before || (j < |items| && BranchEntersAt(items, index, j))
  {
    hide Scanned, HeadsIndexed;
    var row := RowOf(items[index], heads);
    TargetsInScan(items, heads, index);
    forall j: nat | j < |items|
      ensures j in after <==> j in before || BranchEntersAt(items, index, j)
    {
      RowListsFlows(items, heads, index, j);
    }
  }

  lemma TargetsInScan(items: seq<Instruction>, heads: map<nat, nat>, i: nat)
    requires HeadsIndexed(items, heads) && i < |items|
    ensures forall t | t in RowOf(items[i], heads).successors && t.Head? :: t.index < |items|
    ensures var b := RowOf(items[i], heads).branchTarget; b.Some? && b.value.Head? ==> b.value.index < |items|
    ensures var c := RowOf(items[i], heads).continuation; c.Some? && c.value.Head? ==> c.value.index < |items|
  {
    assert IsResolved(items, items[i].NextIp(), Resolve(heads, items[i].NextIp()));
    if items[i].near.Some? {
      assert IsResolved(items, items[i].near.value, Resolve(heads, items[i].near.value));
    }
  }

  predicate RowResolved(row: RowFacts) {
    !row.unresolvedTransfer && forall k | 0 <= k < |row.successors| :: row.successors[k].Head?
  }

  predicate EdgesOf(row: RowFacts, edges: seq<nat>) {
    |edges| == |row.successors| && forall k | 0 <= k < |edges| :: row.successors[k] == Head(edges[k])
  }

  /** Every local edge becomes an index, in order and with its multiplicity; the first unknown one is the refusal. */
  method Indexed(facts: GraphFacts) returns (r: Result<seq<seq<nat>>, GraphError>)
    ensures !r.Err? <==> forall i | 0 <= i < |facts.rows| :: RowResolved(facts.rows[i])
    ensures !r.Err? ==> |r.value| == |facts.rows| && forall i | 0 <= i < |facts.rows| :: EdgesOf(facts.rows[i], r.value[i])
    ensures r.Err? ==> exists i | 0 <= i < |facts.rows| ::
              && !RowResolved(facts.rows[i]) && (forall k | 0 <= k < i :: RowResolved(facts.rows[k]))
              && RowRefusal(i, facts.rows[i], r.error)
  {
    var successors: seq<seq<nat>> := [];
    var index := 0;
    while index < |facts.rows|
      invariant index <= |facts.rows| && |successors| == index
      invariant forall i | 0 <= i < index :: RowResolved(facts.rows[i]) && EdgesOf(facts.rows[i], successors[i])
    {
      var row := facts.rows[index];
      if row.unresolvedTransfer {
        return Err(UnresolvedTransfer(index));
      }
      var edges: seq<nat> := [];
      var k := 0;
      while k < |row.successors|
        invariant k <= |row.successors| && |edges| == k
        invariant forall e | 0 <= e < k :: row.successors[e] == Head(edges[e])
      {
        if row.successors[k].NotHead? {
          assert RowRefusal(index, row, UnresolvedTarget(index, row.successors[k].address));
          return Err(UnresolvedTarget(index, row.successors[k].address));
        }
        edges := edges + [row.successors[k].index];
        k := k + 1;
      }
      successors := successors + [edges];
      index := index + 1;
    }
    r := Ok(successors);
  }

  ghost predicate RowRefusal(i: nat, row: RowFacts, error: GraphError) {
    if row.unresolvedTransfer then error == UnresolvedTransfer(i)
    else exists k | 0 <= k < |row.successors| ::
           && row.successors[k].NotHead? && error == UnresolvedTarget(i, row.successors[k].address)
           && forall e | 0 <= e < k :: row.successors[e].Head?
  }

  /** In an indexed graph an edge is exactly a possible local flow of the scanned code. */
  lemma EdgesAreFlows(items: seq<Instruction>, heads: map<nat, nat>, i: nat, j: nat, edges: seq<nat>)
    requires Scanned(items) && HeadsIndexed(items, heads) && i < |items| && j < |items|
    requires EdgesOf(RowOf(items[i], heads), edges)
    ensures j in edges <==> Flows(items, i, j)
    ensures forall k | 0 <= k < |edges| :: edges[k] < |items|
  {
    hide RowOf, Flows, Scanned, HeadsIndexed;
    RowListsFlows(items, heads, i, j);
    TargetsInScan(items, heads, i);
    var successors := RowOf(items[i], heads).successors;
    if j in edges {
      var k :| 0 <= k < |edges| && edges[k] == j;
      assert successors[k] == Head(j);
    }
    if Head(j) in successors {
      var k :| 0 <= k < |successors| && successors[k] == Head(j);
      assert edges[k] == j;
    }
    forall k | 0 <= k < |edges| ensures edges[k] < |items| {
      assert successors[k] in successors;
    }
  }
}
