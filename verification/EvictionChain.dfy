/** Backtracking search for a chain of puns ending in a redirected anchor: src/eviction_chain.rs. */
module EvictionChain {
  import opened LittleEndian
  import opened Wrappers
  import opened Contracts
  import opened VirtualImage
  import opened CompositionRuns
  import opened Snapshots
  import opened Bundle

  const MAX_SHORT_SUCCESSORS := 8
  const PAGE := 4096

  datatype OriginalNode = OriginalNode(pc: U64, len: nat)

  datatype TacticPolicy = GeneralizedPunOnly | PrefixPunOnly | PreferGeneralizedPun | RelocationOnly

  datatype AllocationPolicy = AllocationPolicy(
    preferred: Option<U64>, ranges: seq<AddressRange>, maxCandidates: nat, maxMappings: nat, maxMappedBytes: nat)

  // ---------------------------------------------------------------- redirects and windows

  /** `near_redirect` of src/eviction.rs: E9 with a rel32 from the end of the five bytes. */
  function NearRedirect(source: U64, target: U64): (r: Result<seq<byte>, Refusal>)
    ensures r.Ok? ==> |r.value| == 5
  {
    var displacement := target - source - 5;
    if FitsSigned(displacement, 4) then Ok([0xe9] + EncodeSigned(displacement, 4)) else Err(AllocationUnavailable)
  }

  /** Wherever memory holds a near redirect, the processor jumps to its target. */
  lemma NearRedirectLands(source: U64, target: U64, memory: Image)
    requires NearRedirect(source, target).Ok? && Holds(memory, source, NearRedirect(source, target).value)
    ensures Lands(memory, source, target)
  {
    hide Lands, Holds, Signed, Unsigned, EncodeSigned, Pow256;
    var displacement := target - source - 5;
    var none: seq<byte> := [];
    var bytes := EncodeSigned(displacement, 4);
    var code := [0xe9] + bytes;
    EncodeSignedRoundTrip(displacement, 4);
    assert none + bytes == bytes && code[1..] == bytes;
    PunEncodingLands(memory, source, 0, none, bytes, code);
  }

  /** `image_allocation`: the whole pages an image touches. */
  function ImageAllocation(image: Span): Result<AddressRange, Refusal> {
    var start := image.address - image.address % PAGE;
    var last := image.address + |image.bytes| + (PAGE - 1);
    if last >= 0x1_0000_0000_0000_0000 then Err(InvalidRange)
    else NewRange(start, last - last % PAGE - start)
  }

  /** Pages cover the image and start and end on page boundaries. */
  lemma AllocationCoversImage(image: Span)
    requires image.bytes != [] && ImageAllocation(image).Ok?
    ensures var pages := ImageAllocation(image).value;
            && pages.start <= image.address && image.End() <= pages.end
            && pages.start % PAGE == 0 && pages.end % PAGE == 0
            && image.address - pages.start < PAGE && pages.end - image.End() < PAGE
  {
  }

  /** The k-th placement candidate of an anchor: 64 KiB steps from the preferred address, within rel32 reach. */
  function CandidateTarget(pc: U64, preferred: Option<U64>, slot: nat): Option<U64> {
    var next := pc + 5;
    var seed := (if preferred.Some? then preferred.value else next + 0x1_0000) + slot * 0x1_0000;
    if next + 0x1_0000 < 0x1_0000_0000_0000_0000 && seed < 0x1_0000_0000_0000_0000 && FitsSigned(seed - next, 4)
    then Some(seed) else None
  }

  /** A pun's window, computed from the current overlay before any plan exists. */
  function PunWindow(source: AddressRange, overlay: seq<byte>, node: OriginalNode, prefixes: nat): Result<AddressRange, Refusal>
    requires |overlay| == source.Len()
  {
    if prefixes >= node.len || !(1 <= node.len <= 4) then Err(NoPatchWindow)
    else
      var consumed :- NewRange(node.pc, 5 + prefixes);
      var _ :- Need(source.Covers(consumed), NoPatchWindow);
      var offset := node.pc - source.start;
      var free := node.len - prefixes - 1;
      var high := overlay[offset + node.len..offset + 5 + prefixes];
      var low := PunTarget(node.pc + 5 + prefixes, Zeros(free), high);
      var _ :- Need(0 <= low < 0x1_0000_0000_0000_0000, AllocationUnavailable);
      NewRange(low, Pow256(free))
  }

  /** The plan was made for this head, with this many prefixes, reading the whole source as `overlay`. */
  ghost predicate PunFor(source: AddressRange, overlay: seq<byte>, node: OriginalNode, prefixes: nat, plan: PlanParts) {
    && PunAccepted(plan) && plan.physicalPc == node.pc && plan.Width() == node.len && plan.Prefixes() == prefixes
    && plan.readSet == [Span(source.start, overlay)]
  }

  /** The window taken from the overlay is the window the plan check demands. */
  lemma WindowsAgree(source: AddressRange, overlay: seq<byte>, node: OriginalNode, prefixes: nat, plan: PlanParts)
    requires |overlay| == source.Len() && PunFor(source, overlay, node, prefixes, plan)
    ensures PunWindow(source, overlay, node, prefixes) == Ok(plan.Shape().targetWindow)
  {
    hide CheckPunStore, Signed, Unsigned, Pow256, Zeros, OriginalBytes;
    var consumed, offset := plan.Shape().consumed, node.pc - source.start;
    OneReadCovers(Span(source.start, overlay), consumed);
    var original := OriginalBytes(plan.readSet, consumed).value;
    assert original == overlay[offset..offset + 5 + prefixes];
    assert original[node.len..] == overlay[offset + node.len..offset + 5 + prefixes];
  }

  lemma OneReadCovers(read: Span, range: AddressRange)
    requires OriginalBytes([read], range).Ok?
    ensures read.Range().Ok? && read.Range().value.Covers(range)
    ensures OriginalBytes([read], range).value == read.bytes[range.start - read.address..range.end - read.address]
  {
    assert [read][1..] == [];
    assert OriginalBytes([], range) == Err(InvalidPlan);
  }

  // ---------------------------------------------------------------- candidate targets of a pun

  /** What every candidate list keeps: no more than allowed, none twice, all inside the window. */
  ghost predicate CandidateList(addresses: seq<U64>, window: AddressRange, max: nat) {
    && |addresses| <= max
    && (forall i, j | 0 <= i < j < |addresses| :: addresses[i] != addresses[j])
    && forall i | 0 <= i < |addresses| :: window.Contains(addresses[i])
  }

  function AddCandidate(addresses: seq<U64>, address: U64, window: AddressRange, max: nat): (r: seq<U64>)
    requires CandidateList(addresses, window, max) && window.Contains(address)
    ensures CandidateList(r, window, max)
  {
    if |addresses| < max && address !in addresses then addresses + [address] else addresses
  }

  /** At most one candidate per page boundary, from `address` up to `end`. */
  function PageCandidates(addresses: seq<U64>, address: U64, end: U64, steps: nat, window: AddressRange, max: nat): (r: seq<U64>)
    requires CandidateList(addresses, window, max) && window.start <= address && end <= window.end
    ensures CandidateList(r, window, max)
    decreases steps
  {
    if steps == 0 || address >= end then addresses
    else
      var more := AddCandidate(addresses, address, window, max);
      var next := address - address % PAGE + PAGE;
      if next >= 0x1_0000_0000_0000_0000 then more else PageCandidates(more, next, end, steps - 1, window, max)
  }

  function RangeCandidates(addresses: seq<U64>, ranges: seq<AddressRange>, window: AddressRange, max: nat): (r: seq<U64>)
    requires CandidateList(addresses, window, max)
    ensures CandidateList(r, window, max)
    decreases |ranges|
  {
    if ranges == [] then addresses
    else
      var up := ranges[0].start + (PAGE - 1);
      if up >= 0x1_0000_0000_0000_0000 then RangeCandidates(addresses, ranges[1..], window, max)
      else
        var first := up - up % PAGE;
        var from := if window.start < first then first else window.start;
        var end := if window.end < ranges[0].end then window.end else ranges[0].end;
        RangeCandidates(PageCandidates(addresses, from, end, max, window, max), ranges[1..], window, max)
  }

  /** `pun_candidates` of src/quiescent.rs: the preferred target if it is reachable, then page boundaries of the policy's ranges. */
  function PunCandidates(window: AddressRange, policy: AllocationPolicy): (r: seq<U64>)
    ensures CandidateList(r, window, policy.maxCandidates)
  {
    var preferred := if policy.preferred.Some? && window.Contains(policy.preferred.value)
                     then AddCandidate([], policy.preferred.value, window, policy.maxCandidates) else [];
    RangeCandidates(preferred, policy.ranges, window, policy.maxCandidates)
  }

  // ---------------------------------------------------------------- discovering the original chain

  /** Everything `original_chain` consults; instruction decoding and qualification are given. */
  datatype Discovery = Discovery(
    instructions: seq<OriginalNode>,
    logicalPc: U64,
    block: AddressRange,
    maxSites: nat,
    maxDisplaced: nat,
    selectedTactics: TacticPolicy,
    auxiliaryTactics: TacticPolicy,
    maxShort: nat,
    forced: Option<seq<U64>>,
    selectedQualified: Result<(), Refusal>,
    qualify: OriginalNode -> Result<(), Refusal>)
  {
    function Find(pc: int): Option<OriginalNode> {
      FindHead(instructions, pc)
    }
  }

  function FindHead(instructions: seq<OriginalNode>, pc: int): (r: Option<OriginalNode>)
    ensures r.Some? ==> r.value in instructions && r.value.pc == pc
    ensures r.None? ==> forall i | 0 <= i < |instructions| :: instructions[i].pc != pc
  {
    if instructions == [] then None
    else if instructions[0].pc == pc then Some(instructions[0])
    else FindHead(instructions[1..], pc)
  }

  /** A forced list must be nonempty, short enough, increasing and start after the selected head. */
  predicate ForcedListAllowed(forced: seq<U64>, logicalPc: U64) {
    && forced != [] && |forced| <= MAX_SHORT_SUCCESSORS + 1
    && (forall i | 0 < i < |forced| :: forced[i - 1] < forced[i])
    && forced[0] > logicalPc
  }

  function SelectedHead(d: Discovery): Result<OriginalNode, Refusal> {
    var _ :- Need(d.maxShort <= MAX_SHORT_SUCCESSORS, UnsupportedSemantics("chain recursion bound exceeds hard limit"));
    var _ :- Need(d.maxSites != 0, NoPatchWindow);
    var _ :- Need(!d.selectedTactics.RelocationOnly? && !d.auxiliaryTactics.RelocationOnly?,
                  UnsupportedSemantics("successor chains require B2/T1 puns"));
    var _ :- Need(d.forced.None? || ForcedListAllowed(d.forced.value, d.logicalPc), InvalidPlan);
    var found := d.Find(d.logicalPc);
    var _ :- Need(found.Some?, NotInstructionHead);
    var selected := found.value;
    var _ :- Need(1 <= selected.len <= 4 && selected.len <= d.maxDisplaced, NoPatchWindow);
    var range :- NewRange(selected.pc, selected.len);
    var _ :- Need(d.block.Covers(range), NoPatchWindow);
    var _ :- d.selectedQualified;
    Ok(selected)
  }

  /** What is asked before the first step: bounds, tactics, forced list, and one short qualified head inside its block. */
  ghost predicate HeadAdmitted(d: Discovery, head: OriginalNode) {
    && d.maxShort <= 8 && d.maxSites > 0
    && !d.selectedTactics.RelocationOnly? && !d.auxiliaryTactics.RelocationOnly?
    && (d.forced.Some? ==>
          && 0 < |d.forced.value| <= 9 && d.logicalPc < d.forced.value[0]
          && forall i, j | 0 <= i < j < |d.forced.value| :: d.forced.value[i] < d.forced.value[j])
    && head.pc == d.logicalPc && 1 <= head.len <= 4 && head.len <= d.maxDisplaced
    && d.block.start <= head.pc && head.pc + head.len <= d.block.end
    && d.selectedQualified.Ok?
  }

  lemma {:induction false} ForcedAscends(forced: seq<U64>, i: nat, j: nat)
    requires i < j < |forced| && forall k | 0 < k < |forced| :: forced[k - 1] < forced[k]
    ensures forced[i] < forced[j]
    decreases j
  {
    if i < j - 1 {
      ForcedAscends(forced, i, j - 1);
    }
  }

  /** The first instruction listed at the selected address is the head, if all of that holds of it. */
  lemma SelectedHeadExactly(d: Discovery)
    ensures SelectedHead(d).Ok? <==> d.Find(d.logicalPc).Some? && HeadAdmitted(d, d.Find(d.logicalPc).value)
    ensures SelectedHead(d).Ok? ==> SelectedHead(d).value == d.Find(d.logicalPc).value
  {
    hide FindHead;
    if d.forced.Some? && ForcedListAllowed(d.forced.value, d.logicalPc) {
      forall i, j | 0 <= i < j < |d.forced.value| ensures d.forced.value[i] < d.forced.value[j] {
        ForcedAscends(d.forced.value, i, j);
      }
    }
  }

  /** Following immediate successors from the last node until a whole long instruction is met. */
  function Walk(d: Discovery, nodes: seq<OriginalNode>): Result<seq<OriginalNode>, Refusal>
    requires nodes != []
    decreases d.maxShort + 2 - |nodes|
  {
    var last := nodes[|nodes| - 1];
    var pc := last.pc + last.len;
    var _ :- Need(pc < 0x1_0000_0000_0000_0000, InvalidRange);
    var _ :- Need(d.forced.None? || (|nodes| - 1 < |d.forced.value| && d.forced.value[|nodes| - 1] == pc), InvalidPlan);
    var found := d.Find(pc);
    var _ :- Need(found.Some?, NoPatchWindow);
    var _ :- d.qualify(found.value);
    var longer := nodes + [found.value];
    if found.value.len >= 5 then
      var _ :- Need(|nodes| >= 2, NoPatchWindow);
      var _ :- Need(d.forced.None? || |d.forced.value| == |nodes|, InvalidPlan);
      Ok(longer)
    else if |nodes| > d.maxShort then Err(AllocationUnavailable)
    else Walk(d, longer)
  }

  /** Adjacent original instructions: one short head, short successors, one long anchor. */
  ghost predicate Contiguous(nodes: seq<OriginalNode>) {
    forall i | 0 < i < |nodes| :: nodes[i - 1].pc + nodes[i - 1].len == nodes[i].pc
  }

  ghost predicate IsOriginalChain(d: Discovery, nodes: seq<OriginalNode>) {
    && 3 <= |nodes| <= d.maxShort + 2 <= MAX_SHORT_SUCCESSORS + 2
    && nodes[0].pc == d.logicalPc
    && Contiguous(nodes)
    && (forall i | 0 <= i < |nodes| :: nodes[i] in d.instructions)
    && (forall i | 0 < i < |nodes| :: d.qualify(nodes[i]).Ok?)
    && (forall i | 0 <= i < |nodes| - 1 :: nodes[i].len < 5)
    && nodes[|nodes| - 1].len >= 5
    && (d.forced.Some? ==> |d.forced.value| == |nodes| - 1 && forall i | 0 < i < |nodes| :: d.forced.value[i - 1] == nodes[i].pc)
  }

  ghost predicate PartialChain(d: Discovery, nodes: seq<OriginalNode>) {
    && nodes != [] && nodes[0].pc == d.logicalPc && Contiguous(nodes)
    && (forall i | 0 <= i < |nodes| :: nodes[i] in d.instructions && nodes[i].len < 5)
    && (forall i | 0 < i < |nodes| :: d.qualify(nodes[i]).Ok?)
    && (d.forced.Some? ==> |nodes| - 1 <= |d.forced.value| && forall i | 0 < i < |nodes| :: d.forced.value[i - 1] == nodes[i].pc)
  }

  lemma {:induction false} WalkFindsChain(d: Discovery, nodes: seq<OriginalNode>)
    requires PartialChain(d, nodes) && Walk(d, nodes).Ok? && |nodes| <= d.maxShort + 1 && d.maxShort <= MAX_SHORT_SUCCESSORS
    ensures IsOriginalChain(d, Walk(d, nodes).value)
    decreases d.maxShort + 2 - |nodes|
  {
    var last := nodes[|nodes| - 1];
    var next := d.Find(last.pc + last.len).value;
    if next.len < 5 {
      PartialGrows(d, nodes, next);
      hide PartialChain, IsOriginalChain, FindHead;
      WalkFindsChain(d, nodes + [next]);
    } else {
      PartialEnds(d, nodes, next);
      hide PartialChain, IsOriginalChain, FindHead;
    }
  }

  lemma PartialGrows(d: Discovery, nodes: seq<OriginalNode>, next: OriginalNode)
    requires PartialChain(d, nodes) && next in d.instructions && next.len < 5 && d.qualify(next).Ok?
    requires next.pc == nodes[|nodes| - 1].pc + nodes[|nodes| - 1].len
    requires d.forced.Some? ==> |nodes| - 1 < |d.forced.value| && d.forced.value[|nodes| - 1] == next.pc
    ensures PartialChain(d, nodes + [next])
  {
  }

  lemma PartialEnds(d: Discovery, nodes: seq<OriginalNode>, next: OriginalNode)
    requires PartialChain(d, nodes) && next in d.instructions && next.len >= 5 && d.qualify(next).Ok?
    requires next.pc == nodes[|nodes| - 1].pc + nodes[|nodes| - 1].len
    requires 2 <= |nodes| <= d.maxShort + 1 && d.maxShort <= MAX_SHORT_SUCCESSORS
    requires d.forced.Some? ==> |d.forced.value| == |nodes| && d.forced.value[|nodes| - 1] == next.pc
    ensures IsOriginalChain(d, nodes + [next])
  {
  }

  /** Conversely the walk reaches every chain there is: heads are found by address, one at a time. */
  lemma {:induction false} WalkIsComplete(d: Discovery, chain: seq<OriginalNode>, k: nat)
    requires IsOriginalChain(d, chain) && 0 < k < |chain|
    requires forall i | 0 <= i < |chain| :: d.Find(chain[i].pc) == Some(chain[i])
    ensures Walk(d, chain[..k]) == Ok(chain)
    decreases |chain| - k
  {
    hide FindHead;
    var nodes := chain[..k];
    assert d.Find(chain[k].pc) == Some(chain[k]) && chain[k - 1].pc + chain[k - 1].len == chain[k].pc;
    assert nodes[|nodes| - 1] == chain[k - 1];
    assert nodes + [chain[k]] == chain[..k + 1];
    if k + 1 < |chain| {
      WalkIsComplete(d, chain, k + 1);
    } else {
      assert chain[..k + 1] == chain;
    }
  }

  datatype SearchStop = Interrupted | Accepted | BudgetLimited | DomainComplete | Finished

  datatype ChainDiscovery = ChainDiscovery(shortSuccessors: seq<int>, anchor: Option<int>, stop: SearchStop)

  function Pcs(nodes: seq<OriginalNode>): (r: seq<int>)
    ensures |r| == |nodes| && forall i | 0 <= i < |r| :: r[i] == nodes[i].pc
  {
    seq(|nodes|, i requires 0 <= i < |nodes| => nodes[i].pc)
  }

  /** The successors visited so far: none yet, or those of a contiguous run of qualified short heads. */
  ghost predicate VisitedShorts(d: Discovery, shorts: seq<int>) {
    shorts == [] || exists nodes :: PartialChain(d, nodes) && Pcs(nodes[1..]) == shorts
  }

  /** What the evidence says of the answer. */
  ghost predicate Evident(d: Discovery, r: Result<seq<OriginalNode>, Refusal>, evidence: ChainDiscovery) {
    && VisitedShorts(d, evidence.shortSuccessors)
    && (evidence.anchor.Some? <==> r.Ok?) && (evidence.stop.DomainComplete? <==> r.Ok?)
    && (r.Ok? ==>
          && |r.value| >= 2 && evidence.anchor == Some(r.value[|r.value| - 1].pc)
          && evidence.shortSuccessors == Pcs(r.value[1..|r.value| - 1]))
    && (evidence.stop.BudgetLimited? ==> r == Err(AllocationUnavailable) && |evidence.shortSuccessors| == d.maxShort + 1)
  }

  /** The head that follows the walked nodes, if the forced list, the scan and qualification allow it. */
  function Successor(d: Discovery, nodes: seq<OriginalNode>): (r: Result<OriginalNode, Refusal>)
    requires nodes != []
  {
    var last := nodes[|nodes| - 1];
    var pc := last.pc + last.len;
    var _ :- Need(pc < 0x1_0000_0000_0000_0000, InvalidRange);
    var _ :- Need(d.forced.None? || (|nodes| - 1 < |d.forced.value| && d.forced.value[|nodes| - 1] == pc), InvalidPlan);
    var found := d.Find(pc);
    var _ :- Need(found.Some?, NoPatchWindow);
    var _ :- d.qualify(found.value);
    Ok(found.value)
  }

  lemma SuccessorFollows(d: Discovery, nodes: seq<OriginalNode>)
    requires nodes != [] && Successor(d, nodes).Ok?
    ensures var next, last := Successor(d, nodes).value, nodes[|nodes| - 1];
            && next in d.instructions && next.pc == last.pc + last.len && d.qualify(next).Ok?
            && (d.forced.Some? ==> |nodes| - 1 < |d.forced.value| && d.forced.value[|nodes| - 1] == next.pc)
  {
    hide FindHead;
  }

  method NextNode(d: Discovery, nodes: seq<OriginalNode>) returns (r: Result<OriginalNode, Refusal>)
    requires nodes != []
    ensures r == Successor(d, nodes)
  {
    var previous := nodes[|nodes| - 1];
    var pc := previous.pc + previous.len;
    if pc >= 0x1_0000_0000_0000_0000 {
      return Err(InvalidRange);
    }
    if d.forced.Some? && !(|nodes| - 1 < |d.forced.value| && d.forced.value[|nodes| - 1] == pc) {
      return Err(InvalidPlan);
    }
    var found := d.Find(pc);
    if found.None? {
      return Err(NoPatchWindow);
    }
    var qualified := d.qualify(found.value);
    if qualified.Err? {
      return Err(qualified.error);
    }
    r := Ok(found.value);
  }

  lemma WalkUnfolds(d: Discovery, nodes: seq<OriginalNode>)
    requires nodes != []
    ensures Walk(d, nodes) ==
              var next := Successor(d, nodes);
              if next.Err? then Err(next.error)
              else if next.value.len >= 5 then
                if |nodes| < 2 then Err(NoPatchWindow)
                else if d.forced.Some? && |d.forced.value| != |nodes| then Err(InvalidPlan)
                else Ok(nodes + [next.value])
              else if |nodes| > d.maxShort then Err(AllocationUnavailable)
              else Walk(d, nodes + [next.value])
  {
    hide FindHead;
  }

  lemma VisitedSoFar(d: Discovery, nodes: seq<OriginalNode>)
    requires PartialChain(d, nodes)
    ensures VisitedShorts(d, Pcs(nodes[1..]))
  {
    hide PartialChain;
  }

  /** The discovery loop, with its evidence. */
  method OriginalChain(d: Discovery) returns (r: Result<seq<OriginalNode>, Refusal>, evidence: ChainDiscovery)
    ensures r == if SelectedHead(d).Err? then Err(SelectedHead(d).error) else Walk(d, [SelectedHead(d).value])
    ensures r.Ok? ==> IsOriginalChain(d, r.value)
    ensures Evident(d, r, evidence)
  {
    hide IsOriginalChain, PartialChain, VisitedShorts, Walk, Successor, SelectedHead;
    evidence := ChainDiscovery([], None, Interrupted);
    NothingVisited(d);
    var selected := SelectedHead(d);
    if selected.Err? {
      return Err(selected.error), evidence;
    }
    var nodes := [selected.value];
    HeadStarts(d);
    ghost var start := nodes;
    if Walk(d, start).Ok? {
      WalkFindsChain(d, start);
    }
    while true
      invariant 1 <= |nodes| <= d.maxShort + 1 && PartialChain(d, nodes)
      invariant Walk(d, start) == Walk(d, nodes)
      invariant evidence == ChainDiscovery(Pcs(nodes[1..]), None, Interrupted) && VisitedShorts(d, Pcs(nodes[1..]))
      decreases d.maxShort + 2 - |nodes|
    {
      WalkUnfolds(d, nodes);
      var next := NextNode(d, nodes);
      if next.Err? {
        return Err(next.error), evidence;
      }
      SuccessorFollows(d, nodes);
      var longer := nodes + [next.value];
      if next.value.len >= 5 {
        if |nodes| < 2 {
          return Err(NoPatchWindow), evidence;
        }
        if d.forced.Some? && |d.forced.value| != |nodes| {
          return Err(InvalidPlan), evidence;
        }
        assert longer[1..|longer| - 1] == nodes[1..];
        return Ok(longer), evidence.(anchor := Some(next.value.pc), stop := DomainComplete);
      }
      PartialGrows(d, nodes, next.value);
      VisitedSoFar(d, longer);
      assert Pcs(longer[1..]) == Pcs(nodes[1..]) + [next.value.pc];
      evidence := evidence.(shortSuccessors := evidence.shortSuccessors + [next.value.pc]);
      if |nodes| > d.maxShort {
        return Err(AllocationUnavailable), evidence.(stop := BudgetLimited);
      }
      nodes := longer;
    }
  }

  lemma NothingVisited(d: Discovery)
    ensures VisitedShorts(d, [])
  {
  }

  lemma HeadStarts(d: Discovery)
    requires SelectedHead(d).Ok?
    ensures PartialChain(d, [SelectedHead(d).value]) && d.maxShort <= MAX_SHORT_SUCCESSORS
  {
  }
}
