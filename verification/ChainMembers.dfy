/** The parts of a chain search of src/eviction_chain.rs: its nodes' members, what may be tried, and when there is no chain. */
module ChainMembers {
  import opened LittleEndian
  import opened Wrappers
  import opened Contracts
  import opened VirtualImage
  import opened CompositionRuns
  import opened Snapshots
  import opened Bundle
  import opened EvictionChain
  import opened Candidates

  /** Leaf planners and emitters, which this model does not look inside. */
  datatype Leaves = Leaves(
    anchorImage: U64 -> Result<GeneratedCode, Refusal>,
    anchorQualified: Result<(), Refusal>,
    pun: (seq<byte>, nat, nat, U64, seq<AddressRange>) -> Result<PlanParts, Refusal>)

  datatype ChainContext = ChainContext(
    identity: CodeIdentity,
    entries: LegalEntrySet,
    source: AddressRange,
    code: seq<byte>,
    nodes: seq<OriginalNode>,
    policies: seq<AllocationPolicy>,
    selectedTactics: TacticPolicy,
    auxiliaryTactics: TacticPolicy,
    maxTrials: nat,
    occupied: seq<AddressRange>,
    budget: BundleBudget,
    leaves: Leaves)
  {
    function Anchor(): int {
      |nodes| - 1
    }

    /** The exact-target pun leaf returns only checked plans for the head, prefix and target it was asked for. */
    ghost predicate LeavesHonest() {
      && (forall target: U64 {:trigger leaves.anchorImage(target)} ::
            leaves.anchorImage(target).Ok? ==> leaves.anchorImage(target).value.image.address == target)
      && (forall overlay: seq<byte>, index: nat, prefix: nat, target: U64, held: seq<AddressRange> | index < |nodes| ::
            leaves.pun(overlay, index, prefix, target, held).Ok? ==>
              PunMember(nodes[index], prefix, target, leaves.pun(overlay, index, prefix, target, held).value))
    }

    ghost predicate WellFormed() {
      nodes != [] && |code| == source.Len() && LeavesHonest()
    }

    ghost predicate Valid() {
      |nodes| == |policies| && WellFormed()
    }
  }

  /** What a pun leaf returns on success. */
  ghost predicate PunMember(node: OriginalNode, prefix: nat, target: U64, plan: PlanParts) {
    && IsPatchPlan(plan) && plan.IsPun() && plan.physicalPc == node.pc
    && plan.Width() == node.len && plan.Prefixes() == prefix && (plan.kind.PrefixedPun? <==> prefix > 0)
    && |plan.generated| == 1 && plan.generated[0].image.address == target
  }

  /** The relocation an anchor gets: its near redirect to its own image, over its whole original length. */
  ghost predicate AnchorMemberFor(node: OriginalNode, target: U64, plan: PlanParts) {
    && IsPatchPlan(plan) && plan.kind.Relocation? && plan.physicalPc == node.pc
    && plan.displaced.start == node.pc && plan.displaced.Len() == node.len
    && |plan.generated| == 1 && plan.generated[0].image.address == target
    && NearRedirect(node.pc, target).Ok?
    && plan.writes == [Span(node.pc, NearRedirect(node.pc, target).value)]
  }

  /** A step placed for node `index`: the anchor's redirect, or a pun for any other node. */
  ghost predicate StepFor(nodes: seq<OriginalNode>, index: nat, plan: PlanParts)
    requires index < |nodes|
  {
    |plan.generated| == 1 &&
    if index == |nodes| - 1 then AnchorMemberFor(nodes[index], plan.generated[0].image.address, plan)
    else PunMember(nodes[index], if plan.kind.PrefixedPun? then plan.Prefixes() else 0, plan.generated[0].image.address, plan)
  }

  /** Members are placed from the anchor down: member j belongs to node n-1-j. */
  ghost predicate PlacedSuffix(nodes: seq<OriginalNode>, members: seq<PlanParts>) {
    && |members| <= |nodes|
    && forall j | 0 <= j < |members| :: StepFor(nodes, |nodes| - 1 - j, members[j])
  }

  // ---------------------------------------------------------------- single members

  function TacticsFor(c: ChainContext, index: nat): TacticPolicy {
    if index == 0 then c.selectedTactics else c.auxiliaryTactics
  }

  function PrefixChoices(policy: TacticPolicy, len: nat): Result<seq<nat>, Refusal> {
    match policy
    case GeneralizedPunOnly => Ok([0])
    case PrefixPunOnly =>
      if len > 1 then Ok(seq(len - 1, i => i + 1)) else Err(NoPatchWindow)
    case PreferGeneralizedPun => Ok(seq(len, i => i))
    case RelocationOnly => Err(UnsupportedSemantics("chain requires pun"))
  }

  /** `instruction_member_plan`: one relocation whose only write is the redirect. */
  function AnchorParts(c: ChainContext, overlay: seq<byte>, displaced: AddressRange, image: GeneratedCode,
                       allocation: AddressRange, patch: seq<byte>): PlanParts {
    PlanParts(
      c.identity, InstallOnce, Relocation, displaced.start, displaced.start, displaced,
      [Span(c.source.start, overlay)], [Span(displaced.start, patch)], [c.source],
      c.entries, [Preserved(displaced.start)], [allocation], [image], Requirements(true, true, false))
  }

  function AnchorMember(c: ChainContext, overlay: seq<byte>, occupied: seq<AddressRange>, target: U64): Result<PlanParts, Refusal>
    requires |c.nodes| == |c.policies| && c.nodes != []
  {
    var node, policy := c.nodes[c.Anchor()], c.policies[c.Anchor()];
    var displaced :- NewRange(node.pc, node.len);
    var _ :- c.leaves.anchorQualified;
    var image :- c.leaves.anchorImage(target);
    var allocation :- ImageAllocation(image.image);
    var _ :- Need(
      && allocation.Len() <= policy.maxMappedBytes
      && (exists range | range in policy.ranges :: range.Covers(allocation))
      && !(exists range | range in occupied :: range.Overlaps(allocation)), AllocationUnavailable);
    var patch :- NearRedirect(node.pc, target);
    Checked(AnchorParts(c, overlay, displaced, image, allocation, patch))
  }

  lemma AnchorMemberIsRedirect(c: ChainContext, overlay: seq<byte>, occupied: seq<AddressRange>, target: U64)
    requires c.Valid() && AnchorMember(c, overlay, occupied, target).Ok?
    ensures AnchorMemberFor(c.nodes[c.Anchor()], target, AnchorMember(c, overlay, occupied, target).value)
  {
    hide SpansHeld, WritesAuthenticated, ImagesAllocated, CheckPun, NearRedirect, ImageAllocation;
  }

  lemma MembersAreChecked(nodes: seq<OriginalNode>, members: seq<PlanParts>)
    requires PlacedSuffix(nodes, members)
    ensures forall j | 0 <= j < |members| :: IsPatchPlan(members[j])
  {
    hide IsPatchPlan, NearRedirect;
    forall j | 0 <= j < |members| ensures IsPatchPlan(members[j]) {
      assert StepFor(nodes, |nodes| - 1 - j, members[j]);
    }
  }

  lemma SingleSnapshot(snapshots: seq<Span>, whole: Span)
    requires multiset(snapshots) == multiset([whole])
    ensures snapshots == [whole]
  {
    assert |snapshots| == |multiset(snapshots)| == |multiset([whole])| == 1;
    assert snapshots[0] in multiset(snapshots);
  }

  /** The anchor's pages lie in one range of its policy, within its byte limit, and touch nothing occupied. */
  lemma AnchorMemberIsPlaced(c: ChainContext, overlay: seq<byte>, occupied: seq<AddressRange>, target: U64)
    requires c.Valid() && AnchorMember(c, overlay, occupied, target).Ok?
    ensures var plan, policy := AnchorMember(c, overlay, occupied, target).value, c.policies[c.Anchor()];
            && |plan.allocations| == 1 && plan.allocations[0].start % PAGE == 0 && plan.allocations[0].end % PAGE == 0
            && plan.allocations[0].start <= target < plan.allocations[0].end
            && plan.allocations[0].Len() <= policy.maxMappedBytes
            && (exists range | range in policy.ranges :: range.Covers(plan.allocations[0]))
            && forall range | range in occupied :: !range.Overlaps(plan.allocations[0])
  {
    hide SpansHeld, WritesAuthenticated, CheckPun, NearRedirect;
    AnchorMemberIsRedirect(c, overlay, occupied, target);
    var plan := AnchorMember(c, overlay, occupied, target).value;
    assert plan.generated[0].image.Range().Ok?;
    AllocationCoversImage(plan.generated[0].image);
  }

  /** What an anchor's image needs of its pages. */
  ghost predicate Placeable(pages: AddressRange, policy: AllocationPolicy, occupied: seq<AddressRange>) {
    && pages.Len() <= policy.maxMappedBytes
    && (exists k | 0 <= k < |policy.ranges| :: policy.ranges[k].start <= pages.start && pages.end <= policy.ranges[k].end)
    && forall k | 0 <= k < |occupied| :: occupied[k].end <= pages.start || pages.end <= occupied[k].start
  }

  /** An anchor is placed at a target exactly if it qualifies, has an image there, and that image can be placed and reached. */
  lemma AnchorMemberExactly(c: ChainContext, overlay: seq<byte>, occupied: seq<AddressRange>, target: U64)
    requires c.Valid()
    ensures var node := c.nodes[c.Anchor()];
            AnchorMember(c, overlay, occupied, target).Ok? <==>
              && node.len > 0 && node.pc + node.len < 0x1_0000_0000_0000_0000
              && c.leaves.anchorQualified.Ok? && c.leaves.anchorImage(target).Ok?
              && var image := c.leaves.anchorImage(target).value;
                 && ImageAllocation(image.image).Ok?
                 && Placeable(ImageAllocation(image.image).value, c.policies[c.Anchor()], occupied)
                 && -0x8000_0000 <= target - (node.pc + 5) < 0x8000_0000
                 && IsPatchPlan(AnchorParts(
                      c, overlay, Interval(node.pc, node.pc + node.len), image, ImageAllocation(image.image).value,
                      [0xe9] + EncodeSigned(target - node.pc - 5, 4)))
  {
    hide Checked, ImageAllocation, EncodeSigned, ChainContext.LeavesHonest;
    assert Pow256(4) == 0x1_0000_0000;
    var node, policy := c.nodes[c.Anchor()], c.policies[c.Anchor()];
    assert NewRange(node.pc, node.len).Ok? ==> NewRange(node.pc, node.len).value == Interval(node.pc, node.pc + node.len);
    assert NearRedirect(node.pc, target).Ok? <==> -0x8000_0000 <= target - (node.pc + 5) < 0x8000_0000;
    if c.leaves.anchorImage(target).Ok? && ImageAllocation(c.leaves.anchorImage(target).value.image).Ok? {
      var pages := ImageAllocation(c.leaves.anchorImage(target).value.image).value;
      assert (exists range | range in policy.ranges :: range.Covers(pages)) <==>
             exists k | 0 <= k < |policy.ranges| :: policy.ranges[k].start <= pages.start && pages.end <= policy.ranges[k].end by {
        if k :| 0 <= k < |policy.ranges| && policy.ranges[k].start <= pages.start && pages.end <= policy.ranges[k].end {
          assert policy.ranges[k] in policy.ranges;
        }
      }
      if k :| 0 <= k < |occupied| && !(occupied[k].end <= pages.start || pages.end <= occupied[k].start) {
        assert occupied[k] in occupied && occupied[k].Overlaps(pages);
      }
    }
  }

  // ---------------------------------------------------------------- what a node may be tried with

  /** Prefix counts that a tactic policy lets a head of this length try. */
  predicate MayTry(policy: TacticPolicy, len: nat, prefixes: nat) {
    match policy
    case GeneralizedPunOnly => prefixes == 0
    case PrefixPunOnly => 1 <= prefixes < len
    case PreferGeneralizedPun => prefixes < len
    case RelocationOnly => false
  }

  /** The choices are all of those, each once and in ascending order; only two policies refuse. */
  lemma PrefixChoicesExactly(policy: TacticPolicy, len: nat)
    ensures var r := PrefixChoices(policy, len);
            && (r.Err? <==> policy.RelocationOnly? || (policy.PrefixPunOnly? && len <= 1))
            && (r.Err? && policy.PrefixPunOnly? ==> r.error == NoPatchWindow)
            && (r.Ok? ==> (forall i, j | 0 <= i < j < |r.value| :: r.value[i] < r.value[j])
                          && (forall prefixes: nat :: prefixes in r.value <==> MayTry(policy, len, prefixes)))
  {
    var r := PrefixChoices(policy, len);
    if r.Ok? {
      forall prefixes: nat ensures prefixes in r.value <==> MayTry(policy, len, prefixes) {
        if MayTry(policy, len, prefixes) {
          assert r.value[prefixes - r.value[0]] == prefixes;
        }
      }
    }
  }

  /** An anchor's k-th address: 64 KiB steps from the preferred one, within reach of a rel32 jump. */
  ghost predicate AnchorAddress(pc: U64, preferred: Option<U64>, slot: nat, target: U64) {
    && pc + 5 + 0x1_0000 < 0x1_0000_0000_0000_0000
    && target == (if preferred.Some? then preferred.value else pc + 5 + 0x1_0000) + slot * 0x1_0000
    && -0x8000_0000 <= target - (pc + 5) < 0x8000_0000
  }

  lemma CandidateTargetExactly(pc: U64, preferred: Option<U64>, slot: nat, target: U64)
    ensures CandidateTarget(pc, preferred, slot) == Some(target) <==> AnchorAddress(pc, preferred, slot, target)
  {
    assert Pow256(4) == 0x1_0000_0000;
  }

  /** An address a node is to be tried at, within its own limit and whatever is left of the global one. */
  ghost predicate Offers(c: ChainContext, index: nat, overlay: seq<byte>, prefix: Option<nat>, target: U64)
    requires c.Valid() && index < |c.nodes| && |overlay| == c.source.Len()
  {
    var node, policy := c.nodes[index], c.policies[index];
    if prefix.None? then exists slot: nat | slot < policy.maxCandidates :: AnchorAddress(node.pc, policy.preferred, slot, target)
    else
      && PunWindow(c.source, overlay, node, prefix.value).Ok?
      && target in PunCandidates(PunWindow(c.source, overlay, node, prefix.value).value, policy)
  }

  function Member(
    c: ChainContext, index: nat, members: seq<PlanParts>, overlay: seq<byte>, prefix: Option<nat>, target: U64)
    : Result<PlanParts, Refusal>
    requires c.Valid()
  {
    var occupied := c.occupied + AllMappings(members);
    if prefix.None? then AnchorMember(c, overlay, occupied, target)
    else c.leaves.pun(overlay, index, prefix.value, target, occupied)
  }

  lemma MemberFits(
    c: ChainContext, index: nat, members: seq<PlanParts>, overlay: seq<byte>, prefix: Option<nat>, target: U64)
    requires c.Valid() && index < |c.nodes| && (prefix.None? <==> index == c.Anchor())
    ensures var member := Member(c, index, members, overlay, prefix, target);
            member.Ok? ==> StepFor(c.nodes, index, member.value)
  {
    hide AnchorMember, IsPatchPlan, NearRedirect;
    var occupied := c.occupied + AllMappings(members);
    if prefix.None? && AnchorMember(c, overlay, occupied, target).Ok? {
      AnchorMemberIsRedirect(c, overlay, occupied, target);
    }
  }

  // ---------------------------------------------------------------- when there is no chain

  function Whole(c: ChainContext): Span {
    Span(c.source.start, c.code)
  }

  ghost function SuffixRun(c: ChainContext, members: seq<PlanParts>): Result<State, Refusal>
    requires members != []
  {
    RunMembers(Initial(members[0].identity, View([Whole(c)])), members)
  }

  /** The placed suffix is a bundle of its own, within the budget. */
  ghost predicate SuffixComposes(c: ChainContext, members: seq<PlanParts>)
    requires members != []
  {
    && |members| <= c.budget.maxSteps
    && SuffixRun(c, members).Ok? && AccountedMemory(members, c.budget).Ok?
  }

  /** The source bytes as the placed suffix leaves them. */
  ghost function SuffixBytes(c: ChainContext, members: seq<PlanParts>): (bytes: seq<byte>)
    requires members != [] && SuffixComposes(c, members)
    ensures |bytes| == c.source.Len()
  {
    var image := SuffixRun(c, members).value.image;
    seq(c.source.Len(), i requires 0 <= i < c.source.Len() => if c.source.start + i in image then image[c.source.start + i] else 0)
  }

  lemma WholeIsGood(c: ChainContext)
    requires c.Valid()
    ensures GoodSnapshots([Whole(c)])
  {
  }

  lemma BytesOfSuffix(c: ChainContext, members: seq<PlanParts>, final: seq<Span>)
    requires c.Valid() && members != [] && SuffixComposes(c, members)
    requires Laid(final) && SameExtents([Whole(c)], final) && View(final) == SuffixRun(c, members).value.image
    ensures |final| == 1 && final[0].bytes == SuffixBytes(c, members)
  {
    hide View, SuffixRun, SuffixComposes;
    assert [Whole(c)][0] == Whole(c);
    forall i | 0 <= i < c.source.Len() ensures final[0].bytes[i] == SuffixBytes(c, members)[i] {
      ViewAt(final, 0, c.source.start + i);
    }
  }

  /** A target leads nowhere: its member is refused, the longer suffix does not compose, or no chain goes on from it. */
  ghost predicate DeadEnd(
    c: ChainContext, index: nat, members: seq<PlanParts>, overlay: seq<byte>, prefix: Option<nat>, target: U64)
    requires c.Valid() && index < |c.nodes| && |overlay| == c.source.Len()
    decreases index, 0
  {
    var member := Member(c, index, members, overlay, prefix, target);
    || member.Err?
    || !SuffixComposes(c, members + [member.value])
    || (index > 0 && NoChain(c, index - 1, members + [member.value], SuffixBytes(c, members + [member.value])))
  }

  ghost predicate AllDead(c: ChainContext, index: nat, members: seq<PlanParts>, overlay: seq<byte>, prefix: Option<nat>)
    requires c.Valid() && index < |c.nodes| && |overlay| == c.source.Len()
    decreases index, 1
  {
    forall target: U64 | Offers(c, index, overlay, prefix, target) :: DeadEnd(c, index, members, overlay, prefix, target)
  }

  /** Nothing that may be tried for node `index` under this suffix leads to a whole chain. */
  ghost predicate NoChain(c: ChainContext, index: nat, members: seq<PlanParts>, overlay: seq<byte>)
    requires c.Valid() && index < |c.nodes| && |overlay| == c.source.Len()
    decreases index, 2
  {
    var policy := c.policies[index];
    if policy.maxMappings == 0 || policy.maxMappedBytes < PAGE then true
    else if index == c.Anchor() then AllDead(c, index, members, overlay, None)
    else forall prefixes: nat | MayTry(TacticsFor(c, index), c.nodes[index].len, prefixes) ::
           AllDead(c, index, members, overlay, Some(prefixes))
  }

  // ---------------------------------------------------------------- when a structural refusal ends the search

  /** The block of the node at a target is no range, or the search meets a structural refusal further down. */
  ghost predicate StopsAt(
    c: ChainContext, index: nat, members: seq<PlanParts>, overlay: seq<byte>, prefix: Option<nat>, target: U64, error: Refusal)
    requires c.Valid() && index < |c.nodes| && |overlay| == c.source.Len()
    decreases index, 0
  {
    || (index > 0 && NewRange(c.nodes[index].pc, c.nodes[index].len) == Err(error))
    || var member := Member(c, index, members, overlay, prefix, target);
       && member.Ok? && SuffixComposes(c, members + [member.value])
       && index > 0 && Stops(c, index - 1, members + [member.value], SuffixBytes(c, members + [member.value]), error)
  }

  ghost predicate SomeStops(
    c: ChainContext, index: nat, members: seq<PlanParts>, overlay: seq<byte>, prefix: Option<nat>, error: Refusal)
    requires c.Valid() && index < |c.nodes| && |overlay| == c.source.Len()
    decreases index, 1
  {
    exists target: U64 | Offers(c, index, overlay, prefix, target) :: StopsAt(c, index, members, overlay, prefix, target, error)
  }

  /** Something that may be tried for node `index` meets a policy without puns, or a head whose block is no range. */
  ghost predicate Stops(c: ChainContext, index: nat, members: seq<PlanParts>, overlay: seq<byte>, error: Refusal)
    requires c.Valid() && index < |c.nodes| && |overlay| == c.source.Len()
    decreases index, 2
  {
    var tactics, len := TacticsFor(c, index), c.nodes[index].len;
    if index == c.Anchor() then SomeStops(c, index, members, overlay, None, error)
    else
      || PrefixChoices(tactics, len) == Err(error)
      || exists prefixes: nat | MayTry(tactics, len, prefixes) :: SomeStops(c, index, members, overlay, Some(prefixes), error)
  }

  // ---------------------------------------------------------------- which chain is found

  /** The search tries one offered address before another: anchors upwards, puns in the order of their list. */
  ghost predicate TriedBefore(c: ChainContext, index: nat, overlay: seq<byte>, prefix: Option<nat>, earlier: U64, later: U64)
    requires c.Valid() && index < |c.nodes| && |overlay| == c.source.Len()
  {
    if prefix.None? then earlier < later
    else
      && PunWindow(c.source, overlay, c.nodes[index], prefix.value).Ok?
      && var listed := PunCandidates(PunWindow(c.source, overlay, c.nodes[index], prefix.value).value, c.policies[index]);
         exists i, j | 0 <= i < j < |listed| :: listed[i] == earlier && listed[j] == later
  }

  /** Placed at this target, the suffix goes on to these steps. */
  ghost predicate LeadsFrom(
    c: ChainContext, index: nat, members: seq<PlanParts>, overlay: seq<byte>, prefix: Option<nat>, target: U64, steps: seq<PlanParts>)
    requires c.Valid() && index < |c.nodes| && |overlay| == c.source.Len()
    decreases index, 0
  {
    var member := Member(c, index, members, overlay, prefix, target);
    && member.Ok? && SuffixComposes(c, members + [member.value])
    && if index == 0 then steps == members + [member.value]
       else Leads(c, index - 1, members + [member.value], SuffixBytes(c, members + [member.value]), steps)
  }

  /** The steps go on from the first target of this prefix choice that is no dead end. */
  ghost predicate LeadsUnder(
    c: ChainContext, index: nat, members: seq<PlanParts>, overlay: seq<byte>, prefix: Option<nat>, steps: seq<PlanParts>)
    requires c.Valid() && index < |c.nodes| && |overlay| == c.source.Len()
    decreases index, 1
  {
    exists target: U64 ::
      && Offers(c, index, overlay, prefix, target) && LeadsFrom(c, index, members, overlay, prefix, target, steps)
      && forall earlier: U64 | Offers(c, index, overlay, prefix, earlier) && TriedBefore(c, index, overlay, prefix, earlier, target) ::
           DeadEnd(c, index, members, overlay, prefix, earlier)
  }

  /** These steps are the first chain: the fewest prefixes that lead to one, then the first target, node by node. */
  ghost predicate Leads(c: ChainContext, index: nat, members: seq<PlanParts>, overlay: seq<byte>, steps: seq<PlanParts>)
    requires c.Valid() && index < |c.nodes| && |overlay| == c.source.Len()
    decreases index, 2
  {
    && c.policies[index].maxMappings > 0 && c.policies[index].maxMappedBytes >= PAGE
    && if index == c.Anchor() then LeadsUnder(c, index, members, overlay, None, steps)
    else
      exists prefixes: nat ::
        && MayTry(TacticsFor(c, index), c.nodes[index].len, prefixes)
        && LeadsUnder(c, index, members, overlay, Some(prefixes), steps)
        && forall fewer: nat | fewer < prefixes && MayTry(TacticsFor(c, index), c.nodes[index].len, fewer) ::
             AllDead(c, index, members, overlay, Some(fewer))
  }

  lemma {:induction false} LeadingIsAlive(
    c: ChainContext, index: nat, members: seq<PlanParts>, overlay: seq<byte>, prefix: Option<nat>, target: U64, steps: seq<PlanParts>)
    requires c.Valid() && index < |c.nodes| && |overlay| == c.source.Len()
    requires LeadsFrom(c, index, members, overlay, prefix, target, steps)
    ensures !DeadEnd(c, index, members, overlay, prefix, target)
    decreases index, 0
  {
    hide Member, SuffixComposes, SuffixBytes, Leads, NoChain, ChainContext.LeavesHonest;
    if index > 0 {
      var member := Member(c, index, members, overlay, prefix, target).value;
      ChainLeads(c, index - 1, members + [member], SuffixBytes(c, members + [member]), steps);
    }
  }

  lemma {:induction false} PrefixLeads(
    c: ChainContext, index: nat, members: seq<PlanParts>, overlay: seq<byte>, prefix: Option<nat>, steps: seq<PlanParts>)
    requires c.Valid() && index < |c.nodes| && |overlay| == c.source.Len()
    requires LeadsUnder(c, index, members, overlay, prefix, steps)
    ensures !AllDead(c, index, members, overlay, prefix)
    decreases index, 1
  {
    hide Offers, DeadEnd, LeadsFrom, TriedBefore, ChainContext.LeavesHonest;
    var target: U64 :| Offers(c, index, overlay, prefix, target) && LeadsFrom(c, index, members, overlay, prefix, target, steps);
    LeadingIsAlive(c, index, members, overlay, prefix, target, steps);
  }

  /** Where some steps are the first chain, there is a chain, under a policy that allows a mapping. */
  lemma {:induction false} ChainLeads(c: ChainContext, index: nat, members: seq<PlanParts>, overlay: seq<byte>, steps: seq<PlanParts>)
    requires c.Valid() && index < |c.nodes| && |overlay| == c.source.Len()
    requires Leads(c, index, members, overlay, steps)
    ensures !NoChain(c, index, members, overlay)
    decreases index, 2
  {
    hide LeadsUnder, AllDead, ChainContext.LeavesHonest;
    if index == c.Anchor() {
      PrefixLeads(c, index, members, overlay, None, steps);
    } else {
      var prefixes: nat :| MayTry(TacticsFor(c, index), c.nodes[index].len, prefixes)
                           && LeadsUnder(c, index, members, overlay, Some(prefixes), steps);
      PrefixLeads(c, index, members, overlay, Some(prefixes), steps);
    }
  }

  /** Of two different offered addresses one is tried first. */
  lemma OneIsFirst(c: ChainContext, index: nat, overlay: seq<byte>, prefix: Option<nat>, one: U64, other: U64)
    requires c.Valid() && index < |c.nodes| && |overlay| == c.source.Len() && one != other
    requires Offers(c, index, overlay, prefix, one) && Offers(c, index, overlay, prefix, other)
    ensures TriedBefore(c, index, overlay, prefix, one, other) || TriedBefore(c, index, overlay, prefix, other, one)
  {
    hide PunWindow, PunCandidates, AnchorAddress, ChainContext.LeavesHonest;
    if prefix.Some? {
      var listed := PunCandidates(PunWindow(c.source, overlay, c.nodes[index], prefix.value).value, c.policies[index]);
      var i :| 0 <= i < |listed| && listed[i] == one;
      var j :| 0 <= j < |listed| && listed[j] == other;
      assert i < j || j < i;
    }
  }

  lemma {:induction false} SameSteps(
    c: ChainContext, index: nat, members: seq<PlanParts>, overlay: seq<byte>, prefix: Option<nat>,
    one: seq<PlanParts>, other: seq<PlanParts>)
    requires c.Valid() && index < |c.nodes| && |overlay| == c.source.Len()
    requires LeadsUnder(c, index, members, overlay, prefix, one) && LeadsUnder(c, index, members, overlay, prefix, other)
    ensures one == other
    decreases index, 1
  {
    hide Offers, DeadEnd, TriedBefore, Member, SuffixComposes, SuffixBytes, Leads, ChainContext.LeavesHonest;
    var first: U64 :| Offers(c, index, overlay, prefix, first) && LeadsFrom(c, index, members, overlay, prefix, first, one)
                      && forall earlier: U64 | Offers(c, index, overlay, prefix, earlier) && TriedBefore(c, index, overlay, prefix, earlier, first) ::
                           DeadEnd(c, index, members, overlay, prefix, earlier);
    var second: U64 :| Offers(c, index, overlay, prefix, second) && LeadsFrom(c, index, members, overlay, prefix, second, other)
                       && forall earlier: U64 | Offers(c, index, overlay, prefix, earlier) && TriedBefore(c, index, overlay, prefix, earlier, second) ::
                            DeadEnd(c, index, members, overlay, prefix, earlier);
    LeadingIsAlive(c, index, members, overlay, prefix, first, one);
    LeadingIsAlive(c, index, members, overlay, prefix, second, other);
    if first != second {
      OneIsFirst(c, index, overlay, prefix, first, second);
    }
    assert first == second;
    if index > 0 {
      var member := Member(c, index, members, overlay, prefix, first).value;
      FirstChainIsUnique(c, index - 1, members + [member], SuffixBytes(c, members + [member]), one, other);
    }
  }

  /** There is only one first chain. */
  lemma {:induction false} FirstChainIsUnique(
    c: ChainContext, index: nat, members: seq<PlanParts>, overlay: seq<byte>, one: seq<PlanParts>, other: seq<PlanParts>)
    requires c.Valid() && index < |c.nodes| && |overlay| == c.source.Len()
    requires Leads(c, index, members, overlay, one) && Leads(c, index, members, overlay, other)
    ensures one == other
    decreases index, 2
  {
    hide LeadsUnder, AllDead, ChainContext.LeavesHonest;
    if index == c.Anchor() {
      SameSteps(c, index, members, overlay, None, one, other);
    } else {
      var p: nat :| MayTry(TacticsFor(c, index), c.nodes[index].len, p) && LeadsUnder(c, index, members, overlay, Some(p), one)
                    && forall fewer: nat | fewer < p && MayTry(TacticsFor(c, index), c.nodes[index].len, fewer) ::
                         AllDead(c, index, members, overlay, Some(fewer));
      var q: nat :| MayTry(TacticsFor(c, index), c.nodes[index].len, q) && LeadsUnder(c, index, members, overlay, Some(q), other)
                    && forall fewer: nat | fewer < q && MayTry(TacticsFor(c, index), c.nodes[index].len, fewer) ::
                         AllDead(c, index, members, overlay, Some(fewer));
      PrefixLeads(c, index, members, overlay, Some(p), one);
      PrefixLeads(c, index, members, overlay, Some(q), other);
      assert p == q;
      SameSteps(c, index, members, overlay, Some(p), one, other);
    }
  }
}
