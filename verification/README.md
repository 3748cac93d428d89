# Verification of liteinst

liteinst rewrites live x86-64 code. A rewritten site is a jump to generated code; a *pun* is such a jump whose
high displacement bytes are the unchanged bytes of the instructions behind it. This project models the parts of
liteinst that decide which bytes are written, in which order, and by whom, and proves what they promise.

## What is modelled

- **The patch-transaction kernel.** A plan is checked on its own (`Contracts`; `PlanAcceptance` says which plans
  pass); plans are stacked on a virtual image of the source (`VirtualImage`, `CompositionRuns`; `StepEffects` writes
  out what one step changes and why one is refused). The image is a map from address to byte, with a set of
  locked addresses, a set of mapped addresses and a set of taken sites. The mutable `Composition` class, with its
  snapshot list, interval list and cursor loops, is proved to be that abstract state step for step. Bundles are
  composed, published into live memory and retired (`StoreOrder`, `Placement`, `Aliases`, `LeaseGates`,
  `Publication`, `BundleRuns`); live source memory is a list of byte arrays. `FetchJump` is an independent reader of
  code bytes (CS prefixes, E9, rel32), and "lands" always means what that reader computes. `SampleRun` holds a
  concrete run of two puns, the second built on the redirect of the first; `SampleStore` a pun that needs a store
  wider than its instruction.
- **The chain planner** (`EvictionChain`, `Candidates`, `ChainMembers`, `ChainPlanner`): a backtracking search that
  places a run of puns from its far end, each pun built on the redirect just written into its successor. Unless it is
  cut off or meets a structural refusal, it finds a chain exactly if there is one (`ChainMembers.NoChain`).
- **The artifact linker** (`ArtifactFixups`, `ArtifactTargets`, `ArtifactLinking`, `ArtifactOrder`,
  `ArtifactPlacement`, `ArtifactFragments`), with a small processor for the six instructions of the fragments.
- **Control-flow facts** (`ControlFlow`, `Reachability`, `Blocks`, `BlockPartitions`).
- **The backedge clock**: the two-level loop under the counting gate (`RegionClock`), and the lease and batch
  admission of the clock page (`BackedgeClock`, `ClockPage`).
- **The entry router** (`EntryRouter`, `RouterList`): every interleaving of staging, deactivation, commit, drop and
  fault walks as atomic steps, and the list operations as their code performs them.
- **Foreign-owner search budgets** (`ForeignSearch`, `PairSearch`).
- **The depfile parser, printer and package binding** (`Depfile`, `DepfileBinding`, `DepfileShape`).

## Reading the model

`dafny verify dfyconfig.toml` checks all modules together.

- Objects updated in place are classes (`Composition`, `InstalledBundle`, `QuiescenceLease`, `TrapRegistry`,
  `Planner`, `Region`, `Page`, `Registry`); loops are methods with invariants, proved equal to a specification
  function whose meaning is stated by lemmas.
- 64-bit addresses are the type `U64`; checked additions and conversions are explicit, 128-bit coordinates too.
  The clock's counters and the loop's registers are unbounded integers; `RegionClock.AdmittedRunsNeverWrap` shows
  that no parsed argument comes near 2^64.
- Kernel calls, allocation, signal dispositions, instruction decoding and emitted images are outcomes handed in as
  parameters (`Host`, `Leaves`, `World`, the leaf of `PlanAfterWithForeign`, the callbacks of `Build`).
- Atomic accesses of the router are single steps of one interleaving.
- A sort by key is a stable sort; an unstable sort promises a sorted permutation only.

Three findings about the code, each with its exact condition:

- The linker's image never depends on the order of its ledger, but its *refusal* can when two fields share an offset
  (`ArtifactLinking.EqualOffsetsCanChangeTheRefusal` gives an input). `ArtifactOrder.OrderFreeExactly` says when it
  cannot: the answer is the same in every order if and only if no offset is shared, or the fields below the lowest
  shared offset already refuse, or any two fields at that offset, in either order, give one answer.
  `ArtifactOrder.OrderFreeFieldByField` says the same by asking each of these fields alone: all link, all refuse alike,
  or one links and all others run past the image alike.
- Moving a bias domain is invisible to the linker except through the 128-bit overflow check of image ends
  (`ArtifactPlacement.ShiftCanOverflow` gives an input). `ArtifactPlacement.ShiftIsInvisibleExactly` has the condition
  for every answer, `ArtifactPlacement.LinkedImageSurvivesShiftExactly` for a successful link: every shifted end fits.
- In the depfile controls, rendering no target and no dependency gives a text that the parser refuses; every other
  rendering of printable words is read back exactly.

## Model

| member | source | states |
|---|---|---|
| Contracts.PunEncodingLands | src/contracts.rs:401-467 | prefixes, E9, chosen low bytes and inherited high bytes are fetched as one jump to the address those bytes spell |
| Contracts.AcceptedPunLands | src/contracts.rs:401-467 | a pun that passes the check, read back by the processor, lands on its single generated image |
| Contracts.WindowIsExact | src/contracts.rs:449-465 | free displacement bytes and window addresses are in bijection, with an explicit inverse |
| Contracts.WindowIsEncodable | src/contracts.rs:449-465 | an address is inside the window if and only if some choice of the free bytes encodes it |
| Contracts.AcceptedWindowIsExact | src/contracts.rs:449-465 | the window of an accepted plan is exactly the set of addresses its free bytes can reach |
| Contracts.ContainmentIsImplied | src/contracts.rs:460-465 | the containment test and the second range test refuse nothing that the window test lets through |
| PlanAcceptance.CheckedAcceptsExactly | src/contracts.rs:301-467 | the ordered check accepts exactly the plans that meet unordered conditions: identity, place and scope, quiescence and core synchronization, held reads and writes, authenticated writes, allocated images, and for a pun its encoding, one store of 1, 2, 4 or 4 bytes in one cache line that repeats the first covering read, its window and its target |
| PlanAcceptance.CheckedRefuses | src/contracts.rs:304-330 | a foreign identity, and only that, is a stale generation; misplacement comes next; a span that is not held is an invalid range or a dependency not held |
| SampleStore.ThreeBytePunIsAccepted | src/contracts.rs:430-448 | a three-byte instruction at the end of a cache line is accepted with the aligned four-byte store that starts a byte before it |
| SampleStore.OnlyFourBytesAreAccepted | src/contracts.rs:430-441 | the same plan with a store of any other width is refused |
| LittleEndian.SignedRoundTrip | src/contracts.rs:453-463 | every signed little-endian reading fits its width and is written back as the same bytes |
| LittleEndian.EncodeSignedRoundTrip | src/artifact_fixups.rs:372-385 | every value that fits a signed width is read back from its encoding |
| LittleEndian.SignedOfSplit | src/contracts.rs:449-463 | filling low bytes under fixed high bytes adds exactly their unsigned value |
| GeneratedImages.ConstantOffBoundaries | src/composition.rs:355-405 | translation does not change between mapping boundaries, first-match overlaps included |
| GeneratedImages.BoundarySamplesSuffice | src/composition.rs:355-405 | translations that agree at the first shared address and at every boundary agree at every shared address |
| GeneratedImages.AcceptsExactlyConsistent | src/composition.rs:355-405 | the ordered check accepts exactly the lists in which overlapping images agree on byte and logical PC everywhere |
| GeneratedImages.ImagesAgree | src/composition.rs:376-403 | the boundary-sampling loop decides agreement of one pair of images |
| GeneratedImages.ValidateGenerated | src/composition.rs:355-405 | the loop returns the specified refusal and accepts exactly the pointwise consistent lists |
| VirtualImage.AllocateMeansExclusive | src/composition.rs:199-214 | allocations are accepted exactly when they overlap neither source, earlier mappings nor one another |
| VirtualImage.AppendAcceptsExactly | src/composition.rs:144-245 | the ordered refusals accept exactly the steps meeting ten unordered conditions |
| CompositionRuns.StepKeepsLocks | src/composition.rs:144-245 | an accepted step keeps a valid state valid, only adds locks and changes no locked byte |
| CompositionRuns.StepStoresItsEdits | src/composition.rs:182-225 | after a step each of its stores is in the image and locked |
| CompositionRuns.StepWritesThePun | src/composition.rs:158-225 | after a pun its whole consumed range, inherited bytes included, is the validated encoding and locked |
| CompositionRuns.RunKeepsLocks | src/composition.rs:59-66 | every prefix of a run was accepted and its locked bytes never change later |
| CompositionRuns.EveryPunStillLands | src/composition.rs:144-245 | in every reachable state every pun ever accepted still decodes to its own image |
| CompositionRuns.EveryStoreSurvives | src/composition.rs:182-225 | every byte any accepted step stored is still there at the end of the run |
| CompositionRuns.SitesAndMappingsAreExclusive | src/composition.rs:151-214 | no run takes a site twice, maps an address twice or maps source |
| StepEffects.StepChangesExactly | src/composition.rs:144-245 | everything a step changes: stored bytes, all other bytes unchanged, sites, mapped addresses, and the exact set of locked addresses with the fifteen bytes behind every routed 0x62 marker |
| StepEffects.FetchLocksExactly | src/composition.rs:226-240 | the fetch locks are exactly the fifteen-byte ranges from the routed heads that read 0x62 in the finished image |
| StepEffects.FetchesNeverChange | src/composition.rs:226-240 | in every later state all fifteen bytes behind a marker are locked and hold what they held when its step left them |
| StepEffects.MarkedFetchesAreLocked | src/composition.rs:226-245 | the same for the interval list and snapshots of the real structure |
| StepEffects.ChangingALockIsConflict | src/composition.rs:182-198 | a store that would change a locked byte is an ownership conflict once all earlier checks are in order |
| StepEffects.AppendRefusesFirst | src/composition.rs:144-245 | a refused step is refused for the first read, store or route that is wrong, with the refusal that belongs to it |
| SampleRun.TwoPunsAreAccepted | src/composition.rs:144-245 | a concrete run of two overlapping puns passes every check and both decode in its final bytes |
| LockRanges.MergeRanges | src/composition.rs:325-342 | the merge loop gives the canonical separated form of the same set of addresses |
| LockRanges.CanonicalIsUnique | src/composition.rs:325-342 | one set of addresses has one canonical interval list |
| Snapshots.IsCovered | src/composition.rs:253-269 | the cursor walk answers whether every wanted byte is held, across adjacent snapshots |
| Snapshots.MatchBytes | src/composition.rs:287-305 | the per-snapshot comparison is the comparison with the byte map, refusals included |
| Snapshots.ApplyEdit | src/composition.rs:307-323 | copying into the snapshots overlays the byte map and keeps every extent |
| Snapshots.ViewDetermines | src/composition.rs:307-323 | laid-out snapshots of given extents are determined by the byte map |
| Snapshots.ViewPermutes | src/composition.rs:34-57 | the byte map does not depend on the order of disjoint snapshots |
| Composition.Composition.New | src/composition.rs:34-57 | accepts exactly proper snapshots that do not overlap, and starts from them |
| Composition.Composition.AppendInner | src/composition.rs:144-245 | the private step refines the abstract one, whose refusals and effect StepEffects states in full |
| Composition.Composition.Append | src/composition.rs:59-66 | transactional step: the abstract next state (see StepEffects.StepChangesExactly), or the same refusal and every field unchanged |
| Composition.Composition.RequireUnclaimedRanges | src/composition.rs:88-107 | accepts exactly ordered, covered, unlocked ranges, with the right refusal otherwise |
| Composition.Composition.PlanningOverlay | src/composition.rs:115-142 | returns the current bytes of an authenticated original view, or the specified refusal |
| Composition.AcceptedPunsStillLand | src/composition.rs:144-245 | the whole-run pun theorem for the snapshot lists of the real structure |
| Composition.LocksDependOnlyOnState | src/composition.rs:236-245 | the stored interval list is a function of the locked addresses, however snapshots are cut |
| StoreOrder.CheckedPlansHaveStores | src/bundle.rs:596-632 | deriving source stores never reaches its refusal for a plan that passed the check |
| StoreOrder.PublishingGivesFinalBytes | src/bundle.rs:375-378 | writing all stores of a run in order turns the originals into exactly the composed image |
| StoreOrder.RetiringGivesOriginals | src/bundle.rs:512-515 | restoring all stores in reverse gives exactly the originals, overlapping stores included |
| Aliases.CheckAliases | src/bundle.rs:563-572 | accepts exactly aliases whose executable ranges do not overlap |
| Aliases.CheckSnapshots | src/bundle.rs:586-594 | compares live memory with the expected snapshots |
| Aliases.WriteStore | src/bundle.rs:545-555 | one store changes exactly its bytes of live memory |
| Placement.PlacedStepsAreStores | src/bundle.rs:574-632 | resolving stores to aliases fails only for want of an alias and yields exactly the plans' stores |
| Placement.PlaceAllSteps | src/bundle.rs:596-632 | the resolving loops return the specified stores or refusal |
| Placement.PublishSwapsFinalIn | src/bundle.rs:375-378 | in live memory the composed image appears and every other byte stays |
| Placement.RetireSwapsOriginalsIn | src/bundle.rs:512-515 | in live memory the originals reappear and every other byte stays |
| Bundle.AppendMembers | src/bundle.rs:153-235 | the member loop is the abstract run with its refusal |
| Bundle.RunMembersExactly | src/bundle.rs:171-177 | all members are appended exactly if each asks for permanent installation and their run is accepted |
| Bundle.TotalLengthCounts | src/bundle.rs:178-185 | the byte total of mappings that share no address is the number of mapped addresses |
| Bundle.AccountedExactly | src/bundle.rs:634-664 | memory is accounted exactly when count, bytes and the widest distance between mappings fit the budget; pages are whole pages of those bytes |
| Bundle.Compose | src/bundle.rs:153-235 | step bound, snapshots, member run and memory accounting in order; success carries exactly the image of the run of its members |
| Leases.TrapRegistry.ReserveAll | src/bundle.rs:275-390 | all ranges become reserved, or none |
| LeaseGates.LeaseAcceptsExactly | src/bundle.rs:94-113 | a lease passes exactly if it is unpoisoned, of every step's generation, holds every dependency and every original snapshot, finds every entry resolved, and when retiring holds every generated mapping; otherwise the first thing wrong decides the refusal |
| LeaseGates.RefusalIsUnique | src/contracts.rs:555-571 | there is one refusal for a lease that may not write, and none for one that may |
| Publication.WriteAll | src/bundle.rs:375-378 | the publishing loop overlays every store in order |
| Publication.RestoreAll | src/bundle.rs:512-515 | the retiring loop overlays every original in reverse |
| Publication.PublishWith | src/bundle.rs:275-390 | before-write refusals change nothing; a byte is written only under an unpoisoned lease that admits the bundle, and a lease that does not is refused with its own refusal; afterwards memory is the composed image, reservations stay, and only a successful finalizer leaves the lease unpoisoned |
| Publication.InstalledBundle.RetireWith | src/bundle.rs:497-529 | refusals and repeated retirement write nothing; a byte is restored only under an unpoisoned lease that also holds every generated mapping; then the originals are back and only a successful finalizer releases lease and reservations |
| Publication.PublishPassesExactly | src/bundle.rs:275-366 | the conditions for the first byte of a publication, without an order |
| Publication.RetirePassesExactly | src/bundle.rs:497-512 | the conditions for the first byte of a retirement, without an order |
| BundleRuns.PublishStep | src/bundle.rs:275-390 | publishing is one step of the run model, for the observed memory, lease and reservations |
| BundleRuns.RetireStep | src/bundle.rs:497-529 | retiring is one step of the run model |
| BundleRuns.EveryRunIsSafe | src/bundle.rs:275-529 | over every run with any failures memory is the originals or the composed image as the caller's phase says |
| BundleRuns.PoisonedUntilRollback | src/contracts.rs:555-587 | in every run, from a poisoned world on nothing changes until a verified rollback |
| BundleRuns.GatedOutcomeFreezes | src/bundle.rs:375-390 | a gated publication or retirement freezes memory, lease, reservation and handle until a verified rollback |
| BundleRuns.LostForever | src/bundle.rs:375-390 | a handle lost to a gated publication is lost in every later state and its reservation stays |
| BundleRuns.RetiredUntilPublished | src/bundle.rs:497-529 | in every run, after a completed retirement nothing changes until the bundle is published again |
| BundleRuns.EveryChangeWasAdmitted | src/contracts.rs:555-571 | in every run, whatever changes was changed under an unpoisoned lease of every step's generation that holds every dependency and snapshot, or by a verified rollback |
| BundleRuns.ForeignLeaseChangesNothing | src/contracts.rs:555-571 | under a lease of another generation, or without a dependency, no run ever changes anything |
| BundleRuns.MappingsAreDrained | src/bundle.rs:103-112 | a lease that does not hold every generated mapping never retires the bundle |
| EvictionChain.NearRedirectLands | src/eviction.rs:439-445 | wherever memory holds a near redirect the processor jumps to its target |
| EvictionChain.AllocationCoversImage | src/eviction.rs:428-437 | the allocation is the least run of whole pages around the image |
| EvictionChain.WindowsAgree | src/eviction_chain.rs:787-810 | the window computed from the overlay is the window the plan check demands |
| EvictionChain.SelectedHeadExactly | src/eviction_chain.rs:357-408 | the search starts exactly from a short, qualified head inside its block, under the stated bounds and an increasing forced list |
| EvictionChain.WalkFindsChain | src/eviction_chain.rs:357-454 | a found chain is a contiguous increasing run of original heads ending in its anchor |
| EvictionChain.WalkIsComplete | src/eviction_chain.rs:357-454 | every chain of original heads is found |
| EvictionChain.OriginalChain | src/eviction_chain.rs:357-454 | the discovery loop returns the specified chain or refusal, with true evidence: short successors, anchor and stop |
| ChainPlanner.Planner.Record | src/eviction_chain.rs:746-773 | attempts are appended and the last specific refusal is kept |
| ChainPlanner.LastSpecificExactly | src/eviction_chain.rs:746-773 | the kept refusal is the last one that is not an unavailable address, if there is any |
| ChainPlanner.Planner.SetRun | src/eviction_chain.rs:582-591 | total trials stay the sum of the examined counts of all runs, below the cap |
| EvictionChain.PunCandidates | src/quiescent.rs:1339-1371 | candidate targets are distinct, inside the window and no more than the policy allows |
| Candidates.CandidatesAreTheFirst | src/quiescent.rs:1339-1371 | the bounded loops list exactly the first addresses of one fixed order: preferred address, then the page boundaries of each range inside the window, each once |
| Candidates.CandidatesExactly | src/quiescent.rs:1339-1371 | every listed address is a candidate, and a list shorter than the limit has every candidate |
| ChainMembers.PrefixChoicesExactly | src/eviction_chain.rs:775-785 | 0; 1 to len-1; 0 to len-1, ascending; refused exactly for a policy without puns or a one-byte head that needs a prefix |
| ChainMembers.CandidateTargetExactly | src/quiescent.rs:2121-2144 | the k-th anchor address is k steps of 64 KiB from the preferred one, within rel32 reach |
| ChainMembers.AnchorMemberExactly | src/eviction_chain.rs:812-842 | an anchor is placed exactly if it qualifies, has an image at the target whose pages fit its policy and are free, is within rel32 reach, and its plan passes the check |
| ChainMembers.AnchorMemberIsPlaced | src/eviction_chain.rs:812-842 | the anchor's pages lie in one range of its policy, within its byte limit, and touch nothing occupied |
| ChainPlanner.Planner.Descend | src/eviction_chain.rs:471-744 | terminates; a search that is not cut off answers without a chain if and only if there is none (every prefix choice and every offered target is refused, does not compose, or has no chain before it), and otherwise with the first chain: the fewest prefixes, then the first target, node by node; an error is the structural refusal it met; the cutoff is set only with the cap spent and a slot left; no run exceeds its local limit |
| ChainMembers.FirstChainIsUnique | src/eviction_chain.rs:511-741 | the first chain is determined by what is offered and how it is refused; where there is a first chain there is a chain (ChainMembers.ChainLeads) |
| ChainPlanner.EveryHeadLands | src/eviction_chain.rs:471-744 | in the final bytes every original head jumps to its own image, for chains of any length |
| ChainPlanner.ReportIsFaithful | src/eviction_chain.rs:314-335 | the report lists the discovered heads in order, one hook, one anchor, and each target is where its head lands |
| ChainPlanner.PlanChain | src/eviction_chain.rs:250-335 | bound and budget refusals, a cut-off search, a structural refusal that was met, the last specific refusal when there is no chain, or the first chain there is with its report |
| SampleChain.ChainExists | src/eviction_chain.rs:471-744 | a concrete chain of a two-byte head and a five-byte anchor; both heads land |
| Sorting.StableSortSorts | src/artifact_fixups.rs:279-280 | the ledger sort gives a sorted permutation |
| Sorting.SortedIsUnique | src/artifact_fixups.rs:279-280 | distinct keys leave one sorted permutation |
| ArtifactFixups.SortedLedger | src/artifact_fixups.rs:281-370 | in offset order, comparing with the predecessor only is the same as every field fitting and all being apart |
| ArtifactFixups.LinkedMeans | src/artifact_fixups.rs:248-403 | linking succeeds exactly for good ledgers; fields hold their own bytes and all other bytes are the template's |
| ArtifactFixups.OrderDoesNotMatter | src/artifact_fixups.rs:248-403 | the linked image does not depend on ledger order |
| ArtifactTargets.TargetAddressExactly | src/artifact_fixups.rs:187-217 | in a checked list a target resolves exactly if it is an address, or names a listed image with an offset not past its end, and then to that address, or to the image's own start plus the offset |
| ArtifactTargets.TargetRefuses | src/artifact_fixups.rs:187-217 | which refusal an unresolved symbol, an unknown image and an offset past the end meet |
| ArtifactTargets.PreparedExactly | src/artifact_fixups.rs:255-275 | linking starts exactly from distinct images whose ends fit, one of them this image with the template's length |
| ArtifactLinking.FieldLinksExactly | src/artifact_fixups.rs:311-390 | a field links exactly when its target denotes a point of the image's own domain that the field can express, and holds the distance to it |
| ArtifactLinking.LinkedFieldGoesTo | src/artifact_fixups.rs:197-217 | in numbers: a linked field leads to bias + value, or to bias + start of the listed image + offset; a fixed one holds that coordinate |
| ArtifactLinking.CheckPlacements | src/artifact_fixups.rs:255-269 | the placement loop returns the specified first refusal |
| ArtifactLinking.CollectWrites | src/artifact_fixups.rs:279-397 | the validation loop returns the first refusal, or writes that patch to the specified image |
| ArtifactLinking.Link | src/artifact_fixups.rs:248-403 | the whole linker equals its specification, refusal included |
| ArtifactLinking.FieldsReachTheirTargets | src/artifact_fixups.rs:218-223 | at every load bias a linked relative field leads to the point its target denotes; fixed fields are preserved and hold their target's coordinate |
| ArtifactLinking.LinkBiasInvariant | src/artifact_fixups.rs:226-233 | links only without fixed fields, and then every field reaches its target at every load bias |
| ArtifactLinking.LinkFixedZeroBias | src/artifact_fixups.rs:238-246 | with the image at bias zero every field reaches its target, fixed ones preserved |
| ArtifactLinking.DistinctOffsetsFixTheResult | src/artifact_fixups.rs:279-280 | the simplest case of the exact condition: with distinct offsets image and refusal are the same in every order |
| ArtifactOrder.OrderFreeExactly | src/artifact_fixups.rs:279-397 | image and refusal are the same in every ledger order if and only if the fields at the lowest shared offset agree pairwise, or are never reached |
| ArtifactOrder.OrderFreeFieldByField | src/artifact_fixups.rs:279-397 | the same condition asked of each field alone: all link, all refuse alike, or one links and the others run past the image alike |
| ArtifactOrder.LedgerClash | src/artifact_fixups.rs:281-310 | when the fields below link, the first two fields at the lowest shared offset decide the refusal |
| ArtifactLinking.EqualOffsetsCanChangeTheRefusal | src/artifact_fixups.rs:279-280 | with equal offsets two orders of one ledger give two refusals |
| ArtifactPlacement.ShiftIsInvisibleExactly | src/artifact_fixups.rs:226-403 | moving all placements and targets of one bias domain by a constant changes the answer exactly when the placement check answers differently, unless the other list links to the same overflow |
| ArtifactPlacement.LinkedImageSurvivesShiftExactly | src/artifact_fixups.rs:226-403 | what links before the shift links to the same image after it if and only if every shifted image end fits |
| ArtifactPlacement.ShiftCanOverflow | src/artifact_fixups.rs:255-269 | an image that links at coordinate 0 and is refused at the last coordinate |
| ArtifactPlacement.ShiftingADomainChangesNothing | src/artifact_fixups.rs:226-403 | the forward half: with image ends inside or outside the coordinate space alike, neither image nor refusal changes |
| ArtifactPlacement.LinkedFieldsMove | src/artifact_fixups.rs:117-133 | a field that links in its fragment can be rebased into any container that fits |
| ArtifactPlacement.LinkingCommutesWithPlacement | src/artifact_fixups.rs:117-133 | linking rebased fields inside prefix + fragment + suffix gives prefix + linked fragment + suffix |
| ArtifactPlacement.FragmentLinksInContainer | src/artifact_fixups.rs:117-133 | for targets outside both images: a linked fragment can be rebased and links inside any container at its address, under any ids and list positions, to its own bytes between prefix and suffix |
| ArtifactPlacement.OtherTargetsStay | src/artifact_fixups.rs:187-217 | a target outside both images is found alike whichever of the two is listed, and wherever |
| ArtifactFragments.LogicalPcPushesTheTarget | src/artifact_fragments.rs:20-38 | running the four linked instructions pushes bias plus target modulo 2^64, wherever the code is loaded |
| ArtifactFragments.TransfersReachTheTarget | src/artifact_fragments.rs:40-64 | a linked call or jump goes to its target at every bias, and only the call pushes a return address |
| ArtifactFragments.HookCallReachesItsHook | src/artifact_fragments.rs:40-44 | the callback fragment calls its target at every bias |
| ArtifactFragments.ReturnJumpRejoins | src/artifact_fragments.rs:46-50 | the return fragment rejoins its target and changes nothing else |
| ArtifactFragments.TransferLinksExactly | src/artifact_fragments.rs:46-64 | a transfer links if and only if its target resolves in the same domain within rel32 reach |
| ControlFlow.HeadsResolve | src/control_flow.rs:162-175 | every address resolves to the head that is there, or to none when there is none |
| ControlFlow.IndexHeads | src/control_flow.rs:162-168 | the indexing loop builds that index |
| ControlFlow.Build | src/control_flow.rs:158-230 | rows, exact set of branch entries, or the caller's first refusal |
| ControlFlow.RowListsFlows | src/control_flow.rs:189-214 | a row lists a head exactly when execution may flow there, and is unresolved exactly when its transfer is unknown |
| ControlFlow.Indexed | src/control_flow.rs:277-298 | every edge becomes an index with its multiplicity, or the first unknown one is the refusal |
| ControlFlow.EdgesAreFlows | src/control_flow.rs:277-298 | edges of the indexed graph are exactly the possible local flows |
| Reachability.ReachableFrom | src/control_flow.rs:308-321 | the search terminates and marks exactly the entry and what it reaches |
| Reachability.Sweep | src/control_flow.rs:334-339 | one in-place sweep finds the marks closed or adds one, and marks nothing wrongly |
| Reachability.CanReachAny | src/control_flow.rs:324-341 | n in-place sweeps mark exactly the nodes with a path to a listed exit |
| Blocks.CollectBlockCuts | src/control_flow.rs:127-151 | the exact set of cuts, or the first refused direct target |
| Blocks.BlockCuts | src/control_flow.rs:251-273 | owner boundaries, following cuts below the end and chosen local branch targets, nothing else |
| Blocks.ReachableBlocks | src/control_flow.rs:344-380 | ordered disjoint maximal straight-line runs covering exactly the reached instructions |
| Blocks.AllDecodedBlocks | src/control_flow.rs:346-351 | consecutive cuts in ascending order bound the blocks |
| BlockPartitions.PartitionIsUnique | src/control_flow.rs:353-380 | a reached mask has exactly one such partition |
| BlockPartitions.DecodedOwnerIsFullReachability | src/control_flow.rs:344-380 | cutting the decoded owner gives the same blocks as walking a fully reached mask |
| RegionClock.Region.Gate | src/trampoline/backedge_clock.rs:9-63 | one visit: every visit is an encounter, a taken one is charged, the callback runs at zero |
| RegionClock.Region.Hook | examples/owned_region_clock.rs:459-541 | the callback accepts exactly the expected site, control, registers, flag and clock words in undisturbed surroundings, then refills |
| RegionClock.GateCounts | examples/owned_region_clock.rs:459-541 | in the expected state a taken visit is charged and a due callback accepts it |
| RegionClock.InnerForm | examples/owned_region_clock.rs:102-128 | the closed form at an inner backedge |
| RegionClock.OuterForm | examples/owned_region_clock.rs:102-128 | the closed form at an outer backedge |
| RegionClock.Region.Execute | examples/owned_region_clock.rs:71-126 | for all positive arguments the simulated loop meets the closed form at every taken backedge, stops at every multiple of the quantum, and ends with the stated result and clock |
| RegionClock.AdmittedRunsNeverWrap | examples/owned_region_clock.rs:44-70 | for parsed arguments all these values stay far below 2^64 |
| BackedgeClock.StepKeepsInv | src/backedge_clock.rs:170-330 | every operation keeps: one unreleased lease at most, and the owner bit says whether there is one |
| BackedgeClock.AcquireExactly | src/backedge_clock.rs:170-205 | an idle page of this process starts a lease exactly for a positive quantum and admissible work, with nothing counted and the whole quantum left |
| BackedgeClock.OneInvocationAtATime | src/backedge_clock.rs:294-327 | over every run at most one native invocation is in flight, across leases, calls and batches |
| BackedgeClock.ChargesStayAdmitted | src/backedge_clock/batch.rs:41-146 | batches never charge more work than was admitted at acquisition |
| BackedgeClock.AbandonedPageIsLost | src/backedge_clock.rs:308-318 | a lease dropped inside a call or by a stranger keeps the page for ever |
| BackedgeClock.FinishesExactly | src/backedge_clock/batch.rs:148-168 | a batch finishes exactly on its worker, outside unwinding, after every declared call returned |
| BackedgeClock.SpentLeaseAdmitsNothing | src/backedge_clock/batch.rs:41-80 | in every state after a batch began, finished or abandoned, the lease admits neither calls nor batches |
| ClockPage.Page.Acquire | src/backedge_clock.rs:170-205 | resets the words and takes the owner bit, under exactly these conditions, or refuses and changes nothing |
| ClockPage.Page.RefillAfterResume | src/backedge_clock.rs:229-244 | refills exactly a zero word of an owned page and changes no other word |
| ClockPage.Page.BeginCall | src/backedge_clock.rs:294-305 | admits one ordinary call exactly for the own idle worker outside batches, or refuses and changes nothing |
| ClockPage.Page.DropLease | src/backedge_clock.rs:308-318 | frees the page exactly for its own idle worker |
| ClockPage.Page.BeginBatch | src/backedge_clock/batch.rs:41-80 | admits a batch exactly on a fresh idle own lease, for positive calls and work within the admitted work |
| ClockPage.Page.BatchCall | src/backedge_clock/batch.rs:126-146 | precharges one call exactly while the batch is idle, unpoisoned and not used up, or refuses and changes nothing |
| ClockPage.Page.Finish | src/backedge_clock/batch.rs:148-168 | consumes the batch and releases the call latch only when complete |
| EntryRouter.StepKeepsInv | src/entry_router.rs:197-285 | every interleaved step keeps the router's invariant |
| EntryRouter.AtMostOneActiveRoute | src/entry_router.rs:236-285 | in every reachable state at most one active batch routes an address |
| EntryRouter.ConflictLookDecides | src/entry_router.rs:256-272 | a staging is refused exactly at an active batch that shares an address with it |
| EntryRouter.PublishAppends | src/entry_router.rs:236-285 | publishing appends one active batch to the list as it is then |
| EntryRouter.CommittedRoutesStay | src/entry_router.rs:199-223 | an active batch whose committed handle is gone stays active |
| EntryRouter.WalkFindsSteadyRoute | src/entry_router.rs:302-325 | a walk returns the generated address of any route published before it and active throughout, whatever else happens |
| EntryRouter.FoundRouteWasActive | src/entry_router.rs:302-325 | what a walk returns was a route of a batch active when looked at |
| EntryRouter.MissMeansNoSteadyRoute | src/entry_router.rs:302-325 | a walk that gives up had no steady route |
| RouterList.Registry.Stage | src/entry_router.rs:236-285 | the exact refusal, or one new active batch of the sorted routes |
| RouterList.Registry.Drop | src/entry_router.rs:218-223 | dropping an uncommitted registration deactivates its batch |
| RouterList.Registry.WalkList | src/entry_router.rs:302-325 | the walk returns the only active route of the address, or none when there is none |
| RouterList.Registry.OwnedFault | src/entry_router.rs:287-325 | only an authentic illegal operand at a routed address is owned, and by its only active route |
| RouterList.Registry.Handle | src/entry_router.rs:328-355 | an owned fault resumes at its generated address and is counted once; any other is raised under the default action, or the process exits |
| ForeignSearch.AddWork | src/engine_foreign.rs:178-187 | run-by-run checked addition fails exactly when a total does not fit |
| ForeignSearch.EligibleSitesExactly | src/engine_foreign.rs:73-92 | each foreign site is tried or passed over on its own, in list order: all without a forced victim, else those at its head |
| ForeignSearch.TriedExactly | src/engine_foreign.rs:93-114 | a site of another allocation is rejected unsearched; a rejection without a victim run is charged one admission visit |
| ForeignSearch.OneTryStaysWithin | src/engine_foreign.rs:109-173 | one try charges exactly one victim and stays in the policy |
| ForeignSearch.PlanAfterWithForeign | src/engine_foreign.rs:27-176 | attempts, result and refusal for every planner; the over-budget exits are taken exactly as specified, and never with a planner that honours its limits once the local work fits |
| ForeignSearch.ContinuationStaysInBudget | src/engine_foreign.rs:27-176 | recorded victims and pairs stay inside the policy, and tries equal charged victims |
| PairSearch.PairsExactly | src/neighbor_cross_function.rs:195-245 | every selected slot under every placeable victim slot, once, row by row |
| PairSearch.SearchPairs | src/neighbor_cross_function.rs:195-336 | the nested loops accept the first pair that composes within the limit, or report the last refusal and whether a pair was left |
| PairSearch.Search | src/neighbor_cross_function.rs:85-336 | guards, qualification and the pair loops with their recorded runs |
| PairSearch.SearchHonoursLimits | src/neighbor_cross_function.rs:85-336 | every answer, early exits included, spends one victim at most and no more pairs than were given |
| PairSearch.SearchingPlannerHonours | src/neighbor_cross_function.rs:85-336 | a planner that answers as this search does honours its limits, and there is one |
| Depfile.ScanLine | evaluation/emitter-parity-run.py:92-114 | the scanning loop computes the words of a line, or fails where its assertions do |
| Depfile.DepfileRules | evaluation/emitter-parity-run.py:84-117 | the parser equals its specification on every text |
| Depfile.TokensRefuseExactly | evaluation/emitter-parity-run.py:92-114 | a line is refused exactly for an unescaped `#`, an escape of nothing or of a character outside the list, or a lone `$` |
| Depfile.SeparatorEndsWord | evaluation/emitter-parity-run.py:104-114 | space, tab and colon end a word; only the colon is kept |
| Depfile.QuoteIsEscape | evaluation/emitter-parity-depfile-controls.py:25-26 | the chained replacements are one escape per character |
| Depfile.TokensOfQuote | evaluation/emitter-parity-depfile-controls.py:25-26 | reading a printed word extends the current token by exactly that word |
| Depfile.DepfileRoundTrip | evaluation/emitter-parity-depfile-controls.py:28-31 | printed rules are read back as the targets with their dependencies, then the empty rules; refused exactly when there is nothing to print |
| DepfileBinding.WalkComponents | evaluation/emitter-parity-run.py:147-156 | the pushing and popping loop walks the path components |
| DepfileBinding.WalkStaysInside | evaluation/emitter-parity-run.py:147-156 | a path is refused exactly when some prefix goes above the package, and resolves to plain names only |
| DepfileBinding.NamesWalkToThemselves | evaluation/emitter-parity-run.py:147-156 | a resolved path resolves to itself |
| DepfileBinding.NormalPathsStay | evaluation/emitter-parity-run.py:123-124 | an accepted source directory is what walking and joining its own components gives |
| DepfileBinding.CollectSources | evaluation/emitter-parity-run.py:139-159 | every dependency becomes one expected member, none twice |
| DepfileBinding.BindCoreDepfile | evaluation/emitter-parity-run.py:120-163 | the binding equals its specification on every text |
| DepfileBinding.BindingOfRendering | evaluation/emitter-parity-run.py:120-163 | a printed file binds exactly when targets, dependencies and members fit; its shape never fails |
| DepfileShape.RulesFitExactly | evaluation/emitter-parity-run.py:127-138 | the rules fit exactly if they are the printed ones for these targets and the first rule's distinct dependencies, in some order with that rule first |
| DepfileShape.SourcesExactly | evaluation/emitter-parity-run.py:139-159 | sources are collected exactly if every dependency resolves to its own expected member, and then list exactly these members with spelling and hash |
| DepfileShape.BindsExactly | evaluation/emitter-parity-run.py:120-163 | for every text, the unordered conditions under which it binds |

## Left out

- Hardware and kernel effects: mappings, protections, memfd, core synchronization, signal masks and dispositions,
  and raw pointers. Only their success or failure appears.
- Instruction decoding, trampoline emission and quiescent leaf planners: their answers are parameters. The chain
  planner assumes that a pun leaf returns a checked plan for the head, prefix and target it was asked for.
- Grouped bundles (`compose_grouped`): images that share one backing allocation.
- Provenance lists of legal entries, artifact metadata and candidate proofs of search evidence.
- `plan_successor_core` of src/eviction.rs and the emission of its members: one-successor form of the chain search.
- `compose_sources` and `reject_interior_targets` of src/neighbor_cross_function.rs: answers of the pair search's
  surroundings.
- Weak memory: acquire and release accesses of the router and of the clock's owner bit are modelled as atomic steps
  of one interleaving.
- The router's `prepare` and `verify`: signal set-up; their failure is the refusal of `Stage`.
- Concurrent publication by the word patcher, frame tracing, probes and the tactic order of the engine.
- The machine code of the two-level loop: the loop is modelled by its instructions' effect on the three registers.
- ArtifactPlacement.ShiftingADomainChangesNothing: one direction only; the exact conditions are the two lemmas beside it.
- ArtifactLinking.DistinctOffsetsFixTheResult: one direction only; the exact condition is ArtifactOrder.OrderFreeExactly.
- Bundle.Compose: grouped backing is not modelled, and when originals are both empty or wrapping and overlapping it
  does not say which of the two refusals wins, because the sort of equal addresses is unspecified.
- ChainPlanner.Planner.Descend: the evidence of leaf planners, candidate proofs and grouping are not modelled.
- PairSearch.Search: which refusal wins among the preparations before the first run is one parameter.
- RegionClock.Region.Hook: process, thread, canary bytes, event delivery and resume are one fact about the surroundings.
- RouterList.Registry.Handle: the default action's own effect after the raise is the kernel's.
