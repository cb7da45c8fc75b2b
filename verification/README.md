# Scheduler plugins, verified

A Dafny model of the algorithms and state machines inside a collection of Kubernetes scheduler plugins, with
proofs about every input, every run and every reachable state. `dafny verify dfyconfig.toml` checks all of it.

What is modelled, file by file:

- **Elastic quotas.** `ElasticQuota.dfy` and `CapacityScheduling.dfy` hold the ledger (`pods`, `Used`, `Min`, `Max` per
  namespace), the admission check and the locked sections that change the ledger, and prove that the ledger is safe over
  every run. Each locked section is one atomic step. `Resources.dfy`, `Sums.dfy`, `Options.dfy` and `Subsequences.dfy` are
  the vectors, sums, optional values and subsequences that the files share.
- **Preemption.** `DisruptionBudgets.dfy` is the split of candidates by disruption budget, `Reprieve.dfy` the dry run on
  values, `DryRuns.dfy` the node's pod slice with its swap-delete and the quota snapshot, `CapacityPreemption.dfy` and
  `PreemptionToleration.dfy` the two victim searches. The framework's filters are an arbitrary predicate on the pods of
  the node.
- **NUMA-aware placement.** `NumaFilter.dfy` is the single-NUMA-node filter, `NumaNodes.dfy` and `LeastNuma.dfy` the
  scorer that looks for a smallest set of NUMA nodes, `OverReserveCache.dfy` the pessimistic cache and
  `NumaPessimism.dfy` what the cache guarantees about the filter. Iteration over a dictionary is arbitrary choice.
- **Gang scheduling.** `GangScheduling.dfy` has Permit, PostFilter and Unreserve as operations and as steps of a protocol.
- **Smaller cores.** `SySched.dfy` (system-call index), `TrimaranCache.dfy` (time-ordered pod lists), `BetaFit.dfy` with
  `RealArithmetic.dfy` (moment fit over the reals), `ScorePipeline.dfy` (three-stage scores of the custom plugin) and
  `EffectiveRequest.dfy` (four computations of a pod's request).

Operations that update state in place are methods of classes or methods with loops; each is proved against a function of
the old state, and the properties are proved about those functions and their runs.

## Where the code differs from what it promises

Each of these is kept as the code has it; the members named give its exact condition and a concrete case.

- The reprieve loop of the capacity plugin removes a pod twice when the filters refuse it and the nominated sums exceed
  the quotas; the search then fails although victims exist (`CapacityPreemption.SelectionAbortsExactly`, `AbortExample`).
- The number of violating victims counts only pods that the filters refused, not those that the quota check refused
  (`CapacityPreemption.ViolatingCountIsExactWhen`, `ViolatingCountCanBeZero`, `UndercountExample`).
- `NormalizeScore` of the custom plugin announces a linear map onto 0..100 but divides before it multiplies, so that only
  0 and 100 occur (`ScorePipeline.FinalIsTopOrNothing`, `LinearExactly`, `LostScoreExample`).
- With the network scores, rounding the cube root can leave raw scores that differ without any top value
  (`ScorePipeline.TopGoesToMaximalNodes`, `NobodyOnTopExample`).
- The container-level NUMA filter subtracts resources that no NUMA node reports and leaves an entry of at most 0, which
  blocks the next container that asks (`NumaFilter.UnalignedRejectsExactly`, `UnreportedResourceExample`,
  `ZeroQuantityExample`).
- The scorer overlooks exactly the fitting NUMA sets whose average distance is 256 or more (`LeastNuma.OverlookedExactly`,
  `FarNodesAreOverlooked`), and its score leaves the legal range beyond 8 NUMA nodes (`LeastNuma.ScoreInRange`,
  `NineNodesExample`).
- A quota without Max is meant to be unlimited, but its default names no pod count, so that it accepts no request for pods
  (`ElasticQuota.MissingMaxExactly`).
- A reservation that lands between the check and the flush of a resync is forgotten
  (`OverReserveCache.ReserveBeforeFlushIsDroppedExactly`, `DroppedReservationExample`).
- If the snapshot cannot be listed, Permit counts nobody, and a complete group may keep waiting
  (`GangScheduling.FailedListLosesWakeUpExactly`, `FailedListExample`).
- SySched identifies pods by name alone, so that a pod of another namespace can stay uncounted (`SySched.CoveredExactly`,
  `NameClashExample`).
- The clean-up of the Trimaran cache leaves a list alone when all of its entries are old, and its branch that drops an
  empty node is unreachable (`TrimaranCache.CleanupIsExact`, `OldListExample`).
- The quota controller throws the sum with the pod overhead away (`EffectiveRequest.AgreesExactlyWithoutOverhead`,
  `OverheadIsLost`).

## Model

| member | source | states |
|---|---|---|
| ElasticQuota.MaxCheckIsExact | pkg/capacityscheduling/elasticquota.go:117-123 | although the comparison skips scalars that the request does not name, an entry within Max stays within Max in every dimension exactly when the check passes |
| ElasticQuota.MaxCheckMonotone | pkg/capacityscheduling/elasticquota.go:196-224 | a larger request never passes where a smaller one failed |
| ElasticQuota.CmpIsPointwise | pkg/capacityscheduling/elasticquota.go:192-224 | the comparison with bound 0 holds exactly when some dimension, scalars included, exceeds |
| ElasticQuota.Cmp2Exactly | pkg/capacityscheduling/elasticquota.go:196-224 | on any vectors the comparison holds exactly when some dimension exceeds its limit, scalars counting only if the first vector names them |
| ElasticQuota.MissingMaxExactly | pkg/capacityscheduling/elasticquota.go:226-232 | a quota without Max accepts exactly what stays within the largest int64 and asks for no pods at all |
| ElasticQuota.AggregatedUsedOverMinWith | pkg/capacityscheduling/elasticquota.go:48-59 | over entries in any order: true exactly when, in some dimension, total usage plus the request exceeds the total of the minima |
| ElasticQuota.ElasticQuotaInfo.constructor | pkg/capacityscheduling/elasticquota.go:71-87 | nothing used, nothing tracked, missing bounds replaced by the defaults |
| ElasticQuota.ElasticQuotaInfo.Clone | pkg/capacityscheduling/elasticquota.go:133-156 | a fresh object with the same value |
| ElasticQuota.CloneInfos | pkg/capacityscheduling/elasticquota.go:40-46 | same values, every entry fresh and no two entries shared |
| ElasticQuota.ElasticQuotaInfo.ReserveResource | pkg/capacityscheduling/elasticquota.go:89-97 | usage plus the request in every dimension, scalars in any order |
| ElasticQuota.ElasticQuotaInfo.UnreserveResource | pkg/capacityscheduling/elasticquota.go:99-107 | usage minus the request in every dimension, scalars in any order |
| ElasticQuota.ElasticQuotaInfo.AddPodIfNotPresent | pkg/capacityscheduling/elasticquota.go:158-173 | charges a pod once however often it is added; fails exactly without an identity |
| ElasticQuota.ElasticQuotaInfo.DeletePodIfPresent | pkg/capacityscheduling/elasticquota.go:175-190 | returns the charge exactly if the pod is tracked |
| ElasticQuota.ChargePod | pkg/capacityscheduling/capacity_scheduling.go:289-305 | the dry run's AddPod changes only the pod's own quota |
| ElasticQuota.DischargePod | pkg/capacityscheduling/capacity_scheduling.go:308-324 | the dry run's RemovePod changes only the pod's own quota |
| CapacityScheduling.Plugin.PreFilter | pkg/capacityscheduling/capacity_scheduling.go:207-281 | leaves a fresh snapshot equal to the ledger and the nominated sums; succeeds exactly when the pod's quota stays within Max and the total within Min; an error exactly for a managed pod when the nodes cannot be listed |
| CapacityScheduling.RequestsCoverPod | pkg/capacityscheduling/capacity_scheduling.go:234-265 | both sums with the nominated pods cover the pod's own request |
| CapacityScheduling.OneMoreNominatedPod | pkg/capacityscheduling/capacity_scheduling.go:239-262 | one more nominated pod adds its request to the sum in the quota exactly if it is another pod of the same namespace with at least the pod's priority, and to the sum in total also if its own quota uses no more than Min in any dimension |
| CapacityScheduling.NoNominatedPods | pkg/capacityscheduling/capacity_scheduling.go:264-270 | without nominated pods both sums are the pod's request |
| CapacityScheduling.PriorityNeverHelps | pkg/capacityscheduling/capacity_scheduling.go:239-281 | raising the priority of a nominated pod never turns rejection into admission |
| CapacityScheduling.AdmitsExactly | pkg/capacityscheduling/capacity_scheduling.go:273-281 | admission pointwise: every dimension of quota and totals has room for the sums, and nothing else is asked |
| CapacityScheduling.AdmissionMakesRoom | pkg/capacityscheduling/capacity_scheduling.go:264-281 | a pod admitted on a safe ledger fits under Max and under the total Min in every dimension |
| CapacityScheduling.Plugin.Reserve | pkg/capacityscheduling/capacity_scheduling.go:346-359 | the ledger with the pod charged once; an error exactly for a managed pod without identity |
| CapacityScheduling.Plugin.Unreserve | pkg/capacityscheduling/capacity_scheduling.go:361-372 | the ledger with the pod's charge returned |
| CapacityScheduling.Plugin.OnAdd | pkg/capacityscheduling/capacity_scheduling.go:690-723 | the pod charged once, to a newly listed quota if the namespace had no entry |
| CapacityScheduling.Plugin.OnUpdate | pkg/capacityscheduling/capacity_scheduling.go:725-745 | the charge returned exactly when the pod leaves Pending and Running for the first time |
| CapacityScheduling.Plugin.OnDelete | pkg/capacityscheduling/capacity_scheduling.go:747-759 | the ledger with the pod's charge returned |
| CapacityScheduling.Plugin.AddElasticQuota | pkg/capacityscheduling/capacity_scheduling.go:653-665 | an existing entry is left alone, otherwise an empty one is made |
| CapacityScheduling.Plugin.UpdateElasticQuota | pkg/capacityscheduling/capacity_scheduling.go:667-681 | new bounds, with usage and tracked pods taken over |
| CapacityScheduling.Plugin.DeleteElasticQuota | pkg/capacityscheduling/capacity_scheduling.go:683-688 | exactly that entry is gone |
| CapacityScheduling.PutQuotaExactly | pkg/capacityscheduling/capacity_scheduling.go:653-681 | the given or default bounds, usage and pods kept, no other quota changed |
| CapacityScheduling.StepKeepsInv | pkg/capacityscheduling/capacity_scheduling.go:207-372 | every step keeps: usage is the sum of tracked requests, within Max, total within Min, and an admitted pod still has room |
| CapacityScheduling.LedgerIsSafe | pkg/capacityscheduling/elasticquota.go:158-224 | over every run with fixed quotas each usage is exactly the sum of the tracked requests, within Max in every dimension, and the total is within the total Min |
| CapacityScheduling.TrackedFollowsHistory | pkg/capacityscheduling/capacity_scheduling.go:346-759 | over every run a pod is charged exactly when a reservation or report charged it and since then it was neither unreserved nor deleted nor reported for the first time in a phase other than Pending and Running |
| CapacityScheduling.AdmittedFollowsHistory | pkg/capacityscheduling/capacity_scheduling.go:207-359 | the pod reserved next is the one of the last admission check, if that admitted it and nothing was reserved since |
| CapacityScheduling.UnadmittedAddIsSafeExactly | pkg/capacityscheduling/capacity_scheduling.go:690-723 | a pod charged without admission keeps the ledger safe exactly when it would have passed both checks |
| CapacityScheduling.AccountingSurvives | pkg/capacityscheduling/capacity_scheduling.go:653-759 | over every run of pod events and quota changes, admitted or not, usage stays the sum of the tracked requests |
| CapacityScheduling.NewBoundsAreSafeExactly | pkg/capacityscheduling/capacity_scheduling.go:667-681 | changed bounds keep the ledger safe exactly when the present usage fits the new Max and the new total Min |
| DisruptionBudgets.ChargeBudgets | pkg/capacityscheduling/capacity_scheduling.go:866-892 | one pod charged to every budget that covers it, violating exactly when one of these is then exceeded |
| DisruptionBudgets.FilterPodsWithPDBViolation | pkg/capacityscheduling/capacity_scheduling.go:856-901 | the counters-and-slices loop computes the split defined by counting covered pods |
| DisruptionBudgets.SplitIsPartition | pkg/capacityscheduling/capacity_scheduling.go:856-901 | no pod is lost, duplicated or invented |
| DisruptionBudgets.SplitIsStable | pkg/capacityscheduling/capacity_scheduling.go:851-901 | for every list, sorted or not, both parts are subsequences of it |
| DisruptionBudgets.SplitKeepsOrder | pkg/capacityscheduling/capacity_scheduling.go:604-610 | both parts of a list sorted by importance are sorted by importance |
| DisruptionBudgets.ViolatingExactly | pkg/capacityscheduling/capacity_scheduling.go:864-900 | a pod is violating exactly when some budget covering it is exceeded by the covered pods up to and including it |
| DisruptionBudgets.BudgetIsRespected | pkg/preemptiontoleration/preemption_toleration.go:352-397 | the non-violating pods under a budget number at most max(0, DisruptionsAllowed) |
| DisruptionBudgets.IdleBudgetChangesNothing | pkg/capacityscheduling/capacity_scheduling.go:868-885 | a budget under which no pod falls (namespace, labels, selector, disruptions under way written out) changes nothing |
| DisruptionBudgets.FullBudgetCutsList | pkg/capacityscheduling/capacity_scheduling.go:868-900 | one budget under which all pods fall cuts the list at its allowance |
| DisruptionBudgets.SortedExactly | pkg/capacityscheduling/capacity_scheduling.go:604-606 | sorted means that priorities fall and, among equal ones, start times rise |
| DisruptionBudgets.SortPods | pkg/capacityscheduling/capacity_scheduling.go:604-606 | some permutation with the most important first; callers know nothing about pods of equal importance |
| DryRuns.DryRun.RemoveFromNode | pkg/capacityscheduling/capacity_scheduling.go:496-498 | the swap-delete removes exactly the pod and leaves every other array slot in place, also past the new length |
| DryRuns.DryRun.RemovePod | pkg/capacityscheduling/capacity_scheduling.go:496-505 | off the node and off its quota; fails exactly if the pod is not on the node |
| DryRuns.DryRun.AddPod | pkg/capacityscheduling/capacity_scheduling.go:506-513 | onto the node and onto its quota |
| DryRuns.OrderIsPermutation | pkg/capacityscheduling/capacity_scheduling.go:604-610 | however the candidates are sorted, the put-back order is a rearrangement of them |
| Reprieve.CollectSplits | pkg/capacityscheduling/capacity_scheduling.go:522-574 | removing candidates leaves exactly the others, and each quota lowered by exactly the removed pods |
| Reprieve.TurnsPartition | pkg/capacityscheduling/capacity_scheduling.go:611-649 | victims are distinct, and victims and reprieved pods split the candidates; node and quotas agree |
| Reprieve.TurnsKeepFit | pkg/capacityscheduling/capacity_scheduling.go:611-624 | the preemptor fits at the end if it fitted with all candidates gone |
| Reprieve.TurnsWithinQuota | pkg/capacityscheduling/capacity_scheduling.go:625-632 | if the quota check passes with all candidates gone it passes at the end and the loop does not fail |
| Reprieve.TurnsOverQuota | pkg/capacityscheduling/capacity_scheduling.go:625-632 | if it fails there, nothing is reprieved, and the loop fails exactly when the filters refuse some candidate alone |
| Reprieve.TurnsIrreducible | pkg/capacityscheduling/capacity_scheduling.go:611-649 | no single victim can be put back into the final state |
| Reprieve.VictimsAreRefusedInTurn | pkg/preemptiontoleration/preemption_toleration.go:251-279 | a pod is a victim exactly when the node as it stands at its turn refuses it |
| Reprieve.MisfitsCountVictims | pkg/capacityscheduling/capacity_scheduling.go:635-642 | the counter counts all victims exactly when none was refused by the quota check alone |
| CapacityPreemption.ExceedsQuota | pkg/capacityscheduling/capacity_scheduling.go:592-600 | decides whether the preemptor's quota or the total would be exceeded |
| CapacityPreemption.ExceedsExactly | pkg/capacityscheduling/capacity_scheduling.go:592-600 | the check refuses exactly when some dimension exceeds Max or the total Min |
| CapacityPreemption.ReprievePod | pkg/capacityscheduling/capacity_scheduling.go:611-634 | the closure with its double removal is one turn on values, errors included |
| CapacityPreemption.ReprieveAll | pkg/capacityscheduling/capacity_scheduling.go:635-649 | each loop is the sequence of turns, with its misfit counter |
| CapacityPreemption.RemoveCandidates | pkg/capacityscheduling/capacity_scheduling.go:527-574 | ranging over the slice that is being swap-deleted still looks at every pod exactly once, in order |
| CapacityPreemption.CollectionLeaves | pkg/capacityscheduling/capacity_scheduling.go:527-574 | who is left: when reclaiming, only other quotas within Min in every dimension; when over Min, no less important pod of the own quota; without a quota, no less important pod without one |
| CapacityPreemption.OverMinExactly | pkg/capacityscheduling/capacity_scheduling.go:523-526 | the preemptor is over its Min exactly when some dimension exceeds, scalars counting if its sum names them |
| CapacityPreemption.SelectVictimsOnNode | pkg/capacityscheduling/capacity_scheduling.go:472-651 | the imperative search refines the search on values for some sorted arrangement of the candidates, every outcome included |
| CapacityPreemption.PreemptOnNode | pkg/capacityscheduling/capacity_scheduling.go:93-98 | admission and dry run together modify nothing that existed before, and the result is determined by ledger, nominated pods, node, budgets and the order among equally important pods |
| CapacityPreemption.PreFilterCovers | pkg/capacityscheduling/capacity_scheduling.go:234-265 | what PreFilter hands over is what the soundness theorem needs |
| CapacityPreemption.SelectionIsSound | pkg/capacityscheduling/capacity_scheduling.go:588-650 | victims are distinct candidates, the final node is the original minus them, the preemptor passes the filters there and its request keeps its quota within Max and the total within Min |
| CapacityPreemption.EvictedConsistent | pkg/capacityscheduling/capacity_scheduling.go:308-324 | evicting the victims from the ledger lowers each quota by exactly their requests, as the dry run did |
| CapacityPreemption.PreemptionKeepsLedgerSafe | pkg/capacityscheduling/capacity_scheduling.go:588-650 | on a safe ledger, after a successful selection, evicting the victims and reserving the preemptor leaves every quota within Max in every dimension and the total within the total Min |
| CapacityPreemption.SelectionIsIrreducible | pkg/capacityscheduling/capacity_scheduling.go:611-649 | for filters that never turn from fail to pass when pods are added, putting back any single victim fails the filters or the quota check |
| CapacityPreemption.SelectionIsGreedy | pkg/capacityscheduling/capacity_scheduling.go:604-649 | violating pods first, most important first, and a victim exactly when refused at its turn |
| CapacityPreemption.SelectionSucceedsExactly | pkg/capacityscheduling/capacity_scheduling.go:576-650 | the search succeeds exactly when there are candidates, the preemptor fits and passes the check without them, and the abort does not happen |
| CapacityPreemption.SelectionAbortsExactly | pkg/capacityscheduling/capacity_scheduling.go:611-634 | after the first checks the search fails exactly when the nominated sums exceed the quotas with all candidates gone and the filters refuse some candidate |
| CapacityPreemption.AbortExample | pkg/capacityscheduling/capacity_scheduling.go:618-632 | a concrete search that fails this way, with the sums that PreFilter computes for a nominated pod |
| CapacityPreemption.ViolatingCountIsExactWhen | pkg/capacityscheduling/capacity_scheduling.go:635-642 | the reported number is never too high, and exact exactly when no violating victim was refused by the quota check alone |
| CapacityPreemption.ViolatingCountCanBeZero | pkg/capacityscheduling/capacity_scheduling.go:625-650 | when the nominated sums exceed the quotas all candidates become victims and the reported number is 0 |
| CapacityPreemption.UndercountExample | pkg/capacityscheduling/capacity_scheduling.go:635-650 | a concrete search whose only victim violates its budget and which reports 0 |
| CapacityPreemption.ReclaimTakesFromBorrowers | pkg/capacityscheduling/capacity_scheduling.go:527-560 | every pod taken from another quota is taken while that quota is over its Min after all earlier removals; a quota within Min at the start loses none |
| CapacityPreemption.CandidatesAreLessImportant | pkg/capacityscheduling/capacity_scheduling.go:535-574 | otherwise candidates are less important pods of the same quota, or less important pods without a quota |
| PreemptionToleration.TolerationFades | pkg/preemptiontoleration/preemption_toleration.go:123-173 | toleration now implies toleration earlier and against lower priorities, and a priority below the policy's minimum |
| PreemptionToleration.TolerationEndsExactly | pkg/preemptiontoleration/preemption_toleration.go:123-173 | between two times toleration is lost exactly when the deadline falls between them, and it never comes back |
| PreemptionToleration.TolerationLastsForeverExactly | pkg/preemptiontoleration/preemption_toleration.go:123-173 | tolerated at all times exactly if the preemptor never preempts, or is below the minimum of a policy with a negative number or whose pod is not scheduled |
| PreemptionToleration.MissingMinimumExactly | pkg/preemptiontoleration/preemption_toleration_policy.go:55-83 | without a minimum the class's own value is still tolerated; annotations that are no numbers tolerate nobody |
| PreemptionToleration.DefaultPolicyTolerates | pkg/preemptiontoleration/preemption_toleration_policy.go:55-83 | without annotations a scheduled pod is exempted only from preemptors that never preempt |
| PreemptionToleration.ReprievePod | pkg/preemptiontoleration/preemption_toleration.go:251-266 | one turn without quota check, never an error |
| PreemptionToleration.ReprieveAll | pkg/preemptiontoleration/preemption_toleration.go:267-279 | each loop is the sequence of turns |
| PreemptionToleration.RemoveCandidates | pkg/preemptiontoleration/preemption_toleration.go:209-228 | fails exactly when a less important pod's class cannot be found; otherwise every pod is looked at once |
| PreemptionToleration.SelectVictimsOnNode | pkg/preemptiontoleration/preemption_toleration.go:180-281 | the imperative search refines the search on values for some sorted arrangement of the candidates |
| PreemptionToleration.EveryVictimIsAMisfit | pkg/preemptiontoleration/preemption_toleration.go:267-273 | here the loop never fails and the violating count is the number of victims |
| PreemptionToleration.SelectionIsSoundAndIrreducible | pkg/preemptiontoleration/preemption_toleration.go:209-281 | victims are distinct, less important and not exempted; the preemptor fits without them and, for filters that only get worse, not if any single one stays |
| PreemptionToleration.CandidatesAreEvictable | pkg/preemptiontoleration/preemption_toleration.go:209-228 | the candidates are exactly the less important pods that are not exempted |
| PreemptionToleration.SelectionSucceedsExactly | pkg/preemptiontoleration/preemption_toleration.go:209-243 | the error, no-victims and success cases, each exactly |
| NumaNodes.DrainNode | pkg/noderesourcetopology/plugin.go:69-92 | one node gives the smaller of what it has and what is missing |
| NumaNodes.DrainResource | pkg/noderesourcetopology/plugin.go:64-93 | the listed nodes give in list order, what is missing is what they do not have together, other nodes and resources untouched |
| NumaNodes.SubtractFromNUMAs | pkg/noderesourcetopology/plugin.go:63-94 | in any order of resources: of each the smaller of request and total on the listed nodes is removed, nothing goes negative, other nodes untouched |
| NumaFilter.ResourceBitmask | pkg/noderesourcetopology/filter.go:113-131 | exactly the IDs of the nodes that report enough of a resource |
| NumaFilter.ResourcesAvailableInAnyNUMANodes | pkg/noderesourcetopology/filter.go:89-157 | in any order of resources: a match exactly when the node knows everything requested and some ID is feasible for all of it, and then the lowest such ID |
| NumaFilter.SingleNUMAPodLevelHandler | pkg/noderesourcetopology/filter.go:178-195 | accepts exactly when the pod's request fits one NUMA node |
| NumaFilter.FeasibleInAmounts | pkg/noderesourcetopology/filter.go:100-176 | an ID is feasible exactly when for every resource that has to be local a node with it reports the name, and the quantity where the amount counts, names written out |
| NumaFilter.PodAcceptedInAmounts | pkg/noderesourcetopology/filter.go:89-195 | a pod is accepted exactly when the worker node has everything and some ID hosts it |
| NumaFilter.AmountsDoNotMatter | pkg/noderesourcetopology/filter.go:159-176 | for pods that are not Guaranteed amounts of processor time, memory and huge pages never matter |
| NumaFilter.BurstableExample | pkg/noderesourcetopology/filter.go:159-176 | four processors on two NUMA nodes of two: accepted for a Burstable pod, not for a Guaranteed one |
| NumaFilter.PodAcceptanceMonotone | pkg/noderesourcetopology/filter.go:178-195 | more availability never turns acceptance into rejection |
| NumaFilter.SubtractFromNUMA | pkg/noderesourcetopology/filter.go:230-249 | the request taken off the node with the ID, all others untouched |
| NumaFilter.SingleNUMAContainerLevelHandler | pkg/noderesourcetopology/filter.go:44-85 | accepts exactly when each init container fits alone and the greedy placement succeeds, and leaves its node list |
| NumaFilter.GreedyPlacementIsSound | pkg/noderesourcetopology/filter.go:44-85 | per node and resource the containers placed there stay within the initial availability, and what is left is the difference, never negative |
| NumaFilter.PlacedOnLowest | pkg/noderesourcetopology/filter.go:66-84 | each container is on the lowest node feasible at its turn |
| NumaFilter.UnalignedRestrictsExactly | pkg/noderesourcetopology/filter.go:230-249 | a resource that no node reports or needs to report restricts the next container exactly when the request taken off names it, be it with quantity 0 |
| NumaFilter.UnalignedBlocksExactly | pkg/noderesourcetopology/filter.go:66-84 | in a run of placements such a resource blocks container k exactly when an earlier container on an existing node names it, and then the pod is rejected |
| NumaFilter.UnalignedRejectsExactly | pkg/noderesourcetopology/filter.go:44-85 | a pod is placed if and only if it would be placed without the resource, the worker node has it, and no container asks for it after one on an existing node has named it; the places are the same |
| NumaFilter.UnreportedResourceExample | pkg/noderesourcetopology/filter.go:66-84 | a pod rejected although the worker node has a hundred of the device |
| NumaFilter.ZeroQuantityExample | pkg/noderesourcetopology/filter.go:230-249 | a container that names the device with quantity 0 gets the next one rejected |
| LeastNuma.CombinationsComplete | pkg/noderesourcetopology/least_numa.go:174 | the enumerated combinations are exactly the increasing choices of that size |
| LeastNuma.NodesAvgDistance | pkg/noderesourcetopology/least_numa.go:129-151 | the mean over all ordered pairs, unknown distances counting 255 |
| LeastNuma.AvgDistanceBounded | pkg/noderesourcetopology/least_numa.go:34-37 | distances of the table keep every average at or below 255 |
| LeastNuma.UnknownDistanceCountsAsFar | pkg/noderesourcetopology/least_numa.go:140-146 | filling unknown distances in as 255 changes no average |
| LeastNuma.UniformDistance | pkg/noderesourcetopology/least_numa.go:129-151 | where all distances are equal so is every average |
| LeastNuma.CombineResources | pkg/noderesourcetopology/least_numa.go:153-167 | per resource the sum over the chosen nodes |
| LeastNuma.FitsInAmounts | pkg/noderesourcetopology/least_numa.go:223-246 | a set fits exactly when each node reports every resource and together they hold the amounts that count |
| LeastNuma.MinAvgDistanceInCombinations | pkg/noderesourcetopology/least_numa.go:115-127 | the least average, capped at 255 |
| LeastNuma.FindSuitableCombination | pkg/noderesourcetopology/least_numa.go:192-221 | the nearest fitting combination; flagged exactly when no combination of the list is nearer; none exactly when none is eligible |
| LeastNuma.NumaNodesRequired | pkg/noderesourcetopology/least_numa.go:172-187 | a smallest eligible set, nearest among the fitting sets of its size; optimal exactly when nearest of all sets of its size; none exactly when none is eligible |
| LeastNuma.TableDistancesMissNothing | pkg/noderesourcetopology/least_numa.go:192-221 | with distances up to 255 eligible means fitting |
| LeastNuma.OverlookedExactly | pkg/noderesourcetopology/least_numa.go:196-200 | overlooked are exactly the fitting sets of average distance 256 or more |
| LeastNuma.FarNodesAreOverlooked | pkg/noderesourcetopology/least_numa.go:196-200 | a fitting node at distance 300 that the search does not find |
| LeastNuma.ScoreOrder | pkg/noderesourcetopology/least_numa.go:104-113 | a score is higher exactly with fewer nodes, or equally many at optimal distance |
| LeastNuma.ScoreInRange | pkg/noderesourcetopology/least_numa.go:104-113 | the score is a legal node score exactly up to 8 NUMA nodes |
| LeastNuma.ScoreSpacing | pkg/noderesourcetopology/least_numa.go:104-113 | scores are evenly spaced from 100, and optimal distance is worth half a node |
| LeastNuma.NineNodesExample | pkg/noderesourcetopology/least_numa.go:104-113 | nine NUMA nodes score -8 |
| LeastNuma.FitTakesRequest | pkg/noderesourcetopology/plugin.go:63-94 | after a fitting combination for a Guaranteed pod exactly the request is gone |
| LeastNuma.LeastNUMAContainerScopeScore | pkg/noderesourcetopology/least_numa.go:39-79 | each scored container takes its request off a smallest and nearest set of what the earlier ones left; the score is that of the largest set, or the minimum exactly when a container fits no set; for a Guaranteed pod the total drop is the total requested |
| LeastNuma.ScoredExactly | pkg/noderesourcetopology/pluginhelpers.go:181-191 | scored are exactly the containers that ask for a resource some NUMA node reports, in order |
| LeastNuma.MaxCountIsLargest | pkg/noderesourcetopology/least_numa.go:63-66 | the count that is scored is the largest found |
| OverReserveCache.NodeTopology.ChargePod | pkg/noderesourcetopology/cache/store.go:126-152 | one pod taken off every zone, down to nothing |
| OverReserveCache.NodeTopology.UpdateNRT | pkg/noderesourcetopology/cache/store.go:124-154 | in any order of pods: each availability minus the total of the requests, truncated at 0 |
| OverReserveCache.OverReserve.constructor | pkg/noderesourcetopology/cache/overreserve.go:57-82 | starts as if the listed topologies had just been flushed, all copies fresh |
| OverReserveCache.OverReserve.GetCachedNRTCopy | pkg/noderesourcetopology/cache/overreserve.go:84-105 | blocked, no topology, or a fresh copy with the pessimistic availability |
| OverReserveCache.OverwriteCopy | pkg/noderesourcetopology/cache/overreserve.go:84-105 | whatever a caller writes into the copy, the cache keeps its state |
| OverReserveCache.OverReserve.NodeMaybeOverReserved | pkg/noderesourcetopology/cache/overreserve.go:107-112 | one more discard of the node |
| OverReserveCache.OverReserve.NodeHasForeignPods | pkg/noderesourcetopology/cache/overreserve.go:114-123 | marks the node only if its topology is known |
| OverReserveCache.OverReserve.ReserveNodeResources | pkg/noderesourcetopology/cache/overreserve.go:125-139 | the pod's request replaces an earlier one, and the discards are forgotten |
| OverReserveCache.OverReserve.UnreserveNodeResources | pkg/noderesourcetopology/cache/overreserve.go:141-154 | only that pod's request is forgotten |
| OverReserveCache.OverReserve.NodesMaybeOverReserved | pkg/noderesourcetopology/cache/overreserve.go:163-183 | the loop over both counters lists every dirty node once and no other |
| OverReserveCache.DirtyFollowsHistory | pkg/noderesourcetopology/cache/overreserve.go:107-183 | after every run a node is dirty exactly when since its last flush a foreign pod was seen on it or it was discarded after its last reservation |
| OverReserveCache.OverReserve.Resync | pkg/noderesourcetopology/cache/overreserve.go:193-258 | undisturbed, a dirty node whose report is confirmed starts over from it; every other node keeps what it has |
| OverReserveCache.ResyncedExactly | pkg/noderesourcetopology/cache/overreserve.go:211-257 | a node starts over exactly if it was dirty, has a report, is listed with pods, the report carries a fingerprint and the pods match it; otherwise it keeps topology, reservations and marks |
| OverReserveCache.ResyncUnderInterference | pkg/noderesourcetopology/cache/overreserve.go:193-271 | with any events between check and flush, a node dirty and confirmed at the check starts over from its report, every other node ends as those events left it |
| OverReserveCache.ReserveBeforeFlushIsDroppedExactly | pkg/noderesourcetopology/cache/overreserve.go:257-271 | a reservation before a flush survives exactly if its node is not flushed |
| OverReserveCache.DroppedReservationExample | pkg/noderesourcetopology/cache/overreserve.go:257-271 | a reservation that is lost |
| OverReserveCache.OverReserve.FlushNodes | pkg/noderesourcetopology/cache/overreserve.go:261-271 | everything about the named nodes is replaced by copies |
| OverReserveCache.FlushAllEffect | pkg/noderesourcetopology/cache/overreserve.go:261-271 | a flush forgets everything about exactly the nodes it names and keeps their last entry |
| OverReserveCache.CacheFollowsHistory | pkg/noderesourcetopology/cache/overreserve.go:84-271 | after every run: foreign mark, topology and reservations of a node are those of its history since its last flush |
| OverReserveCache.AnswerFollowsHistory | pkg/noderesourcetopology/cache/overreserve.go:84-105 | the answer is blocked if a foreign pod was seen since the last flush, otherwise the flushed zones minus the requests reserved and not unreserved |
| OverReserveCache.FlushCutsHistory | pkg/noderesourcetopology/cache/overreserve.go:261-271 | two caches that flush a node and see the same events answer the same, whatever they held before |
| NumaPessimism.ReportedIsPessimistic | pkg/noderesourcetopology/cache/store.go:122-154 | for every way the reserved pods could be charged to zones the cached availability is at most the true one |
| NumaPessimism.PessimismIsTight | pkg/noderesourcetopology/cache/store.go:122-154 | if every pod was charged its whole request everywhere the cached availability is the true one |
| NumaPessimism.NothingLeft | pkg/noderesourcetopology/cache/store.go:142-148 | what is asked for beyond all there is leaves 0 |
| NumaPessimism.NodeListExactly | pkg/noderesourcetopology/pluginhelpers.go:102-130 | the zones with a NUMA ID and no others become NUMA nodes |
| NumaPessimism.LastEntryWins | pkg/noderesourcetopology/pluginhelpers.go:173-179 | a zone holds what its last entry of a name says |
| NumaPessimism.NoFalsePositives | pkg/noderesourcetopology/filter.go:178-195 | a pod accepted on the cached data is accepted on the true data |
| NumaPessimism.AcceptedAfterAnyHistory | pkg/noderesourcetopology/cache/overreserve.go:84-105 | after any history a pod accepted on the cache's answer is accepted on the true data, however the pods holding a reservation were charged |
| NumaPessimism.AcceptedAfterResync | pkg/noderesourcetopology/cache/overreserve.go:193-258 | if matching fingerprints mean that the listed pods are accounted for and all pods with a reservation are listed, a pod accepted after a resync is accepted on the true data |
| GangScheduling.FullNameIdentifiesGroup | pkg/util/podgroup.go:56-62 | equal full names mean the same group |
| GangScheduling.CalculateAssignedPods | pkg/coscheduling/core/core.go:277-294 | the number of the group's pods with a node over all listed nodes; 0 when they cannot be listed |
| GangScheduling.OnNodesExactly | pkg/coscheduling/core/core.go:284-291 | counted are the pods of any listed node that have been given a node |
| GangScheduling.Coscheduling.Permit | pkg/coscheduling/coscheduling.go:205-237 | the verdict, all waiting members let go on success, and the waiting pods those of the protocol's step |
| GangScheduling.Coscheduling.PostFilter | pkg/coscheduling/coscheduling.go:152-197 | gives the group up exactly when MinMember is missed by more than a tenth, and then rejects all its waiting pods, as the protocol's step |
| GangScheduling.Coscheduling.Unreserve | pkg/coscheduling/coscheduling.go:245-257 | rejects all waiting pods of the group and no others, as the protocol's step |
| GangScheduling.StepKeepsInv | pkg/coscheduling/coscheduling.go:152-257 | every step keeps: a waiting pod is assigned and its group has fewer than MinMember assigned pods |
| GangScheduling.NeverLosesWakeUp | pkg/coscheduling/core/core.go:213-243 | over every run a group with a waiting pod has fewer than MinMember assigned pods |
| GangScheduling.WhoLeavesTheWait | pkg/coscheduling/coscheduling.go:205-257 | pods leave the wait only by a Permit whose snapshot shows MinMember - 1 others, or by a step that leaves no member waiting, or by removal |
| GangScheduling.PermitOutcome | pkg/coscheduling/core/core.go:213-243 | who gets a node and who waits after a Permit, exactly, and that other groups are not touched |
| GangScheduling.NobodyLeftWaiting | pkg/coscheduling/coscheduling.go:152-257 | an Unreserve, a group given up and a completing Permit leave no member waiting |
| GangScheduling.GivesUpExactly | pkg/coscheduling/coscheduling.go:163-173 | given up exactly when more than a tenth is missing; groups below ten members as soon as anyone is |
| GangScheduling.FailedListLosesWakeUpExactly | pkg/coscheduling/core/core.go:277-282 | with nobody counted a wake-up is lost exactly when the group was complete and needs more than one member |
| GangScheduling.FailedListExample | pkg/coscheduling/core/core.go:277-282 | two pods that wait although their group of two is complete |
| SySched.Scheduler.AddPod | pkg/sysched/sysched.go:305-328 | listed once per name, calls added; the index stays consistent |
| SySched.Scheduler.RecomputeHostSyscalls | pkg/sysched/sysched.go:330-339 | the union over the pods |
| SySched.Scheduler.RemovePod | pkg/sysched/sysched.go:341-360 | swap-delete and recomputation; the index stays consistent |
| SySched.SwapDeleteKeepsOthers | pkg/sysched/sysched.go:52-59 | exactly the other pods stay, names still unique |
| SySched.IndexStaysConsistent | pkg/sysched/sysched.go:300-360 | over every run the calls of a node are the union over its listed pods, whose names are unique |
| SySched.AddedExactly | pkg/sysched/sysched.go:305-328 | adding lists the pod unless its name is listed, and changes nothing else |
| SySched.RemovedExactly | pkg/sysched/sysched.go:341-360 | removing takes exactly the pod of that name off |
| SySched.ListsFollowHistory | pkg/sysched/sysched.go:300-387 | over every run a name is listed exactly when it was added and not removed since |
| SySched.CoveredExactly | pkg/sysched/sysched.go:305-328 | an added pod's calls are covered exactly when no listed pod has its name, or they are covered already |
| SySched.NameClashExample | pkg/sysched/sysched.go:305-328 | two pods of one name on a node, the calls of the second missing from its index |
| SySched.Scheduler.Average | pkg/sysched/sysched.go:264-272 | the running value is the mean of all scores so far |
| SySched.Scheduler.Score | pkg/sysched/sysched.go:231-275 | the extraneous calls of all pods, recomputed after placing the new one; 0 if the node cannot be fetched, the largest number without a profile |
| SySched.ExtraneousAndOwn | pkg/sysched/sysched.go:215-275 | extraneous and own calls of all pods together make the node's calls once per pod |
| TrimaranCache.Search | pkg/trimaran/handler.go:147-149 | on a sorted list the first young entry; always a border between old and young |
| TrimaranCache.PodAssignEventHandler.UpdateCache | pkg/trimaran/handler.go:129-137 | appended with the present time, unless there is no node |
| TrimaranCache.PodAssignEventHandler.OnUpdate | pkg/trimaran/handler.go:100-107 | appended exactly when the node changed |
| TrimaranCache.PodAssignEventHandler.OnDelete | pkg/trimaran/handler.go:109-127 | only the first entry with the UID goes, order kept |
| TrimaranCache.RemoveFirstAt | pkg/trimaran/handler.go:115-124 | the entry taken out is the first with the UID |
| TrimaranCache.StepExactly | pkg/trimaran/handler.go:95-137 | an assignment keeps every entry and appends one; a deletion takes out one entry of the pod and keeps the others in order; nothing else changes |
| TrimaranCache.PodAssignEventHandler.CleanupCache | pkg/trimaran/handler.go:140-164 | nodes in any order, lists sorted or not: each is cut where the binary search ends, unless that is its end; no node is dropped |
| TrimaranCache.CleanedWhenSorted | pkg/trimaran/handler.go:145-160 | on a sorted list exactly the young entries stay if there are any, otherwise all |
| TrimaranCache.CleanupKeepsEnd | pkg/trimaran/handler.go:145-160 | on any list a non-empty end stays, beginning with a young entry if anything was cut |
| TrimaranCache.ListsStayInOrder | pkg/trimaran/handler.go:109-164 | under a clock that does not go back every list is sorted by time over every run |
| TrimaranCache.CleanupIsExact | pkg/trimaran/handler.go:140-164 | over every run under a clock that does not go back: no young entry goes; only young ones stay exactly when there was one or the list was empty; an old list is unchanged |
| TrimaranCache.OldListExample | pkg/trimaran/handler.go:149-151 | an old entry that stays |
| TrimaranCache.ClockBackExample | pkg/trimaran/handler.go:145-160 | a young entry dropped from a list that a clock going back left unsorted |
| BetaFit.NewBetaDistribution | pkg/trimaran/lowriskovercommitment/beta.go:41-52 | nothing exactly for parameters that are not positive, otherwise a distribution with its moments |
| BetaFit.BetaDistribution.ComputeMoments | pkg/trimaran/lowriskovercommitment/beta.go:60-68 | the moments are never refused by a fit and determine the parameters: their concentration and its shares are what they were computed from |
| BetaFit.RefitReturnsParameters | pkg/trimaran/lowriskovercommitment/beta.go:60-117 | the reverse round trip: fitting the moments of any distribution returns its parameters |
| BetaFit.MirroredMoments | pkg/trimaran/lowriskovercommitment/beta.go:60-68 | all three moments obey the mirror law: exchanging the parameters gives the moments of one minus the variable |
| BetaFit.SizeBias | pkg/trimaran/lowriskovercommitment/beta.go:60-68 | each next moment is the mean times the same moment with one more success |
| BetaFit.BetaDistribution.MatchMoments | pkg/trimaran/lowriskovercommitment/beta.go:107-117 | refused exactly when no distribution on the interval has the moments; infinite parameters exactly without variance; otherwise positive ones, the mean always met, the second moment exactly when the concentration was not raised |
| BetaFit.FitMeetsMoments | pkg/trimaran/lowriskovercommitment/beta.go:107-117 | the algebra: the moments recomputed from the parameters are the given ones |
| BetaFit.RefusesExactly | pkg/trimaran/lowriskovercommitment/beta.go:107-111 | among moments with variance exactly those of beta distributions are accepted |
| BetaFit.ClampedFitRoundTrips | pkg/trimaran/lowriskovercommitment/lowriskovercommitment.go:216-221 | with the deviation clamped and positive the fit is never refused and far from the raised concentration |
| BetaFit.ClampChangesNothingExactly | pkg/trimaran/lowriskovercommitment/lowriskovercommitment.go:219-220 | the clamp leaves exactly those deviations alone whose square is at most 99 percent of the largest variance |
| BetaFit.ComputeProbability | pkg/trimaran/lowriskovercommitment/beta.go:173-191 | all or nothing without mean or deviation, otherwise the distribution function of a fit that meets the moments |
| BetaFit.LoadRisk | pkg/trimaran/lowriskovercommitment/lowriskovercommitment.go:216-248 | a risk in 0..1 from a fit that is never refused and meets both moments; conditioning on the limit gives the conditional probability and never raises the risk |
| BetaFit.CombineRisks | pkg/trimaran/lowriskovercommitment/lowriskovercommitment.go:205-253 | a number in 0..1 unless limits equal to requests exceed the capacity without weight; between both parts while the requests are within the capacity |
| BetaFit.LimitRiskIsEven | pkg/trimaran/lowriskovercommitment/lowriskovercommitment.go:205-208 | the limit part falls evenly with the capacity from 1 to 0 |
| ScorePipeline.StretchFacts | pkg/neilats_refactor_go/neilats_refactor.go:276-301 | stretched scores lie in 100..200 in the same order; 200 exactly for the largest, 100 for the smallest |
| ScorePipeline.StretchIsEven | pkg/neilats_refactor_go/neilats_refactor.go:276-301 | equal raw gaps become equal gaps |
| ScorePipeline.ExtremesAttained | pkg/neilats_refactor_go/neilats_refactor.go:232-275 | the running extremes are scores of some nodes, unless all are below the int64 minimum |
| ScorePipeline.MaxOfTinyScores | pkg/neilats_refactor_go/neilats_refactor.go:232-275 | scores below the int64 minimum are taken for it in the maximum |
| ScorePipeline.FillAndStretch | pkg/neilats_refactor_go/neilats_refactor.go:241-301 | both loops together give every node its stretched raw score |
| ScorePipeline.Scheduler.PreScore | pkg/neilats_refactor_go/neilats_refactor.go:225-303 | the maps hold the stretched scores of the present nodes |
| ScorePipeline.Scheduler.Score | pkg/neilats_refactor_go/neilats_refactor.go:305-324 | the cube root of the product, rounded down, or the load score alone |
| ScorePipeline.CombinesExactly | pkg/neilats_refactor_go/neilats_refactor.go:313-322 | the largest integer whose cube is at most the product of the three, or that is at most the load score |
| ScorePipeline.EqualScoresCombine | pkg/neilats_refactor_go/neilats_refactor.go:313-322 | three equal scores combine to that score, rounded down |
| ScorePipeline.CombinedPreservesDominance | pkg/neilats_refactor_go/neilats_refactor.go:225-324 | combined scores lie in 100..200, and a node at least as good in all raw scores is not behind |
| ScorePipeline.NormalizeScore | pkg/neilats_refactor_go/neilats_refactor.go:536-565 | every score in the list is rescaled between the smallest and the largest of it |
| ScorePipeline.FinalIsTopOrNothing | pkg/neilats_refactor_go/neilats_refactor.go:554-563 | 100 exactly for the largest combined scores when scores differ, 0 for all others |
| ScorePipeline.LinearExactly | pkg/neilats_refactor_go/neilats_refactor.go:540-563 | the announced linear map is met exactly by the largest scores and by those less than a hundredth of the range above the smallest |
| ScorePipeline.LostScoreExample | pkg/neilats_refactor_go/neilats_refactor.go:554-563 | a score half-way between the others that ends with 0 |
| ScorePipeline.PipelinePreservesDominance | pkg/neilats_refactor_go/neilats_refactor.go:225-565 | through all three stages a node at least as good in all raw scores ends with at least as high a score, in 0..100 |
| ScorePipeline.TopGoesToMaximalNodes | pkg/neilats_refactor_go/neilats_refactor.go:305-565 | for all pods: 100 goes to a node exactly when no node is ahead of it by a perfect cube (by an integer without the network scores) and it is ahead of some node by one |
| ScorePipeline.NobodyOnTopExample | pkg/neilats_refactor_go/neilats_refactor.go:305-565 | two nodes, each best at one thing, neither of which gets 100 |
| ScorePipeline.TopGoesToLargestLoad | pkg/neilats_refactor_go/neilats_refactor.go:305-565 | without the network scores, when raw scores differ, 100 goes exactly to the nodes whose raw score no node exceeds |
| EffectiveRequest.ComputePodResourceRequest | pkg/capacityscheduling/capacity_scheduling.go:832-849 | per dimension the container sum raised to the largest init container, plus overhead |
| EffectiveRequest.ControllerPodResourceRequest | pkg/controllers/elasticquota_controller.go:139-155 | per name the larger of container sum and largest init container; the overhead does not matter |
| EffectiveRequest.GetPodEffectiveRequest | pkg/util/resource.go:50-77 | in any order of names: the same quantities, names included, as the controller's for every pod |
| EffectiveRequest.GetEffectiveResource | pkg/trimaran/resourcestats.go:125-147 | as the quota plugin's, but raised for processor time and memory only |
| EffectiveRequest.EffectiveRequestIsLeastCover | pkg/util/resource.go:45-49 | the request is the smallest quantity that covers the containers together and each init container alone |
| EffectiveRequest.AgreesExactlyWithoutOverhead | pkg/controllers/elasticquota_controller.go:150-152 | the quota plugin's quantity is the controller's plus the overhead, so they agree exactly where it is 0; on the pod count, which is not raised to init containers, exactly where the overhead makes up for that |
| EffectiveRequest.TrimaranAgreesExactly | pkg/trimaran/resourcestats.go:125-147 | Trimaran agrees with the quota plugin on processor time and memory for every pod; elsewhere exactly if no init container asks for more than the containers together |
| EffectiveRequest.OrderDoesNotMatter | pkg/capacityscheduling/capacity_scheduling.go:833-841 | reordering containers changes neither the sum nor the maximum |
| EffectiveRequest.OverheadIsLost | pkg/controllers/elasticquota_controller.go:150-152 | a pod of overhead 250 whose controller request is 0 |

## Left out

- BetaFit.BetaDistribution.MatchMoments: without variance the parameters are infinite and the moments no numbers; the model
  marks the object and says nothing about its fields.
- BetaFit.LoadRisk: the smoothing factor is part of the given deviation, and measurements are given.
- NumaFilter.UnalignedRejectsExactly: leaves out pods that are not Guaranteed asking for a resource whose name begins with
  `hugepages-` and yet has a domain, whose amount the filter ignores; `UnalignedBlocksExactly` covers them.
- ScorePipeline.TopGoesToLargestLoad: the raw-score form without the network scores, for raw scores not below the int64
  minimum that the running maximum starts from; `TopGoesToMaximalNodes` has neither restriction.
- OverReserveCache.OverReserve.Resync: fingerprints are a given relation between pods and reports.
- GangScheduling.Coscheduling.Permit: the waiting time, the reactivation of siblings and the back-off durations are not
  modelled; the groups and their MinMember are fixed.
- Rounding: reals stand for float64 and float32. Unbounded integers stand for int64, so overflow is not modelled; the
  int64 bounds of Max are kept as constants. Resource quantities are whole numbers in the unit of their resource.
- The order of the node's pods before candidates are collected is arbitrary here, which includes the sorted order that the
  capacity plugin makes first.
- Quotas are made by the constructor and so always have bounds; the branches for absent ones are not modelled.
- The parsing of zone names to NUMA IDs and of seccomp profiles to system calls: IDs, calls and distances are given. In the
  NUMA scorer the ID of a node is its position in the list.
- The framework: filter plugins, node records, cycle state, queues, informers, listers, logging and metrics. Their effects
  appear as parameters, events and predicates.
- Eligibility to preempt, choice among nodes and the candidate maps of both preemption plugins.
- The cluster-resource check and queue order of gang scheduling, and the PodGroup controller.
- The other NUMA scores (least, most and balanced allocation), the pod-scope score, and the other caches.
- The custom plugin's measurements over HTTP, SSH and Prometheus; raw scores are given.
- Network-aware plugins, pod state, quality-of-service sorting, node resources and the remaining Trimaran plugins.
