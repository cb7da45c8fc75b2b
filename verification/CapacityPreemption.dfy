/** Victim selection of the capacity scheduling plugin: SelectVictimsOnNode on one node. */
module CapacityPreemption {
  import opened Sums
  import opened Options
  import opened Resources
  import opened ElasticQuota
  import opened CapacityScheduling
  import opened DisruptionBudgets
  import opened Reprieve
  import opened DryRuns

  /** The preemptor, what PreFilter left for it, and the framework's filters as a predicate on the pods of
      the node. */
  datatype Search = Search(pod: Pod, requests: PreFilterState, filter: set<Pod> -> bool)

  datatype Selection =
    | NoVictims
    | DoesNotFit
    | QuotaExceeded
    | Aborted
    | Selected(victims: seq<Pod>, numViolating: nat)

  /** A request in namespace `ns` breaks its quota's Max or the total Min. */
  ghost predicate Exceeds(quotas: Quotas, ns: string, inQuota: Resource, inTotal: Resource) {
    ns in quotas && (quotas[ns].UsedOverMaxWith(inQuota) || AggregatedUsedOverMin(quotas, inTotal))
  }

  /** The check made for every pod put back: with the nominated pods counted. */
  ghost function QuotaCheck(s: Search): Quotas -> bool {
    q => Exceeds(q, s.pod.namespace, s.requests.inQuota, s.requests.inTotal)
  }

  /** Which pods are candidates: the preemptor's own less important pods if it is over its Min, the pods of
      borrowing quotas if it is not, and less important pods without a quota if it has none itself. */
  predicate Eligible(s: Search, overMin: bool, v: View, p: Pod) {
    if s.pod.namespace in v.quotas then
      p.namespace in v.quotas &&
      if overMin then p.namespace == s.pod.namespace && p.priority < s.pod.priority
      else p.namespace != s.pod.namespace && v.quotas[p.namespace].UsedOverMin()
    else p.namespace !in v.quotas && p.priority < s.pod.priority
  }

  predicate OverMin(s: Search, quotas: Quotas) {
    s.pod.namespace in quotas && quotas[s.pod.namespace].UsedOverMinWith(s.requests.inQuota)
  }

  function Candidates(s: Search, overMin: bool): (View, Pod) -> bool {
    (v: View, p: Pod) => Eligible(s, overMin, v, p)
  }

  /** All candidates removed: the reduced view and the candidates in list order. */
  function Cleared(s: Search, o: View, listed: seq<Pod>): (View, seq<Pod>) {
    Collect(o, Candidates(s, OverMin(s, o.quotas)), listed)
  }

  ghost function Select(s: Search, o: View, listed: seq<Pod>, sorted: seq<Pod>, pdbs: seq<Budget>): Selection {
    var (v, potential) := Cleared(s, o, listed);
    if potential == [] then NoVictims
    else if !s.filter(v.node) then DoesNotFit
    else if Exceeds(v.quotas, s.pod.namespace, s.requests.podReq, s.requests.podReq) then QuotaExceeded
    else
      var g := Turns(v, s.filter, QuotaCheck(s), Order(sorted, pdbs));
      if g.Broken? then Aborted else
        Selected(g.victims,
                 Misfits(Turns(v, s.filter, QuotaCheck(s), Violating(sorted, pdbs))))
  }

  // ----- The imperative search -----

  method ExceedsQuota(infos: Infos, ns: string, inQuota: Resource, inTotal: Resource) returns (r: bool)
    requires MinsNonNegative(Views(infos))
    ensures r == Exceeds(Views(infos), ns, inQuota, inTotal)
  {
    if ns !in infos {
      return false;
    }
    if infos[ns].View().UsedOverMaxWith(inQuota) {
      return true;
    }
    r := AggregatedUsedOverMinWith(infos, inTotal);
  }

  /** The closure reprievePod, with `victims` threaded through it. */
  method ReprievePod(dry: DryRun, s: Search, p: Pod, victims: seq<Pod>, ghost g: Progress)
    returns (ok: bool, fits: bool, newVictims: seq<Pod>)
    requires dry.Valid() && MinsNonNegative(dry.now.quotas) && p.uid != ""
    requires forall q :: q in dry.now.node ==> q.uid != p.uid
    requires g.Going? && g.view == dry.now && g.victims == victims
    modifies dry, dry.slots, dry.infos.Values
    ensures dry.Valid() && (dry.slots == old(dry.slots) || fresh(dry.slots))
    ensures ok == Turn(g, s.filter, QuotaCheck(s), p).Going?
    ensures ok ==> MinsNonNegative(dry.now.quotas)
    ensures ok ==> var t := Turn(g, s.filter, QuotaCheck(s), p);
                   && t.view == dry.now && t.victims == newVictims
                   && t.misfits == g.misfits + if fits then 0 else 1
  {
    newVictims := victims;
    dry.AddPod(p);
    fits := s.filter(dry.Node());
    if !fits {
      ok := dry.RemovePod(p);
      assert ok;
      newVictims := newVictims + [p];
    }
    MinsStay(g.view, p);
    var exceeded := ExceedsQuota(dry.infos, s.pod.namespace, s.requests.inQuota, s.requests.inTotal);
    if exceeded {
      ok := dry.RemovePod(p);
      if !ok {
        return false, fits, newVictims;
      }
      newVictims := newVictims + [p];
    }
    ok := true;
  }

  /** One of the two reprieve loops: gives the pods `todo[start..]` their turn. */
  method ReprieveAll(dry: DryRun, s: Search, todo: seq<Pod>, start: nat, stop: nat, victims: seq<Pod>, ghost v: View)
    returns (ok: bool, newVictims: seq<Pod>, misfits: nat)
    requires dry.Valid() && start <= stop <= |todo| && Apart(v.node, todo) && MinsNonNegative(v.quotas)
    requires var g := Turns(v, s.filter, QuotaCheck(s), todo[..start]);
             g.Going? && g.view == dry.now && g.victims == victims
    modifies dry, dry.slots, dry.infos.Values
    ensures dry.Valid() && (dry.slots == old(dry.slots) || fresh(dry.slots))
    ensures ok == Turns(v, s.filter, QuotaCheck(s), todo[..stop]).Going?
    ensures ok ==> var g := Turns(v, s.filter, QuotaCheck(s), todo[..stop]);
                   && g.view == dry.now && g.victims == newVictims
                   && g.misfits == Misfits(Turns(v, s.filter, QuotaCheck(s), todo[..start])) + misfits
  {
    hide Turn, QuotaCheck, Apart, MinsNonNegative;
    ghost var check := QuotaCheck(s);
    newVictims, misfits := victims, 0;
    ghost var g := Turns(v, s.filter, check, todo[..start]);
    for i := start to stop
      invariant dry.Valid() && (dry.slots == old(dry.slots) || fresh(dry.slots))
      invariant g == Turns(v, s.filter, check, todo[..i])
      invariant g.Going? && g.view == dry.now && g.victims == newVictims
      invariant g.misfits == Misfits(Turns(v, s.filter, check, todo[..start])) + misfits
    {
      NextTurn(v, s.filter, check, todo, i);
      var done, fits;
      done, fits, newVictims := ReprievePod(dry, s, todo[i], newVictims, g);
      if !done {
        BrokenTurn(v, s.filter, check, todo, i, stop);
        return false, newVictims, misfits;
      }
      if !fits {
        misfits := misfits + 1;
      }
      g := Turn(g, s.filter, check, todo[i]);
    }
    ok := true;
  }

  lemma CandidatesMean(s: Search, overMin: bool, v: View, p: Pod)
    ensures Candidates(s, overMin)(v, p) == Eligible(s, overMin, v, p)
  {
  }

  method IsEligible(dry: DryRun, s: Search, withQuota: bool, overMin: bool, p: Pod) returns (r: bool)
    requires dry.Valid() && withQuota == (s.pod.namespace in dry.infos)
    ensures r == Eligible(s, overMin, dry.now, p)
  {
    if withQuota {
      if p.namespace !in dry.infos {
        r := false;
      } else if overMin {
        r := p.namespace == s.pod.namespace && p.priority < s.pod.priority;
      } else {
        r := p.namespace != s.pod.namespace && dry.infos[p.namespace].View().UsedOverMin();
      }
    } else {
      r := p.namespace !in dry.infos && p.priority < s.pod.priority;
    }
  }

  /** Removes the candidates while ranging over the very slice they are removed from: each removal moves the
      last live pod over the removed one, yet every listed pod is looked at exactly once, in list order. */
  method RemoveCandidates(dry: DryRun, s: Search, overMin: bool) returns (potential: seq<Pod>)
    requires dry.Valid() && MinsNonNegative(dry.now.quotas)
    modifies dry, dry.slots, dry.infos.Values
    ensures dry.Valid() && (dry.slots == old(dry.slots) || fresh(dry.slots))
    ensures dry.now == Collect(old(dry.now), Candidates(s, overMin), old(dry.slots[..dry.live])).0
    ensures potential == Collect(old(dry.now), Candidates(s, overMin), old(dry.slots[..dry.live])).1
  {
    hide *;
    RangeFacts(dry);
    ghost var o, listed := dry.now, dry.slots[..dry.live];
    ghost var choose := Candidates(s, overMin);
    CollectNone(o, choose);
    var ranged, n := dry.slots, dry.live;
    potential := [];
    assert listed[..0] == [];
    for i := 0 to n
      invariant dry.Valid() && (dry.slots == ranged || fresh(dry.slots))
      invariant dry.now == Collect(o, choose, listed[..i]).0 && potential == Collect(o, choose, listed[..i]).1
      invariant forall k :: i <= k < n ==> ranged[k] == listed[k]
    {
      var p := ranged[i];
      NextLook(o, choose, listed, i);
      var eligible := IsEligible(dry, s, s.pod.namespace in dry.infos, overMin, p);
      CandidatesMean(s, overMin, dry.now, p);
      if eligible {
        potential := potential + [p];
        var _ := dry.RemovePod(p);
      }
    }
    assert listed[..n] == listed;
  }

  method CollectCandidates(dry: DryRun, s: Search) returns (potential: seq<Pod>)
    requires dry.Valid() && MinsNonNegative(dry.now.quotas)
    modifies dry, dry.slots, dry.infos.Values
    ensures dry.Valid() && (dry.slots == old(dry.slots) || fresh(dry.slots))
    ensures dry.now == Cleared(s, old(dry.now), old(dry.slots[..dry.live])).0
    ensures potential == Cleared(s, old(dry.now), old(dry.slots[..dry.live])).1
  {
    var overMin := s.pod.namespace in dry.infos &&
                   dry.infos[s.pod.namespace].View().UsedOverMinWith(s.requests.inQuota);
    potential := RemoveCandidates(dry, s, overMin);
  }

  lemma ClearedApart(s: Search, o: View, listed: seq<Pod>, sorted: seq<Pod>, pdbs: seq<Budget>)
    requires DistinctUids(listed) && o.node == AsSet(listed) && MinsNonNegative(o.quotas)
    requires IsSort(Cleared(s, o, listed).1, sorted)
    ensures var (v, potential) := Cleared(s, o, listed);
            Apart(v.node, Order(sorted, pdbs)) && MinsNonNegative(v.quotas)
  {
    OrderApart(o, Candidates(s, OverMin(s, o.quotas)), listed, sorted, pdbs);
  }

  /** The search. `sorted` is the arrangement of the candidates that the sort happened to produce. */
  method SelectVictimsOnNode(dry: DryRun, s: Search, pdbs: seq<Budget>)
    returns (r: Selection, ghost sorted: seq<Pod>)
    requires dry.Valid() && MinsNonNegative(dry.now.quotas)
    modifies dry, dry.slots, dry.infos.Values
    ensures IsSort(Cleared(s, old(dry.now), old(dry.slots[..dry.live])).1, sorted)
    ensures r == Select(s, old(dry.now), old(dry.slots[..dry.live]), sorted, pdbs)
  {
    hide Turn, Exceeds, Cleared, Violating, NonViolating, Apart, MinsNonNegative, QuotaCheck, IsSort;
    ghost var o, listed := dry.now, dry.slots[..dry.live];
    var potential := CollectCandidates(dry, s);
    ghost var v := dry.now;
    var ordered := SortPods(potential);
    sorted := ordered;
    ClearedApart(s, o, listed, sorted, pdbs);
    if |potential| == 0 {
      return NoVictims, sorted;
    }
    if !s.filter(dry.Node()) {
      return DoesNotFit, sorted;
    }
    var exceeded := ExceedsQuota(dry.infos, s.pod.namespace, s.requests.podReq, s.requests.podReq);
    if exceeded {
      return QuotaExceeded, sorted;
    }
    var violating, nonViolating := FilterPodsWithPDBViolation(ordered, pdbs);
    var order := violating + nonViolating;
    assert order[..0] == [] && order[..|violating|] == violating && order[..|order|] == order;
    var ok, victims, numViolating := ReprieveAll(dry, s, order, 0, |violating|, [], v);
    if !ok {
      BrokenStays(v, s.filter, QuotaCheck(s), order, |violating|);
      return Aborted, sorted;
    }
    var others;
    ok, victims, others := ReprieveAll(dry, s, order, |violating|, |order|, victims, v);
    if !ok {
      return Aborted, sorted;
    }
    r := Selected(victims, numViolating);
  }

  /** One node of a preemption attempt, from admission on. The search works on a clone of the snapshot that
      PreFilter cloned from the live ledger, so it modifies nothing that existed before, and its result is
      determined by the ledger, the nominated pods, the pods of the node, the budgets and the order among pods of
      equal importance. */
  method PreemptOnNode(plugin: Plugin, pod: Pod, nominated: seq<Pod>, filter: set<Pod> -> bool, pods: seq<Pod>,
                       pdbs: seq<Budget>)
    returns (r: Selection)
    requires plugin.Valid() && MinsNonNegative(plugin.Ledger()) && DistinctUids(pods)
    ensures var s := Search(pod, Requests(plugin.Ledger(), pod, nominated), filter);
            var o := View(AsSet(pods), plugin.Ledger());
            exists sorted :: IsSort(Cleared(s, o, pods).1, sorted) && r == Select(s, o, pods, sorted, pdbs)
  {
    hide Select, Requests, Admits, MinsNonNegative, DistinctUids, IsSort, Cleared;
    var _, requests, snapshot := plugin.PreFilter(pod, Some(nominated));
    var copy := CloneInfos(snapshot);
    var dry := new DryRun(pods, copy);
    var s := Search(pod, requests, filter);
    ghost var o, listed, sorted := dry.now, dry.slots[..dry.live], [];
    assert o == View(AsSet(pods), plugin.Ledger()) && listed == pods;
    r, sorted := SelectVictimsOnNode(dry, s, pdbs);
    assert IsSort(Cleared(s, o, listed).1, sorted) && r == Select(s, o, listed, sorted, pdbs);
  }

  // ----- What a successful selection guarantees -----

  /** What PreFilter guarantees about its sums: they cover the pod's own request. */
  ghost predicate Covering(r: PreFilterState) {
    && AtMost(r.podReq, r.inQuota) && AtMost(r.podReq, r.inTotal)
    && r.podReq.scalars.Keys <= r.inQuota.scalars.Keys
  }

  /** A request that names no more scalars and asks for no more passes whenever the larger one passes. */
  lemma ExceedsCovered(quotas: Quotas, ns: string, small: Resource, inQuota: Resource, inTotal: Resource)
    requires AtMost(small, inQuota) && AtMost(small, inTotal) && small.scalars.Keys <= inQuota.scalars.Keys
    requires Exceeds(quotas, ns, small, small)
    ensures Exceeds(quotas, ns, inQuota, inTotal)
  {
    var q := quotas[ns];
    if q.UsedOverMaxWith(small) {
      assert small.At(Cpu) <= inQuota.At(Cpu) && small.At(Memory) <= inQuota.At(Memory);
      assert small.At(EphemeralStorage) <= inQuota.At(EphemeralStorage) && small.At(PodNumber) <= inQuota.At(PodNumber);
      assert forall n :: n in small.scalars ==> small.At(Scalar(n)) <= inQuota.At(Scalar(n));
    } else {
      var d: Dim :| Sum(UsedAt(quotas, d)) + small.At(d) > Sum(MinAt(quotas, d));
      assert small.At(d) <= inTotal.At(d);
    }
  }

  /** The quota check never turns from exceeded to passed when pods return to the node. */
  lemma ExceedsMonotone(o: View, a: View, b: View, ns: string, inQuota: Resource, inTotal: Resource)
    requires Counted(o) && Consistent(o, a) && Consistent(o, b) && a.node <= b.node
    requires Exceeds(a.quotas, ns, inQuota, inTotal)
    ensures Exceeds(b.quotas, ns, inQuota, inTotal)
  {
    if a.quotas[ns].UsedOverMaxWith(inQuota) {
      forall d: Dim
        ensures a.quotas[ns].used.At(d) <= b.quotas[ns].used.At(d) && a.quotas[ns].max == b.quotas[ns].max
      {
        UsageMonotone(o, a, b, ns, d);
      }
      OverMaxGrows(a.quotas[ns], b.quotas[ns], inQuota);
    } else {
      var d: Dim :| Sum(UsedAt(a.quotas, d)) + inTotal.At(d) > Sum(MinAt(a.quotas, d));
      TotalsMonotone(o, a, b, d);
    }
  }

  lemma OverMaxGrows(a: Quota, b: Quota, request: Resource)
    requires a.max == b.max && AtMost(a.used, b.used) && a.UsedOverMaxWith(request)
    ensures b.UsedOverMaxWith(request)
  {
    assert a.used.At(Cpu) <= b.used.At(Cpu) && a.used.At(Memory) <= b.used.At(Memory);
    assert a.used.At(EphemeralStorage) <= b.used.At(EphemeralStorage);
    assert a.used.At(PodNumber) <= b.used.At(PodNumber);
    if n :| n in request.scalars && request.scalars[n] + Lookup(a.used.scalars, n)
            > if n in a.max.scalars then a.max.scalars[n] else UPPER_BOUND_OF_MAX {
      assert a.used.At(Scalar(n)) <= b.used.At(Scalar(n));
    }
  }

  lemma QuotaCheckMonotone(s: Search, o: View)
    requires Counted(o)
    ensures MonotoneCheck(o, QuotaCheck(s))
  {
    hide *;
    var check := QuotaCheck(s);
    forall a, b | Consistent(o, a) && Consistent(o, b) && a.node <= b.node && check(a.quotas)
      ensures check(b.quotas)
    {
      CheckMeans(s, a.quotas);
      CheckMeans(s, b.quotas);
      ExceedsMonotone(o, a, b, s.pod.namespace, s.requests.inQuota, s.requests.inTotal);
    }
    MonotoneCheckIntro(o, check);
  }

  lemma CheckMeans(s: Search, quotas: Quotas)
    ensures QuotaCheck(s)(quotas) == Exceeds(quotas, s.pod.namespace, s.requests.inQuota, s.requests.inTotal)
  {
  }

  lemma MonotoneCheckIntro(o: View, exceeded: Quotas -> bool)
    requires forall a, b :: Consistent(o, a) && Consistent(o, b) && a.node <= b.node && exceeded(a.quotas)
                            ==> exceeded(b.quotas)
    ensures MonotoneCheck(o, exceeded)
  {
  }

  /** The situation in which a search starts. */
  ghost predicate Ready(s: Search, o: View, listed: seq<Pod>) {
    && Counted(o) && MinsNonNegative(o.quotas)
    && Distinct(listed) && AsSet(listed) == o.node
    && (s.pod.namespace in o.quotas ==> Covering(s.requests))
  }

  lemma ClearedFacts(s: Search, o: View, listed: seq<Pod>, sorted: seq<Pod>, pdbs: seq<Budget>)
    requires Ready(s, o, listed) && IsSort(Cleared(s, o, listed).1, sorted)
    ensures var (v, potential) := Cleared(s, o, listed);
            && Consistent(o, v) && v.node == o.node - AsSet(potential)
            && Awaiting(o, v, Order(sorted, pdbs))
            && AsSet(Order(sorted, pdbs)) == AsSet(potential)
  {
    CollectedFacts(o, Candidates(s, OverMin(s, o.quotas)), listed, sorted, pdbs);
  }

  /** The final view of a successful search. */
  ghost function Final(s: Search, o: View, listed: seq<Pod>, sorted: seq<Pod>, pdbs: seq<Budget>): Progress {
    var (v, potential) := Cleared(s, o, listed);
    Turns(v, s.filter, QuotaCheck(s), Order(sorted, pdbs))
  }

  /** Soundness: the victims are distinct candidates, the final node is the original one without them (so the
      other candidates are back), the preemptor passes the filters there, and its request keeps its quota
      within Max and the total within Min, although the loop checked a different request than the start. */
  lemma SelectionIsSound(s: Search, o: View, listed: seq<Pod>, sorted: seq<Pod>, pdbs: seq<Budget>)
    requires Ready(s, o, listed) && IsSort(Cleared(s, o, listed).1, sorted)
    requires Select(s, o, listed, sorted, pdbs).Selected?
    ensures var victims := Select(s, o, listed, sorted, pdbs).victims;
            var g := Final(s, o, listed, sorted, pdbs);
            && g.Going? && g.victims == victims
            && Distinct(victims) && AsSet(victims) <= AsSet(Cleared(s, o, listed).1)
            && Consistent(o, g.view) && g.view.node == o.node - AsSet(victims)
            && s.filter(g.view.node)
            && !Exceeds(g.view.quotas, s.pod.namespace, s.requests.podReq, s.requests.podReq)
  {
    var (v, potential) := Cleared(s, o, listed);
    var order, check := Order(sorted, pdbs), QuotaCheck(s);
    var ns, own := s.pod.namespace, s.requests.podReq;
    ClearedFacts(s, o, listed, sorted, pdbs);
    QuotaCheckMonotone(s, o);
    TurnsPartition(o, v, s.filter, check, order);
    TurnsKeepFit(o, v, s.filter, check, order);
    CheckMeans(s, v.quotas);
    assert ns !in o.quotas ==> !Exceeds(Final(s, o, listed, sorted, pdbs).view.quotas, ns, own, own);
    hide Turns, Exceeds, Consistent, MonotoneCheck, QuotaCheck, Cleared, Order, Covering;
    var g := Final(s, o, listed, sorted, pdbs);
    if check(v.quotas) {
      TurnsOverQuota(o, v, s.filter, check, order);
      if Exceeds(g.view.quotas, ns, own, own) {
        ExceedsMonotone(o, g.view, v, ns, own, own);
      }
    } else {
      TurnsWithinQuota(o, v, s.filter, check, order);
      CheckMeans(s, g.view.quotas);
      if Exceeds(g.view.quotas, ns, own, own) {
        OwnWithinCovering(g.view.quotas, ns, s.requests);
      }
    }
  }

  lemma OwnWithinCovering(quotas: Quotas, ns: string, r: PreFilterState)
    requires Covering(r) && Exceeds(quotas, ns, r.podReq, r.podReq)
    ensures Exceeds(quotas, ns, r.inQuota, r.inTotal)
  {
    ExceedsCovered(quotas, ns, r.podReq, r.inQuota, r.inTotal);
  }

  /** The ledger after the victims are evicted. */
  ghost function Evicted(quotas: Quotas, victims: seq<Pod>): Quotas {
    if victims == [] then quotas else
      DeletePod(Evicted(quotas, victims[..|victims| - 1]), victims[|victims| - 1])
  }

  lemma {:induction false} EvictedConsistent(o: View, victims: seq<Pod>)
    requires Counted(o) && Distinct(victims) && AsSet(victims) <= o.node
    ensures Consistent(o, View(o.node - AsSet(victims), Evicted(o.quotas, victims)))
  {
    if victims == [] {
      OriginConsistent(o);
      assert o.node - AsSet(victims) == o.node;
    } else {
      var before, p := victims[..|victims| - 1], victims[|victims| - 1];
      assert victims == before + [p] && AsSet(victims) == AsSet(before) + {p};
      EvictedConsistent(o, before);
      hide Consistent, Counted;
      WithoutConsistent(o, View(o.node - AsSet(before), Evicted(o.quotas, before)), p);
      assert o.node - AsSet(before) - {p} == o.node - AsSet(victims);
    }
  }

  lemma {:induction false} EvictedBounded(cat: Catalogue, quotas: Quotas, victims: seq<Pod>)
    requires NonNegativeCatalogue(cat) && Bounded(cat, quotas) && forall p :: p in victims ==> Known(cat, p)
    ensures Bounded(cat, Evicted(quotas, victims))
  {
    if victims != [] {
      hide Bounded, Known, NonNegativeCatalogue;
      EvictedBounded(cat, quotas, victims[..|victims| - 1]);
      DeleteKeepsBounds(cat, Evicted(quotas, victims[..|victims| - 1]), victims[|victims| - 1]);
    }
  }

  /** What the code's check means on a safe ledger: room in every dimension, named by the request or not. */
  lemma NotExceededIsRoom(cat: Catalogue, quotas: Quotas, pod: Pod)
    requires Bounded(cat, quotas) && !Exceeds(quotas, pod.namespace, pod.request, pod.request)
    ensures HasRoom(quotas, pod)
  {
    if pod.namespace in quotas {
      MaxCheckIsExact(quotas[pod.namespace], pod.request);
      forall d: Dim ensures Sum(UsedAt(quotas, d)) + pod.request.At(d) <= Sum(MinAt(quotas, d)) {
        assert !(Sum(UsedAt(quotas, d)) + pod.request.At(d) > Sum(MinAt(quotas, d)));
      }
    }
  }

  /** Preemption keeps the ledger safe: if it was safe, then after a successful selection the victims can be
      evicted and the preemptor reserved, and every quota is within Max in every dimension and the total within
      the total Min again. */
  lemma PreemptionKeepsLedgerSafe(cat: Catalogue, s: Search, o: View, listed: seq<Pod>, sorted: seq<Pod>,
                                  pdbs: seq<Budget>)
    requires Ready(s, o, listed) && IsSort(Cleared(s, o, listed).1, sorted)
    requires Select(s, o, listed, sorted, pdbs).Selected? && s.requests.podReq == s.pod.request
    requires NonNegativeCatalogue(cat) && Bounded(cat, o.quotas)
    requires Known(cat, s.pod) && forall p :: p in o.node ==> Known(cat, p)
    ensures var after := Evicted(o.quotas, Select(s, o, listed, sorted, pdbs).victims);
            && Bounded(cat, after) && HasRoom(after, s.pod)
            && Bounded(cat, AddPod(after, s.pod))
  {
    SelectionIsSound(s, o, listed, sorted, pdbs);
    ClearedFacts(s, o, listed, sorted, pdbs);
    var victims, g := Select(s, o, listed, sorted, pdbs).victims, Final(s, o, listed, sorted, pdbs);
    hide Select, Final, Cleared, Bounded, HasRoom, Consistent, Exceeds, IsSort, Known, NonNegativeCatalogue, Evicted;
    assert forall p :: p in victims ==> p in AsSet(victims);
    EvictedConsistent(o, victims);
    EvictedBounded(cat, o.quotas, victims);
    var after := View(o.node - AsSet(victims), Evicted(o.quotas, victims));
    if Exceeds(after.quotas, s.pod.namespace, s.pod.request, s.pod.request) {
      ExceedsMonotone(o, after, g.view, s.pod.namespace, s.pod.request, s.pod.request);
    }
    NotExceededIsRoom(cat, after.quotas, s.pod);
    AddKeepsBounds(cat, after.quotas, s.pod);
  }

  /** Irreducible: with filters that never turn from fail to pass when pods are added, no single victim can be
      put back into the final state. */
  lemma SelectionIsIrreducible(s: Search, o: View, listed: seq<Pod>, sorted: seq<Pod>, pdbs: seq<Budget>)
    requires Ready(s, o, listed) && IsSort(Cleared(s, o, listed).1, sorted)
    requires Select(s, o, listed, sorted, pdbs).Selected? && AntitoneFilter(s.filter)
    ensures var g := Final(s, o, listed, sorted, pdbs);
            forall p :: p in Select(s, o, listed, sorted, pdbs).victims ==> Refused(g.view, s.filter, QuotaCheck(s), p)
  {
    var (v, potential) := Cleared(s, o, listed);
    ClearedFacts(s, o, listed, sorted, pdbs);
    QuotaCheckMonotone(s, o);
    hide Exceeds, Consistent, MonotoneCheck, QuotaCheck, Refused, Turns;
    TurnsIrreducible(o, v, s.filter, QuotaCheck(s), Order(sorted, pdbs));
  }

  /** When the search aborts: after the first checks pass it fails exactly when the sums with the nominated
      pods already exceed the quotas with all candidates gone, and the filters refuse some candidate. */
  lemma SelectionAbortsExactly(s: Search, o: View, listed: seq<Pod>, sorted: seq<Pod>, pdbs: seq<Budget>)
    requires Ready(s, o, listed) && IsSort(Cleared(s, o, listed).1, sorted)
    requires var (v, potential) := Cleared(s, o, listed);
             potential != [] && s.filter(v.node)
             && !Exceeds(v.quotas, s.pod.namespace, s.requests.podReq, s.requests.podReq)
    ensures var (v, potential) := Cleared(s, o, listed);
            Select(s, o, listed, sorted, pdbs).Aborted? <==>
              && Exceeds(v.quotas, s.pod.namespace, s.requests.inQuota, s.requests.inTotal)
              && exists p :: p in potential && !s.filter(v.node + {p})
  {
    var (v, potential) := Cleared(s, o, listed);
    var order, check := Order(sorted, pdbs), QuotaCheck(s);
    ClearedFacts(s, o, listed, sorted, pdbs);
    QuotaCheckMonotone(s, o);
    CheckMeans(s, v.quotas);
    forall p ensures p in order <==> p in potential {
      assert p in AsSet(order) <==> p in AsSet(potential);
    }
    hide Exceeds, Consistent, MonotoneCheck, QuotaCheck, Turns, Order;
    if check(v.quotas) {
      TurnsOverQuota(o, v, s.filter, check, order);
    } else {
      TurnsWithinQuota(o, v, s.filter, check, order);
    }
  }

  /** What PreFilter hands over covers the pod's own request. */
  lemma PreFilterCovers(quotas: Quotas, pod: Pod, nominated: seq<Pod>)
    requires pod.namespace in quotas
    requires forall p :: p in nominated ==> p.request.NonNegative()
    ensures Covering(Requests(quotas, pod, nominated))
  {
    RequestsCoverPod(quotas, pod, nominated);
  }

  /** Greedy by importance: candidates are put back violating pods first, each group with the most important
      first, and a candidate becomes a victim exactly when the node as it stands at its turn refuses it. */
  lemma SelectionIsGreedy(s: Search, o: View, listed: seq<Pod>, sorted: seq<Pod>, pdbs: seq<Budget>, k: nat)
    requires Ready(s, o, listed) && IsSort(Cleared(s, o, listed).1, sorted)
    requires Select(s, o, listed, sorted, pdbs).Selected?
    requires k < |Order(sorted, pdbs)|
    ensures var (v, potential) := Cleared(s, o, listed);
            var order := Order(sorted, pdbs);
            var violating := |Violating(sorted, pdbs)|;
            var g := Turns(v, s.filter, QuotaCheck(s), order[..k]);
            && violating <= |order| && order[..violating] == Violating(sorted, pdbs)
            && Sorted(order[..violating]) && Sorted(order[violating..])
            && g.Going? && (order[k] in Select(s, o, listed, sorted, pdbs).victims
                            <==> Refused(g.view, s.filter, QuotaCheck(s), order[k]))
  {
    var (v, potential) := Cleared(s, o, listed);
    var order := Order(sorted, pdbs);
    ClearedFacts(s, o, listed, sorted, pdbs);
    VictimsAreRefusedInTurn(o, v, s.filter, QuotaCheck(s), order, k);
    SplitKeepsOrder(sorted, pdbs);
    var n := |Violating(sorted, pdbs)|;
    hide Turns, Refused, QuotaCheck, Cleared, Violating, NonViolating, Sorted;
    assert order[..n] == Violating(sorted, pdbs) && order[n..] == NonViolating(sorted, pdbs);
  }

  /** The reported number of violating victims is never too high; it counts all of them exactly when none of
      them was refused by the quota check alone. */
  lemma ViolatingCountIsExactWhen(s: Search, o: View, listed: seq<Pod>, sorted: seq<Pod>, pdbs: seq<Budget>)
    requires Select(s, o, listed, sorted, pdbs).Selected?
    ensures var (v, potential) := Cleared(s, o, listed);
            var violating := Violating(sorted, pdbs);
            var g := Turns(v, s.filter, QuotaCheck(s), violating);
            var n := Select(s, o, listed, sorted, pdbs).numViolating;
            && g.Going? && n <= |g.victims|
            && (n == |g.victims| <==> forall k :: 0 <= k < |violating| ==>
                                        !QuotaRefuses(v, s.filter, QuotaCheck(s), violating, k))
  {
    var (v, potential) := Cleared(s, o, listed);
    var violating, order := Violating(sorted, pdbs), Order(sorted, pdbs);
    assert order[..|violating|] == violating;
    if Turns(v, s.filter, QuotaCheck(s), violating).Broken? {
      BrokenStays(v, s.filter, QuotaCheck(s), order, |violating|);
    }
    MisfitsCountVictims(v, s.filter, QuotaCheck(s), violating);
  }

  /** The family in which it is too low: when the nominated pods alone exceed the quotas, every candidate
      becomes a victim and the reported number of violating victims is 0. */
  lemma ViolatingCountCanBeZero(s: Search, o: View, listed: seq<Pod>, sorted: seq<Pod>, pdbs: seq<Budget>)
    requires Ready(s, o, listed) && IsSort(Cleared(s, o, listed).1, sorted)
    requires Select(s, o, listed, sorted, pdbs).Selected?
    requires Exceeds(Cleared(s, o, listed).0.quotas, s.pod.namespace, s.requests.inQuota, s.requests.inTotal)
    ensures Select(s, o, listed, sorted, pdbs) == Selected(Order(sorted, pdbs), 0)
  {
    var (v, potential) := Cleared(s, o, listed);
    var violating, order, check := Violating(sorted, pdbs), Order(sorted, pdbs), QuotaCheck(s);
    ClearedFacts(s, o, listed, sorted, pdbs);
    QuotaCheckMonotone(s, o);
    CheckMeans(s, v.quotas);
    assert order[..|violating|] == violating;
    assert Awaiting(o, v, violating) by {
      assert forall p :: p in violating ==> p in AsSet(order);
    }
    if Turns(v, s.filter, check, violating).Broken? {
      BrokenStays(v, s.filter, check, order, |violating|);
    }
    hide Exceeds, Consistent, MonotoneCheck, QuotaCheck, Turns, Cleared, Violating;
    TurnsOverQuota(o, v, s.filter, check, order);
    TurnsOverQuota(o, v, s.filter, check, violating);
  }

  lemma UsageOverMinMonotone(a: Quota, b: Quota)
    requires a.min == b.min && a.min.NonNegative() && AtMost(a.used, b.used) && a.UsedOverMin()
    ensures b.UsedOverMin()
  {
    CmpIsPointwise(a.used, a.min);
    CmpIsPointwise(b.used, b.min);
    var d: Dim :| a.used.At(d) > a.min.At(d);
    assert a.used.At(d) <= b.used.At(d);
  }

  /** Reclaiming a guaranteed share: every candidate belongs to another quota, was removed while that quota was
      over its Min with all earlier removals taken into account, and no candidate comes from a quota that was
      within its Min at the start. */
  lemma ReclaimTakesFromBorrowers(s: Search, o: View, listed: seq<Pod>, p: Pod) returns (k: nat)
    requires Ready(s, o, listed) && s.pod.namespace in o.quotas && !OverMin(s, o.quotas)
    requires p in Cleared(s, o, listed).1
    ensures k < |listed| && listed[k] == p
    ensures p.namespace != s.pod.namespace && p.namespace in o.quotas
    ensures Cleared(s, o, listed[..k]).0.quotas.Keys == o.quotas.Keys
    ensures Cleared(s, o, listed[..k]).0.quotas[p.namespace].UsedOverMin()
    ensures o.quotas[p.namespace].UsedOverMin()
  {
    var choose := Candidates(s, false);
    k := ChosenInTurn(o, choose, listed, p);
    assert forall q :: q in AsSet(listed[..k]) ==> q in AsSet(listed);
    CollectSplits(o, choose, listed[..k]);
    OriginConsistent(o);
    var v := Cleared(s, o, listed[..k]).0;
    var ns := p.namespace;
    hide Collect, Cleared, Cmp2, Reduced, Resource.At;
    forall d: Dim
      ensures v.quotas[ns].used.At(d) <= o.quotas[ns].used.At(d) && v.quotas[ns].min == o.quotas[ns].min
    {
      UsageMonotone(o, v, o, ns, d);
    }
    UsageOverMinMonotone(v.quotas[ns], o.quotas[ns]);
  }

  /** The other two kinds of candidates: less important pods of the preemptor's own quota, or less important
      pods without a quota. */
  lemma CandidatesAreLessImportant(s: Search, o: View, listed: seq<Pod>, p: Pod)
    requires Ready(s, o, listed) && (s.pod.namespace in o.quotas ==> OverMin(s, o.quotas))
    requires p in Cleared(s, o, listed).1
    ensures p.priority < s.pod.priority
    ensures if s.pod.namespace in o.quotas then p.namespace == s.pod.namespace else p.namespace !in o.quotas
  {
    var choose := Candidates(s, OverMin(s, o.quotas));
    var k := ChosenInTurn(o, choose, listed, p);
    assert forall q :: q in AsSet(listed[..k]) ==> q in AsSet(listed);
    CollectSplits(o, choose, listed[..k]);
  }

  /** When the preemptor counts as over its Min: some dimension that matters to its request exceeds Min. */
  lemma OverMinExactly(s: Search, quotas: Quotas)
    ensures OverMin(s, quotas) <==>
              s.pod.namespace in quotas &&
              exists d: Dim :: (d.Scalar? ==> d.name in s.requests.inQuota.scalars) &&
                quotas[s.pod.namespace].used.At(d) + s.requests.inQuota.At(d) > quotas[s.pod.namespace].min.At(d)
  {
    if s.pod.namespace in quotas {
      var q := quotas[s.pod.namespace];
      Cmp2Exactly(s.requests.inQuota, q.used, q.min, LOWER_BOUND_OF_MIN);
      assert forall d: Dim :: Limit(q.min, LOWER_BOUND_OF_MIN, d) == q.min.At(d);
      hide Cmp2, Limit;
    }
  }

  /** When the quota check refuses: some dimension that the sum in the quota names exceeds Max, or some dimension of
      the totals exceeds the total Min. */
  lemma ExceedsExactly(quotas: Quotas, ns: string, inQuota: Resource, inTotal: Resource)
    ensures Exceeds(quotas, ns, inQuota, inTotal) <==>
              ns in quotas &&
              ((exists d: Dim :: (d.Scalar? ==> d.name in inQuota.scalars) &&
                  quotas[ns].used.At(d) + inQuota.At(d) > Limit(quotas[ns].max, UPPER_BOUND_OF_MAX, d)) ||
               (exists d: Dim :: Sum(UsedAt(quotas, d)) + inTotal.At(d) > Sum(MinAt(quotas, d))))
  {
    if ns in quotas {
      Cmp2Exactly(inQuota, quotas[ns].used, quotas[ns].max, UPPER_BOUND_OF_MAX);
      hide Cmp2, Limit;
    }
  }

  /** Nobody who should go is left: after the candidates are off the node, a preemptor that reclaims its share has
      left no pod of another quota that is still over its Min in any dimension; one that is over its own Min has left
      no less important pod of its own quota; and one without a quota no less important pod without a quota. */
  lemma CollectionLeaves(s: Search, o: View, listed: seq<Pod>, p: Pod)
    requires Ready(s, o, listed) && p in Cleared(s, o, listed).0.node
    ensures var v := Cleared(s, o, listed).0;
            && v.quotas.Keys == o.quotas.Keys
            && (s.pod.namespace in o.quotas && !OverMin(s, o.quotas) &&
                p.namespace in o.quotas && p.namespace != s.pod.namespace ==>
                  forall d: Dim :: v.quotas[p.namespace].used.At(d) <= v.quotas[p.namespace].min.At(d))
            && (s.pod.namespace in o.quotas && OverMin(s, o.quotas) && p.namespace == s.pod.namespace ==>
                  p.priority >= s.pod.priority)
            && (s.pod.namespace !in o.quotas && p.namespace !in o.quotas ==> p.priority >= s.pod.priority)
  {
    var choose := Candidates(s, OverMin(s, o.quotas));
    CollectSplits(o, choose, listed);
    var (v, potential) := Cleared(s, o, listed);
    assert p in AsSet(listed) && p !in AsSet(potential);
    var k := NotChosenInTurn(o, choose, listed, p);
    assert forall q :: q in AsSet(listed[..k]) ==> q in AsSet(listed);
    CollectSplits(o, choose, listed[..k]);
    CollectShrinks(o, choose, listed, k);
    var w := Collect(o, choose, listed[..k]).0;
    assert !Eligible(s, OverMin(s, o.quotas), w, p);
    if s.pod.namespace in o.quotas && !OverMin(s, o.quotas) && p.namespace in o.quotas &&
       p.namespace != s.pod.namespace {
      StaysWithinMin(o, w, v, p.namespace);
    }
  }

  lemma StaysWithinMin(o: View, w: View, v: View, ns: string)
    requires Counted(o) && Consistent(o, w) && Consistent(o, v) && v.node <= w.node
    requires ns in o.quotas && o.quotas[ns].min.NonNegative() && !w.quotas[ns].UsedOverMin()
    ensures forall d: Dim :: v.quotas[ns].used.At(d) <= v.quotas[ns].min.At(d)
  {
    assert w.quotas[ns].min == o.quotas[ns].min;
    CmpIsPointwise(w.quotas[ns].used, w.quotas[ns].min);
    hide Cmp2, Reduced, Resource.At;
    forall d: Dim ensures v.quotas[ns].used.At(d) <= v.quotas[ns].min.At(d) {
      UsageMonotone(o, v, w, ns, d);
      assert !(w.quotas[ns].used.At(d) > w.quotas[ns].min.At(d));
    }
  }

  /** When the search succeeds: there are candidates, the preemptor fits without them, its own request passes the
      quota check then, and it is not the case that the nominated sums fail it while the filters refuse a candidate. */
  lemma SelectionSucceedsExactly(s: Search, o: View, listed: seq<Pod>, sorted: seq<Pod>, pdbs: seq<Budget>)
    requires Ready(s, o, listed) && IsSort(Cleared(s, o, listed).1, sorted)
    ensures var (v, potential) := Cleared(s, o, listed);
            Select(s, o, listed, sorted, pdbs).Selected? <==>
              && potential != [] && s.filter(v.node)
              && !Exceeds(v.quotas, s.pod.namespace, s.requests.podReq, s.requests.podReq)
              && !(Exceeds(v.quotas, s.pod.namespace, s.requests.inQuota, s.requests.inTotal) &&
                   exists p :: p in potential && !s.filter(v.node + {p}))
  {
    var (v, potential) := Cleared(s, o, listed);
    hide Exceeds, Cleared, Ready, Turns, IsSort;
    if potential != [] && s.filter(v.node) &&
       !Exceeds(v.quotas, s.pod.namespace, s.requests.podReq, s.requests.podReq) {
      SelectionAbortsExactly(s, o, listed, sorted, pdbs);
    }
  }

  // ----- Concrete searches -----

  // One quota of 10 processors in use by a single pod asking for 1, a preemptor asking for 5, and a nominated pod
  // of at least its importance asking for 6, which brings the sum to 11.

  function Cpus(n: int): Resource { Resource(n, 0, 0, 0, map[]) }

  function ExampleVictim(labels: map<string, string>): Pod {
    Pod("v", "a", "v", labels, 0, 0, Cpus(1), "", false, None)
  }

  const EXAMPLE_POD: Pod := Pod("p", "a", "p", map[], 1, 0, Cpus(5), "", false, None)

  const EXAMPLE_NOMINATED: Pod := Pod("n", "a", "n", map[], 1, 0, Cpus(6), "", false, None)

  function ExampleSearch(filter: set<Pod> -> bool): Search {
    Search(EXAMPLE_POD, PreFilterState(Cpus(5), Cpus(11), Cpus(11)), filter)
  }

  function ExampleView(labels: map<string, string>): View {
    View({ExampleVictim(labels)}, map["a" := Quota(Cpus(10), Cpus(10), Cpus(1), {"v"})])
  }

  /** The requests are those that PreFilter computes. */
  lemma ExampleRequests(labels: map<string, string>, filter: set<Pod> -> bool)
    ensures Requests(ExampleView(labels).quotas, EXAMPLE_POD, [EXAMPLE_NOMINATED]) == ExampleSearch(filter).requests
  {
    var quotas, nominated := ExampleView(labels).quotas, [EXAMPLE_NOMINATED];
    assert nominated[..0] == [];
    assert CountsInQuota(quotas, EXAMPLE_POD, EXAMPLE_NOMINATED);
    assert ZERO.Plus(Cpus(6)) == Cpus(6) && Cpus(6).Plus(Cpus(5)) == Cpus(11);
    assert NominatedInQuota(quotas, EXAMPLE_POD, nominated) == Cpus(6);
    assert NominatedInTotal(quotas, EXAMPLE_POD, nominated) == Cpus(6);
  }

  lemma ExampleCleared(labels: map<string, string>, filter: set<Pod> -> bool)
    ensures Cleared(ExampleSearch(filter), ExampleView(labels), [ExampleVictim(labels)])
         == (View({}, map["a" := Quota(Cpus(10), Cpus(10), Cpus(0), {})]), [ExampleVictim(labels)])
  {
    var s, o, victim := ExampleSearch(filter), ExampleView(labels), ExampleVictim(labels);
    var choose := Candidates(s, true);
    assert OverMin(s, o.quotas);
    assert [victim][..0] == [];
    assert Collect(o, choose, []) == (o, []);
    assert choose(o, victim);
    assert Cpus(1).Minus(Cpus(1)) == Cpus(0);
    var q: Quota := o.quotas["a"];
    assert q.DeletePod(victim) == Quota(Cpus(10), Cpus(10), Cpus(0), {}) by {
      assert {"v"} - {"v"} == {};
    }
    assert o.quotas["a" := q.DeletePod(victim)] == map["a" := q.DeletePod(victim)];
    assert {victim} - {victim} == {};
    assert o.Without(victim) == View({}, map["a" := Quota(Cpus(10), Cpus(10), Cpus(0), {})]);
    assert [] + [victim] == [victim];
  }

  lemma ExampleExceeds(n: nat)
    ensures Exceeds(map["a" := Quota(Cpus(10), Cpus(10), Cpus(0), {})], "a", Cpus(n), Cpus(n)) <==> n > 10
  {
    var quotas: Quotas := map["a" := Quota(Cpus(10), Cpus(10), Cpus(0), {})];
    forall d: Dim ensures Sum(UsedAt(quotas, d)) == Cpus(0).At(d) && Sum(MinAt(quotas, d)) == Cpus(10).At(d) {
      var none: Quotas := map[];
      TotalsAfterPut(none, "a", quotas["a"], d);
      assert quotas == none["a" := quotas["a"]];
      assert UsedAt(none, d) == map[] && MinAt(none, d) == map[];
    }
  }

  lemma ExampleReady(labels: map<string, string>, filter: set<Pod> -> bool)
    ensures Ready(ExampleSearch(filter), ExampleView(labels), [ExampleVictim(labels)])
    ensures IsSort([ExampleVictim(labels)], [ExampleVictim(labels)])
  {
    assert Cpus(1).NonNegative() && Cpus(10).NonNegative();
  }

  /** An abort that really happens, on the requests that PreFilter computes. */
  lemma AbortExample(filter: set<Pod> -> bool)
    requires forall pods :: filter(pods) <==> ExampleVictim(map[]) !in pods
    ensures var s, o, victim := ExampleSearch(filter), ExampleView(map[]), ExampleVictim(map[]);
            && s.requests == Requests(o.quotas, s.pod, [EXAMPLE_NOMINATED])
            && Ready(s, o, [victim]) && IsSort(Cleared(s, o, [victim]).1, [victim])
            && Select(s, o, [victim], [victim], []).Aborted?
  {
    var victim := ExampleVictim(map[]);
    ExampleRequests(map[], filter);
    ExampleReady(map[], filter);
    ExampleCleared(map[], filter);
    ExampleExceeds(5);
    ExampleExceeds(11);
    hide Exceeds, Cleared, Ready, Select, Cpus, Requests, IsSort;
    SelectionAbortsExactly(ExampleSearch(filter), ExampleView(map[]), [victim], [victim], []);
    assert victim in [victim] && victim in {} + {victim};
  }

  const EXAMPLE_LABELS: map<string, string> := map["app" := "web"]

  /** A budget that covers every labelled pod and allows no disruption. */
  const EXAMPLE_BUDGET: Budget :=
    Budget("a", Some(Selector(false, (labels: map<string, string>) => true)), 0, {})

  /** An undercount that really happens: the only victim violates its budget, and 0 violations are reported. */
  lemma UndercountExample(filter: set<Pod> -> bool)
    requires forall pods :: filter(pods)
    ensures var s, o, victim := ExampleSearch(filter), ExampleView(EXAMPLE_LABELS), ExampleVictim(EXAMPLE_LABELS);
            && s.requests == Requests(o.quotas, s.pod, [EXAMPLE_NOMINATED])
            && Ready(s, o, [victim]) && IsSort(Cleared(s, o, [victim]).1, [victim])
            && Violating([victim], [EXAMPLE_BUDGET]) == [victim]
            && Select(s, o, [victim], [victim], [EXAMPLE_BUDGET]) == Selected([victim], 0)
  {
    var s, o, victim := ExampleSearch(filter), ExampleView(EXAMPLE_LABELS), ExampleVictim(EXAMPLE_LABELS);
    var pdbs := [EXAMPLE_BUDGET];
    ExampleRequests(EXAMPLE_LABELS, filter);
    ExampleReady(EXAMPLE_LABELS, filter);
    ExampleCleared(EXAMPLE_LABELS, filter);
    ExampleExceeds(5);
    ExampleExceeds(11);
    ExampleViolates(victim);
    hide Exceeds, Cleared, Ready, Cpus, Requests, IsSort, Violating, NonViolating, Turns;
    SelectionAbortsExactly(s, o, [victim], [victim], pdbs);
    ViolatingCountCanBeZero(s, o, [victim], [victim], pdbs);
    assert [victim] + [] == [victim];
  }

  lemma ExampleViolates(victim: Pod)
    requires victim == ExampleVictim(EXAMPLE_LABELS)
    ensures Violating([victim], [EXAMPLE_BUDGET]) == [victim] && NonViolating([victim], [EXAMPLE_BUDGET]) == []
  {
    assert "app" in EXAMPLE_LABELS;
    assert [victim][..0] == [];
    assert Covers([EXAMPLE_BUDGET][0], victim);
    assert Covered(EXAMPLE_BUDGET, [victim]) == 1;
    assert LastViolates([victim], [EXAMPLE_BUDGET]);
  }
}
