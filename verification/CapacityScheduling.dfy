/** The capacity scheduling plugin: admission against a snapshot of the quota ledger, and the locked
    sections that keep the ledger. Each locked section is one atomic step. */
module CapacityScheduling {
  import opened Sums
  import opened Options
  import opened Resources
  import opened ElasticQuota

  /** What PreFilter leaves for the rest of the cycle. */
  datatype PreFilterState = PreFilterState(podReq: Resource, inQuota: Resource, inTotal: Resource)

  datatype Status = Success | Unschedulable | Error

  datatype Phase = Pending | Running | Succeeded | Failed | Unknown

  /** Nominated pod `p` is subject to the same quota and at least as important as `pod`. */
  predicate CountsInQuota(quotas: Quotas, pod: Pod, p: Pod) {
    p.uid != pod.uid && p.namespace in quotas && p.namespace == pod.namespace && p.priority >= pod.priority
  }

  /** ... or it is subject to another quota that stays within its Min. */
  predicate CountsInTotal(quotas: Quotas, pod: Pod, p: Pod) {
    || CountsInQuota(quotas, pod, p)
    || (p.uid != pod.uid && p.namespace in quotas && p.namespace != pod.namespace
        && !quotas[p.namespace].UsedOverMin())
  }

  function NominatedInQuota(quotas: Quotas, pod: Pod, nominated: seq<Pod>): Resource {
    if nominated == [] then ZERO else
      var rest := NominatedInQuota(quotas, pod, nominated[..|nominated| - 1]);
      var p := nominated[|nominated| - 1];
      if CountsInQuota(quotas, pod, p) then rest.Plus(p.request) else rest
  }

  function NominatedInTotal(quotas: Quotas, pod: Pod, nominated: seq<Pod>): Resource {
    if nominated == [] then ZERO else
      var rest := NominatedInTotal(quotas, pod, nominated[..|nominated| - 1]);
      var p := nominated[|nominated| - 1];
      if CountsInTotal(quotas, pod, p) then rest.Plus(p.request) else rest
  }

  function Requests(quotas: Quotas, pod: Pod, nominated: seq<Pod>): PreFilterState {
    if pod.namespace !in quotas then PreFilterState(pod.request, ZERO, ZERO)
    else PreFilterState(pod.request, NominatedInQuota(quotas, pod, nominated).Plus(pod.request),
                        NominatedInTotal(quotas, pod, nominated).Plus(pod.request))
  }

  /** Admission: with the nominated pods counted, the pod's quota stays within Max and the total within Min. */
  ghost predicate Admits(quotas: Quotas, pod: Pod, nominated: seq<Pod>) {
    pod.namespace in quotas ==>
      var r := Requests(quotas, pod, nominated);
      !quotas[pod.namespace].UsedOverMaxWith(r.inQuota) && !AggregatedUsedOverMin(quotas, r.inTotal)
  }

  class Plugin {
    var elasticQuotaInfos: Infos

    ghost predicate Valid()
      reads this
    {
      Separate(elasticQuotaInfos)
    }

    ghost function Ledger(): Quotas
      reads this, elasticQuotaInfos.Values
    {
      Views(elasticQuotaInfos)
    }

    constructor ()
      ensures Valid() && Ledger() == map[]
    {
      elasticQuotaInfos := map[];
    }

    /** Admission works on a copy of the ledger and reads the live one only to judge nominated pods. `listed` are
        the nominated pods of all nodes, if the nodes can be listed; they are needed for a managed pod only. */
    method PreFilter(pod: Pod, listed: Option<seq<Pod>>)
      returns (status: Status, state: PreFilterState, snapshot: Infos)
      requires Valid() && MinsNonNegative(Ledger())
      ensures Separate(snapshot) && Views(snapshot) == Ledger()
      ensures forall ns :: ns in snapshot ==> fresh(snapshot[ns])
      ensures status == Error <==> pod.namespace in Ledger() && listed.None?
      ensures status != Error ==>
                var nominated := if listed.Some? then listed.value else [];
                && state == Requests(Ledger(), pod, nominated)
                && status == if Admits(Ledger(), pod, nominated) then Success else Unschedulable
    {
      ghost var quotas := Ledger();
      snapshot := CloneInfos(elasticQuotaInfos);
      if pod.namespace !in snapshot {
        state := PreFilterState(pod.request, ZERO, ZERO);
        return Success, state, snapshot;
      }
      if listed.None? {
        state := PreFilterState(ZERO, ZERO, ZERO);
        return Error, state, snapshot;
      }
      var nominated := listed.value;
      var inQuota, inTotal := ZERO, ZERO;
      for i := 0 to |nominated|
        invariant inQuota == NominatedInQuota(quotas, pod, nominated[..i])
        invariant inTotal == NominatedInTotal(quotas, pod, nominated[..i])
      {
        var p := nominated[i];
        assert nominated[..i + 1][..i] == nominated[..i];
        if p.uid != pod.uid && p.namespace in elasticQuotaInfos {
          if p.namespace == pod.namespace && p.priority >= pod.priority {
            inQuota := inQuota.Plus(p.request);
            inTotal := inTotal.Plus(p.request);
          } else if p.namespace != pod.namespace && !elasticQuotaInfos[p.namespace].View().UsedOverMin() {
            inTotal := inTotal.Plus(p.request);
          }
        }
      }
      assert nominated[..|nominated|] == nominated;
      inQuota, inTotal := inQuota.Plus(pod.request), inTotal.Plus(pod.request);
      state := PreFilterState(pod.request, inQuota, inTotal);
      if snapshot[pod.namespace].View().UsedOverMaxWith(inQuota) {
        return Unschedulable, state, snapshot;
      }
      var over := AggregatedUsedOverMinWith(snapshot, inTotal);
      status := if over then Unschedulable else Success;
    }

    method Reserve(pod: Pod) returns (status: Status)
      requires Valid()
      modifies elasticQuotaInfos.Values
      ensures Valid() && Ledger() == AddPod(old(Ledger()), pod)
      ensures status == if pod.namespace in elasticQuotaInfos && pod.uid == "" then Error else Success
    {
      if pod.namespace in elasticQuotaInfos {
        var ok := elasticQuotaInfos[pod.namespace].AddPodIfNotPresent(pod);
        if !ok {
          return Error;
        }
      }
      return Success;
    }

    method Unreserve(pod: Pod)
      requires Valid()
      modifies elasticQuotaInfos.Values
      ensures Valid() && Ledger() == DeletePod(old(Ledger()), pod)
    {
      if pod.namespace in elasticQuotaInfos {
        var _ := elasticQuotaInfos[pod.namespace].DeletePodIfPresent(pod);
      }
    }

    /** The informer's add event; `listed` is the quota found by listing when the namespace has no entry. */
    method OnAdd(pod: Pod, listed: Option<ElasticQuotaInfo>)
      requires Valid()
      requires listed.Some? ==> listed.value !in elasticQuotaInfos.Values
      modifies this, elasticQuotaInfos.Values, if listed.Some? then {listed.value} else {}
      ensures Valid()
      ensures pod.namespace !in old(elasticQuotaInfos) && listed.Some? ==>
                Ledger() == AddPod(old(Ledger())[pod.namespace := old(listed.value.View())], pod)
      ensures pod.namespace in old(elasticQuotaInfos) || listed.None? ==> Ledger() == AddPod(old(Ledger()), pod)
    {
      if pod.namespace !in elasticQuotaInfos {
        if listed.None? {
          return;
        }
        elasticQuotaInfos := elasticQuotaInfos[pod.namespace := listed.value];
      }
      var _ := elasticQuotaInfos[pod.namespace].AddPodIfNotPresent(pod);
    }

    method OnUpdate(oldPhase: Phase, newPhase: Phase, newPod: Pod)
      requires Valid()
      modifies elasticQuotaInfos.Values
      ensures Valid() && Ledger() == AfterUpdate(old(Ledger()), oldPhase, newPhase, newPod)
    {
      if oldPhase == Succeeded || oldPhase == Failed {
        return;
      }
      if newPhase != Running && newPhase != Pending {
        if newPod.namespace in elasticQuotaInfos {
          var _ := elasticQuotaInfos[newPod.namespace].DeletePodIfPresent(newPod);
        }
      }
    }

    method AddElasticQuota(ns: string, b: Bounds)
      requires Valid()
      modifies this
      ensures Valid() && Ledger() == if ns in old(Ledger()) then old(Ledger()) else PutQuota(old(Ledger()), ns, b)
    {
      if ns in elasticQuotaInfos {
        return;
      }
      var info := new ElasticQuotaInfo(ns, b.min, b.max);
      elasticQuotaInfos := elasticQuotaInfos[ns := info];
    }

    /** A new entry with the new bounds takes over the usage and the tracked pods. */
    method UpdateElasticQuota(ns: string, b: Bounds)
      requires Valid()
      modifies this
      ensures Valid() && Ledger() == PutQuota(old(Ledger()), ns, b)
    {
      hide BoundList;
      ghost var quotas := Ledger();
      var info := new ElasticQuotaInfo(ns, b.min, b.max);
      if ns in elasticQuotaInfos {
        info.pods := elasticQuotaInfos[ns].pods;
        info.used := elasticQuotaInfos[ns].used;
      }
      assert PutQuota(quotas, ns, b) == quotas[ns := info.View()];
      hide Views, PutQuota;
      assert Ledger() == quotas;
      ViewsPut(elasticQuotaInfos, ns, info);
      elasticQuotaInfos := elasticQuotaInfos[ns := info];
    }

    method DeleteElasticQuota(ns: string)
      requires Valid()
      modifies this
      ensures Valid() && Ledger() == old(Ledger()) - {ns}
    {
      elasticQuotaInfos := elasticQuotaInfos - {ns};
    }

    method OnDelete(pod: Pod)
      requires Valid()
      modifies elasticQuotaInfos.Values
      ensures Valid() && Ledger() == DeletePod(old(Ledger()), pod)
    {
      if pod.namespace in elasticQuotaInfos {
        var _ := elasticQuotaInfos[pod.namespace].DeletePodIfPresent(pod);
      }
    }
  }

  /** The bounds of a quota as its specification gives them, or the defaults. */
  datatype Bounds = Bounds(min: Option<Resource>, max: Option<Resource>) {
    function Min(): Resource { if min.Some? then min.value else BoundList(LOWER_BOUND_OF_MIN) }

    function Max(): Resource { if max.Some? then max.value else BoundList(UPPER_BOUND_OF_MAX) }
  }

  function PutQuota(quotas: Quotas, ns: string, b: Bounds): Quotas {
    quotas[ns := if ns in quotas then quotas[ns].(min := b.Min(), max := b.Max())
                 else Quota(b.Min(), b.Max(), ZERO, {})]
  }

  function AfterUpdate(quotas: Quotas, oldPhase: Phase, newPhase: Phase, pod: Pod): Quotas {
    if oldPhase == Succeeded || oldPhase == Failed || newPhase == Running || newPhase == Pending then quotas
    else DeletePod(quotas, pod)
  }

  // ----- Runs of the plugin with fixed quotas -----

  /** `admitted` is the pod that passed PreFilter in the current scheduling cycle and is not reserved yet. */
  datatype State = State(quotas: Quotas, admitted: Option<Pod>)

  datatype Event =
    | PreFilter(pod: Pod, nominated: seq<Pod>)
    | Reserve
    | Unreserve(pod: Pod)
    | Added(pod: Pod)
    | Updated(oldPhase: Phase, newPhase: Phase, pod: Pod)
    | Deleted(pod: Pod)

  /** The requests of all pods that ever appear; a pod's request never changes. */
  type Catalogue = map<string, Resource>

  ghost predicate Known(cat: Catalogue, pod: Pod) {
    pod.uid in cat && cat[pod.uid] == pod.request
  }

  /** Scheduling cycles are sequential, so only an admitted pod is reserved; a pod reported by the informer
      was reserved before (or has no quota). Removals may happen at any time. */
  ghost predicate Enabled(cat: Catalogue, s: State, e: Event) {
    match e
    case PreFilter(pod, nominated) =>
      Known(cat, pod) && forall p :: p in nominated ==> p.request.NonNegative()
    case Reserve => s.admitted.Some?
    case Added(pod) => Known(cat, pod) && (pod.namespace in s.quotas ==> pod.uid in s.quotas[pod.namespace].pods)
    case Unreserve(pod) => Known(cat, pod)
    case Updated(_, _, pod) => Known(cat, pod)
    case Deleted(pod) => Known(cat, pod)
  }

  ghost function Step(s: State, e: Event): State {
    match e
    case PreFilter(pod, nominated) =>
      State(s.quotas, if Admits(s.quotas, pod, nominated) then Some(pod) else None)
    case Reserve => if s.admitted.Some? then State(AddPod(s.quotas, s.admitted.value), None) else s
    case Unreserve(pod) => s.(quotas := DeletePod(s.quotas, pod))
    case Added(pod) => s.(quotas := AddPod(s.quotas, pod))
    case Updated(oldPhase, newPhase, pod) => s.(quotas := AfterUpdate(s.quotas, oldPhase, newPhase, pod))
    case Deleted(pod) => s.(quotas := DeletePod(s.quotas, pod))
  }

  ghost function Run(s: State, es: seq<Event>): State {
    if es == [] then s else Step(Run(s, es[..|es| - 1]), es[|es| - 1])
  }

  ghost predicate IsRun(cat: Catalogue, s: State, es: seq<Event>) {
    forall i :: 0 <= i < |es| ==> Enabled(cat, Run(s, es[..i]), es[i])
  }

  /** New quotas: nothing used, nothing tracked, no negative bound. */
  ghost predicate Initial(s: State) {
    && s.admitted.None?
    && forall ns :: ns in s.quotas ==>
         var q := s.quotas[ns];
         && q.used == ZERO && q.pods == {} && q.min.NonNegative()
         && forall d: Dim :: 0 <= Limit(q.max, UPPER_BOUND_OF_MAX, d)
  }

  ghost function Charges(cat: Catalogue, pods: set<string>, d: Dim): map<string, int> {
    map u | u in pods && u in cat :: cat[u].At(d)
  }

  /** The entry's usage is exactly the sum of the requests of the pods it tracks. */
  ghost predicate Accounted(cat: Catalogue, q: Quota) {
    q.pods <= cat.Keys && forall d: Dim :: q.used.At(d) == Sum(Charges(cat, q.pods, d))
  }

  ghost predicate TotalWithinMin(quotas: Quotas) {
    forall d: Dim :: Sum(UsedAt(quotas, d)) <= Sum(MinAt(quotas, d))
  }

  ghost predicate Bounded(cat: Catalogue, quotas: Quotas) {
    && (forall ns :: ns in quotas ==>
         Accounted(cat, quotas[ns]) && quotas[ns].WithinMax() && quotas[ns].min.NonNegative())
    && TotalWithinMin(quotas)
  }

  /** There is room for `pod`: its request fits under its quota's Max and under the total Min. */
  ghost predicate HasRoom(quotas: Quotas, pod: Pod) {
    pod.namespace in quotas ==>
      && (forall d: Dim :: quotas[pod.namespace].used.At(d) + pod.request.At(d)
                           <= Limit(quotas[pod.namespace].max, UPPER_BOUND_OF_MAX, d))
      && (forall d: Dim :: Sum(UsedAt(quotas, d)) + pod.request.At(d) <= Sum(MinAt(quotas, d)))
  }

  ghost predicate Inv(cat: Catalogue, s: State) {
    && Bounded(cat, s.quotas)
    && (s.admitted.Some? ==> Known(cat, s.admitted.value) && HasRoom(s.quotas, s.admitted.value))
  }

  ghost predicate NonNegativeCatalogue(cat: Catalogue) {
    forall u :: u in cat ==> cat[u].NonNegative()
  }

  lemma {:induction false} NominatedNonNegative(quotas: Quotas, pod: Pod, nominated: seq<Pod>)
    requires forall p :: p in nominated ==> p.request.NonNegative()
    ensures NominatedInQuota(quotas, pod, nominated).NonNegative()
    ensures NominatedInTotal(quotas, pod, nominated).NonNegative()
  {
    if nominated != [] {
      NominatedNonNegative(quotas, pod, nominated[..|nominated| - 1]);
      var p := nominated[|nominated| - 1];
      assert p in nominated;
      assert forall d: Dim :: 0 <= p.request.At(d);
    }
  }

  /** The nominated pods only make admission stricter. */
  lemma RequestsCoverPod(quotas: Quotas, pod: Pod, nominated: seq<Pod>)
    requires pod.namespace in quotas
    requires forall p :: p in nominated ==> p.request.NonNegative()
    ensures AtMost(pod.request, Requests(quotas, pod, nominated).inQuota)
    ensures AtMost(pod.request, Requests(quotas, pod, nominated).inTotal)
  {
    NominatedNonNegative(quotas, pod, nominated);
    var r := Requests(quotas, pod, nominated);
    forall d: Dim ensures pod.request.At(d) <= r.inQuota.At(d) && pod.request.At(d) <= r.inTotal.At(d) {
      assert 0 <= NominatedInQuota(quotas, pod, nominated).At(d);
      assert 0 <= NominatedInTotal(quotas, pod, nominated).At(d);
    }
  }

  /** Admission decided pointwise, on any ledger whose entry is within Max: every dimension of the quota has room for
      the sum in the quota, and every dimension of the totals for the sum in total. */
  lemma AdmitsExactly(quotas: Quotas, pod: Pod, nominated: seq<Pod>)
    requires pod.namespace in quotas ==> quotas[pod.namespace].WithinMax()
    ensures Admits(quotas, pod, nominated) <==>
            (pod.namespace in quotas ==>
               var r, q := Requests(quotas, pod, nominated), quotas[pod.namespace];
               (forall d: Dim :: q.used.At(d) + r.inQuota.At(d) <= Limit(q.max, UPPER_BOUND_OF_MAX, d)) &&
               (forall d: Dim :: Sum(UsedAt(quotas, d)) + r.inTotal.At(d) <= Sum(MinAt(quotas, d))))
  {
    if pod.namespace in quotas {
      var r := Requests(quotas, pod, nominated);
      MaxCheckIsExact(quotas[pod.namespace], r.inQuota);
      assert AggregatedUsedOverMin(quotas, r.inTotal) <==>
        !(forall d: Dim :: Sum(UsedAt(quotas, d)) + r.inTotal.At(d) <= Sum(MinAt(quotas, d)));
    }
  }

  /** The sums without nominated pods are the pod's own request. */
  lemma NoNominatedPods(quotas: Quotas, pod: Pod, d: Dim)
    ensures var r := Requests(quotas, pod, []);
            && r.podReq == pod.request
            && (pod.namespace in quotas ==> r.inQuota.At(d) == pod.request.At(d) == r.inTotal.At(d))
  {
  }

  /** What one more nominated pod does to the sums: it adds its request to the sum in the quota exactly if it is
      another pod of the same namespace and of at least the pod's priority; and to the sum in total also if it
      belongs to another quota that uses no more than its Min in any dimension. */
  lemma OneMoreNominatedPod(quotas: Quotas, pod: Pod, nominated: seq<Pod>, p: Pod, d: Dim)
    requires pod.namespace in quotas && MinsNonNegative(quotas)
    ensures var r, more := Requests(quotas, pod, nominated), Requests(quotas, pod, nominated + [p]);
            var peer := p.uid != pod.uid && p.namespace == pod.namespace && p.priority >= pod.priority;
            var modest := p.uid != pod.uid && p.namespace != pod.namespace && p.namespace in quotas &&
                          forall e: Dim :: quotas[p.namespace].used.At(e) <= quotas[p.namespace].min.At(e);
            && more.inQuota.At(d) == r.inQuota.At(d) + (if peer then p.request.At(d) else 0)
            && more.inTotal.At(d) == r.inTotal.At(d) + (if peer || modest then p.request.At(d) else 0)
  {
    assert (nominated + [p])[..|nominated|] == nominated;
    if p.namespace in quotas {
      assert quotas[p.namespace].min.NonNegative();
      CmpIsPointwise(quotas[p.namespace].used, quotas[p.namespace].min);
    }
    hide Cmp2;
  }

  /** Whoever counts among `a` counts among `b`, with the same requests. */
  ghost predicate CountsNoLess(quotas: Quotas, pod: Pod, a: seq<Pod>, b: seq<Pod>) {
    && |a| == |b|
    && forall k :: 0 <= k < |a| ==>
         && a[k].request == b[k].request && a[k].request.NonNegative()
         && (CountsInQuota(quotas, pod, a[k]) ==> CountsInQuota(quotas, pod, b[k]))
         && (CountsInTotal(quotas, pod, a[k]) ==> CountsInTotal(quotas, pod, b[k]))
  }

  /** `large` asks for no less and names no fewer scalars. */
  ghost predicate CoveredBy(small: Resource, large: Resource) {
    AtMost(small, large) && small.scalars.Keys <= large.scalars.Keys
  }

  lemma CoveredByPlus(small: Resource, large: Resource, more: Resource)
    requires CoveredBy(small, large)
    ensures CoveredBy(small.Plus(more), large.Plus(more))
    ensures more.NonNegative() ==> CoveredBy(small, large.Plus(more))
  {
    forall d: Dim ensures small.At(d) <= large.At(d) && (more.NonNegative() ==> 0 <= more.At(d)) {
    }
  }

  lemma {:induction false} SumsGrow(quotas: Quotas, pod: Pod, a: seq<Pod>, b: seq<Pod>)
    requires CountsNoLess(quotas, pod, a, b)
    ensures CoveredBy(NominatedInQuota(quotas, pod, a), NominatedInQuota(quotas, pod, b))
    ensures CoveredBy(NominatedInTotal(quotas, pod, a), NominatedInTotal(quotas, pod, b))
    decreases |a|
  {
    if a != [] {
      var n := |a| - 1;
      SumsGrow(quotas, pod, a[..n], b[..n]);
      assert a[n].request == b[n].request && a[n].request.NonNegative();
      assert CountsInQuota(quotas, pod, a[n]) ==> CountsInQuota(quotas, pod, b[n]);
      assert CountsInTotal(quotas, pod, a[n]) ==> CountsInTotal(quotas, pod, b[n]);
      hide CoveredBy, CountsInQuota, CountsInTotal;
      CoveredByPlus(NominatedInQuota(quotas, pod, a[..n]), NominatedInQuota(quotas, pod, b[..n]), a[n].request);
      CoveredByPlus(NominatedInTotal(quotas, pod, a[..n]), NominatedInTotal(quotas, pod, b[..n]), a[n].request);
    }
  }

  /** Raising the priority of a nominated pod never turns rejection into admission. */
  lemma PriorityNeverHelps(quotas: Quotas, pod: Pod, nominated: seq<Pod>, i: nat, priority: int)
    requires i < |nominated| && nominated[i].priority <= priority && !Admits(quotas, pod, nominated)
    requires forall p :: p in nominated ==> p.request.NonNegative()
    ensures !Admits(quotas, pod, nominated[i := nominated[i].(priority := priority)])
  {
    var raised := nominated[i := nominated[i].(priority := priority)];
    assert CountsNoLess(quotas, pod, nominated, raised) by {
      forall k | 0 <= k < |nominated| ensures nominated[k].request.NonNegative() {
        assert nominated[k] in nominated;
      }
    }
    var r, more := Requests(quotas, pod, nominated), Requests(quotas, pod, raised);
    SumsGrow(quotas, pod, nominated, raised);
    CoveredByPlus(NominatedInQuota(quotas, pod, nominated), NominatedInQuota(quotas, pod, raised), pod.request);
    CoveredByPlus(NominatedInTotal(quotas, pod, nominated), NominatedInTotal(quotas, pod, raised), pod.request);
    hide CountsNoLess, NominatedInQuota, NominatedInTotal, Cmp2;
    var q := quotas[pod.namespace];
    if q.UsedOverMaxWith(r.inQuota) {
      Cmp2Grows(r.inQuota, more.inQuota, q.used, q.max, UPPER_BOUND_OF_MAX);
    } else {
      var d: Dim :| Sum(UsedAt(quotas, d)) + r.inTotal.At(d) > Sum(MinAt(quotas, d));
      assert r.inTotal.At(d) <= more.inTotal.At(d);
    }
  }

  lemma AdmissionMakesRoom(cat: Catalogue, quotas: Quotas, pod: Pod, nominated: seq<Pod>)
    requires Bounded(cat, quotas) && Admits(quotas, pod, nominated)
    requires forall p :: p in nominated ==> p.request.NonNegative()
    ensures HasRoom(quotas, pod)
  {
    if pod.namespace in quotas {
      var r := Requests(quotas, pod, nominated);
      RequestsCoverPod(quotas, pod, nominated);
      MaxCheckMonotone(quotas[pod.namespace], pod.request, r.inQuota);
      MaxCheckIsExact(quotas[pod.namespace], pod.request);
      forall d: Dim ensures Sum(UsedAt(quotas, d)) + pod.request.At(d) <= Sum(MinAt(quotas, d)) {
        assert pod.request.At(d) <= r.inTotal.At(d);
        assert !(Sum(UsedAt(quotas, d)) + r.inTotal.At(d) > Sum(MinAt(quotas, d)));
      }
    }
  }

  lemma AddAccounted(cat: Catalogue, q: Quota, pod: Pod)
    requires Accounted(cat, q) && Known(cat, pod)
    ensures Accounted(cat, q.AddPod(pod))
  {
    if pod.uid != "" && pod.uid !in q.pods {
      forall d: Dim ensures q.AddPod(pod).used.At(d) == Sum(Charges(cat, q.AddPod(pod).pods, d)) {
        SumPut(Charges(cat, q.pods, d), pod.uid, pod.request.At(d));
        assert Charges(cat, q.pods + {pod.uid}, d) == Charges(cat, q.pods, d)[pod.uid := pod.request.At(d)];
      }
    }
  }

  lemma DeleteAccounted(cat: Catalogue, q: Quota, pod: Pod)
    requires Accounted(cat, q) && Known(cat, pod)
    ensures Accounted(cat, q.DeletePod(pod))
  {
    if pod.uid != "" && pod.uid in q.pods {
      forall d: Dim ensures q.DeletePod(pod).used.At(d) == Sum(Charges(cat, q.DeletePod(pod).pods, d)) {
        SumTake(Charges(cat, q.pods, d), pod.uid);
        assert Charges(cat, q.pods - {pod.uid}, d) == Charges(cat, q.pods, d) - {pod.uid};
      }
    }
  }

  lemma AddKeepsBounds(cat: Catalogue, quotas: Quotas, pod: Pod)
    requires Bounded(cat, quotas) && Known(cat, pod) && HasRoom(quotas, pod)
    ensures Bounded(cat, AddPod(quotas, pod))
  {
    if pod.namespace in quotas {
      var q := quotas[pod.namespace];
      AddAccounted(cat, q, pod);
      forall d: Dim ensures Sum(UsedAt(AddPod(quotas, pod), d)) <= Sum(MinAt(AddPod(quotas, pod), d)) {
        TotalsAfterPut(quotas, pod.namespace, q.AddPod(pod), d);
      }
      assert q.AddPod(pod).WithinMax();
    }
  }

  lemma DeleteKeepsBounds(cat: Catalogue, quotas: Quotas, pod: Pod)
    requires NonNegativeCatalogue(cat) && Bounded(cat, quotas) && Known(cat, pod)
    ensures Bounded(cat, DeletePod(quotas, pod))
    ensures forall other :: HasRoom(quotas, other) ==> HasRoom(DeletePod(quotas, pod), other)
  {
    if pod.namespace in quotas {
      var q := quotas[pod.namespace];
      var after := DeletePod(quotas, pod);
      DeleteAccounted(cat, q, pod);
      assert forall d: Dim :: 0 <= cat[pod.uid].At(d);
      assert forall d: Dim :: q.DeletePod(pod).used.At(d) <= q.used.At(d);
      forall d: Dim
        ensures Sum(UsedAt(after, d)) <= Sum(UsedAt(quotas, d)) && Sum(MinAt(after, d)) == Sum(MinAt(quotas, d))
      {
        TotalsAfterPut(quotas, pod.namespace, q.DeletePod(pod), d);
      }
      assert q.DeletePod(pod).WithinMax() by {
        forall d: Dim ensures q.DeletePod(pod).used.At(d) <= Limit(q.max, UPPER_BOUND_OF_MAX, d) {
          assert q.used.At(d) <= Limit(q.max, UPPER_BOUND_OF_MAX, d);
        }
      }
      assert TotalWithinMin(after) by {
        forall d: Dim ensures Sum(UsedAt(after, d)) <= Sum(MinAt(after, d)) {
          assert Sum(UsedAt(quotas, d)) <= Sum(MinAt(quotas, d));
        }
      }
    }
  }

  lemma StepKeepsInv(cat: Catalogue, s: State, e: Event)
    requires NonNegativeCatalogue(cat) && Inv(cat, s) && Enabled(cat, s, e)
    ensures Inv(cat, Step(s, e))
  {
    match e
    case PreFilter(pod, nominated) =>
      if Admits(s.quotas, pod, nominated) {
        AdmissionMakesRoom(cat, s.quotas, pod, nominated);
      }
    case Reserve => AddKeepsBounds(cat, s.quotas, s.admitted.value);
    case Added(pod) => assert AddPod(s.quotas, pod) == s.quotas;
    case Unreserve(pod) => DeleteKeepsBounds(cat, s.quotas, pod);
    case Updated(_, _, pod) => DeleteKeepsBounds(cat, s.quotas, pod);
    case Deleted(pod) => DeleteKeepsBounds(cat, s.quotas, pod);
  }

  lemma InitialInv(cat: Catalogue, s: State)
    requires Initial(s)
    ensures Inv(cat, s)
  {
    forall ns | ns in s.quotas ensures Accounted(cat, s.quotas[ns]) {
      assert forall d: Dim :: Charges(cat, {}, d) == map[];
    }
    forall d: Dim ensures Sum(UsedAt(s.quotas, d)) <= Sum(MinAt(s.quotas, d)) {
      forall ns | ns in s.quotas ensures 0 <= s.quotas[ns].min.At(d) {
        assert s.quotas[ns].min.NonNegative();
      }
      SumMonotone(UsedAt(s.quotas, d), MinAt(s.quotas, d));
    }
  }

  /** The same quotas with the same bounds. */
  ghost predicate SameBounds(a: Quotas, b: Quotas) {
    a.Keys == b.Keys && forall ns :: ns in a ==> a[ns].min == b[ns].min && a[ns].max == b[ns].max
  }

  lemma StepKeepsBounds(s: State, e: Event)
    ensures SameBounds(s.quotas, Step(s, e).quotas)
  {
  }

  lemma RunPrefix(cat: Catalogue, s: State, es: seq<Event>)
    requires es != [] && IsRun(cat, s, es)
    ensures IsRun(cat, s, es[..|es| - 1])
    ensures Enabled(cat, Run(s, es[..|es| - 1]), es[|es| - 1])
  {
    var before := es[..|es| - 1];
    forall i | 0 <= i < |before| ensures Enabled(cat, Run(s, before[..i]), before[i]) {
      assert before[..i] == es[..i];
    }
  }

  /** Ledger safety: over every run of admitted cycles, unreserves, completions, deletions and repeated adds,
      usage is exactly the sum of the tracked requests, every quota is within Max in every dimension, and the
      total usage is within the total Min; the set of quotas and their bounds never move. */
  lemma {:induction false} LedgerIsSafe(cat: Catalogue, s: State, es: seq<Event>)
    requires NonNegativeCatalogue(cat) && Initial(s) && IsRun(cat, s, es)
    ensures Inv(cat, Run(s, es))
    ensures SameBounds(s.quotas, Run(s, es).quotas)
    decreases |es|
  {
    if es == [] {
      InitialInv(cat, s);
    } else {
      var before := es[..|es| - 1];
      RunPrefix(cat, s, es);
      LedgerIsSafe(cat, s, before);
      StepKeepsInv(cat, Run(s, before), es[|es| - 1]);
      StepKeepsBounds(Run(s, before), es[|es| - 1]);
    }
  }

  /** A pod that the informer reports without an admission (bound by someone else, say) keeps the bounds
      exactly when it would have passed the two checks itself. */
  lemma UnadmittedAddIsSafeExactly(cat: Catalogue, quotas: Quotas, pod: Pod)
    requires Bounded(cat, quotas) && Known(cat, pod)
    requires pod.uid != "" && pod.namespace in quotas && pod.uid !in quotas[pod.namespace].pods
    ensures Bounded(cat, AddPod(quotas, pod))
       <==> !quotas[pod.namespace].UsedOverMaxWith(pod.request) && !AggregatedUsedOverMin(quotas, pod.request)
  {
    var q := quotas[pod.namespace];
    MaxCheckIsExact(q, pod.request);
    AddAccounted(cat, q, pod);
    forall d: Dim
      ensures Sum(UsedAt(AddPod(quotas, pod), d)) == Sum(UsedAt(quotas, d)) + pod.request.At(d)
      ensures Sum(MinAt(AddPod(quotas, pod), d)) == Sum(MinAt(quotas, d))
    {
      TotalsAfterPut(quotas, pod.namespace, q.AddPod(pod), d);
    }
    if Bounded(cat, AddPod(quotas, pod)) {
      assert AddPod(quotas, pod)[pod.namespace].WithinMax();
      forall d: Dim ensures q.used.At(d) + pod.request.At(d) <= Limit(q.max, UPPER_BOUND_OF_MAX, d) {
        assert q.AddPod(pod).used.At(d) <= Limit(q.max, UPPER_BOUND_OF_MAX, d);
      }
      forall d: Dim ensures !(Sum(UsedAt(quotas, d)) + pod.request.At(d) > Sum(MinAt(quotas, d))) {
        assert Sum(UsedAt(AddPod(quotas, pod), d)) <= Sum(MinAt(AddPod(quotas, pod), d));
      }
    } else if !q.UsedOverMaxWith(pod.request) && !AggregatedUsedOverMin(quotas, pod.request) {
      forall d: Dim ensures Sum(UsedAt(quotas, d)) + pod.request.At(d) <= Sum(MinAt(quotas, d)) {
        assert !(Sum(UsedAt(quotas, d)) + pod.request.At(d) > Sum(MinAt(quotas, d)));
      }
      AddKeepsBounds(cat, quotas, pod);
    }
  }

  // ----- Runs in which quotas change -----

  datatype Change =
    | OfPods(event: Event)
    | QuotaAdded(ns: string, bounds: Bounds)
    | QuotaUpdated(ns: string, bounds: Bounds)
    | QuotaDeleted(ns: string)

  ghost function Apply(s: State, c: Change): State {
    match c
    case OfPods(e) => Step(s, e)
    case QuotaAdded(ns, b) => if ns in s.quotas then s else s.(quotas := PutQuota(s.quotas, ns, b))
    case QuotaUpdated(ns, b) => s.(quotas := PutQuota(s.quotas, ns, b))
    case QuotaDeleted(ns) => s.(quotas := s.quotas - {ns})
  }

  ghost function ApplyAll(s: State, cs: seq<Change>): State {
    if cs == [] then s else Apply(ApplyAll(s, cs[..|cs| - 1]), cs[|cs| - 1])
  }

  /** The change names only pods of the catalogue. */
  ghost predicate OfCatalogue(cat: Catalogue, c: Change) {
    c.OfPods? && !c.event.Reserve? ==> Known(cat, c.event.pod)
  }

  ghost predicate AllAccounted(cat: Catalogue, s: State) {
    && (forall ns :: ns in s.quotas ==> Accounted(cat, s.quotas[ns]))
    && (s.admitted.Some? ==> Known(cat, s.admitted.value))
  }

  lemma ApplyAccounted(cat: Catalogue, s: State, c: Change)
    requires AllAccounted(cat, s) && OfCatalogue(cat, c)
    ensures AllAccounted(cat, Apply(s, c))
  {
    hide Accounted, Admits;
    if c.OfPods? {
      var pod := if !c.event.Reserve? then c.event.pod else if s.admitted.Some? then s.admitted.value else EmptyPod();
      if Known(cat, pod) && pod.namespace in s.quotas {
        AddAccounted(cat, s.quotas[pod.namespace], pod);
        DeleteAccounted(cat, s.quotas[pod.namespace], pod);
      }
    } else {
      PutAccounted(cat, s.quotas, c.ns, if c.QuotaDeleted? then Bounds(None, None) else c.bounds);
    }
  }

  function EmptyPod(): Pod { Pod("", "", "", map[], 0, 0, ZERO, "", false, None) }

  lemma PutAccounted(cat: Catalogue, quotas: Quotas, ns: string, b: Bounds)
    requires ns in quotas ==> Accounted(cat, quotas[ns])
    ensures Accounted(cat, PutQuota(quotas, ns, b)[ns])
  {
    assert forall d: Dim :: Charges(cat, {}, d) == map[];
  }

  /** Accounting survives everything: over every run of pod events and quota changes, admitted or not, every
      quota's usage is exactly the sum of the requests of the pods it tracks. */
  lemma {:induction false} AccountingSurvives(cat: Catalogue, s: State, cs: seq<Change>)
    requires AllAccounted(cat, s) && forall i :: 0 <= i < |cs| ==> OfCatalogue(cat, cs[i])
    ensures AllAccounted(cat, ApplyAll(s, cs))
    decreases |cs|
  {
    if cs != [] {
      hide AllAccounted, OfCatalogue;
      AccountingSurvives(cat, s, cs[..|cs| - 1]);
      ApplyAccounted(cat, ApplyAll(s, cs[..|cs| - 1]), cs[|cs| - 1]);
    }
  }

  /** A changed quota has the bounds that its specification gives, or by default none below and the largest int64
      above; it keeps its usage and its pods, starting with none, and no other quota changes. */
  lemma PutQuotaExactly(quotas: Quotas, ns: string, b: Bounds, other: string)
    ensures var after := PutQuota(quotas, ns, b);
            && ns in after && after.Keys == quotas.Keys + {ns}
            && (b.min.Some? ==> after[ns].min == b.min.value) && (b.max.Some? ==> after[ns].max == b.max.value)
            && (b.min.None? ==> forall d: Dim :: after[ns].min.At(d) == 0)
            && (b.max.None? ==> forall d: Dim :: d in {Cpu, Memory, EphemeralStorage} ==>
                                  after[ns].max.At(d) == 0x7FFF_FFFF_FFFF_FFFF)
            && (ns in quotas ==> after[ns].used == quotas[ns].used && after[ns].pods == quotas[ns].pods)
            && (ns !in quotas ==> after[ns].pods == {} && forall d: Dim :: after[ns].used.At(d) == 0)
            && (other != ns && other in quotas ==> after[other] == quotas[other])
  {
  }

  /** New bounds are safe exactly when the present usage fits under them: under the quota's own Max, and in total
      under the minima with the old Min exchanged for the new one. */
  lemma NewBoundsAreSafeExactly(cat: Catalogue, quotas: Quotas, ns: string, b: Bounds)
    requires Bounded(cat, quotas) && ns in quotas && b.Min().NonNegative()
    ensures Bounded(cat, PutQuota(quotas, ns, b)) <==>
              && (forall d: Dim :: quotas[ns].used.At(d) <= Limit(b.Max(), UPPER_BOUND_OF_MAX, d))
              && (forall d: Dim ::
                    Sum(UsedAt(quotas, d)) <= Sum(MinAt(quotas, d)) - quotas[ns].min.At(d) + b.Min().At(d))
  {
    var after := PutQuota(quotas, ns, b);
    PutAccounted(cat, quotas, ns, b);
    forall d: Dim
      ensures Sum(UsedAt(after, d)) == Sum(UsedAt(quotas, d))
      ensures Sum(MinAt(after, d)) == Sum(MinAt(quotas, d)) - quotas[ns].min.At(d) + b.Min().At(d)
    {
      TotalsAfterPut(quotas, ns, after[ns], d);
    }
    hide Accounted, Resource.At, Limit, UsedAt, MinAt;
    assert after[ns].WithinMax() <==>
      forall d: Dim :: quotas[ns].used.At(d) <= Limit(b.Max(), UPPER_BOUND_OF_MAX, d);
    assert forall n :: n in after && n != ns ==> n in quotas && after[n] == quotas[n];
  }

  // ----- The tracked pods from the history -----

  /** The event takes the pod off its quota: an unreserve, a deletion, or the first phase that is neither pending
      nor running. */
  predicate TakesOff(e: Event, uid: string, ns: string) {
    match e
    case Unreserve(p) => p.uid == uid && p.namespace == ns
    case Deleted(p) => p.uid == uid && p.namespace == ns
    case Updated(oldPhase, newPhase, p) =>
      && p.uid == uid && p.namespace == ns
      && oldPhase != Succeeded && oldPhase != Failed && newPhase != Pending && newPhase != Running
    case _ => false
  }

  /** The event charges the pod: the reservation of the admitted pod, or the informer's report of it. */
  predicate PutsOn(admitted: Option<Pod>, e: Event, uid: string, ns: string) {
    match e
    case Reserve => admitted.Some? && admitted.value.uid == uid && admitted.value.namespace == ns
    case Added(p) => p.uid == uid && p.namespace == ns
    case _ => false
  }

  /** Event `i` charged the pod and no later one took it off. */
  ghost predicate ChargedSince(s: State, es: seq<Event>, uid: string, ns: string, i: nat)
    requires i < |es|
  {
    && PutsOn(Run(s, es[..i]).admitted, es[i], uid, ns)
    && forall j :: i < j < |es| ==> !TakesOff(es[j], uid, ns)
  }

  ghost predicate Charged(s: State, es: seq<Event>, uid: string, ns: string) {
    exists i :: 0 <= i < |es| && ChargedSince(s, es, uid, ns, i)
  }

  lemma ChargedSinceStep(s: State, es: seq<Event>, e: Event, uid: string, ns: string, i: nat)
    requires i <= |es|
    ensures ChargedSince(s, es + [e], uid, ns, i) <==>
              if i == |es| then PutsOn(Run(s, es).admitted, e, uid, ns)
              else ChargedSince(s, es, uid, ns, i) && !TakesOff(e, uid, ns)
  {
    hide PutsOn, TakesOff, Run;
    var all := es + [e];
    assert all[..i] == es[..i] && es[..|es|] == es;
    if i < |es| {
      assert all[|es|] == e && forall j :: i < j < |es| ==> all[j] == es[j];
    }
  }

  lemma ChargedStep(s: State, es: seq<Event>, e: Event, uid: string, ns: string)
    ensures Charged(s, es + [e], uid, ns) <==>
              PutsOn(Run(s, es).admitted, e, uid, ns) || (Charged(s, es, uid, ns) && !TakesOff(e, uid, ns))
  {
    hide ChargedSince, PutsOn, TakesOff, Run;
    forall i | 0 <= i <= |es|
      ensures ChargedSince(s, es + [e], uid, ns, i) <==>
                if i == |es| then PutsOn(Run(s, es).admitted, e, uid, ns)
                else ChargedSince(s, es, uid, ns, i) && !TakesOff(e, uid, ns)
    {
      ChargedSinceStep(s, es, e, uid, ns, i);
    }
    if PutsOn(Run(s, es).admitted, e, uid, ns) {
      assert ChargedSince(s, es + [e], uid, ns, |es|);
    }
  }

  lemma TrackedStep(s: State, e: Event, uid: string, ns: string)
    requires ns in s.quotas && "" !in s.quotas[ns].pods
    ensures ns in Step(s, e).quotas && "" !in Step(s, e).quotas[ns].pods
    ensures uid in Step(s, e).quotas[ns].pods <==>
              uid != "" && (PutsOn(s.admitted, e, uid, ns) || (uid in s.quotas[ns].pods && !TakesOff(e, uid, ns)))
  {
    hide Admits;
  }

  /** The ledger tracks what the history says: over every run with fixed quotas a pod is charged to a quota exactly
      when a reservation or a report charged it and since then it was neither unreserved nor deleted nor reported in
      a phase that is neither pending nor running for the first time. A pod without identity is never tracked. */
  lemma {:induction false} TrackedFollowsHistory(s: State, es: seq<Event>, uid: string, ns: string)
    requires Initial(s) && ns in s.quotas
    ensures ns in Run(s, es).quotas && "" !in Run(s, es).quotas[ns].pods
    ensures uid in Run(s, es).quotas[ns].pods <==> uid != "" && Charged(s, es, uid, ns)
    decreases |es|
  {
    if es != [] {
      var before, e := es[..|es| - 1], es[|es| - 1];
      assert es == before + [e];
      TrackedFollowsHistory(s, before, uid, ns);
      ChargedStep(s, before, e, uid, ns);
      TrackedStep(Run(s, before), e, uid, ns);
      hide Charged, Step, PutsOn, TakesOff;
    }
  }

  /** The last admission check, at position `k`, admitted the pod, and nothing was reserved since. */
  ghost predicate AdmittedAt(s: State, es: seq<Event>, pod: Pod, k: nat)
    requires k < |es|
  {
    && es[k].PreFilter? && es[k].pod == pod && Admits(Run(s, es[..k]).quotas, pod, es[k].nominated)
    && forall j :: k < j < |es| ==> !es[j].PreFilter? && !es[j].Reserve?
  }

  lemma AdmittedAtStep(s: State, es: seq<Event>, e: Event, pod: Pod, k: nat)
    requires k <= |es|
    ensures AdmittedAt(s, es + [e], pod, k) <==>
              if k == |es| then e.PreFilter? && e.pod == pod && Admits(Run(s, es).quotas, pod, e.nominated)
              else AdmittedAt(s, es, pod, k) && !e.PreFilter? && !e.Reserve?
  {
    hide Admits, Run;
    var all := es + [e];
    assert all[..k] == es[..k] && es[..|es|] == es;
    if k < |es| {
      assert all[|es|] == e && forall j :: k < j < |es| ==> all[j] == es[j];
    }
  }

  lemma AdmittedStep(s: State, e: Event, pod: Pod)
    ensures Step(s, e).admitted == Some(pod) <==>
              || (e.PreFilter? && e.pod == pod && Admits(s.quotas, pod, e.nominated))
              || (s.admitted == Some(pod) && !e.PreFilter? && !e.Reserve?)
  {
    hide Admits, AddPod, DeletePod, AfterUpdate;
  }

  /** Who is reserved next, from the history. */
  lemma {:induction false} AdmittedFollowsHistory(s: State, es: seq<Event>, pod: Pod)
    requires s.admitted.None?
    ensures Run(s, es).admitted == Some(pod) <==> exists k :: 0 <= k < |es| && AdmittedAt(s, es, pod, k)
    decreases |es|
  {
    if es != [] {
      var n := |es| - 1;
      var before, e := es[..n], es[n];
      assert es == before + [e];
      AdmittedFollowsHistory(s, before, pod);
      AdmittedStep(Run(s, before), e, pod);
      hide Admits, Step, AdmittedAt;
      forall k | 0 <= k <= n
        ensures AdmittedAt(s, es, pod, k) <==>
                  if k == n then e.PreFilter? && e.pod == pod && Admits(Run(s, before).quotas, pod, e.nominated)
                  else AdmittedAt(s, before, pod, k) && !e.PreFilter? && !e.Reserve?
      {
        AdmittedAtStep(s, before, e, pod, k);
      }
      assert AdmittedAt(s, es, pod, n) <==>
        e.PreFilter? && e.pod == pod && Admits(Run(s, before).quotas, pod, e.nominated);
      if k :| 0 <= k < n && AdmittedAt(s, before, pod, k) {
        assert !e.PreFilter? && !e.Reserve? ==> AdmittedAt(s, es, pod, k);
      }
    }
  }
}
