/** Elastic quotas: one ledger entry per namespace, and the comparisons that admission is built on. */
module ElasticQuota {
  import opened Sums
  import opened Options
  import opened Resources

  const UPPER_BOUND_OF_MAX: int := 0x7FFF_FFFF_FFFF_FFFF
  const LOWER_BOUND_OF_MIN: int := 0

  /** Whether `x1 + x2` exceeds `y`. Only the scalars named by `x1` are looked at, and a scalar that `y`
      does not name is compared with `bound`. */
  predicate Cmp2(x1: Resource, x2: Resource, y: Resource, bound: int) {
    || x1.milliCPU + x2.milliCPU > y.milliCPU
    || x1.memory + x2.memory > y.memory
    || x1.ephemeralStorage + x2.ephemeralStorage > y.ephemeralStorage
    || x1.allowedPodNumber + x2.allowedPodNumber > y.allowedPodNumber
    || exists n :: n in x1.scalars &&
                   x1.scalars[n] + Lookup(x2.scalars, n) > if n in y.scalars then y.scalars[n] else bound
  }

  predicate Cmp(x: Resource, y: Resource, bound: int) {
    Cmp2(x, ZERO, y, bound)
  }

  /** The value that dimension `d` is compared with. */
  ghost function Limit(y: Resource, bound: int, d: Dim): int {
    if d.Scalar? && d.name !in y.scalars then bound else y.At(d)
  }

  /** The value of a ledger entry. */
  datatype Quota = Quota(min: Resource, max: Resource, used: Resource, pods: set<string>) {
    predicate UsedOverMinWith(request: Resource) { Cmp2(request, used, min, LOWER_BOUND_OF_MIN) }

    predicate UsedOverMaxWith(request: Resource) { Cmp2(request, used, max, UPPER_BOUND_OF_MAX) }

    predicate UsedOverMin() { Cmp(used, min, LOWER_BOUND_OF_MIN) }

    function AddPod(pod: Pod): Quota {
      if pod.uid == "" || pod.uid in pods then this
      else this.(pods := pods + {pod.uid}, used := used.Plus(pod.request))
    }

    function DeletePod(pod: Pod): Quota {
      if pod.uid == "" || pod.uid !in pods then this
      else this.(pods := pods - {pod.uid}, used := used.Minus(pod.request))
    }

    /** Usage is within Max in every dimension, named by a request or not. */
    ghost predicate WithinMax() {
      forall d: Dim :: used.At(d) <= Limit(max, UPPER_BOUND_OF_MAX, d)
    }
  }

  type Quotas = map<string, Quota>

  function AddPod(quotas: Quotas, pod: Pod): Quotas {
    if pod.namespace in quotas then quotas[pod.namespace := quotas[pod.namespace].AddPod(pod)] else quotas
  }

  function DeletePod(quotas: Quotas, pod: Pod): Quotas {
    if pod.namespace in quotas then quotas[pod.namespace := quotas[pod.namespace].DeletePod(pod)] else quotas
  }

  ghost function UsedAt(quotas: Quotas, d: Dim): map<string, int> {
    map ns | ns in quotas :: quotas[ns].used.At(d)
  }

  ghost function MinAt(quotas: Quotas, d: Dim): map<string, int> {
    map ns | ns in quotas :: quotas[ns].min.At(d)
  }

  ghost predicate MinsNonNegative(quotas: Quotas) {
    forall ns :: ns in quotas ==> quotas[ns].min.NonNegative()
  }

  /** The total usage of all quotas plus `request` exceeds the total of their minima in some dimension. */
  ghost predicate AggregatedUsedOverMin(quotas: Quotas, request: Resource) {
    exists d: Dim :: Sum(UsedAt(quotas, d)) + request.At(d) > Sum(MinAt(quotas, d))
  }

  /** What the comparison against Max decides: although it skips the scalars that the request does not
      name, a ledger entry already within Max stays within Max, in every dimension, exactly when it passes. */
  lemma MaxCheckIsExact(q: Quota, request: Resource)
    requires q.WithinMax()
    ensures !q.UsedOverMaxWith(request)
       <==> forall d: Dim :: q.used.At(d) + request.At(d) <= Limit(q.max, UPPER_BOUND_OF_MAX, d)
  {
    if forall d: Dim :: q.used.At(d) + request.At(d) <= Limit(q.max, UPPER_BOUND_OF_MAX, d) {
      assert q.used.At(Cpu) + request.At(Cpu) <= Limit(q.max, UPPER_BOUND_OF_MAX, Cpu);
      assert q.used.At(Memory) + request.At(Memory) <= Limit(q.max, UPPER_BOUND_OF_MAX, Memory);
      assert q.used.At(EphemeralStorage) + request.At(EphemeralStorage)
             <= Limit(q.max, UPPER_BOUND_OF_MAX, EphemeralStorage);
      assert q.used.At(PodNumber) + request.At(PodNumber) <= Limit(q.max, UPPER_BOUND_OF_MAX, PodNumber);
      forall n | n in request.scalars
        ensures request.scalars[n] + Lookup(q.used.scalars, n)
                <= if n in q.max.scalars then q.max.scalars[n] else UPPER_BOUND_OF_MAX
      {
        assert q.used.At(Scalar(n)) + request.At(Scalar(n)) <= Limit(q.max, UPPER_BOUND_OF_MAX, Scalar(n));
      }
    }
  }

  /** Against a lower bound of 0 the comparison is the pointwise one. */
  lemma CmpIsPointwise(x: Resource, y: Resource)
    requires y.NonNegative()
    ensures Cmp(x, y, LOWER_BOUND_OF_MIN) <==> exists d: Dim :: x.At(d) > y.At(d)
  {
    if Cmp(x, y, LOWER_BOUND_OF_MIN) {
      if n :| n in x.scalars &&
              x.scalars[n] > if n in y.scalars then y.scalars[n] else LOWER_BOUND_OF_MIN {
        assert x.At(Scalar(n)) > y.At(Scalar(n));
      } else {
        assert x.At(Cpu) > y.At(Cpu) || x.At(Memory) > y.At(Memory)
            || x.At(EphemeralStorage) > y.At(EphemeralStorage) || x.At(PodNumber) > y.At(PodNumber);
      }
    }
    if d: Dim :| x.At(d) > y.At(d) {
      if d.Scalar? && d.name !in x.scalars {
        assert 0 <= y.At(d);
      }
    }
  }

  /** What the comparison of a sum means, on any vectors: some dimension exceeds its limit, where scalars count only
      if the first vector names them. */
  lemma Cmp2Exactly(x1: Resource, x2: Resource, y: Resource, bound: int)
    ensures Cmp2(x1, x2, y, bound) <==>
              exists d: Dim :: (d.Scalar? ==> d.name in x1.scalars) && x1.At(d) + x2.At(d) > Limit(y, bound, d)
  {
    if Cmp2(x1, x2, y, bound) {
      if n :| n in x1.scalars &&
              x1.scalars[n] + Lookup(x2.scalars, n) > if n in y.scalars then y.scalars[n] else bound {
        assert x1.At(Scalar(n)) + x2.At(Scalar(n)) > Limit(y, bound, Scalar(n));
      } else {
        assert x1.At(Cpu) + x2.At(Cpu) > Limit(y, bound, Cpu) || x1.At(Memory) + x2.At(Memory) > Limit(y, bound, Memory)
            || x1.At(EphemeralStorage) + x2.At(EphemeralStorage) > Limit(y, bound, EphemeralStorage)
            || x1.At(PodNumber) + x2.At(PodNumber) > Limit(y, bound, PodNumber);
      }
    }
    if d: Dim :| (d.Scalar? ==> d.name in x1.scalars) && x1.At(d) + x2.At(d) > Limit(y, bound, d) {
      if d.Scalar? {
        assert x1.scalars[d.name] == x1.At(d);
      }
    }
  }

  /** A first vector that is larger and names no fewer scalars exceeds wherever the smaller one does. */
  lemma Cmp2Grows(small: Resource, large: Resource, x2: Resource, y: Resource, bound: int)
    requires AtMost(small, large) && small.scalars.Keys <= large.scalars.Keys && Cmp2(small, x2, y, bound)
    ensures Cmp2(large, x2, y, bound)
  {
    Cmp2Exactly(small, x2, y, bound);
    Cmp2Exactly(large, x2, y, bound);
    var d: Dim :| (d.Scalar? ==> d.name in small.scalars) && small.At(d) + x2.At(d) > Limit(y, bound, d);
    assert small.At(d) <= large.At(d);
  }

  /** A quota whose Max is left out is not unlimited: it accepts everything up to the largest int64 in the other
      dimensions, but no pods, because the default names no pod count. */
  lemma MissingMaxExactly(q: Quota, request: Resource)
    requires q.max == BoundList(UPPER_BOUND_OF_MAX)
    ensures q.UsedOverMaxWith(request) <==>
              || request.allowedPodNumber + q.used.allowedPodNumber > 0
              || exists d: Dim :: d != PodNumber && (d.Scalar? ==> d.name in request.scalars) &&
                                  request.At(d) + q.used.At(d) > 0x7FFF_FFFF_FFFF_FFFF
  {
    Cmp2Exactly(request, q.used, q.max, UPPER_BOUND_OF_MAX);
    assert forall d: Dim :: Limit(q.max, UPPER_BOUND_OF_MAX, d) == if d == PodNumber then 0 else 0x7FFF_FFFF_FFFF_FFFF;
    if request.allowedPodNumber + q.used.allowedPodNumber > 0 {
      assert request.At(PodNumber) + q.used.At(PodNumber) > 0;
    }
  }

  /** The comparison with Max only tightens as the request grows. */
  lemma MaxCheckMonotone(q: Quota, small: Resource, large: Resource)
    requires q.WithinMax() && AtMost(small, large)
    ensures q.UsedOverMaxWith(small) ==> q.UsedOverMaxWith(large)
  {
    MaxCheckIsExact(q, small);
    MaxCheckIsExact(q, large);
    if !q.UsedOverMaxWith(large) {
      forall d: Dim ensures q.used.At(d) + small.At(d) <= Limit(q.max, UPPER_BOUND_OF_MAX, d) {
        assert small.At(d) <= large.At(d);
      }
    }
  }

  function BoundList(bound: int): Resource { Resource(bound, bound, bound, 0, map[]) }

  /** The mutable ledger entry. */
  class ElasticQuotaInfo {
    const namespace: string
    var pods: set<string>
    var min: Resource
    var max: Resource
    var used: Resource

    function View(): Quota
      reads this
    {
      Quota(min, max, used, pods)
    }

    constructor (namespace: string, min: Option<Resource>, max: Option<Resource>)
      ensures this.namespace == namespace
      ensures View() == Quota(if min.Some? then min.value else BoundList(LOWER_BOUND_OF_MIN),
                              if max.Some? then max.value else BoundList(UPPER_BOUND_OF_MAX), ZERO, {})
    {
      this.namespace := namespace;
      this.pods := {};
      this.min := if min.Some? then min.value else BoundList(LOWER_BOUND_OF_MIN);
      this.max := if max.Some? then max.value else BoundList(UPPER_BOUND_OF_MAX);
      this.used := ZERO;
    }

    constructor Copy(other: ElasticQuotaInfo)
      ensures namespace == other.namespace && View() == other.View()
    {
      namespace := other.namespace;
      min := other.min;
      max := other.max;
      used := other.used;
      pods := other.pods;
    }

    /** A copy that shares no state with this entry. */
    method Clone() returns (copy: ElasticQuotaInfo)
      ensures fresh(copy) && copy.namespace == namespace && copy.View() == View()
    {
      copy := new ElasticQuotaInfo.Copy(this);
    }

    method ReserveResource(request: Resource)
      modifies this`used
      ensures used == old(used).Plus(request)
    {
      var scalars := used.scalars;
      var todo := request.scalars.Keys;
      while todo != {}
        invariant todo <= request.scalars.Keys
        invariant scalars.Keys == used.scalars.Keys + (request.scalars.Keys - todo)
        invariant forall n :: n in scalars ==>
          scalars[n] == Lookup(used.scalars, n) + if n in todo then 0 else Lookup(request.scalars, n)
      {
        var name :| name in todo;
        scalars := scalars[name := Lookup(scalars, name) + request.scalars[name]];
        todo := todo - {name};
      }
      used := Resource(used.milliCPU + request.milliCPU, used.memory + request.memory,
                       used.ephemeralStorage + request.ephemeralStorage,
                       used.allowedPodNumber + request.allowedPodNumber, scalars);
      assert scalars == old(used).Plus(request).scalars;
    }

    method UnreserveResource(request: Resource)
      modifies this`used
      ensures used == old(used).Minus(request)
    {
      var scalars := used.scalars;
      var todo := request.scalars.Keys;
      while todo != {}
        invariant todo <= request.scalars.Keys
        invariant scalars.Keys == used.scalars.Keys + (request.scalars.Keys - todo)
        invariant forall n :: n in scalars ==>
          scalars[n] == Lookup(used.scalars, n) - if n in todo then 0 else Lookup(request.scalars, n)
      {
        var name :| name in todo;
        scalars := scalars[name := Lookup(scalars, name) - request.scalars[name]];
        todo := todo - {name};
      }
      used := Resource(used.milliCPU - request.milliCPU, used.memory - request.memory,
                       used.ephemeralStorage - request.ephemeralStorage,
                       used.allowedPodNumber - request.allowedPodNumber, scalars);
      assert scalars == old(used).Minus(request).scalars;
    }

    /** Tracks `pod` and charges its request, unless it is tracked already; fails only without an identity. */
    method AddPodIfNotPresent(pod: Pod) returns (ok: bool)
      modifies this`pods, this`used
      ensures ok == (pod.uid != "")
      ensures View() == old(View()).AddPod(pod)
    {
      if pod.uid == "" {
        return false;
      }
      if pod.uid in pods {
        return true;
      }
      pods := pods + {pod.uid};
      ReserveResource(pod.request);
      return true;
    }

    /** Stops tracking `pod` and returns its request, if it is tracked. */
    method DeletePodIfPresent(pod: Pod) returns (ok: bool)
      modifies this`pods, this`used
      ensures ok == (pod.uid != "")
      ensures View() == old(View()).DeletePod(pod)
    {
      if pod.uid == "" {
        return false;
      }
      if pod.uid !in pods {
        return true;
      }
      pods := pods - {pod.uid};
      UnreserveResource(pod.request);
      return true;
    }
  }

  type Infos = map<string, ElasticQuotaInfo>

  /** Different namespaces have different ledger entries. */
  ghost predicate Separate(infos: Infos) {
    forall m, n :: m in infos && n in infos && infos[m] == infos[n] ==> m == n
  }

  ghost function Views(infos: Infos): Quotas
    reads infos.Values
  {
    map ns | ns in infos :: infos[ns].View()
  }

  lemma ViewsPut(infos: Infos, ns: string, info: ElasticQuotaInfo)
    ensures Views(infos[ns := info]) == Views(infos)[ns := info.View()]
  {
  }

  /** Copies a ledger: same values, and no entry shared with the original. */
  method CloneInfos(infos: Infos) returns (copy: Infos)
    ensures Views(copy) == Views(infos) && Separate(copy)
    ensures copy.Keys == infos.Keys && forall ns :: ns in copy ==> fresh(copy[ns])
  {
    copy := map[];
    var todo := infos.Keys;
    while todo != {}
      invariant todo <= infos.Keys && copy.Keys == infos.Keys - todo
      invariant forall ns :: ns in copy ==> fresh(copy[ns]) && copy[ns].View() == infos[ns].View()
      invariant Separate(copy)
    {
      var ns :| ns in todo;
      var entry := infos[ns].Clone();
      copy := copy[ns := entry];
      todo := todo - {ns};
    }
  }

  ghost function Only(quotas: Quotas, done: set<string>): Quotas {
    map ns | ns in quotas && ns in done :: quotas[ns]
  }

  /** How the totals move when one entry changes. */
  lemma TotalsAfterPut(quotas: Quotas, ns: string, q: Quota, d: Dim)
    ensures Sum(UsedAt(quotas[ns := q], d))
         == Sum(UsedAt(quotas, d)) + q.used.At(d) - if ns in quotas then quotas[ns].used.At(d) else 0
    ensures Sum(MinAt(quotas[ns := q], d))
         == Sum(MinAt(quotas, d)) + q.min.At(d) - if ns in quotas then quotas[ns].min.At(d) else 0
  {
    hide Resource.At;
    assert UsedAt(quotas[ns := q], d) == UsedAt(quotas, d)[ns := q.used.At(d)];
    SumPut(UsedAt(quotas, d), ns, q.used.At(d));
    assert MinAt(quotas[ns := q], d) == MinAt(quotas, d)[ns := q.min.At(d)];
    SumPut(MinAt(quotas, d), ns, q.min.At(d));
  }

  /** The aggregate check, over entries visited in any order, decides the comparison of the totals. */
  method AggregatedUsedOverMinWith(infos: Infos, request: Resource) returns (over: bool)
    requires MinsNonNegative(Views(infos))
    ensures over == AggregatedUsedOverMin(Views(infos), request)
  {
    ghost var quotas := Views(infos);
    var used, min := ZERO, ZERO;
    var todo := infos.Keys;
    ghost var done := {};
    assert forall d: Dim :: UsedAt(Only(quotas, done), d) == map[] && MinAt(Only(quotas, done), d) == map[];
    while todo != {}
      invariant todo <= infos.Keys && done == infos.Keys - todo
      invariant forall d: Dim :: used.At(d) == Sum(UsedAt(Only(quotas, done), d))
      invariant forall d: Dim :: min.At(d) == Sum(MinAt(Only(quotas, done), d))
      invariant min.NonNegative()
    {
      var ns :| ns in todo;
      assert Only(quotas, done + {ns}) == Only(quotas, done)[ns := quotas[ns]];
      forall d: Dim
        ensures Sum(UsedAt(Only(quotas, done + {ns}), d)) == used.At(d) + infos[ns].used.At(d)
        ensures Sum(MinAt(Only(quotas, done + {ns}), d)) == min.At(d) + infos[ns].min.At(d)
      {
        TotalsAfterPut(Only(quotas, done), ns, quotas[ns], d);
      }
      used, min := used.Plus(infos[ns].used), min.Plus(infos[ns].min);
      assert forall d: Dim :: 0 <= quotas[ns].min.At(d);
      todo, done := todo - {ns}, done + {ns};
    }
    assert Only(quotas, done) == quotas;
    used := used.Plus(request);
    CmpIsPointwise(used, min);
    over := Cmp(used, min, LOWER_BOUND_OF_MIN);
  }

  /** The plugin's AddPod hook: charges the pod to its quota in the snapshot, if it has one. */
  method ChargePod(infos: Infos, pod: Pod)
    requires Separate(infos)
    modifies infos.Values
    ensures Views(infos) == AddPod(old(Views(infos)), pod)
  {
    if pod.namespace in infos {
      var _ := infos[pod.namespace].AddPodIfNotPresent(pod);
    }
  }

  /** The plugin's RemovePod hook: takes the pod off its quota in the snapshot, if it has one. */
  method DischargePod(infos: Infos, pod: Pod)
    requires Separate(infos)
    modifies infos.Values
    ensures Views(infos) == DeletePod(old(Views(infos)), pod)
  {
    if pod.namespace in infos {
      var _ := infos[pod.namespace].DeletePodIfPresent(pod);
    }
  }
}
