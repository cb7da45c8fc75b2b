/** What a pod asks for, computed in four places: by the quota plugin, by the quota controller, by the shared
    utilities and by Trimaran. */
module EffectiveRequest {
  import opened Options
  import opened Resources

  /** A name in a request: a dimension of the scheduler's resource record, or one, such as `storage`, that the
      record has no place for. */
  datatype Name = Known(dim: Dim) | Unscheduled(name: string)

  type ResourceList = map<Name, int>

  datatype Container = Container(requests: ResourceList, limits: ResourceList)

  datatype PodSpec = PodSpec(containers: seq<Container>, initContainers: seq<Container>,
                             overhead: Option<ResourceList>)

  // ----- What is meant -----

  function Quantity(list: ResourceList, n: Name): Option<int> {
    if n in list then Some(list[n]) else None
  }

  /** A missing quantity counts as zero. */
  function Value(q: Option<int>): int {
    match q
    case None => 0
    case Some(v) => v
  }

  function Added(x: Option<int>, y: Option<int>): Option<int> {
    if x.None? then y else if y.None? then x else Some(x.value + y.value)
  }

  function Larger(x: Option<int>, y: Option<int>): Option<int> {
    if x.None? then y else if y.None? then x else if x.value < y.value then y else x
  }

  type Selector = Container -> ResourceList

  function Requests(): Selector { (c: Container) => c.requests }

  /** The sum over all containers that name the resource, if any does. */
  function Total(cs: seq<Container>, select: Selector, n: Name): Option<int> {
    if cs == [] then None else Added(Total(cs[..|cs| - 1], select, n), Quantity(select(cs[|cs| - 1]), n))
  }

  /** The largest over all containers that name the resource, if any does. */
  function Largest(cs: seq<Container>, select: Selector, n: Name): Option<int> {
    if cs == [] then None else Larger(Largest(cs[..|cs| - 1], select, n), Quantity(select(cs[|cs| - 1]), n))
  }

  /** What the controller and the shared utilities report. */
  function Listed(pod: PodSpec, n: Name): Option<int> {
    Larger(Total(pod.containers, Requests(), n), Largest(pod.initContainers, Requests(), n))
  }

  function Raised(x: int, y: Option<int>): int {
    if y.Some? && x < y.value then y.value else x
  }

  function RaisedIf(maxed: bool, x: int, y: Option<int>): int {
    if maxed then Raised(x, y) else x
  }

  function OverheadOf(pod: PodSpec, n: Name): int {
    if pod.overhead.None? then 0 else Value(Quantity(pod.overhead.value, n))
  }

  /** The scheduler's record as one of its folds leaves it: containers summed, then the names in `maxed` raised to
      the largest init container, then the overhead. */
  function Recorded(pod: PodSpec, select: Selector, maxed: bool, n: Name): int {
    RaisedIf(maxed, Value(Total(pod.containers, select, n)), Largest(pod.initContainers, select, n))
    + OverheadOf(pod, n)
  }

  /** Dimensions that `SetMaxResource` looks at: not the pod count. */
  predicate RaisedByFramework(d: Dim) { d != PodNumber }

  predicate RaisedByTrimaran(d: Dim) { d == Cpu || d == Memory }

  function CapacityRequest(pod: PodSpec, d: Dim): int {
    Recorded(pod, Requests(), RaisedByFramework(d), Known(d))
  }

  function TrimaranResource(pod: PodSpec, select: Selector, d: Dim): int {
    Recorded(pod, select, RaisedByTrimaran(d), Known(d))
  }

  // ----- The computations on the scheduler's record -----

  function With(r: Resource, d: Dim, v: int): (w: Resource)
    ensures forall e: Dim :: w.At(e) == if e == d then v else r.At(e)
  {
    match d
    case Cpu => r.(milliCPU := v)
    case Memory => r.(memory := v)
    case EphemeralStorage => r.(ephemeralStorage := v)
    case PodNumber => r.(allowedPodNumber := v)
    case Scalar(s) => r.(scalars := r.scalars[s := v])
  }

  /** `Add` of the framework's record; the entries come in any order. */
  method Add(r: Resource, list: ResourceList) returns (sum: Resource)
    ensures forall d: Dim :: sum.At(d) == r.At(d) + Value(Quantity(list, Known(d)))
  {
    sum := r;
    var todo := list.Keys;
    while todo != {}
      invariant todo <= list.Keys
      invariant forall d: Dim :: sum.At(d) == r.At(d) + if Known(d) in todo then 0 else Value(Quantity(list, Known(d)))
    {
      var n :| n in todo;
      if n.Known? {
        sum := With(sum, n.dim, sum.At(n.dim) + list[n]);
      }
      todo := todo - {n};
    }
  }

  /** `SetMaxResource` of the framework's record. */
  method SetMaxResource(r: Resource, list: ResourceList) returns (m: Resource)
    ensures forall d: Dim :: m.At(d) == RaisedIf(RaisedByFramework(d), r.At(d), Quantity(list, Known(d)))
  {
    m := r;
    var todo := list.Keys;
    while todo != {}
      invariant todo <= list.Keys
      invariant forall d: Dim ::
        m.At(d) == RaisedIf(RaisedByFramework(d) && Known(d) !in todo, r.At(d), Quantity(list, Known(d)))
    {
      var n :| n in todo;
      if n.Known? && RaisedByFramework(n.dim) {
        m := With(m, n.dim, if m.At(n.dim) < list[n] then list[n] else m.At(n.dim));
      }
      todo := todo - {n};
    }
  }

  /** Trimaran raises the two resources it scores and no other. */
  method SetMaxCpuMemory(r: Resource, list: ResourceList) returns (m: Resource)
    ensures forall d: Dim :: m.At(d) == RaisedIf(RaisedByTrimaran(d), r.At(d), Quantity(list, Known(d)))
  {
    m := r;
    var todo := list.Keys;
    while todo != {}
      invariant todo <= list.Keys
      invariant forall d: Dim ::
        m.At(d) == RaisedIf(RaisedByTrimaran(d) && Known(d) !in todo, r.At(d), Quantity(list, Known(d)))
    {
      var n :| n in todo;
      if n == Known(Cpu) && m.milliCPU < list[n] {
        m := m.(milliCPU := list[n]);
      } else if n == Known(Memory) && m.memory < list[n] {
        m := m.(memory := list[n]);
      }
      todo := todo - {n};
    }
  }

  /** The first loop of both folds. */
  method AddAll(cs: seq<Container>, select: Selector) returns (result: Resource)
    ensures forall d: Dim :: result.At(d) == Value(Total(cs, select, Known(d)))
  {
    result := ZERO;
    for i := 0 to |cs|
      invariant forall d: Dim :: result.At(d) == Value(Total(cs[..i], select, Known(d)))
    {
      assert cs[..i + 1][..i] == cs[..i];
      result := Add(result, select(cs[i]));
    }
    assert cs[..|cs|] == cs;
  }

  method AddOverhead(r: Resource, pod: PodSpec) returns (result: Resource)
    ensures forall d: Dim :: result.At(d) == r.At(d) + OverheadOf(pod, Known(d))
  {
    result := r;
    if pod.overhead.Some? {
      result := Add(result, pod.overhead.value);
    }
  }

  /** The quota plugin's computation. */
  method ComputePodResourceRequest(pod: PodSpec) returns (result: Resource)
    ensures forall d: Dim :: result.At(d) == CapacityRequest(pod, d)
  {
    result := AddAll(pod.containers, Requests());
    ghost var sum := result;
    var inits := pod.initContainers;
    for i := 0 to |inits|
      invariant forall d: Dim ::
        result.At(d) == RaisedIf(RaisedByFramework(d), sum.At(d), Largest(inits[..i], Requests(), Known(d)))
    {
      assert inits[..i + 1][..i] == inits[..i];
      result := SetMaxResource(result, inits[i].requests);
    }
    assert inits[..|inits|] == inits;
    result := AddOverhead(result, pod);
  }

  /** Trimaran's computation, for requests or for limits. */
  method GetEffectiveResource(pod: PodSpec, select: Selector) returns (result: Resource)
    ensures forall d: Dim :: result.At(d) == TrimaranResource(pod, select, d)
  {
    result := AddAll(pod.containers, select);
    ghost var sum := result;
    var inits := pod.initContainers;
    for i := 0 to |inits|
      invariant forall d: Dim ::
        result.At(d) == RaisedIf(RaisedByTrimaran(d), sum.At(d), Largest(inits[..i], select, Known(d)))
    {
      assert inits[..i + 1][..i] == inits[..i];
      result := SetMaxCpuMemory(result, select(inits[i]));
    }
    assert inits[..|inits|] == inits;
    result := AddOverhead(result, pod);
  }

  // ----- The computations on resource lists -----

  /** The library's pointwise sum of two lists. */
  function QuotaAdd(a: ResourceList, b: ResourceList): (r: ResourceList)
    ensures forall n :: Quantity(r, n) == Added(Quantity(a, n), Quantity(b, n))
  {
    map n | n in a.Keys + b.Keys :: if n !in a then b[n] else if n !in b then a[n] else a[n] + b[n]
  }

  /** The library's pointwise maximum of two lists. */
  function QuotaMax(a: ResourceList, b: ResourceList): (r: ResourceList)
    ensures forall n :: Quantity(r, n) == Larger(Quantity(a, n), Quantity(b, n))
  {
    map n | n in a.Keys + b.Keys :: if n !in a || (n in b && a[n] < b[n]) then b[n] else a[n]
  }

  /** The quota controller's computation: the sum with the overhead is thrown away. */
  method ControllerPodResourceRequest(pod: PodSpec) returns (r: ResourceList)
    ensures forall n :: Quantity(r, n) == Listed(pod, n)
  {
    var cs, inits := pod.containers, pod.initContainers;
    var result: ResourceList := map[];
    for i := 0 to |cs|
      invariant forall n :: Quantity(result, n) == Total(cs[..i], Requests(), n)
    {
      assert cs[..i + 1][..i] == cs[..i];
      result := QuotaAdd(result, cs[i].requests);
    }
    assert cs[..|cs|] == cs;
    var initRes: ResourceList := map[];
    for i := 0 to |inits|
      invariant forall n :: Quantity(initRes, n) == Largest(inits[..i], Requests(), n)
    {
      assert inits[..i + 1][..i] == inits[..i];
      initRes := QuotaMax(initRes, inits[i].requests);
    }
    assert inits[..|inits|] == inits;
    if pod.overhead.Some? {
      var _ := QuotaAdd(result, pod.overhead.value);
    }
    r := QuotaMax(result, initRes);
  }

  /** One pass over a container's requests that keeps the larger quantity of each name. */
  method KeepLarger(into: ResourceList, list: ResourceList) returns (r: ResourceList)
    ensures forall n :: Quantity(r, n) == Larger(Quantity(into, n), Quantity(list, n))
  {
    r := into;
    var todo := list.Keys;
    while todo != {}
      invariant todo <= list.Keys
      invariant forall n ::
        Quantity(r, n) == Larger(Quantity(into, n), if n in todo then None else Quantity(list, n))
    {
      var n :| n in todo;
      if !(n in r && list[n] <= r[n]) {
        r := r[n := list[n]];
      }
      todo := todo - {n};
    }
  }

  method AddInto(into: ResourceList, list: ResourceList) returns (r: ResourceList)
    ensures forall n :: Quantity(r, n) == Added(Quantity(into, n), Quantity(list, n))
  {
    r := into;
    var todo := list.Keys;
    while todo != {}
      invariant todo <= list.Keys
      invariant forall n ::
        Quantity(r, n) == Added(Quantity(into, n), if n in todo then None else Quantity(list, n))
    {
      var n :| n in todo;
      var quantity := list[n];
      if n in r {
        quantity := quantity + r[n];
      }
      r := r[n := quantity];
      todo := todo - {n};
    }
  }

  /** The shared utilities' computation, with the maximum folded last and the overhead not looked at. */
  method GetPodEffectiveRequest(pod: PodSpec) returns (resources: ResourceList)
    ensures forall n :: Quantity(resources, n) == Listed(pod, n)
  {
    var cs, inits := pod.containers, pod.initContainers;
    var initResources: ResourceList := map[];
    for i := 0 to |inits|
      invariant forall n :: Quantity(initResources, n) == Largest(inits[..i], Requests(), n)
    {
      assert inits[..i + 1][..i] == inits[..i];
      initResources := KeepLarger(initResources, inits[i].requests);
    }
    assert inits[..|inits|] == inits;
    resources := map[];
    for i := 0 to |cs|
      invariant forall n :: Quantity(resources, n) == Total(cs[..i], Requests(), n)
    {
      assert cs[..i + 1][..i] == cs[..i];
      resources := AddInto(resources, cs[i].requests);
    }
    assert cs[..|cs|] == cs;
    resources := KeepLarger(resources, initResources);
  }

  // ----- How they compare -----

  /** No container asks for a negative quantity. */
  ghost predicate NonNegative(cs: seq<Container>, select: Selector) {
    forall i, n :: 0 <= i < |cs| && n in select(cs[i]) ==> select(cs[i])[n] >= 0
  }

  lemma {:induction false} TotalNonNegative(cs: seq<Container>, select: Selector, n: Name)
    requires NonNegative(cs, select)
    ensures Value(Total(cs, select, n)) >= 0
  {
    if cs != [] {
      TotalNonNegative(cs[..|cs| - 1], select, n);
      assert cs[|cs| - 1] == cs[|cs| - 1..][0];
    }
  }

  /** The largest is an upper bound and, unless nobody names the resource, one of the quantities. */
  lemma {:induction false} LargestIsLeastUpperBound(cs: seq<Container>, select: Selector, n: Name)
    ensures forall i :: 0 <= i < |cs| && n in select(cs[i]) ==>
      Largest(cs, select, n).Some? && select(cs[i])[n] <= Largest(cs, select, n).value
    ensures Largest(cs, select, n).Some? ==>
      exists i :: 0 <= i < |cs| && n in select(cs[i]) && select(cs[i])[n] == Largest(cs, select, n).value
  {
    if cs != [] {
      var last := |cs| - 1;
      LargestIsLeastUpperBound(cs[..last], select, n);
      if Largest(cs, select, n).Some? {
        if Largest(cs, select, n) == Quantity(select(cs[last]), n) {
          assert n in select(cs[last]) && select(cs[last])[n] == Largest(cs, select, n).value;
        } else {
          var i :| 0 <= i < last && n in select(cs[..last][i]) &&
                   select(cs[..last][i])[n] == Largest(cs[..last], select, n).value;
          assert n in select(cs[i]) && select(cs[i])[n] == Largest(cs, select, n).value;
        }
      }
    }
  }

  /** The meaning of an effective request: the smallest quantity that covers the containers together and each init
      container alone. */
  ghost predicate CoversAll(pod: PodSpec, n: Name, v: int) {
    && Value(Total(pod.containers, Requests(), n)) <= v
    && (forall i :: 0 <= i < |pod.initContainers| ==> Value(Quantity(pod.initContainers[i].requests, n)) <= v)
  }

  lemma EffectiveRequestIsLeastCover(pod: PodSpec, n: Name)
    requires NonNegative(pod.containers, Requests()) && NonNegative(pod.initContainers, Requests())
    ensures CoversAll(pod, n, Value(Listed(pod, n)))
    ensures forall v :: CoversAll(pod, n, v) ==> Value(Listed(pod, n)) <= v
  {
    var inits := pod.initContainers;
    TotalNonNegative(pod.containers, Requests(), n);
    LargestIsLeastUpperBound(inits, Requests(), n);
    forall i | 0 <= i < |inits|
      ensures Value(Quantity(inits[i].requests, n)) <= Value(Listed(pod, n))
    {
      assert n in Requests()(inits[i]) ==> n in inits[i].requests;
    }
  }

  /** What the largest init container adds to the pod count of the containers. */
  function NotRaised(pod: PodSpec): int {
    Value(Listed(pod, Known(PodNumber))) - Value(Total(pod.containers, Requests(), Known(PodNumber)))
  }

  /** The quota plugin's record is the list of the controller and the utilities plus the overhead, except that the
      pod count is not raised to init containers: so they agree exactly where the overhead is zero, and on the pod
      count exactly where it makes up for what is not raised. */
  lemma AgreesExactlyWithoutOverhead(pod: PodSpec, d: Dim)
    requires NonNegative(pod.containers, Requests()) && NonNegative(pod.initContainers, Requests())
    ensures d != PodNumber ==> CapacityRequest(pod, d) == Value(Listed(pod, Known(d))) + OverheadOf(pod, Known(d))
    ensures CapacityRequest(pod, d) == Value(Listed(pod, Known(d))) <==>
              OverheadOf(pod, Known(d)) == if d == PodNumber then NotRaised(pod) else 0
    ensures d == PodNumber ==>
              (CapacityRequest(pod, d) == Value(Listed(pod, Known(d))) + OverheadOf(pod, Known(d)) <==>
               InitsWithinTotal(pod, Known(d)))
  {
    TotalNonNegative(pod.containers, Requests(), Known(d));
    LargestNonNegative(pod.initContainers, Requests(), Known(d));
    TrimaranAgreesExactly(pod, d);
    LargestIsLeastUpperBound(pod.initContainers, Requests(), Known(d));
    assert forall i :: 0 <= i < |pod.initContainers| ==>
      Requests()(pod.initContainers[i]) == pod.initContainers[i].requests;
  }

  lemma LargestNonNegative(cs: seq<Container>, select: Selector, n: Name)
    requires NonNegative(cs, select)
    ensures Value(Largest(cs, select, n)) >= 0
  {
    LargestIsLeastUpperBound(cs, select, n);
  }

  /** The quota plugin and Trimaran agree on processor time and memory for every pod, overhead included; on every
      other dimension that the framework raises exactly where no init container asks for more than the containers
      together. */
  lemma TrimaranAgreesExactly(pod: PodSpec, d: Dim)
    ensures d == Cpu || d == Memory || d == PodNumber ==>
      TrimaranResource(pod, Requests(), d) == CapacityRequest(pod, d)
    ensures d != Cpu && d != Memory && d != PodNumber ==>
      (TrimaranResource(pod, Requests(), d) == CapacityRequest(pod, d) <==> InitsWithinTotal(pod, Known(d)))
  {
    var inits := pod.initContainers;
    LargestIsLeastUpperBound(inits, Requests(), Known(d));
    assert forall i :: 0 <= i < |inits| ==> Requests()(inits[i]) == inits[i].requests;
  }

  ghost predicate InitsWithinTotal(pod: PodSpec, n: Name) {
    forall i :: 0 <= i < |pod.initContainers| && n in pod.initContainers[i].requests ==>
      pod.initContainers[i].requests[n] <= Value(Total(pod.containers, Requests(), n))
  }

  // ----- In whatever order -----

  lemma FoldsStep(cs: seq<Container>, c: Container, select: Selector, n: Name)
    ensures Total(cs + [c], select, n) == Added(Total(cs, select, n), Quantity(select(c), n))
    ensures Largest(cs + [c], select, n) == Larger(Largest(cs, select, n), Quantity(select(c), n))
  {
    assert (cs + [c])[..|cs|] == cs;
  }

  lemma Swaps(x: Option<int>, y: Option<int>, z: Option<int>)
    ensures Added(Added(x, y), z) == Added(Added(x, z), y)
    ensures Larger(Larger(x, y), z) == Larger(Larger(x, z), y)
  {
  }

  /** Any container can be taken out and folded in last. */
  lemma {:induction false} FoldsWithout(before: seq<Container>, c: Container, after: seq<Container>,
                                        select: Selector, n: Name)
    ensures Total(before + [c] + after, select, n) == Added(Total(before + after, select, n), Quantity(select(c), n))
    ensures Largest(before + [c] + after, select, n) ==
      Larger(Largest(before + after, select, n), Quantity(select(c), n))
    decreases after
  {
    hide Total, Largest, Added, Larger, Quantity;
    if after == [] {
      assert before + [c] + after == before + [c] && before + after == before;
      FoldsStep(before, c, select, n);
    } else {
      var initial, d := after[..|after| - 1], after[|after| - 1];
      assert before + [c] + after == (before + [c] + initial) + [d];
      assert before + after == (before + initial) + [d];
      FoldsWithout(before, c, initial, select, n);
      FoldsStep(before + [c] + initial, d, select, n);
      FoldsStep(before + initial, d, select, n);
      var last := Quantity(select(d), n);
      Swaps(Total(before + initial, select, n), Quantity(select(c), n), last);
      Swaps(Largest(before + initial, select, n), Quantity(select(c), n), last);
    }
  }

  lemma FindIn(c: Container, cs: seq<Container>) returns (before: seq<Container>, after: seq<Container>)
    requires c in multiset(cs)
    ensures cs == before + [c] + after
    ensures multiset(before + after) == multiset(cs) - multiset{c}
  {
    var k :| 0 <= k < |cs| && cs[k] == c;
    before, after := cs[..k], cs[k + 1..];
    assert cs == before + [c] + after;
    assert multiset(before + [c] + after) == multiset(before) + multiset{c} + multiset(after);
  }

  /** Reordering containers changes neither fold, hence none of the four results. */
  lemma {:induction false} OrderDoesNotMatter(cs: seq<Container>, ds: seq<Container>, select: Selector, n: Name)
    requires multiset(cs) == multiset(ds)
    ensures Total(cs, select, n) == Total(ds, select, n) && Largest(cs, select, n) == Largest(ds, select, n)
    decreases |cs|
  {
    hide Total, Largest, Added, Larger, Quantity;
    assert |multiset(cs)| == |cs| && |multiset(ds)| == |ds|;
    if cs == [] {
      assert cs == ds;
    } else {
      var initial, c := cs[..|cs| - 1], cs[|cs| - 1];
      assert cs == initial + [c];
      assert multiset(initial) == multiset(cs) - multiset{c};
      var before, after := FindIn(c, ds);
      OrderDoesNotMatter(initial, before + after, select, n);
      FoldsStep(initial, c, select, n);
      FoldsWithout(before, c, after, select, n);
    }
  }

  /** Concretely: with overhead the controller accounts for less than the quota plugin charged. */
  lemma OverheadIsLost(pod: PodSpec)
    requires pod == PodSpec([], [], Some(map[Known(Cpu) := 250]))
    ensures CapacityRequest(pod, Cpu) == 250 && Value(Listed(pod, Known(Cpu))) == 0
  {
    assert OverheadOf(pod, Known(Cpu)) == 250;
  }
}
