/** NUMA nodes of a worker node, and taking container requests off them. */
module NumaNodes {

  type ResourceList = map<string, int>

  datatype QoS = Guaranteed | Burstable | BestEffort

  /** A NUMA node: its ID, its available resources and its distances to other NUMA nodes. */
  datatype NUMANode = NUMANode(id: nat, resources: ResourceList, costs: map<int, int>)

  /** IDs of NUMA nodes are below this bound. */
  const MAX_NUMA_ID: nat := 64

  /** The number of NUMA nodes that the plugin supports. */
  const HIGHEST_NUMA_ID: nat := 8

  function At(r: ResourceList, name: string): int {
    if name in r then r[name] else 0
  }

  predicate IsHugePage(name: string) {
    "hugepages-" <= name
  }

  predicate Contains(s: string, sub: string) {
    exists i :: 0 <= i <= |s| - |sub| && s[i..][..|sub|] == sub
  }

  /** A string contains another exactly when it is something, that one, and something. */
  lemma ContainsExactly(s: string, sub: string)
    ensures Contains(s, sub) <==> exists a: string, b: string :: s == a + sub + b
  {
    if Contains(s, sub) {
      var i :| 0 <= i <= |s| - |sub| && s[i..][..|sub|] == sub;
      assert s == s[..i] + sub + s[i + |sub|..];
    }
    if a: string, b: string :| s == a + sub + b {
      assert s[|a|..][..|sub|] == sub;
    }
  }

  predicate IsNative(name: string) {
    '/' !in name || Contains(name, "kubernetes.io/")
  }

  /** Whether `available` of a resource is enough for `quantity`: only Guaranteed pods need exclusive CPU and
      memory, for all other resources the amount counts. */
  predicate IsResourceSetSuitable(qos: QoS, name: string, quantity: int, available: int) {
    (qos != Guaranteed && (name == "memory" || IsHugePage(name) || name == "cpu")) || available >= quantity
  }

  ghost predicate NonNegative(nodes: seq<NUMANode>) {
    forall j, r :: 0 <= j < |nodes| && r in nodes[j].resources ==> 0 <= nodes[j].resources[r]
  }

  ghost predicate NonNegativeList(r: ResourceList) {
    forall n :: n in r ==> 0 <= r[n]
  }

  /** What the nodes hold of a resource together. */
  function Total(nodes: seq<NUMANode>, name: string): int {
    if nodes == [] then 0 else Total(nodes[..|nodes| - 1], name) + At(nodes[|nodes| - 1].resources, name)
  }

  predicate InRange(nodes: seq<NUMANode>, listed: seq<nat>) {
    forall k :: 0 <= k < |listed| ==> listed[k] < |nodes|
  }

  /** What the listed nodes hold of a resource together. */
  function OnListed(nodes: seq<NUMANode>, listed: seq<nat>, name: string): int
    requires InRange(nodes, listed)
  {
    if listed == [] then 0 else
      OnListed(nodes, listed[..|listed| - 1], name) + At(nodes[listed[|listed| - 1]].resources, name)
  }

  ghost predicate Indices(nodes: seq<NUMANode>, listed: seq<nat>) {
    && InRange(nodes, listed)
    && (forall a, b :: 0 <= a < b < |listed| ==> listed[a] != listed[b])
  }

  /** Same nodes, same kinds of resources. */
  ghost predicate SameShape(a: seq<NUMANode>, b: seq<NUMANode>) {
    && |a| == |b|
    && forall j :: 0 <= j < |a| ==>
         a[j].id == b[j].id && a[j].costs == b[j].costs && a[j].resources.Keys == b[j].resources.Keys
  }

  function Put(node: NUMANode, name: string, v: int): NUMANode {
    node.(resources := node.resources[name := v])
  }

  lemma {:induction false} TotalAfterPut(nodes: seq<NUMANode>, j: nat, name: string, v: int, other: string)
    requires j < |nodes|
    ensures Total(nodes[j := Put(nodes[j], name, v)], other)
         == Total(nodes, other) + if other == name then v - At(nodes[j].resources, name) else 0
  {
    var after := nodes[j := Put(nodes[j], name, v)];
    if j == |nodes| - 1 {
      assert after[..j] == nodes[..j];
    } else {
      TotalAfterPut(nodes[..|nodes| - 1], j, name, v, other);
      assert after[..|nodes| - 1] == nodes[..|nodes| - 1][j := Put(nodes[j], name, v)];
    }
  }

  /** Changing nodes outside the list does not change what the listed nodes hold. */
  lemma {:induction false} OnListedFrame(a: seq<NUMANode>, b: seq<NUMANode>, listed: seq<nat>, name: string)
    requires |a| == |b| && InRange(a, listed)
    requires forall k :: 0 <= k < |listed| ==> At(a[listed[k]].resources, name) == At(b[listed[k]].resources, name)
    ensures OnListed(a, listed, name) == OnListed(b, listed, name)
  {
    if listed != [] {
      OnListedFrame(a, b, listed[..|listed| - 1], name);
    }
  }

  function Max0(x: int): int { if x < 0 then 0 else x }

  function Min(x: int, y: int): int { if x < y then x else y }

  lemma {:induction false} OnListedNonNegative(nodes: seq<NUMANode>, listed: seq<nat>, name: string)
    requires NonNegative(nodes) && InRange(nodes, listed)
    ensures 0 <= OnListed(nodes, listed, name)
  {
    if listed != [] {
      OnListedNonNegative(nodes, listed[..|listed| - 1], name);
    }
  }

  /** The totals differ by what was taken: `taken` of resource `name`, nothing of any other. */
  ghost predicate Taken(before: seq<NUMANode>, after: seq<NUMANode>, name: string, taken: int) {
    && SameShape(before, after)
    && (forall r :: Total(after, r) == Total(before, r) - if r == name then taken else 0)
    && (forall j, r :: 0 <= j < |before| && r != name ==> At(after[j].resources, r) == At(before[j].resources, r))
  }

  lemma TakenTrans(a: seq<NUMANode>, b: seq<NUMANode>, c: seq<NUMANode>, name: string, x: int, y: int)
    requires Taken(a, b, name, x) && Taken(b, c, name, y)
    ensures Taken(a, c, name, x + y)
  {
  }

  lemma TakenOne(nodes: seq<NUMANode>, i: nat, name: string, left: int)
    requires i < |nodes| && name in nodes[i].resources
    ensures Taken(nodes, nodes[i := Put(nodes[i], name, left)], name, nodes[i].resources[name] - left)
  {
    forall r ensures Total(nodes[i := Put(nodes[i], name, left)], r)
                  == Total(nodes, r) - if r == name then nodes[i].resources[name] - left else 0 {
      TotalAfterPut(nodes, i, name, left, r);
    }
  }

  lemma TakenNone(nodes: seq<NUMANode>, name: string)
    ensures Taken(nodes, nodes, name, 0)
  {
  }

  /** What the `k`-th listed node keeps when the nodes give in list order, each all it has until the request
      is met. */
  ghost function Kept(before: seq<NUMANode>, listed: seq<nat>, k: nat, name: string, request: int): int
    requires InRange(before, listed) && k < |listed|
  {
    Max0(At(before[listed[k]].resources, name) - Max0(request - OnListed(before, listed[..k], name)))
  }

  /** The first `n` listed nodes have given in list order. */
  ghost predicate GaveInOrder(before: seq<NUMANode>, after: seq<NUMANode>, listed: seq<nat>, n: nat,
                              name: string, request: int)
    requires InRange(before, listed) && |after| == |before| && n <= |listed|
  {
    forall k :: 0 <= k < n ==> At(after[listed[k]].resources, name) == Kept(before, listed, k, name, request)
  }

  lemma GaveStep(before: seq<NUMANode>, now: seq<NUMANode>, after: seq<NUMANode>, listed: seq<nat>, k: nat,
                 name: string, request: int)
    requires Indices(before, listed) && |now| == |after| == |before| && k < |listed|
    requires GaveInOrder(before, now, listed, k, name, request)
    requires forall j :: 0 <= j < |after| && j != listed[k] ==> after[j] == now[j]
    requires At(after[listed[k]].resources, name) == Kept(before, listed, k, name, request)
    ensures GaveInOrder(before, after, listed, k + 1, name, request)
  {
    hide Kept, At;
  }

  lemma KeptFrame(a: seq<NUMANode>, b: seq<NUMANode>, after: seq<NUMANode>, listed: seq<nat>, name: string,
                  request: int)
    requires |a| == |b| == |after| && InRange(a, listed)
    requires forall j :: 0 <= j < |a| ==> At(a[j].resources, name) == At(b[j].resources, name)
    requires GaveInOrder(a, after, listed, |listed|, name, request)
    ensures GaveInOrder(b, after, listed, |listed|, name, request)
  {
    forall k | 0 <= k < |listed| ensures Kept(b, listed, k, name, request) == Kept(a, listed, k, name, request) {
      OnListedFrame(a, b, listed[..k], name);
    }
  }

  /** Asking for nothing takes nothing. */
  lemma NothingGiven(nodes: seq<NUMANode>, listed: seq<nat>, name: string)
    requires NonNegative(nodes) && InRange(nodes, listed)
    ensures GaveInOrder(nodes, nodes, listed, |listed|, name, 0)
    ensures Min(0, OnListed(nodes, listed, name)) == 0
  {
    OnListedNonNegative(nodes, listed, name);
    forall k | 0 <= k < |listed| ensures At(nodes[listed[k]].resources, name) == Kept(nodes, listed, k, name, 0) {
      OnListedNonNegative(nodes, listed[..k], name);
      OnListedNonNegative(nodes, [listed[k]], name);
    }
  }

  lemma GaveSame(before: seq<NUMANode>, now: seq<NUMANode>, after: seq<NUMANode>, listed: seq<nat>,
                 name: string, request: int)
    requires |now| == |after| == |before| && InRange(before, listed)
    requires GaveInOrder(before, now, listed, |listed|, name, request)
    requires forall j :: 0 <= j < |now| ==> At(after[j].resources, name) == At(now[j].resources, name)
    ensures GaveInOrder(before, after, listed, |listed|, name, request)
  {
    hide Kept, At;
  }

  /** Only the listed nodes may have changed. */
  ghost predicate Untouched(before: seq<NUMANode>, after: seq<NUMANode>, listed: seq<nat>) {
    |after| == |before| && forall j :: 0 <= j < |before| && j !in listed ==> after[j] == before[j]
  }

  /** One node gives what it has, at most what is missing. */
  method DrainNode(nodes: array<NUMANode>, i: nat, name: string, missing: int) returns (rest: int)
    requires 0 <= missing && i < nodes.Length && NonNegative(nodes[..])
    modifies nodes
    ensures rest == Max0(missing - At(old(nodes[..])[i].resources, name))
    ensures At(nodes[..][i].resources, name) == Max0(At(old(nodes[..])[i].resources, name) - missing)
    ensures NonNegative(nodes[..]) && Taken(old(nodes[..]), nodes[..], name, missing - rest)
    ensures Untouched(old(nodes[..]), nodes[..], [i])
  {
    rest := missing;
    TakenNone(nodes[..], name);
    if missing != 0 && name in nodes[i].resources {
      var available := nodes[i].resources[name];
      var left := if missing >= available then 0 else available - missing;
      TakenOne(nodes[..], i, name, left);
      ghost var now := nodes[..];
      nodes[i] := Put(nodes[i], name, left);
      assert nodes[..] == now[i := Put(now[i], name, left)];
      rest := if missing >= available then missing - available else 0;
    }
  }

  lemma MissingStep(nodes: seq<NUMANode>, listed: seq<nat>, k: nat, name: string, request: int)
    requires NonNegative(nodes) && InRange(nodes, listed) && k < |listed|
    ensures InRange(nodes, listed[..k]) && InRange(nodes, listed[..k + 1])
    ensures var missing := Max0(request - OnListed(nodes, listed[..k], name));
            && Max0(missing - At(nodes[listed[k]].resources, name))
               == Max0(request - OnListed(nodes, listed[..k + 1], name))
            && Kept(nodes, listed, k, name, request) == Max0(At(nodes[listed[k]].resources, name) - missing)
  {
    assert listed[..k + 1][..k] == listed[..k];
    OnListedNonNegative(nodes, [listed[k]], name);
  }

  /** The first `k` listed nodes have given of the resource, and `missing` of the request is left. */
  ghost predicate GivenBy(before: seq<NUMANode>, after: seq<NUMANode>, listed: seq<nat>, k: nat, name: string,
                          request: int, missing: int)
    requires InRange(before, listed) && k <= |listed|
  {
    && NonNegative(after) && Untouched(before, after, listed[..k])
    && missing == Max0(request - OnListed(before, listed[..k], name))
    && Taken(before, after, name, request - missing)
    && GaveInOrder(before, after, listed, k, name, request)
  }

  lemma GivenByNone(nodes: seq<NUMANode>, listed: seq<nat>, name: string, request: int)
    requires 0 <= request && NonNegative(nodes) && InRange(nodes, listed)
    ensures GivenBy(nodes, nodes, listed, 0, name, request, request)
  {
  }

  lemma GivenByNext(before: seq<NUMANode>, now: seq<NUMANode>, after: seq<NUMANode>, listed: seq<nat>, k: nat,
                    name: string, request: int, missing: int, rest: int)
    requires Indices(before, listed) && k < |listed| && NonNegative(before)
    requires GivenBy(before, now, listed, k, name, request, missing)
    requires |now| == |before| && NonNegative(after) && Untouched(now, after, [listed[k]])
    requires rest == Max0(missing - At(now[listed[k]].resources, name))
    requires At(after[listed[k]].resources, name) == Max0(At(now[listed[k]].resources, name) - missing)
    requires Taken(now, after, name, missing - rest)
    ensures GivenBy(before, after, listed, k + 1, name, request, rest)
  {
    hide Taken, NonNegative, GaveInOrder, Kept, At, OnListed;
    assert listed[k] !in listed[..k];
    MissingStep(before, listed, k, name, request);
    TakenTrans(before, now, after, name, request - missing, missing - rest);
    GaveStep(before, now, after, listed, k, name, request);
    assert listed[..k + 1] == listed[..k] + [listed[k]];
  }

  /** Takes one resource off the listed nodes in order, each giving what it has until nothing is missing. */
  method DrainResource(nodes: array<NUMANode>, name: string, request: int, listed: seq<nat>) returns (missing: int)
    requires 0 <= request && Indices(nodes[..], listed) && NonNegative(nodes[..])
    modifies nodes
    ensures GivenBy(old(nodes[..]), nodes[..], listed, |listed|, name, request, missing)
  {
    ghost var before := nodes[..];
    GivenByNone(before, listed, name, request);
    missing := request;
    assert 0 <= missing;
    for k := 0 to |listed|
      invariant 0 <= missing && NonNegative(nodes[..])
      invariant GivenBy(before, nodes[..], listed, k, name, request, missing)
    {
      assert listed[k] < nodes.Length;
      hide *;
      ghost var now := nodes[..];
      var rest := DrainNode(nodes, listed[k], name, missing);
      GivenByNext(before, now, nodes[..], listed, k, name, request, missing, rest);
      Max0NonNegative(missing - At(now[listed[k]].resources, name));
      missing := rest;
    }
  }

  lemma Max0NonNegative(x: int)
    ensures 0 <= Max0(x)
  {
  }

  /** What is taken of every resource: the request where it is met, otherwise all that the list holds. */
  ghost predicate Drained(before: seq<NUMANode>, after: seq<NUMANode>, request: ResourceList, listed: seq<nat>)
    requires InRange(before, listed)
  {
    && SameShape(before, after) && NonNegative(after)
    && (forall r :: Total(after, r) == Total(before, r) - Min(At(request, r), OnListed(before, listed, r)))
    && (forall r :: GaveInOrder(before, after, listed, |listed|, r, At(request, r)))
    && Untouched(before, after, listed)
  }

  /** Part way through: the resources in `todo` are untouched, the others are drained. */
  ghost predicate PartlyDrained(before: seq<NUMANode>, after: seq<NUMANode>, request: ResourceList,
                                listed: seq<nat>, todo: set<string>)
    requires InRange(before, listed)
  {
    && SameShape(before, after)
    && (forall r :: Total(after, r)
          == Total(before, r) - if r in todo then 0 else Min(At(request, r), OnListed(before, listed, r)))
    && (forall r :: r in todo || GaveInOrder(before, after, listed, |listed|, r, At(request, r)))
    && (forall j, r :: 0 <= j < |before| && r in todo ==> At(after[j].resources, r) == At(before[j].resources, r))
  }

  lemma PartlyDrainedStep(before: seq<NUMANode>, now: seq<NUMANode>, after: seq<NUMANode>, request: ResourceList,
                          listed: seq<nat>, todo: set<string>, r: string, missing: int)
    requires NonNegative(before) && NonNegativeList(request) && InRange(before, listed)
    requires PartlyDrained(before, now, request, listed, todo) && r in todo && r in request
    requires Untouched(before, now, listed)
    requires |now| == |before| && InRange(now, listed)
    requires GivenBy(now, after, listed, |listed|, r, request[r], missing)
    ensures PartlyDrained(before, after, request, listed, todo - {r})
    ensures NonNegative(after) && Untouched(before, after, listed)
  {
    hide GaveInOrder, OnListed, Total;
    assert listed[..|listed|] == listed;
    OnListedFrame(now, before, listed, r);
    OnListedNonNegative(before, listed, r);
    KeptFrame(now, before, after, listed, r, request[r]);
    forall q | q !in todo ensures GaveInOrder(before, after, listed, |listed|, q, At(request, q)) {
      GaveSame(before, now, after, listed, q, At(request, q));
    }
  }

  /** subtractFromNUMAs: takes a container's request off the listed NUMA nodes, resource by resource in any
      order. Of every resource the smaller of the request and the listed nodes' holdings goes; nothing becomes
      negative; other nodes are untouched. */
  method SubtractFromNUMAs(request: ResourceList, nodes: array<NUMANode>, listed: seq<nat>)
    requires NonNegativeList(request) && Indices(nodes[..], listed) && NonNegative(nodes[..])
    modifies nodes
    ensures Drained(old(nodes[..]), nodes[..], request, listed)
  {
    ghost var before := nodes[..];
    hide *;
    PartlyStart(before, request, listed);
    var todo := request.Keys;
    while todo != {}
      invariant todo <= request.Keys && NonNegative(nodes[..])
      invariant PartlyDrained(before, nodes[..], request, listed, todo) && Untouched(before, nodes[..], listed)
    {
      var r :| r in todo;
      ghost var now := nodes[..];
      PartlySame(before, now, request, listed, todo, r);
      var missing := DrainResource(nodes, r, request[r], listed);
      PartlyDrainedStep(before, now, nodes[..], request, listed, todo, r, missing);
      todo := todo - {r};
    }
    PartlyDone(before, nodes[..], request, listed);
  }

  lemma PartlyStart(nodes: seq<NUMANode>, request: ResourceList, listed: seq<nat>)
    requires NonNegative(nodes) && InRange(nodes, listed)
    ensures PartlyDrained(nodes, nodes, request, listed, request.Keys) && Untouched(nodes, nodes, listed)
  {
    hide GaveInOrder, OnListed, Total;
    forall r | r !in request
      ensures Min(0, OnListed(nodes, listed, r)) == 0 && GaveInOrder(nodes, nodes, listed, |listed|, r, 0)
    {
      NothingGiven(nodes, listed, r);
    }
  }

  lemma PartlySame(before: seq<NUMANode>, now: seq<NUMANode>, request: ResourceList, listed: seq<nat>,
                   todo: set<string>, r: string)
    requires Indices(before, listed) && PartlyDrained(before, now, request, listed, todo) && r in todo
    requires NonNegativeList(request) && r in request
    ensures 0 <= request[r] && |now| == |before| && InRange(now, listed) && Indices(now, listed)
  {
  }

  lemma PartlyDone(before: seq<NUMANode>, after: seq<NUMANode>, request: ResourceList, listed: seq<nat>)
    requires InRange(before, listed) && PartlyDrained(before, after, request, listed, {})
    requires NonNegative(after) && Untouched(before, after, listed)
    ensures Drained(before, after, request, listed)
  {
  }
}
