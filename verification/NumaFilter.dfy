/** The single-NUMA-node filter: which NUMA node, if any, can host a request alone, and the greedy placement
    of a pod's containers. */
module NumaFilter {
  import opened NumaNodes

  datatype Fit = NoFit | On(id: nat)

  ghost predicate ValidIds(nodes: seq<NUMANode>) {
    forall j :: 0 <= j < |nodes| ==> nodes[j].id < MAX_NUMA_ID
  }

  ghost predicate DistinctIds(nodes: seq<NUMANode>) {
    forall i, j :: 0 <= i < j < |nodes| ==> nodes[i].id != nodes[j].id
  }

  predicate Reported(nodes: seq<NUMANode>, name: string) {
    exists j :: 0 <= j < |nodes| && name in nodes[j].resources
  }

  /** A requested resource restricts the choice of node, unless it is requested with quantity 0 or is a
      resource without NUMA affinity. */
  predicate Restricts(nodes: seq<NUMANode>, request: ResourceList, name: string) {
    && name in request && request[name] != 0
    && (Reported(nodes, name) || (IsNative(name) && name != "ephemeral-storage"))
  }

  /** The node at position `j` reports enough of the resource. */
  predicate Offers(nodes: seq<NUMANode>, qos: QoS, name: string, quantity: int, j: nat)
    requires j < |nodes|
  {
    name in nodes[j].resources && IsResourceSetSuitable(qos, name, quantity, nodes[j].resources[name])
  }

  predicate HasSlot(nodes: seq<NUMANode>, qos: QoS, name: string, quantity: int, id: nat) {
    exists j :: 0 <= j < |nodes| && nodes[j].id == id && Offers(nodes, qos, name, quantity, j)
  }

  /** A NUMA ID that no restricting resource rules out. */
  ghost predicate Feasible(nodes: seq<NUMANode>, qos: QoS, request: ResourceList, id: nat) {
    id < MAX_NUMA_ID && forall name :: Restricts(nodes, request, name) ==> HasSlot(nodes, qos, name, request[name], id)
  }

  /** Everything requested exists on the worker node at all. */
  ghost predicate KnownToNode(request: ResourceList, allocatable: ResourceList) {
    forall name :: name in request && request[name] != 0 ==> name in allocatable
  }

  /** `id` is the lowest feasible NUMA ID. */
  ghost predicate LowestFeasible(nodes: seq<NUMANode>, qos: QoS, request: ResourceList, id: nat) {
    Feasible(nodes, qos, request, id) && forall i :: Feasible(nodes, qos, request, i) ==> id <= i
  }

  /** A bit mask with all bits set. */
  method FilledBitmask() returns (mask: set<nat>)
    ensures mask != {} && forall i: nat :: i in mask <==> i < MAX_NUMA_ID
  {
    mask := {};
    for i := 0 to MAX_NUMA_ID
      invariant forall k: nat :: k in mask <==> k < i
    {
      mask := mask + {i};
    }
    assert 0 in mask;
  }

  /** The first of the bits that are set. */
  method LowestBit(mask: set<nat>) returns (bit: nat)
    requires mask != {}
    ensures bit in mask && forall i :: i in mask ==> bit <= i
  {
    bit := 0;
    ghost var some :| some in mask;
    while bit !in mask
      invariant bit <= some
      invariant forall i :: i in mask ==> bit <= i
      decreases some - bit
    {
      bit := bit + 1;
    }
  }

  /** Bits of the mask for one resource. */
  method ResourceBitmask(nodes: seq<NUMANode>, qos: QoS, name: string, quantity: int)
    returns (hasAffinity: bool, mask: set<nat>)
    requires ValidIds(nodes)
    ensures hasAffinity == Reported(nodes, name)
    ensures forall i :: i in mask <==> HasSlot(nodes, qos, name, quantity, i)
  {
    hasAffinity, mask := false, {};
    for j := 0 to |nodes|
      invariant hasAffinity == exists k :: 0 <= k < j && name in nodes[k].resources
      invariant forall i :: i in mask <==>
        exists k :: 0 <= k < j && nodes[k].id == i && Offers(nodes, qos, name, quantity, k)
    {
      if name in nodes[j].resources {
        hasAffinity := true;
        if IsResourceSetSuitable(qos, name, quantity, nodes[j].resources[name]) {
          mask := mask + {nodes[j].id};
          assert Offers(nodes, qos, name, quantity, j);
        }
      }
    }
  }

  /** The verdict and the chosen NUMA ID do not depend on the order in which the requested resources are
      looked at: a match is found exactly when the worker node knows everything requested and some NUMA ID is
      feasible, and then it is the lowest one. */
  method ResourcesAvailableInAnyNUMANodes(nodes: seq<NUMANode>, request: ResourceList, qos: QoS,
                                          allocatable: ResourceList)
    returns (numaID: nat, found: bool)
    requires ValidIds(nodes)
    ensures found <==> KnownToNode(request, allocatable) && exists i :: Feasible(nodes, qos, request, i)
    ensures if found then LowestFeasible(nodes, qos, request, numaID) else numaID == HIGHEST_NUMA_ID
  {
    numaID := HIGHEST_NUMA_ID;
    var bitmask := FilledBitmask();
    var todo := request.Keys;
    while todo != {}
      invariant todo <= request.Keys && bitmask != {}
      invariant forall name :: name in request && name !in todo && request[name] != 0 ==> name in allocatable
      invariant forall i :: i in bitmask <==> PartlyFeasible(nodes, qos, request, todo, i)
    {
      var name :| name in todo;
      ghost var before := todo;
      todo := todo - {name};
      if request[name] != 0 {
        if name !in allocatable {
          return numaID, false;
        }
        var hasAffinity, mask := ResourceBitmask(nodes, qos, name, request[name]);
        PartlyStep(nodes, qos, request, before, name);
        if hasAffinity || (IsNative(name) && name != "ephemeral-storage") {
          bitmask := bitmask * mask;
          if bitmask == {} {
            forall i ensures !Feasible(nodes, qos, request, i) {
              assert i !in bitmask;
              PartlyWeaker(nodes, qos, request, todo, i);
            }
            return numaID, false;
          }
        }
      } else {
        PartlyStep(nodes, qos, request, before, name);
      }
    }
    forall i ensures i in bitmask <==> Feasible(nodes, qos, request, i) {
    }
    numaID := LowestBit(bitmask);
    found := true;
  }

  /** Feasible as far as the resources outside `todo` are concerned. */
  ghost predicate PartlyFeasible(nodes: seq<NUMANode>, qos: QoS, request: ResourceList, todo: set<string>, id: nat) {
    id < MAX_NUMA_ID && forall name :: Restricts(nodes, request, name) && name !in todo
                                       ==> HasSlot(nodes, qos, name, request[name], id)
  }

  lemma PartlyStep(nodes: seq<NUMANode>, qos: QoS, request: ResourceList, todo: set<string>, name: string)
    requires name in todo && name in request
    ensures forall i :: PartlyFeasible(nodes, qos, request, todo - {name}, i) <==>
              PartlyFeasible(nodes, qos, request, todo, i) &&
              (Restricts(nodes, request, name) ==> HasSlot(nodes, qos, name, request[name], i))
  {
    hide Restricts, HasSlot;
  }

  lemma PartlyWeaker(nodes: seq<NUMANode>, qos: QoS, request: ResourceList, todo: set<string>, id: nat)
    requires !PartlyFeasible(nodes, qos, request, todo, id)
    ensures !Feasible(nodes, qos, request, id)
  {
    hide Restricts, HasSlot;
  }

  // ----- More availability never hurts a request that is placed as a whole -----

  /** The same nodes with at least as much of everything. */
  ghost predicate AtLeast(more: seq<NUMANode>, less: seq<NUMANode>) {
    && |more| == |less|
    && forall j :: 0 <= j < |less| ==>
         && more[j].id == less[j].id && more[j].resources.Keys == less[j].resources.Keys
         && forall r :: r in less[j].resources ==> less[j].resources[r] <= more[j].resources[r]
  }

  lemma FeasibleMonotone(less: seq<NUMANode>, more: seq<NUMANode>, qos: QoS, request: ResourceList, id: nat)
    requires AtLeast(more, less) && Feasible(less, qos, request, id)
    ensures Feasible(more, qos, request, id)
  {
    forall name | Restricts(more, request, name) ensures HasSlot(more, qos, name, request[name], id) {
      assert Reported(more, name) ==> Reported(less, name) by {
        if j :| 0 <= j < |more| && name in more[j].resources {
          assert name in less[j].resources;
        }
      }
      assert HasSlot(less, qos, name, request[name], id);
      var j :| 0 <= j < |less| && less[j].id == id && Offers(less, qos, name, request[name], j);
      assert Offers(more, qos, name, request[name], j);
    }
  }

  /** Pod-level acceptance: the pod's effective request fits one NUMA node. */
  ghost predicate PodAccepted(nodes: seq<NUMANode>, qos: QoS, request: ResourceList, allocatable: ResourceList) {
    KnownToNode(request, allocatable) && exists i :: Feasible(nodes, qos, request, i)
  }

  method SingleNUMAPodLevelHandler(nodes: seq<NUMANode>, request: ResourceList, qos: QoS, allocatable: ResourceList)
    returns (accepted: bool)
    requires ValidIds(nodes)
    ensures accepted == PodAccepted(nodes, qos, request, allocatable)
  {
    var _, found := ResourcesAvailableInAnyNUMANodes(nodes, request, qos, allocatable);
    accepted := found;
  }

  /** A pod accepted on some data is accepted on data with more availability. */
  lemma PodAcceptanceMonotone(less: seq<NUMANode>, more: seq<NUMANode>, qos: QoS, request: ResourceList,
                              allocatable: ResourceList)
    requires AtLeast(more, less) && PodAccepted(less, qos, request, allocatable)
    ensures PodAccepted(more, qos, request, allocatable)
  {
    var i :| Feasible(less, qos, request, i);
    FeasibleMonotone(less, more, qos, request, i);
  }

  // ----- Greedy placement of containers -----

  function SubtractList(from: ResourceList, request: ResourceList): ResourceList {
    map n | n in from.Keys + request.Keys :: At(from, n) - At(request, n)
  }

  /** The request taken off the node with the given ID. */
  function Subtract(nodes: seq<NUMANode>, id: nat, request: ResourceList): seq<NUMANode> {
    seq(|nodes|, j requires 0 <= j < |nodes| =>
      if nodes[j].id == id then nodes[j].(resources := SubtractList(nodes[j].resources, request)) else nodes[j])
  }

  method SubtractFromNUMA(nodes: array<NUMANode>, numaID: nat, request: ResourceList)
    modifies nodes
    ensures nodes[..] == Subtract(old(nodes[..]), numaID, request)
  {
    ghost var before := nodes[..];
    for i := 0 to nodes.Length
      invariant forall j :: 0 <= j < i ==> nodes[j] == Subtract(before, numaID, request)[j]
      invariant forall j :: i <= j < nodes.Length ==> nodes[j] == before[j]
    {
      if nodes[i].id == numaID {
        var resources := nodes[i].resources;
        var todo := request.Keys;
        while todo != {}
          invariant todo <= request.Keys
          invariant resources.Keys == before[i].resources.Keys + (request.Keys - todo)
          invariant forall n :: n in resources ==>
            resources[n] == At(before[i].resources, n) - if n in todo then 0 else At(request, n)
        {
          var name :| name in todo;
          resources := resources[name := At(resources, name) - request[name]];
          todo := todo - {name};
        }
        assert resources == SubtractList(before[i].resources, request);
        nodes[i] := nodes[i].(resources := resources);
      }
    }
  }

  /** Containers placed so far, each on the lowest NUMA node feasible at its turn. */
  datatype Placement = Rejected | Placed(nodes: seq<NUMANode>, ids: seq<nat>)

  ghost function PlaceOne(p: Placement, qos: QoS, request: ResourceList, allocatable: ResourceList): Placement {
    if p.Rejected? || !PodAccepted(p.nodes, qos, request, allocatable) then Rejected
    else
      LowestExists(p.nodes, qos, request);
      var id :| LowestFeasible(p.nodes, qos, request, id);
      Placed(Subtract(p.nodes, id, request), p.ids + [id])
  }

  ghost function Place(nodes: seq<NUMANode>, qos: QoS, requests: seq<ResourceList>, allocatable: ResourceList)
    : Placement
  {
    if requests == [] then Placed(nodes, []) else
      PlaceOne(Place(nodes, qos, requests[..|requests| - 1], allocatable), qos, requests[|requests| - 1], allocatable)
  }

  lemma LowestExists(nodes: seq<NUMANode>, qos: QoS, request: ResourceList)
    requires exists i :: Feasible(nodes, qos, request, i)
    ensures exists i :: LowestFeasible(nodes, qos, request, i)
  {
    hide Feasible;
    var i: nat :| Feasible(nodes, qos, request, i);
    var low := LowestFrom(nodes, qos, request, i);
  }

  lemma LowestFrom(nodes: seq<NUMANode>, qos: QoS, request: ResourceList, i: nat) returns (low: nat)
    requires Feasible(nodes, qos, request, i)
    ensures LowestFeasible(nodes, qos, request, low)
    decreases i
  {
    hide Feasible;
    if j: nat :| j < i && Feasible(nodes, qos, request, j) {
      low := LowestFrom(nodes, qos, request, j);
    } else {
      low := i;
    }
  }

  /** Every container gets its place or the pod is rejected; init containers only need to fit on their own. */
  method SingleNUMAContainerLevelHandler(nodes: array<NUMANode>, qos: QoS, initRequests: seq<ResourceList>,
                                         requests: seq<ResourceList>, allocatable: ResourceList)
    returns (accepted: bool)
    requires ValidIds(nodes[..])
    modifies nodes
    ensures accepted <==>
              && (forall k :: 0 <= k < |initRequests| ==>
                    PodAccepted(old(nodes[..]), qos, initRequests[k], allocatable))
              && Place(old(nodes[..]), qos, requests, allocatable).Placed?
    ensures accepted ==> nodes[..] == Place(old(nodes[..]), qos, requests, allocatable).nodes
  {
    ghost var before := nodes[..];
    hide Feasible, KnownToNode, Subtract;
    for k := 0 to |initRequests|
      invariant nodes[..] == before
      invariant forall i :: 0 <= i < k ==> PodAccepted(before, qos, initRequests[i], allocatable)
    {
      var _, found := ResourcesAvailableInAnyNUMANodes(nodes[..], initRequests[k], qos, allocatable);
      if !found {
        assert !PodAccepted(before, qos, initRequests[k], allocatable);
        return false;
      }
    }
    for k := 0 to |requests|
      invariant ValidIds(nodes[..])
      invariant Place(before, qos, requests[..k], allocatable).Placed?
      invariant nodes[..] == Place(before, qos, requests[..k], allocatable).nodes
    {
      ghost var p := Place(before, qos, requests[..k], allocatable);
      assert requests[..k + 1][..k] == requests[..k];
      assert Place(before, qos, requests[..k + 1], allocatable) == PlaceOne(p, qos, requests[k], allocatable);
      var numaID, found := ResourcesAvailableInAnyNUMANodes(nodes[..], requests[k], qos, allocatable);
      if !found {
        RejectedStays(before, qos, requests, allocatable, k + 1);
        return false;
      }
      LowestUnique(nodes[..], qos, requests[k]);
      SubtractKeepsIds(nodes[..], numaID, requests[k]);
      SubtractFromNUMA(nodes, numaID, requests[k]);
    }
    assert requests[..|requests|] == requests;
    accepted := true;
  }

  lemma LowestUnique(nodes: seq<NUMANode>, qos: QoS, request: ResourceList)
    ensures forall i, j :: LowestFeasible(nodes, qos, request, i) && LowestFeasible(nodes, qos, request, j) ==> i == j
  {
    hide Feasible;
  }

  lemma SubtractKeepsIds(nodes: seq<NUMANode>, id: nat, request: ResourceList)
    ensures ValidIds(nodes) ==> ValidIds(Subtract(nodes, id, request))
    ensures DistinctIds(nodes) ==> DistinctIds(Subtract(nodes, id, request))
    ensures |Subtract(nodes, id, request)| == |nodes|
    ensures forall j :: 0 <= j < |nodes| ==> Subtract(nodes, id, request)[j].id == nodes[j].id
  {
  }

  lemma {:induction false} RejectedStays(nodes: seq<NUMANode>, qos: QoS, requests: seq<ResourceList>,
                                         allocatable: ResourceList, k: nat)
    requires k <= |requests| && Place(nodes, qos, requests[..k], allocatable).Rejected?
    ensures Place(nodes, qos, requests, allocatable).Rejected?
    decreases |requests|
  {
    if k == |requests| {
      assert requests[..k] == requests;
    } else {
      assert requests[..|requests| - 1][..k] == requests[..k];
      RejectedStays(nodes, qos, requests[..|requests| - 1], allocatable, k);
    }
  }

  /** What the containers placed on NUMA node `id` request of a resource together. */
  ghost function Load(requests: seq<ResourceList>, ids: seq<nat>, id: nat, r: string): int
    requires |requests| == |ids|
  {
    if ids == [] then 0 else
      Load(requests[..|ids| - 1], ids[..|ids| - 1], id, r)
      + if ids[|ids| - 1] == id then At(requests[|ids| - 1], r) else 0
  }

  /** Every resource that is really requested is reported by some NUMA node. */
  ghost predicate AllReported(nodes: seq<NUMANode>, request: ResourceList) {
    forall r :: r in request && request[r] != 0 ==> Reported(nodes, r)
  }

  /** The nodes hold what they held, minus what is placed on them, and nothing negative. */
  ghost predicate Balanced(nodes: seq<NUMANode>, after: seq<NUMANode>, requests: seq<ResourceList>, ids: seq<nat>)
    requires |requests| == |ids|
  {
    && |after| == |nodes|
    && (forall j :: 0 <= j < |nodes| ==> after[j].id == nodes[j].id)
    && (forall j, r :: 0 <= j < |nodes| ==>
          At(after[j].resources, r) == At(nodes[j].resources, r) - Load(requests, ids, nodes[j].id, r))
    && (forall j, r :: 0 <= j < |nodes| ==> 0 <= At(after[j].resources, r))
    && (forall r :: Reported(nodes, r) ==> Reported(after, r))
  }

  /** A feasible node of a Guaranteed pod has enough of everything requested. */
  lemma FeasibleHasEnough(nodes: seq<NUMANode>, request: ResourceList, id: nat, j: nat, r: string)
    requires DistinctIds(nodes) && AllReported(nodes, request) && Feasible(nodes, Guaranteed, request, id)
    requires j < |nodes| && nodes[j].id == id && At(request, r) != 0
    ensures At(nodes[j].resources, r) >= At(request, r)
  {
    assert Restricts(nodes, request, r);
    var k :| 0 <= k < |nodes| && nodes[k].id == id && Offers(nodes, Guaranteed, r, request[r], k);
    assert k == j;
  }

  lemma LoadPlus(requests: seq<ResourceList>, ids: seq<nat>, request: ResourceList, last: nat, id: nat, r: string)
    requires |requests| == |ids|
    ensures Load(requests + [request], ids + [last], id, r)
         == Load(requests, ids, id, r) + if last == id then At(request, r) else 0
  {
    assert (requests + [request])[..|ids|] == requests && (ids + [last])[..|ids|] == ids;
  }

  lemma PlaceOneBalanced(nodes: seq<NUMANode>, now: seq<NUMANode>, requests: seq<ResourceList>, ids: seq<nat>,
                         request: ResourceList, id: nat)
    requires |requests| == |ids| && Balanced(nodes, now, requests, ids) && DistinctIds(nodes)
    requires NonNegativeList(request) && AllReported(nodes, request) && Feasible(now, Guaranteed, request, id)
    ensures Balanced(nodes, Subtract(now, id, request), requests + [request], ids + [id])
  {
    var after := Subtract(now, id, request);
    SubtractKeepsIds(now, id, request);
    forall j, r | 0 <= j < |nodes|
      ensures At(after[j].resources, r)
           == At(nodes[j].resources, r) - Load(requests + [request], ids + [id], nodes[j].id, r)
      ensures 0 <= At(after[j].resources, r)
    {
      LoadPlus(requests, ids, request, id, nodes[j].id, r);
      assert At(after[j].resources, r) == At(now[j].resources, r) - if now[j].id == id then At(request, r) else 0;
      if now[j].id == id && At(request, r) != 0 {
        FeasibleHasEnough(now, request, id, j, r);
      }
    }
    forall r | Reported(nodes, r) ensures Reported(after, r) {
      var j :| 0 <= j < |now| && r in now[j].resources;
      assert r in after[j].resources;
    }
  }

  /** Greedy placement is sound: for a Guaranteed pod whose requested resources are all NUMA-reported, placing
      every container leaves on each NUMA node exactly its initial holdings minus the requests of the containers
      placed there, never less than nothing. */
  lemma {:induction false} GreedyPlacementIsSound(nodes: seq<NUMANode>, requests: seq<ResourceList>,
                                                  allocatable: ResourceList)
    requires DistinctIds(nodes) && NonNegative(nodes)
    requires forall k :: 0 <= k < |requests| ==> NonNegativeList(requests[k]) && AllReported(nodes, requests[k])
    requires Place(nodes, Guaranteed, requests, allocatable).Placed?
    ensures var p := Place(nodes, Guaranteed, requests, allocatable);
            && |p.ids| == |requests| && Balanced(nodes, p.nodes, requests, p.ids)
            && forall j, r :: 0 <= j < |nodes| ==>
                 Load(requests, p.ids, nodes[j].id, r) <= At(nodes[j].resources, r)
  {
    var p := Place(nodes, Guaranteed, requests, allocatable);
    if requests != [] {
      var before, last := requests[..|requests| - 1], requests[|requests| - 1];
      GreedyPlacementIsSound(nodes, before, allocatable);
      var q := Place(nodes, Guaranteed, before, allocatable);
      assert requests == before + [last];
      var id := p.ids[|p.ids| - 1];
      assert LowestFeasible(q.nodes, Guaranteed, last, id);
      PlaceOneBalanced(nodes, q.nodes, before, q.ids, last, id);
    }
    hide Place, Load, Reported;
    forall j, r | 0 <= j < |nodes| ensures Load(requests, p.ids, nodes[j].id, r) <= At(nodes[j].resources, r) {
      assert 0 <= At(p.nodes[j].resources, r);
    }
  }

  /** Each container sits on the lowest NUMA node that was feasible when its turn came. */
  lemma {:induction false} PlacedOnLowest(nodes: seq<NUMANode>, qos: QoS, requests: seq<ResourceList>,
                                          allocatable: ResourceList, k: nat)
    requires k < |requests| && Place(nodes, qos, requests, allocatable).Placed?
    ensures |Place(nodes, qos, requests, allocatable).ids| == |requests|
    ensures var q := Place(nodes, qos, requests[..k], allocatable);
            q.Placed? && LowestFeasible(q.nodes, qos, requests[k], Place(nodes, qos, requests, allocatable).ids[k])
  {
    var before := requests[..|requests| - 1];
    hide Feasible, Subtract;
    IdsPerRequest(nodes, qos, before, allocatable);
    if k < |before| {
      PlacedOnLowest(nodes, qos, before, allocatable, k);
      assert before[..k] == requests[..k];
    } else {
      assert requests[..k] == before;
    }
  }

  lemma {:induction false} IdsPerRequest(nodes: seq<NUMANode>, qos: QoS, requests: seq<ResourceList>,
                                         allocatable: ResourceList)
    ensures var p := Place(nodes, qos, requests, allocatable); p.Placed? ==> |p.ids| == |requests|
  {
    if requests != [] {
      IdsPerRequest(nodes, qos, requests[..|requests| - 1], allocatable);
    }
  }

  // ----- Resources that no NUMA node reports -----

  /** No NUMA node reports the resource, and none is expected to. */
  predicate Unaligned(nodes: seq<NUMANode>, r: string) {
    !Reported(nodes, r) && (!IsNative(r) || r == "ephemeral-storage")
  }

  predicate HasId(nodes: seq<NUMANode>, id: nat) {
    exists j :: 0 <= j < |nodes| && nodes[j].id == id
  }

  /** Taking a container's request off a node makes an unaligned resource restrict the next container exactly
      when the request names it, be it with quantity 0. */
  lemma UnalignedRestrictsExactly(nodes: seq<NUMANode>, first: ResourceList, second: ResourceList, id: nat, r: string)
    requires Unaligned(nodes, r) && HasId(nodes, id) && At(second, r) != 0
    ensures Restricts(Subtract(nodes, id, first), second, r) <==> r in first
  {
    var after := Subtract(nodes, id, first);
    var j :| 0 <= j < |nodes| && nodes[j].id == id;
    if r in first {
      assert r in after[j].resources;
    } else {
      assert !Reported(after, r);
    }
  }

  /** Some container placed on NUMA node `id` names the resource. */
  ghost predicate NamedOn(requests: seq<ResourceList>, ids: seq<nat>, id: nat, r: string)
    requires |requests| == |ids|
  {
    exists m :: 0 <= m < |ids| && ids[m] == id && r in requests[m]
  }

  /** The entries that the placed containers left behind for a resource that was not reported: on exactly the
      nodes where a container names it, and nowhere more than nothing. */
  ghost predicate Entries(nodes: seq<NUMANode>, after: seq<NUMANode>, requests: seq<ResourceList>, ids: seq<nat>,
                          r: string)
  {
    && |after| == |nodes| && |requests| == |ids|
    && (forall j :: 0 <= j < |nodes| ==> after[j].id == nodes[j].id)
    && (forall j :: 0 <= j < |nodes| ==> (r in after[j].resources <==> NamedOn(requests, ids, nodes[j].id, r)))
    && (forall j :: 0 <= j < |nodes| ==> At(after[j].resources, r) <= 0)
  }

  lemma NamedOnPlus(requests: seq<ResourceList>, ids: seq<nat>, request: ResourceList, last: nat, id: nat, r: string)
    requires |requests| == |ids|
    ensures NamedOn(requests + [request], ids + [last], id, r) <==>
              NamedOn(requests, ids, id, r) || (last == id && r in request)
  {
    var all, more := requests + [request], ids + [last];
    assert more[|ids|] == last && all[|ids|] == request;
    if m :| 0 <= m < |ids| && ids[m] == id && r in requests[m] {
      assert more[m] == id && r in all[m];
    }
  }

  lemma EntriesPlus(nodes: seq<NUMANode>, now: seq<NUMANode>, requests: seq<ResourceList>, ids: seq<nat>, r: string,
                    request: ResourceList, id: nat)
    requires Entries(nodes, now, requests, ids, r) && NonNegativeList(request)
    ensures Entries(nodes, Subtract(now, id, request), requests + [request], ids + [id], r)
  {
    hide NamedOn;
    forall j | 0 <= j < |nodes|
      ensures NamedOn(requests + [request], ids + [id], nodes[j].id, r) <==>
                NamedOn(requests, ids, nodes[j].id, r) || (id == nodes[j].id && r in request)
    {
      NamedOnPlus(requests, ids, request, id, nodes[j].id, r);
    }
  }

  lemma {:induction false} PlacedEntries(nodes: seq<NUMANode>, qos: QoS, requests: seq<ResourceList>,
                                         allocatable: ResourceList, r: string)
    requires !Reported(nodes, r) && Place(nodes, qos, requests, allocatable).Placed?
    requires forall k :: 0 <= k < |requests| ==> NonNegativeList(requests[k])
    ensures var p := Place(nodes, qos, requests, allocatable); Entries(nodes, p.nodes, requests, p.ids, r)
  {
    if requests != [] {
      var before, last := requests[..|requests| - 1], requests[|requests| - 1];
      PlacedEntries(nodes, qos, before, allocatable, r);
      assert requests == before + [last];
      var q, p := Place(nodes, qos, before, allocatable), Place(nodes, qos, requests, allocatable);
      var id := p.ids[|q.ids|];
      assert p.nodes == Subtract(q.nodes, id, last) && p.ids == q.ids + [id];
      hide Place, PlaceOne, Subtract, Entries;
      EntriesPlus(nodes, q.nodes, before, q.ids, r, last, id);
    }
  }

  /** An earlier container that sits on an existing NUMA node names the resource. */
  ghost predicate Planted(nodes: seq<NUMANode>, requests: seq<ResourceList>, ids: seq<nat>, r: string)
    requires |requests| == |ids|
  {
    exists m :: 0 <= m < |ids| && HasId(nodes, ids[m]) && r in requests[m]
  }

  lemma PlantedIsNamedOn(nodes: seq<NUMANode>, requests: seq<ResourceList>, ids: seq<nat>, r: string)
    requires |requests| == |ids|
    ensures Planted(nodes, requests, ids, r) <==>
              exists j :: 0 <= j < |nodes| && NamedOn(requests, ids, nodes[j].id, r)
  {
    if m :| 0 <= m < |ids| && HasId(nodes, ids[m]) && r in requests[m] {
      var j :| 0 <= j < |nodes| && nodes[j].id == ids[m];
      assert NamedOn(requests, ids, nodes[j].id, r);
    }
  }

  /** The resource alone rules out every NUMA ID. */
  ghost predicate Blocks(nodes: seq<NUMANode>, qos: QoS, request: ResourceList, r: string) {
    Restricts(nodes, request, r) && forall i: nat :: i < MAX_NUMA_ID ==> !HasSlot(nodes, qos, r, request[r], i)
  }

  /** For these requests the amount that is available does not matter. */
  predicate AmountIgnored(qos: QoS, r: string) { qos != Guaranteed && IsHugePage(r) }

  lemma EntriesBlockExactly(nodes: seq<NUMANode>, after: seq<NUMANode>, qos: QoS, requests: seq<ResourceList>,
                            ids: seq<nat>, request: ResourceList, r: string)
    requires Unaligned(nodes, r) && ValidIds(nodes) && Entries(nodes, after, requests, ids, r) && At(request, r) > 0
    ensures Restricts(after, request, r) <==> Planted(nodes, requests, ids, r)
    ensures Blocks(after, qos, request, r) <==> Planted(nodes, requests, ids, r) && !AmountIgnored(qos, r)
  {
    PlantedIsNamedOn(nodes, requests, ids, r);
    hide NamedOn, Planted;
    assert '/' !in "cpu" && '/' !in "memory";
    assert r != "cpu" && r != "memory";
    assert Restricts(after, request, r) <==> Reported(after, r);
    if AmountIgnored(qos, r) && Planted(nodes, requests, ids, r) {
      var j :| 0 <= j < |after| && r in after[j].resources;
      assert Offers(after, qos, r, request[r], j);
      assert HasSlot(after, qos, r, request[r], after[j].id);
    }
  }

  /** What goes wrong, exactly: with some containers placed, a resource that is not NUMA-aligned restricts the next
      container that asks for it exactly when an earlier one, placed on an existing NUMA node, names it, be it with
      quantity 0. It then rules out every NUMA ID (unless the amount is ignored), and the pod is rejected however
      much of the resource the worker node has. */
  lemma UnalignedBlocksExactly(nodes: seq<NUMANode>, qos: QoS, requests: seq<ResourceList>, allocatable: ResourceList,
                               r: string, k: nat)
    requires Unaligned(nodes, r) && ValidIds(nodes) && k < |requests| && At(requests[k], r) > 0
    requires forall m :: 0 <= m < |requests| ==> NonNegativeList(requests[m])
    requires Place(nodes, qos, requests[..k], allocatable).Placed?
    ensures var q := Place(nodes, qos, requests[..k], allocatable);
            && |q.ids| == k
            && (Restricts(q.nodes, requests[k], r) <==> Planted(nodes, requests[..k], q.ids, r))
            && (Blocks(q.nodes, qos, requests[k], r) <==>
                  Planted(nodes, requests[..k], q.ids, r) && !AmountIgnored(qos, r))
            && (Blocks(q.nodes, qos, requests[k], r) ==> Place(nodes, qos, requests, allocatable).Rejected?)
  {
    var q := Place(nodes, qos, requests[..k], allocatable);
    assert requests[..k + 1][..k] == requests[..k];
    assert Place(nodes, qos, requests[..k + 1], allocatable) == PlaceOne(q, qos, requests[k], allocatable);
    hide Place;
    PlacedEntries(nodes, qos, requests[..k], allocatable, r);
    EntriesBlockExactly(nodes, q.nodes, qos, requests[..k], q.ids, requests[k], r);
    if Blocks(q.nodes, qos, requests[k], r) {
      BlockedIsInfeasible(q.nodes, qos, requests[k], r);
      RejectedStays(nodes, qos, requests, allocatable, k + 1);
    }
  }

  lemma BlockedIsInfeasible(nodes: seq<NUMANode>, qos: QoS, request: ResourceList, r: string)
    requires Blocks(nodes, qos, request, r)
    ensures forall i :: !Feasible(nodes, qos, request, i)
  {
    hide HasSlot, Restricts;
  }

  // ----- Exactly which pods lose -----

  function Erased(requests: seq<ResourceList>, r: string): seq<ResourceList> {
    seq(|requests|, k requires 0 <= k < |requests| => requests[k] - {r})
  }

  /** The same nodes but for one resource. */
  ghost predicate Twins(a: seq<NUMANode>, b: seq<NUMANode>, r: string) {
    && |a| == |b|
    && (forall j :: 0 <= j < |a| ==> a[j].id == b[j].id)
    && (forall j, n :: 0 <= j < |a| && n != r ==> (n in a[j].resources <==> n in b[j].resources))
    && (forall j, n :: 0 <= j < |a| && n != r ==> At(a[j].resources, n) == At(b[j].resources, n))
  }

  lemma TwinRestricts(a: seq<NUMANode>, b: seq<NUMANode>, qos: QoS, request: ResourceList, r: string, n: string, i: nat)
    requires Twins(a, b, r) && n != r
    ensures Restricts(a, request, n) <==> Restricts(b, request - {r}, n)
    ensures n in request ==> (HasSlot(a, qos, n, request[n], i) <==> HasSlot(b, qos, n, (request - {r})[n], i))
  {
    assert Reported(a, n) <==> Reported(b, n) by {
      if j :| 0 <= j < |a| && n in a[j].resources {
        assert n in b[j].resources;
      }
      if j :| 0 <= j < |b| && n in b[j].resources {
        assert n in a[j].resources;
      }
    }
    if n in request {
      if HasSlot(a, qos, n, request[n], i) {
        TwinSlots(a, b, qos, n, request[n], r, i);
      }
      if HasSlot(b, qos, n, request[n], i) {
        TwinSlots(b, a, qos, n, request[n], r, i);
      }
    }
  }

  lemma TwinSlots(a: seq<NUMANode>, b: seq<NUMANode>, qos: QoS, n: string, quantity: int, r: string, i: nat)
    requires Twins(a, b, r) && n != r && HasSlot(a, qos, n, quantity, i)
    ensures HasSlot(b, qos, n, quantity, i)
  {
    var j :| 0 <= j < |a| && a[j].id == i && Offers(a, qos, n, quantity, j);
    assert At(a[j].resources, n) == At(b[j].resources, n);
    assert Offers(b, qos, n, quantity, j);
  }

  /** Without the resource in the way, the two node lists have the same feasible IDs. */
  lemma TwinFeasible(a: seq<NUMANode>, b: seq<NUMANode>, qos: QoS, request: ResourceList, r: string, i: nat)
    requires Twins(a, b, r) && !Restricts(a, request, r)
    ensures Feasible(a, qos, request, i) <==> Feasible(b, qos, request - {r}, i)
  {
    assert !Restricts(b, request - {r}, r);
    forall n | n != r
      ensures Restricts(a, request, n) <==> Restricts(b, request - {r}, n)
      ensures n in request ==> (HasSlot(a, qos, n, request[n], i) <==> HasSlot(b, qos, n, (request - {r})[n], i))
    {
      TwinRestricts(a, b, qos, request, r, n, i);
    }
    RestrictsNamed(a, request);
    RestrictsNamed(b, request - {r});
    hide HasSlot, Restricts, Twins;
  }

  lemma RestrictsNamed(nodes: seq<NUMANode>, request: ResourceList)
    ensures forall n :: Restricts(nodes, request, n) ==> n in request
  {
  }

  lemma TwinSubtract(a: seq<NUMANode>, b: seq<NUMANode>, id: nat, request: ResourceList, r: string)
    requires Twins(a, b, r)
    ensures Twins(Subtract(a, id, request), Subtract(b, id, request - {r}), r)
  {
    forall j, n | 0 <= j < |a| && n != r
      ensures n in Subtract(a, id, request)[j].resources <==> n in Subtract(b, id, request - {r})[j].resources
      ensures At(Subtract(a, id, request)[j].resources, n) == At(Subtract(b, id, request - {r})[j].resources, n)
    {
      assert n in request <==> n in request - {r};
      assert At(request, n) == At(request - {r}, n);
      assert n in a[j].resources <==> n in b[j].resources;
      assert At(a[j].resources, n) == At(b[j].resources, n);
    }
  }

  /** The resource does not get container `k` into trouble: it does not ask for it, or the worker node has it and
      no earlier container left an entry for it. */
  ghost predicate Unharmed(nodes: seq<NUMANode>, requests: seq<ResourceList>, ids: seq<nat>, allocatable: ResourceList,
                           r: string, k: nat)
    requires k < |requests| == |ids|
  {
    At(requests[k], r) != 0 ==> r in allocatable && !Planted(nodes, requests[..k], ids[..k], r)
  }

  lemma TwinPlaceOne(nodes: seq<NUMANode>, p: Placement, q: Placement, qos: QoS, requests: seq<ResourceList>,
                     request: ResourceList, allocatable: ResourceList, r: string)
    requires Unaligned(nodes, r) && ValidIds(nodes) && !AmountIgnored(qos, r) && NonNegativeList(request)
    requires p.Placed? && q.Placed? && p.ids == q.ids && Twins(p.nodes, q.nodes, r)
    requires Entries(nodes, p.nodes, requests, p.ids, r)
    ensures var p1, q1 := PlaceOne(p, qos, request, allocatable), PlaceOne(q, qos, request - {r}, allocatable);
            && (p1.Placed? <==> q1.Placed? && (At(request, r) != 0 ==>
                                                 r in allocatable && !Planted(nodes, requests, p.ids, r)))
            && (p1.Placed? ==> p1.ids == q1.ids && Twins(p1.nodes, q1.nodes, r))
  {
    KnownErased(request, allocatable, r);
    hide Entries, Twins, Feasible, KnownToNode, Planted, Unaligned, Subtract;
    if At(request, r) > 0 {
      EntriesBlockExactly(nodes, p.nodes, qos, requests, p.ids, request, r);
    }
    if Restricts(p.nodes, request, r) {
      assert At(request, r) > 0;
      BlockedIsInfeasible(p.nodes, qos, request, r);
    } else {
      forall i ensures Feasible(p.nodes, qos, request, i) <==> Feasible(q.nodes, qos, request - {r}, i) {
        TwinFeasible(p.nodes, q.nodes, qos, request, r, i);
      }
      LowestUnique(p.nodes, qos, request);
      var p1, q1 := PlaceOne(p, qos, request, allocatable), PlaceOne(q, qos, request - {r}, allocatable);
      if p1.Placed? {
        var id := p1.ids[|p.ids|];
        assert LowestFeasible(p.nodes, qos, request, id) && p1.nodes == Subtract(p.nodes, id, request);
        var id' := q1.ids[|q.ids|];
        assert LowestFeasible(q.nodes, qos, request - {r}, id');
        assert q1.nodes == Subtract(q.nodes, id', request - {r});
        assert id == id';
        TwinSubtract(p.nodes, q.nodes, id, request, r);
      }
    }
  }

  lemma KnownErased(request: ResourceList, allocatable: ResourceList, r: string)
    ensures KnownToNode(request, allocatable) <==>
              KnownToNode(request - {r}, allocatable) && (At(request, r) != 0 ==> r in allocatable)
  {
    forall n | n != r ensures n in request - {r} <==> n in request {
    }
  }

  /** Exactly which pods an unaligned resource gets rejected: a pod is placed if and only if it would be placed
      without asking for the resource, the worker node has the resource if it is asked for, and no container asks
      for it after another one on an existing NUMA node has named it. The places are the same. */
  lemma {:induction false} UnalignedRejectsExactly(nodes: seq<NUMANode>, qos: QoS, requests: seq<ResourceList>,
                                                   allocatable: ResourceList, r: string)
    requires Unaligned(nodes, r) && ValidIds(nodes) && !AmountIgnored(qos, r)
    requires forall m :: 0 <= m < |requests| ==> NonNegativeList(requests[m])
    ensures var p := Place(nodes, qos, requests, allocatable);
            var q := Place(nodes, qos, Erased(requests, r), allocatable);
            && (q.Placed? ==> |q.ids| == |requests|)
            && (p.Placed? <==> q.Placed? && forall k :: 0 <= k < |requests| ==>
                                              Unharmed(nodes, requests, q.ids, allocatable, r, k))
            && (p.Placed? ==> p.ids == q.ids && Twins(p.nodes, q.nodes, r))
    decreases |requests|
  {
    var erased := Erased(requests, r);
    IdsPerRequest(nodes, qos, erased, allocatable);
    if requests == [] {
      assert erased == [];
    } else {
      var n := |requests| - 1;
      var before, last := requests[..n], requests[n];
      UnalignedRejectsExactly(nodes, qos, before, allocatable, r);
      assert erased[..n] == Erased(before, r) && erased[n] == last - {r};
      var p, q := Place(nodes, qos, before, allocatable), Place(nodes, qos, erased[..n], allocatable);
      var p1, q1 := Place(nodes, qos, requests, allocatable), Place(nodes, qos, erased, allocatable);
      assert p1 == PlaceOne(p, qos, last, allocatable) && q1 == PlaceOne(q, qos, last - {r}, allocatable);
      assert p.Rejected? ==> p1.Rejected?;
      assert q1.Placed? ==> q.Placed? && q1.ids[..n] == q.ids;
      hide Place, PlaceOne, Planted, Twins, Entries, Unaligned, Erased, Unharmed;
      if p.Placed? {
        PlacedEntries(nodes, qos, before, allocatable, r);
        TwinPlaceOne(nodes, p, q, qos, before, last, allocatable, r);
      }
      if q1.Placed? {
        UnharmedStep(nodes, requests, q1.ids, allocatable, r);
      }
    }
  }

  lemma UnharmedStep(nodes: seq<NUMANode>, requests: seq<ResourceList>, ids: seq<nat>, allocatable: ResourceList,
                     r: string)
    requires 0 < |requests| == |ids|
    ensures var n := |requests| - 1;
            (forall k :: 0 <= k < |requests| ==> Unharmed(nodes, requests, ids, allocatable, r, k)) <==>
            (forall k :: 0 <= k < n ==> Unharmed(nodes, requests[..n], ids[..n], allocatable, r, k)) &&
            (At(requests[n], r) != 0 ==> r in allocatable && !Planted(nodes, requests[..n], ids[..n], r))
  {
    var n := |requests| - 1;
    hide Planted, At;
    forall k | 0 <= k < n
      ensures Unharmed(nodes, requests, ids, allocatable, r, k) <==>
                Unharmed(nodes, requests[..n], ids[..n], allocatable, r, k)
    {
      assert requests[..n][..k] == requests[..k] && ids[..n][..k] == ids[..k];
    }
    assert Unharmed(nodes, requests, ids, allocatable, r, n) <==>
      (At(requests[n], r) != 0 ==> r in allocatable && !Planted(nodes, requests[..n], ids[..n], r));
  }

  /** A worker node with plenty of a device that is not NUMA-aligned, and a pod with two containers that each
      ask for one: rejected. */
  lemma UnreportedResourceExample()
    ensures var nodes := [NUMANode(0, map["cpu" := 4], map[])];
            var one: ResourceList := map["vendor.com/device" := 1];
            && Place(nodes, Guaranteed, [one], map["vendor.com/device" := 100]).Placed?
            && Place(nodes, Guaranteed, [one, one], map["vendor.com/device" := 100]).Rejected?
  {
    var nodes := [NUMANode(0, map["cpu" := 4], map[])];
    var device := "vendor.com/device";
    var one: ResourceList := map[device := 1];
    var node: ResourceList := map[device := 100];
    assert !Reported(nodes, device);
    assert !IsNative(device) by {
      assert device[10] == '/';
      NoKubernetes(device);
    }
    assert Feasible(nodes, Guaranteed, one, 0);
    assert KnownToNode(one, node);
    assert PodAccepted(nodes, Guaranteed, one, node);
    assert [one][..0] == [] && [one, one][..1] == [one];
    var p := Place(nodes, Guaranteed, [one], node);
    assert Place(nodes, Guaranteed, [], node) == Placed(nodes, []);
    assert p.Placed?;
    assert LowestFeasible(nodes, Guaranteed, one, 0);
    LowestUnique(nodes, Guaranteed, one);
    assert p.ids == [0];
    hide Feasible, Place;
    assert nodes[0].id == 0;
    ExampleIsUnaligned(nodes);
    assert HasId(nodes, p.ids[0]) && device in [one][0];
    assert Planted(nodes, [one, one][..1], p.ids, device);
    UnalignedBlocksExactly(nodes, Guaranteed, [one, one], node, device, 1);
  }

  /** Naming the device with quantity 0 is enough to block the next container. */
  lemma ZeroQuantityExample()
    ensures var nodes := [NUMANode(0, map["cpu" := 4], map[])];
            var zero: ResourceList := map["vendor.com/device" := 0];
            var one: ResourceList := map["vendor.com/device" := 1];
            && Place(nodes, Guaranteed, [one], map["vendor.com/device" := 100]).Placed?
            && Place(nodes, Guaranteed, [zero, one], map["vendor.com/device" := 100]).Rejected?
  {
    UnreportedResourceExample();
    var nodes := [NUMANode(0, map["cpu" := 4], map[])];
    var device := "vendor.com/device";
    var zero: ResourceList := map[device := 0];
    var one: ResourceList := map[device := 1];
    var node: ResourceList := map[device := 100];
    ExampleIsUnaligned(nodes);
    assert Feasible(nodes, Guaranteed, zero, 0) && KnownToNode(zero, node);
    LowestUnique(nodes, Guaranteed, zero);
    assert LowestFeasible(nodes, Guaranteed, zero, 0);
    assert [zero][..0] == [] && [zero, one][..1] == [zero];
    assert Place(nodes, Guaranteed, [], node) == Placed(nodes, []);
    var q := Place(nodes, Guaranteed, [zero], node);
    assert q.Placed? && q.ids == [0];
    hide Place, Feasible;
    assert nodes[0].id == 0;
    assert HasId(nodes, q.ids[0]) && device in [zero][0];
    assert Planted(nodes, [zero, one][..1], q.ids, device);
    UnalignedBlocksExactly(nodes, Guaranteed, [zero, one], node, device, 1);
  }

  lemma ExampleIsUnaligned(nodes: seq<NUMANode>)
    requires nodes == [NUMANode(0, map["cpu" := 4], map[])]
    ensures Unaligned(nodes, "vendor.com/device") && ValidIds(nodes)
  {
    var device := "vendor.com/device";
    assert device[10] == '/';
    NoKubernetes(device);
  }

  lemma NoKubernetes(s: string)
    requires s == "vendor.com/device"
    ensures !Contains(s, "kubernetes.io/")
  {
    forall i | 0 <= i <= |s| - |"kubernetes.io/"| ensures s[i..][..|"kubernetes.io/"|] != "kubernetes.io/" {
      assert s[i..][..|"kubernetes.io/"|][0] == s[i];
    }
  }

  // ----- What acceptance means in amounts -----

  /** The amount of a resource counts, unless the pod is not Guaranteed and the resource is processor time, memory
      or huge pages. */
  predicate AmountCounts(qos: QoS, name: string) {
    qos == Guaranteed || !(name == "cpu" || name == "memory" || "hugepages-" <= name)
  }

  /** A resource has to be on the node that is chosen, if it is asked for at all and some NUMA node reports it or it is
      one of Kubernetes' own other than ephemeral storage. */
  ghost predicate HasToBeLocal(nodes: seq<NUMANode>, request: ResourceList, name: string) {
    && name in request && request[name] != 0
    && ((exists j :: 0 <= j < |nodes| && name in nodes[j].resources) ||
        (name != "ephemeral-storage" &&
         ('/' !in name || exists a: string, b: string :: name == a + "kubernetes.io/" + b)))
  }

  lemma RestrictsExactly(nodes: seq<NUMANode>, request: ResourceList, name: string)
    ensures Restricts(nodes, request, name) <==> HasToBeLocal(nodes, request, name)
  {
    ContainsExactly(name, "kubernetes.io/");
    hide Contains;
  }

  /** For every resource that has to be local some NUMA node with this ID reports it, and at least the quantity asked
      for where the amount counts. */
  ghost predicate Hosts(nodes: seq<NUMANode>, qos: QoS, request: ResourceList, id: nat) {
    id < 64 &&
    forall name :: HasToBeLocal(nodes, request, name) ==>
      exists j :: 0 <= j < |nodes| && nodes[j].id == id && name in nodes[j].resources &&
                  (AmountCounts(qos, name) ==> request[name] <= nodes[j].resources[name])
  }

  lemma FeasibleInAmounts(nodes: seq<NUMANode>, qos: QoS, request: ResourceList, id: nat)
    ensures Feasible(nodes, qos, request, id) <==> Hosts(nodes, qos, request, id)
  {
    forall name ensures Restricts(nodes, request, name) <==> HasToBeLocal(nodes, request, name) {
      RestrictsExactly(nodes, request, name);
    }
    hide Restricts, HasToBeLocal;
    RestrictsNamed(nodes, request);
    forall name | name in request
      ensures HasSlot(nodes, qos, name, request[name], id) <==>
        exists j :: 0 <= j < |nodes| && nodes[j].id == id && name in nodes[j].resources &&
                    (AmountCounts(qos, name) ==> request[name] <= nodes[j].resources[name])
    {
      if j :| 0 <= j < |nodes| && nodes[j].id == id && Offers(nodes, qos, name, request[name], j) {
        assert name in nodes[j].resources;
      }
      if j :| 0 <= j < |nodes| && nodes[j].id == id && name in nodes[j].resources &&
              (AmountCounts(qos, name) ==> request[name] <= nodes[j].resources[name]) {
        assert Offers(nodes, qos, name, request[name], j);
      }
    }
  }

  /** A pod is accepted exactly when the worker node has everything that is asked for and one NUMA node can host
      it. */
  lemma PodAcceptedInAmounts(nodes: seq<NUMANode>, qos: QoS, request: ResourceList, allocatable: ResourceList)
    ensures PodAccepted(nodes, qos, request, allocatable) <==>
              && (forall name :: name in request && request[name] != 0 ==> name in allocatable)
              && (exists id :: Hosts(nodes, qos, request, id))
  {
    forall id ensures Feasible(nodes, qos, request, id) <==> Hosts(nodes, qos, request, id) {
      FeasibleInAmounts(nodes, qos, request, id);
    }
    hide Feasible, Hosts;
    if i :| Feasible(nodes, qos, request, i) {
      assert Hosts(nodes, qos, request, i);
    }
    if i :| Hosts(nodes, qos, request, i) {
      assert Feasible(nodes, qos, request, i);
    }
  }

  /** The same IDs and resource names, and the same amounts of everything but processor time, memory and huge
      pages. */
  ghost predicate SameButAmounts(a: seq<NUMANode>, b: seq<NUMANode>) {
    && |a| == |b|
    && (forall j :: 0 <= j < |a| ==> a[j].id == b[j].id && a[j].resources.Keys == b[j].resources.Keys)
    && (forall j, name :: 0 <= j < |a| && name in a[j].resources &&
                          name != "cpu" && name != "memory" && !("hugepages-" <= name) ==>
          name in b[j].resources && a[j].resources[name] == b[j].resources[name])
  }

  /** For a pod that is not Guaranteed those amounts never matter: both lists have the same feasible IDs. */
  lemma AmountsDoNotMatter(a: seq<NUMANode>, b: seq<NUMANode>, qos: QoS, request: ResourceList,
                           allocatable: ResourceList, id: nat)
    requires SameButAmounts(a, b) && qos != Guaranteed
    ensures Feasible(a, qos, request, id) <==> Feasible(b, qos, request, id)
    ensures PodAccepted(a, qos, request, allocatable) <==> PodAccepted(b, qos, request, allocatable)
  {
    SameButAmountsSymmetric(a, b);
    forall i: nat ensures Feasible(a, qos, request, i) <==> Feasible(b, qos, request, i) {
      if Feasible(a, qos, request, i) {
        FeasibleCarriesOver(a, b, qos, request, i);
      }
      if Feasible(b, qos, request, i) {
        FeasibleCarriesOver(b, a, qos, request, i);
      }
    }
    hide Feasible;
  }

  lemma SameButAmountsSymmetric(a: seq<NUMANode>, b: seq<NUMANode>)
    requires SameButAmounts(a, b)
    ensures SameButAmounts(b, a)
  {
    forall j, name | 0 <= j < |b| && name in b[j].resources &&
                     name != "cpu" && name != "memory" && !("hugepages-" <= name)
      ensures name in a[j].resources && a[j].resources[name] == b[j].resources[name]
    {
      assert name in a[j].resources.Keys <==> name in b[j].resources.Keys;
    }
  }

  lemma FeasibleCarriesOver(a: seq<NUMANode>, b: seq<NUMANode>, qos: QoS, request: ResourceList, id: nat)
    requires SameButAmounts(a, b) && qos != Guaranteed && Feasible(a, qos, request, id)
    ensures Feasible(b, qos, request, id)
  {
    forall name | Restricts(b, request, name) ensures HasSlot(b, qos, name, request[name], id) {
      if j :| 0 <= j < |b| && name in b[j].resources {
        assert name in b[j].resources.Keys && name in a[j].resources;
        assert Reported(a, name);
      }
      assert Restricts(a, request, name);
      var j :| 0 <= j < |a| && a[j].id == id && Offers(a, qos, name, request[name], j);
      assert name in a[j].resources.Keys && name in b[j].resources;
      assert Offers(b, qos, name, request[name], j);
    }
  }

  /** Two NUMA nodes with two processors each accept a pod that asks for four and is not Guaranteed. */
  lemma BurstableExample()
    ensures var nodes := [NUMANode(0, map["cpu" := 2], map[]), NUMANode(1, map["cpu" := 2], map[])];
            var four: ResourceList := map["cpu" := 4];
            && PodAccepted(nodes, Burstable, four, map["cpu" := 4])
            && !PodAccepted(nodes, Guaranteed, four, map["cpu" := 4])
  {
    var nodes := [NUMANode(0, map["cpu" := 2], map[]), NUMANode(1, map["cpu" := 2], map[])];
    var four: ResourceList := map["cpu" := 4];
    assert nodes[0].id == 0 && Offers(nodes, Burstable, "cpu", 4, 0);
    assert HasSlot(nodes, Burstable, "cpu", 4, 0);
    assert Feasible(nodes, Burstable, four, 0);
    forall i: nat ensures !Feasible(nodes, Guaranteed, four, i) {
      assert "cpu" in nodes[0].resources && Reported(nodes, "cpu");
      assert Restricts(nodes, four, "cpu") && !HasSlot(nodes, Guaranteed, "cpu", 4, i);
    }
  }
}
