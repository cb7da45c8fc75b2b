/** Pessimism never lies: a pod accepted on the cached availability is accepted on the true one. */
module NumaPessimism {
  import opened Options
  import opened Sums
  import opened NumaNodes
  import opened NumaFilter
  import opened OverReserveCache

  /** The resources of a zone; a later entry of the same name wins. */
  function ExtractResources(infos: seq<ResourceInfo>): ResourceList {
    if infos == [] then map[] else
      var last := infos[|infos| - 1];
      ExtractResources(infos[..|infos| - 1])[last.name := last.available]
  }

  /** The NUMA nodes among the zones, in order. */
  function CreateNUMANodeList(zones: Zones): seq<NUMANode> {
    if zones == [] then [] else
      var z := zones[|zones| - 1];
      CreateNUMANodeList(zones[..|zones| - 1])
      + if z.numaID.Some? then [NUMANode(z.numaID.value, ExtractResources(z.resources), z.costs)] else []
  }

  /** The same zones with at least as much of everything. */
  ghost predicate ZonesAtLeast(more: Zones, less: Zones) {
    && |more| == |less|
    && forall i :: 0 <= i < |less| ==>
         more[i].numaID == less[i].numaID && InfosAtLeast(more[i].resources, less[i].resources)
  }

  ghost predicate InfosAtLeast(more: seq<ResourceInfo>, less: seq<ResourceInfo>) {
    && |more| == |less|
    && forall k :: 0 <= k < |less| ==> more[k].name == less[k].name && less[k].available <= more[k].available
  }

  lemma {:induction false} ExtractMonotone(more: seq<ResourceInfo>, less: seq<ResourceInfo>)
    requires InfosAtLeast(more, less)
    ensures ExtractResources(more).Keys == ExtractResources(less).Keys
    ensures forall r :: r in ExtractResources(less) ==> ExtractResources(less)[r] <= ExtractResources(more)[r]
  {
    if less != [] {
      ExtractMonotone(more[..|more| - 1], less[..|less| - 1]);
    }
  }

  lemma {:induction false} NodeListMonotone(more: Zones, less: Zones)
    requires ZonesAtLeast(more, less)
    ensures AtLeast(CreateNUMANodeList(more), CreateNUMANodeList(less))
  {
    if less != [] {
      NodeListMonotone(more[..|more| - 1], less[..|less| - 1]);
      ExtractMonotone(more[|more| - 1].resources, less[|less| - 1].resources);
    }
  }

  /** How much of a pod's request was really charged to a zone, by pod, zone and resource. */
  type Charges = (string, nat, string) -> int

  /** A pod is charged at most its request in any zone. */
  ghost predicate WithinRequests(charges: Charges, data: Requests) {
    forall k, i: nat, r :: k in data ==> 0 <= charges(k, i, r) <= At(data[k], r)
  }

  ghost function Charged(charges: Charges, data: Requests, i: nat, r: string): map<string, int> {
    map k | k in data :: charges(k, i, r)
  }

  /** What is really available: the reported amount minus what was really charged. */
  ghost function TrueZones(zones: Zones, data: Requests, charges: Charges): Zones {
    seq(|zones|, i requires 0 <= i < |zones| =>
      zones[i].(resources := seq(|zones[i].resources|, k requires 0 <= k < |zones[i].resources| =>
        TrueInfo(zones[i].resources[k], data, charges, i))))
  }

  ghost function TrueInfo(r: ResourceInfo, data: Requests, charges: Charges, i: nat): ResourceInfo {
    r.(available := r.available - Sum(Charged(charges, data, i, r.name)))
  }

  ghost predicate NothingNegative(zones: Zones) {
    forall i, k :: 0 <= i < |zones| && 0 <= k < |zones[i].resources| ==> 0 <= zones[i].resources[k].available
  }

  lemma InfoIsPessimistic(r: ResourceInfo, data: Requests, charges: Charges, i: nat)
    requires WithinRequests(charges, data) && 0 <= TrueInfo(r, data, charges, i).available
    ensures PessimisticInfo(r, data).available <= TrueInfo(r, data, charges, i).available
  {
    SumMonotone(Charged(charges, data, i, r.name), Requested(data, r.name));
    if !Asked(data, r.name) {
      forall k | k in data ensures charges(k, i, r.name) == 0 {
        assert r.name !in data[k];
      }
      SumZero(Charged(charges, data, i, r.name));
    }
  }

  /** For every way the reserved pods could be charged to the zones (at most their request per zone, never more
      than there is), the cached availability is at most the true one. */
  lemma ReportedIsPessimistic(zones: Zones, data: Requests, charges: Charges)
    requires WithinRequests(charges, data) && NothingNegative(TrueZones(zones, data, charges))
    ensures ZonesAtLeast(TrueZones(zones, data, charges), Pessimistic(zones, data))
  {
    var truth, seen := TrueZones(zones, data, charges), Pessimistic(zones, data);
    hide WithinRequests, TrueInfo, PessimisticInfo;
    forall i | 0 <= i < |zones|
      ensures truth[i].numaID == seen[i].numaID && InfosAtLeast(truth[i].resources, seen[i].resources)
    {
      forall k | 0 <= k < |zones[i].resources|
        ensures truth[i].resources[k].name == seen[i].resources[k].name
        ensures seen[i].resources[k].available <= truth[i].resources[k].available
      {
        assert 0 <= truth[i].resources[k].available;
        InfoIsPessimistic(zones[i].resources[k], data, charges, i);
        NamesKept(zones[i].resources[k], data, charges, i);
      }
    }
  }

  lemma NamesKept(r: ResourceInfo, data: Requests, charges: Charges, i: nat)
    ensures TrueInfo(r, data, charges, i).name == r.name && PessimisticInfo(r, data).name == r.name
  {
  }

  /** No false positives at pod level: acceptance by the single-NUMA filter on the cached data implies
      acceptance on the true data. */
  lemma NoFalsePositives(zones: Zones, data: Requests, charges: Charges, qos: QoS, request: ResourceList,
                         allocatable: ResourceList)
    requires WithinRequests(charges, data) && NothingNegative(TrueZones(zones, data, charges))
    requires PodAccepted(CreateNUMANodeList(Pessimistic(zones, data)), qos, request, allocatable)
    ensures PodAccepted(CreateNUMANodeList(TrueZones(zones, data, charges)), qos, request, allocatable)
  {
    hide *;
    ReportedIsPessimistic(zones, data, charges);
    NodeListMonotone(TrueZones(zones, data, charges), Pessimistic(zones, data));
    PodAcceptanceMonotone(CreateNUMANodeList(Pessimistic(zones, data)),
                          CreateNUMANodeList(TrueZones(zones, data, charges)), qos, request, allocatable);
  }

  /** No false positives after any history: whatever happened to a cache that started empty of reservations, a pod
      accepted on its answer about a node is accepted on what is truly available there, however the pods that hold
      a reservation since the node's last flush were charged to its zones. */
  lemma AcceptedAfterAnyHistory(start: Cache, h: seq<Event>, node: string, zones: Zones, held: Requests,
                                answer: Zones, charges: Charges, qos: QoS, request: ResourceList,
                                allocatable: ResourceList)
    requires Fresh(start) && IsHeld(h, node, held) && LastReported(start, h, node, zones)
    requires Lookup(Run(start, h), node) == Available(answer)
    requires WithinRequests(charges, held) && NothingNegative(TrueZones(zones, held, charges))
    requires PodAccepted(CreateNUMANodeList(answer), qos, request, allocatable)
    ensures !ForeignSeen(start, h, node)
    ensures PodAccepted(CreateNUMANodeList(TrueZones(zones, held, charges)), qos, request, allocatable)
  {
    hide *;
    AnswerFollowsHistory(start, h, node, zones, held);
    NoFalsePositives(zones, held, charges, qos, request, allocatable);
  }

  lemma NothingCharged(zones: Zones, charges: Charges)
    ensures TrueZones(zones, map[], charges) == zones
  {
    forall i | 0 <= i < |zones| ensures TrueZones(zones, map[], charges)[i] == zones[i] {
      forall k | 0 <= k < |zones[i].resources|
        ensures TrueInfo(zones[i].resources[k], map[], charges, i) == zones[i].resources[k]
      {
        assert Charged(charges, map[], i, zones[i].resources[k].name) == map[];
      }
      assert TrueZones(zones, map[], charges)[i].resources == zones[i].resources;
    }
  }

  /** No false positives after a resync, which is why it compares fingerprints. Suppose that before it the truth about a
      node is what the cache reports of it minus what the pods with a reservation were charged; and that a matching
      fingerprint means that the report accounts for the listed pods, so that the truth is the report minus what
      the pods with a reservation that are not listed were charged; and that all pods with a reservation are
      listed. Then a pod accepted on the cache's answer after the resync is accepted on the true data. */
  lemma AcceptedAfterResync(before: Cache, after: Cache, cluster: Cluster, node: string, truth: Zones, charges: Charges,
                            answer: Zones, qos: QoS, request: ResourceList, allocatable: ResourceList)
    requires Resynced(before, before, after, cluster, node)
    requires node in before.nrts ==> truth == TrueZones(before.nrts[node], AssumedOn(before, node), charges)
    requires node in cluster.reports && node in cluster.podsOn && cluster.reports[node].fingerprint != "" &&
             cluster.matches(cluster.podsOn[node], cluster.reports[node].fingerprint) ==>
               truth == TrueZones(cluster.reports[node].zones, AssumedOn(before, node) - cluster.podsOn[node], charges)
    requires node in cluster.podsOn ==> AssumedOn(before, node).Keys <= cluster.podsOn[node]
    requires WithinRequests(charges, AssumedOn(before, node)) && NothingNegative(truth)
    requires Lookup(after, node) == Available(answer)
    requires PodAccepted(CreateNUMANodeList(answer), qos, request, allocatable)
    ensures PodAccepted(CreateNUMANodeList(truth), qos, request, allocatable)
  {
    ResyncedExactly(before, before, after, cluster, node);
    hide PodAccepted, CreateNUMANodeList, WithinRequests, NothingNegative, TrueZones, Pessimistic, Resynced;
    if Dirty(before, node) && cluster.Confirms(node) {
      assert AssumedOn(before, node) - cluster.podsOn[node] == map[];
      NothingCharged(cluster.reports[node].zones, charges);
      PessimisticEmpty(cluster.reports[node].zones);
    } else {
      NoFalsePositives(before.nrts[node], AssumedOn(before, node), charges, qos, request, allocatable);
    }
  }

  /** The pessimism is tight: if every pod was charged its whole request to every zone, the cached availability is the
      true one; and what was asked for beyond all there is leaves nothing, never less. */
  lemma PessimismIsTight(zones: Zones, data: Requests, charges: Charges)
    requires forall k, i: nat, r :: k in data ==> charges(k, i, r) == At(data[k], r)
    requires NothingNegative(TrueZones(zones, data, charges))
    ensures Pessimistic(zones, data) == TrueZones(zones, data, charges)
  {
    var truth, seen := TrueZones(zones, data, charges), Pessimistic(zones, data);
    forall i | 0 <= i < |zones| ensures truth[i] == seen[i] {
      forall k | 0 <= k < |zones[i].resources| ensures truth[i].resources[k] == seen[i].resources[k] {
        var r := zones[i].resources[k];
        assert 0 <= truth[i].resources[k].available;
        assert Charged(charges, data, i, r.name) == Requested(data, r.name);
        if !Asked(data, r.name) {
          SumZero(Requested(data, r.name));
        }
      }
      assert truth[i].resources == seen[i].resources;
    }
  }

  lemma NothingLeft(r: ResourceInfo, data: Requests)
    requires Asked(data, r.name) && r.available <= Sum(Requested(data, r.name))
    ensures PessimisticInfo(r, data) == ResourceInfo(r.name, 0)
  {
  }

  /** The NUMA nodes of a topology: one for each zone with an ID and no others, in order. */
  lemma {:induction false} NodeListExactly(zones: Zones, id: nat)
    ensures (exists j :: 0 <= j < |CreateNUMANodeList(zones)| && CreateNUMANodeList(zones)[j].id == id) <==>
            (exists i :: 0 <= i < |zones| && zones[i].numaID == Some(id))
    ensures forall i :: 0 <= i < |zones| && zones[i].numaID.Some? ==>
              NUMANode(zones[i].numaID.value, ExtractResources(zones[i].resources), zones[i].costs)
              in CreateNUMANodeList(zones)
  {
    if zones != [] {
      var n := |zones| - 1;
      NodeListExactly(zones[..n], id);
      var before, all := CreateNUMANodeList(zones[..n]), CreateNUMANodeList(zones);
      assert forall j :: 0 <= j < |before| ==> all[j] == before[j];
      if i :| 0 <= i < |zones| && zones[i].numaID == Some(id) {
        if i < n {
          assert zones[..n][i].numaID == Some(id);
        } else {
          assert all[|before|].id == id;
        }
      }
    }
  }

  /** A zone holds of a resource what its last entry of that name says. */
  lemma {:induction false} LastEntryWins(infos: seq<ResourceInfo>, i: nat)
    requires i < |infos| && forall j :: i < j < |infos| ==> infos[j].name != infos[i].name
    ensures infos[i].name in ExtractResources(infos) && ExtractResources(infos)[infos[i].name] == infos[i].available
    ensures forall n :: n in ExtractResources(infos) ==> exists j :: 0 <= j < |infos| && infos[j].name == n
  {
    ExtractedNames(infos);
    if i < |infos| - 1 {
      LastEntryWins(infos[..|infos| - 1], i);
    }
  }

  lemma {:induction false} ExtractedNames(infos: seq<ResourceInfo>)
    ensures forall n :: n in ExtractResources(infos) ==> exists j :: 0 <= j < |infos| && infos[j].name == n
  {
    if infos != [] {
      var last := |infos| - 1;
      var before := infos[..last];
      ExtractedNames(before);
      forall n | n in ExtractResources(infos) ensures exists j :: 0 <= j < |infos| && infos[j].name == n {
        if n == infos[last].name {
          assert infos[last].name == n;
        } else {
          assert n in ExtractResources(before);
          var j :| 0 <= j < |before| && before[j].name == n;
          assert infos[j].name == n;
        }
      }
    }
  }
}
