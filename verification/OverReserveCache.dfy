/** The pessimistic cache of NUMA topologies: what a node reported at its last flush, minus everything reserved
    on it since, charged to every zone. */
module OverReserveCache {
  import opened Options
  import opened Sums
  import opened NumaNodes

  datatype ResourceInfo = ResourceInfo(name: string, available: int)

  /** A zone; `numaID` is absent for zones that are not NUMA nodes. */
  datatype Zone = Zone(numaID: Option<nat>, costs: map<int, int>, resources: seq<ResourceInfo>)

  type Zones = seq<Zone>

  datatype Topology = Topology(node: string, zones: Zones)

  /** Requests by pod (namespace and name). */
  type Requests = map<string, ResourceList>

  // ----- Pessimistic availability -----

  function ChargeInfo(r: ResourceInfo, request: ResourceList): ResourceInfo {
    if r.name !in request then r
    else if r.available < request[r.name] then r.(available := 0)
    else r.(available := r.available - request[r.name])
  }

  function ChargeZone(z: Zone, request: ResourceList): Zone {
    z.(resources := seq(|z.resources|, i requires 0 <= i < |z.resources| => ChargeInfo(z.resources[i], request)))
  }

  /** One pod charged to all zones. */
  function Charge(zones: Zones, request: ResourceList): Zones {
    seq(|zones|, i requires 0 <= i < |zones| => ChargeZone(zones[i], request))
  }

  ghost function Requested(data: Requests, name: string): map<string, int> {
    map k | k in data :: At(data[k], name)
  }

  ghost predicate Asked(data: Requests, name: string) {
    exists k :: k in data && name in data[k]
  }

  /** What is left of a resource: nothing changes if no pod asks for it, otherwise the requests of all pods are
      taken off, down to nothing. */
  ghost function Left(available: int, data: Requests, name: string): int {
    if Asked(data, name) then Max0(available - Sum(Requested(data, name))) else available
  }

  ghost function PessimisticInfo(r: ResourceInfo, data: Requests): ResourceInfo {
    r.(available := Left(r.available, data, r.name))
  }

  ghost function PessimisticZone(z: Zone, data: Requests): Zone {
    z.(resources := seq(|z.resources|, i requires 0 <= i < |z.resources| => PessimisticInfo(z.resources[i], data)))
  }

  ghost function Pessimistic(zones: Zones, data: Requests): Zones {
    seq(|zones|, i requires 0 <= i < |zones| => PessimisticZone(zones[i], data))
  }

  ghost predicate NonNegativeRequests(data: Requests) {
    forall k :: k in data ==> NonNegativeList(data[k])
  }

  /** Charging one more pod is the same as having it among the pods from the start. */
  lemma LeftStep(r: ResourceInfo, data: Requests, key: string, request: ResourceList)
    requires NonNegativeRequests(data) && NonNegativeList(request) && key !in data
    ensures ChargeInfo(PessimisticInfo(r, data), request) == PessimisticInfo(r, data[key := request])
  {
    var name, more := r.name, data[key := request];
    assert Requested(more, name) == Requested(data, name)[key := At(request, name)];
    SumPut(Requested(data, name), key, At(request, name));
    SumNonNegative(Requested(data, name));
    assert key in more && more[key] == request;
    if Asked(data, name) {
      var k :| k in data && name in data[k];
      assert k in more && name in more[k];
    }
    if !Asked(data, name) {
      assert forall k :: k in data ==> Requested(data, name)[k] == 0;
      SumZero(Requested(data, name));
    }
  }

  lemma ChargeStep(zones: Zones, data: Requests, key: string, request: ResourceList)
    requires NonNegativeRequests(data) && NonNegativeList(request) && key !in data
    ensures Charge(Pessimistic(zones, data), request) == Pessimistic(zones, data[key := request])
  {
    hide ChargeInfo, PessimisticInfo;
    forall i | 0 <= i < |zones|
      ensures Charge(Pessimistic(zones, data), request)[i] == Pessimistic(zones, data[key := request])[i]
    {
      var z := zones[i];
      forall j | 0 <= j < |z.resources|
        ensures ChargeInfo(PessimisticInfo(z.resources[j], data), request)
             == PessimisticInfo(z.resources[j], data[key := request])
      {
        LeftStep(z.resources[j], data, key, request);
      }
      assert ChargeZone(PessimisticZone(z, data), request).resources
          == PessimisticZone(z, data[key := request]).resources;
    }
  }

  lemma PessimisticEmpty(zones: Zones)
    ensures Pessimistic(zones, map[]) == zones
  {
    forall i | 0 <= i < |zones| ensures Pessimistic(zones, map[])[i] == zones[i] {
      assert PessimisticZone(zones[i], map[]).resources == zones[i].resources;
    }
  }

  /** A topology object as it is handed around. */
  class NodeTopology {
    const name: string
    var zones: Zones

    constructor (name: string, zones: Zones)
      ensures this.name == name && this.zones == zones
    {
      this.name := name;
      this.zones := zones;
    }

    method DeepCopy() returns (copy: NodeTopology)
      ensures fresh(copy) && copy.name == name && copy.zones == zones
    {
      copy := new NodeTopology(name, zones);
    }

    /** Takes one pod's request off every resource of every zone, in place. */
    method ChargePod(request: ResourceList)
      modifies this
      ensures zones == Charge(old(zones), request)
    {
      ghost var before := zones;
      for zi := 0 to |zones|
        invariant |zones| == |before|
        invariant forall i :: 0 <= i < zi ==> zones[i] == ChargeZone(before[i], request)
        invariant forall i :: zi <= i < |zones| ==> zones[i] == before[i]
      {
        var resources := zones[zi].resources;
        for ri := 0 to |resources|
          invariant |resources| == |before[zi].resources|
          invariant forall j :: 0 <= j < ri ==> resources[j] == ChargeInfo(before[zi].resources[j], request)
          invariant forall j :: ri <= j < |resources| ==> resources[j] == before[zi].resources[j]
        {
          var zr := resources[ri];
          if zr.name in request {
            if zr.available < request[zr.name] {
              resources := resources[ri := zr.(available := 0)];
            } else {
              resources := resources[ri := zr.(available := zr.available - request[zr.name])];
            }
          }
        }
        assert resources == ChargeZone(before[zi], request).resources;
        zones := zones[zi := zones[zi].(resources := resources)];
      }
    }

    /** Charges all pods, in whatever order the dictionary yields them. */
    method UpdateNRT(data: Requests)
      requires NonNegativeRequests(data)
      modifies this
      ensures zones == Pessimistic(old(zones), data)
    {
      ghost var before := zones;
      ghost var done: Requests := map[];
      PessimisticEmpty(before);
      var todo := data.Keys;
      hide Pessimistic, Charge, NonNegativeList;
      while todo != {}
        invariant todo <= data.Keys && done == (map k | k in data && k !in todo :: data[k])
        invariant zones == Pessimistic(before, done)
      {
        var key :| key in todo;
        ChargeStep(before, done, key, data[key]);
        ChargePod(data[key]);
        todo, done := todo - {key}, done[key := data[key]];
      }
      assert done == data;
    }
  }

  // ----- The cache as a value -----

  datatype Cache = Cache(nrts: map<string, Zones>, assumed: map<string, Requests>,
                         maybeOverReserved: map<string, int>, foreign: map<string, int>)

  datatype Event =
    | Reserve(node: string, pod: string, request: ResourceList)
    | Unreserve(node: string, pod: string)
    | HasForeignPods(node: string)
    | MaybeOverReserved(node: string)
    | Flush(topologies: seq<Topology>)

  function Incr(m: map<string, int>, key: string): map<string, int> {
    m[key := (if key in m then m[key] else 0) + 1]
  }

  function FlushOne(c: Cache, t: Topology): Cache {
    Cache(c.nrts[t.node := t.zones], c.assumed - {t.node}, c.maybeOverReserved - {t.node}, c.foreign - {t.node})
  }

  function FlushAll(c: Cache, ts: seq<Topology>): Cache {
    if ts == [] then c else FlushOne(FlushAll(c, ts[..|ts| - 1]), ts[|ts| - 1])
  }

  function AssumedOn(c: Cache, node: string): Requests {
    if node in c.assumed then c.assumed[node] else map[]
  }

  function Step(c: Cache, e: Event): Cache {
    match e
    case Reserve(node, pod, request) =>
      c.(assumed := c.assumed[node := AssumedOn(c, node)[pod := request]],
         maybeOverReserved := c.maybeOverReserved - {node})
    case Unreserve(node, pod) =>
      if node !in c.assumed then c else c.(assumed := c.assumed[node := c.assumed[node] - {pod}])
    case HasForeignPods(node) => if node !in c.nrts then c else c.(foreign := Incr(c.foreign, node))
    case MaybeOverReserved(node) => c.(maybeOverReserved := Incr(c.maybeOverReserved, node))
    case Flush(ts) => FlushAll(c, ts)
  }

  /** What a caller is told about a node. */
  datatype Answer = Blocked | NoTopology | Available(zones: Zones)

  ghost function Lookup(c: Cache, node: string): Answer {
    if node in c.foreign then Blocked
    else if node !in c.nrts then NoTopology
    else Available(Pessimistic(c.nrts[node], AssumedOn(c, node)))
  }

  class OverReserve {
    var nrts: map<string, NodeTopology>
    var assumedResources: map<string, Requests>
    var nodesMaybeOverreserved: map<string, int>
    var nodesWithForeignPods: map<string, int>

    ghost function State(): Cache
      reads this, nrts.Values
    {
      Cache(map n | n in nrts :: nrts[n].zones, assumedResources, nodesMaybeOverreserved, nodesWithForeignPods)
    }

    /** Starts from copies of the listed topologies. */
    constructor (listed: seq<NodeTopology>)
      ensures forall n :: n in nrts ==> fresh(nrts[n])
      ensures State() == FlushAll(Cache(map[], map[], map[], map[]), Values(listed))
    {
      nrts, assumedResources, nodesMaybeOverreserved, nodesWithForeignPods := map[], map[], map[], map[];
      new;
      assert State() == Cache(map[], map[], map[], map[]);
      FlushNodes(listed);
    }

    /** The answer is a fresh copy, so whatever is done to it does not reach the cache. */
    method GetCachedNRTCopy(node: string) returns (nrt: NodeTopology?, ok: bool)
      requires NonNegativeRequests(AssumedOn(State(), node))
      ensures nrt != null ==> fresh(nrt)
      ensures Lookup(State(), node)
           == if !ok then Blocked else if nrt == null then NoTopology else Available(nrt.zones)
    {
      if node in nodesWithForeignPods {
        return null, false;
      }
      if node !in nrts {
        return null, true;
      }
      var copy := nrts[node].DeepCopy();
      PessimisticEmpty(copy.zones);
      if node in assumedResources {
        copy.UpdateNRT(assumedResources[node]);
      }
      return copy, true;
    }

    method NodeMaybeOverReserved(node: string)
      modifies this
      ensures State() == Step(old(State()), MaybeOverReserved(node)) && nrts == old(nrts)
    {
      nodesMaybeOverreserved := Incr(nodesMaybeOverreserved, node);
    }

    method NodeHasForeignPods(node: string)
      modifies this
      ensures State() == Step(old(State()), HasForeignPods(node)) && nrts == old(nrts)
    {
      if node !in nrts {
        return;
      }
      nodesWithForeignPods := Incr(nodesWithForeignPods, node);
    }

    method ReserveNodeResources(node: string, pod: string, request: ResourceList)
      modifies this
      ensures State() == Step(old(State()), Reserve(node, pod, request)) && nrts == old(nrts)
    {
      if node !in assumedResources {
        assumedResources := assumedResources[node := map[]];
      }
      assumedResources := assumedResources[node := assumedResources[node][pod := request]];
      nodesMaybeOverreserved := nodesMaybeOverreserved - {node};
    }

    method UnreserveNodeResources(node: string, pod: string)
      modifies this
      ensures State() == Step(old(State()), Unreserve(node, pod)) && nrts == old(nrts)
    {
      if node !in assumedResources {
        return;
      }
      assumedResources := assumedResources[node := assumedResources[node] - {pod}];
    }

    /** The nodes to resync, each once: a copy of one counter is incremented for the keys of the other. */
    method NodesMaybeOverReserved() returns (nodes: seq<string>)
      ensures forall n :: n in nodes <==> Dirty(State(), n)
      ensures forall i, j :: 0 <= i < j < |nodes| ==> nodes[i] != nodes[j]
    {
      var counts := nodesWithForeignPods;
      var todo := nodesMaybeOverreserved.Keys;
      while todo != {}
        invariant todo <= nodesMaybeOverreserved.Keys
        invariant counts.Keys == nodesWithForeignPods.Keys + (nodesMaybeOverreserved.Keys - todo)
      {
        var node :| node in todo;
        counts := Incr(counts, node);
        todo := todo - {node};
      }
      nodes := KeysOf(counts);
      assert forall n :: n in nodes <==> n in counts.Keys;
    }

    /** One resync without interference; `listed` is absent when the pods cannot be listed. */
    method Resync(cluster: Cluster, listed: bool)
      modifies this
      ensures listed ==> forall node :: Resynced(old(State()), old(State()), State(), cluster, node)
      ensures !listed ==> State() == old(State())
    {
      ghost var before := State();
      hide FlushAll, FlushOne, Resynced, Names, Cluster.Confirms;
      var dirty := NodesMaybeOverReserved();
      if |dirty| == 0 {
        forall node ensures Resynced(before, before, before, cluster, node) {
          assert node !in dirty;
          CleanStays(before, cluster, node);
        }
        return;
      }
      if !listed {
        return;
      }
      var updates := CollectUpdates(dirty, cluster);
      ghost var ts := Values(updates);
      forall node ensures Resynced(before, before, FlushAll(before, ts), cluster, node) {
        NamedBy(updates, node);
        FlushResyncs(before, before, cluster, ts, node);
      }
      FlushNodes(updates);
    }

    method FlushNode(nrt: NodeTopology)
      modifies this
      ensures State() == FlushOne(old(State()), Topology(nrt.name, nrt.zones))
      ensures forall n :: n in nrts ==> fresh(nrts[n]) || (n in old(nrts) && nrts[n] == old(nrts)[n])
    {
      var copy := nrt.DeepCopy();
      ghost var before := State();
      nrts := nrts[copy.name := copy];
      assumedResources := assumedResources - {copy.name};
      nodesMaybeOverreserved := nodesMaybeOverreserved - {copy.name};
      nodesWithForeignPods := nodesWithForeignPods - {copy.name};
      assert State().nrts == before.nrts[copy.name := copy.zones];
    }

    /** Replaces what is known about the given nodes by copies of the new topologies. */
    method FlushNodes(nrtUpdates: seq<NodeTopology>)
      modifies this
      ensures State() == Step(old(State()), Flush(Values(nrtUpdates)))
      ensures forall n :: n in nrts ==> fresh(nrts[n]) || (n in old(nrts) && nrts[n] == old(nrts)[n])
    {
      ghost var c, ts := State(), Values(nrtUpdates);
      hide FlushOne;
      for i := 0 to |nrtUpdates|
        invariant State() == FlushAll(c, ts[..i]) && Values(nrtUpdates) == ts
        invariant forall n :: n in nrts ==> fresh(nrts[n]) || (n in old(nrts) && nrts[n] == old(nrts)[n])
      {
        assert ts[..i + 1][..i] == ts[..i];
        FlushNode(nrtUpdates[i]);
      }
      assert ts[..|nrtUpdates|] == ts;
    }
  }

  // ----- Resync -----

  /** A topology as the API server has it now, with the fingerprint of the pods it accounts for. */
  datatype Report = Report(zones: Zones, fingerprint: string)

  /** What a resync looks at: the reports, the relevant pods per node, and whether pods match a fingerprint. */
  datatype Cluster = Cluster(reports: map<string, Report>, podsOn: map<string, set<string>>,
                             matches: (set<string>, string) -> bool)
  {
    /** The latest report of the node accounts for exactly the pods that are known to run there. */
    predicate Confirms(node: string) {
      && node in reports && node in podsOn && reports[node].fingerprint != ""
      && matches(podsOn[node], reports[node].fingerprint)
    }
  }

  predicate Dirty(c: Cache, node: string) { node in c.foreign || node in c.maybeOverReserved }

  /** What a resync does to a node, when the nodes were checked in one state and flushed in another: a node that
      was dirty and whose report is confirmed starts over from that report, every other node keeps what it has. */
  ghost predicate Resynced(checked: Cache, before: Cache, after: Cache, cluster: Cluster, node: string) {
    if Dirty(checked, node) && cluster.Confirms(node) then
      && node in after.nrts && after.nrts[node] == cluster.reports[node].zones
      && AssumedOn(after, node) == map[] && !Dirty(after, node)
    else SameAt(before, after, node) && (Dirty(after, node) <==> Dirty(before, node))
  }

  /** The updates are the confirmed reports of dirty nodes, as far as this node is concerned. */
  ghost predicate UpdatesFor(checked: Cache, cluster: Cluster, ts: seq<Topology>, node: string) {
    && (forall i :: 0 <= i < |ts| ==>
          && Dirty(checked, ts[i].node) && cluster.Confirms(ts[i].node)
          && ts[i].zones == cluster.reports[ts[i].node].zones)
    && (Dirty(checked, node) && cluster.Confirms(node) ==> Names(ts, node))
  }

  /** The keys of a map, in any order. */
  method KeysOf(m: map<string, int>) returns (keys: seq<string>)
    ensures forall n :: n in keys <==> n in m
    ensures forall i, j :: 0 <= i < j < |keys| ==> keys[i] != keys[j]
  {
    keys := [];
    var todo := m.Keys;
    while todo != {}
      invariant todo <= m.Keys && forall n :: n in keys <==> n in m && n !in todo
      invariant forall i, j :: 0 <= i < j < |keys| ==> keys[i] != keys[j]
    {
      var key :| key in todo;
      keys := keys + [key];
      todo := todo - {key};
    }
  }

  /** The confirmed reports of the dirty nodes. */
  method CollectUpdates(dirty: seq<string>, cluster: Cluster) returns (updates: seq<NodeTopology>)
    ensures forall i :: 0 <= i < |updates| ==> fresh(updates[i])
    ensures forall i :: 0 <= i < |updates| ==>
      && updates[i].name in dirty && cluster.Confirms(updates[i].name)
      && updates[i].zones == cluster.reports[updates[i].name].zones
    ensures forall n :: n in dirty && cluster.Confirms(n) ==> exists i :: 0 <= i < |updates| && updates[i].name == n
  {
    updates := [];
    for k := 0 to |dirty|
      invariant forall i :: 0 <= i < |updates| ==> fresh(updates[i])
      invariant forall i :: 0 <= i < |updates| ==>
        && updates[i].name in dirty && cluster.Confirms(updates[i].name)
        && updates[i].zones == cluster.reports[updates[i].name].zones
      invariant forall m :: 0 <= m < k && cluster.Confirms(dirty[m]) ==>
        exists i :: 0 <= i < |updates| && updates[i].name == dirty[m]
    {
      hide Cluster.Confirms;
      var node := dirty[k];
      if cluster.Confirms(node) {
        ConfirmedIsReported(cluster, node);
        var candidate := new NodeTopology(node, cluster.reports[node].zones);
        ghost var before := updates;
        updates := updates + [candidate];
        assert updates[|before|].name == node && forall i :: 0 <= i < |before| ==> updates[i] == before[i];
      }
    }
  }

  lemma NamedBy(updates: seq<NodeTopology>, node: string)
    ensures (exists i :: 0 <= i < |updates| && updates[i].name == node) ==> Names(Values(updates), node)
  {
    if i :| 0 <= i < |updates| && updates[i].name == node {
      assert Values(updates)[i].node == node;
    }
  }

  lemma ConfirmedIsReported(cluster: Cluster, node: string)
    requires cluster.Confirms(node)
    ensures node in cluster.reports
  {
  }

  /** Flushing exactly the confirmed dirty nodes resyncs every node, whatever state the flush finds. */
  lemma FlushResyncs(checked: Cache, c: Cache, cluster: Cluster, ts: seq<Topology>, node: string)
    requires UpdatesFor(checked, cluster, ts, node)
    ensures Resynced(checked, c, FlushAll(c, ts), cluster, node)
  {
    FlushAllEffect(c, ts, node);
    FlushAllDirty(c, ts, node);
    var d := FlushAll(c, ts);
    if Names(ts, node) {
      assert LastEntry(ts, node, d.nrts[node]);
      var k :| 0 <= k < |ts| && ts[k] == Topology(node, d.nrts[node]);
    }
  }

  /** A resync with interference: the check and the flush are two locked sections, and any events may come between
      them. A node that was dirty and confirmed at the check starts over from its report, so that all that happened
      to it in between is forgotten; every other node ends as those events left it. */
  lemma ResyncUnderInterference(c: Cache, between: seq<Event>, cluster: Cluster, ts: seq<Topology>, node: string)
    requires UpdatesFor(c, cluster, ts, node)
    ensures Resynced(c, Run(c, between), Run(c, between + [Flush(ts)]), cluster, node)
  {
    var all := between + [Flush(ts)];
    assert all[..|between|] == between;
    FlushResyncs(c, Run(c, between), cluster, ts, node);
  }

  lemma CleanStays(c: Cache, cluster: Cluster, node: string)
    requires !Dirty(c, node)
    ensures Resynced(c, c, c, cluster, node)
  {
  }

  lemma {:induction false} FlushAllDirty(c: Cache, ts: seq<Topology>, node: string)
    ensures node in FlushAll(c, ts).maybeOverReserved <==> node in c.maybeOverReserved && !Names(ts, node)
  {
    if ts != [] {
      var before := ts[..|ts| - 1];
      FlushAllDirty(c, before, node);
      assert ts == before + [ts[|ts| - 1]];
      NamesStep(before, ts[|ts| - 1], node);
      hide Names;
    }
  }

  /** In particular a reservation that lands between the check and the flush is dropped exactly when its node is
      flushed, although no report accounts for its pod. */
  lemma ReserveBeforeFlushIsDroppedExactly(c: Cache, node: string, pod: string, request: ResourceList,
                                           ts: seq<Topology>)
    ensures pod in AssumedOn(Step(Step(c, Reserve(node, pod, request)), Flush(ts)), node) <==> !Names(ts, node)
  {
    var reserved := Step(c, Reserve(node, pod, request));
    AssumedStep(c, Reserve(node, pod, request), node, pod, request);
    AssumedStep(reserved, Flush(ts), node, pod, request);
    FlushAllEffect(reserved, ts, node);
  }

  /** A reservation that is really lost, on a cache that knows nothing else. */
  lemma DroppedReservationExample()
    ensures var c := Cache(map[], map[], map["n" := 1], map[]);
            var reserved := Step(c, Reserve("n", "ns/pod", map["cpu" := 1]));
            && "ns/pod" in AssumedOn(reserved, "n")
            && "ns/pod" !in AssumedOn(Step(reserved, Flush([Topology("n", [])])), "n")
  {
    var c := Cache(map[], map[], map["n" := 1], map[]);
    var ts := [Topology("n", [])];
    assert ts[0].node == "n";
    ReserveBeforeFlushIsDroppedExactly(c, "n", "ns/pod", map["cpu" := 1], ts);
  }

  ghost function Values(ts: seq<NodeTopology>): seq<Topology>
    reads ts
  {
    seq(|ts|, i requires 0 <= i < |ts| reads ts => Topology(ts[i].name, ts[i].zones))
  }

  /** A caller may do what it likes with the copy it was given: the cache keeps its state. */
  method OverwriteCopy(cache: OverReserve, node: string, zones: Zones)
    requires NonNegativeRequests(AssumedOn(cache.State(), node))
    ensures cache.State() == old(cache.State())
  {
    var nrt, ok := cache.GetCachedNRTCopy(node);
    if nrt != null {
      nrt.zones := zones;
    }
  }

  // ----- The cache as a function of its history -----

  ghost function Run(c: Cache, h: seq<Event>): Cache {
    if h == [] then c else Step(Run(c, h[..|h| - 1]), h[|h| - 1])
  }

  predicate Names(ts: seq<Topology>, node: string) {
    exists i :: 0 <= i < |ts| && ts[i].node == node
  }

  predicate Flushes(e: Event, node: string) {
    e.Flush? && Names(e.topologies, node)
  }

  /** The event ends what an earlier reservation of the pod on the node meant. */
  predicate Supersedes(e: Event, node: string, pod: string) {
    || Flushes(e, node)
    || e == Unreserve(node, pod)
    || (e.Reserve? && e.node == node && e.pod == pod)
  }

  /** The pod was reserved on the node with this request, and nothing has superseded that since. */
  ghost predicate Holds(h: seq<Event>, node: string, pod: string, request: ResourceList) {
    exists i :: 0 <= i < |h| && h[i] == Reserve(node, pod, request)
                && forall j :: i < j < |h| ==> !Supersedes(h[j], node, pod)
  }

  /** The cache knows a topology of the node: from the start or from some flush. */
  ghost predicate Known(start: Cache, h: seq<Event>, node: string) {
    node in start.nrts || exists i :: 0 <= i < |h| && Flushes(h[i], node)
  }

  /** A foreign pod was seen on the node, while its topology was known, after its last flush. */
  ghost predicate ForeignSeen(start: Cache, h: seq<Event>, node: string) {
    exists i :: 0 <= i < |h| && SeenAt(start, h, node, i)
  }

  ghost predicate SeenAt(start: Cache, h: seq<Event>, node: string, i: nat)
    requires i < |h|
  {
    && h[i] == HasForeignPods(node) && Known(start, h[..i], node)
    && forall j :: i < j < |h| ==> !Flushes(h[j], node)
  }

  /** `zones` is the last entry for the node. */
  ghost predicate LastEntry(ts: seq<Topology>, node: string, zones: Zones) {
    exists k :: 0 <= k < |ts| && ts[k] == Topology(node, zones) && forall m :: k < m < |ts| ==> ts[m].node != node
  }

  /** The latest flush that names the node is event `i`, and reports these zones for it. */
  ghost predicate ReportedAt(h: seq<Event>, node: string, zones: Zones, i: nat)
    requires i < |h|
  {
    && h[i].Flush? && LastEntry(h[i].topologies, node, zones)
    && forall j :: i < j < |h| ==> !Flushes(h[j], node)
  }

  /** The zones reported for the node by the latest flush that names it, or known from the start. */
  ghost predicate LastReported(start: Cache, h: seq<Event>, node: string, zones: Zones) {
    || (exists i :: 0 <= i < |h| && ReportedAt(h, node, zones, i))
    || (node in start.nrts && start.nrts[node] == zones && forall i :: 0 <= i < |h| ==> !Flushes(h[i], node))
  }

  lemma HoldsStep(h: seq<Event>, e: Event, node: string, pod: string, request: ResourceList)
    ensures Holds(h + [e], node, pod, request) <==>
              e == Reserve(node, pod, request) || (Holds(h, node, pod, request) && !Supersedes(e, node, pod))
  {
    var all := h + [e];
    if e == Reserve(node, pod, request) {
      assert all[|h|] == e;
    }
    if Holds(h, node, pod, request) && !Supersedes(e, node, pod) {
      var i :| 0 <= i < |h| && h[i] == Reserve(node, pod, request)
               && forall j :: i < j < |h| ==> !Supersedes(h[j], node, pod);
      assert all[i] == h[i];
    }
    if Holds(all, node, pod, request) && e != Reserve(node, pod, request) {
      var i :| 0 <= i < |all| && all[i] == Reserve(node, pod, request)
               && forall j :: i < j < |all| ==> !Supersedes(all[j], node, pod);
      assert all[|h|] == e && i < |h| && h[i] == all[i];
      assert forall j :: i < j < |h| ==> h[j] == all[j];
    }
  }

  lemma KnownStep(start: Cache, h: seq<Event>, e: Event, node: string)
    ensures Known(start, h + [e], node) <==> Known(start, h, node) || Flushes(e, node)
  {
    var all := h + [e];
    assert all[|h|] == e && forall i :: 0 <= i < |h| ==> all[i] == h[i];
    if i :| 0 <= i < |h| && Flushes(h[i], node) {
      assert Flushes(all[i], node);
    }
  }

  lemma SeenStep(start: Cache, h: seq<Event>, e: Event, node: string, i: nat)
    requires i <= |h|
    ensures SeenAt(start, h + [e], node, i) <==>
              if i == |h| then e == HasForeignPods(node) && Known(start, h, node)
              else SeenAt(start, h, node, i) && !Flushes(e, node)
  {
    hide Flushes, Known;
    var all := h + [e];
    assert all[..i] == h[..i];
    if i < |h| {
      assert all[|h|] == e;
      assert forall j :: i < j < |h| ==> all[j] == h[j];
    } else {
      assert h[..|h|] == h;
    }
  }

  lemma ForeignStep(start: Cache, h: seq<Event>, e: Event, node: string)
    ensures ForeignSeen(start, h + [e], node) <==>
              || (e == HasForeignPods(node) && Known(start, h, node))
              || (ForeignSeen(start, h, node) && !Flushes(e, node))
  {
    hide SeenAt, Flushes, Known;
    forall i | 0 <= i <= |h|
      ensures SeenAt(start, h + [e], node, i) <==>
                if i == |h| then e == HasForeignPods(node) && Known(start, h, node)
                else SeenAt(start, h, node, i) && !Flushes(e, node)
    {
      SeenStep(start, h, e, node, i);
    }
    if e == HasForeignPods(node) && Known(start, h, node) {
      assert SeenAt(start, h + [e], node, |h|);
    }
  }

  lemma NamesStep(ts: seq<Topology>, t: Topology, node: string)
    ensures Names(ts + [t], node) <==> Names(ts, node) || t.node == node
  {
    var all := ts + [t];
    assert all[|ts|] == t;
    if i :| 0 <= i < |ts| && ts[i].node == node {
      assert all[i].node == node;
    }
  }

  lemma LastEntryStep(ts: seq<Topology>, t: Topology, node: string, zones: Zones)
    ensures LastEntry(ts + [t], node, zones) <==>
              if t.node == node then t.zones == zones else LastEntry(ts, node, zones)
  {
    var all := ts + [t];
    assert all[|ts|] == t && forall m :: 0 <= m < |ts| ==> all[m] == ts[m];
    if t.node != node && LastEntry(ts, node, zones) {
      var k :| 0 <= k < |ts| && ts[k] == Topology(node, zones) && forall m :: k < m < |ts| ==> ts[m].node != node;
      assert all[k] == Topology(node, zones);
    }
    if LastEntry(all, node, zones) {
      var k :| 0 <= k < |all| && all[k] == Topology(node, zones) && forall m :: k < m < |all| ==> all[m].node != node;
      if k < |ts| {
        assert ts[k] == Topology(node, zones);
      }
    }
  }

  /** A flush forgets everything about exactly the nodes it names, and keeps their last entry. */
  lemma {:induction false} FlushAllEffect(c: Cache, ts: seq<Topology>, node: string)
    ensures var d := FlushAll(c, ts);
            if Names(ts, node) then
              && AssumedOn(d, node) == map[] && node !in d.foreign && node in d.nrts
              && forall zones :: LastEntry(ts, node, zones) <==> d.nrts[node] == zones
            else
              && AssumedOn(d, node) == AssumedOn(c, node) && (node in d.foreign <==> node in c.foreign)
              && (node in d.nrts <==> node in c.nrts) && (node in c.nrts ==> d.nrts[node] == c.nrts[node])
  {
    if ts != [] {
      var before, t := ts[..|ts| - 1], ts[|ts| - 1];
      FlushAllEffect(c, before, node);
      assert ts == before + [t];
      NamesStep(before, t, node);
      forall zones
        ensures LastEntry(ts, node, zones) <==>
                  if t.node == node then t.zones == zones else LastEntry(before, node, zones)
      {
        LastEntryStep(before, t, node, zones);
      }
      hide Names, LastEntry;
      assert FlushAll(c, ts) == FlushOne(FlushAll(c, before), t);
    }
  }

  lemma ReportedStep(start: Cache, h: seq<Event>, e: Event, node: string, zones: Zones)
    ensures LastReported(start, h + [e], node, zones) <==>
              if Flushes(e, node) then LastEntry(e.topologies, node, zones) else LastReported(start, h, node, zones)
  {
    hide Flushes, LastEntry;
    var all := h + [e];
    assert all[|h|] == e && forall i :: 0 <= i < |h| ==> all[i] == h[i];
    EntryNeedsName(e, node, zones);
    forall i | 0 <= i < |h|
      ensures ReportedAt(all, node, zones, i) <==> ReportedAt(h, node, zones, i) && !Flushes(e, node)
    {
      assert forall j :: i < j < |h| ==> all[j] == h[j];
      if ReportedAt(h, node, zones, i) && !Flushes(e, node) {
        assert forall j :: i < j < |all| ==> !Flushes(all[j], node);
      }
    }
    if Flushes(e, node) && LastEntry(e.topologies, node, zones) {
      assert ReportedAt(all, node, zones, |h|);
    }
    if LastReported(start, h, node, zones) && !Flushes(e, node) {
      if i :| 0 <= i < |h| && ReportedAt(h, node, zones, i) {
        assert ReportedAt(all, node, zones, i);
      }
    }
    if i :| 0 <= i < |all| && ReportedAt(all, node, zones, i) {
      assert i < |h| || Flushes(e, node);
    }
  }

  lemma EntryNeedsName(e: Event, node: string, zones: Zones)
    ensures e.Flush? && LastEntry(e.topologies, node, zones) ==> Flushes(e, node)
    ensures Flushes(e, node) ==> e.Flush?
  {
  }

  /** Cache and history tell the same about a node. */
  ghost predicate Agrees(start: Cache, h: seq<Event>, c: Cache, node: string) {
    && (node in c.foreign <==> ForeignSeen(start, h, node))
    && (node in c.nrts <==> Known(start, h, node))
    && (node in c.nrts ==> forall zones :: LastReported(start, h, node, zones) <==> c.nrts[node] == zones)
    && (forall pod, request :: Holds(h, node, pod, request)
                               <==> pod in AssumedOn(c, node) && AssumedOn(c, node)[pod] == request)
  }

  /** What one event does to the reservations of a node. */
  lemma AssumedStep(c: Cache, e: Event, node: string, pod: string, request: ResourceList)
    ensures pod in AssumedOn(Step(c, e), node) && AssumedOn(Step(c, e), node)[pod] == request <==>
              || e == Reserve(node, pod, request)
              || (pod in AssumedOn(c, node) && AssumedOn(c, node)[pod] == request && !Supersedes(e, node, pod))
  {
    if e.Flush? {
      FlushAllEffect(c, e.topologies, node);
      hide FlushAll, Names, LastEntry;
    }
  }

  /** What one event does to the topology and the foreign-pod mark of a node. */
  lemma NodeStep(c: Cache, e: Event, node: string)
    ensures var d := Step(c, e);
            && (node in d.nrts <==> node in c.nrts || Flushes(e, node))
            && (node in d.foreign <==> (e == HasForeignPods(node) && node in c.nrts)
                                       || (node in c.foreign && !Flushes(e, node)))
            && (!Flushes(e, node) && node in c.nrts ==> d.nrts[node] == c.nrts[node])
            && (Flushes(e, node) ==> forall zones :: LastEntry(e.topologies, node, zones) <==> d.nrts[node] == zones)
  {
    if e.Flush? {
      FlushAllEffect(c, e.topologies, node);
    }
    hide FlushAll, Names, LastEntry;
  }

  lemma AgreesStep(start: Cache, h: seq<Event>, c: Cache, e: Event, node: string)
    requires Agrees(start, h, c, node)
    ensures Agrees(start, h + [e], Step(c, e), node)
  {
    hide Known, ForeignSeen, LastReported, Holds, Step, LastEntry, Flushes, AssumedOn, Supersedes;
    var d := Step(c, e);
    KnownStep(start, h, e, node);
    ForeignStep(start, h, e, node);
    NodeStep(c, e, node);
    if node in d.nrts {
      forall zones ensures LastReported(start, h + [e], node, zones) <==> d.nrts[node] == zones {
        ReportedStep(start, h, e, node, zones);
      }
    }
    forall pod, request
      ensures Holds(h + [e], node, pod, request)
              <==> pod in AssumedOn(d, node) && AssumedOn(d, node)[pod] == request
    {
      HoldsStep(h, e, node, pod, request);
      AssumedStep(c, e, node, pod, request);
    }
  }

  /** A cache that has not seen anything yet. */
  ghost predicate Fresh(start: Cache) {
    start.assumed == map[] && start.foreign == map[] && start.maybeOverReserved == map[]
  }

  /** The answer about a node is a function of its history since its last flush: blocked if a foreign pod was
      seen since, otherwise the zones reported by that flush, each resource lowered by the requests of the pods
      that hold a reservation. */
  lemma {:induction false} CacheFollowsHistory(start: Cache, h: seq<Event>, node: string)
    requires Fresh(start)
    ensures Agrees(start, h, Run(start, h), node)
    decreases |h|
  {
    if h != [] {
      var before, e := h[..|h| - 1], h[|h| - 1];
      assert h == before + [e];
      CacheFollowsHistory(start, before, node);
      AgreesStep(start, before, Run(start, before), e, node);
    }
  }

  /** The pods that hold a reservation on the node, with their requests. */
  ghost predicate IsHeld(h: seq<Event>, node: string, held: Requests) {
    forall pod, request :: Holds(h, node, pod, request) <==> pod in held && held[pod] == request
  }

  /** The answer spelled out. */
  lemma AnswerFollowsHistory(start: Cache, h: seq<Event>, node: string, zones: Zones, held: Requests)
    requires Fresh(start) && IsHeld(h, node, held)
    requires Known(start, h, node) ==> LastReported(start, h, node, zones)
    ensures Lookup(Run(start, h), node) ==
              if ForeignSeen(start, h, node) then Blocked
              else if !Known(start, h, node) then NoTopology
              else Available(Pessimistic(zones, held))
  {
    CacheFollowsHistory(start, h, node);
    var c := Run(start, h);
    hide ForeignSeen, Known, LastReported, Holds, Run, Pessimistic;
    var assumed := AssumedOn(c, node);
    forall pod ensures pod in held <==> pod in assumed {
      assert pod in held ==> Holds(h, node, pod, held[pod]);
      assert pod in assumed ==> Holds(h, node, pod, assumed[pod]);
    }
    forall pod | pod in held ensures held[pod] == assumed[pod] {
      assert Holds(h, node, pod, held[pod]);
    }
    assert held == assumed;
  }

  // ----- Which nodes are resynced -----

  /** The event forgets the discards of the node. */
  predicate Forgets(e: Event, node: string) {
    Flushes(e, node) || (e.Reserve? && e.node == node)
  }

  /** The node was discarded, and neither flushed nor reserved on since. */
  ghost predicate DiscardedSince(h: seq<Event>, node: string) {
    exists i :: 0 <= i < |h| && h[i] == MaybeOverReserved(node) && forall j :: i < j < |h| ==> !Forgets(h[j], node)
  }

  lemma DiscardedStep(h: seq<Event>, e: Event, node: string)
    ensures DiscardedSince(h + [e], node) <==>
              e == MaybeOverReserved(node) || (DiscardedSince(h, node) && !Forgets(e, node))
  {
    hide Forgets;
    var all := h + [e];
    assert all[|h|] == e && forall i :: 0 <= i < |h| ==> all[i] == h[i];
    if DiscardedSince(h, node) && !Forgets(e, node) {
      var i :| 0 <= i < |h| && h[i] == MaybeOverReserved(node) && forall j :: i < j < |h| ==> !Forgets(h[j], node);
      assert all[i] == h[i];
    }
    if DiscardedSince(all, node) && e != MaybeOverReserved(node) {
      var i :| 0 <= i < |all| && all[i] == MaybeOverReserved(node)
               && forall j :: i < j < |all| ==> !Forgets(all[j], node);
      assert i < |h| && h[i] == all[i];
      assert forall j :: i < j < |h| ==> h[j] == all[j];
    }
  }

  lemma MaybeStep(c: Cache, e: Event, node: string)
    ensures node in Step(c, e).maybeOverReserved <==>
              e == MaybeOverReserved(node) || (node in c.maybeOverReserved && !Forgets(e, node))
  {
    if e.Flush? {
      FlushAllDirty(c, e.topologies, node);
    }
    hide FlushAll, Names;
  }

  /** What a resync looks at, from the history: a node is dirty exactly when since its last flush a foreign pod was
      seen on it, or it was discarded after its last reservation. */
  lemma DirtyFollowsHistory(start: Cache, h: seq<Event>, node: string)
    requires Fresh(start)
    ensures Dirty(Run(start, h), node) <==> ForeignSeen(start, h, node) || DiscardedSince(h, node)
  {
    CacheFollowsHistory(start, h, node);
    DiscardsFollowHistory(start, h, node);
    hide ForeignSeen, DiscardedSince, Run, Known, LastReported, Holds;
  }

  lemma {:induction false} DiscardsFollowHistory(start: Cache, h: seq<Event>, node: string)
    requires Fresh(start)
    ensures node in Run(start, h).maybeOverReserved <==> DiscardedSince(h, node)
    decreases |h|
  {
    if h != [] {
      var before, e := h[..|h| - 1], h[|h| - 1];
      assert h == before + [e];
      DiscardsFollowHistory(start, before, node);
      DiscardedStep(before, e, node);
      MaybeStep(Run(start, before), e, node);
      hide DiscardedSince, Step, Forgets;
    }
  }

  /** Two caches hold the same about a node. */
  ghost predicate SameAt(c: Cache, d: Cache, node: string) {
    && (node in c.foreign <==> node in d.foreign) && (node in c.nrts <==> node in d.nrts)
    && (node in c.nrts ==> c.nrts[node] == d.nrts[node]) && AssumedOn(c, node) == AssumedOn(d, node)
  }

  lemma SameStep(c: Cache, d: Cache, e: Event, node: string)
    requires SameAt(c, d, node)
    ensures SameAt(Step(c, e), Step(d, e), node)
  {
    NodeStep(c, e, node);
    NodeStep(d, e, node);
    var a, b := AssumedOn(Step(c, e), node), AssumedOn(Step(d, e), node);
    hide Step, LastEntry, Flushes, Supersedes;
    forall pod ensures pod in a <==> pod in b {
      if pod in a {
        AssumedStep(c, e, node, pod, a[pod]);
        AssumedStep(d, e, node, pod, a[pod]);
      }
      if pod in b {
        AssumedStep(c, e, node, pod, b[pod]);
        AssumedStep(d, e, node, pod, b[pod]);
      }
    }
    forall pod | pod in a ensures a[pod] == b[pod] {
      AssumedStep(c, e, node, pod, a[pod]);
      AssumedStep(d, e, node, pod, a[pod]);
    }
    assert a == b;
    EntryNeedsName(e, node, []);
    if Flushes(e, node) {
      assert LastEntry(e.topologies, node, Step(c, e).nrts[node]);
    }
  }

  lemma FlushMakesSame(c: Cache, d: Cache, e: Event, node: string)
    requires Flushes(e, node)
    ensures SameAt(Step(c, e), Step(d, e), node)
  {
    FlushAllEffect(c, e.topologies, node);
    FlushAllEffect(d, e.topologies, node);
    hide Names, LastEntry, FlushAll;
    assert LastEntry(e.topologies, node, FlushAll(c, e.topologies).nrts[node]);
  }

  /** Nothing before the last flush of a node matters: whatever the caches were, after a flush of the node and
      the same events they answer the same about it. */
  lemma {:induction false} FlushCutsHistory(c: Cache, d: Cache, flush: Event, tail: seq<Event>, node: string)
    requires Flushes(flush, node)
    ensures SameAt(Run(Step(c, flush), tail), Run(Step(d, flush), tail), node)
    ensures Lookup(Run(Step(c, flush), tail), node) == Lookup(Run(Step(d, flush), tail), node)
    decreases |tail|
  {
    if tail == [] {
      FlushMakesSame(c, d, flush, node);
    } else {
      var before := tail[..|tail| - 1];
      FlushCutsHistory(c, d, flush, before, node);
      SameStep(Run(Step(c, flush), before), Run(Step(d, flush), before), tail[|tail| - 1], node);
    }
  }

  /** What a resync does, condition by condition: a node keeps topology, reservations and marks unless it was dirty,
      has a report, is listed with pods, the report carries a fingerprint, and the pods match it; and then it starts
      over from the report. */
  lemma ResyncedExactly(checked: Cache, before: Cache, after: Cache, cluster: Cluster, node: string)
    requires Resynced(checked, before, after, cluster, node)
    ensures if (node in checked.foreign || node in checked.maybeOverReserved) &&
               node in cluster.reports && node in cluster.podsOn && cluster.reports[node].fingerprint != "" &&
               cluster.matches(cluster.podsOn[node], cluster.reports[node].fingerprint)
            then
              && node in after.nrts && after.nrts[node] == cluster.reports[node].zones
              && AssumedOn(after, node) == map[] && node !in after.foreign && node !in after.maybeOverReserved
            else
              && (node in after.nrts <==> node in before.nrts)
              && (node in before.nrts ==> after.nrts[node] == before.nrts[node])
              && AssumedOn(after, node) == AssumedOn(before, node)
              && (node in after.foreign <==> node in before.foreign)
              && (node in after.foreign || node in after.maybeOverReserved <==>
                  node in before.foreign || node in before.maybeOverReserved)
  {
  }
}
