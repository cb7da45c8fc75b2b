/** The least-NUMA-nodes scorer: the smallest set of NUMA nodes that holds a container, nearest nodes first. */
module LeastNuma {
  import opened Options
  import opened NumaNodes
  import opened Subsequences

  /** The largest distance of the System Locality Information Table. */
  const MAX_DISTANCE: int := 255
  const MAX_NODE_SCORE: int := 100
  const MIN_NODE_SCORE: int := 0

  type Combination = seq<nat>

  // ----- All combinations of a given size -----

  predicate Increasing(c: Combination) {
    forall a, b :: 0 <= a < b < |c| ==> c[a] < c[b]
  }

  /** `c` picks `k` of the positions `low..n`. */
  predicate Picks(c: Combination, low: nat, n: nat, k: nat) {
    |c| == k && Increasing(c) && forall a :: 0 <= a < k ==> low <= c[a] < n
  }

  function Prefixed(x: nat, cs: seq<Combination>): seq<Combination> {
    if cs == [] then [] else [[x] + cs[0]] + Prefixed(x, cs[1..])
  }

  /** The choices of `k` positions from `low..n` in lexicographic order. */
  function CombinationsFrom(low: nat, n: nat, k: nat): seq<Combination>
    decreases if low <= n then n - low else 0
  {
    if k == 0 then [[]]
    else if low >= n then []
    else Prefixed(low, CombinationsFrom(low + 1, n, k - 1)) + CombinationsFrom(low + 1, n, k)
  }

  function Combinations(n: nat, k: nat): seq<Combination> { CombinationsFrom(0, n, k) }

  lemma {:induction false} PrefixedContains(x: nat, cs: seq<Combination>, c: Combination)
    ensures c in Prefixed(x, cs) <==> c != [] && c[0] == x && c[1..] in cs
  {
    if cs != [] {
      PrefixedContains(x, cs[1..], c);
      assert c == [x] + cs[0] <==> c != [] && c[0] == x && c[1..] == cs[0];
      assert c != [] ==> (c[1..] in cs <==> c[1..] == cs[0] || c[1..] in cs[1..]);
    }
  }

  lemma PicksAtEnds(c: Combination, low: nat, n: nat, k: nat)
    ensures Picks(c, low, n, 0) <==> c == []
    ensures k > 0 && low >= n ==> !Picks(c, low, n, k)
  {
    assert k > 0 && Picks(c, low, n, k) ==> low <= c[0] < n;
  }

  /** The list holds exactly the increasing choices. */
  lemma {:induction false} CombinationsComplete(low: nat, n: nat, k: nat, c: Combination)
    ensures c in CombinationsFrom(low, n, k) <==> Picks(c, low, n, k)
    decreases if low <= n then n - low else 0
  {
    hide Picks, Prefixed;
    PicksAtEnds(c, low, n, k);
    if k > 0 && low < n {
      var with, without := Prefixed(low, CombinationsFrom(low + 1, n, k - 1)), CombinationsFrom(low + 1, n, k);
      assert CombinationsFrom(low, n, k) == with + without;
      hide *;
      assert c in with + without <==> c in with || c in without;
      CombinationsComplete(low + 1, n, k, c);
      PrefixedContains(low, CombinationsFrom(low + 1, n, k - 1), c);
      PicksAbove(c, low, n, k);
      if c != [] {
        CombinationsComplete(low + 1, n, k - 1, c[1..]);
        if c[0] == low {
          PicksCons(c, low, n, k);
        }
      }
    }
  }

  lemma PicksAbove(c: Combination, low: nat, n: nat, k: nat)
    requires k > 0
    ensures Picks(c, low + 1, n, k) <==> Picks(c, low, n, k) && c[0] != low
    ensures Picks(c, low, n, k) ==> c != []
  {
    if Picks(c, low, n, k) && c[0] != low {
      forall a | 0 <= a < k ensures low < c[a] {
        assert c[0] <= c[a];
      }
    }
  }

  lemma PicksCons(c: Combination, low: nat, n: nat, k: nat)
    requires c != [] && c[0] == low < n && k > 0
    ensures Picks(c, low, n, k) <==> Picks(c[1..], low + 1, n, k - 1)
  {
    if Picks(c[1..], low + 1, n, k - 1) {
      forall a, b | 0 <= a < b < |c| ensures c[a] < c[b] {
        assert c[b] == c[1..][b - 1];
        if a > 0 {
          assert c[a] == c[1..][a - 1];
        }
      }
    }
  }

  // ----- Distances and fit -----

  function Cost(nodes: seq<NUMANode>, i: nat, j: nat): int
    requires i < |nodes| && j < |nodes|
  {
    if nodes[j].id in nodes[i].costs then nodes[i].costs[nodes[j].id] else MAX_DISTANCE
  }

  /** Distances from node `i` to the nodes of `c`. */
  function RowSum(nodes: seq<NUMANode>, i: nat, c: Combination): int
    requires i < |nodes| && InRange(nodes, c)
  {
    if c == [] then 0 else RowSum(nodes, i, c[..|c| - 1]) + Cost(nodes, i, c[|c| - 1])
  }

  /** Distances from the first `m` nodes of `c` to all nodes of `c`. */
  function DistanceSum(nodes: seq<NUMANode>, c: Combination, m: nat): int
    requires InRange(nodes, c) && m <= |c|
  {
    if m == 0 then 0 else DistanceSum(nodes, c, m - 1) + RowSum(nodes, c[m - 1], c)
  }

  /** The average distance over all ordered pairs of a combination. */
  function AvgDistance(nodes: seq<NUMANode>, c: Combination): real
    requires InRange(nodes, c)
  {
    if c == [] then MAX_DISTANCE as real
    else DistanceSum(nodes, c, |c|) as real / (|c| * |c|) as real
  }

  method NodesAvgDistance(nodes: seq<NUMANode>, c: Combination) returns (d: real)
    requires InRange(nodes, c)
    ensures d == AvgDistance(nodes, c)
  {
    if |c| == 0 {
      return MAX_DISTANCE as real;
    }
    var accu := 0;
    for m := 0 to |c|
      invariant accu == DistanceSum(nodes, c, m)
    {
      for k := 0 to |c|
        invariant accu == DistanceSum(nodes, c, m) + RowSum(nodes, c[m], c[..k])
      {
        assert c[..k + 1][..k] == c[..k];
        accu := accu + Cost(nodes, c[m], c[k]);
      }
      assert c[..|c|] == c;
    }
    assert |c| * |c| > 0;
    d := accu as real / (|c| * |c|) as real;
  }

  ghost predicate CostsWithinTable(nodes: seq<NUMANode>) {
    forall i, id :: 0 <= i < |nodes| && id in nodes[i].costs ==> nodes[i].costs[id] <= MAX_DISTANCE
  }

  lemma {:induction false} RowSumBounded(nodes: seq<NUMANode>, i: nat, c: Combination)
    requires i < |nodes| && InRange(nodes, c) && CostsWithinTable(nodes)
    ensures RowSum(nodes, i, c) <= MAX_DISTANCE * |c|
  {
    if c != [] {
      RowSumBounded(nodes, i, c[..|c| - 1]);
    }
  }

  lemma {:induction false} DistanceSumBounded(nodes: seq<NUMANode>, c: Combination, m: nat)
    requires InRange(nodes, c) && m <= |c| && CostsWithinTable(nodes)
    ensures DistanceSum(nodes, c, m) <= MAX_DISTANCE * |c| * m
  {
    if m > 0 {
      DistanceSumBounded(nodes, c, m - 1);
      RowSumBounded(nodes, c[m - 1], c);
      assert MAX_DISTANCE * |c| * m == MAX_DISTANCE * |c| * (m - 1) + MAX_DISTANCE * |c|;
    }
  }

  /** With distances from the table no average exceeds the table's largest distance. */
  lemma AvgDistanceBounded(nodes: seq<NUMANode>, c: Combination)
    requires InRange(nodes, c) && CostsWithinTable(nodes)
    ensures AvgDistance(nodes, c) <= MAX_DISTANCE as real
  {
    if c != [] {
      DistanceSumBounded(nodes, c, |c|);
      var sum, pairs := DistanceSum(nodes, c, |c|), |c| * |c|;
      assert pairs > 0 && sum <= MAX_DISTANCE * pairs;
      DivideBound(sum as real, pairs as real, MAX_DISTANCE as real);
    }
  }

  lemma DivideBound(x: real, y: real, b: real)
    requires y > 0.0 && x <= b * y
    ensures x / y <= b
  {
    assert x / y * y == x;
  }

  function AddLists(a: ResourceList, b: ResourceList): ResourceList {
    map n | n in a.Keys + b.Keys :: At(a, n) + At(b, n)
  }

  /** The resources of a combination taken together. */
  method CombineResources(nodes: seq<NUMANode>, c: Combination) returns (r: ResourceList)
    requires InRange(nodes, c)
    ensures forall n :: At(r, n) == OnListed(nodes, c, n)
  {
    r := map[];
    for k := 0 to |c|
      invariant forall n :: At(r, n) == OnListed(nodes, c[..k], n)
    {
      assert c[..k + 1][..k] == c[..k];
      r := AddLists(r, nodes[c[k]].resources);
    }
    assert c[..|c|] == c;
  }

  /** Every node of the combination reports every requested resource. */
  predicate Valid(nodes: seq<NUMANode>, request: ResourceList, c: Combination)
    requires InRange(nodes, c)
  {
    forall k :: 0 <= k < |c| ==> forall n :: n in request ==> n in nodes[c[k]].resources
  }

  predicate ResourcesFit(qos: QoS, request: ResourceList, combined: ResourceList) {
    forall n :: n in request && request[n] != 0 ==> IsResourceSetSuitable(qos, n, request[n], At(combined, n))
  }

  /** The request can be placed on the combination. */
  predicate Fits(nodes: seq<NUMANode>, qos: QoS, request: ResourceList, c: Combination) {
    && InRange(nodes, c) && Valid(nodes, request, c)
    && forall n :: n in request && request[n] != 0 ==>
         IsResourceSetSuitable(qos, n, request[n], OnListed(nodes, c, n))
  }

  // ----- The search -----

  /** Combinations of the same list of nodes. */
  ghost predicate AllInRange(nodes: seq<NUMANode>, cs: seq<Combination>) {
    forall m :: 0 <= m < |cs| ==> InRange(nodes, cs[m])
  }

  method MinAvgDistanceInCombinations(nodes: seq<NUMANode>, cs: seq<Combination>) returns (d: real)
    requires AllInRange(nodes, cs)
    ensures d <= MAX_DISTANCE as real && forall m :: 0 <= m < |cs| ==> d <= AvgDistance(nodes, cs[m])
    ensures d == MAX_DISTANCE as real || exists m :: 0 <= m < |cs| && d == AvgDistance(nodes, cs[m])
  {
    d := MAX_DISTANCE as real;
    for m := 0 to |cs|
      invariant d <= MAX_DISTANCE as real && forall i :: 0 <= i < m ==> d <= AvgDistance(nodes, cs[i])
      invariant d == MAX_DISTANCE as real || exists i :: 0 <= i < m && d == AvgDistance(nodes, cs[i])
    {
      var avg := NodesAvgDistance(nodes, cs[m]);
      if avg < d {
        d := avg;
      }
    }
  }

  /** No combination is nearer. */
  ghost predicate Nearest(nodes: seq<NUMANode>, cs: seq<Combination>, c: Combination)
    requires AllInRange(nodes, cs) && InRange(nodes, c)
  {
    forall m :: 0 <= m < |cs| ==> AvgDistance(nodes, c) <= AvgDistance(nodes, cs[m])
  }

  /** A fitting combination that is near enough to be considered. */
  ghost predicate Eligible(nodes: seq<NUMANode>, qos: QoS, request: ResourceList, c: Combination) {
    Fits(nodes, qos, request, c) && AvgDistance(nodes, c) < (MAX_DISTANCE + 1) as real
  }

  /** The nearest of the combinations that fit, and whether it is the nearest of all. */
  method FindSuitableCombination(nodes: seq<NUMANode>, qos: QoS, request: ResourceList, cs: seq<Combination>)
    returns (best: Option<Combination>, isMinDistance: bool)
    requires AllInRange(nodes, cs)
    ensures best.None? <==> forall m :: 0 <= m < |cs| ==> !Eligible(nodes, qos, request, cs[m])
    ensures best.Some? ==> best.value in cs && Eligible(nodes, qos, request, best.value)
    ensures best.Some? ==> forall m :: 0 <= m < |cs| && Fits(nodes, qos, request, cs[m])
                                       ==> AvgDistance(nodes, best.value) <= AvgDistance(nodes, cs[m])
    ensures isMinDistance <==> best.Some? && AvgDistance(nodes, best.value) <= MAX_DISTANCE as real
                               && Nearest(nodes, cs, best.value)
  {
    hide AvgDistance, IsResourceSetSuitable, OnListed;
    var minAvg := MinAvgDistanceInCombinations(nodes, cs);
    best := None;
    var minDistance := (MAX_DISTANCE + 1) as real;
    for m := 0 to |cs|
      invariant best.None? ==> minDistance == (MAX_DISTANCE + 1) as real
                               && forall i :: 0 <= i < m ==> !Eligible(nodes, qos, request, cs[i])
      invariant best.Some? ==> best.value in cs && Eligible(nodes, qos, request, best.value)
                               && minDistance == AvgDistance(nodes, best.value)
      invariant forall i :: 0 <= i < m && Fits(nodes, qos, request, cs[i]) ==>
        minDistance <= AvgDistance(nodes, cs[i]) && minAvg != AvgDistance(nodes, cs[i])
    {
      var c := cs[m];
      if Valid(nodes, request, c) {
        var combined := CombineResources(nodes, c);
        if ResourcesFit(qos, request, combined) {
          assert Fits(nodes, qos, request, c);
          var distance := NodesAvgDistance(nodes, c);
          if distance == minAvg {
            return Some(c), true;
          }
          if distance < minDistance {
            minDistance := distance;
            best := Some(c);
          }
        }
      }
    }
    isMinDistance := false;
  }

  /** A non-empty set of NUMA nodes, written as its increasing positions. */
  ghost predicate IsNodeSet(nodes: seq<NUMANode>, c: Combination) {
    c != [] && Picks(c, 0, |nodes|, |c|)
  }

  /** `best` is a smallest eligible set, and no fitting set of its size is nearer. */
  ghost predicate SmallestAndNearest(nodes: seq<NUMANode>, qos: QoS, request: ResourceList, best: Combination) {
    && IsNodeSet(nodes, best) && Eligible(nodes, qos, request, best)
    && (forall c :: IsNodeSet(nodes, c) && Eligible(nodes, qos, request, c) ==> |best| <= |c|)
    && (forall c :: IsNodeSet(nodes, c) && |c| == |best| && Fits(nodes, qos, request, c) ==>
          AvgDistance(nodes, best) <= AvgDistance(nodes, c))
  }

  /** No set of the same size, fitting or not, is nearer. */
  ghost predicate NearestOfSize(nodes: seq<NUMANode>, best: Combination)
    requires InRange(nodes, best)
  {
    && AvgDistance(nodes, best) <= MAX_DISTANCE as real
    && forall c :: IsNodeSet(nodes, c) && |c| == |best| ==> AvgDistance(nodes, best) <= AvgDistance(nodes, c)
  }

  lemma SetsOfSize(nodes: seq<NUMANode>, k: nat)
    requires k > 0
    ensures AllInRange(nodes, Combinations(|nodes|, k))
    ensures forall c :: c in Combinations(|nodes|, k) <==> IsNodeSet(nodes, c) && |c| == k
  {
    var cs := Combinations(|nodes|, k);
    forall c ensures c in cs <==> IsNodeSet(nodes, c) && |c| == k {
      CombinationsComplete(0, |nodes|, k, c);
    }
    forall m | 0 <= m < |cs| ensures InRange(nodes, cs[m]) {
      assert cs[m] in cs;
    }
  }

  /** A smallest set of NUMA nodes for the request, the nearest among the sets of its size that fit, with a flag
      that says whether it is the nearest of all sets of its size; nothing exactly when no set is eligible. */
  method NumaNodesRequired(nodes: seq<NUMANode>, qos: QoS, request: ResourceList)
    returns (best: Option<Combination>, optimal: bool)
    ensures best.None? <==> forall c :: IsNodeSet(nodes, c) ==> !Eligible(nodes, qos, request, c)
    ensures best.Some? ==> SmallestAndNearest(nodes, qos, request, best.value)
    ensures optimal <==> best.Some? && NearestOfSize(nodes, best.value)
  {
    hide Eligible, AvgDistance, Fits, Combinations, CombinationsFrom;
    for k := 1 to |nodes| + 1
      invariant forall c :: IsNodeSet(nodes, c) && |c| < k ==> !Eligible(nodes, qos, request, c)
    {
      SetsOfSize(nodes, k);
      var cs := Combinations(|nodes|, k);
      best, optimal := FindSuitableCombination(nodes, qos, request, cs);
      if best.Some? {
        FoundInSize(nodes, qos, request, cs, k, best.value);
        return;
      }
      forall c | IsNodeSet(nodes, c) && |c| == k ensures !Eligible(nodes, qos, request, c) {
        var m :| 0 <= m < |cs| && cs[m] == c;
      }
    }
    forall c | IsNodeSet(nodes, c) ensures |c| <= |nodes| {
      IncreasingShort(c, |nodes|);
    }
    best, optimal := None, false;
  }

  lemma FoundInSize(nodes: seq<NUMANode>, qos: QoS, request: ResourceList, cs: seq<Combination>, k: nat,
                    best: Combination)
    requires AllInRange(nodes, cs) && best in cs && InRange(nodes, best) && Eligible(nodes, qos, request, best)
    requires forall c :: c in cs <==> IsNodeSet(nodes, c) && |c| == k
    requires forall c :: IsNodeSet(nodes, c) && |c| < k ==> !Eligible(nodes, qos, request, c)
    requires forall m :: 0 <= m < |cs| && Fits(nodes, qos, request, cs[m])
                         ==> AvgDistance(nodes, best) <= AvgDistance(nodes, cs[m])
    ensures SmallestAndNearest(nodes, qos, request, best)
    ensures NearestOfSize(nodes, best)
       <==> AvgDistance(nodes, best) <= MAX_DISTANCE as real && Nearest(nodes, cs, best)
  {
    hide Eligible, AvgDistance, Fits;
    forall c | IsNodeSet(nodes, c) && |c| == k ensures exists m :: 0 <= m < |cs| && cs[m] == c {
      assert c in cs;
    }
    assert forall m :: 0 <= m < |cs| ==> cs[m] in cs;
  }

  lemma {:induction false} IncreasingShort(c: Combination, n: nat)
    requires Picks(c, 0, n, |c|)
    ensures |c| <= n
  {
    if c != [] {
      forall a | 0 <= a < |c| - 1 ensures c[a] < n - 1 {
        assert c[a] < c[|c| - 1];
      }
      IncreasingShort(c[..|c| - 1], n - 1);
    }
  }

  /** With distances from the table every fitting set is eligible, so the search finds a set exactly when the
      request fits some set of NUMA nodes, and the set found is smallest among all that fit. */
  lemma TableDistancesMissNothing(nodes: seq<NUMANode>, qos: QoS, request: ResourceList, c: Combination)
    requires CostsWithinTable(nodes) && InRange(nodes, c)
    ensures Eligible(nodes, qos, request, c) <==> Fits(nodes, qos, request, c)
  {
    AvgDistanceBounded(nodes, c);
  }

  /** Without that bound exactly the fitting sets of average distance 256 or more are overlooked. */
  lemma OverlookedExactly(nodes: seq<NUMANode>, qos: QoS, request: ResourceList, c: Combination)
    requires InRange(nodes, c) && Fits(nodes, qos, request, c)
    ensures !Eligible(nodes, qos, request, c) <==> AvgDistance(nodes, c) >= 256.0
  {
  }

  /** Without that bound a request that fits can be overlooked. */
  lemma FarNodesAreOverlooked()
    ensures var nodes := [NUMANode(0, map["cpu" := 1], map[0 := 300])];
            var request: ResourceList := map["cpu" := 1];
            && Fits(nodes, Guaranteed, request, [0])
            && forall c :: IsNodeSet(nodes, c) ==> !Eligible(nodes, Guaranteed, request, c)
  {
    var nodes := [NUMANode(0, map["cpu" := 1], map[0 := 300])];
    var request: ResourceList := map["cpu" := 1];
    var one: Combination := [0];
    assert one[..0] == [];
    assert OnListed(nodes, one, "cpu") == 1;
    assert RowSum(nodes, 0, one) == 300 && DistanceSum(nodes, one, 0) == 0 && DistanceSum(nodes, one, 1) == 300;
    assert AvgDistance(nodes, one) == 300.0;
    forall c | IsNodeSet(nodes, c) ensures c == one {
      IncreasingShort(c, 1);
    }
  }

  // ----- Scores -----

  function NormalizeScore(count: int, optimal: bool): int {
    var step := MAX_NODE_SCORE / HIGHEST_NUMA_ID;
    MAX_NODE_SCORE - count * step + if optimal then step / 2 else 0
  }

  /** Fewer NUMA nodes always score higher; with equally many, the optimal distance wins. */
  lemma ScoreOrder(m: nat, n: nat, a: bool, b: bool)
    ensures NormalizeScore(m, a) > NormalizeScore(n, b) <==> m < n || (m == n && a && !b)
  {
  }

  /** The score of at least one NUMA node is a legal node score exactly up to the supported number of nodes. */
  lemma ScoreInRange(n: nat, optimal: bool)
    requires n > 0
    ensures MIN_NODE_SCORE <= NormalizeScore(n, optimal) <= MAX_NODE_SCORE <==> n <= HIGHEST_NUMA_ID
  {
  }

  /** Nine NUMA nodes score below the lowest node score. */
  lemma NineNodesExample()
    ensures NormalizeScore(9, false) == -8 < MIN_NODE_SCORE
  {
  }

  predicate OnlyNonNUMAResources(nodes: seq<NUMANode>, request: ResourceList) {
    forall n :: n in request ==> forall j :: 0 <= j < |nodes| ==> n !in nodes[j].resources
  }

  /** The containers that ask for some NUMA resource, in order. */
  function NumaRequests(nodes: seq<NUMANode>, requests: seq<ResourceList>): seq<ResourceList> {
    if requests == [] then [] else
      NumaRequests(nodes, requests[..|requests| - 1])
      + if OnlyNonNUMAResources(nodes, requests[|requests| - 1]) then [] else [requests[|requests| - 1]]
  }

  function SumOf(requests: seq<ResourceList>, r: string): int {
    if requests == [] then 0 else SumOf(requests[..|requests| - 1], r) + At(requests[|requests| - 1], r)
  }

  function MaxCount(found: seq<(nat, bool)>): nat {
    if found == [] then 0 else
      var m := MaxCount(found[..|found| - 1]);
      if found[|found| - 1].0 > m then found[|found| - 1].0 else m
  }

  predicate AllOptimal(found: seq<(nat, bool)>) {
    forall k :: 0 <= k < |found| ==> found[k].1
  }

  /** A fitting set gives a Guaranteed container exactly what it asks for. */
  lemma FitTakesRequest(before: seq<NUMANode>, after: seq<NUMANode>, request: ResourceList, c: Combination, r: string)
    requires NonNegative(before) && NonNegativeList(request)
    requires Fits(before, Guaranteed, request, c) && Drained(before, after, request, c)
    ensures Total(after, r) == Total(before, r) - At(request, r)
  {
    OnListedNonNegative(before, c, r);
  }

  lemma SameShapeSameRequests(a: seq<NUMANode>, b: seq<NUMANode>, request: ResourceList)
    requires SameShape(a, b)
    ensures OnlyNonNUMAResources(a, request) == OnlyNonNUMAResources(b, request)
  {
    forall n, j | 0 <= j < |a| ensures n in a[j].resources <==> n in b[j].resources {
      assert n in a[j].resources.Keys <==> n in b[j].resources.Keys;
    }
  }

  lemma ChosenIsListed(nodes: seq<NUMANode>, qos: QoS, request: ResourceList, c: Combination)
    requires SmallestAndNearest(nodes, qos, request, c)
    ensures c != [] && Indices(nodes, c) && Fits(nodes, qos, request, c)
  {
  }

  /** One scored container: it takes its request off a smallest and nearest set, whose size and optimality are
      recorded. */
  ghost predicate Scored(now: seq<NUMANode>, after: seq<NUMANode>, qos: QoS, request: ResourceList,
                         found: (nat, bool))
  {
    exists c :: && SmallestAndNearest(now, qos, request, c) && found.0 == |c| && (found.1 <==> NearestOfSize(now, c))
                && Drained(now, after, request, c)
  }

  /** `states` are the node lists before, between and after the scored containers. */
  ghost predicate Chain(before: seq<NUMANode>, after: seq<NUMANode>, qos: QoS, scored: seq<ResourceList>,
                        found: seq<(nat, bool)>, states: seq<seq<NUMANode>>)
  {
    && |found| == |scored| && |states| == |scored| + 1 && states[0] == before && states[|scored|] == after
    && forall i :: 0 <= i < |scored| ==> Scored(states[i], states[i + 1], qos, scored[i], found[i])
  }

  lemma ChainPlus(before: seq<NUMANode>, now: seq<NUMANode>, after: seq<NUMANode>, qos: QoS,
                  scored: seq<ResourceList>, found: seq<(nat, bool)>, states: seq<seq<NUMANode>>,
                  request: ResourceList, result: (nat, bool))
    requires Chain(before, now, qos, scored, found, states) && Scored(now, after, qos, request, result)
    ensures Chain(before, after, qos, scored + [request], found + [result], states + [after])
  {
    hide Scored;
    var all, requests, results := states + [after], scored + [request], found + [result];
    forall i | 0 <= i < |requests| ensures Scored(all[i], all[i + 1], qos, requests[i], results[i]) {
      if i < |scored| {
        assert Scored(states[i], states[i + 1], qos, scored[i], found[i]);
      }
    }
  }

  /** The scorer after the first `k` containers. */
  ghost predicate ScoreState(before: seq<NUMANode>, now: seq<NUMANode>, qos: QoS, requests: seq<ResourceList>, k: nat,
                             scored: seq<ResourceList>, found: seq<(nat, bool)>)
    requires k <= |requests|
  {
    && SameShape(before, now) && NonNegative(now)
    && |found| == |scored| && scored == NumaRequests(before, requests[..k])
    && (forall i :: 0 <= i < |found| ==> found[i].0 > 0)
    && (qos == Guaranteed ==> forall r :: Total(now, r) == Total(before, r) - SumOf(scored, r))
  }

  lemma ScoreStart(nodes: seq<NUMANode>, qos: QoS, requests: seq<ResourceList>)
    requires NonNegative(nodes)
    ensures ScoreState(nodes, nodes, qos, requests, 0, [], []) && Chain(nodes, nodes, qos, [], [], [nodes])
  {
  }

  lemma ScoreSkip(before: seq<NUMANode>, now: seq<NUMANode>, qos: QoS, requests: seq<ResourceList>, k: nat,
                  scored: seq<ResourceList>, found: seq<(nat, bool)>)
    requires k < |requests| && ScoreState(before, now, qos, requests, k, scored, found)
    requires OnlyNonNUMAResources(now, requests[k])
    ensures ScoreState(before, now, qos, requests, k + 1, scored, found)
  {
    SameShapeSameRequests(before, now, requests[k]);
    assert requests[..k + 1][..k] == requests[..k];
    hide Total, SumOf, NonNegative, OnlyNonNUMAResources;
    assert scored + [] == scored;
  }

  lemma ScoreTake(before: seq<NUMANode>, now: seq<NUMANode>, after: seq<NUMANode>, qos: QoS,
                  requests: seq<ResourceList>, k: nat, scored: seq<ResourceList>, found: seq<(nat, bool)>,
                  c: Combination, optimal: bool)
    requires k < |requests| && ScoreState(before, now, qos, requests, k, scored, found)
    requires NonNegativeList(requests[k]) && !OnlyNonNUMAResources(now, requests[k])
    requires c != [] && Fits(now, qos, requests[k], c) && Drained(now, after, requests[k], c)
    ensures ScoreState(before, after, qos, requests, k + 1, scored + [requests[k]], found + [(|c|, optimal)])
    ensures NonNegative(after)
  {
    hide Total, SumOf, OnlyNonNUMAResources, OnListed, GaveInOrder, Fits, NonNegative, Increasing;
    SameShapeSameRequests(before, now, requests[k]);
    assert requests[..k + 1][..k] == requests[..k];
    if qos == Guaranteed {
      forall r ensures Total(after, r) == Total(before, r) - SumOf(scored + [requests[k]], r) {
        FitTakesRequest(now, after, requests[k], c, r);
        SumOfPlus(scored, requests[k], r);
      }
    }
  }

  lemma ScoreEnd(before: seq<NUMANode>, now: seq<NUMANode>, qos: QoS, requests: seq<ResourceList>,
                 scored: seq<ResourceList>, found: seq<(nat, bool)>)
    requires ScoreState(before, now, qos, requests, |requests|, scored, found)
    ensures scored == NumaRequests(before, requests) && SameShape(before, now)
    ensures forall i :: 0 <= i < |found| ==> found[i].0 > 0
    ensures |found| == |scored|
    ensures qos == Guaranteed ==> forall r :: Total(now, r) == Total(before, r) - SumOf(scored, r)
  {
    assert requests[..|requests|] == requests;
  }

  lemma ScoreStuck(before: seq<NUMANode>, now: seq<NUMANode>, qos: QoS, requests: seq<ResourceList>, k: nat,
                   scored: seq<ResourceList>, found: seq<(nat, bool)>)
    requires k < |requests| && ScoreState(before, now, qos, requests, k, scored, found)
    requires !OnlyNonNUMAResources(now, requests[k])
    requires forall c :: IsNodeSet(now, c) ==> !Eligible(now, qos, requests[k], c)
    ensures Stuck(before, now, qos, requests, scored) && SameShape(before, now)
    ensures qos == Guaranteed ==> forall r :: Total(now, r) == Total(before, r) - SumOf(scored, r)
  {
    hide Eligible, IsNodeSet, OnlyNonNUMAResources, Total, SumOf, NonNegative;
    SameShapeSameRequests(before, now, requests[k]);
    assert requests[..k + 1][..k] == requests[..k];
    assert NumaRequests(before, requests[..k + 1]) == scored + [requests[k]];
    NumaRequestsPrefix(before, requests, k + 1);
  }

  lemma SumOfPlus(requests: seq<ResourceList>, request: ResourceList, r: string)
    ensures SumOf(requests + [request], r) == SumOf(requests, r) + At(request, r)
  {
    assert (requests + [request])[..|requests|] == requests;
  }

  lemma {:induction false} NumaRequestsPrefix(nodes: seq<NUMANode>, requests: seq<ResourceList>, k: nat)
    requires k <= |requests|
    ensures NumaRequests(nodes, requests[..k]) <= NumaRequests(nodes, requests)
    decreases |requests|
  {
    if k == |requests| {
      assert requests[..k] == requests;
    } else {
      assert requests[..|requests| - 1][..k] == requests[..k];
      NumaRequestsPrefix(nodes, requests[..|requests| - 1], k);
    }
  }

  lemma FoundPlus(found: seq<(nat, bool)>, count: nat, optimal: bool)
    ensures MaxCount(found + [(count, optimal)]) == if count > MaxCount(found) then count else MaxCount(found)
    ensures AllOptimal(found + [(count, optimal)]) == (AllOptimal(found) && optimal)
  {
    var more := found + [(count, optimal)];
    assert more[..|found|] == found && more[|found|] == (count, optimal);
    if AllOptimal(more) {
      assert forall k :: 0 <= k < |found| ==> found[k] == more[k];
    }
  }

  lemma {:induction false} NoneFound(found: seq<(nat, bool)>)
    requires forall i :: 0 <= i < |found| ==> found[i].0 > 0
    ensures MaxCount(found) == 0 <==> found == []
  {
  }

  /** The container after the scored ones asks for NUMA resources and fits no set of the nodes left to it. */
  ghost predicate Stuck(before: seq<NUMANode>, after: seq<NUMANode>, qos: QoS, requests: seq<ResourceList>,
                        scored: seq<ResourceList>)
  {
    && scored < NumaRequests(before, requests)
    && forall c :: IsNodeSet(after, c) ==> !Eligible(after, qos, NumaRequests(before, requests)[|scored|], c)
  }

  /** The score of a pod's containers. `found` records, for each scored container, how many NUMA nodes it needs
      and whether they are optimal; the score is that of the most demanding container, or the lowest one exactly
      when some container fits no set of nodes after the earlier ones took theirs. For a Guaranteed pod every
      scored container takes exactly its request off the nodes, so the total drop is the total requested. */
  method LeastNUMAContainerScopeScore(nodes: array<NUMANode>, qos: QoS, requests: seq<ResourceList>)
    returns (score: int, complete: bool, scored: seq<ResourceList>, found: seq<(nat, bool)>,
             ghost states: seq<seq<NUMANode>>)
    requires NonNegative(nodes[..]) && forall k :: 0 <= k < |requests| ==> NonNegativeList(requests[k])
    modifies nodes
    ensures SameShape(old(nodes[..]), nodes[..]) && NonNegative(nodes[..])
    ensures Chain(old(nodes[..]), nodes[..], qos, scored, found, states)
    ensures complete ==> scored == NumaRequests(old(nodes[..]), requests)
    ensures !complete ==> Stuck(old(nodes[..]), nodes[..], qos, requests, scored)
    ensures score == if !complete then MIN_NODE_SCORE
                     else if scored == [] then MAX_NODE_SCORE
                     else NormalizeScore(MaxCount(found), AllOptimal(found))
    ensures qos == Guaranteed ==>
              forall r :: Total(nodes[..], r) == Total(old(nodes[..]), r) - SumOf(scored, r)
  {
    hide Total, SumOf, OnlyNonNUMAResources, NonNegativeList, NumaRequests, MaxCount, AllOptimal, Drained, Fits,
      SmallestAndNearest, NearestOfSize, Eligible, IsNodeSet, Chain, Stuck, ScoreState;
    ghost var before := nodes[..];
    var maxCount, allOptimal := 0, true;
    scored, found, states := [], [], [before];
    ScoreStart(before, qos, requests);
    assert maxCount == MaxCount(found) && allOptimal == AllOptimal(found) by { NothingFound(); }
    for k := 0 to |requests|
      invariant ScoreState(before, nodes[..], qos, requests, k, scored, found) && NonNegative(nodes[..])
      invariant Chain(before, nodes[..], qos, scored, found, states)
      invariant maxCount == MaxCount(found) && allOptimal == AllOptimal(found)
    {
      ghost var now := nodes[..];
      if OnlyNonNUMAResources(nodes[..], requests[k]) {
        ScoreSkip(before, now, qos, requests, k, scored, found);
      } else {
        var best, optimal := NumaNodesRequired(nodes[..], qos, requests[k]);
        if best.None? {
          ScoreStuck(before, now, qos, requests, k, scored, found);
          return MIN_NODE_SCORE, false, scored, found, states;
        }
        ChosenIsListed(now, qos, requests[k], best.value);
        SubtractFromNUMAs(requests[k], nodes, best.value);
        ScoreTake(before, now, nodes[..], qos, requests, k, scored, found, best.value, optimal);
        FoundPlus(found, |best.value|, optimal);
        ChainPlus(before, now, nodes[..], qos, scored, found, states, requests[k], (|best.value|, optimal));
        allOptimal := allOptimal && optimal;
        if |best.value| > maxCount {
          maxCount := |best.value|;
        }
        scored, found, states := scored + [requests[k]], found + [(|best.value|, optimal)], states + [nodes[..]];
      }
    }
    ScoreEnd(before, nodes[..], qos, requests, scored, found);
    NoneFound(found);
    complete := true;
    score := if maxCount == 0 then MAX_NODE_SCORE else NormalizeScore(maxCount, allOptimal);
  }

  lemma NothingFound()
    ensures MaxCount([]) == 0 && AllOptimal([])
  {
  }

  // ----- What the parts of the search mean -----

  /** A set fits exactly when each of its nodes reports every requested resource and together they hold every quantity
      that is not 0, except that for a pod that is not Guaranteed no amount of processor time, memory or huge pages
      is needed. */
  lemma FitsInAmounts(nodes: seq<NUMANode>, qos: QoS, request: ResourceList, c: Combination)
    requires InRange(nodes, c)
    ensures Fits(nodes, qos, request, c) <==>
              && (forall k, n :: 0 <= k < |c| && n in request ==> n in nodes[c[k]].resources)
              && (forall n :: n in request && request[n] != 0 &&
                              (qos == Guaranteed || !(n == "cpu" || n == "memory" || "hugepages-" <= n)) ==>
                    request[n] <= OnListed(nodes, c, n))
  {
    hide OnListed;
    assert Valid(nodes, request, c) <==> forall k, n :: 0 <= k < |c| && n in request ==> n in nodes[c[k]].resources;
  }

  /** The same nodes with every distance that is not reported filled in as 255. */
  ghost predicate FilledIn(a: seq<NUMANode>, b: seq<NUMANode>) {
    && |a| == |b|
    && (forall i :: 0 <= i < |a| ==> a[i].id == b[i].id)
    && (forall i, j :: 0 <= i < |a| && 0 <= j < |a| ==>
          && a[j].id in b[i].costs
          && b[i].costs[a[j].id] == if a[j].id in a[i].costs then a[i].costs[a[j].id] else 255)
  }

  lemma {:induction false} FilledRow(a: seq<NUMANode>, b: seq<NUMANode>, i: nat, c: Combination)
    requires FilledIn(a, b) && i < |a| && InRange(a, c)
    ensures RowSum(a, i, c) == RowSum(b, i, c)
  {
    if c != [] {
      FilledRow(a, b, i, c[..|c| - 1]);
      assert Cost(a, i, c[|c| - 1]) == Cost(b, i, c[|c| - 1]);
    }
  }

  lemma {:induction false} FilledSum(a: seq<NUMANode>, b: seq<NUMANode>, c: Combination, m: nat)
    requires FilledIn(a, b) && InRange(a, c) && m <= |c|
    ensures DistanceSum(a, c, m) == DistanceSum(b, c, m)
  {
    if m > 0 {
      FilledSum(a, b, c, m - 1);
      FilledRow(a, b, c[m - 1], c);
    }
  }

  /** An unknown distance counts as the largest of the table: filling it in changes no average. */
  lemma UnknownDistanceCountsAsFar(a: seq<NUMANode>, b: seq<NUMANode>, c: Combination)
    requires FilledIn(a, b) && InRange(a, c)
    ensures AvgDistance(a, c) == AvgDistance(b, c)
  {
    FilledSum(a, b, c, |c|);
  }

  lemma {:induction false} UniformRow(nodes: seq<NUMANode>, i: nat, c: Combination, d: int)
    requires i < |nodes| && InRange(nodes, c) && forall j :: 0 <= j < |nodes| ==> Cost(nodes, i, j) == d
    ensures RowSum(nodes, i, c) == d * |c|
  {
    if c != [] {
      UniformRow(nodes, i, c[..|c| - 1], d);
    }
  }

  lemma {:induction false} UniformSum(nodes: seq<NUMANode>, c: Combination, m: nat, d: int)
    requires InRange(nodes, c) && m <= |c|
    requires forall i, j :: 0 <= i < |nodes| && 0 <= j < |nodes| ==> Cost(nodes, i, j) == d
    ensures DistanceSum(nodes, c, m) == d * |c| * m
  {
    if m > 0 {
      UniformSum(nodes, c, m - 1, d);
      UniformRow(nodes, c[m - 1], c, d);
      assert d * |c| * m == d * |c| * (m - 1) + d * |c|;
    }
  }

  /** Where all distances are equal, so is every average, whatever the size of the set. */
  lemma UniformDistance(nodes: seq<NUMANode>, c: Combination, d: int)
    requires c != [] && InRange(nodes, c)
    requires forall i, j :: 0 <= i < |nodes| && 0 <= j < |nodes| ==> Cost(nodes, i, j) == d
    ensures AvgDistance(nodes, c) == d as real
  {
    UniformSum(nodes, c, |c|, d);
    var pairs := |c| * |c|;
    assert pairs > 0;
    assert DistanceSum(nodes, c, |c|) == d * pairs;
    assert (d * pairs) as real == d as real * pairs as real;
    assert d as real * pairs as real / pairs as real == d as real;
  }

  /** The scores are evenly spaced from 100 for no node, and optimal distance is worth half a node. */
  lemma ScoreSpacing(m: int, n: int)
    ensures NormalizeScore(0, false) == 100
    ensures NormalizeScore(m, false) - NormalizeScore(m + 1, false)
         == NormalizeScore(n, false) - NormalizeScore(n + 1, false)
    ensures 2 * (NormalizeScore(n, true) - NormalizeScore(n, false))
         == NormalizeScore(n, false) - NormalizeScore(n + 1, false)
  {
  }

  /** Which containers are scored: exactly those that ask for a resource of which some NUMA node reports, in order. */
  lemma {:induction false} ScoredExactly(nodes: seq<NUMANode>, requests: seq<ResourceList>, request: ResourceList)
    ensures request in NumaRequests(nodes, requests) <==>
              request in requests && exists n, j :: n in request && 0 <= j < |nodes| && n in nodes[j].resources
    ensures Subsequence(NumaRequests(nodes, requests), requests)
  {
    if requests != [] {
      var before, last := requests[..|requests| - 1], requests[|requests| - 1];
      ScoredExactly(nodes, before, request);
      assert requests == before + [last];
      SubsequencePlus(NumaRequests(nodes, before), requests);
      assert NumaRequests(nodes, before) + [] == NumaRequests(nodes, before);
    }
  }

  /** The count that is scored is the largest of all. */
  lemma {:induction false} MaxCountIsLargest(found: seq<(nat, bool)>)
    ensures forall k :: 0 <= k < |found| ==> found[k].0 <= MaxCount(found)
    ensures found != [] ==> exists k :: 0 <= k < |found| && found[k].0 == MaxCount(found)
  {
    if found != [] {
      var last := |found| - 1;
      MaxCountIsLargest(found[..last]);
      assert forall k :: 0 <= k < last ==> found[..last][k] == found[k];
      if found[last].0 <= MaxCount(found[..last]) && last > 0 {
        var k :| 0 <= k < last && found[..last][k].0 == MaxCount(found[..last]);
        assert found[k].0 == MaxCount(found);
      }
    }
  }
}
