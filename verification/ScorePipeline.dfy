/** The three-stage score pipeline of the custom plugin: each raw score is stretched to 100..200, the three are
    combined by a cube root, and the integers are mapped to node scores. */
module ScorePipeline {
  import opened RealArithmetic

  const MIN_INT64: int := -0x8000_0000_0000_0000
  const MAX_INT64: int := 0x7FFF_FFFF_FFFF_FFFF
  const MIN_NODE_SCORE: int := 0
  const MAX_NODE_SCORE: int := 100

  /** The largest float64, 2 to the power 1024 minus 2 to the power 971: the running minimum starts here, so that
      no raw score exceeds it. */
  function MaxFloat64(): real {
    var p32 := 4294967296.0;
    var p128 := p32 * p32 * p32 * p32;
    var p512 := p128 * p128 * p128 * p128;
    p512 * p512 - p512 * p128 * p128 * p128 * p32 * p32 * 2048.0
  }

  /** The running maximum starts at the smallest int64. */
  function StartOfMax(): real { MIN_INT64 as real }

  function Min(x: real, y: real): real { if x < y then x else y }

  function Max(x: real, y: real): real { if x > y then x else y }

  type Raw = string -> real

  function MinOf(nodes: seq<string>, raw: Raw): real
    requires nodes != []
  {
    if |nodes| == 1 then raw(nodes[0]) else Min(MinOf(nodes[..|nodes| - 1], raw), raw(nodes[|nodes| - 1]))
  }

  function MaxOf(nodes: seq<string>, raw: Raw): real {
    if nodes == [] then StartOfMax() else Max(MaxOf(nodes[..|nodes| - 1], raw), raw(nodes[|nodes| - 1]))
  }

  /** A raw score stretched to the interval from 100 to 200; all scores equal means 100 for everybody. */
  function Stretch(x: real, min: real, max: real): real {
    if max == min then 100.0 else ((x - min) / (max - min) + 1.0) * 100.0
  }

  function Stretched(nodes: seq<string>, raw: Raw, n: string): real
    requires n in nodes
  {
    Stretch(raw(n), MinOf(nodes, raw), MaxOf(nodes, raw))
  }

  // ----- First stage -----

  lemma {:induction false} Extremes(nodes: seq<string>, raw: Raw, n: string)
    requires n in nodes
    ensures MinOf(nodes, raw) <= raw(n) <= MaxOf(nodes, raw)
  {
    var before := nodes[..|nodes| - 1];
    if n in before {
      Extremes(before, raw, n);
    } else {
      assert nodes == before + [nodes[|nodes| - 1]];
    }
  }

  lemma QuotientMonotone(x: real, y: real, d: real)
    requires x <= y && d > 0.0
    ensures x / d <= y / d
    ensures x / d == y / d <==> x == y
  {
    QuotientTimes(x, d);
    QuotientTimes(y, d);
    var p, q := x / d, y / d;
    hide *;
    if q < p {
      TimesStrict(q, p, d);
    }
    if p < q {
      TimesStrict(p, q, d);
    }
  }

  lemma QuotientOfSame(d: real)
    requires d != 0.0
    ensures d / d == 1.0 && 0.0 / d == 0.0
  {
  }

  /** Stretching lands in 100..200 and preserves the order; only the largest score lands on 200. */
  lemma StretchFacts(x: real, y: real, min: real, max: real)
    requires min <= x <= y <= max
    ensures 100.0 <= Stretch(x, min, max) <= Stretch(y, min, max) <= 200.0
    ensures min < max ==> (Stretch(x, min, max) == 200.0 <==> x == max)
    ensures min < max ==> Stretch(min, min, max) == 100.0
  {
    if min < max {
      var d := max - min;
      QuotientOfSame(d);
      QuotientMonotone(0.0, x - min, d);
      QuotientMonotone(x - min, y - min, d);
      QuotientMonotone(y - min, d, d);
      QuotientMonotone(x - min, d, d);
    }
  }

  /** One kind of score for all nodes: raw values with their extremes first, then each stretched in place. The
      running minimum starts at a number that no raw score exceeds. */
  method FillAndStretch(nodes: seq<string>, raw: Raw, largest: real) returns (scores: map<string, real>)
    requires forall i, j :: 0 <= i < j < |nodes| ==> nodes[i] != nodes[j]
    requires forall i :: 0 <= i < |nodes| ==> raw(nodes[i]) <= largest
    ensures forall n :: n in nodes ==> n in scores && scores[n] == Stretched(nodes, raw, n)
  {
    scores := map[];
    var min, max := largest, StartOfMax();
    for i := 0 to |nodes|
      invariant if i == 0 then min == largest else min == MinOf(nodes[..i], raw)
      invariant max == MaxOf(nodes[..i], raw)
      invariant forall k :: 0 <= k < i ==> nodes[k] in scores && scores[nodes[k]] == raw(nodes[k])
    {
      assert nodes[..i + 1][..i] == nodes[..i];
      scores := scores[nodes[i] := raw(nodes[i])];
      min := Min(min, raw(nodes[i]));
      max := Max(max, raw(nodes[i]));
    }
    assert nodes[..|nodes|] == nodes;
    for i := 0 to |nodes|
      invariant forall k :: 0 <= k < |nodes| ==> nodes[k] in scores
      invariant forall k :: 0 <= k < i ==> scores[nodes[k]] == Stretched(nodes, raw, nodes[k])
      invariant forall k :: i <= k < |nodes| ==> scores[nodes[k]] == raw(nodes[k])
    {
      hide *;
      StretchedIs(nodes, raw, nodes[i], min, max);
      scores := scores[nodes[i] := Stretch(scores[nodes[i]], min, max)];
    }
  }

  lemma StretchedIs(nodes: seq<string>, raw: Raw, n: string, min: real, max: real)
    requires n in nodes && min == MinOf(nodes, raw) && max == MaxOf(nodes, raw)
    ensures Stretched(nodes, raw, n) == Stretch(raw(n), min, max)
  {
  }

  // ----- Second stage -----

  function Cube(n: int): int { n * n * n }

  /** `n` is the cube root of `x`, rounded down. */
  ghost predicate IsFloorCbrt(x: real, n: nat) {
    Cube(n) as real <= x < Cube(n + 1) as real
  }

  lemma {:induction false} CubeMonotone(a: nat, b: nat)
    requires a <= b
    ensures Cube(a) <= Cube(b)
    ensures a < b ==> Cube(a) < Cube(b)
    decreases b - a
  {
    hide Cube;
    if a < b {
      CubeNext(a);
      CubeMonotone(a + 1, b);
    }
  }

  lemma CubeNext(a: nat)
    ensures Cube(a + 1) == Cube(a) + 3 * (a * a) + 3 * a + 1
    ensures Cube(a) < Cube(a + 1)
  {
  }

  method FloorCbrt(x: real) returns (n: nat)
    requires x >= 0.0
    ensures IsFloorCbrt(x, n)
  {
    n := 0;
    while Cube(n + 1) as real <= x
      invariant Cube(n) as real <= x
      decreases x.Floor - Cube(n)
    {
      CubeNext(n);
      n := n + 1;
    }
  }

  lemma FloorCbrtMonotone(x: real, y: real, m: nat, n: nat)
    requires x <= y && IsFloorCbrt(x, m) && IsFloorCbrt(y, n)
    ensures m <= n
  {
    if n < m {
      CubeMonotone(n + 1, m);
    }
  }

  lemma FloorCbrtRange(x: real, n: nat)
    requires 1000000.0 <= x <= 8000000.0 && IsFloorCbrt(x, n)
    ensures 100 <= n <= 200
  {
    if n < 100 {
      CubeMonotone(n + 1, 100);
    } else if n > 200 {
      CubeMonotone(201, n);
    }
  }

  function Product(a: real, b: real, c: real): real { Times(Times(a, b), c) }

  lemma ProductMonotone(a: real, b: real, c: real, a': real, b': real, c': real)
    requires 100.0 <= a <= a' && 100.0 <= b <= b' && 100.0 <= c <= c'
    ensures Product(a, b, c) <= Product(a', b', c')
  {
    hide Times;
    TimesMonotone(a, a', b);
    TimesMonotone(b, b', a');
    SameSignTimes(a', b');
    TimesMonotone(Times(a, b), Times(a', b'), c);
    TimesMonotone(c, c', Times(a', b'));
  }

  lemma ProductRange(a: real, b: real, c: real)
    requires 100.0 <= a <= 200.0 && 100.0 <= b <= 200.0 && 100.0 <= c <= 200.0
    ensures 1000000.0 <= Product(a, b, c) <= 8000000.0
  {
    ProductMonotone(100.0, 100.0, 100.0, a, b, c);
    ProductMonotone(a, b, c, 200.0, 200.0, 200.0);
    assert Product(100.0, 100.0, 100.0) == 1000000.0 && Product(200.0, 200.0, 200.0) == 8000000.0;
  }

  /** The combined score of a node: the cube root of the product of its three stretched scores, or its stretched
      load-balancing score alone, rounded down. */
  ghost predicate Combines(nodes: seq<string>, lb: Raw, adf: Raw, future: Raw, sla: bool, n: string, score: int)
    requires n in nodes
  {
    if sla then
      score >= 0 &&
      IsFloorCbrt(Product(Stretched(nodes, lb, n), Stretched(nodes, adf, n), Stretched(nodes, future, n)), score)
    else score == Stretched(nodes, lb, n).Floor
  }

  class Scheduler {
    var lbScoreMap: map<string, real>
    var adfScoreMap: map<string, real>
    var futureScoreMap: map<string, real>
    /** The largest number there is. */
    const largest: real

    constructor ()
      ensures lbScoreMap == map[] && adfScoreMap == map[] && futureScoreMap == map[] && largest == MaxFloat64()
    {
      largest := MaxFloat64();
      lbScoreMap, adfScoreMap, futureScoreMap := map[], map[], map[];
    }

    /** The maps hold the stretched scores of the nodes. */
    ghost predicate Ready(nodes: seq<string>, lb: Raw, adf: Raw, future: Raw, sla: bool)
      reads this
    {
      && (forall n :: n in nodes ==> n in lbScoreMap && lbScoreMap[n] == Stretched(nodes, lb, n))
      && (sla ==> forall n :: n in nodes ==> n in adfScoreMap && adfScoreMap[n] == Stretched(nodes, adf, n))
      && (sla ==> forall n :: n in nodes ==> n in futureScoreMap && futureScoreMap[n] == Stretched(nodes, future, n))
    }

    method PreScore(nodes: seq<string>, lb: Raw, adf: Raw, future: Raw, sla: bool)
      requires forall i, j :: 0 <= i < j < |nodes| ==> nodes[i] != nodes[j]
      requires forall i :: 0 <= i < |nodes| ==>
        lb(nodes[i]) <= largest && (sla ==> adf(nodes[i]) <= largest && future(nodes[i]) <= largest)
      modifies this
      ensures Ready(nodes, lb, adf, future, sla)
    {
      hide *;
      adfScoreMap, futureScoreMap := map[], map[];
      lbScoreMap := FillAndStretch(nodes, lb, largest);
      if sla {
        adfScoreMap := FillAndStretch(nodes, adf, largest);
        futureScoreMap := FillAndStretch(nodes, future, largest);
      }
      IsReady(this, nodes, lb, adf, future, sla);
    }

    method Score(nodes: seq<string>, lb: Raw, adf: Raw, future: Raw, sla: bool, n: string) returns (score: int)
      requires Ready(nodes, lb, adf, future, sla) && n in nodes
      ensures Combines(nodes, lb, adf, future, sla, n, score)
    {
      hide Stretched, IsFloorCbrt, Product;
      if sla {
        var product := Product(lbScoreMap[n], adfScoreMap[n], futureScoreMap[n]);
        StretchedRange(nodes, lb, n);
        StretchedRange(nodes, adf, n);
        StretchedRange(nodes, future, n);
        ProductRange(lbScoreMap[n], adfScoreMap[n], futureScoreMap[n]);
        var root := FloorCbrt(product);
        score := root;
      } else {
        score := lbScoreMap[n].Floor;
      }
    }
  }

  lemma IsReady(s: Scheduler, nodes: seq<string>, lb: Raw, adf: Raw, future: Raw, sla: bool)
    requires forall n :: n in nodes ==> n in s.lbScoreMap && s.lbScoreMap[n] == Stretched(nodes, lb, n)
    requires sla ==> forall n :: n in nodes ==> n in s.adfScoreMap && s.adfScoreMap[n] == Stretched(nodes, adf, n)
    requires sla ==>
      forall n :: n in nodes ==> n in s.futureScoreMap && s.futureScoreMap[n] == Stretched(nodes, future, n)
    ensures s.Ready(nodes, lb, adf, future, sla)
  {
  }

  lemma StretchedRange(nodes: seq<string>, raw: Raw, n: string)
    requires n in nodes
    ensures 100.0 <= Stretched(nodes, raw, n) <= 200.0
  {
    hide MinOf, MaxOf, Stretch;
    Extremes(nodes, raw, n);
    StretchFacts(raw(n), raw(n), MinOf(nodes, raw), MaxOf(nodes, raw));
  }

  lemma StretchedOrder(nodes: seq<string>, raw: Raw, m: string, n: string)
    requires m in nodes && n in nodes && raw(m) <= raw(n)
    ensures 100.0 <= Stretched(nodes, raw, m) <= Stretched(nodes, raw, n) <= 200.0
  {
    hide MinOf, MaxOf, Stretch;
    Extremes(nodes, raw, m);
    Extremes(nodes, raw, n);
    StretchFacts(raw(m), raw(n), MinOf(nodes, raw), MaxOf(nodes, raw));
  }

  /** Dominance before the last stage: a node at least as good in all raw scores that count gets at least as high
      a combined score, and all combined scores lie in 100..200. */
  lemma CombinedPreservesDominance(nodes: seq<string>, lb: Raw, adf: Raw, future: Raw, sla: bool,
                                   m: string, n: string, low: int, high: int)
    requires m in nodes && n in nodes
    requires lb(m) <= lb(n) && (sla ==> adf(m) <= adf(n) && future(m) <= future(n))
    requires Combines(nodes, lb, adf, future, sla, m, low) && Combines(nodes, lb, adf, future, sla, n, high)
    ensures 100 <= low <= high <= 200
  {
    hide Stretched, IsFloorCbrt, Product;
    StretchedOrder(nodes, lb, m, n);
    if sla {
      StretchedOrder(nodes, adf, m, n);
      StretchedOrder(nodes, future, m, n);
      var a, b, c := Stretched(nodes, lb, m), Stretched(nodes, adf, m), Stretched(nodes, future, m);
      var a', b', c' := Stretched(nodes, lb, n), Stretched(nodes, adf, n), Stretched(nodes, future, n);
      ProductMonotone(a, b, c, a', b', c');
      ProductRange(a, b, c);
      ProductRange(a', b', c');
      FloorCbrtMonotone(Product(a, b, c), Product(a', b', c'), low, high);
      FloorCbrtRange(Product(a, b, c), low);
      FloorCbrtRange(Product(a', b', c'), high);
    }
  }

  // ----- Third stage -----

  /** The division comes before the multiplication and is an integer division. */
  function Rescale(score: int, min: int, max: int): int {
    if max == min then MIN_NODE_SCORE
    else (score - min) / (max - min) * (MAX_NODE_SCORE - MIN_NODE_SCORE) + MIN_NODE_SCORE
  }

  ghost predicate Bounds(scores: seq<int>, min: int, max: int) {
    && (forall i :: 0 <= i < |scores| ==> min <= scores[i] <= max)
    && min in scores && max in scores
  }

  method NormalizeScore(scores: array<int>) returns (ghost min: int, ghost max: int)
    requires forall i :: 0 <= i < scores.Length ==> -MAX_INT64 <= scores[i] <= MAX_INT64
    modifies scores
    ensures scores.Length > 0 ==> Bounds(old(scores[..]), min, max)
    ensures forall i :: 0 <= i < scores.Length ==> scores[i] == Rescale(old(scores[i]), min, max)
  {
    var hi, lo := -MAX_INT64, MAX_INT64;
    for i := 0 to scores.Length
      invariant forall k :: 0 <= k < i ==> lo <= scores[k] <= hi
      invariant i == 0 ==> hi == -MAX_INT64 && lo == MAX_INT64
      invariant i > 0 ==> lo in scores[..i] && hi in scores[..i]
    {
      assert scores[..i + 1] == scores[..i] + [scores[i]];
      if scores[i] > hi {
        hi := scores[i];
      }
      if scores[i] < lo {
        lo := scores[i];
      }
      if i == 0 {
        assert hi == scores[0] && lo == scores[0];
      }
    }
    assert scores[..scores.Length] == scores[..];
    min, max := lo, hi;
    var oldRange := hi - lo;
    for i := 0 to scores.Length
      invariant forall k :: 0 <= k < i ==> scores[k] == Rescale(old(scores[k]), lo, hi)
      invariant forall k :: i <= k < scores.Length ==> scores[k] == old(scores[k])
    {
      if oldRange == 0 {
        scores[i] := MIN_NODE_SCORE;
      } else {
        scores[i] := (scores[i] - lo) / oldRange * (MAX_NODE_SCORE - MIN_NODE_SCORE) + MIN_NODE_SCORE;
      }
    }
  }

  /** Only two node scores exist: because the division comes first, the nodes with the largest combined score get
      the top value and all others nothing; if all are equal, nobody gets anything. */
  lemma FinalIsTopOrNothing(scores: seq<int>, min: int, max: int, i: nat)
    requires Bounds(scores, min, max) && i < |scores|
    ensures Rescale(scores[i], min, max) == if scores[i] == max && min != max then MAX_NODE_SCORE else MIN_NODE_SCORE
  {
    if min != max {
      DivideBelow(scores[i] - min, max - min);
    }
  }

  /** The linear map onto 0..100 that the comment above the loop announces, rounded down. */
  function Linear(score: int, min: int, max: int): int
    requires min < max
  {
    (score - min) * MAX_NODE_SCORE / (max - min)
  }

  /** The announced linear map is met exactly by the largest scores and by those less than a hundredth of the range
      above the smallest; every score between them loses all it has. */
  lemma LinearExactly(scores: seq<int>, min: int, max: int, i: nat)
    requires Bounds(scores, min, max) && i < |scores| && min < max
    ensures Rescale(scores[i], min, max) == Linear(scores[i], min, max)
      <==> scores[i] == max || (scores[i] - min) * MAX_NODE_SCORE < max - min
  {
    hide Rescale;
    FinalIsTopOrNothing(scores, min, max, i);
    var x, d := scores[i] - min, max - min;
    if x == d {
      QuotientAtLeast(100 * d, d, 100);
    } else if x * 100 < d {
      QuotientZero(x * 100, d);
    } else {
      QuotientAtLeast(x * 100, d, 1);
    }
  }

  lemma QuotientZero(x: int, d: int)
    requires 0 <= x < d
    ensures x / d == 0
  {
  }

  lemma QuotientAtLeast(x: int, d: int, q: nat)
    requires d > 0 && q * d <= x
    ensures x / d >= q
    ensures x == q * d ==> x / d == q
  {
    var r := x / d;
    assert x == d * r + x % d;
    assert r < q ==> d * (r + 1) <= d * q;
    assert r > q ==> d * r >= d * (q + 1);
  }

  lemma DivideBelow(x: int, d: int)
    requires 0 <= x <= d && d > 0
    ensures x / d == if x == d then 1 else 0
  {
  }

  /** Dominance through all three stages: for distinctly named nodes, a node at least as good in all raw scores
      ends with at least as high a node score. */
  lemma PipelinePreservesDominance(nodes: seq<string>, lb: Raw, adf: Raw, future: Raw, sla: bool,
                                   scores: seq<int>, min: int, max: int, i: nat, j: nat)
    requires i < |nodes| && j < |nodes| && |scores| == |nodes| && Bounds(scores, min, max)
    requires forall k :: 0 <= k < |nodes| ==> Combines(nodes, lb, adf, future, sla, nodes[k], scores[k])
    requires lb(nodes[i]) <= lb(nodes[j])
    requires sla ==> adf(nodes[i]) <= adf(nodes[j]) && future(nodes[i]) <= future(nodes[j])
    ensures MIN_NODE_SCORE <= Rescale(scores[i], min, max) <= Rescale(scores[j], min, max) <= MAX_NODE_SCORE
  {
    hide Combines, Rescale;
    CombinedPreservesDominance(nodes, lb, adf, future, sla, nodes[i], nodes[j], scores[i], scores[j]);
    FinalIsTopOrNothing(scores, min, max, i);
    FinalIsTopOrNothing(scores, min, max, j);
  }

  /** No raw score is below the value that the running maximum starts from. */
  ghost predicate WithinStart(nodes: seq<string>, raw: Raw) {
    forall k :: 0 <= k < |nodes| ==> -9223372036854775808.0 <= raw(nodes[k])
  }

  /** Scores below that value are all taken for it. */
  lemma {:induction false} MaxOfTinyScores(nodes: seq<string>, raw: Raw)
    requires forall k :: 0 <= k < |nodes| ==> raw(nodes[k]) <= -9223372036854775808.0
    ensures MaxOf(nodes, raw) == -9223372036854775808.0
  {
    if nodes != [] {
      MaxOfTinyScores(nodes[..|nodes| - 1], raw);
    }
  }

  /** Then the extremes are scores of some nodes. */
  lemma {:induction false} ExtremesAttained(nodes: seq<string>, raw: Raw) returns (a: nat, b: nat)
    requires nodes != [] && WithinStart(nodes, raw)
    ensures a < |nodes| && raw(nodes[a]) == MinOf(nodes, raw)
    ensures b < |nodes| && raw(nodes[b]) == MaxOf(nodes, raw)
  {
    var last := |nodes| - 1;
    a, b := last, last;
    if last > 0 {
      var before := nodes[..last];
      var c, d := ExtremesAttained(before, raw);
      if raw(before[c]) < raw(nodes[last]) {
        a := c;
      }
      if raw(before[d]) > raw(nodes[last]) {
        b := d;
      }
    }
  }

  /** The combined score without the network scores: 200 exactly for the largest raw score, 100 for the smallest. */
  lemma LoadScoreExtremes(nodes: seq<string>, lb: Raw, adf: Raw, future: Raw, n: string, score: int)
    requires n in nodes && Combines(nodes, lb, adf, future, false, n, score)
    requires MinOf(nodes, lb) < MaxOf(nodes, lb)
    ensures score <= 200 && (score == 200 <==> lb(n) == MaxOf(nodes, lb))
    ensures lb(n) == MinOf(nodes, lb) ==> score == 100
  {
    hide MinOf, MaxOf, Stretch;
    var lo, hi := MinOf(nodes, lb), MaxOf(nodes, lb);
    Extremes(nodes, lb, n);
    StretchFacts(lb(n), lb(n), lo, hi);
  }

  /** Without the network scores, as soon as two raw scores differ, the top value goes exactly to the nodes whose
      raw load-balancing score no node exceeds. */
  lemma TopGoesToLargestLoad(nodes: seq<string>, lb: Raw, adf: Raw, future: Raw,
                             scores: seq<int>, min: int, max: int, i: nat, j: nat, m: nat)
    requires i < |nodes| && j < |nodes| && m < |nodes| && |scores| == |nodes| && Bounds(scores, min, max)
    requires forall k :: 0 <= k < |nodes| ==> Combines(nodes, lb, adf, future, false, nodes[k], scores[k])
    requires lb(nodes[j]) != lb(nodes[m]) && WithinStart(nodes, lb)
    ensures Rescale(scores[i], min, max) == MAX_NODE_SCORE <==>
              forall k :: 0 <= k < |nodes| ==> lb(nodes[k]) <= lb(nodes[i])
  {
    hide MinOf, MaxOf, Rescale, Combines, WithinStart;
    var a, b := ExtremesAttained(nodes, lb);
    var hi := MaxOf(nodes, lb);
    forall k | 0 <= k < |nodes| ensures MinOf(nodes, lb) <= lb(nodes[k]) <= hi {
      Extremes(nodes, lb, nodes[k]);
    }
    assert MinOf(nodes, lb) < hi by {
      assert MinOf(nodes, lb) <= lb(nodes[j]) <= hi && MinOf(nodes, lb) <= lb(nodes[m]) <= hi;
    }
    forall k | 0 <= k < |nodes|
      ensures scores[k] <= 200 && (scores[k] == 200 <==> lb(nodes[k]) == hi)
      ensures k == a ==> scores[k] == 100
    {
      LoadScoreExtremes(nodes, lb, adf, future, nodes[k], scores[k]);
    }
    assert scores[a] == 100 && scores[b] == 200;
    assert max == 200 && min != max;
    FinalIsTopOrNothing(scores, min, max, i);
  }

  // ----- The top value in general -----

  /** What is rounded down: the product of a node's three stretched scores before the cube root, or its stretched
      load-balancing score. */
  ghost function Unrounded(nodes: seq<string>, lb: Raw, adf: Raw, future: Raw, sla: bool, n: string): real
    requires n in nodes
  {
    if sla then Product(Stretched(nodes, lb, n), Stretched(nodes, adf, n), Stretched(nodes, future, n))
    else Stretched(nodes, lb, n)
  }

  /** A perfect cube, or an integer if there is no cube root, lies above `x` and not above `y`. */
  ghost predicate StepBetween(sla: bool, x: real, y: real) {
    if sla then exists c: nat :: x < Cube(c) as real <= y else x < y.Floor as real
  }

  /** Rounding the cube roots down tells two numbers apart exactly when a perfect cube lies between them. */
  lemma FloorCbrtOrder(x: real, y: real, m: nat, n: nat)
    requires IsFloorCbrt(x, m) && IsFloorCbrt(y, n)
    ensures m < n <==> StepBetween(true, x, y)
  {
    hide Cube;
    if m < n {
      CubeMonotone(m + 1, n);
      assert x < Cube(n) as real <= y;
    }
    if StepBetween(true, x, y) {
      var c: nat :| x < Cube(c) as real <= y;
      if c <= m {
        CubeMonotone(c, m);
      }
      if n < c {
        CubeMonotone(n + 1, c);
      }
    }
  }

  lemma CombinedOrder(nodes: seq<string>, lb: Raw, adf: Raw, future: Raw, sla: bool,
                      m: string, n: string, low: int, high: int)
    requires m in nodes && n in nodes
    requires Combines(nodes, lb, adf, future, sla, m, low) && Combines(nodes, lb, adf, future, sla, n, high)
    ensures low < high <==>
      StepBetween(sla, Unrounded(nodes, lb, adf, future, sla, m), Unrounded(nodes, lb, adf, future, sla, n))
  {
    hide Stretched, Product, IsFloorCbrt;
    if sla {
      FloorCbrtOrder(Unrounded(nodes, lb, adf, future, sla, m), Unrounded(nodes, lb, adf, future, sla, n), low, high);
    }
  }

  /** Who gets the top value, for all pods: exactly the nodes from which rounding separates no better node, provided
      it separates them from some worse one. */
  lemma TopGoesToMaximalNodes(nodes: seq<string>, lb: Raw, adf: Raw, future: Raw, sla: bool,
                              scores: seq<int>, min: int, max: int, i: nat)
    requires i < |nodes| && |scores| == |nodes| && Bounds(scores, min, max)
    requires forall k :: 0 <= k < |nodes| ==> Combines(nodes, lb, adf, future, sla, nodes[k], scores[k])
    ensures Rescale(scores[i], min, max) == MAX_NODE_SCORE <==>
            (forall k :: 0 <= k < |nodes| ==> !Ahead(nodes, lb, adf, future, sla, nodes[k], nodes[i])) &&
            (exists k :: 0 <= k < |nodes| && Ahead(nodes, lb, adf, future, sla, nodes[i], nodes[k]))
  {
    FinalIsTopOrNothing(scores, min, max, i);
    forall k | 0 <= k < |nodes|
      ensures scores[i] < scores[k] <==> Ahead(nodes, lb, adf, future, sla, nodes[k], nodes[i])
      ensures scores[k] < scores[i] <==> Ahead(nodes, lb, adf, future, sla, nodes[i], nodes[k])
    {
      hide Combines, StepBetween, Unrounded;
      CombinedOrder(nodes, lb, adf, future, sla, nodes[i], nodes[k], scores[i], scores[k]);
      CombinedOrder(nodes, lb, adf, future, sla, nodes[k], nodes[i], scores[k], scores[i]);
    }
    hide Rescale, Combines, Ahead;
    if scores[i] == max && min != max {
      var k :| 0 <= k < |scores| && scores[k] == min;
      assert scores[k] < scores[i];
    }
    if scores[i] != max {
      var k :| 0 <= k < |scores| && scores[k] == max;
      assert scores[i] < scores[k];
    }
  }

  /** Node `n` is so much better than node `m` that rounding tells them apart. */
  ghost predicate Ahead(nodes: seq<string>, lb: Raw, adf: Raw, future: Raw, sla: bool, n: string, m: string)
    requires n in nodes && m in nodes
  {
    StepBetween(sla, Unrounded(nodes, lb, adf, future, sla, m), Unrounded(nodes, lb, adf, future, sla, n))
  }

  /** Raw scores differ, and still nobody gets the top value: each of two nodes is best at one thing. */
  lemma NobodyOnTopExample(lb: Raw, adf: Raw, future: Raw, scores: seq<int>, min: int, max: int)
    requires lb("a") == 0.0 && lb("b") == 1.0 && adf("a") == 1.0 && adf("b") == 0.0 && future("a") == future("b") == 0.0
    requires |scores| == 2 && Bounds(scores, min, max)
    requires Combines(["a", "b"], lb, adf, future, true, "a", scores[0])
    requires Combines(["a", "b"], lb, adf, future, true, "b", scores[1])
    ensures Rescale(scores[0], min, max) == Rescale(scores[1], min, max) == MIN_NODE_SCORE
  {
    TwoNodes(lb);
    TwoNodes(adf);
    TwoNodes(future);
    var nodes := ["a", "b"];
    assert Unrounded(nodes, lb, adf, future, true, "a") == 2000000.0;
    assert Unrounded(nodes, lb, adf, future, true, "b") == 2000000.0;
    hide IsFloorCbrt, Rescale, Stretched, Product;
    FloorCbrtMonotone(2000000.0, 2000000.0, scores[0], scores[1]);
    FloorCbrtMonotone(2000000.0, 2000000.0, scores[1], scores[0]);
    assert min == max == scores[0];
    FinalIsTopOrNothing(scores, min, max, 0);
    FinalIsTopOrNothing(scores, min, max, 1);
  }

  /** Two nodes with raw scores 0 and 1, or 0 and 0. */
  lemma TwoNodes(raw: Raw)
    requires 0.0 <= raw("a") <= 1.0 && 0.0 <= raw("b") <= 1.0
    requires raw("a") == 0.0 || raw("b") == 0.0
    requires raw("a") == raw("b") || raw("a") == 1.0 || raw("b") == 1.0
    ensures Stretched(["a", "b"], raw, "a") == 100.0 + 100.0 * raw("a")
    ensures Stretched(["a", "b"], raw, "b") == 100.0 + 100.0 * raw("b")
  {
    var nodes := ["a", "b"];
    assert nodes[..1] == ["a"] && nodes[..1][..0] == [];
    assert MinOf(nodes[..1], raw) == raw("a") && MaxOf(nodes[..1][..0], raw) == StartOfMax();
    assert MaxOf(nodes[..1], raw) == raw("a");
    assert MinOf(nodes, raw) == 0.0;
    assert MaxOf(nodes, raw) == Max(raw("a"), raw("b"));
  }

  /** A combined score half-way between the others announces 50 and ends with 0. */
  lemma LostScoreExample()
    ensures Bounds([100, 150, 200], 100, 200)
    ensures Linear(150, 100, 200) == 50 && Rescale(150, 100, 200) == 0
  {
    assert [100, 150, 200][0] == 100 && [100, 150, 200][2] == 200;
  }

  // ----- What the parts of the pipeline mean -----

  /** The stretch is even: equal gaps between raw scores become equal gaps. */
  lemma StretchIsEven(x: real, y: real, z: real, w: real, min: real, max: real)
    requires min < max && x - y == z - w
    ensures Stretch(x, min, max) - Stretch(y, min, max) == Stretch(z, min, max) - Stretch(w, min, max)
  {
    var d := max - min;
    QuotientGap(x - min, y - min, d);
    QuotientGap(z - min, w - min, d);
  }

  lemma QuotientGap(x: real, y: real, d: real)
    requires d > 0.0
    ensures x / d - y / d == (x - y) / d
  {
    QuotientTimes(x, d);
    QuotientTimes(y, d);
    QuotientTimes(x - y, d);
    Distribute(d, x / d, y / d);
    SameProduct(x / d - y / d, (x - y) / d, d);
  }

  /** The combined score without roots: the largest integer whose cube is at most the product of the three stretched
      scores, or the largest integer that is at most the stretched load-balancing score. */
  lemma CombinesExactly(nodes: seq<string>, lb: Raw, adf: Raw, future: Raw, sla: bool, n: string, score: int)
    requires n in nodes
    ensures var a, b, c := Stretched(nodes, lb, n), Stretched(nodes, adf, n), Stretched(nodes, future, n);
            Combines(nodes, lb, adf, future, sla, n, score) <==>
              if sla then
                score >= 0 && (score * score * score) as real <= a * b * c
                           && a * b * c < ((score + 1) * (score + 1) * (score + 1)) as real
              else score as real <= a < score as real + 1.0
  {
    hide Stretched;
  }

  /** A node with three equal stretched scores combines to that score, rounded down. */
  lemma EqualScoresCombine(nodes: seq<string>, lb: Raw, adf: Raw, future: Raw, n: string, score: int)
    requires n in nodes && Combines(nodes, lb, adf, future, true, n, score)
    requires Stretched(nodes, lb, n) == Stretched(nodes, adf, n) == Stretched(nodes, future, n)
    ensures score == Stretched(nodes, lb, n).Floor
  {
    var x := Stretched(nodes, lb, n);
    StretchedRange(nodes, lb, n);
    var f := x.Floor;
    hide Stretched;
    CubeOfFloor(x, f);
    FloorCbrtMonotone(Product(x, x, x), Product(x, x, x), score, f);
    FloorCbrtMonotone(Product(x, x, x), Product(x, x, x), f, score);
  }

  lemma CubeOfFloor(x: real, f: nat)
    requires 100.0 <= x && f as real <= x < f as real + 1.0
    ensures IsFloorCbrt(Product(x, x, x), f)
  {
    RealCube(f);
    RealCube(f + 1);
    hide Cube, Product;
    ProductStrict(f as real, x, (f + 1) as real);
  }

  lemma RealCube(f: nat)
    ensures Product(f as real, f as real, f as real) == Cube(f) as real
  {
  }

  lemma ProductStrict(low: real, x: real, high: real)
    requires 0.0 < low <= x < high
    ensures Product(low, low, low) <= Product(x, x, x) < Product(high, high, high)
  {
    hide Times;
    SquareMonotone(low, x);
    SquareMonotone(x, high);
    TimesMonotone(low, x, Square(low));
    TimesMonotone(Square(low), Square(x), x);
    TimesMonotone(Square(x), Square(high), x);
    TimesStrictly(x, high, Square(high));
  }
}
