/** Fitting a beta distribution to a measured mean and standard deviation, over the reals. */
module BetaFit {
  import opened Options
  import opened RealArithmetic

  /** The smallest positive float64, 2 to the power -1074. */
  function SmallestNonzero(): (r: real)
    ensures 0.0 < r <= 0.01
  {
    var p32 := 4294967296.0;
    var p128 := p32 * p32 * p32 * p32;
    var p512 := p128 * p128 * p128 * p128;
    1.0 / (p512 * p512 * p32 * 262144.0)
  }

  /** The variance of a distribution on {0, 1} with this mean: no distribution on the interval has more. */
  function Spread(m1: real): real { m1 * (1.0 - m1) }

  function GetMaxVariance(m1: real): real {
    if 0.0 < m1 < 1.0 then Spread(m1) else 0.0
  }

  function Variance(m1: real, m2: real): real { m2 - Square(m1) }

  function FirstMoment(alpha: real, beta: real): real
    requires alpha > 0.0 && beta > 0.0
  {
    alpha / (alpha + beta)
  }

  function SecondMoment(alpha: real, beta: real): real
    requires alpha > 0.0 && beta > 0.0
  {
    FirstMoment(alpha, beta) * (alpha + 1.0) / (alpha + beta + 1.0)
  }

  function ThirdMoment(alpha: real, beta: real): real
    requires alpha > 0.0 && beta > 0.0
  {
    SecondMoment(alpha, beta) * (alpha + 2.0) / (alpha + beta + 2.0)
  }

  /** The fit is refused: the moments are not those of a distribution on the unit interval. */
  predicate Refuses(m1: real, m2: real) {
    m1 < 0.0 || m1 > 1.0 || Variance(m1, m2) < 0.0 || Variance(m1, m2) >= Spread(m1)
  }

  /** The sum of the fitted parameters, before it is kept away from zero. */
  function Concentration(m1: real, m2: real): real
    requires Variance(m1, m2) != 0.0
  {
    Spread(m1) / Variance(m1, m2) - 1.0
  }

  class BetaDistribution {
    var alpha: real
    var beta: real
    var firstMoment: real
    var secondMoment: real
    var thirdMoment: real
    /** The parameters are infinite and the moments are no numbers; the fields above then say nothing. */
    var degenerate: bool
    /** The smallest positive number there is. */
    const smallest: real

    /** The stored moments are those of the stored parameters. */
    ghost predicate Valid()
      reads this
    {
      && 0.0 < smallest <= 0.01
      && (!degenerate ==>
            && alpha > 0.0 && beta > 0.0
            && firstMoment == FirstMoment(alpha, beta)
            && secondMoment == SecondMoment(alpha, beta)
            && thirdMoment == ThirdMoment(alpha, beta))
    }

    constructor (alpha: real, beta: real)
      requires alpha > 0.0 && beta > 0.0
      ensures Valid() && this.alpha == alpha && this.beta == beta && !degenerate && smallest == SmallestNonzero()
    {
      smallest := SmallestNonzero();
      this.alpha := alpha;
      this.beta := beta;
      degenerate := false;
      new;
      ComputeMoments();
    }

    /** The moments determine the parameters: no fit refuses them, and what a fit of them computes (the
        concentration, and its shares by the mean) is what the moments were computed from. */
    method ComputeMoments()
      requires alpha > 0.0 && beta > 0.0 && !degenerate && 0.0 < smallest <= 0.01
      modifies this`firstMoment, this`secondMoment, this`thirdMoment
      ensures Valid()
      ensures !Refuses(firstMoment, secondMoment) && Variance(firstMoment, secondMoment) != 0.0
      ensures var t := Concentration(firstMoment, secondMoment);
              t == alpha + beta && firstMoment * t == alpha && (1.0 - firstMoment) * t == beta
    {
      firstMoment := alpha / (alpha + beta);
      secondMoment := firstMoment * (alpha + 1.0) / (alpha + beta + 1.0);
      thirdMoment := secondMoment * (alpha + 2.0) / (alpha + beta + 2.0);
      RefitReturnsParameters(alpha, beta);
    }

    /** Fits the first two moments. The first one is always met; the second one exactly when the concentration
        is not below the smallest positive number that it is raised to. Without variance the parameters become
        infinite. */
    method MatchMoments(m1: real, m2: real) returns (ok: bool)
      requires Valid()
      modifies this
      ensures Valid() && ok == !Refuses(m1, m2)
      ensures !ok ==> alpha == old(alpha) && beta == old(beta) && degenerate == old(degenerate)
      ensures ok ==> (degenerate <==> Variance(m1, m2) == 0.0)
      ensures ok && !degenerate ==>
        firstMoment == m1 && (secondMoment == m2 <==> Concentration(m1, m2) >= smallest)
    {
      hide Spread, Variance, Square, FirstMoment, SecondMoment, ThirdMoment;
      var variance := Variance(m1, m2);
      if m1 < 0.0 || m1 > 1.0 || variance < 0.0 || variance >= Spread(m1) {
        return false;
      }
      degenerate := variance == 0.0;
      if degenerate {
        return true;
      }
      AcceptedIsInside(m1, m2);
      var temp := Spread(m1) / variance - 1.0;
      assert temp == Concentration(m1, m2);
      hide Concentration;
      temp := if temp < smallest then smallest else temp;
      var a, b := m1 * temp, (1.0 - m1) * temp;
      SharesArePositive(m1, temp, a, b);
      FitMeetsMoments(m1, m2, smallest, temp, a, b);
      alpha, beta := a, b;
      ComputeMoments();
      ok := true;
    }
  }

  /** A distribution exactly for positive parameters. */
  method NewBetaDistribution(alpha: real, beta: real) returns (b: BetaDistribution?)
    ensures b == null <==> alpha <= 0.0 || beta <= 0.0
    ensures b != null ==> fresh(b) && b.Valid() && !b.degenerate && b.alpha == alpha && b.beta == beta
  {
    if alpha > 0.0 && beta > 0.0 {
      b := new BetaDistribution(alpha, beta);
    } else {
      b := null;
    }
  }

  // ----- The algebra of the fit -----

  lemma AcceptedIsInside(m1: real, m2: real)
    requires !Refuses(m1, m2) && Variance(m1, m2) != 0.0
    ensures 0.0 < m1 < 1.0 && 0.0 < Variance(m1, m2) < Spread(m1)
  {
    hide Variance;
    assert m1 != 0.0 && m1 != 1.0;
  }

  lemma SharesArePositive(m1: real, t: real, a: real, b: real)
    requires 0.0 < m1 < 1.0 && t > 0.0 && a == m1 * t && b == (1.0 - m1) * t
    ensures a > 0.0 && b > 0.0 && a + b == t
  {
    var rest := 1.0 - m1;
    PositiveTimes(m1, t);
    PositiveTimes(rest, t);
    assert b == rest * t;
    Distribute(t, m1, rest);
  }

  lemma FirstMomentOfShares(m1: real, t: real, a: real, b: real)
    requires a > 0.0 && b > 0.0 && a + b == t && a == m1 * t
    ensures FirstMoment(a, b) == m1
  {
    QuotientTimes(a, t);
    SameProduct(FirstMoment(a, b), m1, t);
  }

  lemma SecondMomentTimes(a: real, b: real)
    requires a > 0.0 && b > 0.0
    ensures SecondMoment(a, b) * (a + b + 1.0) == FirstMoment(a, b) * (a + 1.0)
  {
    hide FirstMoment;
    QuotientTimes(FirstMoment(a, b) * (a + 1.0), a + b + 1.0);
  }

  /** The second moment exceeds the square of the mean by the spread divided by the concentration plus one. */
  lemma SecondMomentOfShares(m1: real, t: real, a: real, b: real, second: real)
    requires a + b == t && a == m1 * t && second * (t + 1.0) == m1 * (a + 1.0)
    ensures (second - Square(m1)) * (t + 1.0) == Spread(m1)
  {
    Distribute(m1, a, 1.0);
    Associate(m1, m1, t);
    Distribute(m1 * m1, t, 1.0);
    Distribute(t + 1.0, second, m1 * m1);
    Distribute(m1, 1.0, -m1);
  }

  lemma FitMeetsMoments(m1: real, m2: real, smallest: real, t: real, a: real, b: real)
    requires 0.0 < m1 < 1.0 && 0.0 < Variance(m1, m2) < Spread(m1)
    requires t == if Concentration(m1, m2) < smallest then smallest else Concentration(m1, m2)
    requires a > 0.0 && b > 0.0 && a + b == t && a == m1 * t
    ensures FirstMoment(a, b) == m1
    ensures SecondMoment(a, b) == m2 <==> Concentration(m1, m2) >= smallest
  {
    hide FirstMoment, SecondMoment, Spread, Square;
    FirstMomentOfShares(m1, t, a, b);
    SecondMomentTimes(a, b);
    SecondMomentOfShares(m1, t, a, b, SecondMoment(a, b));
    QuotientTimes(Spread(m1), Variance(m1, m2));
    SameVariance(Variance(m1, m2), SecondMoment(a, b) - Square(m1), Concentration(m1, m2) + 1.0, t + 1.0, Spread(m1));
  }

  /** The reverse round trip: the moments of any distribution are accepted, and fitting them returns its
      parameters. */
  lemma RefitReturnsParameters(alpha: real, beta: real)
    requires alpha > 0.0 && beta > 0.0
    ensures var m1, m2 := FirstMoment(alpha, beta), SecondMoment(alpha, beta);
            && !Refuses(m1, m2) && Variance(m1, m2) != 0.0
            && Concentration(m1, m2) == alpha + beta
            && m1 * (alpha + beta) == alpha && (1.0 - m1) * (alpha + beta) == beta
  {
    var m1, m2, t := FirstMoment(alpha, beta), SecondMoment(alpha, beta), alpha + beta;
    QuotientTimes(alpha, t);
    SecondMomentTimes(alpha, beta);
    SecondMomentOfShares(m1, t, alpha, beta, m2);
    MeanIsInside(alpha, beta);
    hide FirstMoment, SecondMoment, Square;
    Distribute(t, 1.0, m1);
    SpreadIsPositive(m1);
    OneMoreThan(Variance(m1, m2), t, Spread(m1));
  }

  lemma MeanIsInside(alpha: real, beta: real)
    requires alpha > 0.0 && beta > 0.0
    ensures 0.0 < FirstMoment(alpha, beta) < 1.0
  {
    var m1, t := FirstMoment(alpha, beta), alpha + beta;
    QuotientTimes(alpha, t);
    if m1 >= 1.0 {
      TimesMonotone(1.0, m1, t);
    }
  }

  lemma SpreadIsPositive(m1: real)
    requires 0.0 < m1 < 1.0
    ensures Spread(m1) > 0.0
  {
    PositiveTimes(m1, 1.0 - m1);
  }

  lemma OneMoreThan(v: real, t: real, top: real)
    requires t > 0.0 && top > 0.0 && v * (t + 1.0) == top
    ensures 0.0 < v < top && top / v == t + 1.0
  {
    if v <= 0.0 {
      TimesMonotone(v, 0.0, t + 1.0);
    }
    Distribute(v, t, 1.0);
    PositiveTimes(v, t);
    QuotientTimes(top, v);
    SameProduct(top / v, t + 1.0, v);
  }

  /** Mirroring the interval exchanges the parameters: the moments of one minus the variable. */
  lemma MirroredMoments(alpha: real, beta: real)
    requires alpha > 0.0 && beta > 0.0
    ensures var m1, m2, m3 := FirstMoment(alpha, beta), SecondMoment(alpha, beta), ThirdMoment(alpha, beta);
            && FirstMoment(beta, alpha) == 1.0 - m1
            && SecondMoment(beta, alpha) == 1.0 - 2.0 * m1 + m2
            && ThirdMoment(beta, alpha) == 1.0 - 3.0 * m1 + 3.0 * m2 - m3
  {
    var m1, m2, m3 := FirstMoment(alpha, beta), SecondMoment(alpha, beta), ThirdMoment(alpha, beta);
    var n1, n2, n3 := FirstMoment(beta, alpha), SecondMoment(beta, alpha), ThirdMoment(beta, alpha);
    var t := alpha + beta;
    hide *;
    MomentsSolve(alpha, beta);
    MomentsSolve(beta, alpha);
    MirrorFirst(alpha, beta, t, m1, m2, m3, n1, n2, n3);
    MirrorSecond(alpha, beta, t, m1, m2, m3, n1, n2, n3);
    MirrorThird(alpha, beta, t, m1, m2, m3, n1, n2, n3);
  }

  /** The equations between successive moments, without quotients. */
  ghost predicate Solves(a: real, t: real, m1: real, m2: real, m3: real) {
    t > 0.0 && m1 * t == a && m2 * (t + 1.0) == m1 * (a + 1.0) && m3 * (t + 2.0) == m2 * (a + 2.0)
  }

  lemma MomentsSolve(a: real, b: real)
    requires a > 0.0 && b > 0.0
    ensures Solves(a, a + b, FirstMoment(a, b), SecondMoment(a, b), ThirdMoment(a, b))
  {
    QuotientTimes(a, a + b);
    SecondMomentTimes(a, b);
    ThirdMomentTimes(a, b);
    hide SecondMoment, ThirdMoment;
  }

  lemma ThirdMomentTimes(a: real, b: real)
    requires a > 0.0 && b > 0.0
    ensures ThirdMoment(a, b) * (a + b + 2.0) == SecondMoment(a, b) * (a + 2.0)
  {
    hide SecondMoment;
    QuotientTimes(SecondMoment(a, b) * (a + 2.0), a + b + 2.0);
  }

  lemma MirrorFirst(a: real, b: real, t: real, m1: real, m2: real, m3: real, n1: real, n2: real, n3: real)
    requires a + b == t && Solves(a, t, m1, m2, m3) && Solves(b, t, n1, n2, n3)
    ensures n1 == 1.0 - m1
  {
    FirstFrom(a, b, t, m1, n1);
  }

  lemma FirstFrom(a: real, b: real, t: real, m1: real, n1: real)
    requires t > 0.0 && a + b == t && m1 * t == a && n1 * t == b
    ensures n1 == 1.0 - m1
  {
    Distribute(t, m1, n1);
    SameProduct(m1 + n1, 1.0, t);
  }

  lemma MirrorSecond(a: real, b: real, t: real, m1: real, m2: real, m3: real, n1: real, n2: real, n3: real)
    requires a + b == t && Solves(a, t, m1, m2, m3) && Solves(b, t, n1, n2, n3) && n1 == 1.0 - m1
    ensures n2 == 1.0 - 2.0 * m1 + m2
  {
    SecondFrom(a, b, t, m1, m2, n1, n2);
  }

  lemma SecondFrom(a: real, b: real, t: real, m1: real, m2: real, n1: real, n2: real)
    requires t > 0.0 && a + b == t && m1 * t == a && n1 == 1.0 - m1
    requires m2 * (t + 1.0) == m1 * (a + 1.0) && n2 * (t + 1.0) == n1 * (b + 1.0)
    ensures n2 == 1.0 - 2.0 * m1 + m2
  {
    Distribute(m1, a, 1.0);
    Distribute(m1, a, b);
    Distribute(m1, t, 1.0);
    Distribute(b + 1.0, 1.0, m1);
    Distribute(m1, b, 1.0);
    Distribute(t + 1.0, 1.0 - 2.0 * m1, m2);
    Distribute(t + 1.0, 1.0, 2.0 * m1);
    Associate(2.0, m1, t + 1.0);
    SameProduct(n2, 1.0 - 2.0 * m1 + m2, t + 1.0);
  }

  lemma MirrorThird(a: real, b: real, t: real, m1: real, m2: real, m3: real, n1: real, n2: real, n3: real)
    requires a + b == t && Solves(a, t, m1, m2, m3) && Solves(b, t, n1, n2, n3) && n2 == 1.0 - 2.0 * m1 + m2
    ensures n3 == 1.0 - 3.0 * m1 + 3.0 * m2 - m3
  {
    var m1a, m2a, m1b, m2b, m2t := m1 * a, m2 * a, m1 * b, m2 * b, m2 * t;
    Distribute(m1, a, b);
    Distribute(m2, a, b);
    assert m1a + m1b == a && m2a + m2b == m2t;
    Distribute(m1, a, 1.0);
    Distribute(m2, t, 1.0);
    assert m2t + m2 == m1a + m1;
    Distribute(m2, a, 2.0);
    var left := 1.0 - 3.0 * m1 + 3.0 * m2 - m3;
    assert left * (t + 2.0) == (t + 2.0) - 3.0 * (a + 2.0 * m1) + 3.0 * (m2t + 2.0 * m2) - (m2a + 2.0 * m2) by {
      Expand4(m1, m2, m3, t);
    }
    assert n2 * (b + 2.0) == (b + 2.0) - 2.0 * (m1b + 2.0 * m1) + (m2b + 2.0 * m2) by {
      Expand3(m1, m2, b);
    }
    SameProduct(n3, left, t + 2.0);
  }

  lemma Expand4(x: real, y: real, z: real, t: real)
    ensures (1.0 - 3.0 * x + 3.0 * y - z) * (t + 2.0)
         == (t + 2.0) - 3.0 * (x * t + 2.0 * x) + 3.0 * (y * t + 2.0 * y) - z * (t + 2.0)
  {
  }

  lemma Expand3(x: real, y: real, b: real)
    ensures (1.0 - 2.0 * x + y) * (b + 2.0) == (b + 2.0) - 2.0 * (x * b + 2.0 * x) + (y * b + 2.0 * y)
  {
  }

  lemma SameVariance(v: real, w: real, c: real, t: real, top: real)
    requires v > 0.0 && t > 0.0 && c * v == top && w * t == top && t >= c
    ensures w == v <==> t == c
  {
    if t == c {
      SameProduct(w, v, c);
    } else {
      Distribute(v, t, c);
      assert v * (t - c) > 0.0;
    }
  }

  // ----- The clamp that feeds the fit -----

  /** The share of the maximal variance that is allowed, to stay clear of its limit. */
  function Allowance(variance: real): real { variance * 0.99 }

  /** `root` is the square root of the largest variance that is allowed for mean `mu`. */
  ghost predicate IsAllowedDeviation(mu: real, root: real) {
    root >= 0.0 && Square(root) == Allowance(GetMaxVariance(mu))
  }

  function ClampSigma(sigma: real, root: real): real {
    if sigma < root then sigma else root
  }

  lemma QuotientBound(top: real, v: real)
    requires 0.0 < v <= Allowance(top)
    ensures top / v > 1.01
  {
    var q := top / v;
    QuotientTimes(top, v);
    if q <= 1.01 {
      AtMostTimes(q, v);
    }
  }

  lemma AtMostTimes(q: real, v: real)
    requires q <= 1.01 && v > 0.0
    ensures q * v <= 1.01 * v
  {
    TimesMonotone(q, 1.01, v);
    assert Times(q, v) == q * v && Times(1.01, v) == 1.01 * v;
  }

  /** After the clamp a positive deviation means a mean strictly between 0 and 1 and a fit that is never refused
      and whose concentration is far from zero, so that it meets both moments. */
  lemma ClampedFitRoundTrips(mu: real, sigma: real, root: real)
    requires 0.0 <= sigma && IsAllowedDeviation(mu, root) && ClampSigma(sigma, root) > 0.0
    ensures var m2 := Square(ClampSigma(sigma, root)) + Square(mu);
            && 0.0 < mu < 1.0 && !Refuses(mu, m2) && Variance(mu, m2) != 0.0
            && Concentration(mu, m2) > 0.01
  {
    hide Square, Spread;
    var s := ClampSigma(sigma, root);
    SquareMonotone(s, root);
    assert Allowance(GetMaxVariance(mu)) > 0.0;
    assert 0.0 < mu < 1.0;
    QuotientBound(Spread(mu), Square(s));
    assert Square(s) < Spread(mu);
    assert Variance(mu, Square(s) + Square(mu)) == Square(s);
  }

  /** The probability of staying within the threshold; `cdf` is the distribution function of a fit. */
  method ComputeProbability(mu: real, sigma: real, threshold: real, cdf: (real, real, real) -> real)
    returns (prob: real, fit: Option<(real, real)>)
    ensures mu == 0.0 || (sigma == 0.0 && mu <= threshold) ==> prob == 1.0 && fit.None?
    ensures mu != 0.0 && sigma == 0.0 && mu > threshold ==> prob == 0.0 && fit.None?
    ensures mu != 0.0 && sigma != 0.0 ==>
              (fit.Some? <==> !Refuses(mu, Square(sigma) + Square(mu))) && (fit.None? ==> prob == 0.0)
    ensures fit.Some? ==> fit.value.0 > 0.0 && fit.value.1 > 0.0 && FirstMoment(fit.value.0, fit.value.1) == mu
                          && prob == cdf(fit.value.0, fit.value.1, threshold)
    ensures fit.Some? ==> var m2 := Square(sigma) + Square(mu);
                          && Variance(mu, m2) != 0.0
                          && (Concentration(mu, m2) > 0.01 ==> SecondMoment(fit.value.0, fit.value.1) == m2)
  {
    hide Refuses, Square, FirstMoment, SecondMoment, ThirdMoment, Concentration;
    if mu == 0.0 || (sigma == 0.0 && mu <= threshold) {
      return 1.0, None;
    }
    if sigma == 0.0 && mu > threshold {
      return 0.0, None;
    }
    SquarePositive(sigma);
    var m2 := Square(sigma) + Square(mu);
    var d := new BetaDistribution(1.0, 1.0);
    var ok := d.MatchMoments(mu, m2);
    if !ok {
      return 0.0, None;
    }
    fit := Some((d.alpha, d.beta));
    prob := cdf(d.alpha, d.beta, threshold);
  }

  function Clamp01(x: real): real {
    if x < 0.0 then 0.0 else if x > 1.0 then 1.0 else x
  }

  /** The values of the distribution function are probabilities. */
  ghost predicate IsProbability(cdf: (real, real, real) -> real) {
    forall a, b, x :: 0.0 <= cdf(a, b, x) <= 1.0
  }

  /** The part of the capacity that is taken; a node without capacity has none. */
  function Share(x: int, capacity: int): real
    requires capacity >= 0
  {
    if capacity == 0 then 0.0 else x as real / capacity as real
  }

  /** The load part of the risk: clamp the deviation, fit, take the probability of staying within what is
      allocated, and condition it on staying within the limits. `root` is the square root that bounds the
      deviation. The fit exists exactly when neither the mean nor the clamped deviation is 0, and meets both
      moments; conditioning never raises the risk, and makes the conditional probability times that of the
      condition the joint one; without a fit the risk is all or nothing. A node without capacity has mean 0. */
  method LoadRisk(mu: real, deviation: real, root: real, requestMinusPod: int, limitMinusPod: int, capacity: int,
                  cdf: (real, real, real) -> real)
    returns (risk: real, fit: Option<(real, real)>)
    requires 0.0 <= mu <= 1.0 && 0.0 <= deviation && IsAllowedDeviation(mu, root)
    requires capacity >= 0 && (capacity == 0 ==> mu == 0.0 && limitMinusPod >= 0) && IsProbability(cdf)
    ensures 0.0 <= risk <= 1.0
    ensures fit.Some? <==> mu != 0.0 && ClampSigma(deviation, root) != 0.0
    ensures fit.Some? ==> var sigma := ClampSigma(deviation, root);
                          && fit.value.0 > 0.0 && fit.value.1 > 0.0
                          && FirstMoment(fit.value.0, fit.value.1) == mu
                          && SecondMoment(fit.value.0, fit.value.1) == Square(sigma) + Square(mu)
    ensures fit.Some? ==>
              var a, b := fit.value.0, fit.value.1;
              var within := cdf(a, b, Clamp01(Share(requestMinusPod, capacity)));
              var limited := cdf(a, b, Share(limitMinusPod, capacity));
              && risk <= 1.0 - within
              && (!(requestMinusPod <= limitMinusPod < capacity) ==> risk == 1.0 - within)
              && (requestMinusPod <= limitMinusPod < capacity && limitMinusPod != 0 && limited > 0.0 ==>
                    (1.0 - risk) * limited == if within < limited then within else limited)
    ensures fit.None? ==>
              && (risk == 0.0 || risk == 1.0)
              && (risk == 0.0 <==> || mu == 0.0 || mu <= Clamp01(Share(requestMinusPod, capacity))
                                   || (requestMinusPod <= limitMinusPod < capacity && limitMinusPod == 0))
  {
    hide Refuses, Square, FirstMoment, SecondMoment, ThirdMoment, Concentration, IsAllowedDeviation,
      Variance;
    var sigma := ClampSigma(deviation, root);
    ClampIsZeroOrFits(mu, deviation, root);
    var allocThreshold := Clamp01(Share(requestMinusPod, capacity));
    var allocProb;
    allocProb, fit := ComputeProbability(mu, sigma, allocThreshold, cdf);
    if limitMinusPod < capacity && requestMinusPod <= limitMinusPod {
      var limitThreshold := Share(limitMinusPod, capacity);
      ZeroQuotient(limitMinusPod, capacity);
      if limitThreshold == 0.0 {
        allocProb := 1.0;
      } else if fit.Some? {
        var limitProb := cdf(fit.value.0, fit.value.1, limitThreshold);
        if limitProb > 0.0 {
          Conditioned(allocProb, limitProb);
          allocProb := Clamp01(allocProb / limitProb);
        }
      }
    }
    risk := 1.0 - allocProb;
  }

  /** How far the limits overcommit the capacity, as a part of what lies between requests and limits. */
  function LimitRisk(request: int, limit: int, capacity: int): real
    requires limit > capacity ==> limit != request
  {
    if limit > capacity then (limit - capacity) as real / (limit - request) as real else 0.0
  }

  /** The combination of both parts, given the load part if it was measured (0 otherwise). The result is a number
      unless limits equal to the requests exceed the capacity and get no weight; it lies in 0..1, is certain when
      such limits do get weight, and as long as the requests are within the capacity it lies between the parts. */
  method CombineRisks(request: int, limit: int, capacity: int, load: real, weight: real)
    returns (total: Option<real>)
    requires request <= limit && 0.0 <= load <= 1.0 && 0.0 <= weight <= 1.0
    ensures total.None? <==> request == limit > capacity && weight == 0.0
    ensures total.Some? ==> 0.0 <= total.value <= 1.0
    ensures request == limit > capacity && weight > 0.0 ==> total == Some(1.0)
    ensures request <= capacity ==>
              var part := LimitRisk(request, limit, capacity);
              total.Some? && 0.0 <= part <= 1.0 &&
              (part <= total.value <= load || load <= total.value <= part) && (weight == 1.0 ==> total.value == part)
    ensures weight == 0.0 && total.Some? ==> total.value == load
  {
    if limit > capacity && limit == request {
      // the limit part is infinite: any weight makes the sum infinite, no weight makes it no number
      return if weight > 0.0 then Some(1.0) else None;
    }
    var riskLimit := LimitRisk(request, limit, capacity);
    LimitRiskRange(request, limit, capacity);
    hide *;
    Weighted(weight, riskLimit, load);
    var mean := Mean(weight, riskLimit, load);
    ClampRange(mean);
    total := Some(Clamp01(mean));
  }

  function Mean(w: real, x: real, y: real): real { w * x + (1.0 - w) * y }

  lemma ClampRange(x: real)
    ensures 0.0 <= Clamp01(x) <= 1.0 && (0.0 <= x <= 1.0 ==> Clamp01(x) == x)
  {
  }

  lemma LimitRiskRange(request: int, limit: int, capacity: int)
    requires request <= limit && (limit > capacity ==> limit != request)
    ensures 0.0 <= LimitRisk(request, limit, capacity)
    ensures request <= capacity ==> LimitRisk(request, limit, capacity) <= 1.0
  {
    if limit > capacity {
      var x, y := (limit - capacity) as real, (limit - request) as real;
      QuotientTimes(x, y);
      var q := x / y;
      if q < 0.0 {
        PositiveTimes(-q, y);
      }
      if q > 1.0 {
        PositiveTimes(q - 1.0, y);
        Distribute(y, q, 1.0);
      }
    }
  }

  /** A weighted mean lies between its parts. */
  lemma Weighted(w: real, x: real, y: real)
    requires 0.0 <= w <= 1.0
    ensures var mean := Mean(w, x, y);
            && (x <= y ==> x <= mean <= y) && (y <= x ==> y <= mean <= x)
            && (w == 1.0 ==> mean == x) && (w == 0.0 ==> mean == y)
  {
    var d := x - y;
    var mean := Mean(w, x, y);
    Distribute(y, 1.0, w);
    Distribute(w, x, -y);
    assert mean == y + w * d;
    Distribute(d, 1.0, w);
    assert mean == x - (1.0 - w) * d;
    if 0.0 < w < 1.0 && d != 0.0 {
      SignOfTimes(w, d);
      SignOfTimes(1.0 - w, d);
    }
  }

  lemma SignOfTimes(x: real, y: real)
    requires x > 0.0
    ensures (x * y > 0.0 <==> y > 0.0) && (x * y < 0.0 <==> y < 0.0)
  {
  }

  lemma ClampIsZeroOrFits(mu: real, sigma: real, root: real)
    requires 0.0 <= sigma && IsAllowedDeviation(mu, root)
    ensures ClampSigma(sigma, root) != 0.0 ==>
              var m2 := Square(ClampSigma(sigma, root)) + Square(mu);
              && !Refuses(mu, m2) && Variance(mu, m2) != 0.0 && Concentration(mu, m2) > 0.01
  {
    if ClampSigma(sigma, root) != 0.0 {
      ClampedFitRoundTrips(mu, sigma, root);
    }
  }

  lemma ZeroQuotient(x: int, y: int)
    requires y > 0
    ensures x as real / y as real == 0.0 <==> x == 0
  {
    QuotientTimes(x as real, y as real);
  }

  lemma Conditioned(x: real, y: real)
    requires 0.0 <= x <= 1.0 && 0.0 < y <= 1.0
    ensures x <= x / y
    ensures Clamp01(x / y) * y == if x < y then x else y
  {
    QuotientTimes(x, y);
    var q := x / y;
    assert q >= 0.0;
    if q > 0.0 {
      TimesMonotone(y, 1.0, q);
    }
    if q <= 1.0 {
      TimesMonotone(q, 1.0, y);
    } else {
      TimesMonotone(1.0, q, y);
    }
  }

  // ----- What the parts of the fit mean -----

  /** Exactly the moments of beta distributions are accepted, among those with some variance. */
  lemma RefusesExactly(m1: real, m2: real)
    requires Variance(m1, m2) != 0.0
    ensures !Refuses(m1, m2) <==>
              exists alpha, beta :: alpha > 0.0 && beta > 0.0 &&
                                    FirstMoment(alpha, beta) == m1 && SecondMoment(alpha, beta) == m2
  {
    if alpha, beta :| alpha > 0.0 && beta > 0.0 && FirstMoment(alpha, beta) == m1 && SecondMoment(alpha, beta) == m2 {
      RefitReturnsParameters(alpha, beta);
    }
    if !Refuses(m1, m2) {
      AcceptedIsInside(m1, m2);
      var t := Concentration(m1, m2);
      MoreThanOne(Spread(m1), Variance(m1, m2));
      var a, b := m1 * t, (1.0 - m1) * t;
      hide Spread, Variance, FirstMoment, SecondMoment, Concentration;
      SharesArePositive(m1, t, a, b);
      FitMeetsMoments(m1, m2, t, t, a, b);
      assert FirstMoment(a, b) == m1;
    }
  }

  lemma MoreThanOne(top: real, v: real)
    requires 0.0 < v < top
    ensures top / v - 1.0 > 0.0
  {
    QuotientTimes(top, v);
    var q := top / v;
    if q <= 1.0 {
      TimesMonotone(q, 1.0, v);
    }
  }

  /** The clamp leaves exactly those deviations alone whose square is at most 99 percent of the largest variance. */
  lemma ClampChangesNothingExactly(mu: real, sigma: real, root: real)
    requires 0.0 < mu < 1.0 && 0.0 <= sigma && IsAllowedDeviation(mu, root)
    ensures ClampSigma(sigma, root) == sigma <==> sigma * sigma <= 0.99 * (mu * (1.0 - mu))
  {
    assert Square(root) == 0.99 * (mu * (1.0 - mu));
    assert Square(sigma) == sigma * sigma;
    hide Times, Square, IsAllowedDeviation;
    if 0.0 < sigma <= root {
      SquareMonotone(sigma, root);
    }
    if root < sigma {
      RootBelow(root, sigma);
    }
    if sigma == 0.0 {
      SquareNonNegative(root);
    }
  }

  lemma RootBelow(x: real, y: real)
    requires 0.0 <= x < y
    ensures Square(x) < Square(y)
  {
    if x == 0.0 {
      SquarePositive(y);
    } else {
      hide Times;
      TimesMonotone(x, y, x);
      TimesStrictly(x, y, y);
    }
  }

  lemma SquareNonNegative(x: real)
    ensures Square(x) >= 0.0
  {
    if x != 0.0 {
      SquarePositive(x);
    }
  }

  /** Size bias: the next moment is the mean times the same moment with one more success. */
  lemma SizeBias(alpha: real, beta: real)
    requires alpha > 0.0 && beta > 0.0
    ensures SecondMoment(alpha, beta) == FirstMoment(alpha, beta) * FirstMoment(alpha + 1.0, beta)
    ensures ThirdMoment(alpha, beta) == FirstMoment(alpha, beta) * SecondMoment(alpha + 1.0, beta)
  {
    var m, n := FirstMoment(alpha, beta), FirstMoment(alpha + 1.0, beta);
    var k := (alpha + 2.0) / (alpha + beta + 2.0);
    ProductOverQuotient(m, alpha + 1.0, alpha + beta + 1.0);
    assert SecondMoment(alpha, beta) == m * n;
    ProductOverQuotient(SecondMoment(alpha, beta), alpha + 2.0, alpha + beta + 2.0);
    ProductOverQuotient(n, alpha + 2.0, alpha + beta + 2.0);
    assert ThirdMoment(alpha, beta) == m * n * k;
    assert SecondMoment(alpha + 1.0, beta) == n * k;
    Associate(m, n, k);
  }

  lemma ProductOverQuotient(x: real, y: real, z: real)
    requires z > 0.0
    ensures x * y / z == x * (y / z)
  {
    QuotientTimes(y, z);
    QuotientTimes(x * y, z);
    Associate(x, y / z, z);
    SameProduct(x * y / z, x * (y / z), z);
  }

  /** The limit part falls evenly with the capacity, from 1 where the capacity equals the requests to 0 where it
      reaches the limits. */
  lemma LimitRiskIsEven(request: int, limit: int, k: nat)
    requires request < limit
    ensures LimitRisk(request, limit, request) == 1.0 && LimitRisk(request, limit, limit) == 0.0
    ensures LimitRisk(request, limit, limit - k) == k as real * LimitRisk(request, limit, limit - 1)
  {
    var d := (limit - request) as real;
    if k > 0 {
      ProductOverQuotient(k as real, 1.0, d);
      assert LimitRisk(request, limit, limit - k) == k as real / d;
      assert LimitRisk(request, limit, limit - 1) == 1.0 / d;
    }
    QuotientTimes(d, d);
    SameProduct(d / d, 1.0, d);
  }
}
