/** Products and quotients of reals, one fact at a time. */
module RealArithmetic {

  function Times(x: real, y: real): real { x * y }

  function Square(x: real): real { Times(x, x) }

  lemma PositiveTimes(x: real, y: real)
    requires x > 0.0 && y > 0.0
    ensures x * y > 0.0
  {
  }

  lemma QuotientTimes(x: real, y: real)
    requires y != 0.0
    ensures x / y * y == x
  {
  }

  lemma SameProduct(x: real, y: real, f: real)
    requires f > 0.0 && x * f == y * f
    ensures x == y
  {
    assert (x - y) * f == 0.0;
  }

  lemma Distribute(x: real, y: real, z: real)
    ensures x * (y + z) == x * y + x * z && (y + z) * x == y * x + z * x && (y - z) * x == y * x - z * x
  {
  }

  lemma Associate(x: real, y: real, z: real)
    ensures x * (y * z) == x * y * z
  {
  }

  lemma SameSignTimes(x: real, y: real)
    requires (x > 0.0 && y > 0.0) || (x < 0.0 && y < 0.0)
    ensures Times(x, y) > 0.0
  {
  }

  lemma TimesMonotone(x: real, y: real, z: real)
    requires x <= y && z > 0.0
    ensures Times(x, z) <= Times(y, z) && Times(z, x) <= Times(z, y)
  {
    if x < y {
      var d := y - x;
      PositiveTimes(d, z);
      Distribute(z, x, d);
      assert y == x + d;
    }
  }

  lemma SquarePositive(x: real)
    requires x != 0.0
    ensures Square(x) > 0.0
  {
    hide Times;
    SameSignTimes(x, x);
  }

  lemma SquareMonotone(x: real, y: real)
    requires 0.0 < x <= y
    ensures 0.0 < Square(x) <= Square(y)
  {
    hide Times;
    SameSignTimes(x, x);
    TimesMonotone(x, y, x);
    TimesMonotone(x, y, y);
  }

  lemma TimesStrict(x: real, y: real, d: real)
    requires x < y && d > 0.0
    ensures x * d < y * d
  {
    PositiveTimes(y - x, d);
    Distribute(d, y, x);
  }


  lemma TimesStrictly(x: real, y: real, z: real)
    requires x < y && z > 0.0
    ensures Times(z, x) < Times(z, y) && Times(x, z) < Times(y, z)
  {
    TimesStrict(x, y, z);
    assert z * x == x * z && z * y == y * z;
  }
}
