/** Running mean, squared deviations and extremes of a stream of numbers, over the reals. */
module Moments {
  import opened Bytes

  ghost function Total(s: seq<real>): real {
    if s == [] then 0.0 else Total(s[..|s| - 1]) + s[|s| - 1]
  }

  /** The sum of the squared distances from m. */
  ghost function Deviations(s: seq<real>, m: real): real {
    if s == [] then 0.0 else Deviations(s[..|s| - 1], m) + Square(s[|s| - 1] - m)
  }

  function Square(x: real): real { x * x }

  /** Mean and squared deviations exactly as the whole stream defines them. */
  ghost predicate ExactMoments(s: seq<real>, mean: real, m2: real) {
    (if s == [] then mean == 0.0 else mean == Total(s) / |s| as real) && m2 == Deviations(s, mean)
  }

  /** What the squared deviations become when the centre moves from m by d. */
  function Moved(deviations: real, total: real, n: real, m: real, d: real): real {
    deviations - 2.0 * d * (total - n * m) + n * Square(d)
  }

  lemma {:induction false} Recentre(s: seq<real>, m: real, d: real)
    ensures Deviations(s, m + d) == Moved(Deviations(s, m), Total(s), |s| as real, m, d)
  {
    hide Square, Moved;
    if s == [] {
      MovedNothing(m, d);
    } else {
      var init, x := s[..|s| - 1], s[|s| - 1];
      Recentre(init, m, d);
      MovedOne(Deviations(init, m), Total(init), |init| as real, m, d, x);
      assert |s| as real == |init| as real + 1.0;
    }
  }

  lemma MovedNothing(m: real, d: real)
    ensures Moved(0.0, 0.0, 0.0, m, d) == 0.0
  {
  }

  lemma MovedOne(dev: real, total: real, n: real, m: real, d: real, x: real)
    ensures Moved(dev + Square(x - m), total + x, n + 1.0, m, d) == Moved(dev, total, n, m, d) + Square(x - (m + d))
  {
    assert Square(x - (m + d)) == Square(x - m) - 2.0 * d * (x - m) + Square(d);
    assert 2.0 * d * (total + x - (n + 1.0) * m) == 2.0 * d * (total - n * m) + 2.0 * d * (x - m);
  }

  /** The increment of the running mean and what it adds to the squared deviations. */
  lemma WelfordAlgebra(n: real, x: real, mean: real, delta: real, d: real, total: real)
    requires n >= 0.0 && delta == x - mean && d == delta / (n + 1.0) && total == n * mean
    ensures mean + d == (total + x) / (n + 1.0)
    ensures delta * (x - (mean + d)) == n * Square(d) + Square(x - (mean + d))
  {
    assert delta == d * (n + 1.0);
    assert (n + 1.0) * (mean + d) == total + x;
    DivideBoth(n + 1.0, mean + d, total + x);
    assert x - (mean + d) == n * d;
    SquareProduct(n, d);
  }

  lemma DivideBoth(a: real, q: real, b: real)
    requires a > 0.0 && a * q == b
    ensures q == b / a
  {
  }

  lemma SquareProduct(n: real, d: real)
    ensures (d * (n + 1.0)) * (n * d) == n * Square(d) + Square(n * d)
  {
  }

  /** One step of the running update keeps both moments exact. */
  lemma WelfordStep(s: seq<real>, mean: real, m2: real, x: real)
    requires ExactMoments(s, mean, m2)
    ensures var n := |s| as real + 1.0;
            var mean' := mean + (x - mean) / n;
            ExactMoments(s + [x], mean', m2 + (x - mean) * (x - mean'))
  {
    hide Square, Moved;
    var n := |s| as real;
    var d := (x - mean) / (n + 1.0);
    assert (s + [x])[..|s|] == s;
    TotalIsMean(s, mean, m2);
    WelfordAlgebra(n, x, mean, x - mean, d, Total(s));
    Recentre(s, mean, d);
    MovedMean(m2, Total(s), n, mean, d);
  }

  lemma TotalIsMean(s: seq<real>, mean: real, m2: real)
    requires ExactMoments(s, mean, m2)
    ensures Total(s) == |s| as real * mean
  {
    if s != [] { Cancel(|s| as real, Total(s), mean); }
  }

  lemma Cancel(n: real, total: real, mean: real)
    requires n > 0.0 && mean == total / n
    ensures total == n * mean
  {
  }

  lemma MovedMean(m2: real, total: real, n: real, mean: real, d: real)
    requires total == n * mean
    ensures Moved(m2, total, n, mean, d) == m2 + n * Square(d)
  {
  }

  ghost predicate IsMinimum(s: seq<real>, m: Option<real>) {
    match m
    case None => s == []
    case Some(x) => x in s && forall y :: y in s ==> x <= y
  }

  ghost predicate IsMaximum(s: seq<real>, m: Option<real>) {
    match m
    case None => s == []
    case Some(x) => x in s && forall y :: y in s ==> y <= x
  }
}
