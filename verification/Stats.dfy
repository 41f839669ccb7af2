/** Running duration statistics: Welford's method against the batch definitions. */
module Stats {

  function Sum(xs: seq<int>): int
  {
    if xs == [] then 0 else Sum(xs[..|xs| - 1]) + xs[|xs| - 1]
  }

  function SumOfSquares(xs: seq<int>): int
  {
    if xs == [] then 0 else SumOfSquares(xs[..|xs| - 1]) + xs[|xs| - 1] * xs[|xs| - 1]
  }

  function Square(x: real): real { x * x }

  /** The sum of the squared deviations of xs from m. */
  function Deviation(xs: seq<int>, m: real): real
  {
    if xs == [] then 0.0 else Deviation(xs[..|xs| - 1], m) + Square(xs[|xs| - 1] as real - m)
  }

  function Mean(xs: seq<int>): real
    requires xs != []
  {
    Sum(xs) as real / |xs| as real
  }

  /** The sample variance, 0 below two values. */
  function SampleVariance(xs: seq<int>): real
  {
    if |xs| > 1 then Deviation(xs, Mean(xs)) / (|xs| - 1) as real else 0.0
  }

  ghost predicate IsMin(xs: seq<int>, m: int) { m in xs && forall x :: x in xs ==> m <= x }

  ghost predicate IsMax(xs: seq<int>, m: int) { m in xs && forall x :: x in xs ==> x <= m }

  function Move(xs: seq<int>, m: real, m': real): real
  {
    (m - m') * (2.0 * Sum(xs) as real - |xs| as real * (m + m'))
  }

  /** How the sum of squared deviations depends on its centre. */
  lemma {:induction false} MoveCentre(xs: seq<int>, m: real, m': real)
    ensures Deviation(xs, m') == Deviation(xs, m) + Move(xs, m, m')
  {
    if xs == [] {
    } else {
      var front, x := xs[..|xs| - 1], xs[|xs| - 1];
      calc {
        Deviation(xs, m');
      ==
        Deviation(front, m') + Square(x as real - m');
      ==  { MoveCentre(front, m, m'); }
        Deviation(front, m) + (Move(front, m, m') + Square(x as real - m'));
      ==  { MoveOne(Sum(front) as real, |front| as real, x as real, m, m'); }
        Deviation(front, m) + (Square(x as real - m) + Move(xs, m, m'));
      ==
        Deviation(xs, m) + Move(xs, m, m');
      }
    }
  }

  lemma {:induction false} DeviationFromZero(xs: seq<int>)
    ensures Deviation(xs, 0.0) == SumOfSquares(xs) as real
  {
    if xs != [] {
      var x := xs[|xs| - 1];
      DeviationFromZero(xs[..|xs| - 1]);
      assert Square(x as real - 0.0) == (x * x) as real;
    }
  }

  /** The variance by sums alone: n (n - 1) times it is n times the sum of squares less the square of the sum. */
  lemma VarianceBySums(xs: seq<int>) returns (n: real, sum: real, squares: real, v: real)
    ensures n == |xs| as real && sum == Sum(xs) as real && squares == SumOfSquares(xs) as real
    ensures v == SampleVariance(xs)
    ensures if |xs| < 2 then v == 0.0 else n * ((n - 1.0) * v) == n * squares - sum * sum
  {
    n, sum, squares, v := |xs| as real, Sum(xs) as real, SumOfSquares(xs) as real, SampleVariance(xs);
    if |xs| >= 2 {
      var mean := VarianceParts(xs, n, sum, squares, v);
      FromZero(n, sum, mean, squares, v);
    }
  }

  lemma VarianceParts(xs: seq<int>, n: real, sum: real, squares: real, v: real) returns (mean: real)
    requires |xs| >= 2 && n == |xs| as real && sum == Sum(xs) as real && squares == SumOfSquares(xs) as real
    requires v == SampleVariance(xs)
    ensures n * mean == sum
    ensures (n - 1.0) * v == squares + (0.0 - mean) * (2.0 * sum - n * (0.0 + mean))
  {
    mean := Mean(xs);
    MeanTimesCount(xs);
    var dev, d := Deviation(xs, mean), (|xs| - 1) as real;
    assert d * (dev / d) == dev by { Times(dev, d); }
    assert v == dev / d;
    assert dev == squares + Move(xs, 0.0, mean) by {
      DeviationFromZero(xs);
      MoveCentre(xs, 0.0, mean);
    }
  }

  lemma Times(a: real, b: real)
    requires b != 0.0
    ensures b * (a / b) == a
  {
  }

  lemma FromZero(n: real, sum: real, mean: real, squares: real, v: real)
    requires n * mean == sum
    requires (n - 1.0) * v == squares + (0.0 - mean) * (2.0 * sum - n * (0.0 + mean))
    ensures n * ((n - 1.0) * v) == n * squares - sum * sum
  {
    assert (n - 1.0) * v == squares - mean * sum;
    Distribute(n, squares, mean, sum);
  }

  lemma Distribute(n: real, squares: real, mean: real, sum: real)
    requires n * mean == sum
    ensures n * (squares - mean * sum) == n * squares - sum * sum
  {
    assert n * (mean * sum) == (n * mean) * sum;
  }

  lemma MoveOne(s: real, n: real, x: real, m: real, m': real)
    ensures (m - m') * (2.0 * s - n * (m + m')) + Square(x - m')
         == Square(x - m) + (m - m') * (2.0 * (s + x) - (n + 1.0) * (m + m'))
  {
    var d, e := m - m', m + m';
    assert Square(x - m') - Square(x - m) == d * (2.0 * x - e);
    assert d * (2.0 * (s + x) - (n + 1.0) * e) == d * (2.0 * s - n * e) + d * (2.0 * x - e);
  }

  lemma MeanTimesCount(xs: seq<int>)
    requires xs != []
    ensures |xs| as real * Mean(xs) == Sum(xs) as real
  {
  }

  lemma Snoc(xs: seq<int>, x: int)
    ensures Sum(xs + [x]) == Sum(xs) + x
    ensures forall m :: Deviation(xs + [x], m) == Deviation(xs, m) + Square(x as real - m)
  {
    assert (xs + [x])[..|xs|] == xs;
  }

  lemma Quotient(a: real, b: real, n: real)
    requires n > 0.0 && a == b * n
    ensures a / n == b
  {
  }

  ghost predicate RunningMean(xs: seq<int>, mean: real)
  {
    if xs == [] then mean == 0.0 else mean == Mean(xs)
  }

  ghost predicate InBounds(xs: seq<int>, total: int, min: int, max: int)
  {
    total == Sum(xs) && IsMin(xs, min) && IsMax(xs, max)
  }

  /** The mean after value number n. */
  function NextMean(mean: real, x: int, n: nat): real
    requires n > 0
  {
    mean + (x as real - mean) / n as real
  }

  /** What a value adds to the sum of squared deviations, given the mean before and after. */
  function Gain(x: int, mean: real, mean': real): real { (x as real - mean) * (x as real - mean') }

  /** The update of the mean. */
  lemma MeanStep(xs: seq<int>, x: int, mean: real)
    requires RunningMean(xs, mean)
    ensures RunningMean(xs + [x], NextMean(mean, x, |xs| + 1))
  {
    var n, y := |xs| as real, x as real;
    if xs != [] { MeanTimesCount(xs); }
    Snoc(xs, x);
    var mean' := NextMean(mean, x, |xs| + 1);
    assert mean' * (n + 1.0) == n * mean + y;
    Quotient(Sum(xs + [x]) as real, mean', n + 1.0);
  }

  /** The update of the sum of squared deviations, given how far moving the centre takes it. */
  lemma DeviationStep(xs: seq<int>, x: int, mean: real, mean': real, move: real, gain: real)
    requires Deviation(xs, mean') == Deviation(xs, mean) + move
    requires move + Square(x as real - mean') == gain
    ensures Deviation(xs + [x], mean') == Deviation(xs, mean) + gain
  {
    Snoc(xs, x);
  }

  lemma NewMean(xs: seq<int>, x: int, mean: real, mean': real)
    requires RunningMean(xs, mean) && RunningMean(xs + [x], mean')
    ensures Move(xs, mean, mean') + Square(x as real - mean') == Gain(x, mean, mean')
  {
    if xs != [] { MeanTimesCount(xs); }
    MeanTimesCount(xs + [x]);
    Snoc(xs, x);
    MoveToNewMean(Sum(xs) as real, |xs| as real, x as real, mean, mean');
  }

  lemma MoveToNewMean(s: real, n: real, y: real, m: real, m': real)
    requires s == n * m && s + y == (n + 1.0) * m'
    ensures (m - m') * (2.0 * s - n * (m + m')) + Square(y - m') == (y - m) * (y - m')
  {
    var d := m' - m;
    assert y == (n + 1.0) * m' - n * m;
    assert y - m == (n + 1.0) * d && y - m' == n * d;
    assert 2.0 * s - n * (m + m') == -(n * d);
  }

  lemma MoveAndGain(xs: seq<int>, x: int, mean: real, mean': real) returns (move: real, gain: real)
    requires RunningMean(xs, mean) && RunningMean(xs + [x], mean')
    ensures Deviation(xs, mean') == Deviation(xs, mean) + move
    ensures move + Square(x as real - mean') == gain == Gain(x, mean, mean')
  {
    move, gain := Move(xs, mean, mean'), Gain(x, mean, mean');
    assert move + Square(x as real - mean') == gain by { NewMean(xs, x, mean, mean'); }
    assert Deviation(xs, mean') == Deviation(xs, mean) + move by { MoveCentre(xs, mean, mean'); }
  }

  /** One push: Welford's recurrences keep the batch mean and the batch sum of squared deviations. */
  lemma Welford(xs: seq<int>, x: int, mean: real, mean': real)
    requires RunningMean(xs, mean) && mean' == NextMean(mean, x, |xs| + 1)
    ensures RunningMean(xs + [x], mean')
    ensures Deviation(xs + [x], mean') == Deviation(xs, mean) + Gain(x, mean, mean')
  {
    MeanStep(xs, x, mean);
    var move, gain := MoveAndGain(xs, x, mean, mean');
    DeviationStep(xs, x, mean, mean', move, gain);
  }

  class DurationStats {
    var n: nat
    var total: int
    var min: int
    var max: int
    var s: real
    var mean: real
    ghost var values: seq<int>  // everything pushed so far

    ghost predicate Valid()
      reads this
    {
      && n == |values|
      && s == Deviation(values, mean)
      && RunningMean(values, mean)
      && (values != [] ==> InBounds(values, total, min, max))
    }

    constructor ()
      ensures Valid() && values == [] && total == 0 && min == 0 && max == 0
    {
      n, total, min, max, s, mean, values := 0, 0, 0, 0, 0.0, 0.0, [];
    }

    method Push(d: int)
      requires Valid()
      modifies this
      ensures Valid() && values == old(values) + [d]
    {
      PushBounds(d);
      n := n + 1;
      PushMoments(d);
      values := values + [d];
    }

    /** The part of Push that updates the total and the bounds, before n is counted. */
    method PushBounds(d: int)
      requires n == |values| && (values != [] ==> InBounds(values, total, min, max))
      modifies `total, `min, `max
      ensures InBounds(values + [d], total, min, max)
    {
      if n == 0 {
        min := d;
        max := d;
        total := d;
      } else {
        if d < min {
          min := d;
        }
        if d > max {
          max := d;
        }
        total := total + d;
      }
      Snoc(values, d);
    }

    /** The part of Push that updates the mean and the sum of squared deviations, n already counted. */
    method PushMoments(d: int)
      requires n == |values| + 1 && RunningMean(values, mean)
      modifies `s, `mean
      ensures RunningMean(values + [d], mean)
      ensures s - old(s) == Deviation(values + [d], mean) - Deviation(values, old(mean))
    {
      var om := mean;
      mean := NextMean(om, d, n);
      s := s + Gain(d, om, mean);
      Welford(values, d, om, mean);
    }

    method Variance() returns (v: real)
      requires Valid()
      ensures v == SampleVariance(values)
    {
      if n > 1 {
        return s / (n - 1) as real;
      }
      return 0.0;
    }
  }
}
