/**
 * The three grid rules of server.py: midpoint rectangles, trapezoids and
 * Simpson. Each rule is specified by the points it samples and the weight
 * it gives each one (an invalid sample adds nothing); the method beside it
 * runs the source's loop and is proved to compute that specification.
 */
module Rules {
  import opened Wrappers
  import opened Sampling

  /** A Python exception that escapes a rule (or the handler's own lookups). */
  datatype Fault = ZeroDivisionError | KeyError(key: string)

  /** What a rule hands back: a number, NaN (the invalid marker), or an exception. */
  datatype Outcome = Finite(value: real) | NotANumber | Raised(fault: Fault)

  /** Grid step h = (b−a)/n. */
  function Step(a: real, b: real, n: int): real
    requires n != 0
  {
    (b - a) / (n as real)
  }

  /** The number of iterations of `range(k)`, or of `range(1, k + 1)`: k when k is positive, 0 otherwise. */
  function RangeLength(k: int): nat
  {
    if k > 0 then k else 0
  }

  /** h times n is the interval length. */
  lemma StepTimesCount(a: real, b: real, n: int)
    requires n != 0
    ensures Step(a, b, n) * (n as real) == b - a
  {
  }

  /** a + t·(b−a)/n lies strictly inside (a, b) when 0 < t < n. */
  lemma FractionOfInterval(a: real, b: real, n: int, t: real)
    requires a < b && n >= 1 && 0.0 < t < n as real
    ensures a < a + t * Step(a, b, n) < b
  {
    var h := Step(a, b, n);
    StepTimesCount(a, b, n);
    assert h > 0.0;
    assert t * h > 0.0;
    assert (n as real - t) * h > 0.0;
  }

  // ---------------------------------------------------------------------
  // Rectangle (midpoint) rule, server.py:47-59

  /** The midpoint a+(i+½)h of the i-th subinterval. */
  function Midpoint(a: real, h: real, i: int): real
  {
    a + (i as real + 0.5) * h
  }

  /** f summed over the valid midpoints of subintervals 0 … k−1 (each with weight 1). */
  function MidpointSum(f: RealFn, a: real, h: real, k: nat): real
  {
    if k == 0 then 0.0 else MidpointSum(f, a, h, k - 1) + Term(f(Midpoint(a, h, k - 1)), 1.0)
  }

  /** h · Σ f(midpoint) over the valid midpoints; n = 0 divides by zero. */
  function RectangleRule(f: RealFn, a: real, b: real, n: int): Outcome
  {
    if n == 0 then Raised(ZeroDivisionError)
    else
      var h := Step(a, b, n);
      Finite(MidpointSum(f, a, h, RangeLength(n)) * h)
  }

  /** rectangle_method: the loop over the n midpoints, then the scaling by h. */
  method RectangleMethod(f: RealFn, a: real, b: real, n: int) returns (r: Outcome)
    ensures r == RectangleRule(f, a, b, n)
  {
    if n == 0 {
      return Raised(ZeroDivisionError);
    }
    var h := (b - a) / (n as real);
    var integral := 0.0;
    var i := 0;
    while i < n
      invariant 0 <= i <= RangeLength(n)
      invariant integral == MidpointSum(f, a, h, i)
    {
      var x := Midpoint(a, h, i);
      var y := f(x);
      if y.Some? {
        integral := integral + y.value;
      }
      i := i + 1;
    }
    integral := integral * h;
    r := Finite(integral);
  }

  /** Every midpoint lies strictly inside (a, b): the rule never samples an endpoint. */
  lemma MidpointsInside(a: real, b: real, n: int, i: int)
    requires a < b && n >= 1 && 0 <= i < n
    ensures a < Midpoint(a, Step(a, b, n), i) < b
  {
    FractionOfInterval(a, b, n, i as real + 0.5);
  }

  /** A function equal to c at every midpoint sums to c per midpoint. */
  lemma {:induction false} MidpointSumOfConstant(f: RealFn, a: real, h: real, k: nat, c: real)
    requires forall i :: 0 <= i < k ==> f(Midpoint(a, h, i)) == Some(c)
    ensures MidpointSum(f, a, h, k) == c * k as real
  {
    if k > 0 {
      MidpointSumOfConstant(f, a, h, k - 1, c);
      assert c * (k - 1) as real + c == c * k as real;
    }
  }

  /** Where no midpoint is valid, the sum is 0. */
  lemma {:induction false} MidpointSumAllInvalid(f: RealFn, a: real, h: real, k: nat)
    requires forall i :: 0 <= i < k ==> f(Midpoint(a, h, i)).None?
    ensures MidpointSum(f, a, h, k) == 0.0
  {
    if k > 0 {
      MidpointSumAllInvalid(f, a, h, k - 1);
    }
  }

  // ---------------------------------------------------------------------
  // Interior grid points shared by the trapezoid and Simpson rules

  /** The grid point a+ih. */
  function GridPoint(a: real, h: real, i: int): real
  {
    a + (i as real) * h
  }

  /** Every interior grid point a+ih, 0 < i < n, lies strictly inside (a, b). */
  lemma GridPointInside(a: real, b: real, n: int, i: int)
    requires a < b && n >= 1 && 0 < i < n
    ensures a < GridPoint(a, Step(a, b, n), i) < b
  {
    FractionOfInterval(a, b, n, i as real);
  }

  /** How a rule weighs interior points: trapezoids give 1 to all; Simpson gives 4 at odd, 2 at even indices. */
  datatype Weighting = Flat | Alternating

  /** The weight of interior point i under a weighting. */
  function InteriorWeight(w: Weighting, i: int): real
  {
    match w
    case Flat => 1.0
    case Alternating => if i % 2 == 0 then 2.0 else 4.0
  }

  /** Σ InteriorWeight(i)·f(a+ih) over the valid interior points i = 1 … k. */
  function InteriorSum(f: RealFn, a: real, h: real, w: Weighting, k: nat): real
  {
    if k == 0 then 0.0 else InteriorSum(f, a, h, w, k - 1) + Term(f(GridPoint(a, h, k)), InteriorWeight(w, k))
  }

  /** The total weight of the interior points i = 1 … k. */
  function InteriorWeightTotal(w: Weighting, k: nat): real
  {
    if k == 0 then 0.0 else InteriorWeightTotal(w, k - 1) + InteriorWeight(w, k)
  }

  /** The weighted endpoint samples e·f(a) + e·f(b), each only where valid. */
  function EndpointSum(f: RealFn, a: real, b: real, e: real): real
  {
    Term(f(a), e) + Term(f(b), e)
  }

  /** A function equal to c at the interior points sums to c times their weight. */
  lemma {:induction false} InteriorSumOfConstant(f: RealFn, a: real, h: real, w: Weighting, k: nat, c: real)
    requires forall i :: 1 <= i <= k ==> f(GridPoint(a, h, i)) == Some(c)
    ensures InteriorSum(f, a, h, w, k) == c * InteriorWeightTotal(w, k)
  {
    if k > 0 {
      InteriorSumOfConstant(f, a, h, w, k - 1, c);
    }
  }

  /** Where no interior point is valid, the interior sum is 0. */
  lemma {:induction false} InteriorSumAllInvalid(f: RealFn, a: real, h: real, w: Weighting, k: nat)
    requires forall i :: 1 <= i <= k ==> f(GridPoint(a, h, i)).None?
    ensures InteriorSum(f, a, h, w, k) == 0.0
  {
    if k > 0 {
      InteriorSumAllInvalid(f, a, h, w, k - 1);
    }
  }

  /** k flat interior weights add up to k. */
  lemma {:induction false} FlatWeightTotal(k: nat)
    ensures InteriorWeightTotal(Flat, k) == k as real
  {
    if k > 0 {
      FlatWeightTotal(k - 1);
    }
  }

  /** k alternating interior weights 4, 2, 4, … add up to 3k (k even) or 3k+1 (k odd). */
  lemma {:induction false} AlternatingWeightTotal(k: nat)
    ensures InteriorWeightTotal(Alternating, k) == if k % 2 == 0 then 3.0 * k as real else 3.0 * k as real + 1.0
  {
    if k > 0 {
      AlternatingWeightTotal(k - 1);
    }
  }

  // ---------------------------------------------------------------------
  // Trapezoidal rule, server.py:61-86

  /** h · (f(a)/2 + f(b)/2 + Σ f(a+ih), 0 < i < n) over the valid points; n = 0 divides by zero. */
  function TrapezoidRule(f: RealFn, a: real, b: real, n: int): Outcome
  {
    if n == 0 then Raised(ZeroDivisionError)
    else
      var h := Step(a, b, n);
      Finite((EndpointSum(f, a, b, 0.5) + InteriorSum(f, a, h, Flat, RangeLength(n - 1))) * h)
  }

  /** trapezoidal_method: the two endpoints at half weight, the loop over the interior points, then the scaling by h. */
  method TrapezoidalMethod(f: RealFn, a: real, b: real, n: int) returns (r: Outcome)
    ensures r == TrapezoidRule(f, a, b, n)
  {
    if n == 0 {
      return Raised(ZeroDivisionError);
    }
    var h := (b - a) / (n as real);
    var integral := 0.0;
    var y0 := f(a);
    if y0.Some? {
      integral := integral + y0.value / 2.0;
    }
    var yn := f(b);
    if yn.Some? {
      integral := integral + yn.value / 2.0;
    }
    assert integral == EndpointSum(f, a, b, 0.5);
    var i := 1;
    while i < n
      invariant 1 <= i <= RangeLength(n - 1) + 1
      invariant integral == EndpointSum(f, a, b, 0.5) + InteriorSum(f, a, h, Flat, i - 1)
    {
      var x := GridPoint(a, h, i);
      var y := f(x);
      if y.Some? {
        integral := integral + y.value;
      }
      i := i + 1;
    }
    TrapezoidScaled(f, a, b, n, h, integral);
    integral := integral * h;
    r := Finite(integral);
  }

  /** The accumulated trapezoid sum scaled by h is the rule's result. */
  lemma TrapezoidScaled(f: RealFn, a: real, b: real, n: int, h: real, acc: real)
    requires n != 0 && h == Step(a, b, n)
    requires acc == EndpointSum(f, a, b, 0.5) + InteriorSum(f, a, h, Flat, RangeLength(n - 1))
    ensures TrapezoidRule(f, a, b, n) == Finite(acc * h)
  {
  }

  /** The trapezoid weights ½ + (n−1)·1 + ½ add up to n. */
  lemma TrapezoidWeightTotal(n: int)
    requires n >= 1
    ensures 0.5 + 0.5 + InteriorWeightTotal(Flat, n - 1) == n as real
  {
    FlatWeightTotal(n - 1);
  }

  // ---------------------------------------------------------------------
  // Simpson's rule, server.py:88-118

  /** Simpson's subinterval count: an odd n is raised by one. */
  function EvenUp(n: int): (m: int)
    ensures m % 2 == 0
    ensures n % 2 == 0 ==> m == n
    ensures n % 2 == 1 ==> m == n + 1
  {
    if n % 2 != 0 then n + 1 else n
  }

  /** (h/3) · (f(a) + f(b) + Σ wᵢ f(a+ih)) over the valid points of the EvenUp(n) grid; EvenUp(n) = 0 divides by zero. */
  function SimpsonRule(f: RealFn, a: real, b: real, n: int): Outcome
  {
    var m := EvenUp(n);
    if m == 0 then Raised(ZeroDivisionError)
    else
      var h := Step(a, b, m);
      Finite((EndpointSum(f, a, b, 1.0) + InteriorSum(f, a, h, Alternating, RangeLength(m - 1))) * (h / 3.0))
  }

  /** simpson_method: round n up to even, the endpoints, the loop over the interior points at weight 4 or 2, then the scaling by h/3. */
  method SimpsonMethod(f: RealFn, a: real, b: real, n: int) returns (r: Outcome)
    ensures r == SimpsonRule(f, a, b, n)
  {
    var m := n;
    if m % 2 != 0 {
      m := m + 1;
    }
    if m == 0 {
      return Raised(ZeroDivisionError);
    }
    var h := (b - a) / (m as real);
    var integral := 0.0;
    var y0 := f(a);
    if y0.Some? {
      integral := integral + y0.value;
    }
    var yn := f(b);
    if yn.Some? {
      integral := integral + yn.value;
    }
    var i := 1;
    while i < m
      invariant 1 <= i <= RangeLength(m - 1) + 1
      invariant integral == EndpointSum(f, a, b, 1.0) + InteriorSum(f, a, h, Alternating, i - 1)
    {
      var x := GridPoint(a, h, i);
      var y := f(x);
      ghost var before := integral;
      if y.Some? {
        if i % 2 == 0 {
          integral := integral + 2.0 * y.value;
        } else {
          integral := integral + 4.0 * y.value;
        }
      }
      assert integral == before + Term(y, InteriorWeight(Alternating, i));
      i := i + 1;
    }
    SimpsonScaled(f, a, b, n, m, h, integral);
    integral := integral * (h / 3.0);
    r := Finite(integral);
  }

  /** The accumulated Simpson sum scaled by h/3 is the rule's result. */
  lemma SimpsonScaled(f: RealFn, a: real, b: real, n: int, m: int, h: real, acc: real)
    requires m == EvenUp(n) && m != 0 && h == Step(a, b, m)
    requires acc == EndpointSum(f, a, b, 1.0) + InteriorSum(f, a, h, Alternating, RangeLength(m - 1))
    ensures SimpsonRule(f, a, b, n) == Finite(acc * (h / 3.0))
  {
  }

  /** For an even grid of m ≥ 2 subintervals the Simpson weights 1, 4, 2, …, 4, 1 add up to 3m. */
  lemma SimpsonWeightTotal(m: int)
    requires m >= 2 && m % 2 == 0
    ensures 1.0 + 1.0 + InteriorWeightTotal(Alternating, m - 1) == 3.0 * m as real
  {
    AlternatingWeightTotal(m - 1);
  }

  /** Odd n and n+1 give Simpson the same grid, so the same result. */
  lemma SimpsonOddMatchesNext(f: RealFn, a: real, b: real, n: int)
    requires n % 2 == 1
    ensures SimpsonRule(f, a, b, n) == SimpsonRule(f, a, b, n + 1)
  {
  }

  /**
   * For n ≥ 1 Simpson's grid has an even number m ≥ 2 of steps, so besides
   * a and b it samples the interior point i = m/2, which is (a+b)/2: all
   * three points the handler probes.
   */
  lemma SimpsonSamplesMidpoint(a: real, b: real, n: int)
    requires n >= 1
    ensures EvenUp(n) >= 2 && 1 <= EvenUp(n) / 2 < EvenUp(n)
    ensures GridPoint(a, Step(a, b, EvenUp(n)), EvenUp(n) / 2) == (a + b) / 2.0
  {
    var m := EvenUp(n);
    var h := Step(a, b, m);
    StepTimesCount(a, b, m);
    assert (m / 2) as real * 2.0 == m as real;
    assert (m / 2) as real * h * 2.0 == b - a;
  }

  // ---------------------------------------------------------------------
  // What the grid rules give on a constant function and on a nowhere-valid one

  /**
   * A constant c valid everywhere integrates to exactly c·(b−a) under the
   * rectangle rule for every n ≥ 1: its n weights of 1 add up to n.
   */
  lemma RectangleOfConstant(f: RealFn, a: real, b: real, n: int, c: real)
    requires n >= 1
    requires forall x :: f(x) == Some(c)
    ensures RectangleRule(f, a, b, n) == Finite(c * (b - a))
  {
    var h := Step(a, b, n);
    StepTimesCount(a, b, n);
    MidpointSumOfConstant(f, a, h, n, c);
    assert (c * n as real) * h == c * (h * n as real);
  }

  /** The same for the trapezoid rule, whose weights ½, 1, …, 1, ½ add up to n. */
  lemma TrapezoidOfConstant(f: RealFn, a: real, b: real, n: int, c: real)
    requires n >= 1
    requires forall x :: f(x) == Some(c)
    ensures TrapezoidRule(f, a, b, n) == Finite(c * (b - a))
  {
    var h := Step(a, b, n);
    StepTimesCount(a, b, n);
    InteriorSumOfConstant(f, a, h, Flat, n - 1, c);
    TrapezoidWeightTotal(n);
    assert c * (n - 1) as real + c == c * n as real;
    assert (c * n as real) * h == c * (h * n as real);
  }

  /** The same for Simpson's rule, whose weights on the EvenUp(n) grid add up to 3·EvenUp(n). */
  lemma SimpsonOfConstant(f: RealFn, a: real, b: real, n: int, c: real)
    requires n >= 1
    requires forall x :: f(x) == Some(c)
    ensures SimpsonRule(f, a, b, n) == Finite(c * (b - a))
  {
    var m := EvenUp(n);
    var h := Step(a, b, m);
    SimpsonGridOfConstant(f, a, b, m, c);
    SimpsonScaled(f, a, b, n, m, h, EndpointSum(f, a, b, 1.0) + InteriorSum(f, a, h, Alternating, m - 1));
  }

  /** On an even grid of m ≥ 2 steps, Simpson's scaled sum of a constant c is c·(b−a). */
  lemma SimpsonGridOfConstant(f: RealFn, a: real, b: real, m: int, c: real)
    requires m >= 2 && m % 2 == 0
    requires forall x :: f(x) == Some(c)
    ensures (EndpointSum(f, a, b, 1.0) + InteriorSum(f, a, Step(a, b, m), Alternating, m - 1)) * (Step(a, b, m) / 3.0)
      == c * (b - a)
  {
    var h := Step(a, b, m);
    StepTimesCount(a, b, m);
    InteriorSumOfConstant(f, a, h, Alternating, m - 1, c);
    SimpsonWeightTotal(m);
    var ends := EndpointSum(f, a, b, 1.0);
    assert ends == 2.0 * c;
    SimpsonConstantArithmetic(c, ends, InteriorSum(f, a, h, Alternating, m - 1),
      InteriorWeightTotal(Alternating, m - 1), m as real, h, b - a);
  }

  /** The arithmetic behind SimpsonOfConstant: 2c + c·(3m − 2) = 3cm, and 3cm·h/3 = c·(b−a) when mh = b−a. */
  lemma SimpsonConstantArithmetic(c: real, ends: real, inner: real, total: real, m: real, h: real, width: real)
    requires ends == 2.0 * c && inner == c * total && 1.0 + 1.0 + total == 3.0 * m
    requires h * m == width
    ensures (ends + inner) * (h / 3.0) == c * width
  {
    assert ends + inner == c * (3.0 * m);
    assert (c * (3.0 * m)) * (h / 3.0) == c * (h * m);
  }

  /**
   * Where every sample is invalid, the rectangle, trapezoid and Simpson rules
   * report the number 0, not the invalid marker.
   */
  lemma AllInvalidGivesZero(f: RealFn, a: real, b: real, n: int)
    requires n != 0 && n != -1
    requires forall x :: f(x).None?
    ensures RectangleRule(f, a, b, n) == Finite(0.0)
    ensures TrapezoidRule(f, a, b, n) == Finite(0.0)
    ensures SimpsonRule(f, a, b, n) == Finite(0.0)
  {
    var h := Step(a, b, n);
    MidpointSumAllInvalid(f, a, h, RangeLength(n));
    InteriorSumAllInvalid(f, a, h, Flat, RangeLength(n - 1));
    var m := EvenUp(n);
    InteriorSumAllInvalid(f, a, Step(a, b, m), Alternating, RangeLength(m - 1));
  }

  /** The grid rules never report NaN: they divide by zero (n = 0, or n = −1 for Simpson) or give a number. */
  lemma GridRulesNeverNaN(f: RealFn, a: real, b: real, n: int)
    ensures RectangleRule(f, a, b, n).Raised? <==> n == 0
    ensures TrapezoidRule(f, a, b, n).Raised? <==> n == 0
    ensures SimpsonRule(f, a, b, n).Raised? <==> n == 0 || n == -1
    ensures !RectangleRule(f, a, b, n).NotANumber?
    ensures !TrapezoidRule(f, a, b, n).NotANumber?
    ensures !SimpsonRule(f, a, b, n).NotANumber?
  {
  }

  /**
   * A count below −1 skips every loop but not the endpoint terms: rectangles
   * give 0, while trapezoids and Simpson scale f(a) and f(b) by a step h that
   * is negative whenever a < b.
   */
  lemma NegativeCountEndpointsOnly(f: RealFn, a: real, b: real, n: int)
    requires n < -1
    ensures RectangleRule(f, a, b, n) == Finite(0.0)
    ensures TrapezoidRule(f, a, b, n) == Finite((Term(f(a), 0.5) + Term(f(b), 0.5)) * ((b - a) / (n as real)))
    ensures SimpsonRule(f, a, b, n) == Finite((Term(f(a), 1.0) + Term(f(b), 1.0)) * ((b - a) / (EvenUp(n) as real) / 3.0))
    ensures EvenUp(n) < 0
    ensures a < b ==> (b - a) / (n as real) < 0.0 && (b - a) / (EvenUp(n) as real) < 0.0
  {
    assert RangeLength(n) == 0 && RangeLength(n - 1) == 0 && RangeLength(EvenUp(n) - 1) == 0;
  }

  /**
   * So for a count below −1 a positive constant on a forward interval
   * integrates to a negative number under trapezoids and Simpson: c·(b−a)/n
   * and (2/3)·c·(b−a)/EvenUp(n). With c = 1 on [0, 1] and n = −2 these are
   * −1/2 and −1/3.
   */
  lemma NegativeCountOfConstant(f: RealFn, a: real, b: real, n: int, c: real)
    requires n < -1
    requires forall x :: f(x) == Some(c)
    ensures TrapezoidRule(f, a, b, n) == Finite(c * (b - a) / (n as real))
    ensures SimpsonRule(f, a, b, n) == Finite(2.0 * c * (b - a) / (3.0 * (EvenUp(n) as real)))
    ensures c > 0.0 && a < b ==> TrapezoidRule(f, a, b, n).value < 0.0 && SimpsonRule(f, a, b, n).value < 0.0
  {
    NegativeCountEndpointsOnly(f, a, b, n);
    assert Term(f(a), 0.5) + Term(f(b), 0.5) == c;
    assert Term(f(a), 1.0) + Term(f(b), 1.0) == 2.0 * c;
    var m := EvenUp(n) as real;
    assert (2.0 * c) * ((b - a) / m / 3.0) == 2.0 * c * (b - a) / (3.0 * m);
    if c > 0.0 && a < b {
      assert c * (b - a) > 0.0;
      assert 2.0 * c * (b - a) > 0.0;
    }
  }
}
