/**
 * The Monte Carlo rule of server.py:120-140. The random points the source
 * draws with `random.uniform(a, b)` are a parameter here.
 */
module MonteCarlo {
  import opened Wrappers
  import opened Sampling
  import opened Rules

  /** (b−a) · the mean of the values ys, or NaN when there are none. */
  function Estimate(a: real, b: real, ys: seq<real>): Outcome
  {
    if |ys| > 0 then Finite((b - a) * Sum(ys) / (|ys| as real)) else NotANumber
  }

  /** (b−a) · mean of the valid sample values, or NaN when no sample is valid. */
  function MonteCarloRule(f: RealFn, a: real, b: real, samples: seq<real>): Outcome
  {
    Estimate(a, b, ValidValues(f, samples))
  }

  /**
   * `samples` stands for the n points the source draws uniformly from [a, b]:
   * one per iteration of `range(n)`.
   */
  method MonteCarloMethod(f: RealFn, a: real, b: real, n: int, samples: seq<real>) returns (r: Outcome)
    requires |samples| == RangeLength(n)
    ensures r == MonteCarloRule(f, a, b, samples)
  {
    var yValues: seq<real> := [];
    var i := 0;
    while i < |samples|
      invariant 0 <= i <= |samples|
      invariant yValues == ValidValues(f, samples[..i])
    {
      var y := f(samples[i]);
      if y.Some? {
        yValues := yValues + [y.value];
      }
      assert samples[..i + 1][..i] == samples[..i];
      i := i + 1;
    }
    assert samples[..i] == samples;
    if |yValues| > 0 {
      var integral := (b - a) * Sum(yValues) / (|yValues| as real);
      r := Finite(integral);
    } else {
      r := NotANumber;
    }
    assert r == Estimate(a, b, yValues);
  }

  /** Monte Carlo reports NaN exactly when no sample is valid. */
  lemma MonteCarloInvalidIff(f: RealFn, a: real, b: real, samples: seq<real>)
    ensures MonteCarloRule(f, a, b, samples).NotANumber? <==> forall i :: 0 <= i < |samples| ==> f(samples[i]).None?
  {
    ValidValuesLength(f, samples);
    ValidCountZero(f, samples);
  }

  /**
   * Otherwise the result is (b−a) times the sum of the valid values divided
   * by their count: an invalid sample shrinks the divisor instead of counting as 0.
   */
  lemma MonteCarloValue(f: RealFn, a: real, b: real, samples: seq<real>)
    requires ValidCount(f, samples) > 0
    ensures MonteCarloRule(f, a, b, samples)
      == Finite((b - a) * Sum(ValidValues(f, samples)) / (ValidCount(f, samples) as real))
  {
    ValidValuesLength(f, samples);
  }

  /** Where f is c at every valid sample and some sample is valid, Monte Carlo gives exactly c·(b−a). */
  lemma MonteCarloOfConstant(f: RealFn, a: real, b: real, samples: seq<real>, c: real)
    requires forall i :: 0 <= i < |samples| ==> f(samples[i]).None? || f(samples[i]) == Some(c)
    requires exists i :: 0 <= i < |samples| && f(samples[i]).Some?
    ensures MonteCarloRule(f, a, b, samples) == Finite(c * (b - a))
  {
    var ys := ValidValues(f, samples);
    ValidValuesLength(f, samples);
    ValidCountZero(f, samples);
    SumValidValuesOfConstant(f, samples, c);
    var k := |ys| as real;
    assert k > 0.0;
    assert (b - a) * (c * k) / k == c * (b - a);
  }
}
