/**
 * What the quadrature rules of server.py share: the integrand as a partial
 * function, the rule that a sample whose evaluation failed contributes
 * nothing, and sums and counts over lists of sample points.
 */
module Sampling {
  import opened Wrappers

  /** The integrand as the rules see it: `None` where evaluation gave NaN or raised. */
  type RealFn = real -> Option<real>

  /** What one sample adds to an accumulator: its weighted value, or 0 when it is invalid. */
  function Term(y: Option<real>, w: real): real
  {
    if y.Some? then w * y.value else 0.0
  }

  /** The sum of a list of reals, last element added last. */
  function Sum(s: seq<real>): real
  {
    if |s| == 0 then 0.0 else Sum(s[..|s| - 1]) + s[|s| - 1]
  }

  /** The number of nodes at which f is defined. */
  function ValidCount(f: RealFn, xs: seq<real>): nat
  {
    if |xs| == 0 then 0
    else ValidCount(f, xs[..|xs| - 1]) + (if f(xs[|xs| - 1]).Some? then 1 else 0)
  }

  /** The values of f at the nodes where it is defined, in node order. */
  function ValidValues(f: RealFn, xs: seq<real>): (ys: seq<real>)
  {
    if |xs| == 0 then []
    else
      var y := f(xs[|xs| - 1]);
      ValidValues(f, xs[..|xs| - 1]) + (if y.Some? then [y.value] else [])
  }

  /** No node is valid exactly when the valid count is 0. */
  lemma {:induction false} ValidCountZero(f: RealFn, xs: seq<real>)
    ensures ValidCount(f, xs) == 0 <==> forall i :: 0 <= i < |xs| ==> f(xs[i]).None?
  {
    if |xs| > 0 {
      var init := xs[..|xs| - 1];
      ValidCountZero(f, init);
      assert forall i :: 0 <= i < |init| ==> init[i] == xs[i];
    }
  }

  /** The filtered values are exactly as many as the valid nodes. */
  lemma {:induction false} ValidValuesLength(f: RealFn, xs: seq<real>)
    ensures |ValidValues(f, xs)| == ValidCount(f, xs)
  {
    if |xs| > 0 {
      ValidValuesLength(f, xs[..|xs| - 1]);
    }
  }

  /** Summing two lists one after the other is the sum of the two sums. */
  lemma {:induction false} SumAppend(s: seq<real>, t: seq<real>)
    ensures Sum(s + t) == Sum(s) + Sum(t)
  {
    if |t| > 0 {
      var t' := t[..|t| - 1];
      assert (s + t)[..|s + t| - 1] == s + t';
      SumAppend(s, t');
    } else {
      assert s + t == s;
    }
  }

  /** When f is c at every valid node, the valid values add up to c per valid node. */
  lemma {:induction false} SumValidValuesOfConstant(f: RealFn, xs: seq<real>, c: real)
    requires forall i :: 0 <= i < |xs| ==> f(xs[i]).None? || f(xs[i]) == Some(c)
    ensures Sum(ValidValues(f, xs)) == c * (|ValidValues(f, xs)| as real)
  {
    if |xs| > 0 {
      var init := xs[..|xs| - 1];
      assert forall i :: 0 <= i < |init| ==> init[i] == xs[i];
      SumValidValuesOfConstant(f, init, c);
      var y := f(xs[|xs| - 1]);
      SumAppend(ValidValues(f, init), if y.Some? then [y.value] else []);
      if y.Some? {
        assert [y.value][..0] == [];
      }
    }
  }
}
