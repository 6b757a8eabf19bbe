/**
 * calculate_integral (server.py:176-201): run the five rules in a fixed
 * order on the same integrand and interval, give Monte Carlo ten times the
 * requested count, and report each result under the rule's name, with NaN
 * shown as "could not compute". An exception raised by a rule is not caught
 * here: it ends the whole computation.
 */
module Coordinator {
  import opened Wrappers
  import opened Sampling
  import opened Rules
  import MC = MonteCarlo
  import GL = GaussLegendre

  /** The five quadrature rules. */
  datatype Method = Rectangle | Trapezoidal | Simpson | MonteCarlo | Gauss

  /** The order in which the rules run and their records appear (server.py:179-185). */
  const MethodOrder: seq<Method> := [Rectangle, Trapezoidal, Simpson, MonteCarlo, Gauss]

  /** The name each record carries. */
  function MethodName(m: Method): string
  {
    match m
    case Rectangle => "Метод прямоугольников"
    case Trapezoidal => "Метод трапеций"
    case Simpson => "Метод Симпсона"
    case MonteCarlo => "Метод Монте-Карло"
    case Gauss => "Метод Гаусса"
  }

  /** The count a rule receives: ten times the requested one for Monte Carlo, the requested one otherwise. */
  function ArgumentFor(m: Method, n: int): int
  {
    if m == MonteCarlo then n * 10 else n
  }

  /**
   * What rule m computes when called with count `arg`; Monte Carlo reads its
   * points from `samples`, the other rules ignore them.
   */
  function RuleOutcome(m: Method, f: RealFn, a: real, b: real, arg: int, samples: seq<real>): Outcome
  {
    match m
    case Rectangle => RectangleRule(f, a, b, arg)
    case Trapezoidal => TrapezoidRule(f, a, b, arg)
    case Simpson => SimpsonRule(f, a, b, arg)
    case MonteCarlo => MC.MonteCarloRule(f, a, b, samples)
    case Gauss => GL.GaussRule(f, a, b, arg)
  }

  /** One rule, run by the method that models it. */
  method RunMethod(m: Method, f: RealFn, a: real, b: real, arg: int, samples: seq<real>) returns (o: Outcome)
    requires m == MonteCarlo ==> |samples| == RangeLength(arg)
    ensures o == RuleOutcome(m, f, a, b, arg, samples)
  {
    match m
    case Rectangle => o := RectangleMethod(f, a, b, arg);
    case Trapezoidal => o := TrapezoidalMethod(f, a, b, arg);
    case Simpson => o := SimpsonMethod(f, a, b, arg);
    case MonteCarlo => o := MC.MonteCarloMethod(f, a, b, arg, samples);
    case Gauss => o := GL.GaussQuadrature(f, a, b, arg);
  }

  /** A reported value: a number, or the text "Не удалось вычислить" ("could not compute") shown in place of NaN. */
  datatype Shown = Number(value: real) | CouldNotCompute

  /** One record of the result list; the timing string is not modelled. */
  datatype MethodResult = MethodResult(name: string, value: Shown)

  /** The value a record shows for an outcome that did not raise. */
  function Display(o: Outcome): (s: Shown)
    requires !o.Raised?
    ensures s.Number? <==> o.Finite?
    ensures s.Number? ==> s.value == o.value
  {
    if o.Finite? then Number(o.value) else CouldNotCompute
  }

  /**
   * The records of the rules in `ms`, run in order, or the fault of the
   * first rule that raises.
   */
  function RunAll(ms: seq<Method>, f: RealFn, a: real, b: real, n: int, samples: seq<real>): Result<seq<MethodResult>, Fault>
  {
    if |ms| == 0 then Ok([])
    else
      var earlier := RunAll(ms[..|ms| - 1], f, a, b, n, samples);
      var m := ms[|ms| - 1];
      var o := RuleOutcome(m, f, a, b, ArgumentFor(m, n), samples);
      if earlier.Err? then earlier
      else if o.Raised? then Err(o.fault)
      else Ok(earlier.value + [MethodResult(MethodName(m), Display(o))])
  }

  /** The result of calculate_integral for count n; `samples` are the Monte Carlo points. */
  function Integrals(f: RealFn, a: real, b: real, n: int, samples: seq<real>): Result<seq<MethodResult>, Fault>
  {
    RunAll(MethodOrder, f, a, b, n, samples)
  }

  /** Once a prefix of the rules has raised, the rules after it change nothing. */
  lemma {:induction false} RunAllKeepsFault(ms: seq<Method>, k: nat, f: RealFn, a: real, b: real, n: int, samples: seq<real>)
    requires k <= |ms|
    requires RunAll(ms[..k], f, a, b, n, samples).Err?
    ensures RunAll(ms, f, a, b, n, samples) == RunAll(ms[..k], f, a, b, n, samples)
  {
    if k < |ms| {
      assert ms[..|ms| - 1][..k] == ms[..k];
      RunAllKeepsFault(ms[..|ms| - 1], k, f, a, b, n, samples);
    } else {
      assert ms[..k] == ms;
    }
  }

  /**
   * calculate_integral: the loop of server.py:187-199. `samples` stands for
   * the n·10 points Monte Carlo draws.
   */
  method CalculateIntegral(f: RealFn, a: real, b: real, n: int, samples: seq<real>)
    returns (r: Result<seq<MethodResult>, Fault>)
    requires |samples| == RangeLength(n * 10)
    ensures r == Integrals(f, a, b, n, samples)
  {
    var methods := MethodOrder;
    var results: seq<MethodResult> := [];
    var i := 0;
    while i < |methods|
      invariant 0 <= i <= |methods|
      invariant RunAll(methods[..i], f, a, b, n, samples) == Ok(results)
    {
      var m := methods[i];
      var o: Outcome;
      if m == MonteCarlo {
        o := RunMethod(m, f, a, b, n * 10, samples);
      } else {
        o := RunMethod(m, f, a, b, n, samples);
      }
      assert methods[..i + 1][..i] == methods[..i];
      if o.Raised? {
        RunAllKeepsFault(methods, i + 1, f, a, b, n, samples);
        return Err(o.fault);
      }
      results := results + [MethodResult(MethodName(m), Display(o))];
      i := i + 1;
    }
    assert methods[..i] == methods;
    r := Ok(results);
  }

  /** A run that completes has one record per rule, each the rule's own result under its name. */
  lemma {:induction false} RunAllRecords(ms: seq<Method>, f: RealFn, a: real, b: real, n: int, samples: seq<real>)
    requires RunAll(ms, f, a, b, n, samples).Ok?
    ensures var rs := RunAll(ms, f, a, b, n, samples).value;
      && |rs| == |ms|
      && forall i :: 0 <= i < |ms| ==>
           && !RuleOutcome(ms[i], f, a, b, ArgumentFor(ms[i], n), samples).Raised?
           && rs[i] == MethodResult(MethodName(ms[i]), Display(RuleOutcome(ms[i], f, a, b, ArgumentFor(ms[i], n), samples)))
  {
    if |ms| > 0 {
      var init := ms[..|ms| - 1];
      RunAllRecords(init, f, a, b, n, samples);
      assert forall i :: 0 <= i < |init| ==> init[i] == ms[i];
    }
  }

  /** A run fails exactly when one of its rules raises, and then with that rule's fault. */
  lemma {:induction false} RunAllFault(ms: seq<Method>, f: RealFn, a: real, b: real, n: int, samples: seq<real>)
    ensures RunAll(ms, f, a, b, n, samples).Err?
      <==> exists i :: 0 <= i < |ms| && RuleOutcome(ms[i], f, a, b, ArgumentFor(ms[i], n), samples).Raised?
    ensures RunAll(ms, f, a, b, n, samples).Err? ==>
      exists i :: 0 <= i < |ms| && RuleOutcome(ms[i], f, a, b, ArgumentFor(ms[i], n), samples)
                                   == Raised(RunAll(ms, f, a, b, n, samples).error)
  {
    if |ms| > 0 {
      var init := ms[..|ms| - 1];
      RunAllFault(init, f, a, b, n, samples);
      assert forall i :: 0 <= i < |init| ==> init[i] == ms[i];
    }
  }

  /**
   * For every n but 0 and −1, the five records, in order: rectangles,
   * trapezoids and Simpson with n, Monte Carlo with 10·n points, Gauss with
   * n as its point count, each with NaN shown as "could not compute".
   */
  lemma IntegralsRecords(f: RealFn, a: real, b: real, n: int, samples: seq<real>)
    requires n != 0 && n != -1
    ensures Integrals(f, a, b, n, samples).Ok?
    ensures var rs := Integrals(f, a, b, n, samples).value;
      && |rs| == 5
      && rs[0] == MethodResult("Метод прямоугольников", Display(RectangleRule(f, a, b, n)))
      && rs[1] == MethodResult("Метод трапеций", Display(TrapezoidRule(f, a, b, n)))
      && rs[2] == MethodResult("Метод Симпсона", Display(SimpsonRule(f, a, b, n)))
      && rs[3] == MethodResult("Метод Монте-Карло", Display(MC.MonteCarloRule(f, a, b, samples)))
      && rs[4] == MethodResult("Метод Гаусса", Display(GL.GaussRule(f, a, b, n)))
  {
    IntegralsFault(f, a, b, n, samples);
    GridRulesNeverNaN(f, a, b, n);
    RunAllRecords(MethodOrder, f, a, b, n, samples);
    var ms := MethodOrder;
    assert ms[0] == Rectangle && ms[1] == Trapezoidal && ms[2] == Simpson;
    assert ms[3] == MonteCarlo && ms[4] == Gauss;
  }

  /**
   * calculate_integral raises, with ZeroDivisionError, exactly when n is 0
   * or −1: 0 divides by zero in the rectangle rule, −1 in Simpson's rule
   * (which rounds it up to 0); Monte Carlo and Gauss never raise.
   */
  lemma IntegralsFault(f: RealFn, a: real, b: real, n: int, samples: seq<real>)
    ensures Integrals(f, a, b, n, samples).Err? <==> n == 0 || n == -1
    ensures Integrals(f, a, b, n, samples).Err? ==> Integrals(f, a, b, n, samples).error == ZeroDivisionError
  {
    RunAllFault(MethodOrder, f, a, b, n, samples);
    GridRulesNeverNaN(f, a, b, n);
    GL.GaussInvalidIff(f, a, b, n);
    var ms := MethodOrder;
    assert ms[0] == Rectangle && ms[1] == Trapezoidal && ms[2] == Simpson;
    assert ms[3] == MonteCarlo && ms[4] == Gauss;
    if n == 0 || n == -1 {
      assert RuleOutcome(ms[2], f, a, b, ArgumentFor(ms[2], n), samples).Raised?;
    }
  }
}
