/**
 * The two request handlers of server.py that reach the quadrature rules:
 * the form handler `/calculate` (server.py:207-252), which resolves the
 * formula, rejects an empty or reversed interval, probes the formula at
 * a, (a+b)/2 and b and rejects it when all three fail, and only then runs
 * calculate_integral; and the JSON handler `/api/calculate`
 * (server.py:254-278), which runs calculate_integral with no checks at all.
 * The expression evaluator is a parameter.
 */
module Handler {
  import opened Wrappers
  import opened Sampling
  import opened Rules
  import opened Coordinator

  /** The preset functions the form offers, display name to expression (server.py:13-30). */
  const Presets: map<string, string> := map[
    "x^2" := "x**2",
    "x^3" := "x**3",
    "sin(x)" := "sin(x)",
    "cos(x)" := "cos(x)",
    "tan(x)" := "tan(x)",
    "exp(x)" := "exp(x)",
    "ln(x)" := "log(x)",
    "sqrt(x)" := "sqrt(x)",
    "1/x" := "1/x",
    "sinh(x)" := "sinh(x)",
    "cosh(x)" := "cosh(x)",
    "tanh(x)" := "tanh(x)",
    "e^(-x^2)" := "exp(-x**2)",
    "sin(x)/x" := "sin(x)/x if x != 0 else 1",
    "x*sin(x)" := "x*sin(x)",
    "x*cos(x)" := "x*cos(x)"
  ]

  /**
   * The stand-in for safe_eval (server.py:32-45): the value of an
   * expression at x, or None where Python's eval raised or gave NaN.
   */
  type Evaluator = (string, real) -> Option<real>

  /** The integrand an expression denotes. */
  function Integrand(evaluate: Evaluator, expr: string): RealFn
  {
    x => evaluate(expr, x)
  }

  /** How the form names the formula: one of the presets, or typed in. */
  datatype FormulaChoice = Preset(name: string) | Custom(formula: string)

  /** The expression to evaluate and the text the page shows for it. */
  datatype Formula = Formula(expr: string, display: string)

  /**
   * The formula a choice stands for (server.py:210-218): a known preset
   * gives its expression, displayed under its name; an unknown preset
   * raises KeyError; a custom formula is evaluated and displayed as typed.
   */
  function ResolveFormula(choice: FormulaChoice): (r: Result<Formula, Fault>)
    ensures r.Err? <==> choice.Preset? && choice.name !in Presets
    ensures r.Err? ==> r.error == KeyError(choice.name)
    ensures r.Ok? && choice.Preset? ==> r.value == Formula(Presets[choice.name], choice.name)
    ensures r.Ok? && choice.Custom? ==> r.value == Formula(choice.formula, choice.formula)
  {
    match choice
    case Preset(name) =>
      if name in Presets then Ok(Formula(Presets[name], name)) else Err(KeyError(name))
    case Custom(formula) => Ok(Formula(formula, formula))
  }

  /** A form submission, its numbers already parsed. */
  datatype Request = Request(choice: FormulaChoice, a: real, b: real, n: int)

  /** What the form handler answers. */
  datatype Response =
    | Rendered(results: seq<MethodResult>, display: string, a: real, b: real, n: int)
      /** The page with the five records. */
    | IntervalError
      /** "the lower limit must be less than the upper limit" */
    | UndefinedError
      /** "the function cannot be evaluated on the given interval" */
    | Failure(fault: Fault)
      /** "an error occurred", with the exception's text */

  /** The three points the form handler probes before integrating. */
  function ProbePoints(a: real, b: real): (ps: seq<real>)
    ensures |ps| == 3 && ps[0] == a && ps[2] == b
    ensures a < b ==> a < ps[1] < b
  {
    [a, (a + b) / 2.0, b]
  }

  /** The response of `/calculate` to a request; `samples` are Monte Carlo's points. */
  function CalculateResponse(evaluate: Evaluator, req: Request, samples: seq<real>): Response
  {
    var resolved := ResolveFormula(req.choice);
    if resolved.Err? then Failure(resolved.error)
    else if req.a >= req.b then IntervalError
    else
      var f := Integrand(evaluate, resolved.value.expr);
      if ValidCount(f, ProbePoints(req.a, req.b)) == 0 then UndefinedError
      else
        var results := Integrals(f, req.a, req.b, req.n, samples);
        if results.Err? then Failure(results.error)
        else Rendered(results.value, resolved.value.display, req.a, req.b, req.n)
  }

  /**
   * The form handler, server.py:207-252: resolve the formula, check the
   * interval, count the valid probes, then integrate. Every exception,
   * from the preset lookup or from a rule, becomes a Failure.
   */
  method Calculate(evaluate: Evaluator, req: Request, samples: seq<real>) returns (resp: Response)
    requires |samples| == RangeLength(req.n * 10)
    ensures resp == CalculateResponse(evaluate, req, samples)
  {
    var resolved := ResolveFormula(req.choice);
    if resolved.Err? {
      return Failure(resolved.error);
    }
    if req.a >= req.b {
      return IntervalError;
    }
    var f := Integrand(evaluate, resolved.value.expr);
    var testPoints := ProbePoints(req.a, req.b);
    var validPoints := 0;
    var i := 0;
    while i < |testPoints|
      invariant 0 <= i <= |testPoints|
      invariant validPoints == ValidCount(f, testPoints[..i])
    {
      var y := f(testPoints[i]);
      if y.Some? {
        validPoints := validPoints + 1;
      }
      assert testPoints[..i + 1][..i] == testPoints[..i];
      i := i + 1;
    }
    assert testPoints[..i] == testPoints;
    if validPoints == 0 {
      return UndefinedError;
    }
    var results := CalculateIntegral(f, req.a, req.b, req.n, samples);
    if results.Err? {
      return Failure(results.error);
    }
    resp := Rendered(results.value, resolved.value.display, req.a, req.b, req.n);
  }

  /**
   * Once the formula resolves, the gate rejects a reversed or empty
   * interval first, and otherwise rejects the formula exactly when it fails
   * at all three of a, (a+b)/2 and b.
   */
  lemma GateIff(evaluate: Evaluator, req: Request, samples: seq<real>)
    requires ResolveFormula(req.choice).Ok?
    ensures CalculateResponse(evaluate, req, samples) == IntervalError <==> req.a >= req.b
    ensures var expr := ResolveFormula(req.choice).value.expr;
      (CalculateResponse(evaluate, req, samples) == UndefinedError <==>
       req.a < req.b && evaluate(expr, req.a).None?
       && evaluate(expr, (req.a + req.b) / 2.0).None? && evaluate(expr, req.b).None?)
  {
    var f := Integrand(evaluate, ResolveFormula(req.choice).value.expr);
    var ps := ProbePoints(req.a, req.b);
    ValidCountZero(f, ps);
    assert forall i :: 0 <= i < 3 ==> f(ps[i]) == evaluate(ResolveFormula(req.choice).value.expr, ps[i]);
    if req.a < req.b {
      IntegralsFault(f, req.a, req.b, req.n, samples);
    }
  }

  /**
   * Past the gate, the form shows the five records of calculate_integral,
   * except for n = 0 and n = −1, where the rules' ZeroDivisionError becomes
   * a Failure.
   */
  lemma PastGate(evaluate: Evaluator, req: Request, samples: seq<real>)
    requires ResolveFormula(req.choice).Ok? && req.a < req.b
    requires var f := Integrand(evaluate, ResolveFormula(req.choice).value.expr);
      exists i :: 0 <= i < 3 && f(ProbePoints(req.a, req.b)[i]).Some?
    ensures var resp := CalculateResponse(evaluate, req, samples);
      && (resp == Failure(ZeroDivisionError) <==> req.n == 0 || req.n == -1)
      && (resp.Rendered? <==> req.n != 0 && req.n != -1)
      && (resp.Rendered? ==> |resp.results| == 5 && resp.display == ResolveFormula(req.choice).value.display)
  {
    var f := Integrand(evaluate, ResolveFormula(req.choice).value.expr);
    ValidCountZero(f, ProbePoints(req.a, req.b));
    IntegralsFault(f, req.a, req.b, req.n, samples);
    if req.n != 0 && req.n != -1 {
      IntegralsRecords(f, req.a, req.b, req.n, samples);
    }
  }

  /** The display text of a rendered response, replaced. */
  function WithDisplay(resp: Response, display: string): (r: Response)
    ensures resp.Rendered? ==> r.Rendered? && r.display == display
    ensures resp.Rendered? ==> r.results == resp.results && r.a == resp.a && r.b == resp.b && r.n == resp.n
    ensures !resp.Rendered? ==> r == resp
  {
    if resp.Rendered? then resp.(display := display) else resp
  }

  /**
   * Choosing a preset answers exactly as typing its expression would,
   * except that the page shows the preset's name.
   */
  lemma PresetAsCustom(evaluate: Evaluator, name: string, a: real, b: real, n: int, samples: seq<real>)
    requires name in Presets
    ensures CalculateResponse(evaluate, Request(Preset(name), a, b, n), samples)
      == WithDisplay(CalculateResponse(evaluate, Request(Custom(Presets[name]), a, b, n), samples), name)
  {
  }

  /**
   * The form gate does not ensure a rule samples a valid point: a formula
   * defined at a alone passes it, yet the rectangle rule, which only samples
   * midpoints strictly inside (a, b), reports 0.
   */
  lemma GateAdmitsUnsampledFormula(evaluate: Evaluator, expr: string, a: real, b: real, n: int, samples: seq<real>)
    requires a < b && n >= 1
    requires evaluate(expr, a).Some?
    requires forall x :: x != a ==> evaluate(expr, x).None?
    ensures var resp := CalculateResponse(evaluate, Request(Custom(expr), a, b, n), samples);
      resp.Rendered? && resp.results[0].value == Number(0.0)
  {
    var f := Integrand(evaluate, expr);
    var h := Step(a, b, n);
    forall i | 0 <= i < n
      ensures f(Midpoint(a, h, i)).None?
    {
      MidpointsInside(a, b, n, i);
    }
    MidpointSumAllInvalid(f, a, h, n);
    assert RectangleRule(f, a, b, n) == Finite(0.0);
    ValidCountZero(f, ProbePoints(a, b));
    assert f(ProbePoints(a, b)[0]).Some?;
    IntegralsRecords(f, a, b, n, samples);
  }

  /** A JSON request, its numbers already parsed; `formula` and `n` may be absent. */
  datatype ApiRequest = ApiRequest(formula: Option<string>, a: real, b: real, n: Option<int>)

  /** What the JSON handler answers: the records, or status 400 with the error. */
  datatype ApiResponse =
    | ApiSuccess(formula: Option<string>, interval: (real, real), results: seq<MethodResult>)
    | ApiFailure(fault: Fault)

  /** The count a JSON request asks for: its `n`, or 1000 when absent. */
  function ApiCount(n: Option<int>): int
  {
    if n.Some? then n.value else 1000
  }

  /** The integrand of a JSON request; with no formula every evaluation fails. */
  function ApiIntegrand(evaluate: Evaluator, formula: Option<string>): RealFn
  {
    if formula.Some? then Integrand(evaluate, formula.value) else x => None
  }

  /** The response of `/api/calculate`: calculate_integral with no gate. */
  function ApiResponseOf(evaluate: Evaluator, req: ApiRequest, samples: seq<real>): ApiResponse
  {
    var results := Integrals(ApiIntegrand(evaluate, req.formula), req.a, req.b, ApiCount(req.n), samples);
    if results.Err? then ApiFailure(results.error)
    else ApiSuccess(req.formula, (req.a, req.b), results.value)
  }

  /** The JSON handler, server.py:254-278. */
  method ApiCalculate(evaluate: Evaluator, req: ApiRequest, samples: seq<real>) returns (resp: ApiResponse)
    requires |samples| == RangeLength(ApiCount(req.n) * 10)
    ensures resp == ApiResponseOf(evaluate, req, samples)
  {
    var n := if req.n.Some? then req.n.value else 1000;
    var results := CalculateIntegral(ApiIntegrand(evaluate, req.formula), req.a, req.b, n, samples);
    if results.Err? {
      return ApiFailure(results.error);
    }
    resp := ApiSuccess(req.formula, (req.a, req.b), results.value);
  }

  /**
   * The JSON handler skips the gate: a reversed interval, which the form
   * rejects, is integrated, and so is a request with no formula at all;
   * only n = 0 and n = −1 fail.
   */
  lemma ApiSkipsGate(evaluate: Evaluator, req: ApiRequest, samples: seq<real>)
    ensures ApiResponseOf(evaluate, req, samples).ApiFailure?
      <==> ApiCount(req.n) == 0 || ApiCount(req.n) == -1
    ensures ApiResponseOf(evaluate, req, samples).ApiFailure? ==>
      ApiResponseOf(evaluate, req, samples).fault == ZeroDivisionError
    ensures req.formula.Some? && req.a >= req.b ==>
      CalculateResponse(evaluate, Request(Custom(req.formula.value), req.a, req.b, ApiCount(req.n)), samples)
        == IntervalError
  {
    IntegralsFault(ApiIntegrand(evaluate, req.formula), req.a, req.b, ApiCount(req.n), samples);
  }
}
