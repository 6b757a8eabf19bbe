# Integral calculator: a verified model of the quadrature engine

This project models the numerical core of `server.py`, a small Flask web
service that integrates a user-supplied function f over [a, b] with five
rules and returns the results side by side:

- the midpoint rectangle rule, the trapezoidal rule and Simpson's rule;
- Monte Carlo;
- Gauss–Legendre quadrature.

It also models:

- `calculate_integral`, which runs the five rules in a fixed order;
- the `/calculate` form handler and its validation gate, which rejects
  `a >= b` and rejects a formula that fails at all of a, (a+b)/2 and b;
- the `/api/calculate` JSON handler, which has no gate;
- the `FUNCTIONS` preset table.

How the model is built:

- The integrand is a `real -> Option<real>` (`Sampling.RealFn`). `None`
  stands for a point where `safe_eval` returned NaN, because Python's
  `eval` raised or produced NaN. A rule skips such points.
- A rule's result is an `Outcome`: a number (`Finite`), NaN (`NotANumber`),
  or a Python exception that escapes the rule (`Raised`).
  - `ZeroDivisionError` is raised by `(b - a) / n` when n is 0.
  - In Simpson's rule, n = −1 also raises, because rounding it up to even
    gives 0.
- Arithmetic is over exact reals.
- Each rule has two parts:
  - a specification function that names the points it samples and the
    weight it gives each one;
  - a method that runs the source's loop and is proved to compute that
    function.
- Lemmas then state what the rules promise: where they sample, what the
  weights add up to, and what they give for a constant.
- The Gauss rule is split in two. `GaussTable` selects the table;
  `TableQuadrature` runs the node loop on that table.

| file | module | models |
|---|---|---|
| `wrappers.dfy` | `Wrappers` | `Option`, `Result` |
| `sampling.dfy` | `Sampling` | the integrand type, skipping invalid samples, sums and valid counts |
| `rules.dfy` | `Rules` | `rectangle_method`, `trapezoidal_method`, `simpson_method` |
| `montecarlo.dfy` | `MonteCarlo` | `monte_carlo_method` |
| `gauss.dfy` | `GaussLegendre` | `gauss_quadrature` and its four tables |
| `coordinator.dfy` | `Coordinator` | `calculate_integral` |
| `handler.dfy` | `Handler` | `FUNCTIONS`, `/calculate`, `/api/calculate` |

## Behaviour kept as the code has it

- **All samples invalid.** Rectangle, trapezoid and Simpson return the
  number 0 in this case, not NaN (`Rules.AllInvalidGivesZero`). Only Monte
  Carlo and Gauss report NaN when nothing is valid.
- **Gauss drops invalid nodes without renormalising.** The rule adds up the
  weighted values of the valid nodes and scales that partial sum by the
  full half-width (b − a)/2. Each invalid node therefore lowers the result
  by its weight's share (`GaussLegendre.GaussLosesInvalidWeight`). Monte
  Carlo instead divides by the number of valid samples.
- **Gauss weight totals.** The 3- and 5-point weight tables, written to
  eight decimals, add up to 2.00000001, not 2. So Gauss integrates a
  constant c to c·(b − a)·1.000000005 for every request other than 2 or 4
  points (`GaussLegendre.GaussOfConstant`).
- **Faults from n.** n = 0 raises `ZeroDivisionError` in the rectangle rule,
  the first rule to run, and n = −1 raises it in Simpson's rule. Either
  way the exception ends `calculate_integral`. A count n below −1 raises
  nothing, and every loop is empty, but only the rectangle rule then gives
  0. The trapezoid rule still adds f(a)/2 and f(b)/2, and Simpson's rule
  f(a) and f(b), and each scales that endpoint sum by its step, which is
  negative when a < b: h·(f(a) + f(b))/2 and (h/3)·(f(a) + f(b)), over the
  valid endpoints (`Rules.NegativeCountEndpointsOnly`). A positive constant
  thus integrates to a negative number; with f ≡ 1 on [0, 1] and n = −2,
  trapezoids give −1/2 and Simpson −1/3 (`Rules.NegativeCountOfConstant`).
  Monte Carlo draws no points and gives NaN. Gauss with any count other
  than 2, 3 or 4 uses the 5-point table.
- **The JSON endpoint has no gate.** It integrates a reversed interval and
  a request with no formula at all.
- **The form gate is a probe, not a guarantee.** A formula defined only at
  a passes the gate, yet the rectangle rule never samples a and reports 0
  (`Handler.GateAdmitsUnsampledFormula`).

## Model

| member | source | states |
|---|---|---|
| `Rules.RectangleMethod` | server.py:47-59 | For n = 0 it raises ZeroDivisionError. Otherwise it returns h = (b−a)/n times the sum of f over the valid midpoints a+(i+½)h, i = 0 … n−1; there are none when n < 0. |
| `Rules.MidpointsInside` | server.py:52-53 | Every midpoint the rectangle rule samples lies strictly inside (a, b). |
| `Rules.MidpointSumOfConstant` | server.py:52-56 | A function equal to c at k midpoints sums to c·k. |
| `Rules.RectangleOfConstant` | server.py:47-59 | For every n ≥ 1, a constant c integrates to exactly c·(b−a). |
| `Rules.TrapezoidalMethod` | server.py:61-86 | For n = 0 it raises. Otherwise it returns h times the sum of f(a)/2, f(b)/2 and f(a+ih) for 0 < i < n, counting only valid points. |
| `Rules.GridPointInside` | server.py:78-79 | Every interior grid point a+ih, 0 < i < n, lies strictly inside (a, b). |
| `Rules.FlatWeightTotal` | server.py:78-82 | k interior weights of 1 add up to k. |
| `Rules.TrapezoidWeightTotal` | server.py:61-86 | The trapezoid weights ½, 1, …, 1, ½ add up to n. |
| `Rules.InteriorSumOfConstant` | server.py:78-82 | A function equal to c at the interior points sums to c times their total weight. |
| `Rules.TrapezoidOfConstant` | server.py:61-86 | For every n ≥ 1, a constant c integrates to exactly c·(b−a). |
| `Rules.EvenUp` | server.py:90-91 | Simpson's count is even: n itself when n is even, n+1 when n is odd. |
| `Rules.SimpsonMethod` | server.py:88-118 | With m = EvenUp(n): for m = 0 it raises. Otherwise it returns h/3 times the sum of f(a), f(b), and 4·f(a+ih) at odd i, 2·f(a+ih) at even i, for 0 < i < m, counting only valid points. |
| `Rules.AlternatingWeightTotal` | server.py:107-114 | The interior weights 4, 2, 4, … over k points add up to 3k for even k and 3k+1 for odd k. |
| `Rules.SimpsonWeightTotal` | server.py:96-114 | For an even m ≥ 2, the Simpson weights 1, 4, 2, …, 4, 1 add up to 3m. |
| `Rules.SimpsonOddMatchesNext` | server.py:90-91 | For odd n, Simpson gives the same result as for n+1. |
| `Rules.SimpsonSamplesMidpoint` | server.py:107-108 | For n ≥ 1, Simpson's grid includes the point (a+b)/2. |
| `Rules.SimpsonOfConstant` | server.py:88-118 | For every n ≥ 1, a constant c integrates to exactly c·(b−a). |
| `Rules.MidpointSumAllInvalid` | server.py:52-56 | Where no midpoint is valid, the midpoint sum is 0. |
| `Rules.InteriorSumAllInvalid` | server.py:78-82 | Where no interior point is valid, the interior sum is 0. |
| `Rules.AllInvalidGivesZero` | server.py:47-118 | For n ∉ {0, −1}, a function that is valid nowhere gives rectangle, trapezoid and Simpson the number 0, not NaN. |
| `Rules.NegativeCountEndpointsOnly` | server.py:47-118 | For n < −1: rectangles give 0; trapezoids give (f(a)/2 + f(b)/2)·(b−a)/n and Simpson (f(a) + f(b))·(b−a)/(3·EvenUp(n)), over the valid endpoints; both steps are negative when a < b. |
| `Rules.NegativeCountOfConstant` | server.py:62-118 | For n < −1, a constant c gives c·(b−a)/n under trapezoids and (2/3)·c·(b−a)/EvenUp(n) under Simpson, both negative when c > 0 and a < b. |
| `Rules.GridRulesNeverNaN` | server.py:47-118 | Rectangle and trapezoid raise iff n = 0, and Simpson raises iff n ∈ {0, −1}. None of the three ever reports NaN. |
| `Sampling.ValidCountZero` | server.py:128-134 | No sample is valid iff the count of valid samples is 0. |
| `Sampling.SumValidValuesOfConstant` | server.py:128-135 | If f is c wherever it is valid, the valid values sum to c per valid sample. |
| `MonteCarlo.MonteCarloMethod` | server.py:120-140 | Over the sample points it returns (b−a)·(sum of the valid values)/(their number), or NaN when none is valid. |
| `MonteCarlo.MonteCarloInvalidIff` | server.py:134-137 | The result is NaN iff f is invalid at every sample point. |
| `MonteCarlo.MonteCarloValue` | server.py:134-135 | With at least one valid sample, the result is (b−a)·Σ/count over the valid samples only, so invalid samples shrink the divisor. |
| `MonteCarlo.MonteCarloOfConstant` | server.py:120-140 | If f is c wherever it is valid and some sample is valid, the result is exactly c·(b−a). |
| `GaussLegendre.GaussTable` | server.py:145-157 | Requests for 2, 3 and 4 points get tables of that size; every other request gets the 5-point table. Each table has as many weights as nodes. |
| `GaussLegendre.GaussNodesShape` | server.py:145-157 | The nodes of every table lie in (−1, 1), are strictly increasing and are symmetric about 0. |
| `GaussLegendre.GaussWeightsShape` | server.py:145-157 | The weights of every table are positive and symmetric. |
| `GaussLegendre.TableWeightTotal` | server.py:145-157 | The weights total 2 for the 2- and 4-point tables and 2.00000001 for the others. |
| `GaussLegendre.MapNodeInside` | server.py:162 | The map (b−a)/2·ξ + (a+b)/2 takes ξ ∈ (−1, 1) into [a, b], and strictly inside (a, b) when a < b. |
| `GaussLegendre.GaussNodesInside` | server.py:161-162 | Every mapped node of every table lies in [a, b], and strictly inside (a, b) when a < b. |
| `GaussLegendre.TableQuadrature` | server.py:159-171 | It returns NaN when no mapped node is valid. Otherwise it returns the weighted sum over the valid nodes times (b−a)/2. |
| `GaussLegendre.GaussQuadrature` | server.py:142-174 | It returns that result for the table the request selects. |
| `GaussLegendre.TableInvalidIff` | server.py:168-171 | The result is NaN iff every mapped node is invalid; the rule never raises. |
| `GaussLegendre.GaussInvalidIff` | server.py:142-174 | Gauss reports NaN iff f is invalid at every node of the selected table; it never raises. |
| `GaussLegendre.WeightedValidSumOfConstant` | server.py:161-166 | If f is c at the valid nodes, the weighted sum is c times the weight of the valid nodes. |
| `GaussLegendre.ValidWeightAllValid` | server.py:161-166 | When every node is valid, the valid weight is the whole weight total. |
| `GaussLegendre.ValidWeightBelowTotal` | server.py:161-166 | With positive weights, the valid weight is at most the total, and strictly less once some node is invalid. |
| `GaussLegendre.TableOfConstant` | server.py:159-171 | A constant c integrates to c times the weight total times (b−a)/2. |
| `GaussLegendre.GaussOfConstant` | server.py:142-174 | A constant c integrates to c·(b−a) for 2 or 4 points, and to c·(b−a)·1.000000005 for any other request. |
| `GaussLegendre.TableOfPartialConstant` | server.py:161-169 | If f is c at the valid nodes, the result is c·(b−a)/2 times the weight of the valid nodes only. |
| `GaussLegendre.TableLosesInvalidWeight` | server.py:161-169 | With c > 0 and a < b, any invalid node brings the result strictly below c·(b−a)/2 times the weight total. |
| `GaussLegendre.GaussLosesInvalidWeight` | server.py:142-174 | The same holds for the Gauss tables. |
| `Coordinator.RunMethod` | server.py:189-193 | It runs the rule the method names with the given count. |
| `Coordinator.Display` | server.py:195-198 | A record shows the number for a finite result and "could not compute" for NaN. |
| `Coordinator.CalculateIntegral` | server.py:176-201 | It runs the five rules in order, with 10·n for Monte Carlo and n for the rest. It returns their records, or the fault of the first rule that raises. |
| `Coordinator.RunAllKeepsFault` | server.py:187-193 | Once a rule has raised, the later rules change nothing. |
| `Coordinator.RunAllRecords` | server.py:187-199 | A run that completes has one record per rule: the rule's display name and its displayed result. |
| `Coordinator.RunAllFault` | server.py:187-199 | A run fails iff some rule raises, and then with that rule's fault. |
| `Coordinator.IntegralsRecords` | server.py:176-201 | For n ∉ {0, −1} there are exactly five records, in order: rectangle, trapezoid and Simpson with n, Monte Carlo with 10·n points, Gauss with n points. |
| `Coordinator.IntegralsFault` | server.py:176-201 | calculate_integral raises iff n ∈ {0, −1}, and the fault is ZeroDivisionError. |
| `Handler.ResolveFormula` | server.py:212-218 | A known preset gives its expression from the table and is displayed by name. An unknown preset raises KeyError. A custom formula is evaluated and displayed as typed. |
| `Handler.ProbePoints` | server.py:228 | The gate probes a, (a+b)/2 and b; the middle probe is strictly inside (a, b). |
| `Handler.Calculate` | server.py:207-252 | Order of handling: an unresolved formula fails first; then a ≥ b is rejected; then a formula valid at none of the three probes is rejected. Otherwise the handler renders the records of calculate_integral, or fails with its fault. |
| `Handler.GateIff` | server.py:224-239 | For a resolved formula, the interval error happens iff a ≥ b, and the undefined-function error iff a < b and the formula fails at a, at (a+b)/2 and at b. |
| `Handler.PastGate` | server.py:241-252 | Past the gate, the handler fails with ZeroDivisionError iff n ∈ {0, −1}. Otherwise it renders five records under the formula's display text. |
| `Handler.WithDisplay` | server.py:244-249 | Replacing the display text of a rendered page keeps its results, a, b and n; any other response is unchanged. |
| `Handler.PresetAsCustom` | server.py:212-218 | A preset answers exactly as typing its expression would, except that the page shows the preset's name. |
| `Handler.GateAdmitsUnsampledFormula` | server.py:228-242 | A formula defined only at a passes the gate, and its rectangle record shows 0. |
| `Handler.ApiCalculate` | server.py:254-278 | The JSON handler returns calculate_integral's records for n (default 1000), or fails with its fault. |
| `Handler.ApiSkipsGate` | server.py:254-278 | The JSON handler fails iff n ∈ {0, −1}, with ZeroDivisionError, even for a reversed interval that the form rejects. |

## Left out

- Floating point: rounding, overflow, infinities, and NaN produced by
  arithmetic on valid values (for example inf − inf in a sum). The model
  computes over exact reals.
- Non-finite bounds: the form parses `nan` and `inf` into a and b, and a
  NaN bound passes the `a >= b` test at server.py:224 because the
  comparison is false; the grid rules can then give NaN. Here a and b are
  reals, so `Rules.GridRulesNeverNaN` and the gate lemmas hold only for
  finite bounds.
- `safe_eval` and Python's `eval`: the restricted environment and the
  expression language. The evaluator is a parameter (`Handler.Evaluator`).
  Only its contract is kept: a value, or `None` for NaN and for any
  exception.
- A non-float value from `eval` (a string, a complex number) reaching
  `math.isnan`. In the rules this would raise a TypeError; in the gate's
  probe loop it is swallowed.
- `random.uniform`: the Monte Carlo points are a parameter. The model does
  not require them to lie in [a, b].
- `time.time()` and the elapsed-time strings in each record.
- Flask request parsing: missing form fields, and `float`/`int` conversion
  errors. Requests arrive with a, b and n already parsed.
- Template rendering, JSON encoding, the `/` and `/health` routes, and
  `static/js/script.js`.
- The exception text in error responses: a fault is kept as data, not as
  its message.
- Handler.Presets: the count of sixteen entries is not proved; the table is
  data used through `ResolveFormula`.
- Claims about accuracy, such as polynomial exactness of Simpson and Gauss
  or error orders, are not stated. They need the true integral, which the
  model does not define.
