/**
 * Gauss–Legendre quadrature as server.py:142-174 computes it: a fixed table
 * of nodes on (−1, 1) and weights, the nodes mapped affinely onto [a, b],
 * a weighted sum over the nodes where the integrand is defined, and a final
 * scaling by the half-width (b − a)/2.
 */
module GaussLegendre {
  import opened Wrappers
  import opened Sampling
  import opened Rules

  /** Nodes on the reference interval (−1, 1) and their weights, index by index. */
  datatype Table = Table(nodes: seq<real>, weights: seq<real>)

  /**
   * The table for a requested number of points: 2, 3 and 4 select that
   * table, every other request (including 0, 1 and negative counts) the
   * 5-point one, with as many weights as nodes.
   */
  function GaussTable(nPoints: int): (t: Table)
    ensures |t.nodes| == |t.weights| == (if 2 <= nPoints <= 4 then nPoints else 5)
  {
    if nPoints == 2 then
      Table([-0.57735027, 0.57735027], [1.0, 1.0])
    else if nPoints == 3 then
      Table([-0.77459667, 0.0, 0.77459667], [0.55555556, 0.88888889, 0.55555556])
    else if nPoints == 4 then
      Table([-0.86113631, -0.33998104, 0.33998104, 0.86113631],
            [0.34785485, 0.65214515, 0.65214515, 0.34785485])
    else
      Table([-0.90617985, -0.53846931, 0.0, 0.53846931, 0.90617985],
            [0.23692689, 0.47862867, 0.56888889, 0.47862867, 0.23692689])
  }

  /** Every table has its nodes strictly increasing inside (−1, 1) and symmetric about 0. */
  lemma GaussNodesShape(nPoints: int)
    ensures var xi := GaussTable(nPoints).nodes;
      && (forall i :: 0 <= i < |xi| ==> -1.0 < xi[i] < 1.0)
      && (forall i, j :: 0 <= i < j < |xi| ==> xi[i] < xi[j])
      && (forall i :: 0 <= i < |xi| ==> xi[|xi| - 1 - i] == -xi[i])
  {
  }

  /** Every table has positive weights, symmetric like the nodes. */
  lemma GaussWeightsShape(nPoints: int)
    ensures var w := GaussTable(nPoints).weights;
      && (forall i :: 0 <= i < |w| ==> 0.0 < w[i])
      && (forall i :: 0 <= i < |w| ==> w[|w| - 1 - i] == w[i])
  {
  }

  /**
   * The weights of the 2- and 4-point tables add up to 2, the length of
   * (−1, 1); those of the 3- and 5-point tables, rounded to eight decimals,
   * to 2.00000001.
   */
  lemma TableWeightTotal(nPoints: int)
    ensures Sum(GaussTable(nPoints).weights)
      == if nPoints == 2 || nPoints == 4 then 2.0 else 2.00000001
  {
    var w := GaussTable(nPoints).weights;
    SumPrefixes(w);
    if nPoints == 2 {
      assert w == [1.0, 1.0];
    } else if nPoints == 3 {
      assert w == [0.55555556, 0.88888889, 0.55555556];
    } else if nPoints == 4 {
      assert w == [0.34785485, 0.65214515, 0.65214515, 0.34785485];
    } else {
      assert w == [0.23692689, 0.47862867, 0.56888889, 0.47862867, 0.23692689];
    }
  }

  /** The sum of a list of up to five reals, written out term by term. */
  lemma SumPrefixes(w: seq<real>)
    requires 2 <= |w| <= 5
    ensures Sum(w) == w[0] + w[1]
      + (if |w| >= 3 then w[2] else 0.0)
      + (if |w| >= 4 then w[3] else 0.0)
      + (if |w| == 5 then w[4] else 0.0)
  {
    assert Sum(w[..1]) == w[0] by {
      assert w[..1][..0] == [];
    }
    assert Sum(w[..2]) == w[0] + w[1] by {
      assert w[..2][..1] == w[..1];
    }
    if |w| >= 3 {
      assert Sum(w[..3]) == Sum(w[..2]) + w[2] by {
        assert w[..3][..2] == w[..2];
      }
    }
    if |w| >= 4 {
      assert Sum(w[..4]) == Sum(w[..3]) + w[3] by {
        assert w[..4][..3] == w[..3];
      }
    }
    if |w| == 5 {
      assert Sum(w[..5]) == Sum(w[..4]) + w[4] by {
        assert w[..5][..4] == w[..4];
      }
    }
    assert w[..|w|] == w;
  }

  /** The affine map of a reference node onto [a, b]: −1 to a, 0 to the midpoint, 1 to b. */
  function MapNode(a: real, b: real, xi: real): real
  {
    (b - a) / 2.0 * xi + (a + b) / 2.0
  }

  /** A node strictly inside (−1, 1) lands strictly inside (a, b); on a point interval, on a. */
  lemma MapNodeInside(a: real, b: real, xi: real)
    requires a <= b
    requires -1.0 < xi < 1.0
    ensures a <= MapNode(a, b, xi) <= b
    ensures a < b ==> a < MapNode(a, b, xi) < b
  {
    var half := (b - a) / 2.0;
    assert MapNode(a, b, xi) - a == half * (1.0 + xi);
    assert b - MapNode(a, b, xi) == half * (1.0 - xi);
    assert half >= 0.0;
    if a < b {
      assert half * (1.0 + xi) > 0.0;
      assert half * (1.0 - xi) > 0.0;
    }
  }

  /** The sample points: every node of the table mapped onto [a, b], in table order. */
  function MappedNodes(a: real, b: real, nodes: seq<real>): (xs: seq<real>)
    ensures |xs| == |nodes|
  {
    seq(|nodes|, i requires 0 <= i < |nodes| => MapNode(a, b, nodes[i]))
  }

  /** Every sample point of every table lies in [a, b], strictly inside when a < b. */
  lemma GaussNodesInside(a: real, b: real, nPoints: int, i: int)
    requires a <= b
    requires 0 <= i < |GaussTable(nPoints).nodes|
    ensures a <= MappedNodes(a, b, GaussTable(nPoints).nodes)[i] <= b
    ensures a < b ==> a < MappedNodes(a, b, GaussTable(nPoints).nodes)[i] < b
  {
    MapNodeInside(a, b, GaussTable(nPoints).nodes[i]);
  }

  /** Σ ws[i]·f(xs[i]) over the first k nodes where f is defined. */
  function WeightedValidSum(f: RealFn, xs: seq<real>, ws: seq<real>, k: nat): real
    requires k <= |xs| && k <= |ws|
  {
    if k == 0 then 0.0
    else WeightedValidSum(f, xs, ws, k - 1) + Term(f(xs[k - 1]), ws[k - 1])
  }

  /** Σ ws[i] over the first k nodes where f is defined: the weight that actually enters the sum. */
  function ValidWeight(f: RealFn, xs: seq<real>, ws: seq<real>, k: nat): real
    requires k <= |xs| && k <= |ws|
  {
    if k == 0 then 0.0
    else ValidWeight(f, xs, ws, k - 1) + (if f(xs[k - 1]).Some? then ws[k - 1] else 0.0)
  }

  /** A table whose every node has a weight. */
  predicate WellFormed(t: Table)
  {
    |t.nodes| == |t.weights|
  }

  /**
   * The result of one table: NaN when f is defined at no mapped node;
   * otherwise the weighted sum over the valid nodes times the full
   * half-width (b − a)/2, whatever weight the invalid nodes carried.
   */
  function TableRule(f: RealFn, a: real, b: real, t: Table): Outcome
    requires WellFormed(t)
  {
    var xs := MappedNodes(a, b, t.nodes);
    if ValidCount(f, xs) > 0 then Finite(WeightedValidSum(f, xs, t.weights, |xs|) * ((b - a) / 2.0))
    else NotANumber
  }

  /** The Gauss result: the table the request selects, applied to f on [a, b]. */
  function GaussRule(f: RealFn, a: real, b: real, nPoints: int): Outcome
  {
    TableRule(f, a, b, GaussTable(nPoints))
  }

  /** The loop of server.py:160-166 over one table, then the scaling of 168-171. */
  method TableQuadrature(f: RealFn, a: real, b: real, t: Table) returns (r: Outcome)
    requires WellFormed(t)
    ensures r == TableRule(f, a, b, t)
  {
    ghost var xs := MappedNodes(a, b, t.nodes);
    var integral := 0.0;
    var validPoints := 0;
    var i := 0;
    while i < |t.nodes|
      invariant 0 <= i <= |t.nodes|
      invariant integral == WeightedValidSum(f, xs, t.weights, i)
      invariant validPoints == ValidCount(f, xs[..i])
    {
      var x := MapNode(a, b, t.nodes[i]);
      var y := f(x);
      if y.Some? {
        integral := integral + t.weights[i] * y.value;
        validPoints := validPoints + 1;
      }
      assert xs[..i + 1][..i] == xs[..i];
      i := i + 1;
    }
    assert xs[..i] == xs;
    TableScaled(f, a, b, t, integral, validPoints);
    if validPoints > 0 {
      integral := integral * ((b - a) / 2.0);
      r := Finite(integral);
    } else {
      r := NotANumber;
    }
  }

  /** The accumulated sum and count of one table determine its result. */
  lemma TableScaled(f: RealFn, a: real, b: real, t: Table, acc: real, valid: nat)
    requires WellFormed(t)
    requires acc == WeightedValidSum(f, MappedNodes(a, b, t.nodes), t.weights, |t.nodes|)
    requires valid == ValidCount(f, MappedNodes(a, b, t.nodes))
    ensures TableRule(f, a, b, t) == if valid > 0 then Finite(acc * ((b - a) / 2.0)) else NotANumber
  {
  }

  /** gauss_quadrature: select the table for the request (server.py:145-157), then run it. */
  method GaussQuadrature(f: RealFn, a: real, b: real, nPoints: int) returns (r: Outcome)
    ensures r == GaussRule(f, a, b, nPoints)
  {
    var t := GaussTable(nPoints);
    r := TableQuadrature(f, a, b, t);
  }

  /** A table reports NaN exactly when f is undefined at every mapped node; it never raises. */
  lemma TableInvalidIff(f: RealFn, a: real, b: real, t: Table)
    requires WellFormed(t)
    ensures TableRule(f, a, b, t).NotANumber?
      <==> forall i :: 0 <= i < |t.nodes| ==> f(MappedNodes(a, b, t.nodes)[i]).None?
    ensures !TableRule(f, a, b, t).Raised?
  {
    ValidCountZero(f, MappedNodes(a, b, t.nodes));
  }

  /** Gauss reports NaN exactly when the integrand is undefined at every sample point; it never raises. */
  lemma GaussInvalidIff(f: RealFn, a: real, b: real, nPoints: int)
    ensures GaussRule(f, a, b, nPoints).NotANumber?
      <==> forall i :: 0 <= i < |GaussTable(nPoints).nodes| ==>
             f(MappedNodes(a, b, GaussTable(nPoints).nodes)[i]).None?
    ensures !GaussRule(f, a, b, nPoints).Raised?
  {
    TableInvalidIff(f, a, b, GaussTable(nPoints));
  }

  /** Where f is c at every valid node, the weighted sum is c times the weight of the valid nodes. */
  lemma {:induction false} WeightedValidSumOfConstant(f: RealFn, xs: seq<real>, ws: seq<real>, k: nat, c: real)
    requires k <= |xs| && k <= |ws|
    requires forall i :: 0 <= i < |xs| ==> f(xs[i]).None? || f(xs[i]) == Some(c)
    ensures WeightedValidSum(f, xs, ws, k) == c * ValidWeight(f, xs, ws, k)
  {
    if k > 0 {
      WeightedValidSumOfConstant(f, xs, ws, k - 1, c);
    }
  }

  /** When every node is valid, the valid weight is the whole weight. */
  lemma {:induction false} ValidWeightAllValid(f: RealFn, xs: seq<real>, ws: seq<real>, k: nat)
    requires k <= |xs| && k <= |ws|
    requires forall i :: 0 <= i < |xs| ==> f(xs[i]).Some?
    ensures ValidWeight(f, xs, ws, k) == Sum(ws[..k])
  {
    if k > 0 {
      ValidWeightAllValid(f, xs, ws, k - 1);
      assert ws[..k][..k - 1] == ws[..k - 1];
    }
  }

  /**
   * With positive weights, the valid weight never exceeds the whole weight,
   * and falls strictly short of it once some node among the first k is invalid.
   */
  lemma {:induction false} ValidWeightBelowTotal(f: RealFn, xs: seq<real>, ws: seq<real>, k: nat)
    requires k <= |xs| && k <= |ws|
    requires forall i :: 0 <= i < |ws| ==> 0.0 < ws[i]
    ensures ValidWeight(f, xs, ws, k) <= Sum(ws[..k])
    ensures (exists i :: 0 <= i < k && f(xs[i]).None?) ==> ValidWeight(f, xs, ws, k) < Sum(ws[..k])
  {
    if k > 0 {
      ValidWeightBelowTotal(f, xs, ws, k - 1);
      assert ws[..k][..k - 1] == ws[..k - 1];
      if exists i :: 0 <= i < k && f(xs[i]).None? {
        var i :| 0 <= i < k && f(xs[i]).None?;
        if i < k - 1 {
          assert exists j :: 0 <= j < k - 1 && f(xs[j]).None?;
        }
      }
    }
  }

  /** A constant c integrates, under any table, to c times the weight total times (b − a)/2. */
  lemma TableOfConstant(f: RealFn, a: real, b: real, t: Table, c: real)
    requires WellFormed(t) && |t.nodes| > 0
    requires forall x :: f(x) == Some(c)
    ensures TableRule(f, a, b, t) == Finite(c * Sum(t.weights) * ((b - a) / 2.0))
  {
    var xs := MappedNodes(a, b, t.nodes);
    ValidCountZero(f, xs);
    assert f(xs[0]).Some?;
    WeightedValidSumOfConstant(f, xs, t.weights, |xs|, c);
    ValidWeightAllValid(f, xs, t.weights, |xs|);
    assert t.weights[..|xs|] == t.weights;
  }

  /**
   * A constant c integrates to c·(b − a) times half the table's weight
   * total: exactly c·(b − a) for 2 and 4 points, c·(b − a)·1.000000005 for
   * every other request.
   */
  lemma GaussOfConstant(f: RealFn, a: real, b: real, nPoints: int, c: real)
    requires forall x :: f(x) == Some(c)
    ensures GaussRule(f, a, b, nPoints)
      == Finite(c * (b - a) * (if nPoints == 2 || nPoints == 4 then 1.0 else 1.000000005))
  {
    TableOfConstant(f, a, b, GaussTable(nPoints), c);
    TableWeightTotal(nPoints);
  }

  /**
   * Where f is c at the valid nodes and some node is valid, a table gives
   * c·(b − a)/2 times the weight of the valid nodes only.
   */
  lemma TableOfPartialConstant(f: RealFn, a: real, b: real, t: Table, c: real)
    requires WellFormed(t)
    requires forall x :: f(x).None? || f(x) == Some(c)
    requires exists i :: 0 <= i < |t.nodes| && f(MappedNodes(a, b, t.nodes)[i]).Some?
    ensures var xs := MappedNodes(a, b, t.nodes);
            TableRule(f, a, b, t) == Finite(c * ValidWeight(f, xs, t.weights, |xs|) * ((b - a) / 2.0))
  {
    var xs := MappedNodes(a, b, t.nodes);
    ValidCountZero(f, xs);
    WeightedValidSumOfConstant(f, xs, t.weights, |xs|, c);
  }

  /**
   * So, with positive weights, c > 0 and a < b, every invalid node lowers
   * the result below c·(b − a)/2 times the weight total: the sum is not
   * renormalised over the valid nodes as Monte Carlo's mean is.
   */
  lemma TableLosesInvalidWeight(f: RealFn, a: real, b: real, t: Table, c: real)
    requires WellFormed(t)
    requires forall i :: 0 <= i < |t.weights| ==> 0.0 < t.weights[i]
    requires a < b && c > 0.0
    requires forall x :: f(x).None? || f(x) == Some(c)
    requires exists i :: 0 <= i < |t.nodes| && f(MappedNodes(a, b, t.nodes)[i]).Some?
    requires exists i :: 0 <= i < |t.nodes| && f(MappedNodes(a, b, t.nodes)[i]).None?
    ensures TableRule(f, a, b, t).Finite?
    ensures TableRule(f, a, b, t).value < c * Sum(t.weights) * ((b - a) / 2.0)
  {
    var xs := MappedNodes(a, b, t.nodes);
    TableOfPartialConstant(f, a, b, t, c);
    ValidWeightBelowTotal(f, xs, t.weights, |xs|);
    assert t.weights[..|xs|] == t.weights;
    ScaleKeepsOrder(c, (b - a) / 2.0, ValidWeight(f, xs, t.weights, |xs|), Sum(t.weights));
  }

  /** Scaling by two positive factors keeps a strict order. */
  lemma ScaleKeepsOrder(c: real, half: real, lo: real, hi: real)
    requires c > 0.0 && half > 0.0 && lo < hi
    ensures c * lo * half < c * hi * half
  {
    assert c * half > 0.0;
    assert (c * half) * lo < (c * half) * hi;
  }

  /**
   * For Gauss: where f is c > 0 at the valid nodes and some but not all
   * nodes are valid, the result falls below c·(b − a)/2 times the table's
   * weight total.
   */
  lemma GaussLosesInvalidWeight(f: RealFn, a: real, b: real, nPoints: int, c: real)
    requires a < b && c > 0.0
    requires forall x :: f(x).None? || f(x) == Some(c)
    requires exists i :: 0 <= i < |GaussTable(nPoints).nodes|
                         && f(MappedNodes(a, b, GaussTable(nPoints).nodes)[i]).Some?
    requires exists i :: 0 <= i < |GaussTable(nPoints).nodes|
                         && f(MappedNodes(a, b, GaussTable(nPoints).nodes)[i]).None?
    ensures GaussRule(f, a, b, nPoints).Finite?
    ensures GaussRule(f, a, b, nPoints).value < c * Sum(GaussTable(nPoints).weights) * ((b - a) / 2.0)
  {
    GaussWeightsShape(nPoints);
    TableLosesInvalidWeight(f, a, b, GaussTable(nPoints), c);
  }
}
