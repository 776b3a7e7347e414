/**
 Route metrics reported for a found route: the total distance
 (calc_total_dist) and the scenic score (calc_scenic_score), each the sum of
 one table's entries over the consecutive pairs of the route.
 */
module Metrics {
  import opened Graph
  import opened CostModels

  /** The loop shared by calc_total_dist and calc_scenic_score: adds the entry of
      each consecutive pair of `path`, first pair first. */
  method SumAlong(m: Matrix, path: seq<nat>) returns (total: int)
    requires IsSquare(m) && OnGraph(m, path)
    ensures total == WalkCost(m, path)
    ensures |path| <= 1 ==> total == 0
  {
    total := 0;
    var i := 0;
    while i < |path| - 1
      invariant |path| == 0 ==> i == 0 && total == 0
      invariant |path| > 0 ==> 0 <= i <= |path| - 1 && total == WalkCost(m, path[..i + 1])
    {
      assert path[..i + 2][..i + 1] == path[..i + 1];
      total := total + m[path[i]][path[i + 1]];
      i := i + 1;
    }
    if |path| > 0 {
      assert path[..i + 1] == path;
    }
  }

  /** calc_total_dist: the length of a route in the distance table, 0 for a route of one location. */
  method CalcTotalDist(base: Matrix, path: seq<nat>) returns (total: int)
    requires IsSquare(base) && OnGraph(base, path)
    ensures total == WalkCost(base, path)
    ensures |path| <= 1 ==> total == 0
    ensures IsCostMatrix(base) ==> total >= 0
  {
    total := SumAlong(base, path);
    if IsCostMatrix(base) {
      WalkCostNonNegative(base, path);
    }
  }

  /** calc_scenic_score: the sum of the scenic ratings along a route, never negative
      when the ratings are not negative. */
  method CalcScenicScore(scenic: Matrix, path: seq<nat>) returns (total: int)
    requires IsSquare(scenic) && OnGraph(scenic, path)
    ensures total == WalkCost(scenic, path)
    ensures |path| <= 1 ==> total == 0
    ensures NonNegative(scenic) ==> total >= 0
  {
    total := SumAlong(scenic, path);
    if NonNegative(scenic) {
      WalkCostNonNegative(scenic, path);
    }
  }

  /** The accumulated sum splits at any point: a route joined from two parts costs
      both parts plus the step that joins them. */
  lemma {:induction false} WalkCostConcat(m: Matrix, p: seq<nat>, q: seq<nat>)
    requires IsSquare(m) && OnGraph(m, p) && OnGraph(m, q) && |p| >= 1 && |q| >= 1
    ensures OnGraph(m, p + q)
    ensures WalkCost(m, p + q) == WalkCost(m, p) + m[p[|p| - 1]][q[0]] + WalkCost(m, q)
    decreases |q|
  {
    if |q| == 1 {
      WalkExtendCost(m, p, q[0]);
      assert p + q == p + [q[0]];
    } else {
      var q' := q[..|q| - 1];
      var v := q[|q| - 1];
      WalkCostConcat(m, p, q');
      assert p + q == (p + q') + [v];
      WalkExtendCost(m, p + q', v);
      WalkExtendCost(m, q', v);
      assert q'[0] == q[0];
      assert q == q' + [v];
    }
  }
}
