/**
 The location graph shared by every search: an n-by-n matrix of 32-bit
 integers in which the sentinel INF means "no direct edge", walks over the
 finite entries, their cost and hop count, and the optimality predicates the
 searches are proved against.
 */
module Graph {

  /** The "no direct edge" sentinel, INT_MAX of a 32-bit int. */
  const INF: int := 0x7FFF_FFFF

  /** A node-pair table, indexed [origin][destination]. */
  type Matrix = seq<seq<int>>

  /** A matrix with at least one location and n entries in each of its n rows. */
  predicate IsSquare(m: Matrix)
  {
    |m| >= 1 && forall i :: 0 <= i < |m| ==> |m[i]| == |m|
  }

  /** A derived cost matrix: every entry is a non-negative cost or INF. */
  predicate IsCostMatrix(m: Matrix)
  {
    IsSquare(m) &&
    forall i, j :: 0 <= i < |m| && 0 <= j < |m| ==> 0 <= m[i][j] <= INF
  }

  /** No entry of the table is negative. */
  predicate NonNegative(m: Matrix)
  {
    forall i, j :: 0 <= i < |m| && 0 <= j < |m[i]| ==> m[i][j] >= 0
  }

  /** Every entry of `p` names a location of `m`. */
  predicate OnGraph(m: Matrix, p: seq<nat>)
  {
    forall i :: 0 <= i < |p| ==> p[i] < |m|
  }

  /** A non-empty sequence of locations in which each step follows a finite entry. */
  predicate IsWalk(m: Matrix, p: seq<nat>)
    requires IsSquare(m)
  {
    |p| >= 1 && OnGraph(m, p) &&
    forall i :: 0 <= i < |p| - 1 ==> HasEdge(m, p[i], p[i + 1])
  }

  /** A direct edge leads from `x` to `y`: their entry is not the sentinel. */
  predicate HasEdge(m: Matrix, x: nat, y: nat)
    requires IsSquare(m) && x < |m| && y < |m|
  {
    m[x][y] != INF
  }

  predicate IsWalkBetween(m: Matrix, p: seq<nat>, a: nat, b: nat)
    requires IsSquare(m)
  {
    IsWalk(m, p) && p[0] == a && p[|p| - 1] == b
  }

  /** The sum of the entries of `m` over consecutive pairs of `p`, accumulated first pair first. */
  function WalkCost(m: Matrix, p: seq<nat>): int
    requires IsSquare(m) && OnGraph(m, p)
    decreases |p|
  {
    if |p| <= 1 then 0 else WalkCost(m, p[..|p| - 1]) + m[p[|p| - 2]][p[|p| - 1]]
  }

  /** No walk from `a` to `b` costs less than `d`. */
  ghost predicate CostLowerBound(m: Matrix, a: nat, b: nat, d: int)
    requires IsSquare(m)
  {
    forall p :: IsWalkBetween(m, p, a, b) ==> WalkCost(m, p) >= d
  }

  /** `d` is the least cost of a walk from `a` to `b`, capped at INF: every walk costs
      at least `d`, and a finite `d` is the cost of some walk. */
  ghost predicate ShortestDistance(m: Matrix, a: nat, b: nat, d: int)
    requires IsSquare(m)
  {
    0 <= d <= INF && CostLowerBound(m, a, b, d) &&
    (d < INF ==> exists p :: IsWalkBetween(m, p, a, b) && WalkCost(m, p) == d)
  }

  /** Some walk leads from `a` to `b`. */
  ghost predicate Connected(m: Matrix, a: nat, b: nat)
    requires IsSquare(m)
  {
    exists p :: IsWalkBetween(m, p, a, b)
  }

  /** No walk from `a` to `b` has fewer than `h` edges. */
  ghost predicate HopLowerBound(m: Matrix, a: nat, b: nat, h: int)
    requires IsSquare(m)
  {
    forall p :: IsWalkBetween(m, p, a, b) ==> |p| - 1 >= h
  }

  /** `h` is the fewest edges of any walk from `a` to `b`. */
  ghost predicate MinHops(m: Matrix, a: nat, b: nat, h: int)
    requires IsSquare(m)
  {
    HopLowerBound(m, a, b, h) && exists p :: IsWalkBetween(m, p, a, b) && |p| == h + 1
  }

  /** With non-negative costs, every walk costs at least nothing. */
  lemma {:induction false} WalkCostNonNegative(m: Matrix, p: seq<nat>)
    requires IsSquare(m) && NonNegative(m) && OnGraph(m, p)
    ensures WalkCost(m, p) >= 0
    decreases |p|
  {
    if |p| > 1 {
      WalkCostNonNegative(m, p[..|p| - 1]);
    }
  }

  /** Extending a walk by one finite edge gives a walk. */
  lemma WalkExtend(m: Matrix, p: seq<nat>, v: nat)
    requires IsSquare(m) && IsWalk(m, p) && v < |m|
    requires HasEdge(m, p[|p| - 1], v)
    ensures IsWalk(m, p + [v])
  {
    var q := p + [v];
    forall i | 0 <= i < |q| - 1
      ensures HasEdge(m, q[i], q[i + 1])
    {
      if i < |q| - 2 {
        assert q[i] == p[i] && q[i + 1] == p[i + 1];
      }
    }
  }

  /** Extending a walk by one location adds that step's entry to its cost. */
  lemma WalkExtendCost(m: Matrix, p: seq<nat>, v: nat)
    requires IsSquare(m) && OnGraph(m, p) && |p| >= 1 && v < |m|
    ensures OnGraph(m, p + [v])
    ensures WalkCost(m, p + [v]) == WalkCost(m, p) + m[p[|p| - 1]][v]
  {
    var q := p + [v];
    assert q[..|q| - 1] == p;
  }

  /** Dropping the last location of a walk of two or more leaves a walk. */
  lemma WalkDropLast(m: Matrix, p: seq<nat>)
    requires IsSquare(m) && IsWalk(m, p) && |p| >= 2
    ensures IsWalk(m, p[..|p| - 1])
  {
  }

  /** The shortest distance is a function of the graph and the endpoints. */
  lemma ShortestDistanceUnique(m: Matrix, a: nat, b: nat, d1: int, d2: int)
    requires IsSquare(m)
    requires ShortestDistance(m, a, b, d1) && ShortestDistance(m, a, b, d2)
    ensures d1 == d2
  {
    if d1 < INF {
      var p :| IsWalkBetween(m, p, a, b) && WalkCost(m, p) == d1;
      assert d2 <= d1;
    }
    if d2 < INF {
      var p :| IsWalkBetween(m, p, a, b) && WalkCost(m, p) == d2;
      assert d1 <= d2;
    }
  }

  /** A capped shortest distance is finite exactly when some walk costs less than INF. */
  lemma ShortestDistanceFinite(m: Matrix, a: nat, b: nat, d: int)
    requires IsSquare(m) && ShortestDistance(m, a, b, d)
    ensures d != INF <==> exists p :: IsWalkBetween(m, p, a, b) && WalkCost(m, p) < INF
  {
  }

  /** The fewest stops from a location to itself is none. */
  lemma MinHopsSelf(m: Matrix, a: nat, b: nat, h: int)
    requires IsSquare(m) && a < |m| && MinHops(m, a, b, h)
    ensures h >= 0
    ensures a == b ==> h == 0
  {
    var p :| IsWalkBetween(m, p, a, b) && |p| == h + 1;
    if a == b {
      assert IsWalkBetween(m, [a], a, b);
    }
  }

  /** The number of set flags, the count of visited locations. */
  function CountTrue(s: seq<bool>): (c: nat)
    ensures c <= |s|
    ensures c == |s| ==> forall i :: 0 <= i < |s| ==> s[i]
  {
    if |s| == 0 then 0 else CountTrue(s[..|s| - 1]) + (if s[|s| - 1] then 1 else 0)
  }

  /** No flag set, no count. */
  lemma {:induction false} CountTrueNone(s: seq<bool>)
    requires forall i :: 0 <= i < |s| ==> !s[i]
    ensures CountTrue(s) == 0
    decreases |s|
  {
    if |s| > 0 {
      CountTrueNone(s[..|s| - 1]);
    }
  }

  /** Setting a clear flag raises the count by exactly one. */
  lemma {:induction false} CountTrueMark(s: seq<bool>, i: nat)
    requires i < |s| && !s[i]
    ensures CountTrue(s[i := true]) == CountTrue(s) + 1
    decreases |s|
  {
    var t := s[i := true];
    if i < |s| - 1 {
      assert t[..|t| - 1] == s[..|s| - 1][i := true];
      CountTrueMark(s[..|s| - 1], i);
    } else {
      assert t[..|t| - 1] == s[..|s| - 1];
    }
  }
}
