/**
 The integer cost models derived from the raw tables: the base-distance
 model, a plain copy of base_dist (use_base_dist), and the scenic model, in
 which a more scenic edge costs less (calc_scenic_cost).
 */
module CostModels {
  import opened Graph

  /** The scaling applied to a distance before it is divided by the scenic rating plus one. */
  const SCENIC_SCALE: int := 10

  /** The smallest 32-bit int. */
  const INT_MIN: int := -0x8000_0000

  /** Scenic ratings for `n` locations: each a non-negative 32-bit int whose successor is still one. */
  predicate IsScenicMatrix(scenic: Matrix, n: nat)
  {
    |scenic| == n &&
    (forall i :: 0 <= i < n ==> |scenic[i]| == n) &&
    forall i, j :: 0 <= i < n && 0 <= j < n ==> 0 <= scenic[i][j] < INF
  }

  /**
   use_base_dist: copies base_dist into the target row by row, so the
   base-distance model is the distance table itself.
   */
  method UseBaseDist(base: Matrix) returns (target: Matrix)
    requires IsSquare(base)
    ensures target == base
  {
    var n := |base|;
    target := seq(n, _ => seq(n, _ => 0));
    var i := 0;
    while i < n
      invariant 0 <= i <= n && |target| == n
      invariant forall k :: 0 <= k < i ==> target[k] == base[k]
    {
      target := target[i := base[i]];
      i := i + 1;
    }
  }

  /** The exact scenic cost of an edge of distance `d` and rating `s`. */
  function ScaledScenic(d: int, s: int): int
    requires 0 <= d && 0 <= s
  {
    d * SCENIC_SCALE / (s + 1)
  }

  /** The scenic cost of a finite edge, saturated to INF when the exact value does not fit. */
  function ScenicEntry(d: int, s: int): (c: int)
    requires 0 <= d < INF && 0 <= s
    ensures 0 <= c <= INF
    ensures c < INF ==> c == ScaledScenic(d, s)
    ensures c == INF <==> ScaledScenic(d, s) >= INF
  {
    var q := ScaledScenic(d, s);
    if q < INF then q else INF
  }

  /** The scenic model's entry for the pair (i, j). */
  function ScenicCostAt(base: Matrix, scenic: Matrix, i: nat, j: nat): int
    requires IsCostMatrix(base) && IsScenicMatrix(scenic, |base|)
    requires i < |base| && j < |base|
  {
    if i == j then 0
    else if base[i][j] == INF then INF
    else ScenicEntry(base[i][j], scenic[i][j])
  }

  /** The scenic cost matrix as a whole. */
  function ScenicCostMatrix(base: Matrix, scenic: Matrix): (c: Matrix)
    requires IsCostMatrix(base) && IsScenicMatrix(scenic, |base|)
    ensures IsCostMatrix(c) && |c| == |base|
    ensures forall i :: 0 <= i < |c| ==> c[i][i] == 0
    ensures forall i, j :: 0 <= i < |c| && 0 <= j < |c| && i != j && base[i][j] == INF ==> c[i][j] == INF
    ensures forall i, j :: 0 <= i < |c| && 0 <= j < |c| && i != j && base[i][j] != INF ==>
      c[i][j] == ScenicEntry(base[i][j], scenic[i][j])
  {
    var n := |base|;
    seq(n, i requires 0 <= i < n => seq(n, j requires 0 <= j < n => ScenicCostAt(base, scenic, i, j)))
  }

  /**
   calc_scenic_cost: fills the target entry by entry: 0 on the diagonal, INF
   where base_dist has no edge, the scaled distance divided by rating + 1
   elsewhere.
   */
  method CalcScenicCost(base: Matrix, scenic: Matrix) returns (target: Matrix)
    requires IsCostMatrix(base) && IsScenicMatrix(scenic, |base|)
    ensures IsCostMatrix(target) && |target| == |base|
    ensures forall i :: 0 <= i < |target| ==> target[i][i] == 0
    ensures forall i, j :: 0 <= i < |target| && 0 <= j < |target| && i != j ==>
      (base[i][j] == INF ==> target[i][j] == INF) &&
      (base[i][j] != INF ==> target[i][j] == INF || target[i][j] == ScaledScenic(base[i][j], scenic[i][j])) &&
      (base[i][j] != INF && ScaledScenic(base[i][j], scenic[i][j]) < INF ==> target[i][j] == ScaledScenic(base[i][j], scenic[i][j]))
    ensures target == ScenicCostMatrix(base, scenic)
  {
    var n := |base|;
    target := seq(n, _ => seq(n, _ => 0));
    var i := 0;
    while i < n
      invariant 0 <= i <= n && |target| == n
      invariant forall k :: 0 <= k < n ==> |target[k]| == n
      invariant forall k, j :: 0 <= k < i && 0 <= j < n ==> target[k][j] == ScenicCostAt(base, scenic, k, j)
    {
      var row := target[i];
      var j := 0;
      while j < n
        invariant 0 <= j <= n && |row| == n
        invariant forall l :: 0 <= l < j ==> row[l] == ScenicCostAt(base, scenic, i, l)
      {
        if i == j {
          row := row[j := 0];
        } else if base[i][j] == INF {
          row := row[j := INF];
        } else {
          row := row[j := ScenicEntry(base[i][j], scenic[i][j])];
        }
        j := j + 1;
      }
      target := target[i := row];
      i := i + 1;
    }
    var c := ScenicCostMatrix(base, scenic);
    forall k | 0 <= k < n
      ensures target[k] == c[k]
    {
      assert forall j :: 0 <= j < n ==> target[k][j] == c[k][j];
    }
  }

  /** No finite edge's scenic cost reaches INF. */
  predicate NoScenicSaturation(base: Matrix, scenic: Matrix)
    requires IsCostMatrix(base) && IsScenicMatrix(scenic, |base|)
  {
    forall i, j :: 0 <= i < |base| && 0 <= j < |base| && base[i][j] != INF ==>
      ScaledScenic(base[i][j], scenic[i][j]) < INF
  }

  /**
   When no scenic cost saturates and every location reaches itself at
   distance 0, the scenic model has exactly the edges of the distance table,
   so it admits exactly the same walks.
   */
  lemma ScenicKeepsWalks(base: Matrix, scenic: Matrix, p: seq<nat>)
    requires IsCostMatrix(base) && IsScenicMatrix(scenic, |base|)
    requires forall i :: 0 <= i < |base| ==> base[i][i] == 0
    requires NoScenicSaturation(base, scenic)
    ensures IsWalk(base, p) <==> IsWalk(ScenicCostMatrix(base, scenic), p)
  {
    var c := ScenicCostMatrix(base, scenic);
    assert forall x, y :: 0 <= x < |base| && 0 <= y < |base| ==> (HasEdge(c, x, y) <==> HasEdge(base, x, y));
  }

  /** What an out-of-range 32-bit int product or sum becomes on the usual
      two's-complement targets: the value modulo 2^32. Signed overflow is
      undefined behaviour in C, so this is the common outcome, not a promise. */
  function Wrap32(x: int): (r: int)
    ensures INT_MIN <= r <= INF
    ensures (x - r) % 0x1_0000_0000 == 0
    ensures INT_MIN <= x <= INF ==> r == x
  {
    var low := x % 0x1_0000_0000;
    if low > INF then low - 0x1_0000_0000 else low
  }

  /** C's int division by a positive divisor: the quotient is truncated toward zero. */
  function DivTrunc(a: int, b: int): (q: int)
    requires b > 0
    ensures a >= 0 ==> q == a / b
    ensures a < 0 ==> q <= 0 && q == -((-a) / b)
  {
    if a >= 0 then a / b else -((-a) / b)
  }

  /** calc_scenic_cost's off-diagonal entry as written: the product
      base_dist * 10 is formed in 32-bit int before the division. Past INT_MAX
      that is signed overflow, undefined in C; this takes the wrap-around the
      usual two's-complement targets produce. */
  function ScenicEntryAsWritten(d: int, s: int): int
    requires 0 <= d < INF && 0 <= s < INF
  {
    DivTrunc(Wrap32(d * SCENIC_SCALE), s + 1)
  }

  /** A finite distance of 300000000 with rating 0 overflows the product; on a
      two's-complement target it wraps to a negative edge cost, while the
      saturating entry is the exact 3000000000 capped at INF. */
  lemma ScenicOverflowExample()
    ensures ScenicEntryAsWritten(300000000, 0) == -1294967296
    ensures ScenicEntry(300000000, 0) == INF
  {
  }

  /** Wherever the product fits in 32 bits, as-written and saturating entries coincide. */
  lemma ScenicEntryAgrees(d: int, s: int)
    requires 0 <= d < INF && 0 <= s < INF
    requires d * SCENIC_SCALE <= INF
    ensures ScenicEntryAsWritten(d, s) == ScenicEntry(d, s)
  {
    assert ScaledScenic(d, s) <= d * SCENIC_SCALE;
  }
}
