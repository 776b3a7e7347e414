/**
 The single-source search (shortest_path): Dijkstra's algorithm over a cost
 matrix, usable in A* mode with the heuristic, which in this configuration
 estimates nothing and so leaves the order of selection unchanged.
 */
module Dijkstra {
  import opened Graph
  import opened Parents

  /** heuristic: the estimated remaining cost from `node` to `goal`; this configuration supplies none. */
  function Heuristic(node: int, goal: int): int
  {
    0
  }

  /** The heuristic never overestimates the cost of any walk to the goal (it is admissible). */
  lemma HeuristicAdmissible(m: Matrix, p: seq<nat>, node: nat, goal: nat)
    requires IsCostMatrix(m) && IsWalkBetween(m, p, node, goal)
    ensures Heuristic(node, goal) <= WalkCost(m, p)
  {
    WalkCostNonNegative(m, p);
  }

  /** A location find_min_node may select: not yet visited and with a finite cost. */
  predicate Candidate(cost: seq<int>, visited: seq<bool>, v: int)
    requires |cost| == |visited|
  {
    0 <= v < |cost| && !visited[v] && cost[v] != INF
  }

  /**
   find_min_node: scans the locations in index order and keeps the first
   candidate of strictly smaller score, the score being the cost plus the
   heuristic in A* mode (saturated to INF when the sum would not fit).
   */
  method FindMinNode(cost: seq<int>, visited: seq<bool>, goal: int, useH: bool) returns (minIdx: int)
    requires |cost| == |visited|
    requires forall v :: 0 <= v < |cost| ==> cost[v] <= INF
    ensures -1 <= minIdx < |cost|
    ensures minIdx == -1 <==> forall v :: 0 <= v < |cost| ==> !Candidate(cost, visited, v)
    ensures minIdx != -1 ==> Candidate(cost, visited, minIdx)
    ensures minIdx != -1 ==> forall v :: Candidate(cost, visited, v) ==> cost[minIdx] <= cost[v]
    ensures minIdx != -1 ==> forall v :: 0 <= v < minIdx && Candidate(cost, visited, v) ==> cost[minIdx] < cost[v]
  {
    var minF := INF;
    minIdx := -1;
    var v := 0;
    while v < |cost|
      invariant 0 <= v <= |cost| && -1 <= minIdx < v
      invariant minIdx == -1 <==> forall w :: 0 <= w < v ==> !Candidate(cost, visited, w)
      invariant minIdx == -1 ==> minF == INF
      invariant minIdx != -1 ==> Candidate(cost, visited, minIdx) && minF == cost[minIdx]
      invariant forall w :: 0 <= w < v && Candidate(cost, visited, w) ==> minF <= cost[w]
      invariant forall w :: 0 <= w < minIdx && Candidate(cost, visited, w) ==> minF < cost[w]
    {
      if !visited[v] && cost[v] != INF {
        var f := cost[v];
        if useH {
          var h := Heuristic(v, goal);
          if h != INF && cost[v] <= INF - h {
            f := f + h;
          } else {
            f := INF;
          }
        }
        assert f == cost[v];
        if f < minF {
          minF := f;
          minIdx := v;
        }
      }
      assert Candidate(cost, visited, v) ==> minIdx != -1;
      v := v + 1;
    }
  }

  /** Relaxing the edge from `u` lowers the tentative distance of `v`. */
  predicate Improves(m: Matrix, u: nat, dist: seq<int>, visited: seq<bool>, v: nat)
    requires IsSquare(m) && u < |m| && v < |m| && |dist| == |m| && |visited| == |m|
  {
    !visited[v] && m[u][v] != INF && dist[u] != INF && dist[u] + m[u][v] < dist[v]
  }

  /** The outcome of relaxing every edge out of `u`: exactly the improvable
      locations take the sum through `u` and `u` as predecessor, the rest keep
      their entries, so no distance grows and visited entries stay put. */
  predicate Relaxed(m: Matrix, u: nat, dist: seq<int>, parent: seq<int>, visited: seq<bool>,
                    dist': seq<int>, parent': seq<int>)
    requires IsCostMatrix(m) && u < |m|
    requires |dist| == |m| && |parent| == |m| && |visited| == |m|
  {
    (|dist'| == |m| && |parent'| == |m|) &&
    (forall v :: 0 <= v < |m| ==>
      if Improves(m, u, dist, visited, v)
      then dist'[v] == dist[u] + m[u][v] && parent'[v] == u
      else dist'[v] == dist[v] && parent'[v] == parent[v]) &&
    (forall v :: 0 <= v < |m| ==> dist'[v] <= dist[v]) &&
    (forall v :: 0 <= v < |m| && visited[v] ==> dist'[v] == dist[v] && parent'[v] == parent[v]) &&
    (dist[u] != INF ==>
      forall v :: 0 <= v < |m| && !visited[v] && m[u][v] != INF ==> dist'[v] <= dist[u] + m[u][v])
  }

  /**
   The relaxation loop of shortest_path: for every unvisited `v` reached by a
   finite edge from `u`, a sum below dist[v] (computed in 64 bits and
   saturated to INF) replaces dist[v] and makes `u` the predecessor of `v`.
   */
  method RelaxEdges(m: Matrix, u: nat, dist: seq<int>, parent: seq<int>, visited: seq<bool>)
    returns (dist': seq<int>, parent': seq<int>)
    requires IsCostMatrix(m) && u < |m|
    requires |dist| == |m| && |parent| == |m| && |visited| == |m|
    requires forall v :: 0 <= v < |m| ==> dist[v] <= INF
    ensures Relaxed(m, u, dist, parent, visited, dist', parent')
  {
    dist', parent' := dist, parent;
    var v := 0;
    while v < |m|
      invariant 0 <= v <= |m| && |dist'| == |m| && |parent'| == |m|
      invariant forall w :: 0 <= w < v ==>
        if Improves(m, u, dist, visited, w)
        then dist'[w] == dist[u] + m[u][w] && parent'[w] == u
        else dist'[w] == dist[w] && parent'[w] == parent[w]
      invariant forall w :: v <= w < |m| ==> dist'[w] == dist[w] && parent'[w] == parent[w]
    {
      assert dist'[u] == dist[u];
      if !visited[v] && m[u][v] != INF && dist'[u] != INF {
        var pathDist := dist'[u] + m[u][v];
        if pathDist < dist'[v] {
          dist' := dist'[v := if pathDist <= INF then pathDist else INF];
          parent' := parent'[v := u];
        }
      }
      v := v + 1;
    }
  }

  /**
   The optimality argument: a walk from `src` to a location not yet visited
   leaves the visited set along some finite edge x -> y; it costs at least
   dist[x] up to x, hence at least dist[y], hence at least `lo`.
   */
  lemma {:induction false} ExitCostBound(m: Matrix, src: nat, visited: seq<bool>, dist: seq<int>, lo: int, p: seq<nat>)
    requires IsCostMatrix(m) && src < |m| && |visited| == |m| && |dist| == |m|
    requires dist[src] == 0
    requires forall y :: 0 <= y < |m| && !visited[y] ==> dist[y] >= lo
    requires forall x :: 0 <= x < |m| && visited[x] ==> CostLowerBound(m, src, x, dist[x])
    requires forall x, y :: 0 <= x < |m| && 0 <= y < |m| && visited[x] && !visited[y] && m[x][y] != INF ==>
      dist[y] <= dist[x] + m[x][y]
    requires IsWalk(m, p) && p[0] == src && !visited[p[|p| - 1]]
    ensures WalkCost(m, p) >= lo
    decreases |p|
  {
    if |p| > 1 {
      var q := p[..|p| - 1];
      var x, y := p[|p| - 2], p[|p| - 1];
      WalkDropLast(m, p);
      assert HasEdge(m, p[|p| - 2], p[|p| - 1]);
      if visited[x] {
        assert IsWalkBetween(m, q, src, x);
      } else {
        ExitCostBound(m, src, visited, dist, lo, q);
      }
    }
  }

  /** Every walk to an unvisited location costs at least the least open distance `lo`. */
  lemma UnvisitedLowerBound(m: Matrix, src: nat, visited: seq<bool>, dist: seq<int>, lo: int)
    requires IsCostMatrix(m) && src < |m| && |visited| == |m| && |dist| == |m|
    requires dist[src] == 0
    requires forall y :: 0 <= y < |m| && !visited[y] ==> dist[y] >= lo
    requires forall x :: 0 <= x < |m| && visited[x] ==> CostLowerBound(m, src, x, dist[x])
    requires forall x, y :: 0 <= x < |m| && 0 <= y < |m| && visited[x] && !visited[y] && m[x][y] != INF ==>
      dist[y] <= dist[x] + m[x][y]
    ensures forall w :: 0 <= w < |m| && !visited[w] ==> CostLowerBound(m, src, w, lo)
  {
    forall w | 0 <= w < |m| && !visited[w]
      ensures CostLowerBound(m, src, w, lo)
    {
      forall p | IsWalkBetween(m, p, src, w)
        ensures WalkCost(m, p) >= lo
      {
        ExitCostBound(m, src, visited, dist, lo, p);
      }
    }
  }

  /** Following the predecessor links from a location of finite distance walks back
      to the source, and that walk costs exactly the recorded distance. */
  lemma {:induction false} ChainCost(m: Matrix, src: nat, parent: seq<int>, dist: seq<int>, v: nat, fuel: nat)
    requires IsCostMatrix(m) && src < |m| && v < |m|
    requires ValidParents(parent) && |parent| == |m| && |dist| == |m|
    requires dist[src] == 0
    requires forall x :: 0 <= x < |m| && parent[x] != -1 ==>
      m[parent[x]][x] != INF && dist[x] == dist[parent[x]] + m[parent[x]][x]
    requires forall x :: 0 <= x < |m| && x != src && dist[x] < INF ==> parent[x] != -1
    requires Ancestor(parent, v, fuel + 1) == -1 && dist[v] < INF
    ensures IsWalkBetween(m, ChainFrom(parent, v, fuel), src, v)
    ensures WalkCost(m, ChainFrom(parent, v, fuel)) == dist[v]
    decreases fuel
  {
    if parent[v] != -1 {
      var u := parent[v];
      AncestorShift(parent, v, fuel);
      ChainCost(m, src, parent, dist, u, fuel - 1);
      var q := ChainFrom(parent, u, fuel - 1);
      assert ChainFrom(parent, v, fuel) == q + [v];
      WalkExtend(m, q, v);
      WalkExtendCost(m, q, v);
    }
  }

  /**
   What holds between rounds of shortest_path once `count` locations are
   visited: every visited location has a finite distance no walk undercuts;
   every recorded predecessor is visited and its distance plus the edge is
   the location's distance; every finite distance other than the source's has
   a predecessor; no finite edge out of the visited set leads to a larger
   distance than the sum along it; and a ghost rank, the round in which a
   location was visited, strictly grows along predecessor links.
   */
  ghost predicate SearchInv(m: Matrix, src: nat, count: int, dist: seq<int>, visited: seq<bool>,
                            parent: seq<int>, rank: seq<nat>)
    requires IsCostMatrix(m) && src < |m|
  {
    var n := |m|;
    0 <= count <= n && |dist| == n && |visited| == n && |parent| == n && |rank| == n &&
    CountTrue(visited) == count &&
    dist[src] == 0 && parent[src] == -1 &&
    (forall v :: 0 <= v < n ==> 0 <= dist[v] <= INF && -1 <= parent[v] < n) &&
    (forall v :: 0 <= v < n && visited[v] ==>
      dist[v] < INF && rank[v] < count && CostLowerBound(m, src, v, dist[v])) &&
    (forall v :: 0 <= v < n && parent[v] != -1 ==>
      visited[parent[v]] && m[parent[v]][v] != INF && dist[v] == dist[parent[v]] + m[parent[v]][v] &&
      dist[v] < INF &&
      (visited[v] ==> rank[parent[v]] < rank[v])) &&
    (forall v :: 0 <= v < n && v != src && dist[v] < INF ==> parent[v] != -1) &&
    (forall x, y :: 0 <= x < n && 0 <= y < n && visited[x] && !visited[y] && m[x][y] != INF ==>
      dist[y] <= dist[x] + m[x][y])
  }

  /** When no unvisited location has a finite distance, every distance is final. */
  lemma SearchExhausted(m: Matrix, src: nat, count: int, dist: seq<int>, visited: seq<bool>,
                        parent: seq<int>, rank: seq<nat>)
    requires IsCostMatrix(m) && src < |m| && SearchInv(m, src, count, dist, visited, parent, rank)
    requires forall v :: 0 <= v < |dist| ==> !Candidate(dist, visited, v)
    ensures forall v :: 0 <= v < |m| ==> CostLowerBound(m, src, v, dist[v])
  {
    forall y | 0 <= y < |m| && !visited[y]
      ensures dist[y] >= INF
    {
      assert !Candidate(dist, visited, y);
    }
    UnvisitedLowerBound(m, src, visited, dist, INF);
  }

  /** The unvisited location of least distance has its final distance. */
  lemma SearchSettles(m: Matrix, src: nat, count: int, dist: seq<int>, visited: seq<bool>,
                      parent: seq<int>, rank: seq<nat>, u: nat)
    requires IsCostMatrix(m) && src < |m| && SearchInv(m, src, count, dist, visited, parent, rank)
    requires Candidate(dist, visited, u)
    requires forall v :: Candidate(dist, visited, v) ==> dist[u] <= dist[v]
    ensures forall w :: 0 <= w < |m| && !visited[w] ==> CostLowerBound(m, src, w, dist[u])
    ensures CostLowerBound(m, src, u, dist[u])
  {
    assert forall y :: 0 <= y < |m| && !visited[y] ==> dist[y] >= dist[u] by {
      forall y | 0 <= y < |m| && !visited[y]
        ensures dist[y] >= dist[u]
      {
        if dist[y] != INF {
          assert Candidate(dist, visited, y);
        }
      }
    }
    UnvisitedLowerBound(m, src, visited, dist, dist[u]);
  }

  /** One round of shortest_path, visiting the least candidate `u` and relaxing its edges, keeps SearchInv. */
  lemma SearchStep(m: Matrix, src: nat, count: int, dist: seq<int>, visited: seq<bool>,
                   parent: seq<int>, rank: seq<nat>, u: nat, dist': seq<int>, parent': seq<int>)
    requires IsCostMatrix(m) && src < |m| && SearchInv(m, src, count, dist, visited, parent, rank)
    requires Candidate(dist, visited, u)
    requires forall v :: Candidate(dist, visited, v) ==> dist[u] <= dist[v]
    requires Relaxed(m, u, dist, parent, visited[u := true], dist', parent')
    ensures SearchInv(m, src, count + 1, dist', visited[u := true], parent', rank[u := count])
  {
    StepKeepsCounts(m, src, count, dist, visited, parent, rank, u, dist', parent');
    StepKeepsSettled(m, src, count, dist, visited, parent, rank, u, dist', parent');
    StepKeepsLinks(m, src, count, dist, visited, parent, rank, u, dist', parent');
    StepKeepsFrontier(m, src, count, dist, visited, parent, rank, u, dist', parent');
  }

  /** The sizes, the visit count, the source's entries and the entry bounds survive a round. */
  lemma StepKeepsCounts(m: Matrix, src: nat, count: int, dist: seq<int>, visited: seq<bool>,
                   parent: seq<int>, rank: seq<nat>, u: nat, dist': seq<int>, parent': seq<int>)
    requires IsCostMatrix(m) && src < |m| && SearchInv(m, src, count, dist, visited, parent, rank)
    requires Candidate(dist, visited, u)
    requires forall v :: Candidate(dist, visited, v) ==> dist[u] <= dist[v]
    requires Relaxed(m, u, dist, parent, visited[u := true], dist', parent')
    ensures |dist'| == |m| && |visited[u := true]| == |m| && |parent'| == |m| && |rank[u := count]| == |m|
    ensures 0 <= count + 1 <= |m| && CountTrue(visited[u := true]) == count + 1
    ensures dist'[src] == 0 && parent'[src] == -1
    ensures forall v :: 0 <= v < |m| ==> 0 <= dist'[v] <= INF && -1 <= parent'[v] < |m|
    ensures forall v :: 0 <= v < |m| && v != src && dist'[v] < INF ==> parent'[v] != -1
  {
    CountTrueMark(visited, u);
  }

  /** After a round the visited locations, `u` now among them, hold final distances. */
  lemma StepKeepsSettled(m: Matrix, src: nat, count: int, dist: seq<int>, visited: seq<bool>,
                   parent: seq<int>, rank: seq<nat>, u: nat, dist': seq<int>, parent': seq<int>)
    requires IsCostMatrix(m) && src < |m| && SearchInv(m, src, count, dist, visited, parent, rank)
    requires Candidate(dist, visited, u)
    requires forall v :: Candidate(dist, visited, v) ==> dist[u] <= dist[v]
    requires Relaxed(m, u, dist, parent, visited[u := true], dist', parent')
    ensures forall v :: 0 <= v < |m| && visited[u := true][v] ==>
      dist'[v] < INF && rank[u := count][v] < count + 1 && CostLowerBound(m, src, v, dist'[v])
  {
    SearchSettles(m, src, count, dist, visited, parent, rank, u);
  }

  /** After a round every predecessor link is still visited, exact and rank-increasing. */
  lemma StepKeepsLinks(m: Matrix, src: nat, count: int, dist: seq<int>, visited: seq<bool>,
                   parent: seq<int>, rank: seq<nat>, u: nat, dist': seq<int>, parent': seq<int>)
    requires IsCostMatrix(m) && src < |m| && SearchInv(m, src, count, dist, visited, parent, rank)
    requires Candidate(dist, visited, u)
    requires forall v :: Candidate(dist, visited, v) ==> dist[u] <= dist[v]
    requires Relaxed(m, u, dist, parent, visited[u := true], dist', parent')
    ensures forall v :: 0 <= v < |m| && parent'[v] != -1 ==>
      -1 <= parent'[v] < |m| && visited[u := true][parent'[v]] && m[parent'[v]][v] != INF &&
      dist'[v] == dist'[parent'[v]] + m[parent'[v]][v] && dist'[v] < INF &&
      (visited[u := true][v] ==> rank[u := count][parent'[v]] < rank[u := count][v])
  {
  }

  /** After a round no finite edge out of the visited set undercuts its target's distance. */
  lemma StepKeepsFrontier(m: Matrix, src: nat, count: int, dist: seq<int>, visited: seq<bool>,
                   parent: seq<int>, rank: seq<nat>, u: nat, dist': seq<int>, parent': seq<int>)
    requires IsCostMatrix(m) && src < |m| && SearchInv(m, src, count, dist, visited, parent, rank)
    requires Candidate(dist, visited, u)
    requires forall v :: Candidate(dist, visited, v) ==> dist[u] <= dist[v]
    requires Relaxed(m, u, dist, parent, visited[u := true], dist', parent')
    ensures forall x, y ::
      0 <= x < |m| && 0 <= y < |m| && visited[u := true][x] && !visited[u := true][y] && m[x][y] != INF ==>
      dist'[y] <= dist'[x] + m[x][y]
  {
  }

  /** The distances the search promises: all of them, or in A* mode the goal's. */
  ghost predicate Settled(m: Matrix, src: nat, goal: nat, useH: bool, dist: seq<int>)
    requires IsSquare(m) && |dist| == |m| && goal < |m|
  {
    forall v :: 0 <= v < |m| && (!useH || v == goal) ==> CostLowerBound(m, src, v, dist[v])
  }

  /** Once every location is visited, every distance is final. */
  lemma SearchComplete(m: Matrix, src: nat, count: int, dist: seq<int>, visited: seq<bool>,
                       parent: seq<int>, rank: seq<nat>)
    requires IsCostMatrix(m) && src < |m| && SearchInv(m, src, count, dist, visited, parent, rank)
    requires count == |m|
    ensures forall v :: 0 <= v < |m| ==> CostLowerBound(m, src, v, dist[v])
  {
  }

  /** What the search leaves once its distances are settled: the shortest
      distances, the exact predecessor links, acyclic chains, and for each
      finite distance the chain walk that attains it. */
  lemma SearchResult(m: Matrix, src: nat, goal: nat, useH: bool, count: int, dist: seq<int>,
                     visited: seq<bool>, parent: seq<int>, rank: seq<nat>)
    requires IsCostMatrix(m) && src < |m| && goal < |m|
    requires SearchInv(m, src, count, dist, visited, parent, rank)
    requires Settled(m, src, goal, useH, dist)
    ensures ValidParents(parent)
    ensures ShortestDistance(m, src, goal, dist[goal])
    ensures !useH ==> forall v :: 0 <= v < |m| ==> ShortestDistance(m, src, v, dist[v])
    ensures forall v :: 0 <= v < |m| ==> Rooted(parent, v)
    ensures forall v :: 0 <= v < |m| && dist[v] < INF ==>
      IsWalkBetween(m, ChainPath(parent, v), src, v) && WalkCost(m, ChainPath(parent, v)) == dist[v]
  {
    var r := FinalRank(m, src, count, dist, visited, parent, rank);
    DijkstraChains(m, src, dist, parent, r);
    forall v | 0 <= v < |m| && (!useH || v == goal)
      ensures ShortestDistance(m, src, v, dist[v])
    {
      if dist[v] < INF {
        assert IsWalkBetween(m, ChainPath(parent, v), src, v) && WalkCost(m, ChainPath(parent, v)) == dist[v];
      }
    }
  }

  /** The visit rounds, with the unvisited locations placed last, rank the
      predecessor array below |m| and strictly increase along its links. */
  lemma FinalRank(m: Matrix, src: nat, count: int, dist: seq<int>, visited: seq<bool>,
                  parent: seq<int>, rank: seq<nat>) returns (r: seq<nat>)
    requires IsCostMatrix(m) && src < |m|
    requires SearchInv(m, src, count, dist, visited, parent, rank)
    ensures |r| == |m|
    ensures forall x :: 0 <= x < |m| ==> r[x] < |m|
    ensures forall x :: 0 <= x < |m| && parent[x] != -1 ==> r[parent[x]] < r[x]
  {
    var n := |m|;
    r := seq(n, i requires 0 <= i < n => if visited[i] then rank[i] else n - 1);
  }

  /** The predecessor array left by the search is acyclic, and every location of
      finite distance is reached from the source by its chain at exactly that cost. */
  lemma DijkstraChains(m: Matrix, src: nat, dist: seq<int>, parent: seq<int>, rank: seq<nat>)
    requires IsCostMatrix(m) && src < |m|
    requires ValidParents(parent) && |parent| == |m| && |dist| == |m| && |rank| == |m|
    requires dist[src] == 0
    requires forall x :: 0 <= x < |m| && parent[x] != -1 ==>
      m[parent[x]][x] != INF && dist[x] == dist[parent[x]] + m[parent[x]][x]
    requires forall x :: 0 <= x < |m| && x != src && dist[x] < INF ==> parent[x] != -1
    requires forall x :: 0 <= x < |m| ==> rank[x] < |m|
    requires forall x :: 0 <= x < |m| && parent[x] != -1 ==> rank[parent[x]] < rank[x]
    ensures forall v :: 0 <= v < |m| ==> Rooted(parent, v)
    ensures forall v :: 0 <= v < |m| && dist[v] < INF ==>
      IsWalkBetween(m, ChainPath(parent, v), src, v) && WalkCost(m, ChainPath(parent, v)) == dist[v]
  {
    forall v | 0 <= v < |m|
      ensures Rooted(parent, v)
    {
      RankedRooted(parent, rank, v);
    }
    forall v | 0 <= v < |m| && dist[v] < INF
      ensures IsWalkBetween(m, ChainPath(parent, v), src, v) && WalkCost(m, ChainPath(parent, v)) == dist[v]
    {
      ChainPathCost(m, src, parent, dist, v);
    }
  }

  /** ChainCost at the full fuel of ChainPath. */
  lemma ChainPathCost(m: Matrix, src: nat, parent: seq<int>, dist: seq<int>, v: nat)
    requires IsCostMatrix(m) && src < |m| && v < |m|
    requires ValidParents(parent) && |parent| == |m| && |dist| == |m|
    requires dist[src] == 0
    requires forall x :: 0 <= x < |m| && parent[x] != -1 ==>
      m[parent[x]][x] != INF && dist[x] == dist[parent[x]] + m[parent[x]][x]
    requires forall x :: 0 <= x < |m| && x != src && dist[x] < INF ==> parent[x] != -1
    requires Rooted(parent, v) && dist[v] < INF
    ensures IsWalkBetween(m, ChainPath(parent, v), src, v) && WalkCost(m, ChainPath(parent, v)) == dist[v]
  {
    AncestorEnded(parent, v, |parent|, |parent| + 1);
    ChainCost(m, src, parent, dist, v, |parent|);
  }

  /**
   shortest_path: Dijkstra's algorithm from `src`. Starting from dist[src] = 0
   and INF / -1 elsewhere, each round selects the unvisited location of least
   finite distance, marks it visited and relaxes its edges; the search stops
   when no such location remains, after |m| rounds, or in A* mode once the
   selected location is the goal.
   */
  method ShortestPath(m: Matrix, src: nat, goal: nat, useH: bool)
    returns (reached: bool, dist: seq<int>, parent: seq<int>)
    requires IsCostMatrix(m) && src < |m| && goal < |m|
    ensures |dist| == |m| && |parent| == |m| && ValidParents(parent)
    ensures reached <==> dist[goal] != INF
    ensures dist[src] == 0 && parent[src] == -1
    ensures ShortestDistance(m, src, goal, dist[goal])
    ensures reached <==> exists p :: IsWalkBetween(m, p, src, goal) && WalkCost(m, p) < INF
    ensures !useH ==> forall v :: 0 <= v < |m| ==> ShortestDistance(m, src, v, dist[v])
    ensures forall v :: 0 <= v < |m| && parent[v] != -1 ==>
      m[parent[v]][v] != INF && dist[v] == dist[parent[v]] + m[parent[v]][v]
    ensures forall v :: 0 <= v < |m| && dist[v] == INF ==> parent[v] == -1
    ensures forall v :: 0 <= v < |m| ==> Rooted(parent, v)
    ensures forall v :: 0 <= v < |m| && dist[v] < INF ==>
      IsWalkBetween(m, ChainPath(parent, v), src, v) && WalkCost(m, ChainPath(parent, v)) == dist[v]
  {
    var n := |m|;
    dist := seq(n, _ => INF);
    var visited := seq(n, _ => false);
    parent := seq(n, _ => -1);
    dist := dist[src := 0];
    ghost var rank: seq<nat> := seq(n, _ => 0);
    var count := 0;
    CountTrueNone(visited);
    assert forall v :: 0 <= v < n && v != src ==> dist[v] == INF;
    while count < n
      invariant SearchInv(m, src, count, dist, visited, parent, rank)
      invariant count == n ==> Settled(m, src, goal, useH, dist)
    {
      var u := FindMinNode(dist, visited, goal, useH);
      if u == -1 || dist[u] == INF {
        assert u == -1;
        SearchExhausted(m, src, count, dist, visited, parent, rank);
        assert Settled(m, src, goal, useH, dist);
        break;
      }
      if useH && u == goal {
        SearchSettles(m, src, count, dist, visited, parent, rank, u);
        assert Settled(m, src, goal, useH, dist);
        break;
      }
      var visited' := visited[u := true];
      var dist', parent' := RelaxEdges(m, u, dist, parent, visited');
      SearchStep(m, src, count, dist, visited, parent, rank, u, dist', parent');
      dist, visited, parent, rank := dist', visited', parent', rank[u := count];
      count := count + 1;
      if count == n {
        SearchComplete(m, src, count, dist, visited, parent, rank);
      }
    }
    SearchResult(m, src, goal, useH, count, dist, visited, parent, rank);
    reached := dist[goal] != INF;
    ShortestDistanceFinite(m, src, goal, dist[goal]);
  }
}
