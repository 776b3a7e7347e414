/**
 The route choices that use only the integer cost models: each runs one
 search, reads the route back from the predecessor array and measures it.
 */
module Routes {
  import opened Graph
  import opened Parents
  import opened CostModels
  import opened Dijkstra
  import opened Bfs
  import opened Metrics

  /**
   "Shortest Route": Dijkstra over the distance table; when the destination
   is reached, the route read back is a cheapest walk and its reported
   distance is that walk's length.
   */
  method ShortestRoute(base: Matrix, start: nat, end: nat) returns (found: bool, path: seq<nat>, total: int)
    requires IsCostMatrix(base) && start < |base| && end < |base|
    ensures found <==> exists p :: IsWalkBetween(base, p, start, end) && WalkCost(base, p) < INF
    ensures found ==> IsWalkBetween(base, path, start, end) && total == WalkCost(base, path)
    ensures found ==> Distinct(path)
    ensures found ==> ShortestDistance(base, start, end, total)
    ensures !found ==> path == [] && total == 0
  {
    var target := UseBaseDist(base);
    var dist, parent;
    found, dist, parent := ShortestPath(target, start, end, false);
    if found {
      path := GetPath(parent, end);
      total := CalcTotalDist(base, path);
    } else {
      path, total := [], 0;
    }
  }

  /**
   "Fewest Stops": breadth-first search; when the destination is reachable,
   the route read back is a walk with the reported number of stops plus one
   locations, and no walk has fewer stops.
   */
  method FewestStopsRoute(base: Matrix, start: nat, end: nat) returns (stops: int, path: seq<nat>)
    requires IsSquare(base) && start < |base| && end < |base|
    ensures stops == -1 <==> !Connected(base, start, end)
    ensures stops != -1 ==> IsWalkBetween(base, path, start, end) && |path| == stops + 1
    ensures stops != -1 ==> Distinct(path)
    ensures stops != -1 ==> MinHops(base, start, end, stops)
    ensures stops == -1 ==> path == []
  {
    var parent;
    stops, parent := BfsShortest(base, start, end);
    if stops != -1 {
      path := GetPath(parent, end);
    } else {
      path := [];
    }
  }

  /**
   "Scenic Route": Dijkstra over the scenic cost model; when the destination
   is reached, the route read back is a cheapest walk in that model and its
   reported score is the sum of the ratings along it.
   */
  method ScenicRoute(base: Matrix, scenic: Matrix, start: nat, end: nat)
    returns (found: bool, path: seq<nat>, score: int)
    requires IsCostMatrix(base) && IsScenicMatrix(scenic, |base|) && start < |base| && end < |base|
    ensures found ==> IsWalkBetween(ScenicCostMatrix(base, scenic), path, start, end)
    ensures found ==> Distinct(path)
    ensures found ==> ShortestDistance(ScenicCostMatrix(base, scenic), start, end,
                                       WalkCost(ScenicCostMatrix(base, scenic), path))
    ensures found ==> score == WalkCost(scenic, path) && score >= 0
    ensures found <==> exists p :: IsWalkBetween(ScenicCostMatrix(base, scenic), p, start, end) &&
                                   WalkCost(ScenicCostMatrix(base, scenic), p) < INF
  {
    var target := CalcScenicCost(base, scenic);
    var dist, parent;
    found, dist, parent := ShortestPath(target, start, end, false);
    if found {
      path := GetPath(parent, end);
      score := CalcScenicScore(scenic, path);
    } else {
      path, score := [], 0;
    }
  }
}
