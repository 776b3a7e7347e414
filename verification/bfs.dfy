/**
 The fewest-stops search (bfs_shortest): a breadth-first search over the
 edges of the distance table, ignoring their lengths, that marks a location
 visited, with its hop count and predecessor, when it is first discovered,
 and answers as soon as the destination is taken off the queue.
 */
module Bfs {
  import opened Graph
  import opened Parents
  import opened RingQueues

  /**
   The labels bfs_shortest keeps at every point: the start is visited at 0
   hops without predecessor; an unvisited location has hops -1 and no
   predecessor; a visited one has a hop count no walk undercuts, below the
   number of visited locations; each predecessor is visited, joined by an
   edge, and one hop closer; and every visited location but the start has one.
   */
  ghost predicate Labelled(m: Matrix, start: nat, visited: seq<bool>, hops: seq<int>, parent: seq<int>)
    requires IsSquare(m) && start < |m|
  {
    var n := |m|;
    |visited| == n && |hops| == n && |parent| == n &&
    visited[start] && hops[start] == 0 && parent[start] == -1 &&
    (forall v :: 0 <= v < n && !visited[v] ==> hops[v] == -1 && parent[v] == -1) &&
    (forall v :: 0 <= v < n && visited[v] ==>
      0 <= hops[v] < CountTrue(visited) && HopLowerBound(m, start, v, hops[v])) &&
    (forall v :: 0 <= v < n && parent[v] != -1 ==>
      0 <= parent[v] < n && visited[parent[v]] && HasEdge(m, parent[v], v) && hops[v] == hops[parent[v]] + 1) &&
    (forall v :: 0 <= v < n && visited[v] && v != start ==> parent[v] != -1)
  }

  /** The queue holds distinct visited locations in non-decreasing order of hops. */
  ghost predicate QueueShape(m: Matrix, visited: seq<bool>, hops: seq<int>, q: seq<int>)
    requires |visited| == |m| && |hops| == |m|
  {
    (forall i :: 0 <= i < |q| ==> 0 <= q[i] < |m| && visited[q[i]]) &&
    (forall i, j :: 0 <= i < j < |q| ==> q[i] != q[j] && hops[q[i]] <= hops[q[j]])
  }

  /** Every queued hop count is `lo` or `lo + 1`. */
  ghost predicate Within(m: Matrix, hops: seq<int>, q: seq<int>, lo: int)
    requires |hops| == |m|
    requires forall i :: 0 <= i < |q| ==> 0 <= q[i] < |m|
  {
    forall i :: 0 <= i < |q| ==> lo <= hops[q[i]] <= lo + 1
  }

  /** Every visited location that is neither queued nor `u` has all its neighbours visited. */
  ghost predicate ClosedOutside(m: Matrix, visited: seq<bool>, q: seq<int>, u: int)
    requires IsSquare(m) && |visited| == |m|
  {
    forall x, y :: 0 <= x < |m| && 0 <= y < |m| && visited[x] && x !in q && x != u && HasEdge(m, x, y) ==> visited[y]
  }

  /** Between rounds: `deq` locations have been taken off the queue `q`. */
  ghost predicate Waiting(m: Matrix, start: nat, end: nat, visited: seq<bool>, hops: seq<int>, parent: seq<int>,
                          q: seq<int>, deq: nat)
    requires IsSquare(m) && start < |m| && end < |m|
  {
    Labelled(m, start, visited, hops, parent) &&
    QueueShape(m, visited, hops, q) &&
    (|q| > 0 ==> Within(m, hops, q, hops[q[0]])) &&
    ClosedOutside(m, visited, q, -1) &&
    (visited[end] ==> end in q) &&
    |q| + deq == CountTrue(visited)
  }

  /** While the edges of `u` are scanned, those below `v` already lead to visited locations. */
  ghost predicate Scanning(m: Matrix, start: nat, end: nat, visited: seq<bool>, hops: seq<int>, parent: seq<int>,
                           q: seq<int>, u: nat, v: nat, deq: nat)
    requires IsSquare(m) && start < |m| && end < |m|
  {
    Labelled(m, start, visited, hops, parent) &&
    u < |m| && v <= |m| && visited[u] && u !in q && u != end &&
    QueueShape(m, visited, hops, q) &&
    Within(m, hops, q, hops[u]) &&
    ClosedOutside(m, visited, q, u) &&
    (forall w :: 0 <= w < v && HasEdge(m, u, w) ==> visited[w]) &&
    (visited[end] ==> end in q) &&
    |q| + deq == CountTrue(visited)
  }

  /**
   The breadth-first argument: a walk from the start to an unvisited location
   leaves the visited set along some edge x -> y; if every such x has at least
   `lo` hops, the walk up to x has at least `lo` edges, so the whole walk has
   at least `lo + 1`.
   */
  lemma {:induction false} ExitHopBound(m: Matrix, start: nat, visited: seq<bool>, hops: seq<int>, lo: int,
                                        p: seq<nat>)
    requires IsSquare(m) && start < |m| && |visited| == |m| && |hops| == |m|
    requires visited[start]
    requires forall x :: 0 <= x < |m| && visited[x] ==> HopLowerBound(m, start, x, hops[x])
    requires forall x, y :: 0 <= x < |m| && 0 <= y < |m| && visited[x] && !visited[y] && HasEdge(m, x, y) ==>
      hops[x] >= lo
    requires IsWalk(m, p) && p[0] == start && !visited[p[|p| - 1]]
    ensures |p| - 1 >= lo + 1
    decreases |p|
  {
    var q := p[..|p| - 1];
    WalkDropLast(m, p);
    assert HasEdge(m, p[|p| - 2], p[|p| - 1]);
    if visited[p[|p| - 2]] {
      assert IsWalkBetween(m, q, start, p[|p| - 2]);
    } else {
      ExitHopBound(m, start, visited, hops, lo, q);
    }
  }

  /** A walk that starts in a set closed under edges never leaves it. */
  lemma {:induction false} ClosedReach(m: Matrix, visited: seq<bool>, p: seq<nat>)
    requires IsSquare(m) && |visited| == |m| && IsWalk(m, p) && visited[p[0]]
    requires forall x, y :: 0 <= x < |m| && 0 <= y < |m| && visited[x] && HasEdge(m, x, y) ==> visited[y]
    ensures visited[p[|p| - 1]]
    decreases |p|
  {
    if |p| > 1 {
      WalkDropLast(m, p);
      ClosedReach(m, visited, p[..|p| - 1]);
      assert HasEdge(m, p[|p| - 2], p[|p| - 1]);
    }
  }

  /** Following the predecessor links from a visited location walks back to the
      start in exactly its hop count of edges. */
  lemma {:induction false} HopChain(m: Matrix, start: nat, visited: seq<bool>, hops: seq<int>, parent: seq<int>,
                                    v: nat, fuel: nat)
    requires IsSquare(m) && start < |m| && v < |m|
    requires ValidParents(parent) && |parent| == |m| && |hops| == |m| && |visited| == |m|
    requires hops[start] == 0
    requires forall x :: 0 <= x < |m| && parent[x] != -1 ==>
      HasEdge(m, parent[x], x) && hops[x] == hops[parent[x]] + 1 && visited[parent[x]]
    requires forall x :: 0 <= x < |m| && visited[x] && x != start ==> parent[x] != -1
    requires visited[v] && Ancestor(parent, v, fuel + 1) == -1
    ensures IsWalkBetween(m, ChainFrom(parent, v, fuel), start, v)
    ensures |ChainFrom(parent, v, fuel)| == hops[v] + 1
    decreases fuel
  {
    if parent[v] != -1 {
      var u := parent[v];
      AncestorShift(parent, v, fuel);
      HopChain(m, start, visited, hops, parent, u, fuel - 1);
      var q := ChainFrom(parent, u, fuel - 1);
      assert ChainFrom(parent, v, fuel) == q + [v];
      WalkExtend(m, q, v);
    }
  }

  /** The labels determine a valid, acyclic predecessor array whose chain to each
      visited location is a walk from the start with hops + 1 locations. */
  lemma BfsChains(m: Matrix, start: nat, visited: seq<bool>, hops: seq<int>, parent: seq<int>)
    requires IsSquare(m) && start < |m| && Labelled(m, start, visited, hops, parent)
    ensures ValidParents(parent)
    ensures forall v :: 0 <= v < |m| ==> Rooted(parent, v)
    ensures forall v :: 0 <= v < |m| && visited[v] ==>
      IsWalkBetween(m, ChainPath(parent, v), start, v) && |ChainPath(parent, v)| == hops[v] + 1
  {
    var n := |m|;
    assert ValidParents(parent);
    assert hops[start] == 0;
    assert forall x :: 0 <= x < n && parent[x] != -1 ==>
      HasEdge(m, parent[x], x) && hops[x] == hops[parent[x]] + 1 && visited[parent[x]];
    assert forall x :: 0 <= x < n && visited[x] && x != start ==> parent[x] != -1;
    var r := seq(n, i requires 0 <= i < n => if visited[i] then hops[i] as nat else 0);
    forall v | 0 <= v < n
      ensures Rooted(parent, v)
    {
      RankedRooted(parent, r, v);
    }
    forall v | 0 <= v < n && visited[v]
      ensures IsWalkBetween(m, ChainPath(parent, v), start, v) && |ChainPath(parent, v)| == hops[v] + 1
    {
      HopChainPath(m, start, visited, hops, parent, v);
    }
  }

  /** HopChain at the full fuel of ChainPath. */
  lemma HopChainPath(m: Matrix, start: nat, visited: seq<bool>, hops: seq<int>, parent: seq<int>, v: nat)
    requires IsSquare(m) && start < |m| && v < |m|
    requires ValidParents(parent) && |parent| == |m| && |hops| == |m| && |visited| == |m|
    requires hops[start] == 0
    requires forall x :: 0 <= x < |m| && parent[x] != -1 ==>
      HasEdge(m, parent[x], x) && hops[x] == hops[parent[x]] + 1 && visited[parent[x]]
    requires forall x :: 0 <= x < |m| && visited[x] && x != start ==> parent[x] != -1
    requires visited[v] && Rooted(parent, v)
    ensures IsWalkBetween(m, ChainPath(parent, v), start, v) && |ChainPath(parent, v)| == hops[v] + 1
  {
    AncestorEnded(parent, v, |parent|, |parent| + 1);
    HopChain(m, start, visited, hops, parent, v, |parent|);
  }

  /** After the start is marked and queued, the round invariant holds. */
  lemma BfsBegin(m: Matrix, start: nat, end: nat)
    requires IsSquare(m) && start < |m| && end < |m|
    ensures Waiting(m, start, end, seq(|m|, _ => false)[start := true], seq(|m|, _ => -1)[start := 0],
                    seq(|m|, _ => -1), [start], 0)
  {
    var n := |m|;
    var none := seq(n, _ => false);
    CountTrueNone(none);
    CountTrueMark(none, start);
  }

  /** Taking the first queued location `u`, not the destination, starts a scan of its edges. */
  lemma BeginScan(m: Matrix, start: nat, end: nat, visited: seq<bool>, hops: seq<int>, parent: seq<int>,
                  q: seq<int>, deq: nat)
    requires IsSquare(m) && start < |m| && end < |m|
    requires Waiting(m, start, end, visited, hops, parent, q, deq)
    requires |q| > 0 && q[0] != end
    ensures 0 <= q[0] < |m|
    ensures Scanning(m, start, end, visited, hops, parent, q[1..], q[0], 0, deq + 1)
  {
    assert forall x :: x in q[1..] ==> x in q;
    assert forall j :: 0 <= j < |q| - 1 ==> q[1..][j] == q[j + 1] != q[0];
  }

  /** Discovering the unvisited neighbour `v` of `u` keeps the scan invariant and leaves room in a queue of 2n slots. */
  lemma Discover(m: Matrix, start: nat, end: nat, visited: seq<bool>, hops: seq<int>, parent: seq<int>,
                 q: seq<int>, u: nat, v: nat, deq: nat)
    requires IsSquare(m) && start < |m| && end < |m|
    requires Scanning(m, start, end, visited, hops, parent, q, u, v, deq)
    requires v < |m| && HasEdge(m, u, v) && !visited[v]
    ensures |q| < 2 * |m| - 1
    ensures Scanning(m, start, end, visited[v := true], hops[v := hops[u] + 1], parent[v := u],
                     q + [v], u, v + 1, deq)
  {
    DiscoverLabels(m, start, end, visited, hops, parent, q, u, v, deq);
    DiscoverQueue(m, start, end, visited, hops, parent, q, u, v, deq);
  }

  /** A newly discovered neighbour of `u` is no fewer than hops[u] + 1 edges away. */
  lemma DiscoverBound(m: Matrix, start: nat, end: nat, visited: seq<bool>, hops: seq<int>, parent: seq<int>,
                 q: seq<int>, u: nat, v: nat, deq: nat)
    requires IsSquare(m) && start < |m| && end < |m|
    requires Scanning(m, start, end, visited, hops, parent, q, u, v, deq)
    requires v < |m| && HasEdge(m, u, v) && !visited[v]
    ensures HopLowerBound(m, start, v, hops[u] + 1)
  {
    var n := |m|;
    forall x, y | 0 <= x < n && 0 <= y < n && visited[x] && !visited[y] && HasEdge(m, x, y)
      ensures hops[x] >= hops[u]
    {
      if x in q {
        var i :| 0 <= i < |q| && q[i] == x;
      }
    }
    forall p | IsWalkBetween(m, p, start, v)
      ensures |p| - 1 >= hops[u] + 1
    {
      ExitHopBound(m, start, visited, hops, hops[u], p);
    }
  }

  /** Labelling the discovered neighbour keeps the labels consistent. */
  lemma DiscoverLabels(m: Matrix, start: nat, end: nat, visited: seq<bool>, hops: seq<int>, parent: seq<int>,
                 q: seq<int>, u: nat, v: nat, deq: nat)
    requires IsSquare(m) && start < |m| && end < |m|
    requires Scanning(m, start, end, visited, hops, parent, q, u, v, deq)
    requires v < |m| && HasEdge(m, u, v) && !visited[v]
    ensures CountTrue(visited[v := true]) == CountTrue(visited) + 1 <= |m|
    ensures Labelled(m, start, visited[v := true], hops[v := hops[u] + 1], parent[v := u])
  {
    CountTrueMark(visited, v);
    DiscoverBound(m, start, end, visited, hops, parent, q, u, v, deq);
  }

  /** Queueing the discovered neighbour keeps the queue's shape and leaves room for it. */
  lemma DiscoverQueue(m: Matrix, start: nat, end: nat, visited: seq<bool>, hops: seq<int>, parent: seq<int>,
                 q: seq<int>, u: nat, v: nat, deq: nat)
    requires IsSquare(m) && start < |m| && end < |m|
    requires Scanning(m, start, end, visited, hops, parent, q, u, v, deq)
    requires v < |m| && HasEdge(m, u, v) && !visited[v]
    ensures |q| < 2 * |m| - 1
    ensures QueueShape(m, visited[v := true], hops[v := hops[u] + 1], q + [v])
    ensures Within(m, hops[v := hops[u] + 1], q + [v], hops[u])
    ensures ClosedOutside(m, visited[v := true], q + [v], u)
    ensures u !in q + [v] && (visited[v := true][end] ==> end in q + [v])
  {
    CountTrueMark(visited, v);
    DiscoverOrder(m, start, end, visited, hops, parent, q, u, v, deq);
    DiscoverClosed(m, start, end, visited, hops, parent, q, u, v, deq);
  }

  /** The discovered neighbour joins the queue last, at the largest hop count. */
  lemma DiscoverOrder(m: Matrix, start: nat, end: nat, visited: seq<bool>, hops: seq<int>, parent: seq<int>,
                 q: seq<int>, u: nat, v: nat, deq: nat)
    requires IsSquare(m) && start < |m| && end < |m|
    requires Scanning(m, start, end, visited, hops, parent, q, u, v, deq)
    requires v < |m| && HasEdge(m, u, v) && !visited[v]
    ensures QueueShape(m, visited[v := true], hops[v := hops[u] + 1], q + [v])
    ensures Within(m, hops[v := hops[u] + 1], q + [v], hops[u])
  {
    var visited', hops', q' := visited[v := true], hops[v := hops[u] + 1], q + [v];
    assert forall i :: 0 <= i < |q| ==> q'[i] == q[i] != v && hops'[q[i]] == hops[q[i]];
  }

  /** Marking and queueing the discovered neighbour keeps every closed location closed. */
  lemma DiscoverClosed(m: Matrix, start: nat, end: nat, visited: seq<bool>, hops: seq<int>, parent: seq<int>,
                 q: seq<int>, u: nat, v: nat, deq: nat)
    requires IsSquare(m) && start < |m| && end < |m|
    requires Scanning(m, start, end, visited, hops, parent, q, u, v, deq)
    requires v < |m| && HasEdge(m, u, v) && !visited[v]
    ensures ClosedOutside(m, visited[v := true], q + [v], u)
    ensures u !in q + [v] && (visited[v := true][end] ==> end in q + [v])
  {
    assert forall x :: x in q ==> x in q + [v];
  }

  /** Passing over a neighbour that is missing or already visited keeps the scan invariant. */
  lemma Skip(m: Matrix, start: nat, end: nat, visited: seq<bool>, hops: seq<int>, parent: seq<int>,
             q: seq<int>, u: nat, v: nat, deq: nat)
    requires IsSquare(m) && start < |m| && end < |m|
    requires Scanning(m, start, end, visited, hops, parent, q, u, v, deq)
    requires v < |m| && !(HasEdge(m, u, v) && !visited[v])
    ensures Scanning(m, start, end, visited, hops, parent, q, u, v + 1, deq)
  {
  }

  /** Once every edge of `u` has been scanned, `u` is closed and the round invariant is back. */
  lemma EndScan(m: Matrix, start: nat, end: nat, visited: seq<bool>, hops: seq<int>, parent: seq<int>,
                q: seq<int>, u: nat, deq: nat)
    requires IsSquare(m) && start < |m| && end < |m|
    requires Scanning(m, start, end, visited, hops, parent, q, u, |m|, deq)
    ensures Waiting(m, start, end, visited, hops, parent, q, deq)
  {
  }

  /** When the destination comes off the queue its hop count is the fewest stops. */
  lemma BfsFound(m: Matrix, start: nat, end: nat, visited: seq<bool>, hops: seq<int>, parent: seq<int>)
    requires IsSquare(m) && start < |m| && end < |m|
    requires Labelled(m, start, visited, hops, parent) && visited[end]
    ensures ValidParents(parent) && forall v :: 0 <= v < |m| ==> Rooted(parent, v)
    ensures MinHops(m, start, end, hops[end])
    ensures IsWalkBetween(m, ChainPath(parent, end), start, end) && |ChainPath(parent, end)| == hops[end] + 1
  {
    BfsChains(m, start, visited, hops, parent);
  }

  /** When the queue runs dry without the destination, no walk reaches it. */
  lemma BfsExhausted(m: Matrix, start: nat, end: nat, visited: seq<bool>, hops: seq<int>, parent: seq<int>,
                     deq: nat)
    requires IsSquare(m) && start < |m| && end < |m|
    requires Waiting(m, start, end, visited, hops, parent, [], deq)
    ensures ValidParents(parent) && forall v :: 0 <= v < |m| ==> Rooted(parent, v)
    ensures !Connected(m, start, end)
  {
    BfsChains(m, start, visited, hops, parent);
    forall p | IsWalkBetween(m, p, start, end)
      ensures false
    {
      ClosedReach(m, visited, p);
    }
  }

  /**
   The inner loop of bfs_shortest: every unvisited location joined to `u` by
   a finite entry is marked visited one hop beyond `u`, given `u` as its
   predecessor and queued, in increasing order of location.
   */
  method ScanEdges(m: Matrix, start: nat, end: nat, u: nat, visited: seq<bool>, hops: seq<int>,
                   parent: seq<int>, q: RingQueue, ghost deq: nat)
    returns (visited': seq<bool>, hops': seq<int>, parent': seq<int>, q': RingQueue)
    requires IsSquare(m) && start < |m| && end < |m|
    requires Valid(q) && |q.buf| == 2 * |m|
    requires Scanning(m, start, end, visited, hops, parent, Live(q), u, 0, deq)
    ensures Valid(q') && |q'.buf| == 2 * |m|
    ensures Scanning(m, start, end, visited', hops', parent', Live(q'), u, |m|, deq)
    ensures forall w :: 0 <= w < |m| ==>
      (visited'[w] <==> visited[w] || HasEdge(m, u, w)) &&
      (!visited[w] && HasEdge(m, u, w) ==> hops'[w] == hops[u] + 1 && parent'[w] == u) &&
      (visited[w] ==> hops'[w] == hops[w] && parent'[w] == parent[w])
  {
    var n := |m|;
    visited', hops', parent', q' := visited, hops, parent, q;
    var v := 0;
    while v < n
      invariant Valid(q') && |q'.buf| == 2 * n
      invariant Scanning(m, start, end, visited', hops', parent', Live(q'), u, v, deq)
      invariant forall w :: 0 <= w < n ==>
        (visited'[w] <==> visited[w] || (w < v && HasEdge(m, u, w))) &&
        (!visited[w] && w < v && HasEdge(m, u, w) ==> hops'[w] == hops[u] + 1 && parent'[w] == u) &&
        (visited[w] || w >= v ==> hops'[w] == hops[w] && parent'[w] == parent[w])
    {
      if m[u][v] != INF && !visited'[v] {
        Discover(m, start, end, visited', hops', parent', Live(q'), u, v, deq);
        visited' := visited'[v := true];
        hops' := hops'[v := hops'[u] + 1];
        parent' := parent'[v := u];
        q' := Enqueue(q', v);
      } else {
        Skip(m, start, end, visited', hops', parent', Live(q'), u, v, deq);
      }
      v := v + 1;
    }
  }

  /**
   bfs_shortest: breadth-first search from `start` over the finite entries of
   the distance table, with the queue in a ring buffer of 2 * |m| slots.
   Returns the hop count of the destination when it is dequeued, -1 once the
   queue is empty.
   */
  method BfsShortest(m: Matrix, start: nat, end: nat) returns (result: int, parent: seq<int>)
    requires IsSquare(m) && start < |m| && end < |m|
    ensures |parent| == |m| && ValidParents(parent) && parent[start] == -1
    ensures result == -1 <==> !Connected(m, start, end)
    ensures result != -1 ==> result >= 0 && MinHops(m, start, end, result)
    ensures start == end ==> result == 0
    ensures forall v :: 0 <= v < |m| ==> Rooted(parent, v)
    ensures result != -1 ==>
      IsWalkBetween(m, ChainPath(parent, end), start, end) && |ChainPath(parent, end)| == result + 1
  {
    var n := |m|;
    var visited := seq(n, _ => false);
    var hops := seq(n, _ => -1);
    parent := seq(n, _ => -1);
    var q := Empty(2 * n);
    visited := visited[start := true];
    hops := hops[start := 0];
    q := Enqueue(q, start);
    ghost var deq := 0;
    BfsBegin(m, start, end);
    while !IsEmpty(q)
      invariant Valid(q) && |q.buf| == 2 * n
      invariant Waiting(m, start, end, visited, hops, parent, Live(q), deq)
      decreases n - deq
    {
      ghost var before := Live(q);
      var taken := Dequeue(q);
      q := taken.0;
      var u := taken.1;
      if u == end {
        result := hops[u];
        BfsFound(m, start, end, visited, hops, parent);
        MinHopsSelf(m, start, end, result);
        return;
      }
      BeginScan(m, start, end, visited, hops, parent, before, deq);
      deq := deq + 1;
      visited, hops, parent, q := ScanEdges(m, start, end, u, visited, hops, parent, q, deq);
      EndScan(m, start, end, visited, hops, parent, Live(q), u, deq);
    }
    result := -1;
    BfsExhausted(m, start, end, visited, hops, parent, deq);
  }
}
