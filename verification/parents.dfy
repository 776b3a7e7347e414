/**
 Predecessor arrays and path reconstruction (get_path): each search leaves,
 for every location, the location immediately before it on the route found,
 or -1 for "none"; walking those links back from the destination and
 reversing the result gives the route from the source.
 */
module Parents {

  /** Every entry is -1 ("none") or a location. */
  predicate ValidParents(parent: seq<int>)
  {
    forall v :: 0 <= v < |parent| ==> -1 <= parent[v] < |parent|
  }

  /** The location `k` predecessor links above `v`, or -1 once the chain has ended. */
  function Ancestor(parent: seq<int>, v: int, k: nat): (a: int)
    requires ValidParents(parent) && -1 <= v < |parent|
    ensures -1 <= a < |parent|
  {
    if k == 0 then v
    else
      var a := Ancestor(parent, v, k - 1);
      if a == -1 then -1 else parent[a]
  }

  /** The chain of links from `v` reaches "none" within |parent| steps, so it holds no cycle. */
  predicate Rooted(parent: seq<int>, v: nat)
    requires ValidParents(parent) && v < |parent|
  {
    Ancestor(parent, v, |parent|) == -1
  }

  /** The chain from `v`, source first, following at most `fuel` links. */
  function ChainFrom(parent: seq<int>, v: nat, fuel: nat): (p: seq<nat>)
    requires ValidParents(parent) && v < |parent|
    ensures |p| >= 1 && p[|p| - 1] == v
    ensures forall i :: 0 <= i < |p| ==> p[i] < |parent|
    decreases fuel
  {
    if fuel == 0 || parent[v] == -1 then [v]
    else ChainFrom(parent, parent[v], fuel - 1) + [v]
  }

  /** The route the predecessor array records for `v`, source first. */
  function ChainPath(parent: seq<int>, v: nat): seq<nat>
    requires ValidParents(parent) && v < |parent|
  {
    ChainFrom(parent, v, |parent|)
  }

  /** Once a chain has ended it stays ended. */
  lemma {:induction false} AncestorOfNone(parent: seq<int>, k: nat)
    requires ValidParents(parent)
    ensures Ancestor(parent, -1, k) == -1
  {
    if k > 0 {
      AncestorOfNone(parent, k - 1);
    }
  }

  lemma {:induction false} AncestorEnded(parent: seq<int>, v: int, k: nat, k': nat)
    requires ValidParents(parent) && -1 <= v < |parent|
    requires k <= k' && Ancestor(parent, v, k) == -1
    ensures Ancestor(parent, v, k') == -1
    decreases k' - k
  {
    if k' > k {
      AncestorEnded(parent, v, k, k' - 1);
    }
  }

  /** Going k + 1 links up from `v` is going k links up from its predecessor. */
  lemma {:induction false} AncestorShift(parent: seq<int>, v: nat, k: nat)
    requires ValidParents(parent) && v < |parent|
    ensures Ancestor(parent, v, k + 1) == Ancestor(parent, parent[v], k)
  {
    if k == 0 {
    } else {
      AncestorShift(parent, v, k - 1);
      if parent[v] == -1 {
        AncestorOfNone(parent, k);
      }
    }
  }

  /** A rank that strictly drops along every predecessor link bounds how far up a chain can go. */
  lemma {:induction false} AncestorRank(parent: seq<int>, rank: seq<nat>, v: nat, k: nat)
    requires ValidParents(parent) && |rank| == |parent| && v < |parent|
    requires forall x :: 0 <= x < |parent| && parent[x] != -1 ==> rank[parent[x]] < rank[x]
    ensures Ancestor(parent, v, k) == -1 || rank[Ancestor(parent, v, k)] + k <= rank[v]
  {
    if k > 0 {
      AncestorRank(parent, rank, v, k - 1);
    }
  }

  /** A predecessor array with a rank below |parent| that drops along every link has no cycle. */
  lemma RankedRooted(parent: seq<int>, rank: seq<nat>, v: nat)
    requires ValidParents(parent) && |rank| == |parent| && v < |parent|
    requires forall x :: 0 <= x < |parent| ==> rank[x] < |parent|
    requires forall x :: 0 <= x < |parent| && parent[x] != -1 ==> rank[parent[x]] < rank[x]
    ensures Rooted(parent, v)
  {
    AncestorRank(parent, rank, v, |parent|);
  }

  /** The chain lists exactly the locations met before the links end, in reverse order. */
  lemma {:induction false} ChainFromAncestors(parent: seq<int>, v: nat, fuel: nat)
    requires ValidParents(parent) && v < |parent|
    requires Ancestor(parent, v, fuel + 1) == -1
    ensures var p := ChainFrom(parent, v, fuel);
      Ancestor(parent, v, |p|) == -1 &&
      forall k :: 0 <= k < |p| ==> Ancestor(parent, v, k) == p[|p| - 1 - k]
    decreases fuel
  {
    var p := ChainFrom(parent, v, fuel);
    if parent[v] == -1 {
      assert p == [v];
    } else {
      assert fuel > 0;
      var u := parent[v];
      AncestorShift(parent, v, fuel);
      ChainFromAncestors(parent, u, fuel - 1);
      var q := ChainFrom(parent, u, fuel - 1);
      assert p == q + [v];
      AncestorShift(parent, v, |q|);
      forall k | 1 <= k < |p|
        ensures Ancestor(parent, v, k) == p[|p| - 1 - k]
      {
        AncestorShift(parent, v, k - 1);
      }
    }
  }

  /** `p` lists, source first, exactly the locations met on the links from `v`
      before they reach "none". */
  predicate ListsChain(parent: seq<int>, v: nat, p: seq<nat>)
    requires ValidParents(parent) && v < |parent|
  {
    Ancestor(parent, v, |p|) == -1 &&
    forall k :: 0 <= k < |p| ==> Ancestor(parent, v, k) == p[|p| - 1 - k]
  }

  /** ChainPath of a rooted location lists its whole chain. */
  lemma ChainPathLists(parent: seq<int>, v: nat)
    requires ValidParents(parent) && v < |parent| && Rooted(parent, v)
    ensures ListsChain(parent, v, ChainPath(parent, v))
  {
    AncestorEnded(parent, v, |parent|, |parent| + 1);
    ChainFromAncestors(parent, v, |parent|);
  }

  /** Only one sequence lists the chain from `v`. */
  lemma ListsChainUnique(parent: seq<int>, v: nat, a: seq<nat>, b: seq<nat>)
    requires ValidParents(parent) && v < |parent|
    requires ListsChain(parent, v, a) && ListsChain(parent, v, b)
    ensures a == b
  {
    assert |a| == |b|;
    forall i | 0 <= i < |a|
      ensures a[i] == b[i]
    {
      var k := |a| - 1 - i;
      assert Ancestor(parent, v, k) == a[|a| - 1 - k];
      assert Ancestor(parent, v, k) == b[|b| - 1 - k];
    }
  }

  /** A listed chain ends at `v`, starts at a location without predecessor and
      follows the predecessor links in between. */
  lemma ListsChainLinks(parent: seq<int>, v: nat, p: seq<nat>)
    requires ValidParents(parent) && v < |parent| && ListsChain(parent, v, p)
    ensures |p| >= 1 && p[|p| - 1] == v
    ensures forall i :: 0 <= i < |p| ==> p[i] < |parent|
    ensures parent[p[0]] == -1
    ensures forall i :: 0 <= i < |p| - 1 ==> parent[p[i + 1]] == p[i]
  {
    assert |p| >= 1 by {
      assert Ancestor(parent, v, 0) == v;
    }
    assert Ancestor(parent, v, 0) == p[|p| - 1 - 0];
    forall i | 0 <= i < |p|
      ensures p[i] < |parent|
    {
      assert Ancestor(parent, v, |p| - 1 - i) == p[i];
    }
    assert Ancestor(parent, v, |p| - 1) == p[0];
    assert Ancestor(parent, v, |p|) == -1;
    forall i | 0 <= i < |p| - 1
      ensures parent[p[i + 1]] == p[i]
    {
      assert Ancestor(parent, v, |p| - 2 - i) == p[i + 1];
      assert Ancestor(parent, v, |p| - 1 - i) == p[i];
    }
  }

  /** Going a + t links up from `v` is going t links up from the a-th ancestor. */
  lemma {:induction false} AncestorAdd(parent: seq<int>, v: nat, a: nat, t: nat)
    requires ValidParents(parent) && v < |parent|
    ensures Ancestor(parent, v, a + t) == Ancestor(parent, Ancestor(parent, v, a), t)
    decreases t
  {
    if t > 0 {
      AncestorAdd(parent, v, a, t - 1);
    }
  }

  /** If the chain from `v` meets the same location after `a` and after `a + d`
      links, it goes round that loop for ever and never reaches "none". */
  lemma {:induction false} AncestorLoops(parent: seq<int>, v: nat, a: nat, d: nat, t: nat)
    requires ValidParents(parent) && v < |parent| && d > 0
    requires forall k :: a <= k <= a + d ==> Ancestor(parent, v, k) != -1
    requires Ancestor(parent, v, a) == Ancestor(parent, v, a + d)
    ensures Ancestor(parent, v, a + t) != -1
    decreases t
  {
    if t > d {
      AncestorLoops(parent, v, a, d, t - d);
      AncestorAdd(parent, v, a, t - d);
      AncestorAdd(parent, v, a + d, t - d);
      assert a + d + (t - d) == a + t;
    }
  }

  /** A listed chain never repeats a location. */
  lemma ListsChainDistinct(parent: seq<int>, v: nat, p: seq<nat>)
    requires ValidParents(parent) && v < |parent| && ListsChain(parent, v, p)
    ensures Distinct(p)
  {
    forall i, j | 0 <= i < j < |p|
      ensures p[i] != p[j]
    {
      if p[i] == p[j] {
        var a, b := |p| - 1 - j, |p| - 1 - i;
        assert Ancestor(parent, v, a) == p[j];
        assert Ancestor(parent, v, b) == p[i];
        forall k | a <= k <= b
          ensures Ancestor(parent, v, k) != -1
        {
          assert Ancestor(parent, v, k) == p[|p| - 1 - k];
        }
        AncestorLoops(parent, v, a, b - a, |p| - a);
        assert false;
      }
    }
  }

  /**
   get_path: collects the chain from `dest` back to the location without a
   predecessor, then reverses it in place.
   */
  method GetPath(parent: seq<int>, dest: nat) returns (path: seq<nat>)
    requires ValidParents(parent) && dest < |parent| && Rooted(parent, dest)
    ensures |path| >= 1 && path[|path| - 1] == dest
    ensures forall i :: 0 <= i < |path| ==> path[i] < |parent|
    ensures parent[path[0]] == -1
    ensures forall i :: 0 <= i < |path| - 1 ==> parent[path[i + 1]] == path[i]
    ensures ListsChain(parent, dest, path)
    ensures path == ChainPath(parent, dest)
    ensures Distinct(path)
  {
    var back: seq<nat> := [];
    var curr: int := dest;
    while curr != -1
      invariant -1 <= curr < |parent| && |back| <= |parent|
      invariant curr == Ancestor(parent, dest, |back|)
      invariant forall k :: 0 <= k < |back| ==> back[k] == Ancestor(parent, dest, k)
      decreases |parent| - |back|
    {
      back := back + [curr];
      curr := parent[curr];
    }

    path := ReverseInPlace(back);
    assert forall k :: 0 <= k < |back| ==> path[|back| - 1 - k] == back[k];
    assert ListsChain(parent, dest, path);
    ListsChainLinks(parent, dest, path);
    ChainPathLists(parent, dest);
    ListsChainUnique(parent, dest, path, ChainPath(parent, dest));
    ListsChainDistinct(parent, dest, path);
  }

  /** The second half of get_path: swaps the i-th entry from each end for
      every i below half the length. */
  method ReverseInPlace(s: seq<nat>) returns (r: seq<nat>)
    ensures |r| == |s|
    ensures forall k :: 0 <= k < |s| ==> r[k] == s[|s| - 1 - k]
  {
    var len := |s|;
    r := s;
    var i := 0;
    while i < len / 2
      invariant 0 <= i <= len / 2 && |r| == len
      invariant forall k :: 0 <= k < i ==> r[k] == s[len - 1 - k] && r[len - 1 - k] == s[k]
      invariant forall k :: i <= k < len - i ==> r[k] == s[k]
    {
      var temp := r[i];
      r := r[i := r[len - 1 - i]][len - 1 - i := temp];
      i := i + 1;
    }
  }

  /** Every location is distinct from every other in `p`. */
  predicate Distinct(p: seq<nat>)
  {
    forall i, j :: 0 <= i < j < |p| ==> p[i] != p[j]
  }

  /** The predecessor array a search leaves behind when it finds the route `p`:
      each location of `p` after the first points at the one before it, every
      other location has none. */
  function ParentsOf(n: nat, p: seq<nat>): (parent: seq<int>)
    requires forall i :: 0 <= i < |p| ==> p[i] < n
    ensures |parent| == n && ValidParents(parent)
    decreases |p|
  {
    if |p| <= 1 then seq(n, _ => -1)
    else ParentsOf(n, p[..|p| - 1])[p[|p| - 1] := p[|p| - 2]]
  }

  lemma {:induction false} ParentsOfLinks(n: nat, p: seq<nat>)
    requires forall i :: 0 <= i < |p| ==> p[i] < n
    requires Distinct(p) && |p| >= 1
    ensures ParentsOf(n, p)[p[0]] == -1
    ensures forall i :: 0 <= i < |p| - 1 ==> ParentsOf(n, p)[p[i + 1]] == p[i]
    decreases |p|
  {
    if |p| > 1 {
      var q := p[..|p| - 1];
      ParentsOfLinks(n, q);
    }
  }

  /** The locations listed in `p`. */
  function Elems(p: seq<nat>): (s: set<nat>)
    ensures forall x :: x in s <==> x in p
    ensures Distinct(p) ==> |s| == |p|
  {
    if |p| == 0 then {} else Elems(p[..|p| - 1]) + {p[|p| - 1]}
  }

  /** The locations below `n`. */
  function Below(n: nat): (s: set<nat>)
    ensures forall x: nat :: x in s <==> x < n
    ensures |s| == n
  {
    if n == 0 then {}
    else
      var s := Below(n - 1);
      assert forall x: nat :: (x in s || x == n - 1) <==> x < n;
      s + {n - 1}
  }

  /** A sequence of distinct locations below `n` has at most `n` entries. */
  lemma DistinctBound(p: seq<nat>, n: nat)
    requires forall i :: 0 <= i < |p| ==> p[i] < n
    requires Distinct(p)
    ensures |p| <= n
  {
    assert Elems(p) <= Below(n);
    SubsetCard(Elems(p), Below(n));
  }

  lemma {:induction false} SubsetCard(a: set<nat>, b: set<nat>)
    requires a <= b
    ensures |a| <= |b|
    decreases |a|
  {
    if a != {} {
      var x :| x in a;
      SubsetCard(a - {x}, b - {x});
    }
  }

  /**
   Round trip: the predecessor array recorded for a route of distinct
   locations is rooted at the route's end, and reconstructing from it gives
   back exactly that route.
   */
  lemma PathRoundTrip(n: nat, p: seq<nat>)
    requires forall i :: 0 <= i < |p| ==> p[i] < n
    requires Distinct(p) && |p| >= 1
    ensures Rooted(ParentsOf(n, p), p[|p| - 1])
    ensures ChainPath(ParentsOf(n, p), p[|p| - 1]) == p
  {
    var parent := ParentsOf(n, p);
    var v := p[|p| - 1];
    ParentsOfLinks(n, p);
    DistinctBound(p, n);
    forall k | 0 <= k < |p|
      ensures Ancestor(parent, v, k) == p[|p| - 1 - k]
    {
      AncestorAlong(parent, p, k);
    }
    assert Ancestor(parent, v, |p|) == -1 by {
      AncestorAlong(parent, p, |p| - 1);
    }
    assert ListsChain(parent, v, p);
    AncestorEnded(parent, v, |p|, n);
    ChainPathLists(parent, v);
    ListsChainUnique(parent, v, p, ChainPath(parent, v));
  }

  lemma {:induction false} AncestorAlong(parent: seq<int>, p: seq<nat>, k: nat)
    requires ValidParents(parent) && |p| >= 1 && k < |p|
    requires forall i :: 0 <= i < |p| ==> p[i] < |parent|
    requires forall i :: 0 <= i < |p| - 1 ==> parent[p[i + 1]] == p[i]
    ensures Ancestor(parent, p[|p| - 1], k) == p[|p| - 1 - k]
  {
    if k > 0 {
      AncestorAlong(parent, p, k - 1);
    }
  }
}
