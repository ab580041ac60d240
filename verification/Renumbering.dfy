/** Dominance does not depend on how vertices are named: if h is the part of g that
    is reachable from r, renumbered so that r becomes 0, then dominators computed in
    h are the dominators of g. */
module Renumbering {
  import opened Graphs

  /** num gives the number of each vertex of g, or -1 if it is unreachable; vert is its inverse. */
  ghost predicate Renumbers(g: Graph, r: int, h: Graph, num: seq<int>, vert: seq<int>) {
    && |num| == |g| && |vert| == |h| > 0
    && 0 <= r < |g| && num[r] == 0
    && (forall x :: 0 <= x < |g| ==> num[x] == -1 || (0 <= num[x] < |h| && vert[num[x]] == x))
    && (forall i :: 0 <= i < |h| ==> 0 <= vert[i] < |g| && num[vert[i]] == i)
    && (forall x, y :: Edge(g, x, y) && num[x] >= 0 ==> num[y] >= 0 && Edge(h, num[x], num[y]))
    && (forall i, j :: Edge(h, i, j) ==> Edge(g, vert[i], vert[j]))
  }

  /** A path of g from the root, read through num, is a path of h. */
  lemma {:induction false} PathToNumbers(g: Graph, r: int, h: Graph, num: seq<int>, vert: seq<int>, p: seq<int>)
    returns (q: seq<int>)
    requires Renumbers(g, r, h, num, vert) && IsPath(g, p) && p[0] == r
    ensures |q| == |p| && PathFromTo(h, q, 0, num[p[|p| - 1]])
    ensures forall k :: 0 <= k < |p| ==> 0 <= num[p[k]] && q[k] == num[p[k]]
    decreases |p|
  {
    if |p| == 1 {
      q := [0];
    } else {
      var n := |p| - 1;
      SubPath(g, p, 0, n - 1);
      var p' := p[0..n];
      var q' := PathToNumbers(g, r, h, num, vert, p');
      assert p'[n - 1] == p[n - 1];
      assert Edge(g, p[n - 1], p[n]);
      q := q' + [num[p[n]]];
      forall k | 0 <= k < |q| - 1
        ensures Edge(h, q[k], q[k + 1])
      {
        if k < n - 1 { assert Edge(h, q'[k], q'[k + 1]); }
      }
    }
  }

  lemma PathToVertices(g: Graph, r: int, h: Graph, num: seq<int>, vert: seq<int>, q: seq<int>) returns (p: seq<int>)
    requires Renumbers(g, r, h, num, vert) && IsPath(h, q)
    ensures |q| == |p| && PathFromTo(g, p, vert[q[0]], vert[q[|q| - 1]])
    ensures forall k :: 0 <= k < |q| ==> p[k] == vert[q[k]]
  {
    p := seq(|q|, k requires 0 <= k < |q| => vert[q[k]]);
    forall k | 0 <= k < |p| - 1
      ensures Edge(g, p[k], p[k + 1])
    {
      assert Edge(h, q[k], q[k + 1]);
    }
  }

  lemma ReachableNumbered(g: Graph, r: int, h: Graph, num: seq<int>, vert: seq<int>, v: int)
    requires Renumbers(g, r, h, num, vert) && Reachable(g, r, v)
    ensures 0 <= v < |g| && num[v] >= 0
  {
    var p :| PathFromTo(g, p, r, v);
    var q := PathToNumbers(g, r, h, num, vert, p);
  }

  lemma DominatesNumbers(g: Graph, r: int, h: Graph, num: seq<int>, vert: seq<int>, d: int, v: int)
    requires Renumbers(g, r, h, num, vert) && 0 <= d < |g| && 0 <= v < |g| && num[d] >= 0 && num[v] >= 0
    ensures Dominates(g, r, d, v) <==> Dominates(h, 0, num[d], num[v])
  {
    if Dominates(g, r, d, v) {
      forall q | PathFromTo(h, q, 0, num[v])
        ensures num[d] in q
      {
        var p := PathToVertices(g, r, h, num, vert, q);
        assert vert[0] == r && vert[num[v]] == v;
        var k :| 0 <= k < |p| && p[k] == d;
        assert q[k] == num[d];
      }
    }
    if Dominates(h, 0, num[d], num[v]) {
      forall p | PathFromTo(g, p, r, v)
        ensures d in p
      {
        var q := PathToNumbers(g, r, h, num, vert, p);
        var k :| 0 <= k < |q| && q[k] == num[d];
        assert p[k] == d;
      }
    }
  }

  /** An immediate dominator found among the numbers names the immediate dominator in g. */
  lemma ImmediateDominatorOfNumber(g: Graph, r: int, h: Graph, num: seq<int>, vert: seq<int>, i: int, v: int)
    requires Renumbers(g, r, h, num, vert) && 0 <= v < |g| && num[v] >= 0 && Reachable(g, r, v)
    requires IsImmediateDominator(h, 0, i, num[v])
    ensures IsImmediateDominator(g, r, vert[i], v)
  {
    DominatesNumbers(g, r, h, num, vert, vert[i], v);
    forall x | StrictlyDominates(g, r, x, v)
      ensures Dominates(g, r, x, vert[i])
    {
      DominatorReachable(g, r, x, v);
      ReachableNumbered(g, r, h, num, vert, x);
      DominatesNumbers(g, r, h, num, vert, x, v);
      assert num[x] != num[v] by { assert vert[num[x]] == x && vert[num[v]] == v; }
      DominatesNumbers(g, r, h, num, vert, x, vert[i]);
    }
  }
}
