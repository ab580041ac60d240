/** The mathematics behind the Lengauer-Tarjan computation: facts about a graph
    whose vertices are numbered in depth-first preorder from vertex 0, so that
    every vertex is reachable from 0. Nothing here mentions the algorithm. */
module SemidominatorTheory {
  import opened Graphs

  /** A depth-first spanning tree. The subtree of u is the interval [u, end[u]),
      and par[v] is the closest proper ancestor of v. An edge to a higher number
      always stays inside the subtree of its source. */
  datatype DfsTree = DfsTree(par: seq<int>, end: seq<int>) {

    ghost predicate IsAncestor(u: int, v: int) {
      0 <= u <= v < |end| && v < end[u]
    }

    ghost predicate Spans(h: Graph) {
      && |h| == |par| == |end| && |h| > 0
      && WellFormed(h)
      && end[0] == |h|
      && (forall u :: 0 <= u < |h| ==> u < end[u] <= |h|)
      && (forall u, v :: 0 <= u <= v < |h| && v < end[u] ==> end[v] <= end[u])
      && (forall v :: 0 < v < |h| ==> 0 <= par[v] < v < end[par[v]] && Edge(h, par[v], v))
      && (forall u, v :: 0 <= u < v < |h| && par[v] < u ==> end[u] <= v)
      && (forall u, v :: Edge(h, u, v) && u < v ==> v < end[u])
    }
  }

  /** A path to w all of whose interior vertices have numbers above w. */
  ghost predicate SemiPath(h: Graph, p: seq<int>, v: int, w: int) {
    && PathFromTo(h, p, v, w)
    && |p| >= 2
    && forall k :: 0 < k < |p| - 1 ==> p[k] > w
  }

  ghost predicate SemiReaches(h: Graph, v: int, w: int) {
    exists p :: SemiPath(h, p, v, w)
  }

  /** s is the semidominator of w: the least vertex with a semi-path to w. */
  ghost predicate IsSemidominator(h: Graph, s: int, w: int) {
    && SemiReaches(h, s, w)
    && forall v :: SemiReaches(h, v, w) ==> s <= v
  }

  // ------------------------------------------------------------ tree paths

  /** The tree path from an ancestor u down to v visits only vertices between them. */
  lemma {:induction false} TreePath(h: Graph, t: DfsTree, u: int, v: int) returns (p: seq<int>)
    requires t.Spans(h) && t.IsAncestor(u, v)
    ensures PathFromTo(h, p, u, v)
    ensures forall x :: x in p ==> t.IsAncestor(u, x) && t.IsAncestor(x, v)
    decreases v
  {
    if u == v {
      p := [u];
    } else {
      assert u <= t.par[v];
      var q := TreePath(h, t, u, t.par[v]);
      EdgePath(h, t.par[v], v);
      PathConcat(h, q, [t.par[v], v]);
      p := q + [t.par[v], v][1..];
    }
  }

  /** Along a path that never goes below its first vertex, everything is a
      descendant of that vertex. */
  lemma {:induction false} MinimumIsAncestor(h: Graph, t: DfsTree, p: seq<int>, k: nat)
    requires t.Spans(h) && IsPath(h, p) && k < |p|
    requires forall i :: 0 <= i <= k ==> p[0] <= p[i]
    ensures t.IsAncestor(p[0], p[k])
    decreases k
  {
    if k == 0 {
    } else {
      MinimumIsAncestor(h, t, p, k - 1);
      assert Edge(h, p[k - 1], p[k]);
      if p[k - 1] < p[k] {
        assert p[k] < t.end[p[k - 1]] <= t.end[p[0]];
      }
    }
  }

  /** The position of the least element of s[i..j+1]. */
  lemma {:induction false} LeastPosition(s: seq<int>, i: nat, j: nat) returns (m: nat)
    requires i <= j < |s|
    ensures i <= m <= j && forall k :: i <= k <= j ==> s[m] <= s[k]
    decreases j
  {
    if i == j {
      m := i;
    } else {
      m := LeastPosition(s, i, j - 1);
      if s[j] < s[m] { m := j; }
    }
  }

  /** If some interior stretch of a path reaches an index i with p[i] <= p[k], the
      least vertex of p[i..k] is an ancestor of p[k]. */
  lemma LeastIsAncestor(h: Graph, t: DfsTree, p: seq<int>, i: nat, k: nat) returns (m: nat)
    requires t.Spans(h) && IsPath(h, p) && i <= k < |p|
    ensures i <= m <= k && t.IsAncestor(p[m], p[k])
    ensures forall j :: i <= j <= k ==> p[m] <= p[j]
  {
    m := LeastPosition(p, i, k);
    SubPath(h, p, m, k);
    var q := p[m..k + 1];
    forall j | 0 <= j <= k - m
      ensures q[0] <= q[j]
    {
      assert q[j] == p[m + j];
    }
    MinimumIsAncestor(h, t, q, k - m);
  }

  // -------------------------------------------------------- semidominators

  lemma SemiViaEdge(h: Graph, v: int, w: int)
    requires Edge(h, v, w)
    ensures SemiReaches(h, v, w)
  {
    assert SemiPath(h, [v, w], v, w);
  }

  /** Extending a semi-path to u along the tree to v and then over an edge to w. */
  lemma SemiViaTree(h: Graph, t: DfsTree, x: int, u: int, v: int, w: int)
    requires t.Spans(h) && SemiReaches(h, x, u) && w < u && t.IsAncestor(u, v) && Edge(h, v, w)
    ensures SemiReaches(h, x, w)
  {
    var p :| SemiPath(h, p, x, u);
    var q := TreePath(h, t, u, v);
    PathConcat(h, p, q);
    var r := p + q[1..];
    EdgePath(h, v, w);
    PathConcat(h, r, [v, w]);
    var z := r + [v, w][1..];
    forall k | 0 < k < |z| - 1
      ensures z[k] > w
    {
      if k >= |p| {
        assert z[k] == q[k - |p| + 1];
        assert z[k] in q;
      }
    }
    assert SemiPath(h, z, x, w);
  }

  /** The semidominator of w is a proper tree ancestor of w. */
  lemma SemidominatorIsAncestor(h: Graph, t: DfsTree, s: int, w: int)
    requires t.Spans(h) && 0 < w < |h| && IsSemidominator(h, s, w)
    ensures 0 <= s <= t.par[w] && t.IsAncestor(s, w)
  {
    SemiViaEdge(h, t.par[w], w);
    var p :| SemiPath(h, p, s, w);
    MinimumIsAncestor(h, t, p, |p| - 1);
  }

  /** If x has a semi-path to w, then x bounds from above some value that a scan over
      the predecessors of w sees: a lower-numbered predecessor, or the semidominator
      of an ancestor u > w of a higher-numbered predecessor. */
  lemma SemiPathSeenByScan(h: Graph, t: DfsTree, sem: seq<int>, w: int, x: int)
    requires t.Spans(h) && |sem| == |h| && 0 < w < |h| && x < w && SemiReaches(h, x, w)
    requires forall u :: w < u < |h| ==> IsSemidominator(h, sem[u], u)
    ensures exists v :: Edge(h, v, w)
                     && (v == x || (v > w && exists u :: w < u && t.IsAncestor(u, v) && sem[u] <= x))
  {
    var p :| SemiPath(h, p, x, w);
    var k := |p| - 2;
    assert Edge(h, p[k], w) by { assert Edge(h, p[k], p[k + 1]); }
    if k > 0 {
      var j := FirstAncestor(t, p, 1, k);
      forall i | 0 < i < j
        ensures p[i] > p[j]
      {
        if p[i] <= p[j] {
          var m := LeastIsAncestor(h, t, p, i, j);
          assert t.IsAncestor(p[m], p[k]);
          assert false;
        }
      }
      SubPath(h, p, 0, j);
      assert SemiPath(h, p[0..j + 1], x, p[j]);
      assert SemiReaches(h, x, p[j]) && p[j] > w;
      assert sem[p[j]] <= x;
    }
  }

  /** The first position from i on whose vertex is an ancestor of p[k]. */
  lemma {:induction false} FirstAncestor(t: DfsTree, p: seq<int>, i: nat, k: nat) returns (j: nat)
    requires i <= k < |p| && t.IsAncestor(p[k], p[k])
    ensures i <= j <= k && t.IsAncestor(p[j], p[k])
    ensures forall m :: i <= m < j ==> !t.IsAncestor(p[m], p[k])
    decreases k - i
  {
    if t.IsAncestor(p[i], p[k]) {
      j := i;
    } else {
      j := FirstAncestor(t, p, i + 1, k);
    }
  }

  /** A scan result that has a semi-path to w and is at most every value the scan
      sees is the semidominator of w. */
  lemma ScanComputesSemidominator(h: Graph, t: DfsTree, sem: seq<int>, w: int, s: int)
    requires t.Spans(h) && |sem| == |h| && 0 < w < |h|
    requires forall u :: w < u < |h| ==> IsSemidominator(h, sem[u], u)
    requires s == w || SemiReaches(h, s, w)
    requires forall v :: Edge(h, v, w) && v < w ==> s <= v
    requires forall v, u :: Edge(h, v, w) && w < u && t.IsAncestor(u, v) ==> s <= sem[u]
    ensures IsSemidominator(h, s, w)
  {
    assert s <= t.par[w] < w;
    forall x | SemiReaches(h, x, w)
      ensures s <= x
    {
      if x < w {
        SemiPathSeenByScan(h, t, sem, w, x);
      }
    }
  }

  // ------------------------------------------- dominators and semidominators

  /** A strict dominator of w is a tree ancestor of w at or above its semidominator. */
  lemma DominatorAboveSemidominator(h: Graph, t: DfsTree, d: int, s: int, w: int)
    requires t.Spans(h) && 0 < w < |h| && IsSemidominator(h, s, w) && StrictlyDominates(h, 0, d, w)
    ensures 0 <= d <= s && t.IsAncestor(d, w)
  {
    SemidominatorIsAncestor(h, t, s, w);
    var q := TreePath(h, t, 0, w);
    assert d in q;
    var a := TreePath(h, t, 0, s);
    var p :| SemiPath(h, p, s, w);
    PathConcat(h, a, p);
    assert d in a + p[1..];
    if d !in a {
      var k :| 0 <= k < |p| && p[k] == d;
      assert false;
    }
  }

  /** Every strict dominator of w dominates the semidominator of w. */
  lemma DominatorDominatesSemidominator(h: Graph, t: DfsTree, d: int, s: int, w: int)
    requires t.Spans(h) && 0 < w < |h| && IsSemidominator(h, s, w) && StrictlyDominates(h, 0, d, w)
    ensures Dominates(h, 0, d, s)
  {
    DominatorAboveSemidominator(h, t, d, s, w);
    SemidominatorIsAncestor(h, t, s, w);
    forall q | PathFromTo(h, q, 0, s)
      ensures d in q
    {
      var p :| SemiPath(h, p, s, w);
      PathConcat(h, q, p);
      assert d in q + p[1..];
      if d !in q {
        var k :| 0 <= k < |p| && p[k] == d;
        assert false;
      }
    }
  }

  /** A strict dominator of w that is above u dominates u, when u is an ancestor of w. */
  lemma DominatorDominatesTreeVertex(h: Graph, t: DfsTree, d: int, u: int, w: int)
    requires t.Spans(h) && t.IsAncestor(u, w) && d < u && Dominates(h, 0, d, w)
    ensures Dominates(h, 0, d, u)
  {
    forall q | PathFromTo(h, q, 0, u)
      ensures d in q
    {
      var p := TreePath(h, t, u, w);
      PathConcat(h, q, p);
      assert d in q + p[1..];
    }
  }

  /** Any path to w crosses from below a proper ancestor a of w back into the tree
      path a -> w, at a vertex y that a vertex below a has a semi-path to. */
  lemma Crossing(h: Graph, t: DfsTree, p: seq<int>, a: int, w: int) returns (x: int, y: int)
    requires t.Spans(h) && PathFromTo(h, p, 0, w) && t.IsAncestor(a, w) && 0 < a
    ensures y in p && t.IsAncestor(a, y) && t.IsAncestor(y, w)
    ensures 0 <= x < a && SemiReaches(h, x, y)
  {
    var j := LastBelow(p, a, |p| - 1);
    var k := FirstBetween(t, p, a, w, j + 1);
    x, y := p[j], p[k];
    SubPath(h, p, j, k);
    var q := p[j..k + 1];
    forall i | 0 < i < |q| - 1
      ensures q[i] > y
    {
      assert q[i] == p[j + i];
      if q[i] <= y {
        var m := LeastIsAncestor(h, t, p, j + i, k);
        assert a <= p[m];
        assert t.IsAncestor(a, p[m]) && t.IsAncestor(p[m], w);
        assert false;
      }
    }
    assert SemiPath(h, q, x, y);
  }

  lemma {:induction false} LastBelow(p: seq<int>, a: int, n: nat) returns (j: nat)
    requires n < |p| && p[0] < a
    ensures j <= n && p[j] < a && forall k :: j < k <= n ==> p[k] >= a
    decreases n
  {
    if p[n] < a {
      j := n;
    } else {
      j := LastBelow(p, a, n - 1);
    }
  }

  lemma {:induction false} FirstBetween(t: DfsTree, p: seq<int>, a: int, w: int, i: nat) returns (k: nat)
    requires i < |p| && t.IsAncestor(a, p[|p| - 1]) && t.IsAncestor(p[|p| - 1], w)
    ensures i <= k < |p| && t.IsAncestor(a, p[k]) && t.IsAncestor(p[k], w)
    ensures forall m :: i <= m < k ==> !(t.IsAncestor(a, p[m]) && t.IsAncestor(p[m], w))
    decreases |p| - i
  {
    if t.IsAncestor(a, p[i]) && t.IsAncestor(p[i], w) {
      k := i;
    } else {
      k := FirstBetween(t, p, a, w, i + 1);
    }
  }

  ghost predicate SemidominatorsAre(h: Graph, sem: seq<int>) {
    && |sem| == |h|
    && forall u :: 0 < u < |h| ==> IsSemidominator(h, sem[u], u)
  }

  /** If no vertex strictly between the semidominator s of w and w (w included) has a
      semidominator below s, then s is the immediate dominator of w. */
  lemma SemidominatorIsImmediate(h: Graph, t: DfsTree, sem: seq<int>, w: int)
    requires t.Spans(h) && SemidominatorsAre(h, sem) && 0 < w < |h|
    requires forall u :: sem[w] < u && t.IsAncestor(u, w) ==> sem[w] <= sem[u]
    ensures IsImmediateDominator(h, 0, sem[w], w)
  {
    var s := sem[w];
    SemidominatorIsAncestor(h, t, s, w);
    forall p | PathFromTo(h, p, 0, w)
      ensures s in p
    {
      if s > 0 {
        var x, y := Crossing(h, t, p, s, w);
        assert sem[y] <= x;
        assert y == s;
      }
    }
    forall d | StrictlyDominates(h, 0, d, w)
      ensures Dominates(h, 0, d, s)
    {
      DominatorDominatesSemidominator(h, t, d, s, w);
    }
  }

  /** If u has the least semidominator strictly between the semidominator of w and w,
      and that is below the semidominator of w, then w and u share their immediate
      dominator. */
  lemma ImmediateDominatorShared(h: Graph, t: DfsTree, sem: seq<int>, u: int, w: int, i: int)
    requires t.Spans(h) && SemidominatorsAre(h, sem) && 0 < w < |h|
    requires sem[w] < u < w && t.IsAncestor(u, w) && sem[u] < sem[w]
    requires forall x :: sem[w] < x && t.IsAncestor(x, w) ==> sem[u] <= sem[x]
    requires IsImmediateDominator(h, 0, i, u)
    ensures IsImmediateDominator(h, 0, i, w)
  {
    var s := sem[w];
    SemidominatorIsAncestor(h, t, s, w);
    DominatorAboveSemidominator(h, t, i, sem[u], u);
    forall p | PathFromTo(h, p, 0, w)
      ensures i in p
    {
      if i > 0 {
        var x, y := Crossing(h, t, p, i, w);
        if y != i {
          assert sem[y] <= x;
          assert y <= s;
          BypassesDominator(h, t, x, y, i, u);
        }
      }
    }
    forall d | StrictlyDominates(h, 0, d, w)
      ensures Dominates(h, 0, d, i)
    {
      DominatorAboveSemidominator(h, t, d, s, w);
      DominatorDominatesTreeVertex(h, t, d, u, w);
    }
  }

  /** A semi-path from below i to an ancestor y of u below i's subtree root would
      bypass i, so i does not dominate u. */
  lemma BypassesDominator(h: Graph, t: DfsTree, x: int, y: int, i: int, u: int)
    requires t.Spans(h) && 0 <= x < i < y && SemiReaches(h, x, y) && t.IsAncestor(y, u)
    ensures !Dominates(h, 0, i, u)
  {
    var a := TreePath(h, t, 0, x);
    var p :| SemiPath(h, p, x, y);
    var b := TreePath(h, t, y, u);
    PathConcat(h, a, p);
    var ap := a + p[1..];
    PathConcat(h, ap, b);
    var q := ap + b[1..];
    assert i !in p && i !in q;
  }
}
