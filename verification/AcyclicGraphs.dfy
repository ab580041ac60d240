/** Acyclic graphs: non-empty paths, topological numberings and descendants. */
module AcyclicGraphs {
  import opened Graphs

  /** A path of at least one edge runs from u to v. */
  ghost predicate HasPath(g: Graph, u: int, v: int) {
    exists p :: PathFromTo(g, p, u, v) && |p| > 1
  }

  ghost predicate Acyclic(g: Graph) {
    forall u :: !HasPath(g, u, u)
  }

  /** Every edge leads to a larger number. */
  ghost predicate Upward(g: Graph) {
    forall u, v :: Edge(g, u, v) ==> u < v
  }

  lemma EdgeHasPath(g: Graph, u: int, v: int)
    requires Edge(g, u, v)
    ensures HasPath(g, u, v)
  {
    EdgePath(g, u, v);
  }

  lemma HasPathTransitive(g: Graph, u: int, v: int, w: int)
    requires HasPath(g, u, v) && HasPath(g, v, w)
    ensures HasPath(g, u, w)
  {
    var p :| PathFromTo(g, p, u, v) && |p| > 1;
    var q :| PathFromTo(g, q, v, w) && |q| > 1;
    PathConcat(g, p, q);
  }

  /** A non-empty path is one edge, or an edge followed by a non-empty path. */
  lemma HasPathFirstEdge(g: Graph, u: int, w: int)
    ensures HasPath(g, u, w) <==> Edge(g, u, w) || exists v :: Edge(g, u, v) && HasPath(g, v, w)
  {
    if HasPath(g, u, w) && !Edge(g, u, w) {
      var p :| PathFromTo(g, p, u, w) && |p| > 1;
      assert Edge(g, p[0], p[1]) && |p| > 2;
      SubPath(g, p, 1, |p| - 1);
      assert HasPath(g, p[1], w);
    }
    if Edge(g, u, w) { EdgeHasPath(g, u, w); }
    if v :| Edge(g, u, v) && HasPath(g, v, w) {
      EdgeHasPath(g, u, v);
      HasPathTransitive(g, u, v, w);
    }
  }

  lemma {:induction false} UpwardPath(g: Graph, p: seq<int>)
    requires Upward(g) && IsPath(g, p)
    ensures forall i, j :: 0 <= i < j < |p| ==> p[i] < p[j]
  {
    if |p| <= 1 {
    } else {
      var n := |p| - 1;
      assert Edge(g, p[n - 1], p[n]);
      SubPath(g, p, 0, n - 1);
      assert p[0..n] == p[..n];
      UpwardPath(g, p[..n]);
      forall i, j | 0 <= i < j < |p|
        ensures p[i] < p[j]
      {
        if j == n {
          assert i == n - 1 || p[..n][i] < p[..n][n - 1];
        } else {
          assert p[..n][i] < p[..n][j];
        }
      }
    }
  }

  lemma UpwardAcyclic(g: Graph)
    requires Upward(g)
    ensures Acyclic(g) && forall u, v :: HasPath(g, u, v) ==> u < v
  {
    forall u, v | HasPath(g, u, v)
      ensures u < v
    {
      var p :| PathFromTo(g, p, u, v) && |p| > 1;
      UpwardPath(g, p);
    }
  }

  /** A path in an acyclic graph visits no vertex twice, so it is no longer than the graph. */
  lemma AcyclicPathLength(g: Graph, p: seq<int>)
    requires Acyclic(g) && IsPath(g, p)
    ensures |p| <= |g| && forall i, j :: 0 <= i < j < |p| ==> p[i] != p[j]
  {
    forall i, j | 0 <= i < j < |p|
      ensures p[i] != p[j]
    {
      SubPath(g, p, i, j);
      assert |p[i..j + 1]| > 1;
      assert HasPath(g, p[i], p[j]);
    }
    DistinctLength(p, |g|);
  }

  lemma {:induction false} DistinctLength(p: seq<int>, n: nat)
    requires forall i :: 0 <= i < |p| ==> 0 <= p[i] < n
    requires forall i, j :: 0 <= i < j < |p| ==> p[i] != p[j]
    ensures |p| <= n
    decreases n
  {
    if |p| == 0 {
    } else {
      assert 0 <= p[0] < n;
      if n - 1 in p {
        var k :| 0 <= k < |p| && p[k] == n - 1;
        DistinctLength(p[..k] + p[k + 1..], n - 1);
      } else {
        DistinctLength(p, n - 1);
      }
    }
  }

  // ------------------------------------------------------------ descendants

  ghost function Descendants(g: Graph, u: int): set<int> {
    set v | 0 <= v < |g| && HasPath(g, u, v)
  }

  /** A vertex has strictly more descendants than any of its descendants. */
  lemma FewerDescendants(g: Graph, u: int, v: int)
    requires Acyclic(g) && HasPath(g, u, v)
    ensures |Descendants(g, v)| < |Descendants(g, u)|
  {
    forall w | w in Descendants(g, v)
      ensures w in Descendants(g, u)
    {
      HasPathTransitive(g, u, v, w);
    }
    assert v in Descendants(g, u) && v !in Descendants(g, v);
    ProperSubset(Descendants(g, v), Descendants(g, u));
  }

  lemma ProperSubset(a: set<int>, b: set<int>)
    requires a < b
    ensures |a| < |b|
  {
    assert b == a + (b - a) && b - a != {};
  }
}
