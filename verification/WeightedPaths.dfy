/** Longest weighted paths in a topologically numbered graph: what relaxing the edges in
    order computes, and the priorities that follow. */
module WeightedPaths {
  import opened Graphs
  import opened AcyclicGraphs

  const INT_MIN: int := -0x8000_0000
  const INT_MAX: int := 0x7fff_ffff

  ghost function At(cycles: seq<nat>, v: int): nat {
    if 0 <= v < |cycles| then cycles[v] else 0
  }

  /** The cycles of every vertex of the path but the last. */
  ghost function Weight(cycles: seq<nat>, p: seq<int>): nat {
    if |p| <= 1 then 0 else At(cycles, p[0]) + Weight(cycles, p[1..])
  }

  ghost function SumFrom(cycles: seq<nat>, i: nat): nat
    decreases |cycles| - i
  {
    if i >= |cycles| then 0 else cycles[i] + SumFrom(cycles, i + 1)
  }

  lemma {:induction false} WeightAppend(cycles: seq<nat>, p: seq<int>, v: int)
    requires |p| > 0
    ensures Weight(cycles, p + [v]) == Weight(cycles, p) + At(cycles, p[|p| - 1])
  {
    if |p| == 1 {
      assert (p + [v])[1..] == [v];
    } else {
      assert (p + [v])[1..] == p[1..] + [v];
      WeightAppend(cycles, p[1..], v);
    }
  }

  lemma {:induction false} SumFromMonotone(cycles: seq<nat>, i: nat, j: nat)
    requires i <= j
    ensures SumFrom(cycles, j) <= SumFrom(cycles, i)
    decreases j - i
  {
    if i >= j {
    } else {
      SumFromMonotone(cycles, i + 1, j);
    }
  }

  /** An upward path visits a vertex at most once, so it weighs no more than all the cycles. */
  lemma {:induction false} WeightBounded(g: Graph, cycles: seq<nat>, p: seq<int>)
    requires Upward(g) && IsPath(g, p) && |cycles| == |g|
    ensures Weight(cycles, p) <= SumFrom(cycles, p[0])
  {
    if |p| <= 1 {
    } else {
      SubPath(g, p, 1, |p| - 1);
      assert p[1..|p| - 1 + 1] == p[1..];
      WeightBounded(g, cycles, p[1..]);
      assert Edge(g, p[0], p[1]);
      SumFromMonotone(cycles, p[0] + 1, p[1]);
    }
  }

  // ------------------------------------------------------------ relaxation

  /** The last edge of p leaves a vertex below i, or is one of the first j edges of i. */
  ghost predicate Considered(g: Graph, i: int, j: int, p: seq<int>) {
    && |p| > 0
    && (|p| > 1 ==> p[|p| - 2] < i || (p[|p| - 2] == i && 0 <= i < |g| && 0 <= j <= |g[i]| && p[|p| - 1] in g[i][..j]))
  }

  /** The distance of v: the weight of some path from s, and at least that of every
      considered path; INT_MIN only when there is no considered path. */
  ghost predicate Relaxed(g: Graph, cycles: seq<nat>, s: int, i: int, j: int, distances: seq<int>, v: int) {
    && 0 <= v < |distances|
    && (distances[v] == INT_MIN || exists p :: PathFromTo(g, p, s, v) && Weight(cycles, p) == distances[v])
    && forall p {:trigger Considered(g, i, j, p)} :: PathFromTo(g, p, s, v) && Considered(g, i, j, p) ==>
         distances[v] >= 0 && Weight(cycles, p) <= distances[v]
  }

  ghost predicate AllRelaxed(g: Graph, cycles: seq<nat>, s: int, i: int, j: int, distances: seq<int>) {
    && |distances| == |g| == |cycles|
    && forall v {:trigger Relaxed(g, cycles, s, i, j, distances, v)} :: 0 <= v < |g| ==>
         Relaxed(g, cycles, s, i, j, distances, v)
  }

  lemma RelaxedAtStart(g: Graph, cycles: seq<nat>, s: int, distances: seq<int>)
    requires |distances| == |g| == |cycles| && 0 <= s < |g| && distances[s] == 0
    requires forall v :: 0 <= v < |g| && v != s ==> distances[v] == INT_MIN
    ensures AllRelaxed(g, cycles, s, 0, 0, distances)
  {
    assert PathFromTo(g, [s], s, s) && Weight(cycles, [s]) == 0;
    forall v | 0 <= v < |g|
      ensures Relaxed(g, cycles, s, 0, 0, distances, v)
    {
      forall p | PathFromTo(g, p, s, v) && Considered(g, 0, 0, p)
        ensures distances[v] >= 0 && Weight(cycles, p) <= distances[v]
      {
        assert |p| == 1;
      }
    }
  }

  /** All paths to u are considered before the edges leaving u are. */
  lemma AllConsidered(g: Graph, u: int, p: seq<int>)
    requires Upward(g) && IsPath(g, p) && p[|p| - 1] == u
    ensures Considered(g, u, 0, p)
  {
  }

  /** Moving on to the next vertex. */
  lemma NextVertex(g: Graph, cycles: seq<nat>, s: int, i: int, j: int, distances: seq<int>, next: int)
    requires AllRelaxed(g, cycles, s, i, j, distances) && 0 <= i < |g| && next == i + 1
    requires j == |g[i]| || (j == 0 && distances[i] == INT_MIN && Upward(g))
    ensures AllRelaxed(g, cycles, s, next, 0, distances)
  {
    forall v | 0 <= v < |g|
      ensures Relaxed(g, cycles, s, next, 0, distances, v)
    {
      assert Relaxed(g, cycles, s, i, j, distances, v) && Relaxed(g, cycles, s, i, j, distances, i);
      forall p | PathFromTo(g, p, s, v) && Considered(g, next, 0, p)
        ensures distances[v] >= 0 && Weight(cycles, p) <= distances[v]
      {
        if |p| > 1 && p[|p| - 2] == i {
          assert Edge(g, i, v);
          SubPath(g, p, 0, |p| - 2);
          if j == 0 && distances[i] == INT_MIN {
            AllConsidered(g, i, p[0..|p| - 2 + 1]);
          }
          assert j == |g[i]| && g[i][..j] == g[i];
        }
        assert Considered(g, i, j, p);
      }
    }
  }

  /** What relaxing the edge to w does to the distances. */
  function RelaxEdge(distances: seq<int>, u: int, w: int, weight: int): (d: seq<int>)
    requires 0 <= u < |distances| && 0 <= w < |distances|
    ensures |d| == |distances|
  {
    if distances[u] + weight > distances[w] then distances[w := distances[u] + weight] else distances
  }

  lemma NoOverflow(g: Graph, cycles: seq<nat>, s: int, i: int, j: int, distances: seq<int>)
    requires Upward(g) && AllRelaxed(g, cycles, s, i, j, distances) && 0 <= i < |g| && 0 <= j < |g[i]| && g[i][j] < |g|
    requires distances[i] != INT_MIN && SumFrom(cycles, 0) <= INT_MAX
    ensures 0 <= distances[i] && distances[i] + cycles[i] <= INT_MAX
    ensures exists p :: PathFromTo(g, p, s, g[i][j]) && Weight(cycles, p) == distances[i] + cycles[i]
  {
    assert Relaxed(g, cycles, s, i, j, distances, i);
    var p :| PathFromTo(g, p, s, i) && Weight(cycles, p) == distances[i];
    EdgePath(g, i, g[i][j]);
    PathConcat(g, p, [i, g[i][j]]);
    assert p + [i, g[i][j]][1..] == p + [g[i][j]];
    WeightAppend(cycles, p, g[i][j]);
    WeightBounded(g, cycles, p + [g[i][j]]);
    SumFromMonotone(cycles, 0, p[0]);
  }

  lemma RelaxOne(g: Graph, cycles: seq<nat>, s: int, i: int, j: int, distances: seq<int>, more: int)
    requires Upward(g) && AllRelaxed(g, cycles, s, i, j, distances) && 0 <= i < |g| && 0 <= j < |g[i]| && g[i][j] < |g|
    requires distances[i] != INT_MIN && SumFrom(cycles, 0) <= INT_MAX && more == j + 1
    ensures AllRelaxed(g, cycles, s, i, more, RelaxEdge(distances, i, g[i][j], cycles[i]))
  {
    var w := g[i][j];
    var d := RelaxEdge(distances, i, w, cycles[i]);
    NoOverflow(g, cycles, s, i, j, distances);
    assert g[i][..more] == g[i][..j] + [w];
    forall v | 0 <= v < |g|
      ensures Relaxed(g, cycles, s, i, more, d, v)
    {
      assert Relaxed(g, cycles, s, i, j, distances, v);
      forall p | PathFromTo(g, p, s, v) && Considered(g, i, more, p)
        ensures d[v] >= 0 && Weight(cycles, p) <= d[v]
      {
        if !Considered(g, i, j, p) {
          PathThroughEdge(g, cycles, s, i, j, distances, p);
        }
      }
    }
  }

  /** A path whose last edge is the one being relaxed. */
  lemma PathThroughEdge(g: Graph, cycles: seq<nat>, s: int, i: int, j: int, distances: seq<int>, p: seq<int>)
    requires Upward(g) && AllRelaxed(g, cycles, s, i, j, distances) && 0 <= i < |g|
    requires IsPath(g, p) && p[0] == s && |p| > 1 && p[|p| - 2] == i
    ensures 0 <= distances[i] && Weight(cycles, p) <= distances[i] + cycles[i]
  {
    var q := p[..|p| - 1];
    SubPath(g, p, 0, |p| - 2);
    assert p[0..|p| - 2 + 1] == q;
    assert Relaxed(g, cycles, s, i, j, distances, i);
    AllConsidered(g, i, q);
    assert Considered(g, i, j, q);
    assert p == q + [p[|p| - 1]];
    WeightAppend(cycles, q, p[|p| - 1]);
  }

  // ------------------------------------------------------------ priorities

  ghost predicate IsRoot(g: Graph, v: int) {
    0 <= v < |g| && g[v] == []
  }

  ghost predicate PathToRoot(g: Graph, p: seq<int>, u: int) {
    IsPath(g, p) && p[0] == u && IsRoot(g, p[|p| - 1])
  }

  /** d is the weight of the heaviest path from u to any root. */
  ghost predicate IsPriority(g: Graph, cycles: seq<nat>, u: int, d: int) {
    && (exists p :: PathToRoot(g, p, u) && Weight(cycles, p) == d)
    && forall p :: PathToRoot(g, p, u) ==> Weight(cycles, p) <= d
  }

  /** From every vertex some path leads to a root. */
  lemma {:induction false} ReachesRoot(g: Graph, u: int) returns (p: seq<int>)
    requires WellFormed(g) && Upward(g) && 0 <= u < |g|
    ensures PathToRoot(g, p, u)
    decreases |g| - u
  {
    if g[u] == [] {
      p := [u];
    } else {
      var v := g[u][0];
      assert Edge(g, u, v);
      var q := ReachesRoot(g, v);
      p := [u] + q;
      EdgePath(g, u, v);
      PathConcat(g, [u, v], q);
      assert [u, v] + q[1..] == p;
    }
  }

  lemma PriorityOfRoot(g: Graph, cycles: seq<nat>, u: int, d: int)
    requires IsRoot(g, u)
    ensures IsPriority(g, cycles, u, d) <==> d == 0
  {
    assert PathToRoot(g, [u], u) && Weight(cycles, [u]) == 0;
    forall p | PathToRoot(g, p, u)
      ensures Weight(cycles, p) == 0
    {
      assert |p| > 1 ==> Edge(g, p[0], p[1]);
    }
  }

  /** Over an edge the priority falls by at least the cycles of its source. */
  lemma PriorityFalls(g: Graph, cycles: seq<nat>, u: int, v: int, du: int, dv: int)
    requires Edge(g, u, v) && |cycles| == |g| && IsPriority(g, cycles, u, du) && IsPriority(g, cycles, v, dv)
    ensures du >= cycles[u] + dv
    ensures cycles[u] >= 1 ==> du > dv
  {
    var q :| PathToRoot(g, q, v) && Weight(cycles, q) == dv;
    EdgePath(g, u, v);
    PathConcat(g, [u, v], q);
    assert [u, v] + q[1..] == [u] + q;
    assert ([u] + q)[1..] == q;
    assert PathToRoot(g, [u] + q, u);
  }

  /** Over some edge it falls by exactly the cycles of its source: the priority of a vertex
      that is not a root is its cycles plus the largest priority of its successors. */
  lemma PriorityAttained(g: Graph, cycles: seq<nat>, u: int, du: int, priorities: seq<int>) returns (v: int)
    requires WellFormed(g) && |cycles| == |g| == |priorities| && 0 <= u < |g| && g[u] != []
    requires IsPriority(g, cycles, u, du)
    requires forall w {:trigger priorities[w]} :: 0 <= w < |g| ==> IsPriority(g, cycles, w, priorities[w])
    ensures Edge(g, u, v) && du == cycles[u] + priorities[v]
    ensures forall w :: Edge(g, u, w) ==> priorities[w] <= priorities[v]
  {
    var p :| PathToRoot(g, p, u) && Weight(cycles, p) == du;
    v := p[1];
    assert Edge(g, p[0], p[1]);
    SubPath(g, p, 1, |p| - 1);
    assert p[1..|p| - 1 + 1] == p[1..];
    assert PathToRoot(g, p[1..], v);
    forall w | Edge(g, u, w)
      ensures priorities[w] <= priorities[v]
    {
      PriorityFalls(g, cycles, u, w, du, priorities[w]);
    }
    PriorityFalls(g, cycles, u, v, du, priorities[v]);
  }
}
