/** Finite directed graphs on the vertices 0, 1, ..., |g|-1, given by successor
    lists, with the path-based definitions of reachability and dominance that
    the compiler's control-flow analyses are stated against. */
module Graphs {

  type Graph = seq<seq<nat>>

  ghost predicate WellFormed(g: Graph) {
    forall u, k :: 0 <= u < |g| && 0 <= k < |g[u]| ==> g[u][k] < |g|
  }

  ghost predicate Edge(g: Graph, u: int, v: int) {
    0 <= u < |g| && 0 <= v < |g| && v in g[u]
  }

  ghost predicate IsPath(g: Graph, p: seq<int>) {
    && |p| > 0
    && (forall k :: 0 <= k < |p| ==> 0 <= p[k] < |g|)
    && (forall k :: 0 <= k < |p| - 1 ==> Edge(g, p[k], p[k + 1]))
  }

  ghost predicate PathFromTo(g: Graph, p: seq<int>, u: int, v: int) {
    IsPath(g, p) && p[0] == u && p[|p| - 1] == v
  }

  ghost predicate Reachable(g: Graph, u: int, v: int) {
    exists p :: PathFromTo(g, p, u, v)
  }

  /** d lies on every path from the root r to v. */
  ghost predicate Dominates(g: Graph, r: int, d: int, v: int) {
    forall p :: PathFromTo(g, p, r, v) ==> d in p
  }

  ghost predicate StrictlyDominates(g: Graph, r: int, d: int, v: int) {
    d != v && Dominates(g, r, d, v)
  }

  /** d is the strict dominator of v that every other strict dominator of v dominates. */
  ghost predicate IsImmediateDominator(g: Graph, r: int, d: int, v: int) {
    && 0 <= d < |g|
    && StrictlyDominates(g, r, d, v)
    && forall x :: StrictlyDominates(g, r, x, v) ==> Dominates(g, r, x, d)
  }

  // ---------------------------------------------------------------- paths

  lemma PathConcat(g: Graph, p: seq<int>, q: seq<int>)
    requires IsPath(g, p) && IsPath(g, q) && p[|p| - 1] == q[0]
    ensures PathFromTo(g, p + q[1..], p[0], q[|q| - 1])
    ensures forall x :: x in p + q[1..] <==> x in p || x in q
  {
  }

  lemma SubPath(g: Graph, p: seq<int>, i: nat, j: nat)
    requires IsPath(g, p) && i <= j < |p|
    ensures PathFromTo(g, p[i..j + 1], p[i], p[j])
  {
  }

  lemma EdgePath(g: Graph, u: int, v: int)
    requires Edge(g, u, v)
    ensures PathFromTo(g, [u, v], u, v)
  {
  }

  // ------------------------------------------------------------ dominance

  lemma DominatesReflexive(g: Graph, r: int, v: int)
    ensures Dominates(g, r, v, v)
  {
  }

  /** A dominator of a reachable vertex is itself reachable. */
  lemma DominatorReachable(g: Graph, r: int, d: int, v: int)
    requires Reachable(g, r, v) && Dominates(g, r, d, v)
    ensures 0 <= d < |g| && Reachable(g, r, d)
  {
    var p :| PathFromTo(g, p, r, v);
    var k :| 0 <= k < |p| && p[k] == d;
    SubPath(g, p, 0, k);
  }

  lemma DominatesTransitive(g: Graph, r: int, a: int, b: int, c: int)
    requires Dominates(g, r, a, b) && Dominates(g, r, b, c)
    ensures Dominates(g, r, a, c)
  {
    forall p | PathFromTo(g, p, r, c)
      ensures a in p
    {
      var k :| 0 <= k < |p| && p[k] == b;
      SubPath(g, p, 0, k);
      assert a in p[0..k + 1];
    }
  }

  /** Two vertices that dominate each other are equal: otherwise every path to one
      has a shorter path to the same vertex as a prefix. */
  lemma {:induction false} NoMutualDominance(g: Graph, r: int, a: int, b: int, p: seq<int>)
    requires PathFromTo(g, p, r, a) && Dominates(g, r, a, b) && Dominates(g, r, b, a)
    ensures a == b
    decreases |p|
  {
    if a == b {
    } else {
      var k :| 0 <= k < |p| && p[k] == b;
      SubPath(g, p, 0, k);
      var q := p[0..k + 1];
      var j :| 0 <= j < |q| && q[j] == a;
      SubPath(g, p, 0, j);
      NoMutualDominance(g, r, a, b, p[0..j + 1]);
    }
  }

  lemma DominatesAntisymmetric(g: Graph, r: int, a: int, b: int)
    requires Reachable(g, r, a) && Dominates(g, r, a, b) && Dominates(g, r, b, a)
    ensures a == b
  {
    var p :| PathFromTo(g, p, r, a);
    NoMutualDominance(g, r, a, b, p);
  }

  lemma ImmediateDominatorUnique(g: Graph, r: int, d: int, e: int, v: int)
    requires Reachable(g, r, v)
    requires IsImmediateDominator(g, r, d, v) && IsImmediateDominator(g, r, e, v)
    ensures d == e
  {
    DominatorReachable(g, r, d, v);
    DominatesAntisymmetric(g, r, d, e);
  }

  /** A strict dominator of v dominates every reachable predecessor of v. */
  lemma StrictDominatorOfPredecessor(g: Graph, r: int, d: int, u: int, v: int)
    requires StrictlyDominates(g, r, d, v) && Edge(g, u, v)
    ensures Dominates(g, r, d, u)
  {
    forall p | PathFromTo(g, p, r, u)
      ensures d in p
    {
      EdgePath(g, u, v);
      PathConcat(g, p, [u, v]);
      assert d in p + [u, v][1..];
    }
  }

  /** The dominators of the root are the root alone. */
  lemma RootDominators(g: Graph, r: int, d: int)
    requires 0 <= r < |g| && Dominates(g, r, d, r)
    ensures d == r
  {
    assert PathFromTo(g, [r], r, r);
  }

  lemma RootDominatesAll(g: Graph, r: int, v: int)
    ensures Dominates(g, r, r, v)
  {
  }
}
