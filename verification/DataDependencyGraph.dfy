/** The data dependency graph of a block: adding dependences, the in-place topological
    sort, the adjacency matrix with its transitive closure, and tie breaking. */
module DataDependencyGraph {
  import opened Instructions
  import opened Graphs
  import opened AcyclicGraphs
  import opened BitMatrices
  import opened DynamicArrays

  class DependencyNode {
    var neighbors: seq<DependencyNode>
    const instruction: Instruction
    var cyclesToComplete: nat
    var priority: int
    var reliedOnByCount: nat
    var reliesOnCount: nat
    var index: nat
    var visited: bool

    constructor (instruction: Instruction, cycles: nat)
      ensures this.instruction == instruction && neighbors == []
      ensures cyclesToComplete == cycles
      ensures priority == 0 && reliedOnByCount == 0 && reliesOnCount == 0 && index == 0 && !visited
    {
      this.instruction, neighbors := instruction, [];
      cyclesToComplete, priority := cycles, 0;
      reliedOnByCount, reliesOnCount, index, visited := 0, 0, 0, false;
    }
  }

  // ------------------------------------------------- the graph of the nodes

  ghost function IndexOf(nodes: seq<DependencyNode>, node: DependencyNode): (i: nat)
    ensures node in nodes ==> i < |nodes| && nodes[i] == node
  {
    if node in nodes then var i :| 0 <= i < |nodes| && nodes[i] == node; i else 0
  }

  ghost function Indices(nodes: seq<DependencyNode>, some: seq<DependencyNode>): (s: seq<nat>)
    ensures |s| == |some| && forall k :: 0 <= k < |some| ==> s[k] == IndexOf(nodes, some[k])
  {
    seq(|some|, k requires 0 <= k < |some| => IndexOf(nodes, some[k]))
  }

  ghost function GraphFrom(nodes: seq<DependencyNode>, n: nat): (g: Graph)
    requires n <= |nodes|
    reads nodes`neighbors
    ensures |g| == n && forall v {:trigger g[v]} :: 0 <= v < n ==> g[v] == Indices(nodes, nodes[v].neighbors)
  {
    if n == 0 then [] else GraphFrom(nodes, n - 1) + [Indices(nodes, nodes[n - 1].neighbors)]
  }

  /** The graph on the positions of the nodes; an edge leads to a node that depends on its source. */
  ghost function GraphOf(nodes: seq<DependencyNode>): (g: Graph)
    reads nodes`neighbors
    ensures |g| == |nodes|
    ensures forall v {:trigger g[v]} :: 0 <= v < |nodes| ==> g[v] == Indices(nodes, nodes[v].neighbors)
  {
    GraphFrom(nodes, |nodes|)
  }

  ghost predicate NeighborsWithin(nodes: seq<DependencyNode>, v: int)
    reads nodes`neighbors
  {
    0 <= v < |nodes| && forall k :: 0 <= k < |nodes[v].neighbors| ==> nodes[v].neighbors[k] in nodes
  }

  /** Different nodes, whose neighbors are nodes of the graph too. */
  ghost predicate Closed(nodes: seq<DependencyNode>)
    reads nodes`neighbors
  {
    && Distinct(nodes)
    && forall v {:trigger NeighborsWithin(nodes, v)} :: 0 <= v < |nodes| ==> NeighborsWithin(nodes, v)
  }

  lemma EdgeIsNeighbor(nodes: seq<DependencyNode>, u: int, v: int)
    requires Closed(nodes) && 0 <= u < |nodes| && 0 <= v < |nodes|
    ensures Edge(GraphOf(nodes), u, v) <==> nodes[v] in nodes[u].neighbors
  {
    assert NeighborsWithin(nodes, u);
    var g := GraphOf(nodes);
    assert g[u] == Indices(nodes, nodes[u].neighbors);
    if v in g[u] {
      var k :| 0 <= k < |g[u]| && g[u][k] == v;
      assert nodes[u].neighbors[k] in nodes;
    }
    if nodes[v] in nodes[u].neighbors {
      var k :| 0 <= k < |nodes[u].neighbors| && nodes[u].neighbors[k] == nodes[v];
      assert g[u][k] == v;
    }
  }

  // ------------------------------------------------------- topological sort

  /** A finished part of the traversal: every vertex comes after all its successors. */
  ghost predicate PostOrder(g: Graph, done: seq<int>) {
    && (forall k {:trigger done[k]} :: 0 <= k < |done| ==> 0 <= done[k] < |g|)
    && Distinct(done)
    && forall k {:trigger done[k]} :: 0 <= k < |done| ==> SuccessorsIn(g, done[k], done[..k])
  }

  ghost predicate SuccessorsIn(g: Graph, v: int, some: seq<int>) {
    0 <= v < |g| && forall k :: 0 <= k < |g[v]| ==> g[v][k] in some
  }

  /** The visited flags and the output buffer both say which vertices are done. */
  ghost predicate Marked(nodes: seq<DependencyNode>, sorted: seq<DependencyNode>, done: seq<int>)
    reads nodes`visited
  {
    && (forall v {:trigger nodes[v]} :: 0 <= v < |nodes| ==> (nodes[v].visited <==> v in done))
    && |sorted| == |done|
    && forall k {:trigger sorted[k]} {:trigger done[k]} :: 0 <= k < |done| ==>
         0 <= done[k] < |nodes| && sorted[k] == nodes[done[k]]
  }

  lemma PostOrderAppend(g: Graph, done: seq<int>, v: int)
    requires PostOrder(g, done) && SuccessorsIn(g, v, done) && v !in done
    ensures PostOrder(g, done + [v])
  {
    var next := done + [v];
    forall k | 0 <= k < |next|
      ensures SuccessorsIn(g, next[k], next[..k])
    {
      if k < |done| {
        assert next[..k] == done[..k];
      } else {
        assert next[..k] == done;
      }
    }
  }

  /** path is the chain of callers of the visit of v; none of them is done. */
  ghost predicate OnStack(g: Graph, path: seq<int>, v: int, done: seq<int>) {
    && IsPath(g, path + [v])
    && forall x :: x in path ==> x !in done
  }

  /** In an acyclic graph the vertex being visited is not one of its callers, and one more
      call on a successor is still a path. */
  lemma VisitSuccessor(g: Graph, path: seq<int>, v: int, done: seq<int>)
    requires Acyclic(g) && 0 <= v < |g| && OnStack(g, path, v, done)
    ensures |path| < |g| && v !in path
    ensures v !in done ==>
              forall k {:trigger g[v][k]} :: 0 <= k < |g[v]| && g[v][k] < |g| ==> OnStack(g, path + [v], g[v][k], done)
  {
    AcyclicPathLength(g, path + [v]);
    assert forall k :: 0 <= k < |path| ==> (path + [v])[k] != (path + [v])[|path|];
    assert forall k :: 0 <= k < |path| ==> path[k] == (path + [v])[k];
    forall k | v !in done && 0 <= k < |g[v]| && g[v][k] < |g|
      ensures OnStack(g, path + [v], g[v][k], done)
    {
      EdgePath(g, v, g[v][k]);
      PathConcat(g, path + [v], [v, g[v][k]]);
      assert path + [v] + [v, g[v][k]][1..] == path + [v] + [g[v][k]];
    }
  }

  lemma PrefixWithin(done: seq<int>, done': seq<int>)
    requires done <= done'
    ensures forall v {:trigger v in done} {:trigger v in done'} :: v in done ==> v in done'
  {
  }

  /** The first i successors are done. */
  ghost predicate FirstDone(successors: seq<nat>, i: int, done: seq<int>) {
    forall k {:trigger successors[k]} :: 0 <= k < i && k < |successors| ==> successors[k] in done
  }

  lemma OneMoreDone(successors: seq<nat>, i: int, done: seq<int>, done': seq<int>, next: int)
    requires FirstDone(successors, i, done) && done <= done' && 0 <= i < |successors| && successors[i] in done' && next == i + 1
    ensures FirstDone(successors, next, done')
  {
  }

  /** What a visit of v adds is v and what v leads to. */
  ghost predicate OnlyFrom(g: Graph, v: int, done: seq<int>, done': seq<int>) {
    forall x {:trigger x in done'} :: x in done' ==> x in done || x == v || HasPath(g, v, x)
  }

  lemma OnlyFromSuccessor(g: Graph, v: int, w: int, done: seq<int>, before: seq<int>, after: seq<int>)
    requires Edge(g, v, w) && OnlyFrom(g, v, done, before) && OnlyFrom(g, w, before, after)
    ensures OnlyFrom(g, v, done, after)
  {
    EdgeHasPath(g, v, w);
    forall x | x in after && x !in before && x != w
      ensures HasPath(g, v, x)
    {
      HasPathTransitive(g, v, w, x);
    }
  }

  /** Marking v visited and adding it to the buffer. */
  method MarkVisited(node: DependencyNode, sorted: seq<DependencyNode>, ghost nodes: seq<DependencyNode>,
                     ghost v: int, ghost done: seq<int>)
    returns (sorted': seq<DependencyNode>)
    requires Distinct(nodes) && 0 <= v < |nodes| && nodes[v] == node && Marked(nodes, sorted, done)
    modifies node`visited
    ensures Marked(nodes, sorted', done + [v])
  {
    node.visited := true;
    sorted' := sorted + [node];
  }

  /** topological_sort_visit_node. */
  method TopologicalSortVisitNode(node: DependencyNode, sorted: seq<DependencyNode>, ghost nodes: seq<DependencyNode>,
                                  ghost g: Graph, ghost path: seq<int>, ghost v: int, ghost done: seq<int>)
    returns (sorted': seq<DependencyNode>, ghost done': seq<int>)
    requires Closed(nodes) && g == GraphOf(nodes) && Acyclic(g)
    requires 0 <= v < |nodes| && nodes[v] == node && OnStack(g, path, v, done)
    requires Marked(nodes, sorted, done) && PostOrder(g, done)
    modifies nodes`visited
    ensures Marked(nodes, sorted', done') && PostOrder(g, done')
    ensures done <= done' && v in done' && OnStack(g, path, v, done') && OnlyFrom(g, v, done, done')
    decreases |g| - |path|
  {
    sorted', done' := sorted, done;
    VisitSuccessor(g, path, v, done');
    if node.visited {
      return;
    }
    assert NeighborsWithin(nodes, v);
    var i := 0;
    while i < |node.neighbors|
      invariant 0 <= i <= |node.neighbors|
      invariant Marked(nodes, sorted', done') && PostOrder(g, done')
      invariant done <= done' && v !in done' && OnStack(g, path, v, done')
      invariant FirstDone(g[v], i, done') && OnlyFrom(g, v, done, done')
    {
      VisitSuccessor(g, path, v, done');
      ghost var w := g[v][i];
      ghost var before := done';
      sorted', done' := TopologicalSortVisitNode(node.neighbors[i], sorted', nodes, g, path + [v], w, done');
      assert v in path + [v];
      ghost var next := i + 1;
      OneMoreDone(g[v], i, before, done', next);
      OnlyFromSuccessor(g, v, w, done, before, done');
      i := i + 1;
    }
    PostOrderAppend(g, done', v);
    sorted' := MarkVisited(node, sorted', nodes, v, done');
    done' := done' + [v];
  }

  // ------------------------------------------------- building the graph

  class DependencyGraph {
    const nodeCount: nat
    var nodes: seq<DependencyNode>
    const adjacencyMatrix: array<int>
    const transitiveClosure: array<int>

    /** dependency_graph_alloc: room for the nodes, and two matrices of zeros. */
    constructor (nodeCount: nat)
      ensures this.nodeCount == nodeCount && nodes == []
      ensures fresh(adjacencyMatrix) && fresh(transitiveClosure) && adjacencyMatrix != transitiveClosure
      ensures Holds(adjacencyMatrix[..], nodeCount, {}) && Holds(transitiveClosure[..], nodeCount, {})
    {
      var adjacency := new int[nodeCount * nodeCount](_ => 0);
      var closure := new int[nodeCount * nodeCount](_ => 0);
      this.nodeCount, nodes := nodeCount, [];
      adjacencyMatrix, transitiveClosure := adjacency, closure;
      new;
      ZeroMatrix(adjacencyMatrix[..], nodeCount);
      ZeroMatrix(transitiveClosure[..], nodeCount);
    }
  }

  /** Every node has been added, and the node count fits its 16 bits. */
  ghost predicate Filled(graph: DependencyGraph)
    reads graph`nodes, graph.nodes`neighbors
  {
    |graph.nodes| == graph.nodeCount < 0x1_0000 && Closed(graph.nodes)
  }

  // What the reversal loop's int16_t counter holds.
  function Int16(x: int): (y: int)
    ensures -0x8000 <= y < 0x8000
    ensures -0x8000 <= x < 0x8000 ==> y == x
    ensures 0x8000 <= x < 0x1_0000 ==> y == x - 0x1_0000
  {
    (x + 0x8000) % 0x1_0000 - 0x8000
  }

  /** a lists the same different elements as b, in some order. */
  ghost predicate Permuted(a: seq<DependencyNode>, b: seq<DependencyNode>) {
    && |a| == |b| && Distinct(a) && Distinct(b)
    && (forall x {:trigger x in b} {:trigger x in a} :: x in a ==> x in b)
    && (forall x {:trigger x in b} {:trigger x in a} :: x in b ==> x in a)
  }

  method ResetVisitedStatus(graph: DependencyGraph)
    requires Distinct(graph.nodes)
    modifies graph.nodes`visited
    ensures Marked(graph.nodes, [], [])
  {
    for i := 0 to |graph.nodes|
      invariant forall k {:trigger graph.nodes[k]} :: 0 <= k < i ==> !graph.nodes[k].visited
    {
      graph.nodes[i].visited := false;
    }
  }

  ghost predicate AllBelow(n: int, done: seq<int>) {
    forall v :: 0 <= v < n ==> v in done
  }

  lemma AllDone(g: Graph, done: seq<int>)
    requires PostOrder(g, done) && AllBelow(|g|, done)
    ensures |done| == |g|
  {
    DistinctLength(done, |g|);
    var places := seq(|g|, v requires 0 <= v < |g| && v in done => PlaceOf(done, v));
    DistinctLength(places, |done|);
  }

  ghost function PlaceOf(s: seq<int>, x: int): (k: int)
    requires x in s
    ensures 0 <= k < |s| && s[k] == x
  {
    var k :| 0 <= k < |s| && s[k] == x;
    k
  }

  lemma OneMoreBelow(n: int, done: seq<int>, done': seq<int>, next: int)
    requires AllBelow(n, done) && done <= done' && n in done' && next == n + 1
    ensures AllBelow(next, done')
  {
    PrefixWithin(done, done');
  }

  /** w comes after u, and neither u nor anything before u leads to it. */
  ghost predicate StartsLater(g: Graph, u: int, w: int) {
    0 <= u < w < |g| && forall x {:trigger HasPath(g, x, w)} :: 0 <= x <= u ==> !HasPath(g, x, w)
  }

  /** u is finished while w is not. */
  ghost predicate FinishedBefore(done: seq<int>, u: int, w: int) {
    exists j {:trigger done[j]} :: 0 <= j < |done| && done[j] == u && w !in done[..j]
  }

  /** Each vertex below i is finished before those that start later. */
  ghost predicate InOrderOfStart(g: Graph, i: int, done: seq<int>) {
    forall u, w {:trigger StartsLater(g, u, w)} :: u < i && StartsLater(g, u, w) ==> FinishedBefore(done, u, w)
  }

  /** Everything finished is below i or reached from below i. */
  ghost predicate ReachedBelow(g: Graph, i: int, done: seq<int>) {
    forall x {:trigger x in done} :: x in done ==> x < i || exists u {:trigger HasPath(g, u, x)} :: 0 <= u < i && HasPath(g, u, x)
  }

  lemma NextStart(g: Graph, i: int, next: int, done: seq<int>, done': seq<int>)
    requires 0 <= i < |g| && next == i + 1 && done <= done' && i in done'
    requires ReachedBelow(g, i, done) && InOrderOfStart(g, i, done) && OnlyFrom(g, i, done, done')
    ensures ReachedBelow(g, next, done') && InOrderOfStart(g, next, done')
  {
    forall u, w | u < next && StartsLater(g, u, w)
      ensures FinishedBefore(done', u, w)
    {
      if u < i {
        var j :| 0 <= j < |done| && done[j] == u && w !in done[..j];
        assert done'[j] == u && done'[..j] == done[..j];
      } else {
        var j :| 0 <= j < |done'| && done'[j] == i;
        assert w !in done';
      }
    }
  }

  /** The traversal over all the nodes. */
  method SortInReverse(graph: DependencyGraph) returns (sorted: seq<DependencyNode>, ghost done: seq<int>)
    requires Filled(graph) && Acyclic(GraphOf(graph.nodes))
    modifies graph.nodes`visited
    ensures |done| == |sorted| == |graph.nodes| && PostOrder(GraphOf(graph.nodes), done)
    ensures forall k {:trigger sorted[k]} :: 0 <= k < |done| ==> sorted[k] == graph.nodes[done[k]]
    ensures AllBelow(|graph.nodes|, done) && InOrderOfStart(GraphOf(graph.nodes), |graph.nodes|, done)
  {
    ghost var g := GraphOf(graph.nodes);
    ResetVisitedStatus(graph);
    sorted, done := [], [];
    var i := 0;
    while i < |graph.nodes|
      invariant 0 <= i <= |graph.nodes|
      invariant Marked(graph.nodes, sorted, done) && PostOrder(g, done)
      invariant AllBelow(i, done) && ReachedBelow(g, i, done) && InOrderOfStart(g, i, done)
    {
      ghost var before, next := done, i + 1;
      if !graph.nodes[i].visited {
        assert OnStack(g, [], i, done);
        sorted, done := TopologicalSortVisitNode(graph.nodes[i], sorted, graph.nodes, g, [], i, done);
      }
      OneMoreBelow(i, before, done, next);
      NextStart(g, i, next, before, done);
      i := i + 1;
    }
    AllDone(g, done);
  }

  /** The reversal loop. Its 16-bit counter starts negative when there are more than 32768
      nodes, and then nothing is moved. */
  method ReverseIntoGraph(graph: DependencyGraph, sorted: seq<DependencyNode>)
    requires |sorted| == |graph.nodes| == graph.nodeCount < 0x1_0000 && Distinct(sorted)
    modifies graph`nodes, sorted`index
    ensures |graph.nodes| == graph.nodeCount
    ensures graph.nodeCount <= 0x8000 ==> forall j {:trigger graph.nodes[j]} :: 0 <= j < |sorted| ==>
              graph.nodes[j] == sorted[|sorted| - 1 - j] && graph.nodes[j].index == j
    ensures graph.nodeCount > 0x8000 ==> graph.nodes == old(graph.nodes)
    ensures graph.nodeCount > 0x8000 ==> forall k {:trigger sorted[k]} :: 0 <= k < |sorted| ==>
              sorted[k].index == old(sorted[k].index)
  {
    var n := graph.nodeCount;
    var i := Int16(|sorted| - 1);
    while i >= 0
      invariant -0x8000 <= i < |sorted| && |graph.nodes| == n
      invariant n <= 0x8000 ==> i >= -1
      invariant n > 0x8000 ==> i < 0 && graph.nodes == old(graph.nodes)
      invariant n > 0x8000 ==> forall k {:trigger sorted[k]} :: 0 <= k < |sorted| ==> sorted[k].index == old(sorted[k].index)
      invariant n <= 0x8000 ==> forall j {:trigger graph.nodes[j]} :: 0 <= j < n - 1 - i ==>
                  graph.nodes[j] == sorted[n - 1 - j] && graph.nodes[j].index == j
      decreases i
    {
      var node := sorted[i];
      var index := n - i - 1;
      node.index := index;
      graph.nodes := graph.nodes[index := node];
      i := i - 1;
    }
  }

  /** In the sorted nodes whatever starts later comes first. */
  ghost predicate LaterStartsFirst(nodes: seq<DependencyNode>, g: Graph, nodes': seq<DependencyNode>) {
    && |g| == |nodes|
    && forall u, w, a, b {:trigger StartsLater(g, u, w), nodes'[a], nodes'[b]} ::
         StartsLater(g, u, w) && 0 <= a < |nodes'| && 0 <= b < |nodes'| && nodes'[a] == nodes[u] && nodes'[b] == nodes[w] ==> b < a
  }

  lemma ReversedStarts(nodes: seq<DependencyNode>, g: Graph, sorted: seq<DependencyNode>, done: seq<int>, nodes': seq<DependencyNode>)
    requires Distinct(nodes) && |g| == |done| == |sorted| == |nodes| == |nodes'| && PostOrder(g, done) && InOrderOfStart(g, |g|, done)
    requires forall k {:trigger sorted[k]} :: 0 <= k < |done| ==> sorted[k] == nodes[done[k]]
    requires forall j {:trigger nodes'[j]} :: 0 <= j < |nodes| ==> nodes'[j] == sorted[|nodes| - 1 - j]
    ensures LaterStartsFirst(nodes, g, nodes')
  {
    forall u, w, a, b | StartsLater(g, u, w) && 0 <= a < |nodes'| && 0 <= b < |nodes'| && nodes'[a] == nodes[u] && nodes'[b] == nodes[w]
      ensures b < a
    {
      var i, j := |nodes| - 1 - a, |nodes| - 1 - b;
      assert done[i] == u && done[j] == w;
      var k :| 0 <= k < |done| && done[k] == u && w !in done[..k];
      assert k == i && j != i;
      assert forall m {:trigger done[m]} :: 0 <= m < k ==> done[m] in done[..k];
    }
  }

  /** Reversing a finished post-order gives a permutation whose edges all lead upward. */
  lemma ReversedPostOrder(nodes: seq<DependencyNode>, sorted: seq<DependencyNode>, done: seq<int>, nodes': seq<DependencyNode>)
    requires Closed(nodes) && |done| == |sorted| == |nodes| == |nodes'| && PostOrder(GraphOf(nodes), done)
    requires forall k {:trigger sorted[k]} :: 0 <= k < |done| ==> sorted[k] == nodes[done[k]]
    requires AllBelow(|nodes|, done)
    requires forall j {:trigger nodes'[j]} :: 0 <= j < |nodes| ==> nodes'[j] == sorted[|nodes| - 1 - j]
    ensures Permuted(nodes', nodes) && Closed(nodes') && Upward(GraphOf(nodes'))
  {
    forall x | x in nodes
      ensures x in nodes'
    {
      var v :| 0 <= v < |nodes| && nodes[v] == x;
      var k := PlaceOf(done, v);
      assert nodes'[|nodes| - 1 - k] == sorted[k];
    }
    forall x | x in nodes'
      ensures x in nodes
    {
      var j :| 0 <= j < |nodes'| && nodes'[j] == x;
      assert nodes'[j] == sorted[|nodes| - 1 - j];
    }
    assert Distinct(nodes') by {
      forall i, j | 0 <= i < j < |nodes'|
        ensures nodes'[i] != nodes'[j]
      {
        assert nodes'[i] == nodes[done[|nodes| - 1 - i]] && nodes'[j] == nodes[done[|nodes| - 1 - j]];
      }
    }
    forall a | 0 <= a < |nodes'|
      ensures NeighborsWithin(nodes', a)
    {
      assert nodes'[a] in nodes;
      var v :| 0 <= v < |nodes| && nodes[v] == nodes'[a];
      assert NeighborsWithin(nodes, v);
    }
    forall a, b | Edge(GraphOf(nodes'), a, b)
      ensures a < b
    {
      SuccessorIsLater(nodes, sorted, done, nodes', a, b);
    }
  }

  lemma SuccessorIsLater(nodes: seq<DependencyNode>, sorted: seq<DependencyNode>, done: seq<int>,
                         nodes': seq<DependencyNode>, a: int, b: int)
    requires Closed(nodes) && Closed(nodes') && |done| == |sorted| == |nodes| == |nodes'| && PostOrder(GraphOf(nodes), done)
    requires forall k {:trigger sorted[k]} :: 0 <= k < |done| ==> sorted[k] == nodes[done[k]]
    requires forall j {:trigger nodes'[j]} :: 0 <= j < |nodes| ==> nodes'[j] == sorted[|nodes| - 1 - j]
    requires Edge(GraphOf(nodes'), a, b)
    ensures a < b
  {
    var g := GraphOf(nodes);
    EdgeIsNeighbor(nodes', a, b);
    var i, j := |nodes| - 1 - a, |nodes| - 1 - b;
    assert nodes'[a] == nodes[done[i]] && nodes'[b] == nodes[done[j]];
    EdgeIsNeighbor(nodes, done[i], done[j]);
    SuccessorDoneBefore(g, done, i, j);
  }

  lemma SuccessorDoneBefore(g: Graph, done: seq<int>, i: int, j: int)
    requires PostOrder(g, done) && 0 <= i < |done| && 0 <= j < |done| && Edge(g, done[i], done[j])
    ensures j < i
  {
  }

  /** inplace_topological_sort, on every acyclic graph. It sorts up to 32768 nodes; beyond
      that the nodes keep their order and their indices, so it sorts nodes that are still
      unnumbered, as they are when they are added, exactly if there are at most 32768. */
  method InplaceTopologicalSort(graph: DependencyGraph)
    requires Filled(graph) && Acyclic(GraphOf(graph.nodes))
    modifies graph`nodes, graph.nodes`visited, graph.nodes`index
    ensures Filled(graph) && Permuted(graph.nodes, old(graph.nodes))
    ensures graph.nodeCount <= 0x8000 ==> Upward(GraphOf(graph.nodes)) && Indexed(graph.nodes)
    ensures graph.nodeCount <= 0x8000 ==> LaterStartsFirst(old(graph.nodes), old(GraphOf(graph.nodes)), graph.nodes)
    ensures graph.nodeCount > 0x8000 ==> graph.nodes == old(graph.nodes)
    ensures graph.nodeCount > 0x8000 ==> forall v {:trigger graph.nodes[v]} :: 0 <= v < |graph.nodes| ==>
              graph.nodes[v].index == old(graph.nodes[v].index)
    ensures old(Unnumbered(graph.nodes)) ==>
              (Upward(GraphOf(graph.nodes)) && Indexed(graph.nodes) <==> graph.nodeCount <= 0x8000)
  {
    var sorted;
    ghost var done;
    ghost var nodes, g := graph.nodes, GraphOf(graph.nodes);
    sorted, done := SortInReverse(graph);
    SortedDistinct(nodes, sorted, done);
    ReverseIntoGraph(graph, sorted);
    if graph.nodeCount <= 0x8000 {
      ReversedPostOrder(nodes, sorted, done, graph.nodes);
      ReversedStarts(nodes, g, sorted, done, graph.nodes);
    } else {
      assert graph.nodes[1].index == old(graph.nodes[1].index);
    }
  }

  ghost predicate Indexed(nodes: seq<DependencyNode>)
    reads nodes`index
  {
    forall i {:trigger nodes[i]} :: 0 <= i < |nodes| ==> nodes[i].index == i
  }

  /** No node has been given a position yet. */
  ghost predicate Unnumbered(nodes: seq<DependencyNode>)
    reads nodes`index
  {
    forall i {:trigger nodes[i]} :: 0 <= i < |nodes| ==> nodes[i].index == 0
  }

  lemma SortedDistinct(nodes: seq<DependencyNode>, sorted: seq<DependencyNode>, done: seq<int>)
    requires Closed(nodes) && |done| == |sorted| == |nodes| && PostOrder(GraphOf(nodes), done)
    requires forall k {:trigger sorted[k]} :: 0 <= k < |done| ==> sorted[k] == nodes[done[k]]
    requires AllBelow(|nodes|, done)
    ensures Distinct(sorted) && forall x {:trigger x in sorted} {:trigger x in nodes} :: x in sorted <==> x in nodes
  {
    forall i, j | 0 <= i < j < |sorted|
      ensures sorted[i] != sorted[j]
    {
      assert sorted[i] == nodes[done[i]] && sorted[j] == nodes[done[j]];
    }
    forall x | x in nodes
      ensures x in sorted
    {
      var v :| 0 <= v < |nodes| && nodes[v] == x;
      var k := PlaceOf(done, v);
      assert sorted[k] == x;
    }
  }

  // ---------------------------------------- adjacency matrix and closure

  ghost function Edges(g: Graph): set<(int, int)> {
    set u, v | 0 <= u < |g| && 0 <= v < |g| && Edge(g, u, v) :: (u, v)
  }

  ghost function Paths(g: Graph): set<(int, int)> {
    set u, v | 0 <= u < |g| && 0 <= v < |g| && HasPath(g, u, v) :: (u, v)
  }

  /** What the matrix holds once the rows below row are filled, and the first k neighbors of row. */
  ghost predicate FilledBelow(g: Graph, row: int, k: int, relation: set<(int, int)>) {
    && 0 <= k && (row < |g| ==> 0 <= row && k <= |g[row]|)
    && forall u, v {:trigger (u, v) in relation} ::
         (u, v) in relation <==> Edge(g, u, v) && (u < row || (u == row && v in g[row][..k]))
  }

  /** Every node's index, right or not, is a row of the matrices. */
  ghost predicate IndexesInside(nodes: seq<DependencyNode>)
    reads nodes`index
  {
    forall v {:trigger nodes[v]} :: 0 <= v < |nodes| ==> nodes[v].index < |nodes|
  }

  /** construct_adjacency_matrix: whatever the nodes' indices say; the edges, if they are the
      nodes' positions. */
  method ConstructAdjacencyMatrix(graph: DependencyGraph) returns (ghost relation: set<(int, int)>)
    requires Filled(graph) && IndexesInside(graph.nodes) && Holds(graph.adjacencyMatrix[..], graph.nodeCount, {})
    modifies graph.adjacencyMatrix
    ensures Holds(graph.adjacencyMatrix[..], graph.nodeCount, relation)
    ensures Indexed(graph.nodes) ==> relation == Edges(GraphOf(graph.nodes))
  {
    var n := graph.nodeCount;
    ghost var g, indexed := GraphOf(graph.nodes), Indexed(graph.nodes);
    relation := {};
    var i := 0;
    while i < n
      invariant 0 <= i <= n
      invariant Holds(graph.adjacencyMatrix[..], n, relation) && (indexed ==> FilledBelow(g, i, 0, relation))
    {
      var dependsOn := graph.nodes[i];
      assert NeighborsWithin(graph.nodes, i);
      ghost var next := i + 1;
      var k := 0;
      while k < |dependsOn.neighbors|
        invariant 0 <= k <= |dependsOn.neighbors|
        invariant Holds(graph.adjacencyMatrix[..], n, relation) && (indexed ==> FilledBelow(g, i, k, relation))
      {
        var dependent := dependsOn.neighbors[k];
        assert dependent == graph.nodes[g[i][k]];
        WriteCell(graph.adjacencyMatrix, n, dependsOn.index, dependent.index, relation);
        ghost var more := k + 1;
        if indexed {
          OneMoreEdge(g, i, k, relation, more);
        }
        relation := relation + {(dependsOn.index as int, dependent.index as int)};
        k := k + 1;
      }
      if indexed {
        RowFilled(g, i, relation, next);
      }
      i := i + 1;
    }
    if indexed {
      FilledIsEdges(g, relation);
    }
  }

  lemma FilledIsEdges(g: Graph, relation: set<(int, int)>)
    requires FilledBelow(g, |g|, 0, relation)
    ensures relation == Edges(g)
  {
    forall e
      ensures e in relation <==> e in Edges(g)
    {
      var (u, v) := e;
      assert (u, v) in relation <==> Edge(g, u, v);
      assert (u, v) in Edges(g) <==> Edge(g, u, v);
    }
  }

  lemma OneMoreEdge(g: Graph, row: int, k: int, relation: set<(int, int)>, more: int)
    requires FilledBelow(g, row, k, relation) && 0 <= row < |g| && k < |g[row]| && g[row][k] < |g| && more == k + 1
    ensures FilledBelow(g, row, more, relation + {(row, g[row][k] as int)})
  {
  }

  lemma RowFilled(g: Graph, row: int, relation: set<(int, int)>, next: int)
    requires 0 <= row < |g| && FilledBelow(g, row, |g[row]|, relation) && next == row + 1
    ensures FilledBelow(g, next, 0, relation)
  {
  }

  /** The closure once the rows from row on are complete. */
  ghost predicate ClosedFrom(g: Graph, row: int, relation: set<(int, int)>) {
    forall u, v {:trigger (u, v) in relation} ::
      (u, v) in relation <==> 0 <= u < |g| && 0 <= v < |g| && if u >= row then HasPath(g, u, v) else Edge(g, u, v)
  }

  /** Row u while its first j columns have been followed. */
  ghost predicate RowFollowed(g: Graph, u: int, j: int, relation: set<(int, int)>) {
    forall a, b {:trigger (a, b) in relation} ::
      (a, b) in relation <==>
        && 0 <= a < |g| && 0 <= b < |g|
        && if a > u then HasPath(g, a, b) else Edge(g, a, b) || (a == u && FollowedTo(g, u, j, b))
  }

  ghost predicate FollowedTo(g: Graph, u: int, j: int, b: int) {
    exists v :: 0 <= v < j && Edge(g, u, v) && HasPath(g, v, b)
  }

  /** Adding everything row v reaches to row u. */
  ghost function CopyOf(u: int, v: int, columns: int, relation: set<(int, int)>): set<(int, int)> {
    relation + set b | 0 <= b < columns && (v, b) in relation :: (u, b)
  }

  method CopyRow(closure: array<int>, n: nat, u: nat, v: nat, ghost relation: set<(int, int)>)
    requires Holds(closure[..], n, relation) && u < n && v < n
    modifies closure
    ensures Holds(closure[..], n, CopyOf(u, v, n, relation))
  {
    var k := 0;
    ghost var now := relation;
    while k < n
      invariant 0 <= k <= n
      invariant Holds(closure[..], n, now) && now == CopyOf(u, v, k, relation)
    {
      var cell := ReadCell(closure, n, v, k, now);
      assert cell != 0 <==> (v as int, k as int) in relation;
      ghost var next := now;
      if cell != 0 {
        WriteCell(closure, n, u, k, now);
        next := now + {(u as int, k as int)};
      }
      ghost var more := k + 1;
      assert next == CopyOf(u, v, more, relation);
      now := next;
      k := k + 1;
    }
  }

  lemma StartRow(g: Graph, u: int, relation: set<(int, int)>, above: int)
    requires ClosedFrom(g, above, relation) && above == u + 1
    ensures RowFollowed(g, u, 0, relation)
  {
  }

  lemma FollowColumn(g: Graph, u: int, j: int, relation: set<(int, int)>, more: int)
    requires Upward(g) && 0 <= u < |g| && 0 <= j < |g| && RowFollowed(g, u, j, relation) && more == j + 1
    ensures Edge(g, u, j) ==> RowFollowed(g, u, more, CopyOf(u, j, |g|, relation))
    ensures !Edge(g, u, j) ==> RowFollowed(g, u, more, relation)
  {
  }

  lemma EndRow(g: Graph, u: int, relation: set<(int, int)>)
    requires 0 <= u < |g| && RowFollowed(g, u, |g|, relation)
    ensures ClosedFrom(g, u, relation)
  {
    forall b | 0 <= b < |g|
      ensures HasPath(g, u, b) <==> Edge(g, u, b) || FollowedTo(g, u, |g|, b)
    {
      HasPathFirstEdge(g, u, b);
    }
  }

  lemma ClosedIsPaths(g: Graph, relation: set<(int, int)>)
    requires ClosedFrom(g, 0, relation)
    ensures relation == Paths(g)
  {
    forall e
      ensures e in relation <==> e in Paths(g)
    {
      var (u, v) := e;
      assert (u, v) in relation <==> 0 <= u < |g| && 0 <= v < |g| && HasPath(g, u, v);
      assert (u, v) in Paths(g) <==> 0 <= u < |g| && 0 <= v < |g| && HasPath(g, u, v);
    }
  }

  lemma AdjacencyIsClosedFromEnd(g: Graph)
    ensures ClosedFrom(g, |g|, Edges(g))
  {
  }

  /** The inner loops of the closure: one row of the matrix. right says that the adjacency matrix
      holds the edges of an upward graph, and that the rows above u are closed. */
  method CloseRow(graph: DependencyGraph, u: nat, ghost g: Graph, ghost edges: set<(int, int)>,
                  ghost relation: set<(int, int)>, ghost right: bool)
    returns (ghost closed: set<(int, int)>)
    requires graph.adjacencyMatrix != graph.transitiveClosure && |g| == graph.nodeCount && u < |g|
    requires right ==> edges == Edges(g) && Upward(g) && RowFollowed(g, u, 0, relation)
    requires Holds(graph.adjacencyMatrix[..], graph.nodeCount, edges)
    requires Holds(graph.transitiveClosure[..], graph.nodeCount, relation)
    modifies graph.transitiveClosure
    ensures Holds(graph.transitiveClosure[..], graph.nodeCount, closed) && (right ==> ClosedFrom(g, u, closed))
  {
    var n := graph.nodeCount;
    closed := relation;
    var j := 0;
    while j < n
      invariant 0 <= j <= n
      invariant Holds(graph.adjacencyMatrix[..], n, edges) && Holds(graph.transitiveClosure[..], n, closed)
      invariant right ==> RowFollowed(g, u, j, closed)
    {
      var cell := ReadCell(graph.adjacencyMatrix, n, u, j, edges);
      ghost var more := j + 1;
      if right {
        assert cell != 0 <==> Edge(g, u, j);
        FollowColumn(g, u, j, closed, more);
      }
      if cell != 0 {
        CopyRow(graph.transitiveClosure, n, u, j, closed);
        closed := CopyOf(u, j, n, closed);
      }
      j := j + 1;
    }
    if right {
      EndRow(g, u, closed);
    }
  }

  /** The memcpy of the adjacency matrix. */
  method CopyMatrix(graph: DependencyGraph, ghost edges: set<(int, int)>)
    requires graph.adjacencyMatrix != graph.transitiveClosure
    requires graph.transitiveClosure.Length == graph.adjacencyMatrix.Length
    requires Holds(graph.adjacencyMatrix[..], graph.nodeCount, edges)
    modifies graph.transitiveClosure
    ensures Holds(graph.transitiveClosure[..], graph.nodeCount, edges)
  {
    ghost var cells := graph.adjacencyMatrix[..];
    forall i | 0 <= i < graph.transitiveClosure.Length {
      graph.transitiveClosure[i] := graph.adjacencyMatrix[i];
    }
    assert graph.transitiveClosure[..] == cells;
  }

  /** compute_transitive_closure_of_graph: the paths, if the nodes are sorted and numbered. */
  method ComputeTransitiveClosure(graph: DependencyGraph, ghost edges: set<(int, int)>)
    requires Filled(graph) && IndexesInside(graph.nodes)
    requires Indexed(graph.nodes) ==> edges == Edges(GraphOf(graph.nodes))
    requires graph.adjacencyMatrix != graph.transitiveClosure
    requires graph.transitiveClosure.Length == graph.adjacencyMatrix.Length
    requires Holds(graph.adjacencyMatrix[..], graph.nodeCount, edges)
    modifies graph.transitiveClosure
    ensures Indexed(graph.nodes) && Upward(GraphOf(graph.nodes)) ==>
              Holds(graph.transitiveClosure[..], graph.nodeCount, Paths(GraphOf(graph.nodes)))
  {
    var n := graph.nodeCount;
    ghost var g := GraphOf(graph.nodes);
    ghost var right := Indexed(graph.nodes) && Upward(g);
    ghost var relation := edges;
    CopyMatrix(graph, edges);
    var i := |graph.nodes| - 1;
    ghost var above := n;
    if right {
      AdjacencyIsClosedFromEnd(g);
    }
    while i >= 0
      invariant -1 <= i < n && above == i + 1
      invariant Holds(graph.adjacencyMatrix[..], n, edges) && Holds(graph.transitiveClosure[..], n, relation)
      invariant right ==> ClosedFrom(g, above, relation)
    {
      var node := graph.nodes[i];
      if right {
        StartRow(g, i, relation, above);
      }
      ghost var row: nat := node.index;
      relation := CloseRow(graph, node.index, g, edges, relation, right);
      assert right ==> row == i && ClosedFrom(g, row, relation);
      above := i;
      i := i - 1;
    }
    if right {
      ClosedIsPaths(g, relation);
    }
  }

  // ------------------------------------------------------------ finalizing

  /** The graph is sorted, its nodes know their positions, and both matrices are right. */
  ghost predicate Finalized(graph: DependencyGraph)
    reads graph, graph.nodes`neighbors, graph.nodes`index, graph.transitiveClosure, graph.adjacencyMatrix
  {
    && Filled(graph) && Indexed(graph.nodes) && Upward(GraphOf(graph.nodes))
    && Holds(graph.adjacencyMatrix[..], graph.nodeCount, Edges(GraphOf(graph.nodes)))
    && Holds(graph.transitiveClosure[..], graph.nodeCount, Paths(GraphOf(graph.nodes)))
  }

  /** finalize_data_dependency_graph, on any acyclic graph whose matrices are as allocated: up to
      32768 nodes everything is as it should be, and from unnumbered nodes only then. */
  method FinalizeGraph(graph: DependencyGraph)
    requires Filled(graph) && Acyclic(GraphOf(graph.nodes)) && IndexesInside(graph.nodes)
    requires graph.adjacencyMatrix != graph.transitiveClosure
    requires Holds(graph.adjacencyMatrix[..], graph.nodeCount, {})
    requires graph.transitiveClosure.Length == graph.adjacencyMatrix.Length
    modifies graph`nodes, graph.nodes`visited, graph.nodes`index, graph.adjacencyMatrix, graph.transitiveClosure
    ensures Permuted(graph.nodes, old(graph.nodes))
    ensures graph.nodeCount <= 0x8000 ==> Finalized(graph)
    ensures old(Unnumbered(graph.nodes)) ==> (Finalized(graph) <==> graph.nodeCount <= 0x8000)
    ensures graph.nodeCount <= 0x8000 ==> LaterStartsFirst(old(graph.nodes), old(GraphOf(graph.nodes)), graph.nodes)
  {
    InplaceTopologicalSort(graph);
    assert IndexesInside(graph.nodes);
    ghost var edges := ConstructAdjacencyMatrix(graph);
    ComputeTransitiveClosure(graph, edges);
  }

  // ---------------------------------------------------------- tie breaking

  /** The descendants of u among the first k positions. */
  ghost function DescendantsBelow(g: Graph, u: int, k: int): set<int> {
    set v | 0 <= v < k && v < |g| && HasPath(g, u, v)
  }

  lemma OneMoreColumn(g: Graph, u: int, k: int, more: int)
    requires 0 <= k < |g| && more == k + 1
    ensures |DescendantsBelow(g, u, more)| == |DescendantsBelow(g, u, k)| + if HasPath(g, u, k) then 1 else 0
  {
    if HasPath(g, u, k) {
      assert DescendantsBelow(g, u, more) == DescendantsBelow(g, u, k) + {k};
    } else {
      assert DescendantsBelow(g, u, more) == DescendantsBelow(g, u, k);
    }
  }

  /** get_number_of_node_descendants. */
  method GetNumberOfNodeDescendants(closure: array<int>, given: DependencyNode, numNodes: nat, ghost g: Graph)
    returns (count: int)
    requires |g| == numNodes && given.index < numNodes && Holds(closure[..], numNodes, Paths(g))
    ensures count == |Descendants(g, given.index)|
  {
    count := 0;
    var i := 0;
    while i < numNodes
      invariant 0 <= i <= numNodes
      invariant count == |DescendantsBelow(g, given.index, i)|
    {
      var cell := ReadCell(closure, numNodes, given.index, i, Paths(g));
      assert cell == if HasPath(g, given.index, i) then 1 else 0;
      ghost var more := i + 1;
      OneMoreColumn(g, given.index, i, more);
      count := count + cell;
      i := i + 1;
    }
    assert DescendantsBelow(g, given.index, numNodes) == Descendants(g, given.index);
  }

  /** tie_break: more descendants, then more dependents, then more cycles, then the first. */
  method TieBreak(graph: DependencyGraph, a: DependencyNode, b: DependencyNode) returns (first: DependencyNode)
    requires Finalized(graph) && a in graph.nodes && b in graph.nodes
    ensures first == a || first == b
    ensures HasPath(GraphOf(graph.nodes), a.index, b.index) ==> first == a
    ensures HasPath(GraphOf(graph.nodes), b.index, a.index) ==> first == b
    ensures var da, db := |Descendants(GraphOf(graph.nodes), a.index)|, |Descendants(GraphOf(graph.nodes), b.index)|;
            a != b ==> (first == a <==>
              da > db || (da == db && (a.reliedOnByCount > b.reliedOnByCount ||
                (a.reliedOnByCount == b.reliedOnByCount && a.cyclesToComplete >= b.cyclesToComplete))))
  {
    ghost var g := GraphOf(graph.nodes);
    UpwardAcyclic(g);
    if HasPath(g, a.index, b.index) { FewerDescendants(g, a.index, b.index); }
    if HasPath(g, b.index, a.index) { FewerDescendants(g, b.index, a.index); }
    var aScore := GetNumberOfNodeDescendants(graph.transitiveClosure, a, graph.nodeCount, g);
    var bScore := GetNumberOfNodeDescendants(graph.transitiveClosure, b, graph.nodeCount, g);
    if aScore > bScore {
      return a;
    }
    if bScore > aScore {
      return b;
    }
    aScore, bScore := a.reliedOnByCount, b.reliedOnByCount;
    if aScore > bScore {
      return a;
    }
    if bScore > aScore {
      return b;
    }
    if a.cyclesToComplete >= b.cyclesToComplete {
      return a;
    } else {
      return b;
    }
  }
}
