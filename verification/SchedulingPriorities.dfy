/** compute_priorities_for_all_nodes: for every node the longest cycle-weighted path to
    any root, found by relaxing the sorted graph once per root. */
module SchedulingPriorities {
  import opened Graphs
  import opened AcyclicGraphs
  import opened WeightedPaths
  import opened DataDependencyGraph
  import opened DynamicArrays

  ghost function CyclesFrom(nodes: seq<DependencyNode>, n: nat): (c: seq<nat>)
    requires n <= |nodes|
    reads nodes`cyclesToComplete
    ensures |c| == n && forall v {:trigger c[v]} :: 0 <= v < n ==> c[v] == nodes[v].cyclesToComplete
  {
    if n == 0 then [] else CyclesFrom(nodes, n - 1) + [nodes[n - 1].cyclesToComplete]
  }

  ghost function CyclesOf(nodes: seq<DependencyNode>): (c: seq<nat>)
    reads nodes`cyclesToComplete
    ensures |c| == |nodes| && forall v {:trigger c[v]} :: 0 <= v < |nodes| ==> c[v] == nodes[v].cyclesToComplete
  {
    CyclesFrom(nodes, |nodes|)
  }

  ghost predicate CountsAgree(nodes: seq<DependencyNode>, node: DependencyNode)
    reads nodes`neighbors, node`neighbors, node`reliedOnByCount, node`reliesOnCount
  {
    && node.reliedOnByCount == |node.neighbors|
    && (node.reliesOnCount == 0 ==> forall other {:trigger other in nodes} :: other in nodes ==> node !in other.neighbors)
  }

  /** A sorted graph whose counters are right and whose total cycle count fits in 32 bits. */
  ghost predicate Prioritizable(nodes: seq<DependencyNode>)
    reads nodes`neighbors, nodes`index, nodes`cyclesToComplete, nodes`reliedOnByCount, nodes`reliesOnCount
  {
    && Closed(nodes) && Indexed(nodes) && Upward(GraphOf(nodes))
    && (forall v {:trigger nodes[v]} :: 0 <= v < |nodes| ==> CountsAgree(nodes, nodes[v]))
    && SumFrom(CyclesOf(nodes), 0) <= INT_MAX
  }

  /** The sum of two int32_t values that does not overflow. */
  function AddInt32(a: int, b: int): int
    requires INT_MIN <= a + b <= INT_MAX
  {
    a + b
  }

  /** Setting every distance to INT_MIN and the start's to 0. */
  method InitializeDistances(distances: array<int>, start: nat)
    requires start < distances.Length
    modifies distances
    ensures distances[start] == 0
    ensures forall v :: 0 <= v < distances.Length && v != start ==> distances[v] == INT_MIN
  {
    for i := 0 to distances.Length
      invariant forall v :: 0 <= v < i ==> distances[v] == INT_MIN
    {
      distances[i] := INT_MIN;
    }
    distances[start] := 0;
  }

  /** The edge loop for the node U. */
  method RelaxNeighbors(u: DependencyNode, distances: array<int>, ghost nodes: seq<DependencyNode>,
                        ghost g: Graph, ghost cycles: seq<nat>, ghost s: int, ghost i: int)
    requires Prioritizable(nodes) && g == GraphOf(nodes) && cycles == CyclesOf(nodes)
    requires 0 <= i < |nodes| && nodes[i] == u
    requires AllRelaxed(g, cycles, s, i, 0, distances[..]) && distances[i] != INT_MIN
    modifies distances
    ensures AllRelaxed(g, cycles, s, i, |g[i]|, distances[..])
  {
    assert NeighborsWithin(nodes, i);
    var j := 0;
    while j < |u.neighbors|
      invariant 0 <= j <= |u.neighbors|
      invariant AllRelaxed(g, cycles, s, i, j, distances[..]) && distances[i] != INT_MIN
    {
      ghost var w := g[i][j];
      var v := u.neighbors[j];
      assert v == nodes[w] && Edge(g, i, w);
      ghost var before, more := distances[..], j + 1;
      var weight := u.cyclesToComplete;
      NoOverflow(g, cycles, s, i, j, before);
      RelaxOne(g, cycles, s, i, j, before, more);
      if AddInt32(distances[u.index], weight) > distances[v.index] {
        distances[v.index] := AddInt32(distances[u.index], weight);
      }
      assert distances[..] == RelaxEdge(before, i, w, weight);
      j := j + 1;
    }
  }

  /** What compute_longest_path_to_root_node returns for two different vertices. */
  ghost predicate IsLongest(g: Graph, cycles: seq<nat>, s: int, r: int, d: int) {
    && (forall p :: PathFromTo(g, p, s, r) ==> d >= 0 && Weight(cycles, p) <= d)
    && (d > 0 ==> exists p :: PathFromTo(g, p, s, r) && Weight(cycles, p) == d)
  }

  /** compute_longest_path_to_root_node, from a node that is not a root. */
  method ComputeLongestPathToRootNode(graph: DependencyGraph, start: DependencyNode, root: DependencyNode,
                                      distances: array<int>, ghost s: int, ghost r: int)
    returns (longest: int)
    requires |graph.nodes| == graph.nodeCount == distances.Length && Prioritizable(graph.nodes)
    requires 0 <= s < |graph.nodes| && graph.nodes[s] == start
    requires 0 <= r < |graph.nodes| && graph.nodes[r] == root && s != r
    modifies distances
    ensures IsLongest(GraphOf(graph.nodes), CyclesOf(graph.nodes), s, r, longest)
  {
    ghost var g, cycles := GraphOf(graph.nodes), CyclesOf(graph.nodes);
    if root.reliesOnCount == 0 {
      NoPathToSource(graph.nodes, s, r);
      return 0;
    }
    InitializeDistances(distances, start.index);
    RelaxedAtStart(g, cycles, s, distances[..]);
    var i := 0;
    while i < graph.nodeCount
      invariant 0 <= i <= graph.nodeCount
      invariant AllRelaxed(g, cycles, s, i, 0, distances[..])
    {
      var u := graph.nodes[i];
      ghost var next, k := i + 1, 0;
      if distances[u.index] != INT_MIN {
        RelaxNeighbors(u, distances, graph.nodes, g, cycles, s, i);
        k := |g[i]|;
      }
      NextVertex(g, cycles, s, i, k, distances[..], next);
      i := i + 1;
    }
    longest := distances[root.index];
    LastDistance(g, cycles, s, r, distances[..]);
  }

  lemma LastDistance(g: Graph, cycles: seq<nat>, s: int, r: int, distances: seq<int>)
    requires AllRelaxed(g, cycles, s, |g|, 0, distances) && 0 <= r < |g|
    ensures IsLongest(g, cycles, s, r, distances[r])
  {
    assert Relaxed(g, cycles, s, |g|, 0, distances, r);
    forall p | PathFromTo(g, p, s, r)
      ensures Considered(g, |g|, 0, p)
    {
    }
  }

  /** Nothing leads to a node that relies on nothing, except itself. */
  lemma NoPathToSource(nodes: seq<DependencyNode>, s: int, r: int)
    requires Closed(nodes) && 0 <= s < |nodes| && 0 <= r < |nodes| && s != r
    requires CountsAgree(nodes, nodes[r]) && nodes[r].reliesOnCount == 0
    ensures forall p :: !PathFromTo(GraphOf(nodes), p, s, r)
  {
    forall u | 0 <= u < |nodes|
      ensures !Edge(GraphOf(nodes), u, r)
    {
      assert nodes[u] in nodes;
      EdgeIsNeighbor(nodes, u, r);
    }
    forall p
      ensures !PathFromTo(GraphOf(nodes), p, s, r)
    {
      if PathFromTo(GraphOf(nodes), p, s, r) {
        EnteredByEdge(GraphOf(nodes), s, r, p);
      }
    }
  }

  lemma EnteredByEdge(g: Graph, s: int, r: int, p: seq<int>)
    requires PathFromTo(g, p, s, r) && s != r
    ensures exists u :: Edge(g, u, r)
  {
    assert Edge(g, p[|p| - 2], p[|p| - 1]);
  }

  // -------------------------------------------------------------- all nodes

  /** roots are the nodes at the given positions, and those are the positions of the roots. */
  ghost predicate RootsListed(nodes: seq<DependencyNode>, g: Graph, roots: seq<DependencyNode>, numbers: seq<int>) {
    && |roots| == |numbers|
    && (forall k {:trigger roots[k]} {:trigger numbers[k]} :: 0 <= k < |roots| ==>
          0 <= numbers[k] < |nodes| && roots[k] == nodes[numbers[k]])
    && (forall v {:trigger v in numbers} {:trigger IsRoot(g, v)} :: v in numbers <==> IsRoot(g, v))
  }

  /** get_data_dependency_graph_root_nodes: the positions returned beside the nodes. */
  method GetRootNodes(graph: DependencyGraph) returns (roots: seq<DependencyNode>, ghost numbers: seq<int>)
    requires Prioritizable(graph.nodes)
    ensures RootsListed(graph.nodes, GraphOf(graph.nodes), roots, numbers)
    ensures Distinct(roots) && forall x {:trigger x in roots} :: x in roots <==> x in graph.nodes && x.neighbors == []
  {
    roots, numbers := [], [];
    ghost var g := GraphOf(graph.nodes);
    for i := 0 to |graph.nodes|
      invariant |roots| == |numbers|
      invariant forall k {:trigger roots[k]} {:trigger numbers[k]} :: 0 <= k < |roots| ==>
                  0 <= numbers[k] < |graph.nodes| && roots[k] == graph.nodes[numbers[k]]
      invariant forall v :: v in numbers <==> v < i && IsRoot(g, v)
      invariant forall x {:trigger x in roots} :: x in roots <==> x in graph.nodes[..i] && x.neighbors == []
      invariant Distinct(roots)
    {
      assert CountsAgree(graph.nodes, graph.nodes[i]) && |g[i]| == |graph.nodes[i].neighbors|;
      assert graph.nodes[i] !in graph.nodes[..i] && graph.nodes[i] !in roots;
      if graph.nodes[i].reliedOnByCount == 0 {
        roots, numbers := roots + [graph.nodes[i]], numbers + [i];
      }
      assert graph.nodes[..i + 1] == graph.nodes[..i] + [graph.nodes[i]];
    }
  }

  /** The best of the first k roots. */
  ghost predicate BestOf(g: Graph, cycles: seq<nat>, s: int, numbers: seq<int>, k: int, longest: int) {
    && longest >= 0
    && (forall m, p {:trigger PathFromTo(g, p, s, numbers[m])} ::
          0 <= m < k && m < |numbers| && PathFromTo(g, p, s, numbers[m]) ==> Weight(cycles, p) <= longest)
    && (longest > 0 ==> exists m, p {:trigger PathFromTo(g, p, s, numbers[m])} ::
          0 <= m < k && m < |numbers| && PathFromTo(g, p, s, numbers[m]) && Weight(cycles, p) == longest)
  }

  lemma BetterOf(g: Graph, cycles: seq<nat>, s: int, numbers: seq<int>, k: int, longest: int, candidate: int, more: int)
    requires BestOf(g, cycles, s, numbers, k, longest) && 0 <= k < |numbers| && more == k + 1
    requires IsLongest(g, cycles, s, numbers[k], candidate)
    ensures BestOf(g, cycles, s, numbers, more, if candidate > longest then candidate else longest)
  {
  }

  lemma BestIsPriority(g: Graph, cycles: seq<nat>, s: int, numbers: seq<int>, k: int, longest: int)
    requires WellFormed(g) && Upward(g) && 0 <= s < |g| && k == |numbers| && BestOf(g, cycles, s, numbers, k, longest)
    requires forall v :: v in numbers <==> IsRoot(g, v)
    ensures IsPriority(g, cycles, s, longest)
  {
    forall p | PathToRoot(g, p, s)
      ensures Weight(cycles, p) <= longest
    {
      var m :| 0 <= m < |numbers| && numbers[m] == p[|p| - 1];
      assert PathFromTo(g, p, s, numbers[m]);
    }
    if longest > 0 {
      var m, p :| 0 <= m < k && m < |numbers| && PathFromTo(g, p, s, numbers[m]) && Weight(cycles, p) == longest;
      assert numbers[m] in numbers;
      assert PathToRoot(g, p, s);
    } else {
      var p := ReachesRoot(g, s);
      assert Weight(cycles, p) == longest;
    }
  }

  lemma GraphWellFormed(nodes: seq<DependencyNode>)
    requires Closed(nodes)
    ensures WellFormed(GraphOf(nodes))
  {
  }

  /** compute_longest_weighted_path_heuristic_for_node. */
  method ComputeLongestWeightedPathHeuristic(graph: DependencyGraph, node: DependencyNode, roots: seq<DependencyNode>,
                                             distances: array<int>, ghost numbers: seq<int>, ghost s: int)
    returns (longest: int)
    requires |graph.nodes| == graph.nodeCount == distances.Length && Prioritizable(graph.nodes)
    requires 0 <= s < |graph.nodes| && graph.nodes[s] == node
    requires RootsListed(graph.nodes, GraphOf(graph.nodes), roots, numbers)
    modifies distances
    ensures IsPriority(GraphOf(graph.nodes), CyclesOf(graph.nodes), s, longest)
  {
    ghost var g, cycles := GraphOf(graph.nodes), CyclesOf(graph.nodes);
    assert CountsAgree(graph.nodes, graph.nodes[s]) && |g[s]| == |graph.nodes[s].neighbors|;
    if node.reliedOnByCount == 0 {
      PriorityOfRoot(g, cycles, s, 0);
      return 0;
    }
    longest := 0;
    var i := 0;
    while i < |roots|
      invariant 0 <= i <= |roots|
      invariant BestOf(g, cycles, s, numbers, i, longest)
    {
      assert numbers[i] in numbers;
      var candidate := ComputeLongestPathToRootNode(graph, node, roots[i], distances, s, numbers[i]);
      ghost var more := i + 1;
      BetterOf(g, cycles, s, numbers, i, longest, candidate, more);
      if candidate > longest {
        longest := candidate;
      }
      i := i + 1;
    }
    GraphWellFormed(graph.nodes);
    BestIsPriority(g, cycles, s, numbers, i, longest);
  }

  /** The priorities of the first vertices. */
  ghost predicate ArePriorities(g: Graph, cycles: seq<nat>, priorities: seq<int>) {
    forall v {:trigger priorities[v]} :: 0 <= v < |priorities| ==> IsPriority(g, cycles, v, priorities[v])
  }

  lemma OneMorePriority(g: Graph, cycles: seq<nat>, priorities: seq<int>, priority: int)
    requires ArePriorities(g, cycles, priorities) && IsPriority(g, cycles, |priorities|, priority)
    ensures ArePriorities(g, cycles, priorities + [priority])
  {
  }

  ghost predicate StorePriorities(nodes: seq<DependencyNode>, priorities: seq<int>)
    reads nodes`priority
  {
    && |priorities| <= |nodes|
    && forall v {:trigger nodes[v]} {:trigger priorities[v]} :: 0 <= v < |priorities| ==> nodes[v].priority == priorities[v]
  }

  /** Writing a priority changes nothing that priorities are computed from. */
  method StorePriority(node: DependencyNode, priority: int, ghost nodes: seq<DependencyNode>, ghost g: Graph,
                       ghost cycles: seq<nat>, ghost priorities: seq<int>)
    requires Prioritizable(nodes) && g == GraphOf(nodes) && cycles == CyclesOf(nodes)
    requires StorePriorities(nodes, priorities) && |priorities| < |nodes| && nodes[|priorities|] == node
    modifies node`priority
    ensures Prioritizable(nodes) && g == GraphOf(nodes) && cycles == CyclesOf(nodes)
    ensures StorePriorities(nodes, priorities + [priority])
  {
    node.priority := priority;
  }

  /** One node's priority, computed and stored. */
  method PrioritizeNode(graph: DependencyGraph, i: nat, roots: seq<DependencyNode>, distances: array<int>,
                        ghost numbers: seq<int>, ghost g: Graph, ghost cycles: seq<nat>, ghost priorities: seq<int>)
    returns (ghost priorities': seq<int>)
    requires |graph.nodes| == graph.nodeCount == distances.Length && Prioritizable(graph.nodes)
    requires g == GraphOf(graph.nodes) && cycles == CyclesOf(graph.nodes)
    requires i < |graph.nodes| && |priorities| == i
    requires RootsListed(graph.nodes, GraphOf(graph.nodes), roots, numbers)
    requires ArePriorities(g, cycles, priorities) && StorePriorities(graph.nodes, priorities)
    modifies graph.nodes`priority, distances
    ensures |priorities'| == i + 1 && ArePriorities(g, cycles, priorities') && StorePriorities(graph.nodes, priorities')
    ensures Prioritizable(graph.nodes) && g == GraphOf(graph.nodes) && cycles == CyclesOf(graph.nodes)
  {
    var priority := ComputeLongestWeightedPathHeuristic(graph, graph.nodes[i], roots, distances, numbers, i);
    OneMorePriority(g, cycles, priorities, priority);
    priorities' := priorities + [priority];
    StorePriority(graph.nodes[i], priority, graph.nodes, g, cycles, priorities);
  }

  /** compute_priorities_for_all_nodes. */
  method ComputePrioritiesForAllNodes(graph: DependencyGraph) returns (ghost priorities: seq<int>)
    requires |graph.nodes| == graph.nodeCount && Prioritizable(graph.nodes)
    modifies graph.nodes`priority
    ensures |priorities| == |graph.nodes| && StorePriorities(graph.nodes, priorities)
    ensures ArePriorities(GraphOf(graph.nodes), CyclesOf(graph.nodes), priorities)
  {
    ghost var g, cycles := GraphOf(graph.nodes), CyclesOf(graph.nodes);
    var roots;
    ghost var numbers;
    roots, numbers := GetRootNodes(graph);
    var distances := new int[graph.nodeCount](_ => 0);
    priorities := [];
    var i := 0;
    while i < |graph.nodes|
      invariant 0 <= i <= |graph.nodes| && |priorities| == i
      invariant Prioritizable(graph.nodes) && g == GraphOf(graph.nodes) && cycles == CyclesOf(graph.nodes)
      invariant ArePriorities(g, cycles, priorities) && StorePriorities(graph.nodes, priorities)
    {
      priorities := PrioritizeNode(graph, i, roots, distances, numbers, g, cycles, priorities);
      i := i + 1;
    }
  }

  /** With at least one cycle per instruction the priority strictly falls along every edge. */
  lemma PrioritiesFall(nodes: seq<DependencyNode>, u: int, v: int)
    requires Closed(nodes) && 0 <= u < |nodes| && 0 <= v < |nodes| && nodes[v] in nodes[u].neighbors
    requires IsPriority(GraphOf(nodes), CyclesOf(nodes), u, nodes[u].priority)
    requires IsPriority(GraphOf(nodes), CyclesOf(nodes), v, nodes[v].priority)
    ensures nodes[u].priority >= nodes[u].cyclesToComplete + nodes[v].priority
    ensures nodes[u].cyclesToComplete >= 1 ==> nodes[u].priority > nodes[v].priority
  {
    EdgeIsNeighbor(nodes, u, v);
    PriorityFalls(GraphOf(nodes), CyclesOf(nodes), u, v, nodes[u].priority, nodes[v].priority);
  }
}
