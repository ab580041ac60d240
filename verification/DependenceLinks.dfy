/** Adding nodes and dependences to the graph, with the two counters every node keeps. */
module DependenceLinks {
  import opened DynamicArrays
  import opened Instructions
  import opened DataDependencyGraph

  /** Node i is the node of instruction i. */
  ghost predicate NodesFor(nodes: seq<DependencyNode>, instructions: seq<Instruction>) {
    && |nodes| == |instructions| && Distinct(instructions)
    && forall i {:trigger nodes[i]} {:trigger instructions[i]} :: 0 <= i < |nodes| ==> nodes[i].instruction == instructions[i]
  }

  ghost function Sources(n: nat, links: set<(int, int)>, v: int): set<int> {
    set u | 0 <= u < n && (u, v) in links
  }

  /** What node u stores when the dependences are exactly the pairs of links: its dependents
      without duplicates, how many there are, and how many nodes it depends on itself. */
  ghost predicate NodeLinks(nodes: seq<DependencyNode>, links: set<(int, int)>, u: int)
    reads nodes`neighbors, nodes`reliedOnByCount, nodes`reliesOnCount
  {
    && 0 <= u < |nodes|
    && Distinct(nodes[u].neighbors)
    && (forall k {:trigger nodes[u].neighbors[k]} :: 0 <= k < |nodes[u].neighbors| ==> nodes[u].neighbors[k] in nodes)
    && (forall v {:trigger (u, v) in links} :: 0 <= v < |nodes| ==> (nodes[v] in nodes[u].neighbors <==> (u, v) in links))
    && nodes[u].reliedOnByCount == |nodes[u].neighbors|
    && nodes[u].reliesOnCount == |Sources(|nodes|, links, u)|
  }

  ghost predicate Linked(nodes: seq<DependencyNode>, links: set<(int, int)>)
    reads nodes`neighbors, nodes`reliedOnByCount, nodes`reliesOnCount
  {
    && Distinct(nodes)
    && forall u {:trigger NodeLinks(nodes, links, u)} :: 0 <= u < |nodes| ==> NodeLinks(nodes, links, u)
  }

  /** Different nodes without any dependence. */
  ghost predicate Bare(nodes: seq<DependencyNode>)
    reads nodes`neighbors, nodes`reliedOnByCount, nodes`reliesOnCount
  {
    && Distinct(nodes)
    && forall i {:trigger nodes[i]} :: 0 <= i < |nodes| ==>
         nodes[i].neighbors == [] && nodes[i].reliedOnByCount == nodes[i].reliesOnCount == 0
  }

  lemma BareLinked(nodes: seq<DependencyNode>)
    requires Bare(nodes)
    ensures Linked(nodes, {})
  {
  }

  /** add_data_dependency_node_for_instruction; the estimated cycle count is a parameter. */
  method AddNode(graph: DependencyGraph, instruction: Instruction, cycles: nat, ghost instructions: seq<Instruction>)
    requires |graph.nodes| < graph.nodeCount && NodesFor(graph.nodes, instructions) && instruction !in instructions
    requires Bare(graph.nodes) && Unnumbered(graph.nodes)
    modifies graph`nodes
    ensures |graph.nodes| == |old(graph.nodes)| + 1 && graph.nodes[..|old(graph.nodes)|] == old(graph.nodes)
    ensures fresh(graph.nodes[|old(graph.nodes)|]) && graph.nodes[|old(graph.nodes)|].cyclesToComplete == cycles
    ensures NodesFor(graph.nodes, instructions + [instruction]) && Bare(graph.nodes) && Unnumbered(graph.nodes)
  {
    var node := new DependencyNode(instruction, cycles);
    graph.nodes := graph.nodes + [node];
  }

  /** get_dependency_node_for_given_instruction. */
  method GetDependencyNode(graph: DependencyGraph, instruction: Instruction) returns (node: DependencyNode?)
    ensures node == null <==> forall i {:trigger graph.nodes[i]} :: 0 <= i < |graph.nodes| ==>
              graph.nodes[i].instruction != instruction
    ensures node != null ==> node in graph.nodes && node.instruction == instruction
  {
    for i := 0 to |graph.nodes|
      invariant forall k {:trigger graph.nodes[k]} :: 0 <= k < i ==> graph.nodes[k].instruction != instruction
    {
      if graph.nodes[i].instruction == instruction {
        return graph.nodes[i];
      }
    }
    return null;
  }

  /** The last three statements of add_dependence. */
  method Link(target: DependencyNode, dependsOn: DependencyNode)
    modifies target`reliesOnCount, dependsOn`reliedOnByCount, dependsOn`neighbors
    ensures target.reliesOnCount == old(target.reliesOnCount) + 1
    ensures dependsOn.reliedOnByCount == old(dependsOn.reliedOnByCount) + 1
    ensures dependsOn.neighbors == old(dependsOn.neighbors) + [target]
  {
    target.reliesOnCount := target.reliesOnCount + 1;
    dependsOn.reliedOnByCount := dependsOn.reliedOnByCount + 1;
    dependsOn.neighbors := dependsOn.neighbors + [target];
  }

  lemma OneMoreSource(n: nat, links: set<(int, int)>, u: int, v: int)
    requires 0 <= u < n && (u, v) !in links
    ensures |Sources(n, links + {(u, v)}, v)| == |Sources(n, links, v)| + 1
    ensures forall w :: w != v ==> Sources(n, links + {(u, v)}, w) == Sources(n, links, w)
  {
    assert Sources(n, links + {(u, v)}, v) == Sources(n, links, v) + {u};
  }

  method LinkNodes(target: DependencyNode, dependsOn: DependencyNode, ghost nodes: seq<DependencyNode>,
                   ghost links: set<(int, int)>, ghost u: int, ghost v: int)
    requires Linked(nodes, links) && 0 <= u < |nodes| && 0 <= v < |nodes|
    requires nodes[u] == dependsOn && nodes[v] == target && (u, v) !in links
    modifies target`reliesOnCount, dependsOn`reliedOnByCount, dependsOn`neighbors
    ensures Linked(nodes, links + {(u, v)})
  {
    OneMoreSource(|nodes|, links, u, v);
    assert NodeLinks(nodes, links, u);
    Link(target, dependsOn);
    forall w | 0 <= w < |nodes|
      ensures NodeLinks(nodes, links + {(u, v)}, w)
    {
      assert old(NodeLinks(nodes, links, w));
      assert w != u ==> nodes[w] != dependsOn;
      assert w != v ==> nodes[w] != target;
    }
  }

  /** links' adds the pair of the positions of dependsOn and target. */
  ghost predicate AddsLink(instructions: seq<Instruction>, target: Instruction, dependsOn: Instruction,
                           links: set<(int, int)>, links': set<(int, int)>) {
    exists u, v ::
      && 0 <= u < |instructions| && instructions[u] == dependsOn
      && 0 <= v < |instructions| && instructions[v] == target
      && links' == links + {(u, v)}
  }

  /** add_dependence; found is false where the source prints a fatal error and exits. */
  method AddDependence(graph: DependencyGraph, target: Instruction, dependsOn: Instruction,
                       ghost instructions: seq<Instruction>, ghost links: set<(int, int)>)
    returns (found: bool, ghost links': set<(int, int)>)
    requires NodesFor(graph.nodes, instructions) && Linked(graph.nodes, links)
    modifies graph.nodes`reliesOnCount, graph.nodes`reliedOnByCount, graph.nodes`neighbors
    ensures found <==> target in instructions && dependsOn in instructions
    ensures Linked(graph.nodes, links')
    ensures !found ==> links' == links
    ensures found ==> AddsLink(instructions, target, dependsOn, links, links')
  {
    found, links' := false, links;
    var targetNode := GetDependencyNode(graph, target);
    var dependsOnNode := GetDependencyNode(graph, dependsOn);
    if targetNode == null || dependsOnNode == null {
      return;
    }
    found := true;
    ghost var u :| 0 <= u < |instructions| && graph.nodes[u] == dependsOnNode;
    ghost var v :| 0 <= v < |instructions| && graph.nodes[v] == targetNode;
    assert instructions[u] == dependsOn && instructions[v] == target;
    links' := links + {(u, v)};
    assert NodeLinks(graph.nodes, links, u);
    if targetNode in dependsOnNode.neighbors {
      assert links' == links;
      return;
    }
    LinkNodes(targetNode, dependsOnNode, graph.nodes, links, u, v);
  }
}
