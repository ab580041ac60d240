/** From the blocks of a function and the result of the numbering pass to the abstract
    graphs that the correctness statements are about. */
module NumberedGraph {
  import opened BasicBlocks
  import opened Graphs
  import opened SemidominatorTheory
  import opened DepthFirstNumbering
  import opened UnionFindForest
  import opened LengauerTarjan
  import opened Renumbering

  /** The blocks fb, in this direction, form the graph g: vertex v is block fb[v], and the
      predecessor lists mirror the successor lists. */
  ghost predicate Models(dir: Direction, fb: seq<BasicBlock>, g: Graph)
    reads fb`successors, fb`predecessors
  {
    && |g| == |fb| && WellFormed(g)
    && (forall u, v :: 0 <= u < |fb| && 0 <= v < |fb| && fb[u] == fb[v] ==> u == v)
    && (forall v {:trigger OutModelled(dir, fb, g, v)} :: 0 <= v < |fb| ==> OutModelled(dir, fb, g, v))
    && (forall v {:trigger InModelled(dir, fb, g, v)} :: 0 <= v < |fb| ==> InModelled(dir, fb, g, v))
  }

  ghost predicate OutModelled(dir: Direction, fb: seq<BasicBlock>, g: Graph, v: int)
    reads fb`successors, fb`predecessors
  {
    && 0 <= v < |fb| == |g| && |OutEdges(dir, fb[v])| == |g[v]|
    && forall k :: 0 <= k < |g[v]| && g[v][k] < |fb| ==> OutEdges(dir, fb[v])[k] == fb[g[v][k]]
  }

  ghost predicate InModelled(dir: Direction, fb: seq<BasicBlock>, g: Graph, v: int)
    reads fb`successors, fb`predecessors
  {
    && 0 <= v < |fb| == |g|
    && (forall k {:trigger InEdges(dir, fb[v])[k]} :: 0 <= k < |InEdges(dir, fb[v])| ==>
          exists u :: Edge(g, u, v) && fb[u] == InEdges(dir, fb[v])[k])
    && (forall u {:trigger Edge(g, u, v)} :: Edge(g, u, v) ==> fb[u] in InEdges(dir, fb[v]))
  }

  ghost function BlockSet(fb: seq<BasicBlock>): set<BasicBlock> {
    set b | b in fb
  }

  ghost function IndexIn(fb: seq<BasicBlock>, b: BasicBlock): (i: int)
    ensures b in fb ==> 0 <= i < |fb| && fb[i] == b
  {
    if b in fb then var i :| 0 <= i < |fb| && fb[i] == b; i else 0
  }

  ghost function NumbersOf(fb: seq<BasicBlock>): (num: seq<int>)
    reads fb`dfsNumber
    ensures |num| == |fb|
    ensures forall x {:trigger num[x]} {:trigger fb[x]} :: 0 <= x < |fb| ==> num[x] == fb[x].dfsNumber
  {
    if fb == [] then [] else NumbersOf(fb[..|fb| - 1]) + [fb[|fb| - 1].dfsNumber]
  }

  /** The blocks in numbering order. */
  ghost function OrderOf(blocks: set<BasicBlock>, mapping: array<BasicBlock?>, n: nat): (order: seq<BasicBlock>)
    requires forall i {:trigger HoldsNumber(blocks, mapping, i)} :: 0 <= i < n ==> HoldsNumber(blocks, mapping, i)
    reads blocks`dfsNumber, mapping
    ensures |order| == n
    ensures forall i {:trigger order[i]} :: 0 <= i < n ==>
              i < mapping.Length && order[i] == mapping[i] && order[i] in blocks && order[i].dfsNumber == i
  {
    if n == 0 then []
    else
      assert HoldsNumber(blocks, mapping, n - 1);
      OrderOf(blocks, mapping, n - 1) + [mapping[n - 1]]
  }

  /** The reachable part of g, renamed by num. */
  ghost function Renamed(g: Graph, num: seq<int>, vert: seq<int>): (h: Graph)
    ensures |h| == |vert|
    ensures forall i :: 0 <= i < |vert| && 0 <= vert[i] < |g| ==>
              |h[i]| == |g[vert[i]]| && forall k :: 0 <= k < |h[i]| ==>
                h[i][k] == if g[vert[i]][k] < |num| && num[g[vert[i]][k]] >= 0 then num[g[vert[i]][k]] else 0
  {
    seq(|vert|, i requires 0 <= i < |vert| =>
      if 0 <= vert[i] < |g| then
        seq(|g[vert[i]]|, k requires 0 <= k < |g[vert[i]]| =>
          if g[vert[i]][k] < |num| && num[g[vert[i]][k]] >= 0 then num[g[vert[i]][k]] else 0)
      else [])
  }

  ghost function VerticesOf(fb: seq<BasicBlock>, order: seq<BasicBlock>): (vert: seq<int>)
    ensures |vert| == |order|
    ensures forall i {:trigger vert[i]} :: 0 <= i < |order| && order[i] in fb ==>
              0 <= vert[i] < |fb| && fb[vert[i]] == order[i]
  {
    seq(|order|, i requires 0 <= i < |order| => IndexIn(fb, order[i]))
  }

  /** The numbering pass has finished: the whole subtree of the root is closed. */
  ghost predicate NumberingDone(dir: Direction, fb: seq<BasicBlock>, g: Graph, r: int,
                                mapping: array<BasicBlock?>, t: DfsTree)
    reads fb, mapping
  {
    && Models(dir, fb, g) && 0 <= r < |fb| && fb[r].dfsNumber == 0
    && NumberingInvariant(dir, BlockSet(fb), mapping, t, {})
    && |t.end| > 0 && t.end[0] == |t.end|
  }

  /** The four views of a finished numbering. */
  datatype View = View(order: seq<BasicBlock>, num: seq<int>, vert: seq<int>, h: Graph)

  ghost predicate IsView(fb: seq<BasicBlock>, g: Graph, mapping: array<BasicBlock?>, t: DfsTree, w: View)
    reads fb`dfsNumber, mapping
  {
    && |w.order| == |t.end| == |w.vert| == |w.h| <= mapping.Length && |w.num| == |fb|
    && (forall i {:trigger w.order[i]} {:trigger w.vert[i]} :: 0 <= i < |w.order| ==>
          && 0 <= w.vert[i] < |fb| && fb[w.vert[i]] == w.order[i]
          && mapping[i] == w.order[i] && w.order[i].dfsNumber == i)
    && (forall x {:trigger w.num[x]} {:trigger fb[x]} :: 0 <= x < |fb| ==> w.num[x] == fb[x].dfsNumber)
    && w.h == Renamed(g, w.num, w.vert)
  }

  lemma MakeView(dir: Direction, fb: seq<BasicBlock>, g: Graph, r: int, mapping: array<BasicBlock?>, t: DfsTree)
    returns (w: View)
    requires NumberingDone(dir, fb, g, r, mapping, t)
    ensures IsView(fb, g, mapping, t, w)
  {
    var order := OrderOf(BlockSet(fb), mapping, |t.end|);
    var num, vert := NumbersOf(fb), VerticesOf(fb, order);
    w := View(order, num, vert, Renamed(g, num, vert));
  }

  /** A numbered vertex x of g: its block, its place in the order, and its neighbours' numbers. */
  lemma VertexView(dir: Direction, fb: seq<BasicBlock>, g: Graph, r: int, mapping: array<BasicBlock?>, t: DfsTree, w: View, x: int)
    requires NumberingDone(dir, fb, g, r, mapping, t) && IsView(fb, g, mapping, t, w)
    requires 0 <= x < |g|
    ensures w.num[x] == -1 || (0 <= w.num[x] < |w.h| && w.vert[w.num[x]] == x && w.order[w.num[x]] == fb[x])
    ensures w.num[x] >= 0 ==> forall k :: 0 <= k < |g[x]| ==>
              && g[x][k] < |g| && w.num[g[x][k]] >= 0
              && w.h[w.num[x]][k] == w.num[g[x][k]]
              && (w.num[x] < w.num[g[x][k]] ==> w.num[g[x][k]] < t.end[w.num[x]])
  {
    var b := fb[x];
    assert w.num[x] == b.dfsNumber && b in BlockSet(fb);
    if b.dfsNumber != UNNUMBERED {
      assert Recorded(dir, BlockSet(fb), t, {}, b);
      assert mapping[b.dfsNumber] == b;
      assert OutModelled(dir, fb, g, x);
      assert w.order[b.dfsNumber] == b;
      forall k | 0 <= k < |g[x]|
        ensures g[x][k] < |g| && OutEdges(dir, b)[k] == fb[g[x][k]] && w.num[g[x][k]] == fb[g[x][k]].dfsNumber
      {
      }
    }
  }

  lemma ViewRenumbers(dir: Direction, fb: seq<BasicBlock>, g: Graph, r: int, mapping: array<BasicBlock?>, t: DfsTree, w: View)
    requires NumberingDone(dir, fb, g, r, mapping, t) && IsView(fb, g, mapping, t, w)
    ensures Renumbers(g, r, w.h, w.num, w.vert)
  {
    forall x | 0 <= x < |g|
      ensures w.num[x] == -1 || (0 <= w.num[x] < |w.h| && w.vert[w.num[x]] == x)
    {
      VertexView(dir, fb, g, r, mapping, t, w, x);
    }
    forall i | 0 <= i < |w.h|
      ensures 0 <= w.vert[i] < |g| && w.num[w.vert[i]] == i
    {
      assert w.order[i].dfsNumber == i;
    }
    forall x, y | Edge(g, x, y) && w.num[x] >= 0
      ensures w.num[y] >= 0 && Edge(w.h, w.num[x], w.num[y])
    {
      VertexView(dir, fb, g, r, mapping, t, w, x);
      VertexView(dir, fb, g, r, mapping, t, w, y);
      var k :| 0 <= k < |g[x]| && g[x][k] == y;
      assert w.h[w.num[x]][k] == w.num[y];
    }
    forall i, j | Edge(w.h, i, j)
      ensures Edge(g, w.vert[i], w.vert[j])
    {
      var x := w.vert[i];
      assert w.num[x] == i;
      VertexView(dir, fb, g, r, mapping, t, w, x);
      var k :| 0 <= k < |w.h[i]| && w.h[i][k] == j;
      VertexView(dir, fb, g, r, mapping, t, w, g[x][k]);
      assert w.vert[j] == g[x][k];
    }
  }

  lemma ViewSpans(dir: Direction, fb: seq<BasicBlock>, g: Graph, r: int, mapping: array<BasicBlock?>, t: DfsTree, w: View)
    requires NumberingDone(dir, fb, g, r, mapping, t) && IsView(fb, g, mapping, t, w)
    requires Renumbers(g, r, w.h, w.num, w.vert)
    ensures t.Spans(w.h)
    ensures forall v {:trigger w.order[v].parent} :: 0 < v < |w.order| ==> IsNumber(w.order, w.order[v].parent, t.par[v])
  {
    var h := w.h;
    forall u, k | 0 <= u < |h| && 0 <= k < |h[u]|
      ensures h[u][k] < |h|
    {
      var x := w.vert[u];
      VertexView(dir, fb, g, r, mapping, t, w, x);
      VertexView(dir, fb, g, r, mapping, t, w, g[x][k]);
    }
    forall u, v | 0 <= u <= v < |h|
      ensures Nested(t, {}, u, v)
    {
    }
    forall u | 0 <= u < |h| ensures u < t.end[u] <= |h| { assert Nested(t, {}, u, u); }
    forall u, v | 0 <= u <= v < |h| && v < t.end[u] ensures t.end[v] <= t.end[u] { assert Nested(t, {}, u, v); }
    forall u, v | 0 <= u < v < |h| && t.par[v] < u ensures t.end[u] <= v { assert Nested(t, {}, u, v); }
    forall v | 0 < v < |h|
      ensures 0 <= t.par[v] < v < t.end[t.par[v]] && Edge(h, t.par[v], v)
      ensures IsNumber(w.order, w.order[v].parent, t.par[v])
    {
      assert Nested(t, {}, v, v);
      ParentEdge(dir, fb, g, r, mapping, t, w, v);
    }
    forall u, v | Edge(h, u, v) && u < v
      ensures v < t.end[u]
    {
      var x := w.vert[u];
      VertexView(dir, fb, g, r, mapping, t, w, x);
      var k :| 0 <= k < |h[u]| && h[u][k] == v;
      assert h[u][k] == w.num[g[x][k]];
    }
  }

  lemma ParentEdge(dir: Direction, fb: seq<BasicBlock>, g: Graph, r: int, mapping: array<BasicBlock?>, t: DfsTree, w: View, v: int)
    requires NumberingDone(dir, fb, g, r, mapping, t) && IsView(fb, g, mapping, t, w)
    requires 0 < v < |w.h|
    ensures Edge(w.h, t.par[v], v)
    ensures IsNumber(w.order, w.order[v].parent, t.par[v])
  {
    var b := w.order[v];
    assert Recorded(dir, BlockSet(fb), t, {}, b);
    var p := b.parent;
    var x := IndexIn(fb, p);
    VertexView(dir, fb, g, r, mapping, t, w, x);
    assert OutModelled(dir, fb, g, x);
    var k :| 0 <= k < |OutEdges(dir, p)| && OutEdges(dir, p)[k] == b;
    assert fb[g[x][k]] == b;
    assert w.h[t.par[v]][k] == v;
  }

  lemma PredecessorView(dir: Direction, fb: seq<BasicBlock>, g: Graph, r: int, mapping: array<BasicBlock?>,
                        t: DfsTree, w: View, u: int, y: int, v: int)
    requires NumberingDone(dir, fb, g, r, mapping, t) && IsView(fb, g, mapping, t, w)
    requires Edge(g, u, y) && u < |fb| && 0 <= v < |w.h| && w.num[y] == v
    ensures var p := fb[u];
            p in BlockSet(fb) && (p.dfsNumber == UNNUMBERED || (IsNumber(w.order, p, p.dfsNumber) && Edge(w.h, p.dfsNumber, v)))
  {
    VertexView(dir, fb, g, r, mapping, t, w, u);
    assert w.num[u] == fb[u].dfsNumber;
    var k :| 0 <= k < |g[u]| && g[u][k] == y;
    assert w.num[u] >= 0 ==> w.h[w.num[u]][k] == v;
  }

  lemma SuccessorListed(dir: Direction, fb: seq<BasicBlock>, g: Graph, r: int, mapping: array<BasicBlock?>,
                        t: DfsTree, w: View, i: int, v: int)
    requires Models(dir, fb, g) && IsView(fb, g, mapping, t, w) && Renumbers(g, r, w.h, w.num, w.vert) && Edge(w.h, i, v)
    ensures w.order[i] in InEdges(dir, w.order[v])
  {
    assert Edge(g, w.vert[i], w.vert[v]);
    assert fb[w.vert[v]] == w.order[v] && fb[w.vert[i]] == w.order[i];
    assert InModelled(dir, fb, g, w.vert[v]);
  }

  lemma ViewKnowsPredecessors(dir: Direction, fb: seq<BasicBlock>, g: Graph, r: int, mapping: array<BasicBlock?>,
                              t: DfsTree, w: View, v: int)
    requires NumberingDone(dir, fb, g, r, mapping, t) && IsView(fb, g, mapping, t, w)
    requires Renumbers(g, r, w.h, w.num, w.vert) && 0 <= v < |w.h|
    ensures KnowsPredecessors(dir, BlockSet(fb), w.order, w.h, v)
  {
    var y := w.vert[v];
    var b := w.order[v];
    assert fb[y] == b && w.num[y] == v;
    assert InModelled(dir, fb, g, y);
    forall k | 0 <= k < |InEdges(dir, b)|
      ensures var p := InEdges(dir, b)[k];
              p in BlockSet(fb) && (p.dfsNumber == UNNUMBERED ||
                                    (IsNumber(w.order, p, p.dfsNumber) && Edge(w.h, p.dfsNumber, v)))
    {
      var u :| Edge(g, u, y) && fb[u] == InEdges(dir, fb[y])[k];
      PredecessorView(dir, fb, g, r, mapping, t, w, u, y, v);
    }
    forall i | Edge(w.h, i, v)
      ensures w.order[i] in InEdges(dir, b)
    {
      SuccessorListed(dir, fb, g, r, mapping, t, w, i, v);
    }
  }

  /** A finished numbering gives the later passes everything they need. */
  lemma ViewNumbered(dir: Direction, fb: seq<BasicBlock>, g: Graph, r: int, mapping: array<BasicBlock?>, t: DfsTree, w: View)
    requires NumberingDone(dir, fb, g, r, mapping, t) && IsView(fb, g, mapping, t, w)
    ensures Renumbers(g, r, w.h, w.num, w.vert)
    ensures Numbered(dir, BlockSet(fb), w.order, w.h, t)
    ensures MappingHolds(mapping, w.order)
  {
    ViewRenumbers(dir, fb, g, r, mapping, t, w);
    ViewSpans(dir, fb, g, r, mapping, t, w);
    forall v | 0 <= v < |w.order|
      ensures KnowsPredecessors(dir, BlockSet(fb), w.order, w.h, v)
    {
      ViewKnowsPredecessors(dir, fb, g, r, mapping, t, w, v);
    }
  }
}
