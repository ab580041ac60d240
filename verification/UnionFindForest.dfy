/** The path-compressed forest over the numbered blocks: path_compression, evaluate
    and link_ancestor. At stage i every block numbered above i has been linked below
    its tree parent, and no other block has. */
module UnionFindForest {
  import opened BasicBlocks
  import opened SemidominatorTheory

  ghost predicate Indexed(order: seq<BasicBlock>, t: DfsTree)
    reads order`dfsNumber
  {
    && |order| == |t.end|
    && forall i {:trigger order[i]} :: 0 <= i < |order| ==> order[i].dfsNumber == i
  }

  ghost predicate IsNumber(order: seq<BasicBlock>, b: BasicBlock?, i: int) {
    0 <= i < |order| && order[i] == b
  }

  /** l has the least semidominator number on the tree path from a (exclusive) down to v,
      and that path lies entirely above stage. */
  ghost predicate LeastOnPath(t: DfsTree, sem: seq<int>, stage: int, a: int, l: int, v: int) {
    && |sem| == |t.end|
    && t.IsAncestor(l, v) && a < l
    && forall u {:trigger t.IsAncestor(u, v)} :: a < u && t.IsAncestor(u, v) ==> stage < u && sem[l] <= sem[u]
  }

  /** The forest fields of block v: a proper tree ancestor a, and the best candidate
      strictly below a. */
  ghost predicate ForestEntry(order: seq<BasicBlock>, t: DfsTree, sem: seq<int>, stage: int, v: int)
    reads order`ancestor, order`optimalCandidate, order`dfsNumber
  {
    && 0 <= v < |order| == |t.end|
    && if v <= stage then
         order[v].ancestor == null && order[v].optimalCandidate == order[v]
       else
         && order[v].ancestor in order && order[v].optimalCandidate in order
         && var a, l := order[v].ancestor.dfsNumber, order[v].optimalCandidate.dfsNumber;
         && IsNumber(order, order[v].ancestor, a) && IsNumber(order, order[v].optimalCandidate, l)
         && a < v && t.IsAncestor(a, v)
         && LeastOnPath(t, sem, stage, a, l, v)
  }

  /** The blocks above stage store the semidominator numbers sem. */
  ghost predicate StoresSemidominators(order: seq<BasicBlock>, sem: seq<int>, stage: int)
    reads order`semidominatorNumber
  {
    && |sem| == |order|
    && forall v {:trigger order[v]} {:trigger sem[v]} :: 0 <= v < |order| && stage < v ==>
         order[v].semidominatorNumber == sem[v]
  }

  ghost predicate Forest(order: seq<BasicBlock>, t: DfsTree, sem: seq<int>, stage: int)
    reads order`ancestor, order`optimalCandidate, order`dfsNumber, order`semidominatorNumber
  {
    && Indexed(order, t)
    && StoresSemidominators(order, sem, stage)
    && (forall u, v :: 0 <= u <= v < |t.end| && v < t.end[u] ==> t.end[v] <= t.end[u])
    && forall v {:trigger ForestEntry(order, t, sem, stage, v)} :: 0 <= v < |order| ==>
         ForestEntry(order, t, sem, stage, v)
  }

  // ------------------------------------------------ the minimum of a forest path

  /** The least semidominator number among the candidates met when climbing from v to just below
      its root, in the forest as it is, without compressing anything. */
  ghost function ForestMinimum(order: seq<BasicBlock>, t: DfsTree, sem: seq<int>, stage: int, v: int): int
    requires Forest(order, t, sem, stage) && 0 <= v < |order|
    reads order`ancestor, order`optimalCandidate, order`dfsNumber, order`semidominatorNumber
    decreases v
  {
    assert ForestEntry(order, t, sem, stage, v);
    var ancestor, own := order[v].ancestor, order[v].optimalCandidate.semidominatorNumber;
    if ancestor == null || ancestor.ancestor == null then own
    else
      var above := ForestMinimum(order, t, sem, stage, ancestor.dfsNumber);
      if above < own then above else own
  }

  /** Whatever shape the forest has, that minimum is the least semidominator number among the
      linked tree ancestors of v. */
  lemma {:induction false} ForestMinimumIsLeast(order: seq<BasicBlock>, t: DfsTree, sem: seq<int>, stage: int, v: int)
    returns (l: int)
    requires Forest(order, t, sem, stage) && stage < v < |order| && 0 <= v
    ensures LeastOnPath(t, sem, stage, stage, l, v) && ForestMinimum(order, t, sem, stage, v) == sem[l]
    decreases v
  {
    assert ForestEntry(order, t, sem, stage, v);
    var a, own := order[v].ancestor.dfsNumber, order[v].optimalCandidate.dfsNumber;
    assert ForestEntry(order, t, sem, stage, a);
    l := own;
    if order[a].ancestor == null {
    } else {
      var above := ForestMinimumIsLeast(order, t, sem, stage, a);
      l := if sem[above] < sem[own] then above else own;
      assert t.IsAncestor(above, v);
      forall u | stage < u && t.IsAncestor(u, v)
        ensures sem[l] <= sem[u]
      {
        if u <= a { assert t.IsAncestor(u, a); }
      }
    }
  }

  /** m is the least semidominator number among the linked tree ancestors of v. */
  ghost predicate IsLeast(t: DfsTree, sem: seq<int>, stage: int, v: int, m: int) {
    exists l {:trigger LeastOnPath(t, sem, stage, stage, l, v)} :: LeastOnPath(t, sem, stage, stage, l, v) && m == sem[l]
  }

  /** All the forest minima. They do not depend on the shape of the forest. */
  lemma ForestMinima(order: seq<BasicBlock>, t: DfsTree, sem: seq<int>, stage: int) returns (minima: seq<int>)
    requires Forest(order, t, sem, stage)
    ensures |minima| == |order|
    ensures forall v {:trigger ForestMinimum(order, t, sem, stage, v)} {:trigger minima[v]} :: 0 <= v < |order| ==>
              minima[v] == ForestMinimum(order, t, sem, stage, v)
    ensures forall v {:trigger minima[v]} :: 0 <= v < |order| ==>
              if v <= stage then minima[v] == order[v].semidominatorNumber else IsLeast(t, sem, stage, v, minima[v])
  {
    minima := [];
    while |minima| < |order|
      invariant |minima| <= |order|
      invariant forall v {:trigger minima[v]} :: 0 <= v < |minima| ==>
                  && minima[v] == ForestMinimum(order, t, sem, stage, v)
                  && if v <= stage then minima[v] == order[v].semidominatorNumber else IsLeast(t, sem, stage, v, minima[v])
    {
      assert ForestEntry(order, t, sem, stage, |minima|);
      if stage < |minima| {
        var l := ForestMinimumIsLeast(order, t, sem, stage, |minima|);
      }
      minima := minima + [ForestMinimum(order, t, sem, stage, |minima|)];
    }
  }

  /** The forest minimum of every block is what it was. */
  twostate predicate MinimaKept(order: seq<BasicBlock>, t: DfsTree, sem: seq<int>, stage: int)
    requires old(Forest(order, t, sem, stage)) && Forest(order, t, sem, stage)
    reads order`ancestor, order`optimalCandidate, order`dfsNumber, order`semidominatorNumber
  {
    forall u {:trigger ForestMinimum(order, t, sem, stage, u)} :: 0 <= u < |order| ==>
      ForestMinimum(order, t, sem, stage, u) == old(ForestMinimum(order, t, sem, stage, u))
  }

  /** After compression v's forest ancestor is a root of the forest. Nothing above v is touched,
      and no block's forest minimum changes. */
  method PathCompression(block: BasicBlock, ghost order: seq<BasicBlock>, ghost t: DfsTree, ghost sem: seq<int>,
                         ghost stage: int, ghost v: int)
    requires Forest(order, t, sem, stage) && IsNumber(order, block, v)
    modifies order`ancestor, order`optimalCandidate
    ensures Forest(order, t, sem, stage) && MinimaKept(order, t, sem, stage)
    ensures stage < v ==> block.ancestor != null && block.ancestor.dfsNumber <= stage
    ensures forall u {:trigger order[u]} :: v < u < |order| ==>
              order[u].ancestor == old(order[u].ancestor) && order[u].optimalCandidate == old(order[u].optimalCandidate)
    decreases v
  {
    assert ForestEntry(order, t, sem, stage, v);
    var ancestor := block.ancestor;
    if ancestor == null {
      return;
    }
    ghost var a := ancestor.dfsNumber;
    assert ForestEntry(order, t, sem, stage, a);
    if ancestor.ancestor == null {
      return;
    }
    PathCompression(ancestor, order, t, sem, stage, a);
    assert ForestEntry(order, t, sem, stage, v) && ForestEntry(order, t, sem, stage, a);
    TakeFromAncestor(block, ancestor, order, t, sem, stage, v, a);
  }

  /** The end of path_compression: keep the better of the two candidates and skip the ancestor. */
  method TakeFromAncestor(block: BasicBlock, ancestor: BasicBlock, ghost order: seq<BasicBlock>,
                          ghost t: DfsTree, ghost sem: seq<int>, ghost stage: int, ghost v: int, ghost a: int)
    requires Forest(order, t, sem, stage) && IsNumber(order, block, v) && IsNumber(order, ancestor, a)
    requires stage < a < v && block.ancestor == ancestor
    requires ForestEntry(order, t, sem, stage, v) && ForestEntry(order, t, sem, stage, a)
    modifies block`ancestor, block`optimalCandidate
    ensures Forest(order, t, sem, stage) && MinimaKept(order, t, sem, stage)
    ensures block.ancestor == old(ancestor.ancestor)
  {
    ghost var minima := ForestMinima(order, t, sem, stage);
    var best := block.optimalCandidate;
    if ancestor.optimalCandidate.semidominatorNumber < best.semidominatorNumber {
      best := ancestor.optimalCandidate;
    }
    LeastJoins(t, sem, stage, ancestor.ancestor.dfsNumber, ancestor.optimalCandidate.dfsNumber, a,
               block.optimalCandidate.dfsNumber, v, best.dfsNumber);
    Rewire(block, best, ancestor.ancestor);
    forall u | 0 <= u < |order|
      ensures ForestEntry(order, t, sem, stage, u)
    {
      assert old(ForestEntry(order, t, sem, stage, u));
    }
    ghost var after := ForestMinima(order, t, sem, stage);
    assert forall u :: 0 <= u < |order| ==> minima[u] == after[u];
  }

  method Rewire(block: BasicBlock, candidate: BasicBlock?, ancestor: BasicBlock?)
    modifies block`ancestor, block`optimalCandidate
    ensures block.optimalCandidate == candidate && block.ancestor == ancestor
  {
    block.optimalCandidate := candidate;
    block.ancestor := ancestor;
  }

  /** The better of the best candidates of the paths (r, a] and (a, v] is the best of (r, v]. */
  lemma LeastJoins(t: DfsTree, sem: seq<int>, stage: int, r: int, la: int, a: int, lv: int, v: int, l: int)
    requires forall u, v :: 0 <= u <= v < |t.end| && v < t.end[u] ==> t.end[v] <= t.end[u]
    requires t.IsAncestor(r, a) && t.IsAncestor(a, v)
    requires LeastOnPath(t, sem, stage, r, la, a) && LeastOnPath(t, sem, stage, a, lv, v)
    requires l == if sem[la] < sem[lv] then la else lv
    ensures t.IsAncestor(r, v) && LeastOnPath(t, sem, stage, r, l, v)
  {
    assert t.IsAncestor(la, v);
    forall u | r < u && t.IsAncestor(u, v)
      ensures stage < u && sem[l] <= sem[u]
    {
      if u <= a { assert t.IsAncestor(u, a); }
    }
  }

  /** evaluate: the block of least semidominator number among the tree ancestors of v
      (v included) that have been linked; v itself if it has not been linked. */
  method Evaluate(block: BasicBlock, ghost order: seq<BasicBlock>, ghost t: DfsTree, ghost sem: seq<int>,
                  ghost stage: int, ghost v: int)
    returns (best: BasicBlock)
    requires Forest(order, t, sem, stage) && IsNumber(order, block, v)
    modifies order`ancestor, order`optimalCandidate
    ensures Forest(order, t, sem, stage) && MinimaKept(order, t, sem, stage)
    ensures v <= stage ==> best == block
    ensures stage < v ==>
      IsNumber(order, best, best.dfsNumber) && LeastOnPath(t, sem, stage, stage, best.dfsNumber, v)
  {
    assert ForestEntry(order, t, sem, stage, v);
    if block.ancestor == null {
      return block.optimalCandidate;
    }
    PathCompression(block, order, t, sem, stage, v);
    assert ForestEntry(order, t, sem, stage, v);
    best := block.optimalCandidate;
  }

  method LinkAncestor(ancestor: BasicBlock, descendant: BasicBlock, ghost order: seq<BasicBlock>,
                      ghost t: DfsTree, ghost sem: seq<int>, ghost stage: int, ghost w: int, ghost p: int)
    requires Forest(order, t, sem, w) && 0 <= p < w && stage == w - 1
    requires IsNumber(order, ancestor, p) && IsNumber(order, descendant, w)
    requires descendant.semidominatorNumber == sem[w]
    requires t.IsAncestor(p, w) && w < t.end[w]
    requires forall u :: p < u < w ==> !t.IsAncestor(u, w)
    modifies descendant`ancestor
    ensures Forest(order, t, sem, stage)
  {
    descendant.ancestor := ancestor;
    forall u | 0 <= u < |order|
      ensures ForestEntry(order, t, sem, stage, u)
    {
      assert old(ForestEntry(order, t, sem, w, u));
    }
  }

  /** The forest at stage w does not look at the semidominator number of w. */
  lemma ForestIgnoresStage(order: seq<BasicBlock>, t: DfsTree, sem: seq<int>, sem': seq<int>, w: int)
    requires Forest(order, t, sem, w) && 0 <= w < |order| && |sem'| == |sem|
    requires forall v :: 0 <= v < |sem| && v != w ==> sem'[v] == sem[v]
    ensures Forest(order, t, sem', w)
  {
    forall v | 0 <= v < |order|
      ensures ForestEntry(order, t, sem', w, v)
    {
      assert ForestEntry(order, t, sem, w, v);
    }
  }
}
