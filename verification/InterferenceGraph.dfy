/** The register allocator's interference graph: adjacency lists, a matrix with 16-bit
    offsets, and the coalescing of live ranges. */
module InterferenceGraph {
  import opened BitMatrices
  import opened DynamicArrays

  datatype LiveRangeClass = GeneralPurpose | Sse

  const NO_REGISTER: nat := 0
  const RSP: nat := 16
  const RIP: nat := 17

  class Variable {
    var associatedLiveRange: LiveRange

    constructor (range: LiveRange)
      ensures associatedLiveRange == range
    {
      associatedLiveRange := range;
    }
  }

  class LiveRange {
    var variables: seq<Variable>
    var neighbors: seq<LiveRange>
    var degree: nat
    var interferenceGraphIndex: nat
    var register: nat                 // the register number of the class's own register file
    const liveRangeClass: LiveRangeClass
    var functionParameterOrder: nat
    var spillCost: nat
    var assignmentCount: nat

    constructor (liveRangeClass: LiveRangeClass)
      ensures variables == [] && neighbors == [] && degree == 0 && interferenceGraphIndex == 0
      ensures register == NO_REGISTER && this.liveRangeClass == liveRangeClass
      ensures functionParameterOrder == spillCost == assignmentCount == 0
    {
      variables, neighbors, degree, interferenceGraphIndex := [], [], 0, 0;
      register, this.liveRangeClass := NO_REGISTER, liveRangeClass;
      functionParameterOrder, spillCost, assignmentCount := 0, 0, 0;
    }
  }

  class Graph {
    const nodes: array<int>
    const liveRangeCount: nat

    constructor (liveRangeCount: nat)
      ensures this.liveRangeCount == liveRangeCount && fresh(nodes) && nodes.Length == liveRangeCount * liveRangeCount
      ensures forall k :: 0 <= k < nodes.Length ==> nodes[k] == 0
    {
      var matrix := new int[liveRangeCount * liveRangeCount](_ => 0);
      nodes, this.liveRangeCount := matrix, liveRangeCount;
    }
  }

  // ------------------------------------------------------- 16-bit offsets

  // The offset as it is stored, in a u_int16_t.
  function Offset16(n: nat, row: nat, column: nat): nat {
    Offset(n, row, column) % 0x1_0000
  }

  lemma SmallOffset(n: nat, row: nat, column: nat)
    requires n <= 256 && row < n && column < n
    ensures Offset16(n, row, column) == Offset(n, row, column) < n * n
  {
    OffsetBounds(n, row, column);
    SquareBound(n);
  }

  lemma SquareBound(n: nat)
    requires n <= 256
    ensures n * n <= 0x1_0000
  {
  }

  ghost predicate OffsetsCollide(n: nat) {
    exists r, c, r', c' {:trigger Offset16(n, r, c), Offset16(n, r', c')} ::
      && 0 <= r < n && 0 <= c < n && 0 <= r' < n && 0 <= c' < n && (r, c) != (r', c')
      && Offset16(n, r, c) == Offset16(n, r', c')
  }

  /** Two cells share a 16-bit offset exactly when there are more than 256 live ranges. */
  lemma OffsetsCollideBeyond256(n: nat)
    ensures OffsetsCollide(n) <==> n > 256
  {
    if n > 256 {
      var r, c := 0x1_0000 / n, 0x1_0000 % n;
      assert Offset(n, r, c) == 0x1_0000 by {
        assert (0x1_0000 / n) * n + 0x1_0000 % n == 0x1_0000;
      }
      assert r < n;
      assert r != 0 || c != 0;
      assert Offset16(n, r, c) == 0 && Offset16(n, 0, 0) == 0;
      assert OffsetsCollide(n);
    } else if OffsetsCollide(n) {
      var r, c, r', c' :|
        && 0 <= r < n && 0 <= c < n && 0 <= r' < n && 0 <= c' < n && (r, c) != (r', c')
        && Offset16(n, r, c) == Offset16(n, r', c');
      SmallOffset(n, r, c);
      SmallOffset(n, r', c');
      OffsetInjective(n, r, c, r', c');
    }
  }

  // ------------------------------------------------------------ agreement

  predicate Pinned(range: LiveRange)
    reads range`register
  {
    range.liveRangeClass.GeneralPurpose? && (range.register == RSP || range.register == RIP)
  }

  /** Interference goes both ways, and nothing interferes with itself. */
  ghost predicate Mutual(interferes: set<(int, int)>) {
    forall u, v {:trigger (u, v) in interferes} :: (u, v) in interferes ==> (v, u) in interferes && u != v
  }

  ghost predicate Within(interferes: set<(int, int)>, n: nat) {
    forall u, v {:trigger (u, v) in interferes} :: (u, v) in interferes ==> 0 <= u < n && 0 <= v < n
  }

  /** The list names exactly the ranges that interfere with range u, without duplicates. */
  ghost predicate IsList(ranges: seq<LiveRange>, interferes: set<(int, int)>, u: int, list: seq<LiveRange>) {
    && Distinct(list)
    && (forall x {:trigger x in list} :: x in list ==> x in ranges)
    && (forall v {:trigger (u, v) in interferes} {:trigger ranges[v]} :: 0 <= v < |ranges| ==>
          (ranges[v] in list <==> (u, v) in interferes))
  }

  /** What range u stores: its neighbors, and how many there are. */
  ghost predicate Lists(ranges: seq<LiveRange>, interferes: set<(int, int)>, u: int)
    reads ranges`neighbors, ranges`degree
  {
    && 0 <= u < |ranges|
    && IsList(ranges, interferes, u, ranges[u].neighbors)
    && ranges[u].degree == |ranges[u].neighbors|
  }

  /** The adjacency lists and the degrees hold the relation. */
  ghost predicate Listed(ranges: seq<LiveRange>, interferes: set<(int, int)>)
    reads ranges`neighbors, ranges`degree
  {
    && Distinct(ranges) && Mutual(interferes) && Within(interferes, |ranges|)
    && forall u {:trigger Lists(ranges, interferes, u)} :: 0 <= u < |ranges| ==> Lists(ranges, interferes, u)
  }

  /** Ranges pinned to %rsp or %rip interfere with nothing. */
  ghost predicate PinnedAlone(ranges: seq<LiveRange>, interferes: set<(int, int)>)
    reads ranges`register
  {
    forall u, v {:trigger (u, v) in interferes} :: (u, v) in interferes && 0 <= u < |ranges| ==> !Pinned(ranges[u])
  }

  ghost predicate Numbered(ranges: seq<LiveRange>)
    reads ranges`interferenceGraphIndex
  {
    forall i {:trigger ranges[i]} :: 0 <= i < |ranges| ==> ranges[i].interferenceGraphIndex == i
  }

  /** The ranges know their rows, and the matrix holds the relation. */
  ghost predicate Tabled(graph: Graph, ranges: seq<LiveRange>, interferes: set<(int, int)>)
    reads graph.nodes, ranges`interferenceGraphIndex
  {
    && |ranges| == graph.liveRangeCount <= 256
    && Numbered(ranges)
    && Holds(graph.nodes[..], graph.liveRangeCount, interferes)
  }

  /** The range that has number u in the graph. */
  ghost predicate IsRange(ranges: seq<LiveRange>, range: LiveRange, u: int) {
    0 <= u < |ranges| && ranges[u] == range
  }

  ghost function Both(u: int, v: int): set<(int, int)> {
    {(u, v), (v, u)}
  }

  // ------------------------------------------------- single interferences

  /** Storing a flag in both cells of a pair, through 16-bit offsets. */
  method StoreBoth(graph: Graph, a: LiveRange, b: LiveRange, flag: bool, ghost ranges: seq<LiveRange>,
                   ghost interferes: set<(int, int)>, ghost u: int, ghost v: int)
    requires Tabled(graph, ranges, interferes) && IsRange(ranges, a, u) && IsRange(ranges, b, v)
    modifies graph.nodes
    ensures Tabled(graph, ranges, if flag then interferes + Both(u, v) else interferes - Both(u, v))
  {
    var n := graph.liveRangeCount;
    var offsetAB := Offset16(n, a.interferenceGraphIndex, b.interferenceGraphIndex);
    var offsetBA := Offset16(n, b.interferenceGraphIndex, a.interferenceGraphIndex);
    SmallOffset(n, u, v);
    SmallOffset(n, v, u);
    ghost var before := graph.nodes[..];
    graph.nodes[offsetAB] := if flag then 1 else 0;
    ghost var between := graph.nodes[..];
    CellWritten(before, between, n, u, v, flag, interferes);
    ghost var half := if flag then interferes + {(u, v)} else interferes - {(u, v)};
    graph.nodes[offsetBA] := if flag then 1 else 0;
    CellWritten(between, graph.nodes[..], n, v, u, flag, half);
    assert (if flag then half + {(v, u)} else half - {(v, u)}) ==
           if flag then interferes + Both(u, v) else interferes - Both(u, v);
  }

  /** Changing a pair's lists and degrees, leaving everything else of the ranges alone. */
  method SetNeighbors(a: LiveRange, b: LiveRange, listA: seq<LiveRange>, listB: seq<LiveRange>)
    requires a != b
    modifies a`neighbors, b`neighbors, a`degree, b`degree
    ensures a.neighbors == listA && a.degree == |listA|
    ensures b.neighbors == listB && b.degree == |listB|
  {
    a.neighbors := listA;
    b.neighbors := listB;
    a.degree := |a.neighbors|;
    b.degree := |b.neighbors|;
  }

  lemma IncludingList(ranges: seq<LiveRange>, interferes: set<(int, int)>, u: int, v: int, list: seq<LiveRange>)
    requires Distinct(ranges) && IsList(ranges, interferes, u, list) && 0 <= v < |ranges|
    ensures IsList(ranges, interferes + Both(u, v), u, Including(list, ranges[v]))
  {
  }

  lemma WithoutList(ranges: seq<LiveRange>, interferes: set<(int, int)>, u: int, v: int, list: seq<LiveRange>)
    requires Distinct(ranges) && IsList(ranges, interferes, u, list) && 0 <= v < |ranges| && u != v
    ensures IsList(ranges, interferes - Both(u, v), u, Without(list, ranges[v]))
  {
    WithoutDistinct(list, ranges[v]);
    WithoutKeeps(list, ranges[v]);
  }

  /** The lists of other ranges do not notice. */
  lemma OtherList(ranges: seq<LiveRange>, interferes: set<(int, int)>, u: int, v: int, w: int, list: seq<LiveRange>)
    requires IsList(ranges, interferes, w, list) && w != u && w != v
    ensures IsList(ranges, interferes + Both(u, v), w, list) && IsList(ranges, interferes - Both(u, v), w, list)
  {
  }

  /** A general purpose range that has been given the stack pointer or the instruction pointer. */
  ghost predicate Reserved(range: LiveRange)
    reads range`register
  {
    range.liveRangeClass == GeneralPurpose && range.register in {RSP, RIP}
  }

  /** add_interference: the lists only. */
  method AddInterference(a: LiveRange, b: LiveRange, ghost ranges: seq<LiveRange>, ghost interferes: set<(int, int)>,
                         ghost u: int, ghost v: int)
    requires Listed(ranges, interferes) && IsRange(ranges, a, u) && IsRange(ranges, b, v)
    modifies a`neighbors, b`neighbors, a`degree, b`degree
    ensures Listed(ranges, if a == b || Pinned(a) || Pinned(b) then interferes else interferes + Both(u, v))
    ensures PinnedAlone(ranges, interferes) ==>
              PinnedAlone(ranges, if a == b || Pinned(a) || Pinned(b) then interferes else interferes + Both(u, v))
    ensures a == b || Reserved(a) || Reserved(b) ==> a.neighbors == old(a.neighbors) && b.neighbors == old(b.neighbors)
    ensures a != b && !Reserved(a) && !Reserved(b) ==>
              && a.neighbors == Including(old(a.neighbors), b) && b.neighbors == Including(old(b.neighbors), a)
              && Listed(ranges, interferes + Both(u, v))
  {
    if a == b || Pinned(a) || Pinned(b) {
      return;
    }
    Enlist(a, b, ranges, interferes, u, v);
  }

  method Enlist(a: LiveRange, b: LiveRange, ghost ranges: seq<LiveRange>, ghost interferes: set<(int, int)>,
                ghost u: int, ghost v: int)
    requires Listed(ranges, interferes) && IsRange(ranges, a, u) && IsRange(ranges, b, v) && a != b
    modifies a`neighbors, b`neighbors, a`degree, b`degree
    ensures Listed(ranges, interferes + Both(u, v))
    ensures a.neighbors == Including(old(a.neighbors), b) && b.neighbors == Including(old(b.neighbors), a)
  {
    assert Lists(ranges, interferes, u) && Lists(ranges, interferes, v);
    IncludingList(ranges, interferes, u, v, a.neighbors);
    IncludingList(ranges, interferes, v, u, b.neighbors);
    assert Both(v, u) == Both(u, v);
    SetNeighbors(a, b, Including(a.neighbors, b), Including(b.neighbors, a));
    forall w | 0 <= w < |ranges|
      ensures Lists(ranges, interferes + Both(u, v), w)
    {
      if w != u && w != v {
        assert old(Lists(ranges, interferes, w));
        OtherList(ranges, interferes, u, v, w, ranges[w].neighbors);
      }
    }
  }

  /** remove_interference, whether or not the lists and the matrix hold the same relation. */
  method RemoveInterference(graph: Graph, a: LiveRange, b: LiveRange, ghost ranges: seq<LiveRange>,
                            ghost listed: set<(int, int)>, ghost tabled: set<(int, int)>, ghost u: int, ghost v: int)
    requires Listed(ranges, listed) && Tabled(graph, ranges, tabled)
    requires IsRange(ranges, a, u) && IsRange(ranges, b, v) && a != b
    modifies graph.nodes, a`neighbors, b`neighbors, a`degree, b`degree
    ensures Listed(ranges, listed - Both(u, v)) && Tabled(graph, ranges, tabled - Both(u, v))
  {
    StoreBoth(graph, a, b, false, ranges, tabled, u, v);
    Unlist(a, b, ranges, listed, u, v);
  }

  method Unlist(a: LiveRange, b: LiveRange, ghost ranges: seq<LiveRange>, ghost interferes: set<(int, int)>,
                ghost u: int, ghost v: int)
    requires Listed(ranges, interferes) && IsRange(ranges, a, u) && IsRange(ranges, b, v) && a != b
    modifies a`neighbors, b`neighbors, a`degree, b`degree
    ensures Listed(ranges, interferes - Both(u, v))
  {
    assert Lists(ranges, interferes, u) && Lists(ranges, interferes, v);
    WithoutList(ranges, interferes, u, v, a.neighbors);
    WithoutList(ranges, interferes, v, u, b.neighbors);
    assert Both(v, u) == Both(u, v);
    SetNeighbors(a, b, Without(a.neighbors, b), Without(b.neighbors, a));
    forall w | 0 <= w < |ranges|
      ensures Lists(ranges, interferes - Both(u, v), w)
    {
      if w != u && w != v {
        assert old(Lists(ranges, interferes, w));
        OtherList(ranges, interferes, u, v, w, ranges[w].neighbors);
      }
    }
  }

  /** do_live_ranges_interfere. */
  method DoLiveRangesInterfere(graph: Graph, a: LiveRange, b: LiveRange, ghost ranges: seq<LiveRange>,
                               ghost interferes: set<(int, int)>, ghost u: int, ghost v: int)
    returns (interfere: bool)
    requires Listed(ranges, interferes) && Tabled(graph, ranges, interferes)
    requires IsRange(ranges, a, u) && IsRange(ranges, b, v)
    ensures interfere <==> a == b || (u, v) in interferes
    ensures interfere <==> a == b || b in a.neighbors
  {
    if a == b {
      return true;
    }
    SmallOffset(graph.liveRangeCount, u, v);
    assert InMatrix(graph.liveRangeCount, u, v);
    var offsetAB := Offset16(graph.liveRangeCount, a.interferenceGraphIndex, b.interferenceGraphIndex);
    assert graph.nodes[offsetAB] == Cell(graph.nodes[..], graph.liveRangeCount, u, v);
    assert Lists(ranges, interferes, u);
    return graph.nodes[offsetAB] != 0;
  }

  // ----------------------------------------------------------- construction

  /** Some pair of the relation is stored at this 16-bit offset. */
  ghost predicate Hit(n: nat, relation: set<(int, int)>, offset: int) {
    exists u, v {:trigger (u, v) in relation} ::
      (u, v) in relation && 0 <= u < n && 0 <= v < n && Offset16(n, u, v) == offset
  }

  /** The cells are set exactly where a pair of the relation is stored. */
  ghost predicate Stored16(cells: seq<int>, n: nat, relation: set<(int, int)>) {
    && |cells| == n * n
    && forall k {:trigger cells[k]} :: 0 <= k < n * n ==> cells[k] == if Hit(n, relation, k) then 1 else 0
  }

  /** A 16-bit offset never leaves the buffer. */
  lemma OffsetInside(n: nat, row: nat, column: nat)
    requires row < n && column < n
    ensures Offset16(n, row, column) < n * n
  {
    if n <= 256 {
      SmallOffset(n, row, column);
    } else {
      assert 257 * 257 <= n * n by { assert 257 * 257 <= 257 * n <= n * n; }
    }
  }

  lemma HitMore(n: nat, relation: set<(int, int)>, u: nat, v: nat, k: int)
    requires u < n && v < n
    ensures Hit(n, relation + {(u, v)}, k) <==> Hit(n, relation, k) || k == Offset16(n, u, v)
  {
    var more := relation + {(u, v)};
    assert (u, v) in more;
    if Hit(n, relation, k) {
      var a, b :| (a, b) in relation && 0 <= a < n && 0 <= b < n && Offset16(n, a, b) == k;
      assert (a, b) in more;
    }
  }

  /** What reading the pair (u, v) back says. */
  ghost predicate ReadsBack(n: nat, relation: set<(int, int)>, u: int, v: int) {
    0 <= u < n && 0 <= v < n && (Hit(n, relation, Offset16(n, u, v)) <==> (u, v) in relation)
  }

  /** Every pair of different ranges reads back right. */
  ghost predicate AllReadBack(n: nat, relation: set<(int, int)>) {
    forall u, v {:trigger ReadsBack(n, relation, u, v)} :: 0 <= u < n && 0 <= v < n && u != v ==> ReadsBack(n, relation, u, v)
  }

  lemma SmallReadsBack(n: nat, relation: set<(int, int)>, u: int, v: int)
    requires n <= 256 && 0 <= u < n && 0 <= v < n
    ensures ReadsBack(n, relation, u, v)
  {
    if Hit(n, relation, Offset16(n, u, v)) {
      var a, b :| (a, b) in relation && 0 <= a < n && 0 <= b < n && Offset16(n, a, b) == Offset16(n, u, v);
      SmallOffset(n, u, v);
      SmallOffset(n, a, b);
      OffsetInjective(n, u, v, a, b);
    }
  }

  /** A cell off the diagonal that shares its 16-bit offset with a cell of the first row. */
  lemma SharedCell(n: nat) returns (r: nat, c: nat, v: nat)
    requires n > 256
    ensures r < n && c < n && 0 < v < n && r != c && (r, c) != (0, v) && (c, r) != (0, v)
    ensures Offset(n, r, c) == 0x1_0000 + v
  {
    if n < 0x1_0000 {
      var q, m := 0x1_0001 / n, 0x1_0001 % n;
      assert q * n + m == 0x1_0001;
      assert 1 <= q < 256;
      r, c, v := q, if q != m then m else m + 1, if q != m then 1 else 2;
      assert c == 0 ==> r != 1;
    } else if n == 0x1_0000 {
      r, c, v := 1, 2, 2;
    } else if n == 0x1_0001 {
      r, c, v := 1, 2, 3;
    } else {
      r, c, v := 0, 0x1_0001, 1;
    }
  }

  /** A relation of one interference that does not read back right. */
  lemma MisreadRelation(n: nat) returns (relation: set<(int, int)>)
    requires n > 256
    ensures Mutual(relation) && Within(relation, n) && !AllReadBack(n, relation)
  {
    var r, c, v := SharedCell(n);
    relation := Both(r, c);
    assert (r, c) in relation && Offset16(n, r, c) == Offset16(n, 0, v);
    assert Hit(n, relation, Offset16(n, 0, v)) && (0, v) !in relation;
    assert !ReadsBack(n, relation, 0, v);
  }

  /** The matrix built from the lists answers right for every relation exactly when there are at
      most 256 live ranges. */
  lemma MatrixRightUpTo256(n: nat)
    ensures n <= 256 <==>
              forall relation {:trigger AllReadBack(n, relation)} ::
                Mutual(relation) && Within(relation, n) ==> AllReadBack(n, relation)
  {
    if n <= 256 {
      forall relation, u, v | 0 <= u < n && 0 <= v < n
        ensures ReadsBack(n, relation, u, v)
      {
        SmallReadsBack(n, relation, u, v);
      }
    } else {
      var relation := MisreadRelation(n);
    }
  }

  /** Up to 256 ranges, the stored cells are the matrix of the relation. */
  lemma StoredHolds(cells: seq<int>, n: nat, relation: set<(int, int)>)
    requires n <= 256 && Stored16(cells, n, relation)
    ensures Holds(cells, n, relation)
  {
    forall u, v | InMatrix(n, u, v)
      ensures Cell(cells, n, u, v) == if (u, v) in relation then 1 else 0
    {
      SmallReadsBack(n, relation, u, v);
      SmallOffset(n, u, v);
    }
  }

  /** The pairs stored so far: interferences only, all those of the ranges below i, and those
      of range i with the first j of its list. */
  ghost predicate StoredTo(ranges: seq<LiveRange>, interferes: set<(int, int)>, i: int, list: seq<LiveRange>,
                           stored: set<(int, int)>) {
    && (forall u, v {:trigger (u, v) in stored} :: (u, v) in stored ==> (u, v) in interferes)
    && (forall u, v {:trigger (u, v) in interferes} :: (u, v) in interferes && 0 <= u < i ==> (u, v) in stored)
    && forall v {:trigger ranges[v]} :: 0 <= v < |ranges| && ranges[v] in list ==> (i, v) in stored
  }

  lemma StoreNeighbor(ranges: seq<LiveRange>, interferes: set<(int, int)>, i: int, list: seq<LiveRange>, v: int,
                      stored: set<(int, int)>)
    requires Distinct(ranges) && Mutual(interferes) && 0 <= v < |ranges| && (i, v) in interferes
    requires StoredTo(ranges, interferes, i, list, stored)
    ensures StoredTo(ranges, interferes, i, list + [ranges[v]], stored + Both(i, v))
  {
  }

  lemma StoredRow(ranges: seq<LiveRange>, interferes: set<(int, int)>, i: int, list: seq<LiveRange>,
                  stored: set<(int, int)>, next: int)
    requires IsList(ranges, interferes, i, list) && StoredTo(ranges, interferes, i, list, stored) && next == i + 1
    requires Within(interferes, |ranges|)
    ensures StoredTo(ranges, interferes, next, [], stored)
  {
  }

  /** Setting both cells of a pair, whatever else is stored there. */
  method MarkBoth(graph: Graph, a: LiveRange, b: LiveRange, ghost relation: set<(int, int)>, ghost u: int, ghost v: int)
    requires 0 <= u < graph.liveRangeCount && 0 <= v < graph.liveRangeCount
    requires a.interferenceGraphIndex == u && b.interferenceGraphIndex == v
    requires Stored16(graph.nodes[..], graph.liveRangeCount, relation)
    modifies graph.nodes
    ensures Stored16(graph.nodes[..], graph.liveRangeCount, relation + Both(u, v))
  {
    var n := graph.liveRangeCount;
    var offsetAB := Offset16(n, a.interferenceGraphIndex, b.interferenceGraphIndex);
    var offsetBA := Offset16(n, b.interferenceGraphIndex, a.interferenceGraphIndex);
    OffsetInside(n, u, v);
    OffsetInside(n, v, u);
    graph.nodes[offsetAB] := 1;
    graph.nodes[offsetBA] := 1;
    assert relation + Both(u, v) == relation + {(u, v)} + {(v, u)};
    forall k | 0 <= k < n * n
      ensures graph.nodes[..][k] == if Hit(n, relation + Both(u, v), k) then 1 else 0
    {
      HitMore(n, relation, u, v, k);
      HitMore(n, relation + {(u, v)}, v, u, k);
      assert graph.nodes[..][k] == if k == offsetAB || k == offsetBA then 1 else old(graph.nodes[..])[k];
    }
  }

  /** One row of the construction. */
  method StoreRow(graph: Graph, range: LiveRange, ghost ranges: seq<LiveRange>, ghost interferes: set<(int, int)>,
                  ghost i: int, ghost stored: set<(int, int)>)
    returns (ghost stored': set<(int, int)>)
    requires Listed(ranges, interferes) && Numbered(ranges) && |ranges| == graph.liveRangeCount
    requires Stored16(graph.nodes[..], graph.liveRangeCount, stored)
    requires IsRange(ranges, range, i) && StoredTo(ranges, interferes, i, [], stored)
    modifies graph.nodes
    ensures Stored16(graph.nodes[..], graph.liveRangeCount, stored')
    ensures StoredTo(ranges, interferes, i, range.neighbors, stored')
  {
    stored' := stored;
    assert Lists(ranges, interferes, i);
    var j := 0;
    while j < |range.neighbors|
      invariant 0 <= j <= |range.neighbors|
      invariant Stored16(graph.nodes[..], graph.liveRangeCount, stored')
      invariant StoredTo(ranges, interferes, i, range.neighbors[..j], stored')
    {
      var neighbor := range.neighbors[j];
      assert neighbor in range.neighbors;
      ghost var v :| 0 <= v < |ranges| && ranges[v] == neighbor;
      assert (i, v) in interferes;
      MarkBoth(graph, range, neighbor, stored', i, v);
      StoreNeighbor(ranges, interferes, i, range.neighbors[..j], v, stored');
      assert range.neighbors[..j] + [neighbor] == range.neighbors[..j + 1];
      stored' := stored' + Both(i, v);
      j := j + 1;
    }
    assert range.neighbors[..j] == range.neighbors;
  }

  /** construct_interference_graph_from_adjacency_lists. Pairs that share a 16-bit offset share a
      cell; up to 256 live ranges the matrix holds the relation of the lists. */
  method ConstructFromAdjacencyLists(ranges: seq<LiveRange>, ghost interferes: set<(int, int)>) returns (graph: Graph)
    requires Listed(ranges, interferes)
    modifies ranges`interferenceGraphIndex
    ensures fresh(graph) && fresh(graph.nodes) && Listed(ranges, interferes) && Numbered(ranges)
    ensures graph.liveRangeCount == |ranges| && Stored16(graph.nodes[..], |ranges|, interferes)
    ensures |ranges| <= 256 ==> Tabled(graph, ranges, interferes)
  {
    for k := 0 to |ranges|
      invariant forall m {:trigger ranges[m]} :: 0 <= m < k ==> ranges[m].interferenceGraphIndex == m
    {
      ranges[k].interferenceGraphIndex := k;
    }
    graph := new Graph(|ranges|);
    ghost var stored: set<(int, int)> := {};
    var i := 0;
    while i < |ranges|
      invariant 0 <= i <= |ranges| && fresh(graph) && fresh(graph.nodes)
      invariant Listed(ranges, interferes) && Numbered(ranges)
      invariant Stored16(graph.nodes[..], |ranges|, stored) && StoredTo(ranges, interferes, i, [], stored)
    {
      ghost var next := i + 1;
      stored := StoreRow(graph, ranges[i], ranges, interferes, i, stored);
      assert Lists(ranges, interferes, i);
      StoredRow(ranges, interferes, i, ranges[i].neighbors, stored, next);
      i := i + 1;
    }
    AllStored(ranges, interferes, i, stored);
    if |ranges| <= 256 {
      StoredHolds(graph.nodes[..], |ranges|, interferes);
    }
  }

  lemma AllStored(ranges: seq<LiveRange>, interferes: set<(int, int)>, i: int, stored: set<(int, int)>)
    requires i == |ranges| && StoredTo(ranges, interferes, i, [], stored)
    requires Within(interferes, |ranges|)
    ensures stored == interferes
  {
    forall e
      ensures e in stored <==> e in interferes
    {
      var (u, v) := e;
      assert (u, v) in stored ==> (u, v) in interferes;
      assert (u, v) in interferes ==> (u, v) in stored;
    }
  }

  // ------------------------------------------------------------- coalescing

  /** Coalescing c into t while the ranges numbered in moved have lost c; of those, the ones in
      joined have been given t instead. */
  ghost predicate Moved(interferes: set<(int, int)>, t: int, c: int, moved: set<int>, joined: set<int>,
                        interferes': set<(int, int)>) {
    forall a, b {:trigger (a, b) in interferes'} :: (a, b) in interferes' <==>
      || ((a, b) in interferes && !(a == c && b in moved) && !(b == c && a in moved))
      || (a == t && b in moved && b in joined) || (b == t && a in moved && a in joined)
  }

  /** c interferes with nothing any more; of the ranges it interfered with, those in joined
      interfere with t. */
  ghost predicate Coalesced(interferes: set<(int, int)>, t: int, c: int, joined: set<int>, interferes': set<(int, int)>) {
    forall a, b {:trigger (a, b) in interferes'} {:trigger (a, b) in interferes} :: (a, b) in interferes' <==>
      && a != c && b != c
      && (|| (a, b) in interferes
          || (a == t && b in joined && (c, b) in interferes)
          || (b == t && a in joined && (a, c) in interferes))
  }

  /** The ranges that add_interference would record as interfering with the target. */
  ghost function Joinable(ranges: seq<LiveRange>, target: LiveRange): set<int>
    reads ranges`register, target`register
  {
    set x | 0 <= x < |ranges| && !Pinned(target) && !Pinned(ranges[x])
  }

  ghost function Everyone(ranges: seq<LiveRange>): set<int> {
    set x | 0 <= x < |ranges| && ranges[x] in ranges
  }

  /** The state between two steps of the coalescing loop. */
  ghost predicate Handing(graph: Graph, ranges: seq<LiveRange>, interferes: set<(int, int)>, t: int, c: int, moved: set<int>,
                          joined: set<int>, listed: set<(int, int)>, tabled: set<(int, int)>)
    reads graph.nodes, ranges`neighbors, ranges`degree, ranges`interferenceGraphIndex
  {
    && Listed(ranges, listed) && Tabled(graph, ranges, tabled)
    && Moved(interferes, t, c, moved, joined, listed)
    && Moved(interferes, t, c, moved, Everyone(ranges), tabled)
  }

  /** What handing x over makes of a relation: x loses c, and gets t if it may. */
  ghost function HandedOver(relation: set<(int, int)>, t: int, c: int, x: int, joins: bool): set<(int, int)> {
    relation - Both(x, c) + if joins then Both(t, x) else {}
  }

  /** Handing one neighbor of the coalescee over to the target. The lists take the new pair
      only if neither range is pinned, the matrix always does. */
  method MoveNeighbor(graph: Graph, target: LiveRange, coalescee: LiveRange, neighbor: LiveRange, ghost ranges: seq<LiveRange>,
                      ghost listed: set<(int, int)>, ghost tabled: set<(int, int)>, ghost t: int, ghost c: int, ghost x: int)
    requires Listed(ranges, listed) && Tabled(graph, ranges, tabled)
    requires IsRange(ranges, target, t) && IsRange(ranges, coalescee, c) && IsRange(ranges, neighbor, x)
    requires x != t && x != c && t != c
    modifies graph.nodes, target`neighbors, target`degree, coalescee`neighbors, coalescee`degree, neighbor`neighbors, neighbor`degree
    ensures Listed(ranges, HandedOver(listed, t, c, x, x in Joinable(ranges, target)))
    ensures Tabled(graph, ranges, HandedOver(tabled, t, c, x, true))
  {
    RemoveInterference(graph, neighbor, coalescee, ranges, listed, tabled, x, c);
    AddInterference(target, neighbor, ranges, listed - Both(x, c), t, x);
    StoreBoth(graph, target, neighbor, true, ranges, tabled - Both(x, c), t, x);
    assert listed - Both(x, c) + {} == listed - Both(x, c);
  }

  lemma MoveOne(interferes: set<(int, int)>, t: int, c: int, moved: set<int>, joined: set<int>, x: int,
                interferes': set<(int, int)>)
    requires Mutual(interferes) && (c, t) !in interferes && t != c
    requires Moved(interferes, t, c, moved, joined, interferes') && (c, x) in interferes && x !in moved
    requires forall y :: y in moved ==> (c, y) in interferes
    ensures x != t && x != c
    ensures Moved(interferes, t, c, moved + {x}, joined, HandedOver(interferes', t, c, x, x in joined))
  {
  }

  lemma AllMoved(interferes: set<(int, int)>, t: int, c: int, moved: set<int>, joined: set<int>, interferes': set<(int, int)>)
    requires Mutual(interferes) && (c, t) !in interferes && t != c && Moved(interferes, t, c, moved, joined, interferes')
    requires forall y {:trigger y in moved} {:trigger (c, y) in interferes} :: y in moved <==> (c, y) in interferes
    ensures Coalesced(interferes, t, c, joined, interferes')
  {
  }

  /** Every neighbor of the coalescee can be recorded as the target's, or is the target's already. */
  ghost predicate JoinsAll(ranges: seq<LiveRange>, interferes: set<(int, int)>, target: LiveRange, t: int, c: int)
    reads ranges`register, target`register
  {
    forall x {:trigger (c, x) in interferes} :: (c, x) in interferes ==> (t, x) in interferes || x in Joinable(ranges, target)
  }

  lemma NumberOf(ranges: seq<LiveRange>, interferes: set<(int, int)>, c: int, list: seq<LiveRange>, i: int) returns (x: int)
    requires Distinct(ranges) && IsList(ranges, interferes, c, list) && 0 <= i < |list|
    ensures IsRange(ranges, list[i], x) && (c, x) in interferes && ranges[x] !in list[..i]
  {
    assert list[i] in list;
    x :| 0 <= x < |ranges| && ranges[x] == list[i];
  }

  /** Where pinned ranges have no neighbors, that is so exactly when the target is not pinned or
      the coalescee has no neighbors. */
  lemma JoinsAllUnlessPinned(ranges: seq<LiveRange>, interferes: set<(int, int)>, target: LiveRange, t: int, c: int)
    requires Listed(ranges, interferes) && PinnedAlone(ranges, interferes)
    requires IsRange(ranges, target, t) && 0 <= c < |ranges| && t != c && (t, c) !in interferes
    ensures JoinsAll(ranges, interferes, target, t, c) <==> !Pinned(target) || ranges[c].neighbors == []
  {
    assert Lists(ranges, interferes, c) && Lists(ranges, interferes, t);
    if Pinned(target) && ranges[c].neighbors != [] {
      var x := NumberOf(ranges, interferes, c, ranges[c].neighbors, 0);
      assert (c, x) in interferes && (t, x) !in interferes;
    }
    forall x | (c, x) in interferes
      ensures ranges[c].neighbors != [] && (Pinned(target) || x in Joinable(ranges, target))
    {
      assert ranges[x] in ranges[c].neighbors && (x, c) in interferes;
    }
  }

  /** After the coalescing the lists and the matrix agree exactly when every neighbor could be
      recorded. */
  lemma AgreementAfterwards(interferes: set<(int, int)>, t: int, c: int, joined: set<int>, everyone: set<int>,
                            listed: set<(int, int)>, tabled: set<(int, int)>)
    requires Mutual(interferes) && t != c && (t, c) !in interferes
    requires forall x {:trigger (c, x) in interferes} :: (c, x) in interferes ==> x in everyone
    requires Coalesced(interferes, t, c, joined, listed) && Coalesced(interferes, t, c, everyone, tabled)
    ensures listed == tabled <==>
              forall x {:trigger (c, x) in interferes} :: (c, x) in interferes ==> (t, x) in interferes || x in joined
  {
    if forall x {:trigger (c, x) in interferes} :: (c, x) in interferes ==> (t, x) in interferes || x in joined {
      forall e
        ensures e in listed <==> e in tabled
      {
        var (a, b) := e;
        assert (a, c) in interferes ==> (c, a) in interferes;
        assert (t, a) in interferes ==> (a, t) in interferes;
      }
    } else {
      var x :| (c, x) in interferes && (t, x) !in interferes && x !in joined;
      assert (x, c) in interferes;
      assert (t, x) in tabled && (t, x) !in listed;
    }
  }

  /** The loop over a clone of the coalescee's neighbors. */
  method MoveNeighbors(graph: Graph, target: LiveRange, coalescee: LiveRange, ghost ranges: seq<LiveRange>,
                       ghost interferes: set<(int, int)>, ghost t: int, ghost c: int)
    returns (ghost listed: set<(int, int)>, ghost tabled: set<(int, int)>)
    requires Listed(ranges, interferes) && Tabled(graph, ranges, interferes)
    requires IsRange(ranges, target, t) && IsRange(ranges, coalescee, c) && target != coalescee
    requires (t, c) !in interferes
    modifies graph.nodes, ranges`neighbors, ranges`degree
    ensures Listed(ranges, listed) && Tabled(graph, ranges, tabled)
    ensures Coalesced(interferes, t, c, Joinable(ranges, target), listed)
    ensures Coalesced(interferes, t, c, Everyone(ranges), tabled)
    ensures old(coalescee.neighbors) == [] ==> target.neighbors == old(target.neighbors)
  {
    listed, tabled := interferes, interferes;
    ghost var joined := Joinable(ranges, target);
    var clone := coalescee.neighbors;
    assert Lists(ranges, interferes, c);
    ghost var moved: set<int> := {};
    var i := 0;
    while i < |clone|
      invariant 0 <= i <= |clone|
      invariant Handing(graph, ranges, interferes, t, c, moved, joined, listed, tabled)
      invariant forall y {:trigger y in moved} :: y in moved <==> 0 <= y < |ranges| && ranges[y] in clone[..i]
      invariant i == 0 ==> target.neighbors == old(target.neighbors)
    {
      ghost var x := NumberOf(ranges, interferes, c, clone, i);
      assert forall y :: y in moved ==> (c, y) in interferes;
      MoveOne(interferes, t, c, moved, joined, x, listed);
      MoveOne(interferes, t, c, moved, Everyone(ranges), x, tabled);
      MoveNeighbor(graph, target, coalescee, clone[i], ranges, listed, tabled, t, c, x);
      listed, tabled := HandedOver(listed, t, c, x, x in joined), HandedOver(tabled, t, c, x, true);
      moved := moved + {x};
      assert clone[..i + 1] == clone[..i] + [clone[i]];
      i := i + 1;
    }
    assert clone[..i] == clone;
    AllMoved(interferes, t, c, moved, joined, listed);
    AllMoved(interferes, t, c, moved, Everyone(ranges), tabled);
  }

  /** The same loop, and when it leaves the lists and the matrix in agreement. */
  method HandOverNeighbors(graph: Graph, target: LiveRange, coalescee: LiveRange, ghost ranges: seq<LiveRange>,
                           ghost interferes: set<(int, int)>, ghost t: int, ghost c: int)
    returns (ghost listed: set<(int, int)>, ghost tabled: set<(int, int)>)
    requires Listed(ranges, interferes) && Tabled(graph, ranges, interferes)
    requires IsRange(ranges, target, t) && IsRange(ranges, coalescee, c) && target != coalescee
    requires (t, c) !in interferes
    modifies graph.nodes, ranges`neighbors, ranges`degree
    ensures Listed(ranges, listed) && Tabled(graph, ranges, tabled)
    ensures Coalesced(interferes, t, c, Joinable(ranges, target), listed)
    ensures Coalesced(interferes, t, c, Everyone(ranges), tabled)
    ensures listed == tabled <==> JoinsAll(ranges, interferes, target, t, c)
    ensures old(PinnedAlone(ranges, interferes)) ==> (listed == tabled <==> !Pinned(target) || old(coalescee.neighbors) == [])
    ensures PinnedAlone(ranges, interferes) ==> PinnedAlone(ranges, listed)
    ensures old(coalescee.neighbors) == [] ==> target.neighbors == old(target.neighbors)
  {
    if PinnedAlone(ranges, interferes) {
      JoinsAllUnlessPinned(ranges, interferes, target, t, c);
    }
    listed, tabled := MoveNeighbors(graph, target, coalescee, ranges, interferes, t, c);
    AgreementAfterwards(interferes, t, c, Joinable(ranges, target), Everyone(ranges), listed, tabled);
  }

  /** The variables of the coalescee now belong to the target. */
  method MoveVariables(target: LiveRange, coalescee: LiveRange)
    requires target != coalescee
    modifies target`variables, coalescee.variables`associatedLiveRange
    ensures target.variables == old(target.variables) + coalescee.variables
    ensures forall v {:trigger v in coalescee.variables} :: v in coalescee.variables ==> v.associatedLiveRange == target
  {
    var i := 0;
    while i < |coalescee.variables|
      invariant 0 <= i <= |coalescee.variables|
      invariant target.variables == old(target.variables) + coalescee.variables[..i]
      invariant forall v {:trigger v in coalescee.variables[..i]} :: v in coalescee.variables[..i] ==> v.associatedLiveRange == target
    {
      var variable := coalescee.variables[i];
      target.variables := target.variables + [variable];
      variable.associatedLiveRange := target;
      assert coalescee.variables[..i + 1] == coalescee.variables[..i] + [variable];
      i := i + 1;
    }
    assert coalescee.variables[..i] == coalescee.variables;
  }

  /** The register, the parameter order and the counts. */
  method MergeAttributes(target: LiveRange, coalescee: LiveRange)
    modifies target`register, target`functionParameterOrder, target`spillCost, target`assignmentCount
    ensures target.register == if old(target.register) == NO_REGISTER then old(coalescee.register) else old(target.register)
    ensures target.functionParameterOrder ==
              if old(target.functionParameterOrder) == 0 then old(coalescee.functionParameterOrder)
              else old(target.functionParameterOrder)
    ensures target.spillCost == old(target.spillCost + coalescee.spillCost)
    ensures target.assignmentCount == old(target.assignmentCount + coalescee.assignmentCount)
  {
    if target.register == NO_REGISTER {
      target.register := coalescee.register;
    }
    if target.functionParameterOrder == 0 {
      target.functionParameterOrder := coalescee.functionParameterOrder;
    }
    target.spillCost := target.spillCost + coalescee.spillCost;
    target.assignmentCount := target.assignmentCount + coalescee.assignmentCount;
  }

  /** Merging the registers of two ranges of one class leaves pinned ranges alone, unless a target
      without a register but with neighbors takes a pinned one. */
  method MergeRegisters(target: LiveRange, coalescee: LiveRange, ghost ranges: seq<LiveRange>,
                        ghost interferes: set<(int, int)>, ghost t: int)
    requires Listed(ranges, interferes) && IsRange(ranges, target, t)
    modifies target`register, target`functionParameterOrder, target`spillCost, target`assignmentCount
    ensures old(PinnedAlone(ranges, interferes)) && target.liveRangeClass == coalescee.liveRangeClass ==>
              (PinnedAlone(ranges, interferes) <==>
               !(old(target.register) == NO_REGISTER && old(Pinned(coalescee)) && target.neighbors != []))
    ensures target.register == if old(target.register) == NO_REGISTER then old(coalescee.register) else old(target.register)
    ensures target.functionParameterOrder ==
              if old(target.functionParameterOrder) == 0 then old(coalescee.functionParameterOrder)
              else old(target.functionParameterOrder)
    ensures target.spillCost == old(target.spillCost + coalescee.spillCost)
    ensures target.assignmentCount == old(target.assignmentCount + coalescee.assignmentCount)
  {
    assert Lists(ranges, interferes, t);
    if target.neighbors != [] {
      ghost var x := NumberOf(ranges, interferes, t, target.neighbors, 0);
      assert (t, x) in interferes;
    }
    assert forall v :: (t, v) in interferes ==> 0 <= v < |ranges| && ranges[v] in target.neighbors;
    MergeAttributes(target, coalescee);
  }

  /** The stack pointer's range t takes over c, which interferes with x: the matrix says that t
      and x interfere, the lists do not. */
  lemma PinnedTargetDisagrees(t: int, c: int, x: int, listed: set<(int, int)>, tabled: set<(int, int)>)
    requires t != c && c != x && x != t
    requires Coalesced(Both(c, x), t, c, {}, listed) && Coalesced(Both(c, x), t, c, {t, c, x}, tabled)
    ensures listed == {} && tabled == Both(t, x)
  {
    assert (c, x) in Both(c, x) && (x, c) in Both(c, x);
    forall e
      ensures e !in listed && (e in tabled <==> e in Both(t, x))
    {
      var (a, b) := e;
      assert (a, b) in listed ==> (a, b) in Both(c, x);
    }
  }

  lemma PinnedHasNone(ranges: seq<LiveRange>, interferes: set<(int, int)>, c: int)
    requires Listed(ranges, interferes) && PinnedAlone(ranges, interferes) && 0 <= c < |ranges| && Pinned(ranges[c])
    ensures ranges[c].neighbors == []
  {
    assert Lists(ranges, interferes, c);
    if ranges[c].neighbors != [] {
      var x := NumberOf(ranges, interferes, c, ranges[c].neighbors, 0);
      assert false;
    }
  }

  /** What follows the move of the variables. */
  method TakeOver(graph: Graph, target: LiveRange, coalescee: LiveRange, ghost ranges: seq<LiveRange>,
                  ghost interferes: set<(int, int)>, ghost t: int, ghost c: int)
    returns (ghost listed: set<(int, int)>, ghost tabled: set<(int, int)>)
    requires Listed(ranges, interferes) && Tabled(graph, ranges, interferes)
    requires IsRange(ranges, target, t) && IsRange(ranges, coalescee, c) && target != coalescee
    requires (t, c) !in interferes
    modifies graph.nodes, ranges`neighbors, ranges`degree,
             target`register, target`functionParameterOrder, target`spillCost, target`assignmentCount
    ensures Listed(ranges, listed) && Tabled(graph, ranges, tabled)
    ensures Coalesced(interferes, t, c, old(Joinable(ranges, target)), listed)
    ensures Coalesced(interferes, t, c, Everyone(ranges), tabled)
    ensures listed == tabled <==> old(JoinsAll(ranges, interferes, target, t, c))
    ensures old(PinnedAlone(ranges, interferes)) ==>
              (listed == tabled <==> !old(Pinned(target)) || old(coalescee.neighbors) == [])
    ensures old(PinnedAlone(ranges, interferes)) && target.liveRangeClass == coalescee.liveRangeClass ==>
              (PinnedAlone(ranges, listed) <==>
               !(old(target.register) == NO_REGISTER && old(Pinned(coalescee)) && old(target.neighbors) != []))
    ensures target.register == if old(target.register) == NO_REGISTER then old(coalescee.register) else old(target.register)
    ensures target.functionParameterOrder ==
              if old(target.functionParameterOrder) == 0 then old(coalescee.functionParameterOrder)
              else old(target.functionParameterOrder)
    ensures target.spillCost == old(target.spillCost + coalescee.spillCost)
    ensures target.assignmentCount == old(target.assignmentCount + coalescee.assignmentCount)
  {
    if PinnedAlone(ranges, interferes) && Pinned(coalescee) {
      PinnedHasNone(ranges, interferes, c);
    }
    listed, tabled := HandOverNeighbors(graph, target, coalescee, ranges, interferes, t, c);
    MergeRegisters(target, coalescee, ranges, listed, t);
  }

  /** coalesce_live_ranges, for two ranges that do not interfere, pinned or not. */
  method CoalesceLiveRanges(graph: Graph, target: LiveRange, coalescee: LiveRange, ghost ranges: seq<LiveRange>,
                            ghost interferes: set<(int, int)>, ghost t: int, ghost c: int)
    returns (ghost listed: set<(int, int)>, ghost tabled: set<(int, int)>)
    requires Listed(ranges, interferes) && Tabled(graph, ranges, interferes)
    requires IsRange(ranges, target, t) && IsRange(ranges, coalescee, c) && target != coalescee
    requires (t, c) !in interferes
    modifies graph.nodes, ranges`neighbors, ranges`degree, target`variables, coalescee.variables`associatedLiveRange,
             target`register, target`functionParameterOrder, target`spillCost, target`assignmentCount
    ensures Listed(ranges, listed) && Tabled(graph, ranges, tabled)
    ensures Coalesced(interferes, t, c, old(Joinable(ranges, target)), listed)
    ensures Coalesced(interferes, t, c, Everyone(ranges), tabled)
    ensures listed == tabled <==> old(JoinsAll(ranges, interferes, target, t, c))
    ensures old(PinnedAlone(ranges, interferes)) ==>
              (listed == tabled <==> !old(Pinned(target)) || old(coalescee.neighbors) == [])
    ensures old(PinnedAlone(ranges, interferes)) && target.liveRangeClass == coalescee.liveRangeClass ==>
              (PinnedAlone(ranges, listed) <==>
               !(old(target.register) == NO_REGISTER && old(Pinned(coalescee)) && old(target.neighbors) != []))
    ensures target.variables == old(target.variables + coalescee.variables)
    ensures forall v {:trigger v in coalescee.variables} :: v in coalescee.variables ==> v.associatedLiveRange == target
    ensures target.register == if old(target.register) == NO_REGISTER then old(coalescee.register) else old(target.register)
    ensures target.functionParameterOrder ==
              if old(target.functionParameterOrder) == 0 then old(coalescee.functionParameterOrder)
              else old(target.functionParameterOrder)
    ensures target.spillCost == old(target.spillCost + coalescee.spillCost)
    ensures target.assignmentCount == old(target.assignmentCount + coalescee.assignmentCount)
  {
    MoveVariables(target, coalescee);
    listed, tabled := TakeOver(graph, target, coalescee, ranges, interferes, t, c);
  }

  /** In the lists: the target's neighbors are the union of both old lists, less the coalescee's
      neighbors that could not be recorded; the coalescee has none. */
  lemma CoalescedLists(ranges: seq<LiveRange>, interferes: set<(int, int)>, interferes': set<(int, int)>, t: int, c: int,
                       joined: set<int>, oldTarget: seq<LiveRange>, oldCoalescee: seq<LiveRange>,
                       newTarget: seq<LiveRange>, newCoalescee: seq<LiveRange>)
    requires Distinct(ranges) && Mutual(interferes) && 0 <= t < |ranges| && 0 <= c < |ranges| && t != c && (t, c) !in interferes
    requires Coalesced(interferes, t, c, joined, interferes')
    requires IsList(ranges, interferes, t, oldTarget) && IsList(ranges, interferes, c, oldCoalescee)
    requires IsList(ranges, interferes', t, newTarget) && IsList(ranges, interferes', c, newCoalescee)
    ensures forall x {:trigger x in newCoalescee} :: x !in newCoalescee
    ensures forall v {:trigger ranges[v]} :: 0 <= v < |ranges| ==>
              (ranges[v] in newTarget <==> ranges[v] in oldTarget || (ranges[v] in oldCoalescee && v in joined))
  {
  }

  // -------------------------------------------------------------- colouring

  ghost predicate Colours(interferes: set<(int, int)>, colours: seq<int>) {
    forall u, v {:trigger (u, v) in interferes} ::
      (u, v) in interferes && 0 <= u < |colours| && 0 <= v < |colours| ==> colours[u] != colours[v]
  }

  /** A colouring that is valid for the matrix after the coalescing, with the target's colour given
      to the coalescee, is a valid colouring before it; and every valid colouring before it that
      gives both one colour is valid after it. */
  lemma CoalescingKeepsColourings(interferes: set<(int, int)>, t: int, c: int, everyone: set<int>,
                                  interferes': set<(int, int)>, colours: seq<int>)
    requires Mutual(interferes) && (t, c) !in interferes && t != c && 0 <= t < |colours| && 0 <= c < |colours|
    requires forall x {:trigger (c, x) in interferes} :: (c, x) in interferes ==> x in everyone
    requires Coalesced(interferes, t, c, everyone, interferes')
    ensures Colours(interferes', colours) <==> Colours(interferes, colours[c := colours[t]])
  {
    var extended := colours[c := colours[t]];
    if Colours(interferes', colours) {
      forall u, v | (u, v) in interferes && 0 <= u < |extended| && 0 <= v < |extended|
        ensures extended[u] != extended[v]
      {
        if u == c {
          assert (t, v) in interferes';
        } else if v == c {
          assert (v, u) in interferes && (u, t) in interferes';
        } else {
          assert (u, v) in interferes';
        }
      }
    }
    if Colours(interferes, extended) {
      forall u, v | (u, v) in interferes' && 0 <= u < |colours| && 0 <= v < |colours|
        ensures colours[u] != colours[v]
      {
        assert (u, v) in interferes || (u == t && (c, v) in interferes) || (v == t && (u, c) in interferes);
      }
    }
  }

  /** Every colouring that is valid for the lists after the coalescing extends to the graph before
      it exactly when the lists agree with the matrix. */
  lemma ListColouringsExtend(n: nat, interferes: set<(int, int)>, t: int, c: int, joined: set<int>, everyone: set<int>,
                             listed: set<(int, int)>, tabled: set<(int, int)>)
    requires Mutual(interferes) && Within(interferes, n) && 0 <= t < n && 0 <= c < n && t != c && (t, c) !in interferes
    requires forall x {:trigger (c, x) in interferes} :: (c, x) in interferes ==> x in everyone
    requires Coalesced(interferes, t, c, joined, listed) && Coalesced(interferes, t, c, everyone, tabled)
    ensures listed == tabled <==>
              forall colours: seq<int> {:trigger Colours(listed, colours)} ::
                |colours| == n && Colours(listed, colours) ==> Colours(interferes, colours[c := colours[t]])
  {
    AgreementAfterwards(interferes, t, c, joined, everyone, listed, tabled);
    if listed == tabled {
      forall colours: seq<int> | |colours| == n && Colours(listed, colours)
        ensures Colours(interferes, colours[c := colours[t]])
      {
        CoalescingKeepsColourings(interferes, t, c, everyone, tabled, colours);
      }
    } else {
      var x :| (c, x) in interferes && (t, x) !in interferes && x !in joined;
      var colours := seq(n, k => k)[t := x];
      assert (x, c) in interferes && (t, x) !in listed && (x, t) !in listed;
      assert Colours(listed, colours);
      assert colours[c := colours[t]][c] == colours[c := colours[t]][x];
    }
  }
}
