/** Square matrices of zeros and ones stored row by row in one flat buffer. */
module BitMatrices {

  function Offset(n: nat, row: nat, column: nat): nat {
    row * n + column
  }

  lemma OffsetBounds(n: nat, row: nat, column: nat)
    requires row < n && column < n
    ensures Offset(n, row, column) < n * n
  {
    RowsApart(n, row, n);
  }

  /** Different cells never share an offset. */
  lemma OffsetInjective(n: nat, row: nat, column: nat, row': nat, column': nat)
    requires column < n && column' < n && Offset(n, row, column) == Offset(n, row', column')
    ensures row == row' && column == column'
  {
    if row < row' {
      RowsApart(n, row, row');
    } else if row > row' {
      RowsApart(n, row', row);
    }
  }

  lemma {:induction false} RowsApart(n: nat, row: nat, row': nat)
    requires row < row'
    ensures row * n + n <= row' * n
    decreases row'
  {
    assert (row' - 1) * n + n == row' * n;
    if row + 1 >= row' {
    } else {
      RowsApart(n, row, row' - 1);
    }
  }

  ghost predicate InMatrix(n: nat, u: int, v: int) {
    0 <= u < n && 0 <= v < n
  }

  ghost function Cell(cells: seq<int>, n: nat, u: int, v: int): int
    requires |cells| == n * n && InMatrix(n, u, v)
  {
    OffsetBounds(n, u, v);
    cells[Offset(n, u, v)]
  }

  /** The buffer holds exactly the pairs of the relation. */
  ghost predicate Holds(cells: seq<int>, n: nat, relation: set<(int, int)>) {
    && |cells| == n * n
    && forall u, v {:trigger InMatrix(n, u, v)} :: InMatrix(n, u, v) ==>
         Cell(cells, n, u, v) == if (u, v) in relation then 1 else 0
  }

  lemma ZeroMatrix(cells: seq<int>, n: nat)
    requires |cells| == n * n && forall k :: 0 <= k < |cells| ==> cells[k] == 0
    ensures Holds(cells, n, {})
  {
    forall u, v | InMatrix(n, u, v)
      ensures Cell(cells, n, u, v) == 0
    {
      OffsetBounds(n, u, v);
    }
  }

  method ReadCell(matrix: array<int>, n: nat, u: nat, v: nat, ghost relation: set<(int, int)>) returns (cell: int)
    requires Holds(matrix[..], n, relation) && u < n && v < n
    ensures cell == if (u, v) in relation then 1 else 0
  {
    OffsetBounds(n, u, v);
    assert InMatrix(n, u, v);
    cell := matrix[Offset(n, u, v)];
    assert cell == Cell(matrix[..], n, u, v);
  }

  /** Writing one cell changes the relation at that pair only. */
  lemma CellWritten(before: seq<int>, after: seq<int>, n: nat, u: nat, v: nat, flag: bool, relation: set<(int, int)>)
    requires Holds(before, n, relation) && u < n && v < n && |after| == |before|
    requires forall k :: 0 <= k < |before| ==> after[k] == if k == Offset(n, u, v) then (if flag then 1 else 0) else before[k]
    ensures Holds(after, n, if flag then relation + {(u, v)} else relation - {(u, v)})
  {
    var relation' := if flag then relation + {(u as int, v as int)} else relation - {(u as int, v as int)};
    forall u', v' | InMatrix(n, u', v')
      ensures Cell(after, n, u', v') == if (u', v') in relation' then 1 else 0
    {
      OffsetBounds(n, u', v');
      assert Cell(before, n, u', v') == before[Offset(n, u', v')];
      if Offset(n, u, v) == Offset(n, u', v') {
        OffsetInjective(n, u, v, u', v');
      }
    }
  }

  method WriteCell(matrix: array<int>, n: nat, u: nat, v: nat, ghost relation: set<(int, int)>)
    requires Holds(matrix[..], n, relation) && u < n && v < n
    modifies matrix
    ensures Holds(matrix[..], n, relation + {(u, v)})
  {
    OffsetBounds(n, u, v);
    ghost var before := matrix[..];
    matrix[Offset(n, u, v)] := 1;
    CellWritten(before, matrix[..], n, u, v, true, relation);
  }
}
