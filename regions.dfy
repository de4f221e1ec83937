/** The three region accessors of the grid (`getLine`, `getColumn`,
    `getMiniGrid` in sudoku.go). Cells are named by their linear index
    `i = 9 * y + x`; a region is the sequence of the nine indices it holds,
    in the order the accessor lists them. */
module Regions {

  /** Every index names one of the 81 cells. */
  predicate InGrid(r: seq<int>)
  {
    forall q :: 0 <= q < |r| ==> 0 <= r[q] < 81
  }

  predicate Distinct(r: seq<int>)
  {
    forall p, q :: 0 <= p < q < |r| ==> r[p] != r[q]
  }

  predicate SameLine(i: int, j: int)
  {
    i / 9 == j / 9
  }

  predicate SameColumn(i: int, j: int)
  {
    i % 9 == j % 9
  }

  predicate SameBox(i: int, j: int)
  {
    i / 27 == j / 27 && (i % 9) / 3 == (j % 9) / 3
  }

  /** Two cells constrain each other when they share a line, a column or a box. */
  predicate Peer(i: int, j: int)
  {
    SameLine(i, j) || SameColumn(i, j) || SameBox(i, j)
  }

  /** `getLine`: the nine cells of the line holding `i`, left to right. */
  function Line(i: int): (r: seq<int>)
    requires 0 <= i < 81
    ensures |r| == 9 && InGrid(r)
  {
    seq(9, k requires 0 <= k < 9 => 9 * (i / 9) + k)
  }

  /** `getColumn`: the nine cells of the column holding `i`, top to bottom. */
  function Column(i: int): (r: seq<int>)
    requires 0 <= i < 81
    ensures |r| == 9 && InGrid(r)
  {
    seq(9, k requires 0 <= k < 9 => i % 9 + 9 * k)
  }

  /** `getLine`, as the loop that fills the nine slots. */
  method GetLine(i: int) returns (r: seq<int>)
    requires 0 <= i < 81
    ensures r == Line(i)
  {
    var lineNumber := i / 9;
    var toRet := new int[9];
    for k := 0 to 9
      invariant forall m :: 0 <= m < k ==> toRet[m] == 9 * lineNumber + m
    {
      toRet[k] := 9 * lineNumber + k;
    }
    r := toRet[..];
  }

  /** `getColumn`, as the loop that fills the nine slots. */
  method GetColumn(i: int) returns (r: seq<int>)
    requires 0 <= i < 81
    ensures r == Column(i)
  {
    var columnNumber := i % 9;
    var toRet := new int[9];
    for k := 0 to 9
      invariant forall m :: 0 <= m < k ==> toRet[m] == columnNumber + 9 * m
    {
      toRet[k] := columnNumber + 9 * k;
    }
    r := toRet[..];
  }

  /** Offsets of the nine cells of a box from its top-left cell. */
  const BoxOffsets: seq<int> := [0, 1, 2, 9, 10, 11, 18, 19, 20]

  /** Top-left cell of the box holding `i`. */
  function BoxOrigin(i: int): (o: int)
    requires 0 <= i < 81
    ensures 0 <= o <= 60 && o % 9 <= 6
  {
    (i / 27) * 27 + ((i % 9) / 3) * 3
  }

  /** `getMiniGrid`: the nine cells of the 3x3 box holding `i`, row by row. */
  function MiniGrid(i: int): (r: seq<int>)
    requires 0 <= i < 81
    ensures |r| == 9 && InGrid(r)
  {
    var o := BoxOrigin(i);
    assert forall k :: 0 <= k < 9 ==> 0 <= BoxOffsets[k] <= 20;
    seq(9, k requires 0 <= k < 9 => o + BoxOffsets[k])
  }

  lemma LineMembers(i: int)
    requires 0 <= i < 81
    ensures Distinct(Line(i)) && i in Line(i)
    ensures forall j :: 0 <= j < 81 ==> (j in Line(i) <==> SameLine(i, j))
  {
    var r := Line(i);
    assert r[i % 9] == i;
    forall j | 0 <= j < 81 && SameLine(i, j) ensures j in r {
      assert r[j % 9] == j;
    }
  }

  lemma ColumnMembers(i: int)
    requires 0 <= i < 81
    ensures Distinct(Column(i)) && i in Column(i)
    ensures forall j :: 0 <= j < 81 ==> (j in Column(i) <==> SameColumn(i, j))
  {
    var r := Column(i);
    assert r[i / 9] == i;
    forall j | 0 <= j < 81 && SameColumn(i, j) ensures j in r {
      assert r[j / 9] == j;
    }
  }

  /** A cell index split into its line and column. */
  lemma Split(row: int, col: int)
    requires 0 <= row && 0 <= col < 9
    ensures (9 * row + col) / 9 == row && (9 * row + col) % 9 == col
  {
  }

  lemma BoxLine(i: int)
    requires 0 <= i < 81
    ensures i / 27 == (i / 9) / 3
  {
  }

  /** Box cell `k` lies `k / 3` lines below and `k % 3` columns right of the origin. */
  lemma BoxCell(i: int, k: int)
    requires 0 <= i < 81 && 0 <= k < 9
    ensures MiniGrid(i)[k] / 9 == 3 * ((i / 9) / 3) + k / 3
    ensures MiniGrid(i)[k] % 9 == 3 * ((i % 9) / 3) + k % 3
  {
    assert BoxOffsets[k] == 9 * (k / 3) + k % 3;
    BoxLine(i);
    Split(3 * ((i / 9) / 3) + k / 3, 3 * ((i % 9) / 3) + k % 3);
  }

  lemma MiniGridMembers(i: int)
    requires 0 <= i < 81
    ensures Distinct(MiniGrid(i)) && i in MiniGrid(i)
    ensures forall j :: 0 <= j < 81 ==> (j in MiniGrid(i) <==> SameBox(i, j))
  {
    var r := MiniGrid(i);
    forall k | 0 <= k < 9 ensures SameBox(i, r[k]) {
      BoxCell(i, k);
      BoxLine(i);
      BoxLine(r[k]);
    }
    forall p, q | 0 <= p < q < 9 ensures r[p] != r[q] {
      BoxCell(i, p);
      BoxCell(i, q);
    }
    forall j | 0 <= j < 81 && SameBox(i, j) ensures j in r {
      var k := ((j / 9) % 3) * 3 + (j % 9) % 3;
      BoxCell(i, k);
      BoxLine(i);
      BoxLine(j);
      assert r[k] / 9 == j / 9;
      assert r[k] % 9 == j % 9;
      assert r[k] == j;
    }
    assert SameBox(i, i);
  }
}
