/** The static geometry of the 9x9 board: rows, columns and 3x3 squares as
    tables of cell indices. Cells are numbered square by square ("block-major"):
    square s holds the consecutive cells 9*s .. 9*s+8, so rows and columns are
    the tables that have to be looked up. */
module Groups {

  /** Number of cells that belong to some group. */
  const CELLS: nat := 81

  const ROWS: seq<seq<nat>> := [
    [0, 1, 2, 9, 10, 11, 18, 19, 20],
    [3, 4, 5, 12, 13, 14, 21, 22, 23],
    [6, 7, 8, 15, 16, 17, 24, 25, 26],
    [27, 28, 29, 36, 37, 38, 45, 46, 47],
    [30, 31, 32, 39, 40, 41, 48, 49, 50],
    [33, 34, 35, 42, 43, 44, 51, 52, 53],
    [54, 55, 56, 63, 64, 65, 72, 73, 74],
    [57, 58, 59, 66, 67, 68, 75, 76, 77],
    [60, 61, 62, 69, 70, 71, 78, 79, 80]
  ]

  const COLS: seq<seq<nat>> := [
    [0, 3, 6, 27, 30, 33, 54, 57, 60],
    [1, 4, 7, 28, 31, 34, 55, 58, 61],
    [2, 5, 8, 29, 32, 35, 56, 59, 62],
    [9, 12, 15, 36, 39, 42, 63, 66, 69],
    [10, 13, 16, 37, 40, 43, 64, 67, 70],
    [11, 14, 17, 38, 41, 44, 65, 68, 71],
    [18, 21, 24, 45, 48, 51, 72, 75, 78],
    [19, 22, 25, 46, 49, 52, 73, 76, 79],
    [20, 23, 26, 47, 50, 53, 74, 77, 80]
  ]

  const SQUARES: seq<seq<nat>> := [
    [0, 1, 2, 3, 4, 5, 6, 7, 8],
    [9, 10, 11, 12, 13, 14, 15, 16, 17],
    [18, 19, 20, 21, 22, 23, 24, 25, 26],
    [27, 28, 29, 30, 31, 32, 33, 34, 35],
    [36, 37, 38, 39, 40, 41, 42, 43, 44],
    [45, 46, 47, 48, 49, 50, 51, 52, 53],
    [54, 55, 56, 57, 58, 59, 60, 61, 62],
    [63, 64, 65, 66, 67, 68, 69, 70, 71],
    [72, 73, 74, 75, 76, 77, 78, 79, 80]
  ]

  /** The 27 groups: rows, then columns, then squares. */
  const SUBSETS: seq<seq<nat>> := ROWS + COLS + SQUARES

  /** Cell i lies in some group of the family. */
  ghost predicate Covered(family: seq<seq<nat>>, i: nat)
  {
    exists g :: 0 <= g < |family| && i in family[g]
  }

  /** A family of groups partitions the cells 0..80: nine groups of nine
      distinct cells, every cell in some group and in no two groups. */
  ghost predicate Partitions(family: seq<seq<nat>>)
  {
    && |family| == 9
    && (forall g | 0 <= g < 9 :: |family[g]| == 9)
    && (forall g, k | 0 <= g < 9 && 0 <= k < 9 :: family[g][k] < CELLS)
    && (forall g, k, k' | 0 <= g < 9 && 0 <= k < k' < 9 :: family[g][k] != family[g][k'])
    && (forall i | 0 <= i < CELLS :: Covered(family, i))
    && (forall i, g, g' | 0 <= g < g' < 9 && i in family[g] :: i !in family[g'])
  }

  // Closed forms of the three tables, of the group that holds a cell and of
  // the cell's place in that group.

  function RowCell(r: nat, k: nat): nat { (r / 3) * 27 + (r % 3) * 3 + (k / 3) * 9 + k % 3 }
  function RowOf(i: nat): nat { (i / 27) * 3 + (i % 9) / 3 }
  function PlaceInRow(i: nat): nat { ((i / 9) % 3) * 3 + i % 3 }

  function ColCell(c: nat, k: nat): nat { (c / 3) * 9 + c % 3 + (k / 3) * 27 + (k % 3) * 3 }
  function ColOf(i: nat): nat { ((i / 9) % 3) * 3 + i % 3 }
  function PlaceInCol(i: nat): nat { (i / 27) * 3 + (i % 9) / 3 }

  function SquareCell(s: nat, k: nat): nat { 9 * s + k }
  function SquareOf(i: nat): nat { i / 9 }
  function PlaceInSquare(i: nat): nat { i % 9 }

  lemma RowTable()
    ensures |ROWS| == 9
    ensures forall r | 0 <= r < 9 :: |ROWS[r]| == 9
    ensures forall r, k | 0 <= r < 9 && 0 <= k < 9 :: ROWS[r][k] == RowCell(r, k)
  {
    forall r | 0 <= r < 9
      ensures forall k | 0 <= k < 9 :: ROWS[r][k] == RowCell(r, k)
    {
      if r == 0 {
      } else if r == 1 {
      } else if r == 2 {
      } else if r == 3 {
      } else if r == 4 {
      } else if r == 5 {
      } else if r == 6 {
      } else if r == 7 {
      } else {
      }
    }
  }

  lemma ColTable()
    ensures |COLS| == 9
    ensures forall c | 0 <= c < 9 :: |COLS[c]| == 9
    ensures forall c, k | 0 <= c < 9 && 0 <= k < 9 :: COLS[c][k] == ColCell(c, k)
  {
    forall c | 0 <= c < 9
      ensures forall k | 0 <= k < 9 :: COLS[c][k] == ColCell(c, k)
    {
      if c == 0 {
      } else if c == 1 {
      } else if c == 2 {
      } else if c == 3 {
      } else if c == 4 {
      } else if c == 5 {
      } else if c == 6 {
      } else if c == 7 {
      } else {
      }
    }
  }

  lemma SquareTable()
    ensures |SQUARES| == 9
    ensures forall s | 0 <= s < 9 :: |SQUARES[s]| == 9
    ensures forall s, k | 0 <= s < 9 && 0 <= k < 9 :: SQUARES[s][k] == SquareCell(s, k)
  {
  }

  /** A table given by a closed form `cell` whose inverse is (`of`, `place`)
      partitions the cells, and `of` names the one group that holds a cell. */
  lemma {:induction false} PartitionByFormula(family: seq<seq<nat>>, cell: (nat, nat) -> nat, of: nat -> nat, place: nat -> nat)
    requires |family| == 9 && forall g | 0 <= g < 9 :: |family[g]| == 9
    requires forall g, k | 0 <= g < 9 && 0 <= k < 9 :: family[g][k] == cell(g, k)
    requires forall g, k | 0 <= g < 9 && 0 <= k < 9 :: cell(g, k) < CELLS && of(cell(g, k)) == g && place(cell(g, k)) == k
    requires forall i | 0 <= i < CELLS :: of(i) < 9 && place(i) < 9 && cell(of(i), place(i)) == i
    ensures Partitions(family)
    ensures forall i, g | 0 <= i < CELLS && 0 <= g < 9 :: i in family[g] <==> g == of(i)
  {
    forall i, g | 0 <= i < CELLS && 0 <= g < 9 && i in family[g]
      ensures g == of(i)
    {
      var k :| 0 <= k < 9 && family[g][k] == i;
    }
    forall i | 0 <= i < CELLS
      ensures Covered(family, i) && i in family[of(i)]
    {
      assert family[of(i)][place(i)] == i;
    }
    forall g, k, k' | 0 <= g < 9 && 0 <= k < k' < 9
      ensures family[g][k] != family[g][k']
    {
      assert place(cell(g, k)) == k && place(cell(g, k')) == k';
    }
  }

  // Quotient and remainder by the three divisors the closed forms use.

  lemma Div3(x: nat, q: nat, rem: nat)
    requires rem < 3 && x == 3 * q + rem
    ensures x / 3 == q && x % 3 == rem
  {
  }

  lemma Div9(x: nat, q: nat, rem: nat)
    requires rem < 9 && x == 9 * q + rem
    ensures x / 9 == q && x % 9 == rem
  {
  }

  lemma Div27(x: nat, q: nat, rem: nat)
    requires rem < 27 && x == 27 * q + rem
    ensures x / 27 == q && x % 27 == rem
  {
  }

  lemma RowFormula()
    ensures forall r, k | 0 <= r < 9 && 0 <= k < 9 :: RowCell(r, k) < CELLS && RowOf(RowCell(r, k)) == r && PlaceInRow(RowCell(r, k)) == k
    ensures forall i | 0 <= i < CELLS :: RowOf(i) < 9 && PlaceInRow(i) < 9 && RowCell(RowOf(i), PlaceInRow(i)) == i
  {
    forall r, k | 0 <= r < 9 && 0 <= k < 9
      ensures RowCell(r, k) < CELLS && RowOf(RowCell(r, k)) == r && PlaceInRow(RowCell(r, k)) == k
    {
      RowCellInverse(r, k);
    }
    forall i | 0 <= i < CELLS
      ensures RowOf(i) < 9 && PlaceInRow(i) < 9 && RowCell(RowOf(i), PlaceInRow(i)) == i
    {
      RowOfInverse(i);
    }
  }

  lemma RowCellInverse(r: nat, k: nat)
    requires r < 9 && k < 9
    ensures RowCell(r, k) < CELLS && RowOf(RowCell(r, k)) == r && PlaceInRow(RowCell(r, k)) == k
  {
    var a, b, c, e := r / 3, r % 3, k / 3, k % 3;
    var i := RowCell(r, k);
    assert i == 27 * a + 3 * b + 9 * c + e;
    Div27(i, a, 3 * b + 9 * c + e);
    Div9(i, 3 * a + c, 3 * b + e);
    Div3(3 * b + e, b, e);
    Div3(3 * a + c, a, c);
    Div3(i, 9 * a + b + 3 * c, e);
  }

  lemma RowOfInverse(i: nat)
    requires i < CELLS
    ensures RowOf(i) < 9 && PlaceInRow(i) < 9 && RowCell(RowOf(i), PlaceInRow(i)) == i
  {
    var a, m := i / 27, i % 27;
    var c, n := m / 9, m % 9;
    var b, e := n / 3, n % 3;
    assert i == 27 * a + 9 * c + 3 * b + e;
    Div9(i, 3 * a + c, 3 * b + e);
    Div3(3 * a + c, a, c);
    Div3(i, 9 * a + 3 * c + b, e);
    Div3(3 * a + b, a, b);
    Div3(3 * c + e, c, e);
  }

  lemma ColFormula()
    ensures forall c, k | 0 <= c < 9 && 0 <= k < 9 :: ColCell(c, k) < CELLS && ColOf(ColCell(c, k)) == c && PlaceInCol(ColCell(c, k)) == k
    ensures forall i | 0 <= i < CELLS :: ColOf(i) < 9 && PlaceInCol(i) < 9 && ColCell(ColOf(i), PlaceInCol(i)) == i
  {
    forall c, k | 0 <= c < 9 && 0 <= k < 9
      ensures ColCell(c, k) < CELLS && ColOf(ColCell(c, k)) == c && PlaceInCol(ColCell(c, k)) == k
    {
      ColCellInverse(c, k);
    }
    forall i | 0 <= i < CELLS
      ensures ColOf(i) < 9 && PlaceInCol(i) < 9 && ColCell(ColOf(i), PlaceInCol(i)) == i
    {
      ColOfInverse(i);
    }
  }

  lemma ColCellInverse(c: nat, k: nat)
    requires c < 9 && k < 9
    ensures ColCell(c, k) < CELLS && ColOf(ColCell(c, k)) == c && PlaceInCol(ColCell(c, k)) == k
  {
    var a, b, x, y := c / 3, c % 3, k / 3, k % 3;
    var i := ColCell(c, k);
    assert i == 27 * x + 9 * a + 3 * y + b;
    Div27(i, x, 9 * a + b + 3 * y);
    Div9(i, 3 * x + a, 3 * y + b);
    Div3(3 * x + a, x, a);
    Div3(3 * y + b, y, b);
    Div3(i, 9 * x + 3 * a + y, b);
  }

  lemma ColOfInverse(i: nat)
    requires i < CELLS
    ensures ColOf(i) < 9 && PlaceInCol(i) < 9 && ColCell(ColOf(i), PlaceInCol(i)) == i
  {
    var x, m := i / 27, i % 27;
    var a, n := m / 9, m % 9;
    var y, b := n / 3, n % 3;
    assert i == 27 * x + 9 * a + 3 * y + b;
    Div9(i, 3 * x + a, 3 * y + b);
    Div3(3 * x + a, x, a);
    Div3(i, 9 * x + 3 * a + y, b);
    Div3(3 * a + b, a, b);
    Div3(3 * x + y, x, y);
  }

  lemma SquareFormula()
    ensures forall s, k | 0 <= s < 9 && 0 <= k < 9 :: SquareCell(s, k) < CELLS && SquareOf(SquareCell(s, k)) == s && PlaceInSquare(SquareCell(s, k)) == k
    ensures forall i | 0 <= i < CELLS :: SquareOf(i) < 9 && PlaceInSquare(i) < 9 && SquareCell(SquareOf(i), PlaceInSquare(i)) == i
  {
    forall s, k | 0 <= s < 9 && 0 <= k < 9
      ensures SquareCell(s, k) < CELLS && SquareOf(SquareCell(s, k)) == s && PlaceInSquare(SquareCell(s, k)) == k
    {
      Div9(SquareCell(s, k), s, k);
    }
  }

  /** Every cell 0..80 lies in exactly one row, namely RowOf(i). */
  lemma RowsPartition()
    ensures Partitions(ROWS)
    ensures forall i, r | 0 <= i < CELLS && 0 <= r < 9 :: i in ROWS[r] <==> r == RowOf(i)
  {
    RowTable();
    RowFormula();
    PartitionByFormula(ROWS, RowCell, RowOf, PlaceInRow);
  }

  /** Every cell 0..80 lies in exactly one column, namely ColOf(i). */
  lemma ColsPartition()
    ensures Partitions(COLS)
    ensures forall i, c | 0 <= i < CELLS && 0 <= c < 9 :: i in COLS[c] <==> c == ColOf(i)
  {
    ColTable();
    ColFormula();
    PartitionByFormula(COLS, ColCell, ColOf, PlaceInCol);
  }

  /** Every cell 0..80 lies in exactly one square, namely i / 9. */
  lemma SquaresPartition()
    ensures Partitions(SQUARES)
    ensures forall i, s | 0 <= i < CELLS && 0 <= s < 9 :: i in SQUARES[s] <==> s == SquareOf(i)
  {
    SquareTable();
    SquareFormula();
    PartitionByFormula(SQUARES, SquareCell, SquareOf, PlaceInSquare);
  }

  /** The 27 groups are the three families one after the other; each has nine
      distinct cells below 81, so the extra cell 81 of a board lies in none. */
  lemma SubsetsShape()
    ensures |SUBSETS| == 27
    ensures forall g | 0 <= g < 9 :: SUBSETS[g] == ROWS[g] && SUBSETS[9 + g] == COLS[g] && SUBSETS[18 + g] == SQUARES[g]
    ensures forall g | 0 <= g < 27 :: |SUBSETS[g]| == 9
    ensures forall g, k | 0 <= g < 27 && 0 <= k < 9 :: SUBSETS[g][k] < CELLS
    ensures forall g, k, k' | 0 <= g < 27 && 0 <= k < k' < 9 :: SUBSETS[g][k] != SUBSETS[g][k']
  {
    RowsPartition();
    ColsPartition();
    SquaresPartition();
    forall g | 0 <= g < 27
      ensures |SUBSETS[g]| == 9
      ensures forall k | 0 <= k < 9 :: SUBSETS[g][k] < CELLS
      ensures forall k, k' | 0 <= k < k' < 9 :: SUBSETS[g][k] != SUBSETS[g][k']
    {
      if g < 9 {
        assert SUBSETS[g] == ROWS[g];
      } else if g < 18 {
        assert SUBSETS[g] == COLS[g - 9];
      } else {
        assert SUBSETS[g] == SQUARES[g - 18];
      }
    }
  }

  /** Every index of every group in `subsets` is a cell of a board of `size`
      cells. */
  predicate Fits(size: nat, subsets: seq<seq<nat>>)
  {
    forall g, k | 0 <= g < |subsets| && 0 <= k < |subsets[g]| :: subsets[g][k] < size
  }

  /** Every one of the 27 groups has nine cells. */
  lemma SubsetSizes()
    ensures |SUBSETS| == 27 && forall g | 0 <= g < |SUBSETS| :: |SUBSETS[g]| == 9
  {
    SubsetsShape();
  }

  /** The 27 groups fit any board of at least 81 cells. */
  lemma SubsetsFit(size: nat)
    requires CELLS <= size
    ensures Fits(size, SUBSETS)
  {
    SubsetsShape();
  }

  /** A cell 0..80 lies in exactly three of the 27 groups: its row, its column
      and its square. */
  lemma GroupsOfCell(i: nat)
    requires i < CELLS
    ensures forall g | 0 <= g < 27 :: i in SUBSETS[g] <==> g == RowOf(i) || g == 9 + ColOf(i) || g == 18 + SquareOf(i)
  {
    RowsPartition();
    ColsPartition();
    SquaresPartition();
    SubsetsShape();
    forall g | 0 <= g < 27
      ensures i in SUBSETS[g] <==> g == RowOf(i) || g == 9 + ColOf(i) || g == 18 + SquareOf(i)
    {
      if g < 9 {
        assert SUBSETS[g] == ROWS[g];
      } else if g < 18 {
        assert SUBSETS[g] == COLS[g - 9];
      } else {
        assert SUBSETS[g] == SQUARES[g - 18];
      }
    }
  }
}
