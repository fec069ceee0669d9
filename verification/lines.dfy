/** The eight `bitMasks` against the geometry of the 3x3 grid: each mask is
    exactly one row, column or diagonal of the row-major grid, in the order rows,
    columns, diagonals, and a board completes a mask exactly when it holds all
    three cells of that line. */
module Lines {
  import opened Bitboard

  /** Row r of the grid, from the row-major cell numbering. */
  ghost function Row(r: int): set<int>
  {
    set c | 0 <= c < 9 && c / 3 == r
  }

  /** Column k of the grid. */
  ghost function Column(k: int): set<int>
  {
    set c | 0 <= c < 9 && c % 3 == k
  }

  /** The diagonal from the top-left corner. */
  ghost function Diagonal(): set<int>
  {
    set c | 0 <= c < 9 && c / 3 == c % 3
  }

  /** The diagonal from the top-right corner. */
  ghost function AntiDiagonal(): set<int>
  {
    set c | 0 <= c < 9 && c / 3 + c % 3 == 2
  }

  /** The eight winning lines of the grid, in the order the masks list them. */
  ghost function GridLines(): seq<set<int>>
  {
    [Row(0), Row(1), Row(2), Column(0), Column(1), Column(2), Diagonal(), AntiDiagonal()]
  }

  /** The cells of a mask, listed: the set `Cells` describes, written out. */
  lemma MaskCells(m: bv9, a: int, b: int, c: int)
    requires 0 <= a < b < c < 9
    requires m == Bit(a) | Bit(b) | Bit(c)
    ensures Cells(m) == {a, b, c}
    ensures |Cells(m)| == 3
  {
    forall d: Cell
      ensures Holds(m, d) <==> d == a || d == b || d == c
    {
    }
  }

  /** Every mask is the line the grid puts at the same position, and holds three cells. */
  lemma LineMasksAreGridLines()
    ensures |LineMasks| == |GridLines()| == 8
    ensures forall k | 0 <= k < 8 :: Cells(LineMasks[k]) == GridLines()[k]
    ensures forall k | 0 <= k < 8 :: |Cells(LineMasks[k])| == 3
  {
    MaskCells(LineMasks[0], 0, 1, 2);
    assert Row(0) == {0, 1, 2};
    MaskCells(LineMasks[1], 3, 4, 5);
    assert Row(1) == {3, 4, 5};
    MaskCells(LineMasks[2], 6, 7, 8);
    assert Row(2) == {6, 7, 8};
    MaskCells(LineMasks[3], 0, 3, 6);
    assert Column(0) == {0, 3, 6};
    MaskCells(LineMasks[4], 1, 4, 7);
    assert Column(1) == {1, 4, 7};
    MaskCells(LineMasks[5], 2, 5, 8);
    assert Column(2) == {2, 5, 8};
    MaskCells(LineMasks[6], 0, 4, 8);
    assert Diagonal() == {0, 4, 8};
    MaskCells(LineMasks[7], 2, 4, 6);
    assert AntiDiagonal() == {2, 4, 6};
  }

  /** Completing a mask with three cells a, b, c means holding all three. */
  lemma CompletesMeansHolding(board: bv9, m: bv9, a: int, b: int, c: int)
    requires 0 <= a < b < c < 9
    requires m == Bit(a) | Bit(b) | Bit(c)
    ensures Completes(board, m) <==> {a, b, c} <= Cells(board)
  {
    CompletesBits(board, m, a, b, c);
  }

  lemma CompletesBits(board: bv9, m: bv9, a: int, b: int, c: int)
    requires 0 <= a < b < c < 9
    requires m == Bit(a) | Bit(b) | Bit(c)
    ensures Completes(board, m) <==> Holds(board, a) && Holds(board, b) && Holds(board, c)
  {
  }

  /** The `(bitBoard[p] & mask) === mask` test is "the board holds the whole line". */
  lemma CompletesMeansLineHeld(board: bv9, k: int)
    requires 0 <= k < 8
    ensures Completes(board, LineMasks[k]) <==> GridLines()[k] <= Cells(board)
  {
    LineMasksAreGridLines();
    var m := LineMasks[k];
    MaskCellsAt(k);
    if k == 0 {
      CompletesMeansHolding(board, m, 0, 1, 2);
    } else if k == 1 {
      CompletesMeansHolding(board, m, 3, 4, 5);
    } else if k == 2 {
      CompletesMeansHolding(board, m, 6, 7, 8);
    } else if k == 3 {
      CompletesMeansHolding(board, m, 0, 3, 6);
    } else if k == 4 {
      CompletesMeansHolding(board, m, 1, 4, 7);
    } else if k == 5 {
      CompletesMeansHolding(board, m, 2, 5, 8);
    } else if k == 6 {
      CompletesMeansHolding(board, m, 0, 4, 8);
    } else {
      CompletesMeansHolding(board, m, 2, 4, 6);
    }
  }

  lemma MaskCellsAt(k: int)
    requires 0 <= k < 8
    ensures k == 0 ==> Cells(LineMasks[k]) == {0, 1, 2}
    ensures k == 1 ==> Cells(LineMasks[k]) == {3, 4, 5}
    ensures k == 2 ==> Cells(LineMasks[k]) == {6, 7, 8}
    ensures k == 3 ==> Cells(LineMasks[k]) == {0, 3, 6}
    ensures k == 4 ==> Cells(LineMasks[k]) == {1, 4, 7}
    ensures k == 5 ==> Cells(LineMasks[k]) == {2, 5, 8}
    ensures k == 6 ==> Cells(LineMasks[k]) == {0, 4, 8}
    ensures k == 7 ==> Cells(LineMasks[k]) == {2, 4, 6}
  {
    if k == 0 { MaskCells(LineMasks[0], 0, 1, 2); }
    else if k == 1 { MaskCells(LineMasks[1], 3, 4, 5); }
    else if k == 2 { MaskCells(LineMasks[2], 6, 7, 8); }
    else if k == 3 { MaskCells(LineMasks[3], 0, 3, 6); }
    else if k == 4 { MaskCells(LineMasks[4], 1, 4, 7); }
    else if k == 5 { MaskCells(LineMasks[5], 2, 5, 8); }
    else if k == 6 { MaskCells(LineMasks[6], 0, 4, 8); }
    else { MaskCells(LineMasks[7], 2, 4, 6); }
  }

  /** A board has a line in the sense of `isWin` exactly when it holds every cell of
      some row, column or diagonal of the grid. */
  lemma HasLineMeansGridLine(board: bv9)
    ensures HasLine(board) <==> exists k | 0 <= k < 8 :: GridLines()[k] <= Cells(board)
  {
    forall k | 0 <= k < 8
      ensures Completes(board, LineMasks[k]) <==> GridLines()[k] <= Cells(board)
    {
      CompletesMeansLineHeld(board, k);
    }
  }
}
