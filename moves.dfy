/**
 * What a player's move and the end-of-game test mean, as values:
 * the verdict `__validate_move` reports and the conditions
 * `__check_victory` tests.
 */
module Moves {
  import opened Geometry

  /** The five strings `__validate_move` can return. */
  datatype Verdict = ValidMove | CannotAlterStart | DuplicateInRow | DuplicateInColumn | DuplicateInBlock

  /**
   * The combined row/column scan of `__validate_move` from index `i` on:
   * at each index the row cell is tested before the column cell, and the
   * first match decides the verdict; `ValidMove` means no match.
   */
  function LineScan(g: Grid, sel: Cell, move: int, i: int): Verdict
    requires IsGrid(g) && InBoard(sel) && 0 <= i <= Size
    decreases Size - i
  {
    if i == Size then ValidMove
    else if g[sel.0][i] == move then DuplicateInRow
    else if g[i][sel.1] == move then DuplicateInColumn
    else LineScan(g, sel, move, i + 1)
  }

  /** The cells the block scan of `__validate_move` visits. */
  function SelectedBlock(sel: Cell): (cells: seq<Cell>)
    requires InBoard(sel)
    ensures |cells| == Size && AllInBoard(cells)
  {
    BlockCells(BlockOf(sel).0, BlockOf(sel).1)
  }

  /**
   * The verdict of the scans of `__validate_move` for a non-zero move: the
   * row/column scan first, then the selected cell's block.
   */
  function DuplicateVerdict(g: Grid, sel: Cell, move: int): Verdict
    requires IsGrid(g) && InBoard(sel)
  {
    var line := LineScan(g, sel, move, 0);
    if line != ValidMove then line
    else if move in ValuesIn(g, SelectedBlock(sel)) then DuplicateInBlock
    else ValidMove
  }

  /** The verdict `__validate_move(move)` reports for the selected cell `sel`. */
  function MoveVerdict(g: Grid, protectedCells: seq<Cell>, sel: Cell, move: int): Verdict
    requires IsGrid(g) && InBoard(sel)
  {
    if sel in protectedCells then CannotAlterStart
    else if move == 0 then ValidMove
    else DuplicateVerdict(g, sel, move)
  }

  /** Neither the row cell nor the column cell matches at any index in [i, m). */
  ghost predicate NoLineClash(g: Grid, sel: Cell, move: int, i: int, m: int)
    requires IsGrid(g) && InBoard(sel) && 0 <= i <= m <= Size
  {
    forall k :: i <= k < m ==> g[sel.0][k] != move && g[k][sel.1] != move
  }

  /** The scan finds nothing from index `i` on iff neither line holds the move there. */
  lemma {:induction false} LineScanValidIff(g: Grid, sel: Cell, move: int, i: int)
    requires IsGrid(g) && InBoard(sel) && 0 <= i <= Size
    ensures LineScan(g, sel, move, i) == ValidMove <==> NoLineClash(g, sel, move, i, Size)
    decreases Size - i
  {
    if i < Size {
      LineScanValidIff(g, sel, move, i + 1);
    }
  }

  /**
   * The scan reports the first index at which the row or the column holds
   * the move, the row winning at equal index.
   */
  lemma {:induction false} LineScanFirstMatch(g: Grid, sel: Cell, move: int, i: int)
    requires IsGrid(g) && InBoard(sel) && 0 <= i <= Size
    ensures LineScan(g, sel, move, i) == DuplicateInRow <==>
      exists m :: i <= m < Size && g[sel.0][m] == move && NoLineClash(g, sel, move, i, m)
    ensures LineScan(g, sel, move, i) == DuplicateInColumn <==>
      exists m :: i <= m < Size && g[sel.0][m] != move && g[m][sel.1] == move && NoLineClash(g, sel, move, i, m)
    decreases Size - i
  {
    if i < Size {
      LineScanFirstMatch(g, sel, move, i + 1);
      if g[sel.0][i] == move || g[i][sel.1] == move {
        // A later index m > i cannot be the first match: index i breaks NoLineClash over [i, m).
        forall m | i < m <= Size ensures !NoLineClash(g, sel, move, i, m) {
        }
        assert NoLineClash(g, sel, move, i, i);
      } else {
        forall m | i + 1 <= m <= Size
          ensures NoLineClash(g, sel, move, i, m) <==> NoLineClash(g, sel, move, i + 1, m)
        {
        }
      }
    }
  }

  /**
   * A non-zero move on an unprotected cell is accepted iff the value occurs
   * nowhere in the cell's row, column or block (the cell itself included).
   */
  lemma MoveAcceptedIff(g: Grid, protectedCells: seq<Cell>, sel: Cell, move: int)
    requires IsGrid(g) && InBoard(sel) && sel !in protectedCells && move != 0
    ensures MoveVerdict(g, protectedCells, sel, move) == ValidMove <==>
      forall k :: 0 <= k < Size ==>
        g[sel.0][k] != move && g[k][sel.1] != move && At(g, SelectedBlock(sel)[k]) != move
  {
    var cells := SelectedBlock(sel);
    LineScanValidIff(g, sel, move, 0);
    ValuesInMeaning(g, cells, move);
    assert MoveVerdict(g, protectedCells, sel, move) == ValidMove <==>
      LineScan(g, sel, move, 0) == ValidMove && move !in ValuesIn(g, cells);
    assert NoLineClash(g, sel, move, 0, Size) <==>
      forall k :: 0 <= k < Size ==> g[sel.0][k] != move && g[k][sel.1] != move;
  }

  /**
   * A block duplicate is reported only when neither the row nor the column
   * holds the value, and some cell of the block does.
   */
  lemma BlockDupMeansOnlyBlock(g: Grid, protectedCells: seq<Cell>, sel: Cell, move: int)
    requires IsGrid(g) && InBoard(sel)
    ensures MoveVerdict(g, protectedCells, sel, move) == DuplicateInBlock <==>
      && sel !in protectedCells && move != 0
      && (forall k :: 0 <= k < Size ==> g[sel.0][k] != move && g[k][sel.1] != move)
      && (exists k :: 0 <= k < Size && At(g, SelectedBlock(sel)[k]) == move)
  {
    LineScanValidIff(g, sel, move, 0);
    ValuesInMeaning(g, SelectedBlock(sel), move);
  }

  /** Typing the digit a cell already holds is rejected, as a row or a column duplicate. */
  lemma ReenteringValueRejected(g: Grid, protectedCells: seq<Cell>, sel: Cell, move: int)
    requires IsGrid(g) && InBoard(sel) && sel !in protectedCells
    requires move != 0 && At(g, sel) == move
    ensures MoveVerdict(g, protectedCells, sel, move) in {DuplicateInRow, DuplicateInColumn}
  {
    LineScanValidIff(g, sel, move, 0);
    assert !NoLineClash(g, sel, move, 0, Size) by {
      assert g[sel.0][sel.1] == move;
    }
  }

  /** Every row and every column, as a set of values, is {1..9}: what `__check_victory` tests. */
  predicate RowsAndColsComplete(g: Grid)
    requires IsGrid(g)
  {
    forall i :: 0 <= i < Size ==>
      ValuesIn(g, RowCells(i)) == Digits && ValuesIn(g, ColCells(i)) == Digits
  }

  /** Every block, as a set of values, is {1..9}. */
  predicate BlocksComplete(g: Grid)
    requires IsGrid(g)
  {
    forall bi, bj :: 0 <= bi < 3 && 0 <= bj < 3 ==> ValuesIn(g, BlockCells(bi, bj)) == Digits
  }

  /** A solved board: rows, columns and blocks each hold {1..9}. */
  predicate IsSolved(g: Grid)
    requires IsGrid(g)
  {
    RowsAndColsComplete(g) && BlocksComplete(g)
  }

  /** The cyclic Latin square: cell (i, j) holds (i + j) mod 9 + 1. */
  function LatinSquare(): (g: Grid)
    ensures IsDigitGrid(g)
  {
    seq(Size, i => seq(Size, j => (i + j) % 9 + 1))
  }

  /** Every digit occurs in each line of the Latin square, at offset k from the diagonal. */
  lemma LatinWitness(i: int, v: int) returns (k: int)
    requires 0 <= i < Size && v in Digits
    ensures 0 <= k < Size && LatinSquare()[i][k] == v && LatinSquare()[k][i] == v
  {
    k := if v - 1 >= i then v - 1 - i else v + 8 - i;
    assert i + k == v - 1 || i + k == v + 8;
  }

  lemma LatinRowComplete(i: int)
    requires 0 <= i < Size
    ensures ValuesIn(LatinSquare(), RowCells(i)) == Digits
  {
    var g := LatinSquare();
    forall v ensures v in ValuesIn(g, RowCells(i)) <==> v in Digits {
      ValuesInMeaning(g, RowCells(i), v);
      if v in Digits {
        var k := LatinWitness(i, v);
        assert At(g, RowCells(i)[k]) == v;
      }
    }
  }

  lemma LatinColComplete(i: int)
    requires 0 <= i < Size
    ensures ValuesIn(LatinSquare(), ColCells(i)) == Digits
  {
    var g := LatinSquare();
    forall v ensures v in ValuesIn(g, ColCells(i)) <==> v in Digits {
      ValuesInMeaning(g, ColCells(i), v);
      if v in Digits {
        var k := LatinWitness(i, v);
        assert At(g, ColCells(i)[k]) == v;
      }
    }
  }

  /**
   * The cyclic Latin square passes the row and column tests although its
   * first block holds only {1..5}: a board `__check_victory` accepts as
   * won that is no Sudoku solution.
   */
  lemma LatinSquarePassesVictoryCheck()
    ensures RowsAndColsComplete(LatinSquare())
    ensures !BlocksComplete(LatinSquare())
  {
    forall i | 0 <= i < Size
      ensures ValuesIn(LatinSquare(), RowCells(i)) == Digits && ValuesIn(LatinSquare(), ColCells(i)) == Digits
    {
      LatinRowComplete(i);
      LatinColComplete(i);
    }
    ValuesInMeaning(LatinSquare(), BlockCells(0, 0), 9);
    assert 9 !in ValuesIn(LatinSquare(), BlockCells(0, 0));
  }

  lemma {:induction false} ValuesInDuplicate(g: Grid, cells: seq<Cell>, p: int, q: int)
    requires IsGrid(g) && AllInBoard(cells)
    requires 0 <= p < q < |cells| && At(g, cells[p]) == At(g, cells[q])
    ensures |ValuesIn(g, cells)| < |cells|
  {
    var n := |cells| - 1;
    if q == n {
      ValuesInMeaning(g, cells[..n], At(g, cells[p]));
      assert cells[..n][p] == cells[p];
      ValuesInBound(g, cells[..n]);
    } else {
      assert cells[..n][p] == cells[p] && cells[..n][q] == cells[q];
      ValuesInDuplicate(g, cells[..n], p, q);
    }
  }

  lemma {:induction false} ValuesInBound(g: Grid, cells: seq<Cell>)
    requires IsGrid(g) && AllInBoard(cells)
    ensures |ValuesIn(g, cells)| <= |cells|
  {
    if cells != [] {
      ValuesInBound(g, cells[..|cells| - 1]);
    }
  }

  /** Nine cells whose values form {1..9} hold nine distinct non-zero digits. */
  lemma CompleteGroupIsPermutation(g: Grid, cells: seq<Cell>)
    requires IsGrid(g) && AllInBoard(cells) && |cells| == Size
    requires ValuesIn(g, cells) == Digits
    ensures forall k :: 0 <= k < Size ==> 1 <= At(g, cells[k]) <= 9
    ensures forall p, q :: 0 <= p < q < Size ==> At(g, cells[p]) != At(g, cells[q])
  {
    assert |Digits| == 9;
    forall k | 0 <= k < Size ensures 1 <= At(g, cells[k]) <= 9 {
      ValuesInMeaning(g, cells, At(g, cells[k]));
    }
    forall p, q | 0 <= p < q < Size ensures At(g, cells[p]) != At(g, cells[q]) {
      if At(g, cells[p]) == At(g, cells[q]) {
        ValuesInDuplicate(g, cells, p, q);
      }
    }
  }
}
