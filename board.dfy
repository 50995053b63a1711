/**
 * The `SudokuBoard` object: the board state the event handlers update in
 * place, with the move validation, the victory test and the solving
 * assistant as methods over it.
 */
module Board {
  import opened Geometry
  import opened Moves
  import opened Propagation
  import PuzzleFile

  /**
   * The non-zero cells (i, 0) .. (i, j - 1) of row i, left to right: what
   * the inner loop of `__load_puzzle` appends to `protected_cells`.
   */
  function GivensInRow(g: Grid, i: int, j: int): seq<Cell>
    requires IsGrid(g) && 0 <= i < Size && 0 <= j <= Size
  {
    if j == 0 then []
    else GivensInRow(g, i, j - 1) + (if g[i][j - 1] != 0 then [(i, j - 1)] else [])
  }

  /** The non-zero cells of rows 0 .. i - 1 in row-major order. */
  function GivensInRows(g: Grid, i: int): seq<Cell>
    requires IsGrid(g) && 0 <= i <= Size
  {
    if i == 0 then [] else GivensInRows(g, i - 1) + GivensInRow(g, i - 1, Size)
  }

  /** The protected cells `__load_puzzle` lists for grid g. */
  function Givens(g: Grid): seq<Cell>
    requires IsGrid(g)
  {
    GivensInRows(g, Size)
  }

  /** The row-major position of a cell. */
  function Ord(p: Cell): int {
    p.0 * Size + p.1
  }

  predicate InRowMajorOrder(cells: seq<Cell>) {
    forall a, b :: 0 <= a < b < |cells| ==> Ord(cells[a]) < Ord(cells[b])
  }

  lemma {:induction false} GivensInRowMeaning(g: Grid, i: int, j: int, p: Cell)
    requires IsGrid(g) && 0 <= i < Size && 0 <= j <= Size
    ensures p in GivensInRow(g, i, j) <==> p.0 == i && 0 <= p.1 < j && g[i][p.1] != 0
  {
    if j > 0 {
      GivensInRowMeaning(g, i, j - 1, p);
    }
  }

  lemma {:induction false} GivensInRowsMeaning(g: Grid, i: int, p: Cell)
    requires IsGrid(g) && 0 <= i <= Size
    ensures p in GivensInRows(g, i) <==> InBoard(p) && p.0 < i && At(g, p) != 0
  {
    if i > 0 {
      var before, row := GivensInRows(g, i - 1), GivensInRow(g, i - 1, Size);
      assert GivensInRows(g, i) == before + row;
      assert p in before + row <==> p in before || p in row;
      GivensInRowsMeaning(g, i - 1, p);
      GivensInRowMeaning(g, i - 1, Size, p);
    }
  }

  /** Joining two row-major lists, the first wholly before the second, keeps the order. */
  lemma OrderedJoin(xs: seq<Cell>, ys: seq<Cell>, bound: int)
    requires InRowMajorOrder(xs) && InRowMajorOrder(ys)
    requires forall x :: x in xs ==> Ord(x) < bound
    requires forall y :: y in ys ==> bound <= Ord(y)
    ensures InRowMajorOrder(xs + ys)
  {
    var zs := xs + ys;
    forall a, b | 0 <= a < b < |zs| ensures Ord(zs[a]) < Ord(zs[b]) {
      if b < |xs| {
        assert zs[a] == xs[a] && zs[b] == xs[b];
      } else if a >= |xs| {
        assert zs[a] == ys[a - |xs|] && zs[b] == ys[b - |xs|];
      } else {
        assert zs[a] in xs && zs[b] in ys;
      }
    }
  }

  lemma {:induction false} GivensInRowOrdered(g: Grid, i: int, j: int)
    requires IsGrid(g) && 0 <= i < Size && 0 <= j <= Size
    ensures InRowMajorOrder(GivensInRow(g, i, j))
  {
    if j > 0 {
      GivensInRowOrdered(g, i, j - 1);
      forall x | x in GivensInRow(g, i, j - 1) ensures Ord(x) < Ord((i, j - 1)) {
        GivensInRowMeaning(g, i, j - 1, x);
      }
      OrderedJoin(GivensInRow(g, i, j - 1), if g[i][j - 1] != 0 then [(i, j - 1)] else [], Ord((i, j - 1)));
    }
  }

  /** The givens are listed in strictly increasing row-major order, so without repetition. */
  lemma {:induction false} GivensInRowsOrdered(g: Grid, i: int)
    requires IsGrid(g) && 0 <= i <= Size
    ensures InRowMajorOrder(GivensInRows(g, i))
  {
    if i > 0 {
      GivensInRowsOrdered(g, i - 1);
      GivensInRowOrdered(g, i - 1, Size);
      forall x | x in GivensInRows(g, i - 1) ensures Ord(x) < Size * (i - 1) {
        GivensInRowsMeaning(g, i - 1, x);
      }
      forall y | y in GivensInRow(g, i - 1, Size) ensures Size * (i - 1) <= Ord(y) {
        GivensInRowMeaning(g, i - 1, Size, y);
      }
      OrderedJoin(GivensInRows(g, i - 1), GivensInRow(g, i - 1, Size), Size * (i - 1));
    }
  }

  /**
   * After loading grid g a cell is protected iff it is a board cell g
   * fills, and the protected cells are listed once each, in row-major order.
   */
  lemma GivensMeaning(g: Grid, p: Cell)
    requires IsGrid(g)
    ensures p in Givens(g) <==> InBoard(p) && At(g, p) != 0
    ensures InRowMajorOrder(Givens(g))
  {
    GivensInRowsMeaning(g, Size, p);
    GivensInRowsOrdered(g, Size);
  }

  /**
   * The block key at row-major position n of the 3x3 block grid: the order
   * in which `__init__` inserts the keys of the block table, and so the
   * order in which the block update visits them.
   */
  function BlockAt(n: int): Cell {
    (n / 3, n % 3)
  }

  /** The table after the first loop of `__init__` has made an empty list for n blocks. */
  ghost function EmptyListsUpTo(n: int): map<Cell, seq<Cell>>
    requires 0 <= n <= 9
  {
    if n == 0 then map[] else EmptyListsUpTo(n - 1)[BlockAt(n - 1) := []]
  }

  /** The table after the second loop of `__init__` has filled the first n blocks. */
  ghost function FilledUpTo(n: int): map<Cell, seq<Cell>>
    requires 0 <= n <= 9
  {
    if n == 0 then EmptyListsUpTo(9)
    else FilledUpTo(n - 1)[BlockAt(n - 1) := BlockCells(BlockAt(n - 1).0, BlockAt(n - 1).1)]
  }

  lemma {:induction false} EmptyListsUpToMeaning(n: int, b: Cell)
    requires 0 <= n <= 9
    ensures b in EmptyListsUpTo(n) <==> IsBlockId(b) && 3 * b.0 + b.1 < n
    ensures b in EmptyListsUpTo(n) ==> EmptyListsUpTo(n)[b] == []
  {
    if n > 0 {
      EmptyListsUpToMeaning(n - 1, b);
    }
  }

  lemma {:induction false} FilledUpToMeaning(n: int, b: Cell)
    requires 0 <= n <= 9
    ensures b in FilledUpTo(n) <==> IsBlockId(b)
    ensures b in FilledUpTo(n) ==> FilledUpTo(n)[b] == if 3 * b.0 + b.1 < n then BlockCells(b.0, b.1) else []
  {
    if n == 0 {
      EmptyListsUpToMeaning(9, b);
    } else {
      FilledUpToMeaning(n - 1, b);
    }
  }

  lemma FilledIsBlockTable()
    ensures FilledUpTo(9) == BlockTable()
  {
    forall b ensures b in FilledUpTo(9) <==> b in BlockTable() {
      FilledUpToMeaning(9, b);
      BlockIdsAreBlocks(b);
    }
    forall b | b in BlockTable() ensures FilledUpTo(9)[b] == BlockTable()[b] {
      FilledUpToMeaning(9, b);
      BlockIdsAreBlocks(b);
    }
  }

  lemma BlockCellsShift(i: int, j: int, k: int)
    requires 0 <= k < Size
    ensures BlockCells(i, j)[..k + 1] == BlockCells(i, j)[..k] + [(BlockCells(0, 0)[k].0 + 3 * i, BlockCells(0, 0)[k].1 + 3 * j)]
  {
  }

  /**
   * The block table of `__init__`: nine empty lists keyed (i, j) while the
   * offsets (i, j) are collected, then each list receives the offsets
   * shifted by (3i, 3j).
   */
  method BuildBlockTable() returns (blocks: map<Cell, seq<Cell>>)
    ensures blocks == BlockTable()
  {
    blocks := map[];
    var offsets: seq<Cell> := [];
    for i := 0 to 3
      invariant offsets == BlockCells(0, 0)[..3 * i]
      invariant blocks == EmptyListsUpTo(3 * i)
    {
      for j := 0 to 3
        invariant offsets == BlockCells(0, 0)[..3 * i + j]
        invariant blocks == EmptyListsUpTo(3 * i + j)
      {
        assert BlockAt(3 * i + j) == (i, j);
        blocks := blocks[(i, j) := []];
        offsets := offsets + [(i, j)];
        assert offsets == BlockCells(0, 0)[..3 * i + j + 1];
      }
    }
    for i := 0 to 3
      invariant blocks == FilledUpTo(3 * i)
    {
      for j := 0 to 3
        invariant blocks == FilledUpTo(3 * i + j)
      {
        var cells: seq<Cell> := [];
        for k := 0 to |offsets|
          invariant cells == BlockCells(i, j)[..k]
        {
          var cell := offsets[k];
          BlockCellsShift(i, j, k);
          cells := cells + [(cell.0 + 3 * i, cell.1 + 3 * j)];
        }
        assert cells == BlockCells(i, j);
        assert BlockAt(3 * i + j) == (i, j);
        blocks := blocks[(i, j) := cells];
      }
    }
    FilledIsBlockTable();
  }

  /** CELL_SIZE and BOARD_MARGIN, in pixels. */
  const CellSize: int := 30
  const BoardMargin: int := 10
  /** WINDOW_WIDTH and WINDOW_HEIGHT: the board plus a margin on each side. */
  const WindowSize: int := BoardMargin * 2 + CellSize * Size

  /**
   * `__find_cell`: the (row, column) of the cell under pixel (x, y). The
   * source's `//` floors; for the positive divisor used here Dafny's `/`
   * agrees with it, so the result is the cell whose pixel box holds (x, y).
   */
  function FindCell(x: int, y: int): (c: Cell)
    ensures BoardMargin + CellSize * c.0 <= y < BoardMargin + CellSize * (c.0 + 1)
    ensures BoardMargin + CellSize * c.1 <= x < BoardMargin + CellSize * (c.1 + 1)
  {
    ((y - BoardMargin) / CellSize, (x - BoardMargin) / CellSize)
  }

  /** The test `__on_left_click` applies before selecting: strictly inside the board's frame. */
  predicate OnBoard(x: int, y: int) {
    BoardMargin < x < WindowSize - BoardMargin && BoardMargin < y < WindowSize - BoardMargin
  }

  /** A click that passes the test selects a board cell. */
  lemma ClickSelectsBoardCell(x: int, y: int)
    requires OnBoard(x, y)
    ensures InBoard(FindCell(x, y))
  {
    var c := FindCell(x, y);
    assert 0 <= c.0 && 0 <= c.1;
    assert c.0 < Size && c.1 < Size;
  }

  /** Every board cell can be selected: a click at its centre passes the test and finds it. */
  lemma EveryCellSelectable(c: Cell)
    requires InBoard(c)
    ensures OnBoard(BoardMargin + CellSize * c.1 + CellSize / 2, BoardMargin + CellSize * c.0 + CellSize / 2)
    ensures FindCell(BoardMargin + CellSize * c.1 + CellSize / 2, BoardMargin + CellSize * c.0 + CellSize / 2) == c
  {
  }

  /** The characters `__on_key_release` accepts. */
  const DigitKeys: string := "0123456789"

  /** `k in s` on strings: k occurs in s as a contiguous substring. */
  function Occurs(k: string, s: string): bool
    decreases |s|
  {
    (|k| <= |s| && s[..|k|] == k) || (|s| > 0 && Occurs(k, s[1..]))
  }

  /** `k` occurs in `s` starting at position `i`. */
  predicate OccursAt(k: string, s: string, i: int) {
    0 <= i <= |s| - |k| && s[i..i + |k|] == k
  }

  /** The recursive substring test finds exactly the positions where `k` starts in `s`. */
  lemma {:induction false} OccursMeaning(k: string, s: string)
    ensures Occurs(k, s) <==> exists i :: OccursAt(k, s, i)
    decreases |s|
  {
    if |k| <= |s| && s[..|k|] == k {
      assert s[0..|k|] == s[..|k|];
      assert OccursAt(k, s, 0);
    }
    if |s| > 0 {
      OccursMeaning(k, s[1..]);
      if Occurs(k, s[1..]) {
        var i :| OccursAt(k, s[1..], i);
        assert s[1..][i..i + |k|] == s[i + 1..i + 1 + |k|];
        assert OccursAt(k, s, i + 1);
      }
    }
    if i :| OccursAt(k, s, i) {
      if i == 0 {
        assert s[..|k|] == s[0..|k|];
      } else {
        assert s[1..][i - 1..i - 1 + |k|] == s[i..i + |k|];
        assert OccursAt(k, s[1..], i - 1);
      }
    }
  }

  /**
   * The key filter of `__on_key_release` as written: Python's `in` on
   * strings, a substring test, which the empty string passes.
   */
  function KeyFilterAsWritten(key: string): (passes: bool)
    ensures passes <==> exists i :: OccursAt(key, DigitKeys, i)
  {
    OccursMeaning(key, DigitKeys);
    Occurs(key, DigitKeys)
  }

  /** A key whose character is one decimal digit, which `int()` converts. */
  predicate IsDigitKey(key: string) {
    |key| == 1 && PuzzleFile.IsDigitChar(key[0])
  }

  /** `int(event.char)` for a digit key. */
  function DigitOf(key: string): (d: int)
    requires IsDigitKey(key)
    ensures 0 <= d <= 9 && DigitKeys[d] == key[0]
  {
    PuzzleFile.DigitValue(key[0])
  }

  /** A one-character string occurs in s iff it is one of s's characters. */
  lemma {:induction false} OccursSingle(key: string, s: string)
    requires |key| == 1
    ensures Occurs(key, s) <==> key[0] in s
    decreases |s|
  {
    if |s| > 0 {
      OccursSingle(key, s[1..]);
      assert s == [s[0]] + s[1..];
      if key[0] in s && key[0] != s[0] {
        assert key[0] in s[1..];
      }
    }
  }

  /** On one-character keys the filter as written is exactly the digit test. */
  lemma KeyFilterOnCharacters(key: string)
    requires |key| == 1
    ensures KeyFilterAsWritten(key) <==> IsDigitKey(key)
  {
    OccursSingle(key, DigitKeys);
    DigitKeyMember(key[0]);
  }

  lemma DigitKeyMember(c: char)
    ensures c in DigitKeys <==> '0' <= c <= '9'
  {
  }

  /**
   * The empty string, which tkinter reports for keys without a character,
   * passes the filter as written and then reaches `int("")`, which raises.
   */
  lemma EmptyKeyPassesFilter()
    ensures KeyFilterAsWritten("") && !IsDigitKey("")
  {
  }

  /**
   * A key whose character string is "12" also passes the filter as
   * written; `int` turns it into 12, which the move check accepts on an
   * empty board, so line 178 would write a value that is not a digit.
   */
  lemma MultiCharKeyPassesFilter()
    ensures KeyFilterAsWritten("12") && !IsDigitKey("12")
    ensures MoveVerdict(ZeroGrid(), [], (0, 0), 12) == ValidMove
  {
    assert OccursAt("12", DigitKeys, 1);
    var g := ZeroGrid();
    MoveAcceptedIff(g, [], (0, 0), 12);
    forall k | 0 <= k < Size
      ensures g[0][k] != 12 && g[k][0] != 12 && At(g, SelectedBlock((0, 0))[k]) != 12
    {
      assert At(g, (0, k)) == 0 && At(g, (k, 0)) == 0;
    }
  }

  /**
   * Python's `row[i]` on a nine-element list, for -9 <= i < 9: a negative
   * index counts from the end.
   */
  function PyIndex(i: int): (k: int)
    requires -Size <= i < Size
    ensures 0 <= k < Size && k % Size == i % Size
  {
    if i < 0 then i + Size else i
  }

  /**
   * A zero key as `__validate_move` handles it, with the selection read
   * through Python's indexing: the selection is looked up among the
   * protected cells (line 195) and, when absent, the cell it indexes is
   * cleared (line 199). With no cell selected, (-1, -1) indexes (8, 8).
   */
  function ClearAsWritten(g: Grid, protectedCells: seq<Cell>, sel: Cell): (r: (Verdict, Grid))
    requires IsGrid(g) && -Size <= sel.0 < Size && -Size <= sel.1 < Size
    ensures IsGrid(r.1)
    ensures r.0 == ValidMove <==> sel !in protectedCells
    ensures r.0 == ValidMove ==> At(r.1, (PyIndex(sel.0), PyIndex(sel.1))) == 0
    ensures r.0 != ValidMove ==> r.0 == CannotAlterStart && r.1 == g
  {
    if sel in protectedCells then (CannotAlterStart, g)
    else (ValidMove, Put(g, (PyIndex(sel.0), PyIndex(sel.1)), 0))
  }

  /**
   * With no cell selected, a zero key clears cell (8, 8) even when it is
   * one of the puzzle's given cells, which the protected cells exist to
   * forbid.
   */
  lemma UnselectedClearErasesGiven(given: Grid, g: Grid)
    requires IsGrid(given) && IsGrid(g) && At(given, (8, 8)) != 0
    ensures (8, 8) in Givens(given) && (-1, -1) !in Givens(given)
    ensures ClearAsWritten(g, Givens(given), (-1, -1)) == (ValidMove, Put(g, (8, 8), 0))
    ensures At(ClearAsWritten(g, Givens(given), (-1, -1)).1, (8, 8)) != At(given, (8, 8))
  {
    GivensMeaning(given, (8, 8));
    GivensMeaning(given, (-1, -1));
  }

  /** What a key release leads to. */
  datatype KeyOutcome = Ignored | Rejected(reason: Verdict) | Accepted(victory: bool)

  /**
   * The scans of `__validate_move` (a non-zero move, an unprotected cell):
   * row and column together, stopping at the first match, then the cells
   * the block table lists for the selected cell's block.
   */
  method ScanForDuplicate(g: Grid, sel: Cell, move: int, blocks: map<Cell, seq<Cell>>) returns (verdict: Verdict)
    requires IsGrid(g) && InBoard(sel) && IsBlockTable(blocks)
    ensures verdict == DuplicateVerdict(g, sel, move)
  {
    for i := 0 to Size
      invariant LineScan(g, sel, move, 0) == LineScan(g, sel, move, i)
    {
      if g[sel.0][i] == move {
        return DuplicateInRow;
      } else if g[i][sel.1] == move {
        return DuplicateInColumn;
      }
    }
    var blockRow, blockCol := sel.0 / 3, sel.1 / 3;
    var currentBlock := blocks[(blockRow, blockCol)];
    for k := 0 to |currentBlock|
      invariant move !in ValuesIn(g, currentBlock[..k])
    {
      ValuesInPrefixStep(g, currentBlock, k);
      var cell := currentBlock[k];
      if g[cell.0][cell.1] == move {
        ValuesInMeaning(g, currentBlock, move);
        assert At(g, currentBlock[k]) == move;
        return DuplicateInBlock;
      }
    }
    assert currentBlock[..Size] == currentBlock;
    return ValidMove;
  }

  /** The set of values a list of cells holds, added one cell at a time into `check_set`. */
  method GatherValues(g: Grid, cells: seq<Cell>) returns (checkSet: set<int>)
    requires IsGrid(g) && AllInBoard(cells)
    ensures checkSet == ValuesIn(g, cells)
  {
    checkSet := {};
    for k := 0 to |cells|
      invariant checkSet == ValuesIn(g, cells[..k])
    {
      ValuesInPrefixStep(g, cells, k);
      checkSet := checkSet + {g[cells[k].0][cells[k].1]};
    }
    assert cells[..|cells|] == cells;
  }

  /** The first n blocks, in row-major order of their keys, each hold {1..9}. */
  ghost predicate BlocksCompleteBefore(g: Grid, n: int)
    requires IsGrid(g)
  {
    forall bi, bj :: 0 <= bi < 3 && 0 <= bj < 3 && 3 * bi + bj < n ==> ValuesIn(g, BlockCells(bi, bj)) == Digits
  }

  lemma BlocksCompleteStep(g: Grid, i: int, j: int)
    requires IsGrid(g) && IsBlockId((i, j)) && BlocksCompleteBefore(g, 3 * i + j)
    requires ValuesIn(g, BlockCells(i, j)) == Digits
    ensures BlocksCompleteBefore(g, 3 * i + j + 1)
  {
  }

  lemma BlocksCompleteEnds(g: Grid)
    requires IsGrid(g)
    ensures BlocksCompleteBefore(g, 0)
    ensures BlocksCompleteBefore(g, 9) == BlocksComplete(g)
  {
  }

  /** The non-zero values of a list of cells, added one cell at a time: `block_set`, `row_set`, `col_set`. */
  method GatherPlaced(g: Grid, cells: seq<Cell>) returns (placed: set<int>)
    requires IsGrid(g) && AllInBoard(cells)
    ensures placed == PlacedIn(g, cells)
  {
    placed := {};
    for k := 0 to |cells|
      invariant placed == ValuesIn(g, cells[..k]) - {0}
    {
      ValuesInPrefixStep(g, cells, k);
      if g[cells[k].0][cells[k].1] != 0 {
        placed := placed + {g[cells[k].0][cells[k].1]};
      }
    }
    assert cells[..|cells|] == cells;
  }

  /** The three candidate updates, each of which visits the 81 cells once in its own order. */
  datatype Sweep = ByBlock | ByRow | ByCol

  /**
   * The k-th cell of the i-th group a sweep visits: the k-th cell of the
   * i-th block, cell k of row i, or cell k of column i.
   */
  function VisitCell(w: Sweep, i: int, k: int): Cell
    requires 0 <= i < Size && 0 <= k < Size
  {
    match w
    case ByBlock => BlockCells(BlockAt(i).0, BlockAt(i).1)[k]
    case ByRow => (i, k)
    case ByCol => (k, i)
  }

  /** When a sweep visits a board cell, counting from 0. */
  function SweepPos(w: Sweep, cell: Cell): int {
    match w
    case ByBlock => 9 * (3 * BlockOf(cell).0 + BlockOf(cell).1) + IndexInBlock(cell)
    case ByRow => Ord(cell)
    case ByCol => 9 * cell.1 + cell.0
  }

  /** What a sweep writes into one cell's candidate set. */
  function SweepUpdate(w: Sweep, g: Grid, s: set<int>, cell: Cell): set<int>
    requires IsGrid(g) && InBoard(cell)
  {
    match w
    case ByBlock => BlockUpdate(g, s, cell)
    case ByRow => RowUpdate(g, s, cell)
    case ByCol => ColUpdate(g, s, cell)
  }

  /** A sweep applied to every cell: the function each update method is proved against. */
  function SweepStep(w: Sweep, g: Grid, c: Candidates): Candidates
    requires IsGrid(g) && IsCandidates(c)
  {
    match w
    case ByBlock => BlockStep(g, c)
    case ByRow => RowStep(g, c)
    case ByCol => ColStep(g, c)
  }

  /** A per-cell update as a value, so the facts about visiting order need not look inside it. */
  type Update = (Cell, set<int>) -> set<int>

  function UpdateOf(w: Sweep, g: Grid): Update {
    (cell: Cell, s: set<int>) => if IsGrid(g) && InBoard(cell) then SweepUpdate(w, g, s, cell) else s
  }

  /** Every cell of `c` replaced by its update. */
  function UpdateAll(u: Update, c: Candidates): Candidates {
    map cell | cell in c :: u(cell, c[cell])
  }

  lemma UpdateAllIsStep(w: Sweep, g: Grid, c: Candidates)
    requires IsGrid(g) && IsCandidates(c)
    ensures UpdateAll(UpdateOf(w, g), c) == SweepStep(w, g, c)
  {
    var r := UpdateAll(UpdateOf(w, g), c);
    var t := SweepStep(w, g, c);
    assert r.Keys == t.Keys;
    forall cell | cell in c ensures r[cell] == t[cell] {
      assert UpdateOf(w, g)(cell, c[cell]) == SweepUpdate(w, g, c[cell], cell);
    }
  }

  /** Four base-3 digits are determined by the number they write. */
  lemma BaseThreeDigits(a: int, b: int, c: int, d: int, a': int, b': int, c': int, d': int)
    requires 0 <= a < 3 && 0 <= b < 3 && 0 <= c < 3 && 0 <= d < 3
    requires 0 <= a' < 3 && 0 <= b' < 3 && 0 <= c' < 3 && 0 <= d' < 3
    ensures 0 <= 27 * a + 9 * b + 3 * c + d < 81
    ensures 27 * a + 9 * b + 3 * c + d == 27 * a' + 9 * b' + 3 * c' + d' ==> a == a' && b == b' && c == c' && d == d'
  {
  }

  /** Every board cell is visited at a position below 81, and no two at the same one. */
  lemma SweepPosInjective(w: Sweep, d: Cell, e: Cell)
    requires InBoard(d) && InBoard(e)
    ensures 0 <= SweepPos(w, d) < 81
    ensures SweepPos(w, d) == SweepPos(w, e) ==> d == e
  {
    if w == ByBlock {
      BaseThreeDigits(d.0 / 3, d.1 / 3, d.0 % 3, d.1 % 3, e.0 / 3, e.1 / 3, e.0 % 3, e.1 % 3);
    }
  }

  /** The k-th cell of group i is a board cell visited at position 9i + k. */
  lemma VisitCellPos(w: Sweep, i: int, k: int)
    requires 0 <= i < Size && 0 <= k < Size
    ensures InBoard(VisitCell(w, i, k)) && SweepPos(w, VisitCell(w, i, k)) == 9 * i + k
  {
    if w == ByBlock {
      BlockMembersBelong(BlockAt(i).0, BlockAt(i).1, k);
    }
  }

  /** The 81 cells in the order a sweep visits them. */
  function VisitOrder(w: Sweep): (order: seq<Cell>)
    ensures |order| == 81
  {
    seq(81, m requires 0 <= m < 81 => VisitCell(w, m / 9, m % 9))
  }

  /** A visiting order: 81 distinct board cells, covering the board. */
  ghost predicate IsVisitOrder(order: seq<Cell>) {
    && |order| == 81
    && (forall a :: 0 <= a < 81 ==> InBoard(order[a]))
    && (forall a, b :: 0 <= a < b < 81 ==> order[a] != order[b])
  }

  lemma VisitOrderAt(w: Sweep, i: int, k: int)
    requires 0 <= i < Size && 0 <= k < Size
    ensures VisitOrder(w)[9 * i + k] == VisitCell(w, i, k)
  {
    var m := 9 * i + k;
    assert m / 9 == i && m % 9 == k;
  }

  lemma VisitOrderPos(w: Sweep, m: int)
    requires 0 <= m < 81
    ensures InBoard(VisitOrder(w)[m]) && SweepPos(w, VisitOrder(w)[m]) == m
  {
    VisitCellPos(w, m / 9, m % 9);
  }

  lemma VisitOrderIsOrder(w: Sweep)
    ensures IsVisitOrder(VisitOrder(w))
  {
    var order := VisitOrder(w);
    forall a | 0 <= a < 81 ensures InBoard(order[a]) && SweepPos(w, order[a]) == a {
      VisitOrderPos(w, a);
    }
  }

  /** Every board cell is on a sweep's visiting order. */
  lemma VisitOrderCovers(w: Sweep, cell: Cell)
    requires InBoard(cell)
    ensures cell in VisitOrder(w)
  {
    var order := VisitOrder(w);
    SweepPosInjective(w, cell, cell);
    var m := SweepPos(w, cell);
    VisitOrderPos(w, m);
    SweepPosInjective(w, cell, order[m]);
  }

  /** The candidates once the first m cells of `order` have been visited, each replaced by `u` of itself. */
  ghost function Swept(order: seq<Cell>, u: Update, c: Candidates, m: int): Candidates
    requires 0 <= m <= |order|
  {
    if m == 0 then c
    else
      var p := Swept(order, u, c, m - 1);
      var cell := order[m - 1];
      p[cell := u(cell, if cell in p then p[cell] else {})]
  }

  /** After m visits, the visited cells hold their update and the others their original set. */
  lemma {:induction false} SweptMeaning(order: seq<Cell>, u: Update, c: Candidates, m: int, cell: Cell)
    requires IsVisitOrder(order) && IsCandidates(c) && 0 <= m <= 81 && InBoard(cell)
    ensures IsCandidates(Swept(order, u, c, m))
    ensures Swept(order, u, c, m)[cell] == if cell in order[..m] then u(cell, c[cell]) else c[cell]
  {
    if m > 0 {
      var visited := order[m - 1];
      SweptMeaning(order, u, c, m - 1, cell);
      SweptMeaning(order, u, c, m - 1, visited);
      assert order[..m] == order[..m - 1] + [visited];
      assert visited !in order[..m - 1];
    }
  }

  /** One visit of a sweep's loop: the next cell's set is replaced by its update. */
  lemma SweptNext(w: Sweep, u: Update, c: Candidates, m: int)
    requires IsCandidates(c) && 0 <= m < 81
    ensures var order := VisitOrder(w);
      var p := Swept(order, u, c, m);
      && order[m] in p
      && Swept(order, u, c, m + 1) == p[order[m] := u(order[m], p[order[m]])]
  {
    VisitOrderIsOrder(w);
    SweptMeaning(VisitOrder(w), u, c, m, VisitOrder(w)[m]);
  }

  /** A finished sweep has applied the update to every cell. */
  lemma SweptAll(w: Sweep, u: Update, c: Candidates)
    requires IsCandidates(c)
    ensures Swept(VisitOrder(w), u, c, 81) == UpdateAll(u, c)
  {
    var order := VisitOrder(w);
    VisitOrderIsOrder(w);
    var r := Swept(order, u, c, 81);
    SweptMeaning(order, u, c, 81, (0, 0));
    forall cell | InBoard(cell) ensures r[cell] == UpdateAll(u, c)[cell] {
      VisitOrderCovers(w, cell);
      SweptMeaning(order, u, c, 81, cell);
      assert order[..81] == order;
    }
  }

  /** The grid once the commit loop has visited the cells before position m in row-major order. */
  ghost function CommitPartial(g: Grid, c: Candidates, m: int): Grid
    requires IsGrid(g)
  {
    seq(Size, i requires 0 <= i < Size => seq(Size, j requires 0 <= j < Size =>
      if Size * i + j < m then CommitValue(g, c, i, j) else g[i][j]))
  }

  /** Some cell before position m in row-major order has a singleton set. */
  ghost predicate ChangedBefore(c: Candidates, m: int) {
    exists cell :: cell in c && Ord(cell) < m && |c[cell]| == 1
  }

  lemma CommitStep(g: Grid, c: Candidates, i: int, j: int)
    requires IsGrid(g) && IsCandidates(c) && 0 <= i < Size && 0 <= j < Size
    ensures var p := CommitPartial(g, c, Size * i + j);
      var q := CommitPartial(g, c, Size * i + j + 1);
      && IsGrid(p)
      && (|c[(i, j)]| == 1 ==> Put(p, (i, j), Sole(c[(i, j)])) == q && ChangedBefore(c, Size * i + j + 1))
      && (|c[(i, j)]| != 1 ==> p == q && ChangedBefore(c, Size * i + j + 1) == ChangedBefore(c, Size * i + j))
  {
    var p := CommitPartial(g, c, Size * i + j);
    var q := CommitPartial(g, c, Size * i + j + 1);
    if |c[(i, j)]| == 1 {
      assert Ord((i, j)) < Size * i + j + 1;
      var r := Put(p, (i, j), Sole(c[(i, j)]));
      assert forall a :: 0 <= a < Size ==> r[a] == q[a];
    } else {
      assert forall a :: 0 <= a < Size ==> p[a] == q[a];
      if ChangedBefore(c, Size * i + j + 1) {
        var cell :| cell in c && Ord(cell) < Size * i + j + 1 && |c[cell]| == 1;
        assert Ord(cell) < Size * i + j;
      }
    }
  }

  lemma CommitStart(g: Grid, c: Candidates)
    requires IsGrid(g) && IsCandidates(c)
    ensures CommitPartial(g, c, 0) == g && !ChangedBefore(c, 0)
  {
    var p := CommitPartial(g, c, 0);
    assert forall a :: 0 <= a < Size ==> p[a] == g[a];
  }

  lemma CommitEnd(g: Grid, c: Candidates)
    requires IsGrid(g) && IsCandidates(c)
    ensures CommitPartial(g, c, 81) == Commit(g, c)
    ensures ChangedBefore(c, 81) == Changed(c)
  {
    var q := CommitPartial(g, c, 81);
    var h := Commit(g, c);
    forall a | 0 <= a < Size ensures q[a] == h[a] {
      assert forall b :: 0 <= b < Size ==> q[a][b] == h[a][b];
    }
  }

  /** The map the set-up loop of `___solve_puzzle` has built before position m in row-major order. */
  ghost function FullPartial(m: int): Candidates {
    map cell | cell in AllCells() && Ord(cell) < m :: Digits
  }

  lemma FullStep(i: int, j: int)
    requires 0 <= i < Size && 0 <= j < Size
    ensures FullPartial(Size * i + j)[(i, j) := Digits] == FullPartial(Size * i + j + 1)
  {
    AllCellsExact();
  }

  lemma FullEnd()
    ensures FullPartial(0) == map[]
    ensures FullPartial(81) == FullCandidates()
  {
    AllCellsExact();
  }

  /** The opening of `___solve_puzzle`: every cell starts with all nine digits. */
  method FullSets() returns (sets: Candidates)
    ensures sets == FullCandidates()
  {
    sets := map[];
    for i := 0 to Size
      invariant sets == FullPartial(Size * i)
    {
      for j := 0 to Size
        invariant sets == FullPartial(Size * i + j)
      {
        FullStep(i, j);
        sets := sets[(i, j) := Digits];
      }
    }
    FullEnd();
  }

  /** A grid that extends another still holds the givens the first one held. */
  lemma ExtendsKeepsGivens(g: Grid, h: Grid, given: Grid, protected: seq<Cell>)
    requires IsGrid(g) && IsGrid(h) && IsGrid(given) && Extends(g, h)
    requires forall p :: p in protected ==> InBoard(p) && At(given, p) != 0
    requires forall p :: p in protected ==> At(g, p) == At(given, p)
    ensures forall p :: p in protected ==> At(h, p) == At(given, p)
  {
  }

  /** The k-th cell of block (i, j) is a board cell, visited at 27i + 9j + k. */
  lemma BlockVisit(i: int, j: int, k: int)
    requires IsBlockId((i, j)) && 0 <= k < Size
    ensures InBoard(BlockCells(i, j)[k]) && VisitOrder(ByBlock)[27 * i + 9 * j + k] == BlockCells(i, j)[k]
  {
    assert BlockAt(3 * i + j) == (i, j);
    VisitOrderAt(ByBlock, 3 * i + j, k);
    BlockMembersBelong(i, j, k);
  }

  /** The update of the k-th cell of block (i, j) is the branch the loop takes. */
  lemma BlockVisitUpdate(g: Grid, i: int, j: int, k: int, s: set<int>, placed: set<int>)
    requires IsGrid(g) && IsBlockId((i, j)) && 0 <= k < Size
    requires placed == PlacedIn(g, BlockCells(i, j))
    ensures var cell := BlockCells(i, j)[k];
      UpdateOf(ByBlock, g)(cell, s) == if g[cell.0][cell.1] != 0 then {} else s - placed
  {
    BlockMembersBelong(i, j, k);
  }

  /**
   * The body of `__update_preemptive_by_block` for block (i, j), whose cells
   * the loop visits at positions 27i + 9j .. 27i + 9j + 8: each gets ∅ if
   * placed and otherwise loses the values the block has placed.
   */
  method SweepBlock(g: Grid, c: Candidates, sets0: Candidates, i: int, j: int, cells: seq<Cell>, blockSet: set<int>)
    returns (sets: Candidates)
    requires IsGrid(g) && IsCandidates(c) && IsBlockId((i, j))
    requires cells == BlockCells(i, j) && blockSet == PlacedIn(g, cells)
    requires sets0 == Swept(VisitOrder(ByBlock), UpdateOf(ByBlock, g), c, 27 * i + 9 * j)
    ensures sets == Swept(VisitOrder(ByBlock), UpdateOf(ByBlock, g), c, 27 * i + 9 * j + 9)
  {
    ghost var u := UpdateOf(ByBlock, g);
    ghost var order := VisitOrder(ByBlock);
    sets := sets0;
    for k := 0 to |cells|
      invariant sets == Swept(order, u, c, 27 * i + 9 * j + k)
    {
      var cell := cells[k];
      assert InBoard(cell) && cell in sets
        && Swept(order, u, c, 27 * i + 9 * j + k + 1) == sets[cell := u(cell, sets[cell])] by {
        BlockVisit(i, j, k);
        SweptNext(ByBlock, u, c, 27 * i + 9 * j + k);
      }
      BlockVisitUpdate(g, i, j, k, sets[cell], blockSet);
      if g[cell.0][cell.1] != 0 {
        sets := sets[cell := {}];
      } else {
        sets := sets[cell := sets[cell] - blockSet];
      }
    }
  }

  /**
   * `__update_preemptive_by_block`: for each block key (i, j) in row-major
   * order, the block's placed values are gathered from its cell list, then
   * its cells are swept.
   */
  method BlockPass(g: Grid, c: Candidates, blocks: map<Cell, seq<Cell>>) returns (sets: Candidates)
    requires IsGrid(g) && IsCandidates(c) && IsBlockTable(blocks)
    ensures sets == BlockStep(g, c)
  {
    sets := c;
    ghost var u := UpdateOf(ByBlock, g);
    ghost var order := VisitOrder(ByBlock);
    ghost var visited := 0;
    for i := 0 to 3
      invariant visited == 27 * i && sets == Swept(order, u, c, visited)
    {
      for j := 0 to 3
        invariant visited == 27 * i + 9 * j && sets == Swept(order, u, c, visited)
      {
        var cells := blocks[(i, j)];
        var blockSet := GatherPlaced(g, cells);
        sets := SweepBlock(g, c, sets, i, j, cells, blockSet);
        visited := visited + 9;
      }
    }
    assert sets == BlockStep(g, c) by {
      SweptAll(ByBlock, u, c);
      UpdateAllIsStep(ByBlock, g, c);
    }
  }

  /** The update of cell k of row i is the branch the row loop takes. */
  lemma RowVisitUpdate(g: Grid, i: int, k: int, s: set<int>, placed: set<int>)
    requires IsGrid(g) && 0 <= i < Size && 0 <= k < Size
    requires placed == PlacedIn(g, RowCells(i))
    ensures UpdateOf(ByRow, g)((i, k), s) == if g[i][k] != 0 then {} else s - placed
  {
    assert InBoard((i, k)) && At(g, (i, k)) == g[i][k];
    assert UpdateOf(ByRow, g)((i, k), s) == RowUpdate(g, s, (i, k));
  }

  /** The update of cell k of column i is what the column loop assigns. */
  lemma ColVisitUpdate(g: Grid, i: int, k: int, s: set<int>, placed: set<int>)
    requires IsGrid(g) && 0 <= i < Size && 0 <= k < Size
    requires placed == PlacedIn(g, ColCells(i))
    ensures UpdateOf(ByCol, g)((k, i), s) == s - placed
  {
  }

  /**
   * `__update_preemptive_by_row`: for each row, its placed values are
   * gathered, then each of its cells gets ∅ if placed and otherwise loses
   * those values.
   */
  method RowPass(g: Grid, c: Candidates) returns (sets: Candidates)
    requires IsGrid(g) && IsCandidates(c)
    ensures sets == RowStep(g, c)
  {
    sets := c;
    ghost var u := UpdateOf(ByRow, g);
    ghost var order := VisitOrder(ByRow);
    ghost var visited := 0;
    for i := 0 to Size
      invariant visited == 9 * i && sets == Swept(order, u, c, visited)
    {
      var rowSet := GatherPlaced(g, RowCells(i));
      for k := 0 to Size
        invariant visited == 9 * i + k && sets == Swept(order, u, c, visited)
      {
        assert (i, k) in sets && Swept(order, u, c, visited + 1) == sets[(i, k) := u((i, k), sets[(i, k)])] by {
          VisitOrderAt(ByRow, i, k);
          SweptNext(ByRow, u, c, visited);
        }
        RowVisitUpdate(g, i, k, sets[(i, k)], rowSet);
        if g[i][k] != 0 {
          sets := sets[(i, k) := {}];
        } else {
          sets := sets[(i, k) := sets[(i, k)] - rowSet];
        }
        visited := visited + 1;
      }
    }
    assert sets == RowStep(g, c) by {
      SweptAll(ByRow, u, c);
      UpdateAllIsStep(ByRow, g, c);
    }
  }

  /**
   * `__update_preemptive_by_col`: for each column, its placed values are
   * gathered, then every cell of it, placed or not, loses those values.
   */
  method ColPass(g: Grid, c: Candidates) returns (sets: Candidates)
    requires IsGrid(g) && IsCandidates(c)
    ensures sets == ColStep(g, c)
  {
    sets := c;
    ghost var u := UpdateOf(ByCol, g);
    ghost var order := VisitOrder(ByCol);
    ghost var visited := 0;
    for i := 0 to Size
      invariant visited == 9 * i && sets == Swept(order, u, c, visited)
    {
      var colSet := GatherPlaced(g, ColCells(i));
      for k := 0 to Size
        invariant visited == 9 * i + k && sets == Swept(order, u, c, visited)
      {
        assert (k, i) in sets && Swept(order, u, c, visited + 1) == sets[(k, i) := u((k, i), sets[(k, i)])] by {
          VisitOrderAt(ByCol, i, k);
          SweptNext(ByCol, u, c, visited);
        }
        ColVisitUpdate(g, i, k, sets[(k, i)], colSet);
        sets := sets[(k, i) := sets[(k, i)] - colSet];
        visited := visited + 1;
      }
    }
    assert sets == ColStep(g, c) by {
      SweptAll(ByCol, u, c);
      UpdateAllIsStep(ByCol, g, c);
    }
  }

  /**
   * The "add forced" loop of `___solve_puzzle`, in row-major order: every
   * cell whose set has one member receives it (the minimum of a one-element
   * set), and `change` reports whether any did.
   */
  method ForcedPass(g: Grid, c: Candidates) returns (values: Grid, change: bool)
    requires IsGrid(g) && IsCandidates(c)
    ensures values == Commit(g, c)
    ensures change == Changed(c)
  {
    values := g;
    change := false;
    CommitStart(g, c);
    for i := 0 to Size
      invariant values == CommitPartial(g, c, Size * i) && change == ChangedBefore(c, Size * i)
    {
      for j := 0 to Size
        invariant values == CommitPartial(g, c, Size * i + j) && change == ChangedBefore(c, Size * i + j)
      {
        ghost var next := CommitPartial(g, c, Size * i + j + 1);
        assert (|c[(i, j)]| == 1 ==> Put(values, (i, j), Sole(c[(i, j)])) == next && ChangedBefore(c, Size * i + j + 1))
          && (|c[(i, j)]| != 1 ==> values == next && ChangedBefore(c, Size * i + j + 1) == change) by {
          CommitStep(g, c, i, j);
        }
        if |c[(i, j)]| == 1 {
          values := Put(values, (i, j), Sole(c[(i, j)]));
          change := true;
        }
      }
    }
    CommitEnd(g, c);
  }

  class SudokuBoard {
    /** `selected_cell`: (-1, -1) until the first click on the board. */
    var selectedCell: Cell
    /** `puzzle_values`: the nine rows of the board, 0 for an empty cell. */
    var puzzleValues: Grid
    /** `protected_cells`: the given cells of the loaded puzzle. */
    var protectedCells: seq<Cell>
    /** `puzzle_dictionary`: the puzzles read at start-up, by number. */
    var puzzleDictionary: map<int, Grid>
    var puzzleId: int
    /** `blocks`: the cells of each 3x3 block, keyed by block coordinates. */
    var blocks: map<Cell, seq<Cell>>
    /** `preemptive_sets`: the candidate digits of each cell during a solve. */
    var preemptiveSets: Candidates

    /** The fields every handler relies on, whether or not a puzzle is loaded. */
    ghost predicate Ready()
      reads this`puzzleValues, this`blocks, this`puzzleDictionary, this`selectedCell, this`puzzleId, this`protectedCells
    {
      && IsDigitGrid(puzzleValues)
      && IsBlockTable(blocks)
      && (forall id :: id in puzzleDictionary ==> IsDigitGrid(puzzleDictionary[id]))
      && (forall id :: id in puzzleDictionary <==> 0 <= id < |puzzleDictionary|)
      && (selectedCell == (-1, -1) || InBoard(selectedCell))
    }

    /**
     * A puzzle is loaded: the protected cells are exactly the cells its
     * grid fills, and each still holds its given value.
     */
    ghost predicate Valid()
      reads this`puzzleValues, this`blocks, this`puzzleDictionary, this`selectedCell, this`puzzleId, this`protectedCells
    {
      && Ready()
      && puzzleId in puzzleDictionary && IsDigitGrid(puzzleDictionary[puzzleId])
      && (forall p {:trigger p in protectedCells} :: p in protectedCells <==> InBoard(p) && At(puzzleDictionary[puzzleId], p) != 0)
      && (forall p :: p in protectedCells ==> At(puzzleValues, p) == At(puzzleDictionary[puzzleId], p))
    }

    /**
     * `__init__` on the records of the puzzle file: an empty board, the
     * block table, no selection, the puzzles read by `__read_puzzle_csv`,
     * then puzzle 5 loaded. A file that does not read, or that holds fewer
     * than six puzzles, makes the program fail during start-up.
     */
    constructor (records: seq<seq<string>>)
      requires PuzzleFile.ReadPuzzles(records).Success?
      requires 5 in PuzzleFile.ReadPuzzles(records).value
      ensures Valid()
      ensures selectedCell == (-1, -1) && puzzleDictionary == PuzzleFile.ReadPuzzles(records).value
      ensures puzzleId == 5 && puzzleValues == puzzleDictionary[5]
      ensures protectedCells == Givens(puzzleValues)
    {
      selectedCell := (-1, -1);
      puzzleValues := [];
      protectedCells := [];
      var read := PuzzleFile.ReadPuzzleCsv(records);
      assert (forall id :: id in read.value ==> IsDigitGrid(read.value[id]))
        && (forall id :: id in read.value <==> 0 <= id < |read.value|) by {
        PuzzleFile.ReadPuzzlesDigits(records);
      }
      puzzleDictionary := read.value;
      var table := BuildBlockTable();
      BlockTableIsBlockTable();
      blocks := table;
      preemptiveSets := map[];
      new;
      ClearValues();
      LoadPuzzle(5);
    }

    /** `__clear_values`: the board becomes nine rows of nine zeros. */
    method ClearValues()
      modifies this`puzzleValues
      ensures puzzleValues == ZeroGrid()
    {
      var rows: Grid := [];
      for i := 0 to Size
        invariant |rows| == i && forall k :: 0 <= k < i ==> rows[k] == ZeroGrid()[k]
      {
        var row: seq<int> := [];
        for j := 0 to Size
          invariant |row| == j && forall k :: 0 <= k < j ==> row[k] == 0
        {
          row := row + [0];
        }
        assert row == ZeroGrid()[i];
        rows := rows + [row];
      }
      puzzleValues := rows;
    }

    /**
     * `__load_puzzle`: the board becomes a copy of the chosen puzzle and
     * its non-zero cells, in row-major order, become the protected cells.
     */
    method LoadPuzzle(id: int)
      requires Ready() && id in puzzleDictionary
      modifies this`puzzleValues, this`protectedCells, this`puzzleId
      ensures Valid()
      ensures puzzleId == id && puzzleValues == puzzleDictionary[id]
      ensures protectedCells == Givens(puzzleValues)
    {
      protectedCells := [];
      puzzleId := id;
      ClearValues();
      puzzleValues := puzzleDictionary[id];
      var g := puzzleValues;
      var cells: seq<Cell> := [];
      for i := 0 to 9
        invariant cells == GivensInRows(g, i)
      {
        for j := 0 to 9
          invariant cells == GivensInRows(g, i) + GivensInRow(g, i, j)
        {
          if g[i][j] != 0 {
            cells := cells + [(i, j)];
          }
        }
      }
      protectedCells := cells;
      forall p ensures p in protectedCells <==> InBoard(p) && At(puzzleValues, p) != 0 {
        GivensMeaning(puzzleValues, p);
      }
    }

    /**
     * `__on_left_click`: a click strictly inside the board's frame selects
     * the cell under it; any other click changes nothing.
     */
    method OnLeftClick(x: int, y: int)
      requires Valid()
      modifies this`selectedCell
      ensures Valid()
      ensures selectedCell == if OnBoard(x, y) then FindCell(x, y) else old(selectedCell)
    {
      if !OnBoard(x, y) {
        return;
      }
      ClickSelectsBoardCell(x, y);
      selectedCell := FindCell(x, y);
    }

    /**
     * `__validate_move`: the verdict on writing `move` into the selected
     * cell. A protected cell is refused; 0 clears the cell at once;
     * otherwise the row and the column are scanned together, then the block.
     */
    method ValidateMove(move: int) returns (verdict: Verdict)
      requires Valid() && InBoard(selectedCell)
      modifies this`puzzleValues
      ensures Valid()
      ensures verdict == MoveVerdict(old(puzzleValues), protectedCells, selectedCell, move)
      ensures puzzleValues ==
        if selectedCell !in protectedCells && move == 0 then Put(old(puzzleValues), selectedCell, 0)
        else old(puzzleValues)
    {
      var sel := selectedCell;
      if sel in protectedCells {
        return CannotAlterStart;
      }
      if move == 0 {
        puzzleValues := Put(puzzleValues, sel, 0);
        return ValidMove;
      }
      verdict := ScanForDuplicate(puzzleValues, sel, move, blocks);
    }

    /**
     * `__on_key_release` with the key filter corrected to one-digit keys
     * and keys ignored while no cell is selected: any other key is
     * ignored; a digit is validated, written when valid, and a written
     * digit is followed by the victory test.
     */
    method OnKeyRelease(key: string) returns (outcome: KeyOutcome)
      requires Valid()
      modifies this`puzzleValues
      ensures Valid()
      ensures !IsDigitKey(key) || !InBoard(selectedCell) ==> outcome == Ignored && puzzleValues == old(puzzleValues)
      ensures IsDigitKey(key) && InBoard(selectedCell) ==>
        var move := DigitOf(key);
        var verdict := MoveVerdict(old(puzzleValues), protectedCells, selectedCell, move);
        if verdict == ValidMove then
          puzzleValues == Put(old(puzzleValues), selectedCell, move) && outcome == Accepted(IsSolved(puzzleValues))
        else
          puzzleValues == old(puzzleValues) && outcome == Rejected(verdict)
    {
      if !IsDigitKey(key) || !InBoard(selectedCell) {
        return Ignored;
      }
      var move := DigitOf(key);
      var verdict := ValidateMove(move);
      if verdict == ValidMove {
        PutTwice(old(puzzleValues), selectedCell, 0, move);
        puzzleValues := Put(puzzleValues, selectedCell, move);
        var victory := CheckSolved();
        return Accepted(victory);
      }
      return Rejected(verdict);
    }

    /**
     * The row and column phases of `__check_victory`: each row, then each
     * column, is gathered into a fresh set, which must equal {1..9} once
     * its last cell is added.
     */
    method CheckLines() returns (complete: bool)
      requires Ready()
      ensures complete == RowsAndColsComplete(puzzleValues)
    {
      var g := puzzleValues;
      for i := 0 to Size
        invariant forall r :: 0 <= r < i ==> ValuesIn(g, RowCells(r)) == Digits
      {
        var checkSet := GatherValues(g, RowCells(i));
        if checkSet != Digits {
          return false;
        }
      }
      for i := 0 to Size
        invariant forall c :: 0 <= c < i ==> ValuesIn(g, ColCells(c)) == Digits
      {
        var checkSet := GatherValues(g, ColCells(i));
        if checkSet != Digits {
          return false;
        }
      }
      return true;
    }

    /**
     * `__check_victory` as written: the rows and columns are tested; the
     * block phase gathers values but its test asks for the last of nine
     * cells with a block-column index that only runs 0..2, so it never
     * fails and the method accepts any board whose rows and columns are
     * complete (see `LatinSquarePassesVictoryCheck`).
     */
    method CheckVictory() returns (won: bool)
      requires Ready()
      ensures won == RowsAndColsComplete(puzzleValues)
    {
      won := CheckLines();
      if !won {
        return;
      }
      var g := puzzleValues;
      // The source does not clear `check_set` before the first block, so it
      // still holds the last column's values; the test at line 246 never
      // reads it, so starting from {} here changes nothing observable.
      var checkSet: set<int> := {};
      for i := 0 to 3
        invariant won
      {
        for j := 0 to 3
          invariant won
        {
          BlockTableAt((i, j));
          var cellList := blocks[(i, j)];
          for k := 0 to |cellList|
            invariant won
          {
            var cell := cellList[k];
            checkSet := checkSet + {g[cell.0][cell.1]};
            won := won && !(j == Size - 1 && checkSet != Digits);
          }
          checkSet := {};
        }
      }
    }

    /** Each block, in the order of the block table's keys, gathered into a fresh set that must equal {1..9}. */
    method CheckBlocks() returns (complete: bool)
      requires Ready()
      ensures complete == BlocksComplete(puzzleValues)
    {
      var g := puzzleValues;
      BlocksCompleteEnds(g);
      for i := 0 to 3
        invariant BlocksCompleteBefore(g, 3 * i)
      {
        for j := 0 to 3
          invariant BlocksCompleteBefore(g, 3 * i + j)
        {
          var checkSet := GatherValues(g, blocks[(i, j)]);
          if checkSet != Digits {
            return false;
          }
          BlocksCompleteStep(g, i, j);
        }
      }
      return true;
    }

    /**
     * The victory test as intended: the row and column phases of
     * `__check_victory`, then every block must hold {1..9}.
     */
    method CheckSolved() returns (won: bool)
      requires Ready()
      ensures won == IsSolved(puzzleValues)
    {
      won := CheckLines();
      if won {
        won := CheckBlocks();
      }
    }

    /** `__update_preemptive_by_block` on the board's own grid, block table and candidates. */
    method UpdateByBlock()
      requires Valid() && IsCandidates(preemptiveSets)
      modifies this`preemptiveSets
      ensures Valid() && IsCandidates(preemptiveSets)
      ensures preemptiveSets == BlockStep(puzzleValues, old(preemptiveSets))
    {
      preemptiveSets := BlockPass(puzzleValues, preemptiveSets, blocks);
    }

    /** `__update_preemptive_by_row` on the board's own grid and candidates. */
    method UpdateByRow()
      requires Valid() && IsCandidates(preemptiveSets)
      modifies this`preemptiveSets
      ensures Valid() && IsCandidates(preemptiveSets)
      ensures preemptiveSets == RowStep(puzzleValues, old(preemptiveSets))
    {
      preemptiveSets := RowPass(puzzleValues, preemptiveSets);
    }

    /** `__update_preemptive_by_col` on the board's own grid and candidates. */
    method UpdateByCol()
      requires Valid() && IsCandidates(preemptiveSets)
      modifies this`preemptiveSets
      ensures Valid() && IsCandidates(preemptiveSets)
      ensures preemptiveSets == ColStep(puzzleValues, old(preemptiveSets))
    {
      preemptiveSets := ColPass(puzzleValues, preemptiveSets);
    }

    /**
     * One pass of the `while change` loop of `___solve_puzzle`: the block,
     * row and column updates, then the forced values written into the grid.
     */
    method SolveRound() returns (change: bool)
      requires Valid() && WithinDigits(preemptiveSets)
      modifies this`puzzleValues, this`preemptiveSets
      ensures Valid()
      ensures (puzzleValues, preemptiveSets, change) == Round(old(puzzleValues), old(preemptiveSets))
    {
      ghost var g := puzzleValues;
      ghost var c := preemptiveSets;
      ghost var r := Round(g, c);
      assert IsDigitGrid(r.0) && Extends(g, r.0) by {
        RoundAdvances(g, c);
      }
      UpdateByBlock();
      UpdateByRow();
      UpdateByCol();
      assert preemptiveSets == r.1;
      puzzleValues, change := ForcedPass(puzzleValues, preemptiveSets);
      ExtendsKeepsGivens(g, puzzleValues, puzzleDictionary[puzzleId], protectedCells);
    }

    /**
     * `___solve_puzzle`: every cell starts with {1..9}; passes of the three
     * updates and the forced commits repeat until a pass commits nothing;
     * then the victory test runs. The grid and the candidates it leaves are
     * those `Propagate` describes, and the given cells are untouched.
     */
    method SolvePuzzle() returns (victory: bool)
      requires Valid()
      modifies this`puzzleValues, this`preemptiveSets
      ensures Valid()
      ensures (puzzleValues, preemptiveSets) == Propagate(old(puzzleValues), FullCandidates())
      ensures Extends(old(puzzleValues), puzzleValues)
      ensures victory == IsSolved(puzzleValues)
    {
      preemptiveSets := FullSets();
      ghost var target := Propagate(puzzleValues, preemptiveSets);
      var change := true;
      while change
        invariant Valid() && WithinDigits(preemptiveSets)
        invariant Extends(old(puzzleValues), puzzleValues)
        invariant change ==> Propagate(puzzleValues, preemptiveSets) == target
        invariant !change ==> (puzzleValues, preemptiveSets) == target
        decreases ZeroCells(puzzleValues), change
      {
        ghost var g := puzzleValues;
        ghost var c := preemptiveSets;
        change := SolveRound();
        assert && IsDigitGrid(puzzleValues) && WithinDigits(preemptiveSets) && Extends(g, puzzleValues)
          && (change ==> ZeroCells(puzzleValues) < ZeroCells(g) && Propagate(puzzleValues, preemptiveSets) == Propagate(g, c))
          && (!change ==> puzzleValues == g && (puzzleValues, preemptiveSets) == Propagate(g, c)) by {
          RoundAdvances(g, c);
        }
        ExtendsTransitive(old(puzzleValues), g, puzzleValues);
      }
      victory := CheckSolved();
    }

    /** `__on_click_clear`: the current puzzle is loaded again. */
    method OnClickClear()
      requires Valid()
      modifies this`puzzleValues, this`protectedCells, this`puzzleId
      ensures Valid()
      ensures puzzleId == old(puzzleId) && puzzleValues == puzzleDictionary[puzzleId]
      ensures protectedCells == Givens(puzzleValues)
    {
      LoadPuzzle(puzzleId);
    }

    /**
     * `__on_click_new_puzzle`, given the number `random.choice` drew from
     * 0 .. len(puzzle_dictionary) - 1: that puzzle is loaded.
     */
    method OnClickNewPuzzle(choice: int)
      requires Valid() && 0 <= choice < |puzzleDictionary|
      modifies this`puzzleValues, this`protectedCells, this`puzzleId
      ensures Valid()
      ensures puzzleId == choice && puzzleValues == puzzleDictionary[choice]
      ensures protectedCells == Givens(puzzleValues)
    {
      LoadPuzzle(choice);
    }
  }
}
