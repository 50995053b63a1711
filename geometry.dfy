/**
 * The fixed geometry of the 9x9 board: cells, grids of values, rows,
 * columns, the nine 3x3 blocks and the sets of values they hold.
 */
module Geometry {

  /** A (row, column) coordinate, as the source's tuple keys. */
  type Cell = (int, int)

  /** The board as a list of nine rows of nine integers (0 = empty). */
  type Grid = seq<seq<int>>

  /** NUM_CELLS: cells per row and per column. */
  const Size: int := 9

  /** set(range(1, 10)): the digits a completed row, column or block holds. */
  const Digits: set<int> := {1, 2, 3, 4, 5, 6, 7, 8, 9}

  predicate InBoard(c: Cell) {
    0 <= c.0 < Size && 0 <= c.1 < Size
  }

  predicate IsGrid(g: Grid) {
    |g| == Size && forall i :: 0 <= i < Size ==> |g[i]| == Size
  }

  /** A grid whose every cell holds 0 (empty) or a digit 1..9. */
  predicate IsDigitGrid(g: Grid) {
    IsGrid(g) && forall i, j :: 0 <= i < Size && 0 <= j < Size ==> 0 <= g[i][j] <= 9
  }

  function At(g: Grid, c: Cell): int
    requires IsGrid(g) && InBoard(c)
  {
    g[c.0][c.1]
  }

  /** The grid with cell `c` overwritten by `v`. */
  function Put(g: Grid, c: Cell, v: int): (r: Grid)
    requires IsGrid(g) && InBoard(c)
    ensures IsGrid(r)
    ensures forall d {:trigger At(r, d)} :: InBoard(d) ==> At(r, d) == if d == c then v else At(g, d)
  {
    g[c.0 := g[c.0][c.1 := v]]
  }

  /** Writing a cell twice leaves the second value. */
  lemma PutTwice(g: Grid, c: Cell, v: int, w: int)
    requires IsGrid(g) && InBoard(c)
    ensures Put(Put(g, c, v), c, w) == Put(g, c, w)
  {
    assert Put(g, c, v)[c.0][c.1 := w] == g[c.0][c.1 := w];
  }

  /** The grid of 81 zeros that `__clear_values` builds. */
  function ZeroGrid(): (g: Grid)
    ensures IsDigitGrid(g) && forall c {:trigger At(g, c)} :: InBoard(c) ==> At(g, c) == 0
  {
    seq(Size, i => seq(Size, j => 0))
  }

  predicate AllInBoard(cells: seq<Cell>) {
    forall k :: 0 <= k < |cells| ==> InBoard(cells[k])
  }

  /** The cells of row `i`, left to right. */
  function RowCells(i: int): (cells: seq<Cell>)
    ensures |cells| == Size
    ensures 0 <= i < Size ==> AllInBoard(cells)
  {
    seq(Size, j => (i, j))
  }

  /** The cells of column `j`, top to bottom. */
  function ColCells(j: int): (cells: seq<Cell>)
    ensures |cells| == Size
    ensures 0 <= j < Size ==> AllInBoard(cells)
  {
    seq(Size, i => (i, j))
  }

  /**
   * The list `blocks[(bi, bj)]` built in `__init__`: the offsets (a, b),
   * a and b in 0..2 in row-major order, shifted by (3 * bi, 3 * bj).
   */
  function BlockCells(bi: int, bj: int): (cells: seq<Cell>)
    ensures |cells| == Size
    ensures 0 <= bi < 3 && 0 <= bj < 3 ==> AllInBoard(cells)
  {
    seq(Size, k => (k / 3 + 3 * bi, k % 3 + 3 * bj))
  }

  /** The key of the block that holds cell `c`, as `__validate_move` computes it. */
  function BlockOf(c: Cell): Cell {
    (c.0 / 3, c.1 / 3)
  }

  /** The position of cell `c` inside the list of its block. */
  function IndexInBlock(c: Cell): int {
    (c.0 % 3) * 3 + c.1 % 3
  }

  predicate IsBlockId(b: Cell) {
    0 <= b.0 < 3 && 0 <= b.1 < 3
  }

  /** The keys of the block table. */
  function BlockIds(): set<Cell> {
    set i, j | 0 <= i < 3 && 0 <= j < 3 :: (i, j)
  }

  /** The block table `self.blocks` as `__init__` leaves it. */
  function BlockTable(): map<Cell, seq<Cell>> {
    map b | b in BlockIds() :: BlockCells(b.0, b.1)
  }

  /** A table keyed by the nine block keys, each holding its block's list. */
  ghost predicate IsBlockTable(t: map<Cell, seq<Cell>>) {
    && (forall b {:trigger b in t} :: b in t <==> IsBlockId(b))
    && (forall b :: b in t ==> t[b] == BlockCells(b.0, b.1))
  }

  lemma BlockTableIsBlockTable()
    ensures IsBlockTable(BlockTable())
  {
    forall b ensures b in BlockTable() <==> IsBlockId(b) {
      BlockIdsAreBlocks(b);
    }
  }

  /** The table holds, under each block key, that block's list. */
  lemma BlockTableAt(b: Cell)
    requires IsBlockId(b)
    ensures b in BlockTable() && BlockTable()[b] == BlockCells(b.0, b.1)
  {
    BlockIdsAreBlocks(b);
  }

  /** The 81 cells of the board: the keys of the candidate map. */
  function AllCells(): set<Cell> {
    set i, j | 0 <= i < Size && 0 <= j < Size :: (i, j)
  }

  lemma AllCellsAreBoard(c: Cell)
    ensures c in AllCells() <==> InBoard(c)
  {
    if InBoard(c) {
      assert c == (c.0, c.1);
    }
  }

  lemma BlockIdsAreBlocks(b: Cell)
    ensures b in BlockIds() <==> IsBlockId(b)
  {
    if IsBlockId(b) {
      assert b == (b.0, b.1);
    }
  }

  /** Every cell of the board sits in the block `BlockOf` names, at position `IndexInBlock`. */
  lemma CellInItsBlock(c: Cell)
    requires InBoard(c)
    ensures IsBlockId(BlockOf(c)) && 0 <= IndexInBlock(c) < Size
    ensures BlockCells(BlockOf(c).0, BlockOf(c).1)[IndexInBlock(c)] == c
  {
  }

  /** Every member of a block's list is a board cell whose block is that block. */
  lemma BlockMembersBelong(bi: int, bj: int, k: int)
    requires IsBlockId((bi, bj)) && 0 <= k < Size
    ensures InBoard(BlockCells(bi, bj)[k])
    ensures BlockOf(BlockCells(bi, bj)[k]) == (bi, bj)
    ensures IndexInBlock(BlockCells(bi, bj)[k]) == k
  {
  }

  /**
   * The nine blocks partition the board: a board cell lies in the list of
   * block b exactly when b is the block `BlockOf` computes for it.
   */
  lemma BlocksPartitionBoard(c: Cell, b: Cell)
    requires InBoard(c) && b in BlockIds()
    ensures c in BlockTable()[b] <==> b == BlockOf(c)
  {
    BlockIdsAreBlocks(b);
    var cells := BlockTable()[b];
    if c in cells {
      var k :| 0 <= k < |cells| && cells[k] == c;
      BlockMembersBelong(b.0, b.1, k);
    }
    if b == BlockOf(c) {
      CellInItsBlock(c);
    }
  }

  /** Block (i, j) holds exactly the cells (a + 3i, b + 3j) for a, b in 0..2. */
  lemma BlockCellsExact(i: int, j: int, c: Cell)
    requires IsBlockId((i, j))
    ensures c in BlockCells(i, j) <==> 3 * i <= c.0 < 3 * i + 3 && 3 * j <= c.1 < 3 * j + 3
  {
    var cells := BlockCells(i, j);
    if 3 * i <= c.0 < 3 * i + 3 && 3 * j <= c.1 < 3 * j + 3 {
      assert cells[3 * (c.0 - 3 * i) + (c.1 - 3 * j)] == c;
    }
  }

  /**
   * The set of values a list of cells holds, as the source's `check_set`
   * accumulates them (empty cells included, as 0).
   */
  function ValuesIn(g: Grid, cells: seq<Cell>): set<int>
    requires IsGrid(g) && AllInBoard(cells)
  {
    if cells == [] then {}
    else ValuesIn(g, cells[..|cells| - 1]) + {At(g, cells[|cells| - 1])}
  }

  /**
   * The non-zero values a list of cells holds: `row_set`, `col_set` and
   * `block_set` of the candidate updates.
   */
  function PlacedIn(g: Grid, cells: seq<Cell>): set<int>
    requires IsGrid(g) && AllInBoard(cells)
  {
    ValuesIn(g, cells) - {0}
  }

  lemma {:induction false} ValuesInMeaning(g: Grid, cells: seq<Cell>, v: int)
    requires IsGrid(g) && AllInBoard(cells)
    ensures v in ValuesIn(g, cells) <==> exists k :: 0 <= k < |cells| && At(g, cells[k]) == v
  {
    if cells != [] {
      var n := |cells| - 1;
      ValuesInMeaning(g, cells[..n], v);
      if v in ValuesIn(g, cells[..n]) {
        var k :| 0 <= k < n && At(g, cells[..n][k]) == v;
        assert cells[k] == cells[..n][k];
      }
      if exists k :: 0 <= k < |cells| && At(g, cells[k]) == v {
        var k :| 0 <= k < |cells| && At(g, cells[k]) == v;
        if k < n {
          assert cells[..n][k] == cells[k];
        }
      }
    }
  }

  /** A value is placed among `cells` iff it is non-zero and some cell of the list holds it. */
  lemma PlacedInMeaning(g: Grid, cells: seq<Cell>, v: int)
    requires IsGrid(g) && AllInBoard(cells)
    ensures v in PlacedIn(g, cells) <==> v != 0 && exists k :: 0 <= k < |cells| && At(g, cells[k]) == v
  {
    ValuesInMeaning(g, cells, v);
  }

  /** Adding one more cell to the scanned prefix adds its value: the step of an accumulating loop. */
  lemma ValuesInPrefixStep(g: Grid, cells: seq<Cell>, k: int)
    requires IsGrid(g) && AllInBoard(cells) && 0 <= k < |cells|
    ensures ValuesIn(g, cells[..k + 1]) == ValuesIn(g, cells[..k]) + {At(g, cells[k])}
  {
    assert cells[..k + 1][..k] == cells[..k];
  }

  function RowPlaced(g: Grid, i: int): set<int>
    requires IsGrid(g) && 0 <= i < Size
  {
    PlacedIn(g, RowCells(i))
  }

  function ColPlaced(g: Grid, j: int): set<int>
    requires IsGrid(g) && 0 <= j < Size
  {
    PlacedIn(g, ColCells(j))
  }

  function BlockPlaced(g: Grid, b: Cell): set<int>
    requires IsGrid(g) && IsBlockId(b)
  {
    PlacedIn(g, BlockCells(b.0, b.1))
  }

  /** `h` keeps every value `g` has placed: cells only go from empty to filled. */
  ghost predicate Extends(g: Grid, h: Grid)
    requires IsGrid(g) && IsGrid(h)
  {
    forall c {:trigger At(h, c)} {:trigger At(g, c)} :: InBoard(c) && At(g, c) != 0 ==> At(h, c) == At(g, c)
  }

  /** Filling empty cells can only add to the values placed among a list of cells. */
  lemma {:induction false} PlacedInGrows(g: Grid, h: Grid, cells: seq<Cell>)
    requires IsGrid(g) && IsGrid(h) && AllInBoard(cells) && Extends(g, h)
    ensures PlacedIn(g, cells) <= PlacedIn(h, cells)
  {
    if cells != [] {
      var n := |cells| - 1;
      PlacedInGrows(g, h, cells[..n]);
      assert ValuesIn(g, cells) == ValuesIn(g, cells[..n]) + {At(g, cells[n])};
      assert ValuesIn(h, cells) == ValuesIn(h, cells[..n]) + {At(h, cells[n])};
      assert At(g, cells[n]) != 0 ==> At(h, cells[n]) == At(g, cells[n]);
      forall v | v in PlacedIn(g, cells) ensures v in PlacedIn(h, cells) {
        if v != At(g, cells[n]) {
          assert v in PlacedIn(g, cells[..n]);
        }
      }
    }
  }
}
