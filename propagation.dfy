/**
 * The solving assistant as values: one pass of `___solve_puzzle` is the
 * three candidate updates (block, row, column) followed by committing every
 * singleton candidate set; the solver repeats passes until one commits
 * nothing.
 */
module Propagation {
  import opened Geometry

  /** `self.preemptive_sets`: a candidate set per board cell. */
  type Candidates = map<Cell, set<int>>

  /** The map has exactly the 81 board cells as keys. */
  ghost predicate IsCandidates(c: Candidates) {
    forall cell {:trigger cell in c} :: cell in c <==> InBoard(cell)
  }

  /** A candidate map whose sets hold only digits 1..9. */
  ghost predicate WithinDigits(c: Candidates) {
    IsCandidates(c) && forall cell :: cell in c ==> c[cell] <= Digits
  }

  lemma AllCellsExact()
    ensures forall cell :: cell in AllCells() <==> InBoard(cell)
  {
    forall cell ensures cell in AllCells() <==> InBoard(cell) {
      AllCellsAreBoard(cell);
    }
  }

  /** The map `___solve_puzzle` starts from: {1..9} for every cell. */
  function FullCandidates(): (c: Candidates)
    ensures WithinDigits(c)
    ensures forall cell :: cell in c ==> c[cell] == Digits
  {
    AllCellsExact();
    map cell | cell in AllCells() :: Digits
  }

  /** The block update of one cell: a placed cell gets ∅, an empty one loses its block's values. */
  function BlockUpdate(g: Grid, s: set<int>, cell: Cell): set<int>
    requires IsGrid(g) && InBoard(cell)
  {
    if At(g, cell) != 0 then {} else s - BlockPlaced(g, BlockOf(cell))
  }

  /** The row update of one cell: a placed cell gets ∅, an empty one loses its row's values. */
  function RowUpdate(g: Grid, s: set<int>, cell: Cell): set<int>
    requires IsGrid(g) && InBoard(cell)
  {
    if At(g, cell) != 0 then {} else s - RowPlaced(g, cell.0)
  }

  /** The column update of one cell: every cell, placed or not, loses its column's values. */
  function ColUpdate(g: Grid, s: set<int>, cell: Cell): set<int>
    requires IsGrid(g) && InBoard(cell)
  {
    s - ColPlaced(g, cell.1)
  }

  /** `__update_preemptive_by_block` applied to every cell. */
  function BlockStep(g: Grid, c: Candidates): Candidates
    requires IsGrid(g) && IsCandidates(c)
  {
    map cell | cell in c :: BlockUpdate(g, c[cell], cell)
  }

  /** `__update_preemptive_by_row` applied to every cell. */
  function RowStep(g: Grid, c: Candidates): Candidates
    requires IsGrid(g) && IsCandidates(c)
  {
    map cell | cell in c :: RowUpdate(g, c[cell], cell)
  }

  /** `__update_preemptive_by_col` applied to every cell. */
  function ColStep(g: Grid, c: Candidates): Candidates
    requires IsGrid(g) && IsCandidates(c)
  {
    map cell | cell in c :: ColUpdate(g, c[cell], cell)
  }

  /** The three updates of one pass, in the order the solver runs them. */
  function Eliminate(g: Grid, c: Candidates): Candidates
    requires IsGrid(g) && IsCandidates(c)
  {
    ColStep(g, RowStep(g, BlockStep(g, c)))
  }

  /** Every value already placed in the row, column or block of `cell`. */
  function Peers(g: Grid, cell: Cell): set<int>
    requires IsGrid(g) && InBoard(cell)
  {
    BlockPlaced(g, BlockOf(cell)) + RowPlaced(g, cell.0) + ColPlaced(g, cell.1)
  }

  /**
   * After one pass's updates a placed cell has no candidates, and an empty
   * cell keeps exactly the candidates no peer has placed; no set grows.
   */
  lemma EliminateMeaning(g: Grid, c: Candidates, cell: Cell)
    requires IsGrid(g) && IsCandidates(c) && InBoard(cell)
    ensures IsCandidates(Eliminate(g, c))
    ensures Eliminate(g, c)[cell] == if At(g, cell) != 0 then {} else c[cell] - Peers(g, cell)
    ensures Eliminate(g, c)[cell] <= c[cell]
  {
    var b := BlockStep(g, c);
    StepsAt(g, c, cell);
    var r := RowStep(g, b);
    StepsAt(g, b, cell);
    StepsAt(g, r, cell);
    SubtractThree(c[cell], BlockPlaced(g, BlockOf(cell)), RowPlaced(g, cell.0), ColPlaced(g, cell.1));
  }

  lemma SubtractThree(s: set<int>, x: set<int>, y: set<int>, z: set<int>)
    ensures s - x - y - z == s - (x + y + z)
  {
  }

  /** Each update keeps the 81 board cells as keys and changes a cell's set as its loop does. */
  lemma StepsAt(g: Grid, c: Candidates, cell: Cell)
    requires IsGrid(g) && IsCandidates(c) && InBoard(cell)
    ensures IsCandidates(BlockStep(g, c)) && IsCandidates(RowStep(g, c)) && IsCandidates(ColStep(g, c))
    ensures BlockStep(g, c)[cell] == if At(g, cell) != 0 then {} else c[cell] - BlockPlaced(g, BlockOf(cell))
    ensures RowStep(g, c)[cell] == if At(g, cell) != 0 then {} else c[cell] - RowPlaced(g, cell.0)
    ensures ColStep(g, c)[cell] == c[cell] - ColPlaced(g, cell.1)
  {
  }

  lemma {:induction false} SingletonUnique(s: set<int>, a: int, b: int)
    requires |s| == 1 && a in s && b in s
    ensures a == b
  {
    var rest := s - {a};
    assert |rest| == 0;
  }

  /** A one-element set has a member, and any two of its members are equal. */
  lemma SingletonFacts(s: set<int>)
    requires |s| == 1
    ensures exists x :: x in s
    ensures forall a, b :: a in s && b in s ==> a == b
  {
    assert s != {};
    forall a, b | a in s && b in s ensures a == b {
      SingletonUnique(s, a, b);
    }
  }

  /** `min(s)` of a one-element set: its only member. */
  function Sole(s: set<int>): (x: int)
    requires |s| == 1
    ensures x in s
  {
    SingletonFacts(s);
    var x :| x in s;
    x
  }

  lemma SoleIsOnly(s: set<int>)
    requires |s| == 1
    ensures s == {Sole(s)}
  {
    forall y | y in s ensures y == Sole(s) {
      SingletonUnique(s, Sole(s), y);
    }
  }

  /** The value the commit loop leaves at (i, j): the member of a singleton set, else the old value. */
  function CommitValue(g: Grid, c: Candidates, i: int, j: int): int {
    if (i, j) in c && |c[(i, j)]| == 1 then Sole(c[(i, j)])
    else if 0 <= i < |g| && 0 <= j < |g[i]| then g[i][j]
    else 0
  }

  /** The commit loop of a pass: every cell whose set is a singleton receives its member. */
  function Commit(g: Grid, c: Candidates): (h: Grid)
    ensures IsGrid(h)
  {
    seq(Size, i => seq(Size, j => CommitValue(g, c, i, j)))
  }

  lemma CommitAt(g: Grid, c: Candidates, cell: Cell)
    requires IsGrid(g) && IsCandidates(c) && InBoard(cell)
    ensures At(Commit(g, c), cell) == if |c[cell]| == 1 then Sole(c[cell]) else At(g, cell)
  {
    assert cell == (cell.0, cell.1);
  }

  /** Some candidate set is a singleton: the pass sets `change = True`. */
  predicate Changed(c: Candidates) {
    exists cell :: cell in c && |c[cell]| == 1
  }

  /** The board cells still holding 0. */
  function ZeroCells(g: Grid): set<Cell>
    requires IsGrid(g)
  {
    set i, j | 0 <= i < Size && 0 <= j < Size && g[i][j] == 0 :: (i, j)
  }

  /**
   * The state after a pass's three updates: candidates within 1..9, and
   * every cell already holding a value has an empty candidate set.
   */
  ghost predicate Settled(g: Grid, c: Candidates)
    requires IsGrid(g)
  {
    WithinDigits(c) && forall cell {:trigger c[cell]} {:trigger At(g, cell)} :: InBoard(cell) && At(g, cell) != 0 ==> c[cell] == {}
  }

  /**
   * The block and row updates reset a placed cell to ∅ and the column update
   * only subtracts, so after the three updates placed cells hold ∅ and every
   * set stays within 1..9.
   */
  lemma EliminateSettles(g: Grid, c: Candidates)
    requires IsGrid(g) && WithinDigits(c)
    ensures Settled(g, Eliminate(g, c))
  {
    forall cell | InBoard(cell)
      ensures Eliminate(g, c)[cell] <= Digits && (At(g, cell) != 0 ==> Eliminate(g, c)[cell] == {})
    {
      EliminateMeaning(g, c, cell);
    }
  }

  /**
   * The commit writes only cells that were empty when the pass began, and
   * writes a digit 1..9 there.
   */
  lemma CommitWritesEmptyCell(g: Grid, c: Candidates, cell: Cell)
    requires IsGrid(g) && Settled(g, c) && InBoard(cell)
    ensures var v := At(Commit(g, c), cell);
      v != At(g, cell) ==> At(g, cell) == 0 && 1 <= v <= 9 && c[cell] == {v}
    ensures At(g, cell) == 0 && |c[cell]| == 1 ==> At(Commit(g, c), cell) != 0
  {
    CommitAt(g, c, cell);
    if |c[cell]| == 1 {
      var v := Sole(c[cell]);
      SoleIsOnly(c[cell]);
      assert At(g, cell) == 0 by {
        assert c[cell] != {};
      }
      assert v in Digits;
    }
  }

  /** The grid the commit produces is a digit grid that keeps every filled cell. */
  lemma CommitExtends(g: Grid, c: Candidates)
    requires IsDigitGrid(g) && Settled(g, c)
    ensures IsDigitGrid(Commit(g, c)) && Extends(g, Commit(g, c))
  {
    var h := Commit(g, c);
    forall i, j | 0 <= i < Size && 0 <= j < Size ensures 0 <= h[i][j] <= 9 {
      CommitWritesEmptyCell(g, c, (i, j));
    }
    forall cell | InBoard(cell) && At(g, cell) != 0 ensures At(h, cell) == At(g, cell) {
      CommitWritesEmptyCell(g, c, cell);
    }
  }

  /**
   * A pass that sets `change` fills at least one empty cell, so the set of
   * empty cells strictly shrinks and the solve loop terminates; a pass that
   * does not set it leaves the grid as it was.
   */
  lemma CommitFillsEmptyCells(g: Grid, c: Candidates)
    requires IsDigitGrid(g) && Settled(g, c)
    ensures var h := Commit(g, c);
      && IsDigitGrid(h) && Extends(g, h)
      && (Changed(c) ==> ZeroCells(h) < ZeroCells(g))
      && (!Changed(c) ==> h == g)
  {
    var h := Commit(g, c);
    CommitExtends(g, c);
    forall cell | cell in ZeroCells(h) ensures cell in ZeroCells(g) {
      var i, j :| 0 <= i < Size && 0 <= j < Size && h[i][j] == 0 && cell == (i, j);
      CommitWritesEmptyCell(g, c, cell);
    }
    if Changed(c) {
      var cell :| cell in c && |c[cell]| == 1;
      CommitWritesEmptyCell(g, c, cell);
      assert cell == (cell.0, cell.1);
      assert cell in ZeroCells(g);
      assert cell !in ZeroCells(h);
    } else {
      forall i, j | 0 <= i < Size && 0 <= j < Size ensures h[i][j] == g[i][j] {
        CommitAt(g, c, (i, j));
      }
      assert forall i :: 0 <= i < Size ==> h[i] == g[i];
    }
  }

  /**
   * `___solve_puzzle`: passes until one commits nothing. Returns the final
   * grid and the candidate map the last pass left.
   */
  function Propagate(g: Grid, c: Candidates): (r: (Grid, Candidates))
    requires IsDigitGrid(g) && WithinDigits(c)
    ensures IsDigitGrid(r.0) && WithinDigits(r.1) && Extends(g, r.0)
    decreases ZeroCells(g)
  {
    var c1 := Eliminate(g, c);
    EliminateSettles(g, c);
    CommitFillsEmptyCells(g, c1);
    if Changed(c1) then
      var r := Propagate(Commit(g, c1), c1);
      ExtendsTransitive(g, Commit(g, c1), r.0);
      r
    else
      (g, c1)
  }

  /**
   * One pass of the solver loop: the candidates after the three sweeps, the
   * grid after the forced values are written, and whether any was.
   */
  function Round(g: Grid, c: Candidates): (Grid, Candidates, bool)
    requires IsGrid(g) && IsCandidates(c)
  {
    var c1 := Eliminate(g, c);
    (Commit(g, c1), c1, Changed(c1))
  }

  /**
   * A pass keeps the grid a digit grid extending the old one; a pass that
   * commits something empties a cell less and leaves `Propagate` where it
   * was, and a pass that commits nothing is where `Propagate` stops.
   */
  lemma RoundAdvances(g: Grid, c: Candidates)
    requires IsDigitGrid(g) && WithinDigits(c)
    ensures var r := Round(g, c);
      && IsDigitGrid(r.0) && WithinDigits(r.1) && Extends(g, r.0)
      && (r.2 ==> ZeroCells(r.0) < ZeroCells(g) && Propagate(r.0, r.1) == Propagate(g, c))
      && (!r.2 ==> r.0 == g && (r.0, r.1) == Propagate(g, c))
  {
    EliminateSettles(g, c);
    CommitFillsEmptyCells(g, Eliminate(g, c));
  }

  lemma ExtendsTransitive(g: Grid, h: Grid, k: Grid)
    requires IsGrid(g) && IsGrid(h) && IsGrid(k) && Extends(g, h) && Extends(h, k)
    ensures Extends(g, k)
  {
  }

  /** The grid the solve button leaves, starting from the full candidate map. */
  function Solve(g: Grid): Grid
    requires IsDigitGrid(g)
  {
    Propagate(g, FullCandidates()).0
  }

  /** Cell `k` of the row, of the column or of the block of `cell` holds `v`. */
  predicate PeerHolds(g: Grid, cell: Cell, k: int, v: int)
    requires IsGrid(g) && InBoard(cell) && 0 <= k < Size
  {
    g[cell.0][k] == v || g[k][cell.1] == v || At(g, BlockCells(BlockOf(cell).0, BlockOf(cell).1)[k]) == v
  }

  /** A value is among a cell's peers iff it is non-zero and its row, column or block holds it. */
  lemma PeersMeaning(g: Grid, cell: Cell, v: int)
    requires IsGrid(g) && InBoard(cell)
    ensures v in Peers(g, cell) <==> v != 0 && exists k :: 0 <= k < Size && PeerHolds(g, cell, k, v)
  {
    PlacedInMeaning(g, RowCells(cell.0), v);
    PlacedInMeaning(g, ColCells(cell.1), v);
    PlacedInMeaning(g, BlockCells(BlockOf(cell).0, BlockOf(cell).1), v);
    if v in Peers(g, cell) {
      var k :| 0 <= k < Size && (At(g, RowCells(cell.0)[k]) == v || At(g, ColCells(cell.1)[k]) == v ||
        At(g, BlockCells(BlockOf(cell).0, BlockOf(cell).1)[k]) == v);
      assert PeerHolds(g, cell, k, v);
    }
    if v != 0 && exists k :: 0 <= k < Size && PeerHolds(g, cell, k, v) {
      var k :| 0 <= k < Size && PeerHolds(g, cell, k, v);
      assert At(g, RowCells(cell.0)[k]) == g[cell.0][k];
      assert At(g, ColCells(cell.1)[k]) == g[k][cell.1];
    }
  }

  /**
   * A value a pass commits at a cell differs from every value in that
   * cell's row, column and block as they stood when the pass began.
   */
  lemma CommitExcludesPeers(g: Grid, c: Candidates, cell: Cell)
    requires IsDigitGrid(g) && WithinDigits(c) && InBoard(cell)
    ensures var v := At(Commit(g, Eliminate(g, c)), cell);
      v != At(g, cell) ==>
        At(g, cell) == 0 && 1 <= v <= 9 && forall k :: 0 <= k < Size ==> !PeerHolds(g, cell, k, v)
  {
    var c1 := Eliminate(g, c);
    EliminateSettles(g, c);
    CommitWritesEmptyCell(g, c1, cell);
    var v := At(Commit(g, c1), cell);
    if v != At(g, cell) {
      EliminateMeaning(g, c, cell);
      assert c1[cell] == {v};
      assert v !in Peers(g, cell);
      PeersMeaning(g, cell, v);
    }
  }

  /**
   * The candidate map covers grid `g`: every empty cell still has every
   * digit its peers have not placed.
   */
  ghost predicate Covers(g: Grid, c: Candidates)
    requires IsGrid(g) && IsCandidates(c)
  {
    forall cell {:trigger c[cell]} {:trigger At(g, cell)} :: InBoard(cell) && At(g, cell) == 0 ==> Digits - Peers(g, cell) <= c[cell]
  }

  /** Every empty cell holds exactly the digits its peers have not placed. */
  ghost predicate Tight(g: Grid, c: Candidates)
    requires IsGrid(g) && IsCandidates(c)
  {
    forall cell {:trigger c[cell]} {:trigger At(g, cell)} :: InBoard(cell) && At(g, cell) == 0 ==> c[cell] == Digits - Peers(g, cell)
  }

  /** The full map covers every grid. */
  lemma FullCovers(g: Grid)
    requires IsGrid(g)
    ensures Covers(g, FullCandidates())
  {
  }

  /** A set between {1..9} minus `p` and {1..9}, minus `p`, is {1..9} minus `p`. */
  lemma TrimmedCover(s: set<int>, p: set<int>)
    requires Digits - p <= s <= Digits
    ensures s - p == Digits - p
  {
  }

  /** On a covering map within 1..9, a pass's updates leave exactly the unexcluded digits. */
  lemma EliminateTight(g: Grid, c: Candidates)
    requires IsGrid(g) && WithinDigits(c) && Covers(g, c)
    ensures Settled(g, Eliminate(g, c)) && Tight(g, Eliminate(g, c))
  {
    EliminateSettles(g, c);
    var e := Eliminate(g, c);
    forall cell | InBoard(cell) && At(g, cell) == 0
      ensures e[cell] == Digits - Peers(g, cell)
    {
      EliminateMeaning(g, c, cell);
      TrimmedCover(c[cell], Peers(g, cell));
    }
  }

  /**
   * Candidate sets are built once, before the loop, and only ever shrink;
   * yet on a covering map a pass's updates compute exactly what they would
   * compute from fresh {1..9} sets.
   */
  lemma EliminateForgetsHistory(g: Grid, c: Candidates)
    requires IsDigitGrid(g) && WithinDigits(c) && Covers(g, c)
    ensures Eliminate(g, c) == Eliminate(g, FullCandidates())
  {
    var full := FullCandidates();
    EliminateTight(g, c);
    FullCovers(g);
    EliminateTight(g, full);
    SettledTightUnique(g, Eliminate(g, c), Eliminate(g, full));
  }

  /** A grid has only one settled, tight candidate map. */
  lemma SettledTightUnique(g: Grid, a: Candidates, b: Candidates)
    requires IsGrid(g) && Settled(g, a) && Tight(g, a) && Settled(g, b) && Tight(g, b)
    ensures a == b
  {
    assert a.Keys == b.Keys;
    forall cell | cell in a ensures a[cell] == b[cell] {
      if At(g, cell) != 0 {
        assert a[cell] == {} == b[cell];
      }
    }
  }

  /** A tight map left by a pass covers the grid that pass's commit produces. */
  lemma TightCoversNext(g: Grid, c: Candidates)
    requires IsDigitGrid(g) && Settled(g, c) && Tight(g, c)
    ensures Covers(Commit(g, c), c)
  {
    var h := Commit(g, c);
    CommitExtends(g, c);
    forall cell | InBoard(cell) && At(h, cell) == 0 ensures Digits - Peers(h, cell) <= c[cell] {
      CommitWritesEmptyCell(g, c, cell);
      PlacedInGrows(g, h, RowCells(cell.0));
      PlacedInGrows(g, h, ColCells(cell.1));
      PlacedInGrows(g, h, BlockCells(BlockOf(cell).0, BlockOf(cell).1));
    }
  }

  /** On a covering map the solver's result does not depend on the candidate history. */
  lemma PropagateForgetsHistory(g: Grid, c: Candidates)
    requires IsDigitGrid(g) && WithinDigits(c) && Covers(g, c)
    ensures Propagate(g, c) == Propagate(g, FullCandidates())
  {
    EliminateForgetsHistory(g, c);
  }

  /**
   * The solver with the candidate sets rebuilt from {1..9} at the start of
   * every pass, instead of carried over from the pass before.
   */
  function PropagateFresh(g: Grid): (r: (Grid, Candidates))
    requires IsDigitGrid(g)
    ensures IsDigitGrid(r.0) && Extends(g, r.0)
    decreases ZeroCells(g)
  {
    var c1 := Eliminate(g, FullCandidates());
    EliminateSettles(g, FullCandidates());
    CommitFillsEmptyCells(g, c1);
    if Changed(c1) then
      var r := PropagateFresh(Commit(g, c1));
      ExtendsTransitive(g, Commit(g, c1), r.0);
      r
    else
      (g, c1)
  }

  /**
   * The sets the source builds once and carries from pass to pass give,
   * from any covering start map, the same grid and final sets as sets
   * rebuilt from {1..9} on every pass.
   */
  lemma {:induction false} PropagateIsFresh(g: Grid, c: Candidates)
    requires IsDigitGrid(g) && WithinDigits(c) && Covers(g, c)
    ensures Propagate(g, c) == PropagateFresh(g)
    decreases ZeroCells(g)
  {
    var c1 := Eliminate(g, c);
    EliminateTight(g, c);
    EliminateForgetsHistory(g, c);
    CommitFillsEmptyCells(g, c1);
    if Changed(c1) {
      TightCoversNext(g, c1);
      PropagateIsFresh(Commit(g, c1), c1);
    }
  }

  /** The solver's single fill of {1..9} before the loop behaves as a fresh fill on every pass. */
  lemma SolveIsFresh(g: Grid)
    requires IsDigitGrid(g)
    ensures Propagate(g, FullCandidates()) == PropagateFresh(g)
  {
    FullCovers(g);
    PropagateIsFresh(g, FullCandidates());
  }

  /** The solver stops at a grid on which a fresh pass would commit nothing. */
  lemma {:induction false} PropagateReachesFixedPoint(g: Grid, c: Candidates)
    requires IsDigitGrid(g) && WithinDigits(c) && Covers(g, c)
    ensures !Changed(Eliminate(Propagate(g, c).0, FullCandidates()))
    decreases ZeroCells(g)
  {
    var c1 := Eliminate(g, c);
    EliminateTight(g, c);
    CommitFillsEmptyCells(g, c1);
    EliminateForgetsHistory(g, c);
    if Changed(c1) {
      TightCoversNext(g, c1);
      PropagateReachesFixedPoint(Commit(g, c1), c1);
    }
  }

  /** Pressing solve a second time changes nothing. */
  lemma SolveIdempotent(g: Grid)
    requires IsDigitGrid(g)
    ensures Solve(Solve(g)) == Solve(g)
  {
    var s := Solve(g);
    var full := FullCandidates();
    FullCovers(g);
    PropagateReachesFixedPoint(g, full);
    EliminateSettles(s, full);
    CommitFillsEmptyCells(s, Eliminate(s, full));
  }

  /** Solving never alters a cell that was filled when it started, such as a given. */
  lemma SolveKeepsFilledCells(g: Grid, cell: Cell)
    requires IsDigitGrid(g) && InBoard(cell) && At(g, cell) != 0
    ensures At(Solve(g), cell) == At(g, cell)
  {
  }

  /**
   * A fresh pass commits digit v at an empty cell exactly when v is the one
   * digit none of the cell's peers has placed.
   */
  lemma CommitIffOnlyCandidate(g: Grid, cell: Cell, v: int)
    requires IsDigitGrid(g) && InBoard(cell) && At(g, cell) == 0 && v != 0
    ensures At(Commit(g, Eliminate(g, FullCandidates())), cell) == v <==> Digits - Peers(g, cell) == {v}
  {
    var full := FullCandidates();
    var c1 := Eliminate(g, full);
    FullCovers(g);
    EliminateTight(g, full);
    CommitAt(g, c1, cell);
    assert c1[cell] == Digits - Peers(g, cell);
    if |c1[cell]| == 1 {
      SoleIsOnly(c1[cell]);
    }
  }
}
