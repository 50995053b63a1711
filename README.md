# Sudoku board and solving assistant — a verified model

This project models the `SudokuBoard` class of `SudokuSolver.py`: a 9×9
Sudoku board that a player edits with mouse clicks and digit keys, plus a
constraint-propagation assistant that fills in forced cells. The model
covers the following parts:

- the block table built in `__init__`;
- the move check `__validate_move` and the key handler around it;
- the completion test `__check_victory`;
- loading a puzzle (`__load_puzzle`, `__clear_values`) and reading the
  puzzle file (`__read_puzzle_csv`, from its records on);
- the solver `___solve_puzzle` with its three candidate updates
  `__update_preemptive_by_block`, `__update_preemptive_by_row` and
  `__update_preemptive_by_col`;
- the pixel-to-cell arithmetic of `__find_cell`.

The object is the class `Board.SudokuBoard`. Its fields are the source's
attributes:

- `puzzleValues`: `seq<seq<int>>`
- `protectedCells`: `seq<Cell>`
- `puzzleDictionary`: `map<int, Grid>`
- `blocks`: `map<Cell, seq<Cell>>`
- `preemptiveSets`: `map<Cell, set<int>>`
- `selectedCell` and `puzzleId`

Its methods reassign these fields with the loops of the source. Each loop
is proved against a specification function, and the properties of those
functions are proved as lemmas. The modules are:

- `Geometry`: the grid, its rows, columns and blocks, and the block table.
- `Moves`: the verdict of a move, and the completion conditions.
- `Propagation`: the candidate updates, one pass of the solver and the
  fixed point it reaches, all as functions.
- `PuzzleFile`: decoding the 81-digit strings of the puzzle file, and
  reading its records.
- `Board`: the loops of the source as methods, and the `SudokuBoard` class.

Four behaviours of the code shape the model:

- **Candidate sets.** The solver fills the candidate sets with {1..9}
  once, before its loop (lines 290-293), and each pass then narrows the
  sets the previous pass left. The model carries the sets from pass to
  pass in the same way, and proves that the result equals that of a
  solver which rebuilds the sets from {1..9} on every pass
  (`Propagation.SolveIsFresh`).
- **Number of puzzles.** The reader stops when its line count reaches
  `MAX_PUZZLES` = 50 (line 275), and the header row takes one count, so at
  most 49 puzzles are kept (`PuzzleFile.ReadEncoded`).
- **Malformed rows.** Line 283 raises on a bad record: `row[0]` raises
  `IndexError` on an empty record (`MissingField`), `row[0][9i + j]`
  raises `IndexError` when the puzzle field is too short (`TooShort`), and
  `int()` raises `ValueError` on a character that is not a digit
  (`NotADigit`). The exception ends the read, and the model returns the
  error of the first bad record.
- **Victory test.** The block phase of `__check_victory` never fails
  (line 246; see Findings).

## Model

| member | source | states |
|---|---|---|
| Geometry.BlockTableIsBlockTable | SudokuSolver.py:33-44 | the table has exactly the nine keys (i, j) with i, j in 0..2, and key (i, j) holds the nine cells of that 3×3 block |
| Geometry.BlocksPartitionBoard | SudokuSolver.py:33-44 | a cell is listed under exactly one block key, the key (r / 3, c / 3) the move check looks up at lines 211-215 |
| Geometry.BlockCellsExact | SudokuSolver.py:38-44 | block (i, j) holds exactly the cells (a + 3i, b + 3j) for a, b in 0..2 |
| Geometry.CellInItsBlock | SudokuSolver.py:211-215 | every board cell occurs in the block named by (r // 3, c // 3), at position 3·(r mod 3) + c mod 3 |
| Geometry.BlockMembersBelong | SudokuSolver.py:42-44 | the k-th cell listed for block (i, j) is on the board, lies in block (i, j) and sits at index k within it |
| Geometry.ValuesInMeaning | SudokuSolver.py:225-228 | a value is in the set gathered from a list of cells iff some cell of the list holds it |
| Geometry.PlacedInMeaning | SudokuSolver.py:322-324 | the set of placed values of a list of cells holds exactly the non-zero values those cells hold |
| Geometry.PlacedInGrows | SudokuSolver.py:305-307 | filling empty cells can only add to the placed values of any group |
| Geometry.PutTwice | SudokuSolver.py:199 | writing a cell twice leaves only the second value |
| Board.BuildBlockTable | SudokuSolver.py:33-44 | the two loops of `__init__` (nine empty lists, then nine offset cells appended to each) leave exactly the block table |
| Board.FilledUpToMeaning | SudokuSolver.py:40-44 | after the first n blocks of the filling loop, every key is present and exactly those n blocks hold their cells |
| Board.SudokuBoard.constructor | SudokuSolver.py:18-65 | a new board has no selection, the puzzles read from the file, the block table, and puzzle 5 loaded with its givens protected |
| Board.SudokuBoard.ClearValues | SudokuSolver.py:130-138 | the board becomes nine rows of nine zeros |
| Board.SudokuBoard.LoadPuzzle | SudokuSolver.py:253-265 | the board is a copy of the chosen puzzle, and the protected cells are its non-zero cells in row-major order; the class invariant (each protected cell still holds its given) holds |
| Board.GivensMeaning | SudokuSolver.py:260-263 | a cell is in the list built by the loops iff it is on the board and non-zero in the puzzle, and the list is in row-major order with no repeats |
| Board.GivensInRowsMeaning | SudokuSolver.py:260-263 | after the first i rows, the list holds exactly the non-zero cells of those rows |
| Board.FindCell | SudokuSolver.py:140-150 | the cell returned is the one whose pixel box [10 + 30r, 10 + 30(r + 1)) × [10 + 30c, 10 + 30(c + 1)) contains the point |
| Board.ClickSelectsBoardCell | SudokuSolver.py:185-191 | a click that passes the frame test of `__on_left_click` selects a cell with row and column in 0..8 |
| Board.EveryCellSelectable | SudokuSolver.py:147-150 | a click at the centre of any board cell passes the frame test and selects that cell |
| Board.SudokuBoard.OnLeftClick | SudokuSolver.py:185-192 | a click inside the frame selects the cell under it; any other click leaves the selection unchanged |
| Board.SudokuBoard.ValidateMove | SudokuSolver.py:194-220 | the verdict is `MoveVerdict` of the board before the call; only an accepted 0 on an unprotected cell changes the board, by clearing that cell |
| Board.ScanForDuplicate | SudokuSolver.py:202-220 | the early-return scans of row and column together, then of the block list, give the verdict `DuplicateVerdict` defines |
| Moves.LineScanValidIff | SudokuSolver.py:202-209 | the row/column scan finds nothing iff neither the row nor the column holds the move at any index |
| Moves.LineScanFirstMatch | SudokuSolver.py:202-209 | the scan reports a row duplicate iff the first index where the row or the column matches has a row match, and a column duplicate iff that first match is in the column only |
| Moves.MoveAcceptedIff | SudokuSolver.py:202-220 | a non-zero move on an unprotected cell is accepted iff the value occurs nowhere in the cell's row, column or block |
| Moves.BlockDupMeansOnlyBlock | SudokuSolver.py:211-218 | a block duplicate is reported iff the cell is unprotected, the move is non-zero, neither line holds the value and some cell of the block does |
| Moves.ReenteringValueRejected | SudokuSolver.py:202-209 | typing the digit an unprotected cell already holds is rejected as a row or column duplicate |
| Board.SudokuBoard.OnKeyRelease | SudokuSolver.py:172-183 | a non-digit key, or any key while no cell is selected, changes nothing; a digit is validated, written only when the verdict is valid, and a written digit reports the victory test's result; a rejected digit reports the verdict |
| Board.KeyFilterAsWritten | SudokuSolver.py:173 | the filter as written passes a key iff the key occurs as a contiguous substring of "0123456789" at some position |
| Board.KeyFilterOnCharacters | SudokuSolver.py:173 | on one-character keys, the substring test passes exactly the ten digit keys |
| Board.OccursSingle | SudokuSolver.py:173 | a one-character string is a substring of s iff it is a character of s |
| Board.EmptyKeyPassesFilter | SudokuSolver.py:173-176 | the empty key passes the substring test but is not a digit key |
| Board.MultiCharKeyPassesFilter | SudokuSolver.py:173-178 | the two-character key "12" passes the substring test but is not a digit key, and 12 is accepted as a move on an empty board, so it would be written into the grid |
| Board.DigitOf | SudokuSolver.py:176 | `int` of a digit key is the digit 0..9 at that position of "0123456789" |
| Board.ClearAsWritten | SudokuSolver.py:194-199 | a zero move as written: accepted iff the selection is not a protected cell, and then the cell the selection indexes, a negative index counting from the end, holds 0 |
| Board.UnselectedClearErasesGiven | SudokuSolver.py:194-199 | with no cell selected, the initial selection (-1, -1) of line 21 is not protected, so a zero key is accepted and clears cell (8, 8) even when (8, 8) is a given cell |
| Board.GatherValues | SudokuSolver.py:225-228 | adding the values of a list of cells one by one into `check_set` yields the set of values those cells hold |
| Board.SudokuBoard.CheckLines | SudokuSolver.py:222-238 | the row and column phases return true iff every row and every column, as a set, is {1..9} |
| Board.SudokuBoard.CheckVictory | SudokuSolver.py:222-251 | the test as written returns true iff every row and column is {1..9}: the block phase never changes the result |
| Moves.LatinSquarePassesVictoryCheck | SudokuSolver.py:240-251 | the cyclic Latin square has every row and column equal to {1..9} but not every block, so the test as written calls a board won that is not solved |
| Board.SudokuBoard.CheckBlocks | SudokuSolver.py:240-249 | the block phase with its test on the ninth cell of each block returns true iff every block, as a set, is {1..9} |
| Board.SudokuBoard.CheckSolved | SudokuSolver.py:222-251 | the corrected victory test returns true iff every row, column and block is {1..9} |
| Moves.CompleteGroupIsPermutation | SudokuSolver.py:225-229 | nine cells whose values form the set {1..9} hold each digit exactly once |
| PuzzleFile.FirstBadMeaning | SudokuSolver.py:280-283 | the position the decode loop fails on is the least position in 0..80 that is missing or not a digit, or 81 if every one is readable |
| PuzzleFile.DecodeSucceedsIff | SudokuSolver.py:280-283 | a digit string decodes iff it has at least 81 characters and the first 81 are digits |
| PuzzleFile.DecodeEncode | SudokuSolver.py:280-283 | a digit grid written out row by row reads back as the same grid: cell (i, j) is the digit at 9i + j |
| PuzzleFile.EncodeDecode | SudokuSolver.py:280-283 | a string that decodes equals, in its first 81 characters, the encoding of its grid |
| PuzzleFile.DecodeDigits | SudokuSolver.py:280-283 | the nested append loops give a decoded grid, or the error at the first unreadable position |
| PuzzleFile.ReadPuzzleCsv | SudokuSolver.py:267-285 | the read loop, which skips the header and stops when the line count reaches 50, gives `ReadPuzzles` of the records |
| PuzzleFile.ReadFirstSucceedsIff | SudokuSolver.py:271-285 | reading the first n puzzles succeeds iff each of records 1..n decodes |
| PuzzleFile.ReadFirstContents | SudokuSolver.py:278-283 | a successful read keeps puzzles 0..n - 1, puzzle k being the digit grid decoded from record k + 1 |
| PuzzleFile.ReadFirstFailure | SudokuSolver.py:271-285 | a failed read reports the error of the first record that does not decode |
| PuzzleFile.ReadPuzzlesDigits | SudokuSolver.py:267-285 | the puzzles of a file that reads are numbered 0 .. n - 1, with n at most 49, so the dictionary holds n entries, and each is a digit grid |
| PuzzleFile.PuzzleCount | SudokuSolver.py:272-276 | at most 49 puzzles are read, whatever the length of the file |
| PuzzleFile.ReadEncoded | SudokuSolver.py:267-285 | a header plus one encoded record per grid reads back as the first min(number of grids, 49) grids, numbered from 0 in file order |
| Board.FullSets | SudokuSolver.py:290-293 | the first loop of the solver gives every one of the 81 cells the set {1..9} |
| Propagation.FullCandidates | SudokuSolver.py:290-293 | the starting candidates map every board cell to {1..9} |
| Board.BlockPass | SudokuSolver.py:318-330 | the block update, in the order of the block keys and their cell lists, leaves the candidates of `BlockStep` |
| Board.RowPass | SudokuSolver.py:332-344 | the row update leaves the candidates of `RowStep` |
| Board.ColPass | SudokuSolver.py:346-355 | the column update leaves the candidates of `ColStep` |
| Board.SudokuBoard.UpdateByBlock | SudokuSolver.py:318-330 | the board's candidates become `BlockStep` of its grid and old candidates, and nothing else changes |
| Board.SudokuBoard.UpdateByRow | SudokuSolver.py:332-344 | the board's candidates become `RowStep` of its grid and old candidates |
| Board.SudokuBoard.UpdateByCol | SudokuSolver.py:346-355 | the board's candidates become `ColStep` of its grid and old candidates |
| Propagation.StepsAt | SudokuSolver.py:318-355 | a placed cell's set becomes ∅ in the block and row steps; otherwise the block, row and column placed values are subtracted, and the column step subtracts even for placed cells |
| Propagation.EliminateMeaning | SudokuSolver.py:300-302 | after the three updates, a placed cell has ∅ and an empty cell has its old set minus every value placed in its row, column or block; every set only shrinks |
| Propagation.PeersMeaning | SudokuSolver.py:318-355 | a value is excluded from a cell iff it is non-zero and placed in that cell's row, column or block |
| Board.GatherPlaced | SudokuSolver.py:320-352 | adding the non-zero values of a list of cells one by one into `block_set` (lines 320-324), `row_set` (334-338) or `col_set` (348-352) yields the set of non-zero values those cells hold |
| Board.SweepBlock | SudokuSolver.py:326-330 | the sweep over block (i, j)'s nine cells carries the block update from visit position 27i + 9j to 27i + 9j + 9: each of those cells gets ∅ when filled and otherwise its set minus the values the block has placed |
| Board.ForcedPass | SudokuSolver.py:304-308 | the "add forced" loop writes the sole member of every one-element set into its cell, and `change` is true iff some set has one element |
| Propagation.CommitAt | SudokuSolver.py:305-307 | after the commit, a cell holds the member of its set when that set has one element, and its old value otherwise |
| Propagation.CommitWritesEmptyCell | SudokuSolver.py:304-308 | after the three updates, a commit writes only into an empty cell, a value in 1..9 that was its only candidate |
| Propagation.CommitExcludesPeers | SudokuSolver.py:300-308 | a value committed in a pass differs from every value placed in the cell's row, column and block when the pass began |
| Propagation.CommitFillsEmptyCells | SudokuSolver.py:304-308 | a commit keeps every non-zero cell; when it reports a change it fills at least one empty cell, and otherwise it leaves the grid as it was |
| Propagation.RoundAdvances | SudokuSolver.py:297-308 | a pass keeps every filled cell and every set within {1..9}; a pass that reports a change fills an empty cell and keeps the fixed point ahead; a pass that does not is that fixed point |
| Board.SudokuBoard.SolveRound | SudokuSolver.py:298-308 | one loop pass on the board: grid, candidates and `change` are those `Round` describes, and the given cells keep their values |
| Board.SudokuBoard.SolvePuzzle | SudokuSolver.py:289-313 | the solver terminates, leaves the grid and candidates `Propagate` describes, never changes a filled cell, and reports whether the result is solved |
| Propagation.Propagate | SudokuSolver.py:295-308 | repeated passes end in a digit grid whose non-zero cells include all the old ones, with every candidate set within {1..9} |
| Propagation.PropagateForgetsHistory | SudokuSolver.py:290-308 | from any start map within {1..9} that still allows every digit no peer has placed (`Covers`), the loop ends in the same grid and sets as when started from {1..9} everywhere |
| Propagation.PropagateIsFresh | SudokuSolver.py:290-308 | from any such start map, carrying the sets from pass to pass gives the same grid and sets as rebuilding them from {1..9} before every pass (`PropagateFresh`) |
| Propagation.SolveIsFresh | SudokuSolver.py:289-308 | the solver, which fills the sets with {1..9} once before its loop, ends in the same grid and sets as a solver that rebuilds them on every pass |
| Propagation.EliminateForgetsHistory | SudokuSolver.py:300-302 | once the candidates still allow every value not yet excluded, the three updates give the same sets as updates started from {1..9} |
| Propagation.PropagateReachesFixedPoint | SudokuSolver.py:297-308 | when the loop stops, a fresh pass over its grid finds no one-element set |
| Propagation.SolveIdempotent | SudokuSolver.py:289-308 | solving an already solved-out grid changes nothing |
| Propagation.SolveKeepsFilledCells | SudokuSolver.py:305-307 | solving never changes a cell that was non-zero at the start, so protected cells are never overwritten |
| Propagation.CommitIffOnlyCandidate | SudokuSolver.py:300-307 | the first pass writes v into a cell iff v is the only digit not placed among the cell's peers |
| Board.SudokuBoard.OnClickClear | SudokuSolver.py:163-164 | the current puzzle is loaded again: the board returns to its givens, and the protected list is that puzzle's given cells |
| Board.SudokuBoard.OnClickNewPuzzle | SudokuSolver.py:169-170 | any number in `range(len(puzzle_dictionary))` names a stored puzzle, and the puzzle whose number was drawn is loaded, with its given cells as the protected list |

## Left out

- Drawing and tkinter are not modelled: the canvas, the selector
  rectangle, buttons, window layout, event binding and `mainloop`.
  `print` calls are not modelled either. Messages become `Moves.Verdict`
  values, and the victory report becomes the result of `CheckSolved`.
- Opening `resources/puzzles.csv` and splitting it into CSV records is
  I/O. The reader starts from the list of records, each a list of fields.
- `random.choice` in `__on_click_new_puzzle` becomes the parameter
  `choice` of `OnClickNewPuzzle`.
- `int()` on a single character also accepts non-ASCII Unicode digits.
  The model accepts only '0'..'9'.
- Board.SudokuBoard.constructor: requires that the file reads and holds
  puzzle 5. In the source, a read error raises, and a missing puzzle 5
  makes `__load_puzzle` fail on `None`. Start-up failure is not modelled.
- Board.SudokuBoard.ValidateMove: requires a selected board cell. The
  source can be called with the initial (-1, -1) (line 21), for instance
  after keyboard traversal gives the canvas focus before any click. Then a
  zero move clears cell (8, 8) through negative indexing, even when it is
  a given (modelled by `ClearAsWritten`, see Findings). A non-zero move
  scans row 8 and column 8, and when neither holds it,
  `blocks.get((-1, -1))` returns `None` and line 216 raises `TypeError`;
  that crash is not modelled.
- Board.SudokuBoard.OnKeyRelease: uses the corrected key filter and the
  corrected victory test, and ignores keys while no cell is selected (see
  Findings). Keys of more than one character are ignored. In the source,
  such a key passes line 173 whenever its string is a substring of
  "0123456789" ("12", say), `int` turns it into a number above 9, and
  line 178 writes that number into the grid (`MultiCharKeyPassesFilter`).
  Whether tkinter delivers such a key depends on the platform.
- Board.SudokuBoard.SolvePuzzle: reports the corrected victory test
  rather than the one as written (see Findings). The intermediate redraws
  are not modelled.
- The per-block, per-row and per-column loops of the three updates, the
  commit loop and the first loop of the solver are methods outside the
  class: `BlockPass`, `RowPass`, `ColPass`, `ForcedPass` and `FullSets`.
  The class methods assign their results to the fields. A caller cannot
  see the difference, because nothing else reads the fields while a loop
  runs.
- The source's `blocks` lists are shared objects. The model stores block
  lists as values, and no method changes them, so aliasing is not
  modelled.
- `PuzzleFile.DecodeDigits` and `PuzzleFile.ReadPuzzleCsv`: an exception
  becomes a `Failure` result. When line 283 raises, the source has
  already stored a partly filled entry in `puzzle_dictionary` (line 278
  stores `[]` and line 281 appends a row before the first read, so it
  holds at least `[[]]`). That entry is never used, because start-up
  stops.

## Findings

| source | as written | input that shows it | evidently intended | confidence | as-written member | corrected member |
|---|---|---|---|---|---|---|
| SudokuSolver.py:246 | the block test checks `j == NUM_CELLS - 1`, but `j` is the block-column index 0..2, so it never fires and blocks are never checked | the cyclic Latin square (i + j) mod 9 + 1: every row and column holds {1..9}, and block (0, 0) holds only {1..5}; `__check_victory` returns true | each block's nine values must equal {1..9}, tested once the block's last cell is added | high, not executed | Board.SudokuBoard.CheckVictory, Moves.LatinSquarePassesVictoryCheck | Board.SudokuBoard.CheckSolved, Board.SudokuBoard.CheckBlocks |
| SudokuSolver.py:173 | `event.char not in "0123456789"` is a substring test, which the empty string passes | releasing a key with no character (Shift, say), which tkinter reports with `event.char == ""`: the filter lets it through and `int("")` at line 176 raises `ValueError` | only one-character digit keys reach `__validate_move` | medium, not executed | Board.KeyFilterAsWritten, Board.EmptyKeyPassesFilter, Board.MultiCharKeyPassesFilter | Board.IsDigitKey, Board.KeyFilterOnCharacters |
| SudokuSolver.py:195-199 | the protection test compares the selection with the protected cells, and the write indexes the lists with it; before any cell is selected the selection is (-1, -1) (line 21) | the canvas gets focus without a click, and the player presses 0: (-1, -1) is not protected, so `puzzle_values[-1][-1] = 0` erases cell (8, 8) even when it is a given | keys do nothing while no cell is selected, and given cells are never altered | medium, not executed | Board.ClearAsWritten, Board.UnselectedClearErasesGiven | Board.SudokuBoard.OnKeyRelease |
