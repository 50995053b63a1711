/**
 * The puzzle file read at start-up by `__read_puzzle_csv`: a header line,
 * then one line per puzzle whose first field is an 81-character digit
 * string, row by row. Opening the file and splitting it into CSV records is
 * not modelled: the reader is given the records, each a sequence of fields.
 */
module PuzzleFile {
  import opened Geometry

  /** `MAX_PUZZLES`: the line count at which reading stops. */
  const MaxPuzzles: int := 50

  /** The length of one puzzle's digit string. */
  const Cells: int := 81

  /** Why a record could not be decoded; in the program each is an exception. */
  datatype ReadError =
    | MissingField(line: int)          // `row[0]` on an empty record
    | TooShort(line: int, pos: int)    // `row[0][pos]` past the end of the string
    | NotADigit(line: int, pos: int)   // `int(...)` on a character that is not 0-9

  datatype Result<T> = Success(value: T) | Failure(error: ReadError)

  predicate IsDigitChar(ch: char) {
    '0' <= ch <= '9'
  }

  function DigitValue(ch: char): (v: int)
    requires IsDigitChar(ch)
    ensures 0 <= v <= 9
  {
    ch as int - '0' as int
  }

  function DigitChar(v: int): (ch: char)
    requires 0 <= v <= 9
    ensures IsDigitChar(ch) && DigitValue(ch) == v
  {
    ('0' as int + v) as char
  }

  /** Position k of the string is read without error: it exists and is a digit. */
  predicate GoodAt(s: string, k: int) {
    0 <= k < |s| && IsDigitChar(s[k])
  }

  /** The first position in k .. 80 the decode loop fails on, or 81 if none. */
  function FirstBad(s: string, k: int): (r: int)
    requires 0 <= k <= Cells
    ensures k <= r <= Cells
    ensures r == Cells ==> forall m :: k <= m < Cells ==> GoodAt(s, m)
    decreases Cells - k
  {
    if k == Cells then Cells
    else if !GoodAt(s, k) then k
    else FirstBad(s, k + 1)
  }

  /** `FirstBad` is the least failing position: all before it are read, and it is not. */
  lemma {:induction false} FirstBadMeaning(s: string, k: int, r: int)
    requires 0 <= k <= r <= Cells
    ensures FirstBad(s, k) == r <==> (forall m :: k <= m < r ==> GoodAt(s, m)) && (r == Cells || !GoodAt(s, r))
    decreases Cells - k
  {
    if k < Cells && k < r {
      FirstBadMeaning(s, k + 1, r);
    }
  }

  /** Row i of a fully readable string: the digits at 9i .. 9i + 8. */
  function RowOf(s: string, i: int): (row: seq<int>)
    requires forall m :: 0 <= m < Cells ==> GoodAt(s, m)
    requires 0 <= i < Size
    ensures |row| == Size
    ensures forall j :: 0 <= j < Size ==> GoodAt(s, Size * i + j) && row[j] == DigitValue(s[Size * i + j])
  {
    seq(Size, j requires 0 <= j < Size => assert GoodAt(s, Size * i + j); DigitValue(s[Size * i + j]))
  }

  /** The grid a fully readable string describes: cell (i, j) is the digit at 9i + j. */
  function GridOf(s: string): (g: Grid)
    requires forall m :: 0 <= m < Cells ==> GoodAt(s, m)
    ensures IsDigitGrid(g)
    ensures forall i :: 0 <= i < Size ==> g[i] == RowOf(s, i)
  {
    seq(Size, i requires 0 <= i < Size => RowOf(s, i))
  }

  /**
   * The nested loops of `__read_puzzle_csv` on one digit string of line
   * `line`: a grid, or the error at the first position they cannot read.
   * Characters after the 81st are never looked at.
   */
  function Decode(s: string, line: int): (r: Result<Grid>)
    ensures r.Success? ==> IsDigitGrid(r.value)
  {
    var bad := FirstBad(s, 0);
    if bad < Cells then
      Failure(if bad < |s| then NotADigit(line, bad) else TooShort(line, bad))
    else
      Success(GridOf(s))
  }

  /** Position 9i + j of a digit string is row i, column j. */
  lemma PositionSplit(i: int, j: int)
    requires 0 <= i < Size && 0 <= j < Size
    ensures 0 <= Size * i + j < Cells && (Size * i + j) / Size == i && (Size * i + j) % Size == j
  {
  }

  lemma PositionJoin(m: int)
    requires 0 <= m < Cells
    ensures 0 <= m / Size < Size && 0 <= m % Size < Size && Size * (m / Size) + m % Size == m
  {
  }

  /** The 81-character digit string of a digit grid, row by row. */
  function Encode(g: Grid): (s: string)
    requires IsDigitGrid(g)
    ensures |s| == Cells
  {
    seq(Cells, m requires 0 <= m < Cells => DigitChar(g[m / Size][m % Size]))
  }

  /** A grid written out and read back is the same grid. */
  lemma DecodeEncode(g: Grid, line: int)
    requires IsDigitGrid(g)
    ensures Decode(Encode(g), line) == Success(g)
  {
    var s := Encode(g);
    EncodeReadable(g);
    FirstBadMeaning(s, 0, Cells);
    var h := GridOf(s);
    forall i | 0 <= i < Size ensures h[i] == g[i] {
      EncodeRow(g, i);
    }
    assert FirstBad(s, 0) == Cells;
    assert h == g;
  }

  lemma EncodeReadable(g: Grid)
    requires IsDigitGrid(g)
    ensures forall m :: 0 <= m < Cells ==> GoodAt(Encode(g), m)
  {
    forall m | 0 <= m < Cells ensures GoodAt(Encode(g), m) {
      PositionJoin(m);
    }
  }

  lemma EncodeRow(g: Grid, i: int)
    requires IsDigitGrid(g) && 0 <= i < Size
    requires forall m :: 0 <= m < Cells ==> GoodAt(Encode(g), m)
    ensures RowOf(Encode(g), i) == g[i]
  {
    var row := RowOf(Encode(g), i);
    forall j | 0 <= j < Size ensures row[j] == g[i][j] {
      PositionSplit(i, j);
    }
  }

  /** A string that decodes is, in its first 81 characters, the encoding of its grid. */
  lemma EncodeDecode(s: string, line: int)
    requires Decode(s, line).Success?
    ensures |s| >= Cells && Encode(Decode(s, line).value) == s[..Cells]
  {
    FirstBadMeaning(s, 0, Cells);
    assert GoodAt(s, Cells - 1);
    var g := Decode(s, line).value;
    forall m | 0 <= m < Cells ensures Encode(g)[m] == s[m] {
      PositionJoin(m);
    }
  }

  /** A string decodes exactly when its first 81 characters are all digits. */
  lemma DecodeSucceedsIff(s: string, line: int)
    ensures Decode(s, line).Success? <==> |s| >= Cells && forall m :: 0 <= m < Cells ==> IsDigitChar(s[m])
  {
    FirstBadMeaning(s, 0, Cells);
    var bad := FirstBad(s, 0);
    if bad < Cells {
      FirstBadMeaning(s, 0, bad);
      assert !GoodAt(s, bad);
      assert !(|s| >= Cells && IsDigitChar(s[bad]));
    } else {
      assert GoodAt(s, Cells - 1);
      forall m | 0 <= m < Cells ensures IsDigitChar(s[m]) {
        assert GoodAt(s, m);
      }
    }
  }

  /**
   * The decode of one digit string as the source writes it: row lists built
   * by appending, position 9i + j read at step (i, j), the first position
   * that cannot be read ending the read with its error.
   */
  method DecodeDigits(s: string, line: int) returns (r: Result<Grid>)
    ensures r == Decode(s, line)
  {
    var rows: Grid := [];
    for i := 0 to Size
      invariant forall m :: 0 <= m < Size * i ==> GoodAt(s, m)
      invariant |rows| == i && forall a :: 0 <= a < i ==> |rows[a]| == Size
      invariant forall a, b :: 0 <= a < i && 0 <= b < Size ==> GoodAt(s, Size * a + b) && rows[a][b] == DigitValue(s[Size * a + b])
    {
      var row: seq<int> := [];
      for j := 0 to Size
        invariant forall m :: 0 <= m < Size * i + j ==> GoodAt(s, m)
        invariant |row| == j && forall b :: 0 <= b < j ==> GoodAt(s, Size * i + b) && row[b] == DigitValue(s[Size * i + b])
      {
        var pos := Size * i + j;
        if pos >= |s| || !IsDigitChar(s[pos]) {
          FirstBadMeaning(s, 0, pos);
          assert FirstBad(s, 0) == pos;
          return Failure(if pos < |s| then NotADigit(line, pos) else TooShort(line, pos));
        }
        row := row + [DigitValue(s[pos])];
      }
      rows := rows + [row];
    }
    FirstBadMeaning(s, 0, Cells);
    forall i | 0 <= i < Size ensures rows[i] == GridOf(s)[i] {
      assert GridOf(s)[i] == RowOf(s, i);
    }
    assert rows == GridOf(s);
    r := Success(rows);
  }

  /** One record of line `line`: its first field decoded, or an error if it has none. */
  function DecodeRecord(record: seq<string>, line: int): Result<Grid> {
    if |record| == 0 then Failure(MissingField(line)) else Decode(record[0], line)
  }

  /**
   * The number of puzzles a file of `n` records yields when every record
   * decodes: the header is skipped, and reading stops when the line count
   * reaches `MaxPuzzles`, so at most 49 puzzles are kept.
   */
  function PuzzleCount(n: int): (count: int)
    ensures 0 <= count < MaxPuzzles
  {
    if n <= 1 then 0 else if n - 1 < MaxPuzzles - 1 then n - 1 else MaxPuzzles - 1
  }

  /** Puzzles 0 .. n - 1 read from records 1 .. n, or the first record's error. */
  function ReadFirst(records: seq<seq<string>>, n: int): Result<map<int, Grid>>
    requires 0 <= n < |records|
  {
    if n == 0 then Success(map[])
    else match ReadFirst(records, n - 1)
      case Failure(e) => Failure(e)
      case Success(puzzles) =>
        match DecodeRecord(records[n], n)
        case Failure(e) => Failure(e)
        case Success(g) => Success(puzzles[n - 1 := g])
  }

  /** What `__read_puzzle_csv` leaves in `puzzle_dictionary`, or the error it raises. */
  function ReadPuzzles(records: seq<seq<string>>): Result<map<int, Grid>> {
    if |records| == 0 then Success(map[]) else ReadFirst(records, PuzzleCount(|records|))
  }

  /**
   * A successful read keeps puzzles 0 .. n - 1, each a digit grid decoded
   * from the record after it, and fails exactly when one of those records
   * does not decode.
   */
  lemma {:induction false} ReadFirstSucceedsIff(records: seq<seq<string>>, n: int)
    requires 0 <= n < |records|
    ensures ReadFirst(records, n).Success? <==> forall k :: 1 <= k <= n ==> DecodeRecord(records[k], k).Success?
  {
    if n > 0 {
      ReadFirstSucceedsIff(records, n - 1);
    }
  }

  lemma {:induction false} ReadFirstKeys(records: seq<seq<string>>, n: int)
    requires 0 <= n < |records| && ReadFirst(records, n).Success?
    ensures forall k :: k in ReadFirst(records, n).value <==> 0 <= k < n
  {
    if n > 0 {
      ReadFirstKeys(records, n - 1);
    }
  }

  lemma {:induction false} ReadFirstContents(records: seq<seq<string>>, n: int)
    requires 0 <= n < |records| && ReadFirst(records, n).Success?
    ensures var puzzles := ReadFirst(records, n).value;
      && (forall k :: k in puzzles <==> 0 <= k < n)
      && (forall k :: 0 <= k < n ==> DecodeRecord(records[k + 1], k + 1) == Success(puzzles[k]) && IsDigitGrid(puzzles[k]))
  {
    ReadFirstKeys(records, n);
    forall k | 0 <= k < n
      ensures DecodeRecord(records[k + 1], k + 1) == Success(ReadFirst(records, n).value[k])
    {
      ReadFirstValue(records, n, k);
    }
  }

  lemma {:induction false} ReadFirstValue(records: seq<seq<string>>, n: int, k: int)
    requires 0 <= k < n < |records| && ReadFirst(records, n).Success?
    ensures k in ReadFirst(records, n).value
    ensures DecodeRecord(records[k + 1], k + 1) == Success(ReadFirst(records, n).value[k])
  {
    if k < n - 1 {
      ReadFirstValue(records, n - 1, k);
    }
  }

  /** A read that fails reports the first record that does not decode. */
  lemma {:induction false} ReadFirstFailure(records: seq<seq<string>>, n: int)
    requires 0 <= n < |records| && ReadFirst(records, n).Failure?
    ensures exists k :: (1 <= k <= n && DecodeRecord(records[k], k) == Failure(ReadFirst(records, n).error) &&
      (forall m :: 1 <= m < k ==> DecodeRecord(records[m], m).Success?))
  {
    ReadFirstSucceedsIff(records, n - 1);
    if ReadFirst(records, n - 1).Failure? {
      ReadFirstFailure(records, n - 1);
    }
  }

  /** A puzzle file written out: the header record, then one record per grid holding its encoding. */
  function EncodedFile(header: seq<string>, grids: seq<Grid>): (records: seq<seq<string>>)
    requires forall k :: 0 <= k < |grids| ==> IsDigitGrid(grids[k])
    ensures |records| == |grids| + 1 && records[0] == header
    ensures forall k :: 1 <= k <= |grids| ==> records[k] == [Encode(grids[k - 1])]
  {
    [header] + seq(|grids|, k requires 0 <= k < |grids| => [Encode(grids[k])])
  }

  /** A written puzzle file reads back as the first 49 of its grids, in order. */
  lemma ReadEncoded(header: seq<string>, grids: seq<Grid>)
    requires forall k :: 0 <= k < |grids| ==> IsDigitGrid(grids[k])
    ensures var count := PuzzleCount(|grids| + 1);
      && count == (if |grids| < MaxPuzzles - 1 then |grids| else MaxPuzzles - 1)
      && ReadPuzzles(EncodedFile(header, grids)) == Success(map k | 0 <= k < count :: grids[k])
  {
    var records := EncodedFile(header, grids);
    var count := PuzzleCount(|records|);
    forall k | 1 <= k <= count ensures DecodeRecord(records[k], k) == Success(grids[k - 1]) {
      DecodeEncode(grids[k - 1], k);
    }
    ReadFirstDecoded(records, grids, count);
  }

  /** Records 1 .. n that decode to the first n grids read back as those grids, numbered from 0. */
  lemma {:induction false} ReadFirstDecoded(records: seq<seq<string>>, grids: seq<Grid>, n: int)
    requires 0 <= n < |records| && n <= |grids|
    requires forall k :: 1 <= k <= n ==> DecodeRecord(records[k], k) == Success(grids[k - 1])
    ensures ReadFirst(records, n) == Success(map k | 0 <= k < n :: grids[k])
  {
    if n > 0 {
      var before := map k | 0 <= k < n - 1 :: grids[k];
      assert ReadFirst(records, n - 1) == Success(before) by {
        ReadFirstDecoded(records, grids, n - 1);
      }
      ReadFirstStep(records, n, grids[n - 1]);
      PrefixMapExtend(grids, n);
    }
  }

  /** A record that decodes adds its grid to a successful read under the number before its line. */
  lemma ReadFirstStep(records: seq<seq<string>>, n: int, g: Grid)
    requires 0 < n < |records|
    requires ReadFirst(records, n - 1).Success? && DecodeRecord(records[n], n) == Success(g)
    ensures ReadFirst(records, n) == Success(ReadFirst(records, n - 1).value[n - 1 := g])
  {
  }

  /** Numbering the first n items is numbering the first n - 1 and adding item n - 1. */
  lemma PrefixMapExtend<T>(xs: seq<T>, n: int)
    requires 0 < n <= |xs|
    ensures (map k | 0 <= k < n - 1 :: xs[k])[n - 1 := xs[n - 1]] == map k | 0 <= k < n :: xs[k]
  {
    var before := (map k | 0 <= k < n - 1 :: xs[k])[n - 1 := xs[n - 1]];
    var after := map k | 0 <= k < n :: xs[k];
    assert before.Keys == after.Keys;
  }

  /**
   * Every puzzle of a file that reads is a digit grid, and the puzzles are
   * numbered 0 .. n - 1 with at most 49 of them.
   */
  lemma ReadPuzzlesDigits(records: seq<seq<string>>)
    requires ReadPuzzles(records).Success?
    ensures forall id :: id in ReadPuzzles(records).value <==> 0 <= id < PuzzleCount(|records|)
    ensures |ReadPuzzles(records).value| == PuzzleCount(|records|)
    ensures forall id :: id in ReadPuzzles(records).value ==> IsDigitGrid(ReadPuzzles(records).value[id])
  {
    if |records| > 0 {
      ReadFirstContents(records, PuzzleCount(|records|));
    }
    NumberedMapSize(ReadPuzzles(records).value, PuzzleCount(|records|));
  }

  /** A set holding exactly 0 .. n - 1 has n members. */
  lemma {:induction false} NumberedSetSize(keys: set<int>, n: nat)
    requires forall id :: id in keys <==> 0 <= id < n
    ensures |keys| == n
    decreases n
  {
    if n == 0 {
      assert keys == {} by {
        forall id | id in keys ensures false {
        }
      }
    } else {
      var rest := keys - {n - 1};
      NumberedSetSize(rest, n - 1);
      assert keys == rest + {n - 1};
    }
  }

  /** A map whose keys are exactly 0 .. n - 1 has n entries. */
  lemma NumberedMapSize<T>(m: map<int, T>, n: nat)
    requires forall id :: id in m <==> 0 <= id < n
    ensures |m| == n
  {
    NumberedSetSize(m.Keys, n);
    assert |m| == |m.Keys|;
  }

  /**
   * `__read_puzzle_csv` after the file is opened: the header record is
   * skipped, the loop stops when the line count reaches `MaxPuzzles`, and
   * each record's first field is decoded into `puzzles[line_count - 1]`.
   */
  method ReadPuzzleCsv(records: seq<seq<string>>) returns (r: Result<map<int, Grid>>)
    ensures r == ReadPuzzles(records)
  {
    var puzzles: map<int, Grid> := map[];
    var lineCount := 0;
    for t := 0 to |records|
      invariant lineCount == t && t <= MaxPuzzles
      invariant t > 0 ==> ReadFirst(records, t - 1) == Success(puzzles)
      invariant t == 0 ==> puzzles == map[]
    {
      var record := records[t];
      if lineCount == 0 {
        lineCount := lineCount + 1;
        continue;
      }
      if lineCount == MaxPuzzles {
        break;
      }
      if |record| == 0 {
        ReadFirstFails(records, t, PuzzleCount(|records|));
        return Failure(MissingField(lineCount));
      }
      var grid := DecodeDigits(record[0], lineCount);
      if grid.Failure? {
        ReadFirstFails(records, t, PuzzleCount(|records|));
        return Failure(grid.error);
      }
      puzzles := puzzles[lineCount - 1 := grid.value];
      lineCount := lineCount + 1;
    }
    assert lineCount > 0 ==> lineCount - 1 == PuzzleCount(|records|);
    r := Success(puzzles);
  }

  /** Once a record fails, every longer read fails with its error. */
  lemma {:induction false} ReadFirstFails(records: seq<seq<string>>, n: int, m: int)
    requires 0 < n <= m < |records|
    requires ReadFirst(records, n - 1).Success? && DecodeRecord(records[n], n).Failure?
    ensures ReadFirst(records, m) == Failure(DecodeRecord(records[n], n).error)
    decreases m - n
  {
    if m > n {
      ReadFirstFails(records, n, m - 1);
    }
  }
}
