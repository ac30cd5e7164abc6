/**
 * The Sudoku constraint engine: puzzle-string validation, the 9x9 table,
 * the row / column / region placement predicates, the copy-on-write update
 * and the chronological backtracking search.
 *
 * Rows are keyed by the letters 'A'..'I' and columns by the characters
 * '0'..'8', as in the original; internally row k of a table is `t[k]`.
 */
module SudokuSolver {

  datatype Option<T> = None | Some(value: T)

  // ---------------------------------------------------------------------
  // Validation
  // ---------------------------------------------------------------------

  const LengthError: string := "Expected puzzle to be 81 characters long"
  const CharacterError: string := "Invalid characters in puzzle"
  const ValueError: string := "Invalid value"
  const CoordinateError: string := "Invalid coordinate"

  /** What the validators return: `false` (Pass) or an error message. */
  datatype Verdict = Pass | Fail(message: string)

  /** A regular-expression bracket class such as `[1-9.]`: inclusive ranges. */
  type CharClass = seq<(char, char)>

  const PuzzleClass: CharClass := [('1', '9'), ('.', '.')]
  const ValueClass: CharClass := [('1', '9')]
  const RowClass: CharClass := [('A', 'I')]
  const ColumnClass: CharClass := [('0', '8')]

  predicate InClass(c: char, cls: CharClass)
  {
    |cls| > 0 && ((cls[0].0 <= c <= cls[0].1) || InClass(c, cls[1..]))
  }

  /** The regular expression `^[cls]+$`: one or more characters, all in the class. */
  predicate MatchesPlus(s: string, cls: CharClass)
    ensures MatchesPlus(s, cls) <==> |s| > 0 && forall i :: 0 <= i < |s| ==> InClass(s[i], cls)
  {
    |s| > 0 && InClass(s[0], cls) &&
    (|s| == 1 ||
     (assert forall i :: 0 < i < |s| ==> s[1..][i - 1] == s[i];
      MatchesPlus(s[1..], cls)))
  }

  /** The regular expression `^[cls]{1}$`: exactly one character, in the class. */
  predicate MatchesOnce(s: string, cls: CharClass)
  {
    |s| == 1 && InClass(s[0], cls)
  }

  predicate IsPuzzleChar(c: char) { '1' <= c <= '9' || c == '.' }

  lemma PuzzleClassMembers()
    ensures forall c :: InClass(c, PuzzleClass) <==> IsPuzzleChar(c)
  {
    var dot: CharClass := [('.', '.')];
    assert PuzzleClass[1..] == dot;
    assert dot[1..] == [];
    forall c
      ensures InClass(c, PuzzleClass) <==> IsPuzzleChar(c)
    {
      assert InClass(c, PuzzleClass) == (('1' <= c <= '9') || InClass(c, dot));
      assert InClass(c, dot) == (c == '.' || InClass(c, []));
    }
  }

  /** A puzzle string that passes validation. */
  predicate IsPuzzleString(s: string)
  {
    |s| == 81 && forall i :: 0 <= i < |s| ==> IsPuzzleChar(s[i])
  }

  /** validatePuzzle: the length is checked first, then the characters. */
  function ValidatePuzzle(puzzle: string): (v: Verdict)
    ensures v == Fail(LengthError) <==> |puzzle| != 81
    ensures v == Fail(CharacterError) <==>
              |puzzle| == 81 && exists i :: 0 <= i < |puzzle| && !IsPuzzleChar(puzzle[i])
    ensures v == Pass <==> IsPuzzleString(puzzle)
  {
    PuzzleClassMembers();
    if |puzzle| != 81 then Fail(LengthError)
    else if !MatchesPlus(puzzle, PuzzleClass) then Fail(CharacterError)
    else Pass
  }

  predicate IsRowKey(c: char) { 'A' <= c <= 'I' }
  predicate IsColKey(c: char) { '0' <= c <= '8' }

  /** A value that is a single digit 1-9. */
  predicate IsValue(s: string) { |s| == 1 && '1' <= s[0] <= '9' }

  /** A row that is a single letter A-I and a column that is a single character 0-8. */
  predicate IsCoordinate(rowC: string, colC: string)
  {
    |rowC| == 1 && IsRowKey(rowC[0]) && |colC| == 1 && IsColKey(colC[0])
  }

  /** validateFields: the value is checked before the coordinate. */
  function ValidateFields(rowC: string, colC: string, value: string): (v: Verdict)
    ensures v == Fail(ValueError) <==> !IsValue(value)
    ensures v == Fail(CoordinateError) <==> IsValue(value) && !IsCoordinate(rowC, colC)
    ensures v == Pass <==> IsValue(value) && IsCoordinate(rowC, colC)
  {
    assert forall c :: InClass(c, ValueClass) <==> '1' <= c <= '9';
    assert forall c :: InClass(c, RowClass) <==> IsRowKey(c);
    assert forall c :: InClass(c, ColumnClass) <==> IsColKey(c);
    if !MatchesOnce(value, ValueClass) then Fail(ValueError)
    else if !MatchesOnce(rowC, RowClass) || !MatchesOnce(colC, ColumnClass) then Fail(CoordinateError)
    else Pass
  }

  // ---------------------------------------------------------------------
  // The table
  // ---------------------------------------------------------------------

  function RowIndex(key: char): (i: nat)
    requires IsRowKey(key)
    ensures i < 9
  {
    key as int - 'A' as int
  }

  function ColIndex(key: char): (j: nat)
    requires IsColKey(key)
    ensures j < 9
  {
    key as int - '0' as int
  }

  function RowKey(i: nat): (key: char)
    requires i < 9
    ensures IsRowKey(key) && RowIndex(key) == i
  {
    ('A' as int + i) as char
  }

  function ColKey(j: nat): (key: char)
    requires j < 9
    ensures IsColKey(key) && ColIndex(key) == j
  {
    ('0' as int + j) as char
  }

  /** Nine rows of nine cells. */
  predicate IsTable<T>(t: seq<seq<T>>)
  {
    |t| == 9 && forall i :: 0 <= i < 9 ==> |t[i]| == 9
  }

  function Min(a: int, b: int): int { if a < b then a else b }

  /** The characters of row k of `s`, as JavaScript's `slice` gives them (clamped to the string). */
  function RowSlice(s: string, k: nat): string
  {
    s[Min(9 * k, |s|)..Min(9 * k + 9, |s|)]
  }

  /** The rows A..I of a puzzle string. */
  ghost function RowsOf(s: string): (t: seq<seq<char>>)
    ensures |t| == 9
  {
    seq(9, k requires 0 <= k < 9 => RowSlice(s, k))
  }

  /** The concatenation of a sequence of rows. */
  function Join<T>(rows: seq<seq<T>>): seq<T>
  {
    if rows == [] then [] else rows[0] + Join(rows[1..])
  }

  lemma {:induction false} JoinRowSlices(s: string, k: nat)
    requires |s| == 81 && k <= 9
    ensures Join(RowsOf(s)[k..]) == s[9 * k..]
    decreases 9 - k
  {
    var t := RowsOf(s);
    if k == 9 {
      assert t[k..] == [];
    } else {
      JoinRowSlices(s, k + 1);
      assert t[k..][1..] == t[k + 1..];
      assert s[9 * k..] == s[9 * k..9 * k + 9] + s[9 * k + 9..];
    }
  }

  /** For a string of 81 characters, the rows form a table and give back the string. */
  lemma RowsOfRoundTrip(s: string)
    requires |s| == 81
    ensures IsTable(RowsOf(s))
    ensures forall k, j :: 0 <= k < 9 && 0 <= j < 9 ==> RowsOf(s)[k][j] == s[9 * k + j]
    ensures Join(RowsOf(s)) == s
  {
    JoinRowSlices(s, 0);
    assert RowsOf(s)[0..] == RowsOf(s);
  }

  /** One step of makeTable: the next nine characters of what is left are the next row. */
  lemma SliceStep(s: string, k: nat, values: string)
    requires values == s[Min(9 * k, |s|)..]
    ensures values[..Min(9, |values|)] == RowSlice(s, k)
    ensures values[Min(9, |values|)..] == s[Min(9 * (k + 1), |s|)..]
  {
    var a := Min(9 * k, |s|);
    assert Min(9 * k + 9, |s|) == a + Min(9, |values|);
  }

  /** makeTable: cut the string into the rows A..I, nine characters each. */
  method MakeTable(puzzleString: string) returns (puzzleTable: seq<seq<char>>)
    ensures puzzleTable == RowsOf(puzzleString)
    ensures |puzzleString| == 81 ==> IsTable(puzzleTable) && Join(puzzleTable) == puzzleString
  {
    var values := puzzleString;
    puzzleTable := [];
    for k := 0 to 9
      invariant |puzzleTable| == k
      invariant values == puzzleString[Min(9 * k, |puzzleString|)..]
      invariant forall m :: 0 <= m < k ==> puzzleTable[m] == RowSlice(puzzleString, m)
    {
      SliceStep(puzzleString, k, values);
      var rowArray := values[..Min(9, |values|)];
      puzzleTable := puzzleTable + [rowArray];
      values := values[Min(9, |values|)..];
    }
    if |puzzleString| == 81 {
      RowsOfRoundTrip(puzzleString);
    }
  }

  // ---------------------------------------------------------------------
  // Placement predicates
  // ---------------------------------------------------------------------

  /** The index of the 3-row (or 3-column) band holding index i. */
  function Band(i: int): int
  {
    if i < 3 then 0 else if i < 6 then 1 else 2
  }

  predicate SameRegion(i1: int, j1: int, i2: int, j2: int)
  {
    Band(i1) == Band(i2) && Band(j1) == Band(j2)
  }

  ghost predicate RowFree<T>(t: seq<seq<T>>, i: int, v: T)
    requires IsTable(t) && 0 <= i < 9
  {
    forall j :: 0 <= j < 9 ==> t[i][j] != v
  }

  ghost predicate ColFree<T>(t: seq<seq<T>>, j: int, v: T)
    requires IsTable(t) && 0 <= j < 9
  {
    forall i :: 0 <= i < 9 ==> t[i][j] != v
  }

  ghost predicate RegionFree<T>(t: seq<seq<T>>, i: int, j: int, v: T)
    requires IsTable(t)
  {
    forall r, c :: 0 <= r < 9 && 0 <= c < 9 && SameRegion(r, c, i, j) ==> t[r][c] != v
  }

  /** checkRowPlacement: the value is absent from the whole row (the target cell included). */
  function CheckRowPlacement<T(==)>(table: seq<seq<T>>, row: char, value: T): (ok: bool)
    requires IsTable(table) && IsRowKey(row)
    ensures ok <==> RowFree(table, RowIndex(row), value)
  {
    value !in table[RowIndex(row)]
  }

  /** checkColPlacement: collect column `column` from every row, then look for the value. */
  method CheckColPlacement<T(==)>(table: seq<seq<T>>, column: char, value: T) returns (ok: bool)
    requires IsTable(table) && IsColKey(column)
    ensures ok <==> ColFree(table, ColIndex(column), value)
  {
    var col: seq<T> := [];
    var i := ColIndex(column);
    for r := 0 to 9
      invariant |col| == r
      invariant forall m :: 0 <= m < r ==> col[m] == table[m][i]
    {
      col := col + [table[r][i]];
    }
    ok := value !in col;
  }

  /**
   * checkRegionPlacement: pick the three rows of the row group (ABC, DEF or
   * GHI) that holds `row`, cut the three columns of the column group (012,
   * 345 or 678) that holds `column`, and look for the value in those 9 cells.
   */
  method CheckRegionPlacement<T(==)>(table: seq<seq<T>>, row: char, column: char, value: T)
    returns (ok: bool)
    requires IsTable(table) && IsRowKey(row) && IsColKey(column)
    ensures ok <==> RegionFree(table, RowIndex(row), ColIndex(column), value)
  {
    var regionRowsTable := [("ABC", table[0..3]), ("DEF", table[3..6]), ("GHI", table[6..9])];
    var ri := RowIndex(row);
    var rows: seq<seq<T>> := [];
    for g := 0 to 3
      invariant rows == if Band(ri) < g then table[3 * Band(ri)..3 * Band(ri) + 3] else []
    {
      if row in regionRowsTable[g].0 {
        rows := regionRowsTable[g].1;
      }
    }
    var rowsAndCols: seq<T> := [];
    if column in "012" { rowsAndCols := rows[0][0..3] + rows[1][0..3] + rows[2][0..3]; }
    if column in "345" { rowsAndCols := rows[0][3..6] + rows[1][3..6] + rows[2][3..6]; }
    if column in "678" { rowsAndCols := rows[0][6..9] + rows[1][6..9] + rows[2][6..9]; }
    BlockCells(table, ri, ColIndex(column), rowsAndCols, value);
    ok := value !in rowsAndCols;
  }

  /** Cell 3*dr + dc of three concatenated 3-cell slices is cell dc of slice dr. */
  lemma ThreeSlices<T>(cells: seq<T>, s0: seq<T>, s1: seq<T>, s2: seq<T>)
    requires |s0| == 3 && |s1| == 3 && |s2| == 3 && cells == s0 + s1 + s2
    ensures |cells| == 9
    ensures forall dc :: 0 <= dc < 3 ==> cells[dc] == s0[dc] && cells[3 + dc] == s1[dc] && cells[6 + dc] == s2[dc]
  {
  }

  /** The nine cells cut out by CheckRegionPlacement are exactly the block's cells. */
  lemma BlockCells<T>(t: seq<seq<T>>, i: nat, j: nat, cells: seq<T>, v: T)
    requires IsTable(t) && i < 9 && j < 9
    requires cells == t[3 * Band(i)][3 * Band(j)..3 * Band(j) + 3]
                    + t[3 * Band(i) + 1][3 * Band(j)..3 * Band(j) + 3]
                    + t[3 * Band(i) + 2][3 * Band(j)..3 * Band(j) + 3]
    ensures v !in cells <==> RegionFree(t, i, j, v)
  {
    var r0, c0 := 3 * Band(i), 3 * Band(j);
    assert 0 <= r0 <= 6 && 0 <= c0 <= 6;
    var s0, s1, s2 := t[r0][c0..c0 + 3], t[r0 + 1][c0..c0 + 3], t[r0 + 2][c0..c0 + 3];
    ThreeSlices(cells, s0, s1, s2);
    if v in cells {
      var k :| 0 <= k < 9 && cells[k] == v;
      var r, c;
      if k < 3 {
        r, c := r0, c0 + k;
        assert cells[k] == s0[k];
      } else if k < 6 {
        r, c := r0 + 1, c0 + (k - 3);
        assert cells[3 + (k - 3)] == s1[k - 3];
      } else {
        r, c := r0 + 2, c0 + (k - 6);
        assert cells[6 + (k - 6)] == s2[k - 6];
      }
      assert SameRegion(r, c, i, j) && t[r][c] == v;
    } else {
      forall r, c | 0 <= r < 9 && 0 <= c < 9 && SameRegion(r, c, i, j)
        ensures t[r][c] != v
      {
        assert r0 <= r < r0 + 3 && c0 <= c < c0 + 3;
        var dc := c - c0;
        if r == r0 {
          assert cells[dc] == t[r][c];
        } else if r == r0 + 1 {
          assert cells[3 + dc] == t[r][c];
        } else {
          assert cells[6 + dc] == t[r][c];
        }
      }
    }
  }

  /**
   * update: a copy of the table in which the single cell (key, i) holds `value`.
   * The table passed in is a value and is left as it was.
   */
  function Update<T>(sudoku: seq<seq<T>>, key: char, i: char, value: T): (updated: seq<seq<T>>)
    requires IsTable(sudoku) && IsRowKey(key) && IsColKey(i)
    ensures IsTable(updated)
    ensures updated[RowIndex(key)][ColIndex(i)] == value
    ensures forall r, c :: 0 <= r < 9 && 0 <= c < 9 && (r != RowIndex(key) || c != ColIndex(i)) ==>
              updated[r][c] == sudoku[r][c]
  {
    var row := RowIndex(key);
    sudoku[row := sudoku[row][ColIndex(i) := value]]
  }

  // ---------------------------------------------------------------------
  // The search
  // ---------------------------------------------------------------------

  /**
   * A cell of the search board. The original marks an empty cell with its
   * own coordinate string ("A0"), which never equals a one-character digit;
   * `Empty` plays that part here.
   */
  datatype Cell = Digit(symbol: char) | Empty

  type Board = seq<seq<Cell>>

  /** A frontier entry: the row letter and the column character of an empty cell. */
  datatype Coord = Coord(row: char, col: char)

  predicate IsCoord(c: Coord) { IsRowKey(c.row) && IsColKey(c.col) }

  predicate AllCoords(f: seq<Coord>) { forall k :: 0 <= k < |f| ==> IsCoord(f[k]) }

  /** The board cell for a puzzle character: '.' is an empty cell. */
  function CellOf(c: char): Cell { if c == '.' then Empty else Digit(c) }

  /** The character a cell contributes to the solution string. */
  function CellChar(c: Cell): char { if c.Digit? then c.symbol else '.' }

  predicate IsDigitCell(v: Cell) { v.Digit? && '1' <= v.symbol <= '9' }

  /** The candidate `String(d)` for d in 1..9. */
  function DigitCell(d: int): (v: Cell)
    requires 1 <= d <= 9
    ensures IsDigitCell(v) && v.symbol as int - '0' as int == d
  {
    Digit(('0' as int + d) as char)
  }

  /** The three placement predicates together, as the search combines them. */
  ghost predicate Legal(b: Board, c: Coord, v: Cell)
    requires IsTable(b) && IsCoord(c)
  {
    RowFree(b, RowIndex(c.row), v) && ColFree(b, ColIndex(c.col), v) &&
    RegionFree(b, RowIndex(c.row), ColIndex(c.col), v)
  }

  /**
   * The result of backtracking from `board` over the frontier: the board
   * itself when the frontier is empty, otherwise the first success among the
   * digits 1..9 tried at the first frontier cell.
   */
  ghost function Search(board: Board, frontier: seq<Coord>): (r: Option<Board>)
    requires IsTable(board) && AllCoords(frontier)
    ensures r.Some? ==> IsTable(r.value)
    decreases |frontier|, 10
  {
    if |frontier| == 0 then Some(board) else TryDigits(board, frontier, 1)
  }

  /** The search below the first frontier cell after placing digit d there. */
  ghost function Child(board: Board, frontier: seq<Coord>, d: int): (r: Option<Board>)
    requires IsTable(board) && AllCoords(frontier) && |frontier| > 0 && 1 <= d <= 9
    ensures r.Some? ==> IsTable(r.value)
    decreases |frontier|, 0
  {
    Search(Update(board, frontier[0].row, frontier[0].col, DigitCell(d)), frontier[1..])
  }

  /** The loop of backtrackingSolver from digit d on. */
  ghost function TryDigits(board: Board, frontier: seq<Coord>, d: int): (r: Option<Board>)
    requires IsTable(board) && AllCoords(frontier) && |frontier| > 0 && 1 <= d <= 10
    ensures r.Some? ==> IsTable(r.value)
    decreases |frontier|, 10 - d
  {
    if d == 10 then None
    else if Legal(board, frontier[0], DigitCell(d)) && Child(board, frontier, d).Some? then
      Child(board, frontier, d)
    else TryDigits(board, frontier, d + 1)
  }

  /**
   * Digits are tried in ascending order: the loop from d fails exactly when
   * every digit from d on is illegal or leads to a failing search, and when
   * it succeeds its result is that of the first digit that is legal and
   * leads to a success.
   */
  lemma {:induction false} TryDigitsFirst(board: Board, frontier: seq<Coord>, d: int)
    requires IsTable(board) && AllCoords(frontier) && |frontier| > 0 && 1 <= d <= 10
    ensures TryDigits(board, frontier, d).None? <==>
              forall e :: d <= e <= 9 ==>
                !Legal(board, frontier[0], DigitCell(e)) || Child(board, frontier, e).None?
    ensures TryDigits(board, frontier, d).Some? ==>
              exists e :: d <= e <= 9 && Legal(board, frontier[0], DigitCell(e)) &&
                Child(board, frontier, e) == TryDigits(board, frontier, d) &&
                forall e' :: d <= e' < e ==>
                  !Legal(board, frontier[0], DigitCell(e')) || Child(board, frontier, e').None?
    decreases 10 - d
  {
    if d < 10 {
      TryDigitsFirst(board, frontier, d + 1);
      if !(Legal(board, frontier[0], DigitCell(d)) && Child(board, frontier, d).Some?) &&
         TryDigits(board, frontier, d).Some? {
        var e :| d + 1 <= e <= 9 && Legal(board, frontier[0], DigitCell(e)) &&
                 Child(board, frontier, e) == TryDigits(board, frontier, d + 1) &&
                 forall e' :: d + 1 <= e' < e ==>
                   !Legal(board, frontier[0], DigitCell(e')) || Child(board, frontier, e').None?;
        assert forall e' :: d <= e' < e ==>
                 !Legal(board, frontier[0], DigitCell(e')) || Child(board, frontier, e').None?;
      }
    }
  }

  /** backtrackingSolver's three behaviours, for a non-empty frontier. */
  lemma SearchFirstSuccess(board: Board, frontier: seq<Coord>)
    requires IsTable(board) && AllCoords(frontier) && |frontier| > 0
    ensures Search(board, frontier).None? <==>
              forall e :: 1 <= e <= 9 ==>
                !Legal(board, frontier[0], DigitCell(e)) || Child(board, frontier, e).None?
    ensures Search(board, frontier).Some? ==>
              exists e :: 1 <= e <= 9 && Legal(board, frontier[0], DigitCell(e)) &&
                Child(board, frontier, e) == Search(board, frontier) &&
                forall e' :: 1 <= e' < e ==>
                  !Legal(board, frontier[0], DigitCell(e')) || Child(board, frontier, e').None?
  {
    TryDigitsFirst(board, frontier, 1);
  }

  /**
   * backtrackingSolver: with an empty frontier the board is returned;
   * otherwise the digits 1..9 are tried in order at the first frontier cell,
   * recursing on each one that passes the three predicates, and the first
   * success is returned; `None` (the original's `false`) when all fail.
   */
  method BacktrackingSolver(board: Board, incomplete: seq<Coord>) returns (result: Option<Board>)
    requires IsTable(board) && AllCoords(incomplete)
    ensures |incomplete| == 0 ==> result == Some(board)
    ensures result == Search(board, incomplete)
    decreases |incomplete|
  {
    if |incomplete| == 0 {
      return Some(board);
    }
    var cell := incomplete[0];
    var row, col := cell.row, cell.col;
    for i := 1 to 10
      invariant TryDigits(board, incomplete, i) == Search(board, incomplete)
    {
      var val := DigitCell(i);
      var valid := CheckRowPlacement(board, row, val);
      if valid {
        valid := CheckColPlacement(board, col, val);
      }
      if valid {
        valid := CheckRegionPlacement(board, row, col, val);
      }
      if valid {
        var newBoard := Update(board, row, col, val);
        var success := BacktrackingSolver(newBoard, incomplete[1..]);
        if success.Some? {
          return success;
        }
      }
    }
    return None;
  }

  // ---------------------------------------------------------------------
  // Soundness and completeness of the search
  // ---------------------------------------------------------------------

  /** Two different cells in the same row, column or region. */
  predicate Peer(i1: int, j1: int, i2: int, j2: int)
  {
    (i1 != i2 || j1 != j2) && (i1 == i2 || j1 == j2 || SameRegion(i1, j1, i2, j2))
  }

  /** The frontier lists every empty cell of the board exactly once. */
  ghost predicate FrontierOf(b: Board, f: seq<Coord>)
    requires IsTable(b)
  {
    AllCoords(f) &&
    (forall k :: 0 <= k < |f| ==> b[RowIndex(f[k].row)][ColIndex(f[k].col)] == Empty) &&
    (forall k, l :: 0 <= k < l < |f| ==> f[k] != f[l]) &&
    (forall i, j :: 0 <= i < 9 && 0 <= j < 9 && b[i][j] == Empty ==> Coord(RowKey(i), ColKey(j)) in f)
  }

  /** r keeps every non-empty cell of b and holds a digit 1-9 in every empty one. */
  ghost predicate Extends(r: Board, b: Board)
    requires IsTable(r) && IsTable(b)
  {
    forall i, j :: 0 <= i < 9 && 0 <= j < 9 ==>
      if b[i][j] == Empty then IsDigitCell(r[i][j]) else r[i][j] == b[i][j]
  }

  /** In r, no cell that is empty in b equals any other cell of its row, column or region. */
  ghost predicate FilledConsistent(r: Board, b: Board)
    requires IsTable(r) && IsTable(b)
  {
    forall i1, j1, i2, j2 ::
      (0 <= i1 < 9 && 0 <= j1 < 9 && 0 <= i2 < 9 && 0 <= j2 < 9 &&
       b[i1][j1] == Empty && Peer(i1, j1, i2, j2)) ==> r[i1][j1] != r[i2][j2]
  }

  lemma KeyRoundTrip(c: Coord)
    requires IsCoord(c)
    ensures RowKey(RowIndex(c.row)) == c.row && ColKey(ColIndex(c.col)) == c.col
  {
  }

  /** Filling the first frontier cell leaves the rest of the frontier as the new board's frontier. */
  lemma FrontierStep(b: Board, f: seq<Coord>, v: Cell)
    requires IsTable(b) && FrontierOf(b, f) && |f| > 0 && v != Empty
    ensures FrontierOf(Update(b, f[0].row, f[0].col, v), f[1..])
  {
    var b' := Update(b, f[0].row, f[0].col, v);
    var ci, cj := RowIndex(f[0].row), ColIndex(f[0].col);
    KeyRoundTrip(f[0]);
    forall k | 0 <= k < |f| - 1
      ensures b'[RowIndex(f[1..][k].row)][ColIndex(f[1..][k].col)] == Empty
    {
      assert f[k + 1] != f[0];
      KeyRoundTrip(f[k + 1]);
    }
    forall i, j | 0 <= i < 9 && 0 <= j < 9 && b'[i][j] == Empty
      ensures Coord(RowKey(i), ColKey(j)) in f[1..]
    {
      var k :| 0 <= k < |f| && f[k] == Coord(RowKey(i), ColKey(j));
      assert k != 0;
      assert f[1..][k - 1] == f[k];
    }
  }

  /**
   * Soundness: a successful search keeps every given cell, puts a digit
   * 1-9 in every frontier cell, and no filled-in digit clashes with any
   * other cell of its row, column or region.
   */
  lemma {:induction false} SearchSound(b: Board, f: seq<Coord>)
    requires IsTable(b) && FrontierOf(b, f) && Search(b, f).Some?
    ensures Extends(Search(b, f).value, b) && FilledConsistent(Search(b, f).value, b)
    decreases |f|
  {
    var r := Search(b, f).value;
    if |f| == 0 {
      assert r == b;
      forall i, j | 0 <= i < 9 && 0 <= j < 9
        ensures b[i][j] != Empty
      {
        var key := Coord(RowKey(i), ColKey(j));
        assert b[i][j] == Empty ==> key in f;
      }
    } else {
      SearchFirstSuccess(b, f);
      var e :| 1 <= e <= 9 && Legal(b, f[0], DigitCell(e)) && Child(b, f, e) == Search(b, f);
      var v := DigitCell(e);
      var b' := Update(b, f[0].row, f[0].col, v);
      var ci, cj := RowIndex(f[0].row), ColIndex(f[0].col);
      FrontierStep(b, f, v);
      SearchSound(b', f[1..]);
      assert r == Search(b', f[1..]).value;
      assert r[ci][cj] == v;
      forall i, j | 0 <= i < 9 && 0 <= j < 9
        ensures if b[i][j] == Empty then IsDigitCell(r[i][j]) else r[i][j] == b[i][j]
      {
        if i != ci || j != cj {
          assert b'[i][j] == b[i][j];
        }
      }
      forall i1, j1, i2, j2 |
        0 <= i1 < 9 && 0 <= j1 < 9 && 0 <= i2 < 9 && 0 <= j2 < 9 &&
        b[i1][j1] == Empty && Peer(i1, j1, i2, j2)
        ensures r[i1][j1] != r[i2][j2]
      {
        if i1 == ci && j1 == cj {
          if b'[i2][j2] == Empty {
            assert Peer(i2, j2, i1, j1);
          } else {
            assert b'[i2][j2] == b[i2][j2] && r[i2][j2] == b[i2][j2];
            if i1 == i2 {
              assert RowFree(b, ci, v);
            } else if j1 == j2 {
              assert ColFree(b, cj, v);
            } else {
              assert RegionFree(b, ci, cj, v) && SameRegion(i2, j2, ci, cj);
            }
          }
        } else {
          assert b'[i1][j1] == Empty;
        }
      }
    }
  }

  /**
   * Completeness: if some completion C of the board keeps its given cells,
   * fills its empty cells with digits and has no filled digit clashing with
   * another cell, then the search does not fail.
   */
  lemma {:induction false} SearchComplete(b: Board, f: seq<Coord>, C: Board)
    requires IsTable(b) && IsTable(C) && FrontierOf(b, f)
    requires Extends(C, b) && FilledConsistent(C, b)
    ensures Search(b, f).Some?
    decreases |f|
  {
    if |f| > 0 {
      var ci, cj := RowIndex(f[0].row), ColIndex(f[0].col);
      assert b[ci][cj] == Empty;
      var v := C[ci][cj];
      var e := v.symbol as int - '0' as int;
      assert DigitCell(e) == v;
      forall j | 0 <= j < 9
        ensures b[ci][j] != v
      {
        if j != cj && b[ci][j] != Empty {
          assert Peer(ci, cj, ci, j);
        }
      }
      forall i | 0 <= i < 9
        ensures b[i][cj] != v
      {
        if i != ci && b[i][cj] != Empty {
          assert Peer(ci, cj, i, cj);
        }
      }
      forall r, c | 0 <= r < 9 && 0 <= c < 9 && SameRegion(r, c, ci, cj)
        ensures b[r][c] != v
      {
        if (r != ci || c != cj) && b[r][c] != Empty {
          assert Peer(ci, cj, r, c);
        }
      }
      assert Legal(b, f[0], DigitCell(e));
      var b' := Update(b, f[0].row, f[0].col, v);
      FrontierStep(b, f, v);
      forall i, j | 0 <= i < 9 && 0 <= j < 9
        ensures if b'[i][j] == Empty then IsDigitCell(C[i][j]) else C[i][j] == b'[i][j]
      {
        if i != ci || j != cj {
          assert b'[i][j] == b[i][j];
        }
      }
      forall i1, j1, i2, j2 |
        0 <= i1 < 9 && 0 <= j1 < 9 && 0 <= i2 < 9 && 0 <= j2 < 9 &&
        b'[i1][j1] == Empty && Peer(i1, j1, i2, j2)
        ensures C[i1][j1] != C[i2][j2]
      {
        assert b[i1][j1] == Empty;
      }
      SearchComplete(b', f[1..], C);
      assert Child(b, f, e).Some?;
      SearchFirstSuccess(b, f);
    }
  }

  // ---------------------------------------------------------------------
  // solve
  // ---------------------------------------------------------------------

  /** Character (i, j) of an 81-character puzzle string: row i, column j. */
  function At(s: string, i: int, j: int): char
    requires |s| == 81 && 0 <= i < 9 && 0 <= j < 9
  {
    s[9 * i + j]
  }

  /**
   * s completes puzzle p: every given character is kept, every '.' becomes
   * a digit 1-9, and no filled-in digit equals any other cell of its row,
   * column or region. The givens are not checked against each other.
   */
  ghost predicate IsSolutionOf(s: string, p: string)
  {
    |s| == 81 && |p| == 81 &&
    (forall i, j :: 0 <= i < 9 && 0 <= j < 9 && At(p, i, j) != '.' ==> At(s, i, j) == At(p, i, j)) &&
    (forall i, j :: 0 <= i < 9 && 0 <= j < 9 && At(p, i, j) == '.' ==> '1' <= At(s, i, j) <= '9') &&
    (forall i1, j1, i2, j2 ::
       (0 <= i1 < 9 && 0 <= j1 < 9 && 0 <= i2 < 9 && 0 <= j2 < 9 &&
        At(p, i1, j1) == '.' && Peer(i1, j1, i2, j2)) ==> At(s, i1, j1) != At(s, i2, j2))
  }

  ghost predicate Solvable(p: string)
  {
    exists s :: IsSolutionOf(s, p)
  }

  /** A solution of a valid puzzle string is made of the digits 1-9 only. */
  lemma SolutionDigits(s: string, p: string)
    requires IsPuzzleString(p) && IsSolutionOf(s, p)
    ensures forall k :: 0 <= k < |s| ==> '1' <= s[k] <= '9'
  {
    forall k | 0 <= k < |s|
      ensures '1' <= s[k] <= '9'
    {
      var i, j := k / 9, k % 9;
      assert At(s, i, j) == s[k] && At(p, i, j) == p[k];
    }
  }

  /** b is the search board that solve builds from puzzle p. */
  ghost predicate Encodes(b: Board, p: string)
  {
    IsTable(b) && |p| == 81 &&
    forall i, j :: 0 <= i < 9 && 0 <= j < 9 ==> b[i][j] == CellOf(At(p, i, j))
  }

  /** s is the string that board r joins into. */
  ghost predicate Renders(r: Board, s: string)
    requires IsTable(r)
  {
    |s| == 81 && forall i, j :: 0 <= i < 9 && 0 <= j < 9 ==> At(s, i, j) == CellChar(r[i][j])
  }

  /** A board found by a sound search joins into a solution of the puzzle. */
  lemma SolutionOfSearch(b: Board, p: string, r: Board, s: string)
    requires Encodes(b, p) && IsTable(r) && Extends(r, b) && FilledConsistent(r, b) && Renders(r, s)
    ensures IsSolutionOf(s, p)
  {
    forall i1, j1, i2, j2 |
      0 <= i1 < 9 && 0 <= j1 < 9 && 0 <= i2 < 9 && 0 <= j2 < 9 &&
      At(p, i1, j1) == '.' && Peer(i1, j1, i2, j2)
      ensures At(s, i1, j1) != At(s, i2, j2)
    {
      assert b[i1][j1] == Empty;
      assert r[i1][j1] != r[i2][j2];
      assert r[i1][j1].Digit? && r[i2][j2].Digit?;
    }
  }

  /** When the search fails, the puzzle has no solution at all. */
  lemma NoSolutionWhenSearchFails(b: Board, f: seq<Coord>, p: string)
    requires Encodes(b, p) && FrontierOf(b, f) && Search(b, f).None?
    ensures !Solvable(p)
  {
    if Solvable(p) {
      var s :| IsSolutionOf(s, p);
      var C := seq(9, i requires 0 <= i < 9 => seq(9, j requires 0 <= j < 9 => Digit(At(s, i, j))));
      assert IsTable(C);
      assert Extends(C, b);
      forall i1, j1, i2, j2 |
        0 <= i1 < 9 && 0 <= j1 < 9 && 0 <= i2 < 9 && 0 <= j2 < 9 &&
        b[i1][j1] == Empty && Peer(i1, j1, i2, j2)
        ensures C[i1][j1] != C[i2][j2]
      {
        assert At(p, i1, j1) == '.';
      }
      SearchComplete(b, f, C);
    }
  }

  /** The position of a cell in row-major order: row A column 0 first, row I column 8 last. */
  function Pos(c: Coord): int
    requires IsCoord(c)
  {
    9 * RowIndex(c.row) + ColIndex(c.col)
  }

  /** The coordinates of the '.' characters among the first n of row `key`, left to right. */
  ghost function RowGaps(key: char, value: string, n: nat): (g: seq<Coord>)
    requires IsRowKey(key) && n <= 9 && n <= |value|
    ensures forall m :: 0 <= m < |g| ==> g[m].row == key && IsColKey(g[m].col) && ColIndex(g[m].col) < n
  {
    if n == 0 then []
    else RowGaps(key, value, n - 1) + (if value[n - 1] == '.' then [Coord(key, ColKey(n - 1))] else [])
  }

  /** The '.' cells of the first k rows, row by row: the frontier solve builds. */
  ghost function Gaps(board: seq<seq<char>>, k: nat): (g: seq<Coord>)
    requires IsTable(board) && k <= 9
    ensures AllCoords(g)
    ensures forall m :: 0 <= m < |g| ==> RowIndex(g[m].row) < k
  {
    if k == 0 then [] else Gaps(board, k - 1) + RowGaps(RowKey(k - 1), board[k - 1], 9)
  }

  /**
   * The gaps of a row are exactly its '.' columns below n, each once, in
   * ascending column order.
   */
  lemma {:induction false} RowGapsFacts(key: char, value: string, n: nat)
    requires IsRowKey(key) && n <= 9 && n <= |value|
    ensures forall m :: 0 <= m < |RowGaps(key, value, n)| ==>
              value[ColIndex(RowGaps(key, value, n)[m].col)] == '.'
    ensures forall m, m' :: 0 <= m < m' < |RowGaps(key, value, n)| ==>
              ColIndex(RowGaps(key, value, n)[m].col) < ColIndex(RowGaps(key, value, n)[m'].col)
    ensures forall j :: 0 <= j < n && value[j] == '.' ==> Coord(key, ColKey(j)) in RowGaps(key, value, n)
  {
    if n > 0 {
      RowGapsFacts(key, value, n - 1);
      var g, g' := RowGaps(key, value, n - 1), RowGaps(key, value, n);
      if value[n - 1] == '.' {
        assert g' == g + [Coord(key, ColKey(n - 1))];
      } else {
        assert g' == g;
      }
    }
  }

  /**
   * The gaps of the first k rows are exactly their '.' cells, each once, in
   * row-major order.
   */
  lemma {:induction false} GapsFacts(board: seq<seq<char>>, k: nat)
    requires IsTable(board) && k <= 9
    ensures forall m :: 0 <= m < |Gaps(board, k)| ==>
              board[RowIndex(Gaps(board, k)[m].row)][ColIndex(Gaps(board, k)[m].col)] == '.'
    ensures forall m, m' :: 0 <= m < m' < |Gaps(board, k)| ==> Pos(Gaps(board, k)[m]) < Pos(Gaps(board, k)[m'])
    ensures forall i, j :: 0 <= i < k && 0 <= j < 9 && board[i][j] == '.' ==>
              Coord(RowKey(i), ColKey(j)) in Gaps(board, k)
  {
    if k > 0 {
      GapsFacts(board, k - 1);
      var key := RowKey(k - 1);
      RowGapsFacts(key, board[k - 1], 9);
      var g, h := Gaps(board, k - 1), RowGaps(key, board[k - 1], 9);
      assert Gaps(board, k) == g + h;
      forall m | 0 <= m < |h|
        ensures RowIndex(h[m].row) == k - 1 && Pos(h[m]) == 9 * (k - 1) + ColIndex(h[m].col)
      {
      }
      forall m | 0 <= m < |g|
        ensures Pos(g[m]) < 9 * (k - 1)
      {
      }
    }
  }

  /**
   * The `value.map` callback of solve for one row: a '.' becomes an empty
   * cell and its coordinate is recorded; any other character is kept.
   */
  method TransformRow(key: char, value: string) returns (transformed: seq<Cell>, incompleteRow: seq<Coord>)
    requires IsRowKey(key) && |value| == 9
    ensures |transformed| == 9
    ensures forall j :: 0 <= j < 9 ==> transformed[j] == CellOf(value[j])
    ensures forall n :: 0 <= n < |incompleteRow| ==>
              incompleteRow[n].row == key && IsColKey(incompleteRow[n].col) &&
              value[ColIndex(incompleteRow[n].col)] == '.'
    ensures forall n, n' :: 0 <= n < n' < |incompleteRow| ==>
              ColIndex(incompleteRow[n].col) < ColIndex(incompleteRow[n'].col)
    ensures forall j :: 0 <= j < 9 && value[j] == '.' ==> Coord(key, ColKey(j)) in incompleteRow
    ensures incompleteRow == RowGaps(key, value, 9)
  {
    incompleteRow := [];
    transformed := [];
    for i := 0 to 9
      invariant |transformed| == i
      invariant forall j :: 0 <= j < i ==> transformed[j] == CellOf(value[j])
      invariant incompleteRow == RowGaps(key, value, i)
    {
      if value[i] == '.' {
        var coordinate := Coord(key, ColKey(i));
        incompleteRow := incompleteRow + [coordinate];
        transformed := transformed + [Empty];
      } else {
        transformed := transformed + [Digit(value[i])];
      }
    }
    RowGapsFacts(key, value, 9);
  }

  /**
   * The preparation loop of solve: the search board, with '.' as empty
   * cells, and the frontier of empty cells in row-major order. The rows of
   * coordinates are concatenated as they are produced, which is what
   * flattening the list of rows gives.
   */
  method MarkEmptyCells(board: seq<seq<char>>) returns (cellsTable: Board, incompleteCells: seq<Coord>)
    requires IsTable(board)
    ensures IsTable(cellsTable)
    ensures forall i, j :: 0 <= i < 9 && 0 <= j < 9 ==> cellsTable[i][j] == CellOf(board[i][j])
    ensures FrontierOf(cellsTable, incompleteCells)
    ensures forall n, n' :: 0 <= n < n' < |incompleteCells| ==>
              Pos(incompleteCells[n]) < Pos(incompleteCells[n'])
    ensures incompleteCells == Gaps(board, 9)
  {
    cellsTable := [];
    incompleteCells := [];
    for k := 0 to 9
      invariant |cellsTable| == k
      invariant forall m :: 0 <= m < k ==> |cellsTable[m]| == 9
      invariant forall m, j :: 0 <= m < k && 0 <= j < 9 ==> cellsTable[m][j] == CellOf(board[m][j])
      invariant incompleteCells == Gaps(board, k)
    {
      var key := RowKey(k);
      var transformed, incompleteRow := TransformRow(key, board[k]);
      cellsTable := cellsTable + [transformed];
      incompleteCells := incompleteCells + incompleteRow;
    }
    GapsFacts(board, 9);
    forall n, n' | 0 <= n < n' < |incompleteCells|
      ensures incompleteCells[n] != incompleteCells[n']
    {
      assert Pos(incompleteCells[n]) < Pos(incompleteCells[n']);
    }
  }

  /** The first k rows of board r, each cell as its character, joined into one string. */
  ghost function RenderRows(r: Board, k: nat): (s: string)
    requires IsTable(r) && k <= 9
    ensures |s| == 9 * k
    ensures forall i, j :: 0 <= i < k && 0 <= j < 9 ==> s[9 * i + j] == CellChar(r[i][j])
  {
    if k == 0 then []
    else RenderRows(r, k - 1) + seq(9, j requires 0 <= j < 9 => CellChar(r[k - 1][j]))
  }

  /**
   * The final loop of solve: the rows of the solved board, joined into one
   * string. Every cell holds a digit: an empty cell would contribute its
   * two-character coordinate in the original, which the search never leaves.
   */
  method JoinBoard(solved: Board) returns (final: string)
    requires IsTable(solved)
    requires forall i, j :: 0 <= i < 9 && 0 <= j < 9 ==> solved[i][j].Digit?
    ensures Renders(solved, final)
    ensures final == RenderRows(solved, 9)
  {
    final := [];
    for k := 0 to 9
      invariant final == RenderRows(solved, k)
    {
      var row := solved[k];
      final := final + seq(9, j requires 0 <= j < 9 => CellChar(row[j]));
    }
  }

  /** The search board solve builds from an 81-character puzzle. */
  ghost function BoardOf(p: string): (b: Board)
    requires |p| == 81
    ensures Encodes(b, p)
  {
    seq(9, i requires 0 <= i < 9 => seq(9, j requires 0 <= j < 9 => CellOf(At(p, i, j))))
  }

  /** A puzzle has one search board. */
  lemma EncodesUnique(b: Board, p: string)
    requires Encodes(b, p)
    ensures b == BoardOf(p)
  {
    forall i | 0 <= i < 9
      ensures b[i] == BoardOf(p)[i]
    {
    }
  }

  /** A board extending the search board of a puzzle has a digit in every cell. */
  lemma ExtendsFilled(r: Board, b: Board, p: string)
    requires Encodes(b, p) && IsTable(r) && Extends(r, b)
    ensures forall i, j :: 0 <= i < 9 && 0 <= j < 9 ==> r[i][j].Digit?
  {
  }

  /**
   * The answer solve gives: the backtracking search over the '.' cells in
   * row-major order, digits tried in ascending order, joined into a string.
   */
  ghost function FirstSolution(p: string): Option<string>
    requires |p| == 81
  {
    RowsOfRoundTrip(p);
    match Search(BoardOf(p), Gaps(RowsOf(p), 9))
    case None => None
    case Some(r) => Some(RenderRows(r, 9))
  }

  /** A puzzle without '.' has itself as its only solution. */
  lemma FullPuzzleSolution(s: string, p: string)
    requires IsSolutionOf(s, p) && forall k :: 0 <= k < |p| ==> p[k] != '.'
    ensures s == p
  {
    forall k | 0 <= k < 81
      ensures s[k] == p[k]
    {
      assert At(p, k / 9, k % 9) != '.';
    }
  }

  /** FirstSolution unfolded at a given search result. */
  lemma FirstSolutionOfSearch(p: string, res: Option<Board>)
    requires |p| == 81 && IsTable(RowsOf(p))
    requires res == Search(BoardOf(p), Gaps(RowsOf(p), 9))
    ensures res.None? ==> FirstSolution(p) == None
    ensures res.Some? ==> FirstSolution(p) == Some(RenderRows(res.value, 9))
  {
  }

  /**
   * solve: build the search board and the frontier, run the backtracking
   * search, and join the solved board back into a string; `None` stands for
   * the original's `false`.
   */
  method Solve(puzzleString: string) returns (solution: Option<string>)
    requires |puzzleString| == 81
    ensures solution == FirstSolution(puzzleString)
    ensures solution.Some? ==> IsSolutionOf(solution.value, puzzleString)
    ensures solution.None? <==> !Solvable(puzzleString)
    ensures (forall k :: 0 <= k < 81 ==> puzzleString[k] != '.') ==> solution == Some(puzzleString)
  {
    var board := MakeTable(puzzleString);
    RowsOfRoundTrip(puzzleString);
    if forall k :: 0 <= k < 81 ==> puzzleString[k] != '.' {
      assert IsSolutionOf(puzzleString, puzzleString);
    }
    var cellsTable, incompleteCells := MarkEmptyCells(board);
    assert Encodes(cellsTable, puzzleString);
    EncodesUnique(cellsTable, puzzleString);
    var result := BacktrackingSolver(cellsTable, incompleteCells);
    FirstSolutionOfSearch(puzzleString, result);
    if result.None? {
      NoSolutionWhenSearchFails(cellsTable, incompleteCells, puzzleString);
      return None;
    }
    SearchSound(cellsTable, incompleteCells);
    ExtendsFilled(result.value, cellsTable, puzzleString);
    var final := JoinBoard(result.value);
    SolutionOfSearch(cellsTable, puzzleString, result.value, final);
    if forall k :: 0 <= k < 81 ==> puzzleString[k] != '.' {
      FullPuzzleSolution(final, puzzleString);
    }
    solution := Some(final);
  }
}
