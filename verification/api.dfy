/**
 * The decision logic of the two routes, /api/check and /api/solve: which
 * error is reported first, how the 1-based coordinate becomes the engine's
 * row letter and 0-based column, and how the conflict list is built. A
 * request field is `None` when the request does not carry it.
 */
module Api {
  import opened SudokuSolver

  const MissingFields: string := "Required field(s) missing"
  const MissingField: string := "Required field missing"
  const Unsolvable: string := "Puzzle cannot be solved"

  /** `{error}`, `{valid: true}` or `{valid: false, conflict}`. */
  datatype CheckResponse = CheckError(error: string) | Valid | Conflict(conflict: seq<string>)

  /** `{error}` or `{solution}`. */
  datatype SolveResponse = SolveError(error: string) | Solution(solution: string)

  /** A truthy string field: sent, and not the empty string. */
  predicate Present(field: Option<string>)
  {
    field.Some? && field.value != ""
  }

  const DotlessI: char := '\U{0131}'

  /**
   * `toUpperCase` on one character, for the characters whose upper case is
   * a single letter A-I: the ASCII letters and the dotless i.
   */
  function ToUpper(c: char): char
  {
    if 'a' <= c <= 'z' then (c as int - 32) as char
    else if c == DotlessI then 'I'
    else c
  }

  /** A first coordinate character that names a row: A-I, a-i or the dotless i. */
  predicate NamesRow(c: char)
  {
    'A' <= c <= 'I' || 'a' <= c <= 'i' || c == DotlessI
  }

  /** The row of a coordinate: its first character, upper-cased. */
  function CoordinateRow(coor: string): (rowC: string)
    requires |coor| > 0
    ensures |rowC| == 1
    ensures IsRowKey(rowC[0]) <==> NamesRow(coor[0])
    ensures 'a' <= coor[0] <= 'i' ==> RowIndex(rowC[0]) == coor[0] as int - 'a' as int
    ensures 'A' <= coor[0] <= 'I' ==> rowC[0] == coor[0]
    ensures coor[0] == DotlessI ==> rowC == "I"
  {
    [ToUpper(coor[0])]
  }

  /**
   * The column of a coordinate: the second character minus one, printed as
   * a number. A missing or non-digit character gives "NaN"; '0' gives "-1".
   */
  function CoordinateColumn(coor: string): (colC: string)
    ensures (|colC| == 1 && IsColKey(colC[0])) <==> |coor| >= 2 && '1' <= coor[1] <= '9'
    ensures |colC| == 1 && IsColKey(colC[0]) ==> ColIndex(colC[0]) == coor[1] as int - '1' as int
  {
    if |coor| < 2 || !('0' <= coor[1] <= '9') then "NaN"
    else if coor[1] == '0' then "-1"
    else [(coor[1] as int - 1) as char]
  }

  /** Characters of a coordinate after the second one play no part. */
  lemma CoordinateIgnoresRest(coor: string, rest: string)
    requires |coor| == 2
    ensures CoordinateRow(coor + rest) == CoordinateRow(coor)
    ensures CoordinateColumn(coor + rest) == CoordinateColumn(coor)
  {
    assert (coor + rest)[0] == coor[0] && (coor + rest)[1] == coor[1];
  }

  /** The position of a conflict name in the fixed order row, column, region. */
  function Rank(name: string): int
  {
    if name == "row" then 0 else if name == "column" then 1 else 2
  }

  /**
   * c names exactly the units whose predicate failed, each once, in the
   * order row, column, region.
   */
  ghost predicate ListsConflicts(c: seq<string>, rowOk: bool, columnOk: bool, regionOk: bool)
  {
    (forall n :: 0 <= n < |c| ==> c[n] == "row" || c[n] == "column" || c[n] == "region") &&
    ("row" in c <==> !rowOk) && ("column" in c <==> !columnOk) && ("region" in c <==> !regionOk) &&
    (forall a, b :: 0 <= a < b < |c| ==> Rank(c[a]) < Rank(c[b]))
  }

  /** ListsConflicts pins the list down: it is the filter of row, column, region by failure. */
  lemma ListsConflictsExact(c: seq<string>, rowOk: bool, columnOk: bool, regionOk: bool)
    requires ListsConflicts(c, rowOk, columnOk, regionOk)
    ensures c == (if rowOk then [] else ["row"]) + (if columnOk then [] else ["column"]) +
                 (if regionOk then [] else ["region"])
  {
    var e := (if rowOk then [] else ["row"]) + (if columnOk then [] else ["column"]) +
             (if regionOk then [] else ["region"]);
    assert forall n :: n in e <==> n in c;
    assert forall a, b :: 0 <= a < b < |e| ==> Rank(e[a]) < Rank(e[b]);
    SortedBySameRank(c, e);
  }

  /** Two lists of conflict names, each strictly ordered by Rank, with the same members, are equal. */
  lemma {:induction false} SortedBySameRank(c: seq<string>, e: seq<string>)
    requires forall n :: 0 <= n < |c| ==> c[n] == "row" || c[n] == "column" || c[n] == "region"
    requires forall n :: n in e <==> n in c
    requires forall a, b :: 0 <= a < b < |c| ==> Rank(c[a]) < Rank(c[b])
    requires forall a, b :: 0 <= a < b < |e| ==> Rank(e[a]) < Rank(e[b])
    ensures c == e
    decreases |c| + |e|
  {
    // Either list being empty empties the other.
    assert c != [] ==> c[0] in e;
    assert e != [] ==> e[0] in c;
    if c != [] && e != [] {
      assert e[0] in c && c[0] in e;
      assert forall n :: 0 <= n < |c| ==> Rank(c[0]) <= Rank(c[n]);
      assert forall n :: 0 <= n < |e| ==> Rank(e[0]) <= Rank(e[n]);
      assert Rank(c[0]) == Rank(e[0]);
      assert c[0] == e[0];
      forall n
        ensures n in e[1..] <==> n in c[1..]
      {
        if n in c[1..] {
          var k :| 1 <= k < |c| && c[k] == n;
          assert Rank(c[0]) < Rank(n) && n in e;
          var m :| 0 <= m < |e| && e[m] == n;
          assert m != 0;
          assert e[1..][m - 1] == n;
        }
        if n in e[1..] {
          var m :| 1 <= m < |e| && e[m] == n;
          assert Rank(e[0]) < Rank(n) && n in c;
          var k :| 0 <= k < |c| && c[k] == n;
          assert k != 0;
          assert c[1..][k - 1] == n;
        }
      }
      SortedBySameRank(c[1..], e[1..]);
      assert c == [c[0]] + c[1..] && e == [e[0]] + e[1..];
    }
  }

  /** All three fields are present and pass both validators. */
  predicate Accepted(puzzle: Option<string>, coordinate: Option<string>, value: Option<string>)
  {
    Present(puzzle) && Present(coordinate) && Present(value) &&
    ValidatePuzzle(puzzle.value) == Pass &&
    ValidateFields(CoordinateRow(coordinate.value), CoordinateColumn(coordinate.value), value.value) == Pass
  }

  /**
   * POST /api/check: missing fields first, then the puzzle, then the value
   * and the coordinate; otherwise the placement is checked against the
   * puzzle's row, column and region.
   */
  method CheckRoute(puzzle: Option<string>, coordinate: Option<string>, value: Option<string>)
    returns (response: CheckResponse)
    ensures !(Present(puzzle) && Present(coordinate) && Present(value)) ==>
              response == CheckError(MissingFields)
    ensures Present(puzzle) && Present(coordinate) && Present(value) &&
            ValidatePuzzle(puzzle.value).Fail? ==>
              response == CheckError(ValidatePuzzle(puzzle.value).message)
    ensures Present(puzzle) && Present(coordinate) && Present(value) &&
            ValidatePuzzle(puzzle.value) == Pass &&
            ValidateFields(CoordinateRow(coordinate.value), CoordinateColumn(coordinate.value), value.value).Fail? ==>
              response == CheckError(
                ValidateFields(CoordinateRow(coordinate.value), CoordinateColumn(coordinate.value), value.value).message)
    ensures Accepted(puzzle, coordinate, value) ==>
              var t := RowsOf(puzzle.value);
              var i := RowIndex(CoordinateRow(coordinate.value)[0]);
              var j := ColIndex(CoordinateColumn(coordinate.value)[0]);
              var v := value.value[0];
              (response.Valid? || response.Conflict?) &&
              (response.Valid? <==> RowFree(t, i, v) && ColFree(t, j, v) && RegionFree(t, i, j, v)) &&
              (response.Conflict? ==>
                 ListsConflicts(response.conflict, RowFree(t, i, v), ColFree(t, j, v), RegionFree(t, i, j, v)))
  {
    if !Present(puzzle) || !Present(coordinate) || !Present(value) {
      return CheckError(MissingFields);
    }
    var puzzleString, coor, val := puzzle.value, coordinate.value, value.value;
    var puzzleValidation := ValidatePuzzle(puzzleString);
    if puzzleValidation.Fail? {
      return CheckError(puzzleValidation.message);
    }
    var rowC := CoordinateRow(coor);
    var colC := CoordinateColumn(coor);
    var fieldsValidation := ValidateFields(rowC, colC, val);
    if fieldsValidation.Fail? {
      return CheckError(fieldsValidation.message);
    }
    // The table holds one-character strings and the value is one character,
    // so comparing strings is comparing their characters.
    var table := MakeTable(puzzleString);
    var row := CheckRowPlacement(table, rowC[0], val[0]);
    var column := CheckColPlacement(table, colC[0], val[0]);
    var region := CheckRegionPlacement(table, rowC[0], colC[0], val[0]);
    var conflict := (if row then [] else ["row"]) + (if column then [] else ["column"]) +
                    (if region then [] else ["region"]);
    if |conflict| == 0 {
      return Valid;
    }
    return Conflict(conflict);
  }

  /**
   * POST /api/solve: a missing puzzle, then a validation error, then an
   * unsolvable puzzle; otherwise the solution.
   */
  method SolveRoute(puzzle: Option<string>) returns (response: SolveResponse)
    ensures !Present(puzzle) ==> response == SolveError(MissingField)
    ensures Present(puzzle) && ValidatePuzzle(puzzle.value).Fail? ==>
              response == SolveError(ValidatePuzzle(puzzle.value).message)
    ensures Present(puzzle) && ValidatePuzzle(puzzle.value) == Pass ==>
              (response.Solution? || response == SolveError(Unsolvable)) &&
              (response == SolveError(Unsolvable) <==> !Solvable(puzzle.value)) &&
              (response == SolveError(Unsolvable) <==> FirstSolution(puzzle.value).None?) &&
              (response.Solution? ==> Some(response.solution) == FirstSolution(puzzle.value)) &&
              (response.Solution? ==>
                 IsSolutionOf(response.solution, puzzle.value) &&
                 forall k :: 0 <= k < |response.solution| ==> '1' <= response.solution[k] <= '9')
  {
    if !Present(puzzle) {
      return SolveError(MissingField);
    }
    var validation := ValidatePuzzle(puzzle.value);
    if validation.Fail? {
      return SolveError(validation.message);
    }
    var solution := Solve(puzzle.value);
    if solution.None? {
      return SolveError(Unsolvable);
    }
    SolutionDigits(solution.value, puzzle.value);
    return Solution(solution.value);
  }
}
