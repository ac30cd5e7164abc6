# Sudoku solver: a verified model

This project models the constraint engine of a small Sudoku web service and
the decision logic of its two HTTP routes.

A puzzle is an 81-character string. It holds the digits `1`-`9` and `.` for an
empty cell, read row by row. The engine does the following:

- It validates the puzzle string and the fields of a placement check: a
  value, a row letter `A`-`I` and a 0-based column `0`-`8`.
- It cuts the string into a table of nine rows keyed `A`-`I`.
- It answers three placement questions: is a value absent from a row, from
  a column, or from a 3x3 region?
- It solves the puzzle by chronological backtracking. Empty cells are
  visited in row-major order, and the digits 1..9 are tried in ascending
  order at each cell.

The route `/api/check` reports problems in a fixed order: missing fields
first, then an invalid puzzle, then an invalid value or coordinate. Before
those field checks it turns a coordinate such as `f6` into the row key `F`
and the column `5`. If the request passes, the route lists the units among
row, column and region that already hold the value. The route `/api/solve`
reports a missing puzzle, then a validation error, then an unsolvable
puzzle; otherwise it returns the solution.

Module `SudokuSolver` (`sudoku_solver.dfy`) holds the engine:

- The checks are generic over the cell type. The `/api/check` route runs
  them on the table of characters, where an empty cell is `.`. The search
  runs them on boards of `Cell`, where an empty cell is `Empty`.
- In the original, an empty search cell holds its own two-character
  coordinate, such as `"A0"`. That string never equals a one-character
  digit, so `Empty` behaves the same way in every comparison the engine
  makes.
- `backtrackingSolver` keeps the original's recursion and its loop over the
  digits. It is proved equal to the ghost function `Search`, which is the
  specification of the search.
- `Solve` is proved to return exactly `FirstSolution`. That is the search
  run over the `.` cells in row-major order, joined back into a string.
  So the model fixes which solution is returned, not just that it is one.
- Lemmas about `Search` show the following:
  - Digits are tried in order and the first success is returned.
  - The search is sound: clues are kept, empty cells get digits, and filled
    digits never clash with a peer.
  - The search is complete: it fails only when no such completion exists.

Module `Api` (`api.dfy`) holds the two route handlers. Each is a method from
optional request fields to a response value.

Behaviour worth knowing:

- The placement checks do not exclude the target cell. So `/api/check` with
  the value already at that coordinate reports a conflict in all three
  units, since the value is present in its own row, column and region.
- The solver never checks the given clues against each other. A solution
  promises only that the digits it filled in do not clash.

## Model

| member | source | states |
|---|---|---|
| SudokuSolver.MatchesPlus | controllers/sudoku-solver.js:5 | a `^[class]+$` test holds iff the string is non-empty and every character lies in one of the class's ranges |
| SudokuSolver.PuzzleClassMembers | controllers/sudoku-solver.js:5 | the class `[1-9.]` admits exactly the digits 1-9 and `.` |
| SudokuSolver.ValidatePuzzle | controllers/sudoku-solver.js:3-8 | the length error iff the length is not 81, whatever the characters; the character error iff 81 long with a character outside 1-9 and `.`; pass iff 81 characters, all of them 1-9 or `.` |
| SudokuSolver.ValidateFields | controllers/sudoku-solver.js:9-14 | 'Invalid value' iff the value is not one digit 1-9, even when the coordinate is also bad; 'Invalid coordinate' iff the value is good but the row is not one letter A-I or the column not one digit 0-8; pass iff both are good |
| SudokuSolver.MakeTable | controllers/sudoku-solver.js:15-26 | the table has rows A..I in order, row k holding characters 9k..9k+8 of the input; for an 81-character input it is a 9x9 table whose rows concatenate back to the input |
| SudokuSolver.RowsOfRoundTrip | controllers/sudoku-solver.js:15-26 | for an 81-character string, cell (k, j) of the table is character 9k+j, and joining the rows in order gives back the string |
| SudokuSolver.CheckRowPlacement | controllers/sudoku-solver.js:28-32 | true iff the value is absent from all 9 cells of the named row, the target cell included |
| SudokuSolver.CheckColPlacement | controllers/sudoku-solver.js:34-43 | true iff the value is absent from column index i of all 9 rows |
| SudokuSolver.CheckRegionPlacement | controllers/sudoku-solver.js:45-62 | true iff the value is absent from the 9 cells of the block chosen by row group ABC/DEF/GHI and column group 012/345/678 |
| SudokuSolver.BlockCells | controllers/sudoku-solver.js:56-61 | the three 3-cell slices of the chosen rows, concatenated, are exactly the cells of the 3x3 region |
| SudokuSolver.Update | controllers/sudoku-solver.js:141-149 | the result is a 9x9 table holding the value at (key, i) and equal to the input everywhere else; the input table, a value, is unchanged |
| SudokuSolver.TryDigitsFirst | controllers/sudoku-solver.js:108-131 | the digit loop from d fails iff every digit from d on is illegal or leads to a failing search; on success it returns the result of the first digit that is legal and leads to a success |
| SudokuSolver.SearchFirstSuccess | controllers/sudoku-solver.js:102-138 | for a non-empty frontier the search returns the first success among digits 1..9 passing all three checks, and fails iff every digit fails |
| SudokuSolver.BacktrackingSolver | controllers/sudoku-solver.js:98-139 | it returns the board unchanged for an empty frontier; otherwise its result equals the search specification, and it terminates because each recursive call drops one frontier cell |
| SudokuSolver.FrontierStep | controllers/sudoku-solver.js:117-118 | filling the first frontier cell with a digit leaves the rest of the frontier as exactly the empty cells of the new board |
| SudokuSolver.SearchSound | controllers/sudoku-solver.js:98-139 | a successful search keeps every non-empty cell, puts a digit 1-9 in every empty cell, and no filled-in cell equals any other cell of its row, column or region |
| SudokuSolver.SearchComplete | controllers/sudoku-solver.js:98-139 | if any completion keeping the givens, filling digits, with no filled cell clashing exists, the search succeeds |
| SudokuSolver.RowGapsFacts | controllers/sudoku-solver.js:76-83 | the coordinates recorded for a row are exactly its `.` columns, each once, in ascending column order |
| SudokuSolver.GapsFacts | controllers/sudoku-solver.js:73-88 | the flattened coordinate list of the first k rows names exactly their `.` cells, in strictly increasing row-major position |
| SudokuSolver.TransformRow | controllers/sudoku-solver.js:74-85 | each `.` of the row becomes an empty cell and other characters are kept; the coordinates recorded are exactly the row's `.` positions, in ascending column order |
| SudokuSolver.MarkEmptyCells | controllers/sudoku-solver.js:70-88 | the board maps `.` to empty cells cell by cell; the flattened coordinate list names every empty cell exactly once, in row-major order (rows A..I, columns left to right) |
| SudokuSolver.JoinBoard | controllers/sudoku-solver.js:91-95 | for a board with a digit in every cell, the string has 81 characters and character 9i+j is cell (i, j) |
| SudokuSolver.SolutionOfSearch | controllers/sudoku-solver.js:88-95 | joining a board produced by a sound search gives a solution of the puzzle |
| SudokuSolver.NoSolutionWhenSearchFails | controllers/sudoku-solver.js:88-89 | when the search returns false, the puzzle has no solution at all |
| SudokuSolver.SolutionDigits | controllers/sudoku-solver.js:91-95 | a solution of a validated puzzle consists of the digits 1-9 only |
| SudokuSolver.FullPuzzleSolution | controllers/sudoku-solver.js:64-96 | a puzzle with no `.` has itself as its only solution |
| SudokuSolver.Solve | controllers/sudoku-solver.js:64-96 | the result is the first completion the search finds, visiting the `.` cells in row-major order and trying digits in ascending order; on success the string keeps every non-`.` character, fills every `.` with a digit 1-9, and no filled cell clashes with a peer; false iff the puzzle has no such solution; a puzzle with no `.` is returned unchanged |
| Api.CoordinateRow | routes/api.js:23 | the row key is the first character upper-cased: it is a row A-I iff the first character is A-I, a-i or the dotless i; 'f' gives row index 5 and the dotless i gives "I" |
| Api.CoordinateColumn | routes/api.js:24 | the column is a valid key 0-8 iff a second character exists and is 1-9, and its index is that digit minus one, so 'A0' is rejected |
| Api.CoordinateIgnoresRest | routes/api.js:23-24 | characters after the second leave the row and the column unchanged |
| Api.ListsConflictsExact | routes/api.js:31-37 | a conflict list naming exactly the failed units, each once, in rank order, is the filter of row, column, region by failure |
| Api.CheckRoute | routes/api.js:9-44 | a missing or empty field gives the fields error before anything else; then the puzzle error; then the value or coordinate error; otherwise valid iff row, column and region are all free of the value, and a conflict lists exactly the failed units in the order row, column, region |
| Api.SolveRoute | routes/api.js:46-68 | a missing or empty puzzle gives 'Required field missing'; then the validation message; otherwise 'Puzzle cannot be solved' iff the puzzle has no solution; a solution returned is the one solve's search order finds first, solves the puzzle and is all digits 1-9 |

## Left out

- The Express plumbing, the request body parser and the JSON responses are left out. The handlers take optional strings and return a response datatype.
- Request fields that are JSON values other than strings (numbers, arrays, objects) are left out. Every field is a string or absent.
- The browser front end (public/index.js) is not part of this model.
- JavaScript strings are sequences of UTF-16 code units, while Dafny's `char` is a Unicode scalar value. For puzzles with characters outside the Basic Multilingual Plane, the length error and the character error may therefore differ from the original.
- Api.CoordinateRow: models `toUpperCase` for ASCII a-z and for the dotless i, which upper-cases to `I`. Of these, only a-i and the dotless i give a row A-I. Other characters are kept unchanged. Any other special upper-casing, such as a ligature becoming two letters, gives a row key outside A-I either way.
- Api.CoordinateColumn: gives "NaN" for any second character that is not an ASCII digit. In JavaScript, whitespace converts to 0 and so gives "-1". Both are rejected as 'Invalid coordinate', so the responses agree.
- SudokuSolver.Solve: requires an 81-character puzzle. The route calls it only after validation passes. The original's behaviour on shorter or longer strings is not modelled.
- The regular expressions are modelled as character-range tests for the four patterns used. The general regex engine is not modelled.
- The `Map` keyed `A`-`I` is modelled as a sequence of nine rows, which follows the Map's insertion order.
- The `debugger` statement in `solve` is left out.
- The running time of the exponential search is not modelled. Only termination is proved.
