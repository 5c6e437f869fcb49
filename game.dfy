/**
 * The game state of `MathMazeGame`: the player's grid, the cages, the
 * completion flag and the hidden solution, with `setValue`, `getValue`,
 * `getCage`, `isValidMove` and the completion check.
 */
module Game {
  import opened Wrappers
  import opened Cages
  import opened LatinSquare
  import opened Partition

  function EmptyGrid(size: nat): (grid: Grid)
    ensures IsSquare(grid, size)
    ensures forall r, c :: 0 <= r < size && 0 <= c < size ==> grid[r][c] == None
  {
    seq(size, _ => seq(size, _ => None))
  }

  /** The grid with `value` written at `p`. */
  function Place(grid: Grid, p: Position, value: Option<int>): (placed: Grid)
    requires p.row < |grid| && p.col < |grid[p.row]|
    ensures |placed| == |grid| && forall r :: 0 <= r < |grid| ==> |placed[r]| == |grid[r]|
    ensures placed[p.row][p.col] == value
    ensures forall r, c :: 0 <= r < |grid| && 0 <= c < |grid[r]| && (r != p.row || c != p.col) ==>
      placed[r][c] == grid[r][c]
  {
    grid[p.row := grid[p.row][p.col := value]]
  }

  /** `line.compactMap { $0 }`: the filled values of a line, in order. */
  function Present(line: seq<Option<int>>): (values: seq<int>)
    ensures |values| <= |line|
    ensures (forall k :: 0 <= k < |line| ==> line[k].Some?) ==> |values| == |line|
  {
    if line == [] then []
    else (if line[0].Some? then [line[0].value] else []) + Present(line[1..])
  }

  lemma {:induction false} PresentMembers(line: seq<Option<int>>)
    ensures forall x :: x in Present(line) <==> Some(x) in line
  {
    if line != [] {
      PresentMembers(line[1..]);
      assert forall o :: o in line <==> o == line[0] || o in line[1..];
    }
  }

  /** No non-empty value occurs twice in the line. */
  predicate NoRepeat(line: seq<Option<int>>)
  {
    forall a, b :: 0 <= a < b < |line| && line[a].Some? ==> line[a] != line[b]
  }

  /**
   * The source's duplicate test, `Set(values).count != values.count` over
   * the filled values, says exactly that some filled value repeats.
   */
  lemma {:induction false} NoRepeatIffSetSize(line: seq<Option<int>>)
    ensures NoRepeat(line) <==> |ToSet(Present(line))| == |Present(line)|
  {
    PresentDistinct(line);
    ToSetBound(Present(line));
  }

  lemma {:induction false} PresentDistinct(line: seq<Option<int>>)
    ensures NoRepeat(line) <==> Distinct(Present(line))
  {
    if line != [] {
      var t := line[1..];
      PresentDistinct(t);
      var rest := Present(t);
      var head: seq<int> := if line[0].Some? then [line[0].value] else [];
      assert Present(line) == head + rest;
      assert NoRepeat(line) <==> NoRepeat(t) && (line[0].Some? ==> Some(line[0].value) !in t) by {
        if NoRepeat(line) {
          forall a, b | 0 <= a < b < |t| && t[a].Some?
            ensures t[a] != t[b]
          {
            assert t[a] == line[a + 1] && t[b] == line[b + 1];
          }
          forall k | 0 <= k < |t| && line[0].Some?
            ensures t[k] != Some(line[0].value)
          {
            assert t[k] == line[k + 1];
          }
        }
        if NoRepeat(t) && (line[0].Some? ==> Some(line[0].value) !in t) {
          forall a, b | 0 <= a < b < |line| && line[a].Some?
            ensures line[a] != line[b]
          {
            if a == 0 {
              assert line[b] == t[b - 1];
            } else {
              assert line[a] == t[a - 1] && line[b] == t[b - 1];
            }
          }
        }
      }
      var values := Present(line);
      PresentMembers(t);
      if line[0].Some? {
        assert values == [line[0].value] + rest;
        assert Distinct(values) <==> Distinct(rest) && line[0].value !in rest by {
          if Distinct(values) {
            forall a, b | 0 <= a < b < |rest|
              ensures rest[a] != rest[b]
            {
              assert rest[a] == values[a + 1] && rest[b] == values[b + 1];
            }
            forall k | 0 <= k < |rest|
              ensures rest[k] != line[0].value
            {
              assert rest[k] == values[k + 1] && values[0] == line[0].value;
              assert values[0] != values[k + 1];
            }
          }
          if Distinct(rest) && line[0].value !in rest {
            forall a, b | 0 <= a < b < |values|
              ensures values[a] != values[b]
            {
              if a == 0 {
                assert values[b] == rest[b - 1];
              } else {
                assert values[a] == rest[a - 1] && values[b] == rest[b - 1];
              }
            }
          }
        }
        var v := line[0].value;
        assert (Some(v) in t) <==> (v in rest) by {
          PresentMembers(t);
        }
        assert NoRepeat(line) <==> NoRepeat(t) && Some(line[0].value) !in t;
      } else {
        assert values == rest;
      }
    }
  }

  /** What `isValidMove` accepts: after the move, neither the row nor the column repeats a value. */
  predicate MoveKeepsLinesDistinct(grid: Grid, size: nat, p: Position, value: int)
    requires IsSquare(grid, size) && InBounds(size, p)
  {
    var placed := Place(grid, p, Some(value));
    NoRepeat(placed[p.row]) && NoRepeat(Column(placed, p.col))
  }

  /**
   * When the rest of the row and of the column repeat nothing, a move is
   * accepted exactly when no other cell of its row or column already holds
   * the value, whatever the cage holds.
   */
  lemma MoveValidIffNoClash(grid: Grid, size: nat, p: Position, value: int)
    requires IsSquare(grid, size) && InBounds(size, p)
    requires NoRepeat(Place(grid, p, None)[p.row]) && NoRepeat(Column(Place(grid, p, None), p.col))
    ensures MoveKeepsLinesDistinct(grid, size, p, value) <==>
      (forall c :: 0 <= c < size && c != p.col ==> grid[p.row][c] != Some(value)) &&
      (forall r :: 0 <= r < size && r != p.row ==> grid[r][p.col] != Some(value))
  {
    var cleared := Place(grid, p, None);
    var placed := Place(grid, p, Some(value));
    var row, col := placed[p.row], Column(placed, p.col);
    if (forall c :: 0 <= c < size && c != p.col ==> grid[p.row][c] != Some(value)) &&
       (forall r :: 0 <= r < size && r != p.row ==> grid[r][p.col] != Some(value)) {
      forall a, b | 0 <= a < b < |row| && row[a].Some?
        ensures row[a] != row[b]
      {
        if a != p.col && b != p.col {
          assert row[a] == cleared[p.row][a] && row[b] == cleared[p.row][b];
        }
      }
      forall a, b | 0 <= a < b < |col| && col[a].Some?
        ensures col[a] != col[b]
      {
        if a != p.row && b != p.row {
          assert col[a] == Column(cleared, p.col)[a] && col[b] == Column(cleared, p.col)[b];
        }
      }
    }
    if MoveKeepsLinesDistinct(grid, size, p, value) {
      forall c | 0 <= c < size && c != p.col
        ensures grid[p.row][c] != Some(value)
      {
        assert row[c] == grid[p.row][c] && row[p.col] == Some(value);
        if c < p.col {
          assert row[c].Some? ==> row[c] != row[p.col];
        } else {
          assert row[p.col] != row[c];
        }
      }
      forall r | 0 <= r < size && r != p.row
        ensures grid[r][p.col] != Some(value)
      {
        assert col[r] == grid[r][p.col] && col[p.row] == Some(value);
        if r < p.row {
          assert col[r].Some? ==> col[r] != col[p.row];
        } else {
          assert col[p.row] != col[r];
        }
      }
    }
  }

  predicate IsFull(grid: Grid)
  {
    forall r, c :: 0 <= r < |grid| && 0 <= c < |grid[r]| ==> grid[r][c].Some?
  }

  /** The set of a line's filled values is `{1, ..., size}`. */
  predicate LineComplete(line: seq<Option<int>>, size: nat)
  {
    ToSet(Present(line)) == OneTo(size)
  }

  predicate RowsAndColumnsComplete(grid: Grid, size: nat)
    requires IsSquare(grid, size)
  {
    forall i :: 0 <= i < size ==> LineComplete(grid[i], size) && LineComplete(Column(grid, i), size)
  }

  predicate CagesSatisfied(grid: Grid, cages: seq<Cage>)
  {
    forall i :: 0 <= i < |cages| ==> cages[i].IsValid(grid)
  }

  /** The win condition: full, every row and column is `{1..size}`, every cage satisfied. */
  predicate IsSolved(grid: Grid, cages: seq<Cage>, size: nat)
    requires IsSquare(grid, size)
  {
    IsFull(grid) && RowsAndColumnsComplete(grid, size) && CagesSatisfied(grid, cages)
  }

  /** A solved grid holds a Latin square: every row and column is a permutation of 1..size. */
  lemma SolvedIsLatin(grid: Grid, cages: seq<Cage>, size: nat, i: nat)
    requires IsSquare(grid, size) && IsSolved(grid, cages, size) && i < size
    ensures IsLine(Present(grid[i]), size) && IsLine(Present(Column(grid, i)), size)
  {
    var row, col := grid[i], Column(grid, i);
    assert forall k :: 0 <= k < |row| ==> row[k].Some?;
    assert forall k :: 0 <= k < |col| ==> col[k].Some?;
    LineIffOneTo(Present(row), size);
    LineIffOneTo(Present(col), size);
  }

  lemma {:induction false} PresentOfFilled(line: seq<int>)
    ensures Present(seq(|line|, k requires 0 <= k < |line| => Some(line[k]))) == line
  {
    if line != [] {
      var opt := seq(|line|, k requires 0 <= k < |line| => Some(line[k]));
      assert opt[1..] == seq(|line[1..]|, k requires 0 <= k < |line[1..]| => Some(line[1..][k]));
      PresentOfFilled(line[1..]);
    }
  }

  /**
   * Entering the hidden solution wins: a Latin square whose values satisfy
   * every cage passes the completion check.
   */
  lemma SolutionWins(solution: seq<seq<int>>, cages: seq<Cage>, size: nat)
    requires IsLatinSquare(solution, size)
    requires CagesSatisfied(SolutionGrid(solution), cages)
    ensures IsSquare(SolutionGrid(solution), size)
    ensures IsSolved(SolutionGrid(solution), cages, size)
  {
    var grid := SolutionGrid(solution);
    forall i | 0 <= i < size
      ensures LineComplete(grid[i], size) && LineComplete(Column(grid, i), size)
    {
      var row, col := solution[i], Column(solution, i);
      assert grid[i] == seq(|row|, k requires 0 <= k < |row| => Some(row[k]));
      assert Column(grid, i) == seq(|col|, k requires 0 <= k < |col| => Some(col[k]));
      PresentOfFilled(row);
      PresentOfFilled(col);
      LineIffOneTo(row, size);
      LineIffOneTo(col, size);
    }
  }

  /** `cages.first { $0.contains(position:) }` */
  function FirstCage(cages: seq<Cage>, p: Position): (found: Option<Cage>)
    ensures found.Some? ==> found.value in cages && found.value.Contains(p)
    ensures found.None? <==> forall i :: 0 <= i < |cages| ==> !cages[i].Contains(p)
    ensures found.Some? ==>
      exists i :: 0 <= i < |cages| && cages[i] == found.value && (forall j :: 0 <= j < i ==> !cages[j].Contains(p))
  {
    if cages == [] then None
    else if cages[0].Contains(p) then Some(cages[0])
    else
      var rest := FirstCage(cages[1..], p);
      assert forall i :: 0 < i < |cages| ==> cages[i] == cages[1..][i - 1];
      rest
  }

  /**
   * What `init(size:)` builds and no move changes: the solution is a Latin
   * square; the cages partition the grid, each carries the label
   * `calculateOperationAndTarget` gives the solution's values, the solution
   * satisfies them, and only one-cell cages carry `.none`.
   */
  predicate IsPuzzle(solution: seq<seq<int>>, cages: seq<Cage>, size: nat)
  {
    && IsLatinSquare(solution, size)
    && IsPartition(cages, size)
    && CagesSatisfied(SolutionGrid(solution), cages)
    && NoOpOnlySingle(cages)
    && (forall i :: 0 <= i < |cages| ==> LabelledByPolicy(cages[i], solution, size))
  }

  class MathMazeGame {
    var grid: Grid
    var cages: seq<Cage>
    var isCompleted: bool
    const size: nat
    const solution: seq<seq<int>>

    /** The grid is `size`×`size` and the solution and cages form a puzzle. */
    ghost predicate Valid()
      reads this
    {
      IsSquare(grid, size) && IsPuzzle(solution, cages, size)
    }

    /**
     * `init(size:)`: an empty grid, a fresh Latin square from two shuffled
     * index lists (any permutations), and the cages generated from it.
     */
    constructor (size: nat)
      ensures Valid() && this.size == size
      ensures grid == EmptyGrid(size) && !isCompleted
    {
      this.size := size;
      grid := EmptyGrid(size);
      IdentityIsPermutation(size);
      var rowPermutation :| IsPermutation(rowPermutation, size);
      var colPermutation :| IsPermutation(colPermutation, size);
      var square := GenerateLatinSquare(size, rowPermutation, colPermutation);
      solution := square;
      var generated := GeneratePuzzle(size, square);
      cages := generated;
      isCompleted := false;
    }

    /** `getValue(at:)`: the cell's value, or `None` off the grid. */
    function GetValue(position: Position): (value: Option<int>)
      reads this
      requires Valid()
      ensures !InBounds(size, position) ==> value == None
      ensures InBounds(size, position) ==> value == grid[position.row][position.col]
    {
      if position.row < size && position.col < size then grid[position.row][position.col] else None
    }

    /**
     * `setValue(_:at:)`: on the grid, writes the cell (`None` clears it) and
     * runs the completion check; off the grid, does nothing.  No other cell
     * changes, the cages never change, and a completed game stays completed.
     */
    method SetValue(value: Option<int>, position: Position)
      requires Valid()
      modifies this`grid, this`isCompleted
      ensures Valid()
      ensures grid == if InBounds(size, position) then Place(old(grid), position, value) else old(grid)
      ensures InBounds(size, position) ==> GetValue(position) == value
      ensures forall q :: q != position ==> GetValue(q) == old(GetValue(q))
      ensures isCompleted == (old(isCompleted) || (InBounds(size, position) && IsSolved(grid, cages, size)))
    {
      if !(position.row < size && position.col < size) {
        return;
      }
      grid := Place(grid, position, value);
      CheckCompletion();
    }

    /** `getCage(for:)`: the first cage containing the cell. */
    function GetCage(position: Position): (cage: Option<Cage>)
      reads this
      ensures cage.Some? ==> cage.value in cages && cage.value.Contains(position)
      ensures cage.None? <==> forall i :: 0 <= i < |cages| ==> !cages[i].Contains(position)
    {
      FirstCage(cages, position)
    }

    /** Every cell of the grid has a cage, and it is the only cage that contains it. */
    lemma GetCageFindsOwner(position: Position)
      requires Valid() && InBounds(size, position)
      ensures GetCage(position).Some?
      ensures forall i :: 0 <= i < |cages| && cages[i].Contains(position) ==> cages[i] == GetCage(position).value
    {
      var owner := PartitionOwner(cages, size, position);
    }

    /**
     * `isValidMove(_:at:)`: places the value on a copy of the grid and
     * accepts unless the cell's row or column then holds a filled value
     * twice.  Cages are not consulted, and nothing is changed.
     */
    method IsValidMove(value: int, position: Position) returns (valid: bool)
      requires Valid() && InBounds(size, position)
      ensures valid == MoveKeepsLinesDistinct(grid, size, position, value)
    {
      var tempGrid := grid[position.row := grid[position.row][position.col := Some(value)]];
      assert tempGrid == Place(grid, position, Some(value));

      var row := tempGrid[position.row];
      var rowValues := Present(row);
      NoRepeatIffSetSize(row);
      if |set x | x in rowValues| != |rowValues| {
        return false;
      }

      var column := Column(tempGrid, position.col);
      var colValues := Present(column);
      NoRepeatIffSetSize(column);
      if |set x | x in colValues| != |colValues| {
        return false;
      }

      return true;
    }

    /** `checkCompletion`: when every cell is filled and `isValidSolution` holds, the game is completed. */
    method CheckCompletion()
      requires IsSquare(grid, size)
      modifies this`isCompleted
      ensures isCompleted == (old(isCompleted) || IsSolved(grid, cages, size))
    {
      for r := 0 to |grid|
        invariant forall i, c :: 0 <= i < r && 0 <= c < |grid[i]| ==> grid[i][c].Some?
      {
        for c := 0 to |grid[r]|
          invariant forall i, c :: 0 <= i < r && 0 <= c < |grid[i]| ==> grid[i][c].Some?
          invariant forall c' :: 0 <= c' < c ==> grid[r][c'].Some?
        {
          if grid[r][c] == None {
            return;
          }
        }
      }
      var solved := IsValidSolution();
      if solved {
        isCompleted := true;
      }
    }

    /**
     * `isValidSolution`: every row's and every column's filled values form
     * exactly the set `{1..size}`, and every cage is satisfied; it stops at
     * the first failure.
     */
    method IsValidSolution() returns (solved: bool)
      requires IsSquare(grid, size)
      ensures solved == (RowsAndColumnsComplete(grid, size) && CagesSatisfied(grid, cages))
    {
      var linesOk := CheckLines(grid, size);
      if !linesOk {
        return false;
      }
      solved := CheckCages(grid, cages);
    }
  }

  /** The row and column half of `isValidSolution`, row and column `i` at a time. */
  method CheckLines(grid: Grid, size: nat) returns (ok: bool)
    requires IsSquare(grid, size)
    ensures ok == RowsAndColumnsComplete(grid, size)
  {
    for i := 0 to size
      invariant forall k :: 0 <= k < i ==> LineComplete(grid[k], size)
      invariant forall k :: 0 <= k < i ==> LineComplete(Column(grid, k), size)
    {
      var lineOk := CheckLine(grid[i], Column(grid, i), size);
      if !lineOk {
        return false;
      }
    }
    return true;
  }

  /**
   * The two set tests on row `i` and column `i`: first both sets have `size`
   * elements, then both are `{1..size}`.
   */
  method CheckLine(row: seq<Option<int>>, column: seq<Option<int>>, size: nat) returns (ok: bool)
    ensures ok == (LineComplete(row, size) && LineComplete(column, size))
  {
    OneToSize(size);
    var rowSet := ToSet(Present(row));
    var colSet := ToSet(Present(column));
    if |rowSet| != size || |colSet| != size {
      return false;
    }
    if rowSet != OneTo(size) || colSet != OneTo(size) {
      return false;
    }
    return true;
  }

  /** The cage half of `isValidSolution`. */
  method CheckCages(grid: Grid, cages: seq<Cage>) returns (ok: bool)
    ensures ok == CagesSatisfied(grid, cages)
  {
    for k := 0 to |cages|
      invariant forall j :: 0 <= j < k ==> cages[j].IsValid(grid)
    {
      if !cages[k].IsValid(grid) {
        return false;
      }
    }
    return true;
  }
}
