/**
 * The cage partitioner of `MathMazeGame.generatePuzzle`: a randomised
 * flood fill that splits the grid into connected cages of one to four
 * cells, each labelled with an operation and a target taken from the
 * hidden solution (`getAdjacentPositions`, `calculateOperationAndTarget`).
 * Every random draw of the source is a nondeterministic choice here, so
 * what is proved holds whatever the draws are.
 */
module Partition {
  import opened Wrappers
  import opened Operations
  import opened Cages
  import opened LatinSquare

  /** The neighbour one step `(dRow, dCol)` away, if it lies on the grid. */
  function Step(size: nat, p: Position, dRow: int, dCol: int): (neighbour: seq<Position>)
    ensures |neighbour| <= 1
    ensures forall q :: q in neighbour <==>
      InBounds(size, q) && q.row == p.row + dRow && q.col == p.col + dCol
  {
    var newRow := p.row + dRow;
    var newCol := p.col + dCol;
    if newRow >= 0 && newRow < size && newCol >= 0 && newCol < size
    then [Position(newRow, newCol)]
    else []
  }

  /**
   * `getAdjacentPositions`: the neighbours to the right, left, below and
   * above, in that order, keeping those on the grid.  These are exactly the
   * on-grid cells that share a side with `p`.
   */
  function AdjacentPositions(size: nat, p: Position): (neighbours: seq<Position>)
    ensures forall q :: q in neighbours <==> InBounds(size, q) && Adjacent(p, q)
    ensures |neighbours| <= 4
  {
    Step(size, p, 0, 1) + Step(size, p, 0, -1) + Step(size, p, 1, 0) + Step(size, p, -1, 0)
  }

  /**
   * `cagePositions.flatMap { getAdjacentPositions($0).filter { !used } }`:
   * the free cells next to the cage grown so far.
   */
  function Candidates(size: nat, cells: seq<Position>, used: set<Position>): (candidates: seq<Position>)
    ensures forall q :: q in candidates ==>
      q !in used && InBounds(size, q) && exists m :: 0 <= m < |cells| && Adjacent(cells[m], q)
    ensures forall m, q :: 0 <= m < |cells| && InBounds(size, q) && Adjacent(cells[m], q) && q !in used ==>
      q in candidates
  {
    if cells == [] then []
    else
      Free(AdjacentPositions(size, cells[0]), used) + Candidates(size, cells[1..], used)
  }

  /** The cells of `cells` not in `used`, in order. */
  function Free(cells: seq<Position>, used: set<Position>): (free: seq<Position>)
    ensures forall q :: q in free <==> q in cells && q !in used
  {
    if cells == [] then []
    else (if cells[0] in used then [] else [cells[0]]) + Free(cells[1..], used)
  }

  /** The candidate list of `calculateOperationAndTarget` for a cage of two or more cells. */
  function PossibleOperations(values: seq<int>): (ops: seq<(Operation, int)>)
    ensures 2 <= |ops| <= 4
    ensures (Add, Sum(values)) in ops && (Multiply, Product(values)) in ops
    ensures |values| == 2 ==> (Subtract, Abs(values[0] - values[1])) in ops
    ensures (&& |values| == 2 && Min(values[0], values[1]) != 0
             && TruncRem(Max(values[0], values[1]), Min(values[0], values[1])) == 0) ==>
      (Divide, TruncDiv(Max(values[0], values[1]), Min(values[0], values[1]))) in ops
    ensures forall o :: o in ops ==>
      || o == (Add, Sum(values))
      || o == (Multiply, Product(values))
      || (|values| == 2 && o == (Subtract, Abs(values[0] - values[1])))
      || (|values| == 2 && Min(values[0], values[1]) != 0 &&
          TruncRem(Max(values[0], values[1]), Min(values[0], values[1])) == 0 &&
          o == (Divide, TruncDiv(Max(values[0], values[1]), Min(values[0], values[1]))))
  {
    var sum := Sum(values);
    var product := Product(values);
    [(Add, sum), (Multiply, product)] +
    if |values| == 2 then
      var maxVal := Max(values[0], values[1]);
      var minVal := Min(values[0], values[1]);
      [(Subtract, Abs(values[0] - values[1]))] +
      (if minVal != 0 && TruncRem(maxVal, minVal) == 0 then [(Divide, TruncDiv(maxVal, minVal))] else [])
    else []
  }

  /**
   * `calculateOperationAndTarget`: a one-cell cage gets `NoOp` and its
   * value; otherwise the `choice`-th candidate (the source's
   * `randomElement`).  For any non-empty list of values the chosen pair is
   * satisfied by those values; Divide is offered only for two values the
   * smaller of which is non-zero and divides the larger.
   */
  function CalculateOperationAndTarget(values: seq<int>, choice: nat): (r: (Operation, int))
    ensures |values| > 0 ==> r.0.Calculate(values) == Some(r.1)
    ensures |values| == 1 <==> r.0 == NoOp
    ensures |values| == 1 ==> r.1 == values[0]
    ensures |values| != 1 ==> r in PossibleOperations(values)
    ensures r.0 == Subtract ==> |values| == 2
    ensures r.0 == Divide ==>
      |values| == 2 && Min(values[0], values[1]) != 0 &&
      TruncRem(Max(values[0], values[1]), Min(values[0], values[1])) == 0
  {
    if |values| == 1 then (NoOp, values[0])
    else
      var ops := PossibleOperations(values);
      ops[choice % |ops|]
  }

  /** `randomElement` can pick any offered pair: each is the result for some choice. */
  lemma EveryOperationOffered(values: seq<int>, o: (Operation, int))
    requires |values| != 1 && o in PossibleOperations(values)
    ensures exists choice: nat :: CalculateOperationAndTarget(values, choice) == o
  {
    var ops := PossibleOperations(values);
    var k :| 0 <= k < |ops| && ops[k] == o;
    assert k % |ops| == k;
    assert CalculateOperationAndTarget(values, k) == o;
  }

  /** Each cell after the first shares a side with an earlier one: the cage was grown from its first cell. */
  predicate GrownConnected(cells: seq<Position>)
  {
    forall k :: 0 < k < |cells| ==> HasEarlierNeighbour(cells, k)
  }

  predicate HasEarlierNeighbour(cells: seq<Position>, k: nat)
    requires k < |cells|
  {
    exists m :: 0 <= m < k && Adjacent(cells[m], cells[k])
  }

  /** The shape every generated cage has: one to four distinct on-grid cells, connected. */
  predicate WellShaped(cage: Cage, size: nat)
  {
    && 1 <= |cage.positions| <= 4
    && Distinct(cage.positions)
    && (forall k :: 0 <= k < |cage.positions| ==> InBounds(size, cage.positions[k]))
    && GrownConnected(cage.positions)
  }

  /** Every cell of the `size`×`size` grid. */
  function AllPositions(size: nat): (all: set<Position>)
    ensures forall r: nat, c: nat :: Position(r, c) in all <==> r < size && c < size
  {
    set r: nat, c: nat | r < size && c < size :: Position(r, c)
  }

  function CellSet(cells: seq<Position>): set<Position> { set p | p in cells }

  /** The cells that belong to some cage. */
  function Covered(cages: seq<Cage>): set<Position>
  {
    set i, p | 0 <= i < |cages| && p in cages[i].positions :: p
  }

  predicate PairwiseDisjoint(cages: seq<Cage>)
  {
    forall i, j, p :: 0 <= i < j < |cages| && p in cages[i].positions ==> p !in cages[j].positions
  }

  /** The cages split the `size`×`size` grid: disjoint, covering, and each well shaped. */
  predicate IsPartition(cages: seq<Cage>, size: nat)
  {
    && (forall i :: 0 <= i < |cages| ==> WellShaped(cages[i], size))
    && PairwiseDisjoint(cages)
    && Covered(cages) == AllPositions(size)
  }

  /** The hidden solution seen as a completely filled player grid. */
  function SolutionGrid(solution: seq<seq<int>>): (grid: Grid)
    ensures |grid| == |solution|
    ensures forall i :: 0 <= i < |grid| ==> |grid[i]| == |solution[i]|
  {
    seq(|solution|, i requires 0 <= i < |solution| =>
      seq(|solution[i]|, j requires 0 <= j < |solution[i]| => Some(solution[i][j])))
  }

  /** `cagePositions.map { solution[$0.row][$0.col] }` */
  function ValuesAt(solution: seq<seq<int>>, size: nat, cells: seq<Position>): (values: seq<int>)
    requires IsSquare(solution, size)
    requires forall k :: 0 <= k < |cells| ==> InBounds(size, cells[k])
    ensures |values| == |cells|
  {
    seq(|cells|, k requires 0 <= k < |cells| =>
      assert InBounds(size, cells[k]) && |solution[cells[k].row]| == size;
      solution[cells[k].row][cells[k].col])
  }

  /** Read off the solution grid, a cage's values are the solution's values at its cells. */
  lemma SolutionValues(solution: seq<seq<int>>, size: nat, cells: seq<Position>)
    requires IsSquare(solution, size)
    requires forall k :: 0 <= k < |cells| ==> InBounds(size, cells[k])
    ensures AllFilled(SolutionGrid(solution), cells)
    ensures ValuesAt(solution, size, cells) == FilledValues(SolutionGrid(solution), cells)
  {
    var grid := SolutionGrid(solution);
    forall k | 0 <= k < |cells|
      ensures CellAt(grid, cells[k]) == Some(solution[cells[k].row][cells[k].col])
    {
      assert InBounds(size, cells[k]) && |solution[cells[k].row]| == size;
    }
  }

  function RowCells(r: nat, width: nat): set<Position>
  {
    set c: nat | c < width :: Position(r, c)
  }

  function FirstRows(rows: nat, width: nat): set<Position>
  {
    set r: nat, c: nat | r < rows && c < width :: Position(r, c)
  }

  lemma {:induction false} RowCellsSize(r: nat, width: nat)
    ensures |RowCells(r, width)| == width
  {
    if width > 0 {
      RowCellsSize(r, width - 1);
      assert RowCells(r, width) == RowCells(r, width - 1) + {Position(r, width - 1)};
    }
  }

  lemma {:induction false} FirstRowsSize(rows: nat, width: nat)
    ensures |FirstRows(rows, width)| == rows * width
  {
    if rows > 0 {
      var earlier, last := FirstRows(rows - 1, width), RowCells(rows - 1, width);
      assert FirstRows(rows, width) == earlier + last;
      assert |earlier + last| == |earlier| + |last| by {
        forall p | p in last
          ensures p !in earlier
        {
        }
        assert earlier * last == {};
      }
      assert |earlier| + |last| == rows * width by {
        FirstRowsSize(rows - 1, width);
        RowCellsSize(rows - 1, width);
        assert (rows - 1) * width + width == rows * width;
      }
    }
  }

  /** The grid has `size * size` cells: what the loop guard of `generatePuzzle` counts towards. */
  lemma AllPositionsSize(size: nat)
    ensures |AllPositions(size)| == size * size
  {
    FirstRowsSize(size, size);
    assert AllPositions(size) == FirstRows(size, size);
  }

  lemma CoveredAppend(cages: seq<Cage>, cage: Cage)
    ensures Covered(cages + [cage]) == Covered(cages) + CellSet(cage.positions)
  {
    var all := cages + [cage];
    forall p | p in Covered(all)
      ensures p in Covered(cages) || p in cage.positions
    {
      var i :| 0 <= i < |all| && p in all[i].positions;
      if i < |cages| {
        assert p in cages[i].positions;
      }
    }
    forall p | p in Covered(cages)
      ensures p in Covered(all)
    {
      var i :| 0 <= i < |cages| && p in cages[i].positions;
      assert all[i] == cages[i];
    }
    forall p | p in cage.positions
      ensures p in Covered(all)
    {
      assert all[|cages|] == cage;
    }
  }

  /**
   * One round of `generatePuzzle`'s inner loop, `cageSize - 1` times: add a
   * free neighbour of the cage when there is one.  The cage keeps its start
   * cell first, never exceeds `cageSize` cells, takes only free on-grid
   * cells, each next to an earlier one, and stops short of `cageSize` only
   * when no free neighbour is left.
   */
  method GrowCage(size: nat, startPos: Position, cageSize: nat, used: set<Position>)
    returns (cagePositions: seq<Position>, usedPositions: set<Position>)
    requires InBounds(size, startPos) && startPos !in used && 1 <= cageSize
    ensures 1 <= |cagePositions| <= cageSize && cagePositions[0] == startPos
    ensures GrowingCage(size, cagePositions, used, usedPositions)
    ensures |cagePositions| < cageSize ==> Candidates(size, cagePositions, usedPositions) == []
  {
    cagePositions := [startPos];
    usedPositions := used + {startPos};
    for step := 1 to cageSize
      invariant 1 <= |cagePositions| <= step && cagePositions[0] == startPos
      invariant GrowingCage(size, cagePositions, used, usedPositions)
      invariant |cagePositions| == step || Candidates(size, cagePositions, usedPositions) == []
    {
      var candidates := Candidates(size, cagePositions, usedPositions);
      if candidates != [] {
        var pick :| 0 <= pick < |candidates|;
        var nextPos := candidates[pick];
        GrowStep(size, cagePositions, used, usedPositions, nextPos);
        cagePositions := cagePositions + [nextPos];
        usedPositions := usedPositions + {nextPos};
      }
    }
  }

  /** What a cage grown from free cells keeps true of itself. */
  predicate GrowingCage(size: nat, cells: seq<Position>, used: set<Position>, usedPositions: set<Position>)
  {
    && usedPositions == used + CellSet(cells)
    && (forall k :: 0 <= k < |cells| ==> cells[k] !in used && InBounds(size, cells[k]))
    && Distinct(cells)
    && GrownConnected(cells)
  }

  /** Adding a candidate cell keeps the growing cage's invariant. */
  lemma GrowStep(size: nat, cells: seq<Position>, used: set<Position>, usedPositions: set<Position>, next: Position)
    requires GrowingCage(size, cells, used, usedPositions)
    requires next in Candidates(size, cells, usedPositions)
    ensures GrowingCage(size, cells + [next], used, usedPositions + {next})
  {
    assert next !in usedPositions && InBounds(size, next);
    CellSetAppend(cells, next);
    var m :| 0 <= m < |cells| && Adjacent(cells[m], next);
    ConnectedStep(cells, next, m);
    DistinctStep(cells, next);
    FreshStep(size, cells, used, next);
  }

  /** Appending a cell adds exactly that cell to the cage's set of cells. */
  lemma CellSetAppend(cells: seq<Position>, next: Position)
    ensures CellSet(cells + [next]) == CellSet(cells) + {next}
  {
    assert forall q :: q in cells + [next] <==> q in cells || q == next;
  }

  /** Appending a free on-grid cell keeps every cell free and on the grid. */
  lemma FreshStep(size: nat, cells: seq<Position>, used: set<Position>, next: Position)
    requires forall k :: 0 <= k < |cells| ==> cells[k] !in used && InBounds(size, cells[k])
    requires next !in used && InBounds(size, next)
    ensures forall k :: 0 <= k < |cells + [next]| ==> (cells + [next])[k] !in used && InBounds(size, (cells + [next])[k])
  {
    var grown := cells + [next];
    forall k | 0 <= k < |grown|
      ensures grown[k] !in used && InBounds(size, grown[k])
    {
      if k < |cells| {
        assert grown[k] == cells[k];
      }
    }
  }

  /** A cell next to one of a connected cage's cells extends it connected. */
  lemma ConnectedStep(cells: seq<Position>, next: Position, anchor: nat)
    requires GrownConnected(cells) && anchor < |cells| && Adjacent(cells[anchor], next)
    ensures GrownConnected(cells + [next])
  {
    var grown := cells + [next];
    forall k | 0 < k < |grown|
      ensures HasEarlierNeighbour(grown, k)
    {
      if k == |cells| {
        assert grown[anchor] == cells[anchor] && grown[k] == next;
      } else {
        assert HasEarlierNeighbour(cells, k);
        var m :| 0 <= m < k && Adjacent(cells[m], cells[k]);
        assert grown[m] == cells[m] && grown[k] == cells[k];
      }
    }
  }

  /** A cell not yet in a cage of distinct cells extends it distinct. */
  lemma DistinctStep(cells: seq<Position>, next: Position)
    requires Distinct(cells) && next !in cells
    ensures Distinct(cells + [next])
  {
    var grown := cells + [next];
    forall a, b | 0 <= a < b < |grown|
      ensures grown[a] != grown[b]
    {
      if b == |cells| {
        assert grown[a] == cells[a];
      } else {
        assert grown[a] == cells[a] && grown[b] == cells[b];
      }
    }
  }

  lemma GrowingCageShaped(size: nat, cage: Cage, used: set<Position>, usedPositions: set<Position>)
    requires GrowingCage(size, cage.positions, used, usedPositions) && 1 <= |cage.positions| <= 4
    ensures WellShaped(cage, size)
  {
  }

  /** A cage labelled from the solution's own values is satisfied by the solution. */
  lemma LabelledCageValid(solution: seq<seq<int>>, size: nat, cells: seq<Position>, choice: nat)
    requires IsSquare(solution, size) && |cells| >= 1
    requires forall k :: 0 <= k < |cells| ==> InBounds(size, cells[k])
    ensures var labelled := CalculateOperationAndTarget(ValuesAt(solution, size, cells), choice);
      && Cage(cells, labelled.0, labelled.1).IsValid(SolutionGrid(solution))
      && (labelled.0 == NoOp ==> |cells| == 1)
  {
    SolutionValues(solution, size, cells);
  }

  /** Only one-cell cages carry `.none`, the operation that reads a single value. */
  predicate NoOpOnlySingle(cages: seq<Cage>)
  {
    forall i :: 0 <= i < |cages| && cages[i].operation == NoOp ==> |cages[i].positions| == 1
  }

  /**
   * A generated cage may list its cells in any order: since the generator
   * gives `.none` only to one-cell cages, the order of the source's `Set`
   * never changes whether a cage is satisfied.
   */
  lemma GeneratedCageIgnoresOrder(cages: seq<Cage>, i: nat, cells: seq<Position>, grid: Grid)
    requires NoOpOnlySingle(cages) && i < |cages|
    requires multiset(cells) == multiset(cages[i].positions)
    ensures Cage(cells, cages[i].operation, cages[i].target).IsValid(grid) == cages[i].IsValid(grid)
  {
    assert |cells| == |multiset(cells)| == |multiset(cages[i].positions)| == |cages[i].positions|;
    IsValidIgnoresOrder(cages[i], cells, grid);
  }

  /**
   * The cage carries a label `calculateOperationAndTarget` can give the
   * solution's values at its cells: `.none` and the value for one cell,
   * otherwise one of the offered pairs (`LabelledByPolicyIff`).
   */
  predicate LabelledByPolicy(cage: Cage, solution: seq<seq<int>>, size: nat)
  {
    && IsSquare(solution, size)
    && (forall k :: 0 <= k < |cage.positions| ==> InBounds(size, cage.positions[k]))
    && var values := ValuesAt(solution, size, cage.positions);
      if |values| == 1 then cage.operation == NoOp && cage.target == values[0]
      else (cage.operation, cage.target) in PossibleOperations(values)
  }

  /** A cage is labelled by the policy exactly when some random choice gives its label. */
  lemma LabelledByPolicyIff(cage: Cage, solution: seq<seq<int>>, size: nat)
    requires IsSquare(solution, size)
    requires forall k :: 0 <= k < |cage.positions| ==> InBounds(size, cage.positions[k])
    ensures LabelledByPolicy(cage, solution, size) <==>
      exists choice: nat ::
        (cage.operation, cage.target) == CalculateOperationAndTarget(ValuesAt(solution, size, cage.positions), choice)
  {
    var values := ValuesAt(solution, size, cage.positions);
    var pair := (cage.operation, cage.target);
    if LabelledByPolicy(cage, solution, size) {
      if |values| == 1 {
        assert pair == CalculateOperationAndTarget(values, 0);
      } else {
        EveryOperationOffered(values, pair);
      }
    }
    if exists choice: nat :: pair == CalculateOperationAndTarget(values, choice) {
      var choice: nat :| pair == CalculateOperationAndTarget(values, choice);
      assert |values| != 1 ==> pair in PossibleOperations(values);
    }
  }

  /**
   * What a generated cage's label implies: `.none` exactly for one cell,
   * Subtract only for two cells, and Divide only for two cells whose
   * smaller solution value is non-zero and divides the larger.
   */
  lemma PolicyLabelShape(cage: Cage, solution: seq<seq<int>>, size: nat)
    requires LabelledByPolicy(cage, solution, size)
    ensures |cage.positions| == 1 <==> cage.operation == NoOp
    ensures cage.operation == Subtract ==> |cage.positions| == 2
    ensures var values := ValuesAt(solution, size, cage.positions);
      cage.operation == Divide ==>
        && |values| == 2 && Min(values[0], values[1]) != 0
        && TruncRem(Max(values[0], values[1]), Min(values[0], values[1])) == 0
  {
  }

  /** What `generatePuzzle`'s outer loop keeps true of the cages emitted so far. */
  predicate GeneratedSoFar(cages: seq<Cage>, used: set<Position>, size: nat, solution: seq<seq<int>>)
  {
    && used <= AllPositions(size)
    && used == Covered(cages)
    && (forall i :: 0 <= i < |cages| ==> WellShaped(cages[i], size))
    && PairwiseDisjoint(cages)
    && (forall i :: 0 <= i < |cages| ==> cages[i].IsValid(SolutionGrid(solution)))
    && NoOpOnlySingle(cages)
    && (forall i :: 0 <= i < |cages| ==> LabelledByPolicy(cages[i], solution, size))
  }

  /** Emitting a cage of fresh cells, well shaped and satisfied by the solution, keeps the loop invariant. */
  lemma EmitCage(cages: seq<Cage>, used: set<Position>, size: nat, solution: seq<seq<int>>, cage: Cage)
    requires GeneratedSoFar(cages, used, size, solution)
    requires WellShaped(cage, size) && cage.IsValid(SolutionGrid(solution))
    requires cage.operation == NoOp ==> |cage.positions| == 1
    requires LabelledByPolicy(cage, solution, size)
    requires forall k :: 0 <= k < |cage.positions| ==> cage.positions[k] !in used
    ensures GeneratedSoFar(cages + [cage], used + CellSet(cage.positions), size, solution)
  {
    var all := cages + [cage];
    CoveredAppend(cages, cage);
    forall i, j, p | 0 <= i < j < |all| && p in all[i].positions
      ensures p !in all[j].positions
    {
      if j == |cages| {
        assert p in Covered(cages);
      } else {
        assert all[i] == cages[i] && all[j] == cages[j];
      }
    }
    forall i | 0 <= i < |all|
      ensures WellShaped(all[i], size) && all[i].IsValid(SolutionGrid(solution))
      ensures all[i].operation == NoOp ==> |all[i].positions| == 1
      ensures LabelledByPolicy(all[i], solution, size)
    {
      if i < |cages| {
        assert all[i] == cages[i];
      }
    }
    assert (CellSet(cage.positions)) <= AllPositions(size) by {
      forall p | p in cage.positions
        ensures p in AllPositions(size)
      {
        var k :| 0 <= k < |cage.positions| && cage.positions[k] == p;
        assert InBounds(size, cage.positions[k]);
      }
    }
  }

  /**
   * `generatePuzzle`: while some cell is unused, pick an unused start cell
   * and a cage size from 1 to min(4, free cells), grow the cage, then
   * label it from the solution's values.  The result is a partition of the
   * grid into connected cages of one to four cells, each labelled by
   * `calculateOperationAndTarget` and satisfied by the solution.  The loop ends since every round uses at least its start cell.
   */
  method GeneratePuzzle(size: nat, solution: seq<seq<int>>) returns (cages: seq<Cage>)
    requires IsSquare(solution, size)
    ensures IsPartition(cages, size)
    ensures forall i :: 0 <= i < |cages| ==> cages[i].IsValid(SolutionGrid(solution))
    ensures NoOpOnlySingle(cages)
    ensures forall i :: 0 <= i < |cages| ==> LabelledByPolicy(cages[i], solution, size)
  {
    var usedPositions: set<Position> := {};
    var generatedCages: seq<Cage> := [];
    AllPositionsSize(size);

    while |usedPositions| < size * size
      invariant GeneratedSoFar(generatedCages, usedPositions, size, solution)
      decreases size * size - |usedPositions|
    {
      var availablePositions := AllPositions(size) - usedPositions;
      if availablePositions == {} {
        break;
      }
      var startPos :| startPos in availablePositions;
      var maxSize := Min(4, |availablePositions|);
      assert 1 <= maxSize <= 4 by {
        assert |availablePositions| >= |{startPos}|;
      }
      var cageSize :| 1 <= cageSize <= maxSize;
      ghost var before := usedPositions;
      var cagePositions;
      cagePositions, usedPositions := GrowCage(size, startPos, cageSize, usedPositions);

      var values := ValuesAt(solution, size, cagePositions);
      var choice: nat :| true;
      var labelled := CalculateOperationAndTarget(values, choice);
      var cage := Cage(cagePositions, labelled.0, labelled.1);
      LabelledCageValid(solution, size, cagePositions, choice);
      assert LabelledByPolicy(cage, solution, size) by {
        assert (cage.operation, cage.target) == CalculateOperationAndTarget(ValuesAt(solution, size, cage.positions), choice);
        LabelledByPolicyIff(cage, solution, size);
      }
      GrowingCageShaped(size, cage, before, usedPositions);
      EmitCage(generatedCages, before, size, solution, cage);
      generatedCages := generatedCages + [cage];
      assert GeneratedSoFar(generatedCages, usedPositions, size, solution);
      SubsetSize(usedPositions, AllPositions(size));
      assert startPos in usedPositions - before;
      SubsetSize(before, usedPositions);
    }

    assert usedPositions == AllPositions(size) by {
      SubsetSize(usedPositions, AllPositions(size));
    }
    cages := generatedCages;
  }

  /** A path of side-sharing steps that stays inside `cells`. */
  predicate IsPathWithin(path: seq<Position>, cells: seq<Position>)
  {
    && |path| >= 1
    && (forall k :: 0 <= k < |path| ==> path[k] in cells)
    && (forall k :: 0 < k < |path| ==> Adjacent(path[k - 1], path[k]))
  }

  /**
   * A cage grown from its first cell is 4-connected: every one of its cells
   * is reached from the first by a path of side-sharing steps inside it.
   */
  lemma {:induction false} GrownIsConnected(cells: seq<Position>, k: nat) returns (path: seq<Position>)
    requires GrownConnected(cells) && k < |cells|
    ensures IsPathWithin(path, cells) && path[0] == cells[0] && path[|path| - 1] == cells[k]
    decreases k
  {
    if k == 0 {
      path := [cells[0]];
    } else {
      assert HasEarlierNeighbour(cells, k);
      var m :| 0 <= m < k && Adjacent(cells[m], cells[k]);
      var prefix := GrownIsConnected(cells, m);
      path := prefix + [cells[k]];
    }
  }

  /** Every on-grid cell lies in exactly one cage of a partition. */
  lemma PartitionOwner(cages: seq<Cage>, size: nat, p: Position) returns (i: nat)
    requires IsPartition(cages, size) && InBounds(size, p)
    ensures i < |cages| && p in cages[i].positions
    ensures forall j :: 0 <= j < |cages| && p in cages[j].positions ==> j == i
  {
    assert p in AllPositions(size);
    var i0 :| 0 <= i0 < |cages| && p in cages[i0].positions;
    i := i0;
    forall j | 0 <= j < |cages| && p in cages[j].positions
      ensures j == i
    {
    }
  }
}
