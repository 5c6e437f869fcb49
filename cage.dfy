/**
 * Grid positions, the player's grid of optional values, and cages with
 * their satisfaction test (`Position`, `Cage.contains`, `Cage.isValid`).
 */
module Cages {
  import opened Wrappers
  import opened Operations

  /** A cell, 0-indexed by row and column. */
  datatype Position = Position(row: nat, col: nat)

  predicate InBounds(size: nat, p: Position) { p.row < size && p.col < size }

  /** Two cells that share a side. */
  predicate Adjacent(p: Position, q: Position)
  {
    || (p.row == q.row && (p.col + 1 == q.col || q.col + 1 == p.col))
    || (p.col == q.col && (p.row + 1 == q.row || q.row + 1 == p.row))
  }

  /** The player's grid (`[[Int?]]`): `None` is an empty cell. */
  type Grid = seq<seq<Option<int>>>

  /** A cell of `grid`, or `None` where `p` lies outside it. */
  function CellAt(grid: Grid, p: Position): (cell: Option<int>)
    ensures p.row < |grid| && p.col < |grid[p.row]| ==> cell == grid[p.row][p.col]
    ensures !(p.row < |grid| && p.col < |grid[p.row]|) ==> cell == None
  {
    if p.row < |grid| && p.col < |grid[p.row]| then grid[p.row][p.col] else None
  }

  predicate AllFilled(grid: Grid, cells: seq<Position>)
  {
    forall k :: 0 <= k < |cells| ==> CellAt(grid, cells[k]).Some?
  }

  /** The values of the cells, in the order the cells are listed. */
  function FilledValues(grid: Grid, cells: seq<Position>): (values: seq<int>)
    requires AllFilled(grid, cells)
    ensures |values| == |cells|
  {
    seq(|cells|, k requires 0 <= k < |cells| => CellAt(grid, cells[k]).value)
  }

  /**
   * The non-empty values of the cells that lie on the grid, in order: the
   * source's `positions.compactMap { ... }`.  It has one value per cell
   * exactly when every cell is on the grid and filled.
   */
  function PresentValues(grid: Grid, cells: seq<Position>): (values: seq<int>)
    ensures |values| <= |cells|
    ensures |values| == |cells| <==> AllFilled(grid, cells)
    ensures AllFilled(grid, cells) ==> values == FilledValues(grid, cells)
  {
    if cells == [] then []
    else
      var rest := PresentValues(grid, cells[1..]);
      assert AllFilled(grid, cells) <==> CellAt(grid, cells[0]).Some? && AllFilled(grid, cells[1..]) by {
        assert forall k :: 0 < k < |cells| ==> cells[k] == cells[1..][k - 1];
      }
      match CellAt(grid, cells[0])
      case Some(v) => [v] + rest
      case None => rest
  }

  /**
   * A cage: its cells, listed without repetition (the source keeps a `Set`),
   * its operation and its target.
   */
  datatype Cage = Cage(positions: seq<Position>, operation: Operation, target: int)
  {
    /** `contains(position:)` */
    predicate Contains(p: Position)
      ensures Contains(p) <==> exists k :: 0 <= k < |positions| && positions[k] == p
    {
      p in positions
    }

    /**
     * `isValid(with:)`: the cage is satisfied exactly when every one of its
     * cells is on the grid and filled, and the operation over their values
     * yields the target.
     */
    function IsValid(grid: Grid): (valid: bool)
      ensures valid <==>
        AllFilled(grid, positions) && operation.Calculate(FilledValues(grid, positions)) == Some(target)
    {
      var values := PresentValues(grid, positions);
      |values| == |positions| && operation.Calculate(values) == Some(target)
    }
  }

  /** A cage with an empty cell, or a cell off the grid, is never satisfied. */
  lemma EmptyCellInvalidates(cage: Cage, grid: Grid, k: nat)
    requires k < |cage.positions| && CellAt(grid, cage.positions[k]) == None
    ensures !cage.IsValid(grid)
  {
  }
  /** The values of two listings laid end to end are the two lists of values laid end to end. */
  lemma FilledValuesAppend(grid: Grid, s: seq<Position>, t: seq<Position>)
    requires AllFilled(grid, s + t)
    ensures AllFilled(grid, s) && AllFilled(grid, t)
    ensures FilledValues(grid, s + t) == FilledValues(grid, s) + FilledValues(grid, t)
  {
    assert forall k :: 0 <= k < |s| ==> (s + t)[k] == s[k];
    assert forall k :: 0 <= k < |t| ==> (s + t)[|s| + k] == t[k];
  }

  /** Every cell of `b` is a cell of `a`, so it is filled when all of `a` is. */
  lemma FilledSubset(grid: Grid, a: seq<Position>, b: seq<Position>)
    requires AllFilled(grid, a) && forall p :: p in b ==> p in a
    ensures AllFilled(grid, b)
  {
    forall k | 0 <= k < |b|
      ensures CellAt(grid, b[k]).Some?
    {
      assert b[k] in b;
      var j :| 0 <= j < |a| && a[j] == b[k];
    }
  }

  /** Taking one cell out of a filled listing takes its value out of the values. */
  lemma FilledValuesRemoveAt(grid: Grid, b: seq<Position>, k: nat)
    requires AllFilled(grid, b) && k < |b|
    ensures AllFilled(grid, b[..k] + b[k + 1..])
    ensures multiset(FilledValues(grid, b)) ==
      multiset(FilledValues(grid, b[..k] + b[k + 1..])) + multiset{CellAt(grid, b[k]).value}
  {
    var rest := b[..k] + b[k + 1..];
    assert b == b[..k] + ([b[k]] + b[k + 1..]);
    FilledValuesAppend(grid, b[..k], [b[k]] + b[k + 1..]);
    FilledValuesAppend(grid, [b[k]], b[k + 1..]);
    assert AllFilled(grid, rest) by {
      forall j | 0 <= j < |rest|
        ensures CellAt(grid, rest[j]).Some?
      {
        if j < k {
          assert rest[j] == b[..k][j];
        } else {
          assert rest[j] == b[k + 1..][j - k];
        }
      }
    }
    FilledValuesAppend(grid, b[..k], b[k + 1..]);
    assert FilledValues(grid, [b[k]]) == [CellAt(grid, b[k]).value];
  }

  /** Dropping the same element from two lists with equal multisets leaves equal multisets. */
  lemma RemoveMatching<T>(a: seq<T>, b: seq<T>, k: nat)
    requires multiset(a) == multiset(b) && |a| > 0 && k < |b| && b[k] == a[0]
    ensures multiset(a[1..]) == multiset(b[..k] + b[k + 1..])
  {
    var restA, restB := multiset(a[1..]), multiset(b[..k] + b[k + 1..]);
    assert a == [a[0]] + a[1..];
    assert multiset(a) == restA + multiset{a[0]};
    assert b == b[..k] + [b[k]] + b[k + 1..];
    assert multiset(b) == restB + multiset{a[0]} by {
      assert multiset(b) == multiset(b[..k]) + multiset{b[k]} + multiset(b[k + 1..]);
      assert restB == multiset(b[..k]) + multiset(b[k + 1..]);
    }
    forall e
      ensures restA[e] == restB[e]
    {
      assert multiset(a)[e] == restA[e] + multiset{a[0]}[e];
      assert multiset(b)[e] == restB[e] + multiset{a[0]}[e];
    }
    assert restA == restB;
  }

  /**
   * Two listings of the same cells are filled alike and have the same
   * values, counted with multiplicity.
   */
  lemma {:induction false} FilledValuesPermutation(grid: Grid, a: seq<Position>, b: seq<Position>)
    requires AllFilled(grid, a) && multiset(a) == multiset(b)
    ensures AllFilled(grid, b)
    ensures multiset(FilledValues(grid, a)) == multiset(FilledValues(grid, b))
    decreases |a|
  {
    assert forall p :: p in b ==> p in a by {
      forall p | p in b
        ensures p in a
      {
        assert p in multiset(b);
      }
    }
    FilledSubset(grid, a, b);
    if a == [] {
      assert |b| == |multiset(b)| == 0;
    } else {
      var x := a[0];
      assert x in multiset(b) by {
        assert x in multiset(a);
      }
      var k :| 0 <= k < |b| && b[k] == x;
      var rest := b[..k] + b[k + 1..];
      RemoveMatching(a, b, k);
      FilledValuesRemoveAt(grid, a, 0);
      assert a[..0] + a[1..] == a[1..];
      FilledValuesRemoveAt(grid, b, k);
      FilledValuesPermutation(grid, a[1..], rest);
    }
  }

  /**
   * The cells of a cage form a `Set` in the source, iterated in no fixed
   * order: listing them in any order gives the same validity, unless a
   * `.none` cage has several cells.
   */
  lemma IsValidIgnoresOrder(cage: Cage, cells: seq<Position>, grid: Grid)
    requires multiset(cells) == multiset(cage.positions)
    requires cage.operation == NoOp ==> |cells| <= 1
    ensures Cage(cells, cage.operation, cage.target).IsValid(grid) == cage.IsValid(grid)
  {
    var reordered := Cage(cells, cage.operation, cage.target);
    assert |cells| == |multiset(cells)| == |multiset(cage.positions)| == |cage.positions|;
    if AllFilled(grid, cage.positions) {
      FilledValuesPermutation(grid, cage.positions, cells);
      CalculateIgnoresOrder(cage.operation, FilledValues(grid, cells), FilledValues(grid, cage.positions));
    } else if AllFilled(grid, cells) {
      FilledValuesPermutation(grid, cells, cage.positions);
    }
  }
}
