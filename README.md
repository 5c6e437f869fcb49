# Numeriqo puzzle engine in Dafny

A model of the engine behind Numeriqo, a KenKen-style arithmetic puzzle. The
player fills an n×n grid with 1..n so that no row or column repeats a value.
Each cage (a group of cells) must also combine to its target under its
operation.

The model covers:

- cage arithmetic (`Operation.calculate`);
- the cage check (`Cage.isValid`);
- the hidden-solution generator (a cyclic Latin square reindexed through two
  shuffled index lists);
- the randomised cage partitioner, with its labelling of each cage by an
  operation and target;
- the game state of `MathMazeGame`: the grid, setting and reading cells,
  move validation and completion detection;
- the per-size best-time store of `BestTimesManager` and its `MM:SS`
  formatting.

Modules, one file each:

- `Wrappers` (`wrappers.dfy`): `Option`.
- `Decimal` (`decimal.dfy`): decimal rendering of integers, as Swift's
  string interpolation and `%02d` produce it.
- `Operations` (`operation.dfy`): Swift's truncating `/` and `%`, and the
  `Operation` datatype with `Calculate`.
- `Cages` (`cage.dfy`): `Position`, the player's grid type, and `Cage` with
  `Contains` and `IsValid`.
- `LatinSquare` (`latin_square.dfy`): `GenerateLatinSquare`, the
  Latin-square lemmas, and the generic `Distinct`, `IsSquare` and `Column`
  that the solution, the player's grid and the cages' cells share.
- `Partition` (`partition.dfy`): `GeneratePuzzle`, `AdjacentPositions`,
  `CalculateOperationAndTarget`, and the partition and connectivity proofs.
- `Game` (`game.dfy`): the class `MathMazeGame` and the completion
  predicates.
- `BestTimes` (`best_times.dfy`): the class `BestTimesManager` over a
  `map<string, int>` store, with lemmas about the store functions.

Randomness (`shuffled`, `randomElement`, `Int.random`) is nondeterministic
choice (`:|`). Every property proved therefore holds for every outcome of
the random draws. `GenerateLatinSquare` takes the two shuffled index lists
as parameters.

`isValidMove` (`Numeriqo/KenKenGame.swift:99-117`) checks only the move's
row and column and never consults the cage; `MoveValidIffNoClash` states
this.

## Model

| member | source | states |
|---|---|---|
| Operations.Abs | Numeriqo/KenKenGame.swift:31 | Swift's `abs`, also at line 250: non-negative, and the value or its negation |
| Operations.Min | Numeriqo/KenKenGame.swift:254 | `sortedValues.first!` of two values, and `min(4, …)` at line 192: the smaller of the two, at most each and equal to one |
| Operations.Max | Numeriqo/KenKenGame.swift:253 | `sortedValues.last!` of two values: at least each and equal to one |
| Operations.TruncDiv | Numeriqo/KenKenGame.swift:37 | Swift's `Int` division: the remainder is smaller than the divisor in magnitude and has the sign of the dividend (rounding toward zero) |
| Operations.TruncatedRemainder | Numeriqo/KenKenGame.swift:37 | the quotient of the magnitudes with the sign of `a * b` leaves a remainder below the divisor in magnitude, with the dividend's sign |
| Operations.TruncRem | Numeriqo/KenKenGame.swift:255-256 | Swift's `%`: the remainder is smaller than the divisor in magnitude, non-negative for a non-negative dividend and non-positive for a non-positive one |
| Operations.Operation.Calculate | Numeriqo/KenKenGame.swift:23-41 | None exactly for an empty list, a Subtract or Divide over other than two values, or a Divide whose smaller value is 0; otherwise Add is the sum, Multiply the product, Subtract a non-negative difference of the two values, `.none` the first value |
| Operations.DivideIgnoresOrder | Numeriqo/KenKenGame.swift:34-37 | Divide gives the same result for `[a, b]` and `[b, a]`: the larger value over the smaller, truncated |
| Operations.DivideFloors | Numeriqo/KenKenGame.swift:34-37 | on positive values Divide is the floor of max / min, whether or not the division is exact |
| Operations.DivideExamples | Numeriqo/KenKenGame.swift:34-37 | `[6,3]` and `[3,6]` both give 2; `[5,2]` gives 2 |
| Operations.Sum | Numeriqo/KenKenGame.swift:28 | `reduce(0, +)`, also the cage sum at line 244: values that are all at least 1 sum to at least their count |
| Operations.Product | Numeriqo/KenKenGame.swift:33 | `reduce(1, *)`, also the cage product at line 245: the product is 0 exactly when some value is 0 |
| Operations.SumPermutation | Numeriqo/KenKenGame.swift:28 | the `reduce(0, +)` sum does not depend on the order of the values |
| Operations.ProductPermutation | Numeriqo/KenKenGame.swift:33 | the `reduce(1, *)` product does not depend on the order of the values |
| Operations.TwoElementOrders | Numeriqo/KenKenGame.swift:30-36 | a two-value list with the same multiset as another is the same list or its swap |
| Operations.CalculateIgnoresOrder | Numeriqo/KenKenGame.swift:55-64 | over the same multiset of values every operation gives the same result, `.none` provided there is at most one value |
| Cages.CellAt | Numeriqo/KenKenGame.swift:57-58 | the cell's entry when the position is on the grid, and nothing when it is off the grid |
| Cages.Cage.Contains | Numeriqo/KenKenGame.swift:51-53 | a position is contained exactly when some entry of the cage's cells is that position |
| Cages.FilledValuesPermutation | Numeriqo/KenKenGame.swift:56-59 | listing the same cells in another order keeps them all filled and yields the same multiset of values |
| Cages.IsValidIgnoresOrder | Numeriqo/KenKenGame.swift:55-64 | a cage listed in another order of the same cells is valid exactly when the original is, for any cage whose `.none` has at most one cell; so the unspecified order of the source's `Set` changes nothing |
| Cages.PresentValues | Numeriqo/KenKenGame.swift:56-59 | the compactMap of the cage's cells keeps one value per cell exactly when every cell is on the grid and filled, and then it is the cells' values in order |
| Cages.Cage.IsValid | Numeriqo/KenKenGame.swift:55-64 | a cage is valid exactly when all its cells are on the grid and filled and its operation over their values yields the target |
| Cages.EmptyCellInvalidates | Numeriqo/KenKenGame.swift:55-64 | a cage with an empty or off-grid cell is never valid |
| LatinSquare.OneTo | Numeriqo/KenKenGame.swift:143 | `Set(1...n)`: exactly the integers from 1 to n |
| LatinSquare.Column | Numeriqo/KenKenGame.swift:111 | `(0..<size).map { grid[$0][c] }`: one entry per row; the same definition gives the player grid's columns and the columns along which the generated square is Latin |
| LatinSquare.CyclicSquare | Numeriqo/KenKenGame.swift:267-271 | the initial square `((i + j) % n) + 1` is n×n |
| LatinSquare.Reindexed | Numeriqo/KenKenGame.swift:278-282 | shuffling rows and columns through permutations keeps the square n×n |
| LatinSquare.IdentityIsPermutation | Numeriqo/KenKenGame.swift:274-275 | the identity index list is a permutation, so the shuffles always have an outcome |
| LatinSquare.FillCyclic | Numeriqo/KenKenGame.swift:264-271 | the first loop nest fills exactly the cyclic square `((i + j) % n) + 1` |
| LatinSquare.FillReindexed | Numeriqo/KenKenGame.swift:277-282 | the second loop nest fills exactly `square[rowPermutation[i]][colPermutation[j]]` in every cell |
| LatinSquare.GenerateLatinSquare | Numeriqo/KenKenGame.swift:263-285 | the nested loops build exactly the cyclic square reindexed through the two permutations, and the result is a Latin square |
| LatinSquare.ModShiftInjective | Numeriqo/KenKenGame.swift:269 | adding the same offset to two different residues below n keeps them different modulo n |
| LatinSquare.CyclicIsLatin | Numeriqo/KenKenGame.swift:267-271 | every row and column of the cyclic square is a permutation of 1..n |
| LatinSquare.ReindexedIsLatin | Numeriqo/KenKenGame.swift:274-282 | permuting the rows and the columns of a Latin square gives a Latin square |
| LatinSquare.ToSet | Numeriqo/KenKenGame.swift:106 | `Set(values)` holds exactly the values that occur in the list |
| LatinSquare.ToSetBound | Numeriqo/KenKenGame.swift:139 | `Set(values).count` is at most the number of values, and equal to it exactly when no value repeats |
| LatinSquare.OneToSize | Numeriqo/KenKenGame.swift:143 | `Set(1...n)` has n elements |
| LatinSquare.SubsetSize | Numeriqo/KenKenGame.swift:139-143 | a subset is no larger than its superset, and one of the same size is equal to it |
| LatinSquare.LineIffOneTo | Numeriqo/KenKenGame.swift:139-145 | a list of n values is a permutation of 1..n exactly when its set is `{1..n}` |
| Partition.Step | Numeriqo/KenKenGame.swift:229-234 | at most one cell: the cell shifted by (dRow, dCol), when it lies on the grid |
| Partition.AdjacentPositions | Numeriqo/KenKenGame.swift:226-236 | exactly the in-bounds orthogonal neighbours of the cell, at most four |
| Partition.Candidates | Numeriqo/KenKenGame.swift:198-200 | every candidate is an unused, in-bounds neighbour of some cage cell, and every such neighbour is a candidate |
| Partition.Free | Numeriqo/KenKenGame.swift:199 | the `filter { !usedPositions.contains($0) }` keeps exactly the listed cells not yet used |
| Partition.PossibleOperations | Numeriqo/KenKenGame.swift:247-258 | between two and four pairs; `(Add, sum)` and `(Multiply, product)` always, `(Subtract, |v0 − v1|)` for two values, `(Divide, max / min)` for two values whose non-zero min divides the max, and nothing else |
| Partition.EveryOperationOffered | Numeriqo/KenKenGame.swift:260 | for any number of values other than one, every offered pair is the result of some random choice |
| Partition.CalculateOperationAndTarget | Numeriqo/KenKenGame.swift:238-261 | whichever choice is taken, the operation over the values yields the target; `.none` exactly for a single value, whose value is the target; Subtract only for two values; Divide only for two values whose min is non-zero and divides the max |
| Partition.SolutionGrid | Numeriqo/KenKenGame.swift:209 | the solution seen as a player grid has the solution's shape |
| Partition.ValuesAt | Numeriqo/KenKenGame.swift:209 | one solution value per cage cell |
| Partition.SolutionValues | Numeriqo/KenKenGame.swift:209 | the values the generator reads from the solution are the cage's values on the solution grid |
| Partition.RowCellsSize | Numeriqo/KenKenGame.swift:182 | one row of positions has `width` cells |
| Partition.FirstRowsSize | Numeriqo/KenKenGame.swift:182 | the first `rows` rows hold `rows * width` positions |
| Partition.AllPositions | Numeriqo/KenKenGame.swift:183-188 | the positions the scan over rows and columns lists: exactly the cells with row and column below `size` |
| Partition.AllPositionsSize | Numeriqo/KenKenGame.swift:182 | the grid has `size * size` positions, the loop's bound |
| Partition.CoveredAppend | Numeriqo/KenKenGame.swift:219 | appending a cage adds exactly its cells to the covered positions |
| Partition.GrowCage | Numeriqo/KenKenGame.swift:193-206 | the grown cage starts at the start cell, has 1 to `cageSize` distinct, previously unused, in-bounds cells, each adjacent to an earlier one, and they are exactly the newly used positions; it stops short of `cageSize` only when no free neighbour is left |
| Partition.GrowStep | Numeriqo/KenKenGame.swift:202-205 | adding a candidate keeps the growing cage distinct, connected and new |
| Partition.ConnectedStep | Numeriqo/KenKenGame.swift:198-204 | a cell next to a cell of a connected cage keeps it connected |
| Partition.DistinctStep | Numeriqo/KenKenGame.swift:199-203 | a cell not yet in the cage keeps its cells distinct |
| Partition.GrowingCageShaped | Numeriqo/KenKenGame.swift:192-206 | a fully grown cage of 1–4 cells is well shaped |
| Partition.LabelledCageValid | Numeriqo/KenKenGame.swift:209-217 | a cage labelled from the solution's values is satisfied by the solution, and is labelled `.none` only when it has a single cell |
| Partition.EmitCage | Numeriqo/KenKenGame.swift:212-219 | appending a new well-shaped, satisfied cage of unused cells keeps the cages disjoint and their cells exactly the used positions |
| Partition.GeneratedCageIgnoresOrder | Numeriqo/KenKenGame.swift:209-217 | a generated cage is valid in any order of its cells exactly when it is valid as listed |
| Partition.LabelledByPolicyIff | Numeriqo/KenKenGame.swift:209-210 | a cage's label is `.none` and the value for one cell, or else one of the offered pairs, exactly when some random choice makes `calculateOperationAndTarget` give it |
| Partition.PolicyLabelShape | Numeriqo/KenKenGame.swift:238-261 | a cage labelled by `calculateOperationAndTarget` is `.none` exactly when it has one cell, Subtract only with two cells, and Divide only with two cells whose smaller solution value is non-zero and divides the larger |
| Partition.GeneratePuzzle | Numeriqo/KenKenGame.swift:158-224 | the loop terminates; the cages are pairwise disjoint, cover all n² positions, each has 1–4 distinct in-bounds cells grown by adjacency, the hidden solution satisfies every cage, every cage carries the label `calculateOperationAndTarget` gives its solution values for some random choice, and only one-cell cages are labelled `.none` |
| Partition.GrownIsConnected | Numeriqo/KenKenGame.swift:197-206 | every cell of a grown cage is reached from its first cell by a path of adjacent cells inside the cage (4-connected) |
| Partition.PartitionOwner | Numeriqo/KenKenGame.swift:182-221 | every grid cell lies in exactly one cage |
| Game.EmptyGrid | Numeriqo/KenKenGame.swift:78 | the initial grid is size×size and every cell is empty |
| Game.Place | Numeriqo/KenKenGame.swift:86 | writing one cell keeps the grid's shape, puts the value in that cell and leaves every other cell as it was |
| Game.Present | Numeriqo/KenKenGame.swift:105 | `compactMap` keeps at most every entry, and all of them on a full line |
| Game.PresentMembers | Numeriqo/KenKenGame.swift:105 | a value survives `compactMap` exactly when some entry holds it |
| Game.PresentDistinct | Numeriqo/KenKenGame.swift:104-106 | the filled values repeat nothing exactly when no filled entry of the line repeats |
| Game.NoRepeatIffSetSize | Numeriqo/KenKenGame.swift:104-114 | the test `Set(values).count != values.count` fails exactly when some filled value repeats |
| Game.MoveValidIffNoClash | Numeriqo/KenKenGame.swift:99-117 | when the rest of the row and column repeat nothing, a move is accepted exactly when no other cell of its row or column holds the value; cages play no part |
| Game.SolvedIsLatin | Numeriqo/KenKenGame.swift:119-156 | a grid that passes the completion check holds a Latin square |
| Game.PresentOfFilled | Numeriqo/KenKenGame.swift:136-137 | `compactMap` over a fully filled line gives back its values |
| Game.SolutionWins | Numeriqo/KenKenGame.swift:119-156 | entering the hidden solution completes the game |
| Game.FirstCage | Numeriqo/KenKenGame.swift:95-97 | the result is the first cage containing the cell, and None exactly when no cage contains it |
| Game.MathMazeGame.constructor | Numeriqo/KenKenGame.swift:76-82 | an empty size×size grid, a Latin-square solution, and cages that partition the grid, are labelled by `calculateOperationAndTarget` from the solution and are satisfied by it; not completed |
| Game.MathMazeGame.GetValue | Numeriqo/KenKenGame.swift:90-93 | the cell's value on the grid, None off the grid |
| Game.MathMazeGame.SetValue | Numeriqo/KenKenGame.swift:84-88 | on the grid, writes the cell (None clears it), so reading it back gives the value; every other cell is unchanged; off the grid, nothing changes; `isCompleted` becomes true exactly when the new grid is solved, and never goes back to false |
| Game.MathMazeGame.GetCage | Numeriqo/KenKenGame.swift:95-97 | a cage containing the cell, None exactly when no cage contains it |
| Game.MathMazeGame.GetCageFindsOwner | Numeriqo/KenKenGame.swift:95-97 | every grid cell has a cage, and it is the only cage containing the cell |
| Game.MathMazeGame.IsValidMove | Numeriqo/KenKenGame.swift:99-117 | true exactly when, with the value placed on a copy, neither the row nor the column holds a filled value twice; nothing is changed |
| Game.MathMazeGame.CheckCompletion | Numeriqo/KenKenGame.swift:119-131 | sets `isCompleted` exactly when the grid is full, every row and column is `{1..size}`, and every cage is valid; otherwise leaves it as it was |
| Game.MathMazeGame.IsValidSolution | Numeriqo/KenKenGame.swift:133-156 | true exactly when every row and column holds the set `{1..size}` and every cage is valid |
| Game.CheckLines | Numeriqo/KenKenGame.swift:135-146 | the row and column loop accepts exactly when every row's and column's filled values form the set `{1..size}` |
| Game.CheckLine | Numeriqo/KenKenGame.swift:136-145 | accepts exactly when the filled values of the row and of the column each form the set `{1..size}` |
| Game.CheckCages | Numeriqo/KenKenGame.swift:149-153 | the cage loop accepts exactly when every cage is valid |
| Decimal.DigitChar | Numeriqo/BestTimesManager.swift:54 | a digit below 10 becomes its decimal digit character |
| Decimal.NatToString | Numeriqo/BestTimesManager.swift:54 | decimal text of a natural number: at least one digit, only digits, no leading zero, one digit exactly below 10 |
| Decimal.IntToString | Numeriqo/BestTimesManager.swift:54 | decimal text of an integer: a `-` first exactly for negatives, then only digits |
| Decimal.DigitsValueOfNatToString | Numeriqo/BestTimesManager.swift:54 | reading the decimal text back gives the number |
| Decimal.DigitsValueLeadingZero | Numeriqo/BestTimesManager.swift:60 | a leading `0` does not change the value the digits read as |
| Decimal.IntToStringInjective | Numeriqo/BestTimesManager.swift:54 | different integers have different decimal texts |
| Decimal.Pad2 | Numeriqo/BestTimesManager.swift:60 | `%02d`: at least two characters; for a non-negative number only digits that read back as the number; for 0 to 9 a `0` before the digit, and otherwise (10 up, or negative) the plain decimal text |
| BestTimes.NoLetterX | Numeriqo/BestTimesManager.swift:54 | the decimal text of a size never contains `x` |
| BestTimes.BestTimeKeyInjective | Numeriqo/BestTimesManager.swift:53-55 | different sizes have different keys `bestTime_NxN` |
| BestTimes.BestTimeIn | Numeriqo/BestTimesManager.swift:17-21 | a record exactly when the key is present with a positive value, and then that value |
| BestTimes.UpdateRecordsNewBest | Numeriqo/BestTimesManager.swift:23-40 | a new best that is positive becomes the record; a time that is not a new best leaves the store unchanged |
| BestTimes.UpdateNeverWorsens | Numeriqo/BestTimesManager.swift:23-33 | with a positive time and an existing record, the record becomes the smaller of the two |
| BestTimes.UpdateKeepsOtherSizes | Numeriqo/BestTimesManager.swift:23-33 | updating one size leaves every other size's record unchanged |
| BestTimes.ResetKeepsOtherSizes | Numeriqo/BestTimesManager.swift:42-45 | resetting one size leaves every other size's record unchanged |
| BestTimes.ResetAllKeepsOtherSizes | Numeriqo/BestTimesManager.swift:47-51 | resetting sizes 3 to 9 leaves the records of every other size unchanged |
| BestTimes.UpdateExample | Numeriqo/BestTimesManager.swift:23-33 | with no record, storing 30 then 45 leaves 30, and 20 then replaces it |
| BestTimes.FormatTime | Numeriqo/BestTimesManager.swift:57-61 | the text has at least five characters and, for a non-negative time, a colon third from the end |
| BestTimes.FormatTimeReadsBack | Numeriqo/BestTimesManager.swift:57-61 | for a non-negative time, the text is the minutes in exactly max(2, their digit count) digits, a colon and exactly two digits; the seconds are below 60; minutes × 60 + seconds is the time |
| BestTimes.FormatTimeExamples | Numeriqo/BestTimesManager.swift:57-61 | 125 seconds is `02:05`, 59 seconds is `00:59` |
| BestTimes.BestTimeKey | Numeriqo/BestTimesManager.swift:53-55 | the key is `bestTime_`, the size's decimal text, `x` and the size's decimal text again |
| BestTimes.Stored | Numeriqo/BestTimesManager.swift:19 | `double(forKey:)`: the stored value under the key, or 0 when the key is absent |
| BestTimes.IsNewBestIn | Numeriqo/BestTimesManager.swift:35-40 | a time is a new best exactly when the size has no key, its stored value is not positive, or the time is strictly below it |
| BestTimes.AfterUpdate | Numeriqo/BestTimesManager.swift:23-33 | the store after `updateBestTime`: the size's key is added exactly when the time is a new best, and then holds the time; every other key keeps its value |
| BestTimes.BestTimesManager.constructor | Numeriqo/BestTimesManager.swift:13-15 | the manager starts from the given stored records |
| BestTimes.BestTimesManager.GetBestTime | Numeriqo/BestTimesManager.swift:17-21 | the record under the size's key: present and positive, else None |
| BestTimes.BestTimesManager.IsNewBestTime | Numeriqo/BestTimesManager.swift:35-40 | true exactly when there is no record or the time is strictly smaller than it |
| BestTimes.BestTimesManager.UpdateBestTime | Numeriqo/BestTimesManager.swift:23-33 | writes the time exactly when it is a new best; then a positive time is the record; no other size's record changes |
| BestTimes.BestTimesManager.ResetBestTime | Numeriqo/BestTimesManager.swift:42-45 | removes only that size's key, so the size has no record and every other size is unchanged |
| BestTimes.BestTimesManager.ResetAllBestTimes | Numeriqo/BestTimesManager.swift:47-51 | removes exactly the keys of sizes 3 to 9: each has no record afterwards, and every other key and record is unchanged |

## Left out

- Game.MathMazeGame.constructor: `size` is a `nat`. The source's `init(size: Int)` would trap on a negative size in `Array(repeating:count:)`; that trap is not modelled.
- `Position` coordinates are `nat`. The source's `Int` coordinates could be negative, and its upper-bound-only guards (`setValue`, `getValue`, `isValid`) would then trap on the subscript; that trap is not modelled.
- Game.MathMazeGame.IsValidMove: requires an in-bounds position, because the source subscripts the grid without a bounds guard and traps off the grid.
- Randomness is nondeterministic choice. Nothing is claimed about the distribution of Latin squares, cage shapes or operations.
- The candidate list in `generatePuzzle` can list a cell twice, which affects only how likely each cell is to be picked. The model keeps that list but proves nothing about the weighting.
- `Cage.positions` is a duplicate-free `seq`, not a `Set`. `IsValidIgnoresOrder` shows the order cannot change a cage's validity unless the cage is `.none` over several cells; the generator never builds one (`GeneratePuzzle`, `GeneratedCageIgnoresOrder`). For such a cage the source would take the first value in an unspecified `Set` order, which the model does not pin down.
- The `?? (.add, sum)` fallback in `calculateOperationAndTarget` and the `break` on an empty available list in `generatePuzzle` are unreachable. The model keeps the `break`; `PossibleOperations` shows that the fallback is never taken.
- Cage colours, `grayscaleShades`, `colorIndex` and the cage `UUID` carry no logic and are not modelled.
- `selectedPosition`, `@Published` and `ObservableObject` change notification are not modelled.
- `generatePuzzle` is a module-level method, and the constructor assigns its result to `cages`. `isValidSolution` delegates its two loops to `CheckLines` and `CheckCages`.
- Integers are unbounded. Swift `Int` overflow traps (in `reduce(1, *)`, say) are not modelled.
- `UserDefaults` is an in-memory `map<string, int>`, and `shared`, the singleton, is dropped. Times are whole seconds rather than `TimeInterval` (`Double`), so `Int(timeInterval)` in `formatTime` is the identity here.
- BestTimes.FormatTimeReadsBack: the read-back is stated only for non-negative times. For negative ones, `Pad2` gives each part's plain signed decimal text, as `%02d` does, but no lemma reads such a text back.
- Reporting a finished game to the best-time store is not in the engine file.
