# Shuffle power-up of a match-3 board, modelled in Dafny

The shuffle bonus item of Gem Hunter Match (class `ShuffleBonusItem`) rearranges the gems on the board. `Use` works in three steps:

1. **Collect.** It walks the board's coordinate→cell dictionary. For each cell that holds a gem and may be moved, it records the gem and its coordinate in two parallel lists.
2. **Abort.** With fewer than two such gems it stops without writing anything.
3. **Shuffle and reassign.**
   - It shuffles the list of coordinates in place with Fisher–Yates: `i` runs from `Count - 1` down to 1, and each step swaps with an index drawn from `[0, i]`.
   - It then makes one pass over the gems. For gem `i` it clears the cell the gem records as its own, puts the gem into the cell at shuffled coordinate `i`, and calls `MoveTo` on the gem.

The model has four modules.

- `Board`:
  - the coordinate (`Vector3Int`) as a datatype;
  - `Gem`, `BoardCell` and `Board` as classes with the fields the power-up reads and writes;
  - `Board.Valid`, the consistency the board keeps: one cell object per coordinate, and every held gem recording the coordinate of the cell that holds it.
- `FisherYates`: the shuffle as a function of the list and of the values the random-number source returns. It proves:
  - the result is a permutation;
  - every permutation is reachable;
  - distinct draws give distinct orderings;
  - the list is left as it was exactly when every draw picks its own step's index.
- `Reassignment`:
  - the one-pass loop's effect on the board's occupancy (which gem each coordinate's cell holds), as a fold over the lists;
  - lemmas that say what that fold leaves in each cell;
  - the same for the two-phase clear-then-fill reassignment.
- `ShuffleBonusItem`:
  - the imperative methods: the collecting loop, the in-place Fisher–Yates on an array, the reassignment loop and `Use`;
  - each method is proved against the functions above.

Random.Range is modelled as a sequence `draws` supplied by the caller. The k-th call returns `draws[k]`, and the caller guarantees that each draw lies in the range Random.Range promises. The `GameManager.Instance` singleton is replaced by an explicit `board` parameter.

The design description of the system asks for a two-phase reassignment (clear every old cell, then fill every new one). The code does not do that: it clears and fills in the same pass, so a later clear can empty a cell an earlier iteration has just filled. The model follows the code. The two-phase version is modelled beside it as the corrected behaviour (see Findings). The design description also excludes gems taking part in a match and schedules a match re-check after the shuffle. The code does neither, so neither is modelled.

## Model

| member | source | states |
|---|---|---|
| ShuffleBonusItem.CollectMovableGems | Assets/GemHunterMatch/Scripts/BonusItem/ShuffleBonusItem.cs:19-33 | the two lists have equal length; `gems[i]` is the gem in the cell at `positions[i]`; a coordinate is listed iff its cell holds a gem and may be moved, and each appears once |
| ShuffleBonusItem.OriginsHoldDistinctGems | Assets/GemHunterMatch/Scripts/BonusItem/ShuffleBonusItem.cs:28-31 | on a consistent board, the collected gems are pairwise distinct, each records its own cell, and no cell outside the list holds one of them |
| ShuffleBonusItem.ShufflePositions | Assets/GemHunterMatch/Scripts/BonusItem/ShuffleBonusItem.cs:75-87 | the in-place loop over the array leaves exactly the Fisher–Yates ordering of the old contents under the given draws |
| ShuffleBonusItem.ShuffledList | Assets/GemHunterMatch/Scripts/BonusItem/ShuffleBonusItem.cs:43 | the shuffled list is the Fisher–Yates ordering of the collected positions |
| FisherYates.Shuffled | Assets/GemHunterMatch/Scripts/BonusItem/ShuffleBonusItem.cs:75-87 | the shuffle keeps the length and the multiset of elements; a list of length 0 or 1 is left as it is |
| FisherYates.DrawsFromInRange | Assets/GemHunterMatch/Scripts/BonusItem/ShuffleBonusItem.cs:77-80 | the draws are valid iff there is one per step `i = n-1 … 1` and the draw for step `i` lies in `[0, i]` |
| FisherYates.ShuffledKeepsDistinct | Assets/GemHunterMatch/Scripts/BonusItem/ShuffleBonusItem.cs:77-86 | shuffling a list of distinct coordinates gives distinct coordinates |
| FisherYates.ShuffledReachesEveryPermutation | Assets/GemHunterMatch/Scripts/BonusItem/ShuffleBonusItem.cs:75-87 | every rearrangement of the list is the outcome of some in-range draws |
| FisherYates.ShuffledInjective | Assets/GemHunterMatch/Scripts/BonusItem/ShuffleBonusItem.cs:75-87 | on distinct elements, different in-range draws give different orderings |
| FisherYates.ShuffledIsIdentityIff | Assets/GemHunterMatch/Scripts/BonusItem/ShuffleBonusItem.cs:77-86 | on distinct elements the shuffle returns the list unchanged iff every draw is its own step's index |
| Board.Board.SetContainingGem | Assets/GemHunterMatch/Scripts/BonusItem/ShuffleBonusItem.cs:52-55 | writing a cell's gem field changes that coordinate's occupancy only; no cell's movability changes |
| Board.Gem.MoveTo | Assets/GemHunterMatch/Scripts/BonusItem/ShuffleBonusItem.cs:58 | the gem records the target coordinate as its own |
| ShuffleBonusItem.ClearCellOf | Assets/GemHunterMatch/Scripts/BonusItem/ShuffleBonusItem.cs:52 | the cell at the gem's recorded coordinate becomes empty; nothing else changes |
| ShuffleBonusItem.PlaceGem | Assets/GemHunterMatch/Scripts/BonusItem/ShuffleBonusItem.cs:55-58 | the target cell holds the gem and the gem records the target; no other cell and no other listed gem changes |
| ShuffleBonusItem.MoveGem | Assets/GemHunterMatch/Scripts/BonusItem/ShuffleBonusItem.cs:48-58 | one iteration: clear the gem's old cell, then fill the target; the gem records the target |
| ShuffleBonusItem.MoveGemsInOnePass | Assets/GemHunterMatch/Scripts/BonusItem/ShuffleBonusItem.cs:46-60 | after the loop the occupancy is `Reassignment.OnePass` of the old one; gem `i` records `positions[i]`; gems outside the list and every cell's movability are unchanged |
| ShuffleBonusItem.ReassignInOnePass | Assets/GemHunterMatch/Scripts/BonusItem/ShuffleBonusItem.cs:46-60 | on a consistent board whose listed cells hold the listed gems and whose targets reorder the origins, the loop leaves the last-write-wins occupancy, moves every listed gem to its target, and keeps the board consistent |
| ShuffleBonusItem.ShuffleAndReassign | Assets/GemHunterMatch/Scripts/BonusItem/ShuffleBonusItem.cs:42-60 | the targets are the Fisher–Yates ordering of the collected positions, and the board ends as the one-pass reassignment to them leaves it |
| ShuffleBonusItem.Use | Assets/GemHunterMatch/Scripts/BonusItem/ShuffleBonusItem.cs:16-69 | collects exactly the eligible cells; with fewer than two it changes no cell and no gem; otherwise the occupancy is the one-pass outcome for the shuffled targets and every collected gem records its target; gems not collected keep their coordinate; the board stays consistent |
| ShuffleBonusItem.UseKeepsEveryGemIffNothingMoves | Assets/GemHunterMatch/Scripts/BonusItem/ShuffleBonusItem.cs:42-58 | end to end: after the shuffle and the one pass, every collected gem is held by its target cell iff every draw picked its own step's index, i.e. iff no gem moved |
| ShuffleBonusItem.HoldersKnowTheirCell | Assets/GemHunterMatch/Scripts/BonusItem/ShuffleBonusItem.cs:52-58 | when every held cell holds the gem sent there or its old occupant, every held gem records the cell that holds it, so the board is consistent |
| Reassignment.OnePassAt | Assets/GemHunterMatch/Scripts/BonusItem/ShuffleBonusItem.cs:46-58 | after the pass a cell holds the gem sent there if it was not cleared later; it is empty if it was only cleared, or cleared after the write; a cell the pass never names keeps its gem |
| Reassignment.OnePassOnPermutation | Assets/GemHunterMatch/Scripts/BonusItem/ShuffleBonusItem.cs:46-58 | when the targets reorder the origins, target `to[j]` holds `gems[j]` iff its original occupant comes no later than `j` in the list, and is empty otherwise; cells outside the list are unchanged |
| Reassignment.OnePassHolders | Assets/GemHunterMatch/Scripts/BonusItem/ShuffleBonusItem.cs:46-58 | every cell holding a gem after the pass holds the gem sent there or, outside the list, its old occupant |
| Reassignment.EveryTargetHoldsItsGemIffIdentity | Assets/GemHunterMatch/Scripts/BonusItem/ShuffleBonusItem.cs:45-58 | "every target cell holds the gem sent there" holds after the pass iff the reordering is the identity |
| Reassignment.GemOnlyAtItsTarget | Assets/GemHunterMatch/Scripts/BonusItem/ShuffleBonusItem.cs:46-58 | after the pass a listed gem can only be in its own target cell, and only if that cell was not cleared again later |
| Reassignment.GemKeptIff | Assets/GemHunterMatch/Scripts/BonusItem/ShuffleBonusItem.cs:46-58 | a listed gem is still held by some cell after the pass iff its target's original occupant comes no later in the list |
| Reassignment.TwoGemSwapLosesGem | Assets/GemHunterMatch/Scripts/BonusItem/ShuffleBonusItem.cs:46-58 | two gems `a` at p0 and `b` at p1, shuffled to `[p1, p0]`: the pass leaves `b` at p0, p1 empty, and `a` in no cell |
| Reassignment.OnePassFromIsOnePass | Assets/GemHunterMatch/Scripts/BonusItem/ShuffleBonusItem.cs:46 | the pass counted by loop index is the same as the pass taken from the front of the lists |
| Reassignment.TwoPhasesKeepsEveryGem | Assets/GemHunterMatch/Scripts/BonusItem/ShuffleBonusItem.cs:45-58 | clearing all origins first and then filling all targets leaves every target holding the gem sent there, and cells outside the list unchanged |
| Reassignment.TwoPhasesHolders | Assets/GemHunterMatch/Scripts/BonusItem/ShuffleBonusItem.cs:45-58 | after the two-phase reassignment every held cell holds the gem sent there or, outside the list, its old occupant |
| ShuffleBonusItem.ClearOrigins | Assets/GemHunterMatch/Scripts/BonusItem/ShuffleBonusItem.cs:52 | the first loop of the two-phase reassignment leaves `ClearAll` of the old occupancy, and no gem moves |
| ShuffleBonusItem.FillTargets | Assets/GemHunterMatch/Scripts/BonusItem/ShuffleBonusItem.cs:55-58 | the second loop leaves `FillAll` of the cleared occupancy, and gem `i` records `positions[i]` |
| ShuffleBonusItem.MoveGemsInTwoPhases | Assets/GemHunterMatch/Scripts/BonusItem/ShuffleBonusItem.cs:46-60 | the two loops together leave `TwoPhases` of the old occupancy |
| ShuffleBonusItem.ReassignInTwoPhases | Assets/GemHunterMatch/Scripts/BonusItem/ShuffleBonusItem.cs:46-60 | on a consistent board, every target cell ends up holding the gem sent there, every listed gem records its target, and the board stays consistent |

## Left out

- Uniformity of the shuffle: Random.Range is probabilistic. The model treats the draws as given and proves only that they lie in range, that the result is a permutation, that every permutation is reachable, and that the draws map one-to-one onto orderings.
- `gem.transform.position = GetCellCenter(...)` (line 59): floating-point world-space placement by the engine.
- The sound effect (lines 63-66) and the `Debug.Log` calls (lines 38 and 68): audio and logging.
- The `GameManager.Instance` singleton: the board is passed explicitly.
- The asset-menu and header attributes, the `shuffleSound` field and the `BonusItem` base class: engine plumbing.
- The `target` parameter of `Use`: the source never reads it.
- The body of `Gem.MoveTo` is not part of this model. It is taken to set only the gem's recorded coordinate; its animation state is not modelled.
- The order of the dictionary: `Board.cellContent` is a map, and `CollectMovableGems` takes its keys in an order it does not fix, so its contract holds for every iteration order.
- Use: requires a consistent board (`Board.Valid`). On a board where a gem's recorded coordinate is not a key of the dictionary, the source throws at line 52; that path is not modelled.
- ShufflePositions: works on an `array<Coord>` copied from the collected list rather than on a growable list. The in-place mutation is the same; the other reassignment methods take the shuffled list as a sequence.
- `BoardCell.at` and the gem index map passed to the reassignment methods are proof bookkeeping. The first records the coordinate a cell is filed under, from which one cell per coordinate follows. The second numbers the collected gems so they are told apart one at a time. Neither exists in the source.
- Match-reference exclusion and the post-shuffle match re-check: the code has neither.
- "Each gem is moved exactly once" is not stated as a count of calls. The model states instead that after the loop gem `i` records `positions[i]`, and that gems outside the list keep their coordinate.

## Findings

| source | as written | input that shows it | evidently intended | confidence | as-written member | corrected member |
|---|---|---|---|---|---|---|
| Assets/GemHunterMatch/Scripts/BonusItem/ShuffleBonusItem.cs:46-58 | one pass that clears the gem's old cell and then fills its target, gem by gem; a later clear empties a cell an earlier iteration has just filled | gems a at (0,0,0) and b at (1,0,0), draw 0, so the targets are [(1,0,0), (0,0,0)]: the pass leaves b at (0,0,0), (1,0,0) empty, and a referenced by no cell | every target cell holds the gem sent there (the comment at line 45 says the gems are reassigned to their new positions); the design asks for all clears before any fill | high (proved; not executed) | Reassignment.TwoGemSwapLosesGem | ShuffleBonusItem.ReassignInTwoPhases |
