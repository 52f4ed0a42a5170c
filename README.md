# Fantasy-football draft tracker, modelled in Dafny

The program is a desktop draft assistant. It loads a sheet of ranked players
and walks the players in RK order. "Next Best" marks the best player not yet
taken. "Undo" takes back the most recent pick. Loading a sheet starts the
draft over. Three pieces of state drive this: a cursor into the rank-sorted
player list, a history stack of cursor positions, and a set of taken names.

The project has three modules:

- `Ranking` (`ranking.dfy`): a sheet row (`Row`: player name and RK), the
  predicate "sorted ascending by RK", a reference sort `SortByRank` and the
  name column `Names`.
- `DraftModel` (`draft_model.dfy`): the tracker's state as a value (`Draft`),
  one press of "Next Best" (`AdvanceStep`) and of "Undo" (`UndoStep`) as
  functions, the invariant `ValidIn`, and the lemmas relating the steps.
- `Tracker` (`tracker.dfy`): the class `DraftTracker`. Its fields are
  updated in place, as the program's globals are. Each method is proved to
  perform exactly the corresponding `DraftModel` step, so every lemma about
  the steps holds of the object as well.

The invariant `ValidIn` says:

- the cursor is at most the list length;
- the history is strictly increasing, and every entry is below the cursor;
- each history entry is the first position holding its name;
- the taken set is exactly the set of names at the history positions;
- every name before the cursor is taken.

It holds without assuming that names are unique. A name can be picked only
when every earlier position is already taken. So a name that appears twice
is picked once, at its first position, and its later copies are skipped.

Two behaviours of the code are modelled as written:

- When "Next Best" finds no player left, the cursor still moves to the end
  of the list (IndividualProject.py:123-128). Only the history and the taken
  set stay unchanged.
- The sort is pandas' default `sort_values("RK")`, which is not stable. Only
  "ascending by RK, holding the same rows" is modelled; nothing is claimed
  about the order of players with equal rank.

## Model

| member | source | states |
|---|---|---|
| `Ranking.SortByRank` | IndividualProject.py:117 | the list the tracker walks is ascending by RK and holds exactly the sheet's rows, with multiplicity |
| `Ranking.SortedRowsAreSheetRows` | IndividualProject.py:117 | a row (and a player name) is in the sorted list exactly when it is in the sheet |
| `Ranking.RankOrderIsDetermined` | IndividualProject.py:107 | every ordering that is ascending by RK and holds the sheet's rows has the same rank at every position as the reference sort; orderings differ only among equal ranks |
| `DraftModel.FirstAvailable` | IndividualProject.py:123-124 | the skip scan stops at the first untaken name at or after the cursor, or at the end; every name it passes is taken |
| `DraftModel.AdvanceStep` | IndividualProject.py:123-142 | "Next Best" selects exactly when an untaken name exists at or after the cursor; the pick was not taken, is the first untaken one, and is pushed, added to taken and stepped past; on exhaustion history and taken are unchanged and the cursor ends at the list's end |
| `DraftModel.UndoStep` | IndividualProject.py:147-159 | "Undo" with an empty history reports nothing to undo and changes nothing; otherwise the top is popped into the cursor and the name there is removed from taken |
| `DraftModel.ValidUndoInBounds` | IndividualProject.py:151-158 | on a valid state the position undo reads is inside the list |
| `DraftModel.EmptyValid` | IndividualProject.py:68-70 | the startup state satisfies the invariant |
| `DraftModel.AdvancePreservesValid` | IndividualProject.py:123-142 | "Next Best" keeps the invariant |
| `DraftModel.UndoPreservesValid` | IndividualProject.py:147-159 | "Undo" keeps the invariant and reads in range |
| `DraftModel.UndoAfterAdvance` | IndividualProject.py:130-159 | undo right after a pick of X restores X, gives back the previous history and taken set, and leaves the cursor on X |
| `DraftModel.AdvanceAgainAfterUndo` | IndividualProject.py:123-159 | pick, undo, pick again yields the same pick and the same state as the first pick |
| `DraftModel.AdvanceAfterUndo` | IndividualProject.py:123-159 | on a valid state, undo then "Next Best" re-picks the restored player and brings back history and taken, with the cursor no further than before |
| `DraftModel.ExhaustedIsStable` | IndividualProject.py:123-128 | after exhaustion, another "Next Best" reports exhaustion and changes nothing |
| `DraftModel.Undos` | IndividualProject.py:147-159 | k undos on a valid state keep the invariant, pop k entries (or all), keep the rest of the stack as a prefix, and leave the cursor on the last position popped |
| `DraftModel.AdvancesExtend` | IndividualProject.py:131 | repeated "Next Best" only pushes: the old history stays a prefix, with at most one new entry per press |
| `DraftModel.AdvancesKeepValid` | IndividualProject.py:123-142 | repeated "Next Best" keeps the invariant |
| `DraftModel.UndoAllAdvances` | IndividualProject.py:131-159 | undoing as many presses as succeeded restores the history and the taken set exactly |
| `DraftModel.AdvancesFromEmpty` | IndividualProject.py:123-142 | from the fresh state the first pick is position 0, or the state stays fresh when nothing was picked |
| `DraftModel.AdvancesThenUndosIsEmpty` | IndividualProject.py:96-159 | from a fresh sheet, k presses of "Next Best" then k presses of "Undo" give back cursor 0, no history and no taken names |
| `DraftModel.ThreePlayerScenario` | IndividualProject.py:123-159 | with players A, B, C: pick A, pick B, undo restores B, pick B again |
| `DraftModel.EmptySheetIsExhausted` | IndividualProject.py:123-128 | on an empty sheet "Next Best" reports exhaustion at once and the cursor stays 0 |
| `Tracker.DraftTracker.constructor` | IndividualProject.py:68-70 | at startup the tracker walks the first sheet's rank order with an empty state |
| `Tracker.DraftTracker.Reset` | IndividualProject.py:90-98 | a successful sheet load sets cursor 0, clears history and taken, whatever the prior state, and switches to the new sheet's rank order |
| `Tracker.DraftTracker.Advance` | IndividualProject.py:114-142 | the in-place skip loop and pick perform exactly `AdvanceStep`, and keep the invariant |
| `Tracker.DraftTracker.Undo` | IndividualProject.py:145-159 | the in-place pop and discard perform exactly `UndoStep`, and keep the invariant |

## Left out

- Window, widgets, icon and main loop (IndividualProject.py:1-66, 170-186): user interface only.
- `update_table` (IndividualProject.py:75-87): it only renders rows.
- The row search and highlight in "Next Best" and "Undo" (IndividualProject.py:134-139, 161-166): a display effect that does not touch the tracker state.
- The "Sort by Rank" button (IndividualProject.py:104-111): it only re-renders and does not touch the tracker state.
- Spreadsheet loading and message boxes: reading a sheet is an input (`Row` lists given to the constructor and to `Reset`). The notices are the `Exhausted` and `NothingToUndo` outcomes.
- Load-failure branches (IndividualProject.py:100-101, 118-120, 152-156): they depend on I/O failing. The failed reload in "Undo" pops the history but does not update the taken set; that path is not modelled.
- Re-reading the sheet on every press: the program parses and sorts the current sheet on each "Next Best" and "Undo". The model sorts once per load. The spreadsheet object is opened once, so the same sheet gives the same rows. A sheet name typed into the dropdown without selecting it would change the sheet without a reset; that is not modelled.
- Ranking.SortByRank: fixes one order among rows of equal rank (that of insertion sort). pandas' default sort may order ties differently. `RankOrderIsDetermined` shows that any correct ordering has the same ranks at every position.
- RK values are integers in the model. Fractional or missing RK values are not modelled.
