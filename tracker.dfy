/** The draft tracker as the program keeps it: three pieces of state updated
    in place by the "Next Best" and "Undo" buttons and cleared when a sheet
    is loaded. Each method is proved to perform exactly the step that module
    DraftModel defines, so every lemma there holds of the object too. */
module Tracker {
  import opened Ranking
  import opened DraftModel

  class DraftTracker {
    /** The player names of the current sheet, sorted ascending by RK. */
    var names: seq<string>
    /** The next position of `names` to examine. */
    var cursor: nat
    /** The positions of the picks not yet undone, most recent last. */
    var history: seq<nat>
    /** The names marked taken. */
    var taken: set<string>

    function State(): Draft
      reads this
    {
      Draft(cursor, history, taken)
    }

    ghost predicate Valid()
      reads this
    {
      ValidIn(names, State())
    }

    /** Startup: the first sheet is loaded and nothing is taken yet. */
    constructor (sheet: seq<Row>)
      ensures Valid()
      ensures names == Names(SortByRank(sheet))
      ensures State() == Empty
    {
      names := Names(SortByRank(sheet));
      cursor := 0;
      history := [];
      taken := {};
      new;
      EmptyValid(names);
    }

    /** A sheet loaded successfully from the dropdown: the tracker now walks
        that sheet's rank order, from the top, with nothing taken. */
    method Reset(sheet: seq<Row>)
      modifies this
      ensures Valid()
      ensures names == Names(SortByRank(sheet))
      ensures State() == Empty
    {
      names := Names(SortByRank(sheet));
      cursor := 0;
      history := [];
      taken := {};
      EmptyValid(names);
    }

    /** "Next Best". */
    method Advance() returns (r: Pick)
      modifies this
      ensures names == old(names)
      ensures Step(r, State()) == AdvanceStep(names, old(State()))
      ensures old(Valid()) ==> Valid()
    {
      if Valid() {
        AdvancePreservesValid(names, State());
      }
      while cursor < |names| && names[cursor] in taken
        invariant old(cursor) <= cursor
        invariant cursor <= |names| || cursor == old(cursor)
        invariant names == old(names) && history == old(history) && taken == old(taken)
        invariant FirstAvailable(names, taken, cursor) == FirstAvailable(names, taken, old(cursor))
        decreases |names| - cursor
      {
        cursor := cursor + 1;
      }
      if cursor >= |names| {
        return Exhausted;
      }
      var name := names[cursor];
      history := history + [cursor];
      taken := taken + {name};
      cursor := cursor + 1;
      r := Selected(name);
    }

    /** "Undo". The position it reads is always in range on a valid tracker
        (DraftModel.ValidUndoInBounds). */
    method Undo() returns (r: Restore)
      requires UndoInBounds(names, State())
      modifies this
      ensures names == old(names)
      ensures Step(r, State()) == UndoStep(names, old(State()))
      ensures old(Valid()) ==> Valid()
    {
      if Valid() {
        UndoPreservesValid(names, State());
      }
      if history == [] {
        return NothingToUndo;
      }
      cursor := history[|history| - 1];
      history := history[..|history| - 1];
      var name := names[cursor];
      taken := taken - {name};
      r := Restored(name);
    }
  }
}
