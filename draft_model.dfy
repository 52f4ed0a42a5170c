/** The draft-state tracker as a value: what one press of "Next Best" or
    "Undo" does to the cursor, the history stack and the taken set, over a
    fixed rank-ordered list of player names. The class in module Tracker
    performs these steps in place and is proved against the functions here. */
module DraftModel {

  /** The tracker's three pieces of state: `cursor`, the next position of
      the name list to examine; `history`, the positions of the picks not yet
      undone, most recent last; `taken`, the names marked taken. */
  datatype Draft = Draft(cursor: nat, history: seq<nat>, taken: set<string>)

  /** What "Next Best" reports: the player picked, or that none is left. */
  datatype Pick = Selected(name: string) | Exhausted

  /** What "Undo" reports: the player made available again, or that there
      is no pick to undo. */
  datatype Restore = Restored(name: string) | NothingToUndo

  /** A report together with the state after the operation. */
  datatype Step<R> = Step(out: R, next: Draft)

  /** The state at startup and after every successful sheet load. */
  const Empty := Draft(0, [], {})

  function Top(h: seq<nat>): nat
    requires h != []
  {
    h[|h| - 1]
  }

  function Pop(h: seq<nat>): seq<nat>
    requires h != []
  {
    h[..|h| - 1]
  }

  /** Where the skip scan of "Next Best" stops: the first position at or
      after `from` whose name is not taken, or the end of the list. */
  function FirstAvailable(names: seq<string>, taken: set<string>, from: nat): (i: nat)
    ensures from <= i
    ensures i <= |names| || i == from
    ensures i < |names| ==> names[i] !in taken
    ensures forall j :: from <= j < i ==> j < |names| && names[j] in taken
    decreases |names| - from
  {
    if from >= |names| || names[from] !in taken then from
    else FirstAvailable(names, taken, from + 1)
  }

  /** "Next Best": skip taken names from the cursor on; at the end of the
      list report exhaustion, otherwise push the position, mark the name
      taken and move the cursor one past it. */
  function AdvanceStep(names: seq<string>, d: Draft): (r: Step<Pick>)
    ensures r.out.Selected? <==> exists j :: d.cursor <= j < |names| && names[j] !in d.taken
    ensures r.out.Selected? ==>
      && r.out.name !in d.taken
      && r.next.history != [] && Pop(r.next.history) == d.history
      && d.cursor <= Top(r.next.history) < |names|
      && names[Top(r.next.history)] == r.out.name
      && (forall j :: d.cursor <= j < Top(r.next.history) ==> names[j] in d.taken)
      && r.next.taken == d.taken + {r.out.name}
      && r.next.cursor == Top(r.next.history) + 1
    ensures r.out.Exhausted? ==>
      && r.next.history == d.history
      && r.next.taken == d.taken
      && r.next.cursor == (if d.cursor <= |names| then |names| else d.cursor)
  {
    var i := FirstAvailable(names, d.taken, d.cursor);
    if i >= |names| then
      Step(Exhausted, d.(cursor := i))
    else
      var h := d.history + [i];
      assert Pop(h) == d.history;
      Step(Selected(names[i]), Draft(i + 1, h, d.taken + {names[i]}))
  }

  /** The one position "Undo" reads: the top of the history stack. */
  predicate UndoInBounds(names: seq<string>, d: Draft)
  {
    d.history != [] ==> Top(d.history) < |names|
  }

  /** "Undo": with an empty history report that there is nothing to undo;
      otherwise pop the top position into the cursor and unmark the name
      found there. */
  function UndoStep(names: seq<string>, d: Draft): (r: Step<Restore>)
    requires UndoInBounds(names, d)
    ensures r.out.NothingToUndo? <==> d.history == []
    ensures r.out.NothingToUndo? ==> r.next == d
    ensures r.out.Restored? ==>
      && r.next.history == Pop(d.history)
      && r.next.cursor == Top(d.history)
      && names[r.next.cursor] == r.out.name
      && r.next.taken == d.taken - {r.out.name}
  {
    if d.history == [] then Step(NothingToUndo, d)
    else
      var c := Top(d.history);
      Step(Restored(names[c]), Draft(c, Pop(d.history), d.taken - {names[c]}))
  }

  /** The names at the positions of a history stack. */
  function Picked(names: seq<string>, h: seq<nat>): set<string>
  {
    if h == [] then {}
    else Picked(names, Pop(h)) + (if Top(h) < |names| then {names[Top(h)]} else {})
  }

  lemma {:induction false} PickedMembers(names: seq<string>, h: seq<nat>, x: string)
    ensures x in Picked(names, h) <==>
      exists k :: 0 <= k < |h| && h[k] < |names| && names[h[k]] == x
  {
    if h != [] {
      var p := Pop(h);
      PickedMembers(names, p, x);
      assert forall k :: 0 <= k < |p| ==> p[k] == h[k];
      if x in Picked(names, h) && x !in Picked(names, p) {
        assert h[|h| - 1] < |names| && names[h[|h| - 1]] == x;
      }
      if exists k :: 0 <= k < |h| && h[k] < |names| && names[h[k]] == x {
        var k :| 0 <= k < |h| && h[k] < |names| && names[h[k]] == x;
        if k < |p| {
          assert p[k] < |names| && names[p[k]] == x;
        }
      }
    }
  }

  /** The invariant every operation keeps. The cursor stays within the list;
      the history is strictly increasing and below the cursor; each history
      position holds the first occurrence of its name; the taken set is
      exactly the names at the history positions; and every name before the
      cursor is taken. */
  predicate ValidIn(names: seq<string>, d: Draft)
  {
    && d.cursor <= |names|
    && (forall k :: 0 <= k < |d.history| ==> d.history[k] < d.cursor)
    && (forall k, l :: 0 <= k < l < |d.history| ==> d.history[k] < d.history[l])
    && (forall k, i :: 0 <= k < |d.history| && 0 <= i < d.history[k] ==> names[i] != names[d.history[k]])
    && d.taken == Picked(names, d.history)
    && (forall i :: 0 <= i < d.cursor ==> names[i] in d.taken)
  }

  lemma EmptyValid(names: seq<string>)
    ensures ValidIn(names, Empty)
  {
  }

  /** Undo always reads a position inside the list. */
  lemma ValidUndoInBounds(names: seq<string>, d: Draft)
    requires ValidIn(names, d)
    ensures UndoInBounds(names, d)
  {
  }

  lemma AdvancePreservesValid(names: seq<string>, d: Draft)
    requires ValidIn(names, d)
    ensures ValidIn(names, AdvanceStep(names, d).next)
  {
  }

  lemma UndoPreservesValid(names: seq<string>, d: Draft)
    requires ValidIn(names, d)
    ensures UndoInBounds(names, d)
    ensures ValidIn(names, UndoStep(names, d).next)
  {
    if d.history != [] {
      var c := Top(d.history);
      var p := Pop(d.history);
      assert forall k :: 0 <= k < |p| ==> p[k] == d.history[k];
      assert d.taken == Picked(names, p) + {names[c]};
      PickedMembers(names, p, names[c]);
    }
  }

  /** Undo right after a successful "Next Best" that picked X reports X,
      puts the history and the taken set back as they were before the pick,
      and leaves the cursor on X rather than past it. */
  lemma UndoAfterAdvance(names: seq<string>, d: Draft)
    requires AdvanceStep(names, d).out.Selected?
    ensures UndoInBounds(names, AdvanceStep(names, d).next)
    ensures
      var a := AdvanceStep(names, d);
      var u := UndoStep(names, a.next);
      && u.out == Restored(a.out.name)
      && u.next == Draft(Top(a.next.history), d.history, d.taken)
      && names[u.next.cursor] == a.out.name
  {
  }

  /** Pressing "Next Best" again after that undo picks the same player and
      reaches the same state as the first press. */
  lemma AdvanceAgainAfterUndo(names: seq<string>, d: Draft)
    requires AdvanceStep(names, d).out.Selected?
    ensures UndoInBounds(names, AdvanceStep(names, d).next)
    ensures
      var a := AdvanceStep(names, d);
      AdvanceStep(names, UndoStep(names, a.next).next) == a
  {
  }

  /** Conversely, on a valid state with something to undo, "Undo" followed by
      "Next Best" picks the player just restored and brings the history and
      the taken set back; the cursor comes back no further than it was. */
  lemma AdvanceAfterUndo(names: seq<string>, d: Draft)
    requires ValidIn(names, d)
    requires d.history != []
    ensures UndoInBounds(names, d)
    ensures
      var u := UndoStep(names, d);
      var a := AdvanceStep(names, u.next);
      && u.out.Restored?
      && a.out == Selected(u.out.name)
      && a.next.history == d.history
      && a.next.taken == d.taken
      && a.next.cursor <= d.cursor
  {
  }

  /** Once "Next Best" has reported exhaustion, pressing it again reports
      exhaustion again and changes nothing. */
  lemma ExhaustedIsStable(names: seq<string>, d: Draft)
    requires AdvanceStep(names, d).out.Exhausted?
    ensures
      var a := AdvanceStep(names, d);
      AdvanceStep(names, a.next) == a
  {
  }

  /** `k` presses of "Next Best". */
  function Advances(names: seq<string>, d: Draft, k: nat): (e: Draft)
    decreases k
  {
    if k == 0 then d else Advances(names, AdvanceStep(names, d).next, k - 1)
  }

  /** `k` presses of "Undo" on a valid state. It pops `k` positions, or all of
      them when there are fewer; the cursor ends on the last position popped. */
  function Undos(names: seq<string>, d: Draft, k: nat): (e: Draft)
    requires ValidIn(names, d)
    ensures ValidIn(names, e)
    ensures |e.history| == if k <= |d.history| then |d.history| - k else 0
    ensures e.history == d.history[..|e.history|]
    ensures k == 0 || d.history == [] ==> e == d
    ensures k > 0 && d.history != [] ==> e.cursor == d.history[|e.history|]
    decreases k
  {
    if k == 0 || d.history == [] then d
    else
      UndoPreservesValid(names, d);
      var u := UndoStep(names, d).next;
      var e := Undos(names, u, k - 1);
      assert u.history == d.history[..|d.history| - 1];
      e
  }

  /** Presses of "Next Best" only ever push: the old history stays a prefix,
      with at most one new entry per press. */
  lemma {:induction false} AdvancesExtend(names: seq<string>, d: Draft, k: nat)
    ensures d.history <= Advances(names, d, k).history
    ensures |Advances(names, d, k).history| <= |d.history| + k
    decreases k
  {
    if k > 0 {
      var a := AdvanceStep(names, d).next;
      AdvancesExtend(names, a, k - 1);
      var e := Advances(names, a, k - 1);
      assert a.history[..|d.history|] == d.history;
      assert e.history[..|a.history|] == a.history;
      assert e.history[..|d.history|] == a.history[..|d.history|];
    }
  }

  /** Presses of "Next Best" keep the invariant. */
  lemma {:induction false} AdvancesKeepValid(names: seq<string>, d: Draft, k: nat)
    requires ValidIn(names, d)
    ensures ValidIn(names, Advances(names, d, k))
    decreases k
  {
    if k > 0 {
      AdvancePreservesValid(names, d);
      AdvancesKeepValid(names, AdvanceStep(names, d).next, k - 1);
    }
  }

  /** Undoing as many presses as succeeded gives back exactly the history and
      the taken set that were there before the presses of "Next Best". */
  lemma UndoAllAdvances(names: seq<string>, d: Draft, k: nat)
    requires ValidIn(names, d)
    ensures ValidIn(names, Advances(names, d, k))
    ensures |d.history| <= |Advances(names, d, k).history|
    ensures
      var e := Advances(names, d, k);
      var u := Undos(names, e, |e.history| - |d.history|);
      u.history == d.history && u.taken == d.taken
  {
    AdvancesKeepValid(names, d, k);
    AdvancesExtend(names, d, k);
    var e := Advances(names, d, k);
    UndosBackTo(names, e, d.history);
    assert d.taken == Picked(names, d.history);
  }

  /** Undoing down to a prefix of the history leaves exactly that prefix and
      the names at its positions. */
  lemma UndosBackTo(names: seq<string>, e: Draft, h: seq<nat>)
    requires ValidIn(names, e)
    requires h <= e.history
    ensures
      var u := Undos(names, e, |e.history| - |h|);
      u.history == h && u.taken == Picked(names, h)
  {
  }

  /** From the empty state, a run of presses of "Next Best" starts its history
      at position 0, or, when it pushed nothing, left the state empty. */
  lemma {:induction false} AdvancesFromEmpty(names: seq<string>, k: nat)
    ensures
      var e := Advances(names, Empty, k);
      (e.history != [] ==> e.history[0] == 0) && (e.history == [] ==> e == Empty)
    decreases k
  {
    if k > 0 {
      var a := AdvanceStep(names, Empty).next;
      if names == [] {
        assert a == Empty;
        AdvancesFromEmpty(names, k - 1);
      } else {
        assert names[0] !in Empty.taken;
        assert a.history == [0];
        AdvancesExtend(names, a, k - 1);
      }
    }
  }

  /** Starting from a fresh sheet, `k` presses of "Next Best" followed by `k`
      presses of "Undo" give back the fresh state: cursor 0, no history, no
      taken names. */
  lemma AdvancesThenUndosIsEmpty(names: seq<string>, k: nat)
    ensures ValidIn(names, Advances(names, Empty, k))
    ensures Undos(names, Advances(names, Empty, k), k) == Empty
  {
    EmptyValid(names);
    AdvancesKeepValid(names, Empty, k);
    AdvancesExtend(names, Empty, k);
    AdvancesFromEmpty(names, k);
  }

  /** Three players ranked A, B, C: two picks, an undo and a pick again. */
  lemma ThreePlayerScenario()
    ensures
      var names := ["A", "B", "C"];
      var a1 := AdvanceStep(names, Empty);
      var a2 := AdvanceStep(names, a1.next);
      var u := UndoStep(names, a2.next);
      var a3 := AdvanceStep(names, u.next);
      && a1 == Step(Selected("A"), Draft(1, [0], {"A"}))
      && a2 == Step(Selected("B"), Draft(2, [0, 1], {"A", "B"}))
      && u == Step(Restored("B"), Draft(1, [0], {"A"}))
      && a3 == a2
  {
    var names := ["A", "B", "C"];
    var d1 := Draft(1, [0], {"A"});
    var d2 := Draft(2, [0, 1], {"A", "B"});
    assert FirstAvailable(names, {}, 0) == 0;
    assert AdvanceStep(names, Empty) == Step(Selected("A"), d1);
    assert FirstAvailable(names, {"A"}, 1) == 1;
    assert {"A"} + {"B"} == {"A", "B"};
    assert AdvanceStep(names, d1) == Step(Selected("B"), d2);
    assert {"A", "B"} - {"B"} == {"A"};
    assert UndoStep(names, d2) == Step(Restored("B"), d1);
  }

  /** With an empty sheet "Next Best" reports exhaustion at once and the
      cursor stays at 0. */
  lemma EmptySheetIsExhausted()
    ensures AdvanceStep([], Empty) == Step(Exhausted, Empty)
  {
  }
}
