/** The overlay view: its interaction state, its overlay selection and its
    settable behaviour flags, as fields that the view's methods change in
    place. The data source is present only through the overlay count it
    reports. */
module View {
  import opened States
  import opened Selection

  class OverlayView {
    /** The active interaction state. */
    var state: MEState
    /** The selected overlay indexes, in the order they were selected or
        added; the last element is the last overlay selected. */
    var history: seq<int>

    var allowsCreatingOverlays: bool
    var allowsModifyingOverlays: bool
    var allowsDeletingOverlays: bool
    var allowsOverlappingOverlays: bool
    var wantsOverlaySingleClickActions: bool
    var wantsOverlayDoubleClickActions: bool
    var wantsOverlayRightClickActions: bool
    var allowsOverlaySelection: bool
    var allowsEmptyOverlaySelection: bool
    var allowsMultipleOverlaySelection: bool
    /** Border width in points (a CGFloat). */
    var overlayBorderWidth: real

    /** The object invariant: the selection is a well-formed history. */
    ghost predicate Valid()
      reads this
    {
      IsHistory(history)
    }

    /** A fresh view: idle, nothing selected, every flag at its documented default. */
    constructor ()
      ensures Valid()
      ensures state == Idle && history == []
      ensures allowsCreatingOverlays && allowsModifyingOverlays && allowsDeletingOverlays
      ensures !allowsOverlappingOverlays
      ensures wantsOverlaySingleClickActions && wantsOverlayDoubleClickActions
      ensures wantsOverlayRightClickActions
      ensures allowsOverlaySelection && allowsEmptyOverlaySelection
      ensures allowsMultipleOverlaySelection
      ensures overlayBorderWidth == 3.0
    {
      state := Idle;
      history := [];
      allowsCreatingOverlays := true;
      allowsModifyingOverlays := true;
      allowsDeletingOverlays := true;
      allowsOverlappingOverlays := false;
      wantsOverlaySingleClickActions := true;
      wantsOverlayDoubleClickActions := true;
      wantsOverlayRightClickActions := true;
      allowsOverlaySelection := true;
      allowsEmptyOverlaySelection := true;
      allowsMultipleOverlaySelection := true;
      overlayBorderWidth := 3.0;
    }

    // -------------------------------------------------------------------
    // Managing state
    // -------------------------------------------------------------------

    /** enterState: attempts the change; the header returns YES "if the state
        could be changed", read here as "the view is now in the requested
        state", and a refused request leaves the state as it was. Which
        requests are refused is the assumed rule States.Admits. */
    method EnterState(target: MEState) returns (ok: bool)
      modifies this`state
      ensures ok <==> state == target
      ensures !ok ==> state == old(state)
      ensures ok == Admits(old(state), target, allowsCreatingOverlays,
                           allowsModifyingOverlays, allowsDeletingOverlays)
      ensures state == Next(old(state), target, allowsCreatingOverlays,
                            allowsModifyingOverlays, allowsDeletingOverlays)
    {
      ok := Admits(state, target, allowsCreatingOverlays,
                   allowsModifyingOverlays, allowsDeletingOverlays);
      if ok {
        state := target;
      }
    }

    // -------------------------------------------------------------------
    // Querying the selection
    // -------------------------------------------------------------------

    /** selectedOverlayIndexes: the set of selected overlay indexes. */
    function SelectedOverlayIndexes(): (r: set<int>)
      reads this
      ensures forall i :: i in r <==> i in history
    {
      Members(history)
    }

    /** selectedOverlay: the last overlay selected or added, or -1 exactly when
        nothing is selected. */
    function SelectedOverlay(): (r: int)
      reads this
      requires Valid()
      ensures r == -1 <==> SelectedOverlayIndexes() == {}
      ensures r != -1 ==> r in SelectedOverlayIndexes() && r == history[|history| - 1]
    {
      LastOfHistory(history);
      assert history != [] ==> history[0] in SelectedOverlayIndexes();
      LastOf(history)
    }

    /** numberOfSelectedOverlays: the size of the selected index set. */
    function NumberOfSelectedOverlays(): (r: int)
      reads this
      requires Valid()
      ensures r == |SelectedOverlayIndexes()|
    {
      DistinctCard(history);
      |history|
    }

    /** isOverlaySelected: whether index i is in the selected index set. */
    function IsOverlaySelected(i: int): (r: bool)
      reads this
      ensures r <==> i in SelectedOverlayIndexes()
    {
      i in history
    }

    // -------------------------------------------------------------------
    // Changing the selection
    // -------------------------------------------------------------------

    /** selectOverlayIndexes:byExtendingSelection: without extend the selection
        becomes exactly the given indexes; with extend it becomes the old
        selection united with them, the old order kept and the newly added
        indexes appended in ascending order. */
    method SelectOverlayIndexes(indexes: seq<int>, extend: bool)
      requires Valid()
      requires IsIndexSet(indexes)
      modifies this`history
      ensures Valid()
      ensures history == if extend then Extended(old(history), indexes) else indexes
      ensures SelectedOverlayIndexes() ==
                (if extend then old(SelectedOverlayIndexes()) else {}) + Members(indexes)
      ensures extend ==> history == old(history) + NotIn(indexes, old(history))
    {
      IndexSetIsHistory(indexes);
      if !extend {
        history := indexes;
        return;
      }
      ghost var before := history;
      var k := 0;
      while k < |indexes|
        invariant 0 <= k <= |indexes|
        invariant history == Extended(before, indexes[..k])
      {
        assert indexes[..k + 1][..k] == indexes[..k];
        if indexes[k] !in history {
          history := history + [indexes[k]];
        }
        k := k + 1;
      }
      assert indexes[..k] == indexes;
      ExtendedMembers(before, indexes);
      ExtendedAppends(before, indexes);
    }

    /** deselectOverlay: takes i out of the selection whenever it is selected,
        whatever allowsEmptyOverlaySelection says; the other members keep
        their order, and if i was the last selected, the overlay selected
        before it becomes the last selected (or -1 when none is left). */
    method DeselectOverlay(i: int)
      requires Valid()
      modifies this`history
      ensures Valid()
      ensures history == Without(old(history), i)
      ensures SelectedOverlayIndexes() == old(SelectedOverlayIndexes()) - {i}
      ensures i !in old(history) ==> history == old(history)
      ensures forall k :: 0 <= k < |old(history)| && old(history)[k] == i ==>
                history == old(history)[..k] + old(history)[k + 1..]
      ensures SelectedOverlay() ==
                if i != old(SelectedOverlay()) then old(SelectedOverlay())
                else if |old(history)| <= 1 then -1
                else old(history)[|old(history)| - 2]
    {
      ghost var before := history;
      var kept: seq<int> := [];
      var k := 0;
      while k < |history|
        invariant 0 <= k <= |history|
        invariant history == before
        invariant kept == Without(before[..k], i)
      {
        assert before[..k + 1][..k] == before[..k];
        if history[k] != i {
          kept := kept + [history[k]];
        }
        k := k + 1;
      }
      assert before[..k] == before;
      history := kept;
      WithoutMembers(before, i);
      DeselectLastSelected(before, i);
      if i !in before {
        WithoutAbsent(before, i);
      }
      forall k | 0 <= k < |before| && before[k] == i
        ensures kept == before[..k] + before[k + 1..]
      {
        WithoutAt(before, k);
      }
    }

    /** selectAllOverlays: the selection becomes exactly the data source's
        index range 0 .. count - 1, where count is what
        numberOfOverlaysInOverlayView reports. */
    method SelectAllOverlays(count: nat)
      requires Valid()
      modifies this`history
      ensures Valid()
      ensures history == Range(count)
      ensures forall i :: IsOverlaySelected(i) <==> 0 <= i < count
      ensures NumberOfSelectedOverlays() == count
      ensures SelectedOverlay() == count - 1
    {
      var all: seq<int> := [];
      var n := 0;
      while n < count
        invariant 0 <= n <= count
        invariant all == Range(n)
      {
        all := all + [n];
        n := n + 1;
      }
      history := all;
      RangeIsValidIndexes(count);
      IndexSetIsHistory(all);
      DistinctCard(all);
    }

    /** deselectAllOverlays: nothing is selected afterwards. */
    method DeselectAllOverlays()
      requires Valid()
      modifies this`history
      ensures Valid()
      ensures history == []
      ensures SelectedOverlayIndexes() == {}
      ensures SelectedOverlay() == -1 && NumberOfSelectedOverlays() == 0
    {
      history := [];
    }
  }

  /** A client of the view: selecting {2}, then extending by {5}, gives the
      selection {2, 5} with 5 as the last selected. */
  method ExtendScenario()
  {
    var v := new OverlayView();
    v.SelectOverlayIndexes([2], false);
    assert NotIn([5], [2]) == [5];
    v.SelectOverlayIndexes([5], true);
    assert v.history == [2, 5];
    assert v.SelectedOverlay() == 5;
  }

  /** A client of the view: with {2, 5} selected and 5 the last selected,
      deselecting 5 makes 2 the last selected again. */
  method FallbackScenario()
  {
    var v := new OverlayView();
    v.SelectOverlayIndexes([2, 5], false);
    v.DeselectOverlay(5);
    assert v.SelectedOverlay() == 2;
  }

  /** A client of the view: deselecting the only selected overlay empties the
      selection even when empty selections are not allowed. */
  method DeselectScenario()
  {
    var v := new OverlayView();
    v.allowsEmptyOverlaySelection := false;
    v.SelectOverlayIndexes([7], false);
    v.DeselectOverlay(7);
    assert v.SelectedOverlay() == -1 && v.NumberOfSelectedOverlays() == 0;
  }

  /** A client of the view: a request the flags refuse leaves the state alone,
      and going back to Idle always succeeds. */
  method StateScenario()
  {
    var v := new OverlayView();
    var ok := v.EnterState(Creating);
    assert ok && v.state == Creating;
    v.allowsModifyingOverlays := false;
    ok := v.EnterState(Modifying);
    assert !ok && v.state == Creating;
    ok := v.EnterState(Idle);
    assert ok && v.state == Idle;
  }
}
