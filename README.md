# MEOverlayView: interaction state and overlay selection

MEOverlayView is an image view that lets the user draw, move, delete and
select rectangular overlays on an image. A data source owns the overlays and
a delegate is told about changes. The repository holds only interface
headers. This project models the behaviour that the doc comments of the
latest header, `MEOverlayView/MEOverlayView/MEOverlayView.h`, attach to two
pieces of view state:

- the **interaction state machine**: the four `MEState` values and
  `enterState:`, which tries a change and reports whether it worked;
- the **overlay selection**: an index set plus the "last selected" overlay,
  changed by `selectOverlayIndexes:byExtendingSelection:`, `deselectOverlay:`,
  `selectAllOverlays:` and `deselectAllOverlays:`, and read by
  `selectedOverlay`, `selectedOverlayIndexes`, `numberOfSelectedOverlays` and
  `isOverlaySelected:`.

The view's settable `BOOL` behaviour properties and the border width are
fields too, and the constructor sets their documented defaults.

Files:

- `states.dfy`, module `States`. It holds the `MEState` datatype and its
  NSUInteger encoding. It also holds the admission rule for `enterState:`,
  which is an assumption (see below), and `Run`, the states a view passes
  through over a series of requests.
- `selection.dfy`, module `Selection`. The selection is a *history*: a
  `seq<int>` of non-negative overlay indexes with no repeats, in the order
  they were selected or added. The selected index set is the history's
  members. `selectedOverlay` is its last element, or −1 when it is empty.
  Functions give the history after deselecting (`Without`) and after
  extending (`Extended`). The lemmas about them are what the header
  promises.
- `overlay_view.dfy`, module `View`. It holds class `OverlayView`, with
  fields `state`, `history` and the flags. Its methods change them in place
  under `modifies` frames (`this`state` or `this`history`), so each method
  provably leaves the other fields alone. The queries are functions that
  read the fields. Small client methods at the end show what a caller can
  conclude from the contracts.

Modelling decisions:

- An `NSIndexSet` argument is a strictly ascending sequence of non-negative
  integers (`Selection.IsIndexSet`). An index set enumerates its indexes in
  ascending order.
- When the selection is extended, the new indexes are added in ascending
  order. An index that is already selected is not "added", so it keeps its
  place. The last-selected overlay is therefore the greatest index that was
  newly added; if nothing new was added, it stays the same. When the
  selection is replaced, it becomes exactly the given indexes, and the last
  selected is the greatest of them.
- `selectAllOverlays:` takes, as a parameter, the count that the data
  source's `numberOfOverlaysInOverlayView:` reports. It makes the selection
  `0 … count − 1`, in ascending order.
- The header gives no rule for `enterState:`. Line 190 is only the
  placeholder "Discussion about allowances here". `States.Admits` is an
  **assumed** rule:
  - entering `Idle` is always admitted;
  - re-entering the current state is always admitted;
  - `Creating`, `Modifying` and `Deleting` are admitted only while
    `allowsCreatingOverlays`, `allowsModifyingOverlays` or
    `allowsDeletingOverlays` is set, respectively.

  The header's words are "`YES` if the state could be changed; otherwise
  `NO`" (line 193). The model reads them as "YES exactly when the view is
  in the requested state afterwards, and NO leaves the state unchanged".
  Under that reading, re-entering the current state counts as a state that
  could be changed, so re-entry has to be admitted.
- The header does not say how the selection flags constrain
  `deselectAllOverlays:` or the selection methods. So `deselectAllOverlays:`
  always empties the selection, and the flags constrain nothing.

## Model

| member | source | states |
|---|---|---|
| States.Code | MEOverlayView/MEOverlayView/MEOverlayView.h:134-140 | each state's enum constant (Idle 0, Creating 1, Modifying 2, Deleting 3) is below 4; StateOfCode is its inverse (see CodeRoundTrip) |
| States.StateOfCode | MEOverlayView/MEOverlayView/MEOverlayView.h:134-140 | an NSUInteger names a state exactly when it is below 4, and decoding it gives back the state whose enum constant it is, the inverse of Code |
| States.CodeRoundTrip | MEOverlayView/MEOverlayView/MEOverlayView.h:134-140 | the enum constants are distinct, so a state's code decodes to that state |
| States.Next | MEOverlayView/MEOverlayView/MEOverlayView.h:188-195 | after a request the state is the target exactly when the (assumed) rule admits it, and otherwise the state before |
| States.RunFollowsRequests | MEOverlayView/MEOverlayView/MEOverlayView.h:188-195 | over any series of requests, each resulting state equals the request iff it was admitted from the previous state, and is the previous state otherwise |
| States.LockedViewStaysIdle | MEOverlayView/MEOverlayView/MEOverlayView.h:188-195 | under the assumed admission rule `States.Admits`, with allowsCreatingOverlays, allowsModifyingOverlays and allowsDeletingOverlays all NO, no series of requests leaves Idle; this follows from the assumption, not from the header |
| View.OverlayView.constructor | MEOverlayView/MEOverlayView/MEOverlayView.h:284-353 | a fresh view is Idle with nothing selected; create/modify/delete, selection, empty and multiple selection and the three click flags are YES, overlapping is NO, border width is 3 |
| View.OverlayView.EnterState | MEOverlayView/MEOverlayView/MEOverlayView.h:188-195 | the header's "`YES` if the state could be changed; otherwise `NO`", read as: YES exactly when the state afterwards is the requested one, and on NO the state is unchanged; the new state is `States.Next` of the old one under the assumed rule, so `RunFollowsRequests` applies to a series of calls; the selection and flags are never touched |
| View.OverlayView.SelectedOverlayIndexes | MEOverlayView/MEOverlayView/MEOverlayView.h:213-217 | the returned set holds exactly the selected indexes |
| View.OverlayView.SelectedOverlay | MEOverlayView/MEOverlayView/MEOverlayView.h:207-211 | −1 if and only if the selection is empty; otherwise a selected index, the one selected or added last |
| View.OverlayView.NumberOfSelectedOverlays | MEOverlayView/MEOverlayView/MEOverlayView.h:231-235 | equals the size of the selected index set |
| View.OverlayView.IsOverlaySelected | MEOverlayView/MEOverlayView/MEOverlayView.h:237-242 | YES if and only if the index is in the selected index set |
| View.OverlayView.SelectOverlayIndexes | MEOverlayView/MEOverlayView/MEOverlayView.h:200-205 | without extend the selection becomes exactly the given indexes; with extend it becomes the old selection united with them, the old order kept and the new indexes appended; the state and flags are unchanged |
| View.OverlayView.DeselectOverlay | MEOverlayView/MEOverlayView/MEOverlayView.h:219-229 | removes the index whenever it is selected, whatever allowsEmptyOverlaySelection says; nothing changes if it was not selected; the others keep their order; if it was the last selected, the one selected before it becomes last, or −1 |
| View.OverlayView.SelectAllOverlays | MEOverlayView/MEOverlayView/MEOverlayView.h:244-248 | the selection becomes exactly the valid data-source indexes 0 … count − 1 (count as numberOfOverlaysInOverlayView: reports it), so count overlays are selected and count − 1 is the last |
| View.OverlayView.DeselectAllOverlays | MEOverlayView/MEOverlayView/MEOverlayView.h:250-254 | afterwards nothing is selected: the set is empty, the count is 0 and selectedOverlay is −1 |
| Selection.DistinctCard | MEOverlayView/MEOverlayView/MEOverlayView.h:231-235 | a history without repeats has as many members as elements, so the count of selected overlays is the size of the index set |
| Selection.IndexSetIsHistory | MEOverlayView/MEOverlayView/MEOverlayView.h:200-205 | an ascending index set is a valid selection history whose last element is its greatest |
| Selection.LastOfHistory | MEOverlayView/MEOverlayView/MEOverlayView.h:207-211 | the last-selected value is −1 exactly for an empty selection, and otherwise a selected index |
| Selection.WithoutMembers | MEOverlayView/MEOverlayView/MEOverlayView.h:219-220 | deselecting an index leaves exactly the other selected indexes, and the result is still a valid history |
| Selection.WithoutAbsent | MEOverlayView/MEOverlayView/MEOverlayView.h:219 | deselecting an index that is not selected changes nothing |
| Selection.WithoutAt | MEOverlayView/MEOverlayView/MEOverlayView.h:222-223 | deselecting the member at position k removes just that position, so the relative order of the other selections is untouched |
| Selection.DeselectLastSelected | MEOverlayView/MEOverlayView/MEOverlayView.h:222-223 | after a deselect the last selected is unchanged unless it was the one removed; then it is the overlay selected before it, or −1 |
| Selection.NotInMembers | MEOverlayView/MEOverlayView/MEOverlayView.h:200-205 | the indexes an extension adds are exactly the given ones that were not yet selected |
| Selection.ExtendedAppends | MEOverlayView/MEOverlayView/MEOverlayView.h:200-205 | extending keeps the old history as a prefix and appends the not-yet-selected indexes in their given order |
| Selection.ExtendedMembers | MEOverlayView/MEOverlayView/MEOverlayView.h:200-205 | extending yields the union of the old selection and the given indexes, and a valid history |
| Selection.ExtendedWithSelected | MEOverlayView/MEOverlayView/MEOverlayView.h:200-205 | extending with indexes that are all selected already changes nothing |
| Selection.ExtendedLastSelected | MEOverlayView/MEOverlayView/MEOverlayView.h:207-211 | after an extension the last-selected overlay is the last index newly added to the selection |
| Selection.RangeIsValidIndexes | MEOverlayView/MEOverlayView/MEOverlayView.h:26-47 | the enumeration 0 … n − 1 holds exactly the valid data-source indexes, in ascending order, without repeats |

## Left out

- View.OverlayView.EnterState: its admission rule (`States.Admits`) is an assumption, because the header leaves the rule undocumented. The header promises only "`YES` if the state could be changed; otherwise `NO`" (line 193). "YES iff the view is now in the requested state; NO leaves the state unchanged" is the model's reading of that sentence.
- View.OverlayView.EnterState: takes an `MEState` value. An NSUInteger that names no state (4 or more) cannot be passed, because the header does not say what happens then. `States.StateOfCode` shows which codes are states.
- View.OverlayView.SelectOverlayIndexes: `allowsOverlaySelection`, `allowsMultipleOverlaySelection` and `allowsEmptyOverlaySelection` do not constrain it, because the header declares the flags but not how the selection methods honour them. The same applies to `deselectAllOverlays:`.
- View.OverlayView.SelectAllOverlays: the overlay count is a parameter. The data source is an external object that is not modelled.
- The data source's `overlayView:overlayObjectAtIndex:` and the overlay rectangles: geometry is `CGFloat`-based `NSRect` data owned by an external object.
- Delegate notifications (create, modify, delete, single/double/right click) and `NSEvent` routing: framework event plumbing with no stated outcome beyond the call itself.
- Hit-testing, drag-create and drag-modify geometry, rectangle normalisation and overlap rejection: no code or stated outcome exists for them, and they are floating point.
- `reloadData`: it only marks the view for redisplay. Rendering is not modelled.
- Fill and border colours (`CGColorRef`) and the border width as drawn: rendering only. The border width is kept as a `real` field with its default of 3.
- The `IKImageView` superclass (pan, zoom, coordinate mapping): framework behaviour.
- Weak `IBOutlet` references to the data source and delegate, and the implicit reload when they are set: Objective-C runtime and memory-management concerns.
- The earlier draft `MEOverlayView/MEOverlayView.h` and the demo controller `MEOverlayView/MEOverlayController.h`: the draft is superseded by the modelled header, and the controller is demo glue with no stated behaviour.
- Integer widths: indexes are unbounded integers. `NSUInteger` and `NSInteger` limits (and `NSNotFound`) never matter to the stated outcomes.
