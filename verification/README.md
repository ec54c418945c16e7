# Channel-browsing controller of a live-TV web player

The application is a single-page player for live television channels. On
mount it fetches a channel catalog once, then lets the user open a list
overlay, search it, pick a channel, step through the catalog with prev/next
buttons that wrap around, and watch the stream while the playback controls
hide themselves after a few idle seconds. Every decision the page makes
lives in the `App` component (`src/App.tsx`); playback itself is delegated
to an HLS engine.

This project models that component as an immutable state record and pure
transition functions, one per event:

- `Text` — ASCII lower-casing and the substring test behind the search box.
- `JsArith` — JavaScript's truncating `%` and `Math.abs` on integers, with
  the exact relation of JavaScript's `%` to Dafny's Euclidean one.
- `Catalog` — the `Channel` record, `findIndex` by name, and the search
  filter with its order, membership, idempotence and empty-query
  properties.
- `Ring` — the next/previous index formulas of `switchChannel`, their range
  for every `findIndex` result including -1, their inverse relation, and
  the closure of the ring after `n` steps.
- `Controller` — the state (phase, catalog, selection, list and controls
  visibility, touch origin, query), each handler of the component, and
  `Step`, which delivers an event only through an element the page renders
  in the current state: a mouse or touch click only when the element is
  also not faded out or covered by the open list, keyboard activation of a
  focused button whenever the button is mounted.
- `ControllerProperties` — the invariant of every reachable state, the
  switching round trips and wrap-around, the effect of each input, and the
  concrete scenarios (three-channel ring, empty catalog, rejected fetch,
  the "tv" search, duplicate names).

Behaviour of the code worth knowing:

- Picking a channel from the list sets the selection and closes the list;
  it does not show the controls. A new selection does restart the idle
  timer, since the selection is one of the auto-hide effect's dependencies;
  the timer is not modelled in time, only its firing.
- While the list is open, it lies above the top bar, the prev/next buttons
  and the welcome screen, so a click on Browse only ever opens the list;
  the close button, the backdrop, Escape or a swipe close it. The covered
  and faded-out buttons stay in the focus order, though (the page root takes
  focus and handles keys): Tab to Browse and Enter closes the open list or
  opens it while the controls are hidden, and Enter on a covered prev/next
  button switches the channel behind the open list
  (`ScenarioKeyedNextBehindList`).
- A drag is measured as start minus current position, so a finger moving
  down the screen by more than 50 pixels opens the list and moving up
  closes it, not the other way round.
- Mouse movement while the controls are already shown leaves the state as
  it is, so the idle timer is not re-armed (the effect that arms it only
  reruns when `showControls` or the selection changes); the hide is not a
  debounce of user activity. The discrete `IdleTimerFired` event abstracts
  from when it fires.
- For a selection whose name is not in the catalog (`findIndex` = -1),
  "previous" plays the second-to-last entry, not the last
  (`StaleSelectionSwitch`). In reachable states this never happens: the
  selection is always a catalog entry (`ReachableSelectionIsFound`).
- Channel identity is the name. With two entries named alike, "next" from
  the later one jumps to the entry after the earlier one
  (`ScenarioDuplicateNames`); the ring properties are proved for catalogs
  with unique names.

## Model

| member | source | states |
|---|---|---|
| `Text.LowerChar` | src/App.tsx:21 | the lowered character is never an ASCII capital; capitals map to the same letter in lower case, everything else to itself |
| `Text.Lower` | src/App.tsx:21 | lowering keeps the length and lowers each position independently |
| `Text.LowerIdempotent` | src/App.tsx:21 | lowering an already lowered string changes nothing |
| `Text.Contains` | src/App.tsx:21 | `includes` holds exactly when some position of the name starts a copy of the query |
| `Text.ContainsEmpty` | src/App.tsx:21 | every name includes the empty query |
| `JsArith.Abs` | src/App.tsx:70 | the absolute value is the delta or its negation and is never negative |
| `JsArith.Rem` | src/App.tsx:84-85 | JavaScript's remainder lies strictly between -n and n, takes the dividend's sign and is congruent to the dividend modulo n |
| `JsArith.RemAgreesOnNonNegative` | src/App.tsx:84-85 | on a non-negative dividend JavaScript's remainder equals the Euclidean one |
| `JsArith.RemDiffersOnNegative` | src/App.tsx:84-85 | on a negative dividend that n does not divide, JavaScript's remainder is the Euclidean one minus n |
| `Catalog.FindIndex` | src/App.tsx:82 | the result is -1 exactly when no entry has the name; otherwise it is the first entry with that name |
| `Catalog.FindIndexOfUnique` | src/App.tsx:82 | with unique names, looking up the name of entry i finds i |
| `Text.OccursInLower` | src/App.tsx:21 | the lowered query occurs in the lowered name at a position exactly when the query equals that stretch of the name up to ASCII case |
| `Catalog.Matches` | src/App.tsx:21 | the filter callback holds exactly when some stretch of the name equals the query up to ASCII case |
| `Catalog.Filter` | src/App.tsx:20-22 | a channel is in the filtered list exactly when it is in the catalog and its lowered name includes the lowered query |
| `Catalog.FilterIsSubsequence` | src/App.tsx:20-22 | the filtered list is a subsequence of the catalog, in catalog order |
| `Catalog.FilterAppend` | src/App.tsx:20-22 | filtering a concatenation is the concatenation of the filtered parts |
| `Catalog.FilterSingleton` | src/App.tsx:20-22 | a single channel survives the filter exactly when it matches |
| `Catalog.FilterEmptyQuery` | src/App.tsx:20-22 | the empty query keeps the whole catalog |
| `Catalog.FilterIdempotent` | src/App.tsx:20-22 | filtering the filtered list again by the same query changes nothing |
| `Ring.NextIndex` | src/App.tsx:84 | for every findIndex result in [-1, n) the next index lies in [0, n): one place on, or 0 after the last entry |
| `Ring.PrevIndex` | src/App.tsx:85 | for every findIndex result in [-1, n) the previous index lies in [0, n): one place back, n - 1 before the first entry, n - 2 (or 0 when n = 1) from -1 |
| `Ring.RemAgreesOnSwitchOperands` | src/App.tsx:82-85 | on every dividend the two formulas can produce, JavaScript's and Dafny's remainders agree |
| `Ring.PrevAfterNext` | src/App.tsx:83-85 | previous undoes next on every position of the ring |
| `Ring.NextAfterPrev` | src/App.tsx:83-85 | next undoes previous on every position of the ring |
| `Ring.Advance` | src/App.tsx:84 | any number of next steps stays on the ring |
| `Ring.AdvanceIsModular` | src/App.tsx:84 | k next steps from i reach (i + k) mod n |
| `Ring.AdvanceFullCircle` | src/App.tsx:84 | n next steps return to the start |
| `Controller.Init` | src/App.tsx:10-18 | the component mounts loading, with an empty catalog, no selection, controls shown, list closed and an empty query |
| `Controller.CatalogLoaded` | src/App.tsx:35-38 | a successful fetch stores the data as the catalog and shows the player view, leaving the rest of the state alone |
| `Controller.CatalogFailed` | src/App.tsx:39-43 | a failed fetch shows the fixed message "Failed to load channels" and leaves the rest of the state, catalog included, alone |
| `Controller.KeyDown` | src/App.tsx:56-62 | Escape closes the list without touching the controls; ArrowUp/ArrowDown show the controls without touching the list; the selection never changes; other keys change nothing |
| `Controller.TouchStart` | src/App.tsx:64-66 | touch start records the start position and nothing else |
| `Controller.TouchMove` | src/App.tsx:68-73 | a drag of more than 50 down opens the list, more than 50 up closes it, and anything within 50 changes nothing |
| `Controller.MouseMove` | src/App.tsx:75-77 | mouse movement shows the controls and changes nothing else |
| `Controller.IdleTimeout` | src/App.tsx:46-54 | after the timeout the controls are shown exactly when they were shown with no channel selected; nothing else changes |
| `Controller.SelectChannel` | src/App.tsx:210-213 | a pick selects the channel and closes the list, changing nothing else |
| `Controller.ToggleList` | src/App.tsx:147 | Browse flips the list and changes nothing else |
| `Controller.CloseList` | src/App.tsx:176-190 | the backdrop and the close button close the list and change nothing else |
| `Controller.OpenList` | src/App.tsx:283-285 | the welcome button opens the list and changes nothing else |
| `Controller.SetQuery` | src/App.tsx:197-201 | typing replaces the query and changes nothing else |
| `Controller.SwitchChannel` | src/App.tsx:79-88 | without a selection or with an empty catalog nothing changes; otherwise only the selection changes, to an entry of the catalog |
| `Controller.Visible` | src/App.tsx:20-22 | the rendered list holds exactly the catalog entries that match the query, in catalog order |
| `Controller.TopBarActive` | src/App.tsx:127-130 | the top bar takes clicks always on the welcome screen and, while a channel plays, exactly when the controls are shown |
| `Controller.Press` | src/App.tsx:146-288 | Browse flips the list, the welcome button opens it, each touching nothing else; prev/next change only the selection |
| `Controller.Step` | src/App.tsx:109-124 | input events reach the controller only in the player view; only the fetch outcome ever changes the catalog |
| `ControllerProperties.OpenListCoversButtons` | src/App.tsx:157-177 | while the list is open its full-screen layer covers the Browse, prev/next and welcome buttons, so a mouse or touch click on them changes nothing |
| `ControllerProperties.KeyedBrowseAlwaysToggles` | src/App.tsx:119-147 | Enter on the focused Browse button flips the list in every player-view state, covered or faded out |
| `ControllerProperties.ClickAndKeyAgree` | src/App.tsx:127-177 | a click and keyboard activation agree where the click reaches the button and both do nothing where it is not mounted; on a mounted but covered or faded button only the keyboard acts |
| `ControllerProperties.KeyedSwitchBehindList` | src/App.tsx:157-177 | with the list open, Enter on a mounted prev/next button moves the selection one place around the ring and leaves the list open |
| `ControllerProperties.ScenarioKeyedNextBehindList` | src/App.tsx:157-177 | on [A, B] with A playing and the list open, clicking next does nothing and Enter on it plays B |
| `ControllerProperties.InitValid` | src/App.tsx:10-18 | the mounted component satisfies the reachable-state invariant |
| `ControllerProperties.StepPreservesValid` | src/App.tsx:32-88 | every event keeps the invariant: empty catalog while loading, no selection outside the player view, the fixed error message, a selection that is a catalog entry, controls shown while nothing is selected |
| `ControllerProperties.RunPreservesValid` | src/App.tsx:32-88 | every sequence of events keeps the invariant |
| `ControllerProperties.ReachableIsValid` | src/App.tsx:10-88 | every state reachable from mounting satisfies the invariant |
| `ControllerProperties.ReachableSelectionIsFound` | src/App.tsx:82 | in a reachable state findIndex finds the selected name, so it never returns -1 there |
| `ControllerProperties.SelectionPersists` | src/App.tsx:87 | once a channel is selected no event clears the selection |
| `ControllerProperties.ErrorIsTerminal` | src/App.tsx:39-44 | from the error screen no event changes anything: no retry, no selection |
| `ControllerProperties.LoadingIgnoresInput` | src/App.tsx:90-99 | while loading, input events change nothing |
| `ControllerProperties.Position` | src/App.tsx:82 | on a catalog with unique names the selected entry has a position on the ring |
| `ControllerProperties.SwitchMovesOnePlace` | src/App.tsx:82-87 | with unique names and a selection in the catalog, switching selects the entry one place on or back and changes nothing else |
| `ControllerProperties.SwitchWithoutTargetIsInert` | src/App.tsx:80 | with no selection or an empty catalog the switch, and a click or keyboard activation of its buttons, leave the whole state unchanged |
| `ControllerProperties.SwitchNextThenPrev` | src/App.tsx:82-87 | with unique names and a selection in the catalog, next then previous restores the state |
| `ControllerProperties.SwitchPrevThenNext` | src/App.tsx:82-87 | with unique names and a selection in the catalog, previous then next restores the state |
| `ControllerProperties.SwitchWrapsAround` | src/App.tsx:83-85 | next from the last entry selects the first; previous from the first selects the last |
| `ControllerProperties.StaleSelectionSwitch` | src/App.tsx:82-85 | a selection whose name is not in the catalog switches to the first entry on next and to the second-to-last (or only) entry on previous |
| `ControllerProperties.SwitchTimesAdvances` | src/App.tsx:82-87 | k presses of next move the selection k places around the ring |
| `ControllerProperties.SwitchFullCircle` | src/App.tsx:82-87 | pressing next once per catalog entry returns to the starting state |
| `ControllerProperties.KeysNeverSwitch` | src/App.tsx:56-62 | in the player view no key changes the channel; Escape closes the list, the vertical arrows show the controls, other keys do nothing |
| `ControllerProperties.DragDecidesList` | src/App.tsx:64-73 | a touch start then move by more than 50 down opens the list, more than 50 up closes it, anything shorter only records the start |
| `ControllerProperties.ActivityThenIdle` | src/App.tsx:46-54 | mouse movement shows the controls and the following timeout hides them while a channel plays |
| `ControllerProperties.IdleTimeoutInert` | src/App.tsx:48 | the timeout changes nothing on the welcome screen or with the controls already hidden |
| `ControllerProperties.ListPickPlaysShownChannel` | src/App.tsx:207-213 | picking the k-th shown entry selects exactly that entry, a catalog entry matching the query, and closes the list, leaving controls and query alone |
| `ControllerProperties.BrowseThenCloseRestores` | src/App.tsx:147 | a click on Browse opens the closed list, and the close button then restores the state |
| `ControllerProperties.BrowseIgnoredWhileHidden` | src/App.tsx:127-130 | while a channel plays with hidden controls the faded top bar does not take a mouse or touch click on Browse |
| `ControllerProperties.ScenarioThreeChannels` | src/App.tsx:79-88 | on [A, B, C] next from B selects C, next again wraps to A, previous from A wraps to C |
| `ControllerProperties.ScenarioEmptyCatalog` | src/App.tsx:80 | with an empty catalog switching changes nothing |
| `ControllerProperties.ScenarioFetchRejected` | src/App.tsx:39-44 | a rejected fetch shows the error message and a later success is not taken |
| `ControllerProperties.ScenarioSearchTv` | src/App.tsx:20-22 | the query "tv" against TVOne, Metro, RCTV keeps TVOne and RCTV |
| `ControllerProperties.TvMatches` | src/App.tsx:21 | "tv" matches TVOne and RCTV case-insensitively and does not match Metro |
| `ControllerProperties.MetroLacksTv` | src/App.tsx:21 | "metro" does not include "tv" |
| `ControllerProperties.ScenarioDuplicateNames` | src/App.tsx:82 | with two entries of the same name, next from the later one plays the entry after the earlier one |

## Left out

- The wall clock refreshed every second (src/App.tsx:24-30) and its
  locale-dependent formatting: display only, no decision depends on it.
- The video player component and its HLS engine, and the build and PWA
  configuration: they hold no controller logic.
- The network request and JSON decoding: the fetch is reduced to its two
  outcomes, a channel sequence or a failure. Data that is not an array of
  channel records is not modelled.
- The duration of the idle timer (3000 ms) and its re-arming by React's
  effect cleanup: time is not modelled, the timer firing is an event.
- React's rendering, StrictMode double effects, CSS classes and icons;
  what is rendered matters only as the gate in `Controller.Step`.
- Text.LowerChar: lowers ASCII capitals only, because full Unicode case
  mapping of `toLowerCase` is not modelled.
- JsArith.Rem: requires a positive divisor; JavaScript yields NaN for a zero
  divisor, which the caller's empty-catalog guard rules out.
- Touch coordinates are integers here; the browser reports
  fractional pixels.
- Strings are sequences of Unicode scalar values, while JavaScript strings
  are UTF-16 code units; `includes` and `===` agree with this model on
  well-formed names but not on names holding lone surrogates.
- Where exactly a mouse or touch click on a covered button lands inside
  the open list (backdrop, panel or close button) depends on layout and is
  not modelled; that click does not fire the covered button. Keyboard
  activation is modelled separately, and focus moves (Tab order) are not
  events of their own.
- The brand link in the top bar (src/App.tsx:132) reloads the page, which
  mounts a fresh component and fetches again. The model covers one page
  load: `SelectionPersists` and the absence of a retry after a failed load
  (`ErrorIsTerminal`) hold within it, not across a reload.
- The `src/types` module that declares the channel record is not part of
  this model beyond the three fields the component reads.
