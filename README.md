# To-do widget model

A Dafny model of `script.js`, the browser to-do widget. A form adds tasks: the submit handler trims the input and appends a list item. One delegated click listener on the list dispatches on the clicked element's class:

- complete/undo toggles the item;
- edit opens an inline edit box, whose save handler trims the new text;
- delete removes the item.

Three filter buttons (`all`, `pending`, `completed`) mark one button active and show or hide every item through its `hidden` class.

In this script the page itself is the store: there is no backing array. The model therefore keeps the page state as one object, `TodoWidget.Widget`, with three fields:

- `input`: the value of the new-task input.
- `rows`: the list items in page order. Each `TodoRows.Row` holds:
  - the task text;
  - the `completed` class;
  - the complete button's label (`Concluir` / `Desfazer`);
  - the `hidden` class;
  - while the item is being edited, the value of its edit input.
- `buttons`: the filter buttons, each with its `data-filter` value and its `active` class.

Every event handler is a method that updates these fields in place. Each method's postcondition gives the new state as a specification function of the old state (`Filtered`, `Toggled`, `RemoveAt`, `NewRow`, `Text.Trim`). The properties are proved about those functions. The class invariant `Valid()` says two things, and every handler keeps it:

- exactly one filter button is active;
- every complete button's label agrees with its item's `completed` class.

Code layout:

- `text.dfy` (module `Text`): `String.prototype.trim` over the ECMAScript white-space and line-terminator code points.
- `rows.dfy` (module `TodoRows`): the record types and the pure specification functions. These are the row a new task gets, the toggle, the filter switch, `querySelector('.filter-btn.active')`, the click dispatcher and list removal.
- `widget.dfy` (module `TodoWidget`): the `Widget` class with one method per handler or helper. It also has a few client methods that replay user sessions against the contracts:
  - `CompleteAndFilterSession`: complete, filter `pending`, filter `all`, undo.
  - `RefusedEditSession`: a blank edit is refused.
  - `EditSession`: a real edit is saved.
  - `DeleteSession`: an outside click, then a delete.
  - `AddUnderCompletedFilterSession`: a pending task added under the `completed` filter stays visible.

These client methods carry no postcondition of their own; their assertions are the point.

## Model

| member | source | states |
|---|---|---|
| Text.SkipLeading | script.js:10 | the first position at or after `i` that is not white space; everything skipped is white space |
| Text.SkipTrailing | script.js:10 | the end of the text in `s[lo..j]`: what follows it up to `j` is white space, and the character before it is not (unless it is `lo`) |
| Text.Trim | script.js:10 | the trimmed string is no longer than its input and neither starts nor ends with white space |
| Text.TrimCutsPadding | script.js:10 | the trimmed string is the input minus a white-space prefix and a white-space suffix (an infix at a returned offset) |
| Text.TrimBlank | script.js:12 | trim yields the empty (falsy) string exactly when the input is all white space, in both directions |
| Text.TrimOfPadded | script.js:10 | trimming any white-space padding around an already trimmed string gives that string back |
| Text.TrimTrimmed | script.js:138 | a trimmed string is its own trim |
| Text.TrimIdempotent | script.js:138 | trimming twice equals trimming once |
| TodoRows.NewRow | script.js:19-34 | a new item has the given text and state, is not hidden, has no edit box, and is labelled `Desfazer` exactly when completed and `Concluir` exactly when pending |
| TodoRows.Toggled | script.js:79-86 | toggling flips `completed`; the label is `Desfazer` iff the new state is completed and `Concluir` iff it is not; text, visibility and edit box are untouched |
| TodoRows.ToggleTwice | script.js:79-86 | toggling twice restores an item whose label agreed with its state |
| TodoRows.FilterRow | script.js:186-206 | the switch changes only `hidden`: shown for `all`, shown iff completed for `completed`, shown iff pending for `pending`, and unchanged for any other value (no default branch) |
| TodoRows.Filtered | script.js:180-208 | applyFilter keeps length, order and every field but `hidden`; `all` hides none, `completed` hides exactly the pending ones, `pending` hides exactly the completed ones, an unknown filter changes nothing; afterwards visibility matches the filter |
| TodoRows.FilteredIdempotent | script.js:180-208 | applying the same filter twice equals applying it once |
| TodoRows.FirstActive | script.js:88 | `querySelector('.filter-btn.active')` finds the first active button, and finds none exactly when no button is active |
| TodoRows.OnlyActive | script.js:163-169 | once every button lost `active` and button k gained it, exactly one button is active and the query finds k |
| TodoRows.Dispatch | script.js:50-72 | a click outside an item does nothing; otherwise complete-btn wins over edit-btn, which wins over delete-btn, any other element does nothing, and the action targets the clicked item |
| TodoRows.RemoveAt | script.js:68-69 | removing item i drops exactly that item: the ones before stay, the ones after shift up by one, and the multiset loses only that item |
| TodoWidget.FilteredAt | script.js:183-207 | the filtered list at position k is the switch applied to item k |
| TodoWidget.Widget.ActiveFilter | script.js:88 | the filter read after a toggle is the `data-filter` of an active button |
| TodoWidget.Widget.constructor | script.js:1-5 | the page starts with an empty input, no items, and the given filter buttons with exactly one active |
| TodoWidget.Widget.TypeInput | script.js:10 | the new-task input takes the typed value |
| TodoWidget.Widget.TypeEdit | script.js:138 | the edit input of an item in edit mode takes the typed value; nothing else changes |
| TodoWidget.Widget.Submit | script.js:8-16 | a blank input adds nothing and stays as typed; otherwise the trimmed text is appended as a pending, visible item and the input is cleared; texts stay trimmed and non-blank |
| TodoWidget.Widget.AddTask | script.js:19-39 | exactly one new item is appended at the end and the filter is not re-applied |
| TodoWidget.Widget.Click | script.js:50-72 | one click performs exactly the dispatched action (toggle with filter, edit mode, removal) or nothing |
| TodoWidget.Widget.ToggleComplete | script.js:79-89 | the item is toggled and then the active button's filter is re-applied to all items, so visibility matches the active filter |
| TodoWidget.Widget.EditTask | script.js:95-132 | the item gets an edit input holding its current text; nothing else changes |
| TodoWidget.Widget.SaveEdit | script.js:137-155 | a blank edit value leaves everything unchanged and keeps edit mode; otherwise the trimmed value replaces the text and edit mode ends; completion state, position and visibility are kept, and the filter is not re-applied |
| TodoWidget.Widget.Delete | script.js:68-69 | the item is removed as `RemoveAt` says; the filter is not re-applied |
| TodoWidget.Widget.SelectFilter | script.js:163-174 | afterwards exactly the clicked button is active, the filter values are unchanged, and the list is filtered by the clicked button's value |
| TodoWidget.Widget.ApplyFilter | script.js:180-208 | the per-item loop yields `Filtered` of the old list |
| TodoWidget.OpenPage | script.js:1-5 | the page as assumed at load: empty input, no items, buttons `all` (active), `pending`, `completed` (the values named at script.js:171) |
| TodoWidget.AddPadded | script.js:8-16 | typing a task padded with white space and submitting appends one pending item holding the task without padding, after the items already there |

## Left out

- DOM details are not modelled: element creation, `innerHTML` markup (the text is interpolated without escaping), `style.display`, and the `Editar`, `Excluir` and `Salvar` button labels. A row records only the state the handlers read or write.
- `alert` and `focus` are user-interface side effects with no state in the model, so they are left out. The refused-save path is modelled as "nothing changes".
- Listener registration is left out. So is the `keypress` check for `Enter`: both the save button and Enter call `SaveEdit` directly.
- TodoWidget.Widget.EditTask requires the item not to be in edit mode already. While the edit box is open, the edit button sits inside the actions container, which is hidden, so it cannot be clicked. A second `editTask` on the same item, which would stack a second edit box, is not modelled. `Click` requires the same for the edit action.
- TodoWidget.Widget.Click does not exclude clicks on hidden items; the script does not check for them either.
- `TodoRows.Dispatch` takes the clicked element's classes as a set. `closest('li')` is modelled only as "the item index, or outside".
- TodoWidget.Widget.AddTask is modelled with its `isCompleted` parameter, although the submit handler always passes the default `false`.
- `dataset.filter` is modelled as an arbitrary string.
- Characters are Unicode scalar values, not UTF-16 code units. Every white-space code point lies in the Basic Multilingual Plane, so trim is unaffected.
- The script keeps no array, no task ids and no local storage (script.js:37-38, 70, 87, 150), so there is nothing to serialize and no round trip to state.
- Delete removes the clicked element itself (script.js:69); no lookup by id takes place.
- Only the literal filter values `all`, `completed` and `pending` are recognised (script.js:186-206); any other value leaves every item as it is.
- Adding, deleting and saving an edit do not re-apply the filter; only toggling (script.js:88) and selecting a filter (script.js:172) do.
- The page markup is not part of `script.js`. The model assumes the page loads with an empty input, an empty list and exactly one active filter button (`Valid()`), and `OpenPage` picks `all` as the active one.
- TodoWidget.Widget.ToggleComplete: does not model the error path where no filter button is active. There `document.querySelector('.filter-btn.active')` returns null (script.js:88), and the script throws after relabelling the item, without re-applying the filter. `Valid()` excludes that state.
- Task text is modelled as the raw trimmed input string. The page stores it through `innerHTML` (script.js:27-28) and `editTask` reads back the parsed `textContent` (script.js:98), so markup or entities in the input (`Tom &amp; Jerry`, `<b></b>`) are shown and pre-filled differently. `TextsTrimmed` holds of the raw string only.
