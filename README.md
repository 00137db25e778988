# Searchable enum popup, modelled in Dafny

This project models the logic of Unity-SearchableEnum, an editor widget. The
widget replaces the standard enum dropdown of a property with a popup. In the
popup the user types a search text, the option names are filtered by
case-insensitive substring match, and the user moves a cursor with the arrow
keys or clicks a row. A selection is committed back to the property through
the popup's callback on Return or KeypadEnter, or when a listed row's toggle
reports true under the row-commit rule. A lone listed row that holds the
selection commits without a click.

The project has five modules:

- `IgnoreCase` (`ignore_case.dfy`): ordinal, case-insensitive `IndexOf` over
  strings, with ASCII case folding.
- `EnumFilter` (`enum_filter.dfy`): the pure pieces the popup is specified by.
  These are the filter (`Filter`) and its characterisation, the
  `List<int>.IndexOf` and `Mathf` helpers, the scroll-follow rule
  (`FollowScroll`), and the row-commit rule of one pass over the list rows
  (`RowStep`, `ListPass`).
- `EnumPopup` (`enum_popup.dfy`): the class `SearchableEnumPopup`. It has the
  source's mutable fields (`currentIndex`, `searchText`, `filteredIndices`,
  `keyboardSelectionIndex`, the scroll offset, the measured viewport height)
  plus two fields that stand for the host:
  - `closed` stands for `editorWindow.Close()`;
  - `selections` logs the `onSelect` calls.

  Its object invariant `Valid()` says four things:
  - the search text is at most 16 characters;
  - `filteredIndices` is always `Filter` of the names and the search text;
  - the cursor is a valid row, or 0 when the list is empty;
  - every index handed to `onSelect` is either the index the popup was opened
    with or an option index.
- `EnumDrawer` (`enum_drawer.dfy`): the property drawer's button label and its
  write-back guard, and what a run of commits does to the stored field.
- `Sessions` (`sessions.dfy`): client methods that replay short sessions
  through the class contracts: Return with no search, typing then Return, no
  match, a search that keeps the selection listed keeps the cursor on it,
  typing then clearing then Escape, clicking rows, whole `OnGUI` passes
  without a click (Escape calls back nothing, Return once), Escape after a
  search with no match, and Return or
  Escape followed by a lone row's commit in the same pass.

Inputs from the host become parameters:
- the key of a key-down event (`Key`, `Event`);
- the text the text field returns and whether the clear button was clicked;
- the toggle result of each row;
- the scroll offset the scroll view hands back;
- the scroll view's measured height on a repaint;
- the row height measured when the popup is built.

Four behaviours of the code are easy to miss:

- Return and KeypadEnter call `onSelect(currentIndex)` and close even when the
  filtered list is empty. No emptiness check guards that branch
  (`SearchableEnumDrawer.cs:103-108`).
- Refiltering never changes `currentIndex`. It only moves the cursor. So after
  a search that hides the selected option, the cursor is on row 0 but Return
  still commits the hidden option until Up or Down is pressed
  (`SearchableEnumDrawer.cs:200-207`). `Sessions.TypeThenEnter` shows both
  cases.
- Each row commits only when its toggle's result is true. The host toggle
  reports a row's highlighted state flipped by a click. So a lone row that is
  already the selection reports true without a click, and commits.
- Within one `OnGUI` pass, Return or KeypadEnter (`SearchableEnumDrawer.cs:105`)
  or Escape (`SearchableEnumDrawer.cs:99`) is followed by the row loop, which
  can commit as well (`SearchableEnumDrawer.cs:172-173`). So `onSelect` may run
  twice in one pass, or once right after Escape. `Sessions.ReturnThenLoneRow`
  and `Sessions.EscapeThenLoneRow` show both with a single option.

## Model

| member | source | states |
|---|---|---|
| IgnoreCase.Fold | Assets/Editor/SearchableEnumDrawer.cs:194 | the fold of a character is never an ASCII upper-case letter, and it is the character itself or its lower-case form |
| IgnoreCase.IndexOfFrom | Assets/Editor/SearchableEnumDrawer.cs:194 | the result is -1 exactly when the pattern occurs, ignoring case, at no position from `from` on; otherwise it is the first such position |
| IgnoreCase.IndexOf | Assets/Editor/SearchableEnumDrawer.cs:194 | `IndexOf(..., OrdinalIgnoreCase)` is -1 exactly when the name does not contain the query ignoring case; otherwise it is the first position of a case-insensitive match; an empty pattern is found at 0 |
| EnumFilter.Matches | Assets/Editor/SearchableEnumDrawer.cs:193-194 | the filter test "query empty or IndexOf >= 0" holds exactly when the name contains the query ignoring case |
| EnumFilter.Filter | Assets/Editor/SearchableEnumDrawer.cs:190-198 | the loop over the first n names adds at most one index per name, so the list has at most n entries |
| EnumFilter.FilterShape | Assets/Editor/SearchableEnumDrawer.cs:188-198 | the filtered list is strictly increasing, lies within `[0, n)` and is no longer than the option list |
| EnumFilter.FilterMembership | Assets/Editor/SearchableEnumDrawer.cs:188-198 | an index is in the filtered list exactly when it is an option index whose name contains the search text ignoring case |
| EnumFilter.FilterIsExactly | Assets/Editor/SearchableEnumDrawer.cs:188-198 | every strictly increasing list of exactly the matching option indices equals the filtered list, so the filter is order-preserving and unique |
| EnumFilter.IncreasingSameElements | Assets/Editor/SearchableEnumDrawer.cs:188-198 | two strictly increasing index lists with the same elements are equal |
| EnumFilter.FilterEmptyQuery | Assets/Editor/SearchableEnumDrawer.cs:193 | an empty search text keeps every option: the filtered list is `[0, 1, ..., N-1]` |
| EnumFilter.IndexOf | Assets/Editor/SearchableEnumDrawer.cs:200 | `List<int>.IndexOf` is -1 exactly when the value is absent; otherwise it is a position holding the value with no earlier occurrence |
| EnumFilter.Clamp | Assets/Editor/SearchableEnumDrawer.cs:206 | `Mathf.Clamp` lies within the bounds, returns the value when it is within them and the nearer bound when it is not |
| EnumFilter.Max | Assets/Editor/SearchableEnumDrawer.cs:112 | `Mathf.Max` is an upper bound of both arguments and equals one of them |
| EnumFilter.Min | Assets/Editor/SearchableEnumDrawer.cs:120 | `Mathf.Min` is a lower bound of both arguments and equals one of them |
| EnumFilter.FollowScroll | Assets/Editor/SearchableEnumDrawer.cs:217-227 | when the viewport is at least a row high, the new offset shows the cursor row in full; a row already visible leaves the offset unchanged; no offset that shows the row is closer to the old one |
| EnumFilter.RowStep | Assets/Editor/SearchableEnumDrawer.cs:163-175 | one row either leaves the selection and the callback log unchanged or appends its original index to the log and selects it; it appends exactly when its toggle reports true and it is not the selection or is the only row |
| EnumFilter.ListPass | Assets/Editor/SearchableEnumDrawer.cs:161-176 | a pass over n rows calls back at most n times, and a pass that calls back nothing keeps the selection |
| EnumFilter.ListPassQuiet | Assets/Editor/SearchableEnumDrawer.cs:161-176 | rows whose toggle reports false change neither the selection nor the callback log |
| EnumFilter.ListPassCommitsFiltered | Assets/Editor/SearchableEnumDrawer.cs:161-176 | every index a list pass commits is a listed original index; the selection afterwards is the old one or a listed index, and it is the last one committed |
| EnumFilter.ListPassOneRow | Assets/Editor/SearchableEnumDrawer.cs:164-175 | when only row j reports true, the pass selects and commits that row's original index exactly once if the row was not the selection or is the only row, and otherwise changes nothing |
| EnumFilter.ListPassKeepsSelection | Assets/Editor/SearchableEnumDrawer.cs:164-175 | with more than one row listed, rows that report true while holding the selection commit nothing |
| EnumFilter.ListPassNoCommit | Assets/Editor/SearchableEnumDrawer.cs:161-176 | a pass commits nothing when no row reports true, and when more than one row is listed and only rows holding the selection report true |
| EnumFilter.ListPassClick | Assets/Editor/SearchableEnumDrawer.cs:161-176 | a click on a row that is not the selection, with at most the selected rows above it also reporting true, selects and commits that row's original index exactly once |
| EnumFilter.ListPassAtMostOnce | Assets/Editor/SearchableEnumDrawer.cs:161-176 | a pass in which at most one row reports true calls `onSelect` at most once |
| EnumPopup.SearchableEnumPopup.constructor | Assets/Editor/SearchableEnumDrawer.cs:72-83 | the popup opens with the given names, selection and row height, an empty search, the list `[0..N-1]`, the cursor on the selection or on 0 when it is not an option, and no callback made |
| EnumPopup.SearchableEnumPopup.UpdateFilteredList | Assets/Editor/SearchableEnumDrawer.cs:188-208 | the filtered list becomes the filter of the names by the search text; the cursor is the selection's row when the selection is listed and 0 otherwise, and always a valid row of a non-empty list; the selection itself is untouched |
| EnumPopup.SearchableEnumPopup.ScrollToSelection | Assets/Editor/SearchableEnumDrawer.cs:210-228 | no-op on an empty list; otherwise the offset becomes `FollowScroll` of the cursor row's top, and nothing else changes |
| EnumPopup.SearchableEnumPopup.OnKeyDown | Assets/Editor/SearchableEnumDrawer.cs:93-125 | Escape closes and calls back nothing; Return and KeypadEnter call back once with the selection and close; Up sets the cursor to `max(0, k-1)` and Down to `min(count-1, k+1)`, each selecting that row and scrolling to it; both are no-ops on an empty list; other keys change nothing |
| EnumPopup.SearchableEnumPopup.DrawSearchBar | Assets/Editor/SearchableEnumDrawer.cs:137-152 | the new text is "" when the clear button was clicked and the typed text otherwise; an unchanged text leaves the list and cursor as they were; a changed text refilters and re-derives the cursor |
| EnumPopup.SearchableEnumPopup.DrawRow | Assets/Editor/SearchableEnumDrawer.cs:163-176 | a row whose toggle reports true and that is not the selection, or is the only row, becomes the selection, is passed to `onSelect` once and closes the popup; otherwise nothing changes |
| EnumPopup.SearchableEnumPopup.DrawEnumList | Assets/Editor/SearchableEnumDrawer.cs:157-186 | the scroll offset is the one the scroll view returned; the selection and the callback log follow `ListPass` over every row; the popup closes when a row committed; a repaint records the viewport height |
| EnumPopup.SearchableEnumPopup.OnGUI | Assets/Editor/SearchableEnumDrawer.cs:90-131 | one pass keeps the invariant, only appends to the callback log, never reopens, closes on Escape, and calls back first with the selection on Return or KeypadEnter; when no listed row reports true, or when more than one row is listed and only rows holding the selection report true (the host's unclicked selected row) and the key is not Up or Down, the pass calls back exactly once with the selection on Return or KeypadEnter and not at all otherwise, Escape included |
| EnumDrawer.ButtonLabel | Assets/Editor/SearchableEnumDrawer.cs:20-24 | the button shows the display name of the stored index when it is in range and "None" otherwise |
| EnumDrawer.WriteBack | Assets/Editor/SearchableEnumDrawer.cs:36-40 | the callback leaves the committed index stored and applies a modification exactly when it differs from the stored one |
| EnumDrawer.WriteBackSameIndex | Assets/Editor/SearchableEnumDrawer.cs:36-40 | committing the stored index changes nothing |
| EnumDrawer.WriteBackAll | Assets/Editor/SearchableEnumDrawer.cs:33-41 | no callbacks leave the field as it was; a run of callbacks applies at most one modification per call |
| EnumDrawer.WriteBackAllLast | Assets/Editor/SearchableEnumDrawer.cs:33-41 | after a non-empty run of callbacks the field holds the last committed index |
| EnumDrawer.WriteBackAllStaysCommittable | Assets/Editor/SearchableEnumDrawer.cs:33-41 | when every committed index is the stored one or an option index, the field ends up holding one of those |
| EnumDrawer.LabelAfterCommit | Assets/Editor/SearchableEnumDrawer.cs:20-40 | once an option has been committed, the button shows that option's display name |

## Left out

- The host's serialized-property layer is not modelled: `SerializedProperty`, `SerializedObject`, `FindProperty`, `ApplyModifiedProperties`. The stored field is the datatype `EnumField`, and applying a modification is a counter.
- The non-enum fallback `EditorGUI.PropertyField` is not modelled.
- Drawing and layout are not modelled: `GUILayout`, `EditorGUI`, style lookups, `CalcHeight`, `BeginScrollView`, `GetLastRect`. Their results (the row height, the scroll offset, the viewport height, the text, the clear click, the toggles) are parameters.
- Focus control is not modelled (`SetNextControlName`, `FocusControl`, `FocusTextInControl`). It changes no state of the popup.
- `PopupWindow.Show` is not modelled.
- `editorWindow.Close()` is only the `closed` flag. The model goes on accepting calls after it is set, as the rest of the same `OnGUI` pass does in the source.
- The event pump is not modelled (`Event.current`, `e.Use()`). The event is the `Event` parameter.
- `GetWindowSize` and its fixed 250 by 300 size are not modelled. They only place the host window.
- The 16-character cap of the text field is a precondition of `DrawSearchBar`, not a truncation, since the host's text field enforces it.
- IgnoreCase.IndexOf: folds ASCII letters only, not the full Unicode case mapping of .NET's `OrdinalIgnoreCase`.
- EnumPopup.SearchableEnumPopup.ScrollToSelection: scroll offsets, row and viewport heights are integers, not floats. The host's clamping of the scroll offset to the content is not modelled.
- EnumPopup.SearchableEnumPopup.DrawEnumList: takes each row's toggle result as given. It does not model how the host toggle turns a click into that result.
- EnumPopup.SearchableEnumPopup.OnGUI: states properties of the pass rather than its whole new state. The whole state is given by the contracts of `OnKeyDown`, `DrawSearchBar` and `DrawEnumList`, which it calls in order.
