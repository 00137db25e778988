/** `SearchableEnumPopup`: the popup window content that filters a fixed list
    of option names by a search text, keeps a keyboard cursor into the
    filtered list, scrolls to follow it, and commits a selection through the
    `onSelect` callback before closing. */
module EnumPopup {
  import IgnoreCase
  import opened EnumFilter

  /** The key codes the popup reacts to; every other key is `OtherKey`. */
  datatype Key = Escape | Return | KeypadEnter | UpArrow | DownArrow | OtherKey

  /** The current event of one `OnGUI` pass. A repaint carries the height the
      layout reported for the scroll view. */
  datatype Event = KeyDown(key: Key) | Repaint(scrollViewHeight: int) | OtherEvent

  class SearchableEnumPopup {
    const enumNames: seq<string>
    /** The height of one row, measured once by the host when the popup is built. */
    const itemHeight: int
    /** The index the popup was opened with. */
    ghost const initialIndex: int

    var currentIndex: int
    var searchText: string
    var filteredIndices: seq<int>
    var keyboardSelectionIndex: int
    /** The vertical part of `scrollPosition`. */
    var scrollY: int
    /** The height of `scrollviewRect`, as last measured on a repaint. */
    var viewportHeight: int
    /** `editorWindow.Close()` has been called. */
    var closed: bool
    /** The arguments of the `onSelect` calls made so far, in order. */
    var selections: seq<int>

    /** An index `onSelect` may be called with: the one the popup was opened
        with, or the index of an option. */
    ghost predicate Committable(x: int)
    {
      x == initialIndex || 0 <= x < |enumNames|
    }

    ghost predicate SelectionsValid()
      reads this
    {
      Committable(currentIndex) &&
      forall j :: 0 <= j < |selections| ==> Committable(selections[j])
    }

    /** The cursor indexes the filtered list when it is non-empty and is 0 otherwise. */
    ghost predicate CursorValid()
      reads this
    {
      0 <= keyboardSelectionIndex &&
      (|filteredIndices| == 0 ==> keyboardSelectionIndex == 0) &&
      (|filteredIndices| > 0 ==> keyboardSelectionIndex < |filteredIndices|)
    }

    ghost predicate Valid()
      reads this
    {
      |searchText| <= MaxSearchLen &&
      filteredIndices == Filter(enumNames, searchText, |enumNames|) &&
      CursorValid() &&
      SelectionsValid()
    }

    /** Opens the popup over `names` with `i` selected; the list starts
        unfiltered and the cursor on `i`, or on row 0 when `i` is not an option. */
    constructor (names: seq<string>, i: int, rowHeight: int)
      ensures Valid()
      ensures enumNames == names && currentIndex == i && initialIndex == i && itemHeight == rowHeight
      ensures searchText == "" && filteredIndices == seq(|names|, j => j)
      ensures keyboardSelectionIndex == if 0 <= i < |names| then i else 0
      ensures scrollY == 0 && viewportHeight == 0 && !closed && selections == []
    {
      enumNames := names;
      currentIndex := i;
      initialIndex := i;
      itemHeight := rowHeight;
      searchText := "";
      filteredIndices := [];
      keyboardSelectionIndex := 0;
      scrollY := 0;
      viewportHeight := 0;
      closed := false;
      selections := [];
      new;
      UpdateFilteredList();
      FilterEmptyQuery(enumNames, |enumNames|);
      if 0 <= i < |names| {
        assert filteredIndices[i] == i;
      }
    }

    /** Recomputes the filtered list from the search text and puts the cursor
        on the selection's row, or on row 0 when the selection was filtered out. */
    method UpdateFilteredList()
      requires |searchText| <= MaxSearchLen && SelectionsValid()
      modifies this`filteredIndices, this`keyboardSelectionIndex
      ensures Valid()
      ensures currentIndex in filteredIndices ==>
        filteredIndices[keyboardSelectionIndex] == currentIndex
      ensures currentIndex !in filteredIndices ==> keyboardSelectionIndex == 0
    {
      filteredIndices := [];
      var i := 0;
      while i < |enumNames|
        invariant 0 <= i <= |enumNames|
        invariant filteredIndices == Filter(enumNames, searchText, i)
      {
        if searchText == "" || IgnoreCase.IndexOf(enumNames[i], searchText) >= 0 {
          filteredIndices := filteredIndices + [i];
        }
        i := i + 1;
      }
      var currentFilteredIndex := IndexOf(filteredIndices, currentIndex);
      keyboardSelectionIndex := if currentFilteredIndex != -1 then currentFilteredIndex else 0;
      if |filteredIndices| > 0 {
        keyboardSelectionIndex := Clamp(keyboardSelectionIndex, 0, |filteredIndices| - 1);
      }
    }

    /** Scrolls so that the cursor's row is inside the viewport; does nothing
        when the filtered list is empty. */
    method ScrollToSelection()
      modifies this`scrollY
      ensures |filteredIndices| == 0 ==> scrollY == old(scrollY)
      ensures |filteredIndices| > 0 ==>
        scrollY == FollowScroll(keyboardSelectionIndex * itemHeight, itemHeight, old(scrollY), viewportHeight)
    {
      if |filteredIndices| == 0 {
        return;
      }
      var selectionYPos := keyboardSelectionIndex * itemHeight;
      if selectionYPos < scrollY {
        scrollY := selectionYPos;
      } else if selectionYPos + itemHeight > scrollY + viewportHeight {
        scrollY := selectionYPos + itemHeight - viewportHeight;
      }
    }

    /** The key-down branch of `OnGUI`: Escape closes without calling back;
        Return and KeypadEnter call back with the selection and close; Up and
        Down move the cursor one row, clamped to the list, select that row and
        scroll to it, and do nothing when the list is empty. */
    method OnKeyDown(key: Key)
      requires Valid()
      modifies this`currentIndex, this`keyboardSelectionIndex, this`scrollY, this`closed, this`selections
      ensures Valid()
      ensures key == Escape ==>
        closed && selections == old(selections) && currentIndex == old(currentIndex) &&
        keyboardSelectionIndex == old(keyboardSelectionIndex) && scrollY == old(scrollY)
      ensures key == Return || key == KeypadEnter ==>
        closed && selections == old(selections) + [old(currentIndex)] &&
        currentIndex == old(currentIndex) &&
        keyboardSelectionIndex == old(keyboardSelectionIndex) && scrollY == old(scrollY)
      ensures (key == UpArrow || key == DownArrow) && |filteredIndices| > 0 ==>
        keyboardSelectionIndex ==
          (if key == UpArrow then Max(0, old(keyboardSelectionIndex) - 1)
           else Min(|filteredIndices| - 1, old(keyboardSelectionIndex) + 1)) &&
        currentIndex == filteredIndices[keyboardSelectionIndex] &&
        scrollY == FollowScroll(keyboardSelectionIndex * itemHeight, itemHeight, old(scrollY), viewportHeight) &&
        closed == old(closed) && selections == old(selections)
      ensures key == OtherKey || ((key == UpArrow || key == DownArrow) && |filteredIndices| == 0) ==>
        currentIndex == old(currentIndex) && keyboardSelectionIndex == old(keyboardSelectionIndex) &&
        scrollY == old(scrollY) && closed == old(closed) && selections == old(selections)
    {
      var hasResult := |filteredIndices| > 0;
      FilterShape(enumNames, searchText, |enumNames|);
      if key == Escape {
        closed := true;
      } else if key == Return || key == KeypadEnter {
        selections := selections + [currentIndex];
        closed := true;
      } else if hasResult && key == UpArrow {
        keyboardSelectionIndex := Max(0, keyboardSelectionIndex - 1);
        currentIndex := filteredIndices[keyboardSelectionIndex];
        ScrollToSelection();
      } else if hasResult && key == DownArrow {
        keyboardSelectionIndex := Min(|filteredIndices| - 1, keyboardSelectionIndex + 1);
        currentIndex := filteredIndices[keyboardSelectionIndex];
        ScrollToSelection();
      }
    }

    /** The text-change part of `DrawSearchBar`: the clear button replaces the
        typed text with ""; the list is refiltered only when the new text
        differs from the current one. */
    method DrawSearchBar(typed: string, clearClicked: bool)
      requires Valid()
      requires |typed| <= MaxSearchLen
      modifies this`searchText, this`filteredIndices, this`keyboardSelectionIndex
      ensures Valid()
      ensures searchText == if clearClicked then "" else typed
      ensures searchText == old(searchText) ==>
        filteredIndices == old(filteredIndices) && keyboardSelectionIndex == old(keyboardSelectionIndex)
      ensures searchText != old(searchText) ==>
        (currentIndex in filteredIndices ==> filteredIndices[keyboardSelectionIndex] == currentIndex) &&
        (currentIndex !in filteredIndices ==> keyboardSelectionIndex == 0)
    {
      var newSearchText := typed;
      if clearClicked {
        newSearchText := "";
      }
      if newSearchText != searchText {
        searchText := newSearchText;
        UpdateFilteredList();
      }
    }

    /** The body of the row loop of `DrawEnumList` for row `i`, whose toggle
        reported `toggled`: commit the row's original index when it was not
        the selection or is the only row, and close. */
    method DrawRow(i: int, toggled: bool)
      requires Valid() && 0 <= i < |filteredIndices|
      modifies this`currentIndex, this`selections, this`closed
      ensures Valid()
      ensures var o := RowStep(filteredIndices, ListOutcome(old(currentIndex), old(selections)), i, toggled);
        currentIndex == o.current && selections == o.commits &&
        closed == (old(closed) || selections != old(selections))
    {
      FilterShape(enumNames, searchText, |enumNames|);
      var originalIndex := filteredIndices[i];
      var isSelected := originalIndex == currentIndex;
      if toggled {
        if !isSelected || |filteredIndices| == 1 {
          currentIndex := originalIndex;
          selections := selections + [currentIndex];
          closed := true;
        }
      }
    }

    /** `DrawEnumList`: takes the scroll offset the scroll view hands back, runs
        the row-commit rule over every row, `toggled(i)` being the toggle's
        result for row `i`, closes if any row committed, and records the scroll
        view's height on a repaint. */
    method DrawEnumList(scrolled: int, toggled: int -> bool, e: Event)
      requires Valid()
      modifies this`scrollY, this`currentIndex, this`selections, this`closed, this`viewportHeight
      ensures Valid()
      ensures scrollY == scrolled
      ensures var o := ListPass(filteredIndices, toggled, old(currentIndex), |filteredIndices|);
        currentIndex == o.current && selections == old(selections) + o.commits &&
        closed == (old(closed) || o.commits != [])
      ensures viewportHeight == if e.Repaint? then e.scrollViewHeight else old(viewportHeight)
    {
      scrollY := scrolled;
      ghost var start := currentIndex;
      ghost var log := selections;
      ghost var wasClosed := closed;
      var i := 0;
      while i < |filteredIndices|
        invariant 0 <= i <= |filteredIndices|
        invariant Valid()
        invariant scrollY == scrolled && viewportHeight == old(viewportHeight)
        invariant currentIndex == ListPass(filteredIndices, toggled, start, i).current
        invariant selections == log + ListPass(filteredIndices, toggled, start, i).commits
        invariant closed == (wasClosed || ListPass(filteredIndices, toggled, start, i).commits != [])
      {
        ghost var before := ListPass(filteredIndices, toggled, start, i);
        RowStepAfterLog(filteredIndices, before.current, log, before.commits, i, toggled(i));
        DrawRow(i, toggled(i));
        i := i + 1;
      }
      if e.Repaint? {
        viewportHeight := e.scrollViewHeight;
      }
    }

    /** One `OnGUI` pass: the key-down branch, then the search bar, then the list. */
    method OnGUI(e: Event, typed: string, clearClicked: bool, scrolled: int, toggled: int -> bool)
      requires Valid()
      requires |typed| <= MaxSearchLen
      modifies this
      ensures Valid()
      ensures searchText == if clearClicked then "" else typed
      ensures old(selections) <= selections
      ensures old(closed) ==> closed
      ensures e == KeyDown(Escape) ==> closed
      ensures e == KeyDown(Return) || e == KeyDown(KeypadEnter) ==>
        closed && |selections| > |old(selections)| && selections[|old(selections)|] == old(currentIndex)
      ensures (forall i :: 0 <= i < |filteredIndices| ==> !toggled(i)) ==>
        (if e == KeyDown(Return) || e == KeyDown(KeypadEnter)
         then selections == old(selections) + [old(currentIndex)]
         else selections == old(selections))
      ensures (!(e == KeyDown(UpArrow) || e == KeyDown(DownArrow)) && |filteredIndices| > 1 &&
               (forall i :: 0 <= i < |filteredIndices| && toggled(i) ==> filteredIndices[i] == old(currentIndex))) ==>
        selections == old(selections) +
          (if e == KeyDown(Return) || e == KeyDown(KeypadEnter) then [old(currentIndex)] else [])
    {
      if e.KeyDown? {
        OnKeyDown(e.key);
      }
      ghost var afterKey := selections;
      assert old(selections) <= afterKey;
      DrawSearchBar(typed, clearClicked);
      ghost var beforeList := currentIndex;
      ListPassNoCommit(filteredIndices, toggled, beforeList);
      DrawEnumList(scrolled, toggled, e);
      assert afterKey <= selections;
    }
  }
}
