/** Client code: short popup sessions over three options (say Red, Green and
    Blue, opened with Green, index 1, selected), showing what the contracts of
    `SearchableEnumPopup` determine. Each session states as a precondition what
    the typed query filters the three names down to. */
module Sessions {
  import opened EnumFilter
  import opened EnumPopup

  /** Return without searching commits the selection the popup opened with. */
  method EnterWithoutSearch(names: seq<string>)
    requires |names| == 3
  {
    var p := new SearchableEnumPopup(names, 1, 20);
    assert p.keyboardSelectionIndex == 1;
    p.OnKeyDown(Return);
    assert p.selections == [1] && p.closed;
  }

  /** A query that lists only option 2 keeps option 1 selected, so Return
      commits 1; moving the cursor first selects 2, and Return then commits 2. */
  method TypeThenEnter(names: seq<string>, query: string)
    requires |names| == 3 && 0 < |query| <= MaxSearchLen
    requires Filter(names, query, |names|) == [2]
  {
    var p := new SearchableEnumPopup(names, 1, 20);
    p.DrawSearchBar(query, false);
    assert p.filteredIndices == [2] && p.keyboardSelectionIndex == 0 && p.currentIndex == 1;
    p.OnKeyDown(Return);
    assert p.selections == [1];

    var q := new SearchableEnumPopup(names, 1, 20);
    q.DrawSearchBar(query, false);
    q.OnKeyDown(DownArrow);
    assert q.currentIndex == 2;
    q.OnKeyDown(Return);
    assert q.selections == [2];
  }

  /** With no match, Up does nothing and Return still commits the selection. */
  method NoMatchThenEnter(names: seq<string>, query: string)
    requires |names| == 3 && 0 < |query| <= MaxSearchLen
    requires Filter(names, query, |names|) == []
  {
    var p := new SearchableEnumPopup(names, 1, 20);
    p.DrawSearchBar(query, false);
    assert |p.filteredIndices| == 0 && p.currentIndex == 1;
    p.OnKeyDown(UpArrow);
    assert p.currentIndex == 1 && p.keyboardSelectionIndex == 0 && !p.closed;
    p.OnKeyDown(Return);
    assert p.selections == [1];
  }

  /** A query that keeps options 0 and 1 leaves the cursor on option 1. */
  method TypeKeepsCursor(names: seq<string>, query: string)
    requires |names| == 3 && 0 < |query| <= MaxSearchLen
    requires Filter(names, query, |names|) == [0, 1]
  {
    var p := new SearchableEnumPopup(names, 1, 20);
    p.DrawSearchBar(query, false);
    assert p.filteredIndices == [0, 1];
    assert p.keyboardSelectionIndex == 1;
  }

  /** After a search, clearing it lists all three options again with the
      cursor on option 1; Escape then closes without a callback. */
  method TypeClearEscape(names: seq<string>, query: string)
    requires |names| == 3 && 0 < |query| <= MaxSearchLen
  {
    var p := new SearchableEnumPopup(names, 1, 20);
    p.DrawSearchBar(query, false);
    p.DrawSearchBar(query, true);
    FilterEmptyQuery(names, |names|);
    assert p.filteredIndices == [0, 1, 2];
    assert p.keyboardSelectionIndex == 1;
    p.OnKeyDown(Escape);
    assert p.closed && p.selections == [];
  }

  /** The host toggle reports a row's highlighted state flipped by a click, so
      an unclicked selected row reports true. Clicking row 2 with option 1
      selected: rows 1 and 2 report true, and only row 2 commits. With no click
      and two rows listed, the selected row reporting true commits nothing. */
  method ClickRows(names: seq<string>, query: string)
    requires |names| == 3 && 0 < |query| <= MaxSearchLen
    requires Filter(names, query, |names|) == [0, 1]
  {
    var p := new SearchableEnumPopup(names, 1, 20);
    ListPassClick(p.filteredIndices, i => i == 1 || i == 2, 1, 2);
    p.DrawEnumList(0, i => i == 1 || i == 2, OtherEvent);
    assert p.selections == [2] && p.currentIndex == 2 && p.closed;

    var q := new SearchableEnumPopup(names, 1, 20);
    q.DrawSearchBar(query, false);
    ListPassOneRow(q.filteredIndices, i => i == 1, 1, 1);
    q.DrawEnumList(0, i => i == 1, OtherEvent);
    assert q.selections == [] && q.currentIndex == 1 && !q.closed;
  }

  /** Two options, opened with option 1 selected. In a pass without a click
      the selected row reports true, yet Escape ends the pass with no callback
      and Return with exactly one. */
  method PassWithoutClick(names: seq<string>)
    requires |names| == 2
  {
    var p := new SearchableEnumPopup(names, 1, 20);
    p.OnGUI(KeyDown(Escape), "", false, 0, i => i == 1);
    assert p.selections == [] && p.closed;

    var q := new SearchableEnumPopup(names, 1, 20);
    q.OnGUI(KeyDown(Return), "", false, 0, i => i == 1);
    assert q.selections == [1] && q.closed;
  }

  /** A search with no match: Escape then ends the pass without a callback,
      whatever the toggle function says about rows that are not listed. */
  method EscapeWithNoMatch(names: seq<string>, query: string)
    requires |names| == 2 && 0 < |query| <= MaxSearchLen
    requires Filter(names, query, |names|) == []
  {
    var p := new SearchableEnumPopup(names, 1, 20);
    p.DrawSearchBar(query, false);
    p.OnGUI(KeyDown(Escape), query, false, 0, i => true);
    assert p.selections == [] && p.closed;
  }

  /** One option, opened with it selected. Return commits it, and the row loop
      of the same pass, whose lone selected row reports true, commits it again:
      `onSelect` runs twice in one pass. */
  method ReturnThenLoneRow(names: seq<string>)
    requires |names| == 1
  {
    var p := new SearchableEnumPopup(names, 0, 20);
    p.OnKeyDown(Return);
    assert p.selections == [0];
    p.DrawSearchBar("", false);
    ListPassOneRow(p.filteredIndices, i => true, 0, 0);
    p.DrawEnumList(0, i => true, OtherEvent);
    assert p.selections == [0, 0] && p.closed;
  }

  /** One option, opened with it selected. Escape closes without a callback,
      but the row loop of the same pass still commits the lone selected row. */
  method EscapeThenLoneRow(names: seq<string>)
    requires |names| == 1
  {
    var p := new SearchableEnumPopup(names, 0, 20);
    p.OnKeyDown(Escape);
    assert p.selections == [] && p.closed;
    p.DrawSearchBar("", false);
    ListPassOneRow(p.filteredIndices, i => true, 0, 0);
    p.DrawEnumList(0, i => true, OtherEvent);
    assert p.selections == [0];
  }
}
