/** The pure pieces behind `SearchableEnumPopup`: the search filter, the list
    lookup and clamps it uses to place the cursor, the scroll-follow rule and
    the row-commit rule of one pass over the list. */
module EnumFilter {
  import IgnoreCase

  /** The search field accepts at most this many characters. */
  const MaxSearchLen := 16

  // ---------------------------------------------------------------------------
  // Mathf helpers

  function Max(a: int, b: int): (r: int)
    ensures r >= a && r >= b && (r == a || r == b)
  {
    if a >= b then a else b
  }

  function Min(a: int, b: int): (r: int)
    ensures r <= a && r <= b && (r == a || r == b)
  {
    if a <= b then a else b
  }

  /** `Mathf.Clamp(v, lo, hi)`. */
  function Clamp(v: int, lo: int, hi: int): (r: int)
    requires lo <= hi
    ensures lo <= r <= hi
    ensures lo <= v <= hi ==> r == v
    ensures v < lo ==> r == lo
    ensures v > hi ==> r == hi
  {
    if v < lo then lo else if v > hi then hi else v
  }

  /** `List<int>.IndexOf(x)`: the first position of `x` in `s`, or -1. */
  function IndexOf(s: seq<int>, x: int): (r: int)
    ensures r == -1 <==> x !in s
    ensures r != -1 ==> 0 <= r < |s| && s[r] == x
    ensures forall j :: 0 <= j < r ==> s[j] != x
  {
    if |s| == 0 then -1
    else if s[0] == x then 0
    else
      var r := IndexOf(s[1..], x);
      if r == -1 then -1 else r + 1
  }

  // ---------------------------------------------------------------------------
  // The search filter

  /** The test `UpdateFilteredList` applies to one option name: an empty query
      matches everything, otherwise the query must occur ignoring case. */
  predicate Matches(name: string, query: string): (b: bool)
    ensures b <==> IgnoreCase.Contains(name, query)
  {
    assert query == [] ==> IgnoreCase.MatchesAt(name, query, 0);
    query == [] || IgnoreCase.IndexOf(name, query) >= 0
  }

  /** The original indices in `[0, n)` whose names match `query`, in order. */
  function Filter(names: seq<string>, query: string, n: nat): (r: seq<int>)
    requires n <= |names|
    ensures |r| <= n
  {
    if n == 0 then []
    else Filter(names, query, n - 1) + (if Matches(names[n - 1], query) then [n - 1] else [])
  }

  ghost predicate StrictlyIncreasing(s: seq<int>)
  {
    forall a, b :: 0 <= a < b < |s| ==> s[a] < s[b]
  }

  ghost predicate Within(s: seq<int>, n: int)
  {
    forall a :: 0 <= a < |s| ==> 0 <= s[a] < n
  }

  /** The filtered list is strictly increasing, inside `[0, n)`, and no longer than `n`. */
  lemma {:induction false} FilterShape(names: seq<string>, query: string, n: nat)
    requires n <= |names|
    ensures StrictlyIncreasing(Filter(names, query, n))
    ensures Within(Filter(names, query, n), n)
    ensures |Filter(names, query, n)| <= n
  {
    if n > 0 {
      FilterShape(names, query, n - 1);
    }
  }

  /** An index is in the filtered list exactly when it is an option whose name
      contains the query ignoring case. */
  lemma {:induction false} FilterMembership(names: seq<string>, query: string, n: nat)
    requires n <= |names|
    ensures forall x :: x in Filter(names, query, n) <==>
      0 <= x < n && IgnoreCase.Contains(names[x], query)
  {
    if n > 0 {
      FilterMembership(names, query, n - 1);
      FilterShape(names, query, n - 1);
    }
  }

  /** Names a member of a non-empty sequence, so that the empty case of
      `IncreasingSameElements` can use its requires. */
  lemma FirstIsMember(s: seq<int>)
    ensures |s| > 0 ==> s[0] in s
  {
  }

  /** Two strictly increasing sequences with the same elements are equal. */
  lemma {:induction false} IncreasingSameElements(a: seq<int>, b: seq<int>)
    requires StrictlyIncreasing(a) && StrictlyIncreasing(b)
    requires forall x :: x in a <==> x in b
    ensures a == b
  {
    if |a| == 0 || |b| == 0 {
      FirstIsMember(a);
      FirstIsMember(b);
    } else {
      assert a[0] in a;
      assert a[0] in b;
      assert b[0] in b;
      assert b[0] in a;
      assert a[0] == b[0];
      forall x
        ensures x in a[1..] <==> x in b[1..]
      {
        if x in a[1..] {
          assert x in b && x != b[0];
        }
        if x in b[1..] {
          assert x in a && x != a[0];
        }
      }
      IncreasingSameElements(a[1..], b[1..]);
    }
  }

  /** The filtered list is THE strictly increasing list of the options whose
      names contain the query ignoring case: any other such list equals it. */
  lemma FilterIsExactly(names: seq<string>, query: string, s: seq<int>)
    requires StrictlyIncreasing(s)
    requires forall x :: x in s <==> 0 <= x < |names| && IgnoreCase.Contains(names[x], query)
    ensures s == Filter(names, query, |names|)
  {
    FilterShape(names, query, |names|);
    FilterMembership(names, query, |names|);
    IncreasingSameElements(s, Filter(names, query, |names|));
  }

  /** An empty query keeps every option: the list is `[0, 1, ..., n-1]`. */
  lemma {:induction false} FilterEmptyQuery(names: seq<string>, n: nat)
    requires n <= |names|
    ensures Filter(names, "", n) == seq(n, i => i)
  {
    if n > 0 {
      FilterEmptyQuery(names, n - 1);
      assert seq(n, i => i) == seq(n - 1, i => i) + [n - 1];
    }
  }

  // ---------------------------------------------------------------------------
  // Scroll-follow

  function Abs(x: int): int
  {
    if x < 0 then -x else x
  }

  /** The row `[rowTop, rowTop + h]` lies inside the viewport `[scrollY, scrollY + viewport]`. */
  predicate RowVisible(rowTop: int, h: int, scrollY: int, viewport: int)
  {
    scrollY <= rowTop && rowTop + h <= scrollY + viewport
  }

  /** The scroll offset `ScrollToSelection` moves to so that the row at
      `rowTop` of height `h` is in view. */
  function FollowScroll(rowTop: int, h: int, scrollY: int, viewport: int): (r: int)
    ensures h <= viewport ==> RowVisible(rowTop, h, r, viewport)
    ensures RowVisible(rowTop, h, scrollY, viewport) ==> r == scrollY
    ensures h <= viewport ==>
      forall s :: RowVisible(rowTop, h, s, viewport) ==> Abs(r - scrollY) <= Abs(s - scrollY)
  {
    if rowTop < scrollY then rowTop
    else if rowTop + h > scrollY + viewport then rowTop + h - viewport
    else scrollY
  }

  // ---------------------------------------------------------------------------
  // One pass over the list rows

  /** What a pass over the rows has done so far: the current selection and the
      arguments of the `onSelect` calls made, in order. */
  datatype ListOutcome = ListOutcome(current: int, commits: seq<int>)

  /** One row of `DrawEnumList`: row `i` commits when its toggle reports true
      and it was not already the selection, or it is the only row. */
  function RowStep(filtered: seq<int>, o: ListOutcome, i: int, toggled: bool): (r: ListOutcome)
    requires 0 <= i < |filtered|
    ensures r.commits == o.commits || r.commits == o.commits + [filtered[i]]
    ensures r.commits != o.commits <==> toggled && (filtered[i] != o.current || |filtered| == 1)
    ensures r.commits != o.commits ==> r.current == filtered[i]
    ensures r.commits == o.commits ==> r == o
  {
    var isSelected := filtered[i] == o.current;
    if toggled && (!isSelected || |filtered| == 1) then
      ListOutcome(filtered[i], o.commits + [filtered[i]])
    else o
  }

  /** A row step on a log that already holds earlier commits appends what the
      step appends on its own. */
  lemma RowStepAfterLog(filtered: seq<int>, current: int, log: seq<int>, commits: seq<int>, i: int, toggled: bool)
    requires 0 <= i < |filtered|
    ensures var o := RowStep(filtered, ListOutcome(current, commits), i, toggled);
      RowStep(filtered, ListOutcome(current, log + commits), i, toggled) == ListOutcome(o.current, log + o.commits)
  {
    assert log + (commits + [filtered[i]]) == log + commits + [filtered[i]];
  }

  /** The outcome after rows `0 .. n-1`, `toggled(i)` being the toggle's result
      for row `i`. */
  function ListPass(filtered: seq<int>, toggled: int -> bool, current: int, n: nat): (o: ListOutcome)
    requires n <= |filtered|
    ensures |o.commits| <= n
    ensures o.commits == [] ==> o.current == current
  {
    if n == 0 then ListOutcome(current, [])
    else RowStep(filtered, ListPass(filtered, toggled, current, n - 1), n - 1, toggled(n - 1))
  }

  /** Rows whose toggle reports false change nothing. */
  lemma {:induction false} ListPassQuiet(filtered: seq<int>, toggled: int -> bool, current: int, m: nat, n: nat)
    requires m <= n <= |filtered|
    requires forall i :: m <= i < n ==> !toggled(i)
    ensures ListPass(filtered, toggled, current, n) == ListPass(filtered, toggled, current, m)
  {
    if m < n {
      ListPassQuiet(filtered, toggled, current, m, n - 1);
    }
  }

  /** Every commit of a pass is an entry of the filtered list, and the selection
      it leaves is the one it started with or such an entry. */
  lemma {:induction false} ListPassCommitsFiltered(filtered: seq<int>, toggled: int -> bool, current: int, n: nat)
    requires n <= |filtered|
    ensures forall j :: 0 <= j < |ListPass(filtered, toggled, current, n).commits| ==>
      ListPass(filtered, toggled, current, n).commits[j] in filtered
    ensures ListPass(filtered, toggled, current, n).current == current ||
      ListPass(filtered, toggled, current, n).current in filtered
    ensures ListPass(filtered, toggled, current, n).commits != [] ==>
      ListPass(filtered, toggled, current, n).current ==
      ListPass(filtered, toggled, current, n).commits[|ListPass(filtered, toggled, current, n).commits| - 1]
  {
    if n > 0 {
      ListPassCommitsFiltered(filtered, toggled, current, n - 1);
    }
  }

  /** When only row `j` reports true, the pass commits row `j`'s original index
      exactly once if that row was not the selection or is the only row, and
      otherwise changes nothing. */
  lemma ListPassOneRow(filtered: seq<int>, toggled: int -> bool, current: int, j: nat)
    requires j < |filtered|
    requires toggled(j)
    requires forall i :: 0 <= i < |filtered| && i != j ==> !toggled(i)
    ensures var o := ListPass(filtered, toggled, current, |filtered|);
      if filtered[j] != current || |filtered| == 1
      then o == ListOutcome(filtered[j], [filtered[j]])
      else o == ListOutcome(current, [])
  {
    ListPassQuiet(filtered, toggled, current, 0, j);
    ListPassQuiet(filtered, toggled, current, j + 1, |filtered|);
  }

  /** While every row that reports true holds the selection and more than one
      row is listed, the pass commits nothing. */
  lemma {:induction false} ListPassKeepsSelection(filtered: seq<int>, toggled: int -> bool, current: int, n: nat)
    requires n <= |filtered| && |filtered| > 1
    requires forall i :: 0 <= i < n && toggled(i) ==> filtered[i] == current
    ensures ListPass(filtered, toggled, current, n) == ListOutcome(current, [])
  {
    if n > 0 {
      ListPassKeepsSelection(filtered, toggled, current, n - 1);
    }
  }

  /** The two passes that commit nothing: no row reports true, or, with more
      than one row listed, only rows that hold the selection do. */
  lemma ListPassNoCommit(filtered: seq<int>, toggled: int -> bool, current: int)
    ensures (forall i :: 0 <= i < |filtered| ==> !toggled(i)) ==>
      ListPass(filtered, toggled, current, |filtered|).commits == []
    ensures (|filtered| > 1 && forall i :: 0 <= i < |filtered| && toggled(i) ==> filtered[i] == current) ==>
      ListPass(filtered, toggled, current, |filtered|).commits == []
  {
    if forall i :: 0 <= i < |filtered| ==> !toggled(i) {
      ListPassQuiet(filtered, toggled, current, 0, |filtered|);
    }
    if |filtered| > 1 && forall i :: 0 <= i < |filtered| && toggled(i) ==> filtered[i] == current {
      ListPassKeepsSelection(filtered, toggled, current, |filtered|);
    }
  }

  /** A click on row `j`, which is not the selection. Besides row `j`, only
      rows above it that hold the selection may report true (an unclicked
      selected row reports its highlighted state). The pass then selects and
      commits row `j`'s original index exactly once. */
  lemma ListPassClick(filtered: seq<int>, toggled: int -> bool, current: int, j: nat)
    requires j < |filtered| && toggled(j) && filtered[j] != current
    requires forall i :: 0 <= i < |filtered| && i != j && toggled(i) ==> i < j && filtered[i] == current
    ensures ListPass(filtered, toggled, current, |filtered|) == ListOutcome(filtered[j], [filtered[j]])
  {
    if |filtered| > 1 {
      ListPassKeepsSelection(filtered, toggled, current, j);
    } else {
      assert j == 0;
    }
    ListPassQuiet(filtered, toggled, current, j + 1, |filtered|);
  }

  /** A pass in which at most one row reports true commits at most once. */
  lemma ListPassAtMostOnce(filtered: seq<int>, toggled: int -> bool, current: int)
    requires forall i, k :: 0 <= i < k < |filtered| ==> !(toggled(i) && toggled(k))
    ensures |ListPass(filtered, toggled, current, |filtered|).commits| <= 1
  {
    if j :| 0 <= j < |filtered| && toggled(j) {
      ListPassOneRow(filtered, toggled, current, j);
    } else {
      ListPassQuiet(filtered, toggled, current, 0, |filtered|);
    }
  }
}
