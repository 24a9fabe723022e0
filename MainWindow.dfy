/** The list operations of the main window: the clamp on reported progress,
    the recent-files list (`update_recent_files`, `clear_recent_files`) and
    the list of return-column check boxes (`filter_return_columns`,
    `get_selected_return_columns`). */
module MainWindow {
  import opened Tables

  function Max(a: int, b: int): int {
    if a >= b then a else b
  }

  /** `max(0, min(100, percent))` in `on_update_progress`. */
  function ClampPercent(percent: int): (p: int)
    ensures 0 <= p <= 100
    ensures 0 <= percent <= 100 ==> p == percent
    ensures percent < 0 ==> p == 0
    ensures percent > 100 ==> p == 100
  {
    Max(0, Min(100, percent))
  }

  // ---------------------------------------------------------------------
  // Recent files

  /** A moment as `datetime.now()` gives it; the clock is a parameter. */
  type Time = int

  /** One `(path, time)` pair of `recent_files`. */
  datatype RecentEntry = RecentEntry(path: string, time: Time)

  /** Python's `s[:n]`: the first `n` elements, or all but the last `-n` when `n`
      is negative. */
  function PyPrefix<T>(s: seq<T>, n: int): (r: seq<T>)
    ensures r <= s
    ensures n >= 0 ==> |r| == Min(n, |s|)
    ensures n < 0 ==> |r| == Max(0, |s| + n)
  {
    if n >= 0 then s[..Min(n, |s|)] else s[..Max(0, |s| + n)]
  }

  /** `[(path, time) for path, time in entries if path != file_path]`. */
  function WithoutPath(entries: seq<RecentEntry>, path: string): (r: seq<RecentEntry>)
    ensures forall e :: e in r <==> e in entries && e.path != path
    ensures forall k :: 0 <= k < |r| ==> r[k].path != path
    ensures |r| <= |entries|
  {
    if entries == [] then []
    else (if entries[0].path != path then [entries[0]] else []) + WithoutPath(entries[1..], path)
  }

  /** The filter keeps the relative order: filtering a concatenation filters each
      part and concatenates the results. */
  lemma {:induction false} WithoutPathAppend(a: seq<RecentEntry>, b: seq<RecentEntry>, path: string)
    ensures WithoutPath(a + b, path) == WithoutPath(a, path) + WithoutPath(b, path)
  {
    if a != [] {
      var head := if a[0].path != path then [a[0]] else [];
      assert (a + b)[0] == a[0] && (a + b)[1..] == a[1..] + b;
      WithoutPathAppend(a[1..], b, path);
      var x, y := WithoutPath(a[1..], path), WithoutPath(b, path);
      assert WithoutPath(a + b, path) == head + (x + y);
      assert WithoutPath(a, path) == head + x;
      assert head + (x + y) == (head + x) + y;
    } else {
      assert a + b == b;
    }
  }

  /** A list without `path` passes the filter unchanged. */
  lemma {:induction false} WithoutPathAbsent(entries: seq<RecentEntry>, path: string)
    requires forall k :: 0 <= k < |entries| ==> entries[k].path != path
    ensures WithoutPath(entries, path) == entries
  {
    if entries != [] {
      WithoutPathAbsent(entries[1..], path);
    }
  }

  /** What `update_recent_files(file_path)` leaves in `recent_files`. */
  function MruUpdate(entries: seq<RecentEntry>, path: string, now: Time, maxRecent: int): (r: seq<RecentEntry>)
    ensures maxRecent >= 0 ==> |r| == Min(maxRecent, |WithoutPath(entries, path)| + 1)
    ensures maxRecent < 0 ==> |r| == Max(0, |WithoutPath(entries, path)| + 1 + maxRecent)
    ensures maxRecent >= 1 ==> r[0] == RecentEntry(path, now)
    ensures |r| > 0 ==> r[0] == RecentEntry(path, now)
    ensures forall k :: 0 < k < |r| ==> r[k].path != path
    ensures |r| > 0 ==> r[1..] <= WithoutPath(entries, path)
  {
    var rest := WithoutPath(entries, path);
    var front := [RecentEntry(path, now)] + rest;
    var r := PyPrefix(front, maxRecent);
    assert |front| == |rest| + 1 && front[0] == RecentEntry(path, now);
    assert front[1..] == rest;
    assert |r| > 0 ==> r[1..] <= rest;
    r
  }

  /** No two entries name the same file. */
  predicate DistinctPaths(entries: seq<RecentEntry>) {
    forall i, j :: 0 <= i < j < |entries| ==> entries[i].path != entries[j].path
  }

  /** The filter never duplicates a path. */
  lemma {:induction false} WithoutPathDistinct(entries: seq<RecentEntry>, path: string)
    requires DistinctPaths(entries)
    ensures DistinctPaths(WithoutPath(entries, path))
  {
    if entries != [] {
      WithoutPathDistinct(entries[1..], path);
      var rest := WithoutPath(entries[1..], path);
      if entries[0].path != path {
        forall k | 0 <= k < |rest| ensures rest[k].path != entries[0].path {
          assert rest[k] in entries[1..];
        }
      }
    }
  }

  /** An update keeps the paths distinct, whatever the list held before: a path
      that was listed twice (as `load_settings` can produce) stays at most once
      when it is the one being opened. */
  lemma MruUpdateDistinct(entries: seq<RecentEntry>, path: string, now: Time, maxRecent: int)
    requires DistinctPaths(entries)
    ensures DistinctPaths(MruUpdate(entries, path, now, maxRecent))
  {
    WithoutPathDistinct(entries, path);
    var front := [RecentEntry(path, now)] + WithoutPath(entries, path);
    var r := MruUpdate(entries, path, now, maxRecent);
    forall i, j | 0 <= i < j < |r| ensures r[i].path != r[j].path {
      assert r[i] == front[i] && r[j] == front[j];
    }
  }

  /** Opening the file already at the front of a list that holds it once only
      refreshes its time. */
  lemma MruReopenFront(entries: seq<RecentEntry>, now: Time, maxRecent: int)
    requires |entries| > 0 && DistinctPaths(entries)
    requires 0 < maxRecent && |entries| <= maxRecent
    ensures MruUpdate(entries, entries[0].path, now, maxRecent) == [RecentEntry(entries[0].path, now)] + entries[1..]
  {
    var path := entries[0].path;
    var tail := entries[1..];
    assert entries == [entries[0]] + tail;
    WithoutPathAppend([entries[0]], tail, path);
    assert WithoutPath([entries[0]], path) == [] + WithoutPath([], path);
    forall k | 0 <= k < |tail| ensures tail[k].path != path {
      assert tail[k] == entries[k + 1];
    }
    WithoutPathAbsent(tail, path);
    var front := [RecentEntry(path, now)] + tail;
    assert WithoutPath(entries, path) == tail;
    assert PyPrefix(front, maxRecent) == front;
  }

  /** The `recent_files` field of the main window and the `MaxRecentFiles`
      setting it is cut to. */
  class RecentFiles {
    var entries: seq<RecentEntry>
    const maxRecent: int

    constructor(maxRecent: int)
      ensures entries == [] && this.maxRecent == maxRecent
    {
      entries := [];
      this.maxRecent := maxRecent;
    }

    /** `update_recent_files(file_path)` at time `now`: drop the file's old
        entries, put it in front, cut the list to `max_recent_files`. */
    method Update(path: string, now: Time)
      modifies this
      ensures entries == MruUpdate(old(entries), path, now, maxRecent)
    {
      entries := WithoutPath(entries, path);
      entries := [RecentEntry(path, now)] + entries;
      entries := PyPrefix(entries, maxRecent);
    }

    /** `clear_recent_files`. */
    method Clear()
      modifies this
      ensures entries == []
    {
      entries := [];
    }
  }

  // ---------------------------------------------------------------------
  // Return columns

  /** One check box of `return_columns_list`: its label, whether it is ticked,
      and whether the list item is hidden. */
  datatype ColumnItem = ColumnItem(text: string, checked: bool, hidden: bool)

  /** `text.lower() not in widget.text().lower()`: the item is hidden exactly
      when its label does not contain the filter text, ignoring case. */
  predicate HiddenBy(name: string, text: string) {
    !Contains(Lower(name), Lower(text))
  }

  /** The items after `filter_return_columns(text)`. */
  function FilterItems(items: seq<ColumnItem>, text: string): (r: seq<ColumnItem>)
    ensures |r| == |items|
    ensures forall k :: 0 <= k < |items| ==>
              && r[k].text == items[k].text && r[k].checked == items[k].checked
              && (r[k].hidden <==> HiddenBy(items[k].text, text))
  {
    seq(|items|, k requires 0 <= k < |items| => items[k].(hidden := HiddenBy(items[k].text, text)))
  }

  /** Only the last filter counts: filtering never accumulates. */
  lemma FilterLastWins(items: seq<ColumnItem>, first: string, second: string)
    ensures FilterItems(FilterItems(items, first), second) == FilterItems(items, second)
  {
    var a := FilterItems(FilterItems(items, first), second);
    var b := FilterItems(items, second);
    assert forall k :: 0 <= k < |a| ==> a[k] == b[k];
  }

  /** The empty filter shows every item. */
  lemma FilterEmptyShowsAll(items: seq<ColumnItem>)
    ensures forall k :: 0 <= k < |items| ==> !FilterItems(items, "")[k].hidden
  {
    forall k | 0 <= k < |items| ensures !HiddenBy(items[k].text, "") {
      assert Lower("") == [];
      assert [] <= Lower(items[k].text);
    }
  }

  /** `get_selected_return_columns`: the labels of the visible, ticked items, in
      list order. */
  function Selected(items: seq<ColumnItem>): (labels: seq<string>)
    ensures |labels| <= |items|
  {
    if items == [] then []
    else (if !items[0].hidden && items[0].checked then [items[0].text] else []) + Selected(items[1..])
  }

  /** A label is selected exactly when some visible, ticked item carries it. */
  lemma {:induction false} SelectedMembers(items: seq<ColumnItem>, x: string)
    ensures x in Selected(items) <==> exists k :: 0 <= k < |items| && items[k].text == x && !items[k].hidden && items[k].checked
  {
    if items != [] {
      SelectedMembers(items[1..], x);
      if exists k :: 0 <= k < |items[1..]| && items[1..][k].text == x && !items[1..][k].hidden && items[1..][k].checked {
        var k :| 0 <= k < |items[1..]| && items[1..][k].text == x && !items[1..][k].hidden && items[1..][k].checked;
        assert items[k + 1] == items[1..][k];
      }
      if exists k :: 0 <= k < |items| && items[k].text == x && !items[k].hidden && items[k].checked {
        var k :| 0 <= k < |items| && items[k].text == x && !items[k].hidden && items[k].checked;
        if k > 0 {
          assert items[1..][k - 1] == items[k];
        }
      }
    }
  }

  /** The labels come in list order: selecting from a concatenation selects from
      each part. */
  lemma {:induction false} SelectedAppend(a: seq<ColumnItem>, b: seq<ColumnItem>)
    ensures Selected(a + b) == Selected(a) + Selected(b)
  {
    if a == [] {
      assert a + b == b;
    } else {
      var head := if !a[0].hidden && a[0].checked then [a[0].text] else [];
      assert (a + b)[0] == a[0] && (a + b)[1..] == a[1..] + b;
      SelectedAppend(a[1..], b);
      var x, y := Selected(a[1..]), Selected(b);
      assert Selected(a + b) == head + (x + y);
      assert head + (x + y) == (head + x) + y;
    }
  }

  /** After a filter, every selected label contains the filter text, ignoring case. */
  lemma SelectedAfterFilter(items: seq<ColumnItem>, text: string, x: string)
    requires x in Selected(FilterItems(items, text))
    ensures Contains(Lower(x), Lower(text))
  {
    var filtered := FilterItems(items, text);
    SelectedMembers(filtered, x);
    var k :| 0 <= k < |filtered| && filtered[k].text == x && !filtered[k].hidden && filtered[k].checked;
  }

  /** The `return_columns_list` widget: one check box per column of the checked
      lookup tables. */
  class ReturnColumnList {
    var items: seq<ColumnItem>

    /** `update_return_columns`: a fresh, unticked, visible box per label. */
    constructor(labels: seq<string>)
      ensures |items| == |labels|
      ensures forall k :: 0 <= k < |labels| ==> items[k] == ColumnItem(labels[k], false, false)
    {
      items := seq(|labels|, k requires 0 <= k < |labels| => ColumnItem(labels[k], false, false));
    }

    /** `filter_return_columns(text)`: set every item's hidden flag in turn. */
    method Filter(text: string)
      modifies this
      ensures items == FilterItems(old(items), text)
    {
      for i := 0 to |items|
        invariant |items| == |old(items)|
        invariant forall k :: 0 <= k < i ==> items[k] == old(items)[k].(hidden := HiddenBy(old(items)[k].text, text))
        invariant forall k :: i <= k < |items| ==> items[k] == old(items)[k]
      {
        items := items[i := items[i].(hidden := HiddenBy(items[i].text, text))];
      }
    }
  }
}
