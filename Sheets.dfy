/** Loaded sheets: header promotion at load time (`load_file`), the manual
    header override (`update_sheet_header`) and row cleaning (`clean_data`).
    A `Sheet` is one entry `{'data': df, 'detected_header': h}` of
    `loaded_files[file_path]`; its `data` is replaced in place. */
module Sheets {
  import opened Tables
  import opened HeaderDetection

  /** What load time stores for one sheet. */
  datatype SheetData = SheetData(data: Table, detectedHeader: nat)

  /** Make row `h` the column labels (their string form) and drop that row only;
      the rows before it stay where they were. */
  function PromoteHeader(t: Table, h: nat): (p: Table)
    requires h < |t.rows|
    ensures |p.columns| == |t.rows[h]|
    ensures forall c :: 0 <= c < |p.columns| ==> p.columns[c] == StrForm(t.rows[h][c])
    ensures |p.rows| == |t.rows| - 1
    ensures forall r :: 0 <= r < h ==> p.rows[r] == t.rows[r]
    ensures forall r :: h <= r < |p.rows| ==> p.rows[r] == t.rows[r + 1]
    ensures Rectangular(t) ==> Rectangular(p)
  {
    Table(seq(|t.rows[h]|, c requires 0 <= c < |t.rows[h]| => StrForm(t.rows[h][c])),
          t.rows[..h] + t.rows[h + 1..])
  }

  /** One sheet of `load_file`: detect the header row; when it is not the first
      row, promote it, otherwise keep the labels pandas read. */
  function LoadSheet(t: Table, stats: Row -> real): (r: Result<SheetData, DetectError>)
    requires Rectangular(t)
    ensures r.Err? <==> DetectSpec(t, stats).Err?
    ensures r.Err? ==> r == Err(DetectSpec(t, stats).error)
    ensures r.Ok? ==> r.value.detectedHeader == DetectSpec(t, stats).value
    ensures r.Ok? ==> r.value.detectedHeader < Min(MaxHeaderRows, |t.rows|)
    ensures r.Ok? ==> Rectangular(r.value.data)
    ensures r.Ok? && r.value.detectedHeader == 0 ==> r.value.data == t
    ensures r.Ok? && r.value.detectedHeader > 0 ==>
              && |r.value.data.rows| == |t.rows| - 1
              && r.value.data.rows[..r.value.detectedHeader] == t.rows[..r.value.detectedHeader]
              && |r.value.data.columns| == |t.columns|
              && forall c :: 0 <= c < |t.columns| ==>
                   r.value.data.columns[c] == StrForm(t.rows[r.value.detectedHeader][c])
    ensures r.Ok? && r.value.detectedHeader > 0 ==> r.value.data == PromoteHeader(t, r.value.detectedHeader)
  {
    match DetectSpec(t, stats)
    case Err(e) => Err(e)
    case Ok(h) => Ok(SheetData(if h > 0 then PromoteHeader(t, h) else t, h))
  }

  /** `load_file`: every sheet of the workbook is loaded in order; the first sheet
      whose detection raises makes the whole file fail and nothing is kept. */
  method LoadFile(sheets: seq<(string, Table)>, stats: Row -> real)
    returns (r: Result<seq<(string, Sheet)>, DetectError>)
    requires forall k :: 0 <= k < |sheets| ==> Rectangular(sheets[k].1)
    ensures r.Err? <==> exists k :: 0 <= k < |sheets| && LoadSheet(sheets[k].1, stats).Err?
    ensures r.Err? ==> exists k :: 0 <= k < |sheets| && LoadSheet(sheets[k].1, stats) == Err(r.error)
                                   && forall j :: 0 <= j < k ==> LoadSheet(sheets[j].1, stats).Ok?
    ensures r.Ok? ==> |r.value| == |sheets|
    ensures r.Ok? ==> forall k :: 0 <= k < |sheets| ==>
              && r.value[k].0 == sheets[k].0
              && fresh(r.value[k].1)
              && r.value[k].1.Valid()
              && SheetData(r.value[k].1.data, r.value[k].1.detectedHeader) == LoadSheet(sheets[k].1, stats).value
  {
    var loaded: seq<(string, Sheet)> := [];
    for k := 0 to |sheets|
      invariant |loaded| == k
      invariant forall j :: 0 <= j < k ==> LoadSheet(sheets[j].1, stats).Ok?
      invariant forall j :: 0 <= j < k ==>
                  && loaded[j].0 == sheets[j].0
                  && fresh(loaded[j].1)
                  && loaded[j].1.Valid()
                  && SheetData(loaded[j].1.data, loaded[j].1.detectedHeader) == LoadSheet(sheets[j].1, stats).value
    {
      var one := LoadOne(sheets[k].1, stats);
      if one.Err? {
        return Err(one.error);
      }
      loaded := loaded + [(sheets[k].0, one.value)];
    }
    r := Ok(loaded);
  }

  /** The body of the `load_file` loop for one sheet: detect, promote when the
      header is not the first row, and keep the sheet. */
  method LoadOne(df: Table, stats: Row -> real) returns (r: Result<Sheet, DetectError>)
    requires Rectangular(df)
    ensures r.Err? <==> LoadSheet(df, stats).Err?
    ensures r.Err? ==> LoadSheet(df, stats) == Err(r.error)
    ensures r.Ok? ==> && fresh(r.value) && r.value.Valid()
                      && SheetData(r.value.data, r.value.detectedHeader) == LoadSheet(df, stats).value
  {
    var detected := DetectHeaderRow(df, stats);
    if detected.Err? {
      return Err(detected.error);
    }
    var h := detected.value;
    var data := df;
    if h > 0 {
      data := PromoteHeader(df, h);
    }
    var sheet := new Sheet(SheetData(data, h));
    r := Ok(sheet);
  }

  /** The row `update_sheet_header` promotes for combo entry `index`: entry 0 is
      "smart detection" (the row detected at load time), entry k > 0 is row k - 1. */
  function HeaderChoice(index: nat, detectedHeader: nat): nat {
    if index == 0 then detectedHeader else index - 1
  }

  /** The combo built for a sheet whose data has `rows` rows offers, after
      "smart detection", one entry per candidate row, `min(10, rows)` of them;
      each of those entries selects a row the data holds. */
  lemma ComboEntriesNameRows(detectedHeader: nat, rows: nat)
    ensures forall index :: 1 <= index <= Min(MaxHeaderRows, rows) ==> HeaderChoice(index, detectedHeader) < rows
  {
    var n := Min(MaxHeaderRows, rows);
    assert n <= rows;
    forall index | 1 <= index <= n ensures HeaderChoice(index, detectedHeader) < rows {
    }
  }

  /** `df.dropna()`: the rows without a missing cell, in order. */
  function DropMissing(rows: seq<Row>): (r: seq<Row>)
    ensures forall x :: x in r ==> Complete(x)
    ensures forall x :: x in r <==> x in rows && Complete(x)
    ensures |r| <= |rows|
  {
    if rows == [] then []
    else (if Complete(rows[0]) then [rows[0]] else []) + DropMissing(rows[1..])
  }

  /** `dropna` keeps the order and the multiplicity of the complete rows: dropping
      from a concatenation drops from each part. */
  lemma {:induction false} DropMissingAppend(a: seq<Row>, b: seq<Row>)
    ensures DropMissing(a + b) == DropMissing(a) + DropMissing(b)
  {
    if a == [] {
      assert a + b == b;
    } else {
      var head := if Complete(a[0]) then [a[0]] else [];
      assert (a + b)[0] == a[0] && (a + b)[1..] == a[1..] + b;
      DropMissingAppend(a[1..], b);
      var x, y := DropMissing(a[1..]), DropMissing(b);
      assert DropMissing(a + b) == head + (x + y);
      assert head + (x + y) == (head + x) + y;
    }
  }

  /** Position of the first occurrence of `x` in `s`. */
  function FirstIndex(s: seq<Row>, x: Row): (i: nat)
    requires x in s
    ensures i < |s| && s[i] == x && x !in s[..i]
  {
    if s[0] == x then 0 else 1 + FirstIndex(s[1..], x)
  }

  lemma {:induction false} FirstIndexExtend(s: seq<Row>, y: Row, x: Row)
    requires x in s
    ensures FirstIndex(s + [y], x) == FirstIndex(s, x)
  {
    if s[0] != x {
      assert (s + [y])[1..] == s[1..] + [y];
      FirstIndexExtend(s[1..], y, x);
    }
  }

  /** `df.drop_duplicates()`: the first occurrence of every distinct row. */
  function DropDuplicates(rows: seq<Row>): (r: seq<Row>)
    ensures Distinct(r)
    ensures forall x :: x in r <==> x in rows
    ensures |r| <= |rows|
  {
    if rows == [] then []
    else
      var init := rows[..|rows| - 1];
      var last := rows[|rows| - 1];
      assert rows == init + [last];
      var kept := DropDuplicates(init);
      if last in init then kept else kept + [last]
  }

  /** The kept rows come in the order of their first occurrence in the input:
      duplicates are dropped, never the first copy, and nothing is reordered. */
  lemma {:induction false} DropDuplicatesKeepsFirstOccurrences(rows: seq<Row>)
    ensures forall i, j :: 0 <= i < j < |DropDuplicates(rows)| ==>
              FirstIndex(rows, DropDuplicates(rows)[i]) < FirstIndex(rows, DropDuplicates(rows)[j])
  {
    if rows != [] {
      var init := rows[..|rows| - 1];
      var last := rows[|rows| - 1];
      assert rows == init + [last];
      DropDuplicatesKeepsFirstOccurrences(init);
      var kept := DropDuplicates(init);
      forall x | x in init ensures FirstIndex(rows, x) == FirstIndex(init, x) {
        FirstIndexExtend(init, last, x);
      }
      if last !in init {
        assert FirstIndex(rows, last) == |rows| - 1;
      }
    }
  }

  /** The rows `clean_data` keeps. */
  function CleanRows(rows: seq<Row>): (r: seq<Row>)
    ensures forall x :: x in r <==> x in rows && Complete(x)
    ensures Distinct(r)
  {
    DropDuplicates(DropMissing(rows))
  }

  /** Cleaning row by row: a further row is kept, at the end, exactly when it is
      complete and did not occur before; so the cleaned rows keep input order. */
  lemma CleanRowsExtend(rows: seq<Row>, x: Row)
    ensures CleanRows(rows + [x]) == if Complete(x) && x !in rows then CleanRows(rows) + [x] else CleanRows(rows)
  {
    DropMissingAppend(rows, [x]);
    assert DropMissing([x]) == (if Complete(x) then [x] else []) + DropMissing([]);
    var d := DropMissing(rows);
    if Complete(x) {
      var dx := d + [x];
      assert dx[..|dx| - 1] == d && dx[|dx| - 1] == x;
    } else {
      assert d + [] == d;
    }
  }

  class Sheet {
    var data: Table
    const detectedHeader: nat

    /** Every stored frame keeps its shape. */
    ghost predicate Valid()
      reads this
    {
      Rectangular(data)
    }

    constructor(loaded: SheetData)
      requires Rectangular(loaded.data)
      ensures Valid()
      ensures data == loaded.data && detectedHeader == loaded.detectedHeader
    {
      data := loaded.data;
      detectedHeader := loaded.detectedHeader;
    }

    /** `update_sheet_header`: promote the chosen row of the CURRENT data and drop
        it.  A row index past the end raises before anything changes. */
    method UpdateHeader(index: nat) returns (ok: bool)
      requires Valid()
      modifies this
      ensures Valid()
      ensures ok <==> HeaderChoice(index, detectedHeader) < |old(data).rows|
      ensures ok ==> data == PromoteHeader(old(data), HeaderChoice(index, detectedHeader))
      ensures !ok ==> data == old(data)
    {
      var h := HeaderChoice(index, detectedHeader);
      if h >= |data.rows| {
        return false;
      }
      data := PromoteHeader(data, h);
      ok := true;
    }

    /** `clean_data` on this sheet: `dropna()` then `drop_duplicates()`. */
    method Clean()
      requires Valid()
      modifies this
      ensures Valid()
      ensures data == Table(old(data).columns, CleanRows(old(data).rows))
    {
      var kept := DropMissing(data.rows);
      kept := DropDuplicates(kept);
      SubRowsRectangular(data, kept);
      data := Table(data.columns, kept);
    }
  }

  /** Promoting the same index twice is not idempotent: the second promotion
      works on the already promoted data and removes one more row.  This is what
      picking the combo entry for row `h + 1` does right after a load that
      promoted row `h`. */
  lemma ReselectingHeaderDropsAnotherRow(t: Table, h: nat)
    requires h + 1 < |t.rows|
    ensures |PromoteHeader(PromoteHeader(t, h), h).rows| == |t.rows| - 2
    ensures PromoteHeader(PromoteHeader(t, h), h) != PromoteHeader(t, h)
  {
  }

  /** The combo's row entries count rows of the data as it is now.  After a load
      that promoted row `h > 0`, the entry labelled "row `h + 1`" promotes row
      `h` of the promoted data, which is the row that FOLLOWED the detected one
      in the sheet as parsed: its labels come from there. */
  lemma {:induction false} SmartReselectReadsNextRow(t: Table, h: nat)
    requires Rectangular(t) && 0 < h && h + 1 < |t.rows|
    ensures var again := PromoteHeader(PromoteHeader(t, h), HeaderChoice(h + 1, h));
            |again.columns| == |t.columns| &&
            forall c :: 0 <= c < |t.columns| ==> again.columns[c] == StrForm(t.rows[h + 1][c])
  {
    var once := PromoteHeader(t, h);
    assert HeaderChoice(h + 1, h) == h;
    assert once.rows[h] == t.rows[h + 1];
  }
}
