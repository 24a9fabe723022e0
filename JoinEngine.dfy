/** `VLOOKUPThread.run`: left-join the main table with each lookup table in
    turn, fill every gap with "N/A" after each step, report progress, and keep
    the main key column plus the requested return columns.

    The merge is pandas' `merge(how='left', left_on=main, right_on=lookup,
    suffixes=('', '_table{i}'))`, stated by its observable result. */
module JoinEngine {
  import opened Tables
  import opened Sheets

  /** The exceptions a run can end with: a key label that is absent (KeyError),
      a key label that names several columns, and a suffix that would make two
      lookup labels equal (MergeError). */
  datatype JoinError = KeyNotFound(name: string) | LabelNotUnique(name: string) | SuffixCollision

  /** The signals a run emits, in order. */
  datatype Event = Progress(percent: int) | ResultReady(table: Table) | ErrorOccurred(error: JoinError)

  /** The value `fillna` writes into every gap. */
  const NotAvailable: Cell := Str("N/A")

  /** A merge key looked up among the labels: the one position with that label. */
  function ColumnIndex(columns: seq<string>, name: string): (r: Result<nat, JoinError>)
    ensures r.Ok? ==> r.value < |columns| && columns[r.value] == name
    ensures r.Ok? ==> forall p :: 0 <= p < |columns| && columns[p] == name ==> p == r.value
    ensures r == Err(KeyNotFound(name)) <==> name !in columns
    ensures r.Err? ==> r.error == KeyNotFound(name) || r.error == LabelNotUnique(name)
  {
    var ps := Positions(columns, name);
    if |ps| == 0 then Err(KeyNotFound(name))
    else if |ps| > 1 then Err(LabelNotUnique(name))
    else Ok(ps[0])
  }

  /** `df[name] = df[name].astype(str)` with `name` present: every column with
      that label holds the string forms of its cells, every other cell is kept. */
  function StringifyLabel(t: Table, name: string): (s: Table)
    requires Rectangular(t)
    ensures s.columns == t.columns && |s.rows| == |t.rows| && Rectangular(s)
    ensures forall r, c :: 0 <= r < |t.rows| && 0 <= c < |t.columns| ==>
              s.rows[r][c] == if t.columns[c] == name then Stringified(t.rows[r][c]) else t.rows[r][c]
  {
    Table(t.columns, seq(|t.rows|, r requires 0 <= r < |t.rows| =>
      seq(|t.rows[r]|, c requires 0 <= c < |t.rows[r]| =>
        if t.columns[c] == name then Stringified(t.rows[r][c]) else t.rows[r][c])))
  }

  /** Positions of the lookup columns that enter the result: all of them, except
      the lookup key when it has the main key's name (pandas then keeps the left
      key column only). */
  function KeptPositions(width: nat, lp: nat, sameName: bool): (ps: seq<nat>)
    requires lp < width
    ensures forall k :: 0 <= k < |ps| ==> ps[k] < width
    ensures forall p :: 0 <= p < width ==> (p in ps <==> !(sameName && p == lp))
    ensures |ps| == if sameName then width - 1 else width
    ensures forall a, b :: 0 <= a < b < |ps| ==> ps[a] < ps[b]
  {
    var ps := seq(if sameName then width - 1 else width, k requires 0 <= k < width =>
                  if sameName && k >= lp then k + 1 else k);
    KeptPositionsCover(ps, width, lp, sameName);
    ps
  }

  lemma KeptPositionsCover(ps: seq<nat>, width: nat, lp: nat, sameName: bool)
    requires lp < width && |ps| == if sameName then width - 1 else width
    requires forall k :: 0 <= k < |ps| ==> ps[k] == if sameName && k >= lp then k + 1 else k
    ensures forall p :: 0 <= p < width && !(sameName && p == lp) ==> p in ps
  {
    forall p | 0 <= p < width && !(sameName && p == lp) ensures p in ps {
      assert ps[if sameName && p > lp then p - 1 else p] == p;
    }
  }

  /** `_table{i}`: the text "_table" followed by the decimal digits of `i`. */
  function Suffix(i: nat): (s: string)
    ensures |s| > 6 && s[..6] == "_table"
    ensures forall k :: 6 <= k < |s| ==> '0' <= s[k] <= '9'
    ensures s[6..] == NatToString(i)
  {
    "_table" + NatToString(i)
  }

  /** Different steps append different suffixes. */
  lemma SuffixInjective(i: nat, j: nat)
    requires Suffix(i) == Suffix(j)
    ensures i == j
  {
    assert Suffix(i)[6..] == Suffix(j)[6..];
    NatToStringInjective(i, j);
  }

  /** The label a lookup column gets: it is changed exactly when the accumulated
      result already has a column of that name, and then only by appending the
      step's suffix. */
  function RenameLabel(name: string, accColumns: seq<string>, i: nat): (r: string)
    ensures r == name <==> name !in accColumns
    ensures |name| <= |r| && r[..|name|] == name
    ensures name in accColumns ==> r[|name|..] == Suffix(i)
  {
    if name in accColumns then name + Suffix(i) else name
  }

  /** The labels at the given positions, in that order. */
  function LabelsAt(columns: seq<string>, ps: seq<nat>): (ls: seq<string>)
    requires forall k :: 0 <= k < |ps| ==> ps[k] < |columns|
    ensures |ls| == |ps| && forall k :: 0 <= k < |ps| ==> ls[k] == columns[ps[k]]
  {
    seq(|ps|, k requires 0 <= k < |ps| => columns[ps[k]])
  }

  /** Every label as `RenameLabel` turns it. */
  function Renamed(original: seq<string>, accColumns: seq<string>, i: nat): (ls: seq<string>)
    ensures |ls| == |original| && forall k :: 0 <= k < |original| ==> ls[k] == RenameLabel(original[k], accColumns, i)
  {
    seq(|original|, k requires 0 <= k < |original| => RenameLabel(original[k], accColumns, i))
  }

  /** pandas' check on the right-hand labels: a renamed label equals an earlier
      label although the original labels there were not already equal. */
  predicate CreatesDuplicate(original: seq<string>, renamed: seq<string>)
    requires |original| == |renamed|
  {
    exists p :: 0 <= p < |renamed| && renamed[p] in renamed[..p] && original[p] !in original[..p]
  }

  /** Some position holds the first occurrence of its label. */
  lemma {:induction false} FirstOccurrence(s: seq<string>, p: nat)
    requires p < |s|
    ensures exists f :: 0 <= f <= p && s[f] == s[p] && s[f] !in s[..f]
    decreases p
  {
    if s[p] in s[..p] {
      var q :| 0 <= q < p && s[q] == s[p];
      FirstOccurrence(s, q);
    } else {
      assert s[p] !in s[..p];
    }
  }

  lemma SuffixedDiffers(a: string, b: string, suffix: string)
    requires a + suffix == b + suffix
    ensures a == b
  {
    assert a == (a + suffix)[..|a|];
    assert b == (b + suffix)[..|b|];
  }

  /** A suffixed label equal to another lookup label that the accumulated
      result lacks. */
  predicate SuffixMeetsLabel(original: seq<string>, accColumns: seq<string>, i: nat, a: int, b: int) {
    0 <= a < |original| && 0 <= b < |original| && original[a] in accColumns
    && original[b] !in accColumns && original[b] == original[a] + Suffix(i)
  }

  /** The suffixes collide exactly when one lookup label that the accumulated
      result also has, with `_table{i}` appended, is another lookup label that
      the accumulated result does not have. */
  lemma CreatesDuplicateMeans(original: seq<string>, accColumns: seq<string>, i: nat)
    ensures CreatesDuplicate(original, Renamed(original, accColumns, i)) <==>
              exists a, b :: SuffixMeetsLabel(original, accColumns, i, a, b)
  {
    if CreatesDuplicate(original, Renamed(original, accColumns, i)) {
      CollisionHasWitnesses(original, accColumns, i);
    }
    if exists a, b :: SuffixMeetsLabel(original, accColumns, i, a, b) {
      var a, b :| SuffixMeetsLabel(original, accColumns, i, a, b);
      WitnessesCollide(original, accColumns, i, a, b);
    }
  }

  lemma CollisionHasWitnesses(original: seq<string>, accColumns: seq<string>, i: nat)
    requires CreatesDuplicate(original, Renamed(original, accColumns, i))
    ensures exists a, b :: SuffixMeetsLabel(original, accColumns, i, a, b)
  {
    var renamed := Renamed(original, accColumns, i);
    var p :| 0 <= p < |renamed| && renamed[p] in renamed[..p] && original[p] !in original[..p];
    var q := EarlierEqual(original, renamed, p);
    SameRenamingMeets(original, accColumns, i, p, q);
  }

  /** The earlier position a duplicate in `renamed` repeats, where `original` differs. */
  lemma EarlierEqual(original: seq<string>, renamed: seq<string>, p: nat) returns (q: nat)
    requires p < |original| == |renamed|
    requires renamed[p] in renamed[..p] && original[p] !in original[..p]
    ensures q < p && renamed[q] == renamed[p] && original[q] != original[p]
  {
    var before := renamed[..p];
    var k :| 0 <= k < |before| && before[k] == renamed[p];
    q := k;
    assert original[..p][q] == original[q];
  }

  /** Two different labels renamed alike: one gained the suffix and became the other. */
  lemma SameRenamingMeets(original: seq<string>, accColumns: seq<string>, i: nat, p: nat, q: nat)
    requires p < |original| && q < |original| && original[p] != original[q]
    requires RenameLabel(original[p], accColumns, i) == RenameLabel(original[q], accColumns, i)
    ensures SuffixMeetsLabel(original, accColumns, i, p, q) || SuffixMeetsLabel(original, accColumns, i, q, p)
  {
    var x, y := original[p], original[q];
    if x in accColumns && y in accColumns {
      SuffixedDiffers(x, y, Suffix(i));
      assert false;
    } else if x in accColumns && y !in accColumns {
      assert SuffixMeetsLabel(original, accColumns, i, p, q);
    } else if x !in accColumns && y in accColumns {
      assert SuffixMeetsLabel(original, accColumns, i, q, p);
    } else {
      assert false;
    }
  }

  lemma WitnessesCollide(original: seq<string>, accColumns: seq<string>, i: nat, a: int, b: int)
    requires SuffixMeetsLabel(original, accColumns, i, a, b)
    ensures CreatesDuplicate(original, Renamed(original, accColumns, i))
  {
    var renamed := Renamed(original, accColumns, i);
    FirstOccurrence(original, a);
    FirstOccurrence(original, b);
    var fa :| 0 <= fa <= a && original[fa] == original[a] && original[fa] !in original[..fa];
    var fb :| 0 <= fb <= b && original[fb] == original[b] && original[fb] !in original[..fb];
    assert renamed[fa] == original[a] + Suffix(i) == renamed[fb];
    assert |original[fb]| > |original[fa]|;
    var p := if fa < fb then fb else fa;
    var q := if fa < fb then fa else fb;
    assert renamed[..p][q] == renamed[p];
  }

  /** The positions of the lookup rows whose key cell equals `key`. */
  function Matches(rows: seq<Row>, lp: nat, key: Cell): (ms: seq<nat>)
    requires forall r :: 0 <= r < |rows| ==> lp < |rows[r]|
    ensures |ms| <= |rows|
    ensures forall k :: 0 <= k < |ms| ==> ms[k] < |rows| && rows[ms[k]][lp] == key
    ensures (forall r :: 0 <= r < |rows| ==> rows[r][lp] != key) ==> ms == []
  {
    if rows == [] then []
    else
      var init := Matches(rows[..|rows| - 1], lp, key);
      if rows[|rows| - 1][lp] == key then init + [|rows| - 1] else init
  }

  /** Every lookup row with the key is matched. */
  lemma {:induction false} MatchesComplete(rows: seq<Row>, lp: nat, key: Cell, r: nat)
    requires forall q :: 0 <= q < |rows| ==> lp < |rows[q]|
    requires r < |rows| && rows[r][lp] == key
    ensures r in Matches(rows, lp, key)
  {
    var init := rows[..|rows| - 1];
    var prev := Matches(init, lp, key);
    if r < |init| {
      assert init[r] == rows[r];
      MatchesComplete(init, lp, key, r);
      var k :| 0 <= k < |prev| && prev[k] == r;
      if rows[|rows| - 1][lp] == key {
        assert Matches(rows, lp, key) == prev + [|init|];
        assert Matches(rows, lp, key)[k] == r;
      } else {
        assert Matches(rows, lp, key) == prev;
      }
    } else {
      assert Matches(rows, lp, key) == prev + [|init|];
    }
  }

  /** The matches come in lookup order. */
  lemma {:induction false} MatchesInOrder(rows: seq<Row>, lp: nat, key: Cell)
    requires forall q :: 0 <= q < |rows| ==> lp < |rows[q]|
    ensures forall a, b :: 0 <= a < b < |Matches(rows, lp, key)| ==> Matches(rows, lp, key)[a] < Matches(rows, lp, key)[b]
  {
    if rows != [] {
      var init := rows[..|rows| - 1];
      MatchesInOrder(init, lp, key);
      var prev := Matches(init, lp, key);
      if rows[|rows| - 1][lp] == key {
        var ms := prev + [|init|];
        assert Matches(rows, lp, key) == ms;
        forall a, b | 0 <= a < b < |ms| ensures ms[a] < ms[b] {
          assert ms[a] == prev[a] && prev[a] < |init|;
          if b < |prev| {
            assert ms[b] == prev[b];
          }
        }
      } else {
        assert Matches(rows, lp, key) == prev;
      }
    }
  }

  /** The cells of lookup row `m` at the kept positions. */
  function Pick(m: Row, kept: seq<nat>): (cells: Row)
    requires forall k :: 0 <= k < |kept| ==> kept[k] < |m|
    ensures |cells| == |kept|
  {
    seq(|kept|, k requires 0 <= k < |kept| => m[kept[k]])
  }

  /** `n` missing cells. */
  function Blanks(n: nat): (cells: Row)
    ensures |cells| == n && forall k :: 0 <= k < n ==> cells[k] == Missing
  {
    seq(n, k => Missing)
  }

  /** The rows one accumulated row `l` turns into: one per matching lookup row,
      in lookup order, or `l` alone with gaps when nothing matches. */
  function JoinRow(l: Row, mp: nat, rrows: seq<Row>, lp: nat, kept: seq<nat>, width: nat): (block: seq<Row>)
    requires mp < |l|
    requires forall r :: 0 <= r < |rrows| ==> |rrows[r]| == width
    requires lp < width && forall k :: 0 <= k < |kept| ==> kept[k] < width
    ensures |block| == (if Matches(rrows, lp, l[mp]) == [] then 1 else |Matches(rrows, lp, l[mp])|)
    ensures forall k :: 0 <= k < |block| ==> |block[k]| == |l| + |kept|
  {
    var ms := Matches(rrows, lp, l[mp]);
    if ms == [] then [l + Blanks(|kept|)]
    else seq(|ms|, k requires 0 <= k < |ms| => l + Pick(rrows[ms[k]], kept))
  }

  /** Every row of the block starts with `l`; an unmatched row ends in gaps, the
      `k`-th matched row ends in the kept cells of the `k`-th match. */
  lemma JoinRowContents(l: Row, mp: nat, rrows: seq<Row>, lp: nat, kept: seq<nat>, width: nat)
    requires mp < |l|
    requires forall r :: 0 <= r < |rrows| ==> |rrows[r]| == width
    requires lp < width && forall k :: 0 <= k < |kept| ==> kept[k] < width
    ensures var block := JoinRow(l, mp, rrows, lp, kept, width);
            var ms := Matches(rrows, lp, l[mp]);
            && (forall k :: 0 <= k < |block| ==> block[k][..|l|] == l)
            && (ms == [] ==> block[0][|l|..] == Blanks(|kept|))
            && (forall k :: 0 <= k < |ms| ==> block[k][|l|..] == Pick(rrows[ms[k]], kept))
  {
    var block := JoinRow(l, mp, rrows, lp, kept, width);
    var ms := Matches(rrows, lp, l[mp]);
    forall k | 0 <= k < |block|
      ensures block[k][..|l|] == l && block[k][|l|..] == (if ms == [] then Blanks(|kept|) else Pick(rrows[ms[k]], kept))
    {
      var tail := if ms == [] then Blanks(|kept|) else Pick(rrows[ms[k]], kept);
      SliceOfAppend(l, tail, 0, 0);
      assert block[k] == l + tail;
      assert (l + tail)[|l|..] == tail;
    }
  }

  /** The blocks of the left join, one per accumulated row. */
  function JoinBlocks(left: Table, mp: nat, right: Table, lp: nat, kept: seq<nat>): (bs: seq<seq<Row>>)
    requires Rectangular(left) && Rectangular(right)
    requires mp < |left.columns| && lp < |right.columns|
    requires forall k :: 0 <= k < |kept| ==> kept[k] < |right.columns|
    ensures |bs| == |left.rows|
    ensures forall j :: 0 <= j < |left.rows| ==>
              bs[j] == JoinRow(left.rows[j], mp, right.rows, lp, kept, |right.columns|)
  {
    seq(|left.rows|, j requires 0 <= j < |left.rows| =>
      JoinRow(left.rows[j], mp, right.rows, lp, kept, |right.columns|))
  }

  /** The left join of `left` and `right` on the key positions, before `fillna`. */
  function Merge(left: Table, mp: nat, right: Table, lp: nat, kept: seq<nat>, labels: seq<string>): (m: Table)
    requires Rectangular(left) && Rectangular(right)
    requires mp < |left.columns| && lp < |right.columns|
    requires forall k :: 0 <= k < |kept| ==> kept[k] < |right.columns|
    requires |labels| == |kept|
    ensures m.columns == left.columns + labels
    ensures Rectangular(m)
  {
    var bs := JoinBlocks(left, mp, right, lp, kept);
    MergeRowsFit(bs, |left.columns| + |kept|);
    Table(left.columns + labels, Flatten(bs))
  }

  lemma {:induction false} MergeRowsFit(bs: seq<seq<Row>>, width: nat)
    requires forall j, k :: 0 <= j < |bs| && 0 <= k < |bs[j]| ==> |bs[j][k]| == width
    ensures forall r :: 0 <= r < |Flatten(bs)| ==> |Flatten(bs)[r]| == width
  {
    forall r | 0 <= r < |Flatten(bs)| ensures |Flatten(bs)[r]| == width {
      FlattenMember(bs, Flatten(bs)[r]);
    }
  }

  /** `fillna('N/A')`: every gap of the table becomes "N/A". */
  function FillMissing(t: Table): (f: Table)
    requires Rectangular(t)
    ensures f.columns == t.columns && |f.rows| == |t.rows| && Rectangular(f)
    ensures forall r, c :: 0 <= r < |t.rows| && 0 <= c < |t.columns| ==>
              f.rows[r][c] == if t.rows[r][c] == Missing then NotAvailable else t.rows[r][c]
    ensures forall r :: 0 <= r < |f.rows| ==> Complete(f.rows[r])
  {
    Table(t.columns, seq(|t.rows|, r requires 0 <= r < |t.rows| =>
      seq(|t.rows[r]|, c requires 0 <= c < |t.rows[r]| =>
        if t.rows[r][c] == Missing then NotAvailable else t.rows[r][c])))
  }

  /** `pd.merge(left, right, ...)` on stringified keys: the MergeError check on the
      suffixed labels, then the join. */
  function PandasMerge(left: Table, mp: nat, right: Table, lp: nat, sameName: bool, i: nat): (r: Result<Table, JoinError>)
    requires Rectangular(left) && Rectangular(right)
    requires mp < |left.columns| && lp < |right.columns|
    ensures r.Ok? ==> Rectangular(r.value)
    ensures r.Err? ==> r.error == SuffixCollision
    ensures var kept := KeptPositions(|right.columns|, lp, sameName);
            var original := LabelsAt(right.columns, kept);
            var labels := Renamed(original, left.columns, i);
            && (r.Err? <==> CreatesDuplicate(original, labels))
            && (r.Ok? ==> r.value == Merge(left, mp, right, lp, kept, labels))
  {
    var kept := KeptPositions(|right.columns|, lp, sameName);
    var original := LabelsAt(right.columns, kept);
    var labels := Renamed(original, left.columns, i);
    if CreatesDuplicate(original, labels) then Err(SuffixCollision)
    else Ok(Merge(left, mp, right, lp, kept, labels))
  }

  /** One iteration of the loop: its outcome and the lookup table as the caller
      sees it afterwards (line 810 rewrites its key columns in place).  Lines
      809-810 index each table by its key label (KeyError when absent) and
      rewrite every column with that label; the merge then takes the lookup
      key, then the main key, and refuses a label that names several columns. */
  datatype StepResult = StepResult(outcome: Result<Table, JoinError>, lookupAfter: Table)

  function Step(acc: Table, mainColumn: string, lookup: Table, lookupColumn: string, i: nat): (s: StepResult)
    requires Rectangular(acc) && Rectangular(lookup)
    ensures s.outcome.Ok? ==> Rectangular(s.outcome.value)
    ensures Rectangular(s.lookupAfter)
  {
    if mainColumn !in acc.columns then StepResult(Err(KeyNotFound(mainColumn)), lookup)
    else
      var left := StringifyLabel(acc, mainColumn);
      if lookupColumn !in lookup.columns then StepResult(Err(KeyNotFound(lookupColumn)), lookup)
      else
        var right := StringifyLabel(lookup, lookupColumn);
        match ColumnIndex(right.columns, lookupColumn)
        case Err(e) => StepResult(Err(e), right)
        case Ok(lp) =>
          match ColumnIndex(left.columns, mainColumn)
          case Err(e) => StepResult(Err(e), right)
          case Ok(mp) =>
            match PandasMerge(left, mp, right, lp, mainColumn == lookupColumn, i)
            case Err(e) => StepResult(Err(e), right)
            case Ok(merged) => StepResult(Ok(FillMissing(merged)), right)
  }

  /** `a // d` on naturals, by repeated subtraction: the largest `q` with
      `d * q <= a`. */
  function Quotient(a: nat, d: nat): (q: nat)
    requires d > 0
    ensures d * q <= a < d * (q + 1)
    decreases a
  {
    if a < d then 0
    else
      var q := Quotient(a - d, d);
      assert d * (q + 1) == d * q + d && d * (q + 2) == d * (q + 1) + d;
      1 + q
  }

  /** `int((i + 1) / total_steps * 100)`, in exact integer arithmetic: the
      completed fraction in whole percent, rounded down. */
  function Percent(i: nat, total: nat): (p: int)
    requires i < total
    ensures 0 <= p && total * p <= (i + 1) * 100 < total * (p + 1)
  {
    Quotient((i + 1) * 100, total)
  }

  /** The loop from iteration `i` on: how it ends, how many steps it completed
      (each one emits a progress value), and the lookup tables afterwards. */
  datatype Trace = Trace(outcome: Result<Table, JoinError>, completed: nat, lookups: seq<Table>)

  predicate AllRectangular(tables: seq<Table>) {
    forall k :: 0 <= k < |tables| ==> Rectangular(tables[k])
  }

  function RunFrom(acc: Table, mainColumn: string, tables: seq<Table>, keys: seq<string>, i: nat): (tr: Trace)
    requires Rectangular(acc) && AllRectangular(tables)
    requires |tables| == |keys| && i <= |tables|
    ensures |tr.lookups| == |tables|
    ensures tr.outcome.Ok? ==> Rectangular(tr.outcome.value)
    ensures tr.completed <= |tables| - i
    ensures tr.outcome.Ok? ==> tr.completed == |tables| - i
    ensures forall j :: 0 <= j < i ==> tr.lookups[j] == tables[j]
    decreases |tables| - i, 1
  {
    if i == |tables| then Trace(Ok(acc), 0, tables)
    else StepThenRun(acc, mainColumn, tables, keys, i)
  }

  /** Iteration `i`, then the rest of the loop when it succeeded. */
  function StepThenRun(acc: Table, mainColumn: string, tables: seq<Table>, keys: seq<string>, i: nat): (tr: Trace)
    requires Rectangular(acc) && AllRectangular(tables)
    requires |tables| == |keys| && i < |tables|
    ensures |tr.lookups| == |tables|
    ensures tr.outcome.Ok? ==> Rectangular(tr.outcome.value)
    ensures tr.completed <= |tables| - i
    ensures tr.outcome.Ok? ==> tr.completed == |tables| - i
    ensures forall j :: 0 <= j < i ==> tr.lookups[j] == tables[j]
    decreases |tables| - i, 0
  {
    var s := Step(acc, mainColumn, tables[i], keys[i], i);
    var after := tables[i := s.lookupAfter];
    match s.outcome
    case Err(e) => Trace(Err(e), 0, after)
    case Ok(next) =>
      var rest := RunFrom(next, mainColumn, after, keys, i + 1);
      Trace(rest.outcome, rest.completed + 1, rest.lookups)
  }

  /** Positions selected by `df[names]`: for each name in turn, every column with that label. */
  function SelectPositions(labels: seq<string>, names: seq<string>): seq<nat>
  {
    if names == [] then []
    else Positions(labels, names[0]) + SelectPositions(labels, names[1..])
  }

  /** Every selected position is a column of the table whose label was requested. */
  lemma {:induction false} SelectPositionsInRange(labels: seq<string>, names: seq<string>)
    ensures forall k :: 0 <= k < |SelectPositions(labels, names)| ==>
              SelectPositions(labels, names)[k] < |labels| && labels[SelectPositions(labels, names)[k]] in names
  {
    if names != [] {
      SelectPositionsInRange(labels, names[1..]);
      var first, rest := Positions(labels, names[0]), SelectPositions(labels, names[1..]);
      forall k | 0 <= k < |first + rest|
        ensures (first + rest)[k] < |labels| && labels[(first + rest)[k]] in names
      {
        if k >= |first| {
          assert (first + rest)[k] == rest[k - |first|];
          assert labels[rest[k - |first|]] in names[1..];
        }
      }
    }
  }

  /** A position is selected exactly when its label is requested. */
  lemma {:induction false} SelectPositionsCover(labels: seq<string>, names: seq<string>)
    ensures forall p :: 0 <= p < |labels| ==> (p in SelectPositions(labels, names) <==> labels[p] in names)
  {
    if names != [] {
      SelectPositionsCover(labels, names[1..]);
      assert forall x :: x in names <==> x == names[0] || x in names[1..];
    }
  }

  /** Selecting by one name, then by the others. */
  lemma SelectPositionsCons(labels: seq<string>, name: string, rest: seq<string>)
    ensures SelectPositions(labels, [name] + rest) == Positions(labels, name) + SelectPositions(labels, rest)
  {
    var names := [name] + rest;
    assert names[0] == name && names[1..] == rest;
  }

  /** The positions come grouped per name, in the order of the names: selecting
      by a concatenation of names selects by each part in turn. */
  lemma {:induction false} SelectPositionsAppend(labels: seq<string>, a: seq<string>, b: seq<string>)
    ensures SelectPositions(labels, a + b) == SelectPositions(labels, a) + SelectPositions(labels, b)
  {
    if a == [] {
      assert a + b == b;
    } else {
      SelectPositionsAppend(labels, a[1..], b);
      assert a == [a[0]] + a[1..];
      SelectPositionsAppendStep(labels, a[0], a[1..], b);
    }
  }

  lemma SelectPositionsAppendStep(labels: seq<string>, n: string, tail: seq<string>, b: seq<string>)
    requires SelectPositions(labels, tail + b) == SelectPositions(labels, tail) + SelectPositions(labels, b)
    ensures SelectPositions(labels, [n] + tail + b) == SelectPositions(labels, [n] + tail) + SelectPositions(labels, b)
  {
    assert [n] + tail + b == [n] + (tail + b);
    SelectPositionsCons(labels, n, tail + b);
    SelectPositionsCons(labels, n, tail);
    ConcatAssoc(Positions(labels, n), SelectPositions(labels, tail), SelectPositions(labels, b));
  }

  lemma ConcatAssoc(x: seq<nat>, y: seq<nat>, z: seq<nat>)
    ensures x + (y + z) == (x + y) + z
  {
  }

  /** `df[names]`. */
  function Select(t: Table, names: seq<string>): (s: Table)
    requires Rectangular(t)
    ensures |s.rows| == |t.rows| && Rectangular(s)
    ensures forall k :: 0 <= k < |s.columns| ==> s.columns[k] in names
    ensures var ps := SelectPositions(t.columns, names);
            && |s.columns| == |ps|
            && forall k :: 0 <= k < |ps| ==>
                 && ps[k] < |t.columns|
                 && s.columns[k] == t.columns[ps[k]]
                 && forall r :: 0 <= r < |t.rows| ==> s.rows[r][k] == t.rows[r][ps[k]]
  {
    SelectPositionsInRange(t.columns, names);
    var ps := SelectPositions(t.columns, names);
    var width := |t.columns|;
    assert forall k :: 0 <= k < |ps| ==> ps[k] < width;
    Table(seq(|ps|, k requires 0 <= k < |ps| => t.columns[ps[k]]),
          seq(|t.rows|, r requires 0 <= r < |t.rows| => seq(|ps|, k requires 0 <= k < |ps| => t.rows[r][ps[k]])))
  }

  /** `columns_to_keep`: the main key, then the result's labels that were asked
      for, in the result's order. */
  function KeepColumns(t: Table, mainColumn: string, returnColumns: seq<string>): (names: seq<string>)
    ensures |names| >= 1 && names[0] == mainColumn
    ensures forall x :: x in names[1..] <==> x in t.columns && x in returnColumns
    ensures names[1..] == KeepIn(t.columns, returnColumns)
  {
    [mainColumn] + KeepIn(t.columns, returnColumns)
  }

  /** `result_df[columns_to_keep]`: only the main column can be absent. */
  function Projection(t: Table, mainColumn: string, returnColumns: seq<string>): (r: Result<Table, JoinError>)
    requires Rectangular(t)
    ensures r.Err? <==> mainColumn !in t.columns
    ensures r.Err? ==> r.error == KeyNotFound(mainColumn)
    ensures r.Ok? ==> |r.value.rows| == |t.rows| && Rectangular(r.value)
  {
    if mainColumn !in t.columns then Err(KeyNotFound(mainColumn))
    else Ok(Select(t, KeepColumns(t, mainColumn, returnColumns)))
  }

  /** Everything one run does: its signals, and the lookup tables afterwards. */
  datatype RunRecord = RunRecord(events: seq<Event>, lookups: seq<Table>)

  function Terminal(outcome: Result<Table, JoinError>, mainColumn: string, returnColumns: seq<string>): (e: Event)
    requires outcome.Ok? ==> Rectangular(outcome.value)
    ensures e.ResultReady? || e.ErrorOccurred?
  {
    match outcome
    case Err(e) => ErrorOccurred(e)
    case Ok(acc) =>
      match Projection(acc, mainColumn, returnColumns)
      case Err(e) => ErrorOccurred(e)
      case Ok(t) => ResultReady(t)
  }

  /** The progress signals of the first `completed` steps of `total`. */
  function ProgressEvents(completed: nat, total: nat): (ev: seq<Event>)
    requires completed <= total
    ensures |ev| == completed && forall k :: 0 <= k < completed ==> ev[k] == Progress(Percent(k, total))
  {
    seq(completed, k requires 0 <= k < completed => Progress(Percent(k, total)))
  }

  /** One more step appends its progress signal. */
  lemma ProgressEventsExtend(i: nat, total: nat)
    requires i < total
    ensures ProgressEvents(i, total) + [Progress(Percent(i, total))] == ProgressEvents(i + 1, total)
  {
  }

  /** `VLOOKUPThread.run` on a copy of the main table: the step progress values,
      then exactly one of `result_ready` / `error_occurred`, then the `finally` 100. */
  function Engine(main: Table, mainColumn: string, tables: seq<Table>, keys: seq<string>, returnColumns: seq<string>): RunRecord
    requires Rectangular(main) && AllRectangular(tables) && |tables| == |keys|
  {
    var tr := RunFrom(main, mainColumn, tables, keys, 0);
    RunRecord(ProgressEvents(tr.completed, |tables|) + [Terminal(tr.outcome, mainColumn, returnColumns), Progress(100)], tr.lookups)
  }

  /** The lookup tables as stored in the sheets. */
  function TablesOf(lookups: seq<(Sheet, string)>): (ts: seq<Table>)
    reads set j | 0 <= j < |lookups| :: lookups[j].0
    ensures |ts| == |lookups| && forall j :: 0 <= j < |lookups| ==> ts[j] == lookups[j].0.data
  {
    seq(|lookups|, j requires 0 <= j < |lookups| reads set k | 0 <= k < |lookups| :: lookups[k].0 => lookups[j].0.data)
  }

  function KeysOf(lookups: seq<(Sheet, string)>): (ks: seq<string>)
    ensures |ks| == |lookups| && forall j :: 0 <= j < |lookups| ==> ks[j] == lookups[j].1
  {
    seq(|lookups|, j requires 0 <= j < |lookups| => lookups[j].1)
  }

  /** What is left of the run `whole` after `i` completed steps, when the
      accumulated result is `acc` and the lookup tables are `tables`. */
  ghost predicate Remains(whole: Trace, acc: Table, mainColumn: string, tables: seq<Table>, keys: seq<string>, i: nat)
    requires Rectangular(acc) && AllRectangular(tables) && |tables| == |keys| && i <= |tables|
  {
    var rest := RunFrom(acc, mainColumn, tables, keys, i);
    whole == Trace(rest.outcome, i + rest.completed, rest.lookups)
  }

  /** One pass of the loop body (lines 809-819) against one lookup sheet: the
      accumulated key column is stringified on the local copy, the sheet's own
      key column in place, then the merge and `fillna`. */
  method RunStep(acc: Table, mainColumn: string, sheet: Sheet, lookupColumn: string, i: nat,
                 ghost whole: Trace, ghost tables: seq<Table>, ghost keys: seq<string>)
    returns (outcome: Result<Table, JoinError>)
    requires Rectangular(acc) && AllRectangular(tables)
    requires |tables| == |keys| && i < |tables| && sheet.data == tables[i] && keys[i] == lookupColumn
    requires Remains(whole, acc, mainColumn, tables, keys, i)
    modifies sheet
    ensures AllRectangular(tables[i := sheet.data])
    ensures outcome.Err? ==> whole == Trace(outcome, i, tables[i := sheet.data])
    ensures outcome.Ok? ==> Rectangular(outcome.value)
    ensures outcome.Ok? ==> Remains(whole, outcome.value, mainColumn, tables[i := sheet.data], keys, i + 1)
  {
    if mainColumn !in acc.columns {
      outcome := Err(KeyNotFound(mainColumn));
    } else {
      var left := StringifyLabel(acc, mainColumn);
      if lookupColumn !in sheet.data.columns {
        outcome := Err(KeyNotFound(lookupColumn));
      } else {
        sheet.data := StringifyLabel(sheet.data, lookupColumn);
        var lp := ColumnIndex(sheet.data.columns, lookupColumn);
        var mp := ColumnIndex(left.columns, mainColumn);
        if lp.Err? {
          outcome := Err(lp.error);
        } else if mp.Err? {
          outcome := Err(mp.error);
        } else {
          var merged := PandasMerge(left, mp.value, sheet.data, lp.value, mainColumn == lookupColumn, i);
          if merged.Err? {
            outcome := Err(merged.error);
          } else {
            outcome := Ok(FillMissing(merged.value));
          }
        }
      }
    }
    LoopStep(whole, acc, mainColumn, tables, keys, i, outcome, sheet.data);
  }

  /** One more iteration of the loop, seen from the whole run: if the run from
      iteration `i` on is what is left of `whole` after `i` completed steps,
      then after step `i` either the run has failed with that step's error or
      what is left is the run from iteration `i + 1`. */
  lemma LoopStep(whole: Trace, acc: Table, mainColumn: string, tables: seq<Table>, keys: seq<string>, i: nat,
                 outcome: Result<Table, JoinError>, lookupAfter: Table)
    requires Rectangular(acc) && AllRectangular(tables)
    requires |tables| == |keys| && i < |tables|
    requires var rest := RunFrom(acc, mainColumn, tables, keys, i);
             whole == Trace(rest.outcome, i + rest.completed, rest.lookups)
    requires StepResult(outcome, lookupAfter) == Step(acc, mainColumn, tables[i], keys[i], i)
    ensures Rectangular(lookupAfter)
    ensures outcome.Err? ==> whole == Trace(outcome, i, tables[i := lookupAfter])
    ensures outcome.Ok? ==> Rectangular(outcome.value)
    ensures outcome.Ok? ==>
              var rest := RunFrom(outcome.value, mainColumn, tables[i := lookupAfter], keys, i + 1);
              whole == Trace(rest.outcome, i + 1 + rest.completed, rest.lookups)
  {
  }

  /** The loop of `VLOOKUPThread.run` (lines 805-821): merge with each lookup in
      turn until one step raises; the progress signals emitted on the way, and
      each lookup sheet's key column rewritten in place. */
  method JoinAll(main: Table, mainColumn: string, lookups: seq<(Sheet, string)>, ghost tables: seq<Table>)
    returns (outcome: Result<Table, JoinError>, events: seq<Event>, ghost tr: Trace)
    requires Rectangular(main) && AllRectangular(tables) && |tables| == |lookups|
    requires forall j :: 0 <= j < |lookups| ==> lookups[j].0.data == tables[j]
    requires forall j, k :: 0 <= j < k < |lookups| ==> lookups[j].0 != lookups[k].0
    modifies set j | 0 <= j < |lookups| :: lookups[j].0
    ensures tr == RunFrom(main, mainColumn, tables, KeysOf(lookups), 0)
    ensures outcome == tr.outcome && events == ProgressEvents(tr.completed, |lookups|)
    ensures forall j :: 0 <= j < |lookups| ==> lookups[j].0.data == tr.lookups[j]
  {
    var keys := KeysOf(lookups);
    ghost var current := tables;
    tr := RunFrom(main, mainColumn, tables, keys, 0);
    var result := main;
    var total := |lookups|;
    events := [];
    var i := 0;
    while i < total
      invariant i <= total && |current| == total
      invariant forall j :: 0 <= j < total ==> lookups[j].0.data == current[j]
      invariant AllRectangular(current) && Rectangular(result)
      invariant events == ProgressEvents(i, total)
      invariant Remains(tr, result, mainColumn, current, keys, i)
    {
      var stepOutcome := RunStep(result, mainColumn, lookups[i].0, lookups[i].1, i, tr, current, keys);
      current := current[i := lookups[i].0.data];
      if stepOutcome.Err? {
        return stepOutcome, events, tr;
      }
      result := stepOutcome.value;
      // line 821
      ProgressEventsExtend(i, total);
      events := events + [Progress(Percent(i, total))];
      i := i + 1;
    }
    outcome := Ok(result);
  }

  /** `VLOOKUPThread.run`: the loop, then `result_df[columns_to_keep]` and
      `result_ready`, or `error_occurred` for whatever raised; `finally` the 100. */
  method Run(main: Table, mainColumn: string, lookups: seq<(Sheet, string)>, returnColumns: seq<string>)
    returns (events: seq<Event>)
    requires Rectangular(main)
    requires AllRectangular(TablesOf(lookups))
    requires forall j, k :: 0 <= j < k < |lookups| ==> lookups[j].0 != lookups[k].0
    modifies set j | 0 <= j < |lookups| :: lookups[j].0
    ensures forall j :: 0 <= j < |lookups| ==> lookups[j].0.Valid()
    ensures RunRecord(events, TablesOf(lookups)) == Engine(main, mainColumn, old(TablesOf(lookups)), KeysOf(lookups), returnColumns)
  {
    ghost var before := TablesOf(lookups);
    var outcome, progress, tr := JoinAll(main, mainColumn, lookups, before);
    assert TablesOf(lookups) == tr.lookups;
    EngineLookupSideEffect(main, mainColumn, before, KeysOf(lookups), returnColumns);
    var terminal: Event;
    if outcome.Err? {
      terminal := ErrorOccurred(outcome.error);
    } else {
      // lines 823-826
      var projected := Projection(outcome.value, mainColumn, returnColumns);
      terminal := if projected.Ok? then ResultReady(projected.value) else ErrorOccurred(projected.error);
    }
    events := progress + [terminal, Progress(100)];
  }

  // ---------------------------------------------------------------------
  // Properties of one join step

  /** In a step, a lookup row matches an accumulated row exactly when the string
      forms of their original keys are equal: `1`, `1.0` and `"1"` only match
      when `str()` prints them the same way. */
  lemma StepMatchesOnStringForms(acc: Table, mainColumn: string, mp: nat, lookup: Table, lookupColumn: string, lp: nat, j: nat, r: nat)
    requires Rectangular(acc) && Rectangular(lookup)
    requires mp < |acc.columns| && acc.columns[mp] == mainColumn
    requires lp < |lookup.columns| && lookup.columns[lp] == lookupColumn
    requires j < |acc.rows| && r < |lookup.rows|
    ensures StringifyLabel(lookup, lookupColumn).rows[r][lp] == StringifyLabel(acc, mainColumn).rows[j][mp]
            <==> StrForm(lookup.rows[r][lp]) == StrForm(acc.rows[j][mp])
  {
    assert StringifyLabel(lookup, lookupColumn).rows[r][lp] == Stringified(lookup.rows[r][lp]);
    assert StringifyLabel(acc, mainColumn).rows[j][mp] == Stringified(acc.rows[j][mp]);
  }

  /** Left join, row by row: accumulated row `j` becomes exactly the block
      `JoinRow` describes (the row once with gaps when nothing matches, else once
      per match in lookup order), and the blocks follow the accumulated rows'
      order. */
  lemma MergeIsLeftJoin(left: Table, mp: nat, right: Table, lp: nat, kept: seq<nat>, labels: seq<string>, j: nat)
    requires Rectangular(left) && Rectangular(right)
    requires mp < |left.columns| && lp < |right.columns|
    requires forall k :: 0 <= k < |kept| ==> kept[k] < |right.columns|
    requires |labels| == |kept| && j < |left.rows|
    ensures var bs := JoinBlocks(left, mp, right, lp, kept);
            var m := Merge(left, mp, right, lp, kept, labels);
            && Offset(bs, j) < Offset(bs, j + 1) <= |m.rows|
            && m.rows[Offset(bs, j)..Offset(bs, j + 1)] == JoinRow(left.rows[j], mp, right.rows, lp, kept, |right.columns|)
  {
    var bs := JoinBlocks(left, mp, right, lp, kept);
    FlattenBlock(bs, j);
  }

  /** Blocks that are never empty start at least one position apart. */
  lemma {:induction false} OffsetAtLeast(bs: seq<seq<Row>>, j: nat)
    requires j <= |bs| && forall k :: 0 <= k < |bs| ==> |bs[k]| >= 1
    ensures Offset(bs, j) >= j
    ensures (forall k :: 0 <= k < |bs| ==> |bs[k]| == 1) ==> Offset(bs, j) == j
  {
    if j > 0 { OffsetAtLeast(bs, j - 1); }
  }

  /** Lookup keys that never repeat match any accumulated key at most once. */
  lemma {:induction false} UniqueKeysMatchAtMostOnce(rows: seq<Row>, lp: nat, key: Cell)
    requires forall r :: 0 <= r < |rows| ==> lp < |rows[r]|
    requires forall r1, r2 :: 0 <= r1 < r2 < |rows| ==> rows[r1][lp] != rows[r2][lp]
    ensures |Matches(rows, lp, key)| <= 1
  {
    if rows != [] {
      var init := rows[..|rows| - 1];
      UniqueKeysMatchAtMostOnce(init, lp, key);
      if rows[|rows| - 1][lp] == key {
        assert forall r :: 0 <= r < |init| ==> init[r][lp] != key by {
          forall r | 0 <= r < |init| ensures init[r][lp] != key {
            assert init[r] == rows[r];
          }
        }
      }
    }
  }

  /** A left join never loses an accumulated row. */
  lemma MergeKeepsRows(left: Table, mp: nat, right: Table, lp: nat, kept: seq<nat>, labels: seq<string>)
    requires Rectangular(left) && Rectangular(right)
    requires mp < |left.columns| && lp < |right.columns|
    requires forall k :: 0 <= k < |kept| ==> kept[k] < |right.columns|
    requires |labels| == |kept|
    ensures |Merge(left, mp, right, lp, kept, labels).rows| >= |left.rows|
  {
    var bs := JoinBlocks(left, mp, right, lp, kept);
    assert Merge(left, mp, right, lp, kept, labels).rows == Flatten(bs);
    FlattenLength(bs);
    OffsetAtLeast(bs, |bs|);
  }

  /** With lookup keys that never repeat, the join keeps exactly as many rows as
      the accumulated table: no fan-out. */
  lemma MergeUniqueKeysKeepsRowCount(left: Table, mp: nat, right: Table, lp: nat, kept: seq<nat>, labels: seq<string>)
    requires Rectangular(left) && Rectangular(right)
    requires mp < |left.columns| && lp < |right.columns|
    requires forall k :: 0 <= k < |kept| ==> kept[k] < |right.columns|
    requires |labels| == |kept|
    requires forall r1, r2 :: 0 <= r1 < r2 < |right.rows| ==> right.rows[r1][lp] != right.rows[r2][lp]
    ensures |Merge(left, mp, right, lp, kept, labels).rows| == |left.rows|
  {
    var bs := JoinBlocks(left, mp, right, lp, kept);
    assert Merge(left, mp, right, lp, kept, labels).rows == Flatten(bs);
    FlattenLength(bs);
    forall k | 0 <= k < |bs| ensures |bs[k]| == 1 {
      UniqueKeysMatchAtMostOnce(right.rows, lp, left.rows[k][mp]);
    }
    OffsetAtLeast(bs, |bs|);
  }

  /** The labels a successful step produces: the accumulated labels unchanged and
      in front, then one label per kept lookup column, in lookup order, suffixed
      with `_table{i}` exactly when the accumulated labels already hold it; the
      lookup key is left out when it has the main key's name. */
  lemma StepColumns(acc: Table, mainColumn: string, lookup: Table, lookupColumn: string, i: nat)
    requires Rectangular(acc) && Rectangular(lookup)
    requires Step(acc, mainColumn, lookup, lookupColumn, i).outcome.Ok?
    ensures var next := Step(acc, mainColumn, lookup, lookupColumn, i).outcome.value;
            var lp := ColumnIndex(lookup.columns, lookupColumn).value;
            var kept := KeptPositions(|lookup.columns|, lp, mainColumn == lookupColumn);
            && ColumnIndex(lookup.columns, lookupColumn).Ok?
            && |next.columns| == |acc.columns| + |lookup.columns| - (if mainColumn == lookupColumn then 1 else 0)
            && next.columns[..|acc.columns|] == acc.columns
            && forall k :: 0 <= k < |kept| ==>
                 next.columns[|acc.columns| + k] == RenameLabel(lookup.columns[kept[k]], acc.columns, i)
  {
  }

  /** Every cell of a successful step's result is filled, and the step never has
      fewer rows than the accumulated table. */
  lemma StepFillsAndKeepsRows(acc: Table, mainColumn: string, lookup: Table, lookupColumn: string, i: nat)
    requires Rectangular(acc) && Rectangular(lookup)
    requires Step(acc, mainColumn, lookup, lookupColumn, i).outcome.Ok?
    ensures var next := Step(acc, mainColumn, lookup, lookupColumn, i).outcome.value;
            && |next.rows| >= |acc.rows|
            && forall r :: 0 <= r < |next.rows| ==> Complete(next.rows[r])
  {
    var mp := ColumnIndex(acc.columns, mainColumn).value;
    var lp := ColumnIndex(lookup.columns, lookupColumn).value;
    var left := StringifyLabel(acc, mainColumn);
    var right := StringifyLabel(lookup, lookupColumn);
    var kept := KeptPositions(|right.columns|, lp, mainColumn == lookupColumn);
    var labels := Renamed(LabelsAt(right.columns, kept), left.columns, i);
    MergeKeepsRows(left, mp, right, lp, kept, labels);
  }

  /** How a step fails and what it leaves in the lookup sheet, in the order the
      checks happen: an absent main key label, then an absent lookup key label
      (both KeyError, the lookup untouched); after that the lookup has its key
      columns stringified whatever follows: a lookup key label on several
      columns, then a main key label on several columns, then a suffix
      collision. */
  lemma StepErrorsAndSideEffect(acc: Table, mainColumn: string, lookup: Table, lookupColumn: string, i: nat)
    requires Rectangular(acc) && Rectangular(lookup)
    ensures var s := Step(acc, mainColumn, lookup, lookupColumn, i);
            && (mainColumn !in acc.columns ==> s == StepResult(Err(KeyNotFound(mainColumn)), lookup))
            && (mainColumn in acc.columns && lookupColumn !in lookup.columns ==>
                  s == StepResult(Err(KeyNotFound(lookupColumn)), lookup))
            && (mainColumn in acc.columns && lookupColumn in lookup.columns ==>
                  && s.lookupAfter == StringifyLabel(lookup, lookupColumn)
                  && (ColumnIndex(lookup.columns, lookupColumn).Err? ==> s.outcome == Err(LabelNotUnique(lookupColumn)))
                  && (ColumnIndex(lookup.columns, lookupColumn).Ok? && ColumnIndex(acc.columns, mainColumn).Err? ==>
                        s.outcome == Err(LabelNotUnique(mainColumn)))
                  && (ColumnIndex(lookup.columns, lookupColumn).Ok? && ColumnIndex(acc.columns, mainColumn).Ok? && s.outcome.Err? ==>
                        s.outcome == Err(SuffixCollision)))
            && (s.outcome.Ok? ==> ColumnIndex(acc.columns, mainColumn).Ok? && ColumnIndex(lookup.columns, lookupColumn).Ok?)
  {
  }

  // ---------------------------------------------------------------------
  // Progress and the whole run

  /** Dividing a smaller number gives no larger quotient. */
  lemma {:induction false} QuotientMonotone(a: nat, b: nat, d: nat)
    requires d > 0 && a <= b
    ensures Quotient(a, d) <= Quotient(b, d)
    decreases a
  {
    if a >= d {
      QuotientMonotone(a - d, b - d, d);
    }
  }

  /** A multiple of `d` divides exactly. */
  lemma {:induction false} QuotientOfMultiple(d: nat, q: nat)
    requires d > 0
    ensures Quotient(d * q, d) == q
  {
    if q > 0 {
      assert d * q - d == d * (q - 1);
      QuotientOfMultiple(d, q - 1);
    }
  }

  /** Each step's progress value lies in 0..100 and the last step reports 100. */
  lemma PercentBounds(i: nat, total: nat)
    requires i < total
    ensures 0 <= Percent(i, total) <= 100
    ensures i == total - 1 ==> Percent(i, total) == 100
  {
    assert total * 100 == 100 * total;
    QuotientMonotone((i + 1) * 100, total * 100, total);
    QuotientOfMultiple(total, 100);
  }

  /** Progress never goes backwards. */
  lemma PercentMonotone(i: nat, j: nat, total: nat)
    requires i <= j < total
    ensures Percent(i, total) <= Percent(j, total)
  {
    QuotientMonotone((i + 1) * 100, (j + 1) * 100, total);
  }

  /** A successful loop never loses rows, keeps the accumulated labels in front,
      and, when at least one step ran, leaves no cell missing. */
  lemma {:induction false} RunFromResult(acc: Table, mainColumn: string, tables: seq<Table>, keys: seq<string>, i: nat)
    requires Rectangular(acc) && AllRectangular(tables)
    requires |tables| == |keys| && i <= |tables|
    requires RunFrom(acc, mainColumn, tables, keys, i).outcome.Ok?
    ensures var final := RunFrom(acc, mainColumn, tables, keys, i).outcome.value;
            && |final.rows| >= |acc.rows|
            && (i < |tables| ==> forall r :: 0 <= r < |final.rows| ==> Complete(final.rows[r]))
            && |acc.columns| <= |final.columns| && final.columns[..|acc.columns|] == acc.columns
    decreases |tables| - i
  {
    if i < |tables| {
      var s := Step(acc, mainColumn, tables[i], keys[i], i);
      var next := s.outcome.value;
      StepFillsAndKeepsRows(acc, mainColumn, tables[i], keys[i], i);
      StepColumns(acc, mainColumn, tables[i], keys[i], i);
      var after := tables[i := s.lookupAfter];
      RunFromResult(next, mainColumn, after, keys, i + 1);
      var final := RunFrom(next, mainColumn, after, keys, i + 1).outcome.value;
      assert final.columns[..|acc.columns|] == final.columns[..|next.columns|][..|acc.columns|];
    }
  }

  /** A main key label the accumulated table lacks fails the next step. */
  lemma RunFromMissingMainColumn(acc: Table, mainColumn: string, tables: seq<Table>, keys: seq<string>, i: nat)
    requires Rectangular(acc) && AllRectangular(tables)
    requires |tables| == |keys| && i < |tables|
    requires mainColumn !in acc.columns
    ensures RunFrom(acc, mainColumn, tables, keys, i).outcome == Err(KeyNotFound(mainColumn))
  {
    StepErrorsAndSideEffect(acc, mainColumn, tables[i], keys[i], i);
  }

  /** `after` is `before`, or `before` with its `key` columns stringified. */
  predicate SameOrKeyStringified(before: Table, key: string, after: Table)
    requires Rectangular(before)
  {
    after == before || after == StringifyLabel(before, key)
  }

  /** Each lookup is left as it was or has only its key columns stringified. */
  lemma {:induction false} RunFromLookups(acc: Table, mainColumn: string, tables: seq<Table>, keys: seq<string>, i: nat, j: nat)
    requires Rectangular(acc) && AllRectangular(tables)
    requires |tables| == |keys| && i <= |tables| && j < |tables|
    ensures SameOrKeyStringified(tables[j], keys[j], RunFrom(acc, mainColumn, tables, keys, i).lookups[j])
    decreases |tables| - i
  {
    if i < |tables| {
      assert RunFrom(acc, mainColumn, tables, keys, i) == StepThenRun(acc, mainColumn, tables, keys, i);
      var s := Step(acc, mainColumn, tables[i], keys[i], i);
      var after := tables[i := s.lookupAfter];
      if j == i {
        StepErrorsAndSideEffect(acc, mainColumn, tables[i], keys[i], i);
      } else if s.outcome.Ok? {
        RunFromLookups(s.outcome.value, mainColumn, after, keys, i + 1, j);
        assert after[j] == tables[j];
      }
    }
  }

  /** The signals of a run: one progress value per completed step, in step
      order; then exactly one terminal signal, a result or an error; then the
      final 100.  A result comes only after every step. */
  lemma EngineSignals(main: Table, mainColumn: string, tables: seq<Table>, keys: seq<string>, returnColumns: seq<string>)
    requires Rectangular(main) && AllRectangular(tables) && |tables| == |keys|
    ensures var ev := Engine(main, mainColumn, tables, keys, returnColumns).events;
            && |ev| >= 2
            && ev[|ev| - 1] == Progress(100)
            && (ev[|ev| - 2].ResultReady? || ev[|ev| - 2].ErrorOccurred?)
            && |ev| - 2 <= |tables|
            && (forall k :: 0 <= k < |ev| - 2 ==> ev[k] == Progress(Percent(k, |tables|)))
            && (ev[|ev| - 2].ResultReady? ==> |ev| - 2 == |tables|)
  {
  }

  /** Progress values only grow and stay within 0..100, whatever the run's
      terminal signal. */
  lemma SignalsProgressOrdered(completed: nat, total: nat, terminal: Event)
    requires completed <= total && !terminal.Progress?
    ensures var ev := ProgressEvents(completed, total) + [terminal, Progress(100)];
            && (forall k :: 0 <= k < |ev| && ev[k].Progress? ==> 0 <= ev[k].percent <= 100)
            && (forall a, b :: 0 <= a < b < |ev| && ev[a].Progress? && ev[b].Progress? ==> ev[a].percent <= ev[b].percent)
  {
    var ev := ProgressEvents(completed, total) + [terminal, Progress(100)];
    forall k | 0 <= k < completed ensures 0 <= ev[k].percent <= 100 {
      PercentBounds(k, total);
    }
    forall a, b | 0 <= a < b < |ev| && ev[a].Progress? && ev[b].Progress?
      ensures ev[a].percent <= ev[b].percent
    {
      if b < completed {
        PercentMonotone(a, b, total);
      } else {
        PercentBounds(a, total);
      }
    }
  }

  lemma EngineProgressMonotone(main: Table, mainColumn: string, tables: seq<Table>, keys: seq<string>, returnColumns: seq<string>)
    requires Rectangular(main) && AllRectangular(tables) && |tables| == |keys|
    ensures var ev := Engine(main, mainColumn, tables, keys, returnColumns).events;
            && (forall k :: 0 <= k < |ev| && ev[k].Progress? ==> 0 <= ev[k].percent <= 100)
            && (forall a, b :: 0 <= a < b < |ev| && ev[a].Progress? && ev[b].Progress? ==> ev[a].percent <= ev[b].percent)
  {
    var tr := RunFrom(main, mainColumn, tables, keys, 0);
    SignalsProgressOrdered(tr.completed, |tables|, Terminal(tr.outcome, mainColumn, returnColumns));
  }

  /** `df[[main] + rest]` with the main label present puts a main-key column
      first, and every selected label was asked for. */
  lemma SelectMainFirst(t: Table, mainColumn: string, rest: seq<string>)
    requires Rectangular(t) && mainColumn in t.columns
    ensures var s := Select(t, [mainColumn] + rest);
            |s.columns| > 0 && s.columns[0] == mainColumn
  {
    var names := [mainColumn] + rest;
    assert names[0] == mainColumn && names[1..] == rest;
    var ps := Positions(t.columns, mainColumn);
    assert SelectPositions(t.columns, names) == ps + SelectPositions(t.columns, rest);
  }

  /** What `result_df[columns_to_keep]` yields when the main label is present: a
      main-key column first, otherwise only requested return columns, every row
      of the joined table, and no gap where the joined table had none. */
  lemma ProjectionResult(acc: Table, mainColumn: string, returnColumns: seq<string>)
    requires Rectangular(acc) && mainColumn in acc.columns
    ensures var t := Projection(acc, mainColumn, returnColumns).value;
            && |t.columns| > 0 && t.columns[0] == mainColumn
            && (forall k :: 0 <= k < |t.columns| ==> t.columns[k] == mainColumn || t.columns[k] in returnColumns)
            && |t.rows| == |acc.rows|
            && ((forall r :: 0 <= r < |acc.rows| ==> Complete(acc.rows[r])) ==>
                  forall r :: 0 <= r < |t.rows| ==> Complete(t.rows[r]))
  {
    var names := KeepColumns(acc, mainColumn, returnColumns);
    SelectMainFirst(acc, mainColumn, KeepIn(acc.columns, returnColumns));
    var t := Select(acc, names);
    forall k | 0 <= k < |t.columns| ensures t.columns[k] == mainColumn || t.columns[k] in returnColumns {
      assert t.columns[k] in names;
    }
    var ps := SelectPositions(acc.columns, names);
    if forall r :: 0 <= r < |acc.rows| ==> Complete(acc.rows[r]) {
      forall r | 0 <= r < |t.rows| ensures Complete(t.rows[r]) {
        assert Complete(acc.rows[r]);
        assert forall k :: 0 <= k < |t.rows[r]| ==> t.rows[r][k] == acc.rows[r][ps[k]];
      }
    }
  }

  /** What a result signal carries: a main-key column first, otherwise only
      requested return columns; at least as many rows as the main table; and,
      when at least one lookup ran, no cell left missing. */
  lemma EngineResult(main: Table, mainColumn: string, tables: seq<Table>, keys: seq<string>, returnColumns: seq<string>)
    requires Rectangular(main) && AllRectangular(tables) && |tables| == |keys|
    ensures var ev := Engine(main, mainColumn, tables, keys, returnColumns).events;
            ev[|ev| - 2].ResultReady? ==>
              var t := ev[|ev| - 2].table;
              && |t.columns| > 0 && t.columns[0] == mainColumn
              && (forall k :: 0 <= k < |t.columns| ==> t.columns[k] == mainColumn || t.columns[k] in returnColumns)
              && |t.rows| >= |main.rows|
              && (|tables| > 0 ==> forall r :: 0 <= r < |t.rows| ==> Complete(t.rows[r]))
  {
    var tr := RunFrom(main, mainColumn, tables, keys, 0);
    var ev := Engine(main, mainColumn, tables, keys, returnColumns).events;
    var terminal := Terminal(tr.outcome, mainColumn, returnColumns);
    assert ev[|ev| - 2] == terminal;
    if terminal.ResultReady? {
      var acc := tr.outcome.value;
      assert mainColumn in acc.columns && terminal.table == Projection(acc, mainColumn, returnColumns).value;
      RunFromResult(main, mainColumn, tables, keys, 0);
      ProjectionResult(acc, mainColumn, returnColumns);
    }
  }

  /** A main key label the main table lacks always ends the run with KeyError:
      at the first merge when there are lookups, at the final selection when
      there are none. */
  lemma EngineMissingMainColumn(main: Table, mainColumn: string, tables: seq<Table>, keys: seq<string>, returnColumns: seq<string>)
    requires Rectangular(main) && AllRectangular(tables) && |tables| == |keys|
    requires mainColumn !in main.columns
    ensures var ev := Engine(main, mainColumn, tables, keys, returnColumns).events;
            ev == [ErrorOccurred(KeyNotFound(mainColumn)), Progress(100)]
  {
    if |tables| > 0 {
      RunFromMissingMainColumn(main, mainColumn, tables, keys, 0);
    }
  }

  /** The only lasting change a run makes to the loaded lookup sheets: some of
      them have their key column turned into strings. */
  lemma EngineLookupSideEffect(main: Table, mainColumn: string, tables: seq<Table>, keys: seq<string>, returnColumns: seq<string>)
    requires Rectangular(main) && AllRectangular(tables) && |tables| == |keys|
    ensures var after := Engine(main, mainColumn, tables, keys, returnColumns).lookups;
            && |after| == |tables|
            && (forall j :: 0 <= j < |tables| ==> SameOrKeyStringified(tables[j], keys[j], after[j]))
            && AllRectangular(after)
  {
    forall j | 0 <= j < |tables|
      ensures SameOrKeyStringified(tables[j], keys[j], Engine(main, mainColumn, tables, keys, returnColumns).lookups[j])
    {
      RunFromLookups(main, mainColumn, tables, keys, 0, j);
    }
  }

  /** With distinct labels the selection yields exactly `columns_to_keep`: the
      main key first, then the requested labels in the table's own order (so the
      main key appears twice when it is also requested). */
  lemma {:induction false} SelectDistinct(t: Table, names: seq<string>)
    requires Rectangular(t) && Distinct(t.columns)
    requires forall k :: 0 <= k < |names| ==> names[k] in t.columns
    ensures Select(t, names).columns == names
  {
    forall k | 0 <= k < |names| ensures |Positions(t.columns, names[k])| == 1 {
      PositionsOfDistinct(t.columns, names[k]);
    }
    SelectPositionsOfUnique(t.columns, names);
  }

  /** When every requested label names exactly one column, `df[names]` selects
      one position per name, in the order of the names. */
  lemma {:induction false} SelectPositionsOfUnique(labels: seq<string>, names: seq<string>)
    requires forall k :: 0 <= k < |names| ==> |Positions(labels, names[k])| == 1
    ensures |SelectPositions(labels, names)| == |names|
    ensures forall k :: 0 <= k < |names| ==>
              SelectPositions(labels, names)[k] < |labels| && labels[SelectPositions(labels, names)[k]] == names[k]
  {
    if names != [] {
      var first := Positions(labels, names[0]);
      var rest := SelectPositions(labels, names[1..]);
      assert |first| == 1 && labels[first[0]] == names[0];
      assert forall k :: 0 <= k < |names[1..]| ==> names[1..][k] == names[k + 1];
      SelectPositionsOfUnique(labels, names[1..]);
      assert SelectPositions(labels, names) == first + rest;
    }
  }

  /** A label that occurs once has one position. */
  lemma {:induction false} PositionsOfDistinct(labels: seq<string>, name: string)
    requires Distinct(labels) && name in labels
    ensures |Positions(labels, name)| == 1
  {
    var init := labels[..|labels| - 1];
    var last := labels[|labels| - 1];
    assert labels == init + [last];
    if last == name {
      assert forall k :: 0 <= k < |init| ==> init[k] != name;
    } else {
      assert name in init;
      assert Distinct(init);
      PositionsOfDistinct(init, name);
    }
  }

  /** With distinct labels, the projection yields exactly `columns_to_keep`. */
  lemma ProjectionColumns(t: Table, mainColumn: string, returnColumns: seq<string>)
    requires Rectangular(t) && Distinct(t.columns) && mainColumn in t.columns
    ensures Projection(t, mainColumn, returnColumns).Ok?
    ensures Projection(t, mainColumn, returnColumns).value.columns == [mainColumn] + KeepIn(t.columns, returnColumns)
  {
    var names := KeepColumns(t, mainColumn, returnColumns);
    assert forall k :: 0 <= k < |names| ==> names[k] in t.columns by {
      forall k | 0 <= k < |names| ensures names[k] in t.columns {
        if k > 0 { assert names[k] in KeepIn(t.columns, returnColumns); }
      }
    }
    SelectDistinct(t, names);
  }

  /** With distinct labels, cell `(r, k)` of `result_df[columns_to_keep]` is the
      joined table's cell in row `r` of the column labelled `columns_to_keep[k]`. */
  lemma ProjectionCells(t: Table, mainColumn: string, returnColumns: seq<string>)
    requires Rectangular(t) && Distinct(t.columns) && mainColumn in t.columns
    ensures var s := Projection(t, mainColumn, returnColumns).value;
            var names := KeepColumns(t, mainColumn, returnColumns);
            && s.columns == names
            && forall k, p, r :: 0 <= k < |names| && 0 <= p < |t.columns| && t.columns[p] == names[k] && 0 <= r < |t.rows| ==>
                 s.rows[r][k] == t.rows[r][p]
  {
    ProjectionColumns(t, mainColumn, returnColumns);
    var names := KeepColumns(t, mainColumn, returnColumns);
    assert Projection(t, mainColumn, returnColumns).value == Select(t, names);
    forall k, p, r | 0 <= k < |names| && 0 <= p < |t.columns| && t.columns[p] == names[k] && 0 <= r < |t.rows|
      ensures Select(t, names).rows[r][k] == t.rows[r][p]
    {
      SelectedCell(t, names, k, p, r);
    }
  }

  /** A selected column whose label occurs once is that column of the table. */
  lemma SelectedCell(t: Table, names: seq<string>, k: nat, p: nat, r: nat)
    requires Rectangular(t) && Distinct(t.columns) && Select(t, names).columns == names
    requires k < |names| && p < |t.columns| && t.columns[p] == names[k] && r < |t.rows|
    ensures Select(t, names).rows[r][k] == t.rows[r][p]
  {
    var ps := SelectPositions(t.columns, names);
    assert t.columns[ps[k]] == t.columns[p];
  }
}
