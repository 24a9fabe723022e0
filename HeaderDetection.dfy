/** `detect_header_row`: score the first rows of a freshly parsed sheet by how
    much they look like a row of column names and pick the best one.

    The score of a row is the sum of exact discrete bonuses (position, keyword,
    completeness, uniqueness, numeric dtype) and of a real-valued term standing
    for the floating-point statistics of the row (text ratio, non-null ratio,
    type consistency, length consistency, short-text preference,
    special-character ratio), which is left uninterpreted: it is the parameter
    `stats`, any function of the row's cells. */
module HeaderDetection {
  import opened Tables

  /** The default `max_rows`: only the first ten rows are candidates. */
  const MaxHeaderRows: nat := 10

  /** `common_header_words`. */
  const HeaderKeywords: seq<string> :=
    ["id", "name", "date", "time", "value", "code", "type", "category", "description"]

  /** The ways detection raises: `max()` of no scores (a sheet without rows), and
      two ZeroDivisionErrors, the division by `len(row)` in the type-consistency
      term (rows without cells) and the division by `len(str(x))` in the
      special-character term (a cell whose text is empty). */
  datatype DetectError = NoCandidateRows | ZeroWidthRow | EmptyTextCell

  /** +2 for the first row, +1.5 for the second, nothing for the others. */
  function PositionBonus(i: nat): (b: real)
    ensures 0.0 <= b <= 2.0
    ensures b > 0.0 <==> i < 2
    ensures b == 2.0 <==> i == 0
    ensures i == 1 ==> b == 1.5
  {
    if i == 0 then 2.0 else if i == 1 then 1.5 else 0.0
  }

  /** `any(lower_row.str.contains(word).any() for word in common_header_words)`:
      some cell's lower-cased text contains some header keyword. */
  predicate HasKeyword(row: Row) {
    exists c, w :: c in row && w in HeaderKeywords && Contains(Lower(StrForm(c)), w)
  }

  lemma KeywordCarriedOver(row: Row, other: Row)
    requires |row| == |other|
    requires forall k :: 0 <= k < |row| ==> Lower(StrForm(row[k])) == Lower(StrForm(other[k]))
    requires HasKeyword(row)
    ensures HasKeyword(other)
  {
    var c, w :| c in row && w in HeaderKeywords && Contains(Lower(StrForm(c)), w);
    var k :| 0 <= k < |row| && row[k] == c;
    assert other[k] in other;
  }

  /** The keyword test ignores case: rows whose cells print the same up to case
      either both earn the keyword bonus or neither does. */
  lemma HasKeywordIgnoresCase(row: Row, other: Row)
    requires |row| == |other|
    requires forall k :: 0 <= k < |row| ==> Lower(StrForm(row[k])) == Lower(StrForm(other[k]))
    ensures HasKeyword(row) <==> HasKeyword(other)
  {
    if HasKeyword(row) {
      KeywordCarriedOver(row, other);
    }
    if HasKeyword(other) {
      KeywordCarriedOver(other, row);
    }
  }

  /** The values `row.nunique()` counts: the distinct cells that are not missing. */
  function NonMissingValues(row: Row): set<Cell> {
    set c | c in row && !c.Missing?
  }

  /** `row.nunique() == len(row)`. */
  predicate AllUnique(row: Row) {
    |NonMissingValues(row)| == |row|
  }

  /** `nunique` never exceeds the row's length, and reaches it exactly when the
      row has no gap and no repeated value: a row with a gap never earns the
      uniqueness bonus. */
  lemma {:induction false} AllUniqueMeans(row: Row)
    ensures |NonMissingValues(row)| <= |row|
    ensures AllUnique(row) <==> Complete(row) && Distinct(row)
  {
    if row != [] {
      var rest := row[1..];
      AllUniqueMeans(rest);
      var head: set<Cell> := if row[0].Missing? then {} else {row[0]};
      assert NonMissingValues(row) == head + NonMissingValues(rest) by {
        forall c ensures c in row <==> c == row[0] || c in rest {
          if c in row {
            var k :| 0 <= k < |row| && row[k] == c;
            if k > 0 { assert rest[k - 1] == c; }
          }
        }
      }
      assert Complete(row) <==> !row[0].Missing? && Complete(rest) by {
        if !row[0].Missing? && Complete(rest) {
          forall k | 0 <= k < |row| ensures !row[k].Missing? {
            if k > 0 { assert row[k] == rest[k - 1]; }
          }
        }
      }
      assert Distinct(row) <==> row[0] !in rest && Distinct(rest) by {
        if Distinct(row) {
          forall i, j | 0 <= i < j < |rest| ensures rest[i] != rest[j] {
            assert rest[i] == row[i + 1] && rest[j] == row[j + 1];
          }
        }
        if row[0] !in rest && Distinct(rest) {
          forall i, j | 0 <= i < j < |row| ensures row[i] != row[j] {
            assert row[j] == rest[j - 1];
            if i > 0 { assert row[i] == rest[i - 1]; }
          }
        }
      }
      if !row[0].Missing? && row[0] !in rest {
        assert row[0] !in NonMissingValues(rest);
      }
    }
  }

  /** A column pandas gives an integer or floating-point dtype: numbers and gaps only. */
  predicate NumericColumn(t: Table, c: nat)
    requires Rectangular(t) && c < |t.columns|
  {
    forall r :: 0 <= r < |t.rows| ==> t.rows[r][c].Num? || t.rows[r][c].Missing?
  }

  /** `row.dtype` is int or float exactly when every column of the frame is numeric:
      a row of a DataFrame takes the common dtype of all its columns. */
  predicate NumericDtype(t: Table)
    requires Rectangular(t)
  {
    |t.columns| > 0 && forall c :: 0 <= c < |t.columns| ==> NumericColumn(t, c)
  }

  lemma NumericDtypeHasNoText(t: Table)
    requires Rectangular(t) && NumericDtype(t)
    ensures forall r, c :: 0 <= r < |t.rows| && 0 <= c < |t.columns| ==> !t.rows[r][c].Str?
  {
    forall r, c | 0 <= r < |t.rows| && 0 <= c < |t.columns| ensures !t.rows[r][c].Str? {
      assert NumericColumn(t, c);
    }
  }

  /** The `score -= 1` for a row of int or float dtype: the same for every row of
      the frame, and lifted by a single text cell anywhere in it. */
  function DtypePenalty(t: Table): (p: real)
    requires Rectangular(t)
    ensures p == 0.0 || p == 1.0
    ensures (exists r, c :: 0 <= r < |t.rows| && 0 <= c < |t.columns| && t.rows[r][c].Str?) ==> p == 0.0
  {
    if NumericDtype(t) then NumericDtypeHasNoText(t); 1.0 else 0.0
  }

  /** The part of the score that depends on the row itself. */
  function RowScore(row: Row, i: nat, stats: Row -> real): real {
    PositionBonus(i) + stats(row)
    + (if HasKeyword(row) then 2.0 else 0.0)
    + (if Complete(row) then 0.5 else 0.0)
    + (if AllUnique(row) then 0.5 else 0.0)
  }

  /** The score of candidate row `i`, as a real number. */
  function Score(t: Table, i: nat, stats: Row -> real): real
    requires Rectangular(t) && i < |t.rows|
  {
    RowScore(t.rows[i], i, stats) - DtypePenalty(t)
  }

  /** Of two rows with the same cells the earlier never scores less, and scores
      more when it is one of the first two rows. */
  lemma ScorePrefersEarlierRow(t: Table, i: nat, j: nat, stats: Row -> real)
    requires Rectangular(t) && i < j < |t.rows| && t.rows[i] == t.rows[j]
    ensures Score(t, i, stats) >= Score(t, j, stats)
    ensures i < 2 ==> Score(t, i, stats) > Score(t, j, stats)
  {
  }

  /** `range(min(max_rows, len(df)))`. */
  function CandidateCount(t: Table): (n: nat)
    ensures n == Min(MaxHeaderRows, |t.rows|)
    ensures n <= MaxHeaderRows && n <= |t.rows|
    ensures n == 0 <==> |t.rows| == 0
  {
    Min(MaxHeaderRows, |t.rows|)
  }

  /** The real scores, one entry per candidate row, in row order. */
  function Scores(t: Table, stats: Row -> real): (s: seq<real>)
    requires Rectangular(t)
    ensures |s| == CandidateCount(t)
    ensures forall i :: 0 <= i < |s| ==> s[i] == Score(t, i, stats)
  {
    seq(CandidateCount(t), i requires 0 <= i < CandidateCount(t) => Score(t, i, stats))
  }

  /** A Python float: a real number or NaN. */
  datatype Float = Finite(v: real) | NaN

  /** `a > b` on floats: false whenever either side is NaN. */
  predicate Greater(a: Float, b: Float) {
    a.Finite? && b.Finite? && a.v > b.v
  }

  /** `a == b` on floats: false whenever either side is NaN. */
  predicate FloatEq(a: Float, b: Float) {
    a.Finite? && b.Finite? && a.v == b.v
  }

  /** The float `score` of candidate row `i`. On a one-column sheet
      `lengths.std()` of a single length is NaN, and NaN propagates through
      the sum; otherwise the score is the real `Score`. */
  function PyScore(t: Table, i: nat, stats: Row -> real): (f: Float)
    requires Rectangular(t) && i < |t.rows|
    ensures f.NaN? <==> |t.columns| == 1
    ensures f.Finite? ==> f.v == Score(t, i, stats)
  {
    if |t.columns| == 1 then NaN else Finite(Score(t, i, stats))
  }

  /** A cell for which `len(str(x))` is zero although `x` is not missing. */
  predicate EmptyText(c: Cell) {
    !c.Missing? && StrForm(c) == ""
  }

  predicate HasEmptyText(row: Row) {
    exists k :: 0 <= k < |row| && EmptyText(row[k])
  }

  /** `k` is where `s.index(max(s))` lands: a maximum, and no earlier entry reaches it. */
  predicate IsFirstMax(s: seq<real>, k: nat) {
    && k < |s|
    && (forall j :: 0 <= j < |s| ==> s[j] <= s[k])
    && (forall j :: 0 <= j < k ==> s[j] < s[k])
  }

  /** At most one position is the first maximum: the choice is determined by the scores. */
  lemma FirstMaxUnique(s: seq<real>, k1: nat, k2: nat)
    requires IsFirstMax(s, k1) && IsFirstMax(s, k2)
    ensures k1 == k2
  {
    assert s[k1] <= s[k2] && s[k2] <= s[k1];
  }

  /** The first maximum, computed left to right. */
  function FirstArgmax(s: seq<real>): (k: nat)
    requires |s| > 0
    ensures IsFirstMax(s, k)
  {
    if |s| == 1 then 0
    else
      var k := FirstArgmax(s[..|s| - 1]);
      if s[|s| - 1] > s[k] then |s| - 1 else k
  }

  /** Subtracting the same amount from every score does not move the first maximum. */
  lemma FirstArgmaxShift(s: seq<real>, shifted: seq<real>, d: real)
    requires |s| > 0 && |shifted| == |s|
    requires forall j :: 0 <= j < |s| ==> shifted[j] == s[j] - d
    ensures FirstArgmax(shifted) == FirstArgmax(s)
  {
    var k := FirstArgmax(s);
    assert IsFirstMax(shifted, k);
    FirstMaxUnique(shifted, k, FirstArgmax(shifted));
  }

  /** The numeric-dtype penalty never decides the header row: it depends only on
      the column dtypes of the whole frame, so every candidate row loses the same
      amount and the choice equals the one made without the penalty. */
  lemma DtypePenaltyNeverDecides(t: Table, stats: Row -> real)
    requires Rectangular(t) && |t.rows| > 0
    ensures FirstArgmax(Scores(t, stats))
         == FirstArgmax(seq(CandidateCount(t), i requires 0 <= i < CandidateCount(t) => RowScore(t.rows[i], i, stats)))
  {
    var unpenalised := seq(CandidateCount(t), i requires 0 <= i < CandidateCount(t) => RowScore(t.rows[i], i, stats));
    FirstArgmaxShift(unpenalised, Scores(t, stats), DtypePenalty(t));
  }

  /** What `detect_header_row(df)` returns or raises. */
  function DetectSpec(t: Table, stats: Row -> real): (r: Result<nat, DetectError>)
    requires Rectangular(t)
    ensures r == Err(NoCandidateRows) <==> |t.rows| == 0
    ensures r == Err(ZeroWidthRow) <==> |t.rows| > 0 && |t.columns| == 0
    ensures r == Err(EmptyTextCell) <==>
              |t.columns| > 0 && exists i :: 0 <= i < CandidateCount(t) && HasEmptyText(t.rows[i])
    ensures r.Ok? ==> r.value < CandidateCount(t)
    ensures r.Ok? && |t.columns| == 1 ==> r.value == 0
    ensures r.Ok? && |t.columns| > 1 ==> IsFirstMax(Scores(t, stats), r.value)
  {
    if |t.rows| == 0 then Err(NoCandidateRows)
    else if |t.columns| == 0 then Err(ZeroWidthRow)
    else if exists i :: 0 <= i < CandidateCount(t) && HasEmptyText(t.rows[i]) then Err(EmptyTextCell)
    else if |t.columns| == 1 then Ok(0)
    else Ok(FirstArgmax(Scores(t, stats)))
  }

  /** Python's `max(s)` on a non-empty list: the first entry, replaced by each
      later entry that is greater. The result is the position of the entry
      `max` returns, since `index` below also finds an entry by identity. */
  method MaxOf(s: seq<Float>) returns (at: nat)
    requires |s| > 0
    ensures at < |s|
    ensures s[0].NaN? ==> at == 0
    ensures (forall k :: 0 <= k < |s| ==> s[k].Finite?) ==>
              && (forall k :: 0 <= k < |s| ==> s[k].v <= s[at].v)
              && (forall k :: 0 <= k < at ==> s[k].v < s[at].v)
  {
    at := 0;
    for j := 1 to |s|
      invariant at < j
      invariant s[0].NaN? ==> at == 0
      invariant (forall k :: 0 <= k < |s| ==> s[k].Finite?) ==>
                  && (forall k :: 0 <= k < j ==> s[k].v <= s[at].v)
                  && (forall k :: 0 <= k < at ==> s[k].v < s[at].v)
    {
      if Greater(s[j], s[at]) {
        at := j;
      }
    }
  }

  /** Python's `s.index(x)` for the entry `x` at position `at`: the first entry
      that is `x` itself or compares equal to it (a NaN equals nothing). */
  method IndexOf(s: seq<Float>, at: nat) returns (k: nat)
    requires at < |s|
    ensures k <= at && (k == at || FloatEq(s[k], s[at]))
    ensures forall j :: 0 <= j < k ==> !FloatEq(s[j], s[at])
  {
    k := 0;
    while k != at && !FloatEq(s[k], s[at])
      invariant k <= at
      invariant forall j :: 0 <= j < k ==> !FloatEq(s[j], s[at])
      decreases at - k
    {
      k := k + 1;
    }
  }

  /** `detect_header_row`: build `scores` row by row, take `max(scores)`, then
      `scores.index` of it. */
  method DetectHeaderRow(t: Table, stats: Row -> real) returns (r: Result<nat, DetectError>)
    requires Rectangular(t)
    ensures r == DetectSpec(t, stats)
  {
    var scores: seq<Float> := [];
    var n := Min(MaxHeaderRows, |t.rows|);
    for i := 0 to n
      invariant |scores| == i
      invariant forall j :: 0 <= j < i ==> scores[j] == PyScore(t, j, stats)
      invariant i > 0 ==> |t.columns| > 0
      invariant forall j :: 0 <= j < i ==> !HasEmptyText(t.rows[j])
    {
      if |t.columns| == 0 {
        return Err(ZeroWidthRow);
      }
      if HasEmptyText(t.rows[i]) {
        return Err(EmptyTextCell);
      }
      scores := scores + [PyScore(t, i, stats)];
    }
    if scores == [] {
      return Err(NoCandidateRows);
    }
    var at := MaxOf(scores);
    var k := IndexOf(scores, at);
    r := Ok(k);
    if |t.columns| > 1 {
      assert forall j :: 0 <= j < |scores| ==> scores[j].Finite? && Scores(t, stats)[j] == scores[j].v;
      assert k == at;
      assert IsFirstMax(Scores(t, stats), k);
      FirstMaxUnique(Scores(t, stats), k, FirstArgmax(Scores(t, stats)));
    }
  }
}
