/** Values shared by every component: cells, tables (the DataFrames of the
    tool) and the small sequence and string helpers they are built from. */
module Tables {

  /** The outcome of an operation that can raise. */
  datatype Result<+T, +E> = Ok(value: T) | Err(error: E)

  /** One spreadsheet cell as pandas parses it.  `Num` stands for a value of an
      integer or floating-point dtype, `Other` for any other non-text value
      (dates, booleans, ...); both carry the text `str()` gives for them. */
  datatype Cell = Missing | Str(s: string) | Num(text: string) | Other(text: string)

  type Row = seq<Cell>

  /** A DataFrame: column labels in order and rows of cells, positionally aligned
      with the labels.  Labels may repeat. */
  datatype Table = Table(columns: seq<string>, rows: seq<Row>)

  /** Every row has one cell per column: the shape every DataFrame has. */
  predicate Rectangular(t: Table) {
    forall r :: 0 <= r < |t.rows| ==> |t.rows[r]| == |t.columns|
  }

  /** Rows taken from a rectangular table fit its columns. */
  lemma SubRowsRectangular(t: Table, rows: seq<Row>)
    requires Rectangular(t)
    requires forall x :: x in rows ==> x in t.rows
    ensures Rectangular(Table(t.columns, rows))
  {
    forall r | 0 <= r < |rows| ensures |rows[r]| == |t.columns| {
      assert rows[r] in t.rows;
    }
  }

  /** No cell of the row is missing (`not row.isnull().any()`). */
  predicate Complete(row: Row) {
    forall k :: 0 <= k < |row| ==> !row[k].Missing?
  }

  /** `str(cell)`, as `astype(str)` produces it; a missing value (NaN) prints as "nan". */
  function StrForm(c: Cell): string {
    match c
    case Missing => "nan"
    case Str(s) => s
    case Num(text) => text
    case Other(text) => text
  }

  /** The cell `astype(str)` stores for `c`. */
  function Stringified(c: Cell): (d: Cell)
    ensures d.Str? && d.s == StrForm(c)
    ensures d != Missing
  {
    Str(StrForm(c))
  }

  /** All positions whose label is `name`, in increasing order. */
  function Positions(labels: seq<string>, name: string): (ps: seq<nat>)
    ensures forall k :: 0 <= k < |ps| ==> ps[k] < |labels| && labels[ps[k]] == name
    ensures forall p :: 0 <= p < |labels| && labels[p] == name ==> p in ps
    ensures name !in labels <==> ps == []
  {
    if labels == [] then []
    else
      var rest := Positions(labels[..|labels| - 1], name);
      if labels[|labels| - 1] == name then rest + [|labels| - 1] else rest
  }

  /** `Positions` lists the positions in increasing order. */
  lemma {:induction false} PositionsIncreasing(labels: seq<string>, name: string)
    ensures forall a, b :: 0 <= a < b < |Positions(labels, name)| ==> Positions(labels, name)[a] < Positions(labels, name)[b]
  {
    if labels != [] {
      var init := labels[..|labels| - 1];
      PositionsIncreasing(init, name);
      var rest := Positions(init, name);
      if labels[|labels| - 1] == name {
        var ps := rest + [|init|];
        assert Positions(labels, name) == ps;
        forall a, b | 0 <= a < b < |ps| ensures ps[a] < ps[b] {
          assert ps[a] == rest[a] && rest[a] < |init|;
          if b < |rest| {
            assert ps[b] == rest[b];
          }
        }
      } else {
        assert Positions(labels, name) == rest;
      }
    }
  }

  /** True when no two positions of `s` hold the same value. */
  predicate Distinct<T(==)>(s: seq<T>) {
    forall i, j :: 0 <= i < j < |s| ==> s[i] != s[j]
  }

  /** The labels of `s` that are also in `keep`, in the order of `s`. */
  function KeepIn(s: seq<string>, keep: seq<string>): (r: seq<string>)
    ensures forall x :: x in r <==> x in s && x in keep
    ensures |r| <= |s|
  {
    if s == [] then []
    else (if s[0] in keep then [s[0]] else []) + KeepIn(s[1..], keep)
  }

  /** The comprehension keeps the order of `s`: filtering a concatenation filters
      each part and concatenates the results. */
  lemma {:induction false} KeepInAppend(a: seq<string>, b: seq<string>, keep: seq<string>)
    ensures KeepIn(a + b, keep) == KeepIn(a, keep) + KeepIn(b, keep)
  {
    if a == [] {
      assert a + b == b;
    } else {
      var head := if a[0] in keep then [a[0]] else [];
      assert (a + b)[0] == a[0] && (a + b)[1..] == a[1..] + b;
      KeepInAppend(a[1..], b, keep);
      var x, y := KeepIn(a[1..], keep), KeepIn(b, keep);
      assert KeepIn(a + b, keep) == head + (x + y);
      assert head + (x + y) == (head + x) + y;
    }
  }

  /** Concatenation of a sequence of blocks. */
  function Flatten<T>(blocks: seq<seq<T>>): seq<T> {
    if blocks == [] then [] else blocks[0] + Flatten(blocks[1..])
  }

  /** Where block `j` starts in `Flatten(blocks)`. */
  function Offset<T>(blocks: seq<seq<T>>, j: nat): nat
    requires j <= |blocks|
  {
    if j == 0 then 0 else Offset(blocks, j - 1) + |blocks[j - 1]|
  }

  lemma {:induction false} OffsetOfTail<T>(blocks: seq<seq<T>>, j: nat)
    requires 0 < |blocks| && j <= |blocks| - 1
    ensures Offset(blocks, j + 1) == |blocks[0]| + Offset(blocks[1..], j)
  {
    if j > 0 { OffsetOfTail(blocks, j - 1); }
  }

  /** Flattening lays the blocks end to end: its length is the last offset and
      block `j` sits exactly between its own offset and the next. */
  lemma {:induction false} FlattenBlock<T>(blocks: seq<seq<T>>, j: nat)
    requires j < |blocks|
    ensures |Flatten(blocks)| == Offset(blocks, |blocks|)
    ensures Offset(blocks, j + 1) <= |Flatten(blocks)|
    ensures Flatten(blocks)[Offset(blocks, j)..Offset(blocks, j + 1)] == blocks[j]
  {
    var tail := blocks[1..];
    assert Flatten(blocks) == blocks[0] + Flatten(tail);
    OffsetOfTail(blocks, |blocks| - 1);
    FlattenLength(tail);
    if j == 0 {
      assert Offset(blocks, 1) == |blocks[0]|;
      SliceOfAppend(blocks[0], Flatten(tail), 0, 0);
      assert Flatten(blocks)[0..|blocks[0]|] == Flatten(blocks)[..|blocks[0]|];
    } else {
      FlattenBlock(tail, j - 1);
      OffsetOfTail(blocks, j - 1);
      OffsetOfTail(blocks, j);
      var x, y := Offset(tail, j - 1), Offset(tail, j);
      assert Offset(blocks, j) == |blocks[0]| + x && Offset(blocks, j + 1) == |blocks[0]| + y;
      SliceOfAppend(blocks[0], Flatten(tail), x, y);
      assert Flatten(tail)[x..y] == tail[j - 1] == blocks[j];
    }
  }

  /** A slice of `a + b` that starts at or after `|a|` is a slice of `b`; the
      prefix of length `|a|` is `a`. */
  lemma SliceOfAppend<T>(a: seq<T>, b: seq<T>, x: nat, y: nat)
    requires x <= y <= |b|
    ensures (a + b)[|a| + x..|a| + y] == b[x..y]
    ensures (a + b)[..|a|] == a
  {
    assert (a + b)[..|a|] == a;
  }

  lemma {:induction false} FlattenLength<T>(blocks: seq<seq<T>>)
    ensures |Flatten(blocks)| == Offset(blocks, |blocks|)
  {
    if blocks != [] {
      FlattenLength(blocks[1..]);
      OffsetOfTail(blocks, |blocks| - 1);
    }
  }

  /** Every element of a flattened sequence comes from one of the blocks. */
  lemma {:induction false} FlattenMember<T>(blocks: seq<seq<T>>, x: T)
    requires x in Flatten(blocks)
    ensures exists j :: 0 <= j < |blocks| && x in blocks[j]
  {
    if x in blocks[0] {
    } else {
      FlattenMember(blocks[1..], x);
      var j :| 0 <= j < |blocks[1..]| && x in blocks[1..][j];
      assert x in blocks[j + 1];
    }
  }

  /** ASCII lower-casing of one character. */
  function LowerChar(c: char): char {
    if 'A' <= c <= 'Z' then (c as int + 32) as char else c
  }

  /** `s.lower()`, restricted to the ASCII letters. */
  function Lower(s: string): (r: string)
    ensures |r| == |s|
    ensures forall i :: 0 <= i < |s| ==> r[i] == LowerChar(s[i])
  {
    seq(|s|, i requires 0 <= i < |s| => LowerChar(s[i]))
  }

  /** Python's `sub in s`: `sub` occurs as a contiguous piece of `s`. */
  predicate Contains(s: string, sub: string) {
    sub <= s || (|s| > 0 && Contains(s[1..], sub))
  }

  /** `sub` occurs in `s` starting at position `i`. */
  predicate OccursAt(s: string, sub: string, i: nat) {
    i + |sub| <= |s| && s[i..i + |sub|] == sub
  }

  /** An occurrence at position 0 is a prefix. */
  lemma OccursAtStart(s: string, sub: string)
    ensures OccursAt(s, sub, 0) <==> sub <= s
  {
    if |sub| <= |s| {
      assert s[0..|sub|] == s[..|sub|];
    }
  }

  /** Occurrences in `s[1..]` are the occurrences in `s` shifted by one. */
  lemma OccursAtShift(s: string, sub: string, i: nat)
    requires |s| > 0
    ensures OccursAt(s, sub, i + 1) <==> OccursAt(s[1..], sub, i)
  {
    if i + 1 + |sub| <= |s| {
      assert s[1..][i..i + |sub|] == s[i + 1..i + 1 + |sub|];
    }
  }

  /** `Contains` agrees with the textbook definition of "is a substring of". */
  lemma {:induction false} ContainsIsSubstring(s: string, sub: string)
    ensures Contains(s, sub) <==> exists i: nat :: OccursAt(s, sub, i)
  {
    OccursAtStart(s, sub);
    if |s| > 0 {
      ContainsIsSubstring(s[1..], sub);
      if exists i: nat :: OccursAt(s, sub, i) {
        var i: nat :| OccursAt(s, sub, i);
        if i > 0 {
          OccursAtShift(s, sub, i - 1);
        }
      }
      if exists i: nat :: OccursAt(s[1..], sub, i) {
        var i: nat :| OccursAt(s[1..], sub, i);
        OccursAtShift(s, sub, i);
      }
    }
  }

  /** Decimal text of a natural number, as `f"{i}"` writes it. */
  function NatToString(n: nat): (s: string)
    ensures |s| > 0
    ensures forall k :: 0 <= k < |s| ==> '0' <= s[k] <= '9'
    ensures n >= 10 ==> |s| >= 2
  {
    if n < 10 then [DigitChar(n)] else NatToString(n / 10) + [DigitChar(n % 10)]
  }

  function DigitChar(d: nat): (c: char)
    requires d < 10
    ensures '0' <= c <= '9' && c as int - '0' as int == d
  {
    ('0' as int + d) as char
  }

  /** Different numbers have different decimal texts. */
  lemma {:induction false} NatToStringInjective(m: nat, n: nat)
    requires NatToString(m) == NatToString(n)
    ensures m == n
  {
    var s := NatToString(m);
    if m >= 10 && n >= 10 {
      assert NatToString(m / 10) == s[..|s| - 1] == NatToString(n / 10);
      NatToStringInjective(m / 10, n / 10);
      assert DigitChar(m % 10) == s[|s| - 1] == DigitChar(n % 10);
    } else if m < 10 && n < 10 {
      assert DigitChar(m) == s[0] == DigitChar(n);
    }
  }

  function Min(a: int, b: int): int {
    if a <= b then a else b
  }
}
