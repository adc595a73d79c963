/** Scalars, rows and tables shared by every stage of the pipeline.

    A pandas cell is one of: a Python string, an integer, a float (carried by
    its Python `repr` text, so NaN is `Float("nan")`), or `None`. A table keeps
    its column order, the index label of every row (labels survive row
    filtering, as they do after `df.loc[mask]`) and its rows in order. */
module Values {

  datatype Option<T> = None | Some(value: T)

  datatype Result<T, E> = Ok(value: T) | Err(error: E)

  datatype Value = Str(s: string) | Int(n: int) | Float(text: string) | Null

  /** A row as `row.to_dict()` gives it: ordered (column, value) pairs. */
  type Row = seq<(string, Value)>

  datatype Table = Table(columns: seq<string>, index: seq<int>, rows: seq<seq<Value>>)

  predicate Distinct<T(==)>(s: seq<T>)
  {
    forall i, j :: 0 <= i < j < |s| ==> s[i] != s[j]
  }

  /** Column names are unique, every row has one label and one cell per column. */
  predicate WellFormed(t: Table)
  {
    && Distinct(t.columns)
    && |t.index| == |t.rows|
    && forall i :: 0 <= i < |t.rows| ==> |t.rows[i]| == |t.columns|
  }

  /** The decimal text Python's `str` gives a non-negative integer. */
  function NatToString(n: nat): (r: string)
    ensures |r| >= 1
    ensures forall k :: 0 <= k < |r| ==> '0' <= r[k] <= '9'
    decreases n
  {
    var d := [(48 + n % 10) as char];
    if n < 10 then d else NatToString(n / 10) + d
  }

  function IntToString(n: int): (r: string)
    ensures |r| >= 1
  {
    if n < 0 then "-" + NatToString(-n) else NatToString(n)
  }

  /** Python's `str(v)`. */
  function Render(v: Value): string
  {
    match v
    case Str(s) => s
    case Int(n) => IntToString(n)
    case Float(text) => text
    case Null => "None"
  }

  /** pandas' `isna`: `None` and the float NaN. */
  predicate IsMissing(v: Value)
  {
    v == Null || v == Float("nan")
  }

  /** `astype("string").fillna("")`: a missing cell reads as "". */
  function TextOrEmpty(v: Value): (r: string)
    ensures IsMissing(v) ==> r == ""
    ensures v.Str? ==> r == v.s
  {
    if IsMissing(v) then "" else Render(v)
  }

  function LowerChar(c: char): char
  {
    if 'A' <= c <= 'Z' then (c as int + 32) as char else c
  }

  /** `str.lower()` on ASCII letters; every other character is kept. */
  function Lower(s: string): string
  {
    if s == [] then [] else [LowerChar(s[0])] + Lower(s[1..])
  }

  predicate HasColumn(row: Row, c: string)
  {
    exists k :: 0 <= k < |row| && row[k].0 == c
  }

  /** `row[c]`: the value of the first pair named `c`. */
  function Lookup(row: Row, c: string): (v: Value)
    requires HasColumn(row, c)
    ensures exists k :: 0 <= k < |row| && row[k] == (c, v)
  {
    if row[0].0 == c then row[0].1 else Lookup(row[1..], c)
  }

  /** Row `i` of a table as `row.to_dict()` yields it. */
  function RowDict(columns: seq<string>, cells: seq<Value>): (r: Row)
    requires |cells| == |columns|
    ensures |r| == |columns|
    ensures forall k :: 0 <= k < |r| ==> r[k] == (columns[k], cells[k])
  {
    if columns == [] then [] else [(columns[0], cells[0])] + RowDict(columns[1..], cells[1..])
  }

  /** The position of column `c`, or |columns| when it is absent. */
  function ColumnIndex(columns: seq<string>, c: string): (k: nat)
    ensures k <= |columns|
    ensures k < |columns| ==> columns[k] == c
    ensures forall j :: 0 <= j < k ==> columns[j] != c
  {
    if columns == [] then 0
    else if columns[0] == c then 0
    else 1 + ColumnIndex(columns[1..], c)
  }

  /** A column appended at the end is found at the end. */
  lemma {:induction false} ColumnIndexLast(columns: seq<string>, c: string)
    requires c !in columns
    ensures ColumnIndex(columns + [c], c) == |columns|
    decreases |columns|
  {
    if columns != [] {
      assert (columns + [c])[1..] == columns[1..] + [c];
      ColumnIndexLast(columns[1..], c);
    }
  }

  /** The elements of `s` that are not in `drop`, in order (a list comprehension). */
  function Without(s: seq<string>, drop: seq<string>): (r: seq<string>)
    ensures forall x :: x in r <==> x in s && x !in drop
    ensures |r| <= |s|
  {
    if s == [] then []
    else if s[0] in drop then Without(s[1..], drop)
    else [s[0]] + Without(s[1..], drop)
  }

  /** Dropping elements from the end of a sequence: the last one is kept
      iff it is not in `drop`. */
  lemma {:induction false} WithoutSnoc(s: seq<string>, x: string, drop: seq<string>)
    ensures Without(s + [x], drop) == Without(s, drop) + (if x in drop then [] else [x])
    decreases |s|
  {
    if s != [] {
      assert (s + [x])[1..] == s[1..] + [x];
      WithoutSnoc(s[1..], x, drop);
    }
  }

  /** `Without` keeps the original order: it is the filter of `s` by the
      mask "not in `drop`". */
  lemma {:induction false} WithoutIsFilter(s: seq<string>, drop: seq<string>)
    ensures Without(s, drop) == Filter(s, seq(|s|, i requires 0 <= i < |s| => s[i] in drop), false)
    decreases |s|
  {
    if s != [] {
      var n := |s| - 1;
      var mask := seq(|s|, i requires 0 <= i < |s| => s[i] in drop);
      assert mask[..n] == seq(n, i requires 0 <= i < n => s[..n][i] in drop);
      WithoutIsFilter(s[..n], drop);
      assert s == s[..n] + [s[n]];
      WithoutSnoc(s[..n], s[n], drop);
    }
  }

  /** The elements of `s` that are also in `keep`, in order. */
  function Within(s: seq<string>, keep: seq<string>): (r: seq<string>)
    ensures forall x :: x in r <==> x in s && x in keep
    ensures |r| <= |s|
  {
    if s == [] then []
    else if s[0] in keep then [s[0]] + Within(s[1..], keep)
    else Within(s[1..], keep)
  }

  /** The cells of column `k`, top to bottom. */
  function Column(t: Table, k: nat): (cells: seq<Value>)
    requires WellFormed(t) && k < |t.columns|
    ensures |cells| == |t.rows|
    ensures forall i :: 0 <= i < |t.rows| ==> cells[i] == t.rows[i][k]
  {
    seq(|t.rows|, i requires 0 <= i < |t.rows| => t.rows[i][k])
  }

  /** `df[col] = cells`: column `k` is replaced, every other cell is kept. */
  function SetColumn(t: Table, k: nat, cells: seq<Value>): (r: Table)
    requires WellFormed(t) && k < |t.columns| && |cells| == |t.rows|
    ensures WellFormed(r) && r.columns == t.columns && r.index == t.index
    ensures |r.rows| == |t.rows|
    ensures forall i :: 0 <= i < |t.rows| ==> r.rows[i] == t.rows[i][k := cells[i]]
  {
    Table(t.columns, t.index, seq(|t.rows|, i requires 0 <= i < |t.rows| => t.rows[i][k := cells[i]]))
  }

  /** The elements of `xs` whose mask entry is `want`, in order (`s[mask]`). */
  function Filter<T>(xs: seq<T>, mask: seq<bool>, want: bool): seq<T>
    requires |mask| == |xs|
    decreases |xs|
  {
    if xs == [] then []
    else
      var rest := Filter(xs[..|xs| - 1], mask[..|xs| - 1], want);
      if mask[|xs| - 1] == want then rest + [xs[|xs| - 1]] else rest
  }

  /** `mask.sum()`: the number of true entries. */
  function Count(mask: seq<bool>): nat
    decreases |mask|
  {
    if mask == [] then 0
    else Count(mask[..|mask| - 1]) + if mask[|mask| - 1] then 1 else 0
  }

  /** The selected and the rejected elements split the sequence: `Count(mask)`
      are selected, the rest rejected. */
  lemma {:induction false} FilterSplit<T>(xs: seq<T>, mask: seq<bool>)
    requires |mask| == |xs|
    ensures |Filter(xs, mask, true)| == Count(mask)
    ensures |Filter(xs, mask, false)| == |xs| - Count(mask)
    decreases |xs|
  {
    if xs != [] {
      FilterSplit(xs[..|xs| - 1], mask[..|xs| - 1]);
    }
  }

  /** Some entry is true iff the count is positive (`mask.any()`). */
  lemma {:induction false} CountAny(mask: seq<bool>)
    ensures Count(mask) > 0 <==> true in mask
    ensures Count(mask) <= |mask|
    decreases |mask|
  {
    if mask != [] {
      var init := mask[..|mask| - 1];
      CountAny(init);
      assert mask == init + [mask[|mask| - 1]];
    }
  }

  /** An element is kept iff it sits at a position whose mask entry is `want`. */
  lemma {:induction false} FilterMember<T>(xs: seq<T>, mask: seq<bool>, want: bool, x: T)
    requires |mask| == |xs|
    ensures x in Filter(xs, mask, want) <==> exists i :: 0 <= i < |xs| && xs[i] == x && mask[i] == want
    decreases |xs|
  {
    if xs != [] {
      var n := |xs| - 1;
      FilterMember(xs[..n], mask[..n], want, x);
      if exists i :: 0 <= i < |xs| && xs[i] == x && mask[i] == want {
        var i :| 0 <= i < |xs| && xs[i] == x && mask[i] == want;
        if i < n {
          assert xs[..n][i] == x && mask[..n][i] == want;
        }
      }
      if exists i :: 0 <= i < n && xs[..n][i] == x && mask[..n][i] == want {
        var i :| 0 <= i < n && xs[..n][i] == x && mask[..n][i] == want;
        assert xs[i] == x && mask[i] == want;
      }
    }
  }

  predicate Increasing(xs: seq<int>)
  {
    forall i, j :: 0 <= i < j < |xs| ==> xs[i] < xs[j]
  }

  /** Filtering keeps the original order: an increasing sequence stays so. */
  lemma {:induction false} FilterIncreasing(xs: seq<int>, mask: seq<bool>, want: bool)
    requires |mask| == |xs| && Increasing(xs)
    ensures Increasing(Filter(xs, mask, want))
    decreases |xs|
  {
    if xs != [] {
      var n := |xs| - 1;
      assert Increasing(xs[..n]);
      FilterIncreasing(xs[..n], mask[..n], want);
      var rest := Filter(xs[..n], mask[..n], want);
      forall y | y in rest
        ensures y < xs[n]
      {
        FilterMember(xs[..n], mask[..n], want, y);
      }
      if mask[n] == want {
        var r := rest + [xs[n]];
        forall i, j | 0 <= i < j < |r|
          ensures r[i] < r[j]
        {
          if j == |rest| {
            assert r[i] in rest;
          } else {
            assert r[i] == rest[i] && r[j] == rest[j];
          }
        }
      }
    }
  }

  /** A pandas DataFrame, which the pipeline updates in place. */
  class Frame {
    var columns: seq<string>
    var index: seq<int>
    var rows: seq<seq<Value>>

    function Snapshot(): Table
      reads this
    {
      Table(columns, index, rows)
    }

    constructor (t: Table)
      ensures Snapshot() == t
    {
      columns, index, rows := t.columns, t.index, t.rows;
    }
  }
}
