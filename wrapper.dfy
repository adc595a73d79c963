/** Schema enforcement: permissive dtype casts, the bad-date partition, the
    strict raise, the append-only quarantine store and date normalisation.

    pandas' parsers are oracles, applied one cell at a time: `to_numeric`
    through `parseNumber`, the `Int64` cast of a float through `floatToInt`,
    `to_datetime(format=fmt)` through `parsesAs`, the format-free
    `to_datetime` through `parseLenient` (to a timestamp) and
    `Series.dt.strftime` through `strftime`. The partition logic is concrete. */
module Wrapper {
  import opened Values
  import opened Policy

  const QuarantineFile := "quarantine_raw.csv"
  const ReasonColumn := "quarantine_reason"
  const InvalidDate := "invalid_date_format"
  const SampleSize := 5

  /** What `pd.to_numeric` makes of a text cell it can parse. */
  datatype Number = IntNum(n: int) | FloatNum(text: string)

  datatype Oracles = Oracles(
    parseNumber: string -> Option<Number>,
    floatToInt: string -> Option<int>,
    parsesAs: (Value, string) -> bool,
    parseLenient: Value -> Option<int>,
    strftime: (int, string) -> string)

  /** `{quarantined_rows, quarantine_path}`. */
  datatype Info = Info(quarantinedRows: nat, quarantinePath: Option<string>)

  const DefaultInfo := Info(0, None)

  datatype SchemaError =
    | DatesViolate(count: nat, format: string, sample: seq<string>)
    | StoreFailed(path: string)

  /** `pd.to_numeric(errors="coerce")` on one cell: numbers stay, text is
      parsed, and anything unparseable (None included) becomes NaN. */
  function Numeric(v: Value, o: Oracles): (r: Value)
    ensures r.Int? || r.Float?
    ensures v.Int? || v.Float? ==> r == v
    ensures v.Null? ==> r == Float("nan")
    ensures v.Str? ==> r == match o.parseNumber(v.s)
      case None => Float("nan")
      case Some(IntNum(n)) => Int(n)
      case Some(FloatNum(x)) => Float(x)
  {
    match v
    case Int(_) => v
    case Float(_) => v
    case Null => Float("nan")
    case Str(s) =>
      match o.parseNumber(s)
      case Some(IntNum(n)) => Int(n)
      case Some(FloatNum(t)) => Float(t)
      case None => Float("nan")
  }

  /** `.astype("Int64")` on one numeric cell: NaN becomes NA, an integral
      float its integer; any other float makes the cast raise (None). */
  function ToInt64(v: Value, o: Oracles): Option<Value>
  {
    match v
    case Int(_) => Some(v)
    case Float(t) =>
      if t == "nan" then Some(Null)
      else (match o.floatToInt(t) case Some(n) => Some(Int(n)) case None => None)
    case _ => None
  }

  /** `.astype("string")` on one cell: missing cells become NA. */
  function AsString(v: Value): Value
  {
    if IsMissing(v) then Null else Str(Render(v))
  }

  /** The new column for one `dtypes` entry, or None when the column stays
      as it is: the cast raised, or the type name is not one of the three. */
  function CastCells(cells: seq<Value>, typ: string, o: Oracles): Option<seq<Value>>
  {
    if typ == "float" then
      Some(seq(|cells|, i requires 0 <= i < |cells| => Numeric(cells[i], o)))
    else if typ == "int" then
      if forall i :: 0 <= i < |cells| ==> ToInt64(Numeric(cells[i], o), o).Some? then
        Some(seq(|cells|, i requires 0 <= i < |cells| => ToInt64(Numeric(cells[i], o), o).value))
      else None
    else if typ == "str" then
      Some(seq(|cells|, i requires 0 <= i < |cells| => AsString(cells[i])))
    else None
  }

  /** One `dtypes` entry applied to the table; absent columns are skipped. */
  function CastOne(t: Table, entry: (string, string), o: Oracles): (r: Table)
    requires WellFormed(t)
    ensures WellFormed(r) && r.columns == t.columns && r.index == t.index && |r.rows| == |t.rows|
  {
    var k := ColumnIndex(t.columns, entry.0);
    if k == |t.columns| then t
    else
      match CastCells(Column(t, k), entry.1, o)
      case Some(cells) => if |cells| == |t.rows| then SetColumn(t, k, cells) else t
      case None => t
  }

  /** Every `dtypes` entry in order. */
  function Casts(t: Table, dtypes: seq<(string, string)>, o: Oracles): (r: Table)
    requires WellFormed(t)
    ensures WellFormed(r) && r.columns == t.columns && r.index == t.index && |r.rows| == |t.rows|
    decreases |dtypes|
  {
    if dtypes == [] then t
    else CastOne(Casts(t, dtypes[..|dtypes| - 1], o), dtypes[|dtypes| - 1], o)
  }

  /** A date is bad when it is present and fails the strict parse. */
  predicate IsBad(v: Value, fmt: string, o: Oracles)
  {
    !IsMissing(v) && !o.parsesAs(v, fmt)
  }

  function BadMask(dates: seq<Value>, fmt: string, o: Oracles): (mask: seq<bool>)
    ensures |mask| == |dates|
    ensures forall i :: 0 <= i < |dates| ==> mask[i] == IsBad(dates[i], fmt, o)
  {
    seq(|dates|, i requires 0 <= i < |dates| => IsBad(dates[i], fmt, o))
  }

  function Renders(vs: seq<Value>): (r: seq<string>)
    ensures |r| == |vs|
    ensures forall i :: 0 <= i < |vs| ==> r[i] == Render(vs[i])
  {
    seq(|vs|, i requires 0 <= i < |vs| => Render(vs[i]))
  }

  /** `df.loc[bad_mask, "date"].astype(str).head().tolist()`. */
  function Sample(dates: seq<Value>, bad: seq<bool>): seq<string>
    requires |bad| == |dates|
  {
    var r := Renders(Filter(dates, bad, true));
    if |r| <= SampleSize then r else r[..SampleSize]
  }

  /** `df.loc[mask]` for the rows whose mask entry is `want`. */
  function SelectRows(t: Table, mask: seq<bool>, want: bool): (r: Table)
    requires WellFormed(t) && |mask| == |t.rows|
    ensures WellFormed(r) && r.columns == t.columns
    ensures r.index == Filter(t.index, mask, want) && r.rows == Filter(t.rows, mask, want)
  {
    var rows := Filter(t.rows, mask, want);
    FilterSplit(t.index, mask);
    FilterSplit(t.rows, mask);
    assert forall i :: 0 <= i < |rows| ==> |rows[i]| == |t.columns| by {
      forall i | 0 <= i < |rows|
        ensures |rows[i]| == |t.columns|
      {
        FilterMember(t.rows, mask, want, rows[i]);
      }
    }
    Table(t.columns, Filter(t.index, mask, want), rows)
  }

  /** The rows sent to quarantine, with the reason column set (added at the
      end, or overwritten when the table already has one). */
  function Batch(t: Table, bad: seq<bool>): Table
    requires WellFormed(t) && |bad| == |t.rows|
  {
    var b := SelectRows(t, bad, true);
    var k := ColumnIndex(t.columns, ReasonColumn);
    if k < |t.columns| then
      Table(b.columns, b.index, seq(|b.rows|, i requires 0 <= i < |b.rows| => b.rows[i][k := Str(InvalidDate)]))
    else
      Table(b.columns + [ReasonColumn], b.index, seq(|b.rows|, i requires 0 <= i < |b.rows| => b.rows[i] + [Str(InvalidDate)]))
  }

  /** One date re-rendered with `fmt` through the lenient parse; NaT gives NaN. */
  function DateCell(v: Value, fmt: string, o: Oracles): Value
  {
    if IsMissing(v) then Float("nan")
    else
      match o.parseLenient(v)
      case Some(d) => Str(o.strftime(d, fmt))
      case None => Float("nan")
  }

  function NormaliseDates(t: Table, k: nat, fmt: string, o: Oracles): (r: Table)
    requires WellFormed(t) && k < |t.columns|
    ensures WellFormed(r) && r.columns == t.columns && r.index == t.index && |r.rows| == |t.rows|
  {
    var dates := Column(t, k);
    SetColumn(t, k, seq(|dates|, i requires 0 <= i < |dates| => DateCell(dates[i], fmt, o)))
  }

  /** An `out_dir` Python treats as true. */
  predicate Truthy(outDir: Option<string>)
  {
    outDir.Some? && outDir.value != ""
  }

  function QuarantinePath(dir: string): string
  {
    dir + "/" + QuarantineFile
  }

  /** The `date` column after the casts. */
  function Dates(t: Table, schema: Schema, o: Oracles): (dates: seq<Value>)
    requires WellFormed(t) && "date" in t.columns
    ensures |dates| == |t.rows|
  {
    var c := Casts(t, schema.dtypes, o);
    Column(c, ColumnIndex(c.columns, "date"))
  }

  /** `bad_mask`; no row is bad in a table without a `date` column. */
  function BadRows(t: Table, schema: Schema, o: Oracles): (bad: seq<bool>)
    requires WellFormed(t)
    ensures |bad| == |t.rows|
  {
    if "date" in t.columns then BadMask(Dates(t, schema, o), DateFormat(schema), o)
    else seq(|t.rows|, i => false)
  }

  /** Whether enforcement drops the bad rows into a filtered copy. */
  predicate Splits(t: Table, schema: Schema, strict: bool, outDir: Option<string>, writable: bool, o: Oracles)
    requires WellFormed(t)
  {
    && schema.strictDates
    && true in BadRows(t, schema, o)
    && !strict
    && (!Truthy(outDir) || writable)
  }

  /** `enforce_schema` on a table, given whether the quarantine store can be
      written. */
  function Enforced(t: Table, schema: Schema, strict: bool, outDir: Option<string>, writable: bool, o: Oracles)
    : (r: Result<(Table, Info), SchemaError>)
    requires WellFormed(t)
    ensures r.Ok? ==> WellFormed(r.value.0) && r.value.0.columns == t.columns
  {
    var c := Casts(t, schema.dtypes, o);
    var fmt := DateFormat(schema);
    var k := ColumnIndex(c.columns, "date");
    if k == |c.columns| then Ok((c, DefaultInfo))
    else
      var bad := BadRows(t, schema, o);
      if schema.strictDates && true in bad then
        if strict then Err(DatesViolate(Count(bad), fmt, Sample(Dates(t, schema, o), bad)))
        else if Truthy(outDir) && !writable then Err(StoreFailed(QuarantinePath(outDir.value)))
        else
          var info := if Truthy(outDir) then Info(Count(bad), Some(QuarantinePath(outDir.value))) else DefaultInfo;
          Ok((NormaliseDates(SelectRows(c, bad, false), k, fmt, o), info))
      else Ok((NormaliseDates(c, k, fmt, o), DefaultInfo))
  }

  /** What the caller's frame holds afterwards: casts and the date rewrite
      act on it in place, but once the bad rows are split off the rewrite
      acts on the filtered copy, and a raise leaves it cast only. */
  function CallerView(t: Table, schema: Schema, strict: bool, outDir: Option<string>, writable: bool, o: Oracles): (v: Table)
    requires WellFormed(t)
    ensures WellFormed(v) && v.columns == t.columns
  {
    var r := Enforced(t, schema, strict, outDir, writable, o);
    if r.Ok? && !Splits(t, schema, strict, outDir, writable, o) then r.value.0
    else Casts(t, schema.dtypes, o)
  }

  /** The batch appended to the store, if any. */
  function Quarantined(t: Table, schema: Schema, strict: bool, outDir: Option<string>, writable: bool, o: Oracles): Option<Table>
    requires WellFormed(t)
  {
    if Splits(t, schema, strict, outDir, writable, o) && Truthy(outDir) then
      Some(Batch(Casts(t, schema.dtypes, o), BadRows(t, schema, o)))
    else None
  }

  /** A line of the quarantine CSV file. */
  datatype Line = Header(names: seq<string>) | Record(cells: seq<Value>)

  function Records(rows: seq<seq<Value>>): (r: seq<Line>)
    ensures |r| == |rows|
    ensures forall i :: 0 <= i < |rows| ==> r[i] == Record(rows[i])
  {
    seq(|rows|, i requires 0 <= i < |rows| => Record(rows[i]))
  }

  /** `to_csv(mode="a", header=not exists)`: the header goes first only into
      a new file; rows are appended after what is already there. */
  function Appended(present: bool, lines: seq<Line>, batch: Table): seq<Line>
  {
    lines + (if present then [] else [Header(batch.columns)]) + Records(batch.rows)
  }

  /** A CSV file as appends leave it: absent and empty, or a header then records. */
  predicate FileShape(present: bool, lines: seq<Line>)
  {
    && (present <==> lines != [])
    && (lines != [] ==> lines[0].Header?)
    && forall i :: 0 < i < |lines| ==> lines[i].Record?
  }

  /** The store is append-only: the old lines stay a prefix, one header at
      most is ever written, and exactly the batch's rows are added. */
  lemma AppendOnly(present: bool, lines: seq<Line>, batch: Table)
    requires FileShape(present, lines)
    ensures FileShape(true, Appended(present, lines, batch))
    ensures lines <= Appended(present, lines, batch)
    ensures |Appended(present, lines, batch)| == |lines| + (if present then 0 else 1) + |batch.rows|
    ensures Appended(present, lines, batch)[|Appended(present, lines, batch)| - |batch.rows|..] == Records(batch.rows)
  {
    var a := Appended(present, lines, batch);
    var extra := if present then [] else [Header(batch.columns)];
    assert a == lines + extra + Records(batch.rows);
    forall i | 0 < i < |a|
      ensures a[i].Record?
    {
      if i < |lines| {
        assert a[i] == lines[i];
      } else {
        assert a[i] == Records(batch.rows)[i - |lines| - |extra|];
      }
    }
    if !present {
      assert a[0] == Header(batch.columns);
    } else {
      assert a[0] == lines[0];
    }
  }

  /** The quarantine CSV file, `out_dir/quarantine_raw.csv`. */
  class QuarantineStore {
    var present: bool
    var lines: seq<Line>
    var writable: bool

    constructor (lines: seq<Line>, writable: bool)
      ensures this.present == (lines != []) && this.lines == lines && this.writable == writable
    {
      this.present := lines != [];
      this.lines := lines;
      this.writable := writable;
    }

    /** Append a batch, or fail without touching the file. */
    method Append(batch: Table) returns (ok: bool)
      modifies this
      ensures ok == old(writable) && writable == old(writable)
      ensures ok ==> present && lines == Appended(old(present), old(lines), batch)
      ensures !ok ==> present == old(present) && lines == old(lines)
    {
      if !writable {
        return false;
      }
      lines := Appended(present, lines, batch);
      present := true;
      return true;
    }
  }

  /** The casts of `enforce_schema`, column by column in `dtypes` order,
      each one in place on `df`. */
  method ApplyCasts(df: Frame, dtypes: seq<(string, string)>, o: Oracles)
    requires WellFormed(df.Snapshot())
    modifies df
    ensures df.Snapshot() == Casts(old(df.Snapshot()), dtypes, o)
  {
    ghost var t0 := df.Snapshot();
    var i := 0;
    while i < |dtypes|
      invariant 0 <= i <= |dtypes|
      invariant df.Snapshot() == Casts(t0, dtypes[..i], o)
    {
      ghost var before := df.Snapshot();
      var (col, typ) := dtypes[i];
      var k := ColumnIndex(df.columns, col);
      if k < |df.columns| {
        var cells := CastCells(Column(df.Snapshot(), k), typ, o);
        if cells.Some? && |cells.value| == |df.rows| {
          df.rows := SetColumn(df.Snapshot(), k, cells.value).rows;
        }
      }
      assert df.Snapshot() == CastOne(before, dtypes[i], o);
      assert dtypes[..i + 1][..i] == dtypes[..i];
      assert Casts(t0, dtypes[..i + 1], o) == CastOne(Casts(t0, dtypes[..i], o), dtypes[i], o);
      i := i + 1;
    }
    assert dtypes[..i] == dtypes;
  }

  /** `enforce_schema(df, schema, strict, out_dir)`: casts then date
      handling, in place on `df` until the bad rows are split off. */
  method EnforceSchema(df: Frame, schema: Schema, strict: bool, outDir: Option<string>, store: QuarantineStore, o: Oracles)
    returns (r: Result<(Frame, Info), SchemaError>)
    requires WellFormed(df.Snapshot())
    modifies df, store
    ensures var want := Enforced(old(df.Snapshot()), schema, strict, outDir, old(store.writable), o);
      && (r.Ok? <==> want.Ok?)
      && (r.Ok? ==> r.value.0.Snapshot() == want.value.0 && r.value.1 == want.value.1)
      && (r.Err? ==> r.error == want.error)
    ensures df.Snapshot() == CallerView(old(df.Snapshot()), schema, strict, outDir, old(store.writable), o)
    ensures r.Ok? && !Splits(old(df.Snapshot()), schema, strict, outDir, old(store.writable), o) ==> r.value.0 == df
    ensures r.Ok? && Splits(old(df.Snapshot()), schema, strict, outDir, old(store.writable), o) ==> fresh(r.value.0)
    ensures store.writable == old(store.writable)
    ensures match Quarantined(old(df.Snapshot()), schema, strict, outDir, old(store.writable), o)
      case Some(batch) => store.present && store.lines == Appended(old(store.present), old(store.lines), batch)
      case None => store.present == old(store.present) && store.lines == old(store.lines)
  {
    ghost var t0 := df.Snapshot();
    ApplyCasts(df, schema.dtypes, o);
    var k := ColumnIndex(df.columns, "date");
    if k == |df.columns| {
      assert "date" !in t0.columns;
      assert !Splits(t0, schema, strict, outDir, store.writable, o);
      return Ok((df, DefaultInfo));
    }
    r := EnforceDates(df, t0, k, schema, strict, outDir, store, o);
  }

  /** The date handling of `enforce_schema`, on the frame after its casts. */
  method EnforceDates(df: Frame, ghost t0: Table, k: nat, schema: Schema, strict: bool, outDir: Option<string>,
                      store: QuarantineStore, o: Oracles)
    returns (r: Result<(Frame, Info), SchemaError>)
    requires WellFormed(t0) && df.Snapshot() == Casts(t0, schema.dtypes, o)
    requires k == ColumnIndex(df.columns, "date") < |df.columns|
    modifies df, store
    ensures var want := Enforced(t0, schema, strict, outDir, old(store.writable), o);
      && (r.Ok? <==> want.Ok?)
      && (r.Ok? ==> r.value.0.Snapshot() == want.value.0 && r.value.1 == want.value.1)
      && (r.Err? ==> r.error == want.error)
    ensures df.Snapshot() == CallerView(t0, schema, strict, outDir, old(store.writable), o)
    ensures r.Ok? && !Splits(t0, schema, strict, outDir, old(store.writable), o) ==> r.value.0 == df
    ensures r.Ok? && Splits(t0, schema, strict, outDir, old(store.writable), o) ==> fresh(r.value.0)
    ensures store.writable == old(store.writable)
    ensures match Quarantined(t0, schema, strict, outDir, old(store.writable), o)
      case Some(batch) => store.present && store.lines == Appended(old(store.present), old(store.lines), batch)
      case None => store.present == old(store.present) && store.lines == old(store.lines)
  {
    var c := df.Snapshot();
    ghost var w := store.writable;
    var fmt := DateFormat(schema);
    var dates := Column(df.Snapshot(), k);
    var bad := BadMask(dates, fmt, o);
    assert "date" in t0.columns && dates == Dates(t0, schema, o);
    assert bad == BadRows(t0, schema, o);
    if !(schema.strictDates && true in bad) {
      assert !Splits(t0, schema, strict, outDir, w, o);
      assert Enforced(t0, schema, strict, outDir, w, o) == Ok((NormaliseDates(c, k, fmt, o), DefaultInfo));
      df.rows := NormaliseDates(c, k, fmt, o).rows;
      return Ok((df, DefaultInfo));
    }
    if strict {
      assert !Splits(t0, schema, strict, outDir, w, o);
      return Err(DatesViolate(Count(bad), fmt, Sample(dates, bad)));
    }
    var info := DefaultInfo;
    if Truthy(outDir) {
      var path := QuarantinePath(outDir.value);
      var ok := store.Append(Batch(c, bad));
      if !ok {
        assert !Splits(t0, schema, strict, outDir, w, o);
        return Err(StoreFailed(path));
      }
      info := Info(Count(bad), Some(path));
    }
    assert Splits(t0, schema, strict, outDir, w, o);
    var kept := SelectRows(c, bad, false);
    assert Enforced(t0, schema, strict, outDir, w, o) == Ok((NormaliseDates(kept, k, fmt, o), info));
    var out := new Frame(NormaliseDates(kept, k, fmt, o));
    return Ok((out, info));
  }


  /** A present column declared `float` ends up numeric: numbers are kept,
      unparseable text and None become NaN, and no other cell changes. */
  lemma FloatCast(t: Table, col: string, o: Oracles)
    requires WellFormed(t) && col in t.columns
    ensures var r := CastOne(t, (col, "float"), o);
      var k := ColumnIndex(t.columns, col);
      forall i, j :: 0 <= i < |t.rows| && 0 <= j < |t.columns| ==>
        r.rows[i][j] == if j == k then Numeric(t.rows[i][j], o) else t.rows[i][j]
  {
  }

  /** A column declared `int` is cast whole or not at all: when some cell's
      number is a non-integral float the table is unchanged, otherwise every
      cell becomes its integer, a cell that coerces to NaN becomes NA, and
      no other column changes. */
  lemma IntCastAllOrNothing(t: Table, col: string, o: Oracles)
    requires WellFormed(t) && col in t.columns
    ensures var r := CastOne(t, (col, "int"), o);
      var k := ColumnIndex(t.columns, col);
      if exists i :: 0 <= i < |t.rows| && ToInt64(Numeric(t.rows[i][k], o), o).None? then r == t
      else
        && (forall i :: 0 <= i < |t.rows| ==> r.rows[i][k].Int? || r.rows[i][k] == Null)
        && (forall i :: 0 <= i < |t.rows| && Numeric(t.rows[i][k], o) == Float("nan") ==> r.rows[i][k] == Null)
        && (forall i, j :: 0 <= i < |t.rows| && 0 <= j < |t.columns| ==>
              r.rows[i][j] == if j == k then ToInt64(Numeric(t.rows[i][j], o), o).value else t.rows[i][j])
  {
    var k := ColumnIndex(t.columns, col);
    var cells := Column(t, k);
    if exists i :: 0 <= i < |t.rows| && ToInt64(Numeric(t.rows[i][k], o), o).None? {
      var i :| 0 <= i < |t.rows| && ToInt64(Numeric(t.rows[i][k], o), o).None?;
      assert ToInt64(Numeric(cells[i], o), o).None?;
    } else {
      IntCastValues(t, col, o);
    }
  }

  /** When every cell of the column converts, the cast writes each cell's
      conversion into that column and nothing else. */
  lemma IntCastValues(t: Table, col: string, o: Oracles)
    requires WellFormed(t) && col in t.columns
    requires var k := ColumnIndex(t.columns, col);
      forall i :: 0 <= i < |t.rows| ==> ToInt64(Numeric(t.rows[i][k], o), o).Some?
    ensures var r := CastOne(t, (col, "int"), o);
      var k := ColumnIndex(t.columns, col);
      forall i, j :: 0 <= i < |t.rows| && 0 <= j < |t.columns| ==>
        r.rows[i][j] == if j == k then ToInt64(Numeric(t.rows[i][j], o), o).value else t.rows[i][j]
  {
    var k := ColumnIndex(t.columns, col);
    var cells := Column(t, k);
    assert forall i :: 0 <= i < |cells| ==> cells[i] == t.rows[i][k];
  }

  /** Absent columns and type names other than float, int and str leave the
      table as it is. */
  lemma CastSkips(t: Table, col: string, typ: string, o: Oracles)
    requires WellFormed(t)
    requires col !in t.columns || typ !in ["float", "int", "str"]
    ensures CastOne(t, (col, typ), o) == t
  {
  }

  /** Null and NaN dates are never bad, whatever the format. */
  lemma MissingDatesNotBad(t: Table, schema: Schema, o: Oracles, i: int)
    requires WellFormed(t) && "date" in t.columns && 0 <= i < |t.rows|
    requires IsMissing(Dates(t, schema, o)[i])
    ensures !BadRows(t, schema, o)[i]
  {
  }

  /** With strict dates and strict mode, one bad date makes enforcement
      raise; the error counts the bad rows and samples at most five of their
      dates, in row order. */
  lemma StrictDatesRaise(t: Table, schema: Schema, outDir: Option<string>, writable: bool, o: Oracles)
    requires WellFormed(t) && "date" in t.columns
    requires schema.strictDates && true in BadRows(t, schema, o)
    ensures var r := Enforced(t, schema, true, outDir, writable, o);
      var bad := BadRows(t, schema, o);
      && r.Err? && r.error.DatesViolate?
      && r.error.count == Count(bad) > 0
      && r.error.format == DateFormat(schema)
      && |r.error.sample| == (if Count(bad) < SampleSize then Count(bad) else SampleSize)
      && (forall x :: x in r.error.sample ==>
           exists i :: 0 <= i < |t.rows| && bad[i] && x == Render(Dates(t, schema, o)[i]))
      && r.error.sample == Renders(Filter(Dates(t, schema, o), bad, true))[..|r.error.sample|]
  {
    var bad := BadRows(t, schema, o);
    var dates := Dates(t, schema, o);
    CountAny(bad);
    FilterSplit(dates, bad);
    var picked := Filter(dates, bad, true);
    var r := Enforced(t, schema, true, outDir, writable, o);
    assert r.error.sample == Sample(dates, bad);
    forall x | x in r.error.sample
      ensures exists i :: 0 <= i < |t.rows| && bad[i] && x == Render(dates[i])
    {
      var j :| 0 <= j < |r.error.sample| && r.error.sample[j] == x;
      assert x == Render(picked[j]);
      FilterMember(dates, bad, true, picked[j]);
    }
  }

  /** Without strict mode the bad rows are split off, even when there is no
      quarantine directory: the kept rows are the good rows in their original
      order, kept and quarantined rows add up to the input, and the count is
      reported only when the batch was written. Each kept row carries its
      input row's cells, with only the date normalised. */
  lemma QuarantineSplit(t: Table, schema: Schema, outDir: Option<string>, writable: bool, o: Oracles)
    requires WellFormed(t) && "date" in t.columns
    requires schema.strictDates && true in BadRows(t, schema, o)
    requires !Truthy(outDir) || writable
    ensures var r := Enforced(t, schema, false, outDir, writable, o);
      var bad := BadRows(t, schema, o);
      && r.Ok?
      && r.value.0.index == Filter(t.index, bad, false)
      && (Increasing(t.index) ==> Increasing(r.value.0.index))
      && |r.value.0.rows| + Count(bad) == |t.rows|
      && r.value.1 == (if Truthy(outDir) then Info(Count(bad), Some(QuarantinePath(outDir.value))) else DefaultInfo)
      && (Truthy(outDir) <==> Quarantined(t, schema, false, outDir, writable, o).Some?)
    ensures var r := Enforced(t, schema, false, outDir, writable, o);
      var kept := Filter(Casts(t, schema.dtypes, o).rows, BadRows(t, schema, o), false);
      forall i, j :: 0 <= i < |kept| && 0 <= j < |t.columns| ==>
        r.value.0.rows[i][j] ==
          if t.columns[j] == "date" then DateCell(kept[i][j], DateFormat(schema), o) else kept[i][j]
  {
    var bad := BadRows(t, schema, o);
    var c := Casts(t, schema.dtypes, o);
    var k := ColumnIndex(c.columns, "date");
    assert Distinct(t.columns);
    forall j | 0 <= j < |t.columns| && t.columns[j] == "date"
      ensures j == k
    {
      assert c.columns[k] == "date";
    }
    FilterSplit(c.rows, bad);
    if Increasing(t.index) {
      FilterIncreasing(t.index, bad, false);
    }
  }

  /** A written batch holds exactly the bad rows' cells, under their own
      index labels, each tagged with the reason `invalid_date_format`. */
  lemma BatchContents(t: Table, schema: Schema, outDir: Option<string>, writable: bool, o: Oracles)
    requires WellFormed(t)
    requires Quarantined(t, schema, false, outDir, writable, o).Some?
    ensures var b := Quarantined(t, schema, false, outDir, writable, o).value;
      var bad := BadRows(t, schema, o);
      && ReasonColumn in b.columns
      && b.index == Filter(t.index, bad, true)
      && |b.rows| == Count(bad) > 0
      && forall i :: 0 <= i < |b.rows| ==>
           ColumnIndex(b.columns, ReasonColumn) < |b.rows[i]| &&
           b.rows[i][ColumnIndex(b.columns, ReasonColumn)] == Str(InvalidDate)
    ensures var b := Quarantined(t, schema, false, outDir, writable, o).value;
      var picked := Filter(Casts(t, schema.dtypes, o).rows, BadRows(t, schema, o), true);
      forall i, j :: 0 <= i < |picked| && 0 <= j < |t.columns| && t.columns[j] != ReasonColumn ==>
        b.rows[i][j] == picked[i][j]
  {
    var bad := BadRows(t, schema, o);
    var c := Casts(t, schema.dtypes, o);
    var sel := SelectRows(c, bad, true);
    FilterSplit(c.rows, bad);
    CountAny(bad);
    var b := Batch(c, bad);
    if ReasonColumn !in c.columns {
      assert b.columns == c.columns + [ReasonColumn];
      assert ColumnIndex(b.columns, ReasonColumn) == |c.columns| by {
        ColumnIndexLast(c.columns, ReasonColumn);
      }
    }
  }

  /** No rows are dropped and nothing is reported when strict dates are off,
      the table has no `date` column, or no date is bad; only the date column
      is rewritten, cell by cell. */
  lemma NothingDropped(t: Table, schema: Schema, strict: bool, outDir: Option<string>, writable: bool, o: Oracles)
    requires WellFormed(t)
    requires !schema.strictDates || "date" !in t.columns || true !in BadRows(t, schema, o)
    ensures var r := Enforced(t, schema, strict, outDir, writable, o);
      var c := Casts(t, schema.dtypes, o);
      && r.Ok?
      && r.value.0.index == t.index && |r.value.0.rows| == |t.rows|
      && r.value.1 == DefaultInfo
      && Quarantined(t, schema, strict, outDir, writable, o).None?
      && CallerView(t, schema, strict, outDir, writable, o) == r.value.0
      && forall i, j :: 0 <= i < |t.rows| && 0 <= j < |t.columns| ==>
           r.value.0.rows[i][j] ==
             if t.columns[j] == "date" then DateCell(c.rows[i][j], DateFormat(schema), o) else c.rows[i][j]
  {
    var c := Casts(t, schema.dtypes, o);
    var k := ColumnIndex(c.columns, "date");
    assert Distinct(t.columns);
    forall j | 0 <= j < |t.columns| && t.columns[j] == "date"
      ensures j == k
    {
      assert c.columns[k] == "date";
    }
  }

  /** Every date that survives enforcement is either rendered with the
      format from some timestamp or NaN. */
  lemma DatesNormalised(t: Table, schema: Schema, strict: bool, outDir: Option<string>, writable: bool, o: Oracles)
    requires WellFormed(t) && "date" in t.columns
    requires Enforced(t, schema, strict, outDir, writable, o).Ok?
    ensures var r := Enforced(t, schema, strict, outDir, writable, o).value.0;
      var k := ColumnIndex(t.columns, "date");
      forall i :: 0 <= i < |r.rows| ==>
        r.rows[i][k] == Float("nan") || exists d :: r.rows[i][k] == Str(o.strftime(d, DateFormat(schema)))
  {
    var r := Enforced(t, schema, strict, outDir, writable, o).value.0;
    var c := Casts(t, schema.dtypes, o);
    var k := ColumnIndex(c.columns, "date");
    var fmt := DateFormat(schema);
    var bad := BadRows(t, schema, o);
    var src := if schema.strictDates && true in bad then SelectRows(c, bad, false) else c;
    assert r == NormaliseDates(src, k, fmt, o);
    forall i | 0 <= i < |r.rows|
      ensures r.rows[i][k] == Float("nan") || exists d :: r.rows[i][k] == Str(o.strftime(d, fmt))
    {
      var v := Column(src, k)[i];
      assert r.rows[i][k] == DateCell(v, fmt, o);
      if !IsMissing(v) && o.parseLenient(v).Some? {
        assert r.rows[i][k] == Str(o.strftime(o.parseLenient(v).value, fmt));
      }
    }
  }
}
