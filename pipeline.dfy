/** The body of `process` without its file I/O: the required-column check,
    schema enforcement, hit application with its action log, the masked copy
    of the quarantine file and the governance totals, with the strict and
    non-strict routing of every failure.

    Whether applying one hit raises (the `astype("string")` of the column,
    the transform or the cell write) is an oracle `fails` on the hit: a
    failing hit writes nothing and logs no action. */
module Pipeline {
  import opened Values
  import opened Policy
  import opened Tokenizer
  import opened Detector
  import opened Wrapper

  const MaskedQuarantineFile := "quarantine_masked.csv"

  /** One entry of `actions_applied`. */
  datatype ActionRecord = ActionRecord(row: int, field: string, action: string)

  /** The failures that end a strict run (`human_exit`). */
  datatype ProcessError =
    | MissingRequired(missing: seq<string>)
    | SchemaFailed(schemaError: SchemaError)
    | DetectionFailed(row: int, detectError: DetectError)
    | TransformFailed(row: int, field: string)

  /** The cell a hit writes: a token, a last-four mask, or nothing for any
      other action name. */
  function Transform(mac: Mac, h: Hit): Option<Value>
    requires DigestSized(mac)
  {
    if h.action == Tokenize then Some(Str(Tok(mac, Some(h.value), h.field).value))
    else if h.action == MaskLast4Action then Some(Str(MaskLast4(Some(h.value)).value))
    else None
  }

  /** `df.at[idx, field] = v` on one row. A hit always names a column of its
      row, so the position is always found. */
  function WriteCell(columns: seq<string>, cells: seq<Value>, field: string, v: Option<Value>): (r: seq<Value>)
    requires |cells| == |columns|
    ensures |r| == |columns|
  {
    var k := ColumnIndex(columns, field);
    if v.Some? && k < |columns| then cells[k := v.value] else cells
  }

  /** The hits of one row applied in order. Every hit transforms the value
      the detector captured, never a value written by an earlier hit. */
  function ApplyHits(columns: seq<string>, cells: seq<Value>, hits: seq<Hit>, idx: int,
                     mac: Mac, fails: Hit -> bool, strict: bool): (r: Result<(seq<Value>, seq<ActionRecord>), ProcessError>)
    requires |cells| == |columns| && DigestSized(mac)
    ensures r.Ok? ==> |r.value.0| == |columns|
    ensures !strict ==> r.Ok?
    decreases |hits|
  {
    if hits == [] then Ok((cells, []))
    else
      match ApplyHits(columns, cells, hits[..|hits| - 1], idx, mac, fails, strict)
      case Err(e) => Err(e)
      case Ok((cs, acts)) =>
        var h := hits[|hits| - 1];
        if fails(h) then
          if strict then Err(TransformFailed(idx, h.field)) else Ok((cs, acts))
        else Ok((WriteCell(columns, cs, h.field, Transform(mac, h)), acts + [ActionRecord(idx, h.field, h.action)]))
  }

  /** The hits of a row as the loop sees them; a failed detection yields none. */
  function HitsOf(columns: seq<string>, cells: seq<Value>, policy: Policy, re: Regex): seq<Hit>
    requires |cells| == |columns|
  {
    var d := Detect(RowDict(columns, cells), policy, re);
    if d.Ok? then d.value else []
  }

  /** One row of the loop: detection, then the hits in order. */
  function MaskRow(columns: seq<string>, cells: seq<Value>, idx: int, policy: Policy, strict: bool,
                   mac: Mac, re: Regex, fails: Hit -> bool): (r: Result<(seq<Value>, seq<ActionRecord>), ProcessError>)
    requires |cells| == |columns| && DigestSized(mac)
    ensures r.Ok? ==> |r.value.0| == |columns|
    ensures !strict ==> r.Ok?
  {
    match Detect(RowDict(columns, cells), policy, re)
    case Err(e) => if strict then Err(DetectionFailed(idx, e)) else Ok((cells, []))
    case Ok(hits) => ApplyHits(columns, cells, hits, idx, mac, fails, strict)
  }

  predicate Rectangular(columns: seq<string>, rows: seq<seq<Value>>)
  {
    forall i :: 0 <= i < |rows| ==> |rows[i]| == |columns|
  }

  /** Every row in index order; the first strict failure ends the pass. */
  function MaskAll(columns: seq<string>, index: seq<int>, rows: seq<seq<Value>>, policy: Policy, strict: bool,
                   mac: Mac, re: Regex, fails: Hit -> bool): (r: Result<(seq<seq<Value>>, seq<ActionRecord>), ProcessError>)
    requires |index| == |rows| && Rectangular(columns, rows) && DigestSized(mac)
    ensures r.Ok? ==> |r.value.0| == |rows| && Rectangular(columns, r.value.0)
    ensures !strict ==> r.Ok?
    decreases |rows|
  {
    if rows == [] then Ok(([], []))
    else
      var n := |rows| - 1;
      match MaskAll(columns, index[..n], rows[..n], policy, strict, mac, re, fails)
      case Err(e) => Err(e)
      case Ok((done, acts)) =>
        match MaskRow(columns, rows[n], index[n], policy, strict, mac, re, fails)
        case Err(e) => Err(e)
        case Ok((cells, more)) => Ok((done + [cells], acts + more))
  }

  /** The inner loop of `process` over one row's hits: each hit writes its
      cell of row `i` in place and logs its action. */
  method ApplyRowHits(df: Frame, i: nat, hits: seq<Hit>, mac: Mac, fails: Hit -> bool, strict: bool)
    returns (r: Result<seq<ActionRecord>, ProcessError>)
    requires i < |df.rows| == |df.index| && |df.rows[i]| == |df.columns| && DigestSized(mac)
    modifies df
    ensures df.columns == old(df.columns) && df.index == old(df.index)
    ensures var want := ApplyHits(old(df.columns), old(df.rows[i]), hits, old(df.index[i]), mac, fails, strict);
      && (r.Ok? <==> want.Ok?)
      && (r.Ok? ==> df.rows == old(df.rows)[i := want.value.0] && r.value == want.value.1)
      && (r.Err? ==> r.error == want.error)
  {
    ghost var rows0 := df.rows;
    var columns, idx, cells := df.columns, df.index[i], df.rows[i];
    var actions: seq<ActionRecord> := [];
    var j := 0;
    while j < |hits|
      invariant 0 <= j <= |hits|
      invariant df.columns == columns && df.index == old(df.index)
      invariant |df.rows| == |rows0| && df.rows == rows0[i := df.rows[i]]
      invariant ApplyHits(columns, cells, hits[..j], idx, mac, fails, strict) == Ok((df.rows[i], actions))
    {
      assert hits[..j + 1][..j] == hits[..j] && hits[..j + 1][j] == hits[j];
      var h := hits[j];
      if fails(h) {
        if strict {
          ApplyHitsErrSticks(columns, cells, hits, j + 1, idx, mac, fails, strict);
          return Err(TransformFailed(idx, h.field));
        }
      } else {
        df.rows := df.rows[i := WriteCell(columns, df.rows[i], h.field, Transform(mac, h))];
        actions := actions + [ActionRecord(idx, h.field, h.action)];
      }
      j := j + 1;
    }
    assert hits[..j] == hits;
    return Ok(actions);
  }

  /** The body of the row loop for row `i`: detection, then its hits. */
  method MaskOneRow(df: Frame, i: nat, policy: Policy, strict: bool, mac: Mac, re: Regex, fails: Hit -> bool)
    returns (r: Result<seq<ActionRecord>, ProcessError>)
    requires i < |df.rows| == |df.index| && |df.rows[i]| == |df.columns| && DigestSized(mac)
    modifies df
    ensures df.columns == old(df.columns) && df.index == old(df.index)
    ensures var want := MaskRow(old(df.columns), old(df.rows[i]), old(df.index[i]), policy, strict, mac, re, fails);
      && (r.Ok? <==> want.Ok?)
      && (r.Ok? ==> df.rows == old(df.rows)[i := want.value.0] && r.value == want.value.1)
      && (r.Err? ==> r.error == want.error)
  {
    var found := DetectInRow(RowDict(df.columns, df.rows[i]), policy, re);
    if found.Err? {
      if strict {
        return Err(DetectionFailed(df.index[i], found.error));
      }
      return Ok([]);
    }
    r := ApplyRowHits(df, i, found.value, mac, fails, strict);
  }

  /** The row loop has handled the first `i` rows: they hold what the pass
      over them gives, the rest are untouched, and `actions` is its log. */
  ghost predicate Progress(columns: seq<string>, index: seq<int>, rows0: seq<seq<Value>>, i: nat,
                           rows: seq<seq<Value>>, actions: seq<ActionRecord>,
                           policy: Policy, strict: bool, mac: Mac, re: Regex, fails: Hit -> bool)
    requires |index| == |rows0| && Rectangular(columns, rows0) && DigestSized(mac) && i <= |rows0|
  {
    && |rows| == |rows0|
    && (forall j :: i <= j < |rows| ==> rows[j] == rows0[j])
    && MaskAll(columns, index[..i], rows0[..i], policy, strict, mac, re, fails) == Ok((rows[..i], actions))
  }

  lemma ProgressStep(columns: seq<string>, index: seq<int>, rows0: seq<seq<Value>>, i: nat,
                     rows: seq<seq<Value>>, actions: seq<ActionRecord>, cells: seq<Value>, more: seq<ActionRecord>,
                     policy: Policy, strict: bool, mac: Mac, re: Regex, fails: Hit -> bool)
    requires |index| == |rows0| && Rectangular(columns, rows0) && DigestSized(mac) && i < |rows0|
    requires Progress(columns, index, rows0, i, rows, actions, policy, strict, mac, re, fails)
    requires MaskRow(columns, rows0[i], index[i], policy, strict, mac, re, fails) == Ok((cells, more))
    ensures Progress(columns, index, rows0, i + 1, rows[i := cells], actions + more, policy, strict, mac, re, fails)
  {
    var next := rows[i := cells];
    assert next[..i + 1] == rows[..i] + [cells];
    MaskAllStep(columns, index, rows0, i, policy, strict, mac, re, fails);
  }

  lemma ProgressFails(columns: seq<string>, index: seq<int>, rows0: seq<seq<Value>>, i: nat,
                      rows: seq<seq<Value>>, actions: seq<ActionRecord>,
                      policy: Policy, strict: bool, mac: Mac, re: Regex, fails: Hit -> bool)
    requires |index| == |rows0| && Rectangular(columns, rows0) && DigestSized(mac) && i < |rows0|
    requires Progress(columns, index, rows0, i, rows, actions, policy, strict, mac, re, fails)
    requires MaskRow(columns, rows0[i], index[i], policy, strict, mac, re, fails).Err?
    ensures MaskAll(columns, index, rows0, policy, strict, mac, re, fails) == Err(MaskRow(columns, rows0[i], index[i], policy, strict, mac, re, fails).error)
  {
    assert rows0[..i + 1][..i] == rows0[..i] && index[..i + 1][..i] == index[..i];
    MaskAllErrSticks(columns, index, rows0, i + 1, policy, strict, mac, re, fails);
  }

  /** The detection and masking loop of `process`, in place on `df`; it
      returns `actions_applied`. */
  method MaskRows(df: Frame, policy: Policy, strict: bool, mac: Mac, re: Regex, fails: Hit -> bool)
    returns (r: Result<seq<ActionRecord>, ProcessError>)
    requires WellFormed(df.Snapshot()) && DigestSized(mac)
    modifies df
    ensures df.columns == old(df.columns) && df.index == old(df.index)
    ensures var want := MaskAll(old(df.columns), old(df.index), old(df.rows), policy, strict, mac, re, fails);
      && (r.Ok? <==> want.Ok?)
      && (r.Ok? ==> df.rows == want.value.0 && r.value == want.value.1)
      && (r.Err? ==> r.error == want.error)
  {
    ghost var rows0 := df.rows;
    var columns, index := df.columns, df.index;
    var actions: seq<ActionRecord> := [];
    var n := |df.rows|;
    var i := 0;
    while i < n
      invariant 0 <= i <= n == |rows0| == |index|
      invariant df.columns == columns && df.index == index
      invariant Progress(columns, index, rows0, i, df.rows, actions, policy, strict, mac, re, fails)
    {
      ghost var before := df.rows;
      var more := MaskOneRow(df, i, policy, strict, mac, re, fails);
      if more.Err? {
        ProgressFails(columns, index, rows0, i, before, actions, policy, strict, mac, re, fails);
        return Err(more.error);
      }
      ProgressStep(columns, index, rows0, i, before, actions, df.rows[i], more.value, policy, strict, mac, re, fails);
      actions := actions + more.value;
      i := i + 1;
    }
    assert rows0[..i] == rows0 && index[..i] == index && df.rows[..i] == df.rows;
    return Ok(actions);
  }

  /** Once a strict failure occurs among the first `m` hits, the later hits
      do not change the outcome. */
  lemma {:induction false} ApplyHitsErrSticks(columns: seq<string>, cells: seq<Value>, hits: seq<Hit>, m: nat, idx: int,
                                              mac: Mac, fails: Hit -> bool, strict: bool)
    requires |cells| == |columns| && DigestSized(mac) && m <= |hits|
    requires ApplyHits(columns, cells, hits[..m], idx, mac, fails, strict).Err?
    ensures ApplyHits(columns, cells, hits, idx, mac, fails, strict) == ApplyHits(columns, cells, hits[..m], idx, mac, fails, strict)
    decreases |hits|
  {
    if m < |hits| {
      assert hits[..|hits| - 1][..m] == hits[..m];
      ApplyHitsErrSticks(columns, cells, hits[..|hits| - 1], m, idx, mac, fails, strict);
    } else {
      assert hits[..m] == hits;
    }
  }

  /** Once a row among the first `m` fails, the later rows do not change the
      outcome. */
  lemma {:induction false} MaskAllErrSticks(columns: seq<string>, index: seq<int>, rows: seq<seq<Value>>, m: nat,
                                            policy: Policy, strict: bool, mac: Mac, re: Regex, fails: Hit -> bool)
    requires |index| == |rows| && Rectangular(columns, rows) && DigestSized(mac) && m <= |rows|
    requires MaskAll(columns, index[..m], rows[..m], policy, strict, mac, re, fails).Err?
    ensures MaskAll(columns, index, rows, policy, strict, mac, re, fails) == MaskAll(columns, index[..m], rows[..m], policy, strict, mac, re, fails)
    decreases |rows|
  {
    if m < |rows| {
      var n := |rows| - 1;
      assert rows[..n][..m] == rows[..m] && index[..n][..m] == index[..m];
      MaskAllErrSticks(columns, index[..n], rows[..n], m, policy, strict, mac, re, fails);
    } else {
      assert rows[..m] == rows && index[..m] == index;
    }
  }

  /** The pass over the first `i + 1` rows extends the pass over the first `i`. */
  lemma MaskAllStep(columns: seq<string>, index: seq<int>, rows: seq<seq<Value>>, i: nat,
                    policy: Policy, strict: bool, mac: Mac, re: Regex, fails: Hit -> bool)
    requires |index| == |rows| && Rectangular(columns, rows) && DigestSized(mac) && i < |rows|
    requires MaskAll(columns, index[..i], rows[..i], policy, strict, mac, re, fails).Ok?
    requires MaskRow(columns, rows[i], index[i], policy, strict, mac, re, fails).Ok?
    ensures var prev := MaskAll(columns, index[..i], rows[..i], policy, strict, mac, re, fails).value;
      var step := MaskRow(columns, rows[i], index[i], policy, strict, mac, re, fails).value;
      MaskAll(columns, index[..i + 1], rows[..i + 1], policy, strict, mac, re, fails) == Ok((prev.0 + [step.0], prev.1 + step.1))
  {
    assert rows[..i + 1][..i] == rows[..i] && index[..i + 1][..i] == index[..i];
  }

  /** A hit writes its cell when it does not fail and its action has a transform. */
  predicate Writes(mac: Mac, fails: Hit -> bool, h: Hit)
    requires DigestSized(mac)
  {
    !fails(h) && Transform(mac, h).Some?
  }

  /** What applying a hit writes into its cell: its transform, unless the
      write fails or its action has no transform. */
  ghost function Outcome(mac: Mac, fails: Hit -> bool): Hit -> Option<Value>
  {
    h => if DigestSized(mac) && !fails(h) then Transform(mac, h) else None
  }

  /** The value a cell of column `f` ends with under the per-hit outcome
      `out`, read from the end of the hit list: the outcome of the last hit
      on `f` that writes, else the original value. */
  function LastWrite(orig: Value, f: string, hits: seq<Hit>, out: Hit -> Option<Value>): Value
    decreases |hits|
  {
    if hits == [] then orig
    else
      var h := hits[|hits| - 1];
      if h.field == f && out(h).Some? then out(h).value
      else LastWrite(orig, f, hits[..|hits| - 1], out)
  }

  /** The value a cell of column `f` ends with: the transform of the last
      hit on `f` that writes, else the original value. */
  ghost function FinalValue(orig: Value, f: string, hits: seq<Hit>, mac: Mac, fails: Hit -> bool): Value
    requires DigestSized(mac)
  {
    LastWrite(orig, f, hits, Outcome(mac, fails))
  }

  /** Last write wins: applying the hits in order leaves every cell with the
      value its last writing hit computed from the captured value. */
  lemma {:induction false} LastWriteWins(columns: seq<string>, cells: seq<Value>, hits: seq<Hit>, idx: int,
                                         mac: Mac, fails: Hit -> bool, strict: bool)
    requires |cells| == |columns| && Distinct(columns) && DigestSized(mac)
    requires ApplyHits(columns, cells, hits, idx, mac, fails, strict).Ok?
    ensures var out := ApplyHits(columns, cells, hits, idx, mac, fails, strict).value.0;
      forall k :: 0 <= k < |columns| ==> out[k] == FinalValue(cells[k], columns[k], hits, mac, fails)
    decreases |hits|
  {
    if hits != [] {
      var init, h := hits[..|hits| - 1], hits[|hits| - 1];
      LastWriteWins(columns, cells, init, idx, mac, fails, strict);
      var out := ApplyHits(columns, cells, hits, idx, mac, fails, strict).value.0;
      var cs := ApplyHits(columns, cells, init, idx, mac, fails, strict).value.0;
      var p := ColumnIndex(columns, h.field);
      forall k | 0 <= k < |columns|
        ensures out[k] == FinalValue(cells[k], columns[k], hits, mac, fails)
      {
        if columns[k] == h.field {
          assert p <= k;
          assert columns[p] == columns[k];
        }
      }
    }
  }

  /** A cell no writing hit names keeps its value. */
  lemma {:induction false} NoHitNoChange(orig: Value, f: string, hits: seq<Hit>, mac: Mac, fails: Hit -> bool)
    requires DigestSized(mac)
    requires forall j :: 0 <= j < |hits| && hits[j].field == f ==> !Writes(mac, fails, hits[j])
    ensures FinalValue(orig, f, hits, mac, fails) == orig
    decreases |hits|
  {
    if hits != [] {
      NoHitNoChange(orig, f, hits[..|hits| - 1], mac, fails);
    }
  }

  /** Later hits override earlier ones: once a later hit on `f` writes, the
      earlier hits on `f` (the named-field hits, before the regex hits) and
      the original value no longer matter. */
  lemma {:induction false} LaterHitsWin(x: Value, y: Value, f: string, a: seq<Hit>, b: seq<Hit>, j: nat,
                                        mac: Mac, fails: Hit -> bool)
    requires DigestSized(mac)
    requires j < |b| && b[j].field == f && Writes(mac, fails, b[j])
    ensures FinalValue(x, f, a + b, mac, fails) == FinalValue(y, f, b, mac, fails)
  {
    LaterOutcomeWins(x, y, f, a, b, j, Outcome(mac, fails));
  }

  /** The same for any per-hit outcome. */
  lemma {:induction false} LaterOutcomeWins(x: Value, y: Value, f: string, a: seq<Hit>, b: seq<Hit>, j: nat,
                                            out: Hit -> Option<Value>)
    requires j < |b| && b[j].field == f && out(b[j]).Some?
    ensures LastWrite(x, f, a + b, out) == LastWrite(y, f, b, out)
    decreases |b|
  {
    var n := |b| - 1;
    var ab := a + b;
    assert ab[..|ab| - 1] == a + b[..n] && ab[|ab| - 1] == b[n];
    if j < n && !(b[n].field == f && out(b[n]).Some?) {
      assert b[..n][j] == b[j];
      LaterOutcomeWins(x, y, f, a, b[..n], j, out);
    }
  }

  /** The hits that apply without failing, in order. */
  function Applied(hits: seq<Hit>, fails: Hit -> bool): seq<Hit>
  {
    Filter(hits, seq(|hits|, i requires 0 <= i < |hits| => fails(hits[i])), false)
  }

  function LogOf(idx: int, hs: seq<Hit>): (log: seq<ActionRecord>)
    ensures |log| == |hs|
  {
    seq(|hs|, i requires 0 <= i < |hs| => ActionRecord(idx, hs[i].field, hs[i].action))
  }

  /** The action log of a row holds one entry per hit that did not fail, in
      hit order, whatever its action name; failed hits leave no entry. */
  lemma {:induction false} LogIsApplied(columns: seq<string>, cells: seq<Value>, hits: seq<Hit>, idx: int,
                                        mac: Mac, fails: Hit -> bool, strict: bool)
    requires |cells| == |columns| && DigestSized(mac)
    requires ApplyHits(columns, cells, hits, idx, mac, fails, strict).Ok?
    ensures ApplyHits(columns, cells, hits, idx, mac, fails, strict).value.1 == LogOf(idx, Applied(hits, fails))
    decreases |hits|
  {
    if hits != [] {
      var n := |hits| - 1;
      LogIsApplied(columns, cells, hits[..n], idx, mac, fails, strict);
      var mask := seq(|hits|, i requires 0 <= i < |hits| => fails(hits[i]));
      assert mask[..n] == seq(n, i requires 0 <= i < n => fails(hits[..n][i]));
      var prev := Applied(hits[..n], fails);
      if !fails(hits[n]) {
        assert Applied(hits, fails) == prev + [hits[n]];
        assert LogOf(idx, prev + [hits[n]]) == LogOf(idx, prev) + [ActionRecord(idx, hits[n].field, hits[n].action)];
      }
    }
  }

  /** Without strict mode applying hits never fails; in strict mode it fails
      exactly when some hit fails, naming the first such hit. */
  lemma {:induction false} ApplyHitsOutcome(columns: seq<string>, cells: seq<Value>, hits: seq<Hit>, idx: int,
                                            mac: Mac, fails: Hit -> bool, strict: bool)
    requires |cells| == |columns| && DigestSized(mac)
    ensures var r := ApplyHits(columns, cells, hits, idx, mac, fails, strict);
      && (!strict ==> r.Ok?)
      && (strict ==> (r.Err? <==> exists j :: 0 <= j < |hits| && fails(hits[j])))
      && (r.Err? ==> exists j :: (0 <= j < |hits| && fails(hits[j]) && r.error == TransformFailed(idx, hits[j].field)
                                  && forall m :: 0 <= m < j ==> !fails(hits[m])))
    decreases |hits|
  {
    if hits != [] {
      var n := |hits| - 1;
      assert forall m :: 0 <= m < n ==> hits[m] == hits[..n][m];
      ApplyHitsOutcome(columns, cells, hits[..n], idx, mac, fails, strict);
      var r := ApplyHits(columns, cells, hits, idx, mac, fails, strict);
      var p := ApplyHits(columns, cells, hits[..n], idx, mac, fails, strict);
      if p.Err? {
        var j :| 0 <= j < n && fails(hits[..n][j]) && p.error == TransformFailed(idx, hits[..n][j].field)
                 && forall m :: 0 <= m < j ==> !fails(hits[..n][m]);
        assert hits[j] == hits[..n][j];
        assert forall m :: 0 <= m < j ==> hits[m] == hits[..n][m];
      } else if strict && exists j :: 0 <= j < |hits| && fails(hits[j]) {
        var j :| 0 <= j < |hits| && fails(hits[j]);
        assert j == n;
      }
    }
  }

  /** The actions one row contributes: one record per hit that applies
      without failing, in hit order; a row whose detection failed has none. */
  function RowLog(columns: seq<string>, cells: seq<Value>, idx: int, policy: Policy, re: Regex, fails: Hit -> bool)
    : seq<ActionRecord>
    requires |cells| == |columns|
  {
    LogOf(idx, Applied(HitsOf(columns, cells, policy, re), fails))
  }

  /** The row logs of every row, in row order. */
  function Logs(columns: seq<string>, index: seq<int>, rows: seq<seq<Value>>, policy: Policy, re: Regex, fails: Hit -> bool)
    : seq<ActionRecord>
    requires |index| == |rows| && Rectangular(columns, rows)
    decreases |rows|
  {
    if rows == [] then []
    else
      var n := |rows| - 1;
      Logs(columns, index[..n], rows[..n], policy, re, fails) + RowLog(columns, rows[n], index[n], policy, re, fails)
  }

  /** The log of one row is its applied hits, whatever happened in detection. */
  lemma MaskRowLog(columns: seq<string>, cells: seq<Value>, idx: int, policy: Policy, strict: bool,
                   mac: Mac, re: Regex, fails: Hit -> bool)
    requires |cells| == |columns| && DigestSized(mac)
    requires MaskRow(columns, cells, idx, policy, strict, mac, re, fails).Ok?
    ensures MaskRow(columns, cells, idx, policy, strict, mac, re, fails).value.1 == RowLog(columns, cells, idx, policy, re, fails)
  {
    var d := Detect(RowDict(columns, cells), policy, re);
    if d.Ok? {
      LogIsApplied(columns, cells, d.value, idx, mac, fails, strict);
    } else {
      assert Applied([], fails) == [];
    }
  }

  /** `actions_applied` holds exactly one `{row, field, action}` per hit that
      applied without failing, row by row and hit by hit. */
  lemma {:induction false} MaskAllLog(columns: seq<string>, index: seq<int>, rows: seq<seq<Value>>, policy: Policy, strict: bool,
                                      mac: Mac, re: Regex, fails: Hit -> bool)
    requires |index| == |rows| && Rectangular(columns, rows) && DigestSized(mac)
    requires MaskAll(columns, index, rows, policy, strict, mac, re, fails).Ok?
    ensures MaskAll(columns, index, rows, policy, strict, mac, re, fails).value.1 == Logs(columns, index, rows, policy, re, fails)
    decreases |rows|
  {
    if rows != [] {
      var n := |rows| - 1;
      MaskAllLog(columns, index[..n], rows[..n], policy, strict, mac, re, fails);
      MaskRowLog(columns, rows[n], index[n], policy, strict, mac, re, fails);
    }
  }

  /** A successful pass over the first `k` rows is a successful pass over
      the first `k - 1` followed by a successful pass over row `k - 1`. */
  lemma MaskAllPrefixSplit(columns: seq<string>, index: seq<int>, rows: seq<seq<Value>>, k: nat, policy: Policy,
                           strict: bool, mac: Mac, re: Regex, fails: Hit -> bool)
    requires |index| == |rows| && Rectangular(columns, rows) && DigestSized(mac) && 0 < k <= |rows|
    requires MaskAll(columns, index[..k], rows[..k], policy, strict, mac, re, fails).Ok?
    ensures && MaskAll(columns, index[..k - 1], rows[..k - 1], policy, strict, mac, re, fails).Ok?
            && MaskRow(columns, rows[k - 1], index[k - 1], policy, strict, mac, re, fails).Ok?
            && MaskAll(columns, index[..k], rows[..k], policy, strict, mac, re, fails).value.0
               == MaskAll(columns, index[..k - 1], rows[..k - 1], policy, strict, mac, re, fails).value.0
                  + [MaskRow(columns, rows[k - 1], index[k - 1], policy, strict, mac, re, fails).value.0]
  {
    assert rows[..k][..k - 1] == rows[..k - 1] && index[..k][..k - 1] == index[..k - 1];
    assert rows[..k][k - 1] == rows[k - 1] && index[..k][k - 1] == index[k - 1];
  }

  /** Row `i` of a pass over the first `k` rows is what masking row `i`
      alone gives. */
  lemma {:induction false} MaskPrefixAt(columns: seq<string>, index: seq<int>, rows: seq<seq<Value>>, k: nat, policy: Policy,
                                        strict: bool, mac: Mac, re: Regex, fails: Hit -> bool, i: nat)
    requires |index| == |rows| && Rectangular(columns, rows) && DigestSized(mac) && i < k <= |rows|
    requires MaskAll(columns, index[..k], rows[..k], policy, strict, mac, re, fails).Ok?
    ensures MaskRow(columns, rows[i], index[i], policy, strict, mac, re, fails).Ok?
    ensures MaskAll(columns, index[..k], rows[..k], policy, strict, mac, re, fails).value.0[i]
         == MaskRow(columns, rows[i], index[i], policy, strict, mac, re, fails).value.0
    decreases k
  {
    MaskAllPrefixSplit(columns, index, rows, k, policy, strict, mac, re, fails);
    if i < k - 1 {
      MaskPrefixAt(columns, index, rows, k - 1, policy, strict, mac, re, fails, i);
    }
  }

  /** Row `i` of the masked rows is what masking that row alone gives: rows
      are handled independently of one another. */
  lemma MaskAllAt(columns: seq<string>, index: seq<int>, rows: seq<seq<Value>>, policy: Policy, strict: bool,
                  mac: Mac, re: Regex, fails: Hit -> bool, i: nat)
    requires |index| == |rows| && Rectangular(columns, rows) && DigestSized(mac) && i < |rows|
    requires MaskAll(columns, index, rows, policy, strict, mac, re, fails).Ok?
    ensures MaskRow(columns, rows[i], index[i], policy, strict, mac, re, fails).Ok?
    ensures MaskAll(columns, index, rows, policy, strict, mac, re, fails).value.0[i]
         == MaskRow(columns, rows[i], index[i], policy, strict, mac, re, fails).value.0
  {
    assert rows[..|rows|] == rows && index[..|rows|] == index;
    MaskPrefixAt(columns, index, rows, |rows|, policy, strict, mac, re, fails, i);
  }

  /** Every cell of the masked table holds the last writing hit's transform
      of the value captured before any write, or its own value when no hit
      on its column wrote; a row whose detection failed is left as it was. */
  lemma MaskedCells(columns: seq<string>, index: seq<int>, rows: seq<seq<Value>>, policy: Policy, strict: bool,
                    mac: Mac, re: Regex, fails: Hit -> bool, i: nat, k: nat)
    requires |index| == |rows| && Rectangular(columns, rows) && Distinct(columns) && DigestSized(mac)
    requires i < |rows| && k < |columns|
    requires MaskAll(columns, index, rows, policy, strict, mac, re, fails).Ok?
    ensures var out := MaskAll(columns, index, rows, policy, strict, mac, re, fails).value.0;
      && out[i][k] == FinalValue(rows[i][k], columns[k], HitsOf(columns, rows[i], policy, re), mac, fails)
      && (Detect(RowDict(columns, rows[i]), policy, re).Err? ==> out[i] == rows[i])
  {
    MaskAllAt(columns, index, rows, policy, strict, mac, re, fails, i);
    var d := Detect(RowDict(columns, rows[i]), policy, re);
    if d.Ok? {
      LastWriteWins(columns, rows[i], d.value, index[i], mac, fails, strict);
    }
  }

  /** The totals of the governance record. */
  datatype Totals = Totals(rows: nat, actions: nat)

  /** The governance record, without the input and output file names. */
  datatype GovernanceRecord = GovernanceRecord(
    policy: Option<string>,
    policyVersion: Option<string>,
    totals: Totals,
    strictMode: bool,
    extraColumns: seq<string>,
    quarantinedRows: nat,
    quarantinePath: string,
    quarantineMaskedPath: string)

  /** What a completed run produces: the masked table, the masked copy of the
      quarantine file when one was made, and the governance record. */
  datatype Run = Run(output: Table, maskedQuarantine: Option<Table>, record: GovernanceRecord)

  /** `pd.read_csv` of the quarantine file's lines: a table, or None when
      reading (or writing the masked copy) failed. */
  type CsvReader = seq<Line> -> Option<Table>

  ghost predicate ReadsTables(read: CsvReader)
  {
    forall lines :: read(lines).Some? ==> WellFormed(read(lines).value)
  }

  /** The quarantine file after enforcement: the old lines, plus the batch
      when one was appended. */
  function StoreAfter(t: Table, schema: Schema, strict: bool, outDir: Option<string>,
                      present: bool, lines: seq<Line>, writable: bool, o: Oracles): (after: seq<Line>)
    requires WellFormed(t)
    ensures lines <= after
  {
    match Quarantined(t, schema, strict, outDir, writable, o)
    case Some(batch) => assert Appended(present, lines, batch)[..|lines|] == lines; Appended(present, lines, batch)
    case None => lines
  }

  /** The table the row loop starts from and the schema info: what
      `enforce_schema` returned, or, after a non-strict failure, the frame
      as the failed call left it with the default info. */
  function Schemaed(t: Table, schema: Schema, strict: bool, dir: string, writable: bool, o: Oracles)
    : (r: Result<(Table, Info), ProcessError>)
    requires WellFormed(t)
    ensures r.Ok? ==> WellFormed(r.value.0) && r.value.0.columns == t.columns
    ensures !strict ==> r.Ok?
  {
    var e := Enforced(t, schema, strict, Some(dir), writable, o);
    if e.Ok? then Ok(e.value)
    else if strict then Err(SchemaFailed(e.error))
    else Ok((CallerView(t, schema, strict, Some(dir), writable, o), DefaultInfo))
  }

  /** The masked copy of the quarantine file: the same detection and hit
      application, with no failure fatal and no action counted. */
  function MaskedCopy(read: Option<Table>, policy: Policy, mac: Mac, re: Regex, fails: Hit -> bool): (copy: Option<Table>)
    requires DigestSized(mac)
    requires read.Some? ==> WellFormed(read.value)
    ensures copy.Some? <==> read.Some?
    ensures copy.Some? ==> && copy.value.columns == read.value.columns && copy.value.index == read.value.index
                           && |copy.value.rows| == |read.value.rows|
  {
    match read
    case None => None
    case Some(t) => Some(Table(t.columns, t.index, MaskAll(t.columns, t.index, t.rows, policy, false, mac, re, fails).value.0))
  }

  /** The masked copy of the quarantine file is made only when rows were
      quarantined, from the file as it stands after the append. */
  function QuarantineCopy(info: Info, after: seq<Line>, policy: Policy, mac: Mac, re: Regex, fails: Hit -> bool,
                          read: CsvReader): (copy: Option<Table>)
    requires DigestSized(mac) && ReadsTables(read)
    ensures copy.Some? ==> info.quarantinePath.Some?
  {
    if info.quarantinePath.Some? then MaskedCopy(read(after), policy, mac, re, fails) else None
  }

  /** The `meta` record: totals over the masked table and its action log,
      the columns outside the required schema, and the quarantine fields
      with absent paths as "". */
  function Record(columns: seq<string>, info: Info, rows: seq<seq<Value>>, actions: seq<ActionRecord>, policy: Policy,
                  strict: bool, dir: string, copy: Option<Table>): (g: GovernanceRecord)
    ensures g.totals == Totals(|rows|, |actions|) && g.strictMode == strict
    ensures g.policy == policy.name && g.policyVersion == policy.version
    ensures forall c :: c in g.extraColumns <==> c in columns && c !in policy.schema.requiredColumns
    ensures g.quarantinedRows == info.quarantinedRows
    ensures g.quarantinePath == (if info.quarantinePath.Some? then info.quarantinePath.value else "")
    ensures g.quarantineMaskedPath == (if copy.Some? then dir + "/" + MaskedQuarantineFile else "")
  {
    GovernanceRecord(
      policy.name, policy.version, Totals(|rows|, |actions|), strict,
      Without(columns, policy.schema.requiredColumns), info.quarantinedRows,
      if info.quarantinePath.Some? then info.quarantinePath.value else "",
      if copy.Some? then dir + "/" + MaskedQuarantineFile else "")
  }

  /** `extra_columns` lists the columns outside the required schema in the
      table's column order. */
  lemma ExtraColumnsOrder(columns: seq<string>, info: Info, rows: seq<seq<Value>>, actions: seq<ActionRecord>,
                          policy: Policy, strict: bool, dir: string, copy: Option<Table>)
    ensures var required := policy.schema.requiredColumns;
      Record(columns, info, rows, actions, policy, strict, dir, copy).extraColumns
        == Filter(columns, seq(|columns|, i requires 0 <= i < |columns| => columns[i] in required), false)
  {
    WithoutIsFilter(columns, policy.schema.requiredColumns);
  }

  /** The body of `process` after loading its inputs: `t` is the input
      table, the quarantine file is (`present`, `lines`) and `writable`
      says whether appending to it succeeds. */
  function Processed(t: Table, policy: Policy, strict: bool, dir: string,
                     present: bool, lines: seq<Line>, writable: bool,
                     o: Oracles, mac: Mac, re: Regex, fails: Hit -> bool, read: CsvReader): Result<Run, ProcessError>
    requires WellFormed(t) && DigestSized(mac) && ReadsTables(read)
  {
    var missing := Without(policy.schema.requiredColumns, t.columns);
    if missing != [] && strict then Err(MissingRequired(missing))
    else
      match Schemaed(t, policy.schema, strict, dir, writable, o)
      case Err(e) => Err(e)
      case Ok((u, info)) =>
        match MaskAll(u.columns, u.index, u.rows, policy, strict, mac, re, fails)
        case Err(e) => Err(e)
        case Ok((rows, actions)) =>
          var after := StoreAfter(t, policy.schema, strict, Some(dir), present, lines, writable, o);
          var copy := QuarantineCopy(info, after, policy, mac, re, fails, read);
          Ok(Run(Table(u.columns, u.index, rows), copy, Record(u.columns, info, rows, actions, policy, strict, dir, copy)))
  }

  /** The masked copy of the quarantine file, made on a frame of its own. */
  method MaskQuarantine(info: Info, after: seq<Line>, policy: Policy, mac: Mac, re: Regex, fails: Hit -> bool,
                        read: CsvReader) returns (copy: Option<Table>)
    requires DigestSized(mac) && ReadsTables(read)
    ensures copy == QuarantineCopy(info, after, policy, mac, re, fails, read)
  {
    copy := None;
    if info.quarantinePath.Some? {
      var raw := read(after);
      if raw.Some? {
        var q := new Frame(raw.value);
        var _ := MaskRows(q, policy, false, mac, re, fails);
        copy := Some(q.Snapshot());
      }
    }
  }

  /** Schema enforcement as `process` routes its failure: fatal in strict
      mode, otherwise the frame goes on as the failed call left it. */
  method EnforceForProcess(df: Frame, schema: Schema, strict: bool, dir: string, store: QuarantineStore, o: Oracles)
    returns (r: Result<(Frame, Info), ProcessError>)
    requires WellFormed(df.Snapshot())
    modifies df, store
    ensures var want := Schemaed(old(df.Snapshot()), schema, strict, dir, old(store.writable), o);
      && (r.Ok? <==> want.Ok?)
      && (r.Ok? ==> r.value.0.Snapshot() == want.value.0 && r.value.1 == want.value.1)
      && (r.Ok? ==> r.value.0 == df || fresh(r.value.0))
      && (r.Err? ==> r.error == want.error)
    ensures store.lines == StoreAfter(old(df.Snapshot()), schema, strict, Some(dir),
                                      old(store.present), old(store.lines), old(store.writable), o)
    ensures store.present == (old(store.present) || Quarantined(old(df.Snapshot()), schema, strict, Some(dir), old(store.writable), o).Some?)
    ensures store.writable == old(store.writable)
  {
    var e := EnforceSchema(df, schema, strict, Some(dir), store, o);
    if e.Err? {
      if strict {
        return Err(SchemaFailed(e.error));
      }
      return Ok((df, DefaultInfo));
    }
    return Ok(e.value);
  }

  /** `process`: the required-column check, schema enforcement (which may
      append to the quarantine file), the masking loop, the masked copy of
      the quarantine file and the governance record. */
  method Process(df: Frame, policy: Policy, strict: bool, dir: string, store: QuarantineStore,
                 o: Oracles, mac: Mac, re: Regex, fails: Hit -> bool, read: CsvReader)
    returns (r: Result<Run, ProcessError>)
    requires WellFormed(df.Snapshot()) && DigestSized(mac) && ReadsTables(read) && dir != ""
    modifies df, store
    ensures r == Processed(old(df.Snapshot()), policy, strict, dir, old(store.present), old(store.lines),
                           old(store.writable), o, mac, re, fails, read)
    ensures var t0, stopped := old(df.Snapshot()), strict && Without(policy.schema.requiredColumns, old(df.columns)) != [];
      && store.writable == old(store.writable)
      && store.lines == (if stopped then old(store.lines)
                         else StoreAfter(t0, policy.schema, strict, Some(dir), old(store.present), old(store.lines), old(store.writable), o))
      && store.present == (if stopped then old(store.present)
                           else old(store.present) || Quarantined(t0, policy.schema, strict, Some(dir), old(store.writable), o).Some?)
    ensures old(store.lines) <= store.lines
  {
    ghost var t0 := df.Snapshot();
    var missing := Without(policy.schema.requiredColumns, df.columns);
    if missing != [] && strict {
      return Err(MissingRequired(missing));
    }
    var e := EnforceForProcess(df, policy.schema, strict, dir, store, o);
    if e.Err? {
      return Err(e.error);
    }
    var (frame, info) := e.value;
    var acts := MaskRows(frame, policy, strict, mac, re, fails);
    if acts.Err? {
      return Err(acts.error);
    }
    var copy := MaskQuarantine(info, store.lines, policy, mac, re, fails, read);
    var record := Record(frame.columns, info, frame.rows, acts.value, policy, strict, dir, copy);
    r := Ok(Run(frame.Snapshot(), copy, record));
  }

  /** Failure routing: a non-strict run always completes; a strict run
      stops on missing required columns (listing exactly those, in schema
      order) before anything else, and then on a schema failure. */
  lemma RunOutcome(t: Table, policy: Policy, strict: bool, dir: string, present: bool, lines: seq<Line>, writable: bool,
                   o: Oracles, mac: Mac, re: Regex, fails: Hit -> bool, read: CsvReader)
    requires WellFormed(t) && DigestSized(mac) && ReadsTables(read)
    ensures var r := Processed(t, policy, strict, dir, present, lines, writable, o, mac, re, fails, read);
      var missing := Without(policy.schema.requiredColumns, t.columns);
      && (!strict ==> r.Ok?)
      && (strict && missing != [] ==> r == Err(MissingRequired(missing)))
      && (forall c :: c in missing <==> c in policy.schema.requiredColumns && c !in t.columns)
      && (var req := policy.schema.requiredColumns;
          missing == Filter(req, seq(|req|, i requires 0 <= i < |req| => req[i] in t.columns), false))
      && (strict && missing == [] && Enforced(t, policy.schema, strict, Some(dir), writable, o).Err? ==>
            r == Err(SchemaFailed(Enforced(t, policy.schema, strict, Some(dir), writable, o).error)))
  {
    WithoutIsFilter(policy.schema.requiredColumns, t.columns);
    if !strict {
      var u := Schemaed(t, policy.schema, strict, dir, writable, o).value.0;
      assert MaskAll(u.columns, u.index, u.rows, policy, strict, mac, re, fails).Ok?;
    }
  }

  /** The output and the totals: `totals.rows` is the row count after
      enforcement, `totals.actions` counts one entry per hit applied in the
      main pass (the quarantine copy adds none), and every cell holds the
      last writing hit's transform of its captured value. */
  lemma RunTotals(t: Table, policy: Policy, strict: bool, dir: string, present: bool, lines: seq<Line>, writable: bool,
                  o: Oracles, mac: Mac, re: Regex, fails: Hit -> bool, read: CsvReader)
    requires WellFormed(t) && DigestSized(mac) && ReadsTables(read)
    requires Processed(t, policy, strict, dir, present, lines, writable, o, mac, re, fails, read).Ok?
    ensures var run := Processed(t, policy, strict, dir, present, lines, writable, o, mac, re, fails, read).value;
      var u := Schemaed(t, policy.schema, strict, dir, writable, o).value.0;
      && run.output.columns == u.columns == t.columns && run.output.index == u.index
      && run.record.totals.rows == |run.output.rows| == |u.rows|
      && run.record.totals.actions == |Logs(u.columns, u.index, u.rows, policy, re, fails)|
      && (forall c :: c in run.record.extraColumns <==> c in t.columns && c !in policy.schema.requiredColumns)
      && forall i, k :: 0 <= i < |u.rows| && 0 <= k < |u.columns| ==>
           run.output.rows[i][k] == FinalValue(u.rows[i][k], u.columns[k], HitsOf(u.columns, u.rows[i], policy, re), mac, fails)
  {
    var u := Schemaed(t, policy.schema, strict, dir, writable, o).value.0;
    MaskAllLog(u.columns, u.index, u.rows, policy, strict, mac, re, fails);
    forall i, k | 0 <= i < |u.rows| && 0 <= k < |u.columns|
      ensures MaskAll(u.columns, u.index, u.rows, policy, strict, mac, re, fails).value.0[i][k]
           == FinalValue(u.rows[i][k], u.columns[k], HitsOf(u.columns, u.rows[i], policy, re), mac, fails)
    {
      MaskedCells(u.columns, u.index, u.rows, policy, strict, mac, re, fails, i, k);
    }
  }

  /** Quarantine bookkeeping: when rows were quarantined the record counts
      them, names the file, and kept plus quarantined rows make the input;
      otherwise no row is lost, the count is 0, the path is "" and no masked
      copy is made. */
  lemma RunQuarantine(t: Table, policy: Policy, strict: bool, dir: string, present: bool, lines: seq<Line>, writable: bool,
                      o: Oracles, mac: Mac, re: Regex, fails: Hit -> bool, read: CsvReader)
    requires WellFormed(t) && DigestSized(mac) && ReadsTables(read) && dir != ""
    requires Processed(t, policy, strict, dir, present, lines, writable, o, mac, re, fails, read).Ok?
    ensures var run := Processed(t, policy, strict, dir, present, lines, writable, o, mac, re, fails, read).value;
      var q := Quarantined(t, policy.schema, strict, Some(dir), writable, o);
      && (q.Some? ==> && run.record.quarantinedRows == |q.value.rows| > 0
                      && |run.output.rows| + run.record.quarantinedRows == |t.rows|
                      && run.record.quarantinePath == QuarantinePath(dir))
      && (q.None? ==> && run.record.quarantinedRows == 0 && run.record.quarantinePath == ""
                      && run.maskedQuarantine.None? && |run.output.rows| == |t.rows|)
  {
    var schema := policy.schema;
    var q := Quarantined(t, schema, strict, Some(dir), writable, o);
    var e := Enforced(t, schema, strict, Some(dir), writable, o);
    if q.Some? {
      assert "date" in t.columns;
      QuarantineSplit(t, schema, Some(dir), writable, o);
      BatchContents(t, schema, Some(dir), writable, o);
    } else if e.Ok? {
      NothingDropped(t, schema, strict, Some(dir), writable, o);
    }
  }
}
