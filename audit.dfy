/** The leak verifier: a bounded raw-PII scan of the masked output, the
    token-grammar check of the columns the policy tokenizes, and the
    overall verdict.

    Python's `re` engine is an oracle for the two leak patterns (email-like
    text and long digit runs); the token grammar
    `^<PII:[A-Za-z0-9_]+:[A-Za-z0-9_\-]+>$` is concrete. */
module Audit {
  import opened Values
  import opened Policy
  import opened Tokenizer
  import opened Detector
  import opened Pipeline

  /** `head(2000)`: the raw-PII scan reads at most this many cells per column. */
  const ScanLimit := 2000
  /** `head(5)`: at most this many offending values are reported per column. */
  const OffenderSample := 5

  /** `[A-Za-z0-9_]`. */
  predicate IsWordChar(c: char)
  {
    'A' <= c <= 'Z' || 'a' <= c <= 'z' || '0' <= c <= '9' || c == '_'
  }

  /** `[A-Za-z0-9_]+`. */
  predicate IsWord(s: string)
  {
    |s| >= 1 && forall k :: 0 <= k < |s| ==> IsWordChar(s[k])
  }

  /** `<PII:[A-Za-z0-9_]+:[A-Za-z0-9_\-]+>` over the whole string. Neither
      class holds `:` or `>`, so the colon `p` that ends the field is the
      first one after the prefix. */
  predicate IsTokenText(s: string)
  {
    && |s| >= 9
    && s[..5] == TokenPrefix
    && s[|s| - 1] == '>'
    && exists p :: 5 < p < |s| - 2 && s[p] == ':' && IsWord(s[5..p]) && IsCode(s[p + 1..|s| - 1])
  }

  /** `TOKEN_RE.match(s)`: anchored at the start, and Python's `$` also
      matches just before one final newline. */
  predicate MatchesToken(s: string)
  {
    IsTokenText(s) || (s != [] && s[|s| - 1] == '\n' && IsTokenText(s[..|s| - 1]))
  }

  /** Round trip: for a field name over `[A-Za-z0-9_]`, every token `tok`
      makes of a non-empty value matches the token grammar. */
  lemma TokMatchesGrammar(mac: Mac, value: string, field: string)
    requires DigestSized(mac) && value != "" && IsWord(field)
    ensures MatchesToken(Tok(mac, Some(value), field).value)
  {
    var s := Tok(mac, Some(value), field).value;
    var p := 5 + |field|;
    assert s[5..p] == field;
    assert s[p + 1..|s| - 1] == TokBytes(mac, value, field);
    assert IsTokenText(s);
  }

  /** What kind of problem a tokenized column has. */
  datatype IssueKind = MissingColumn | NonTokenValues(sample: seq<string>)

  datatype Issue = Issue(column: string, kind: IssueKind)

  datatype LeakKind = EmailPattern | LongDigitSequence

  datatype Leak = Leak(column: string, kind: LeakKind)

  /** `EMAIL_RE.search` and `PAN_RE.search`. */
  datatype Scanners = Scanners(email: string -> bool, longDigits: string -> bool)

  /** A cell the token check rejects: its text is non-empty and not a token. */
  predicate Offends(text: string)
  {
    text != "" && !MatchesToken(text)
  }

  /** `astype("string").fillna("")` on a column. */
  function Texts(cells: seq<Value>): (texts: seq<string>)
    ensures |texts| == |cells|
    ensures forall i :: 0 <= i < |cells| ==> texts[i] == TextOrEmpty(cells[i])
  {
    seq(|cells|, i requires 0 <= i < |cells| => TextOrEmpty(cells[i]))
  }

  /** The offending texts of a column, top to bottom. */
  function Offenders(texts: seq<string>): (bad: seq<string>)
    ensures |bad| <= |texts|
    decreases |texts|
  {
    if texts == [] then []
    else
      var n := |texts| - 1;
      Offenders(texts[..n]) + if Offends(texts[n]) then [texts[n]] else []
  }

  /** The offenders are exactly the column's texts that offend. */
  lemma {:induction false} OffendersIff(texts: seq<string>, x: string)
    ensures x in Offenders(texts) <==> Offends(x) && x in texts
    decreases |texts|
  {
    if texts != [] {
      var n := |texts| - 1;
      OffendersIff(texts[..n], x);
      assert texts == texts[..n] + [texts[n]];
    }
  }

  /** There are no offenders iff no text offends. */
  lemma {:induction false} OffendersNone(texts: seq<string>)
    ensures Offenders(texts) == [] <==> forall i :: 0 <= i < |texts| ==> !Offends(texts[i])
    decreases |texts|
  {
    if texts != [] {
      var n := |texts| - 1;
      var init := texts[..n];
      OffendersNone(init);
      var last := if Offends(texts[n]) then [texts[n]] else [];
      assert Offenders(texts) == Offenders(init) + last;
      assert Offenders(texts) == [] <==> Offenders(init) == [] && !Offends(texts[n]);
      assert forall i :: 0 <= i < n ==> init[i] == texts[i];
    }
  }

  function Take<T>(s: seq<T>, n: nat): (r: seq<T>)
    ensures |r| == if |s| < n then |s| else n
    ensures r <= s
  {
    if |s| <= n then s else s[..n]
  }

  /** The issue `check_tokens` reports for one expected column, if any. */
  function ColumnIssue(t: Table, col: string): (r: Option<Issue>)
    requires WellFormed(t)
    ensures r.Some? ==> r.value.column == col
  {
    var k := ColumnIndex(t.columns, col);
    if k == |t.columns| then Some(Issue(col, MissingColumn))
    else
      var bad := Offenders(Texts(Column(t, k)));
      if bad == [] then None else Some(Issue(col, NonTokenValues(Take(bad, OffenderSample))))
  }

  /** The issues of `check_tokens`, in the order of the expected columns. */
  function TokenIssues(t: Table, expected: seq<string>): seq<Issue>
    requires WellFormed(t)
  {
    Somes(ColumnIssues(t, expected))
  }

  /** Each expected column's issue or its absence, column by column. */
  function ColumnIssues(t: Table, expected: seq<string>): (found: seq<Option<Issue>>)
    requires WellFormed(t)
    ensures |found| == |expected|
    ensures forall j :: 0 <= j < |expected| ==> found[j] == ColumnIssue(t, expected[j])
  {
    seq(|expected|, j requires 0 <= j < |expected| => ColumnIssue(t, expected[j]))
  }

  /** The present values of a sequence of options, in order. */
  function Somes<T>(s: seq<Option<T>>): seq<T>
    decreases |s|
  {
    if s == [] then []
    else
      var n := |s| - 1;
      Somes(s[..n]) + if s[n].Some? then [s[n].value] else []
  }

  /** Collecting one more option appends its value, if any. */
  lemma SomesStep<T>(s: seq<Option<T>>, j: nat)
    requires j < |s|
    ensures Somes(s[..j + 1]) == Somes(s[..j]) + if s[j].Some? then [s[j].value] else []
  {
    assert s[..j + 1][..j] == s[..j];
  }

  /** No more values than options. */
  lemma {:induction false} SomesBound<T>(s: seq<Option<T>>)
    ensures |Somes(s)| <= |s|
    decreases |s|
  {
    if s != [] {
      SomesBound(s[..|s| - 1]);
    }
  }

  /** A value is collected iff some option holds it. */
  lemma {:induction false} SomesMember<T>(s: seq<Option<T>>, x: T)
    ensures x in Somes(s) <==> exists j :: 0 <= j < |s| && s[j] == Some(x)
    decreases |s|
  {
    if s != [] {
      var n := |s| - 1;
      SomesMember(s[..n], x);
      if exists j :: 0 <= j < |s| && s[j] == Some(x) {
        var j :| 0 <= j < |s| && s[j] == Some(x);
        if j < n {
          assert s[..n][j] == Some(x);
        }
      }
    }
  }

  /** Nothing is collected iff every option is empty. */
  lemma {:induction false} SomesEmpty<T>(s: seq<Option<T>>)
    ensures Somes(s) == [] <==> forall j :: 0 <= j < |s| ==> s[j].None?
    decreases |s|
  {
    if s != [] {
      var n := |s| - 1;
      SomesEmpty(s[..n]);
      assert forall j :: 0 <= j < n ==> s[..n][j] == s[j];
    }
  }

  /** The inner scan of `check_tokens` over one column's texts. */
  method OffendingTexts(texts: seq<string>) returns (bad: seq<string>)
    ensures bad == Offenders(texts)
  {
    bad := [];
    var i := 0;
    while i < |texts|
      invariant 0 <= i <= |texts|
      invariant bad == Offenders(texts[..i])
    {
      if Offends(texts[i]) {
        bad := bad + [texts[i]];
      }
      assert texts[..i + 1][..i] == texts[..i];
      i := i + 1;
    }
    assert texts[..i] == texts;
  }

  /** One pass of `check_tokens`: the issue of one expected column. */
  method CheckColumn(t: Table, col: string) returns (issue: Option<Issue>)
    requires WellFormed(t)
    ensures issue == ColumnIssue(t, col)
  {
    var k := ColumnIndex(t.columns, col);
    if k == |t.columns| {
      issue := Some(Issue(col, MissingColumn));
    } else {
      var bad := OffendingTexts(Texts(Column(t, k)));
      issue := if bad == [] then None else Some(Issue(col, NonTokenValues(Take(bad, OffenderSample))));
    }
  }

  /** `check_tokens`: per expected column, a missing column is reported and
      nothing more is checked for it; otherwise the cells are read as text
      with NA as "" and the non-empty ones that are not tokens collected. */
  method CheckTokens(t: Table, expected: seq<string>) returns (issues: seq<Issue>)
    requires WellFormed(t)
    ensures issues == TokenIssues(t, expected)
  {
    ghost var found := ColumnIssues(t, expected);
    issues := [];
    var j := 0;
    while j < |expected|
      invariant 0 <= j <= |expected|
      invariant issues == Somes(found[..j])
    {
      var issue := CheckColumn(t, expected[j]);
      assert issue == found[j];
      SomesStep(found, j);
      issues := issues + if issue.Some? then [issue.value] else [];
      j := j + 1;
    }
    assert found[..j] == found;
  }

  /** A present column is flagged iff some cell's text is non-empty and not
      a token. */
  lemma ColumnIssueFlagged(t: Table, col: string)
    requires WellFormed(t) && col in t.columns
    ensures var k := ColumnIndex(t.columns, col);
      ColumnIssue(t, col).Some? <==> exists i :: 0 <= i < |t.rows| && Offends(TextOrEmpty(t.rows[i][k]))
  {
    var k := ColumnIndex(t.columns, col);
    var texts := Texts(Column(t, k));
    OffendersNone(texts);
    assert |texts| == |t.rows|;
    assert forall i :: 0 <= i < |t.rows| ==> texts[i] == TextOrEmpty(t.rows[i][k]);
  }

  /** A flagged column's report lists between one and five offenders, each
      the text of one of its cells. */
  lemma ColumnIssueSample(t: Table, col: string)
    requires WellFormed(t) && col in t.columns && ColumnIssue(t, col).Some?
    ensures var k := ColumnIndex(t.columns, col);
      && ColumnIssue(t, col).value.kind.NonTokenValues?
      && 1 <= |ColumnIssue(t, col).value.kind.sample| <= OffenderSample
      && forall x :: x in ColumnIssue(t, col).value.kind.sample ==>
           Offends(x) && exists i :: 0 <= i < |t.rows| && TextOrEmpty(t.rows[i][k]) == x
  {
    var k := ColumnIndex(t.columns, col);
    var texts := Texts(Column(t, k));
    var bad := Offenders(texts);
    assert ColumnIssue(t, col).value.kind.sample == Take(bad, OffenderSample);
    forall x | x in Take(bad, OffenderSample)
      ensures Offends(x) && exists i :: 0 <= i < |t.rows| && TextOrEmpty(t.rows[i][k]) == x
    {
      OffendersIff(texts, x);
      var i :| 0 <= i < |texts| && texts[i] == x;
    }
  }

  /** A present column is flagged iff some cell's text is non-empty and not
      a token; the report then lists between one and five offenders, each
      the text of one of its cells. An absent column is reported missing. */
  lemma ColumnIssueIff(t: Table, col: string)
    requires WellFormed(t)
    ensures col !in t.columns ==> ColumnIssue(t, col) == Some(Issue(col, MissingColumn))
    ensures col in t.columns ==>
      var k := ColumnIndex(t.columns, col);
      && (ColumnIssue(t, col).Some? <==> exists i :: 0 <= i < |t.rows| && Offends(TextOrEmpty(t.rows[i][k])))
      && (ColumnIssue(t, col).Some? ==>
            && ColumnIssue(t, col).value.kind.NonTokenValues?
            && 1 <= |ColumnIssue(t, col).value.kind.sample| <= OffenderSample
            && forall x :: x in ColumnIssue(t, col).value.kind.sample ==>
                 Offends(x) && exists i :: 0 <= i < |t.rows| && TextOrEmpty(t.rows[i][k]) == x)
  {
    if col in t.columns {
      ColumnIssueFlagged(t, col);
      if ColumnIssue(t, col).Some? {
        ColumnIssueSample(t, col);
      }
    }
  }

  /** At most one issue per expected column. */
  lemma TokenIssuesBound(t: Table, expected: seq<string>)
    requires WellFormed(t)
    ensures |TokenIssues(t, expected)| <= |expected|
  {
    SomesBound(ColumnIssues(t, expected));
  }

  /** Every issue is the issue of a column the policy expects. */
  lemma TokenIssuesFrom(t: Table, expected: seq<string>)
    requires WellFormed(t)
    ensures forall x :: x in TokenIssues(t, expected) ==> x.column in expected && ColumnIssue(t, x.column) == Some(x)
  {
    var found := ColumnIssues(t, expected);
    forall x: Issue | x in Somes(found)
      ensures x.column in expected && ColumnIssue(t, x.column) == Some(x)
    {
      SomesMember(found, x);
      var j :| 0 <= j < |found| && found[j] == Some(x);
      assert ColumnIssue(t, expected[j]) == Some(x);
    }
  }

  /** There is no issue at all iff no expected column has one. */
  lemma TokenIssuesNone(t: Table, expected: seq<string>)
    requires WellFormed(t)
    ensures TokenIssues(t, expected) == [] <==> forall c :: c in expected ==> ColumnIssue(t, c).None?
  {
    var found := ColumnIssues(t, expected);
    SomesEmpty(found);
    if forall c :: c in expected ==> ColumnIssue(t, c).None? {
      forall j | 0 <= j < |found|
        ensures found[j].None?
      {
        assert expected[j] in expected;
      }
    }
  }

  /** A column holding only missing cells, "" and tokens of non-empty values
      for a field over `[A-Za-z0-9_]` passes the token check. */
  lemma TokenColumnPasses(t: Table, col: string, mac: Mac)
    requires WellFormed(t) && col in t.columns && DigestSized(mac)
    requires var k := ColumnIndex(t.columns, col);
      forall i :: 0 <= i < |t.rows| ==>
        IsMissing(t.rows[i][k]) || t.rows[i][k] == Str("")
        || exists v, f :: v != "" && IsWord(f) && t.rows[i][k] == Str(Tok(mac, Some(v), f).value)
    ensures ColumnIssue(t, col).None?
  {
    var k := ColumnIndex(t.columns, col);
    ColumnIssueIff(t, col);
    forall i | 0 <= i < |t.rows|
      ensures !Offends(TextOrEmpty(t.rows[i][k]))
    {
      if !IsMissing(t.rows[i][k]) && t.rows[i][k] != Str("") {
        var v, f :| v != "" && IsWord(f) && t.rows[i][k] == Str(Tok(mac, Some(v), f).value);
        TokMatchesGrammar(mac, v, f);
      }
    }
  }

  /** A cell the masking pass writes with `tokenize` for a field over
      `[A-Za-z0-9_]` is "" or a token, so the token check accepts it. */
  lemma TokenizedCellAccepted(mac: Mac, h: Hit)
    requires DigestSized(mac) && h.action == Tokenize && IsWord(h.field)
    ensures Transform(mac, h).Some? && !Offends(TextOrEmpty(Transform(mac, h).value))
  {
    if h.value != "" {
      TokMatchesGrammar(mac, h.value, h.field);
    }
  }

  /** The pattern of a finding kind. */
  function Pattern(sc: Scanners, kind: LeakKind): string -> bool
  {
    match kind
    case EmailPattern => sc.email
    case LongDigitSequence => sc.longDigits
  }

  /** `sample.str.contains(p).any()` over the first `ScanLimit` cells, NA
      read as "". */
  predicate Flagged(cells: seq<Value>, p: string -> bool)
  {
    exists i :: 0 <= i < |cells| && i < ScanLimit && p(TextOrEmpty(cells[i]))
  }

  /** Only `object` and `string` columns are scanned. */
  predicate Textual(dtype: string)
  {
    dtype == "object" || dtype == "string"
  }

  /** One column's findings: an email finding, then a long-digit finding. */
  function ColumnLeaks(col: string, dtype: string, cells: seq<Value>, sc: Scanners): seq<Leak>
  {
    if !Textual(dtype) then []
    else
      (if Flagged(cells, sc.email) then [Leak(col, EmailPattern)] else [])
      + (if Flagged(cells, sc.longDigits) then [Leak(col, LongDigitSequence)] else [])
  }

  /** `find_raw_pii`; `dtypes` gives each column's pandas dtype name. */
  function RawPii(t: Table, dtypes: seq<string>, sc: Scanners): seq<Leak>
    requires WellFormed(t) && |dtypes| == |t.columns|
  {
    Concat(ColumnFindings(t, dtypes, sc))
  }

  /** Each column's findings, in column order. */
  function ColumnFindings(t: Table, dtypes: seq<string>, sc: Scanners): (per: seq<seq<Leak>>)
    requires WellFormed(t) && |dtypes| == |t.columns|
    ensures |per| == |t.columns|
    ensures forall k :: 0 <= k < |t.columns| ==> per[k] == ColumnLeaks(t.columns[k], dtypes[k], Column(t, k), sc)
  {
    seq(|t.columns|, k requires 0 <= k < |t.columns| => ColumnLeaks(t.columns[k], dtypes[k], Column(t, k), sc))
  }

  /** The parts one after the other. */
  function Concat<T>(s: seq<seq<T>>): seq<T>
    decreases |s|
  {
    if s == [] then [] else Concat(s[..|s| - 1]) + s[|s| - 1]
  }

  /** An element of the whole is an element of one of the parts. */
  lemma {:induction false} ConcatMember<T>(s: seq<seq<T>>, x: T)
    ensures x in Concat(s) <==> exists k :: 0 <= k < |s| && x in s[k]
    decreases |s|
  {
    if s != [] {
      var n := |s| - 1;
      ConcatMember(s[..n], x);
      if exists k :: 0 <= k < |s| && x in s[k] {
        var k :| 0 <= k < |s| && x in s[k];
        if k < n {
          assert x in s[..n][k];
        }
      }
      if x in Concat(s[..n]) {
        var k :| 0 <= k < n && x in s[..n][k];
        assert x in s[k];
      }
    }
  }

  /** Parts of at most `m` elements make at most `m` per part. */
  lemma {:induction false} ConcatBound<T>(s: seq<seq<T>>, m: nat)
    requires forall k :: 0 <= k < |s| ==> |s[k]| <= m
    ensures |Concat(s)| <= m * |s|
    decreases |s|
  {
    if s != [] {
      var n := |s| - 1;
      assert forall k :: 0 <= k < n ==> s[..n][k] == s[k];
      ConcatBound(s[..n], m);
      assert m * |s| == m * n + m;
    }
  }

  /** One `str.contains(p).any()`: whether `p` matches one of the first
      2000 cells. */
  method Contains(cells: seq<Value>, p: string -> bool) returns (found: bool)
    ensures found == Flagged(cells, p)
  {
    found := false;
    var i := 0;
    while i < |cells| && i < ScanLimit
      invariant 0 <= i <= |cells| && i <= ScanLimit
      invariant found <==> exists m :: 0 <= m < i && p(TextOrEmpty(cells[m]))
    {
      found := found || p(TextOrEmpty(cells[i]));
      i := i + 1;
    }
  }

  /** One pass of `find_raw_pii`'s loop: the findings of one column. */
  method ScanColumn(col: string, dtype: string, cells: seq<Value>, sc: Scanners) returns (found: seq<Leak>)
    ensures found == ColumnLeaks(col, dtype, cells, sc)
  {
    found := [];
    if Textual(dtype) {
      var email := Contains(cells, sc.email);
      if email {
        found := found + [Leak(col, EmailPattern)];
      }
      var digits := Contains(cells, sc.longDigits);
      if digits {
        found := found + [Leak(col, LongDigitSequence)];
      }
    }
  }

  /** `find_raw_pii` as the source's loop over the columns. */
  method FindRawPii(t: Table, dtypes: seq<string>, sc: Scanners) returns (leaks: seq<Leak>)
    requires WellFormed(t) && |dtypes| == |t.columns|
    ensures leaks == RawPii(t, dtypes, sc)
  {
    ghost var per := ColumnFindings(t, dtypes, sc);
    leaks := [];
    var k := 0;
    while k < |t.columns|
      invariant 0 <= k <= |t.columns|
      invariant leaks == Concat(per[..k])
    {
      var found := ScanColumn(t.columns[k], dtypes[k], Column(t, k), sc);
      leaks := leaks + found;
      assert per[..k + 1][..k] == per[..k];
      k := k + 1;
    }
    assert per[..k] == per;
  }

  /** A column yields a finding of a kind iff it is scanned and the kind's
      pattern matches one of its first 2000 cells; at most two in all. */
  lemma ColumnLeaksIff(col: string, dtype: string, cells: seq<Value>, sc: Scanners, c: string, kind: LeakKind)
    ensures Leak(c, kind) in ColumnLeaks(col, dtype, cells, sc) <==>
      c == col && Textual(dtype) && Flagged(cells, Pattern(sc, kind))
    ensures |ColumnLeaks(col, dtype, cells, sc)| <= 2
    ensures forall x :: x in ColumnLeaks(col, dtype, cells, sc) ==> x.column == col
  {
  }

  /** Column `k` is scanned and the kind's pattern matches one of its first
      2000 cells. */
  predicate Reported(t: Table, dtypes: seq<string>, sc: Scanners, k: nat, kind: LeakKind)
    requires WellFormed(t) && |dtypes| == |t.columns| && k < |t.columns|
  {
    Textual(dtypes[k]) && Flagged(Column(t, k), Pattern(sc, kind))
  }

  /** A finding of a kind names a scanned column whose first 2000 cells
      match that kind's pattern, and every such column is reported. */
  lemma LeaksIff(t: Table, dtypes: seq<string>, sc: Scanners, c: string, kind: LeakKind)
    requires WellFormed(t) && |dtypes| == |t.columns|
    ensures Leak(c, kind) in RawPii(t, dtypes, sc) <==>
      exists k :: 0 <= k < |t.columns| && t.columns[k] == c && Reported(t, dtypes, sc, k, kind)
  {
    var per := ColumnFindings(t, dtypes, sc);
    ConcatMember(per, Leak(c, kind));
    forall k | 0 <= k < |t.columns|
      ensures Leak(c, kind) in per[k] <==> t.columns[k] == c && Reported(t, dtypes, sc, k, kind)
    {
      ColumnLeaksIff(t.columns[k], dtypes[k], Column(t, k), sc, c, kind);
    }
  }

  /** A set of parts each ordered by `before`, with every element of an
      earlier part `before` every element of a later one, concatenates to a
      sequence ordered by `before`. */
  lemma {:induction false} ConcatOrdered<T>(s: seq<seq<T>>, before: (T, T) -> bool)
    requires forall a, b, x, y :: 0 <= a < b < |s| && x in s[a] && y in s[b] ==> before(x, y)
    requires forall a, i, j :: 0 <= a < |s| && 0 <= i < j < |s[a]| ==> before(s[a][i], s[a][j])
    ensures forall p, q :: 0 <= p < q < |Concat(s)| ==> before(Concat(s)[p], Concat(s)[q])
    decreases |s|
  {
    if s != [] {
      var n := |s| - 1;
      var init := s[..n];
      assert forall a :: 0 <= a < n ==> init[a] == s[a];
      ConcatOrdered(init, before);
      var c := Concat(s);
      var m := |Concat(init)|;
      assert c == Concat(init) + s[n];
      forall p, q | 0 <= p < q < |c|
        ensures before(c[p], c[q])
      {
        if q < m {
          assert c[p] == Concat(init)[p] && c[q] == Concat(init)[q];
        } else if p >= m {
          assert c[p] == s[n][p - m] && c[q] == s[n][q - m];
        } else {
          assert c[p] == Concat(init)[p] && c[q] == s[n][q - m];
          ConcatMember(init, c[p]);
          var a :| 0 <= a < n && c[p] in init[a];
          assert c[p] in s[a] && c[q] in s[n];
        }
      }
    }
  }

  /** Finding `x` comes before finding `y`: its column comes earlier, or it
      is the same column's email finding and `y` its long-digit finding. */
  predicate LeakBefore(columns: seq<string>, x: Leak, y: Leak)
  {
    || ColumnIndex(columns, x.column) < ColumnIndex(columns, y.column)
    || (x.column == y.column && x.kind == EmailPattern && y.kind == LongDigitSequence)
  }

  /** Findings come column by column in column order, and within a column
      the email finding before the long-digit finding. */
  lemma LeakOrder(t: Table, dtypes: seq<string>, sc: Scanners)
    requires WellFormed(t) && |dtypes| == |t.columns|
    ensures var leaks := RawPii(t, dtypes, sc);
      forall p, q :: 0 <= p < q < |leaks| ==> LeakBefore(t.columns, leaks[p], leaks[q])
  {
    var per := ColumnFindings(t, dtypes, sc);
    var before := (x: Leak, y: Leak) => LeakBefore(t.columns, x, y);
    LeaksAcrossColumns(t, dtypes, sc);
    LeaksWithinColumn(t, dtypes, sc);
    ConcatOrdered(per, before);
  }

  /** A finding of an earlier column comes before any finding of a later one. */
  lemma LeaksAcrossColumns(t: Table, dtypes: seq<string>, sc: Scanners)
    requires WellFormed(t) && |dtypes| == |t.columns|
    ensures var per := ColumnFindings(t, dtypes, sc);
      forall a, b, x, y :: 0 <= a < b < |per| && x in per[a] && y in per[b] ==> LeakBefore(t.columns, x, y)
  {
    var per := ColumnFindings(t, dtypes, sc);
    forall a | 0 <= a < |t.columns|
      ensures ColumnIndex(t.columns, t.columns[a]) == a
    {
      var k := ColumnIndex(t.columns, t.columns[a]);
      assert k <= a;
    }
    forall a, b, x, y | 0 <= a < b < |per| && x in per[a] && y in per[b]
      ensures LeakBefore(t.columns, x, y)
    {
      ColumnLeaksIff(t.columns[a], dtypes[a], Column(t, a), sc, x.column, x.kind);
      ColumnLeaksIff(t.columns[b], dtypes[b], Column(t, b), sc, y.column, y.kind);
    }
  }

  /** Within one column the email finding comes before the digits finding. */
  lemma LeaksWithinColumn(t: Table, dtypes: seq<string>, sc: Scanners)
    requires WellFormed(t) && |dtypes| == |t.columns|
    ensures var per := ColumnFindings(t, dtypes, sc);
      forall a, i, j :: 0 <= a < |per| && 0 <= i < j < |per[a]| ==> LeakBefore(t.columns, per[a][i], per[a][j])
  {
    var per := ColumnFindings(t, dtypes, sc);
    forall a, i, j | 0 <= a < |per| && 0 <= i < j < |per[a]|
      ensures LeakBefore(t.columns, per[a][i], per[a][j])
    {
      ColumnLeaksIff(t.columns[a], dtypes[a], Column(t, a), sc, "", EmailPattern);
    }
  }

  /** At most two findings per column. */
  lemma LeaksBound(t: Table, dtypes: seq<string>, sc: Scanners)
    requires WellFormed(t) && |dtypes| == |t.columns|
    ensures |RawPii(t, dtypes, sc)| <= 2 * |t.columns|
  {
    var per := ColumnFindings(t, dtypes, sc);
    forall k | 0 <= k < |per|
      ensures |per[k]| <= 2
    {
      ColumnLeaksIff(t.columns[k], dtypes[k], Column(t, k), sc, "", EmailPattern);
    }
    ConcatBound(per, 2);
  }

  /** `[k for k, v in pii_fields.items() if v == "tokenize"]`. */
  function ExpectedTokenCols(fields: seq<(string, string)>): (cols: seq<string>)
    ensures forall c :: c in cols <==> (c, Tokenize) in fields
    ensures |cols| <= |fields|
    decreases |fields|
  {
    if fields == [] then []
    else
      var n := |fields| - 1;
      var rest := ExpectedTokenCols(fields[..n]);
      assert forall e :: e in fields <==> e in fields[..n] || e == fields[n];
      if fields[n].1 == Tokenize then rest + [fields[n].0] else rest
  }

  /** The outcome of an audit: the verdict and both lists of findings. */
  datatype Report = Report(ok: bool, leaks: seq<Leak>, issues: seq<Issue>)

  /** The audit of one output table against the policy. */
  function Audited(t: Table, dtypes: seq<string>, policy: Policy, sc: Scanners): Report
    requires WellFormed(t) && |dtypes| == |t.columns|
  {
    var leaks := RawPii(t, dtypes, sc);
    var issues := TokenIssues(t, ExpectedTokenCols(policy.piiFields));
    Report(leaks == [] && issues == [], leaks, issues)
  }

  /** `main` without its reading and printing: the leak scan, the token
      check of the policy's tokenized columns, and the verdict. */
  method Audit(t: Table, dtypes: seq<string>, policy: Policy, sc: Scanners) returns (report: Report)
    requires WellFormed(t) && |dtypes| == |t.columns|
    ensures report == Audited(t, dtypes, policy, sc)
  {
    var expected := ExpectedTokenCols(policy.piiFields);
    var leaks := FindRawPii(t, dtypes, sc);
    var issues := CheckTokens(t, expected);
    report := Report(leaks == [] && issues == [], leaks, issues);
  }

  /** The leak scan finds nothing iff no scanned column matches either
      pattern in its first 2000 cells. */
  lemma NoLeaks(t: Table, dtypes: seq<string>, sc: Scanners)
    requires WellFormed(t) && |dtypes| == |t.columns|
    ensures RawPii(t, dtypes, sc) == [] <==>
      forall k :: 0 <= k < |t.columns| && Textual(dtypes[k]) ==>
        !Flagged(Column(t, k), sc.email) && !Flagged(Column(t, k), sc.longDigits)
  {
    var leaks := RawPii(t, dtypes, sc);
    if leaks == [] {
      forall k | 0 <= k < |t.columns| && Textual(dtypes[k])
        ensures !Flagged(Column(t, k), sc.email) && !Flagged(Column(t, k), sc.longDigits)
      {
        LeaksIff(t, dtypes, sc, t.columns[k], EmailPattern);
        LeaksIff(t, dtypes, sc, t.columns[k], LongDigitSequence);
        assert !Reported(t, dtypes, sc, k, EmailPattern) && !Reported(t, dtypes, sc, k, LongDigitSequence);
      }
    } else {
      LeaksIff(t, dtypes, sc, leaks[0].column, leaks[0].kind);
    }
  }

  /** The token check finds nothing iff every expected column is present
      and holds no non-empty cell outside the token grammar. */
  lemma NoTokenIssues(t: Table, expected: seq<string>)
    requires WellFormed(t)
    ensures TokenIssues(t, expected) == [] <==>
      forall c :: c in expected ==>
        c in t.columns && forall i :: 0 <= i < |t.rows| ==> !Offends(TextOrEmpty(t.rows[i][ColumnIndex(t.columns, c)]))
  {
    TokenIssuesNone(t, expected);
    forall c | c in expected
      ensures ColumnIssue(t, c).None? <==>
        c in t.columns && forall i :: 0 <= i < |t.rows| ==> !Offends(TextOrEmpty(t.rows[i][ColumnIndex(t.columns, c)]))
    {
      ColumnIssueIff(t, c);
    }
  }

  /** The audit passes iff no scanned column matches a leak pattern in its
      first 2000 cells, and every column the policy tokenizes is present
      with no non-empty cell outside the token grammar. */
  lemma AuditVerdict(t: Table, dtypes: seq<string>, policy: Policy, sc: Scanners)
    requires WellFormed(t) && |dtypes| == |t.columns|
    ensures Audited(t, dtypes, policy, sc).ok <==>
      && (forall k :: 0 <= k < |t.columns| && Textual(dtypes[k]) ==>
            !Flagged(Column(t, k), sc.email) && !Flagged(Column(t, k), sc.longDigits))
      && (forall c :: (c, Tokenize) in policy.piiFields ==>
            c in t.columns && forall i :: 0 <= i < |t.rows| ==> !Offends(TextOrEmpty(t.rows[i][ColumnIndex(t.columns, c)])))
  {
    NoLeaks(t, dtypes, sc);
    NoTokenIssues(t, ExpectedTokenCols(policy.piiFields));
  }
}
