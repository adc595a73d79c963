/** The PII classifier: `detect_in_row`.

    Two passes over one row. The named-field pass walks the policy's
    `pii_fields` in order and emits a hit for a field the row holds, unless the
    text of its value lower-cases to "none", "nan" or "". The pattern pass
    walks the detectors in order and, for each, the row's columns in order,
    emitting a hit for every text cell the detector's pattern matches. The
    spec functions below follow that order (they grow at the end, as the
    source's `hits.append` does); `DetectInRow` is the loop itself. */
module Detector {
  import opened Values
  import opened Policy

  /** `(field, action, value)`: the raw text is captured when the hit is made. */
  datatype Hit = Hit(field: string, action: string, value: string)

  /** `re.compile` raised on the named detector's pattern. */
  datatype DetectError = PatternError(detector: string)

  /** `str(v).lower() in ("none", "nan", "")`. Lower-casing only ASCII is
      exact here: no other character lower-cases into these three words. */
  predicate IsEmptySentinel(text: string)
  {
    Lower(text) in ["none", "nan", ""]
  }

  /** The row holds `f` with a value that is not an empty sentinel. */
  predicate Present(row: Row, f: string)
  {
    HasColumn(row, f) && !IsEmptySentinel(Render(Lookup(row, f)))
  }

  /** The named-field hit for one policy entry, if any. */
  function NamedHit(row: Row, entry: (string, string)): seq<Hit>
  {
    var (field, action) := entry;
    if Present(row, field)
    then [Hit(field, action, Render(Lookup(row, field)))]
    else []
  }

  /** The named-field pass over the policy entries `fields`, in order. */
  function NamedHits(row: Row, fields: seq<(string, string)>): seq<Hit>
    decreases |fields|
  {
    if fields == [] then []
    else NamedHits(row, fields[..|fields| - 1]) + NamedHit(row, fields[|fields| - 1])
  }

  /** The regex pass only reads text cells: None, integers and floats are skipped. */
  predicate Scanned(v: Value)
  {
    v.Str?
  }

  /** One detector over the columns `cells`, in order. */
  function ColumnHits(cells: Row, d: Detector, search: (string, string) -> bool): seq<Hit>
    decreases |cells|
  {
    if cells == [] then []
    else
      var (c, v) := cells[|cells| - 1];
      ColumnHits(cells[..|cells| - 1], d, search)
      + (if Scanned(v) && search(d.pattern, v.s) then [Hit(c, d.action, v.s)] else [])
  }

  /** The pattern pass: each detector in order over the whole row. */
  function RegexHits(row: Row, dets: seq<Detector>, search: (string, string) -> bool): seq<Hit>
    decreases |dets|
  {
    if dets == [] then []
    else RegexHits(row, dets[..|dets| - 1], search) + ColumnHits(row, dets[|dets| - 1], search)
  }

  /** The index of the first detector whose pattern does not compile, or |dets|. */
  function FirstBadPattern(dets: seq<Detector>, re: Regex): (k: nat)
    ensures k <= |dets|
    ensures forall m :: 0 <= m < k ==> re.compiles(dets[m].pattern)
    ensures k < |dets| ==> !re.compiles(dets[k].pattern)
    decreases |dets|
  {
    if dets == [] then 0
    else if !re.compiles(dets[0].pattern) then 0
    else 1 + FirstBadPattern(dets[1..], re)
  }

  /** What `detect_in_row` returns, or the pattern it fails on. */
  function Detect(row: Row, policy: Policy, re: Regex): Result<seq<Hit>, DetectError>
  {
    var k := FirstBadPattern(policy.regexPii, re);
    if k < |policy.regexPii| then Err(PatternError(policy.regexPii[k].name))
    else Ok(NamedHits(row, policy.piiFields) + RegexHits(row, policy.regexPii, re.search))
  }

  /** The named-field loop of `detect_in_row`. */
  method NamedPass(row: Row, fields: seq<(string, string)>) returns (hits: seq<Hit>)
    ensures hits == NamedHits(row, fields)
  {
    hits := [];
    var i := 0;
    while i < |fields|
      invariant 0 <= i <= |fields|
      invariant hits == NamedHits(row, fields[..i])
    {
      var (field, action) := fields[i];
      if Present(row, field) {
        hits := hits + [Hit(field, action, Render(Lookup(row, field)))];
      }
      assert fields[..i + 1][..i] == fields[..i];
      i := i + 1;
    }
    assert fields[..i] == fields;
  }

  /** The inner loop of the pattern pass: one compiled detector over the
      row's columns in order. */
  method ScanRow(row: Row, d: Detector, search: (string, string) -> bool) returns (found: seq<Hit>)
    ensures found == ColumnHits(row, d, search)
  {
    found := [];
    var k := 0;
    while k < |row|
      invariant 0 <= k <= |row|
      invariant found == ColumnHits(row[..k], d, search)
    {
      var (c, v) := row[k];
      if Scanned(v) && search(d.pattern, v.s) {
        found := found + [Hit(c, d.action, v.s)];
      }
      assert row[..k + 1][..k] == row[..k];
      k := k + 1;
    }
    assert row[..k] == row;
  }

  /** `detect_in_row`: the two passes as the source's nested loops. The
      pattern pass collects into `found`, which goes after the named hits. */
  method DetectInRow(row: Row, policy: Policy, re: Regex) returns (r: Result<seq<Hit>, DetectError>)
    ensures r == Detect(row, policy, re)
  {
    var hits := NamedPass(row, policy.piiFields);
    var dets := policy.regexPii;
    var found: seq<Hit> := [];
    var j := 0;
    while j < |dets|
      invariant 0 <= j <= |dets|
      invariant forall m :: 0 <= m < j ==> re.compiles(dets[m].pattern)
      invariant found == RegexHits(row, dets[..j], re.search)
    {
      var d := dets[j];
      if !re.compiles(d.pattern) {
        assert FirstBadPattern(dets, re) == j;
        return Err(PatternError(d.name));
      }
      var more := ScanRow(row, d, re.search);
      found := found + more;
      assert dets[..j + 1][..j] == dets[..j];
      j := j + 1;
    }
    assert dets[..j] == dets;
    assert FirstBadPattern(dets, re) == |dets|;
    r := Ok(hits + found);
  }

  /** A named-field hit is emitted exactly for a policy entry whose field the
      row holds with a value whose text is not an empty sentinel; the hit
      carries the entry's action and that text. */
  lemma {:induction false} NamedHitIff(row: Row, fields: seq<(string, string)>, h: Hit)
    ensures h in NamedHits(row, fields) <==>
      && (h.field, h.action) in fields
      && HasColumn(row, h.field)
      && h.value == Render(Lookup(row, h.field))
      && !IsEmptySentinel(h.value)
    decreases |fields|
  {
    if fields != [] {
      var init, last := fields[..|fields| - 1], fields[|fields| - 1];
      NamedHitIff(row, init, h);
      assert fields == init + [last];
      assert NamedHits(row, fields) == NamedHits(row, init) + NamedHit(row, last);
      assert (h.field, h.action) in fields <==> (h.field, h.action) in init || (h.field, h.action) == last;
    }
  }

  /** The texts of None and NaN, in any letter case, and "" are empty sentinels. */
  lemma SentinelTexts(t: string)
    requires t in ["None", "nan", "NaN", "", "NONE", "none"]
    ensures IsEmptySentinel(t)
  {
    if t == "None" {
      assert Lower(t) == "none";
    } else if t == "NONE" {
      assert Lower(t) == "none";
    } else if t == "NaN" {
      assert Lower(t) == "nan";
    } else if t == "nan" {
      assert Lower(t) == "nan";
    } else if t == "none" {
      assert Lower(t) == "none";
    } else {
      assert Lower(t) == "";
    }
  }

  /** A cell holding None or NaN (in any letter case) or "" never yields a
      named-field hit. */
  lemma MissingNeverNamed(row: Row, fields: seq<(string, string)>, f: string)
    requires HasColumn(row, f)
    requires Lookup(row, f) in [Null, Float("nan"), Str("NaN"), Str(""), Str("NONE"), Str("none")]
    ensures forall h :: h in NamedHits(row, fields) ==> h.field != f
  {
    SentinelTexts(Render(Lookup(row, f)));
    forall h | h in NamedHits(row, fields)
      ensures h.field != f
    {
      NamedHitIff(row, fields, h);
    }
  }

  /** One detector flags exactly the text cells its pattern matches. */
  lemma {:induction false} ColumnHitIff(cells: Row, d: Detector, search: (string, string) -> bool, h: Hit)
    ensures h in ColumnHits(cells, d, search) <==>
      && h.action == d.action
      && (h.field, Str(h.value)) in cells
      && search(d.pattern, h.value)
    decreases |cells|
  {
    if cells != [] {
      var init, last := cells[..|cells| - 1], cells[|cells| - 1];
      ColumnHitIff(init, d, search, h);
      assert cells == init + [last];
      assert (h.field, Str(h.value)) in cells <==> (h.field, Str(h.value)) in init || (h.field, Str(h.value)) == last;
    }
  }

  /** A pattern hit is emitted exactly for a text cell of the row and a
      detector whose pattern matches that text; it carries the detector's
      action. */
  lemma {:induction false} RegexHitIff(row: Row, dets: seq<Detector>, search: (string, string) -> bool, h: Hit)
    ensures h in RegexHits(row, dets, search) <==>
      && (h.field, Str(h.value)) in row
      && exists j :: 0 <= j < |dets| && dets[j].action == h.action && search(dets[j].pattern, h.value)
    decreases |dets|
  {
    if dets != [] {
      var n := |dets| - 1;
      var init := dets[..n];
      RegexHitIff(row, init, search, h);
      ColumnHitIff(row, dets[n], search, h);
      var before := RegexHits(row, init, search);
      var now := ColumnHits(row, dets[n], search);
      assert RegexHits(row, dets, search) == before + now;
      assert h in before + now <==> h in before || h in now;
      assert forall j :: 0 <= j < n ==> init[j] == dets[j];
      if exists j :: 0 <= j < |dets| && dets[j].action == h.action && search(dets[j].pattern, h.value) {
        var j :| 0 <= j < |dets| && dets[j].action == h.action && search(dets[j].pattern, h.value);
        assert j < n || j == n;
      }
    }
  }


  /** Every hit names a column of the row and carries either the policy's
      action for that field or some detector's action. */
  lemma HitsAreFromPolicy(row: Row, policy: Policy, re: Regex)
    requires Detect(row, policy, re).Ok?
    ensures forall h :: h in Detect(row, policy, re).value ==>
      && HasColumn(row, h.field)
      && ((h.field, h.action) in policy.piiFields
          || exists j :: 0 <= j < |policy.regexPii| && policy.regexPii[j].action == h.action)
  {
    forall h | h in Detect(row, policy, re).value
      ensures HasColumn(row, h.field)
      ensures (h.field, h.action) in policy.piiFields
          || exists j :: 0 <= j < |policy.regexPii| && policy.regexPii[j].action == h.action
    {
      NamedHitIff(row, policy.piiFields, h);
      RegexHitIff(row, policy.regexPii, re.search, h);
      if h !in NamedHits(row, policy.piiFields) {
        var k :| 0 <= k < |row| && row[k] == (h.field, Str(h.value));
        assert row[k].0 == h.field;
      }
    }
  }

  /** A cell that is None, an integer or a float is never flagged by a
      pattern, whatever the pattern. */
  lemma NonTextNeverMatched(row: Row, dets: seq<Detector>, search: (string, string) -> bool, f: string)
    requires DistinctColumns(row)
    requires HasColumn(row, f) && !Scanned(Lookup(row, f))
    ensures forall h :: h in RegexHits(row, dets, search) ==> h.field != f
  {
    forall h | h in RegexHits(row, dets, search)
      ensures h.field != f
    {
      RegexHitIff(row, dets, search, h);
    }
  }

  /** A dict has unique keys. */
  predicate DistinctColumns(row: Row)
  {
    forall i, j :: 0 <= i < j < |row| ==> row[i].0 != row[j].0
  }

  /** How many hits name `f`. */
  function CountField(hits: seq<Hit>, f: string): nat
    decreases |hits|
  {
    if hits == [] then 0
    else CountField(hits[..|hits| - 1], f) + (if hits[|hits| - 1].field == f then 1 else 0)
  }

  lemma {:induction false} CountFieldAppend(a: seq<Hit>, b: seq<Hit>, f: string)
    ensures CountField(a + b, f) == CountField(a, f) + CountField(b, f)
    decreases |b|
  {
    if b != [] {
      CountFieldAppend(a, b[..|b| - 1], f);
      assert (a + b)[..|a + b| - 1] == a + b[..|b| - 1];
    } else {
      assert a + b == a;
    }
  }

  /** How many of the detectors match `text`. */
  function MatchCount(dets: seq<Detector>, search: (string, string) -> bool, text: string): nat
    decreases |dets|
  {
    if dets == [] then 0
    else MatchCount(dets[..|dets| - 1], search, text) + (if search(dets[|dets| - 1].pattern, text) then 1 else 0)
  }

  /** The policy has an entry for `f`. */
  predicate NamesField(fields: seq<(string, string)>, f: string)
  {
    exists i :: 0 <= i < |fields| && fields[i].0 == f
  }

  /** In a row with unique column names, `row[c]` is the value at c's position. */
  lemma LookupAt(row: Row, k: int)
    requires DistinctColumns(row) && 0 <= k < |row|
    ensures HasColumn(row, row[k].0) && Lookup(row, row[k].0) == row[k].1
  {
    assert HasColumn(row, row[k].0);
    var v := Lookup(row, row[k].0);
    var k' :| 0 <= k' < |row| && row[k'] == (row[k].0, v);
    assert k' == k;
  }

  /** One policy entry yields a hit for `f` only when it names `f`. */
  lemma NamedHitCount(row: Row, entry: (string, string), f: string)
    ensures CountField(NamedHit(row, entry), f) == if entry.0 == f && Present(row, f) then 1 else 0
  {
    if NamedHit(row, entry) != [] {
      assert NamedHit(row, entry)[..0] == [];
    }
  }

  /** A field is named by a sequence of entries iff it is named by its
      prefix or by its last entry. */
  lemma NamesFieldLast(fields: seq<(string, string)>, f: string)
    requires fields != []
    ensures NamesField(fields, f) <==>
      NamesField(fields[..|fields| - 1], f) || fields[|fields| - 1].0 == f
  {
    var init := fields[..|fields| - 1];
    if NamesField(fields, f) && fields[|fields| - 1].0 != f {
      var i :| 0 <= i < |fields| && fields[i].0 == f;
      assert init[i].0 == f;
    }
    if NamesField(init, f) {
      var i :| 0 <= i < |init| && init[i].0 == f;
      assert fields[i].0 == f;
    }
  }

  /** The named-field pass yields at most one hit per field when the policy
      names each field once, and exactly one when the row holds it with a
      non-sentinel value. */
  lemma {:induction false} NamedCount(row: Row, fields: seq<(string, string)>, f: string)
    requires UniqueFields(fields)
    ensures CountField(NamedHits(row, fields), f) == if NamesField(fields, f) && Present(row, f) then 1 else 0
    decreases |fields|
  {
    if fields != [] {
      var init, last := fields[..|fields| - 1], fields[|fields| - 1];
      assert UniqueFields(init);
      NamedCount(row, init, f);
      CountFieldAppend(NamedHits(row, init), NamedHit(row, last), f);
      NamedHitCount(row, last, f);
      NamesFieldLast(fields, f);
    }
  }

  /** One detector yields one hit for column `f` when the row holds text
      there that its pattern matches, and none otherwise. */
  lemma {:induction false} ColumnCount(cells: Row, d: Detector, search: (string, string) -> bool, f: string)
    requires DistinctColumns(cells)
    ensures CountField(ColumnHits(cells, d, search), f) ==
      if HasColumn(cells, f) && Scanned(Lookup(cells, f)) && search(d.pattern, Lookup(cells, f).s)
      then 1 else 0
    decreases |cells|
  {
    if cells != [] {
      var init, last := cells[..|cells| - 1], cells[|cells| - 1];
      LookupInit(cells, f);
      ColumnCount(init, d, search, f);
      var (c, v) := last;
      var tail := if Scanned(v) && search(d.pattern, v.s) then [Hit(c, d.action, v.s)] else [];
      assert ColumnHits(cells, d, search) == ColumnHits(init, d, search) + tail;
      CountFieldAppend(ColumnHits(init, d, search), tail, f);
      assert CountField(tail, f) == if c == f && Scanned(v) && search(d.pattern, v.s) then 1 else 0 by {
        if tail != [] {
          assert tail[..0] == [];
        }
      }
    }
  }

  /** Dropping a row's last pair: the rest still has unique names; the last
      name is not among them; any other name keeps its presence and value. */
  lemma LookupInit(cells: Row, f: string)
    requires DistinctColumns(cells) && cells != []
    ensures var n := |cells| - 1;
      && DistinctColumns(cells[..n])
      && (cells[n].0 == f ==> !HasColumn(cells[..n], f) && HasColumn(cells, f) && Lookup(cells, f) == cells[n].1)
      && (cells[n].0 != f ==> (HasColumn(cells[..n], f) <==> HasColumn(cells, f)))
      && (cells[n].0 != f && HasColumn(cells, f) ==> Lookup(cells[..n], f) == Lookup(cells, f))
  {
    var n := |cells| - 1;
    var init := cells[..n];
    assert forall k :: 0 <= k < n ==> init[k] == cells[k];
    if cells[n].0 == f {
      LookupAt(cells, n);
    } else if HasColumn(cells, f) {
      var k :| 0 <= k < |cells| && cells[k].0 == f;
      LookupAt(cells, k);
      LookupAt(init, k);
    }
  }


  /** The pattern pass yields, for a text column `f`, one hit per detector
      that matches its text, and none for any other column value. */
  lemma {:induction false} RegexCount(row: Row, dets: seq<Detector>, search: (string, string) -> bool, f: string)
    requires DistinctColumns(row)
    requires HasColumn(row, f)
    ensures CountField(RegexHits(row, dets, search), f) ==
      if Scanned(Lookup(row, f)) then MatchCount(dets, search, Lookup(row, f).s) else 0
    decreases |dets|
  {
    if dets != [] {
      var init := dets[..|dets| - 1];
      RegexCount(row, init, search, f);
      CountFieldAppend(RegexHits(row, init, search), ColumnHits(row, dets[|dets| - 1], search), f);
      ColumnCount(row, dets[|dets| - 1], search, f);
    }
  }

  /** A column named in `pii_fields` with a non-sentinel text value that k
      detectors match yields 1 + k hits: the passes do not de-duplicate. */
  lemma HitsPerField(row: Row, policy: Policy, re: Regex, f: string)
    requires DistinctColumns(row)
    requires UniqueFields(policy.piiFields)
    requires Detect(row, policy, re).Ok?
    requires HasColumn(row, f)
    ensures CountField(Detect(row, policy, re).value, f) ==
      (if NamesField(policy.piiFields, f) && Present(row, f) then 1 else 0)
      + (if Scanned(Lookup(row, f)) then MatchCount(policy.regexPii, re.search, Lookup(row, f).s) else 0)
  {
    NamedCount(row, policy.piiFields, f);
    RegexCount(row, policy.regexPii, re.search, f);
    CountFieldAppend(NamedHits(row, policy.piiFields), RegexHits(row, policy.regexPii, re.search), f);
  }

  lemma {:induction false} NamedHitsBound(row: Row, fields: seq<(string, string)>)
    ensures |NamedHits(row, fields)| <= |fields|
    decreases |fields|
  {
    if fields != [] {
      NamedHitsBound(row, fields[..|fields| - 1]);
    }
  }

  lemma {:induction false} ColumnHitsBound(cells: Row, d: Detector, search: (string, string) -> bool)
    ensures |ColumnHits(cells, d, search)| <= |cells|
    decreases |cells|
  {
    if cells != [] {
      ColumnHitsBound(cells[..|cells| - 1], d, search);
    }
  }

  lemma {:induction false} RegexHitsBound(row: Row, dets: seq<Detector>, search: (string, string) -> bool)
    ensures |RegexHits(row, dets, search)| <= |dets| * |row|
    decreases |dets|
  {
    if dets != [] {
      RegexHitsBound(row, dets[..|dets| - 1], search);
      ColumnHitsBound(row, dets[|dets| - 1], search);
      assert |dets| * |row| == (|dets| - 1) * |row| + |row|;
    }
  }

  /** At most one hit per policy field plus one per (detector, column) pair. */
  lemma HitsBound(row: Row, policy: Policy, re: Regex)
    requires Detect(row, policy, re).Ok?
    ensures |Detect(row, policy, re).value| <= |policy.piiFields| + |policy.regexPii| * |row|
  {
    NamedHitsBound(row, policy.piiFields);
    RegexHitsBound(row, policy.regexPii, re.search);
  }
}
