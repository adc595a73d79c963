# Privacy layer: row-level masking pipeline in Dafny

This project models the core of a small privacy layer for tabular data
(`justfrfun/privacy_layer_mvp`). A JSON policy names the PII columns and their
actions (`tokenize`, `mask_fpe_last4`), regex detectors and a schema. The
pipeline does these things in order:

1. casts the declared column types;
2. checks the `date` column against the declared format and splits the bad
   rows off into an append-only quarantine file;
3. classifies every row (named fields first, then the regex detectors);
4. rewrites the flagged cells with keyed tokens or last-four masks;
5. makes a masked copy of the quarantine file;
6. writes a governance record with the totals.

A separate verifier re-scans the output for raw emails and long digit runs.
It also checks that the tokenized columns hold only tokens.

Files, one module each, following the source's packages:

| file | module | source |
|---|---|---|
| `values.dfy` | `Values` | cells (`Str`, `Int`, `Float` by its Python text, `Null`), rows as ordered `(column, value)` pairs, tables with index labels, and the `Frame` class for a DataFrame updated in place |
| `policy.dfy` | `Policy` | the policy document as ordered sequences (dictionary order drives hit order) |
| `tokenizer.dfy` | `Tokenizer` | `tok/tokenizer.py`: pure functions, with URL-safe base64 written out and HMAC-SHA256 as an oracle |
| `detector.dfy` | `Detector` | `pii/detector.py`: specification functions, the nested-loop method `DetectInRow` proved equal to them, and lemmas on hit order and count |
| `wrapper.dfy` | `Wrapper` | `wrap/wrapper.py`: `EnforceSchema` acts on a `Frame` in place; the quarantine file is a `QuarantineStore` class that only ever appends |
| `pipeline.dfy` | `Pipeline` | `cli/process.py`: the row loop in place on a `Frame`, the quarantine copy, the governance record, and strict versus non-strict routing |
| `audit.dfy` | `Audit` | `audit/verify.py`: the token grammar written out, `CheckTokens`, `FindRawPii`, and the verdict |

These become parameters (oracles):

- HMAC-SHA256 under the secret: `Mac`, a map from message to 32 bytes. The secret and the UTF-8 encoding are folded into it.
- The regex engine: `Regex`, which says whether a pattern compiles and whether it matches.
- `EMAIL_RE` and `PAN_RE`: `Scanners`.
- pandas' text-to-number parse, the `Int64` cast of a float, the datetime parses and `strftime`: `Wrapper.Oracles`, applied one cell at a time.
- A failed cell write: `fails`.
- Reading the quarantine CSV back: `CsvReader`.

Hit order follows the code: named-field hits come first and regex hits after.
When both kinds hit one cell, the regex hit comes later, so a regex hit that
writes decides the cell (`Pipeline.LaterHitsWin`).

## Model

| member | source | states |
|---|---|---|
| `Policy.DateFormat` | wrap/wrapper.py:30 | the date format is the schema's `date_format`, `%Y-%m-%d` when absent |
| `Values.TextOrEmpty` | audit/verify.py:43 | `astype("string").fillna("")`: None and NaN read as "", a string reads as itself |
| `Values.Lookup` | pii/detector.py:16 | `row[field]` is the value paired with that column in the row |
| `Values.RowDict` | cli/process.py:64 | `row.to_dict()` pairs each column with its cell, in column order |
| `Values.Without` | cli/process.py:34 | the list comprehension keeps exactly the elements absent from the other list (missing columns, extra columns) |
| `Values.WithoutIsFilter` | cli/process.py:34 | the comprehension keeps the original order: it is the order-preserving filter by "not in the other list", so missing columns are listed in `required`'s order |
| `Values.CountAny` | wrap/wrapper.py:36 | `bad_mask.any()` holds iff `bad_mask.sum() > 0` |
| `Values.FilterSplit` | wrap/wrapper.py:49-51 | the kept rows number `n - sum(bad)` and the quarantined rows `sum(bad)` |
| `Values.FilterMember` | wrap/wrapper.py:51 | `df.loc[mask]` holds a row iff its mask entry selects it |
| `Values.FilterIncreasing` | wrap/wrapper.py:51 | filtering keeps the rows in their original order |
| `Tokenizer.B64Shape` | tok/tokenizer.py:8 | URL-safe base64 yields 4 characters per started 3-byte group, all from `[A-Za-z0-9_-]` except trailing `=` padding |
| `Tokenizer.B64Length` | tok/tokenizer.py:8 | the encoding has 4 characters per started 3-byte group |
| `Tokenizer.B64Chars` | tok/tokenizer.py:8 | the encoding uses `[A-Za-z0-9_-]` and ends in exactly the padding the input length calls for |
| `Tokenizer.DigestEncoding` | tok/tokenizer.py:8 | a 32-byte digest encodes to 44 characters, with padding only at position 43 |
| `Tokenizer.TokBytes` | tok/tokenizer.py:6-8 | the code is 16 characters from `[A-Za-z0-9_-]` with no `=` |
| `Tokenizer.Tok` | tok/tokenizer.py:10-15 | None and "" come back unchanged; any other value becomes `<PII:` field `:` code `>` of length `|field| + 23` |
| `Tokenizer.TokSeparatesFields` | tok/tokenizer.py:13-15 | tokens for distinct fields always differ, whatever the values |
| `Tokenizer.DigitsAreDigits` | tok/tokenizer.py:20 | the extracted characters are all digits and no more than the input |
| `Tokenizer.DigitsAppend` | tok/tokenizer.py:20 | digit extraction distributes over concatenation |
| `Tokenizer.MaskLast4` | tok/tokenizer.py:17-23 | None stays None; fewer than 4 digits give `****`; otherwise one `*` per digit but the last four, then the last four digits in order |
| `Tokenizer.MaskCardExamples` | tok/tokenizer.py:20-23 | `4111111111111111` and `4111-1111-1111-1111` both mask to `************1111` |
| `Tokenizer.BareCardDigits` | tok/tokenizer.py:20 | digit extraction keeps `4111111111111111` as it is |
| `Tokenizer.GroupedCardDigits` | tok/tokenizer.py:20 | digit extraction turns `4111-1111-1111-1111` into `4111111111111111` |
| `Tokenizer.MaskShortExamples` | tok/tokenizer.py:21-22 | `12` and `""` mask to `****` |
| `Detector.FirstBadPattern` | pii/detector.py:19-20 | detection fails on the first detector, in order, whose pattern does not compile |
| `Detector.DetectInRow` | pii/detector.py:9-28 | the nested loops return exactly the named-field hits in policy order followed by the regex hits by detector then column, or the compile error |
| `Detector.NamedPass` | pii/detector.py:15-17 | the policy loop returns exactly the specified named-field hits, in policy order |
| `Detector.ScanRow` | pii/detector.py:22-27 | the column loop for one detector returns exactly its specified hits, in column order |
| `Detector.NamedHitIff` | pii/detector.py:15-17 | a named-field hit is emitted iff the policy lists the field with that action, the row holds the field, and its text is not "none", "nan" or "" in any case |
| `Detector.SentinelTexts` | pii/detector.py:16 | "None", "NONE", "none", "nan", "NaN" and "" are empty sentinels |
| `Detector.MissingNeverNamed` | pii/detector.py:16 | None, NaN, "NaN", "NONE", "none" and "" never yield a named-field hit |
| `Detector.ColumnHitIff` | pii/detector.py:22-27 | one detector flags exactly the text cells its pattern matches, with its action |
| `Detector.RegexHitIff` | pii/detector.py:18-27 | a regex hit is emitted iff a text cell of the row matches some detector whose action it carries |
| `Detector.NonTextNeverMatched` | pii/detector.py:23-24 | None, integer and float cells never yield a regex hit, whatever the pattern |
| `Detector.HitsAreFromPolicy` | pii/detector.py:15-27 | every hit names a column of the row and carries that field's policy action or some detector's action |
| `Detector.LookupAt` | pii/detector.py:22 | with unique column names, `row[c]` is the value at c's position |
| `Detector.NamedHitCount` | pii/detector.py:16-17 | one policy entry yields a hit only for its own field |
| `Detector.NamesFieldLast` | pii/detector.py:15 | a field is named by the policy iff it is named by the earlier entries or the last one |
| `Detector.CountFieldAppend` | pii/detector.py:17 | hit counts per field add up over concatenation |
| `Detector.NamedCount` | pii/detector.py:15-17 | the named pass yields exactly one hit for a listed field that is present and not a sentinel, else none |
| `Detector.ColumnCount` | pii/detector.py:22-27 | one detector yields one hit for a column iff the cell is text its pattern matches |
| `Detector.RegexCount` | pii/detector.py:19-27 | the regex pass yields one hit per matching detector for a text column, none for other cells |
| `Detector.HitsPerField` | pii/detector.py:15-27 | a listed, present column matched by k detectors yields 1 + k hits: the passes do not de-duplicate |
| `Detector.NamedHitsBound` | pii/detector.py:15-17 | the named pass yields at most one hit per policy entry |
| `Detector.ColumnHitsBound` | pii/detector.py:22-27 | one detector yields at most one hit per column |
| `Detector.RegexHitsBound` | pii/detector.py:19-27 | the regex pass yields at most `|regex_pii| * |row|` hits |
| `Detector.HitsBound` | pii/detector.py:14-28 | at most `|pii_fields| + |regex_pii| * |row|` hits in all |
| `Wrapper.Numeric` | wrap/wrapper.py:20 | `to_numeric(errors="coerce")` never fails: a null or text that does not parse becomes NaN, integer text becomes that integer, decimal text that float, and numbers pass unchanged |
| `Wrapper.CastOne` | wrap/wrapper.py:15-27 | one dtype entry keeps the column set, the index and the row count |
| `Wrapper.Casts` | wrap/wrapper.py:14-27 | the dtype entries in order keep the column set, the index and the row count |
| `Wrapper.BadMask` | wrap/wrapper.py:33-34 | a row is bad iff its date is present and fails the strict parse |
| `Wrapper.SelectRows` | wrap/wrapper.py:51 | `df.loc[mask]` keeps the columns and the selected rows with their index labels |
| `Wrapper.Enforced` | wrap/wrapper.py:6-56 | a successful enforcement returns a rectangular table with the input's columns |
| `Wrapper.AppendOnly` | wrap/wrapper.py:46-47 | an append keeps the old lines as a prefix, writes a header only into a new file, and adds exactly the batch's rows |
| `Wrapper.QuarantineStore.Append` | wrap/wrapper.py:46-47 | the file's new lines are the old lines plus the batch, or are unchanged when the write fails |
| `Wrapper.ApplyCasts` | wrap/wrapper.py:14-27 | the casting loop leaves the frame equal to the dtype entries applied in order |
| `Wrapper.EnforceSchema` | wrap/wrapper.py:6-56 | returns exactly what enforcement specifies; the caller's frame keeps the casts; the store gets the bad batch appended or is unchanged |
| `Wrapper.EnforceDates` | wrap/wrapper.py:32-54 | with a `date` column, the date stage returns exactly what enforcement specifies, leaves the caller's frame as specified and writes the specified batch |
| `Wrapper.FloatCast` | wrap/wrapper.py:19-20 | a `float` column becomes numeric cell by cell and no other cell changes |
| `Wrapper.IntCastAllOrNothing` | wrap/wrapper.py:21-27 | an `int` cast that raises leaves the table as it is; otherwise every cell of the column becomes its coerced number as an integer, a cell that does not parse becomes NA, and no other column changes |
| `Wrapper.IntCastValues` | wrap/wrapper.py:21-27 | when every cell of the column converts, each becomes its conversion and the other columns are unchanged |
| `Wrapper.CastSkips` | wrap/wrapper.py:16-24 | absent columns and unknown type names leave the table untouched |
| `Wrapper.MissingDatesNotBad` | wrap/wrapper.py:34 | null dates are never bad |
| `Wrapper.StrictDatesRaise` | wrap/wrapper.py:36-39 | strict dates in strict mode raise on any bad row; the error counts them and samples the first five of their dates in row order (`head()`) |
| `Wrapper.QuarantineSplit` | wrap/wrapper.py:36-51 | non-strict: the kept rows are the good rows in order (even without `out_dir`), kept plus quarantined is the input count, the count is reported only when written, and each kept row carries its input row's cells with only `date` normalised |
| `Wrapper.BatchContents` | wrap/wrapper.py:44-45 | the written batch is exactly the bad rows in order, each with its input cells and tagged `invalid_date_format` |
| `Wrapper.NothingDropped` | wrap/wrapper.py:11-36 | without strict dates, without a `date` column or without a bad row, nothing is dropped, the info stays at its defaults, and only the date column is rewritten |
| `Wrapper.DatesNormalised` | wrap/wrapper.py:53-54 | every surviving date is rendered with the format or is NaN |
| `Wrapper.CallerView` | wrap/wrapper.py:20-24 | the caller's frame after the call is a rectangular table with its original columns |
| `Pipeline.ApplyHits` | cli/process.py:74-89 | applying a row's hits keeps the row width and never fails outside strict mode |
| `Pipeline.MaskRow` | cli/process.py:64-89 | one row's pass keeps the width and never fails outside strict mode |
| `Pipeline.MaskAll` | cli/process.py:62-89 | the row loop keeps the row count and width and never fails outside strict mode |
| `Pipeline.ApplyRowHits` | cli/process.py:74-89 | the inner loop writes row `i` exactly as `ApplyHits` specifies and returns its action log |
| `Pipeline.MaskOneRow` | cli/process.py:64-89 | one iteration of the row loop is exactly `MaskRow` on the frame's row |
| `Pipeline.MaskRows` | cli/process.py:62-89 | the row loop leaves the frame and `actions_applied` exactly as `MaskAll` specifies |
| `Pipeline.ApplyHitsErrSticks` | cli/process.py:85-87 | a strict transform failure ends the row: later hits change nothing |
| `Pipeline.MaskAllErrSticks` | cli/process.py:67-69 | a strict failure ends the run: later rows change nothing |
| `Pipeline.MaskAllStep` | cli/process.py:63 | the loop over `i + 1` rows extends the loop over `i` rows |
| `Pipeline.ProgressStep` | cli/process.py:63-89 | the row loop invariant survives one more row |
| `Pipeline.ProgressFails` | cli/process.py:65-89 | a failing row makes the whole loop fail with that row's error |
| `Pipeline.LastWriteWins` | cli/process.py:74-83 | each cell ends with the last writing hit's transform of the captured value |
| `Pipeline.NoHitNoChange` | cli/process.py:74-83 | a cell no writing hit names keeps its value |
| `Pipeline.LaterHitsWin` | cli/process.py:74-83 | a later writing hit on a field overrides every earlier hit and the original value, so regex hits override named-field hits |
| `Pipeline.LogIsApplied` | cli/process.py:84 | a row's log holds one `{row, field, action}` per hit that did not fail, in order, whatever the action name |
| `Pipeline.LogOf` | cli/process.py:84 | one log entry per applied hit |
| `Pipeline.ApplyHitsOutcome` | cli/process.py:85-89 | non-strict never fails; strict fails iff some hit fails, naming the first one |
| `Pipeline.MaskRowLog` | cli/process.py:65-84 | a row's log is its applied hits; a row whose detection failed adds none |
| `Pipeline.MaskAllLog` | cli/process.py:62-84 | `actions_applied` is the row logs concatenated in row order |
| `Pipeline.MaskAllAt` | cli/process.py:63-64 | each output row is what masking that row alone gives |
| `Pipeline.MaskedCells` | cli/process.py:64-83 | every output cell is the last writing hit's transform of its captured value; a row whose detection failed is unchanged |
| `Pipeline.StoreAfter` | wrap/wrapper.py:46-47 | the quarantine file after enforcement keeps its old lines as a prefix |
| `Pipeline.Schemaed` | cli/process.py:47-59 | a schema failure is fatal only in strict mode; otherwise the run goes on with a rectangular table |
| `Pipeline.QuarantineCopy` | cli/process.py:107-108 | a masked copy is made only when rows were quarantined |
| `Pipeline.MaskedCopy` | cli/process.py:109-127 | the masked copy keeps the read table's columns, index and row count |
| `Pipeline.Record` | cli/process.py:134-147 | totals are the row and action counts; `extra_columns` are the columns outside `required`; absent paths become "" |
| `Pipeline.ExtraColumnsOrder` | cli/process.py:144 | `extra_columns` lists the columns outside `required` in the table's column order |
| `Pipeline.MaskQuarantine` | cli/process.py:106-130 | the masked copy runs the same row loop with no failure fatal, on a frame of its own |
| `Pipeline.EnforceForProcess` | cli/process.py:46-59 | schema enforcement routed as `process` routes it: fatal in strict mode, else defaults; the quarantine file gets exactly the specified batch |
| `Pipeline.Process` | cli/process.py:18-150 | the run's result is exactly the specified pipeline; the quarantine file afterwards is unchanged when the strict required-column check stops the run, and otherwise holds exactly the batch schema enforcement appended, even when a later step fails; it only ever grows |
| `Pipeline.RunOutcome` | cli/process.py:32-59 | a non-strict run always completes; a strict run stops on missing required columns (exactly those absent, in `required`'s order) and then on a schema failure |
| `Pipeline.RunTotals` | cli/process.py:134-147 | `totals.rows` is the row count after enforcement; `totals.actions` counts the main pass's applied hits only; every cell is its last writing hit's transform |
| `Pipeline.RunQuarantine` | cli/process.py:144-146 | quarantined rows are counted and their file named, and kept plus quarantined rows make the input; otherwise the count is 0, the path "" and no copy is made |
| `Audit.TokMatchesGrammar` | audit/verify.py:38 | every token `tok` makes of a non-empty value for a `[A-Za-z0-9_]+` field matches the token grammar |
| `Audit.Texts` | audit/verify.py:43 | a column read as text with NA as "" |
| `Audit.OffendersIff` | audit/verify.py:46 | the offenders are exactly the column's non-empty texts that do not match |
| `Audit.OffendersNone` | audit/verify.py:46-47 | a column has no offenders iff none of its texts is a non-empty text outside the grammar |
| `Audit.Take` | audit/verify.py:46 | `head(n)` is a prefix of at most n elements |
| `Audit.CheckTokens` | audit/verify.py:35-48 | the loop returns exactly the specified issues |
| `Audit.ColumnIssueIff` | audit/verify.py:40-47 | an absent column is reported missing; a present one is flagged iff some non-empty text fails the grammar, listing 1 to 5 offenders |
| `Audit.CheckColumn` | audit/verify.py:40-47 | the per-column check returns exactly that column's specified issue |
| `Audit.ColumnIssueFlagged` | audit/verify.py:43-47 | a present column is flagged iff some cell's text is non-empty and outside the token grammar |
| `Audit.ColumnIssueSample` | audit/verify.py:46-47 | a flagged column's report lists 1 to 5 offenders, each a non-token text of one of its cells |
| `Audit.TokenIssuesBound` | audit/verify.py:39-47 | at most one issue per expected column |
| `Audit.TokenIssuesFrom` | audit/verify.py:39-47 | every issue names an expected column and is that column's issue |
| `Audit.TokenIssuesNone` | audit/verify.py:39-47 | there are no issues iff no expected column has one |
| `Audit.NoTokenIssues` | audit/verify.py:39-47 | the token check is clean iff every expected column is present and holds only tokens or empties |
| `Audit.TokenColumnPasses` | audit/verify.py:43-47 | a column of tokens, empties and missing cells passes the token check |
| `Audit.TokenizedCellAccepted` | cli/process.py:80-81 | a cell the pipeline tokenizes is accepted by the token check |
| `Audit.Contains` | audit/verify.py:26-31 | the scan reports a match iff one of the first 2000 cells matches |
| `Audit.FindRawPii` | audit/verify.py:20-33 | the column loop returns exactly the specified findings |
| `Audit.ColumnLeaksIff` | audit/verify.py:24-32 | a column yields a finding of a kind iff it is a text column whose first 2000 cells match; at most two findings |
| `Audit.ScanColumn` | audit/verify.py:24-32 | scanning one column returns exactly that column's specified findings |
| `Audit.LeakOrder` | audit/verify.py:23-32 | findings come column by column in the table's column order, and within a column the email finding precedes the digits finding |
| `Audit.LeaksIff` | audit/verify.py:23-32 | a finding names a text column whose first 2000 cells match its pattern, and every such column is reported |
| `Audit.LeaksBound` | audit/verify.py:23-32 | at most two findings per column |
| `Audit.NoLeaks` | audit/verify.py:23-33 | the leak scan is clean iff no text column matches either pattern in its first 2000 cells |
| `Audit.ExpectedTokenCols` | audit/verify.py:57 | the expected token columns are exactly the `pii_fields` entries whose action is `tokenize` |
| `Audit.Audit` | audit/verify.py:57-82 | the audit returns exactly the specified report |
| `Audit.AuditVerdict` | audit/verify.py:82 | the verdict passes iff no text column's sample matches a leak pattern and every tokenized column is present with only tokens or empties |

## Left out

- File and console I/O is not modelled. This covers `read_csv`, `to_csv`, `to_parquet`, the JSON reads and writes, `load_policy`, `load_outputs`, `write_log`, `mkdir`, and every `print` (warnings included).
- `human_exit` is modelled as an error result (`ProcessError`), not as process exit.
- Process control is left out: `argparse`, both `main` functions, and `audit/verify.py:62-87` apart from the verdict.
- `governance/logger.py` is not part of this model; `process` does not use it.
- HMAC-SHA256, the UTF-8 encoding and the environment-read secret are one oracle, `Mac`. Only the digest's 32-byte length is assumed. Determinism holds because `Tok` is a function of the oracle.
- Regex matching is an oracle (`Regex` for the policy detectors, `Scanners` for `EMAIL_RE` and `PAN_RE`). Only `TOKEN_RE` is written out.
- These pandas conversions are oracles in `Wrapper.Oracles`: the parse of a text cell inside `to_numeric`, the `Int64` cast of a float, `to_datetime` with and without a format, and `strftime`. The NA and NaN representations are reduced to `Null` and `Float("nan")`.
- The `astype("string")` calls in `cli/process.py:41-44`, `:77-78` and `:120-121` are representation plumbing and are left out. So a missing cell reaches the detector as `Null`/`Float("nan")`, not as pandas' `<NA>`.
- Whether a hit fails to apply is an oracle, `fails`. It covers the column conversion, the transform and the cell write.
- A detection failure is modelled only as a detector pattern that does not compile. The typed policy rules out the other causes, such as a missing `pattern` key.
- `Pipeline.Process` requires a non-empty output directory. Python's `Path` is always truthy, so `enforce_schema` always receives a usable `out_dir` from `process`.
- Reading the quarantine CSV back is an oracle (`CsvReader`) over the file's lines, and its dtype inference is not modelled. A failure to write the masked copy is folded into that oracle's failure.
- The governance record leaves out the input, output and parquet paths.
- `Tokenizer.Digits` / `Tokenizer.MaskLast4`: only the ASCII digits `0`-`9` are extracted. Python's `str.isdigit` also accepts other Unicode digits (Arabic-Indic, fullwidth, superscripts), so for a value such as `١٢٣٤٥` the source keeps those digits where the model masks to `****`.
- `Wrapper.Numeric`: `to_numeric` is modelled cell by cell, without pandas' column dtype promotion. An integer column that also holds a null or an unparseable cell becomes float64 in pandas, so an `Int(5)` cell there reads as `5.0` where the model keeps `5`; this reaches named-field hit texts and tokens after a `float` or `int` cast.
- `Wrapper.QuarantinePath`: the quarantine path is `dir + "/" + "quarantine_raw.csv"`. `pathlib` drops a trailing separator of `dir`, so for `out/` the source gives `out/quarantine_raw.csv` where the model gives `out//quarantine_raw.csv`. The path only reaches `Info`, the store-failure error and the governance record. `Pipeline.Record` builds the masked-copy path the same way, as `dir + "/" + "quarantine_masked.csv"`, where `os.path.join` (cli/process.py:128) adds no second separator after a trailing one; that path only reaches the governance record.
