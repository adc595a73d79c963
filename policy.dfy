/** The masking policy, as the pipeline reads it after loading.

    Dictionaries of the policy document become sequences of pairs in their
    document order, because the classifier's output order follows it. Action
    names stay strings: the transform dispatch meets unknown names at run time
    and still records them. */
module Policy {
  import opened Values

  const Tokenize := "tokenize"
  const MaskLast4Action := "mask_fpe_last4"
  const DefaultDateFormat := "%Y-%m-%d"

  /** One entry of `regex_pii`: a named detector with its pattern and action. */
  datatype Detector = Detector(name: string, pattern: string, action: string)

  /** The `schema` section; `dateFormat` is None when the key is absent. */
  datatype Schema = Schema(
    requiredColumns: seq<string>,
    dtypes: seq<(string, string)>,
    dateFormat: Option<string>,
    strictDates: bool)

  datatype Policy = Policy(
    name: Option<string>,
    version: Option<string>,
    schema: Schema,
    piiFields: seq<(string, string)>,
    regexPii: seq<Detector>)

  /** `schema.get("date_format", "%Y-%m-%d")`. */
  function DateFormat(s: Schema): (fmt: string)
    ensures s.dateFormat.None? ==> fmt == DefaultDateFormat
    ensures s.dateFormat.Some? ==> fmt == s.dateFormat.value
  {
    match s.dateFormat
    case None => DefaultDateFormat
    case Some(f) => f
  }

  /** A JSON object has unique keys. */
  predicate UniqueFields(fields: seq<(string, string)>)
  {
    forall i, j :: 0 <= i < j < |fields| ==> fields[i].0 != fields[j].0
  }

  /** The regex engine: whether a pattern compiles, and `pattern.search(text)`. */
  datatype Regex = Regex(compiles: string -> bool, search: (string, string) -> bool)
}
