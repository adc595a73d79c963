/** The transform engine: keyed tokenization and last-four masking.

    HMAC-SHA256 under the process secret is an oracle `Mac` from the message
    text to its 32 digest bytes (the secret and the UTF-8 encoding are folded
    into it, so one `Mac` stands for one secret). The URL-safe base64 encoding
    that turns the digest into the token code is concrete. */
module Tokenizer {
  import opened Values

  type Byte = x: int | 0 <= x < 256

  type Mac = string -> seq<Byte>

  /** HMAC-SHA256 always yields 32 bytes. */
  ghost predicate DigestSized(mac: Mac)
  {
    forall m :: |mac(m)| == 32
  }

  const TokenPrefix := "<PII:"
  const CodeLength := 16

  /** The URL-safe base64 alphabet `[A-Za-z0-9_-]`. */
  predicate IsCodeChar(c: char)
  {
    'A' <= c <= 'Z' || 'a' <= c <= 'z' || '0' <= c <= '9' || c == '-' || c == '_'
  }

  predicate IsCode(s: string)
  {
    forall k :: 0 <= k < |s| ==> IsCodeChar(s[k])
  }

  function B64Char(i: int): (c: char)
    requires 0 <= i < 64
    ensures IsCodeChar(c)
  {
    if i < 26 then (65 + i) as char
    else if i < 52 then (97 + i - 26) as char
    else if i < 62 then (48 + i - 52) as char
    else if i == 62 then '-'
    else '_'
  }

  /** Three bytes become four characters, six bits each. */
  function Quad(x: Byte, y: Byte, z: Byte): (g: string)
    ensures |g| == 4 && IsCode(g)
  {
    [B64Char(x / 4), B64Char((x % 4) * 16 + y / 16), B64Char((y % 16) * 4 + z / 64), B64Char(z % 64)]
  }

  /** A final group of one byte: two characters and two `=`. */
  function Single(x: Byte): (g: string)
    ensures |g| == 4 && Padded(g, 2)
  {
    [B64Char(x / 4), B64Char((x % 4) * 16), '=', '=']
  }

  /** A final group of two bytes: three characters and one `=`. */
  function Pair(x: Byte, y: Byte): (g: string)
    ensures |g| == 4 && Padded(g, 1)
  {
    [B64Char(x / 4), B64Char((x % 4) * 16 + y / 16), B64Char((y % 16) * 4), '=']
  }

  /** `base64.urlsafe_b64encode`: each 3 bytes become 4 characters; a short
      final group is padded with `=`. */
  function B64Encode(b: seq<Byte>): string
    decreases |b|
  {
    if |b| == 0 then ""
    else if |b| == 1 then Single(b[0])
    else if |b| == 2 then Pair(b[0], b[1])
    else Quad(b[0], b[1], b[2]) + B64Encode(b[3..])
  }

  /** The number of `=` characters that pad the last group. */
  function PadLength(n: nat): nat
  {
    if n % 3 == 0 then 0 else 3 - n % 3
  }

  /** The encoding has 4 characters per started group of 3 bytes. */
  lemma {:induction false} B64Length(b: seq<Byte>)
    ensures |B64Encode(b)| == 4 * ((|b| + 2) / 3)
    decreases |b|
  {
    if |b| >= 3 {
      B64Length(b[3..]);
      assert B64Encode(b) == Quad(b[0], b[1], b[2]) + B64Encode(b[3..]);
      assert (|b| + 2) / 3 == 1 + (|b[3..]| + 2) / 3;
    }
  }

  /** All but the last `pad` characters are in the URL-safe alphabet and
      the last `pad` are `=`. */
  predicate Padded(s: string, pad: nat)
  {
    && pad <= |s|
    && (forall k :: 0 <= k < |s| - pad ==> IsCodeChar(s[k]))
    && (forall k :: |s| - pad <= k < |s| ==> s[k] == '=')
  }

  /** Code characters in front keep the padding where it was. */
  lemma PaddedPrepend(head: string, tail: string, pad: nat)
    requires IsCode(head) && Padded(tail, pad)
    ensures Padded(head + tail, pad)
  {
    var s := head + tail;
    assert forall k :: |head| <= k < |s| ==> s[k] == tail[k - |head|];
    assert forall k :: 0 <= k < |head| ==> s[k] == head[k];
  }

  /** Everything before the final padding is in the URL-safe alphabet, and
      the padding is only `=`. */
  lemma {:induction false} B64Chars(b: seq<Byte>)
    ensures Padded(B64Encode(b), PadLength(|b|))
    decreases |b|
  {
    if |b| >= 3 {
      B64Chars(b[3..]);
      assert PadLength(|b|) == PadLength(|b[3..]|);
      PaddedPrepend(Quad(b[0], b[1], b[2]), B64Encode(b[3..]), PadLength(|b|));
    }
  }

  /** The encoding has 4 characters per started group of 3 bytes; all but
      the final padding are in the URL-safe alphabet, and the padding is
      only `=`. */
  lemma B64Shape(b: seq<Byte>)
    ensures |B64Encode(b)| == 4 * ((|b| + 2) / 3) >= PadLength(|b|)
    ensures forall k :: 0 <= k < |B64Encode(b)| - PadLength(|b|) ==> IsCodeChar(B64Encode(b)[k])
    ensures forall k :: |B64Encode(b)| - PadLength(|b|) <= k < |B64Encode(b)| ==> B64Encode(b)[k] == '='
  {
    B64Length(b);
    B64Chars(b);
  }

  /** A 32-byte digest encodes to 44 characters: 43 code characters and one
      `=`, so the 16-character prefix holds no padding. */
  lemma DigestEncoding(d: seq<Byte>)
    requires |d| == 32
    ensures |B64Encode(d)| == 44
    ensures forall k :: 0 <= k < 43 ==> IsCodeChar(B64Encode(d)[k])
    ensures B64Encode(d)[43] == '='
  {
    B64Length(d);
    B64Chars(d);
    assert PadLength(|d|) == 1;
  }

  /** `_tok_bytes`: the first 16 characters of the URL-safe base64 of the
      keyed digest of `salt + "::" + value`. */
  function TokBytes(mac: Mac, value: string, salt: string): (code: string)
    requires DigestSized(mac)
    ensures |code| == CodeLength && IsCode(code)
    ensures '=' !in code
  {
    var d := mac(salt + "::" + value);
    DigestEncoding(d);
    B64Encode(d)[..CodeLength]
  }

  /** `tok`: None and "" come back unchanged; any other value becomes
      `<PII:field:code>`. */
  function Tok(mac: Mac, value: Option<string>, field: string): (r: Option<string>)
    requires DigestSized(mac)
    ensures value == None || value == Some("") ==> r == value
    ensures value != None && value != Some("") ==>
      && r.Some?
      && |r.value| == |field| + 23
      && r.value[..5] == TokenPrefix
      && r.value[5..5 + |field|] == field
      && r.value[5 + |field|] == ':'
      && r.value[6 + |field|..|r.value| - 1] == TokBytes(mac, value.value, field)
      && r.value[|r.value| - 1] == '>'
  {
    if value == None || value == Some("") then value
    else
      var t := TokBytes(mac, value.value, field);
      var s := TokenPrefix + field + ":" + t + ">";
      assert s[5..5 + |field|] == field;
      assert s[6 + |field|..|s| - 1] == t;
      Some(s)
  }

  /** The field a token was made for: the text between the prefix and the
      colon that is 17 characters before the end. */
  function TokenField(token: string): string
    requires |token| >= 23
  {
    token[5..|token| - 18]
  }

  /** The field can be read back from every token, so tokens of distinct
      fields never coincide, whatever the values. */
  lemma TokSeparatesFields(mac: Mac, v1: string, f1: string, v2: string, f2: string)
    requires DigestSized(mac)
    requires v1 != "" && v2 != "" && f1 != f2
    ensures Tok(mac, Some(v1), f1) != Tok(mac, Some(v2), f2)
  {
    var t1, t2 := Tok(mac, Some(v1), f1).value, Tok(mac, Some(v2), f2).value;
    assert TokenField(t1) == f1;
    assert TokenField(t2) == f2;
  }

  /** An ASCII decimal digit. Python's `str.isdigit` also accepts other
      Unicode digits; those are not modelled. */
  predicate IsDigit(c: char)
  {
    '0' <= c <= '9'
  }

  /** The digits of `s`, in order (ASCII digits only). */
  function Digits(s: string): string
  {
    if s == [] then []
    else if IsDigit(s[0]) then [s[0]] + Digits(s[1..])
    else Digits(s[1..])
  }

  /** Every character kept is a digit. */
  lemma {:induction false} DigitsAreDigits(s: string)
    ensures |Digits(s)| <= |s|
    ensures forall k :: 0 <= k < |Digits(s)| ==> IsDigit(Digits(s)[k])
    decreases |s|
  {
    if s != [] {
      DigitsAreDigits(s[1..]);
    }
  }

  /** Digit extraction distributes over concatenation. */
  lemma {:induction false} DigitsAppend(a: string, b: string)
    ensures Digits(a + b) == Digits(a) + Digits(b)
    decreases |a|
  {
    if a != [] {
      assert (a + b)[0] == a[0] && (a + b)[1..] == a[1..] + b;
      DigitsAppend(a[1..], b);
    } else {
      assert a + b == b;
    }
  }

  /** A string of digits only is its own digit extraction; a string with no
      digit extracts to "". */
  lemma {:induction false} DigitsOfDigits(s: string)
    ensures (forall k :: 0 <= k < |s| ==> IsDigit(s[k])) ==> Digits(s) == s
    ensures (forall k :: 0 <= k < |s| ==> !IsDigit(s[k])) ==> Digits(s) == ""
    decreases |s|
  {
    if s != [] {
      DigitsOfDigits(s[1..]);
    }
  }

  function Stars(n: nat): string
  {
    if n == 0 then "" else "*" + Stars(n - 1)
  }

  lemma {:induction false} StarsShape(n: nat)
    ensures |Stars(n)| == n && forall k :: 0 <= k < n ==> Stars(n)[k] == '*'
  {
    if n > 0 {
      StarsShape(n - 1);
    }
  }

  /** `mask_fpe_last4`: None stays None; fewer than four digits give the
      sentinel "****"; otherwise one star per digit except the last four,
      which are kept in order. */
  function MaskLast4(value: Option<string>): (r: Option<string>)
    ensures value.None? <==> r.None?
    ensures value.Some? && |Digits(value.value)| < 4 ==> r == Some("****")
    ensures value.Some? && |Digits(value.value)| >= 4 ==>
      var d := Digits(value.value);
      && |r.value| == |d|
      && (forall k :: 0 <= k < |d| - 4 ==> r.value[k] == '*')
      && r.value[|d| - 4..] == d[|d| - 4..]
  {
    match value
    case None => None
    case Some(v) =>
      var s := Digits(v);
      if |s| < 4 then Some("****")
      else StarsShape(|s| - 4); Some(Stars(|s| - 4) + s[|s| - 4..])
  }

  /** Four digit groups joined by one separator lose the separators. */
  lemma Grouped(a: string, b: string, c: string, d: string, sep: string)
    requires Digits(a) == a && Digits(b) == b && Digits(c) == c && Digits(d) == d
    requires Digits(sep) == ""
    ensures Digits(a + sep + b + sep + c + sep + d) == a + b + c + d
  {
    var x1 := a + sep;
    DigitsAppend(a, sep);
    assert Digits(x1) == a;
    var x2 := x1 + b;
    DigitsAppend(x1, b);
    assert Digits(x2) == a + b;
    var x3 := x2 + sep;
    DigitsAppend(x2, sep);
    assert Digits(x3) == a + b;
    var x4 := x3 + c;
    DigitsAppend(x3, c);
    assert Digits(x4) == a + b + c;
    var x5 := x4 + sep;
    DigitsAppend(x4, sep);
    assert Digits(x5) == a + b + c;
    DigitsAppend(x5, d);
  }

  /** The digit groups of the card examples are their own digits and the
      dash has none. */
  lemma CardPieces()
    ensures Digits("4111") == "4111" && Digits("1111") == "1111" && Digits("-") == ""
  {
    assert forall k :: 0 <= k < 4 ==> IsDigit("4111"[k]) && IsDigit("1111"[k]);
    DigitsOfDigits("4111");
    DigitsOfDigits("1111");
    DigitsOfDigits("-");
  }

  /** The dash-grouped card number is its groups joined by dashes. */
  lemma GroupedCardSpelling(grouped: string)
    requires grouped == "4111-1111-1111-1111"
    ensures grouped == "4111" + "-" + "1111" + "-" + "1111" + "-" + "1111"
  {
  }

  /** The bare card number is its groups one after the other. */
  lemma BareCardSpelling()
    ensures "4111" + "1111" + "1111" + "1111" == "4111111111111111"
  {
  }

  /** The bare card number is all digits. */
  lemma BareCardDigits(bare: string)
    requires bare == "4111111111111111"
    ensures Digits(bare) == bare
  {
    assert forall k :: 0 <= k < |bare| ==> IsDigit(bare[k]);
    DigitsOfDigits(bare);
  }

  /** The dash-grouped card number has the bare number as its digits. */
  lemma GroupedCardDigits(grouped: string)
    requires grouped == "4111-1111-1111-1111"
    ensures Digits(grouped) == "4111111111111111"
  {
    GroupedCardSpelling(grouped);
    CardPieces();
    Grouped("4111", "1111", "1111", "1111", "-");
    BareCardSpelling();
  }

  /** Sixteen characters, twelve stars and then `1111`, spell the mask. */
  lemma SixteenMask(r: string)
    requires |r| == 16 && (forall k :: 0 <= k < 12 ==> r[k] == '*') && r[12..] == "1111"
    ensures r == "************1111"
  {
    var want := "************1111";
    forall k | 0 <= k < 16
      ensures r[k] == want[k]
    {
      if k >= 12 {
        assert r[k] == r[12..][k - 12];
      }
    }
  }

  /** Sixteen digits ending in 1111 mask to twelve stars and 1111. */
  lemma MaskSixteen(s: string)
    requires |Digits(s)| == 16 && Digits(s)[12..] == "1111"
    ensures MaskLast4(Some(s)) == Some("************1111")
  {
    SixteenMask(MaskLast4(Some(s)).value);
  }

  /** A sixteen-digit card number keeps its last four digits behind twelve
      stars, whether it is written bare or in dash-separated groups. */
  lemma MaskCardExamples(bare: string, grouped: string)
    requires bare == "4111111111111111" && grouped == "4111-1111-1111-1111"
    ensures MaskLast4(Some(bare)) == Some("************1111")
    ensures MaskLast4(Some(grouped)) == Some("************1111")
  {
    BareCardDigits(bare);
    GroupedCardDigits(grouped);
    assert bare[12..] == "1111";
    MaskSixteen(bare);
    MaskSixteen(grouped);
  }

  /** Too few digits give the sentinel, the empty string included. */
  lemma MaskShortExamples(two: string)
    requires two == "12"
    ensures MaskLast4(Some(two)) == Some("****")
    ensures MaskLast4(Some("")) == Some("****")
  {
    DigitsOfDigits(two);
  }
}
