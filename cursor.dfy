/** The Relay cursor: an opaque position token made of a row's `id` and `created_at`,
    sent as base64url of the text "{created_at}:{id}". */
module RelayCursor {
  import opened Wrappers
  import opened Scalar
  import opened Machine
  import Decimal
  import Base64Url
  import Utf8

  /** `relay::Cursor`. The datatype constructor is `Cursor::new`: it stores exactly
      the id and the timestamp it is given. */
  datatype Cursor = Cursor(id: ID, createdAt: Timestamp)

  /** The only error a cursor text can produce. */
  datatype CursorError = InvalidCursorFormat {
    function Message(): string { "Invalid cursor format" }
  }

  /** The `Err` of `cursor_scalar::from_input`. */
  datatype CursorInputError = CursorExpectedString(found: InputValue) | CursorRejected(error: CursorError) {
    function MessagePrefix(): string {
      match this
      case CursorExpectedString(_) => "Expected `String`, found: "
      case CursorRejected(e) => e.Message()
    }
  }

  /** `format!("{}:{}", cursor.created_at, cursor.id)`. */
  function Text(c: Cursor): string {
    Decimal.I64ToText(c.createdAt.value) + ":" + Decimal.I64ToText(c.id.value)
  }

  /** `String::from(&Cursor)`: the text's UTF-8 bytes in base64url. */
  function Encode(c: Cursor): (s: string)
    ensures Base64Url.Decode(s) == Some(Utf8.Encode(Text(c)))
  {
    Base64Url.DecodeEncode(Utf8.Encode(Text(c)));
    Base64Url.Encode(Utf8.Encode(Text(c)))
  }

  /** `str::split_once(sep)`: the text before and after the first `sep`. */
  function SplitOnce(s: string, sep: char): (r: Option<(string, string)>)
    ensures r.None? <==> sep !in s
    ensures r.Some? ==> s == r.value.0 + [sep] + r.value.1 && sep !in r.value.0
    decreases |s|
  {
    if s == [] then None
    else if s[0] == sep then Some(([], s[1..]))
    else
      match SplitOnce(s[1..], sep)
      case None => None
      case Some((before, after)) => Some(([s[0]] + before, after))
  }

  /** The text part of `Cursor::try_from`: split at the first ':', then the id (after
      the ':') and the timestamp (before it) as `i64`. */
  function ParseText(text: string): Result<Cursor, CursorError> {
    match SplitOnce(text, ':')
    case None => Err(InvalidCursorFormat)
    case Some((createdAt, id)) =>
      match Decimal.ParseI64(id)
      case Err(_) => Err(InvalidCursorFormat)
      case Ok(idValue) =>
        match Decimal.ParseI64(createdAt)
        case Err(_) => Err(InvalidCursorFormat)
        case Ok(createdAtValue) => Ok(Cursor(IdFromI64(idValue), TimestampFromI64(createdAtValue)))
  }

  /** `Cursor::try_from(&str)`: base64url, then UTF-8, then the text.
      Every failure gives the same error. */
  function Decode(s: string): Result<Cursor, CursorError> {
    match Base64Url.Decode(s)
    case None => Err(InvalidCursorFormat)
    case Some(bytes) =>
      match Utf8.Decode(bytes)
      case None => Err(InvalidCursorFormat)
      case Some(text) => ParseText(text)
  }

  /** `cursor_scalar::to_output`. */
  function ToOutput(c: Cursor): (r: CustomScalarValue)
    ensures r.StringScalar? && Base64Url.Decode(r.s).Some?
  {
    StringScalar(Encode(c))
  }

  /** `cursor_scalar::from_input`: a string scalar, decoded with `Decode`. */
  function FromInput(v: InputValue): (r: Result<Cursor, CursorInputError>)
    ensures AsStringValue(v).None? ==> r == Err(CursorExpectedString(v))
    ensures AsStringValue(v).Some? ==>
      (r.Ok? <==> Decode(AsStringValue(v).value).Ok?) &&
      (r.Ok? ==> r.value == Decode(AsStringValue(v).value).value)
  {
    match AsStringValue(v)
    case None => Err(CursorExpectedString(v))
    case Some(s) =>
      match Decode(s)
      case Ok(c) => Ok(c)
      case Err(e) => Err(CursorRejected(e))
  }

  // ----- properties -----

  /** The text splits at its own ':', because the decimal `created_at` has none. */
  lemma SplitText(c: Cursor)
    ensures SplitOnce(Text(c), ':') ==
      Some((Decimal.I64ToText(c.createdAt.value), Decimal.I64ToText(c.id.value)))
  {
    var left := Decimal.I64ToText(c.createdAt.value);
    var right := Decimal.I64ToText(c.id.value);
    var t := Text(c);
    assert ':' !in left by {
      forall i | 0 <= i < |left| ensures left[i] != ':' { }
    }
    var r := SplitOnce(t, ':');
    assert r.Some? by { assert t[|left|] == ':'; }
    var (l, rest) := r.value;
    SplitPrefixUnique(t, left, right, l, rest, ':');
  }

  /** Two splits of one string at a separator that is absent from both left parts agree. */
  lemma {:induction false} SplitPrefixUnique(t: string, l1: string, r1: string, l2: string, r2: string, sep: char)
    requires t == l1 + [sep] + r1 && sep !in l1
    requires t == l2 + [sep] + r2 && sep !in l2
    ensures l1 == l2 && r1 == r2
    decreases |l1|
  {
    assert t[0] == (if l1 == [] then sep else l1[0]);
    assert t[0] == (if l2 == [] then sep else l2[0]);
    if t[0] == sep {
      assert l1 == [] && l2 == [];
      assert r1 == t[1..] == r2;
    } else {
      assert l1[0] == l2[0];
      assert t[1..] == l1[1..] + [sep] + r1 && t[1..] == l2[1..] + [sep] + r2;
      SplitPrefixUnique(t[1..], l1[1..], r1, l2[1..], r2, sep);
      assert l1 == [l1[0]] + l1[1..] && l2 == [l2[0]] + l2[1..];
    }
  }

  /** Round trip: decoding the encoding of any cursor gives the same id and timestamp. */
  lemma DecodeEncode(c: Cursor)
    ensures Decode(Encode(c)) == Ok(c)
  {
    Base64Url.DecodeEncode(Utf8.Encode(Text(c)));
    Utf8.DecodeEncode(Text(c));
    SplitText(c);
    Decimal.ParseI64OfText(c.id.value);
    Decimal.ParseI64OfText(c.createdAt.value);
  }

  /** Distinct cursors have distinct encodings. */
  lemma EncodeInjective(c1: Cursor, c2: Cursor)
    ensures Encode(c1) == Encode(c2) <==> c1 == c2
  {
    if Encode(c1) == Encode(c2) {
      DecodeEncode(c1);
      DecodeEncode(c2);
    }
  }

  /** The scalar's round trip: what is written as a cursor is read back. */
  lemma ScalarRoundTrip(c: Cursor)
    ensures FromInput(ScalarInput(ToOutput(c))) == Ok(c)
  {
    DecodeEncode(c);
  }

  /** The stages at which decoding fails. */
  lemma DecodeFailures(s: string)
    ensures Base64Url.Decode(s).None? ==> Decode(s) == Err(InvalidCursorFormat)
    ensures Base64Url.Decode(s).Some? && Utf8.Decode(Base64Url.Decode(s).value).None? ==>
      Decode(s) == Err(InvalidCursorFormat)
    ensures (Base64Url.Decode(s).Some? && Utf8.Decode(Base64Url.Decode(s).value).Some? &&
             ':' !in Utf8.Decode(Base64Url.Decode(s).value).value) ==> Decode(s) == Err(InvalidCursorFormat)
  {
  }

  /** The first separator of a text comes at or before any of its separators, and a
      later one falls in the part after it. */
  lemma SplitOnceLater(text: string, sep: char, i: nat, j: nat)
    requires i < j < |text| && text[i] == sep && text[j] == sep
    ensures SplitOnce(text, sep).Some?
    ensures var (before, after) := SplitOnce(text, sep).value;
      |before| < j && after[j - |before| - 1] == sep
  {
    assert text[i] in text;
    var (before, after) := SplitOnce(text, sep).value;
    assert |before| <= i;
    assert after[j - |before| - 1] == text[j];
  }

  /** A text with two ':' is refused: the id part then holds a ':', which is not an
      `i64`. */
  lemma ParseTextRejectsSecondColon(text: string, i: nat, j: nat)
    requires i < j < |text| && text[i] == ':' && text[j] == ':'
    ensures ParseText(text) == Err(InvalidCursorFormat)
  {
    SplitOnceLater(text, ':', i, j);
    var (before, after) := SplitOnce(text, ':').value;
    Decimal.ParseI64RejectsNonDigit(after, j - |before| - 1);
  }

  /** A decoded text with a second ':' is refused. */
  lemma DecodeRejectsSecondColon(s: string, text: string, i: nat, j: nat)
    requires Base64Url.Decode(s).Some? && Utf8.Decode(Base64Url.Decode(s).value) == Some(text)
    requires i < j < |text| && text[i] == ':' && text[j] == ':'
    ensures Decode(s) == Err(InvalidCursorFormat)
  {
    ParseTextRejectsSecondColon(text, i, j);
  }

  /** The fourth failure stage: when either side of the first ':' is not an `i64`,
      the text is refused. */
  lemma ParseTextRejectsBadNumber(text: string, createdAt: string, id: string)
    requires SplitOnce(text, ':') == Some((createdAt, id))
    requires Decimal.ParseI64(createdAt).Err? || Decimal.ParseI64(id).Err?
    ensures ParseText(text) == Err(InvalidCursorFormat)
  {
  }

  lemma DecodeRejectsBadNumber(s: string, text: string, createdAt: string, id: string)
    requires Base64Url.Decode(s).Some? && Utf8.Decode(Base64Url.Decode(s).value) == Some(text)
    requires SplitOnce(text, ':') == Some((createdAt, id))
    requires Decimal.ParseI64(createdAt).Err? || Decimal.ParseI64(id).Err?
    ensures Decode(s) == Err(InvalidCursorFormat)
  {
    ParseTextRejectsBadNumber(text, createdAt, id);
  }

  /** What an accepted cursor text is: it has a ':', the part before the first one
      parses as the `created_at` and the part after it as the `id`; and every such
      text is accepted. */
  lemma ParseTextSound(text: string)
    ensures ParseText(text).Ok? <==>
      SplitOnce(text, ':').Some? &&
      Decimal.ParseI64(SplitOnce(text, ':').value.0).Ok? &&
      Decimal.ParseI64(SplitOnce(text, ':').value.1).Ok?
    ensures ParseText(text).Ok? ==>
      Decimal.ParseI64(SplitOnce(text, ':').value.0) == Ok(ParseText(text).value.createdAt.value) &&
      Decimal.ParseI64(SplitOnce(text, ':').value.1) == Ok(ParseText(text).value.id.value)
  {
  }

  /** An accepted cursor string is base64url of valid UTF-8 whose text is accepted,
      with the same cursor. */
  lemma DecodeSound(s: string)
    requires Decode(s).Ok?
    ensures Base64Url.Decode(s).Some? && Utf8.Decode(Base64Url.Decode(s).value).Some?
    ensures ParseText(Utf8.Decode(Base64Url.Decode(s).value).value) == Decode(s)
  {
  }

  /** Decoding is not canonical: as `parse::<i64>` accepts a '+' and leading zeros,
      different texts give the same cursor. */
  lemma ParseTextNotCanonical()
    ensures ParseText("+5:007") == Ok(Cursor(IdFromI64(7), TimestampFromI64(5)))
    ensures ParseText("5:7") == Ok(Cursor(IdFromI64(7), TimestampFromI64(5)))
  {
    ParseTextSignAndZeros();
    ParseTextPlain();
  }

  lemma ParseTextSignAndZeros()
    ensures ParseText("+5:007") == Ok(Cursor(IdFromI64(7), TimestampFromI64(5)))
  {
    Decimal.ParseI64NonCanonical();
    SplitAt("+5:007", "+5", "007");
    ParseTextOf("+5:007", "+5", "007", 5, 7);
  }

  lemma ParseTextPlain()
    ensures ParseText("5:7") == Ok(Cursor(IdFromI64(7), TimestampFromI64(5)))
  {
    SplitAt("5:7", "5", "7");
    Decimal.ParseI64OfText(5);
    Decimal.ParseI64OfText(7);
    assert Decimal.I64ToText(5) == "5" && Decimal.I64ToText(7) == "7";
    ParseTextOf("5:7", "5", "7", 5, 7);
  }

  /** A text that splits into two `i64` texts gives the cursor of their values. */
  lemma ParseTextOf(text: string, createdAt: string, id: string, createdAtValue: int64, idValue: int64)
    requires SplitOnce(text, ':') == Some((createdAt, id))
    requires Decimal.ParseI64(createdAt) == Ok(createdAtValue) && Decimal.ParseI64(id) == Ok(idValue)
    ensures ParseText(text) == Ok(Cursor(IdFromI64(idValue), TimestampFromI64(createdAtValue)))
  {
  }

  /** A text made of a ':'-free left part, ':' and a right part splits there. */
  lemma SplitAt(text: string, left: string, right: string)
    requires text == left + ":" + right && ':' !in left
    ensures SplitOnce(text, ':') == Some((left, right))
  {
    assert ':' in text by { assert text[|left|] == ':'; }
    var (l, r) := SplitOnce(text, ':').value;
    SplitPrefixUnique(text, l, r, left, right, ':');
  }

  /** The encoding of a cursor is a canonical base64url text whose decoded form is
      the decimal `created_at`, a ':', and the decimal `id`. */
  lemma EncodeFormat(c: Cursor)
    ensures var bytes := Base64Url.Decode(Encode(c)).value;
      Utf8.Decode(bytes) == Some(Decimal.I64ToText(c.createdAt.value) + ":" + Decimal.I64ToText(c.id.value))
  {
    Utf8.DecodeEncode(Text(c));
  }
}
