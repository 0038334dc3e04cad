/** The GraphQL scalars of the schema: the wire values GraphQL exchanges, and the
    `ID`, `Timestamp`, `Boolean` and `Integer` types with their codecs and
    conversions. */
module Scalar {
  import opened Wrappers
  import opened Machine
  import Decimal
  import Base64Url

  /** `CustomScalarValue`; floating point values are not modelled, only their presence. */
  datatype CustomScalarValue =
    | IntScalar(i: int32)
    | FloatScalar
    | StringScalar(s: string)
    | BooleanScalar(b: bool)

  /** A GraphQL input value as the scalar parsers receive it. */
  datatype InputValue =
    | NullInput
    | ScalarInput(scalar: CustomScalarValue)
    | EnumInput(name: string)
    | VariableInput(name: string)
    | ListInput(items: seq<InputValue>)
    | ObjectInput(fields: seq<(string, InputValue)>)

  /** `InputValue::as_string_value`: only a string scalar has one. */
  function AsStringValue(v: InputValue): (r: Option<string>)
    ensures r.Some? <==> v.ScalarInput? && v.scalar.StringScalar?
    ensures r.Some? ==> v == ScalarInput(StringScalar(r.value))
  {
    match v
    case ScalarInput(StringScalar(s)) => Some(s)
    case _ => None
  }

  /** `scalar::ID`, a row identifier carried as an `i64`. */
  datatype ID = ID(value: int64)

  /** `scalar::Timestamp`, seconds since the epoch carried as an `i64`. */
  datatype Timestamp = Timestamp(value: int64)

  /** `scalar::Boolean`. */
  datatype Boolean = Boolean(value: bool)

  /** `scalar::Integer`, an `i64` on the Rust side. */
  type Integer = int64

  // ----- From conversions and comparison -----

  /** `ID::from(i64)`. */
  function IdFromI64(v: int64): (id: ID)
    ensures id.value == v
  {
    ID(v)
  }

  /** `i64::from(ID)`. */
  function I64FromId(id: ID): (v: int64)
    ensures ID(v) == id
  {
    id.value
  }

  /** `Timestamp::from(i64)`. */
  function TimestampFromI64(v: int64): (t: Timestamp)
    ensures t.value == v
  {
    Timestamp(v)
  }

  /** `i64::from(Timestamp)`. */
  function I64FromTimestamp(t: Timestamp): (v: int64)
    ensures Timestamp(v) == t
  {
    t.value
  }

  /** `impl PartialEq<i64> for ID`. */
  function IdEqualsI64(id: ID, other: int64): (eq: bool)
    ensures eq <==> id == IdFromI64(other)
  {
    id.value == other
  }

  /** `Boolean::from(i64)`: nonzero is true. */
  function BooleanFromI64(b: int64): (r: Boolean)
    ensures r.value <==> b != 0
  {
    Boolean(b != 0)
  }

  /** `Boolean::from(bool)`. */
  function BooleanFromBool(b: bool): (r: Boolean)
    ensures r.value == b
  {
    Boolean(b)
  }

  /** `bool::from(Boolean)`. */
  function BoolFromBoolean(b: Boolean): (r: bool)
    ensures Boolean(r) == b
  {
    b.value
  }

  lemma IdConversionsInverse(v: int64, id: ID)
    ensures I64FromId(IdFromI64(v)) == v
    ensures IdFromI64(I64FromId(id)) == id
    ensures IdEqualsI64(id, v) <==> I64FromId(id) == v
  {
  }

  lemma TimestampConversionsInverse(v: int64, t: Timestamp)
    ensures I64FromTimestamp(TimestampFromI64(v)) == v
    ensures TimestampFromI64(I64FromTimestamp(t)) == t
  {
  }

  // ----- big-endian bytes of an i64 -----

  function Pow256(n: nat): (p: nat)
    ensures p > 0
  {
    if n == 0 then 1 else 256 * Pow256(n - 1)
  }

  lemma Pow256Of8()
    ensures Pow256(8) == TWO_64
  {
    assert Pow256(2) == 65536;
    assert Pow256(4) == 65536 * 65536 by { assert Pow256(4) == 256 * 256 * Pow256(2); }
    assert Pow256(8) == Pow256(4) * Pow256(4) by {
      assert Pow256(8) == 256 * 256 * 256 * 256 * Pow256(4);
    }
  }

  /** The `n` bytes, most significant first, of an unsigned value below 256^n. */
  function BigEndian(u: nat, n: nat): (b: seq<uint8>)
    requires u < Pow256(n)
    ensures |b| == n
  {
    if n == 0 then [] else BigEndian(u / 256, n - 1) + [u % 256]
  }

  /** The unsigned value of bytes read most significant first. */
  function FromBigEndian(b: seq<uint8>): (u: nat)
    ensures u < Pow256(|b|)
  {
    if b == [] then 0 else FromBigEndian(b[..|b| - 1]) * 256 + b[|b| - 1]
  }

  lemma {:induction false} FromBigEndianOf(u: nat, n: nat)
    requires u < Pow256(n)
    ensures FromBigEndian(BigEndian(u, n)) == u
  {
    if n > 0 {
      var b := BigEndian(u, n);
      assert b[..n - 1] == BigEndian(u / 256, n - 1);
      FromBigEndianOf(u / 256, n - 1);
    }
  }

  lemma {:induction false} BigEndianOf(b: seq<uint8>)
    ensures BigEndian(FromBigEndian(b), |b|) == b
  {
    if b != [] {
      var init := b[..|b| - 1];
      var u := FromBigEndian(b);
      assert u / 256 == FromBigEndian(init) && u % 256 == b[|b| - 1];
      BigEndianOf(init);
      assert b == init + [b[|b| - 1]];
    }
  }

  /** `i64::to_be_bytes`: the two's complement value as 8 bytes, most significant first. */
  function ToBeBytes(v: int64): (b: seq<uint8>)
    ensures |b| == 8
    ensures FromBigEndian(b) == if v < 0 then v + TWO_64 else v
  {
    Pow256Of8();
    FromBigEndianOf(if v < 0 then v + TWO_64 else v, 8);
    BigEndian(if v < 0 then v + TWO_64 else v, 8)
  }

  /** `i64::from_be_bytes`. */
  function FromBeBytes(b: seq<uint8>): (v: int64)
    requires |b| == 8
  {
    Pow256Of8();
    var u := FromBigEndian(b);
    if u >= TWO_63 then u - TWO_64 else u
  }

  lemma BeBytesRoundTrip(v: int64, b: seq<uint8>)
    requires |b| == 8
    ensures FromBeBytes(ToBeBytes(v)) == v
    ensures ToBeBytes(FromBeBytes(b)) == b
  {
    Pow256Of8();
    FromBigEndianOf(if v < 0 then v + TWO_64 else v, 8);
    BigEndianOf(b);
  }

  // ----- the ID scalar -----

  /** Why an `ID` input was refused. */
  datatype IdDecodeError = NotBase64 | InvalidByteLength

  /** The `Err` of `id_scalar::from_input`. */
  datatype IdInputError = IdExpectedString(found: InputValue) | InvalidId(reason: IdDecodeError) {
    /** The part of the message that does not depend on the base64 helper's own
        error text or on the formatting of the input value. */
    function MessagePrefix(): string {
      match this
      case IdExpectedString(_) => "Expected `String`, found: "
      case InvalidId(InvalidByteLength) => "Invalid ID, Invalid byte length"
      case InvalidId(NotBase64) => "Invalid ID, "
    }
  }

  /** `id_scalar::to_output`: base64url of the 8 big-endian bytes of the value. */
  function IdToOutput(id: ID): (r: CustomScalarValue)
    ensures r.StringScalar? && |r.s| == 11
    ensures Base64Url.Decode(r.s) == Some(ToBeBytes(id.value))
  {
    var bytes := ToBeBytes(id.value);
    Base64Url.EncodeLength(bytes);
    Base64Url.DecodeEncode(bytes);
    StringScalar(Base64Url.Encode(bytes))
  }

  /** `id_scalar::from_input`: a string, valid base64url, decoding to exactly 8 bytes. */
  function IdFromInput(v: InputValue): (r: Result<ID, IdInputError>)
    ensures AsStringValue(v).None? ==> r == Err(IdExpectedString(v))
  {
    match AsStringValue(v)
    case None => Err(IdExpectedString(v))
    case Some(s) =>
      match Base64Url.Decode(s)
      case None => Err(InvalidId(NotBase64))
      case Some(bytes) =>
        if |bytes| != 8 then Err(InvalidId(InvalidByteLength))
        else Ok(ID(FromBeBytes(bytes)))
  }

  /** Round trip: every `ID` the server writes is read back as the same `ID`. */
  lemma IdRoundTrip(id: ID)
    ensures IdFromInput(ScalarInput(IdToOutput(id))) == Ok(id)
  {
    BeBytesRoundTrip(id.value, ToBeBytes(id.value));
  }

  /** An `ID` text is accepted exactly when it is the output of some `ID`: the codec
      is a bijection between `i64` values and its 11-character texts. */
  lemma IdInputIsCanonical(s: string)
    requires IdFromInput(ScalarInput(StringScalar(s))).Ok?
    ensures IdToOutput(IdFromInput(ScalarInput(StringScalar(s))).value) == StringScalar(s)
  {
    var bytes := Base64Url.Decode(s).value;
    Base64Url.EncodeDecode(s);
    BeBytesRoundTrip(0, bytes);
  }

  /** A string that is valid base64url of any length other than 11 characters is
      refused for its byte length; one that is not base64url is refused as such. */
  lemma IdInputErrors(s: string)
    ensures Base64Url.Decode(s).None? ==> IdFromInput(ScalarInput(StringScalar(s))) == Err(InvalidId(NotBase64))
    ensures Base64Url.Decode(s).Some? && |s| != 11 ==>
      IdFromInput(ScalarInput(StringScalar(s))) == Err(InvalidId(InvalidByteLength))
  {
    if Base64Url.Decode(s).Some? {
      Base64Url.DecodeLength(s);
      assert |s| != 11 ==> 3 * |s| / 4 != 8;
    }
  }

  // ----- the Integer scalar -----

  /** The `Err` of `integer_scalar::from_input`. */
  datatype IntegerInputError = IntExpectedString(found: InputValue) | NotAnInteger(error: Decimal.ParseIntError) {
    function MessagePrefix(): string {
      match this
      case IntExpectedString(_) => "Expected `Int`, found: "
      case NotAnInteger(e) => e.Message()
    }
  }

  /** `integer_scalar::to_output`: `v as i32`, the low 32 bits in two's complement. */
  function IntegerToOutput(v: Integer): (r: CustomScalarValue)
    ensures r.IntScalar? && (r.i - v) % TWO_32 == 0
    ensures -TWO_31 <= v < TWO_31 ==> r == IntScalar(v)
  {
    IntScalar(TruncateToI32(v))
  }

  /** `integer_scalar::from_input`: a string holding an `i64` in decimal. */
  function IntegerFromInput(v: InputValue): (r: Result<Integer, IntegerInputError>)
    ensures AsStringValue(v).None? ==> r == Err(IntExpectedString(v))
    ensures AsStringValue(v).Some? ==> (r.Ok? <==> Decimal.ParseI64(AsStringValue(v).value).Ok?)
    ensures r.Ok? ==> AsStringValue(v).Some? && Decimal.ParseI64(AsStringValue(v).value) == Ok(r.value)
    ensures r.Err? && AsStringValue(v).Some? ==>
      r.error == NotAnInteger(Decimal.ParseI64(AsStringValue(v).value).error)
  {
    match AsStringValue(v)
    case None => Err(IntExpectedString(v))
    case Some(s) =>
      match Decimal.ParseI64(s)
      case Ok(i) => Ok(i)
      case Err(e) => Err(NotAnInteger(e))
  }

  /** The decimal text of any `i64`, sent as a string, is read as that value. */
  lemma IntegerFromDecimalText(v: Integer)
    ensures IntegerFromInput(ScalarInput(StringScalar(Decimal.I64ToText(v)))) == Ok(v)
  {
    Decimal.ParseI64OfText(v);
  }

  /** The scalar is not symmetric: what `to_output` produces (an integer value) is not
      accepted by `from_input`, which only takes strings. */
  lemma IntegerOutputIsNotAnInput(v: Integer)
    ensures IntegerFromInput(ScalarInput(IntegerToOutput(v))).Err?
  {
  }
}
