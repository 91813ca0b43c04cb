/** The two `Decode` implementations of the crate: the one the
    `sqlx_json_decode!` macro generates for a caller's type, which parses the
    payload with `serde_json::from_slice`, and the one for `BoxedRawValue`,
    which keeps the payload as unparsed JSON text. The JSON parser and
    `RawValue::from_string` are foreign code and are passed in as
    functions. */
module Decoders {
  import opened Wrappers
  import opened PgJson
  import Utf8

  /** The column value sqlx hands to `decode`: the column's type and the
      outcome of the driver's `<&[u8] as Decode>::decode` on it. */
  datatype PgValueRef = PgValueRef(typeOid: Oid, bytes: Result<seq<byte>, string>)

  /** serde_json's `RawValue`: a JSON text kept unparsed. */
  datatype RawValue = RawValue(json: string)

  /** The crate's wrapper around a boxed `RawValue`. */
  datatype BoxedRawValue = BoxedRawValue(raw: RawValue)

  /** Why a decode did not produce a value. `Panicked` stands for a panic in
      the header handling, which Rust does not return as an error. */
  datatype DecodeError =
    | Driver(message: string)             // the driver could not give the bytes
    | Panicked(panic: Panic)              // `buf[0]` or the version `assert_eq!`
    | Json(message: string)               // `serde_json::from_slice` rejected the payload
    | InvalidUtf8(error: Utf8.Utf8Error)  // `std::str::from_utf8` rejected the payload
    | RawJson(message: string)            // `RawValue::from_string` rejected the text

  /** Reading the bytes and handling the header, the part both `decode`
      implementations share. */
  function ColumnPayload(value: PgValueRef): (r: Result<seq<byte>, DecodeError>)
    ensures value.bytes.Failure? ==> r == Failure(Driver(value.bytes.error))
    ensures forall text ::
      value.bytes == Success(Frame(value.typeOid, text)) ==> r == Success(text)
    ensures r.Success? ==> value.bytes.Success? && Frame(value.typeOid, r.value) == value.bytes.value
    ensures r.Failure? && r.error.Panicked? <==>
      value.bytes.Success? && value.typeOid == JSONB_OID
      && (|value.bytes.value| == 0 || value.bytes.value[0] != JSONB_VERSION)
  {
    match value.bytes
    case Failure(message) => Failure(Driver(message))
    case Success(buf) =>
      match ExtractPayload(value.typeOid, buf)
      case Failure(p) => Failure(Panicked(p))
      case Success(payload) =>
        FrameExtract(value.typeOid, buf);
        Success(payload)
  }

  /** `decode` as generated by `sqlx_json_decode!`: the payload goes to the
      JSON parser `fromSlice`, whose errors become decode errors. */
  function DecodeTyped<T>(value: PgValueRef, fromSlice: seq<byte> -> Result<T, string>): (r: Result<T, DecodeError>)
    ensures value.bytes.Failure? ==> r == Failure(Driver(value.bytes.error))
    ensures forall text ::
      value.bytes == Success(Frame(value.typeOid, text)) ==>
        r == fromSlice(text).MapFailure(m => Json(m))
    ensures r.Failure? && r.error.Panicked? <==>
      value.bytes.Success? && value.typeOid == JSONB_OID
      && (|value.bytes.value| == 0 || value.bytes.value[0] != JSONB_VERSION)
  {
    var payload :- ColumnPayload(value);
    fromSlice(payload).MapFailure(m => Json(m))
  }

  /** `BoxedRawValue::decode`: the payload must be UTF-8; the text is then
      handed to `fromString` and what it returns is wrapped unchanged. */
  function DecodeRaw(value: PgValueRef, fromString: string -> Result<RawValue, string>): (r: Result<BoxedRawValue, DecodeError>)
    ensures value.bytes.Failure? ==> r == Failure(Driver(value.bytes.error))
    ensures forall text ::
      value.bytes == Success(Frame(value.typeOid, Utf8.Encode(text))) ==>
        match fromString(text)
        case Success(raw) => r == Success(BoxedRawValue(raw))
        case Failure(m) => r == Failure(RawJson(m))
    ensures r.Success? ==>
      && ColumnPayload(value).Success?
      && Utf8.Decode(ColumnPayload(value).value).Success?
      && fromString(Utf8.Decode(ColumnPayload(value).value).value) == Success(r.value.raw)
    ensures ColumnPayload(value).Success? && Utf8.Decode(ColumnPayload(value).value).Failure? ==>
      r == Failure(InvalidUtf8(Utf8.Decode(ColumnPayload(value).value).error))
    ensures r.Failure? && r.error.Panicked? <==>
      value.bytes.Success? && value.typeOid == JSONB_OID
      && (|value.bytes.value| == 0 || value.bytes.value[0] != JSONB_VERSION)
  {
    var payload :- ColumnPayload(value);
    Utf8.EncodingsDecode();
    var text :- Utf8.Decode(payload).MapFailure(e => InvalidUtf8(e));
    var raw :- fromString(text).MapFailure(m => RawJson(m));
    Success(BoxedRawValue(raw))
  }

  /** The two implementations handle the header identically: they fail with
      the same driver error or the same panic on the same column, and when
      the payload is text, the typed parser is given exactly the bytes of
      the text the raw path hands to `fromString`. */
  lemma TypedAndRawAgree<T>(value: PgValueRef, fromSlice: seq<byte> -> Result<T, string>,
                            fromString: string -> Result<RawValue, string>)
    ensures
      var typed := DecodeTyped(value, fromSlice);
      var raw := DecodeRaw(value, fromString);
      && (typed.Failure? && (typed.error.Driver? || typed.error.Panicked?) <==>
          raw.Failure? && (raw.error.Driver? || raw.error.Panicked?))
      && (typed.Failure? && (typed.error.Driver? || typed.error.Panicked?) ==> typed.error == raw.error)
    ensures
      var payload := ColumnPayload(value);
      payload.Success? && Utf8.Decode(payload.value).Success? ==>
        DecodeTyped(value, fromSlice) == fromSlice(Utf8.Encode(Utf8.Decode(payload.value).value)).MapFailure(m => Json(m))
  {
  }

  /** Round trip through a column: text stored in a `json` or `jsonb` column
      and read back, in the binary format, as a `BoxedRawValue` is the same
      text, byte for byte, whenever `fromString` keeps the text it accepts. */
  lemma RawRoundTrip(oid: Oid, text: string, fromString: string -> Result<RawValue, string>)
    requires fromString(text) == Success(RawValue(text))
    ensures DecodeRaw(PgValueRef(oid, Success(Frame(oid, Utf8.Encode(text)))), fromString)
      == Success(BoxedRawValue(RawValue(text)))
  {
  }

  /** The header check looks only at the OID, never at the value's format.
      So a `jsonb` value whose bytes are the bare JSON text, as in the text
      format, makes both implementations panic on its first byte, which no
      JSON text can make equal to the version byte 1. */
  lemma BareJsonbTextPanics<T>(text: seq<byte>, fromSlice: seq<byte> -> Result<T, string>,
                               fromString: string -> Result<RawValue, string>)
    requires |text| > 0 && text[0] != JSONB_VERSION
    ensures DecodeTyped(PgValueRef(JSONB_OID, Success(text)), fromSlice)
      == Failure(Panicked(UnsupportedJsonbVersion(text[0])))
    ensures DecodeRaw(PgValueRef(JSONB_OID, Success(text)), fromString)
      == Failure(Panicked(UnsupportedJsonbVersion(text[0])))
  {
  }

  /** For example, the empty object `{}` read from a `jsonb` column in the
      text format panics with version 0x7B, the byte of `{`. */
  lemma EmptyObjectAsTextPanics<T>(fromSlice: seq<byte> -> Result<T, string>)
    ensures DecodeTyped(PgValueRef(JSONB_OID, Success([0x7B, 0x7D])), fromSlice)
      == Failure(Panicked(UnsupportedJsonbVersion(0x7B)))
  {
    BareJsonbTextPanics([0x7B, 0x7D], fromSlice, _ => Failure([]));
  }
}
