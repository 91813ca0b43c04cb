# sqlx-transparent-json-decode, modelled in Dafny

The crate lets sqlx read PostgreSQL `json` and `jsonb` columns straight into
a caller's serde type (through the `sqlx_json_decode!` macro) or into an
unparsed `BoxedRawValue`. The logic it owns is small. It compares the
column's type OID with `JSONB_OID` (3802). It reads the column's bytes. For
`jsonb` it checks that the first byte is the binary-format version 1 and drops
it. It then hands the rest to `serde_json::from_slice`, or to
`std::str::from_utf8` followed by `RawValue::from_string`. It also declares
`jsonb` as the native type and accepts `json` (114) and `jsonb` (3802) as
compatible column types.

Modules:

- `Wrappers` (`wrappers.dfy`): `Result`, and `byte` as an integer in 0..255.
- `PgJson` (`pg_json.dfy`): the OIDs, the header handling `ExtractPayload`, and
  `TypeInfo`/`Compatible`. The `Frame` function is what a value of
  each type carries in PostgreSQL's binary format: `[1] + text` for `jsonb`,
  the bare text otherwise. It
  serves as the inverse that the round-trip lemmas relate `ExtractPayload` to.
- `Decoders` (`decoders.dfy`): the macro's `decode` (`DecodeTyped`) and
  `BoxedRawValue::decode` (`DecodeRaw`). Both are built on one shared
  `ColumnPayload`, because the two copies of the header code in the source are
  identical.
- `Utf8` (`utf8.dfy`): section 4 of RFC 3629 as the meaning of
  `std::str::from_utf8`. Dafny's `char` is a Unicode scalar value, so a Rust
  `&str` is a Dafny `string`, and its bytes are `Utf8.Encode` of it.

Representation choices:

- A panic is a `Failure` value. `buf[0]` on an empty `jsonb` buffer becomes
  `IndexOutOfBounds(0, 0)`. The version `assert_eq!` becomes
  `UnsupportedJsonbVersion(b)`. In `Decoders` both are tagged `Panicked`. They
  are kept apart from the crate's real error returns, so the contracts can say
  which outcome is a panic.
- The driver's `<&[u8] as Decode>::decode(value)?` is the `bytes` field of
  `PgValueRef`. When it is a failure, its message is propagated unchanged
  (`Driver`).
- `serde_json::from_slice` is the `fromSlice` parameter.
  `RawValue::from_string` is the `fromString` parameter. Both are foreign code.

What the code does, which the model follows:

- `compatible` accepts only 3802 and 114. The array OIDs 199 and 3807 are not
  accepted.
- There is no encode path.
- An empty `jsonb` buffer panics as well: it is indexed without a length check.
- `RawValue::from_string` may reject the text, so the raw path is not
  guaranteed to skip JSON validation. The model keeps that as a possible
  `RawJson` error.

## Model

| member | source | states |
|---|---|---|
| `PgJson.ExtractPayload` | src/lib.rs:54-66 | Succeeds exactly when the OID is not `jsonb`, or the buffer is nonempty and starts with version byte 1. A non-`jsonb` buffer is returned unchanged, `json` included. A successful `jsonb` buffer is `[1] + payload`. Any payload is a suffix of the buffer and at most one byte shorter. An empty `jsonb` buffer panics as out of bounds. Any other first byte panics as an unsupported version that names the byte. |
| `PgJson.ExtractFrame` | src/lib.rs:58-66 | Round trip: for every OID and text, extracting from the framing of the text for that OID gives back exactly the text. |
| `PgJson.FrameExtract` | src/lib.rs:56-66 | Converse round trip: every accepted buffer is the framing of the payload taken from it. So the rejected buffers are exactly the unframed ones. |
| `PgJson.JsonNeverStripped` | src/lib.rs:54-58 | A `json` (114) buffer is never stripped, even when its first byte is 1. Only equality with `JSONB_OID` triggers stripping. |
| `PgJson.TypeInfo` | src/lib.rs:72-74 | The declared type is compatible with itself. It is the type whose buffers carry the version header: `[1] + text` extracts to `text` for every text. |
| `PgJson.CompatibleTypes` | src/lib.rs:76-79 | The predicate `Compatible`, the model of `compatible`, holds exactly for 114 and 3802. Of these two, only the declared type `TypeInfo()` puts a header in front of the text. |
| `Decoders.ColumnPayload` | src/lib.rs:122-134 | A driver failure propagates unchanged. A column whose bytes are the framing of some text yields exactly that text. Any payload is the text inside the column's framing. The result is a panic exactly when a `jsonb` buffer is empty or does not start with 1. |
| `Decoders.DecodeTyped` | src/lib.rs:49-68 | A driver failure propagates unchanged. On a framed column the result is what the JSON parser makes of the text, with parser errors turned into decode errors. The result is a panic exactly on an empty or wrong-version `jsonb` buffer. |
| `Decoders.DecodeRaw` | src/lib.rs:117-139 | A driver failure propagates unchanged. On a column framing the bytes of some text, the result wraps exactly what `from_string` returns for that text, or carries its error. A success wraps `from_string` of the UTF-8 decoding of the stripped payload. A payload that is not UTF-8 gives the UTF-8 error and no wrapper. Panics happen exactly as on the typed path. |
| `Decoders.TypedAndRawAgree` | src/lib.rs:54-67 | Both implementations stop with the same driver error or the same panic on the same column, since the header code at lines 122-134 is the same. When the payload is text, the typed parser receives exactly the bytes of the text the raw path hands on. |
| `Decoders.RawRoundTrip` | src/lib.rs:126-138 | Text stored in a `json` or `jsonb` column, read back in the binary format and decoded as `BoxedRawValue`, comes back byte for byte, whenever `from_string` keeps the text it accepts. |
| `Decoders.BareJsonbTextPanics` | src/lib.rs:54-63 | Stripping is decided by the OID alone, not by the value's format. So a `jsonb` value carrying bare JSON text, as the text format does, panics in both implementations with an unsupported version equal to the text's first byte. |
| `Decoders.EmptyObjectAsTextPanics` | src/lib.rs:59-63 | Example: `{}` as bare text in a `jsonb` column panics with version 0x7B. |
| `Utf8.Decode` | src/lib.rs:136 | `from_utf8`: on success the text's encoding is exactly the input bytes. On failure, `valid_up_to` lies inside the input and no well-formed character starts there. |
| `Utf8.DecodeEncode` | src/lib.rs:136 | Round trip: the bytes of any text are accepted and decode to that text. So decoding succeeds exactly on the encodings of texts. |
| `Utf8.DecodeFailsOnlyOnNonText` | src/lib.rs:136 | Bytes that `from_utf8` rejects are the encoding of no text. |
| `Utf8.EncodeInjective` | src/lib.rs:136 | Distinct texts have distinct byte encodings. |
| `Utf8.ValidUpToIsValid` | src/lib.rs:136 | The prefix up to `valid_up_to` of a rejected input is valid UTF-8. |
| `Utf8.ValidUpToIsLongest` | src/lib.rs:136 | Every longer prefix of a rejected input is rejected, so `valid_up_to` is the longest valid prefix. |
| `Utf8.EncodeDecodeChar` | src/lib.rs:136 | Re-encoding a decoded well-formed character gives back its bytes. |
| `Utf8.DecodeEncodeChar` | src/lib.rs:136 | Every scalar value's encoding is accepted as one character, whatever follows, and decodes to that value. |

## Left out

- sqlx's `PgTypeInfo` is reduced to its OID, and type equality is OID equality. A type that sqlx knows only by name, with no OID, is not modelled.
- The driver's byte-slice decode is outside this crate. Only its outcome is modelled, as an input.
- `serde_json::from_slice` and `RawValue::from_string` are foreign code. They are uninterpreted function parameters. So the end-to-end example of decoding `{"s":"abc","i":123}` into a struct is not modelled: its outcome depends on serde.
- Utf8.Decode: `Utf8Error::error_len` is not modelled, only `valid_up_to`. The crate only propagates the error with `?`.
- The `schemars::JsonSchema` impl (src/lib.rs:89-102) only delegates to a library for schema generation.
- `Deref` and `From` for `BoxedRawValue` (src/lib.rs:104-115) are field accessors. In the model they are the `raw` field.
- src/test.rs is not part of this model. It holds integration tests against a live database.
- Array OIDs (199, 3807), an encode path, and equality of raw values do not exist in the source, so they are not modelled.
- The value's format (text or binary) is not modelled, because the crate never reads it. `Frame` describes the binary format only. A `jsonb` value in the text format carries bare JSON text. If the driver's byte-slice decode hands such bytes over, the crate panics on the first byte, as `Decoders.BareJsonbTextPanics` states. Whether that decode accepts text-format values is up to the driver, which is outside this model.
- Panics are modelled as values. Unwinding, and the text of the panic message, are not modelled.
