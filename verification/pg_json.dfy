/** The JSON/JSONB column codec of the crate: the two type identifiers, the
    header handling shared by both `decode` implementations, and the type
    declaration the `sqlx_json_decode!` macro generates. */
module PgJson {
  import opened Wrappers

  /** A PostgreSQL type OID, an unsigned 32-bit integer. */
  newtype Oid = x: int | 0 <= x < 0x1_0000_0000

  /** `JSON_OID`: the OID of PostgreSQL's `json` type. */
  const JSON_OID: Oid := 114
  /** `JSONB_OID`: the OID of PostgreSQL's `jsonb` type. */
  const JSONB_OID: Oid := 3802

  /** The version byte that PostgreSQL's binary `jsonb` format puts in front
      of the JSON text. */
  const JSONB_VERSION: byte := 1

  /** The ways header handling panics. Rust does not return these: the
      thread unwinds. */
  datatype Panic =
    | IndexOutOfBounds(index: nat, len: nat)   // `buf[0]` on an empty slice
    | UnsupportedJsonbVersion(version: byte)   // the `assert_eq!` on the version byte

  /** What a column of type `oid` carries for the JSON text `text` when the
      value is in PostgreSQL's binary format: binary `jsonb` prefixes the
      version byte, every other type sends the text as it is. A value in the
      text format carries the bare text whatever its type; the crate never
      looks at the format (see `Decoders.BareJsonbTextPanics`). */
  function Frame(oid: Oid, text: seq<byte>): seq<byte> {
    if oid == JSONB_OID then [JSONB_VERSION] + text else text
  }

  /** The header handling of both `decode` implementations: for a `jsonb`
      column, check that the first byte is version 1 and drop it; for any
      other column, keep the buffer. */
  function ExtractPayload(oid: Oid, buf: seq<byte>): (r: Result<seq<byte>, Panic>)
    ensures r.Success? <==> oid != JSONB_OID || (|buf| > 0 && buf[0] == JSONB_VERSION)
    ensures oid != JSONB_OID ==> r == Success(buf)
    ensures r.Success? && oid == JSONB_OID ==> buf == [JSONB_VERSION] + r.value
    ensures r.Success? ==> |buf| - 1 <= |r.value| <= |buf| && r.value == buf[|buf| - |r.value|..]
    ensures oid == JSONB_OID && |buf| == 0 ==> r == Failure(IndexOutOfBounds(0, 0))
    ensures oid == JSONB_OID && |buf| > 0 && buf[0] != JSONB_VERSION ==>
      r == Failure(UnsupportedJsonbVersion(buf[0]))
  {
    if oid == JSONB_OID then
      if |buf| == 0 then Failure(IndexOutOfBounds(0, |buf|))
      else if buf[0] != JSONB_VERSION then Failure(UnsupportedJsonbVersion(buf[0]))
      else
        assert buf == [buf[0]] + buf[1..];
        Success(buf[1..])
    else Success(buf)
  }

  /** Round trip: whatever text a column carries, in the framing of its
      type, extraction gives back exactly that text. */
  lemma ExtractFrame(oid: Oid, text: seq<byte>)
    ensures ExtractPayload(oid, Frame(oid, text)) == Success(text)
  {
    if oid == JSONB_OID {
      assert Frame(oid, text)[1..] == text;
    }
  }

  /** The converse: a buffer is accepted only if it is the framing of the
      payload extracted from it, so failures are exactly the buffers that
      are not framed for their type. */
  lemma FrameExtract(oid: Oid, buf: seq<byte>)
    requires ExtractPayload(oid, buf).Success?
    ensures Frame(oid, ExtractPayload(oid, buf).value) == buf
  {
  }

  /** A `json` column is never stripped, even when its text happens to start
      with the byte 1: stripping depends only on the OID. */
  lemma JsonNeverStripped(buf: seq<byte>)
    ensures ExtractPayload(JSON_OID, buf) == Success(buf)
  {
  }

  /** `type_info`: the type the macro declares for its target. */
  function TypeInfo(): (ty: Oid)
    ensures Compatible(ty)
    ensures forall text :: ExtractPayload(ty, [JSONB_VERSION] + text) == Success(text)
  {
    JSONB_OID
  }

  /** `compatible`: the column types the generated `Decode` accepts. */
  predicate Compatible(ty: Oid) {
    ty == JSONB_OID || ty == JSON_OID
  }

  /** What `Compatible` accepts: exactly the two JSON types, and among them
      only the declared type `TypeInfo()` carries the version header. */
  lemma CompatibleTypes(ty: Oid)
    ensures Compatible(ty) <==> ty in {JSON_OID, JSONB_OID}
    ensures Compatible(ty) ==> (Frame(ty, []) != [] <==> ty == TypeInfo())
  {
  }
}
