/** UTF-8 as defined by section 4 of RFC 3629. This is the check that
    `std::str::from_utf8` applies on the raw-value path: a byte sequence is
    accepted exactly when it is the encoding of a sequence of Unicode scalar
    values. Dafny's `char` is a Unicode scalar value, so a Rust `&str` is a
    Dafny `string` and its bytes are `Encode` of it. */
module Utf8 {
  import opened Wrappers

  /** Rust's `Utf8Error::valid_up_to`: the length of the longest prefix that
      is well-formed. */
  datatype Utf8Error = Utf8Error(validUpTo: nat)

  predicate IsTail(b: byte) {
    0x80 <= b <= 0xBF
  }

  /** First two bytes of a three-byte character (UTF8-3 in RFC 3629). The
      ranges exclude overlong forms (E0) and surrogates (ED). */
  predicate Lead3(b0: byte, b1: byte) {
    || (b0 == 0xE0 && 0xA0 <= b1 <= 0xBF)
    || (0xE1 <= b0 <= 0xEC && IsTail(b1))
    || (b0 == 0xED && 0x80 <= b1 <= 0x9F)
    || (0xEE <= b0 <= 0xEF && IsTail(b1))
  }

  /** First two bytes of a four-byte character (UTF8-4 in RFC 3629). The
      ranges exclude overlong forms (F0) and values above U+10FFFF (F4). */
  predicate Lead4(b0: byte, b1: byte) {
    || (b0 == 0xF0 && 0x90 <= b1 <= 0xBF)
    || (0xF1 <= b0 <= 0xF3 && IsTail(b1))
    || (b0 == 0xF4 && 0x80 <= b1 <= 0x8F)
  }

  /** The length of the well-formed character that `s` starts with, or 0 when
      `s` does not start with one. */
  function CharLen(s: seq<byte>): (n: nat)
    ensures n <= 4 && n <= |s|
  {
    if |s| == 0 then 0
    else if s[0] <= 0x7F then 1
    else if |s| >= 2 && 0xC2 <= s[0] <= 0xDF && IsTail(s[1]) then 2
    else if |s| >= 3 && Lead3(s[0], s[1]) && IsTail(s[2]) then 3
    else if |s| >= 4 && Lead4(s[0], s[1]) && IsTail(s[2]) && IsTail(s[3]) then 4
    else 0
  }

  /** Unicode scalar values: code points other than the surrogates. */
  predicate IsScalar(cp: int) {
    0 <= cp < 0xD800 || 0xE000 <= cp < 0x11_0000
  }

  /** The number of bytes RFC 3629 uses for a scalar value. */
  function EncodedLength(cp: int): nat {
    if cp < 0x80 then 1 else if cp < 0x800 then 2 else if cp < 0x1_0000 then 3 else 4
  }

  function Value2(b0: byte, b1: byte): (cp: int)
    requires 0xC2 <= b0 <= 0xDF && IsTail(b1)
    ensures 0x80 <= cp < 0x800
  {
    (b0 - 0xC0) as int * 0x40 + (b1 - 0x80) as int
  }

  function Value3(b0: byte, b1: byte, b2: byte): (cp: int)
    requires Lead3(b0, b1) && IsTail(b2)
    ensures IsScalar(cp) && 0x800 <= cp < 0x1_0000
  {
    (b0 - 0xE0) as int * 0x1000 + (b1 - 0x80) as int * 0x40 + (b2 - 0x80) as int
  }

  function Value4(b0: byte, b1: byte, b2: byte, b3: byte): (cp: int)
    requires Lead4(b0, b1) && IsTail(b2) && IsTail(b3)
    ensures 0x1_0000 <= cp < 0x11_0000
  {
    (b0 - 0xF0) as int * 0x4_0000 + (b1 - 0x80) as int * 0x1000 + (b2 - 0x80) as int * 0x40 + (b3 - 0x80) as int
  }

  /** The code point of the character that `s` starts with. It is a scalar
      value written in its shortest form: no overlong encodings. */
  function CodePoint(s: seq<byte>): (cp: int)
    requires CharLen(s) > 0
    ensures IsScalar(cp)
    ensures EncodedLength(cp) == CharLen(s)
  {
    match CharLen(s)
    case 1 => s[0] as int
    case 2 => Value2(s[0], s[1])
    case 3 => Value3(s[0], s[1], s[2])
    case 4 => Value4(s[0], s[1], s[2], s[3])
  }

  /** The scalar value of the character that `s` starts with. */
  function DecodeChar(s: seq<byte>): char
    requires CharLen(s) > 0
  {
    CodePoint(s) as char
  }

  /** The UTF-8 encoding of one scalar value. */
  function EncodeChar(c: char): (b: seq<byte>)
    ensures |b| == EncodedLength(c as int)
  {
    var cp := c as int;
    if cp < 0x80 then [cp]
    else if cp < 0x800 then [0xC0 + cp / 0x40, 0x80 + cp % 0x40]
    else if cp < 0x1_0000 then [0xE0 + cp / 0x1000, 0x80 + (cp / 0x40) % 0x40, 0x80 + cp % 0x40]
    else [0xF0 + cp / 0x4_0000, 0x80 + (cp / 0x1000) % 0x40, 0x80 + (cp / 0x40) % 0x40, 0x80 + cp % 0x40]
  }

  /** The bytes of a Rust `str` holding `s`. */
  function Encode(s: string): seq<byte>
  {
    if |s| == 0 then [] else EncodeChar(s[0]) + Encode(s[1..])
  }

  /** The step of `Decode` that prepends one character keeps the encoding
      equal to the input. */
  lemma EncodeFirstChar(b: seq<byte>, rest: string)
    requires CharLen(b) > 0 && Encode(rest) == b[CharLen(b)..]
    ensures Encode([DecodeChar(b)] + rest) == b
  {
    var c := DecodeChar(b);
    EncodeDecodeChar(b);
    assert ([c] + rest)[1..] == rest;
    assert b == b[..CharLen(b)] + b[CharLen(b)..];
  }

  /** The step of `Decode` that shifts a failure position past the first
      character keeps it at a byte where no character starts. */
  lemma ShiftFailure(b: seq<byte>, n: nat, v: nat)
    requires n <= |b| && v < |b[n..]| && CharLen(b[n..][v..]) == 0
    ensures v + n < |b| && CharLen(b[v + n..]) == 0
  {
    assert b[v + n..] == b[n..][v..];
  }

  /** `std::str::from_utf8`: the text whose encoding is `b`, or else the
      length of the longest well-formed prefix of `b` (Rust's
      `valid_up_to`; see `ValidUpToIsValid` and `ValidUpToIsLongest`). */
  function Decode(b: seq<byte>): (r: Result<string, Utf8Error>)
    ensures r.Success? ==> Encode(r.value) == b
    ensures r.Failure? ==> r.error.validUpTo < |b| && CharLen(b[r.error.validUpTo..]) == 0
    decreases |b|
  {
    if |b| == 0 then Success([])
    else
      var n := CharLen(b);
      if n == 0 then Failure(Utf8Error(0))
      else
        match Decode(b[n..])
        case Success(rest) =>
          EncodeFirstChar(b, rest);
          Success([DecodeChar(b)] + rest)
        case Failure(e) =>
          ShiftFailure(b, n, e.validUpTo);
          Failure(Utf8Error(e.validUpTo + n))
  }

  /** `q * 0x40 + r` has quotient `q` and remainder `r`. */
  lemma Split64(cp: int, q: int, r: int)
    requires 0 <= r < 0x40 && cp == q * 0x40 + r
    ensures cp / 0x40 == q && cp % 0x40 == r
  {
  }

  lemma EncodeValue2(b0: byte, b1: byte)
    requires 0xC2 <= b0 <= 0xDF && IsTail(b1)
    ensures EncodeChar(Value2(b0, b1) as char) == [b0, b1]
  {
    Split64(Value2(b0, b1), b0 - 0xC0, b1 - 0x80);
  }

  lemma EncodeValue3(b0: byte, b1: byte, b2: byte)
    requires Lead3(b0, b1) && IsTail(b2)
    ensures EncodeChar(Value3(b0, b1, b2) as char) == [b0, b1, b2]
  {
    var cp := Value3(b0, b1, b2);
    var hi := (b0 - 0xE0) * 0x40 + (b1 - 0x80);
    Split64(cp, hi, b2 - 0x80);
    Split64(hi, b0 - 0xE0, b1 - 0x80);
    assert cp / 0x1000 == b0 - 0xE0;
  }

  lemma EncodeValue4(b0: byte, b1: byte, b2: byte, b3: byte)
    requires Lead4(b0, b1) && IsTail(b2) && IsTail(b3)
    ensures EncodeChar(Value4(b0, b1, b2, b3) as char) == [b0, b1, b2, b3]
  {
    var cp := Value4(b0, b1, b2, b3);
    var mid := ((b0 - 0xF0) * 0x40 + (b1 - 0x80)) * 0x40 + (b2 - 0x80);
    var hi := (b0 - 0xF0) * 0x40 + (b1 - 0x80);
    Split64(cp, mid, b3 - 0x80);
    Split64(mid, hi, b2 - 0x80);
    Split64(hi, b0 - 0xF0, b1 - 0x80);
    assert cp / 0x1000 == hi;
    assert cp / 0x4_0000 == b0 - 0xF0;
  }

  /** Decoding a well-formed character and encoding it again gives back its
      bytes. */
  lemma EncodeDecodeChar(s: seq<byte>)
    requires CharLen(s) > 0
    ensures EncodeChar(DecodeChar(s)) == s[..CharLen(s)]
  {
    match CharLen(s)
    case 1 =>
    case 2 => EncodeValue2(s[0], s[1]);
    case 3 => EncodeValue3(s[0], s[1], s[2]);
    case 4 => EncodeValue4(s[0], s[1], s[2], s[3]);
  }

  lemma ValueEncode2(cp: int)
    requires 0x80 <= cp < 0x800
    ensures 0xC2 <= 0xC0 + cp / 0x40 <= 0xDF && IsTail(0x80 + cp % 0x40)
    ensures Value2(0xC0 + cp / 0x40, 0x80 + cp % 0x40) == cp
  {
  }

  lemma ValueEncode3(cp: int)
    requires 0x800 <= cp < 0x1_0000 && IsScalar(cp)
    ensures Lead3(0xE0 + cp / 0x1000, 0x80 + (cp / 0x40) % 0x40) && IsTail(0x80 + cp % 0x40)
    ensures Value3(0xE0 + cp / 0x1000, 0x80 + (cp / 0x40) % 0x40, 0x80 + cp % 0x40) == cp
  {
    var hi := cp / 0x40;
    Split64(hi, hi / 0x40, hi % 0x40);
    assert cp / 0x1000 == hi / 0x40;
  }

  lemma ValueEncode4(cp: int)
    requires 0x1_0000 <= cp < 0x11_0000
    ensures Lead4(0xF0 + cp / 0x4_0000, 0x80 + (cp / 0x1000) % 0x40)
    ensures IsTail(0x80 + (cp / 0x40) % 0x40) && IsTail(0x80 + cp % 0x40)
    ensures Value4(0xF0 + cp / 0x4_0000, 0x80 + (cp / 0x1000) % 0x40, 0x80 + (cp / 0x40) % 0x40, 0x80 + cp % 0x40) == cp
  {
    var mid := cp / 0x40;
    var hi := mid / 0x40;
    assert cp / 0x1000 == hi;
    assert cp / 0x4_0000 == hi / 0x40;
  }

  /** Every scalar value's encoding is a well-formed character, whatever
      follows it, and decodes back to the same value. */
  lemma DecodeEncodeChar(c: char, rest: seq<byte>)
    ensures CharLen(EncodeChar(c) + rest) == |EncodeChar(c)|
    ensures DecodeChar(EncodeChar(c) + rest) == c
  {
    var cp := c as int;
    var e := EncodeChar(c);
    var s := e + rest;
    assert s[..|e|] == e;
    if cp < 0x80 {
    } else if cp < 0x800 {
      ValueEncode2(cp);
    } else if cp < 0x1_0000 {
      ValueEncode3(cp);
    } else {
      ValueEncode4(cp);
    }
  }

  /** Round trip: the bytes of any text are accepted and decode to that
      text. With the first postcondition of `Decode`, `Decode(b)` succeeds
      exactly when `b` is the encoding of some text. */
  lemma {:induction false} DecodeEncode(s: string)
    ensures Decode(Encode(s)) == Success(s)
    decreases |s|
  {
    if |s| > 0 {
      var e := EncodeChar(s[0]);
      var b := Encode(s);
      DecodeEncodeChar(s[0], Encode(s[1..]));
      assert b[|e|..] == Encode(s[1..]);
      DecodeEncode(s[1..]);
      assert [s[0]] + s[1..] == s;
    }
  }

  /** `DecodeEncode` for every text at once. */
  lemma EncodingsDecode()
    ensures forall s :: Decode(Encode(s)) == Success(s)
  {
    forall s {
      DecodeEncode(s);
    }
  }

  /** Distinct texts have distinct encodings. */
  lemma EncodeInjective(s: string, t: string)
    requires Encode(s) == Encode(t)
    ensures s == t
  {
    DecodeEncode(s);
    DecodeEncode(t);
  }

  /** A failing input is the bytes of no text at all. */
  lemma DecodeFailsOnlyOnNonText(b: seq<byte>, s: string)
    requires Decode(b).Failure?
    ensures Encode(s) != b
  {
    DecodeEncode(s);
  }

  /** Cutting a byte sequence never changes a character that fits before the
      cut. */
  lemma CharLenPrefix(b: seq<byte>, k: nat)
    requires k <= |b|
    ensures CharLen(b[..k]) > 0 ==> CharLen(b[..k]) == CharLen(b)
    ensures 0 < CharLen(b) <= k ==> CharLen(b[..k]) == CharLen(b)
  {
  }

  /** One step of `Decode` on a nonempty input. */
  lemma DecodeStep(b: seq<byte>)
    requires |b| > 0
    ensures CharLen(b) == 0 ==> Decode(b) == Failure(Utf8Error(0))
    ensures CharLen(b) > 0 ==> Decode(b).Success? == Decode(b[CharLen(b)..]).Success?
    ensures CharLen(b) > 0 && Decode(b).Failure? ==>
      Decode(b).error.validUpTo == Decode(b[CharLen(b)..]).error.validUpTo + CharLen(b)
  {
  }

  /** `DecodeStep` for an input `p` whose first character is known to be
      `n` bytes long and whose rest is `q`. */
  lemma DecodeAfterChar(p: seq<byte>, n: nat, q: seq<byte>)
    requires 0 < n && CharLen(p) == n && q == p[n..]
    ensures Decode(p).Success? == Decode(q).Success?
  {
    DecodeStep(p);
  }

  /** The prefix `p` of length `k` of `b` starts with the same `n`-byte
      character as `b`, and what follows that character in `p` is `q`. */
  lemma PrefixSplit(b: seq<byte>, k: nat, n: nat, p: seq<byte>, q: seq<byte>)
    requires 0 < n == CharLen(b) && n <= k <= |b|
    requires p == b[..k] && q == b[n..][..k - n]
    ensures CharLen(p) == n && q == p[n..]
  {
    CharLenPrefix(b, k);
  }

  /** A prefix of `b` that reaches past `b`'s first character, of length
      `n`, succeeds exactly when its part after that character succeeds. */
  lemma PrefixAfterChar(b: seq<byte>, n: nat, k: nat)
    requires 0 < n == CharLen(b) && n <= k <= |b|
    ensures Decode(b[..k]).Success? == Decode(b[n..][..k - n]).Success?
  {
    var p := b[..k];
    var q := b[n..][..k - n];
    PrefixSplit(b, k, n, p, q);
    DecodeAfterChar(p, n, q);
  }

  /** A failure of `Decode` on an input whose first character is `n` bytes
      long is a failure of the rest, shifted by `n`. */
  lemma FailureAfterChar(b: seq<byte>, n: nat, tail: seq<byte>)
    requires 0 < n == CharLen(b) && tail == b[n..] && Decode(b).Failure?
    ensures Decode(tail).Failure?
    ensures Decode(b).error.validUpTo == Decode(tail).error.validUpTo + n
  {
    DecodeStep(b);
  }

  /** `valid_up_to` is what Rust documents: the prefix up to it is valid
      UTF-8. */
  lemma {:induction false} ValidUpToIsValid(b: seq<byte>)
    requires Decode(b).Failure?
    ensures Decode(b[..Decode(b).error.validUpTo]).Success?
    decreases |b|
  {
    var n := CharLen(b);
    if n > 0 {
      var tail := b[n..];
      FailureAfterChar(b, n, tail);
      ValidUpToIsValid(tail);
      PrefixAfterChar(b, n, Decode(b).error.validUpTo);
    }
  }

  /** A nonempty prefix of a sequence that starts with no character fails. */
  lemma PrefixFailsAtStart(b: seq<byte>, k: nat)
    requires CharLen(b) == 0 && 0 < k <= |b|
    ensures Decode(b[..k]).Failure?
  {
    CharLenPrefix(b, k);
    DecodeStep(b[..k]);
  }

  /** ... and it is the longest such prefix: every longer prefix is
      rejected. */
  lemma {:induction false} ValidUpToIsLongest(b: seq<byte>, k: nat)
    requires Decode(b).Failure?
    requires Decode(b).error.validUpTo < k <= |b|
    ensures Decode(b[..k]).Failure?
    decreases |b|
  {
    var n := CharLen(b);
    if n == 0 {
      PrefixFailsAtStart(b, k);
    } else {
      var tail := b[n..];
      FailureAfterChar(b, n, tail);
      ValidUpToIsLongest(tail, k - n);
      PrefixAfterChar(b, n, k);
    }
  }
}
