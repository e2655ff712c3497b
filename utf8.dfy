/** UTF-8, the encoding of Rust's `String`: `as_bytes`, `String::from_utf8`
    and `String::from_utf8_lossy`. Dafny's `char` is a Unicode scalar value,
    as Rust's is. */
module Utf8 {
  import opened Wrappers
  import opened Numeric

  type Bytes = seq<Byte>

  predicate IsCont(b: Byte) { 0x80 <= b <= 0xBF }

  /** The bytes of one scalar value, shortest form. */
  function EncodeChar(c: char): (r: Bytes)
    ensures 1 <= |r| <= 4
  {
    var cp := c as int;
    var q1 := cp / 64;
    var q2 := q1 / 64;
    var q3 := q2 / 64;
    if cp < 0x80 then [cp as Byte]
    else if cp < 0x800 then [(0xC0 + q1) as Byte, (0x80 + cp % 64) as Byte]
    else if cp < 0x1_0000 then
      [(0xE0 + q2) as Byte, (0x80 + q1 % 64) as Byte, (0x80 + cp % 64) as Byte]
    else
      [(0xF0 + q3) as Byte, (0x80 + q2 % 64) as Byte, (0x80 + q1 % 64) as Byte, (0x80 + cp % 64) as Byte]
  }

  /** `s.as_bytes()`. */
  function Encode(s: string): Bytes
  {
    if |s| == 0 then [] else EncodeChar(s[0]) + Encode(s[1..])
  }

  /** Whether `b1` may follow the lead byte `b0` in a well-formed sequence
      (the ranges of Table 3-7 of the Unicode Standard, which exclude overlong
      forms, surrogates and values past U+10FFFF). */
  predicate SecondOk(b0: Byte, b1: Byte)
  {
    if b0 == 0xE0 then 0xA0 <= b1 <= 0xBF
    else if b0 == 0xED then 0x80 <= b1 <= 0x9F
    else if b0 == 0xF0 then 0x90 <= b1 <= 0xBF
    else if b0 == 0xF4 then 0x80 <= b1 <= 0x8F
    else IsCont(b1)
  }

  /** The well-formed sequence at the start of `b`, as its scalar value and its length. */
  function DecodeFirst(b: Bytes): (r: Option<(char, nat)>)
    ensures r.Some? ==> 1 <= r.value.1 <= |b|
  {
    if |b| == 0 then None
    else
      var b0 := b[0] as int;
      if b0 < 0x80 then Some((b0 as char, 1))
      else if 0xC2 <= b0 <= 0xDF then
        if |b| >= 2 && IsCont(b[1]) then
          Some((((b0 - 0xC0) * 64 + (b[1] as int - 0x80)) as char, 2))
        else None
      else if 0xE0 <= b0 <= 0xEF then
        if |b| >= 3 && SecondOk(b[0], b[1]) && IsCont(b[2]) then
          var cp := (b0 - 0xE0) * 4096 + (b[1] as int - 0x80) * 64 + (b[2] as int - 0x80);
          assert 0x800 <= cp <= 0xFFFF && (cp < 0xD800 || cp > 0xDFFF);
          Some((cp as char, 3))
        else None
      else if 0xF0 <= b0 <= 0xF4 then
        if |b| >= 4 && SecondOk(b[0], b[1]) && IsCont(b[2]) && IsCont(b[3]) then
          var cp := (b0 - 0xF0) * 262144 + (b[1] as int - 0x80) * 4096
                    + (b[2] as int - 0x80) * 64 + (b[3] as int - 0x80);
          assert 0x1_0000 <= cp <= 0x10_FFFF;
          Some((cp as char, 4))
        else None
      else None
  }

  /** `String::from_utf8`: the text, or None when the bytes are not well-formed UTF-8. */
  function Decode(b: Bytes): Option<string>
    decreases |b|
  {
    if |b| == 0 then Some("")
    else
      match DecodeFirst(b)
      case None => None
      case Some((c, n)) =>
        match Decode(b[n..])
        case None => None
        case Some(rest) => Some([c] + rest)
  }

  /** How many bytes `from_utf8_lossy` swallows into one U+FFFD at a malformed
      position: the lead byte and every following byte that could still start
      a well-formed sequence with it. */
  function InvalidRun(b: Bytes): (n: nat)
    requires |b| > 0
    ensures 1 <= n <= |b|
  {
    var b0 := b[0] as int;
    if 0xC2 <= b0 <= 0xDF then 1
    else if 0xE0 <= b0 <= 0xEF then
      if |b| >= 2 && SecondOk(b[0], b[1]) then 2 else 1
    else if 0xF0 <= b0 <= 0xF4 then
      if |b| >= 2 && SecondOk(b[0], b[1]) then
        if |b| >= 3 && IsCont(b[2]) then 3 else 2
      else 1
    else 1
  }

  /** `String::from_utf8_lossy`: well-formed sequences decode, each maximal
      malformed run becomes one U+FFFD. */
  function DecodeLossy(b: Bytes): string
    decreases |b|
  {
    if |b| == 0 then ""
    else
      match DecodeFirst(b)
      case Some((c, n)) => [c] + DecodeLossy(b[n..])
      case None => ['�'] + DecodeLossy(b[InvalidRun(b)..])
  }

  lemma DivMod64(x: int, q: int, r: int)
    requires x == q * 64 + r && 0 <= r < 64
    ensures x / 64 == q && x % 64 == r
  {
  }

  lemma DecodeFirstEncode2(c: char, rest: Bytes)
    requires 0x80 <= c as int < 0x800
    ensures DecodeFirst(EncodeChar(c) + rest) == Some((c, 2))
  {
    var cp := c as int;
    var e := EncodeChar(c);
    var b := e + rest;
    assert b[0] == e[0] && b[1] == e[1];
    assert cp == (cp / 64) * 64 + cp % 64;
  }

  lemma DecodeFirstEncode3(c: char, rest: Bytes)
    requires 0x800 <= c as int < 0x1_0000
    ensures DecodeFirst(EncodeChar(c) + rest) == Some((c, 3))
  {
    var cp := c as int;
    var q1 := cp / 64;
    var q2 := q1 / 64;
    var e := EncodeChar(c);
    var b := e + rest;
    assert b[0] == e[0] && b[1] == e[1] && b[2] == e[2];
    assert cp == q1 * 64 + cp % 64;
    assert q1 == q2 * 64 + q1 % 64;
    assert cp < 0xD800 || cp > 0xDFFF;
  }

  lemma DecodeFirstEncode4(c: char, rest: Bytes)
    requires 0x1_0000 <= c as int
    ensures DecodeFirst(EncodeChar(c) + rest) == Some((c, 4))
  {
    var cp := c as int;
    var q1 := cp / 64;
    var q2 := q1 / 64;
    var q3 := q2 / 64;
    var e := EncodeChar(c);
    var b := e + rest;
    assert b[0] == e[0] && b[1] == e[1] && b[2] == e[2] && b[3] == e[3];
    assert cp == q1 * 64 + cp % 64;
    assert q1 == q2 * 64 + q1 % 64;
    assert q2 == q3 * 64 + q2 % 64;
  }

  /** One encoded scalar value decodes back to itself, whatever follows it. */
  lemma DecodeFirstEncodeChar(c: char, rest: Bytes)
    ensures DecodeFirst(EncodeChar(c) + rest) == Some((c, |EncodeChar(c)|))
  {
    var cp := c as int;
    if cp < 0x80 {
    } else if cp < 0x800 {
      DecodeFirstEncode2(c, rest);
    } else if cp < 0x1_0000 {
      DecodeFirstEncode3(c, rest);
    } else {
      DecodeFirstEncode4(c, rest);
    }
  }

  lemma DecodedIsEncoding2(b: Bytes)
    requires |b| >= 2 && 0xC2 <= b[0] <= 0xDF && IsCont(b[1])
    ensures b[..2] == EncodeChar(DecodeFirst(b).value.0)
  {
    var cp := (b[0] as int - 0xC0) * 64 + (b[1] as int - 0x80);
    DivMod64(cp, b[0] as int - 0xC0, b[1] as int - 0x80);
  }

  lemma DecodedIsEncoding3(b: Bytes)
    requires |b| >= 3 && 0xE0 <= b[0] <= 0xEF && SecondOk(b[0], b[1]) && IsCont(b[2])
    ensures b[..3] == EncodeChar(DecodeFirst(b).value.0)
  {
    var q1 := (b[0] as int - 0xE0) * 64 + (b[1] as int - 0x80);
    var cp := q1 * 64 + (b[2] as int - 0x80);
    DivMod64(cp, q1, b[2] as int - 0x80);
    DivMod64(q1, b[0] as int - 0xE0, b[1] as int - 0x80);
    assert DecodeFirst(b).value.0 as int == cp;
  }

  lemma DecodedIsEncoding4(b: Bytes)
    requires |b| >= 4 && 0xF0 <= b[0] <= 0xF4 && SecondOk(b[0], b[1]) && IsCont(b[2]) && IsCont(b[3])
    ensures b[..4] == EncodeChar(DecodeFirst(b).value.0)
  {
    var q2 := (b[0] as int - 0xF0) * 64 + (b[1] as int - 0x80);
    var q1 := q2 * 64 + (b[2] as int - 0x80);
    var cp := q1 * 64 + (b[3] as int - 0x80);
    DivMod64(cp, q1, b[3] as int - 0x80);
    DivMod64(q1, q2, b[2] as int - 0x80);
    DivMod64(q2, b[0] as int - 0xF0, b[1] as int - 0x80);
    assert DecodeFirst(b).value.0 as int == cp;
  }

  /** A well-formed sequence is the encoding of the scalar value it decodes to
      (no overlong or alternative forms are accepted). */
  lemma DecodeFirstIsEncoding(b: Bytes)
    requires DecodeFirst(b).Some?
    ensures b[..DecodeFirst(b).value.1] == EncodeChar(DecodeFirst(b).value.0)
  {
    var b0 := b[0] as int;
    if b0 < 0x80 {
    } else if b0 <= 0xDF {
      DecodedIsEncoding2(b);
    } else if b0 <= 0xEF {
      DecodedIsEncoding3(b);
    } else {
      DecodedIsEncoding4(b);
    }
  }

  /** Encoding then decoding gives the text back: `String::from_utf8(s.into_bytes()) == Ok(s)`. */
  lemma {:induction false} DecodeEncode(s: string)
    ensures Decode(Encode(s)) == Some(s)
  {
    if |s| > 0 {
      var e := EncodeChar(s[0]);
      DecodeFirstEncodeChar(s[0], Encode(s[1..]));
      assert (e + Encode(s[1..]))[|e|..] == Encode(s[1..]);
      DecodeEncode(s[1..]);
      assert [s[0]] + s[1..] == s;
    }
  }

  /** One step of `Decode`: the first scalar value, which the leading bytes
      encode, then the rest. */
  lemma DecodeStep(b: Bytes) returns (c: char, n: nat, rest: string)
    requires |b| > 0 && Decode(b).Some?
    ensures 1 <= n <= |b| && b[..n] == EncodeChar(c)
    ensures Decode(b[n..]) == Some(rest) && Decode(b).value == [c] + rest
  {
    c, n := DecodeFirst(b).value.0, DecodeFirst(b).value.1;
    rest := Decode(b[n..]).value;
    DecodeFirstIsEncoding(b);
  }

  lemma EncodeCons(c: char, rest: string, b: Bytes, n: nat)
    requires n <= |b| && b[..n] == EncodeChar(c) && Encode(rest) == b[n..]
    ensures Encode([c] + rest) == b
  {
    assert ([c] + rest)[1..] == rest;
    assert b == b[..n] + b[n..];
  }

  /** Decoding succeeds only on the encoding of the text it returns, so the bytes are kept exactly. */
  lemma {:induction false} EncodeDecode(b: Bytes)
    requires Decode(b).Some?
    ensures Encode(Decode(b).value) == b
    decreases |b|
  {
    if |b| > 0 {
      var c, n, rest := DecodeStep(b);
      EncodeDecode(b[n..]);
      EncodeCons(c, rest, b, n);
    }
  }

  /** On well-formed input the lossy decoder replaces nothing. */
  lemma {:induction false} LossyAgreesOnValid(b: Bytes)
    requires Decode(b).Some?
    ensures DecodeLossy(b) == Decode(b).value
    decreases |b|
  {
    if |b| > 0 {
      var (c, n) := DecodeFirst(b).value;
      LossyAgreesOnValid(b[n..]);
    }
  }
}
