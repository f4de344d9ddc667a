/** UTF-8 as section 4 of RFC 3629 defines it, with the decoder's treatment of invalid input. */
module Utf8 {
  import opened ExactWrite

  const RUNE_ERROR := 0xFFFD

  /** A decoded character and the number of bytes it took; an invalid byte is `RUNE_ERROR` of size 1. */
  datatype Decoded = Decoded(rune: int, size: nat)

  predicate Tail(b: byte) {
    0x80 <= b <= 0xBF
  }

  /** The bytes that may follow a given first byte; the ranges exclude overlong forms, surrogates and values
      beyond U+10FFFF. */
  predicate Second(first: byte, b: byte) {
    if first == 0xE0 then 0xA0 <= b <= 0xBF
    else if first == 0xED then 0x80 <= b <= 0x9F
    else if first == 0xF0 then 0x90 <= b <= 0xBF
    else if first == 0xF4 then 0x80 <= b <= 0x8F
    else Tail(b)
  }

  function DecodeRune(v: bytes): (d: Decoded)
    requires v != []
    ensures 1 <= d.size <= 4 && d.size <= |v|
    ensures v[0] < 0x80 ==> d == Decoded(v[0] as int, 1)
    ensures v[0] >= 0x80 ==> d.rune >= 0x80 && forall i | 0 <= i < d.size :: v[i] >= 0x80
  {
    var b0 := v[0];
    if b0 < 0x80 then Decoded(b0 as int, 1)
    else if 0xC2 <= b0 <= 0xDF && |v| >= 2 && Second(b0, v[1]) then
      Decoded((b0 as int - 0xC0) * 64 + (v[1] as int - 0x80), 2)
    else if 0xE0 <= b0 <= 0xEF && |v| >= 3 && Second(b0, v[1]) && Tail(v[2]) then
      var r := (b0 as int - 0xE0) * 4096 + (v[1] as int - 0x80) * 64 + (v[2] as int - 0x80);
      Decoded(r, 3)
    else if 0xF0 <= b0 <= 0xF4 && |v| >= 4 && Second(b0, v[1]) && Tail(v[2]) && Tail(v[3]) then
      var r := (b0 as int - 0xF0) * 262144 + (v[1] as int - 0x80) * 4096
               + (v[2] as int - 0x80) * 64 + (v[3] as int - 0x80);
      Decoded(r, 4)
    else Decoded(RUNE_ERROR, 1)
  }

  predicate Scalar(r: int) {
    0 <= r <= 0x10FFFF && !(0xD800 <= r <= 0xDFFF)
  }

  type scalar = r: int | Scalar(r)

  /** The continuation byte for the low six bits of `n`. */
  function Trail(n: nat): byte {
    (0x80 + n % 64) as byte
  }

  /** The encoding of a scalar value. */
  function Encode(r: scalar): (e: bytes)
    ensures 1 <= |e| <= 4
  {
    assert Scalar(r);
    if r < 0x80 then [r as byte]
    else if r < 0x800 then [(0xC0 + r / 64) as byte, Trail(r)]
    else if r < 0x10000 then [(0xE0 + r / 4096) as byte, Trail(r / 64), Trail(r)]
    else [(0xF0 + r / 262144) as byte, Trail(r / 4096), Trail(r / 64), Trail(r)]
  }

  predicate Valid(v: bytes)
    requires v != []
  {
    DecodeRune(v) != Decoded(RUNE_ERROR, 1)
  }

  /** Decoding undoes encoding, whatever follows. */
  lemma {:induction false} DecodeEncode(r: scalar, rest: bytes)
    ensures DecodeRune(Encode(r) + rest) == Decoded(r, |Encode(r)|)
  {
    assert Scalar(r);
    var e := Encode(r);
    var v := e + rest;
    assert forall i | 0 <= i < |e| :: v[i] == e[i];
    if 0x80 <= r < 0x800 {
      Split64(r);
    } else if 0x800 <= r < 0x10000 {
      Split64(r);
      Split64(r / 64);
    } else if r >= 0x10000 {
      Split64(r);
      Split64(r / 64);
      Split64(r / 4096);
    }
  }

  lemma {:induction false} Split64(r: nat)
    ensures r == r / 64 * 64 + r % 64 && 0 <= r % 64 < 64
    ensures r / 64 / 64 == r / 4096 && r / 4096 / 64 == r / 262144
  {
  }

  /** A successful decoding is of a scalar value, and the bytes it took are that value's encoding. */
  lemma {:induction false} EncodeDecode(v: bytes)
    requires v != [] && Valid(v)
    ensures Scalar(DecodeRune(v).rune) && v[..DecodeRune(v).size] == Encode(DecodeRune(v).rune)
  {
    var d := DecodeRune(v);
    if d.size == 2 {
      Digits64(v[0] as int - 0xC0, v[1] as int - 0x80);
    } else if d.size == 3 {
      EncodeDecode3(v);
    } else if d.size == 4 {
      EncodeDecode4(v);
    }
  }

  lemma {:induction false} EncodeDecode3(v: bytes)
    requires v != [] && DecodeRune(v).size == 3
    ensures Scalar(DecodeRune(v).rune) && v[..3] == Encode(DecodeRune(v).rune)
  {
    var a: int, b: int, c: int := v[0] as int - 0xE0, v[1] as int - 0x80, v[2] as int - 0x80;
    Digits64(a * 64 + b, c);
    Digits64(a, b);
    Split64(a * 4096 + b * 64 + c);
  }

  lemma {:induction false} EncodeDecode4(v: bytes)
    requires v != [] && DecodeRune(v).size == 4
    ensures Scalar(DecodeRune(v).rune) && v[..4] == Encode(DecodeRune(v).rune)
  {
    var a: int, b: int, c: int, d: int :=
      v[0] as int - 0xF0, v[1] as int - 0x80, v[2] as int - 0x80, v[3] as int - 0x80;
    Digits64(a * 4096 + b * 64 + c, d);
    Digits64(a * 64 + b, c);
    Digits64(a, b);
    Split64(a * 262144 + b * 4096 + c * 64 + d);
  }

  lemma {:induction false} Digits64(a: nat, b: nat)
    requires b < 64
    ensures (a * 64 + b) / 64 == a && (a * 64 + b) % 64 == b
  {
  }

  /** What follows a valid character has no influence on how it decodes. */
  lemma {:induction false} DecodeLocal(v: bytes, rest: bytes)
    requires v != [] && Valid(v)
    ensures DecodeRune(v[..DecodeRune(v).size] + rest) == DecodeRune(v)
  {
    EncodeDecode(v);
    DecodeEncode(DecodeRune(v).rune, rest);
  }

  /** The encoding of a text. */
  function EncodeAll(s: seq<scalar>): bytes {
    if s == [] then [] else Encode(s[0]) + EncodeAll(s[1..])
  }

  /** strconv.IsPrint, with `p` for the runes outside ASCII. */
  predicate IsPrint(p: int -> bool, r: int) {
    if r < 0x80 then 0x20 <= r < 0x7F else p(r)
  }

  /** Valid UTF-8 with printable characters only. */
  predicate AllPrintable(p: int -> bool, v: bytes)
    decreases |v|
  {
    v == [] || (Valid(v) && IsPrint(p, DecodeRune(v).rune) && AllPrintable(p, v[DecodeRune(v).size..]))
  }

  /** These are the encodings of the texts whose characters are printable. */
  lemma {:induction false} PrintableTexts(p: int -> bool, v: bytes) returns (s: seq<scalar>)
    requires AllPrintable(p, v)
    ensures v == EncodeAll(s) && forall i | 0 <= i < |s| :: IsPrint(p, s[i])
    decreases |v|
  {
    if v == [] {
      s := [];
    } else {
      var d := DecodeRune(v);
      var rest := PrintableTexts(p, v[d.size..]);
      EncodeDecode(v);
      s := [d.rune] + rest;
      FirstEncoded(d.rune, rest);
      assert v == v[..d.size] + v[d.size..];
    }
  }

  lemma {:induction false} FirstEncoded(r: scalar, rest: seq<scalar>)
    ensures EncodeAll([r] + rest) == Encode(r) + EncodeAll(rest)
  {
    assert ([r] + rest)[1..] == rest;
  }

  lemma {:induction false} TextsArePrintable(p: int -> bool, s: seq<scalar>)
    requires forall i | 0 <= i < |s| :: IsPrint(p, s[i])
    ensures AllPrintable(p, EncodeAll(s))
    decreases |s|
  {
    if s != [] {
      var rest := EncodeAll(s[1..]);
      DecodeEncode(s[0], rest);
      TextsArePrintable(p, s[1..]);
      assert EncodeAll(s)[|Encode(s[0])|..] == rest;
    }
  }
}
