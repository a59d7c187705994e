/**
  The UTF-8 test used for record texts and the metadata sidecar accepts exactly the
  encodings of texts.
 */
module Utf8 {
  import opened Basics

  /** A Unicode scalar value: a code point that is no surrogate. */
  predicate IsScalar(c: nat) {
    c < 0xD800 || 0xE000 <= c < 0x110000
  }

  /** The encoding of one scalar value (table 3-6 of the Unicode Standard). */
  function Encode(c: nat): Bytes
    requires IsScalar(c)
  {
    if c < 0x80 then [c]
    else if c < 0x800 then [192 + c / 64, 128 + c % 64]
    else if c < 0x10000 then [224 + c / 4096, 128 + c / 64 % 64, 128 + c % 64]
    else [240 + c / 262144, 128 + c / 4096 % 64, 128 + c / 64 % 64, 128 + c % 64]
  }

  function EncodeAll(text: seq<nat>): Bytes
    requires forall i :: 0 <= i < |text| ==> IsScalar(text[i])
  {
    if text == [] then [] else Encode(text[0]) + EncodeAll(text[1..])
  }

  /** One encoded scalar value in front keeps a text well formed. */
  lemma {:induction false} EncodedFront(c: nat, rest: Bytes)
    requires IsScalar(c)
    ensures ValidUtf8(Encode(c) + rest) <==> ValidUtf8(rest)
  {
    var b := Encode(c);
    assert (b + rest)[|b|..] == rest;
    assert forall i :: 0 <= i < |b| ==> (b + rest)[i] == b[i];
    EncodedBytes(c);
    hide Encode;
  }

  /** The bytes of one encoded scalar value are those the test asks for. */
  lemma {:induction false} EncodedBytes(c: nat)
    requires IsScalar(c)
    ensures var b := Encode(c);
      || (|b| == 1 && b[0] < 128)
      || (|b| == 2 && 194 <= b[0] < 224 && Continuation(b[1]))
      || (|b| == 3 && 224 <= b[0] < 240 && Continuation(b[1]) && Continuation(b[2])
          && (b[0] == 224 ==> b[1] >= 160) && (b[0] == 237 ==> b[1] < 160))
      || (|b| == 4 && 240 <= b[0] < 245 && Continuation(b[1]) && Continuation(b[2]) && Continuation(b[3])
          && (b[0] == 240 ==> b[1] >= 144) && (b[0] == 244 ==> b[1] < 144))
  {
  }

  /** Well-formed bytes that are not empty begin with one encoded scalar value. */
  lemma {:induction false} DecodeFirst(s: Bytes) returns (c: nat)
    requires s != [] && ValidUtf8(s)
    ensures IsScalar(c) && Encode(c) <= s && ValidUtf8(s[|Encode(c)|..])
  {
    if s[0] < 128 {
      c := s[0];
    } else if s[0] < 224 {
      c := (s[0] as int - 192) * 64 + (s[1] as int - 128);
      assert c / 64 == s[0] as int - 192 && c % 64 == s[1] as int - 128;
    } else if s[0] < 240 {
      c := Three(s[0] as int - 224, s[1] as int - 128, s[2] as int - 128);
    } else {
      c := Four(s[0] as int - 240, s[1] as int - 128, s[2] as int - 128, s[3] as int - 128);
    }
  }

  lemma {:induction false} Three(x: nat, y: nat, z: nat) returns (c: nat)
    requires x < 16 && y < 64 && z < 64
    ensures c == x * 4096 + y * 64 + z && c / 4096 == x && c / 64 % 64 == y && c % 64 == z
  {
    c := x * 4096 + y * 64 + z;
    assert c / 64 == x * 64 + y;
  }

  lemma {:induction false} Four(w: nat, x: nat, y: nat, z: nat) returns (c: nat)
    requires w < 8 && x < 64 && y < 64 && z < 64
    ensures c == w * 262144 + x * 4096 + y * 64 + z && c / 262144 == w && c / 4096 % 64 == x && c / 64 % 64 == y && c % 64 == z
  {
    c := w * 262144 + x * 4096 + y * 64 + z;
    assert c / 64 == w * 4096 + x * 64 + y;
    assert c / 4096 == w * 64 + x;
  }

  ghost predicate EncodesText(s: Bytes, text: seq<nat>) {
    (forall i :: 0 <= i < |text| ==> IsScalar(text[i])) && s == EncodeAll(text)
  }

  lemma {:induction false} EncodedValid(text: seq<nat>)
    requires forall i :: 0 <= i < |text| ==> IsScalar(text[i])
    ensures ValidUtf8(EncodeAll(text))
  {
    if text != [] {
      EncodedValid(text[1..]);
      EncodedFront(text[0], EncodeAll(text[1..]));
    }
  }

  lemma {:induction false} DecodeAll(s: Bytes) returns (text: seq<nat>)
    requires ValidUtf8(s)
    ensures EncodesText(s, text)
    decreases |s|
  {
    text := [];
    if s != [] {
      var c := DecodeFirst(s);
      var b := Encode(c);
      assert |b| > 0 && s == b + s[|b|..];
      var rest := DecodeAll(s[|b|..]);
      text := [c] + rest;
      assert text[1..] == rest;
    }
  }

  /** Bytes pass the test if and only if they are the encoding of some text. */
  lemma {:induction false} ValidIff(s: Bytes)
    ensures ValidUtf8(s) <==> exists text :: EncodesText(s, text)
  {
    if ValidUtf8(s) { var text := DecodeAll(s); }
    if text :| EncodesText(s, text) { EncodedValid(text); }
  }
}
