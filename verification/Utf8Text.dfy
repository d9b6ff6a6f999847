/** What it means that bytes are valid UTF-8: they are the encoding of some text. */
module Utf8Text {
  import opened Bytes

  /** A Unicode scalar value: a code point that is no surrogate. */
  type scalar = c: int | 0 <= c < 0xD800 || 0xE000 <= c < 0x110000

  function EncodeOne(c: scalar): seq<byte> {
    if c < 0x80 then [c]
    else if c < 0x800 then [0xC0 + c / 64, 0x80 + c % 64]
    else if c < 0x10000 then [0xE0 + c / 64 / 64, 0x80 + c / 64 % 64, 0x80 + c % 64]
    else [0xF0 + c / 64 / 64 / 64, 0x80 + c / 64 / 64 % 64, 0x80 + c / 64 % 64, 0x80 + c % 64]
  }

  function Encode(text: seq<scalar>): seq<byte> {
    if text == [] then [] else EncodeOne(text[0]) + Encode(text[1..])
  }

  lemma Digits(high: nat, low: nat)
    requires low < 64
    ensures (high * 64 + low) / 64 == high && (high * 64 + low) % 64 == low
  {
  }

  lemma DecodeTwo(a: byte, b: byte) returns (c: scalar)
    requires 0xC2 <= a < 0xE0 && Continuation(b)
    ensures EncodeOne(c) == [a, b]
  {
    Digits(a - 0xC0, b - 0x80);
    c := (a - 0xC0) * 64 + (b - 0x80);
  }

  lemma DecodeThree(a: byte, b: byte, d: byte) returns (c: scalar)
    requires 0xE0 <= a < 0xF0 && Continuation(b) && Continuation(d)
    requires (a == 0xE0 ==> b >= 0xA0) && (a == 0xED ==> b < 0xA0)
    ensures EncodeOne(c) == [a, b, d]
  {
    var high := (a - 0xE0) * 64 + (b - 0x80);
    Digits(a - 0xE0, b - 0x80);
    Digits(high, d - 0x80);
    c := high * 64 + (d - 0x80);
  }

  lemma DecodeFour(a: byte, b: byte, d: byte, e: byte) returns (c: scalar)
    requires 0xF0 <= a < 0xF5 && Continuation(b) && Continuation(d) && Continuation(e)
    requires (a == 0xF0 ==> b >= 0x90) && (a == 0xF4 ==> b < 0x90)
    ensures EncodeOne(c) == [a, b, d, e]
  {
    var top := (a - 0xF0) * 64 + (b - 0x80);
    var high := top * 64 + (d - 0x80);
    Digits(a - 0xF0, b - 0x80);
    Digits(top, d - 0x80);
    Digits(high, e - 0x80);
    c := high * 64 + (e - 0x80);
  }

  lemma StepEncodes(s: seq<byte>) returns (c: scalar)
    requires s != [] && Utf8Step(s) > 0
    ensures EncodeOne(c) == s[..Utf8Step(s)]
  {
    var n := Utf8Step(s);
    if n == 1 {
      c := s[0];
    } else {
      hide EncodeOne;
      if n == 2 {
        c := DecodeTwo(s[0], s[1]);
      } else if n == 3 {
        c := DecodeThree(s[0], s[1], s[2]);
      } else {
        c := DecodeFour(s[0], s[1], s[2], s[3]);
      }
    }
  }

  lemma EncodingSteps(c: scalar, rest: seq<byte>)
    ensures Utf8Step(EncodeOne(c) + rest) == |EncodeOne(c)| > 0
  {
  }

  /** Bytes are valid UTF-8 if they encode a text. */
  lemma {:induction false} EncodingIsValid(text: seq<scalar>)
    ensures Utf8(Encode(text))
  {
    if text != [] {
      var rest := Encode(text[1..]);
      EncodingSteps(text[0], rest);
      EncodingIsValid(text[1..]);
      hide EncodeOne, Utf8Step;
      assert (EncodeOne(text[0]) + rest)[|EncodeOne(text[0])|..] == rest;
    }
  }

  /** Valid UTF-8 encodes a text. */
  lemma {:induction false} ValidIsEncoding(s: seq<byte>) returns (text: seq<scalar>)
    requires Utf8(s)
    ensures Encode(text) == s
    decreases |s|
  {
    hide EncodeOne, Utf8Step;
    text := [];
    if s != [] {
      var n := Utf8Step(s);
      var c := StepEncodes(s);
      var rest := ValidIsEncoding(s[n..]);
      text := [c] + rest;
      assert s == s[..n] + s[n..] && text[1..] == rest;
    }
  }

  lemma EncodingOfOne(c: scalar)
    ensures c < 0x80 ==> EncodeOne(c) == [c]
    ensures c >= 0x80 ==> forall i :: 0 <= i < |EncodeOne(c)| ==> EncodeOne(c)[i] >= 0x80
  {
  }

  /** Bytes below 0x80 stand for themselves and for nothing else, so a text has no control character if and only
      if no byte of its encoding is one. */
  lemma {:induction false} ControlsAreCharacters(text: seq<scalar>)
    ensures NoControls(Encode(text)) <==> forall i :: 0 <= i < |text| ==> text[i] >= 0x20
  {
    hide EncodeOne;
    if text != [] {
      var one, rest := EncodeOne(text[0]), Encode(text[1..]);
      ControlsAreCharacters(text[1..]);
      EncodingOfOne(text[0]);
      SplitControls(one, rest);
      assert text == [text[0]] + text[1..];
    }
  }

  lemma SplitControls(a: seq<byte>, b: seq<byte>)
    ensures NoControls(a + b) <==> NoControls(a) && NoControls(b)
  {
    assert forall i :: 0 <= i < |a| ==> (a + b)[i] == a[i];
    assert forall i :: 0 <= i < |b| ==> (a + b)[|a| + i] == b[i];
  }
}
