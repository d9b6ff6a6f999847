/** Bytes, big-endian numbers and UTF-8 validity as the wire parsers use them. */
module Bytes {
  type byte = b: int | 0 <= b < 256

  function U16(hi: byte, lo: byte): nat { hi * 256 + lo }

  /** `int.from_bytes(m[i:i+2], "big")`. */
  function U16At(m: seq<byte>, i: nat): nat
    requires i + 2 <= |m|
  {
    U16(m[i], m[i + 1])
  }

  function U32At(m: seq<byte>, i: nat): nat
    requires i + 4 <= |m|
  {
    U16At(m, i) * 65536 + U16At(m, i + 2)
  }

  /** A number as one byte; numbers that do not fit are no concern of the printers. */
  function Put8(n: nat): byte {
    if n < 256 then n else 0
  }

  function Put16(n: nat): seq<byte> {
    if n < 65536 then [n / 256, n % 256] else [0, 0]
  }

  function Put32(n: nat): seq<byte> {
    if n < 4294967296 then Put16(n / 65536) + Put16(n % 65536) else [0, 0, 0, 0]
  }

  /** A text stands at a position of a message. */
  predicate Stands(m: seq<byte>, at: nat, t: seq<byte>) {
    at + |t| <= |m| && m[at..at + |t|] == t
  }

  lemma StandsSplit(m: seq<byte>, at: nat, a: seq<byte>, b: seq<byte>, next: nat)
    requires next == at + |a|
    ensures Stands(m, at, a + b) <==> Stands(m, at, a) && Stands(m, next, b)
  {
    if at + |a + b| <= |m| {
      var whole := m[at..at + |a + b|];
      assert whole == m[at..next] + m[next..next + |b|];
      assert whole == a + b ==> whole[..|a|] == a && whole[|a|..] == b;
    }
  }

  lemma StandsBetween(before: seq<byte>, t: seq<byte>, after: seq<byte>)
    ensures Stands(before + t + after, |before|, t)
  {
    assert (before + t + after)[|before|..|before| + |t|] == t;
  }

  lemma Put16At(m: seq<byte>, i: nat, n: nat)
    requires n < 65536 && Stands(m, i, Put16(n))
    ensures i + 2 <= |m| && U16At(m, i) == n
  {
    assert m[i] == m[i..i + 2][0] && m[i + 1] == m[i..i + 2][1];
  }

  lemma Put32At(m: seq<byte>, i: nat, n: nat)
    requires n < 4294967296 && Stands(m, i, Put32(n))
    ensures i + 4 <= |m| && U32At(m, i) == n
  {
    StandsSplit(m, i, Put16(n / 65536), Put16(n % 65536), i + 2);
    hide Stands;
    Put16At(m, i, n / 65536);
    Put16At(m, i + 2, n % 65536);
  }

  predicate Continuation(b: byte) { 0x80 <= b < 0xC0 }

  /** The length of the UTF-8 sequence at the front of a text, or 0 if there is none. */
  function Utf8Step(s: seq<byte>): nat
    requires s != []
    ensures Utf8Step(s) <= |s|
  {
    if s[0] < 0x80 then 1
    else if |s| < 2 || !Continuation(s[1]) then 0
    else if 0xC2 <= s[0] < 0xE0 then 2
    else if |s| < 3 || !Continuation(s[2]) then 0
    else if 0xE0 <= s[0] < 0xF0 then
      if (s[0] == 0xE0 && s[1] < 0xA0) || (s[0] == 0xED && s[1] >= 0xA0) then 0 else 3
    else if |s| < 4 || !Continuation(s[3]) then 0
    else if 0xF0 <= s[0] < 0xF5 then
      if (s[0] == 0xF0 && s[1] < 0x90) || (s[0] == 0xF4 && s[1] >= 0x90) then 0 else 4
    else 0
  }

  /** Whether `bytes.decode("utf-8")` succeeds. */
  predicate Utf8(s: seq<byte>)
    decreases |s|
  {
    s == [] || (Utf8Step(s) > 0 && Utf8(s[Utf8Step(s)..]))
  }

  /** No character below 0x20; in valid UTF-8 such a character is a byte of that value. */
  predicate NoControls(s: seq<byte>) {
    forall i :: 0 <= i < |s| ==> s[i] >= 0x20
  }
}
