/**
 * The UTF-8 encoding of a string, as bcrypt reads a password: each Unicode
 * scalar value becomes one to four bytes, the lead byte telling how many.
 */
module Utf8 {

  /** A byte, as an integer. */
  type Byte = b: int | 0 <= b < 256

  /** The lead byte of an encoding of `n` bytes. */
  predicate LeadOf(b: int, n: int) {
    if n == 1 then b < 0x80
    else if n == 2 then 0xC0 <= b < 0xE0
    else if n == 3 then 0xE0 <= b < 0xF0
    else n == 4 && 0xF0 <= b < 0xF8
  }

  predicate Continuation(b: int) {
    0x80 <= b < 0xC0
  }

  /** The value the pay-load bits of an encoding denote. */
  function DecodeChar(b: seq<Byte>): int
    requires 1 <= |b| <= 4
  {
    var b0 := b[0] as int;
    if |b| == 1 then b0
    else if |b| == 2 then (b0 - 0xC0) * 64 + (b[1] as int - 0x80)
    else if |b| == 3 then ((b0 - 0xE0) * 64 + (b[1] as int - 0x80)) * 64 + (b[2] as int - 0x80)
    else (((b0 - 0xF0) * 64 + (b[1] as int - 0x80)) * 64 + (b[2] as int - 0x80)) * 64 + (b[3] as int - 0x80)
  }

  /** Six more pay-load bits. */
  lemma Split64(x: nat)
    ensures x == (x / 64) * 64 + x % 64 && 0 <= x % 64 < 64
  {
  }

  /** The bytes of one character, in the shortest form: a lead byte giving the
      length, then continuation bytes, and decoding them gives the character back. */
  function EncodeChar(c: char): (r: seq<Byte>)
    ensures |r| == if c as int < 0x80 then 1 else if c as int < 0x800 then 2 else if c as int < 0x10000 then 3 else 4
    ensures LeadOf(r[0], |r|)
    ensures forall i :: 1 <= i < |r| ==> Continuation(r[i])
    ensures DecodeChar(r) == c as int
  {
    var cp := c as int;
    var q1 := cp / 64;
    var q2 := q1 / 64;
    var q3 := q2 / 64;
    Split64(cp);
    Split64(q1);
    Split64(q2);
    if cp < 0x80 then [cp]
    else if cp < 0x800 then [0xC0 + q1, 0x80 + cp % 64]
    else if cp < 0x10000 then [0xE0 + q2, 0x80 + q1 % 64, 0x80 + cp % 64]
    else [0xF0 + q3, 0x80 + q2 % 64, 0x80 + q1 % 64, 0x80 + cp % 64]
  }

  /** The UTF-8 encoding of `s`. */
  function Encode(s: string): (r: seq<Byte>)
    ensures |s| <= |r| <= 4 * |s|
    ensures (forall i :: 0 <= i < |s| ==> s[i] as int < 0x80) ==> |r| == |s|
  {
    if s == [] then [] else EncodeChar(s[0]) + Encode(s[1..])
  }

  /** Encoding a concatenation encodes each part. */
  lemma {:induction false} EncodeConcat(s: string, t: string)
    ensures Encode(s + t) == Encode(s) + Encode(t)
  {
    if s == [] {
      assert s + t == t;
    } else {
      assert (s + t)[0] == s[0] && (s + t)[1..] == s[1..] + t;
      EncodeConcat(s[1..], t);
    }
  }

  /** The lead byte says how long a character's encoding is. */
  lemma LeadDeterminesLength(a: seq<Byte>, b: seq<Byte>)
    requires 1 <= |a| <= 4 && LeadOf(a[0], |a|)
    requires 1 <= |b| <= 4 && LeadOf(b[0], |b|)
    requires a[0] == b[0]
    ensures |a| == |b|
  {
  }

  /** Different strings have different encodings. */
  lemma {:induction false} EncodeInjective(s: string, t: string)
    requires Encode(s) == Encode(t)
    ensures s == t
  {
    if s != [] && t != [] {
      var a, b := EncodeChar(s[0]), EncodeChar(t[0]);
      assert Encode(s)[0] == a[0] && Encode(t)[0] == b[0];
      LeadDeterminesLength(a, b);
      assert a == Encode(s)[..|a|] && b == Encode(t)[..|b|];
      assert s[0] as int == t[0] as int;
      assert Encode(s[1..]) == Encode(s)[|a|..] && Encode(t[1..]) == Encode(t)[|b|..];
      EncodeInjective(s[1..], t[1..]);
      assert s == [s[0]] + s[1..] && t == [t[0]] + t[1..];
    }
  }
}
