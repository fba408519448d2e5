/**
 * The bytes of a Rust `String`: `str::as_bytes` yields the UTF-8 encoding of
 * the string and `str::len` is the number of those bytes. Dafny's `char` is a
 * Unicode scalar value, so every `string` has exactly one UTF-8 encoding.
 * `Decode` is the inverse used to show that the event payloads carry the
 * token id recoverably.
 */
module Utf8 {
  import opened Wrappers

  newtype byte = x: int | 0 <= x < 0x100

  /** True for a continuation byte 10xxxxxx. */
  predicate IsContinuation(b: byte) {
    0x80 <= b < 0xC0
  }

  /** The one to four bytes that encode one scalar value. */
  function EncodeChar(c: char): (r: seq<byte>)
    ensures 1 <= |r| <= 4
    ensures |r| == 1 <==> c as int < 0x80
    ensures |r| == 1 ==> r[0] as int == c as int
  {
    var cp := c as int;
    if cp < 0x80 then
      [cp as byte]
    else if cp < 0x800 then
      [(0xC0 + cp / 0x40) as byte, (0x80 + cp % 0x40) as byte]
    else if cp < 0x1_0000 then
      var hi := cp / 0x40;
      [(0xE0 + hi / 0x40) as byte, (0x80 + hi % 0x40) as byte, (0x80 + cp % 0x40) as byte]
    else
      var hi := cp / 0x40;
      var top := hi / 0x40;
      [(0xF0 + top / 0x40) as byte, (0x80 + top % 0x40) as byte,
       (0x80 + hi % 0x40) as byte, (0x80 + cp % 0x40) as byte]
  }

  /** `s.as_bytes()`; its length is `s.len()`. */
  function Encode(s: string): (r: seq<byte>)
    ensures |s| <= |r| <= 4 * |s|
  {
    if s == [] then [] else EncodeChar(s[0]) + Encode(s[1..])
  }

  /** Reads the scalar value at the front of `b` and the number of bytes it takes. */
  function DecodeFirst(b: seq<byte>): (r: Option<(char, nat)>)
    requires |b| > 0
    ensures r.Some? ==> 1 <= r.value.1 <= |b|
  {
    var b0 := b[0] as int;
    if b0 < 0x80 then
      Some((b0 as char, 1))
    else if 0xC0 <= b0 < 0xE0 && |b| >= 2 && IsContinuation(b[1]) then
      var cp := (b0 - 0xC0) * 0x40 + (b[1] as int - 0x80);
      if 0x80 <= cp then Some((cp as char, 2)) else None
    else if 0xE0 <= b0 < 0xF0 && |b| >= 3 && IsContinuation(b[1]) && IsContinuation(b[2]) then
      var cp := ((b0 - 0xE0) * 0x40 + (b[1] as int - 0x80)) * 0x40 + (b[2] as int - 0x80);
      if 0x800 <= cp && (cp < 0xD800 || 0xE000 <= cp) then Some((cp as char, 3)) else None
    else if 0xF0 <= b0 < 0xF8 && |b| >= 4 && IsContinuation(b[1]) && IsContinuation(b[2]) && IsContinuation(b[3]) then
      var cp := (((b0 - 0xF0) * 0x40 + (b[1] as int - 0x80)) * 0x40 + (b[2] as int - 0x80)) * 0x40 + (b[3] as int - 0x80);
      if 0x1_0000 <= cp < 0x11_0000 then Some((cp as char, 4)) else None
    else
      None
  }

  /** The string whose UTF-8 encoding is `b`, if `b` is well-formed UTF-8. */
  function Decode(b: seq<byte>): Option<string>
    decreases |b|
  {
    if b == [] then Some([])
    else match DecodeFirst(b)
      case None => None
      case Some((c, n)) =>
        match Decode(b[n..])
        case None => None
        case Some(s) => Some([c] + s)
  }

  lemma DecodeFirstEncodeChar(c: char, rest: seq<byte>)
    ensures DecodeFirst(EncodeChar(c) + rest) == Some((c, |EncodeChar(c)|))
  {
    var cp := c as int;
    var b := EncodeChar(c) + rest;
    if cp < 0x80 {
    } else if cp < 0x800 {
      assert (cp / 0x40) * 0x40 + cp % 0x40 == cp;
    } else if cp < 0x1_0000 {
      var hi := cp / 0x40;
      assert (hi / 0x40) * 0x40 + hi % 0x40 == hi;
      assert hi * 0x40 + cp % 0x40 == cp;
    } else {
      var hi := cp / 0x40;
      var top := hi / 0x40;
      assert (top / 0x40) * 0x40 + top % 0x40 == top;
      assert top * 0x40 + hi % 0x40 == hi;
      assert hi * 0x40 + cp % 0x40 == cp;
    }
  }

  /** Decoding undoes encoding: `String::from_utf8(s.as_bytes())` gives back `s`. */
  lemma {:induction false} DecodeEncode(s: string)
    ensures Decode(Encode(s)) == Some(s)
  {
    if s != [] {
      var head := EncodeChar(s[0]);
      var tail := Encode(s[1..]);
      DecodeFirstEncodeChar(s[0], tail);
      assert (head + tail)[|head|..] == tail;
      DecodeEncode(s[1..]);
      assert [s[0]] + s[1..] == s;
    }
  }

  /** Encoding is injective: distinct token ids have distinct bytes. */
  lemma EncodeInjective(s: string, t: string)
    requires Encode(s) == Encode(t)
    ensures s == t
  {
    DecodeEncode(s);
    DecodeEncode(t);
  }

  /** A run of one ASCII character encodes to the same run of its code. */
  lemma {:induction false} EncodeAsciiRun(c: char, n: nat)
    requires c as int < 0x80
    ensures Encode(seq(n, _ => c)) == seq(n, _ => c as int as byte)
  {
    if n > 0 {
      var s := seq(n, _ => c);
      assert s[0] == c && s[1..] == seq(n - 1, _ => c);
      EncodeAsciiRun(c, n - 1);
      assert [c as int as byte] + seq(n - 1, _ => c as int as byte) == seq(n, _ => c as int as byte);
    }
  }
}
