/**
 * Python's strict UTF-8 codec, as `str.encode("utf-8")` and `bytes.decode("utf-8")` apply it
 * between the application's strings and the bytes the cipher works on. A Dafny `char` is a Unicode
 * scalar value, so encoding never fails; decoding rejects (raises, in Python) truncated sequences,
 * stray continuation bytes, overlong forms, surrogates and code points above U+10FFFF.
 */
module Utf8 {
  import opened Wrappers

  predicate IsContinuation(b: byte) {
    0x80 <= b < 0xC0
  }

  /** The one to four bytes of one scalar value. */
  function EncodeChar(c: char): (r: Bytes)
    ensures 1 <= |r| <= 4
    ensures (c as int < 0x80) == (|r| == 1)
  {
    var n := c as int;
    if n < 0x80 then [n]
    else if n < 0x800 then [0xC0 + n / 64, 0x80 + n % 64]
    else if n < 0x10000 then [0xE0 + n / 4096, 0x80 + (n / 64) % 64, 0x80 + n % 64]
    else [0xF0 + n / 262144, 0x80 + (n / 4096) % 64, 0x80 + (n / 64) % 64, 0x80 + n % 64]
  }

  /** `s.encode("utf-8")`. */
  function Encode(s: string): (r: Bytes)
    ensures |s| <= |r| <= 4 * |s|
  {
    if s == [] then [] else EncodeChar(s[0]) + Encode(s[1..])
  }

  /** The first scalar value of `b` and the number of bytes it takes, or None when `b` does not start with one. */
  function DecodeFirst(b: Bytes): (r: Option<(char, nat)>)
    requires |b| > 0
    ensures r.Some? ==> 1 <= r.value.1 <= |b| && r.value.1 <= 4
  {
    var b0 := b[0] as int;
    if b0 < 0x80 then Some((b0 as char, 1))
    else if 0xC2 <= b0 <= 0xDF then
      if |b| >= 2 && IsContinuation(b[1])
      then Some((((b0 - 0xC0) * 64 + (b[1] as int - 0x80)) as char, 2))
      else None
    else if 0xE0 <= b0 <= 0xEF then
      if |b| >= 3 && IsContinuation(b[1]) && IsContinuation(b[2]) then
        var v := (b0 - 0xE0) * 4096 + (b[1] as int - 0x80) * 64 + (b[2] as int - 0x80);
        if v < 0x800 || (0xD800 <= v < 0xE000) then None else Some((v as char, 3))
      else None
    else if 0xF0 <= b0 <= 0xF4 then
      if |b| >= 4 && IsContinuation(b[1]) && IsContinuation(b[2]) && IsContinuation(b[3]) then
        var v := (b0 - 0xF0) * 262144 + (b[1] as int - 0x80) * 4096 + (b[2] as int - 0x80) * 64 + (b[3] as int - 0x80);
        if v < 0x10000 || v > 0x10FFFF then None else Some((v as char, 4))
      else None
    else None
  }

  /** `b.decode("utf-8")`: None where Python raises UnicodeDecodeError. */
  function Decode(b: Bytes): (r: Option<string>)
    ensures r.Some? ==> |r.value| <= |b| <= 4 * |r.value|
    decreases |b|
  {
    if b == [] then Some([])
    else match DecodeFirst(b)
      case None => None
      case Some((c, k)) =>
        match Decode(b[k..])
        case None => None
        case Some(rest) => Some([c] + rest)
  }

  lemma DecodeFirstTwo(n: int, rest: Bytes)
    requires 0x80 <= n < 0x800
    ensures DecodeFirst([0xC0 + n / 64, 0x80 + n % 64] + rest) == Some((n as char, 2))
  {
    var b := [0xC0 + n / 64, 0x80 + n % 64] + rest;
    assert b[0] as int - 0xC0 == n / 64 && b[1] as int - 0x80 == n % 64;
  }

  lemma DecodeFirstThree(n: int, rest: Bytes)
    requires 0x800 <= n < 0x10000 && !(0xD800 <= n < 0xE000)
    ensures DecodeFirst([0xE0 + n / 4096, 0x80 + (n / 64) % 64, 0x80 + n % 64] + rest) == Some((n as char, 3))
  {
    var q := n / 64;
    assert n == q * 64 + n % 64;
    assert q == (n / 4096) * 64 + q % 64;
  }

  lemma DecodeFirstFour(n: int, rest: Bytes)
    requires 0x10000 <= n <= 0x10FFFF
    ensures DecodeFirst([0xF0 + n / 262144, 0x80 + (n / 4096) % 64, 0x80 + (n / 64) % 64, 0x80 + n % 64] + rest)
            == Some((n as char, 4))
  {
    var q := n / 64;
    var p := n / 4096;
    assert n == q * 64 + n % 64;
    assert q == p * 64 + q % 64;
    assert p == (n / 262144) * 64 + p % 64;
  }

  /** The decoder reads back exactly the bytes the encoder wrote for one scalar value. */
  lemma DecodeFirstEncodeChar(c: char, rest: Bytes)
    ensures DecodeFirst(EncodeChar(c) + rest) == Some((c, |EncodeChar(c)|))
  {
    var n := c as int;
    if n < 0x80 {
    } else if n < 0x800 {
      DecodeFirstTwo(n, rest);
    } else if n < 0x10000 {
      DecodeFirstThree(n, rest);
    } else {
      DecodeFirstFour(n, rest);
    }
  }

  /** Round trip: decoding what `str.encode("utf-8")` produced gives back the string. */
  lemma {:induction false} DecodeEncode(s: string)
    ensures Decode(Encode(s)) == Some(s)
  {
    if s != [] {
      var head := EncodeChar(s[0]);
      var tail := Encode(s[1..]);
      assert Encode(s) == head + tail;
      DecodeFirstEncodeChar(s[0], tail);
      assert (head + tail)[|head|..] == tail;
      DecodeEncode(s[1..]);
      assert [s[0]] + s[1..] == s;
    }
  }
}
