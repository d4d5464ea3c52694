/**
 * UTF-8 as `String.getBytes(UTF8)` writes it and as `new String(bytes)` reads it
 * back (the platform charset is taken to be UTF-8). Dafny characters are Unicode
 * scalar values, so every string has exactly one encoding.
 */
module Utf8 {
  import opened Bytes

  /** U+FFFD, what a Java decoder puts in place of a malformed byte. */
  const Replacement: char := '\U{FFFD}'

  /** The one to four bytes that encode one character. */
  function EncodeChar(c: char): (r: seq<byte>)
    ensures 1 <= |r| <= 4
  {
    var n := c as int;
    if n < 0x80 then [n as byte]
    else if n < 0x800 then [(0xC0 + n / 64) as byte, (0x80 + n % 64) as byte]
    else if n < 0x1_0000 then
      [(0xE0 + n / 4096) as byte, (0x80 + (n / 64) % 64) as byte, (0x80 + n % 64) as byte]
    else
      [(0xF0 + n / 262144) as byte, (0x80 + (n / 4096) % 64) as byte,
       (0x80 + (n / 64) % 64) as byte, (0x80 + n % 64) as byte]
  }

  /** `s.getBytes(UTF8)`. */
  function Encode(s: string): (r: seq<byte>)
    ensures |r| >= |s|
  {
    if s == [] then [] else EncodeChar(s[0]) + Encode(s[1..])
  }

  predicate IsContinuation(b: byte)
  {
    0x80 <= b < 0xC0
  }

  /**
   * The first character of `b` and the number of bytes it takes. A byte that
   * does not start a well-formed sequence reads as U+FFFD and is skipped alone.
   */
  function DecodeFirst(b: seq<byte>): (r: (char, nat))
    requires |b| > 0
    ensures 1 <= r.1 <= |b|
  {
    var b0 := b[0] as int;
    if b0 < 0x80 then
      (b0 as char, 1)
    else if 0xC2 <= b0 < 0xE0 && |b| >= 2 && IsContinuation(b[1]) then
      (((b0 - 0xC0) * 64 + (b[1] as int - 0x80)) as char, 2)
    else if 0xE0 <= b0 < 0xF0 && |b| >= 3 && IsContinuation(b[1]) && IsContinuation(b[2]) then
      var n := (b0 - 0xE0) * 4096 + (b[1] as int - 0x80) * 64 + (b[2] as int - 0x80);
      if 0x800 <= n && !(0xD800 <= n < 0xE000) then (n as char, 3) else (Replacement, 1)
    else if 0xF0 <= b0 < 0xF5 && |b| >= 4
            && IsContinuation(b[1]) && IsContinuation(b[2]) && IsContinuation(b[3]) then
      var n := (b0 - 0xF0) * 262144 + (b[1] as int - 0x80) * 4096
               + (b[2] as int - 0x80) * 64 + (b[3] as int - 0x80);
      if 0x1_0000 <= n <= 0x10_FFFF then (n as char, 4) else (Replacement, 1)
    else
      (Replacement, 1)
  }

  /** `new String(b)` with UTF-8 as the charset. */
  function Decode(b: seq<byte>): (s: string)
    ensures |s| <= |b|
    decreases |b|
  {
    if b == [] then [] else
    var (c, k) := DecodeFirst(b);
    [c] + Decode(b[k..])
  }

  /** A string of `n` NUL characters, what `n` zero bytes decode to. */
  function Nuls(n: nat): (s: string)
    ensures |s| == n
    ensures forall i :: 0 <= i < n ==> s[i] == '\0'
  {
    seq(n, _ => '\0')
  }

  /** Decoding reads back the character that was encoded, and exactly its bytes. */
  lemma DecodeFirstEncodeChar(c: char, rest: seq<byte>)
    ensures DecodeFirst(EncodeChar(c) + rest) == (c, |EncodeChar(c)|)
  {
    var n := c as int;
    if n < 0x80 {
    } else if n < 0x800 {
      DecodeFirstTwo(c, rest);
    } else if n < 0x1_0000 {
      DecodeFirstThree(c, rest);
    } else {
      DecodeFirstFour(c, rest);
    }
  }

  lemma DecodeFirstTwo(c: char, rest: seq<byte>)
    requires 0x80 <= c as int < 0x800
    ensures DecodeFirst(EncodeChar(c) + rest) == (c, 2)
  {
    var n := c as int;
    var b := EncodeChar(c) + rest;
    assert b[0] as int == 0xC0 + n / 64 && b[1] as int == 0x80 + n % 64;
  }

  lemma DecodeFirstThree(c: char, rest: seq<byte>)
    requires 0x800 <= c as int < 0x1_0000
    ensures DecodeFirst(EncodeChar(c) + rest) == (c, 3)
  {
    var n := c as int;
    var b := EncodeChar(c) + rest;
    assert b[0] as int == 0xE0 + n / 4096;
    assert b[1] as int == 0x80 + (n / 64) % 64;
    assert b[2] as int == 0x80 + n % 64;
    Digits(n, 4096);
    assert (n / 4096) * 4096 + ((n / 64) % 64) * 64 + n % 64 == n;
  }

  lemma DecodeFirstFour(c: char, rest: seq<byte>)
    requires 0x1_0000 <= c as int
    ensures DecodeFirst(EncodeChar(c) + rest) == (c, 4)
  {
    var n := c as int;
    var b := EncodeChar(c) + rest;
    assert b[0] as int == 0xF0 + n / 262144;
    assert b[1] as int == 0x80 + (n / 4096) % 64;
    assert b[2] as int == 0x80 + (n / 64) % 64;
    assert b[3] as int == 0x80 + n % 64;
    Digits(n, 4096);
    Digits(n, 262144);
    assert (n / 262144) * 262144 + ((n / 4096) % 64) * 4096 + ((n / 64) % 64) * 64 + n % 64 == n;
  }

  /** Base-64 digits: the digits of `n` below `64 * d` and the part above them. */
  lemma Digits(n: nat, d: nat)
    requires d == 4096 || d == 262144
    ensures (n / (64 * d)) * (64 * d) + ((n / d) % 64) * d == (n / d) * d
    ensures (n / 4096) * 4096 + ((n / 64) % 64) * 64 + n % 64 == n
  {
    var q := n / d;
    assert q == (q / 64) * 64 + q % 64;
    assert q / 64 == n / (64 * d);
    var p := n / 64;
    assert p == (p / 64) * 64 + p % 64;
    assert p / 64 == n / 4096;
  }

  lemma EncodeAppend(s: string, t: string)
    ensures Encode(s + t) == Encode(s) + Encode(t)
  {
    if s == [] {
      assert s + t == t;
    } else {
      assert (s + t)[0] == s[0] && (s + t)[1..] == s[1..] + t;
      EncodeAppend(s[1..], t);
      assert Encode(s + t) == EncodeChar(s[0]) + Encode(s[1..] + t);
    }
  }

  /** Decoding one encoded character and then whatever follows it. */
  lemma DecodeEncodeChar(c: char, tail: seq<byte>)
    ensures Decode(EncodeChar(c) + tail) == [c] + Decode(tail)
  {
    var e := EncodeChar(c);
    DecodeFirstEncodeChar(c, tail);
    assert (e + tail)[|e|..] == tail;
  }

  /** Decoding a non-empty encoded string: its first character, then the decoding of the rest. */
  lemma DecodeEncodeCons(s: string, rest: seq<byte>)
    requires s != []
    ensures Decode(Encode(s) + rest) == [s[0]] + Decode(Encode(s[1..]) + rest)
  {
    var tail := Encode(s[1..]) + rest;
    assert Encode(s) + rest == EncodeChar(s[0]) + tail;
    DecodeEncodeChar(s[0], tail);
  }

  /** Prepending one character to both sides of an equation between concatenations. */
  lemma ConsStep(x: char, tl: string, d: string, lhs: string, mid: string)
    requires lhs == [x] + mid && mid == tl + d
    ensures lhs == ([x] + tl) + d
  {
  }

  /** Whatever follows a well-formed encoding decodes on its own: UTF-8 is self-delimiting. */
  lemma {:induction false} DecodeEncodeThen(s: string, rest: seq<byte>)
    ensures Decode(Encode(s) + rest) == s + Decode(rest)
  {
    if s == [] {
      assert Encode(s) + rest == rest;
    } else {
      DecodeEncodeThen(s[1..], rest);
      DecodeEncodeCons(s, rest);
      ConsStep(s[0], s[1..], Decode(rest), Decode(Encode(s) + rest), Decode(Encode(s[1..]) + rest));
      assert [s[0]] + s[1..] == s;
    }
  }

  /** The round trip: `new String(s.getBytes(UTF8))` is `s`. */
  lemma DecodeEncode(s: string)
    ensures Decode(Encode(s)) == s
  {
    DecodeEncodeThen(s, []);
    assert Encode(s) + [] == Encode(s);
  }

  /** Zero bytes decode one for one into NUL characters. */
  lemma {:induction false} DecodeZeros(n: nat)
    ensures Decode(Zeros(n)) == Nuls(n)
  {
    if n > 0 {
      assert Zeros(n)[1..] == Zeros(n - 1);
      DecodeZeros(n - 1);
      assert Nuls(n) == ['\0'] + Nuls(n - 1);
    }
  }
}
