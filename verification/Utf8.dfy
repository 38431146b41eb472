/** UTF-8: the bytes of a text, which have exactly one reading. */
module Utf8 {
  import opened Bytes

  function EncodeChar(c: char): (b: Bytes)
    ensures 1 <= |b| <= 4
  {
    var n := c as int;
    if n < 0x80 then [n]
    else if n < 0x800 then [0xC0 + n / 64, 0x80 + n % 64]
    else if n < 0x1_0000 then [0xE0 + n / 4096, 0x80 + n / 64 % 64, 0x80 + n % 64]
    else [0xF0 + n / 262144, 0x80 + n / 4096 % 64, 0x80 + n / 64 % 64, 0x80 + n % 64]
  }

  function Encode(text: string): Bytes {
    if text == "" then [] else EncodeChar(text[0]) + Encode(text[1..])
  }

  /** How many bytes a character takes, by its first byte. */
  function Width(lead: byte): nat {
    if lead < 0x80 then 1 else if lead < 0xE0 then 2 else if lead < 0xF0 then 3 else 4
  }

  lemma EncodeCharWidth(c: char)
    ensures |EncodeChar(c)| == Width(EncodeChar(c)[0])
  {}

  /** The number that the bytes of one character say. */
  function Decode(b: Bytes): int {
    if |b| == 1 then b[0]
    else if |b| == 2 then 64 * (b[0] as int - 0xC0) + (b[1] as int - 0x80)
    else if |b| == 3 then 64 * (64 * (b[0] as int - 0xE0) + (b[1] as int - 0x80)) + (b[2] as int - 0x80)
    else if |b| == 4 then
      64 * (64 * (64 * (b[0] as int - 0xF0) + (b[1] as int - 0x80)) + (b[2] as int - 0x80))
      + (b[3] as int - 0x80)
    else -1
  }

  lemma SixBits(n: nat)
    ensures n == 64 * (n / 64) + n % 64
    ensures n / 64 == 64 * (n / 4096) + n / 64 % 64
    ensures n / 4096 == 64 * (n / 262144) + n / 4096 % 64
  {
    assert n / 64 / 64 == n / 4096;
    assert n / 4096 / 64 == n / 262144;
  }

  lemma CharReads(c: char)
    ensures Decode(EncodeChar(c)) == c as int
  {
    SixBits(c as int);
  }

  lemma EncodeCharInjective(c: char, d: char)
    requires EncodeChar(c) == EncodeChar(d)
    ensures c == d
  {
    hide EncodeChar, Decode;
    CharReads(c);
    CharReads(d);
  }

  lemma {:induction false} EncodeInjective(s: string, t: string)
    requires Encode(s) == Encode(t)
    ensures s == t
  {
    if s != "" && t != "" {
      var c, d := EncodeChar(s[0]), EncodeChar(t[0]);
      var x, y := Encode(s[1..]), Encode(t[1..]);
      assert c + x == d + y;
      assert c[0] == (c + x)[0] == (d + y)[0] == d[0];
      EncodeCharWidth(s[0]);
      EncodeCharWidth(t[0]);
      HeadsEqual(c, x, d, y);
      EncodeCharInjective(s[0], t[0]);
      EncodeInjective(s[1..], t[1..]);
      assert [s[0]] + s[1..] == s && [t[0]] + t[1..] == t;
    }
  }

  /** Equal concatenations with heads of one length have equal parts. */
  lemma {:induction false} HeadsEqual<T>(a: seq<T>, x: seq<T>, b: seq<T>, y: seq<T>)
    requires a + x == b + y && |a| == |b|
    ensures a == b && x == y
  {
    assert a == (a + x)[..|a|] && b == (b + y)[..|a|];
    assert x == (a + x)[|a|..] && y == (b + y)[|a|..];
  }
}
