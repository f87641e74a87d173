/**
 * Percent-decoding as Python's urllib.parse.unquote does it (with the
 * default UTF-8 encoding and the "replace" error handler): each maximal run
 * of ASCII characters is turned into octets, "%" followed by two hex digits
 * giving one octet (section 2.1 of RFC 3986), the octets are decoded as
 * UTF-8 with every maximal ill-formed subpart replaced by U+FFFD, and
 * non-ASCII characters are kept as they are.
 */
module Percent {
  newtype byte = x: int | 0 <= x < 256

  const REPLACEMENT: char := '\U{FFFD}'

  predicate IsAscii(c: char) { c as int < 0x80 }

  predicate IsHex(c: char) {
    '0' <= c <= '9' || 'a' <= c <= 'f' || 'A' <= c <= 'F'
  }

  function HexValue(c: char): (v: nat)
    requires IsHex(c)
    ensures v < 16
  {
    if '0' <= c <= '9' then c as int - '0' as int
    else if 'a' <= c <= 'f' then c as int - 'a' as int + 10
    else c as int - 'A' as int + 10
  }

  /** Upper-case hex digit, as Python's quote writes it. */
  function HexChar(v: nat): (c: char)
    requires v < 16
    ensures IsHex(c) && HexValue(c) == v
  {
    if v < 10 then ('0' as int + v) as char else ('A' as int + v - 10) as char
  }

  // ---------------------------------------------------------------------
  // Percent escapes to octets
  // ---------------------------------------------------------------------

  /** Octets of an ASCII run: an escape gives its octet, anything else
      (a lone "%" included) gives its own code. */
  function PercentBytes(a: string): (r: seq<byte>)
    requires forall i :: 0 <= i < |a| ==> IsAscii(a[i])
    ensures |r| <= |a|
    decreases |a|
  {
    if a == [] then []
    else if a[0] == '%' && |a| >= 3 && IsHex(a[1]) && IsHex(a[2]) then
      [(HexValue(a[1]) * 16 + HexValue(a[2])) as byte] + PercentBytes(a[3..])
    else
      assert IsAscii(a[0]);
      [a[0] as int as byte] + PercentBytes(a[1..])
  }

  // ---------------------------------------------------------------------
  // UTF-8 decoding with replacement
  // ---------------------------------------------------------------------

  /** Sequence length announced by a lead octet; 0 for an octet that
      cannot start a sequence. */
  function Width(b: byte): nat {
    if b < 0x80 then 1
    else if 0xC2 <= b <= 0xDF then 2
    else if 0xE0 <= b <= 0xEF then 3
    else if 0xF0 <= b <= 0xF4 then 4
    else 0
  }

  /** Allowed range of the second octet, which excludes overlong forms,
      surrogates and code points past U+10FFFF. */
  function SecondLo(b: byte): byte {
    if b == 0xE0 then 0xA0 else if b == 0xF0 then 0x90 else 0x80
  }

  function SecondHi(b: byte): byte {
    if b == 0xED then 0x9F else if b == 0xF4 then 0x8F else 0xBF
  }

  predicate ContinuationAt(bs: seq<byte>, i: nat)
    requires bs != []
  {
    i < |bs| && (if i == 1 then SecondLo(bs[0]) <= bs[1] <= SecondHi(bs[0]) else 0x80 <= bs[i] <= 0xBF)
  }

  /** How many continuation octets after the lead are well formed (at most
      Width - 1). */
  function GoodTail(bs: seq<byte>): (k: nat)
    requires bs != [] && Width(bs[0]) >= 2
    ensures k < Width(bs[0]) && k < |bs|
  {
    var w := Width(bs[0]);
    if !ContinuationAt(bs, 1) then 0
    else if w == 2 || !ContinuationAt(bs, 2) then 1
    else if w == 3 || !ContinuationAt(bs, 3) then 2
    else 3
  }

  function CodePoint(bs: seq<byte>): (cp: int)
    requires bs != [] && Width(bs[0]) >= 2 && GoodTail(bs) == Width(bs[0]) - 1
    ensures 0x80 <= cp < 0xD800 || 0xE000 <= cp < 0x11_0000
  {
    var w := Width(bs[0]);
    if w == 2 then (bs[0] as int - 0xC0) * 64 + (bs[1] as int - 0x80)
    else if w == 3 then (bs[0] as int - 0xE0) * 4096 + (bs[1] as int - 0x80) * 64 + (bs[2] as int - 0x80)
    else (bs[0] as int - 0xF0) * 262144 + (bs[1] as int - 0x80) * 4096 + (bs[2] as int - 0x80) * 64 + (bs[3] as int - 0x80)
  }

  /** The first decoded character and the number of octets it used. */
  function Step(bs: seq<byte>): (r: (char, nat))
    requires bs != []
    ensures 1 <= r.1 <= |bs|
    ensures bs[0] < 0x80 ==> r == (bs[0] as int as char, 1)
  {
    var w := Width(bs[0]);
    if w == 1 then (bs[0] as int as char, 1)
    else if w == 0 then (REPLACEMENT, 1)
    else if GoodTail(bs) == w - 1 then (CodePoint(bs) as char, w)
    else (REPLACEMENT, GoodTail(bs) + 1)
  }

  /** Each decoded character consumes at least one octet. */
  function Utf8Decode(bs: seq<byte>): (r: string)
    ensures |r| <= |bs|
    decreases |bs|
  {
    if bs == [] then [] else [Step(bs).0] + Utf8Decode(bs[Step(bs).1..])
  }

  // ---------------------------------------------------------------------
  // unquote
  // ---------------------------------------------------------------------

  function AsciiRun(s: string): (n: nat)
    ensures n <= |s|
    ensures forall i :: 0 <= i < n ==> IsAscii(s[i])
    ensures n < |s| ==> !IsAscii(s[n])
  {
    if s == [] || !IsAscii(s[0]) then 0 else 1 + AsciiRun(s[1..])
  }

  function DecodeRuns(s: string): (r: string)
    ensures |r| <= |s|
    decreases |s|
  {
    if s == [] then []
    else if !IsAscii(s[0]) then [s[0]] + DecodeRuns(s[1..])
    else
      var n := AsciiRun(s);
      Utf8Decode(PercentBytes(s[..n])) + DecodeRuns(s[n..])
  }

  /** urllib.parse.unquote: a string without "%" is returned as it is, and
      decoding never lengthens the text. */
  function Unquote(s: string): (r: string)
    ensures '%' !in s ==> r == s
    ensures |r| <= |s|
  {
    if '%' !in s then s else DecodeRuns(s)
  }

  // ---------------------------------------------------------------------
  // Percent-encoding, the partner of Unquote
  // ---------------------------------------------------------------------

  /** The UTF-8 octets of one character. */
  function EncodeChar(c: char): (r: seq<byte>)
    ensures 1 <= |r| <= 4
  {
    var cp := c as int;
    if cp < 0x80 then [cp as byte]
    else if cp < 0x800 then [(0xC0 + cp / 64) as byte, (0x80 + cp % 64) as byte]
    else if cp < 0x1_0000 then
      [(0xE0 + cp / 4096) as byte, (0x80 + cp / 64 % 64) as byte, (0x80 + cp % 64) as byte]
    else
      [(0xF0 + cp / 262144) as byte, (0x80 + cp / 4096 % 64) as byte,
       (0x80 + cp / 64 % 64) as byte, (0x80 + cp % 64) as byte]
  }

  function Utf8Encode(s: string): seq<byte> {
    if s == [] then [] else EncodeChar(s[0]) + Utf8Encode(s[1..])
  }

  function Escape(b: byte): string {
    ['%', HexChar(b as int / 16), HexChar(b as int % 16)]
  }

  /** The escapes use only "%" and the upper-case hex digits. */
  predicate EscapeChar(c: char) {
    c == '%' || '0' <= c <= '9' || 'A' <= c <= 'F'
  }

  function EscapeAll(bs: seq<byte>): (r: string)
    ensures |r| == 3 * |bs|
    ensures forall i :: 0 <= i < |r| ==> IsAscii(r[i]) && EscapeChar(r[i])
    ensures |bs| > 0 ==> r[0] == '%'
  {
    if bs == [] then [] else Escape(bs[0]) + EscapeAll(bs[1..])
  }

  /** Every octet of the UTF-8 form written as an escape. */
  function PercentEncode(s: string): string {
    EscapeAll(Utf8Encode(s))
  }

  lemma {:induction false} EscapedBytes(bs: seq<byte>)
    ensures PercentBytes(EscapeAll(bs)) == bs
    decreases |bs|
  {
    if bs != [] {
      var e := EscapeAll(bs);
      assert e == Escape(bs[0]) + EscapeAll(bs[1..]);
      assert e[3..] == EscapeAll(bs[1..]);
      EscapedBytes(bs[1..]);
    }
  }

  lemma {:induction false} StepTwo(c: char, rest: seq<byte>)
    requires 0x80 <= c as int < 0x800
    ensures Step(EncodeChar(c) + rest) == (c, 2)
  {
    var cp := c as int;
    var bs := EncodeChar(c) + rest;
    assert bs[0] as int == 0xC0 + cp / 64 && bs[1] as int == 0x80 + cp % 64;
    assert Width(bs[0]) == 2 && GoodTail(bs) == 1;
    assert cp == cp / 64 * 64 + cp % 64;
  }

  lemma {:induction false} StepThree(c: char, rest: seq<byte>)
    requires 0x800 <= c as int < 0x1_0000
    ensures Step(EncodeChar(c) + rest) == (c, 3)
  {
    var cp := c as int;
    var bs := EncodeChar(c) + rest;
    var a, b, d := cp / 4096, cp / 64 % 64, cp % 64;
    assert cp / 64 == a * 64 + b;
    assert cp == cp / 64 * 64 + d;
    assert bs[0] as int == 0xE0 + a && bs[1] as int == 0x80 + b && bs[2] as int == 0x80 + d;
    assert a < 16;
    assert a == 0 ==> b >= 32;
    assert a == 13 ==> b < 32;
    assert Width(bs[0]) == 3 && GoodTail(bs) == 2;
    assert CodePoint(bs) == a * 4096 + b * 64 + d;
  }

  lemma {:induction false} StepFour(c: char, rest: seq<byte>)
    requires 0x1_0000 <= c as int
    ensures Step(EncodeChar(c) + rest) == (c, 4)
  {
    var cp := c as int;
    var bs := EncodeChar(c) + rest;
    var a, b, e, d := cp / 262144, cp / 4096 % 64, cp / 64 % 64, cp % 64;
    assert cp / 4096 == a * 64 + b;
    assert cp / 64 == cp / 4096 * 64 + e;
    assert cp == cp / 64 * 64 + d;
    assert bs[0] as int == 0xF0 + a && bs[1] as int == 0x80 + b;
    assert bs[2] as int == 0x80 + e && bs[3] as int == 0x80 + d;
    assert a <= 4;
    assert a == 0 ==> b >= 16;
    assert a == 4 ==> b < 16;
    assert Width(bs[0]) == 4 && GoodTail(bs) == 3;
    assert CodePoint(bs) == a * 262144 + b * 4096 + e * 64 + d;
  }

  /** Decoding one character's octets gives the character back. */
  lemma DecodeChar(c: char, rest: seq<byte>)
    ensures Utf8Decode(EncodeChar(c) + rest) == [c] + Utf8Decode(rest)
  {
    var bs := EncodeChar(c) + rest;
    var cp := c as int;
    if cp < 0x80 {
      assert Step(bs) == (c, 1);
    } else if cp < 0x800 {
      StepTwo(c, rest);
    } else if cp < 0x1_0000 {
      StepThree(c, rest);
    } else {
      StepFour(c, rest);
    }
    assert bs[|EncodeChar(c)|..] == rest;
  }

  lemma {:induction false} DecodeEncoded(s: string)
    ensures Utf8Decode(Utf8Encode(s)) == s
    decreases |s|
  {
    if s != [] {
      DecodeChar(s[0], Utf8Encode(s[1..]));
      DecodeEncoded(s[1..]);
    }
  }

  /** Unquote undoes percent-encoding: every string comes back. */
  lemma UnquoteEncoded(s: string)
    ensures Unquote(PercentEncode(s)) == s
  {
    var e := PercentEncode(s);
    var bs := Utf8Encode(s);
    if s == [] {
      assert e == [];
    } else {
      assert |EncodeChar(s[0])| >= 1;
      assert |bs| >= 1;
      assert e[0] == '%';
      assert AsciiRun(e) == |e| by {
        AllAsciiRun(e);
      }
      assert e[..|e|] == e;
      assert e[|e|..] == [];
      assert e[0] in e;
      assert Unquote(e) == DecodeRuns(e);
      assert DecodeRuns(e) == Utf8Decode(PercentBytes(e)) + DecodeRuns([]);
      EscapedBytes(bs);
      DecodeEncoded(s);
    }
  }

  lemma {:induction false} AllAsciiRun(s: string)
    requires forall i :: 0 <= i < |s| ==> IsAscii(s[i])
    ensures AsciiRun(s) == |s|
    decreases |s|
  {
    if s != [] {
      AllAsciiRun(s[1..]);
    }
  }
}
