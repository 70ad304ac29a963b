/** The UTF-8 check of lua-bson.c: utf8_copy. */
module Utf8 {
  import opened Common

  /** The UTF-8 encoding of a code point. */
  function Char(cp: nat): (b: bytes)
    requires cp <= 0x10FFFF
    ensures 1 <= |b| <= 4
  {
    if cp < 0x80 then [cp]
    else if cp < 0x800 then [0xC0 + cp / 64, 0x80 + cp % 64]
    else if cp < 0x10000 then [0xE0 + cp / 4096, 0x80 + cp / 64 % 64, 0x80 + cp % 64]
    else [0xF0 + cp / 262144, 0x80 + cp / 4096 % 64, 0x80 + cp / 64 % 64, 0x80 + cp % 64]
  }

  /** The first and the last code points of each length. */
  lemma CharLimits()
    ensures Char(0) == [0] && Char(0x7F) == [0x7F]
    ensures Char(0x80) == [0xC2, 0x80] && Char(0x7FF) == [0xDF, 0xBF]
    ensures Char(0x800) == [0xE0, 0xA0, 0x80] && Char(0xFFFF) == [0xEF, 0xBF, 0xBF]
    ensures Char(0x1_0000) == [0xF0, 0x90, 0x80, 0x80] && Char(0x10_FFFF) == [0xF4, 0x8F, 0xBF, 0xBF]
  {
  }

  /** `s` starts with the encoding of `cp`. */
  predicate Starts(s: bytes, cp: nat) { cp <= 0x10FFFF && Char(cp) <= s }

  /** `s` is a sequence of encoded code points. Surrogates are let through. */
  ghost predicate ValidUtf8(s: bytes)
    decreases |s|
  {
    s == [] || exists cp: nat :: Starts(s, cp) && ValidUtf8(s[|Char(cp)|..])
  }

  /** The code point whose encoding these bytes are, going by the number of its continuation bytes. */
  function Point(s: bytes, count: nat): int
    requires count < 4 && count < |s|
  {
    if count == 0 then s[0]
    else if count == 1 then (s[0] as int - 0xC0) * 64 + s[1] as int % 64
    else if count == 2 then (s[0] as int - 0xE0) * 4096 + s[1] as int % 64 * 64 + s[2] as int % 64
    else (s[0] as int - 0xF0) * 262144 + s[1] as int % 64 * 4096 + s[2] as int % 64 * 64 + s[3] as int % 64
  }

  predicate Continues(s: bytes, count: nat)
    requires count < |s|
  {
    forall j :: 1 <= j <= count ==> s[j] / 64 == 2
  }

  /** The first byte of a character with this many continuation bytes is at least Lead(count) and below
      Lead(count + 1). */
  function Lead(count: nat): nat {
    match count case 0 => 0x80 case 1 => 0xC0 case 2 => 0xE0 case 3 => 0xF0
    case 4 => 0xF8 case 5 => 0xFC case 6 => 0xFE case 7 => 0xFF case _ => 0x100
  }

  function Shortest(count: nat): nat {
    match count case 1 => 0x80 case 2 => 0x800 case _ => 0x10000
  }

  /** What a longer character looks like, in both directions. */
  lemma LongChar(s: bytes, count: nat)
    requires 1 <= count <= 3 && count < |s| && Continues(s, count) && Lead(count) <= s[0] < Lead(count + 1)
    ensures Point(s, count) >= 0
    ensures Shortest(count) <= Point(s, count) <= 0x10FFFF ==>
      Starts(s, Point(s, count)) && |Char(Point(s, count))| == count + 1
  {
    var cp := Point(s, count);
    var b: byte := s[1];
    assert s[1] / 64 == 2 && s[1] == 0x80 + s[1] % 64;
    if count == 1 {
      Digits1(s[0] - 0xC0, s[1] % 64);
      if 0x80 <= cp { assert s[..2] == Char(cp); }
    } else if count == 2 {
      assert s[2] / 64 == 2 && s[2] == 0x80 + s[2] % 64;
      Digits2(s[0] - 0xE0, s[1] % 64, s[2] % 64);
      if 0x800 <= cp { assert s[..3] == Char(cp); }
    } else {
      assert s[2] / 64 == 2 && s[2] == 0x80 + s[2] % 64;
      assert s[3] / 64 == 2 && s[3] == 0x80 + s[3] % 64;
      Digits3(s[0] - 0xF0, s[1] % 64, s[2] % 64, s[3] % 64);
      if 0x10000 <= cp <= 0x10FFFF { assert s[..4] == Char(cp); }
    }
  }

  lemma Digits1(a: nat, b: nat)
    requires a < 32 && b < 64
    ensures var n := a * 64 + b; n < 0x800 && n / 64 == a && n % 64 == b
  {
  }

  lemma Digits2(a: nat, b: nat, c: nat)
    requires a < 16 && b < 64 && c < 64
    ensures var n := a * 4096 + b * 64 + c; n < 0x10000 && n / 4096 == a && n / 64 % 64 == b && n % 64 == c
  {
    assert (a * 4096 + b * 64 + c) / 64 == a * 64 + b;
  }

  lemma Digits3(a: nat, b: nat, c: nat, d: nat)
    requires a < 8 && b < 64 && c < 64 && d < 64
    ensures var n := a * 262144 + b * 4096 + c * 64 + d;
      n / 262144 == a && n / 4096 % 64 == b && n / 64 % 64 == c && n % 64 == d
  {
    var n := a * 262144 + b * 4096 + c * 64 + d;
    assert n / 64 == a * 4096 + b * 64 + c;
    assert n / 4096 == a * 64 + b;
  }

  /** The bytes of a character tell its length and its code point. */
  lemma CharShape(s: bytes, cp: nat)
    requires Starts(s, cp)
    ensures var count := |Char(cp)| - 1;
      && count < 4 && count < |s| && Point(s, count) == cp && Continues(s, count)
      && (count == 0 ==> s[0] < 0x80)
      && (count > 0 ==> Lead(count) <= s[0] < Lead(count + 1) && Shortest(count) <= cp)
  {
    var b := Char(cp);
    assert s[..|b|] == b;
    assert forall k :: 0 <= k < |b| ==> s[k] == s[..|b|][k];
    Tail(cp % 64);
    Tail(cp / 64 % 64);
    Tail(cp / 4096 % 64);
    Split(cp);
  }

  lemma Tail(x: nat)
    requires x < 64
    ensures (0x80 + x) / 64 == 2 && (0x80 + x) % 64 == x
  {
  }

  lemma Split(cp: nat)
    ensures cp == cp / 64 * 64 + cp % 64
    ensures cp == cp / 4096 * 4096 + cp / 64 % 64 * 64 + cp % 64
    ensures cp == cp / 262144 * 262144 + cp / 4096 % 64 * 4096 + cp / 64 % 64 * 64 + cp % 64
    ensures cp < 0x800 ==> cp / 64 < 0x20
    ensures cp < 0x10000 ==> cp / 4096 < 0x10
    ensures cp <= 0x10FFFF ==> cp / 262144 < 8
  {
    assert cp / 4096 == cp / 64 / 64;
    assert cp / 262144 == cp / 64 / 64 / 64;
  }

  /** No two characters start the same bytes. */
  lemma OneChar(s: bytes, a: nat, b: nat)
    requires Starts(s, a) && Starts(s, b)
    ensures a == b
  {
    hide Char, Point, Continues;
    CharShape(s, a);
    CharShape(s, b);
  }

  lemma AsciiChar(s: bytes)
    requires s != [] && s[0] < 0x80
    ensures Starts(s, s[0]) && |Char(s[0])| == 1
  {
    assert s[..1] == Char(s[0]);
  }

  /** Whether more continuation bytes are announced: bit 6 after `count` shifts. */
  lemma LeadBit(s0: nat, count: nat)
    requires Lead(count) <= s0 < 256 && count <= 7
    ensures (s0 * Pow2(count)) / 64 % 2 == 1 <==> count < 7 && Lead(count + 1) <= s0
  {
    assert Pow2(0) == 1 && Pow2(1) == 2 && Pow2(2) == 4 && Pow2(3) == 8 && Pow2(4) == 16 && Pow2(5) == 32;
    assert Pow2(6) == 64 && Pow2(7) == 128;
  }

  function Pow2(n: nat): nat { if n == 0 then 1 else 2 * Pow2(n - 1) }

  /** The payload bits of the first byte end up above those of the others. */
  lemma HighBits(s0: nat, count: nat)
    requires 1 <= count <= 3 && Lead(count) <= s0 < Lead(count + 1)
    ensures s0 * Pow2(count) % 128 * Pow2(count * 5) == match count case 1 => (s0 - 0xC0) * 64 case 2 => (s0 - 0xE0) * 4096 case _ => (s0 - 0xF0) * 262144
  {
    assert Pow2(1) == 2 && Pow2(2) == 4 && Pow2(3) == 8 && Pow2(4) == 16 && Pow2(5) == 32;
    assert Pow2(10) == 1024 by { assert Pow2(10) == 32 * Pow2(5); }
    assert Pow2(15) == 32768 by { assert Pow2(15) == 32 * Pow2(10); }
    hide Pow2;
    match count {
      case 1 => ModUnique(s0 * 2, 128, 3, s0 * 2 - 384);
      case 2 => ModUnique(s0 * 4, 128, 7, s0 * 4 - 896);
      case _ => ModUnique(s0 * 8, 128, 15, s0 * 8 - 1920);
    }
  }

  function Res(s: bytes, count: nat): nat
    requires count < |s|
  {
    if count == 0 then 0 else Res(s, count - 1) * 64 + s[count] % 64
  }

  lemma PointIs(s: bytes, count: nat)
    requires 1 <= count <= 3 && count < |s| && Lead(count) <= s[0] < Lead(count + 1)
    ensures Res(s, count) + s[0] * Pow2(count) % 128 * Pow2(count * 5) == Point(s, count)
  {
    HighBits(s[0], count);
    assert Res(s, 1) == s[1] % 64;
    if count >= 2 { assert Res(s, 2) == Res(s, 1) * 64 + s[2] % 64; }
    if count == 3 { assert Res(s, 3) == Res(s, 2) * 64 + s[3] % 64; }
  }

  /** utf8_copy: the length of the first character, copied to `d` from index `at` on, or 0. The limit is
      the number of bytes left. Bit masks and shifts are written as remainders and multiples; the bits
      that are or-ed into `res` do not overlap as long as there are at most 3 continuation bytes. */
  method Utf8Copy(s: bytes, d: array<byte>, at: nat) returns (r: nat)
    requires s != [] && at + |s| <= d.Length
    modifies d
    ensures r > 0 <==> exists cp: nat :: Starts(s, cp)
    ensures r > 0 ==> r <= |s| && d[at..at + r] == s[..r] && exists cp: nat :: Starts(s, cp) && |Char(cp)| == r
    ensures d[..at] == old(d[..at])
  {
    hide Char, Starts, Point, Lead, Pow2;
    var c: nat := s[0];
    d[at] := s[0];
    if c < 0x80 {
      AsciiChar(s);
      return 1;
    }
    var count, res := 0, 0;
    assert Pow2(0) == 1 && Lead(0) == 0x80 by { Smallest(); }
    while c / 64 % 2 == 1
      invariant count <= 7 && count < |s| && c == s[0] * Pow2(count) && Lead(count) <= s[0]
      invariant Continues(s, count) && res == Res(s, count)
      invariant d[..at] == old(d[..at]) && d[at..at + count + 1] == s[..count + 1]
      decreases 7 - count
      modifies d
    {
      LeadBit(s[0], count);
      Doubled(s[0], count);
      count := count + 1;
      if |s| <= count || s[count] / 64 != 2 {
        NoChar(s, count);
        return 0;
      }
      d[at + count] := s[count];
      assert d[at..at + count + 1] == d[at..at + count] + [s[count]];
      res := res * 64 + s[count] % 64;
      c := c * 2;
    }
    LeadBit(s[0], count);
    if count > 3 {
      Decided(s, count);
      return 0;
    }
    Decided(s, count);
    if count > 0 { PointIs(s, count); }
    res := res + c % 128 * Pow2(count * 5);
    if res > 0x10FFFF || res <= (match count case 0 => 0xFF case 1 => 0x7F case 2 => 0x7FF case _ => 0xFFFF) {
      return 0;
    }
    return count + 1;
  }

  lemma Smallest()
    ensures Pow2(0) == 1 && Lead(0) == 0x80
  {
  }

  lemma Doubled(s0: nat, count: nat)
    ensures s0 * Pow2(count) * 2 == s0 * Pow2(count + 1)
  {
  }

  /** A continuation byte that was announced is missing. */
  lemma NoChar(s: bytes, count: nat)
    requires s != [] && 1 <= count <= 7 && Lead(count) <= s[0] && (|s| <= count || s[count] / 64 != 2)
    ensures forall cp: nat :: !Starts(s, cp)
  {
    forall cp: nat | Starts(s, cp) ensures false {
      CharShape(s, cp);
    }
  }

  /** All announced continuation bytes are there. */
  lemma Decided(s: bytes, count: nat)
    requires count < |s| && count <= 7 && Lead(count) <= s[0] && (count < 7 ==> s[0] < Lead(count + 1)) && Continues(s, count)
    ensures count == 0 || count > 3 ==> forall cp: nat :: !Starts(s, cp)
    ensures 1 <= count <= 3 ==>
      if Shortest(count) <= Point(s, count) <= 0x10FFFF
      then Starts(s, Point(s, count)) && |Char(Point(s, count))| == count + 1
      else forall cp: nat :: !Starts(s, cp)
  {
    hide Char, Continues, Point;
    forall cp: nat | Starts(s, cp)
      ensures 1 <= count && |Char(cp)| - 1 == count && count < 4 && Point(s, count) == cp && Shortest(count) <= cp <= 0x10FFFF
    {
      CharShape(s, cp);
      AtMost(s, cp);
    }
    if 1 <= count <= 3 {
      LongChar(s, count);
    }
  }

  lemma AtMost(s: bytes, cp: nat)
    requires Starts(s, cp)
    ensures cp <= 0x10FFFF
  {
  }

  /** Any character that starts a valid string leaves a valid string. */
  lemma Utf8Step(s: bytes, cp: nat)
    requires Starts(s, cp)
    ensures ValidUtf8(s) <==> ValidUtf8(s[|Char(cp)|..])
  {
    if ValidUtf8(s) {
      assert s != [];
      var other: nat :| Starts(s, other) && ValidUtf8(s[|Char(other)|..]);
      OneChar(s, cp, other);
    }
  }

  lemma NotUtf8(s: bytes)
    requires s != [] && forall cp: nat :: !Starts(s, cp)
    ensures !ValidUtf8(s)
  {
  }

  /** Every code point up to 0x10FFFF is valid by itself, those of the surrogates too; one more is too much, and so
      is a byte more than is needed. */
  lemma Bounds(cp: nat)
    ensures cp <= 0x10_FFFF ==> ValidUtf8(Char(cp))
    ensures !ValidUtf8([0xF4, 0x90, 0x80, 0x80]) && !ValidUtf8([0xC0, 0x80]) && !ValidUtf8([0x80])
  {
    if cp <= 0x10_FFFF {
      assert Starts(Char(cp), cp) && Char(cp)[|Char(cp)|..] == [];
    }
    forall n: nat ensures !Starts([0xF4, 0x90, 0x80, 0x80], n) && !Starts([0xC0, 0x80], n) && !Starts([0x80], n) {
      if n <= 0x10_FFFF {
        NoStart(n);
      }
    }
    NotUtf8([0xF4, 0x90, 0x80, 0x80]);
    NotUtf8([0xC0, 0x80]);
    NotUtf8([0x80]);
  }

  lemma NoStart(n: nat)
    requires n <= 0x10_FFFF
    ensures !(Char(n) <= [0xF4, 0x90, 0x80, 0x80]) && !(Char(n) <= [0xC0, 0x80]) && !(Char(n) <= [0x80])
  {
    var b := Char(n);
    assert b[0] != 0x80;
    assert b[0] == 0xC0 ==> n < 64;
    if b[0] == 0xF4 {
      assert b[1] == 0x80 + n / 4096 % 64 && n / 262144 == 4;
      FourthPlane(n);
    }
  }

  lemma FourthPlane(n: nat)
    requires n <= 0x10_FFFF && n / 262144 == 4
    ensures n / 4096 % 64 < 16
  {
    assert n / 4096 < 272 && n / 4096 >= 256;
  }

  lemma {:induction false} AsciiIsUtf8(s: bytes)
    requires forall i :: 0 <= i < |s| ==> s[i] < 0x80
    ensures ValidUtf8(s)
  {
    if s != [] {
      AsciiChar(s);
      AsciiIsUtf8(s[1..]);
      Utf8Step(s, s[0]);
    }
  }
}
