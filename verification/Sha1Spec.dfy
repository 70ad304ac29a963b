/** The hash as FIPS 180-4 defines it: functions and constants (sections 4.1.1 and 4.2.1), padding
    (5.1.1), initial value (5.3.1) and the 80-step compression (6.1.2). */
module Sha1Spec {
  import opened Common

  type Octets = seq<bv8>
  type Block = b: Octets | |b| == 64 witness seq(64, _ => 0)

  datatype Regs = Regs(a: bv32, b: bv32, c: bv32, d: bv32, e: bv32)

  const INITIAL := Regs(0x67452301, 0xEFCDAB89, 0x98BADCFE, 0x10325476, 0xC3D2E1F0)

  /** Addition modulo 2^32. */
  function Add(x: bv32, y: bv32): bv32 { x + y }

  function Add5(u: bv32, v: bv32, w: bv32, x: bv32, y: bv32): bv32 { u + v + w + x + y }

  function Rotl1(x: bv32): bv32 { x.RotateLeft(1) }

  function Rotl5(x: bv32): bv32 { x.RotateLeft(5) }

  function Rotl30(x: bv32): bv32 { x.RotateLeft(30) }

  function Ch(x: bv32, y: bv32, z: bv32): bv32 { (x & y) ^ (!x & z) }

  function Parity(x: bv32, y: bv32, z: bv32): bv32 { x ^ y ^ z }

  function Maj(x: bv32, y: bv32, z: bv32): bv32 { (x & y) ^ (x & z) ^ (y & z) }

  function F(t: nat, x: bv32, y: bv32, z: bv32): bv32 {
    if t < 20 then Ch(x, y, z) else if t < 40 then Parity(x, y, z) else if t < 60 then Maj(x, y, z) else Parity(x, y, z)
  }

  function K(t: nat): bv32 {
    if t < 20 then 0x5a827999 else if t < 40 then 0x6ed9eba1 else if t < 60 then 0x8f1bbcdc else 0xca62c1d6
  }

  /** The i-th big-endian word of a block. */
  function BigEndian(b: Block, i: nat): bv32
    requires i < 16
  {
    (b[4 * i] as bv32 << 24) | (b[4 * i + 1] as bv32 << 16) | (b[4 * i + 2] as bv32 << 8) | b[4 * i + 3] as bv32
  }

  /** The message schedule. */
  function W(b: Block, t: nat): bv32 {
    if t < 16 then BigEndian(b, t)
    else Rotl1(W(b, t - 3) ^ W(b, t - 8) ^ W(b, t - 14) ^ W(b, t - 16))
  }

  function Step(r: Regs, f: bv32, k: bv32, w: bv32): Regs {
    Regs(Add5(Rotl5(r.a), f, r.e, k, w), r.a, Rotl30(r.b), r.c, r.d)
  }

  /** The working variables after `t` steps. */
  function Steps(h: Regs, b: Block, t: nat): Regs {
    if t == 0 then h
    else
      var r := Steps(h, b, t - 1);
      Step(r, F(t - 1, r.b, r.c, r.d), K(t - 1), W(b, t - 1))
  }

  function Sum(h: Regs, r: Regs): Regs {
    Regs(Add(h.a, r.a), Add(h.b, r.b), Add(h.c, r.c), Add(h.d, r.d), Add(h.e, r.e))
  }

  function Compress(h: Regs, b: Block): Regs { Sum(h, Steps(h, b, 80)) }

  // ---- the equations of the standard, with its constants

  lemma ChoiceEquation(x: bv32, y: bv32, z: bv32)
    ensures Ch(x, y, z) == (x & y) ^ (!x & z)
  {
  }

  lemma ParityEquation(x: bv32, y: bv32, z: bv32)
    ensures Parity(x, y, z) == x ^ y ^ z
  {
  }

  lemma MajorityEquation(x: bv32, y: bv32, z: bv32)
    ensures Maj(x, y, z) == (x & y) ^ (x & z) ^ (y & z)
  {
  }

  lemma RotationEquations(x: bv32)
    ensures Rotl1(x) == x.RotateLeft(1) && Rotl5(x) == x.RotateLeft(5) && Rotl30(x) == x.RotateLeft(30)
  {
  }

  lemma SumEquation(x: bv32, y: bv32)
    ensures Add(x, y) == x + y
  {
  }

  lemma Constants(t: nat)
    ensures INITIAL == Regs(0x67452301, 0xEFCDAB89, 0x98BADCFE, 0x10325476, 0xC3D2E1F0)
    ensures t < 20 ==> K(t) == 0x5a827999
    ensures 20 <= t < 40 ==> K(t) == 0x6ed9eba1
    ensures 40 <= t < 60 ==> K(t) == 0x8f1bbcdc
    ensures 60 <= t < 80 ==> K(t) == 0xca62c1d6
  {
  }

  lemma Sum5(u: bv32, v: bv32, w: bv32, x: bv32, y: bv32)
    ensures Add5(u, v, w, x, y) == u + v + w + x + y
  {
  }

  /** One step: the new `a` is the sum of five words, `b` is rotated into `c`, the others move on. */
  lemma StepEquation(h: Regs, b: Block, t: nat)
    requires t < 80
    ensures var (r, n) := (Steps(h, b, t), Steps(h, b, t + 1));
      && n.a == Add5(Rotl5(r.a),
           if t < 20 then Ch(r.b, r.c, r.d) else if 40 <= t < 60 then Maj(r.b, r.c, r.d) else Parity(r.b, r.c, r.d),
           r.e, K(t), W(b, t))
      && n.b == r.a && n.c == Rotl30(r.b) && n.d == r.c && n.e == r.d
    ensures Steps(h, b, 0) == h
  {
    hide Ch, Maj, Parity, Rotl5, Rotl30, Add5, K, W;
  }

  lemma ScheduleEquation(b: Block, t: nat)
    ensures t < 16 ==> W(b, t) == BigEndian(b, t)
    ensures 16 <= t < 80 ==> W(b, t) == Rotl1(W(b, t - 3) ^ W(b, t - 8) ^ W(b, t - 14) ^ W(b, t - 16))
  {
    hide Rotl1, BigEndian;
  }

  /** The hash of the whole blocks of `s`, from `h`. */
  function HashBlocks(h: Regs, s: Octets): Regs
    decreases |s|
  {
    if |s| < 64 then h else HashBlocks(Compress(h, s[..64]), s[64..])
  }

  lemma {:induction false} HashBlocksConcat(h: Regs, a: Octets, b: Octets)
    requires |a| % 64 == 0
    ensures HashBlocks(h, a + b) == HashBlocks(HashBlocks(h, a), b)
    decreases |a|
  {
    hide Compress;
    if a == [] {
      assert a + b == b;
    } else {
      assert (a + b)[..64] == a[..64] && (a + b)[64..] == a[64..] + b;
      HashBlocksConcat(Compress(h, a[..64]), a[64..], b);
    }
  }

  function ByteOf(w: bv32, i: nat): bv8
    requires i < 4
  {
    if i == 0 then ((w >> 24) & 0xFF) as bv8 else if i == 1 then ((w >> 16) & 0xFF) as bv8
    else if i == 2 then ((w >> 8) & 0xFF) as bv8 else (w & 0xFF) as bv8
  }

  function WordBytes(w: bv32): (b: Octets)
    ensures |b| == 4
  {
    [ByteOf(w, 0), ByteOf(w, 1), ByteOf(w, 2), ByteOf(w, 3)]
  }

  function Digest(r: Regs): (b: Octets)
    ensures |b| == 20
  {
    WordBytes(r.a) + WordBytes(r.b) + WordBytes(r.c) + WordBytes(r.d) + WordBytes(r.e)
  }

  /** The zero bytes that bring a message and its 0x80 to 56 bytes modulo 64. */
  function Zeros(n: nat): (z: Octets)
    ensures (n + 1 + |z|) % 64 == 56 && |z| < 64 && forall i :: 0 <= i < |z| ==> z[i] == 0
  {
    seq((119 - n % 64) % 64, _ => 0)
  }

  /** The 64-bit length in bits of an n-byte message, as two words. */
  function HighWord(n: nat): (w: nat)
    ensures w < 0x1_0000_0000
  {
    (8 * n) / 0x1_0000_0000 % 0x1_0000_0000
  }

  function LowWord(n: nat): (w: nat)
    ensures w < 0x1_0000_0000
  {
    (8 * n) % 0x1_0000_0000
  }

  function CountWord(n: nat): (b: Octets)
    requires n < 0x1_0000_0000
    ensures |b| == 4
  {
    [ToByte(n / 0x100_0000), ToByte(n / 0x1_0000 % 0x100), ToByte(n / 0x100 % 0x100), ToByte(n % 0x100)]
  }

  // ---- the bytes as numbers

  function Power256(k: nat): (p: nat)
    ensures p > 0
  {
    if k == 0 then 1 else 256 * Power256(k - 1)
  }

  lemma Powers()
    ensures Power256(0) == 1 && Power256(1) == 0x100 && Power256(2) == 0x1_0000 && Power256(3) == 0x100_0000
  {
    assert Power256(3) == 256 * Power256(2) && Power256(2) == 256 * Power256(1);
  }

  lemma Joined(a: bv8, b: bv8, c: bv8, d: bv8)
    ensures ((a as bv32 << 24) | (b as bv32 << 16) | (c as bv32 << 8) | d as bv32) as nat
         == a as nat * 0x100_0000 + b as nat * 0x1_0000 + c as nat * 0x100 + d as nat
  {
  }

  lemma TakenApart(w: bv32)
    ensures w == ((((w >> 24) & 0xFF) as bv8) as bv32 << 24) | ((((w >> 16) & 0xFF) as bv8) as bv32 << 16)
             | ((((w >> 8) & 0xFF) as bv8) as bv32 << 8) | ((w & 0xFF) as bv8) as bv32
  {
  }

  /** A word of a block is the number its four bytes make, the first one counting most. */
  lemma BigEndianNumber(b: Block, i: nat)
    requires i < 16
    ensures BigEndian(b, i) as nat
         == b[4 * i] as nat * 0x100_0000 + b[4 * i + 1] as nat * 0x1_0000 + b[4 * i + 2] as nat * 0x100 + b[4 * i + 3] as nat
  {
    Joined(b[4 * i], b[4 * i + 1], b[4 * i + 2], b[4 * i + 3]);
  }

  lemma WordNumber(w: bv32)
    ensures w as nat == ByteOf(w, 0) as nat * 0x100_0000 + ByteOf(w, 1) as nat * 0x1_0000
                      + ByteOf(w, 2) as nat * 0x100 + ByteOf(w, 3) as nat
  {
    TakenApart(w);
    Joined(ByteOf(w, 0), ByteOf(w, 1), ByteOf(w, 2), ByteOf(w, 3));
  }

  /** Digit `i` of a number of four digits to the base 256. */
  lemma DigitAt(n: nat, a: nat, b: nat, c: nat, d: nat, i: nat)
    requires a < 256 && b < 256 && c < 256 && d < 256 && i < 4
    requires n == a * 0x100_0000 + b * 0x1_0000 + c * 0x100 + d
    ensures (if i == 0 then a else if i == 1 then b else if i == 2 then c else d) == n / Power256(3 - i) % 256
  {
    Powers();
    hide Power256;
    if i == 0 {
      ModUnique(n, 0x100_0000, a, b * 0x1_0000 + c * 0x100 + d);
    } else if i == 1 {
      ModUnique(n, 0x1_0000, a * 256 + b, c * 0x100 + d);
      ModUnique(a * 256 + b, 256, a, b);
    } else if i == 2 {
      ModUnique(n, 0x100, a * 0x1_0000 + b * 0x100 + c, d);
      ModUnique(a * 0x1_0000 + b * 0x100 + c, 256, a * 256 + b, c);
    } else {
      ModUnique(n, 0x100, a * 0x1_0000 + b * 0x100 + c, d);
    }
  }

  function ByteValue(w: bv32, i: nat): (n: nat)
    requires i < 4
  {
    ByteOf(w, i) as nat
  }

  function WordValue(w: bv32): nat { w as nat }

  lemma WordDigits(w: bv32)
    ensures WordValue(w) == ByteValue(w, 0) * 0x100_0000 + ByteValue(w, 1) * 0x1_0000 + ByteValue(w, 2) * 0x100 + ByteValue(w, 3)
    ensures forall i: nat :: i < 4 ==> ByteValue(w, i) < 256
  {
    WordNumber(w);
  }

  lemma ByteDigit(w: bv32, i: nat)
    requires i < 4
    ensures ByteValue(w, i) == WordValue(w) / Power256(3 - i) % 256
  {
    hide ByteValue, WordValue, Power256;
    WordDigits(w);
    DigitAt(WordValue(w), ByteValue(w, 0), ByteValue(w, 1), ByteValue(w, 2), ByteValue(w, 3), i);
  }

  /** Byte `i` of a word is its digit to the base 256, the first one the highest. */
  lemma ByteNumber(w: bv32, i: nat)
    requires i < 4
    ensures ByteOf(w, i) as nat == w as nat / Power256(3 - i) % 256
  {
    hide ByteOf, Power256;
    ByteDigit(w, i);
  }

  /** `(unsigned char)n` */
  function ToByte(n: nat): (b: bv8)
    requires n < 256
    ensures b as nat == n
  {
    if n == 0 then 0 else
      Successor(ToByte(n - 1));
      ToByte(n - 1) + 1
  }

  lemma Successor(b: bv8)
    requires b as nat < 255
    ensures (b + 1) as nat == b as nat + 1
  {
  }

  lemma CountNumber(n: nat, i: nat)
    requires n < 0x1_0000_0000 && i < 4
    ensures CountWord(n)[i] as nat == n / Power256(3 - i) % 256
  {
    Powers();
    hide ToByte;
  }

  function WordOf(r: Regs, q: nat): bv32 {
    if q == 0 then r.a else if q == 1 then r.b else if q == 2 then r.c else if q == 3 then r.d else r.e
  }

  lemma DigestAt(r: Regs, q: nat, k: nat)
    requires q < 5 && k < 4
    ensures Digest(r)[4 * q + k] == ByteOf(WordOf(r, q), k)
  {
    hide ByteOf, WordBytes;
    WordBytesAt(WordOf(r, q), k);
    Fifth(WordBytes(r.a), WordBytes(r.b), WordBytes(r.c), WordBytes(r.d), WordBytes(r.e), q, k);
  }

  lemma WordBytesAt(w: bv32, k: nat)
    requires k < 4
    ensures WordBytes(w)[k] == ByteOf(w, k)
  {
    hide ByteOf;
  }

  lemma Fifth(a: Octets, b: Octets, c: Octets, d: Octets, e: Octets, q: nat, k: nat)
    requires |a| == |b| == |c| == |d| == |e| == 4 && q < 5 && k < 4
    ensures (a + b + c + d + e)[4 * q + k] == (if q == 0 then a else if q == 1 then b else if q == 2 then c else if q == 3 then d else e)[k]
  {
  }

  /** Byte `i` of a digest, as a number. */
  lemma DigestNumber(r: Regs, i: nat)
    requires i < 20
    ensures Digest(r)[i] as nat == WordOf(r, i / 4) as nat / Power256(3 - i % 4) % 256
  {
    hide ByteOf, Power256, Digest, WordOf;
    DigestAt(r, i / 4, i % 4);
    ByteNumber(WordOf(r, i / 4), i % 4);
  }

  lemma LengthOf(n: nat)
    requires n % 64 == 56
    ensures (n + 8) % 64 == 0
  {
  }

  /** The padded message, with the given length field. */
  function PaddedWith(m: Octets, high: nat, low: nat): (p: Octets)
    requires high < 0x1_0000_0000 && low < 0x1_0000_0000
    ensures |p| % 64 == 0
  {
    hide CountWord;
    var z := Zeros(|m|);
    LengthOf(|m| + 1 + |z|);
    m + [0x80] + z + (CountWord(high) + CountWord(low))
  }

  /** The hash of a message of less than 2^61 bytes. */
  function Hash(m: Octets): (d: Octets)
    ensures |d| == 20
  {
    Digest(HashBlocks(INITIAL, PaddedWith(m, HighWord(|m|), LowWord(|m|))))
  }

  /** The padded message: the message, 0x80, the fewest zeros, and eight bytes of length. */
  lemma PaddingEquation(m: Octets, high: nat, low: nat)
    requires high < 0x1_0000_0000 && low < 0x1_0000_0000
    ensures var p, n := PaddedWith(m, high, low), |m|;
      && |p| % 64 == 0 && n + 9 <= |p| < n + 9 + 64
      && p[..n] == m && p[n] == 0x80 && (forall i :: n < i < |p| - 8 ==> p[i] == 0)
      && p[|p| - 8..|p| - 4] == CountWord(high) && p[|p| - 4..] == CountWord(low)
  {
    hide CountWord;
    var p, n, z := PaddedWith(m, high, low), |m|, Zeros(|m|);
    assert |p| == n + 1 + |z| + 8;
    assert p[..n] == m;
    assert p[|p| - 8..] == CountWord(high) + CountWord(low);
    assert p[|p| - 8..|p| - 4] == p[|p| - 8..][..4] && p[|p| - 4..] == p[|p| - 8..][4..];
    forall i | n < i < |p| - 8 ensures p[i] == 0 { assert p[i] == z[i - n - 1]; }
  }

  /** Block after block from the initial value, and the length in bits. */
  lemma HashEquation(m: Octets, h: Regs, b: Block, rest: Octets)
    ensures HashBlocks(h, b + rest) == HashBlocks(Compress(h, b), rest) && HashBlocks(h, []) == h
    ensures HighWord(|m|) * 0x1_0000_0000 + LowWord(|m|) == 8 * |m| % 0x1_0000_0000_0000_0000
    ensures Hash(m) == Digest(HashBlocks(INITIAL, PaddedWith(m, HighWord(|m|), LowWord(|m|))))
  {
    hide Compress, PaddedWith, Digest;
    assert (b + rest)[..64] == b && (b + rest)[64..] == rest;
    TwoWords(8 * |m|);
  }

  lemma TwoWords(n: nat)
    ensures n / 0x1_0000_0000 % 0x1_0000_0000 * 0x1_0000_0000 + n % 0x1_0000_0000 == n % 0x1_0000_0000_0000_0000
  {
    var a, b := n / 0x1_0000_0000, n % 0x1_0000_0000;
    ModUnique(n, 0x1_0000_0000_0000_0000, a / 0x1_0000_0000, a % 0x1_0000_0000 * 0x1_0000_0000 + b);
  }

  lemma CompressEquation(h: Regs, b: Block)
    ensures var (r, c) := (Steps(h, b, 80), Compress(h, b));
      c == Regs(Add(h.a, r.a), Add(h.b, r.b), Add(h.c, r.c), Add(h.d, r.d), Add(h.e, r.e))
  {
    hide Steps, Add;
  }
}
