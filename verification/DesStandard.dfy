/** The cipher of lua-crypt.c in the terms of FIPS PUB 46-3: bit order, initial permutation, rounds, the
    boxes of a round, padding and the order of blocks and keys. */
module DesStandard {
  import opened Common
  import opened Des

  // ---- bytes and halves

  lemma JoinedBytes(a: bv8, b: bv8, c: bv8, d: bv8)
    ensures ((a as bv32 << 24) | (b as bv32 << 16) | (c as bv32 << 8) | d as bv32) as nat
         == a as nat * 0x100_0000 + b as nat * 0x1_0000 + c as nat * 0x100 + d as nat
  {
  }

  /** The first byte of a block counts most. */
  lemma LoadIsBigEndian(sb: SBoxes, b: Text)
    requires |b| == 8
    ensures Load(Des.Des(sb), b).0 as nat == b[0] as nat * 0x100_0000 + b[1] as nat * 0x1_0000 + b[2] as nat * 0x100 + b[3] as nat
    ensures Load(Des.Des(sb), b).1 as nat == b[4] as nat * 0x100_0000 + b[5] as nat * 0x1_0000 + b[6] as nat * 0x100 + b[7] as nat
  {
    hide GetUint32;
    GetNumber((b[0], b[1], b[2], b[3]));
    GetNumber((b[4], b[5], b[6], b[7]));
  }

  lemma GetNumber(q: Quad)
    ensures GetUint32(q) as nat == q.0 as nat * 0x100_0000 + q.1 as nat * 0x1_0000 + q.2 as nat * 0x100 + q.3 as nat
  {
    GetIs(q.0, q.1, q.2, q.3);
    hide GetUint32;
    JoinedBytes(q.0, q.1, q.2, q.3);
  }

  lemma GetIs(a: bv8, b: bv8, c: bv8, d: bv8)
    ensures GetUint32((a, b, c, d)) == (a as bv32 << 24) | (b as bv32 << 16) | (c as bv32 << 8) | d as bv32
  {
  }

  // ---- the initial permutation

  lemma InitialSteps(p: Halves)
    ensures InitialPermutation(p) ==
      Apply(RolX, Apply(FromX(By0), Apply(RolY, Apply(FromY(By8), Apply(FromY(By2), Apply(FromX(By16), Apply(FromX(By4), p)))))))
  {
    hide Apply, Run;
    var q1 := Apply(FromX(By4), p);
    var q2 := Apply(FromX(By16), q1);
    var q3 := Apply(FromY(By2), q2);
    var q4 := Apply(FromY(By8), q3);
    var q5 := Apply(RolY, q4);
    var q6 := Apply(FromX(By0), q5);
    RunStep(FromX(By4), [FromX(By16), FromY(By2), FromY(By8), RolY, FromX(By0), RolX], p);
    RunStep(FromX(By16), [FromY(By2), FromY(By8), RolY, FromX(By0), RolX], q1);
    RunStep(FromY(By2), [FromY(By8), RolY, FromX(By0), RolX], q2);
    RunStep(FromY(By8), [RolY, FromX(By0), RolX], q3);
    RunStep(RolY, [FromX(By0), RolX], q4);
    RunStep(FromX(By0), [RolX], q5);
    RunStep(RolX, [], q6);
    Lists();
    RunStep(RolX, [], Apply(RolX, q6));
  }

  lemma RunStep(e: Step, es: seq<Step>, p: Halves)
    ensures Run([e] + es, p) == Run(es, Apply(e, p)) && Run([], p) == p && InitialPermutation(p) == Run(INITIAL, p)
  {
    hide Apply;
    assert ([e] + es)[1..] == es;
  }

  lemma Lists()
    ensures INITIAL == [FromX(By4)] + [FromX(By16), FromY(By2), FromY(By8), RolY, FromX(By0), RolX]
    ensures [FromX(By16), FromY(By2), FromY(By8), RolY, FromX(By0), RolX] == [FromX(By16)] + [FromY(By2), FromY(By8), RolY, FromX(By0), RolX]
    ensures [FromY(By2), FromY(By8), RolY, FromX(By0), RolX] == [FromY(By2)] + [FromY(By8), RolY, FromX(By0), RolX]
    ensures [FromY(By8), RolY, FromX(By0), RolX] == [FromY(By8)] + [RolY, FromX(By0), RolX]
    ensures [RolY, FromX(By0), RolX] == [RolY] + [FromX(By0), RolX] && [FromX(By0), RolX] == [FromX(By0)] + [RolX]
    ensures [RolX] == [RolX] + []
  {
  }

  lemma Statements(x: bv32, y: bv32, s: Exchange)
    ensures Apply(FromX(s), (x, y)) == (Xor(x, ShiftUp(Difference(x, y, s), s)), Xor(y, Difference(x, y, s)))
    ensures Apply(FromY(s), (x, y)) == (Xor(x, Difference(y, x, s)), Xor(y, ShiftUp(Difference(y, x, s), s)))
    ensures Apply(RolX, (x, y)) == (Rol(x), y) && Apply(RolY, (x, y)) == (x, Rol(y))
  {
    hide Difference, ShiftUp, Xor, Rol;
  }

  lemma XorIs(a: bv32, b: bv32)
    ensures Xor(a, b) == a ^ b
  {
  }

  lemma RolIs(a: bv32)
    ensures Rol(a) == (a << 1) | (a >> 31)
  {
  }

  /** Bits that go through the statements of DES_IP. */
  lemma InitialBits(x0: bv32, y0: bv32, x1: bv32, y1: bv32, x2: bv32, y2: bv32, x3: bv32, y3: bv32, x4: bv32, y4: bv32,
                    y5: bv32, x6: bv32, y6: bv32, x7: bv32, r: bv32, c: bv32)
    requires r < 4 && c < 8
    requires var t := ((x0 >> 4) ^ y0) & 0x0F0F0F0F; y1 == y0 ^ t && x1 == x0 ^ (t << 4)
    requires var t := ((x1 >> 16) ^ y1) & 0x0000FFFF; y2 == y1 ^ t && x2 == x1 ^ (t << 16)
    requires var t := ((y2 >> 2) ^ x2) & 0x33333333; x3 == x2 ^ t && y3 == y2 ^ (t << 2)
    requires var t := ((y3 >> 8) ^ x3) & 0x00FF00FF; x4 == x3 ^ t && y4 == y3 ^ (t << 8)
    requires y5 == (y4 << 1) | (y4 >> 31)
    requires var t := (x4 ^ y5) & 0xAAAAAAAA; y6 == y5 ^ t && x6 == x4 ^ t
    requires x7 == (x6 << 1) | (x6 >> 31)
    ensures TableBits(x7, y6, x0, y0, r, c)
  {
  }

  lemma Exchange4(a: bv32, b: bv32)
    ensures Xor(a, Up4(Difference4(a, b))) == a ^ ((((a >> 4) ^ b) & 0x0F0F0F0F) << 4)
    ensures Xor(b, Difference4(a, b)) == b ^ (((a >> 4) ^ b) & 0x0F0F0F0F)
  {
  }

  lemma Exchange16(a: bv32, b: bv32)
    ensures Xor(a, Up16(Difference16(a, b))) == a ^ ((((a >> 16) ^ b) & 0x0000FFFF) << 16)
    ensures Xor(b, Difference16(a, b)) == b ^ (((a >> 16) ^ b) & 0x0000FFFF)
  {
  }

  lemma Exchange2(a: bv32, b: bv32)
    ensures Xor(a, Up2(Difference2(a, b))) == a ^ ((((a >> 2) ^ b) & 0x33333333) << 2)
    ensures Xor(b, Difference2(a, b)) == b ^ (((a >> 2) ^ b) & 0x33333333)
  {
  }

  lemma Exchange8(a: bv32, b: bv32)
    ensures Xor(a, Up8(Difference8(a, b))) == a ^ ((((a >> 8) ^ b) & 0x00FF00FF) << 8)
    ensures Xor(b, Difference8(a, b)) == b ^ (((a >> 8) ^ b) & 0x00FF00FF)
  {
  }

  lemma Exchange0(a: bv32, b: bv32)
    ensures Xor(a, Difference0(a, b)) == a ^ ((a ^ b) & 0xAAAAAAAA)
    ensures Xor(b, Difference0(a, b)) == b ^ ((a ^ b) & 0xAAAAAAAA)
  {
  }

  /** What the statements of DES_IP do one after the other. */
  lemma InitialIs(x: bv32, y: bv32)
    ensures
      var (x1, y1) := (Xor(x, Up4(Difference4(x, y))), Xor(y, Difference4(x, y)));
      var (x2, y2) := (Xor(x1, Up16(Difference16(x1, y1))), Xor(y1, Difference16(x1, y1)));
      var (x3, y3) := (Xor(x2, Difference2(y2, x2)), Xor(y2, Up2(Difference2(y2, x2))));
      var (x4, y4) := (Xor(x3, Difference8(y3, x3)), Xor(y3, Up8(Difference8(y3, x3))));
      var y5 := Rol(y4);
      var (x6, y6) := (Xor(x4, Difference0(x4, y5)), Xor(y5, Difference0(x4, y5)));
      InitialPermutation((x, y)) == (Rol(x6), y6)
  {
    hide Apply, InitialPermutation, Difference4, Difference16, Difference2, Difference8, Difference0, Up4, Up16, Up2, Up8, Xor, Rol;
    InitialSteps((x, y));
    Statements(x, y, By4);
    var x1, y1 := Xor(x, Up4(Difference4(x, y))), Xor(y, Difference4(x, y));
    Statements(x1, y1, By16);
    var x2, y2 := Xor(x1, Up16(Difference16(x1, y1))), Xor(y1, Difference16(x1, y1));
    Statements(x2, y2, By2);
    var x3, y3 := Xor(x2, Difference2(y2, x2)), Xor(y2, Up2(Difference2(y2, x2)));
    Statements(x3, y3, By8);
    var x4, y4 := Xor(x3, Difference8(y3, x3)), Xor(y3, Up8(Difference8(y3, x3)));
    Statements(x4, y4, By0);
    var y5 := Rol(y4);
    Statements(x4, y5, By0);
    var x6, y6 := Xor(x4, Difference0(x4, y5)), Xor(y5, Difference0(x4, y5));
    Statements(x6, y6, By0);
  }

  ghost predicate TableBits(u: bv32, v: bv32, x: bv32, y: bv32, r: bv32, c: bv32)
    requires r < 4 && c < 8
  {
    && (u.RotateRight(1) >> (31 - 8 * r - c)) & 1 == ((if c < 4 then y else x) >> (8 * (c & 3) + 6 - 2 * r)) & 1
    && (v.RotateRight(1) >> (31 - 8 * r - c)) & 1 == ((if c < 4 then y else x) >> (8 * (c & 3) + 7 - 2 * r)) & 1
  }

  lemma InitialTableBits(x: bv32, y: bv32, r: bv32, c: bv32)
    requires r < 4 && c < 8
    ensures TableBits(InitialPermutation((x, y)).0, InitialPermutation((x, y)).1, x, y, r, c)
  {
    hide InitialPermutation, Difference4, Difference16, Difference2, Difference8, Difference0, Up4, Up16, Up2, Up8, Xor, Rol, TableBits;
    InitialIs(x, y);
    var x1, y1 := Xor(x, Up4(Difference4(x, y))), Xor(y, Difference4(x, y));
    var x2, y2 := Xor(x1, Up16(Difference16(x1, y1))), Xor(y1, Difference16(x1, y1));
    var x3, y3 := Xor(x2, Difference2(y2, x2)), Xor(y2, Up2(Difference2(y2, x2)));
    var x4, y4 := Xor(x3, Difference8(y3, x3)), Xor(y3, Up8(Difference8(y3, x3)));
    var y5 := Rol(y4);
    var x6, y6 := Xor(x4, Difference0(x4, y5)), Xor(y5, Difference0(x4, y5));
    BitsOfSteps(x, y, x1, y1, x2, y2, x3, y3, x4, y4, y5, x6, y6, Rol(x6), r, c);
  }

  /** The table IP: output bit 8 * r + c + 1 of the left half is input bit 58 + 2 * r - 8 * c, and of the right
      half input bit 57 + 2 * r - 8 * c. Bits are numbered from 1 at the top of the left half on. The code keeps
      both halves rotated by one bit. */
  lemma InitialTable(x: bv32, y: bv32, r: bv32, c: bv32)
    requires r < 4 && c < 8
    ensures (InitialPermutation((x, y)).0.RotateRight(1) >> (31 - 8 * r - c)) & 1
         == ((if c < 4 then y else x) >> (8 * (c & 3) + 6 - 2 * r)) & 1
    ensures (InitialPermutation((x, y)).1.RotateRight(1) >> (31 - 8 * r - c)) & 1
         == ((if c < 4 then y else x) >> (8 * (c & 3) + 7 - 2 * r)) & 1
  {
    hide InitialPermutation;
    InitialTableBits(x, y, r, c);
  }

  lemma BitsOfSteps(x: bv32, y: bv32, x1: bv32, y1: bv32, x2: bv32, y2: bv32, x3: bv32, y3: bv32, x4: bv32, y4: bv32,
                    y5: bv32, x6: bv32, y6: bv32, x7: bv32, r: bv32, c: bv32)
    requires r < 4 && c < 8
    requires x1 == Xor(x, Up4(Difference4(x, y))) && y1 == Xor(y, Difference4(x, y))
    requires x2 == Xor(x1, Up16(Difference16(x1, y1))) && y2 == Xor(y1, Difference16(x1, y1))
    requires x3 == Xor(x2, Difference2(y2, x2)) && y3 == Xor(y2, Up2(Difference2(y2, x2)))
    requires x4 == Xor(x3, Difference8(y3, x3)) && y4 == Xor(y3, Up8(Difference8(y3, x3)))
    requires y5 == Rol(y4) && x6 == Xor(x4, Difference0(x4, y5)) && y6 == Xor(y5, Difference0(x4, y5)) && x7 == Rol(x6)
    ensures TableBits(x7, y6, x, y, r, c)
  {
    hide Difference4, Difference16, Difference2, Difference8, Difference0, Up4, Up16, Up2, Up8, Xor, Rol, TableBits;
    Exchange4(x, y);
    Exchange16(x1, y1);
    Exchange2(y2, x2);
    Exchange8(y3, x3);
    RolIs(y4);
    Exchange0(x4, y5);
    XorIs(y5, Difference0(x4, y5));
    RolIs(x6);
    InitialBits(x, y, x1, y1, x2, y2, x3, y3, x4, y4, y5, x6, y6, x7, r, c);
  }

  // ---- the rounds

  lemma BoxIndices(k0: bv32, k1: bv32, x: bv32)
    ensures (k0 ^ x) & 0x3F == (x ^ k0) & 0x3F
    ensures ((k0 ^ x) >> 8) & 0x3F == (x.RotateRight(8) ^ (k0 >> 8)) & 0x3F
    ensures ((k0 ^ x) >> 16) & 0x3F == (x.RotateRight(16) ^ (k0 >> 16)) & 0x3F
    ensures ((k0 ^ x) >> 24) & 0x3F == (x.RotateRight(24) ^ (k0 >> 24)) & 0x3F
    ensures (k1 ^ ((x << 28) | (x >> 4))) & 0x3F == (x.RotateRight(4) ^ k1) & 0x3F
    ensures ((k1 ^ ((x << 28) | (x >> 4))) >> 8) & 0x3F == (x.RotateRight(12) ^ (k1 >> 8)) & 0x3F
    ensures ((k1 ^ ((x << 28) | (x >> 4))) >> 16) & 0x3F == (x.RotateRight(20) ^ (k1 >> 16)) & 0x3F
    ensures ((k1 ^ ((x << 28) | (x >> 4))) >> 24) & 0x3F == (x.RotateRight(28) ^ (k1 >> 24)) & 0x3F
  {
  }

  lemma XorOfEight(a: bv32, b: bv32, c: bv32, d: bv32, e: bv32, f: bv32, g: bv32, h: bv32)
    ensures h ^ f ^ d ^ b ^ g ^ e ^ c ^ a == a ^ b ^ c ^ d ^ e ^ f ^ g ^ h
  {
  }

  /** Each box sees six neighbouring bits of the half, from the top on with an overlap of two, and its own six
      key bits; the round function is the xor of the eight boxes. */
  lemma RoundBoxes(sb: SBoxes, k0: bv32, k1: bv32, x: bv32)
    ensures RoundFunction(sb, k0, k1, x) ==
      sb(1, ((x.RotateRight(28) ^ (k1 >> 24)) & 0x3F) as bv6) ^ sb(2, ((x.RotateRight(24) ^ (k0 >> 24)) & 0x3F) as bv6) ^
      sb(3, ((x.RotateRight(20) ^ (k1 >> 16)) & 0x3F) as bv6) ^ sb(4, ((x.RotateRight(16) ^ (k0 >> 16)) & 0x3F) as bv6) ^
      sb(5, ((x.RotateRight(12) ^ (k1 >> 8)) & 0x3F) as bv6) ^ sb(6, ((x.RotateRight(8) ^ (k0 >> 8)) & 0x3F) as bv6) ^
      sb(7, ((x.RotateRight(4) ^ k1) & 0x3F) as bv6) ^ sb(8, ((x ^ k0) & 0x3F) as bv6)
  {
    BoxIndices(k0, k1, x);
    XorOfEight(sb(1, ((x.RotateRight(28) ^ (k1 >> 24)) & 0x3F) as bv6), sb(2, ((x.RotateRight(24) ^ (k0 >> 24)) & 0x3F) as bv6),
      sb(3, ((x.RotateRight(20) ^ (k1 >> 16)) & 0x3F) as bv6), sb(4, ((x.RotateRight(16) ^ (k0 >> 16)) & 0x3F) as bv6),
      sb(5, ((x.RotateRight(12) ^ (k1 >> 8)) & 0x3F) as bv6), sb(6, ((x.RotateRight(8) ^ (k0 >> 8)) & 0x3F) as bv6),
      sb(7, ((x.RotateRight(4) ^ k1) & 0x3F) as bv6), sb(8, ((x ^ k0) & 0x3F) as bv6));
  }

  lemma {:induction false} Feistel(f: RoundFn, sk: seq<bv32>, l: seq<bv32>)
    requires |sk| % 2 == 0 && |l| == |sk| / 2 + 2
    requires forall k: nat :: k + 2 < |l| ==> Follows(f, sk, l, k)
    ensures Rounds(f, sk, (l[0], l[1])) == (l[|l| - 2], l[|l| - 1])
    decreases |sk|
  {
    hide Xor, Round;
    if sk != [] {
      assert Follows(f, sk, l, 0);
      RoundIs(f, sk[0], sk[1], l[0], l[1]);
      var rest, more := sk[2..], l[1..];
      forall k: nat | k + 2 < |more| ensures Follows(f, rest, more, k) {
        assert Follows(f, sk, l, k + 1);
      }
      Feistel(f, rest, more);
    }
  }

  /** `R(k + 1) = L(k) xor f(R(k), K(k))`, where L(k) is R(k - 1) */
  ghost predicate Follows(f: RoundFn, sk: seq<bv32>, l: seq<bv32>, k: nat)
    requires k + 2 < |l| && 2 * k + 1 < |sk|
  {
    l[k + 2] == Xor(l[k], f(sk[2 * k], sk[2 * k + 1], l[k + 1]))
  }

  lemma RoundIs(f: RoundFn, k0: bv32, k1: bv32, x: bv32, y: bv32)
    ensures Round(f, k0, k1, (x, y)) == (y, Xor(x, f(k0, k1, y)))
  {
    hide Xor;
  }

  /** Enciphering as the standard writes it: from L(0) R(0), the permuted block, R(k + 1) is L(k) xored with
      the round function of R(k) and the k-th pair of key words, and L(k + 1) is R(k); R(16) L(16) is permuted
      back. Here `l` lists L(0), R(0), R(1), .., R(16). */
  lemma CryptIsFeistel(z: Cipher, sk: Schedule, block: Text, l: seq<bv32>)
    requires |block| == 8 && |l| == 18 && (l[0], l[1]) == z.initial(Load(z, block))
    requires forall k: nat :: k < 16 ==> l[k + 2] == l[k] ^ z.f(sk[2 * k], sk[2 * k + 1], l[k + 1])
    ensures Crypt(z, sk, block) == Store(z, z.final((l[17], l[16])))
  {
    hide Xor, Load, Store, Rounds;
    forall k: nat | k < 16 ensures Follows(z.f, sk, l, k) {
      XorIs(l[k], z.f(sk[2 * k], sk[2 * k + 1], l[k + 1]));
    }
    Feistel(z.f, sk, l);
  }

  /** What the parts of the DES cipher are. */
  lemma PartsOfDes(sb: SBoxes, k0: bv32, k1: bv32, x: bv32, p: Halves, b: Text)
    requires |b| == 8
    ensures Des.Des(sb).f(k0, k1, x) == RoundFunction(sb, k0, k1, x) && Des.Des(sb).initial(p) == InitialPermutation(p)
    ensures Des.Des(sb).initial(Des.Des(sb).final(p)) == p && Load(Des.Des(sb), Store(Des.Des(sb), p)) == p
  {
    DesLawful(sb);
    LoadAndStore(Des.Des(sb), p, b);
  }

  // ---- blocks, keys and padding

  /** Each block is enciphered by itself. */
  lemma {:induction false} BlockByBlock(z: Cipher, sk: Schedule, text: Text, i: nat)
    requires |text| % 8 == 0 && i % 8 == 0 && i < |text|
    ensures i + 8 <= |text| && Blocks(z, sk, text)[i..i + 8] == Crypt(z, sk, text[i..i + 8])
    decreases i
  {
    hide Crypt;
    var first, rest := Crypt(z, sk, text[..8]), Blocks(z, sk, text[8..]);
    assert Blocks(z, sk, text) == first + rest;
    if i == 0 {
      assert (first + rest)[0..8] == first && text[0..8] == text[..8];
    } else {
      BlockByBlock(z, sk, text[8..], i - 8);
      assert (first + rest)[i..i + 8] == rest[i - 8..i] && text[8..][i - 8..i] == text[i..i + 8];
    }
  }

  /** Pair `i` of the reversed schedule is pair 15 - i. */
  lemma {:induction false} ReversedPairs(sk: seq<bv32>, i: nat)
    requires |sk| % 2 == 0 && 2 * i < |sk|
    ensures PairReversed(sk)[2 * i] == sk[|sk| - 2 - 2 * i] && PairReversed(sk)[2 * i + 1] == sk[|sk| - 1 - 2 * i]
    decreases |sk|
  {
    if 2 * i < |sk| - 2 {
      ReversedPairs(sk[2..], i);
    } else {
      assert sk[..2] == [sk[0], sk[1]];
    }
  }

  /** The padding: one byte 0x80 and as few zeros as complete a block. */
  lemma PaddedBytes(text: Text)
    ensures var p, n := Padded(text), |text|;
      && |p| % 8 == 0 && n < |p| <= n + 8 && p[..n] == text && p[n] == 0x80 && forall i :: n < i < |p| ==> p[i] == 0
  {
  }
}
