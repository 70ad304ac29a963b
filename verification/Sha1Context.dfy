/** The streaming context of lsha1.c: incomplete blocks are buffered, and the length is counted in two
    words. */
module Sha1Context {
  import opened Common
  import opened Sha1Spec
  import opened Sha1

  /** `h` has absorbed the whole blocks of `m`, and `tail` is the rest. */
  ghost predicate Absorbed(h: Regs, tail: Octets, m: Octets) {
    && |tail| < 64 && |tail| <= |m| && (|m| - |tail|) % 64 == 0
    && h == HashBlocks(INITIAL, m[..|m| - |tail|]) && tail == m[|m| - |tail|..]
  }

  lemma AbsorbShort(h: Regs, tail: Octets, m: Octets, data: Octets)
    requires Absorbed(h, tail, m) && |tail| + |data| < 64
    ensures Absorbed(h, tail + data, m + data)
  {
    hide HashBlocks;
    assert (m + data)[..|m| - |tail|] == m[..|m| - |tail|];
  }

  lemma AbsorbBlock(h: Regs, tail: Octets, m: Octets, data: Octets)
    requires Absorbed(h, tail, m) && |tail| + |data| == 64
    ensures Absorbed(Compress(h, tail + data), [], m + data)
  {
    hide Compress;
    var whole := m[..|m| - |tail|];
    assert m + data == whole + (tail + data);
    HashBlocksConcat(INITIAL, whole, tail + data);
    assert (tail + data)[..64] == tail + data && (tail + data)[64..] == [];
    assert HashBlocks(h, tail + data) == HashBlocks(Compress(h, (tail + data)[..64]), (tail + data)[64..]);
    assert (m + data)[..|m + data|] == m + data;
  }

  lemma TailLength(h: Regs, tail: Octets, m: Octets)
    requires Absorbed(h, tail, m)
    ensures |tail| == |m| % 64
  {
  }

  // ---- the bit count

  /** The two count words after an Update of `len` bytes, as lines 199-200 compute them: `len << 3` is a
      64-bit value, while the words have 32 bits. */
  function NextLow(low: nat, len: nat): (r: nat)
    ensures r < 0x1_0000_0000
  {
    (low + 8 * len) % 0x1_0000_0000
  }

  function NextHigh(low: nat, high: nat, len: nat): (r: nat)
    ensures r < 0x1_0000_0000
  {
    (high + (if NextLow(low, len) < 8 * len then 1 else 0) + len / 0x2000_0000) % 0x1_0000_0000
  }

  /** The high word stays right exactly when the chunk has less than 2^29 bytes or the low word really
      overflows: for longer chunks the carry test is always true. */
  predicate CarryRight(n: nat, len: nat) {
    len < 0x2000_0000 || LowWord(n) + LowWord(len) >= 0x1_0000_0000
  }

  lemma CountStep(n: nat, len: nat)
    requires len < 0x2000_0000_0000_0000   // len << 3 fits a size_t
    ensures NextLow(LowWord(n), len) == LowWord(n + len)
    ensures NextHigh(LowWord(n), HighWord(n), len) == HighWord(n + len) <==> CarryRight(n, len)
  {
    var m, l := 8 * n, 8 * len;
    var c := if m % 0x1_0000_0000 + l % 0x1_0000_0000 >= 0x1_0000_0000 then 1 else 0;
    Reduce(m, l);
    Carry(m, l, c);
    CarryTest(m % 0x1_0000_0000, l, c);
    Scaled(len);
    SameWord(m / 0x1_0000_0000 + len / 0x2000_0000, m / 0x1_0000_0000, len / 0x2000_0000,
             if (m % 0x1_0000_0000 + l) % 0x1_0000_0000 < l then 1 else 0, c);
  }

  /** The quotient of a sum. */
  lemma Carry(m: nat, l: nat, c: nat)
    requires c == if m % 0x1_0000_0000 + l % 0x1_0000_0000 >= 0x1_0000_0000 then 1 else 0
    ensures (m + l) / 0x1_0000_0000 == m / 0x1_0000_0000 + l / 0x1_0000_0000 + c
  {
    ModUnique(m + l, 0x1_0000_0000, m / 0x1_0000_0000 + l / 0x1_0000_0000 + c,
      m % 0x1_0000_0000 + l % 0x1_0000_0000 - c * 0x1_0000_0000);
  }

  /** The test of line 199 finds the carry, but for an `l` that does not fit a word it is always true. */
  lemma CarryTest(x: nat, l: nat, c: nat)
    requires x < 0x1_0000_0000 && c == if x + l % 0x1_0000_0000 >= 0x1_0000_0000 then 1 else 0
    ensures (x + l) % 0x1_0000_0000 < l <==> l >= 0x1_0000_0000 || c == 1
  {
    if l < 0x1_0000_0000 {
      WrapIndex(x + l, 0x1_0000_0000);
    }
  }

  lemma Scaled(len: nat)
    ensures 8 * len / 0x1_0000_0000 == len / 0x2000_0000
    ensures 8 * len < 0x1_0000_0000 <==> len < 0x2000_0000
  {
  }

  lemma SameWord(s: nat, a: nat, b: nat, u: nat, v: nat)
    requires s == a + b && u <= 1 && v <= 1
    ensures (a % 0x1_0000_0000 + u + b) % 0x1_0000_0000 == (s + v) % 0x1_0000_0000 <==> u == v
  {
    Reduce(a, u + b);
  }

  lemma Reduce(a: nat, k: nat)
    ensures (a % 0x1_0000_0000 + k) % 0x1_0000_0000 == (a + k) % 0x1_0000_0000
  {
  }

  lemma BufferIndex(n: nat)
    ensures LowWord(n) / 8 % 64 == n % 64
  {
    var q := 8 * n / 0x1_0000_0000;
    assert LowWord(n) == 8 * (n - q * 0x2000_0000);
    assert n - q * 0x2000_0000 == n - 64 * (q * 0x80_0000);
  }

  method CopyBytes(buffer: array<bv8>, at: nat, src: Octets)
    requires at + |src| <= buffer.Length
    modifies buffer
    ensures buffer[..at + |src|] == old(buffer[..at]) + src
  {
    forall k | 0 <= k < |src| {
      buffer[at + k] := src[k];
    }
    assert buffer[at..at + |src|] == src;
    assert buffer[..at + |src|] == buffer[..at] + buffer[at..at + |src|];
  }

  class Context {
    const state: array<bv32>
    const buffer: array<bv8>
    var count0: nat
    var count1: nat
    ghost var message: Octets   // everything given to Update so far

    ghost predicate Valid()
      reads this, state, buffer
    {
      && state.Length == 5 && buffer.Length == 64
      && count0 == LowWord(|message|) && count1 < 0x1_0000_0000
      && Absorbed(AsRegs(state[..]), buffer[..|message| % 64], message)
    }

    /** sat_SHA1_Init */
    constructor ()
      ensures Valid() && fresh(state) && fresh(buffer)
      ensures message == [] && count1 == 0
    {
      state := new bv32[5];
      buffer := new bv8[64];
      count0, count1 := 0, 0;
      message := [];
      new;
      state[0], state[1], state[2], state[3], state[4] := 0x67452301, 0xEFCDAB89, 0x98BADCFE, 0x10325476, 0xC3D2E1F0;
      assert AsRegs(state[..]) == INITIAL;
      assert message[..0] == [];
    }

    /** sat_SHA1_Update */
    method Update(data: Octets)
      requires Valid() && |data| < 0x2000_0000_0000_0000
      modifies this`count0, this`count1, this`message, state, buffer
      ensures Valid() && message == old(message) + data
      ensures count1 == NextHigh(old(count0), old(count1), |data|)
      ensures old(count1) == HighWord(|old(message)|) ==>
                (count1 == HighWord(|message|) <==> CarryRight(|old(message)|, |data|))
    {
      hide Absorbed, LowWord, HighWord, NextLow, NextHigh, CarryRight, AsRegs, Compress;
      var len := |data|;
      BufferIndex(|message|);
      CountStep(|message|, len);
      var j := count0 / 8 % 64;
      count0, count1 := NextLow(count0, len), NextHigh(count0, count1, len);
      ghost var m := message;
      message := m + data;
      var i := 0;
      if j + len > 63 {
        i := 64 - j;
        AbsorbBlock(AsRegs(state[..]), buffer[..j], m, data[..i]);
        CopyBytes(buffer, j, data[..i]);
        assert buffer[..] == buffer[..64];
        Transform(state, buffer[..]);
        i := WholeBlocks(data, i, m);
        j := 0;
        AbsorbShort(AsRegs(state[..]), [], m + data[..i], data[i..]);
        assert m + data[..i] + data[i..] == m + data;
      } else {
        AbsorbShort(AsRegs(state[..]), buffer[..j], m, data);
      }
      TailLength(AsRegs(state[..]), (if i == 0 then buffer[..j] else []) + data[i..], m + data);
      CopyBytes(buffer, j, data[i..]);
    }
  
    /** The loop of sat_SHA1_Update over the whole blocks from index `start` on. */
    method WholeBlocks(data: Octets, start: nat, ghost m: Octets) returns (i: nat)
      requires start <= |data| && state.Length == 5 && Absorbed(AsRegs(state[..]), [], m + data[..start])
      modifies state
      ensures start <= i <= |data| < i + 64 && Absorbed(AsRegs(state[..]), [], m + data[..i])
    {
      hide Absorbed, AsRegs, Compress;
      i := start;
      while i + 63 < |data|
        modifies state
        invariant start <= i <= |data|
        invariant Absorbed(AsRegs(state[..]), [], m + data[..i])
      {
        AbsorbBlock(AsRegs(state[..]), [], m + data[..i], data[i..i + 64]);
        assert [] + data[i..i + 64] == data[i..i + 64];
        assert m + data[..i] + data[i..i + 64] == m + data[..i + 64];
        Transform(state, data[i..i + 64]);
        i := i + 64;
      }
    }

    /** sat_SHA1_Final, up to the wiping of the context: the hash of the message padded as in section
        5.1.1, its length field holding the two count words. */
    method Final() returns (digest: Octets)
      requires Valid()
      modifies this`count0, this`count1, this`message, state, buffer
      ensures digest == Digest(HashBlocks(INITIAL, PaddedWith(old(message), old(count1), old(count0))))
      ensures old(count1) == HighWord(|old(message)|) ==> digest == Hash(old(message))
    {
      hide Absorbed, LowWord, HighWord, CarryRight, AsRegs, HashBlocks, CountWord, Zeros, Digest;
      ghost var m := message;
      var finalcount := FinalCount(count1, count0);
      Update([0x80]);
      PadZeros(|m|);
      Update(finalcount);
      PaddingDone(AsRegs(state[..]), buffer[..|message| % 64], message);
      digest := DigestOf(state);
    }

    /** The loop of sat_SHA1_Final: one zero byte at a time until `count[0] & 504` is 448. */
    method PadZeros(ghost n: nat)
      requires Valid() && |message| == n + 1
      modifies this`count0, this`count1, this`message, state, buffer
      ensures Valid() && message == old(message) + Zeros(n)
    {
      hide Absorbed, LowWord, HighWord, NextHigh, CarryRight, AsRegs, Zeros;
      ghost var zeros := [];
      BufferIndex(|message|);
      while count0 / 8 % 64 != 56
        invariant Valid() && message == old(message) + zeros && count0 / 8 % 64 == |message| % 64
        invariant AllZero(zeros) && |zeros| <= Distance(n + 1)
        decreases Distance(n + 1) - |zeros|
      {
        MoreZeros(n + 1, |zeros|);
        zeros := zeros + [0];
        Update([0]);
        BufferIndex(|message|);
      }
      ZerosUnique(n, zeros);
    }
  }

  /** The loop that fills `finalcount`; a shift of a 32-bit count is a division. */
  method FinalCount(count1: nat, count0: nat) returns (f: Octets)
    requires count1 < 0x1_0000_0000 && count0 < 0x1_0000_0000
    ensures f == CountWord(count1) + CountWord(count0)
  {
    hide CountWord, Power256, ToByte;
    var finalcount := new bv8[8](_ => 0);
    for i := 0 to 8
      invariant forall j :: 0 <= j < i ==> finalcount[j] == (CountWord(count1) + CountWord(count0))[j]
    {
      var c := if i >= 4 then count0 else count1;
      CountNumber(c, i % 4);
      SameByte(ToByte(c / Power256(3 - i % 4) % 256), CountWord(c)[i % 4]);
      finalcount[i] := ToByte(c / Power256(3 - i % 4) % 256);
    }
    f := finalcount[..];
  }

  lemma SameByte(x: bv8, y: bv8)
    requires x as nat == y as nat
    ensures x == y
  {
  }

  /** The loop that fills `digest`. */
  method DigestOf(state: array<bv32>) returns (d: Octets)
    requires state.Length == 5
    ensures d == Digest(AsRegs(state[..]))
  {
    hide Shifted, ByteOf, Digest, WordOf;
    var digest := new bv8[20](_ => 0);
    for i := 0 to 20
      invariant forall j :: 0 <= j < i ==> digest[j] == Digest(AsRegs(state[..]))[j]
    {
      DigestAt(AsRegs(state[..]), i / 4, i % 4);
      RegOf(state[..], i / 4);
      ShiftedIs(state[i / 4], i % 4);
      digest[i] := Shifted(state[i / 4], 3 - i % 4);
    }
    d := digest[..];
  }

  /** `(w >> (k * 8)) & 255` */
  function Shifted(w: bv32, k: nat): bv8
    requires k < 4
  {
    ((match k case 0 => w case 1 => w >> 8 case 2 => w >> 16 case _ => w >> 24) & 0xFF) as bv8
  }

  lemma ShiftedIs(w: bv32, i: nat)
    requires i < 4
    ensures Shifted(w, 3 - i) == ByteOf(w, i)
  {
  }

  lemma RegOf(s: seq<bv32>, q: nat)
    requires |s| == 5 && q < 5
    ensures WordOf(AsRegs(s), q) == s[q]
  {
  }

  ghost predicate AllZero(z: Octets) { forall i :: 0 <= i < |z| ==> z[i] == 0 }

  /** How far `n` is from 56 modulo 64. */
  function Distance(n: nat): nat { (120 - n % 64) % 64 }

  lemma MoreZeros(n: nat, k: nat)
    requires k <= Distance(n) && (n + k) % 64 != 56
    ensures k < Distance(n)
  {
  }

  lemma ZerosUnique(n: nat, z: Octets)
    requires AllZero(z) && |z| <= Distance(n + 1) && (n + 1 + |z|) % 64 == 56
    ensures z == Zeros(n)
  {
    SameResidue(n + 1, |z|, |Zeros(n)|);
  }

  lemma SameResidue(n: nat, j: nat, k: nat)
    requires j < 64 && k < 64 && (n + j) % 64 == (n + k) % 64
    ensures j == k
  {
  }

  lemma PaddingDone(h: Regs, tail: Octets, m: Octets)
    requires Absorbed(h, tail, m) && |m| % 64 == 0
    ensures h == HashBlocks(INITIAL, m)
  {
    TailLength(h, tail, m);
    assert m[..|m|] == m;
  }

  // ---- whole messages

  /** lsha1: the standard's hash for messages of less than 2^29 bytes; from there on the carry test is
      true without a carry and the length field has one too many in its high word. */
  method HashMessage(m: Octets) returns (digest: Octets)
    requires |m| < 0x2000_0000_0000_0000
    ensures digest == Digest(HashBlocks(INITIAL, PaddedWith(m, NextHigh(0, 0, |m|), LowWord(|m|))))
    ensures |m| < 0x2000_0000 ==> digest == Hash(m)
  {
    hide HashBlocks, PaddedWith, Digest, HighWord, LowWord;
    var ctx := new Context();
    CountStart(|m|);
    ctx.Update(m);
    assert [] + m == m;
    digest := ctx.Final();
  }

  lemma CountStart(n: nat)
    requires n < 0x2000_0000_0000_0000
    ensures LowWord(0) == HighWord(0) == 0
    ensures NextHigh(0, 0, n) == HighWord(n) <==> n < 0x2000_0000
    ensures CarryRight(0, n) <==> n < 0x2000_0000
  {
    CountStep(0, n);
  }

  function JoinChunks(chunks: seq<Octets>): Octets {
    if chunks == [] then [] else JoinChunks(chunks[..|chunks| - 1]) + chunks[|chunks| - 1]
  }

  /** However a message is split into Update calls of less than 2^29 bytes, the digest is the standard's
      hash of the whole. */
  method HashChunks(chunks: seq<Octets>) returns (digest: Octets)
    requires forall c :: c in chunks ==> |c| < 0x2000_0000
    ensures digest == Hash(JoinChunks(chunks))
  {
    hide HashBlocks, PaddedWith, Digest, HighWord, LowWord, NextHigh, Hash;
    CountStart(0);
    var ctx := new Context();
    for i := 0 to |chunks|
      invariant fresh(ctx) && fresh(ctx.state) && fresh(ctx.buffer) && ctx.Valid()
      invariant ctx.message == JoinChunks(chunks[..i]) && ctx.count1 == HighWord(|ctx.message|)
    {
      assert chunks[..i + 1][..i] == chunks[..i];
      ctx.Update(chunks[i]);
    }
    assert chunks[..|chunks|] == chunks;
    digest := ctx.Final();
  }
}
