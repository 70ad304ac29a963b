/** lhmac_sha1 of lsha1.c against RFC 2104, section 2. */
module HmacSha1 {
  import opened Sha1Spec
  import opened Sha1Context

  function Xor(a: bv8, b: bv8): bv8 { a ^ b }

  /** Every byte of `s` xored with `p`. */
  function XorAll(s: Octets, p: bv8): (r: Octets)
    ensures |r| == |s| && forall i :: 0 <= i < |s| ==> r[i] == Xor(s[i], p)
  {
    seq(|s|, i requires 0 <= i < |s| => Xor(s[i], p))
  }

  function ZeroBytes(n: nat): (z: Octets)
    ensures |z| == n && forall i :: 0 <= i < n ==> z[i] == 0
  {
    seq(n, _ => 0)
  }

  /** The key brought to one block: hashed first if it is longer than that, and filled up with zeros. */
  function BlockKey(key: Octets): (k: Octets)
    ensures |k| == 64
  {
    if |key| > 64 then Hash(key) + ZeroBytes(44) else key + ZeroBytes(64 - |key|)
  }

  /** H(K xor opad, H(K xor ipad, text)) */
  function Hmac(key: Octets, text: Octets): Octets {
    Hash(XorAll(BlockKey(key), 0x5c) + Hash(XorAll(BlockKey(key), 0x36) + text))
  }

  /** Section 2 of RFC 2104, for a key of at most a block: it is filled with zeros, xored with 0x36 and 0x5c
      byte by byte, and the two results lead the text and the inner hash. A longer key is hashed first. */
  lemma HmacEquation(key: Octets, text: Octets, inner: Octets, outer: Octets)
    requires |key| <= 64 && |inner| == |outer| == 64
    requires forall i :: 0 <= i < 64 ==> inner[i] == (if i < |key| then key[i] else 0) ^ 0x36
    requires forall i :: 0 <= i < 64 ==> outer[i] == (if i < |key| then key[i] else 0) ^ 0x5c
    ensures Hmac(key, text) == Hash(outer + Hash(inner + text))
  {
    hide Hash;
    assert XorAll(BlockKey(key), 0x36) == inner;
    assert XorAll(BlockKey(key), 0x5c) == outer;
  }

  lemma LongKey(key: Octets, text: Octets)
    requires |key| > 64
    ensures |Hash(key)| == 20 && Hmac(key, text) == Hmac(Hash(key), text)
  {
    hide Hash, XorAll;
    assert BlockKey(Hash(key)) == BlockKey(key);
  }

  function Word(a: bv8, b: bv8, c: bv8, d: bv8): bv32 {
    a as bv32 | (b as bv32 << 8) | (c as bv32 << 16) | (d as bv32 << 24)
  }

  function Repeat(p: bv8): bv32 {
    p as bv32 | (p as bv32 << 8) | (p as bv32 << 16) | (p as bv32 << 24)
  }

  /** The bytes of a little-endian word. */
  function Low(w: bv32): bv8 { (w & 0xFF) as bv8 }

  function Second(w: bv32): bv8 { ((w >> 8) & 0xFF) as bv8 }

  function Third(w: bv32): bv8 { ((w >> 16) & 0xFF) as bv8 }

  function High(w: bv32): bv8 { ((w >> 24) & 0xFF) as bv8 }

  lemma LowBits(a: bv8, b: bv8, c: bv8, d: bv8, p: bv8)
    ensures (((a as bv32 | (b as bv32 << 8) | (c as bv32 << 16) | (d as bv32 << 24))
             ^ (p as bv32 | (p as bv32 << 8) | (p as bv32 << 16) | (p as bv32 << 24))) & 0xFF) as bv8 == a ^ p
  {
  }

  lemma SecondBits(a: bv8, b: bv8, c: bv8, d: bv8, p: bv8)
    ensures ((((a as bv32 | (b as bv32 << 8) | (c as bv32 << 16) | (d as bv32 << 24))
              ^ (p as bv32 | (p as bv32 << 8) | (p as bv32 << 16) | (p as bv32 << 24))) >> 8) & 0xFF) as bv8 == b ^ p
  {
  }

  lemma ThirdBits(a: bv8, b: bv8, c: bv8, d: bv8, p: bv8)
    ensures ((((a as bv32 | (b as bv32 << 8) | (c as bv32 << 16) | (d as bv32 << 24))
              ^ (p as bv32 | (p as bv32 << 8) | (p as bv32 << 16) | (p as bv32 << 24))) >> 16) & 0xFF) as bv8 == c ^ p
  {
  }

  lemma HighBits(a: bv8, b: bv8, c: bv8, d: bv8, p: bv8)
    ensures ((((a as bv32 | (b as bv32 << 8) | (c as bv32 << 16) | (d as bv32 << 24))
              ^ (p as bv32 | (p as bv32 << 8) | (p as bv32 << 16) | (p as bv32 << 24))) >> 24) & 0xFF) as bv8 == d ^ p
  {
  }

  /** `*k ^= xor` */
  function XorWord(a: bv8, b: bv8, c: bv8, d: bv8, x: bv32): bv32 { Word(a, b, c, d) ^ x }

  /** Xoring a word that repeats one byte xors each byte of the word. */
  lemma WordXor(a: bv8, b: bv8, c: bv8, d: bv8, p: bv8)
    ensures Low(XorWord(a, b, c, d, Repeat(p))) == Xor(a, p)
    ensures Second(XorWord(a, b, c, d, Repeat(p))) == Xor(b, p)
    ensures Third(XorWord(a, b, c, d, Repeat(p))) == Xor(c, p)
    ensures High(XorWord(a, b, c, d, Repeat(p))) == Xor(d, p)
  {
    LowBits(a, b, c, d, p);
    SecondBits(a, b, c, d, p);
    ThirdBits(a, b, c, d, p);
    HighBits(a, b, c, d, p);
  }

  /** xor_key: the key is xored word by word. */
  method XorKey(key: array<bv8>, x: bv32, ghost p: bv8)
    requires key.Length == 64 && x == Repeat(p)
    modifies key
    ensures key[..] == XorAll(old(key[..]), p)
  {
    hide XorWord, Repeat, Low, Second, Third, High, Xor;
    var i := 0;
    while i < 64
      invariant 0 <= i <= 64 && i % 4 == 0
      invariant forall j :: 0 <= j < 64 ==> key[j] == if j < i then Xor(old(key[j]), p) else old(key[j])
    {
      WordXor(key[i], key[i + 1], key[i + 2], key[i + 3], p);
      var k := XorWord(key[i], key[i + 1], key[i + 2], key[i + 3], x);
      key[i], key[i + 1], key[i + 2], key[i + 3] := Low(k), Second(k), Third(k), High(k);
      i := i + 4;
    }
  }

  lemma PadConstants()
    ensures 0x5c5c5c5c == Repeat(0x5c) && 0x6a6a6a6a == Repeat(0x6a)
  {
  }

  lemma SecondPad(s: Octets)
    ensures XorAll(XorAll(s, 0x5c), 0x6a) == XorAll(s, 0x36)
  {
    hide Xor;
    forall i | 0 <= i < |s| ensures Xor(Xor(s[i], 0x5c), 0x6a) == Xor(s[i], 0x36) {
      XorTwice(s[i]);
    }
  }

  lemma XorTwice(b: bv8)
    ensures Xor(Xor(b, 0x5c), 0x6a) == Xor(b, 0x36)
  {
    XorTwiceBits(b);
  }

  lemma XorTwiceBits(b: bv8)
    ensures (b ^ 0x5c) ^ 0x6a == b ^ 0x36
  {
  }

  /** The hash of a message whose length field has this high word. */
  function CountedHash(m: Octets, high: nat): Octets
    requires high < 0x1_0000_0000
  {
    Digest(HashBlocks(INITIAL, PaddedWith(m, high, LowWord(|m|))))
  }

  /** The high word that the source counts for a block followed by `n` bytes in one call. */
  function HighAfterBlock(n: nat): (w: nat)
    ensures w < 0x1_0000_0000
  {
    NextHigh(LowWord(64), HighWord(64), n)
  }

  function CountedKey(key: Octets): (k: Octets)
    ensures |k| == 64
  {
    if |key| <= 64 then key + ZeroBytes(64 - |key|) else CountedHash(key, NextHigh(0, 0, |key|)) + ZeroBytes(44)
  }

  /** HMAC with the lengths as the source counts them. */
  function CountedHmac(key: Octets, text: Octets): Octets {
    var k := CountedKey(key);
    Hash(XorAll(k, 0x5c) + CountedHash(XorAll(k, 0x36) + text, HighAfterBlock(|text|)))
  }

  /** The lengths of keys and texts below 2^29 bytes are counted right, and those of some longer texts. */
  lemma CountedIsHmac(key: Octets, text: Octets)
    requires |key| < 0x2000_0000 && CarryRight(64, |text|) && |text| < 0x2000_0000_0000_0000
    ensures CountedHmac(key, text) == Hmac(key, text)
  {
    hide HashBlocks, PaddedWith, Digest, NextHigh, LowWord, HighWord, CarryRight, XorAll;
    CountStart(|key|);
    CountStep(64, |text|);
  }

  /** lhmac_sha1. Lengths are size_t values in bits. */
  method HmacOf(key: Octets, text: Octets) returns (digest: Octets)
    requires |key| < 0x2000_0000_0000_0000 && |text| < 0x2000_0000_0000_0000
    ensures digest == CountedHmac(key, text)
    ensures |key| < 0x2000_0000 && CarryRight(64, |text|) ==> digest == Hmac(key, text)
  {
    hide Hash, XorAll, Xor, Repeat, HighWord, CountedKey, CountedHash, Hmac, CarryRight, HighAfterBlock;
    PadConstants();
    var rkey := FirstBlock(key);
    XorKey(rkey, 0x5c5c5c5c, 0x5c);
    var ctx1 := Started(rkey[..]);
    XorKey(rkey, 0x6a6a6a6a, 0x6a);   // 0x5c5c5c5c ^ 0x36363636
    SecondPad(CountedKey(key));
    var digest2 := Inner(rkey[..], text);
    ctx1.Update(digest2);
    ShortChunk(64, 20);
    digest := ctx1.Final();
    if |key| < 0x2000_0000 && CarryRight(64, |text|) {
      CountedIsHmac(key, text);
    }
  }

  lemma ShortChunk(n: nat, len: nat)
    ensures len < 0x2000_0000 ==> CarryRight(n, len)
  {
  }

  /** A context that has absorbed one block. */
  method Started(block: Octets) returns (ctx: Context)
    requires |block| == 64
    ensures fresh(ctx) && fresh(ctx.state) && fresh(ctx.buffer)
    ensures ctx.Valid() && ctx.message == block && ctx.count1 == HighWord(64)
  {
    hide HighWord, NextHigh, LowWord, CarryRight, Absorbed;
    CountStart(0);
    ShortChunk(0, 64);
    ctx := new Context();
    ctx.Update(block);
    assert [] + block == block;
  }

  /** The inner hash: one block, then the text. */
  method Inner(block: Octets, text: Octets) returns (digest: Octets)
    requires |block| == 64 && |text| < 0x2000_0000_0000_0000
    ensures digest == CountedHash(block + text, HighAfterBlock(|text|)) && |digest| == 20
  {
    hide HighWord, NextHigh, LowWord, CarryRight, Absorbed, Hash, HashBlocks, PaddedWith, Digest;
    var ctx := Started(block);
    ctx.Update(text);
    digest := ctx.Final();
  }

  /** The first part of lhmac_sha1, which fills rkey. */
  method FirstBlock(key: Octets) returns (rkey: array<bv8>)
    requires |key| < 0x2000_0000_0000_0000
    ensures fresh(rkey) && rkey[..] == CountedKey(key)
    ensures |key| < 0x2000_0000 ==> CountedKey(key) == BlockKey(key)
  {
    hide HashBlocks, PaddedWith, Digest, HighWord, LowWord, NextHigh, Hash;
    CountStart(|key|);
    rkey := new bv8[64](_ => 0);
    if |key| > 64 {
      var hashed := HashMessage(key);
      forall i | 0 <= i < 20 {
        rkey[i] := hashed[i];
      }
    } else {
      forall i | 0 <= i < |key| {
        rkey[i] := key[i];
      }
    }
  }
}
