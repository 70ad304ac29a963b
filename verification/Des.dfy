/** The DES text cipher of lua-crypt.c: the 16-round block function, the chained blocks of a text,
    and the 0x80 padding. The S-boxes and the 32-word key schedule are parameters, so the results
    hold for every content of those tables. */
module Des {
  import opened Common

  type Text = seq<bv8>
  type Schedule = sk: seq<bv32> | |sk| == 32 witness seq(32, _ => 0)

  /** SB1 .. SB8: box number and 6-bit index. */
  type SBoxes = (int, bv6) -> bv32

  /** Four bytes in big-endian order. */
  type Quad = (bv8, bv8, bv8, bv8)

  function GetUint32(b: Quad): bv32 {
    (b.0 as bv32 << 24) | (b.1 as bv32 << 16) | (b.2 as bv32 << 8) | b.3 as bv32
  }

  function PutUint32(n: bv32): Quad {
    (((n >> 24) & 0xFF) as bv8, ((n >> 16) & 0xFF) as bv8, ((n >> 8) & 0xFF) as bv8, (n & 0xFF) as bv8)
  }

  lemma GetAndPut(n: bv32, b: Quad)
    ensures GetUint32(PutUint32(n)) == n && PutUint32(GetUint32(b)) == b
  {
  }

  type Halves = (bv32, bv32)

  /** The shift and mask of an exchange statement: bits of one half trade places with bits of the
      other half `s` positions lower. */
  datatype Exchange = By4 | By16 | By2 | By8 | By0

  /** `T = ((a >> s) ^ b) & mask` */
  function Difference(a: bv32, b: bv32, s: Exchange): bv32 {
    match s
    case By4 => Difference4(a, b)
    case By16 => Difference16(a, b)
    case By2 => Difference2(a, b)
    case By8 => Difference8(a, b)
    case By0 => Difference0(a, b)
  }

  function Difference4(a: bv32, b: bv32): bv32 { ((a >> 4) ^ b) & 0x0F0F0F0F }

  function Difference16(a: bv32, b: bv32): bv32 { ((a >> 16) ^ b) & 0x0000FFFF }

  function Difference2(a: bv32, b: bv32): bv32 { ((a >> 2) ^ b) & 0x33333333 }

  function Difference8(a: bv32, b: bv32): bv32 { ((a >> 8) ^ b) & 0x00FF00FF }

  function Difference0(a: bv32, b: bv32): bv32 { (a ^ b) & 0xAAAAAAAA }

  function ShiftUp(t: bv32, s: Exchange): bv32 {
    match s
    case By4 => Up4(t)
    case By16 => Up16(t)
    case By2 => Up2(t)
    case By8 => Up8(t)
    case By0 => t
  }

  function Up4(t: bv32): bv32 { t << 4 }

  function Up16(t: bv32): bv32 { t << 16 }

  function Up2(t: bv32): bv32 { t << 2 }

  function Up8(t: bv32): bv32 { t << 8 }

  /** `T = ((a >> s) ^ b) & mask; b ^= T; a ^= (T << s)` */
  function Trade(a: bv32, b: bv32, s: Exchange): Halves {
    var t := Difference(a, b, s);
    (Xor(a, ShiftUp(t, s)), Xor(b, t))
  }

  function Xor(a: bv32, b: bv32): bv32 { a ^ b }

  function Rol(x: bv32): bv32 { (x << 1) | (x >> 31) }

  function Ror(x: bv32): bv32 { (x << 31) | (x >> 1) }

  /** One statement of DES_IP or DES_FP on the halves (X, Y). */
  datatype Step = FromX(s: Exchange) | FromY(s: Exchange) | RolX | RorX | RolY | RorY

  function Apply(e: Step, p: Halves): Halves {
    var (x, y) := p;
    match e
    case FromX(s) => Trade(x, y, s)
    case FromY(s) => var (d, c) := Trade(y, x, s); (c, d)
    case RolX => (Rol(x), y)
    case RorX => (Ror(x), y)
    case RolY => (x, Rol(y))
    case RorY => (x, Ror(y))
  }

  function Run(es: seq<Step>, p: Halves): Halves {
    if es == [] then p else Run(es[1..], Apply(es[0], p))
  }

  const INITIAL: seq<Step> := [FromX(By4), FromX(By16), FromY(By2), FromY(By8), RolY, FromX(By0), RolX]
  const FINAL: seq<Step> := [RorX, FromX(By0), RorY, FromY(By8), FromY(By2), FromX(By16), FromX(By4)]

  /** DES_IP(X, Y) and DES_FP(X, Y). */
  function InitialPermutation(p: Halves): Halves { Run(INITIAL, p) }

  function FinalPermutation(p: Halves): Halves { Run(FINAL, p) }

  lemma XorTwice(a: bv32, t: bv32)
    ensures Xor(Xor(a, t), t) == a
  {
  }

  /** After an exchange the same difference is found again. */
  lemma SameDifference(a: bv32, b: bv32, s: Exchange)
    ensures var t := Difference(a, b, s); Difference(Xor(a, ShiftUp(t, s)), Xor(b, t), s) == t
  {
    match s {
      case By4 =>
      case By16 =>
      case By2 =>
      case By8 =>
      case By0 =>
    }
  }

  lemma Rotations(x: bv32)
    ensures Ror(Rol(x)) == x == Rol(Ror(x))
  {
  }

  function Inverse(e: Step): Step {
    match e
    case RolX => RorX
    case RorX => RolX
    case RolY => RorY
    case RorY => RolY
    case _ => e
  }

  lemma StepInverse(e: Step, p: Halves)
    ensures Apply(Inverse(e), Apply(e, p)) == p
  {
    match e
    case FromX(s) => TradeTwice(p.0, p.1, s);
    case FromY(s) => TradeTwice(p.1, p.0, s);
    case _ => Rotations(p.0); Rotations(p.1);
  }

  lemma TradeTwice(a: bv32, b: bv32, s: Exchange)
    ensures Trade(Trade(a, b, s).0, Trade(a, b, s).1, s) == (a, b)
  {
    hide Difference, ShiftUp, Xor;
    var t := Difference(a, b, s);
    SameDifference(a, b, s);
    XorTwice(a, ShiftUp(t, s));
    XorTwice(b, t);
  }

  /** The statements that take `es` back: inverted, in reverse order. */
  function Undo(es: seq<Step>): (r: seq<Step>)
    ensures |r| == |es|
  {
    seq(|es|, i requires 0 <= i < |es| => Inverse(es[|es| - 1 - i]))
  }

  lemma {:induction false} RunAppend(es: seq<Step>, e: Step, p: Halves)
    ensures Run(es + [e], p) == Apply(e, Run(es, p))
  {
    if es == [] {
      assert [e][1..] == [] && es + [e] == [e];
    } else {
      assert (es + [e])[1..] == es[1..] + [e];
      RunAppend(es[1..], e, Apply(es[0], p));
    }
  }

  lemma {:induction false} RunUndone(es: seq<Step>, p: Halves)
    ensures Run(Undo(es), Run(es, p)) == p
  {
    if es != [] {
      var q := Apply(es[0], p);
      assert Undo(es) == Undo(es[1..]) + [Inverse(es[0])];
      RunUndone(es[1..], q);
      RunAppend(Undo(es[1..]), Inverse(es[0]), Run(es[1..], q));
      StepInverse(es[0], p);
    }
  }

  /** The final permutation is the initial one's statements, inverted, in reverse order. */
  lemma ListsInverse()
    ensures Undo(INITIAL) == FINAL && Undo(FINAL) == INITIAL
  {
    forall i | 0 <= i < 7 ensures Inverse(INITIAL[6 - i]) == FINAL[i] && Inverse(FINAL[6 - i]) == INITIAL[i] {
      assert i == 0 || i == 1 || i == 2 || i == 3 || i == 4 || i == 5 || i == 6;
    }
  }

  /** The two macros are inverse permutations of the 64 bits. */
  lemma PermutationsInverse(p: Halves)
    ensures FinalPermutation(InitialPermutation(p)) == p
    ensures InitialPermutation(FinalPermutation(p)) == p
  {
    ListsInverse();
    RunUndone(INITIAL, p);
    RunUndone(FINAL, p);
  }

  /** What DES_ROUND xors into the other half. */
  function RoundFunction(sb: SBoxes, k0: bv32, k1: bv32, x: bv32): bv32 {
    var t := k0 ^ x;
    var u := k1 ^ ((x << 28) | (x >> 4));
    sb(8, (t & 0x3F) as bv6) ^ sb(6, ((t >> 8) & 0x3F) as bv6) ^
    sb(4, ((t >> 16) & 0x3F) as bv6) ^ sb(2, ((t >> 24) & 0x3F) as bv6) ^
    sb(7, (u & 0x3F) as bv6) ^ sb(5, ((u >> 8) & 0x3F) as bv6) ^
    sb(3, ((u >> 16) & 0x3F) as bv6) ^ sb(1, ((u >> 24) & 0x3F) as bv6)
  }

  function Swap(p: Halves): Halves { (p.1, p.0) }

  /** A round function of two key words and a half. */
  type RoundFn = (bv32, bv32, bv32) -> bv32

  /** One Feistel round: the halves trade roles. */
  function Round(f: RoundFn, k0: bv32, k1: bv32, p: Halves): Halves {
    (p.1, Xor(p.0, f(k0, k1, p.1)))
  }

  /** One round for each pair of key words. */
  function Rounds(f: RoundFn, sk: seq<bv32>, p: Halves): Halves {
    if |sk| < 2 then p else Rounds(f, sk[2..], Round(f, sk[0], sk[1], p))
  }

  function PairReversed(sk: seq<bv32>): (r: seq<bv32>)
    requires |sk| % 2 == 0
    ensures |r| == |sk|
  {
    if sk == [] then [] else PairReversed(sk[2..]) + sk[..2]
  }

  lemma {:induction false} RoundsAppend(f: RoundFn, sk: seq<bv32>, k: seq<bv32>, p: Halves)
    requires |sk| % 2 == 0 && |k| == 2
    ensures Rounds(f, sk + k, p) == Round(f, k[0], k[1], Rounds(f, sk, p))
  {
    if sk == [] {
      assert sk + k == k;
      assert Rounds(f, k[2..], Round(f, k[0], k[1], p)) == Round(f, k[0], k[1], p);
    } else {
      assert (sk + k)[2..] == sk[2..] + k;
      RoundsAppend(f, sk[2..], k, Round(f, sk[0], sk[1], p));
    }
  }

  /** Whatever the round function and the key words are, the rounds are undone by the same rounds with the pairs
      of key words in reverse order. */
  lemma {:induction false} RoundsUndone(f: RoundFn, sk: seq<bv32>, p: Halves)
    requires |sk| % 2 == 0
    ensures Rounds(f, PairReversed(sk), Swap(Rounds(f, sk, p))) == Swap(p)
  {
    if sk != [] {
      var q := Round(f, sk[0], sk[1], p);
      RoundsUndone(f, sk[2..], q);
      RoundsAppend(f, PairReversed(sk[2..]), sk[..2], Swap(Rounds(f, sk[2..], q)));
      XorTwice(p.0, f(sk[0], sk[1], p.1));
    }
  }

  /** The parts of a block cipher in the shape of des_crypt: read two halves, permute, sixteen rounds,
      permute, write two halves. */
  datatype Cipher = Cipher(get: Quad -> bv32, initial: Halves -> Halves, f: RoundFn,
                           final: Halves -> Halves, put: bv32 -> Quad)

  /** DES with the boxes `sb`. */
  function Des(sb: SBoxes): Cipher {
    Cipher(b => GetUint32(b), p => InitialPermutation(p), (k0, k1, x) => RoundFunction(sb, k0, k1, x),
           p => FinalPermutation(p), n => PutUint32(n))
  }

  /** Reading and writing undo each other, and so do the permutations. */
  ghost predicate Lawful(z: Cipher) {
    && (forall n :: z.get(z.put(n)) == n) && (forall b :: z.put(z.get(b)) == b)
    && (forall p :: z.initial(z.final(p)) == p && z.final(z.initial(p)) == p)
  }

  lemma DesLawful(sb: SBoxes)
    ensures Lawful(Des(sb))
  {
    forall n ensures GetUint32(PutUint32(n)) == n { GetAndPut(n, (0, 0, 0, 0)); }
    forall b ensures PutUint32(GetUint32(b)) == b { GetAndPut(0, b); }
    forall p ensures InitialPermutation(FinalPermutation(p)) == p && FinalPermutation(InitialPermutation(p)) == p {
      PermutationsInverse(p);
    }
  }

  function Load(z: Cipher, b: Text): Halves
    requires |b| == 8
  {
    (z.get((b[0], b[1], b[2], b[3])), z.get((b[4], b[5], b[6], b[7])))
  }

  function Store(z: Cipher, p: Halves): (b: Text)
    ensures |b| == 8
  {
    var (u, v) := (z.put(p.0), z.put(p.1));
    [u.0, u.1, u.2, u.3, v.0, v.1, v.2, v.3]
  }

  lemma LoadAndStore(z: Cipher, p: Halves, b: Text)
    requires Lawful(z) && |b| == 8
    ensures Load(z, Store(z, p)) == p
    ensures Store(z, Load(z, b)) == b
  {
    var u, v, s := z.put(p.0), z.put(p.1), Store(z, p);
    assert (s[0], s[1], s[2], s[3]) == u && (s[4], s[5], s[6], s[7]) == v;
    assert z.get(u) == p.0 && z.get(v) == p.1;
    var c, d := (b[0], b[1], b[2], b[3]), (b[4], b[5], b[6], b[7]);
    assert z.put(z.get(c)) == c && z.put(z.get(d)) == d;
    assert Store(z, (z.get(c), z.get(d))) == b;
  }

  /** The block function of des_crypt. */
  function Crypt(z: Cipher, sk: Schedule, block: Text): (r: Text)
    requires |block| == 8
    ensures |r| == 8
  {
    Store(z, z.final(Swap(Rounds(z.f, sk, z.initial(Load(z, block))))))
  }

  lemma {:induction false} PairReversedTwice(sk: seq<bv32>)
    requires |sk| % 2 == 0
    ensures PairReversed(PairReversed(sk)) == sk
  {
    if sk != [] {
      PairReversedTwice(sk[2..]);
      PairReversedAppend(PairReversed(sk[2..]), sk[..2]);
    }
  }

  lemma {:induction false} PairReversedAppend(sk: seq<bv32>, k: seq<bv32>)
    requires |sk| % 2 == 0 && |k| == 2
    ensures PairReversed(sk + k) == k + PairReversed(sk)
  {
    if sk == [] {
      assert sk + k == k && k[..2] == k && PairReversed(k[2..]) == [];
    } else {
      assert (sk + k)[2..] == sk[2..] + k && (sk + k)[..2] == sk[..2];
      PairReversedAppend(sk[2..], k);
    }
  }

  /** A block encrypted with a schedule is recovered with the reversed schedule. */
  lemma CryptUndone(z: Cipher, sk: Schedule, block: Text)
    requires Lawful(z) && |block| == 8
    ensures Crypt(z, PairReversed(sk), Crypt(z, sk, block)) == block
  {
    var p := z.initial(Load(z, block));
    var q := z.final(Swap(Rounds(z.f, sk, p)));
    LoadAndStore(z, q, block);
    RoundsUndone(z.f, sk, p);
  }

  /** A text is encrypted block by block. */
  function Blocks(z: Cipher, sk: Schedule, text: Text): (r: Text)
    requires |text| % 8 == 0
    ensures |r| == |text|
  {
    if text == [] then [] else Crypt(z, sk, text[..8]) + Blocks(z, sk, text[8..])
  }

  lemma {:induction false} BlocksAppend(z: Cipher, sk: Schedule, text: Text, block: Text)
    requires |text| % 8 == 0 && |block| == 8
    ensures Blocks(z, sk, text + block) == Blocks(z, sk, text) + Crypt(z, sk, block)
  {
    if text == [] {
      assert text + block == block && block[..8] == block && block[8..] == [];
      assert Blocks(z, sk, block) == Crypt(z, sk, block[..8]) + Blocks(z, sk, block[8..]);
    } else {
      assert (text + block)[..8] == text[..8] && (text + block)[8..] == text[8..] + block;
      BlocksAppend(z, sk, text[8..], block);
    }
  }

  lemma {:induction false} BlocksUndone(z: Cipher, sk: Schedule, text: Text)
    requires Lawful(z) && |text| % 8 == 0
    ensures Blocks(z, PairReversed(sk), Blocks(z, sk, text)) == text
  {
    if text != [] {
      var b, rest := Crypt(z, sk, text[..8]), Blocks(z, sk, text[8..]);
      assert (b + rest)[..8] == b && (b + rest)[8..] == rest;
      CryptUndone(z, sk, text[..8]);
      BlocksUndone(z, sk, text[8..]);
    }
  }

  /** The padding: 0x80, then as many zeros as complete the block. */
  function Padded(text: Text): (r: Text)
    ensures |r| % 8 == 0 && |text| < |r| <= |text| + 8
  {
    text + [0x80] + seq(7 - |text| % 8, _ => 0)
  }

  /** A padded text has only one reading. */
  lemma PaddedInjective(s: Text, t: Text)
    requires Padded(s) == Padded(t)
    ensures s == t
  {
    var p := Padded(s);
    assert p[|s|] == 0x80 && p[|t|] == 0x80;
    assert forall i :: |s| < i < |p| ==> p[i] == 0;
    assert forall i :: |t| < i < |p| ==> p[i] == 0;
    assert s == p[..|s|] && t == p[..|t|];
  }

  /** des_crypt(SK, input, output + at): sixteen rounds, X and Y trading roles in each. */
  method DesCrypt(z: Cipher, sk: Schedule, input: Text, output: array<bv8>, at: nat)
    requires |input| == 8 && at + 8 <= output.Length
    modifies output
    ensures output[..at + 8] == old(output[..at]) + Crypt(z, sk, input)
  {
    var p := z.initial(Load(z, input));
    ghost var p0 := p;
    var i := 0;
    while i < 32
      invariant 0 <= i <= 32 && i % 2 == 0
      invariant Rounds(z.f, sk[i..], p) == Rounds(z.f, sk, p0)
    {
      assert sk[i..][2..] == sk[i + 2..];
      p := Round(z.f, sk[i], sk[i + 1], p);
      i := i + 2;
    }
    var b := Store(z, z.final(Swap(p)));
    forall j | 0 <= j < 8 {
      output[at + j] := b[j];
    }
    assert output[at..at + 8] == b;
    assert output[..at + 8] == output[..at] + output[at..at + 8];
  }

  /** One more block of a text. */
  lemma BlocksGrow(z: Cipher, sk: Schedule, text: Text, i: nat)
    requires i % 8 == 0 && i + 8 <= |text|
    ensures Blocks(z, sk, text[..i + 8]) == Blocks(z, sk, text[..i]) + Crypt(z, sk, text[i..i + 8])
  {
    hide Blocks, Crypt;
    assert text[..i + 8] == text[..i] + text[i..i + 8];
    BlocksAppend(z, sk, text[..i], text[i..i + 8]);
  }

  lemma BlocksNone(z: Cipher, sk: Schedule)
    ensures Blocks(z, sk, []) == []
  {
  }

  /** The last block that ldesencode fills in: the rest of the text, 0x80 and zeros. */
  function Tail(text: Text, i: nat): (tail: Text)
    requires i <= |text| < i + 8
    ensures |tail| == 8
  {
    seq(8, j requires 0 <= j < 8 =>
      if j < |text| - i then text[i + j] else if j == |text| - i then 0x80 else 0)
  }

  lemma BlocksLast(z: Cipher, sk: Schedule, text: Text, i: nat)
    requires i % 8 == 0 && i <= |text| < i + 8
    ensures Blocks(z, sk, Padded(text)) == Blocks(z, sk, text[..i]) + Crypt(z, sk, Tail(text, i))
    ensures |Padded(text)| == i + 8 == (|text| + 8) / 8 * 8
  {
    hide Blocks, Crypt;
    assert Padded(text) == text[..i] + Tail(text, i);
    BlocksAppend(z, sk, text[..i], Tail(text, i));
  }

  /** The loop that ldesencode and ldesdecode share: every whole block of the text. */
  method CryptWhole(z: Cipher, sk: Schedule, text: Text, buffer: array<bv8>) returns (i: nat)
    requires |text| - |text| % 8 <= buffer.Length
    modifies buffer
    ensures i % 8 == 0 && i <= |text| < i + 8 && buffer.Length >= i
    ensures buffer[..i] == Blocks(z, sk, text[..i])
  {
    hide Crypt, Blocks;
    i := 0;
    BlocksNone(z, sk);
    while i < |text| - 7
      invariant i % 8 == 0 && i <= |text| && i <= buffer.Length
      invariant buffer[..i] == Blocks(z, sk, text[..i])
    {
      BlocksGrow(z, sk, text, i);
      DesCrypt(z, sk, text[i..i + 8], buffer, i);
      i := i + 8;
    }
  }

  /** ldesencode: the padded text, block by block. */
  method DesEncode(z: Cipher, sk: Schedule, text: Text) returns (r: Text)
    requires |text| < INT_MAX - 8   // sizes are ints
    ensures r == Encoded(z, sk, text)
  {
    hide Crypt, Blocks;
    var chunksz := (|text| + 8) / 8 * 8;
    var buffer := new bv8[chunksz](_ => 0);
    var i := CryptWhole(z, sk, text, buffer);
    BlocksLast(z, sk, text, i);
    DesCrypt(z, sk, Tail(text, i), buffer, i);
    assert buffer[..] == buffer[..i + 8];
    return buffer[..];
  }

  /** The loop of ldesdecode that pairs the key words up in reverse order. */
  method ReverseSchedule(esk: Schedule) returns (sk: Schedule)
    ensures sk == PairReversed(esk)
  {
    hide PairReversed;
    var a := new bv32[32](_ => 0);
    var i := 0;
    NoPairs();
    while i < 32
      invariant 0 <= i <= 32 && i % 2 == 0
      invariant a[..i] == PairReversed(esk[32 - i..])
    {
      a[i] := esk[30 - i];
      a[i + 1] := esk[31 - i];
      NextPair(esk[30 - i..]);
      assert esk[30 - i..][2..] == esk[32 - i..];
      assert a[..i + 2] == a[..i] + [a[i], a[i + 1]];
      i := i + 2;
    }
    assert esk[0..] == esk && a[..] == a[..32];
    return a[..];
  }

  lemma NoPairs()
    ensures PairReversed([]) == []
  {
  }

  lemma NextPair(sk: seq<bv32>)
    requires |sk| % 2 == 0 && sk != []
    ensures PairReversed(sk) == PairReversed(sk[2..]) + [sk[0], sk[1]]
  {
    assert sk[..2] == [sk[0], sk[1]];
  }

  /** The one plain text on which the scan of ldesdecode runs off the front of its buffer. */
  predicate OneZeroBlock(p: Text) { |p| == 8 && forall j :: 0 <= j < 8 ==> p[j] == 0 }

  /** ldesdecode. Of the decrypted text only a well-padded one is accepted, and its padding alone is
      removed. `inside`: all accesses lie in the buffer; if not, what happens is undefined, and failure
      is what the model returns. */
  method DesDecode(z: Cipher, esk: Schedule, text: Text) returns (r: Result<Text>, inside: bool)
    requires |text| < INT_MAX
    ensures Decodes(z, esk, text, r)
    ensures inside <==> !(|text| == 8 && OneZeroBlock(Blocks(z, PairReversed(esk), text)))
  {
    hide Crypt, Blocks;
    var sk := ReverseSchedule(esk);
    if |text| % 8 != 0 || |text| == 0 {
      return Fail, true;
    }
    var buffer := new bv8[|text|](_ => 0);
    var i := CryptWhole(z, sk, text, buffer);
    assert text[..i] == text && buffer[..] == buffer[..i];
    r, inside := Unpad(buffer[..]);
  }

  /** The backward scan for the 0x80 that ends the text. Its index is compared as a size_t, so -1 passes
      the test `i >= textsz - 8`, and the next access is in front of the buffer. */
  method Unpad(p: Text) returns (r: Result<Text>, inside: bool)
    requires |p| > 0 && |p| % 8 == 0
    ensures r.Ok? ==> Padded(r.value) == p
    ensures r.Fail? ==> forall t :: Padded(t) != p
    ensures inside <==> !OneZeroBlock(p)
  {
    var padding := 1;
    var i := |p| - 1;
    while i < 0 || i >= |p| - 8
      invariant -1 <= i < |p| && |p| - 9 <= i && padding == |p| - i
      invariant forall j :: i < j < |p| ==> p[j] == 0
      decreases i
    {
      if i < 0 {
        forall t ensures Padded(t) != p { NotPadded(t, p, i); }
        return Fail, false;
      }
      if p[i] == 0 {
        padding := padding + 1;
      } else if p[i] == 0x80 {
        var t := p[..|p| - padding];
        assert Padded(t) == p;
        return Ok(t), true;
      } else {
        forall t ensures Padded(t) != p { NotPadded(t, p, i); }
        return Fail, true;
      }
      i := i - 1;
    }
    forall t ensures Padded(t) != p { NotPadded(t, p, i); }
    return Fail, true;
  }

  lemma NotPadded(t: Text, p: Text, i: int)
    requires -1 <= i < |p| && (forall j :: i < j < |p| ==> p[j] == 0)
    requires i == |p| - 9 || (i >= 0 && p[i] != 0 && p[i] != 0x80)
    ensures Padded(t) != p
  {
    var q := Padded(t);
    assert q[|t|] == 0x80;
    assert forall j :: |t| < j < |q| ==> q[j] == 0;
  }

  /** The result of ldesdecode: the text whose padded form was decrypted, if there is one. */
  ghost predicate Decodes(z: Cipher, sk: Schedule, text: Text, r: Result<Text>) {
    if |text| % 8 == 0 && exists t :: Padded(t) == Blocks(z, PairReversed(sk), text)
    then r.Ok? && Padded(r.value) == Blocks(z, PairReversed(sk), text)
    else r.Fail?
  }

  ghost function Encoded(z: Cipher, sk: Schedule, text: Text): Text { Blocks(z, sk, Padded(text)) }

  /** For any boxes and any schedule, decoding succeeds on exactly the encoded texts, and gives back
      the text that was encoded. */
  lemma DecodeInvertsEncode(sb: SBoxes, sk: Schedule, cipher: Text, r: Result<Text>)
    requires Decodes(Des(sb), sk, cipher, r)
    ensures forall t :: r == Ok(t) <==> cipher == Encoded(Des(sb), sk, t)
  {
    DesLawful(sb);
    forall t ensures r == Ok(t) <==> cipher == Encoded(Des(sb), sk, t) {
      DecodesIff(Des(sb), sk, cipher, r, t);
    }
  }

  lemma DecodesIff(z: Cipher, sk: Schedule, cipher: Text, r: Result<Text>, t: Text)
    requires Lawful(z) && Decodes(z, sk, cipher, r)
    ensures r == Ok(t) <==> cipher == Encoded(z, sk, t)
  {
    BlocksUndone(z, sk, Padded(t));
    if |cipher| % 8 == 0 {
      PairReversedTwice(sk);
      BlocksUndone(z, PairReversed(sk), cipher);
    }
    if r.Ok? && Padded(r.value) == Padded(t) {
      PaddedInjective(r.value, t);
    }
  }
}
