/** The compression as lsha1.c computes it: the schedule in a 16-word circular buffer, and the working
    variables renamed instead of moved. */
module Sha1 {
  import opened Sha1Spec

  /** memcpy of a block into 32-bit words on a little-endian host. */
  function LittleEndian(b: Block, i: nat): bv32
    requires i < 16
  {
    b[4 * i] as bv32 | (b[4 * i + 1] as bv32 << 8) | (b[4 * i + 2] as bv32 << 16) | (b[4 * i + 3] as bv32 << 24)
  }

  /** rol(value, 24) & 0xFF00FF00 | rol(value, 8) & 0x00FF00FF */
  function SwapBytes(x: bv32): bv32 {
    (((x << 24) | (x >> 8)) & 0xFF00FF00) | (((x << 8) | (x >> 24)) & 0x00FF00FF)
  }

  lemma SwapIsBigEndian(b: Block, i: nat)
    requires i < 16
    ensures SwapBytes(LittleEndian(b, i)) == BigEndian(b, i)
  {
  }

  /** The choice and majority functions in the form the macros use. */
  function Choose(w: bv32, x: bv32, y: bv32): bv32 { (w & (x ^ y)) ^ y }

  function Majority(w: bv32, x: bv32, y: bv32): bv32 { ((w | x) & y) | (w & x) }

  function Exclusive(w: bv32, x: bv32, y: bv32): bv32 { w ^ x ^ y }

  /** rol(value, bits) for the three values of `bits` */
  function Rol1(x: bv32): bv32 { (x << 1) | (x >> 31) }

  function Rol5(x: bv32): bv32 { (x << 5) | (x >> 27) }

  function Rol30(x: bv32): bv32 { (x << 30) | (x >> 2) }

  /** They rotate. */
  lemma RolForms(x: bv32)
    ensures Rol1(x) == x.RotateLeft(1) == Rotl1(x)
    ensures Rol5(x) == x.RotateLeft(5) == Rotl5(x)
    ensures Rol30(x) == x.RotateLeft(30) == Rotl30(x)
  {
  }

  lemma ChooseBits(w: bv32, x: bv32, y: bv32)
    ensures (w & (x ^ y)) ^ y == (w & x) ^ (!w & y)
  {
  }

  lemma MajorityBits(w: bv32, x: bv32, y: bv32)
    ensures ((w | x) & y) | (w & x) == (w & x) ^ (w & y) ^ (x & y)
  {
  }

  /** They are the Ch and Maj of section 4.1.1. */
  lemma ShortForms(w: bv32, x: bv32, y: bv32)
    ensures Choose(w, x, y) == Ch(w, x, y)
    ensures Majority(w, x, y) == Maj(w, x, y)
  {
    ChooseBits(w, x, y);
    MajorityBits(w, x, y);
  }

  lemma ExclusiveForm(w: bv32, x: bv32, y: bv32)
    ensures Exclusive(w, x, y) == w ^ x ^ y && Parity(w, x, y) == w ^ x ^ y
  {
  }

  /** `z += f + word + k + rol(v, 5)` */
  function MacroSum(z: bv32, f: bv32, w: bv32, k: bv32, r: bv32): bv32 { z + (f + w + k + r) }

  lemma SumBits(z: bv32, f: bv32, w: bv32, k: bv32, r: bv32)
    ensures z + (f + w + k + r) == r + f + z + k + w
  {
  }

  lemma AddOrder(z: bv32, f: bv32, w: bv32, k: bv32, r: bv32)
    ensures MacroSum(z, f, w, k, r) == Add5(r, f, z, k, w)
  {
    SumBits(z, f, w, k, r);
  }

  /** What a block's 16 words hold before step `t`: the last 16 words of the schedule, each at its index
      modulo 16, and the words not reached yet as they were loaded. */
  ghost predicate Circular(block: seq<bv32>, b: Block, t: nat) {
    && |block| == 16
    && (forall j :: 0 <= j < t && t - 16 <= j ==> block[j % 16] == W(b, j))
    && (forall j :: t <= j < 16 ==> block[j] == LittleEndian(b, j))
  }

  /** The hash input of a call of Transform. */
  datatype Input = Input(h: Regs, b: Block)

  /** Before step `t`, v w x y z play the parts of a b c d e. */
  ghost predicate At(g: Input, t: nat, v: bv32, w: bv32, x: bv32, y: bv32, z: bv32, block: seq<bv32>) {
    Steps(g.h, g.b, t) == Regs(v, w, x, y, z) && Circular(block, g.b, t)
  }

  /** blk0(i) */
  method Blk0(ghost g: Input, block: array<bv32>, i: nat) returns (r: bv32)
    requires i < 16 && block.Length == 16 && Circular(block[..], g.b, i)
    modifies block
    ensures r == W(g.b, i) && Circular(block[..], g.b, i + 1)
  {
    hide W, LittleEndian, SwapBytes;
    ghost var before := block[..];
    SwapIsBigEndian(g.b, i);
    EarlyWord(g.b, i);
    block[i] := SwapBytes(block[i]);
    r := block[i];
    assert block[..] == before[i := W(g.b, i)];
  }

  lemma EarlyWord(b: Block, t: nat)
    requires t < 16
    ensures W(b, t) == BigEndian(b, t)
  {
  }

  /** blk(i) */
  method Blk(ghost g: Input, block: array<bv32>, i: nat) returns (r: bv32)
    requires 16 <= i && block.Length == 16 && Circular(block[..], g.b, i)
    modifies block
    ensures r == W(g.b, i) && Circular(block[..], g.b, i + 1)
  {
    hide W, Mixed, Circular;
    Recurrence(block[..], g.b, i);
    CircularNext(block[..], g.b, i);
    ghost var before := block[..];
    block[i % 16] := Mixed(block[(i + 13) % 16], block[(i + 8) % 16], block[(i + 2) % 16], block[i % 16]);
    r := block[i % 16];
    assert block[..] == before[i % 16 := W(g.b, i)];
  }

  /** `rol(x ^ y ^ z ^ w, 1)` */
  function Mixed(x: bv32, y: bv32, z: bv32, w: bv32): bv32 { Rol1(x ^ y ^ z ^ w) }

  lemma MixedIs(x: bv32, y: bv32, z: bv32, w: bv32)
    ensures Mixed(x, y, z, w) == Rotl1(x ^ y ^ z ^ w)
  {
    RolForms(x ^ y ^ z ^ w);
  }

  /** The ring holds the four earlier words that the schedule needs. */
  lemma Recurrence(block: seq<bv32>, b: Block, i: nat)
    requires 16 <= i && Circular(block, b, i)
    ensures |block| == 16
    ensures Mixed(block[(i + 13) % 16], block[(i + 8) % 16], block[(i + 2) % 16], block[i % 16]) == W(b, i)
  {
    hide Mixed, LittleEndian, BigEndian, Rotl1;
    RingIndices(i);
    MixedIs(W(b, i - 3), W(b, i - 8), W(b, i - 14), W(b, i - 16));
    assert block[(i - 3) % 16] == W(b, i - 3) && block[(i - 8) % 16] == W(b, i - 8);
    assert block[(i - 14) % 16] == W(b, i - 14) && block[(i - 16) % 16] == W(b, i - 16);
  }

  lemma RingIndices(i: nat)
    requires 16 <= i
    ensures (i + 13) % 16 == (i - 3) % 16 && (i + 8) % 16 == (i - 8) % 16
    ensures (i + 2) % 16 == (i - 14) % 16 && i % 16 == (i - 16) % 16
  {
  }

  lemma CircularNext(block: seq<bv32>, b: Block, i: nat)
    requires 16 <= i && Circular(block, b, i)
    ensures Circular(block[i % 16 := W(b, i)], b, i + 1)
  {
    hide W;
    var next := block[i % 16 := W(b, i)];
    forall j | 0 <= j < i + 1 && i - 15 <= j ensures next[j % 16] == W(b, j) {
      if j < i { DistinctResidues(j, i); }
    }
  }

  lemma DistinctResidues(j: nat, i: nat)
    requires i - 16 < j < i
    ensures j % 16 != i % 16
  {
  }

  /** What a round macro does to w and z, given its function value, constant and schedule word. */
  lemma MacroStep(g: Input, t: nat, v: bv32, w: bv32, x: bv32, y: bv32, z: bv32, f: bv32)
    requires Steps(g.h, g.b, t) == Regs(v, w, x, y, z) && f == F(t, w, x, y)
    ensures Steps(g.h, g.b, t + 1)
         == Regs(MacroSum(z, f, W(g.b, t), K(t), Rotl5(v)), v, Rotl30(w), x, y)
  {
    hide F, W, K, Rotl5, Rotl30, Add5, MacroSum;
    AddOrder(z, f, W(g.b, t), K(t), Rotl5(v));
  }

  method R0(ghost g: Input, v: bv32, w: bv32, x: bv32, y: bv32, z: bv32, block: array<bv32>, i: nat)
    returns (w': bv32, z': bv32)
    requires 0 <= i < 16 && block.Length == 16 && At(g, i, v, w, x, y, z, block[..])
    modifies block
    ensures At(g, i + 1, z', v, w', x, y, block[..])
  {
    hide Circular, Steps, W, Rotl1, Rotl5, Rotl30, Rol1, Rol5, Rol30, Choose, Majority, Exclusive, Ch, Maj, Parity, MacroSum;
    RolForms(v);
    RolForms(w);
    ShortForms(w, x, y);
    MacroStep(g, i, v, w, x, y, z, Choose(w, x, y));
    var word := Blk0(g, block, i);
    z' := MacroSum(z, Choose(w, x, y), word, 0x5A827999, Rol5(v));
    w' := Rol30(w);
  }

  method R1(ghost g: Input, v: bv32, w: bv32, x: bv32, y: bv32, z: bv32, block: array<bv32>, i: nat)
    returns (w': bv32, z': bv32)
    requires 16 <= i < 20 && block.Length == 16 && At(g, i, v, w, x, y, z, block[..])
    modifies block
    ensures At(g, i + 1, z', v, w', x, y, block[..])
  {
    hide Circular, Steps, W, Rotl1, Rotl5, Rotl30, Rol1, Rol5, Rol30, Choose, Majority, Exclusive, Ch, Maj, Parity, MacroSum;
    RolForms(v);
    RolForms(w);
    ShortForms(w, x, y);
    MacroStep(g, i, v, w, x, y, z, Choose(w, x, y));
    var word := Blk(g, block, i);
    z' := MacroSum(z, Choose(w, x, y), word, 0x5A827999, Rol5(v));
    w' := Rol30(w);
  }

  method R2(ghost g: Input, v: bv32, w: bv32, x: bv32, y: bv32, z: bv32, block: array<bv32>, i: nat)
    returns (w': bv32, z': bv32)
    requires 20 <= i < 40 && block.Length == 16 && At(g, i, v, w, x, y, z, block[..])
    modifies block
    ensures At(g, i + 1, z', v, w', x, y, block[..])
  {
    hide Circular, Steps, W, Rotl1, Rotl5, Rotl30, Rol1, Rol5, Rol30, Choose, Majority, Exclusive, Ch, Maj, Parity, MacroSum;
    RolForms(v);
    RolForms(w);
    ExclusiveForm(w, x, y);
    MacroStep(g, i, v, w, x, y, z, Exclusive(w, x, y));
    var word := Blk(g, block, i);
    z' := MacroSum(z, Exclusive(w, x, y), word, 0x6ED9EBA1, Rol5(v));
    w' := Rol30(w);
  }

  method R3(ghost g: Input, v: bv32, w: bv32, x: bv32, y: bv32, z: bv32, block: array<bv32>, i: nat)
    returns (w': bv32, z': bv32)
    requires 40 <= i < 60 && block.Length == 16 && At(g, i, v, w, x, y, z, block[..])
    modifies block
    ensures At(g, i + 1, z', v, w', x, y, block[..])
  {
    hide Circular, Steps, W, Rotl1, Rotl5, Rotl30, Rol1, Rol5, Rol30, Choose, Majority, Exclusive, Ch, Maj, Parity, MacroSum;
    RolForms(v);
    RolForms(w);
    ShortForms(w, x, y);
    MacroStep(g, i, v, w, x, y, z, Majority(w, x, y));
    var word := Blk(g, block, i);
    z' := MacroSum(z, Majority(w, x, y), word, 0x8F1BBCDC, Rol5(v));
    w' := Rol30(w);
  }

  method R4(ghost g: Input, v: bv32, w: bv32, x: bv32, y: bv32, z: bv32, block: array<bv32>, i: nat)
    returns (w': bv32, z': bv32)
    requires 60 <= i < 80 && block.Length == 16 && At(g, i, v, w, x, y, z, block[..])
    modifies block
    ensures At(g, i + 1, z', v, w', x, y, block[..])
  {
    hide Circular, Steps, W, Rotl1, Rotl5, Rotl30, Rol1, Rol5, Rol30, Choose, Majority, Exclusive, Ch, Maj, Parity, MacroSum;
    RolForms(v);
    RolForms(w);
    ExclusiveForm(w, x, y);
    MacroStep(g, i, v, w, x, y, z, Exclusive(w, x, y));
    var word := Blk(g, block, i);
    z' := MacroSum(z, Exclusive(w, x, y), word, 0xCA62C1D6, Rol5(v));
    w' := Rol30(w);
  }

  /** Operations 0 to 19, the variables renamed from one macro call to the next. */
  method ChoiceRounds(ghost g: Input, a0: bv32, b0: bv32, c0: bv32, d0: bv32, e0: bv32, block: array<bv32>)
    returns (a: bv32, b: bv32, c: bv32, d: bv32, e: bv32)
    requires block.Length == 16 && At(g, 0, a0, b0, c0, d0, e0, block[..])
    modifies block
    ensures At(g, 20, a, b, c, d, e, block[..])
  {
    hide At;
    a, b, c, d, e := a0, b0, c0, d0, e0;
    b, e := R0(g, a, b, c, d, e, block, 0); a, d := R0(g, e, a, b, c, d, block, 1);
    e, c := R0(g, d, e, a, b, c, block, 2); d, b := R0(g, c, d, e, a, b, block, 3);
    c, a := R0(g, b, c, d, e, a, block, 4); b, e := R0(g, a, b, c, d, e, block, 5);
    a, d := R0(g, e, a, b, c, d, block, 6); e, c := R0(g, d, e, a, b, c, block, 7);
    d, b := R0(g, c, d, e, a, b, block, 8); c, a := R0(g, b, c, d, e, a, block, 9);
    b, e := R0(g, a, b, c, d, e, block, 10); a, d := R0(g, e, a, b, c, d, block, 11);
    e, c := R0(g, d, e, a, b, c, block, 12); d, b := R0(g, c, d, e, a, b, block, 13);
    c, a := R0(g, b, c, d, e, a, block, 14); b, e := R0(g, a, b, c, d, e, block, 15);
    a, d := R1(g, e, a, b, c, d, block, 16); e, c := R1(g, d, e, a, b, c, block, 17);
    d, b := R1(g, c, d, e, a, b, block, 18); c, a := R1(g, b, c, d, e, a, block, 19);
  }

  /** Operations 20 to 39, the variables renamed from one macro call to the next. */
  method ParityRounds(ghost g: Input, a0: bv32, b0: bv32, c0: bv32, d0: bv32, e0: bv32, block: array<bv32>)
    returns (a: bv32, b: bv32, c: bv32, d: bv32, e: bv32)
    requires block.Length == 16 && At(g, 20, a0, b0, c0, d0, e0, block[..])
    modifies block
    ensures At(g, 40, a, b, c, d, e, block[..])
  {
    hide At;
    a, b, c, d, e := a0, b0, c0, d0, e0;
    b, e := R2(g, a, b, c, d, e, block, 20); a, d := R2(g, e, a, b, c, d, block, 21);
    e, c := R2(g, d, e, a, b, c, block, 22); d, b := R2(g, c, d, e, a, b, block, 23);
    c, a := R2(g, b, c, d, e, a, block, 24); b, e := R2(g, a, b, c, d, e, block, 25);
    a, d := R2(g, e, a, b, c, d, block, 26); e, c := R2(g, d, e, a, b, c, block, 27);
    d, b := R2(g, c, d, e, a, b, block, 28); c, a := R2(g, b, c, d, e, a, block, 29);
    b, e := R2(g, a, b, c, d, e, block, 30); a, d := R2(g, e, a, b, c, d, block, 31);
    e, c := R2(g, d, e, a, b, c, block, 32); d, b := R2(g, c, d, e, a, b, block, 33);
    c, a := R2(g, b, c, d, e, a, block, 34); b, e := R2(g, a, b, c, d, e, block, 35);
    a, d := R2(g, e, a, b, c, d, block, 36); e, c := R2(g, d, e, a, b, c, block, 37);
    d, b := R2(g, c, d, e, a, b, block, 38); c, a := R2(g, b, c, d, e, a, block, 39);
  }

  /** Operations 40 to 59, the variables renamed from one macro call to the next. */
  method MajorityRounds(ghost g: Input, a0: bv32, b0: bv32, c0: bv32, d0: bv32, e0: bv32, block: array<bv32>)
    returns (a: bv32, b: bv32, c: bv32, d: bv32, e: bv32)
    requires block.Length == 16 && At(g, 40, a0, b0, c0, d0, e0, block[..])
    modifies block
    ensures At(g, 60, a, b, c, d, e, block[..])
  {
    hide At;
    a, b, c, d, e := a0, b0, c0, d0, e0;
    b, e := R3(g, a, b, c, d, e, block, 40); a, d := R3(g, e, a, b, c, d, block, 41);
    e, c := R3(g, d, e, a, b, c, block, 42); d, b := R3(g, c, d, e, a, b, block, 43);
    c, a := R3(g, b, c, d, e, a, block, 44); b, e := R3(g, a, b, c, d, e, block, 45);
    a, d := R3(g, e, a, b, c, d, block, 46); e, c := R3(g, d, e, a, b, c, block, 47);
    d, b := R3(g, c, d, e, a, b, block, 48); c, a := R3(g, b, c, d, e, a, block, 49);
    b, e := R3(g, a, b, c, d, e, block, 50); a, d := R3(g, e, a, b, c, d, block, 51);
    e, c := R3(g, d, e, a, b, c, block, 52); d, b := R3(g, c, d, e, a, b, block, 53);
    c, a := R3(g, b, c, d, e, a, block, 54); b, e := R3(g, a, b, c, d, e, block, 55);
    a, d := R3(g, e, a, b, c, d, block, 56); e, c := R3(g, d, e, a, b, c, block, 57);
    d, b := R3(g, c, d, e, a, b, block, 58); c, a := R3(g, b, c, d, e, a, block, 59);
  }

  /** Operations 60 to 79, the variables renamed from one macro call to the next. */
  method LastParityRounds(ghost g: Input, a0: bv32, b0: bv32, c0: bv32, d0: bv32, e0: bv32, block: array<bv32>)
    returns (a: bv32, b: bv32, c: bv32, d: bv32, e: bv32)
    requires block.Length == 16 && At(g, 60, a0, b0, c0, d0, e0, block[..])
    modifies block
    ensures At(g, 80, a, b, c, d, e, block[..])
  {
    hide At;
    a, b, c, d, e := a0, b0, c0, d0, e0;
    b, e := R4(g, a, b, c, d, e, block, 60); a, d := R4(g, e, a, b, c, d, block, 61);
    e, c := R4(g, d, e, a, b, c, block, 62); d, b := R4(g, c, d, e, a, b, block, 63);
    c, a := R4(g, b, c, d, e, a, block, 64); b, e := R4(g, a, b, c, d, e, block, 65);
    a, d := R4(g, e, a, b, c, d, block, 66); e, c := R4(g, d, e, a, b, c, block, 67);
    d, b := R4(g, c, d, e, a, b, block, 68); c, a := R4(g, b, c, d, e, a, block, 69);
    b, e := R4(g, a, b, c, d, e, block, 70); a, d := R4(g, e, a, b, c, d, block, 71);
    e, c := R4(g, d, e, a, b, c, block, 72); d, b := R4(g, c, d, e, a, b, block, 73);
    c, a := R4(g, b, c, d, e, a, block, 74); b, e := R4(g, a, b, c, d, e, block, 75);
    a, d := R4(g, e, a, b, c, d, block, 76); e, c := R4(g, d, e, a, b, c, block, 77);
    d, b := R4(g, c, d, e, a, b, block, 78); c, a := R4(g, b, c, d, e, a, block, 79);
  }

  /** SHA1_Transform: four rounds of twenty operations each. */
  method Transform(state: array<bv32>, buffer: Block)
    requires state.Length == 5
    modifies state
    ensures AsRegs(state[..]) == Compress(old(AsRegs(state[..])), buffer)
  {
    hide At, Compress, LittleEndian, Add, Plus;
    var a, b, c, d, e := state[0], state[1], state[2], state[3], state[4];
    ghost var g := Input(AsRegs(state[..]), buffer);
    var block := new bv32[16](i requires 0 <= i < 16 => LittleEndian(buffer, i));
    Begin(g, block[..]);
    a, b, c, d, e := ChoiceRounds(g, a, b, c, d, e, block);
    a, b, c, d, e := ParityRounds(g, a, b, c, d, e, block);
    a, b, c, d, e := MajorityRounds(g, a, b, c, d, e, block);
    a, b, c, d, e := LastParityRounds(g, a, b, c, d, e, block);
    End(g, a, b, c, d, e, block[..]);
    PlusIs(state[0], a);
    state[0] := Plus(state[0], a);
    PlusIs(state[1], b);
    state[1] := Plus(state[1], b);
    PlusIs(state[2], c);
    state[2] := Plus(state[2], c);
    PlusIs(state[3], d);
    state[3] := Plus(state[3], d);
    PlusIs(state[4], e);
    state[4] := Plus(state[4], e);
  }

  /** `x += y` */
  function Plus(x: bv32, y: bv32): bv32 { x + y }

  lemma PlusIs(x: bv32, y: bv32)
    ensures Plus(x, y) == x + y == Add(x, y)
  {
  }

  function AsRegs(s: seq<bv32>): Regs
    requires |s| == 5
  {
    Regs(s[0], s[1], s[2], s[3], s[4])
  }

  lemma Begin(g: Input, block: seq<bv32>)
    requires |block| == 16 && forall j :: 0 <= j < 16 ==> block[j] == LittleEndian(g.b, j)
    ensures At(g, 0, g.h.a, g.h.b, g.h.c, g.h.d, g.h.e, block)
  {
  }

  lemma End(g: Input, a: bv32, b: bv32, c: bv32, d: bv32, e: bv32, block: seq<bv32>)
    requires At(g, 80, a, b, c, d, e, block)
    ensures Compress(g.h, g.b) == Regs(Add(g.h.a, a), Add(g.h.b, b), Add(g.h.c, c), Add(g.h.d, d), Add(g.h.e, e))
  {
    hide Steps, Add;
  }
}
