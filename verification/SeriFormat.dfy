/** The wire format of lua-seri.c: what is written for a value, and the reading of any bytes. */
module SeriFormat {
  import opened Common
  import opened Reading

  /** Real and Pointer are opaque 64-bit words. A table is its elements 1 .. n, holes included, and the
      pairs with other keys. Unsupported stands for functions, threads and full userdata. */
  datatype Value = Nil | Bool(b: bool) | Int(i: int) | Real(w: nat) | Pointer(w: nat) | Str(s: bytes)
                 | Tab(arr: seq<Value>, hash: seq<Pair>) | Unsupported

  datatype Pair = Pair(key: Value, value: Value)

  // ---- which values can be packed

  predicate WellFormed(v: Value)
    decreases v
  {
    match v
    case Int(i) => -0x8000_0000_0000_0000 <= i < 0x8000_0000_0000_0000
    case Real(w) => w < TWO_64
    case Pointer(w) => w < TWO_64
    case Str(s) => |s| <= INT_MAX
    case Tab(a, h) =>
      && |a| <= INT_MAX
      && (forall i :: 0 <= i < |a| ==> WellFormed(a[i]))
      && (forall i :: 0 <= i < |h| ==> PairFormed(h[i]) && h[i].key != Nil && !IsIndex(h[i].key, |a|))
    case _ => true
  }

  predicate PairFormed(p: Pair)
    decreases p
  {
    WellFormed(p.key) && WellFormed(p.value)
  }

  predicate IsIndex(key: Value, n: nat) { key.Int? && 0 < key.i <= n }

  predicate Supported(v: Value)
    decreases v
  {
    match v
    case Unsupported => false
    case Tab(a, h) => (forall i :: 0 <= i < |a| ==> Supported(a[i])) && forall i :: 0 <= i < |h| ==> PairSupported(h[i])
    case _ => true
  }

  predicate PairSupported(p: Pair)
    decreases p
  {
    Supported(p.key) && Supported(p.value)
  }

  function Max(a: nat, b: nat): nat { if a < b then b else a }

  /** How deep tables are nested in the value; an empty table counts as no table. */
  function Height(v: Value): nat
    decreases v, 0
  {
    match v
    case Tab(a, h) => Max(SeqHeight(a), PairsHeight(h))
    case _ => 0
  }

  function SeqHeight(a: seq<Value>): nat
    decreases a, 0
  {
    if a == [] then 0 else Max(SeqHeight(a[..|a| - 1]), 1 + Height(a[|a| - 1]))
  }

  function PairsHeight(h: seq<Pair>): nat
    decreases h, 0
  {
    if h == [] then 0 else Max(PairsHeight(h[..|h| - 1]), 1 + PairHeight(h[|h| - 1]))
  }

  function PairHeight(p: Pair): nat
    decreases p, 0
  {
    Max(Height(p.key), Height(p.value))
  }

  /** The value can be packed at this depth: every part has a type that is supported, and none is
      nested deeper than 32 tables. */
  predicate Packs(v: Value, depth: nat) { Supported(v) && depth + Height(v) <= 32 }

  predicate PairPacks(p: Pair, depth: nat) { Packs(p.key, depth) && Packs(p.value, depth) }

  lemma {:induction false} SeqHeightBound(a: seq<Value>, k: nat)
    ensures SeqHeight(a) <= k <==> forall i :: 0 <= i < |a| ==> 1 + Height(a[i]) <= k
  {
    if a != [] {
      var n := |a| - 1;
      SeqHeightBound(a[..n], k);
      assert forall i :: 0 <= i < n ==> a[..n][i] == a[i];
    }
  }

  lemma {:induction false} PairsHeightBound(h: seq<Pair>, k: nat)
    ensures PairsHeight(h) <= k <==> forall i :: 0 <= i < |h| ==> 1 + PairHeight(h[i]) <= k
  {
    if h != [] {
      var n := |h| - 1;
      PairsHeightBound(h[..n], k);
      assert forall i :: 0 <= i < n ==> h[..n][i] == h[i];
    }
  }

  /** A table packs at a depth when all its parts do one level down. */
  lemma TablePacks(a: seq<Value>, h: seq<Pair>, depth: nat)
    requires depth <= 32
    ensures Packs(Tab(a, h), depth) <==>
      (forall i :: 0 <= i < |a| ==> Packs(a[i], depth + 1)) && (forall i :: 0 <= i < |h| ==> PairPacks(h[i], depth + 1))
  {
    SeqHeightBound(a, 32 - depth);
    PairsHeightBound(h, 32 - depth);
    var t := Tab(a, h);
    assert Height(t) == Max(SeqHeight(a), PairsHeight(h));
    assert Supported(t) <==> (forall i :: 0 <= i < |a| ==> Supported(a[i])) && forall i :: 0 <= i < |h| ==> PairSupported(h[i]);
    hide Height, Supported;
    assert forall i :: 0 <= i < |h| ==> (PairPacks(h[i], depth + 1) <==> PairSupported(h[i]) && 1 + PairHeight(h[i]) <= 32 - depth);
    assert forall i :: 0 <= i < |a| ==> (Packs(a[i], depth + 1) <==> Supported(a[i]) && 1 + Height(a[i]) <= 32 - depth);
  }

  // ---- writing

  const TYPE_NIL := 0
  const TYPE_BOOLEAN := 1
  const TYPE_NUMBER := 2
  const TYPE_USERDATA := 3
  const TYPE_SHORT_STRING := 4
  const TYPE_LONG_STRING := 5
  const TYPE_TABLE := 6

  /** COMBINE_TYPE, for type codes below 8 */
  function Combine(t: nat, v: nat): (r: byte)
    requires t < 8 && v < 32
    ensures r % 8 == t && r / 8 == v
  {
    t + 8 * v
  }

  function EncInt(i: int): bytes {
    if i == 0 then [Combine(TYPE_NUMBER, 0)]
    else if !IsInt32(i) then [Combine(TYPE_NUMBER, 6)] + Le(i % 0x1_0000_0000_0000_0000, 8)
    else if i < 0 then [Combine(TYPE_NUMBER, 4)] + Le(i % 0x1_0000_0000, 4)
    else if i < 0x100 then [Combine(TYPE_NUMBER, 1)] + Le(i, 1)
    else if i < 0x10000 then [Combine(TYPE_NUMBER, 2)] + Le(i, 2)
    else [Combine(TYPE_NUMBER, 4)] + Le(i, 4)
  }

  function EncStr(s: bytes): bytes {
    if |s| < 32 then [Combine(TYPE_SHORT_STRING, |s|)] + s
    else if |s| < 0x10000 then [Combine(TYPE_LONG_STRING, 2)] + Le(|s|, 2) + s
    else [Combine(TYPE_LONG_STRING, 4)] + Le(|s|, 4) + s
  }

  /** The head of a table with `n` array elements. */
  function EncSize(n: nat): bytes {
    if n >= 31 then [Combine(TYPE_TABLE, 31)] + EncInt(n) else [Combine(TYPE_TABLE, n)]
  }

  function Enc(v: Value): bytes
    decreases v, 0
  {
    match v
    case Nil => [Combine(TYPE_NIL, 0)]
    case Bool(b) => [Combine(TYPE_BOOLEAN, if b then 1 else 0)]
    case Int(i) => EncInt(i)
    case Real(w) => [Combine(TYPE_NUMBER, 8)] + Le(w, 8)
    case Pointer(w) => [Combine(TYPE_USERDATA, 0)] + Le(w, 8)
    case Str(s) => EncStr(s)
    case Tab(a, h) => EncSize(|a|) + EncSeq(a) + EncPairs(h) + [Combine(TYPE_NIL, 0)]
    case Unsupported => []
  }

  function EncSeq(a: seq<Value>): bytes
    decreases a, 0
  {
    if a == [] then [] else EncSeq(a[..|a| - 1]) + Enc(a[|a| - 1])
  }

  function EncPairs(h: seq<Pair>): bytes
    decreases h, 0
  {
    if h == [] then [] else EncPairs(h[..|h| - 1]) + EncPair(h[|h| - 1])
  }

  function EncPair(p: Pair): bytes
    decreases p, 0
  {
    Enc(p.key) + Enc(p.value)
  }

  /** The bytes of an integer: its type and width in the first one, then as many bytes as are needed. */
  lemma IntForm(i: int)
    ensures i == 0 ==> EncInt(i) == [2]
    ensures 0 < i < 0x100 ==> EncInt(i) == [10, i]
    ensures 0x100 <= i < 0x1_0000 ==> EncInt(i) == [18, i % 0x100, i / 0x100]
    ensures 0x1_0000 <= i < 0x8000_0000 ==> EncInt(i) == [34] + Le(i, 4)
    ensures -0x8000_0000 <= i < 0 ==> EncInt(i) == [34] + Le(i + 0x1_0000_0000, 4)
    ensures 0x8000_0000 <= i < 0x8000_0000_0000_0000 ==> EncInt(i) == [50] + Le(i, 8)
    ensures -0x8000_0000_0000_0000 <= i < -0x8000_0000 ==> EncInt(i) == [50] + Le(i + 0x1_0000_0000_0000_0000, 8)
  {
    hide Le;
    if 0 < i < 0x100 {
      LeOne(i);
    } else if 0x100 <= i < 0x1_0000 {
      LeTwo(i);
    }
  }

  lemma LeStep(n: nat, k: nat)
    ensures Le(n, 0) == [] && Le(n, k + 1) == [n % 256] + Le(n / 256, k)
  {
  }

  lemma LeOne(n: nat)
    requires n < 0x100
    ensures Le(n, 1) == [n]
  {
    hide Le;
    LeStep(n, 0);
    LeStep(n / 256, 0);
  }

  lemma LeTwo(n: nat)
    requires n < 0x1_0000
    ensures Le(n, 2) == [n % 0x100, n / 0x100]
  {
    hide Le;
    LeStep(n, 1);
    LeOne(n / 256);
  }

  /** The bytes of a string: up to 31 bytes the length is in the first one. */
  lemma StrForm(s: bytes)
    ensures |s| <= 31 ==> EncStr(s) == [4 + 8 * |s|] + s
    ensures 32 <= |s| < 0x1_0000 ==> EncStr(s) == [21] + Le(|s|, 2) + s
    ensures |s| >= 0x1_0000 ==> EncStr(s) == [37] + Le(|s|, 4) + s
  {
    hide EncStr, Le;
    if |s| <= 31 {
      ShortForm(s);
    } else {
      LongForm(s);
    }
  }

  lemma ShortForm(s: bytes)
    requires |s| <= 31
    ensures EncStr(s) == [4 + 8 * |s|] + s
  {
    hide Le;
    var head: byte := 4 + 8 * |s|;
    assert Combine(4, |s|) == head;
  }

  lemma LongForm(s: bytes)
    requires |s| >= 32
    ensures |s| < 0x1_0000 ==> EncStr(s) == [21] + Le(|s|, 2) + s
    ensures |s| >= 0x1_0000 ==> EncStr(s) == [37] + Le(|s|, 4) + s
  {
    hide Le;
    assert Combine(5, 2) == 21 && Combine(5, 4) == 37;
  }

  /** The bytes of the other values. A table is its size, its elements, its pairs and a nil; from 31
      elements on the size follows as an integer. */
  lemma OtherForms(v: Value)
    ensures v == Nil ==> Enc(v) == [0]
    ensures v == Bool(false) ==> Enc(v) == [1]
    ensures v == Bool(true) ==> Enc(v) == [9]
    ensures v.Real? ==> Enc(v) == [66] + Le(v.w, 8)
    ensures v.Pointer? ==> Enc(v) == [3] + Le(v.w, 8)
    ensures v.Tab? && |v.arr| < 31 ==> Enc(v) == [6 + 8 * |v.arr|] + (EncSeq(v.arr) + EncPairs(v.hash) + [0])
    ensures v.Tab? && |v.arr| >= 31 ==> Enc(v) == [254] + EncInt(|v.arr|) + (EncSeq(v.arr) + EncPairs(v.hash) + [0])
    ensures v.Int? ==> Enc(v) == EncInt(v.i)
    ensures v.Str? ==> Enc(v) == EncStr(v.s)
  {
    hide Le, EncInt, EncStr, EncSeq, EncPairs;
  }

  /** Functions, threads and full userdata are the only values that no table may hold. */
  lemma SupportedKinds(v: Value)
    ensures !Supported(Unsupported)
    ensures !v.Tab? && v != Unsupported ==> Supported(v)
    ensures v.Tab? ==> (Supported(v) <==>
      && (forall i :: 0 <= i < |v.arr| ==> Supported(v.arr[i]))
      && (forall i :: 0 <= i < |v.hash| ==> Supported(v.hash[i].key) && Supported(v.hash[i].value)))
  {
    if v.Tab? {
      assert forall i :: 0 <= i < |v.hash| ==> (PairSupported(v.hash[i]) <==> Supported(v.hash[i].key) && Supported(v.hash[i].value));
    }
  }

  /** `n` tables around a nil. */
  function Nest(n: nat): Value { if n == 0 then Nil else Tab([Nest(n - 1)], []) }

  /** The depth that is allowed, by its number. */
  lemma {:induction false} NestPacks(n: nat, depth: nat)
    requires depth <= 32
    ensures Packs(Nest(n), depth) <==> depth + n <= 32
    decreases n
  {
    NestHeight(n);
  }

  lemma {:induction false} NestHeight(n: nat)
    ensures Height(Nest(n)) == n && Supported(Nest(n))
  {
    if n > 0 {
      NestHeight(n - 1);
      var a := [Nest(n - 1)];
      assert a[..|a| - 1] == [];
      assert SeqHeight(a) == Max(0, 1 + Height(a[0]));
    }
  }

  lemma EncSeqLast(a: seq<Value>)
    ensures EncSeq([]) == []
    ensures a != [] ==> EncSeq(a) == EncSeq(a[..|a| - 1]) + Enc(a[|a| - 1])
  {
    hide Enc;
  }

  lemma {:induction false} EncSeqCons(a: seq<Value>)
    requires a != []
    ensures EncSeq(a) == Enc(a[0]) + EncSeq(a[1..])
    decreases |a|
  {
    hide EncSeq, Enc;
    var n := |a| - 1;
    EncSeqLast(a);
    EncSeqLast(a[1..]);
    if n == 0 {
      assert a[1..] == [] == a[..0];
    } else {
      EncSeqCons(a[..n]);
      assert a[..n][1..] == a[1..][..n - 1] && a[1..][n - 1] == a[n] && a[..n][0] == a[0];
    }
  }

  lemma EncPairsLast(h: seq<Pair>)
    ensures EncPairs([]) == []
    ensures h != [] ==> EncPairs(h) == EncPairs(h[..|h| - 1]) + EncPair(h[|h| - 1])
  {
    hide EncPair;
  }

  lemma {:induction false} EncPairsCons(h: seq<Pair>)
    requires h != []
    ensures EncPairs(h) == EncPair(h[0]) + EncPairs(h[1..])
    decreases |h|
  {
    hide EncPairs, EncPair;
    var n := |h| - 1;
    EncPairsLast(h);
    EncPairsLast(h[1..]);
    if n == 0 {
      assert h[1..] == [] == h[..0];
    } else {
      EncPairsCons(h[..n]);
      assert h[..n][1..] == h[1..][..n - 1] && h[1..][n - 1] == h[n] && h[..n][0] == h[0];
    }
  }

  // ---- reading

  function DecInt(cookie: nat, s: bytes): (r: Read<int>)
    ensures r.Got? ==> |r.rest| <= |s|
  {
    match cookie
    case 0 => Got(0, s)
    case 1 => DecWord(s, 1)
    case 2 => DecWord(s, 2)
    case 4 => (var n := DecWord(s, 4); if n.Bad? then Bad else Got(Signed(n.value, 0x1_0000_0000), n.rest))
    case 6 => (var n := DecWord(s, 8); if n.Bad? then Bad else Got(Signed(n.value, 0x1_0000_0000_0000_0000), n.rest))
    case _ => Bad
  }

  function DecStr(s: bytes, n: nat): (r: Read<Value>)
    ensures r.Got? ==> |r.rest| <= |s|
  {
    var b := Bytes(s, n);
    if b.Bad? then Bad else Got(Str(b.value), b.rest)
  }

  /** The size of the array part. */
  function DecSize(cookie: nat, s: bytes): (r: Read<int>)
    ensures r.Got? ==> |r.rest| <= |s|
  {
    if cookie != 31 then Got(cookie, s)
    else if s == [] || s[0] % 8 != TYPE_NUMBER || s[0] / 8 == 8 then Bad
    else
      var n := DecInt(s[0] / 8, s[1..]);
      if n.Bad? then Bad else Got(ToInt32(n.value), n.rest)
  }

  function Dec(s: bytes): (r: Read<Value>)
    ensures r.Got? ==> |r.rest| < |s|
    decreases |s|, 0
  {
    if s == [] then Bad else DecBody(s[0] % 8, s[0] / 8, s[1..])
  }

  /** push_value */
  function DecBody(t: nat, cookie: nat, s: bytes): (r: Read<Value>)
    ensures r.Got? ==> |r.rest| <= |s|
    decreases |s|, 3
  {
    if t == TYPE_NIL then Got(Nil, s)
    else if t == TYPE_BOOLEAN then Got(Bool(cookie != 0), s)
    else if t == TYPE_NUMBER then
      if cookie == 8 then
        var n := DecWord(s, 8);
        if n.Bad? then Bad else Got(Real(n.value), n.rest)
      else
        var n := DecInt(cookie, s);
        if n.Bad? then Bad else Got(Int(n.value), n.rest)
    else if t == TYPE_USERDATA then
      var n := DecWord(s, 8);
      if n.Bad? then Bad else Got(Pointer(n.value), n.rest)
    else if t == TYPE_SHORT_STRING then DecStr(s, cookie)
    else if t == TYPE_LONG_STRING then
      if cookie != 2 && cookie != 4 then Bad
      else
        var n := DecWord(s, cookie);
        if n.Bad? || n.value > INT_MAX then Bad else DecStr(n.rest, n.value)
    else if t == TYPE_TABLE then DecTable(cookie, s)
    else Bad
  }

  /** unpack_table */
  function DecTable(cookie: nat, s: bytes): (r: Read<Value>)
    ensures r.Got? ==> |r.rest| <= |s|
    decreases |s|, 2
  {
    var n := DecSize(cookie, s);
    if n.Bad? then Bad
    else
      var a := DecArray(n.rest, n.value, []);
      if a.Bad? then Bad
      else
        var h := DecPairs(a.rest, []);
        if h.Bad? then Bad else Got(Tab(a.value, h.value), h.rest)
  }

  /** `n` more elements behind those of `a`. */
  function DecArray(s: bytes, n: int, a: seq<Value>): (r: Read<seq<Value>>)
    ensures r.Got? ==> |r.rest| <= |s|
    decreases |s|, 1
  {
    if n <= 0 then Got(a, s)
    else
      var v := Dec(s);
      if v.Bad? then Bad else DecArray(v.rest, n - 1, a + [v.value])
  }

  /** Pairs up to a nil key, behind those of `h`. */
  function DecPairs(s: bytes, h: seq<Pair>): (r: Read<seq<Pair>>)
    ensures r.Got? ==> |r.rest| <= |s|
    decreases |s|, 1
  {
    var k := Dec(s);
    if k.Bad? then Bad
    else if k.value == Nil then Got(h, k.rest)
    else
      var v := Dec(k.rest);
      if v.Bad? then Bad else DecPairs(v.rest, h + [Pair(k.value, v.value)])
  }

  /** luaseri_unpack: values up to the end, behind those of `vs`. */
  function DecAll(s: bytes, vs: seq<Value>): Option<seq<Value>>
    decreases |s|
  {
    if s == [] then Some(vs)
    else
      var v := Dec(s);
      if v.Bad? then None else DecAll(v.rest, vs + [v.value])
  }

  /** What a first byte means to the reader, and which first bytes it refuses. */
  lemma FirstByte(s: bytes)
    ensures Dec([]) == Bad
    ensures s != [] && s[0] % 8 == 0 ==> Dec(s) == Got(Nil, s[1..])
    ensures s != [] && s[0] % 8 == 1 ==> Dec(s) == Got(Bool(s[0] >= 8), s[1..])
    ensures s != [] && s[0] % 8 == 2 && s[0] !in [2, 10, 18, 34, 50, 66] ==> Dec(s) == Bad
    ensures s != [] && s[0] % 8 == 5 && s[0] !in [21, 37] ==> Dec(s) == Bad
    ensures s != [] && s[0] % 8 == 7 ==> Dec(s) == Bad
  {
    hide DecTable, DecWord, DecStr;
  }

  /** A long string of 2^31 bytes or more is refused. */
  lemma TooLong(n: nat, s: bytes)
    requires 0x8000_0000 <= n < 0x1_0000_0000
    ensures Dec([37] + Le(n, 4) + s) == Bad
  {
    hide Le, FromLe, DecTable, DecStr, DecWord, DecBody;
    Pow256Values();
    WordBack(n, 4, s);
    DecLong(4, Le(n, 4) + s);
    var b := [37] + Le(n, 4) + s;
    assert b[1..] == Le(n, 4) + s;
  }

  // ---- reading undoes writing

  /** The width that is written tells how to read the number, its sign included. */
  lemma IntBack(i: int, rest: bytes)
    requires WellFormed(Int(i))
    ensures EncInt(i) != [] && EncInt(i)[0] % 8 == TYPE_NUMBER && EncInt(i)[0] / 8 != 8
    ensures DecInt(EncInt(i)[0] / 8, EncInt(i)[1..] + rest) == Got(i, rest)
  {
    hide Le, FromLe, Pow256;
    Pow256Values();
    SignedBack(i);
    if i == 0 {
      assert EncInt(i)[1..] + rest == rest;
    } else if !IsInt32(i) {
      WordBack(i % 0x1_0000_0000_0000_0000, 8, rest);
      assert EncInt(i)[1..] == Le(i % 0x1_0000_0000_0000_0000, 8);
    } else if i < 0 {
      WordBack(i % 0x1_0000_0000, 4, rest);
      assert EncInt(i)[1..] == Le(i % 0x1_0000_0000, 4);
    } else if i < 0x100 {
      WordBack(i, 1, rest);
      assert EncInt(i)[1..] == Le(i, 1);
    } else if i < 0x10000 {
      WordBack(i, 2, rest);
      assert EncInt(i)[1..] == Le(i, 2);
    } else {
      WordBack(i, 4, rest);
      assert i % 0x1_0000_0000 == i;
      assert EncInt(i)[1..] == Le(i, 4);
    }
  }

  /** The first byte is taken apart again. */
  lemma Headed(t: nat, cookie: nat, rest: bytes)
    requires t < 8 && cookie < 32
    ensures Dec([Combine(t, cookie)] + rest) == DecBody(t, cookie, rest)
  {
    hide DecBody;
    assert ([Combine(t, cookie)] + rest)[1..] == rest;
  }

  lemma StrBack(s: bytes, rest: bytes)
    requires |s| <= INT_MAX
    ensures EncStr(s) != [] && Dec(EncStr(s) + rest) == Got(Str(s), rest)
  {
    hide Le, FromLe, Pow256, DecTable, Dec, Combine;
    Pow256Values();
    BytesBack(s, rest);
    if |s| < 32 {
      Headed(TYPE_SHORT_STRING, |s|, s + rest);
      assert EncStr(s) + rest == [Combine(TYPE_SHORT_STRING, |s|)] + (s + rest);
    } else {
      LongBack(s, rest, if |s| < 0x10000 then 2 else 4);
    }
  }

  lemma DecLong(k: nat, x: bytes)
    requires k == 2 || k == 4
    ensures var n := DecWord(x, k);
      DecBody(TYPE_LONG_STRING, k, x) == if n.Bad? || n.value > INT_MAX then Bad else DecStr(n.rest, n.value)
  {
    hide DecWord, DecStr, DecTable;
  }

  lemma LongBack(s: bytes, rest: bytes, k: nat)
    requires |s| <= INT_MAX && (k == 2 || k == 4) && |s| < Pow256(k)
    ensures Dec([Combine(TYPE_LONG_STRING, k)] + Le(|s|, k) + s + rest) == Got(Str(s), rest)
  {
    hide Le, FromLe, Pow256, Dec, Combine, DecBody, DecWord;
    BytesBack(s, rest);
    WordBack(|s|, k, s + rest);
    var tail := Le(|s|, k) + (s + rest);
    DecLong(k, tail);
    Headed(TYPE_LONG_STRING, k, tail);
    assert [Combine(TYPE_LONG_STRING, k)] + Le(|s|, k) + s + rest == [Combine(TYPE_LONG_STRING, k)] + tail;
  }

  lemma SizeBack(n: nat, rest: bytes)
    requires n <= INT_MAX
    ensures var c := if n >= 31 then 31 else n;
      && EncSize(n) == [Combine(TYPE_TABLE, c)] + EncSize(n)[1..]
      && DecSize(c, EncSize(n)[1..] + rest) == Got(n, rest)
  {
    hide EncInt, DecInt;
    if n >= 31 {
      IntBack(n, rest);
      assert EncSize(n)[1..] == EncInt(n);
      assert (EncInt(n) + rest)[1..] == EncInt(n)[1..] + rest;
    } else {
      assert EncSize(n)[1..] + rest == rest;
    }
  }

  lemma WordValueBack(v: Value, rest: bytes)
    requires WellFormed(v) && (v.Real? || v.Pointer?)
    ensures Enc(v) != [] && Dec(Enc(v) + rest) == Got(v, rest)
  {
    hide Le, FromLe, Pow256, DecTable, Dec, Combine;
    Pow256Values();
    WordBack(v.w, 8, rest);
    var t, c := if v.Real? then TYPE_NUMBER else TYPE_USERDATA, if v.Real? then 8 else 0;
    Headed(t, c, Le(v.w, 8) + rest);
    assert Enc(v) + rest == [Combine(t, c)] + (Le(v.w, 8) + rest);
  }

  lemma IntValueBack(i: int, rest: bytes)
    requires WellFormed(Int(i))
    ensures EncInt(i) != [] && Dec(EncInt(i) + rest) == Got(Int(i), rest)
  {
    hide EncInt, DecInt, DecTable;
    IntBack(i, rest);
    assert (EncInt(i) + rest)[1..] == EncInt(i)[1..] + rest;
  }

  /** Unpacking what was packed gives the value back and consumes exactly its bytes. */
  lemma {:induction false} DecEnc(v: Value, rest: bytes)
    requires WellFormed(v) && Supported(v)
    ensures Enc(v) != [] && Dec(Enc(v) + rest) == Got(v, rest)
    decreases v, 2
  {
    hide DecTable, DecInt, EncStr, EncInt, Dec, Combine;
    match v
    case Nil => Headed(TYPE_NIL, 0, rest);
    case Bool(b) => Headed(TYPE_BOOLEAN, if b then 1 else 0, rest);
    case Int(i) => IntValueBack(i, rest);
    case Str(s) => StrBack(s, rest);
    case Tab(a, h) => TableBack(a, h, rest);
    case _ => WordValueBack(v, rest);
  }

  lemma PartsFormed(a: seq<Value>, h: seq<Pair>)
    requires WellFormed(Tab(a, h)) && Supported(Tab(a, h))
    ensures |a| <= INT_MAX && forall i :: 0 <= i < |a| ==> a[i] < Tab(a, h) && WellFormed(a[i]) && Supported(a[i])
    ensures forall i :: 0 <= i < |h| ==>
      h[i] < Tab(a, h) && PairFormed(h[i]) && PairSupported(h[i]) && h[i].key != Nil && !IsIndex(h[i].key, |a|)
  {
  }

  lemma EncTab(a: seq<Value>, h: seq<Pair>)
    ensures Enc(Tab(a, h)) == EncSize(|a|) + EncSeq(a) + EncPairs(h) + [Combine(TYPE_NIL, 0)]
  {
    hide EncSize, EncSeq, EncPairs, Combine;
  }

  lemma DecTab(c: nat, s: bytes)
    ensures DecBody(TYPE_TABLE, c, s) == DecTable(c, s)
  {
    hide DecTable;
  }

  lemma {:induction false} TableBack(a: seq<Value>, h: seq<Pair>, rest: bytes)
    requires WellFormed(Tab(a, h)) && Supported(Tab(a, h))
    ensures Enc(Tab(a, h)) != [] && Dec(Enc(Tab(a, h)) + rest) == Got(Tab(a, h), rest)
    decreases Tab(a, h), 1
  {
    hide EncSize, DecSize, DecArray, DecPairs, Dec, Combine, EncSeq, EncPairs, WellFormed, Supported, Enc, DecBody;
    PartsFormed(a, h);
    EncTab(a, h);
    var v, stop, c := Tab(a, h), [Combine(TYPE_NIL, 0)], if |a| >= 31 then 31 else |a|;
    var afterArray := EncPairs(h) + (stop + rest);
    var afterSize := EncSeq(a) + afterArray;
    SizeBack(|a|, afterSize);
    var tail := EncSize(|a|)[1..] + afterSize;
    Headed(TYPE_TABLE, c, tail);
    DecTab(c, tail);
    assert Enc(v) + rest == [Combine(TYPE_TABLE, c)] + tail;
    ArrayBack(v, a, [], afterArray);
    PairsBack(v, h, [], rest);
    assert [] + a == a && [] + h == h;
  }

  lemma {:induction false} ArrayBack(whole: Value, a: seq<Value>, done: seq<Value>, rest: bytes)
    requires whole.Tab? && (forall i :: 0 <= i < |a| ==> a[i] < whole && WellFormed(a[i]) && Supported(a[i]))
    ensures DecArray(EncSeq(a) + rest, |a|, done) == Got(done + a, rest)
    decreases whole, 0, |a|
  {
    hide Enc, Dec, WellFormed, Supported;
    if a == [] {
      assert EncSeq(a) + rest == rest && done + a == done;
    } else {
      EncSeqCons(a);
      DecEnc(a[0], EncSeq(a[1..]) + rest);
      assert EncSeq(a) + rest == Enc(a[0]) + (EncSeq(a[1..]) + rest);
      ArrayBack(whole, a[1..], done + [a[0]], rest);
      assert done + [a[0]] + a[1..] == done + a;
    }
  }

  lemma {:induction false} PairsBack(whole: Value, h: seq<Pair>, done: seq<Pair>, rest: bytes)
    requires whole.Tab? && (forall i :: 0 <= i < |h| ==>
      h[i] < whole && PairFormed(h[i]) && PairSupported(h[i]) && h[i].key != Nil)
    ensures DecPairs(EncPairs(h) + ([Combine(TYPE_NIL, 0)] + rest), done) == Got(done + h, rest)
    decreases whole, 0, |h|
  {
    hide Enc, Dec, WellFormed, Supported;
    var stop := [Combine(TYPE_NIL, 0)] + rest;
    if h == [] {
      NilBack(rest);
      assert EncPairs(h) + stop == stop && done + h == done;
    } else {
      EncPairsCons(h);
      var p, tail := h[0], EncPairs(h[1..]) + stop;
      DecEnc(p.key, Enc(p.value) + tail);
      DecEnc(p.value, tail);
      assert EncPairs(h) + stop == Enc(p.key) + (Enc(p.value) + tail);
      PairsBack(whole, h[1..], done + [p], rest);
      assert done + [p] + h[1..] == done + h;
    }
  }

  lemma NilBack(rest: bytes)
    ensures Dec([Combine(TYPE_NIL, 0)] + rest) == Got(Nil, rest)
  {
    assert ([Combine(TYPE_NIL, 0)] + rest)[1..] == rest;
  }

  /** The round trip of a whole message. */
  lemma {:induction false} AllBack(vs: seq<Value>, done: seq<Value>)
    requires forall i :: 0 <= i < |vs| ==> WellFormed(vs[i]) && Supported(vs[i])
    ensures DecAll(EncSeq(vs), done) == Some(done + vs)
    decreases |vs|
  {
    hide Enc, Dec, WellFormed, Supported;
    if vs == [] {
      assert done + vs == done;
    } else {
      EncSeqCons(vs);
      DecEnc(vs[0], EncSeq(vs[1..]));
      AllBack(vs[1..], done + [vs[0]]);
      assert done + [vs[0]] + vs[1..] == done + vs;
    }
  }
}
