/** lua-seri.c: packing values into a chain of 128-byte blocks, and unpacking them. */
module Seri {
  import opened Common
  import opened Reading
  import opened SeriFormat

  const BLOCK_SIZE := 128

  /** `write_block`. The blocks are listed from `head` to `current`; `contents` is all that was pushed. Its
      length is an int, and sums of ints wrap around. */
  class WriteBlock {
    var blocks: seq<bytes>
    var len: int
    var ptr: nat
    ghost var contents: bytes

    ghost predicate Valid()
      reads this
    {
      && blocks != [] && (forall i :: 0 <= i < |blocks| ==> |blocks[i]| == 128)
      && ptr <= 128 && |contents| == 128 * (|blocks| - 1) + ptr && len == ToInt32(|contents|)
      && contents == Join(blocks[..|blocks| - 1]) + blocks[|blocks| - 1][..ptr]
    }

    /** wb_init */
    constructor ()
      ensures Valid() && contents == []
    {
      blocks, len, ptr := [seq(128, _ => 0)], 0, 0;
      contents := [];
    }

    /** `current = current->next = blk_alloc()` */
    method NextBlock()
      requires Valid() && ptr == 128
      modifies this
      ensures Valid() && contents == old(contents) && ptr == 0
    {
      var n := |blocks|;
      JoinStep(blocks, n - 1);
      assert blocks[n - 1][..128] == blocks[n - 1];
      var another := seq(128, _ => 0);
      assert (blocks + [another])[..n] == blocks[..n];
      blocks := blocks + [another];
      ptr := 0;
    }

    /** A copy that fits in the current block. */
    method Put(buf: bytes)
      requires Valid() && ptr + |buf| <= 128
      modifies this
      ensures Valid() && contents == old(contents) + buf && ptr == old(ptr) + |buf|
    {
      var n := |blocks| - 1;
      var b := blocks[n];
      var after := b[..ptr] + buf + b[ptr + |buf|..];
      assert after[..ptr + |buf|] == b[..ptr] + buf;
      blocks := blocks[n := after];
      assert blocks[..n] == old(blocks)[..n];
      ptr := ptr + |buf|;
      IntSum(|contents|, |buf|);
      len := ToInt32(len + |buf|);
      contents := contents + buf;
    }

    /** wb_push: across as many blocks as it takes. */
    method Push(buf: bytes)
      requires Valid()
      modifies this
      ensures Valid() && contents == old(contents) + buf
    {
      var buffer := buf;
      if ptr == BLOCK_SIZE {
        NextBlock();
      }
      while ptr > BLOCK_SIZE - |buffer|
        invariant Valid() && contents + buffer == old(contents) + buf
        decreases |buffer| + ptr
      {
        var copy := BLOCK_SIZE - ptr;
        Put(buffer[..copy]);
        buffer := buffer[copy..];
        NextBlock();
      }
      Put(buffer);
    }

    /** seri: the blocks copied one after the other into one buffer. All that was pushed comes out exactly
        when its length fits an int; else the length has wrapped around, and nothing or a front part does. */
    method Flatten() returns (out: bytes)
      requires Valid()
      ensures out == contents[..Fitting(|contents|)]
      ensures out == contents <==> |contents| <= INT_MAX
    {
      hide ToInt32, Join;
      FittingIs(|contents|);
      var size := if len > 0 then len else 0;
      var buffer := new byte[size];
      var rest, at, b := size, 0, 0;
      while rest > 0
        invariant 0 <= rest && 0 <= at && at + rest == size <= |contents| && at == 128 * b
        invariant buffer[..at] == contents[..at]
        decreases rest
        modifies buffer
      {
        BlockAt(b);
        if rest >= BLOCK_SIZE {
          CopyInto(buffer, at, blocks[b]);
          at := at + BLOCK_SIZE;
          rest := rest - BLOCK_SIZE;
          b := b + 1;
        } else {
          FrontOfBlock(contents, at, blocks[b], rest);
          CopyInto(buffer, at, blocks[b][..rest]);
          at := at + rest;
          break;
        }
      }
      assert at == size;
      assert buffer[..at] == buffer[..];
      out := buffer[..];
    }

    /** Block `b` holds the pushed bytes from 128 * b on. */
    lemma BlockAt(b: nat)
      requires Valid() && 128 * b < |contents|
      ensures b < |blocks| && |blocks[b]| == 128
      ensures |contents| - 128 * b >= 128 ==> contents[..128 * b + 128] == contents[..128 * b] + blocks[b]
      ensures |contents| - 128 * b < 128 ==> contents == contents[..128 * b] + blocks[b][..|contents| - 128 * b]
    {
      var n := |blocks| - 1;
      JoinLength(blocks[..n]);
      if b < n {
        JoinLength(blocks[..b]);
        JoinStep(blocks[..n], b);
        assert blocks[..n][..b] == blocks[..b] && blocks[..n][..b + 1] == blocks[..b + 1];
        JoinPrefix(blocks[..n], b);
        JoinPrefix(blocks[..n], b + 1);
      } else {
        assert contents[..128 * b] == Join(blocks[..n]);
        if ptr == 128 { assert blocks[b][..128] == blocks[b]; }
      }
    }
  }

  /** How much of a length an int still shows. */
  function Fitting(n: nat): nat {
    if ToInt32(n) > 0 then ToInt32(n) else 0
  }

  lemma FittingIs(n: nat)
    ensures Fitting(n) <= n && (Fitting(n) == n <==> n <= INT_MAX)
  {
  }

  lemma IntSum(a: nat, b: nat)
    ensures ToInt32(ToInt32(a) + b) == ToInt32(a + b)
  {
  }

  /** A front part of a block continues the bytes before the block. */
  lemma FrontOfBlock(contents: bytes, at: nat, block: bytes, rest: nat)
    requires |block| == 128 && rest < 128 && at + rest <= |contents|
    requires |contents| - at >= 128 ==> contents[..at + 128] == contents[..at] + block
    requires |contents| - at < 128 ==> contents == contents[..at] + block[..|contents| - at]
    ensures contents[..at + rest] == contents[..at] + block[..rest]
  {
    var k := if |contents| - at >= 128 then 128 else |contents| - at;
    assert contents[..at + k] == contents[..at] + block[..k] by { if k == 128 { assert block[..128] == block; } }
    assert contents[..at + rest] == contents[..at + k][..at + rest];
    assert (contents[..at] + block[..k])[..at + rest] == contents[..at] + block[..k][..rest];
    assert block[..k][..rest] == block[..rest];
  }

  lemma {:induction false} JoinLength(parts: seq<bytes>)
    requires forall i :: 0 <= i < |parts| ==> |parts[i]| == 128
    ensures |Join(parts)| == 128 * |parts|
  {
    if parts != [] { JoinLength(parts[1..]); }
  }

  lemma JoinPrefix(parts: seq<bytes>, k: nat)
    requires k <= |parts| && forall i :: 0 <= i < |parts| ==> |parts[i]| == 128
    ensures |Join(parts)| == 128 * |parts| && Join(parts)[..128 * k] == Join(parts[..k])
  {
    assert parts == parts[..k] + parts[k..];
    JoinConcat(parts[..k], parts[k..]);
    JoinLength(parts);
    JoinLength(parts[..k]);
  }

  // ---- packing

  method WbNil(wb: WriteBlock)
    requires wb.Valid()
    modifies wb
    ensures wb.Valid() && wb.contents == old(wb.contents) + Enc(Nil)
  {
    wb.Push([Combine(TYPE_NIL, 0)]);
  }

  method WbBoolean(wb: WriteBlock, b: bool)
    requires wb.Valid()
    modifies wb
    ensures wb.Valid() && wb.contents == old(wb.contents) + Enc(Bool(b))
  {
    wb.Push([Combine(TYPE_BOOLEAN, if b then 1 else 0)]);
  }

  /** A type byte and what follows it. */
  method PushTagged(wb: WriteBlock, t: nat, cookie: nat, body: bytes)
    requires wb.Valid() && t < 8 && cookie < 32
    modifies wb
    ensures wb.Valid() && wb.contents == old(wb.contents) + ([Combine(t, cookie)] + body)
  {
    hide Combine;
    wb.Push([Combine(t, cookie)]);
    wb.Push(body);
  }

  method WbInteger(wb: WriteBlock, v: int)
    requires wb.Valid()
    modifies wb
    ensures wb.Valid() && wb.contents == old(wb.contents) + EncInt(v)
  {
    hide Le, Combine;
    if v == 0 {
      wb.Push([Combine(TYPE_NUMBER, 0)]);
    } else if v != ToInt32(v) {
      PushTagged(wb, TYPE_NUMBER, 6, Le(v % 0x1_0000_0000_0000_0000, 8));
    } else if v < 0 {
      PushTagged(wb, TYPE_NUMBER, 4, Le(v % 0x1_0000_0000, 4));
    } else if v < 0x100 {
      PushTagged(wb, TYPE_NUMBER, 1, Le(v, 1));
    } else if v < 0x10000 {
      PushTagged(wb, TYPE_NUMBER, 2, Le(v, 2));
    } else {
      PushTagged(wb, TYPE_NUMBER, 4, Le(v, 4));
    }
  }

  method WbReal(wb: WriteBlock, w: nat)
    requires wb.Valid()
    modifies wb
    ensures wb.Valid() && wb.contents == old(wb.contents) + Enc(Real(w))
  {
    PushTagged(wb, TYPE_NUMBER, 8, Le(w, 8));
  }

  method WbPointer(wb: WriteBlock, w: nat)
    requires wb.Valid()
    modifies wb
    ensures wb.Valid() && wb.contents == old(wb.contents) + Enc(Pointer(w))
  {
    PushTagged(wb, TYPE_USERDATA, 0, Le(w, 8));
  }

  method WbString(wb: WriteBlock, s: bytes)
    requires wb.Valid()
    modifies wb
    ensures wb.Valid() && wb.contents == old(wb.contents) + EncStr(s)
  {
    hide Le, Combine, EncStr;
    StrForm(s);
    if |s| < 32 {
      wb.Push([Combine(TYPE_SHORT_STRING, |s|)]);
      if |s| > 0 {
        wb.Push(s);
      }
      Appended(old(wb.contents), [Combine(TYPE_SHORT_STRING, |s|)], s);
    } else {
      ghost var k := if |s| < 0x10000 then 2 else 4;
      if |s| < 0x10000 {
        PushTagged(wb, TYPE_LONG_STRING, 2, Le(|s|, 2));
      } else {
        PushTagged(wb, TYPE_LONG_STRING, 4, Le(|s|, 4));
      }
      wb.Push(s);
      Appended(old(wb.contents), [Combine(TYPE_LONG_STRING, k)] + Le(|s|, k), s);
    }
  }

  lemma StrForm(s: bytes)
    ensures |s| < 32 ==> EncStr(s) == [Combine(TYPE_SHORT_STRING, |s|)] + s
    ensures 32 <= |s| < 0x10000 ==> EncStr(s) == ([Combine(TYPE_LONG_STRING, 2)] + Le(|s|, 2)) + s
    ensures |s| >= 0x10000 ==> EncStr(s) == ([Combine(TYPE_LONG_STRING, 4)] + Le(|s|, 4)) + s
  {
    hide Combine, Le;
  }

  /** pack_one. It fails exactly on a value with a part nested too deep or of a type not supported. */
  method PackOne(wb: WriteBlock, v: Value, depth: nat) returns (ok: bool)
    requires wb.Valid() && WellFormed(v)
    modifies wb
    ensures wb.Valid() && (ok <==> Packs(v, depth))
    ensures ok ==> wb.contents == old(wb.contents) + Enc(v)
    decreases v, 3
  {
    hide WellFormed, SeqHeight, PairsHeight, EncInt, EncStr, EncSize, EncSeq, EncPairs, Le;
    if depth > 32 {
      return false;
    }
    ok := true;
    match v
    case Nil => WbNil(wb);
    case Int(i) => WbInteger(wb, i);
    case Real(w) => WbReal(wb, w);
    case Bool(b) => WbBoolean(wb, b);
    case Str(s) => WbString(wb, s);
    case Pointer(w) => WbPointer(wb, w);
    case Tab(a, h) =>
      TablePacks(a, h, depth);
      ok := WbTable(wb, a, h, depth + 1);
    case Unsupported => ok := false;
  }

  /** wb_table, for tables without `__pairs` */
  method WbTable(wb: WriteBlock, a: seq<Value>, h: seq<Pair>, depth: nat) returns (ok: bool)
    requires wb.Valid() && WellFormed(Tab(a, h))
    modifies wb
    ensures wb.Valid()
    ensures ok <==> (forall i :: 0 <= i < |a| ==> Packs(a[i], depth)) && forall i :: 0 <= i < |h| ==> PairPacks(h[i], depth)
    ensures ok ==> wb.contents == old(wb.contents) + Enc(Tab(a, h))
    decreases Tab(a, h), 2
  {
    hide WellFormed, Packs, PairPacks, EncSize, EncSeq, EncPairs, Enc, ToInt32, Join, Combine;
    EncTab(a, h);
    ghost var start := wb.contents;
    ok := WbTableArray(wb, a, h, depth);
    if ok {
      ok := WbTableHash(wb, a, h, depth);
      TableAppended(start, EncSize(|a|), EncSeq(a), EncPairs(h), [Combine(TYPE_NIL, 0)]);
    }
  }

  lemma TableAppended(start: bytes, a: bytes, b: bytes, c: bytes, d: bytes)
    ensures start + a + b + c + d == start + (a + b + c + d)
  {
  }

  method WbTableArray(wb: WriteBlock, a: seq<Value>, h: seq<Pair>, depth: nat) returns (ok: bool)
    requires wb.Valid() && WellFormed(Tab(a, h))
    modifies wb
    ensures wb.Valid()
    ensures ok <==> forall i :: 0 <= i < |a| ==> Packs(a[i], depth)
    ensures ok ==> wb.contents == old(wb.contents) + EncSize(|a|) + EncSeq(a)
    decreases Tab(a, h), 1
  {
    hide EncInt, EncSeq, Enc, Packs, ToInt32, Join;
    if |a| >= 31 {
      wb.Push([Combine(TYPE_TABLE, 31)]);
      WbInteger(wb, |a|);
    } else {
      wb.Push([Combine(TYPE_TABLE, |a|)]);
    }
    ghost var start := wb.contents;
    assert start == old(wb.contents) + EncSize(|a|);
    EncSeqLast([]);
    for i := 0 to |a|
      invariant wb.Valid() && wb.contents == start + EncSeq(a[..i])
      invariant forall j :: 0 <= j < i ==> Packs(a[j], depth)
    {
      EncSeqLast(a[..i + 1]);
      assert a[..i + 1][..i] == a[..i];
      ok := PackOne(wb, a[i], depth);
      if !ok { return; }
    }
    assert a[..|a|] == a;
    ok := true;
  }

  /** lua_next over a table: the array elements that are not nil, and the other pairs. */
  function Entries(a: seq<Value>, h: seq<Pair>): seq<Pair> {
    ArrayEntries(a) + h
  }

  function ArrayEntries(a: seq<Value>): (r: seq<Pair>)
    ensures forall i :: 0 <= i < |r| ==> IsIndex(r[i].key, |a|)
  {
    if a == [] then []
    else
      var n := |a| - 1;
      ArrayEntries(a[..n]) + if a[n] == Nil then [] else [Pair(Int(n + 1), a[n])]
  }

  lemma EntryAt(a: seq<Value>, h: seq<Pair>, i: nat)
    requires i < |Entries(a, h)| && WellFormed(Tab(a, h))
    ensures var e, m := Entries(a, h), |ArrayEntries(a)|;
      if i < m then IsIndex(e[i].key, |a|)
      else e[i] == h[i - m] && !IsIndex(e[i].key, |a|) && PairFormed(e[i]) && e[i].key < Tab(a, h) && e[i].value < Tab(a, h)
  {
    var m := |ArrayEntries(a)|;
    if i >= m {
      assert h[i - m] < Tab(a, h);
    }
  }

  method WbTableHash(wb: WriteBlock, a: seq<Value>, h: seq<Pair>, depth: nat) returns (ok: bool)
    requires wb.Valid() && WellFormed(Tab(a, h))
    modifies wb
    ensures wb.Valid()
    ensures ok <==> forall i :: 0 <= i < |h| ==> PairPacks(h[i], depth)
    ensures ok ==> wb.contents == old(wb.contents) + EncPairs(h) + [Combine(TYPE_NIL, 0)]
    decreases Tab(a, h), 1
  {
    hide EncPairs, Enc, Packs, WellFormed, Combine, ToInt32, Join;
    var entries := Entries(a, h);
    ghost var start, m := wb.contents, |ArrayEntries(a)|;
    EncPairsLast([]);
    for i := 0 to |entries|
      invariant wb.Valid() && wb.contents == start + EncPairs(h[..if i < m then 0 else i - m])
      invariant forall j :: 0 <= j < i - m ==> PairPacks(h[j], depth)
    {
      EntryAt(a, h, i);
      var e := entries[i];
      if e.key.Int? {
        var x := e.key.i;
        if x > 0 && x <= |a| {
          continue;
        }
      }
      ghost var k := i - m;
      EncPairsLast(h[..k + 1]);
      assert h[..k + 1][..k] == h[..k];
      ok := PackPair(wb, e, depth, a, h);
      if !ok { return; }
    }
    assert h[..|h|] == h;
    WbNil(wb);
    NilByte();
    ok := true;
  }

  lemma NilByte()
    ensures Enc(Nil) == [Combine(TYPE_NIL, 0)]
  {
  }

  method PackPair(wb: WriteBlock, p: Pair, depth: nat, ghost a: seq<Value>, ghost h: seq<Pair>) returns (ok: bool)
    requires wb.Valid() && PairFormed(p) && p.key < Tab(a, h) && p.value < Tab(a, h)
    modifies wb
    ensures wb.Valid() && (ok <==> PairPacks(p, depth))
    ensures ok ==> wb.contents == old(wb.contents) + EncPair(p)
    decreases Tab(a, h), 0
  {
    hide Packs, Enc, WellFormed;
    ok := PackOne(wb, p.key, depth);
    if ok {
      ok := PackOne(wb, p.value, depth);
    }
  }

  /** luaseri_pack. The message is whole exactly when its length fits an int. */
  method Pack(vs: seq<Value>) returns (r: Result<bytes>)
    requires forall i :: 0 <= i < |vs| ==> WellFormed(vs[i])
    ensures r.Ok? <==> forall i :: 0 <= i < |vs| ==> Packs(vs[i], 0)
    ensures r.Ok? ==> r.value == EncSeq(vs)[..Fitting(|EncSeq(vs)|)]
    ensures r.Ok? ==> (r.value == EncSeq(vs) <==> |EncSeq(vs)| <= INT_MAX)
  {
    hide Packs, EncSeq, Enc, WellFormed, ToInt32, Join;
    var wb := new WriteBlock();
    EncSeqLast([]);
    for i := 0 to |vs|
      invariant wb.Valid() && wb.contents == EncSeq(vs[..i]) && fresh(wb)
      invariant forall j :: 0 <= j < i ==> Packs(vs[j], 0)
    {
      EncSeqLast(vs[..i + 1]);
      assert vs[..i + 1][..i] == vs[..i];
      var ok := PackOne(wb, vs[i], 0);
      if !ok { return Fail; }
    }
    assert vs[..|vs|] == vs;
    var out := wb.Flatten();
    r := Ok(out);
  }

  // ---- unpacking

  class ReadBlock {
    const buffer: bytes
    var len: nat
    var ptr: nat

    ghost predicate Valid()
      reads this
    {
      ptr + len == |buffer|
    }

    ghost function Remaining(): (s: bytes)
      reads this
      requires Valid()
      ensures |s| == len
    {
      buffer[ptr..]
    }

    /** rball_init */
    constructor (b: bytes)
      ensures Valid() && Remaining() == b
    {
      buffer, len, ptr := b, |b|, 0;
    }

    /** rb_read */
    method Read(sz: nat) returns (r: Result<bytes>)
      requires Valid()
      modifies this
      ensures Valid() && ReadAs(r, Remaining(), Bytes(old(Remaining()), sz))
    {
      if len < sz {
        return Fail;
      }
      var p := ptr;
      ptr := ptr + sz;
      len := len - sz;
      r := Ok(buffer[p..p + sz]);
      assert buffer[p..][..sz] == buffer[p..p + sz] && buffer[p..][sz..] == buffer[p + sz..];
    }

    method ReadWord(sz: nat) returns (r: Result<nat>)
      requires Valid()
      modifies this
      ensures Valid() && ReadAs(r, Remaining(), DecWord(old(Remaining()), sz))
    {
      hide FromLe;
      var b := Read(sz);
      r := if b.Ok? then Ok(FromLe(b.value)) else Fail;
    }

    /** get_integer */
    method GetInteger(cookie: nat) returns (r: Result<int>)
      requires Valid()
      modifies this
      ensures Valid() && ReadAs(r, Remaining(), DecInt(cookie, old(Remaining())))
    {
      hide DecWord;
      if cookie == 0 {
        r := Ok(0);
      } else if cookie == 1 || cookie == 2 {
        var n := ReadWord(cookie);
        r := if n.Ok? then Ok(n.value) else Fail;
      } else if cookie == 4 {
        var n := ReadWord(4);
        r := if n.Ok? then Ok(Signed(n.value, 0x1_0000_0000)) else Fail;
      } else if cookie == 6 {
        var n := ReadWord(8);
        r := if n.Ok? then Ok(Signed(n.value, 0x1_0000_0000_0000_0000)) else Fail;
      } else {
        r := Fail;
      }
    }

    /** get_buffer */
    method GetBuffer(n: nat) returns (r: Result<Value>)
      requires Valid()
      modifies this
      ensures Valid() && ReadAs(r, Remaining(), DecStr(old(Remaining()), n))
    {
      var b := Read(n);
      r := if b.Ok? then Ok(Str(b.value)) else Fail;
    }

    /** The start of unpack_table. */
    method GetSize(cookie: nat) returns (r: Result<int>)
      requires Valid()
      modifies this
      ensures Valid() && ReadAs(r, Remaining(), DecSize(cookie, old(Remaining())))
    {
      hide DecInt;
      if cookie != 31 {
        return Ok(cookie);
      }
      var t := Read(1);
      if t.Fail? { return Fail; }
      assert t.value == old(Remaining())[..1];
      var head := t.value[0];
      if head % 8 != TYPE_NUMBER || head / 8 == 8 {
        return Fail;
      }
      var n := GetInteger(head / 8);
      r := if n.Ok? then Ok(ToInt32(n.value)) else Fail;
    }

    /** unpack_table */
    method UnpackTable(cookie: nat) returns (r: Result<Value>)
      requires Valid()
      modifies this
      ensures Valid() && ReadAs(r, Remaining(), DecTable(cookie, old(Remaining())))
      decreases len, 2
    {
      hide DecSize, DecArray, DecPairs;
      var n := GetSize(cookie);
      if n.Fail? { return Fail; }
      var a := UnpackArray(n.value);
      if a.Fail? { return Fail; }
      var h := UnpackPairs();
      if h.Fail? { return Fail; }
      r := Ok(Tab(a.value, h.value));
    }

    method UnpackArray(n: int) returns (r: Result<seq<Value>>)
      requires Valid()
      modifies this
      ensures Valid() && ReadAs(r, Remaining(), DecArray(old(Remaining()), n, []))
      decreases len, 1
    {
      hide Dec;
      var a := [];
      var i := 1;
      while i <= n
        invariant Valid() && len <= old(len) && 1 <= i
        invariant DecArray(old(Remaining()), n, []) == DecArray(Remaining(), n - i + 1, a)
        decreases n - i
      {
        var v := UnpackOne();
        if v.Fail? { return Fail; }
        a := a + [v.value];
        i := i + 1;
      }
      r := Ok(a);
    }

    method UnpackPairs() returns (r: Result<seq<Pair>>)
      requires Valid()
      modifies this
      ensures Valid() && ReadAs(r, Remaining(), DecPairs(old(Remaining()), []))
      decreases len, 1
    {
      hide Dec;
      var h := [];
      while true
        invariant Valid() && len <= old(len)
        invariant DecPairs(old(Remaining()), []) == DecPairs(Remaining(), h)
        decreases len
      {
        var k := UnpackOne();
        if k.Fail? { return Fail; }
        if k.value == Nil {
          return Ok(h);
        }
        var v := UnpackOne();
        if v.Fail? { return Fail; }
        h := h + [Pair(k.value, v.value)];
      }
    }

    /** push_value */
    method PushValue(t: nat, cookie: nat) returns (r: Result<Value>)
      requires Valid()
      modifies this
      ensures Valid() && ReadAs(r, Remaining(), DecBody(t, cookie, old(Remaining())))
      decreases len, 3
    {
      hide DecWord, DecInt, DecStr, DecTable;
      if t == TYPE_NIL {
        r := Ok(Nil);
      } else if t == TYPE_BOOLEAN {
        r := Ok(Bool(cookie != 0));
      } else if t == TYPE_NUMBER {
        if cookie == 8 {
          var n := ReadWord(8);
          r := if n.Ok? then Ok(Real(n.value)) else Fail;
        } else {
          var n := GetInteger(cookie);
          r := if n.Ok? then Ok(Int(n.value)) else Fail;
        }
      } else if t == TYPE_USERDATA {
        var n := ReadWord(8);
        r := if n.Ok? then Ok(Pointer(n.value)) else Fail;
      } else if t == TYPE_SHORT_STRING {
        r := GetBuffer(cookie);
      } else if t == TYPE_LONG_STRING {
        if cookie != 2 && cookie != 4 {
          return Fail;
        }
        var n := ReadWord(cookie);
        if n.Fail? || n.value > INT_MAX { return Fail; }
        r := GetBuffer(n.value);
      } else if t == TYPE_TABLE {
        r := UnpackTable(cookie);
      } else {
        r := Fail;
      }
    }

    /** unpack_one */
    method UnpackOne() returns (r: Result<Value>)
      requires Valid()
      modifies this
      ensures Valid() && ReadAs(r, Remaining(), Dec(old(Remaining())))
      ensures r.Ok? ==> len < old(len)
      decreases len, 0
    {
      hide DecBody;
      var t := Read(1);
      if t.Fail? { return Fail; }
      assert t.value == old(Remaining())[..1];
      r := PushValue(t.value[0] % 8, t.value[0] / 8);
    }
  }

  /** luaseri_unpack. An empty message holds no value. */
  method Unpack(b: bytes) returns (r: Result<seq<Value>>)
    ensures match DecAll(b, []) case Some(vs) => r == Ok(vs) case None => r == Fail
  {
    hide Dec, DecBody;
    if |b| == 0 {
      return Ok([]);
    }
    var rb := new ReadBlock(b);
    var vs := [];
    while true
      invariant rb.Valid() && fresh(rb)
      invariant DecAll(b, []) == DecAll(rb.Remaining(), vs)
      decreases rb.len
    {
      if rb.len < 1 {
        break;
      }
      var v := rb.UnpackOne();
      if v.Fail? { return Fail; }
      vs := vs + [v.value];
    }
    r := Ok(vs);
  }

  /** A message packed by its sender and unpacked by its receiver. */
  method Transfer(vs: seq<Value>) returns (r: Result<seq<Value>>)
    requires forall i :: 0 <= i < |vs| ==> WellFormed(vs[i])
    ensures r.Ok? ==> forall i :: 0 <= i < |vs| ==> Packs(vs[i], 0)
    ensures (forall i :: 0 <= i < |vs| ==> Packs(vs[i], 0)) && |EncSeq(vs)| <= INT_MAX ==> r == Ok(vs)
  {
    hide EncSeq, DecAll, WellFormed, Supported, Height, Fitting;
    var b := Pack(vs);
    if b.Fail? { return Fail; }
    assert forall i :: 0 <= i < |vs| ==> Packs(vs[i], 0) ==> Supported(vs[i]);
    AllBack(vs, []);
    r := Unpack(b.value);
    assert [] + vs == vs;
  }
}
