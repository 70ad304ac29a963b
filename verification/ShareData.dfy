/** Building a frozen table from a Lua table: lua-sharedata.c up to lnewconf. */
module ShareData {
  import opened Common
  import opened ShareTable

  /** The string map of a conversion. `stack` lists the strings by index, from index 2 on. */
  class Context {
    var strings: map<bytes, int>
    var index: int
    ghost var stack: seq<bytes>

    ghost predicate Valid()
      reads this
    {
      && index == |stack| + 1 && Distinct(stack)
      && (forall i :: 0 <= i < |stack| ==> stack[i] in strings && strings[stack[i]] == i + 2)
      && (forall s :: s in strings ==> StringAt(stack, strings[s], s))
    }

    constructor ()
      ensures Valid() && stack == []
    {
      strings, index := map[], 1;
      stack := [];
    }

    /** stringindex */
    method StringIndex(s: bytes) returns (i: int)
      requires Valid()
      modifies this
      ensures Valid() && old(stack) <= stack && StringAt(stack, i, s)
      ensures s in old(strings) ==> strings == old(strings) && i == strings[s]
    {
      if s !in strings {
        index := index + 1;
        i := index;
        strings := strings[s := i];
        stack := stack + [s];
      } else {
        i := strings[s];
      }
    }

    /** convert_stringmap: every string to its place on the stack, in any order. */
    method ConvertStringMap() returns (strs: seq<bytes>)
      requires Valid()
      ensures strs == stack
    {
      strs := seq(index - 1, _ => []);
      var todo := strings.Keys;
      while todo != {}
        invariant |strs| == |stack| && todo <= strings.Keys
        invariant forall i :: 0 <= i < |stack| ==> stack[i] in todo || strs[i] == stack[i]
      {
        var s :| s in todo;
        strs := strs[strings[s] - 2 := s];
        todo := todo - {s};
      }
    }
  }

  /** calchash */
  method CalcHash(s: bytes) returns (h: nat)
    ensures h == HashOf(StrKey(s))
  {
    var v := (|s| % 0x1_0000_0000) as bv32;
    var step := |s| / 32 + 1;
    ghost var start := v;
    var at := |s|;
    while at >= step
      invariant 0 <= at <= |s|
      invariant HashFrom(s, |s|, step, start) == HashFrom(s, at, step, v)
    {
      v := v ^ ((v << 5) + (v >> 2) + s[at - 1] as bv32);
      at := at - step;
    }
    h := v as nat;
  }

  /** countsize: the number of keys outside the array part; Fail on a key of a refused type. */
  method CountSize(src: Source) returns (r: Result<nat>)
    ensures r.Ok? <==> forall i :: 0 <= i < |src.entries| ==> KeyAllowed(src.entries[i].key)
    ensures r.Ok? ==> r.value == |HashSet(src, |src.entries|)|
  {
    var n := 0;
    assert HashSet(src, 0) == {};
    for i := 0 to |src.entries|
      invariant n == |HashSet(src, i)|
      invariant forall j :: 0 <= j < i ==> KeyAllowed(src.entries[j].key)
    {
      HashSetStep(src, i);
      var key := src.entries[i].key;
      n := n + 1;
      if key.IntKey? {
        if key.k > 0 && key.k <= src.len {
          n := n - 1;
        }
      } else if !key.StrKey? && !key.TableKey? {
        return Fail;
      }
    }
    r := Ok(n);
  }

  datatype HashKey = ArrayKey(k: int) | HashKey(k: int, hash: nat, kt: KeyType)

  /** ishashkey */
  method IsHashKey(ctx: Context, len: nat, key: Key) returns (r: HashKey)
    requires ctx.Valid() && KeyAllowed(key) && (key.IntKey? ==> IsInt32(key.k))
    modifies ctx
    ensures ctx.Valid() && old(ctx.stack) <= ctx.stack
    ensures r.ArrayKey? <==> InArray(key, len)
    ensures r.ArrayKey? ==> r.k == key.k
    ensures r.HashKey? ==> KeyIs(ctx.stack, r.kt, r.k, key) && r.hash == HashOf(key)
  {
    hide KeyIs, HashFrom;
    if key.IntKey? {
      var k := ToInt32(key.k);
      IntKeyIs(ctx.stack, k);
      if k > 0 && k <= len {
        return ArrayKey(k);
      }
      r := HashKey(k, k % 0x1_0000_0000, KInt);
    } else {
      var s := StringOf(key);
      var h := CalcHash(s);
      var k := ctx.StringIndex(s);
      StringKeyIs(ctx.stack, k, key);
      r := HashKey(k, h, KStr);
    }
  }

  /** lua_tolstring; for a table it gives no string and the length 0. */
  function StringOf(key: Key): bytes { if key.StrKey? then key.s else [] }

  lemma StringKeyIs(stack: seq<bytes>, k: int, key: Key)
    requires KeyAllowed(key) && !key.IntKey? && StringAt(stack, k, StringOf(key))
    ensures KeyIs(stack, KStr, k, key) && HashOf(key) == HashOf(StrKey(StringOf(key)))
  {
    hide HashFrom;
  }

  lemma IntKeyIs(stack: seq<bytes>, k: int)
    ensures KeyIs(stack, KInt, k, IntKey(k)) && HashOf(IntKey(k)) == k % 0x1_0000_0000
  {
  }

  /** setvalue; a nested table is converted at once. */
  method SetValue(ctx: Context, value: Value) returns (r: Result<CVal>)
    requires ctx.Valid() && (value.TabVal? ==> WellFormed(value.t))
    modifies ctx
    ensures ctx.Valid() && old(ctx.stack) <= ctx.stack
    ensures r.Ok? <==> Supported(value)
    ensures r.Ok? ==> ValueIs(ctx.stack, r.value, value)
    ensures match value
      case RealVal(n) => r == Ok(CReal(n))
      case IntVal(d) => r == Ok(CInt(d))
      case BoolVal(b) => r == Ok(CBool(b))
      case StrVal(s) => r.Ok? && r.value.CString? && 2 <= r.value.index < |ctx.stack| + 2 && ctx.stack[r.value.index - 2] == s
      case TabVal(_) => r.Ok? ==> r.value.CTable?
      case Unsupported => r == Fail
    decreases value, 0
  {
    match value
    case RealVal(n) => r := Ok(CReal(n));
    case IntVal(d) => r := Ok(CInt(d));
    case StrVal(s) =>
      var i := ctx.StringIndex(s);
      r := Ok(CString(i));
    case BoolVal(b) => r := Ok(CBool(b));
    case TabVal(t) =>
      var c := ConvTable(ctx, t);
      r := if c.Ok? then Ok(CTable(c.value)) else Fail;
    case Unsupported => r := Fail;
  }

  ghost predicate ArrayDone(stack: seq<bytes>, slots: seq<CVal>, src: Source, n: nat) {
    && n <= |src.entries| && |slots| == src.len
    && forall i: nat :: i < |slots| ==> SlotIs(stack, slots[i], src, n, i)
  }

  lemma ArrayGrows(stack: seq<bytes>, more: seq<bytes>, slots: seq<CVal>, src: Source, n: nat)
    requires ArrayDone(stack, slots, src, n) && stack <= more
    ensures ArrayDone(more, slots, src, n)
  {
    hide SlotIs;
    forall i: nat | i < |slots| ensures SlotIs(more, slots[i], src, n, i) {
      SlotGrows(stack, more, slots[i], src, n, i);
    }
  }

  /** One more entry: in its array slot, or no array entry. */
  lemma ArrayStep(stack: seq<bytes>, slots: seq<CVal>, src: Source, n: nat, v: CVal)
    requires ArrayDone(stack, slots, src, n) && n < |src.entries| && WellFormed(src)
    ensures !InArray(src.entries[n].key, src.len) ==> ArrayDone(stack, slots, src, n + 1)
    ensures InArray(src.entries[n].key, src.len) && ValueIs(stack, v, src.entries[n].value) ==>
      ArrayDone(stack, slots[src.entries[n].key.k - 1 := v], src, n + 1)
  {
    hide ValueIs, WellFormed;
    var key := src.entries[n].key;
    if !InArray(key, src.len) {
      forall i: nat | i < |slots| ensures SlotIs(stack, slots[i], src, n + 1, i) {
        assert SlotIs(stack, slots[i], src, n, i);
      }
    } else if ValueIs(stack, v, src.entries[n].value) {
      var after := slots[key.k - 1 := v];
      forall i: nat | i < |slots| ensures SlotIs(stack, after[i], src, n + 1, i) {
        assert SlotIs(stack, slots[i], src, n, i);
      }
    }
  }

  /** What both passes need of the source. */
  ghost predicate Ready(src: Source) {
    WellFormed(src) && forall i :: 0 <= i < |src.entries| ==> KeyAllowed(src.entries[i].key)
  }

  lemma EntryOf(src: Source, e: nat)
    requires Ready(src) && e < |src.entries|
    ensures KeyAllowed(src.entries[e].key) && (src.entries[e].key.IntKey? ==> IsInt32(src.entries[e].key.k))
    ensures src.entries[e].value.TabVal? ==> WellFormed(src.entries[e].value.t)
    ensures Convertible(src) ==> Supported(src.entries[e].value)
    ensures HashEntry(src, e) <==> !InArray(src.entries[e].key, src.len)
  {
  }

  lemma NotNil(stack: seq<bytes>, v: CVal, value: Value)
    requires ValueIs(stack, v, value)
    ensures v != CNil
  {
  }

  /** fillnocolliding */
  method FillNoColliding(ctx: Context, src: Source, slots: array<CVal>, hash: array<Node>) returns (ok: bool, ghost own: seq<int>)
    requires ctx.Valid() && Ready(src) && slots.Length == src.len && hash.Length > 0
    requires ArrayDone(ctx.stack, slots[..], src, 0)
    requires forall i: nat :: i < hash.Length ==> hash[i].v.CNil?
    modifies ctx, slots, hash
    ensures ctx.Valid() && old(ctx.stack) <= ctx.stack
    ensures !ok ==> !Convertible(src)
    ensures ok ==> ArrayDone(ctx.stack, slots[..], src, |src.entries|)
    ensures ok ==> Owned(ctx.stack, hash[..], src, own) && PassOne(hash[..], src, |src.entries|, own)
    decreases src, 1
  {
    hide Ready, ArrayDone, Owned, PassOne, Convertible;
    own := seq(hash.Length, _ => -1);
    PassOneStarts(ctx.stack, hash[..], src, own);
    for i := 0 to |src.entries|
      invariant ctx.Valid() && old(ctx.stack) <= ctx.stack
      invariant ArrayDone(ctx.stack, slots[..], src, i)
      invariant Owned(ctx.stack, hash[..], src, own) && PassOne(hash[..], src, i, own)
    {
      ok, own := PlaceFirst(ctx, src, i, slots, hash, own);
      if !ok { return; }
    }
    ok := true;
  }

  /** One round of fillnocolliding. */
  method PlaceFirst(ctx: Context, src: Source, i: nat, slots: array<CVal>, hash: array<Node>, ghost start: seq<int>) returns (ok: bool, ghost own: seq<int>)
    requires ctx.Valid() && Ready(src) && slots.Length == src.len && hash.Length > 0 && i < |src.entries|
    requires ArrayDone(ctx.stack, slots[..], src, i)
    requires Owned(ctx.stack, hash[..], src, start) && PassOne(hash[..], src, i, start)
    modifies ctx, slots, hash
    ensures ctx.Valid() && old(ctx.stack) <= ctx.stack
    ensures !ok ==> !Convertible(src)
    ensures ok ==> ArrayDone(ctx.stack, slots[..], src, i + 1)
    ensures ok ==> Owned(ctx.stack, hash[..], src, own) && PassOne(hash[..], src, i + 1, own)
    decreases src, 0
  {
    hide Ready, ArrayDone, Owned, PassOne, ValueIs, Supported, Convertible, HashOf, KeyIs, KeyAllowed, InArray;
    EntryOf(src, i);
    var e := src.entries[i];
    ghost var stack, s, h := ctx.stack, slots[..], hash[..];
    own := start;
    ok := true;
    var k := IsHashKey(ctx, src.len, e.key);
    ghost var middle := ctx.stack;
    if k.ArrayKey? {
      var v := SetValue(ctx, e.value);
      if v.Fail? { return false, own; }
      ArrayKeyRange(e.key, src.len);
      slots[k.k - 1] := v.value;
      FirstArrayStep(stack, ctx.stack, s, h, src, i, own, v.value);
    } else {
      var m := k.hash % hash.Length;
      if hash[m].v.CNil? {
        hash[m] := hash[m].(key := k.k, keytype := k.kt, keyhash := k.hash, next := -1, nocolliding := true);
        var v := SetValue(ctx, e.value);
        if v.Fail? { return false, own; }
        hash[m] := hash[m].(v := v.value);
        assert hash[..] == h[m := hash[m]];
        KeyGrows(middle, ctx.stack, k.kt, k.k, e.key);
        FirstHashStep(stack, ctx.stack, s, h, src, i, own, hash[m]);
        own := own[m := i];
      } else {
        FirstSkipStep(stack, ctx.stack, s, h, src, i, own);
      }
    }
  }

  lemma PassOneStarts(stack: seq<bytes>, hash: seq<Node>, src: Source, own: seq<int>)
    requires Distinct(stack) && |own| == |hash| > 0
    requires forall i: nat :: i < |hash| ==> hash[i].v.CNil? && own[i] == -1
    ensures Owned(stack, hash, src, own) && PassOne(hash, src, 0, own)
  {
  }

  lemma ArrayKeyRange(key: Key, len: nat)
    requires InArray(key, len)
    ensures 0 < key.k <= len
  {
  }

  lemma KeyGrows(stack: seq<bytes>, more: seq<bytes>, kt: KeyType, k: int, key: Key)
    requires KeyIs(stack, kt, k, key) && stack <= more
    ensures KeyIs(more, kt, k, key)
  {
  }

  lemma PassOneSkip(hash: seq<Node>, src: Source, n: nat, own: seq<int>)
    requires PassOne(hash, src, n, own) && n < |src.entries| && (HashEntry(src, n) ==> Filled(hash, Home(hash, src, n)))
    ensures PassOne(hash, src, n + 1, own)
  {
    hide HashEntry, Home;
    forall e: nat | e < n + 1 && HashEntry(src, e) ensures Filled(hash, Home(hash, src, e)) {
    }
  }

  lemma FirstArrayStep(stack: seq<bytes>, more: seq<bytes>, slots: seq<CVal>, hash: seq<Node>, src: Source, n: nat, own: seq<int>, v: CVal)
    requires Ready(src) && n < |src.entries| && stack <= more && Distinct(more) && InArray(src.entries[n].key, src.len)
    requires ArrayDone(stack, slots, src, n) && Owned(stack, hash, src, own) && PassOne(hash, src, n, own)
    requires ValueIs(more, v, src.entries[n].value)
    ensures |slots| == src.len && ArrayDone(more, slots[src.entries[n].key.k - 1 := v], src, n + 1)
    ensures Owned(more, hash, src, own) && PassOne(hash, src, n + 1, own)
  {
    hide ValueIs, WellFormed, Owned, PassOne;
    ArrayGrows(stack, more, slots, src, n);
    ArrayStep(more, slots, src, n, v);
    AllOwnedGrow(stack, more, hash, src, own);
    PassOneSkip(hash, src, n, own);
  }

  lemma FirstSkipStep(stack: seq<bytes>, more: seq<bytes>, slots: seq<CVal>, hash: seq<Node>, src: Source, n: nat, own: seq<int>)
    requires Ready(src) && n < |src.entries| && stack <= more && Distinct(more) && HashEntry(src, n) && |hash| > 0
    requires ArrayDone(stack, slots, src, n) && Owned(stack, hash, src, own) && PassOne(hash, src, n, own)
    requires Filled(hash, Home(hash, src, n))
    ensures ArrayDone(more, slots, src, n + 1) && Owned(more, hash, src, own) && PassOne(hash, src, n + 1, own)
  {
    hide ValueIs, WellFormed, Owned, PassOne;
    ArrayGrows(stack, more, slots, src, n);
    ArrayStep(more, slots, src, n, CNil);
    AllOwnedGrow(stack, more, hash, src, own);
    PassOneSkip(hash, src, n, own);
  }

  lemma FirstHashStep(stack: seq<bytes>, more: seq<bytes>, slots: seq<CVal>, hash: seq<Node>, src: Source, n: nat, own: seq<int>, node: Node)
    requires Ready(src) && n < |src.entries| && stack <= more && Distinct(more) && HashEntry(src, n) && |hash| > 0
    requires ArrayDone(stack, slots, src, n) && Owned(stack, hash, src, own) && PassOne(hash, src, n, own)
    requires !Filled(hash, Home(hash, src, n))
    requires KeyIs(more, node.keytype, node.key, src.entries[n].key) && node.keyhash == HashOf(src.entries[n].key)
    requires ValueIs(more, node.v, src.entries[n].value) && node.next == -1 && node.nocolliding
    ensures var m := Home(hash, src, n);
      && ArrayDone(more, slots, src, n + 1) && |own| == |hash|
      && Owned(more, hash[m := node], src, own[m := n]) && PassOne(hash[m := node], src, n + 1, own[m := n])
  {
    hide ValueIs, WellFormed, Owned, PassOne, ArrayDone, KeyIs, HashOf;
    ArrayGrows(stack, more, slots, src, n);
    ArrayStep(more, slots, src, n, CNil);
    AllOwnedGrow(stack, more, hash, src, own);
    EntryOf(src, n);
    NotNil(more, node.v, src.entries[n].value);
    PassOneStep(more, hash, src, n, own, node);
  }

  /** The scan of fillcolliding for an empty slot. */
  method FindEmpty(hash: array<Node>) returns (s: nat)
    ensures s <= hash.Length && forall j: nat :: j < s ==> !hash[j].v.CNil?
    ensures s < hash.Length ==> hash[s].v.CNil?
  {
    s := 0;
    while s < hash.Length
      invariant s <= hash.Length && forall j: nat :: j < s ==> !hash[j].v.CNil?
    {
      if hash[s].v.CNil? { break; }
      s := s + 1;
    }
  }

  /** fillcolliding */
  method FillColliding(ctx: Context, src: Source, hash: array<Node>, ghost start: seq<int>) returns (ok: bool, ghost own: seq<int>)
    requires ctx.Valid() && Ready(src) && hash.Length == |HashSet(src, |src.entries|)|
    requires Owned(ctx.stack, hash[..], src, start) && PassTwo(hash[..], src, 0, start)
    modifies ctx, hash
    ensures ctx.Valid() && old(ctx.stack) <= ctx.stack
    ensures !ok ==> !Convertible(src)
    ensures ok ==> Owned(ctx.stack, hash[..], src, own) && PassTwo(hash[..], src, |src.entries|, own)
    decreases src, 1
  {
    hide Ready, Owned, PassTwo, Convertible, HashSet;
    own := start;
    for i := 0 to |src.entries|
      invariant ctx.Valid() && old(ctx.stack) <= ctx.stack
      invariant Owned(ctx.stack, hash[..], src, own) && PassTwo(hash[..], src, i, own)
    {
      ok, own := PlaceSecond(ctx, src, i, hash, own);
      if !ok { return; }
    }
    ok := true;
  }

  /** One round of fillcolliding. The assertion that an empty slot was found always holds. */
  method PlaceSecond(ctx: Context, src: Source, i: nat, hash: array<Node>, ghost start: seq<int>) returns (ok: bool, ghost own: seq<int>)
    requires ctx.Valid() && Ready(src) && hash.Length == |HashSet(src, |src.entries|)| && i < |src.entries|
    requires Owned(ctx.stack, hash[..], src, start) && PassTwo(hash[..], src, i, start)
    modifies ctx, hash
    ensures ctx.Valid() && old(ctx.stack) <= ctx.stack
    ensures !ok ==> !Convertible(src)
    ensures ok ==> Owned(ctx.stack, hash[..], src, own) && PassTwo(hash[..], src, i + 1, own)
    decreases src, 0
  {
    hide Ready, Owned, PassTwo, ValueIs, Supported, Convertible, HashOf, KeyIs, KeyAllowed, InArray, HashSet, Insert;
    EntryOf(src, i);
    var e := src.entries[i];
    ghost var h := hash[..];
    ghost var stack := ctx.stack;
    own := start;
    ok := true;
    var k := IsHashKey(ctx, src.len, e.key);
    ghost var middle := ctx.stack;
    AllOwnedGrow(stack, middle, h, src, own);
    if k.ArrayKey? {
      PassTwoSkip(h, src, i, own);
      return;
    }
    HashNotEmpty(src, i);
    var m := k.hash % hash.Length;
    WellFormedOf(src);
    AtMain(middle, h, src, i, own, k.kt, k.k);
    if hash[m].keytype == k.kt && hash[m].key == k.k {
      assert own[m] == i;
      PassTwoSkip(h, src, i, own);
      return;
    }
    ok, own := TakeSlot(ctx, src, i, hash, own, k);
  }

  /** The part of fillcolliding for a key that found its main position taken. */
  method TakeSlot(ctx: Context, src: Source, i: nat, hash: array<Node>, ghost start: seq<int>, k: HashKey) returns (ok: bool, ghost own: seq<int>)
    requires ctx.Valid() && Ready(src) && hash.Length == |HashSet(src, |src.entries|)| && i < |src.entries|
    requires Owned(ctx.stack, hash[..], src, start) && PassTwo(hash[..], src, i, start)
    requires HashEntry(src, i) && i !in start
    requires k.HashKey? && KeyIs(ctx.stack, k.kt, k.k, src.entries[i].key) && k.hash == HashOf(src.entries[i].key)
    modifies ctx, hash
    ensures ctx.Valid() && old(ctx.stack) <= ctx.stack
    ensures !ok ==> !Convertible(src)
    ensures ok ==> Owned(ctx.stack, hash[..], src, own) && PassTwo(hash[..], src, i + 1, own)
    decreases src.entries[i].value, 1
  {
    hide Ready, Owned, PassTwo, ValueIs, Supported, Convertible, HashOf, KeyIs, HashEntry, HashSet, Insert;
    EntryOf(src, i);
    ghost var h, stack := hash[..], ctx.stack;
    own := start;
    ok := true;
    MainNotEmpty(h, src, i, own);
    var m := k.hash % hash.Length;
    var s := FindEmpty(hash);
    RoomLeft(stack, h, src, own, i);
    assert s < hash.Length;
    hash[s] := hash[s].(next := hash[m].next);
    hash[m] := hash[m].(next := s, nocolliding := false);
    hash[s] := hash[s].(key := k.k, keytype := k.kt, keyhash := k.hash, nocolliding := false);
    var v := SetValue(ctx, src.entries[i].value);
    if v.Fail? { return false, own; }
    hash[s] := hash[s].(v := v.value);
    InsertIs(h, m, s, hash[s], hash[..]);
    AllOwnedGrow(stack, ctx.stack, h, src, own);
    KeyGrows(stack, ctx.stack, k.kt, k.k, src.entries[i].key);
    SecondHashStep(ctx.stack, h, src, i, own, s, hash[s]);
    own := own[s := i];
  }

  lemma WellFormedOf(src: Source)
    requires Ready(src)
    ensures WellFormed(src)
  {
  }

  lemma HashNotEmpty(src: Source, e: nat)
    requires HashEntry(src, e)
    ensures |HashSet(src, |src.entries|)| > 0
  {
    assert e in HashSet(src, |src.entries|);
  }

  lemma MainNotEmpty(hash: seq<Node>, src: Source, n: nat, own: seq<int>)
    requires PassTwo(hash, src, n, own) && HashEntry(src, n)
    ensures |hash| == |own| > 0 && !hash[Home(hash, src, n)].v.CNil?
  {
    assert IsMain(hash, Home(hash, src, n));
  }

  lemma InsertIs(hash: seq<Node>, m: nat, s: nat, node: Node, after: seq<Node>)
    requires m < |hash| && s < |hash| && m != s && |after| == |hash|
    requires after[m] == hash[m].(next := s, nocolliding := false) && after[s] == node
    requires node.next == hash[m].next && !node.nocolliding
    requires forall i :: 0 <= i < |hash| && i != m && i != s ==> after[i] == hash[i]
    ensures after == Insert(hash, m, s, node)
  {
  }

  lemma SecondHashStep(stack: seq<bytes>, hash: seq<Node>, src: Source, n: nat, own: seq<int>, s: nat, node: Node)
    requires Ready(src) && Owned(stack, hash, src, own) && PassTwo(hash, src, n, own) && HashEntry(src, n) && n !in own
    requires KeyIs(stack, node.keytype, node.key, src.entries[n].key) && node.keyhash == HashOf(src.entries[n].key)
    requires ValueIs(stack, node.v, src.entries[n].value)
    requires s < |hash| && !Filled(hash, s) && forall j: nat :: j < s ==> Filled(hash, j)
    ensures |own| == |hash| > 0
    ensures var r := Insert(hash, Home(hash, src, n), s, node);
      Owned(stack, r, src, own[s := n]) && PassTwo(r, src, n + 1, own[s := n])
  {
    hide ValueIs, WellFormed, Insert, KeyIs, HashOf;
    assert |own| == |hash| > 0;
    EntryOf(src, n);
    NotNil(stack, node.v, src.entries[n].value);
    PassTwoStep(stack, hash, src, n, own, s, node);
  }

  lemma PassTwoSkip(hash: seq<Node>, src: Source, n: nat, own: seq<int>)
    requires PassTwo(hash, src, n, own) && (HashEntry(src, n) ==> n in own)
    ensures PassTwo(hash, src, n + 1, own)
  {
    hide HashEntry, Home, Linked, IsMain, Main;
  }

  /** convtable. It fails exactly on keys or values of types that cannot be shared. */
  method ConvTable(ctx: Context, src: Source) returns (r: Result<Table>)
    requires ctx.Valid() && WellFormed(src)
    modifies ctx
    ensures ctx.Valid() && old(ctx.stack) <= ctx.stack
    ensures r.Ok? <==> Convertible(src)
    ensures r.Ok? ==> Represents(ctx.stack, r.value, src)
    decreases src, 2
  {
    hide WellFormed, ArrayDone, Owned, PassOne, PassTwo, Represents, HashSet, SlotIs, Find;
    var slots := new CVal[src.len](_ => CNil);
    var count := CountSize(src);
    if count.Fail? { return Fail; }
    EmptyArray(ctx.stack, slots[..], src);
    if count.value > 0 {
      var hash := NewHash(count.value);
      ghost var own;
      var ok;
      ok, own := FillNoColliding(ctx, src, slots, hash);
      if !ok { return Fail; }
      PassTwoStarts(hash[..], src, own);
      ghost var stack := ctx.stack;
      ok, own := FillColliding(ctx, src, hash, own);
      if !ok { return Fail; }
      ArrayGrows(stack, ctx.stack, slots[..], src, |src.entries|);
      WithHash(ctx.stack, slots[..], hash[..], src, own);
      r := Ok(Table(slots[..], hash[..]));
    } else {
      var ok := FillArray(ctx, src, slots);
      if !ok { return Fail; }
      WithoutHash(ctx.stack, slots[..], src);
      r := Ok(Table(slots[..], []));
    }
  }

  /** The allocation of the hash part: garbage but for two fields. */
  method NewHash(n: nat) returns (hash: array<Node>)
    ensures fresh(hash) && hash.Length == n && forall i: nat :: i < n ==> hash[i].v.CNil? && !hash[i].nocolliding
  {
    var garbage: Node := *;
    hash := new Node[n](_ => garbage);
    for i := 0 to n
      invariant forall j: nat :: j < i ==> hash[j].v.CNil? && !hash[j].nocolliding
      modifies hash
    {
      hash[i] := hash[i].(v := CNil, nocolliding := false);
    }
  }

  lemma EmptyArray(stack: seq<bytes>, slots: seq<CVal>, src: Source)
    requires |slots| == src.len && forall i: nat :: i < |slots| ==> slots[i] == CNil
    ensures ArrayDone(stack, slots, src, 0)
  {
  }

  /** All values of a table that was filled are supported. */
  lemma WithHash(stack: seq<bytes>, slots: seq<CVal>, hash: seq<Node>, src: Source, own: seq<int>)
    requires Ready(src) && ArrayDone(stack, slots, src, |src.entries|)
    requires Owned(stack, hash, src, own) && PassTwo(hash, src, |src.entries|, own)
    requires |hash| == |HashSet(src, |src.entries|)|
    ensures Represents(stack, Table(slots, hash), src) && Convertible(src)
  {
    hide Owned, PassTwo, HashSet, Represents, SlotIs;
    assert |slots| == src.len && forall i: nat :: i < |slots| ==> SlotIs(stack, slots[i], src, |src.entries|, i);
    Finished(stack, slots, hash, src, own);
    forall e | 0 <= e < |src.entries| ensures KeyAllowed(src.entries[e].key) && Supported(src.entries[e].value) {
      EntryOf(src, e);
      EntrySupported(stack, Table(slots, hash), src, e);
    }
  }

  lemma FindAt(src: Source, n: nat, e: int)
    requires WellFormed(src) && 0 <= e < n <= |src.entries|
    ensures Find(src.entries, n, KeyRead(src.entries[e].key)) == e
  {
    var r := Find(src.entries, n, KeyRead(src.entries[e].key));
    assert r >= 0;
  }

  lemma EntrySupported(stack: seq<bytes>, t: Table, src: Source, e: nat)
    requires WellFormed(src) && Represents(stack, t, src) && e < |src.entries|
    ensures Supported(src.entries[e].value)
  {
    hide Chained, WellFormed, Find, Supported;
    var key := src.entries[e].key;
    FindAt(src, |src.entries|, e);
    if InArray(key, src.len) {
      var k := key.k - 1;
      assert SlotIs(stack, t.slots[k], src, |src.entries|, k) && key == IntKey(k + 1);
      assert ValueIs(stack, t.slots[k], src.entries[e].value);
    } else {
      var own :| Owners(stack, t, src, own);
      var i :| 0 <= i < |own| && own[i] == e;
      assert OwnedBy(stack, t.hash[i], src, own[i]);
      assert Holds(stack, t.hash[i], src.entries[e]);
      assert ValueIs(stack, t.hash[i].v, src.entries[e].value);
    }
  }

  lemma WithoutHash(stack: seq<bytes>, slots: seq<CVal>, src: Source)
    requires Ready(src) && ArrayDone(stack, slots, src, |src.entries|)
    requires |HashSet(src, |src.entries|)| == 0
    ensures Represents(stack, Table(slots, []), src) && Convertible(src)
  {
    hide SlotIs, WellFormed;
    forall e: nat | e < |src.entries| ensures InArray(src.entries[e].key, src.len) {
      if HashEntry(src, e) { HashNotEmpty(src, e); }
    }
    assert Owners(stack, Table(slots, []), src, []);
    assert |slots| == src.len && forall i: nat :: i < |slots| ==> SlotIs(stack, slots[i], src, |src.entries|, i);
    assert Represents(stack, Table(slots, []), src);
    forall e | 0 <= e < |src.entries| ensures KeyAllowed(src.entries[e].key) && Supported(src.entries[e].value) {
      EntrySupported(stack, Table(slots, []), src, e);
    }
  }

  /** `lua_rawgeti` */
  function RawGet(src: Source, i: nat): Option<Value> {
    var o := Find(src.entries, |src.entries|, IntKey(i));
    if o < 0 then None else Some(src.entries[o].value)
  }

  /** The branch of convtable for a table without hash part. */
  method FillArray(ctx: Context, src: Source, slots: array<CVal>) returns (ok: bool)
    requires ctx.Valid() && Ready(src) && slots.Length == src.len
    modifies ctx, slots
    ensures ctx.Valid() && old(ctx.stack) <= ctx.stack
    ensures !ok ==> !Convertible(src)
    ensures ok ==> ArrayDone(ctx.stack, slots[..], src, |src.entries|)
    decreases src, 1
  {
    hide Ready, ValueIs, Supported, Convertible, Find, SlotIs;
    for i := 1 to src.len + 1
      invariant ctx.Valid() && old(ctx.stack) <= ctx.stack
      invariant forall j: nat :: j < i - 1 ==> SlotIs(ctx.stack, slots[j], src, |src.entries|, j)
    {
      ghost var stack, s := ctx.stack, slots[..];
      GetSmaller(src, i);
      match RawGet(src, i) {
        case None => slots[i - 1] := CNil;
        case Some(value) =>
          var v := SetValue(ctx, value);
          if v.Fail? { return false; }
          slots[i - 1] := v.value;
      }
      forall j: nat | j < i ensures SlotIs(ctx.stack, slots[j], src, |src.entries|, j) {
        if j < i - 1 {
          SlotGrows(stack, ctx.stack, s[j], src, |src.entries|, j);
        } else {
          GotSlot(ctx.stack, slots[j], src, j);
        }
      }
    }
    ok := true;
  }

  lemma GotSlot(stack: seq<bytes>, v: CVal, src: Source, i: nat)
    requires match RawGet(src, i + 1) case None => v == CNil case Some(value) => ValueIs(stack, v, value)
    ensures SlotIs(stack, v, src, |src.entries|, i)
  {
  }

  lemma GetSmaller(src: Source, i: nat)
    requires Ready(src)
    ensures RawGet(src, i).Some? ==> var value := RawGet(src, i).value;
      && value < src && (value.TabVal? ==> WellFormed(value.t)) && (Convertible(src) ==> Supported(value))
  {
    var o := Find(src.entries, |src.entries|, IntKey(i));
    if o >= 0 { EntryOf(src, o); }
  }

  datatype Conf = Conf(table: Table, stack: seq<bytes>)

  /** lnewconf */
  method NewConf(src: Source) returns (r: Result<Conf>)
    requires WellFormed(src)
    ensures r.Ok? <==> Convertible(src)
    ensures r.Ok? ==> Distinct(r.value.stack) && Represents(r.value.stack, r.value.table, src)
  {
    hide WellFormed, Represents, Convertible;
    var ctx := new Context();
    var t := ConvTable(ctx, src);
    if t.Fail? { return Fail; }
    var stack := ctx.ConvertStringMap();
    r := Ok(Conf(t.value, stack));
  }
}
