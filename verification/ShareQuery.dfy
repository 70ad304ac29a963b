/** Reading a frozen table: lookup_key, lindexconf and lnextkey. */
module ShareQuery {
  import opened Common
  import opened ShareTable
  import opened ShareData

  /** Keys that are asked for, and that come out: integers and strings. */
  predicate Askable(key: Key) { key.IntKey? || key.StrKey? }

  /** The key a slot holds. */
  function KeyOf(stack: seq<bytes>, n: Node): Key {
    if n.keytype == KInt then IntKey(n.key) else if 2 <= n.key < |stack| + 2 then StrKey(stack[n.key - 2]) else OtherKey
  }

  /** Each slot holds a key and its hash, and no two the same key. */
  ghost predicate Keyed(stack: seq<bytes>, hash: seq<Node>) {
    && (forall i: nat :: i < |hash| ==> Askable(KeyOf(stack, hash[i])) && hash[i].keyhash == HashOf(KeyOf(stack, hash[i])))
    && (forall i: nat, j: nat :: i < j < |hash| ==> KeyOf(stack, hash[i]) != KeyOf(stack, hash[j]))
  }

  lemma HolderOf(stack: seq<bytes>, t: Table, src: Source, own: seq<int>, i: nat)
    requires Owners(stack, t, src, own) && i < |t.hash|
    ensures HashEntry(src, own[i]) && KeyOf(stack, t.hash[i]) == KeyRead(src.entries[own[i]].key)
    ensures Askable(KeyOf(stack, t.hash[i])) && t.hash[i].keyhash == HashOf(KeyOf(stack, t.hash[i]))
    ensures ValueIs(stack, t.hash[i].v, src.entries[own[i]].value)
  {
    hide HashOf, Supported;
    HashRead(src.entries[own[i]].key);
    assert OwnedBy(stack, t.hash[i], src, own[i]);
    assert Holds(stack, t.hash[i], src.entries[own[i]]);
  }

  /** The hash part of a faithful table holds exactly the hash keys of the source, each once. */
  lemma HashKeysAreSource(stack: seq<bytes>, t: Table, src: Source)
    requires Represents(stack, t, src) && WellFormed(src)
    ensures Keyed(stack, t.hash) && Chained(t.hash)
    ensures forall i: nat :: i < |t.hash| ==> HashSlotOk(stack, t, src, i)
    ensures forall e: nat :: HashEntry(src, e) ==> exists i: nat :: i < |t.hash| && KeyOf(stack, t.hash[i]) == KeyRead(src.entries[e].key)
  {
    hide WellFormed, ValueIs, KeyOf, Askable, HashOf, OwnedBy, Find;
    var own :| Owners(stack, t, src, own);
    forall i: nat | i < |t.hash|
      ensures HashSlotOk(stack, t, src, i) && Askable(KeyOf(stack, t.hash[i])) && t.hash[i].keyhash == HashOf(KeyOf(stack, t.hash[i]))
    {
      HolderOf(stack, t, src, own, i);
      FindAt(src, |src.entries|, own[i]);
    }
    forall i: nat, j: nat | i < j < |t.hash| ensures KeyOf(stack, t.hash[i]) != KeyOf(stack, t.hash[j]) {
      HolderOf(stack, t, src, own, i);
      HolderOf(stack, t, src, own, j);
      FindAt(src, |src.entries|, own[i]);
      FindAt(src, |src.entries|, own[j]);
    }
    forall e: nat | HashEntry(src, e) ensures exists i: nat :: i < |t.hash| && KeyOf(stack, t.hash[i]) == KeyRead(src.entries[e].key) {
      var i :| 0 <= i < |own| && own[i] == e;
      HolderOf(stack, t, src, own, i);
      assert KeyOf(stack, t.hash[i]) == KeyRead(src.entries[e].key);
    }
  }

  /** The key of slot `i` is in the source, outside the array part, with the slot's value. */
  ghost predicate HashSlotOk(stack: seq<bytes>, t: Table, src: Source, i: nat)
    requires i < |t.hash|
  {
    var key := KeyOf(stack, t.hash[i]);
    var e := Find(src.entries, |src.entries|, key);
    e >= 0 && !InArray(key, src.len) && ValueIs(stack, t.hash[i].v, src.entries[e].value)
  }

  /** The walk of lookup_key is at `n`; the key, if it is in the table, is still ahead. */
  ghost predicate Ahead(stack: seq<bytes>, hash: seq<Node>, q: Key, n: nat)
    requires n < |hash|
  {
    forall i: nat :: i < |hash| && KeyOf(stack, hash[i]) == q ==> i == n || (i < Bound(hash, n) && Sub(hash, Main(hash, n), i))
  }

  lemma AheadAtStart(stack: seq<bytes>, hash: seq<Node>, q: Key)
    requires Chained(hash) && Keyed(stack, hash) && |hash| > 0
    ensures Ahead(stack, hash, q, HashOf(q) % |hash|)
  {
    hide KeyOf, Askable, HashOf;
    var m := HashOf(q) % |hash|;
    forall i: nat | i < |hash| && KeyOf(stack, hash[i]) == q ensures i == m || (i < Bound(hash, m) && Sub(hash, Main(hash, m), i)) {
      assert Filled(hash, i);
      assert IsMain(hash, Main(hash, i)) && Main(hash, i) == m;
    }
  }

  /** Leaving a slot that does not hold the key. */
  lemma AheadNext(stack: seq<bytes>, hash: seq<Node>, q: Key, n: nat)
    requires Chained(hash) && n < |hash| && Ahead(stack, hash, q, n) && KeyOf(stack, hash[n]) != q
    ensures hash[n].next < |hash|
    ensures hash[n].next < 0 ==> forall i: nat :: i < |hash| ==> KeyOf(stack, hash[i]) != q
    ensures hash[n].next >= 0 ==> Ahead(stack, hash, q, hash[n].next) && Bound(hash, hash[n].next) < Bound(hash, n)
  {
    hide KeyOf;
    assert Filled(hash, n) && NextOk(hash, n);
  }

  /** The early exit of lookup_key: another key, alone at its main position. */
  lemma AloneThere(stack: seq<bytes>, hash: seq<Node>, q: Key, n: nat)
    requires Chained(hash) && Keyed(stack, hash) && n < |hash| && Ahead(stack, hash, q, n)
    requires hash[n].keyhash != HashOf(q) && hash[n].nocolliding
    ensures forall i: nat :: i < |hash| ==> KeyOf(stack, hash[i]) != q
  {
    hide Askable, HashOf;
    assert Filled(hash, n) && NextOk(hash, n);
    AheadNext(stack, hash, q, n);
  }

  /** A query: an int or a string. */
  predicate Asks(q: Key, key: int, kt: KeyType, str: bytes) {
    if kt == KInt then q == IntKey(key) else q == StrKey(str)
  }

  lemma SameKey(stack: seq<bytes>, n: Node, q: Key, key: int, kt: KeyType, str: bytes)
    requires Asks(q, key, kt, str) && Askable(KeyOf(stack, n))
    ensures n.keytype == KStr ==> 2 <= n.key < |stack| + 2
    ensures KeyOf(stack, n) == q <==> n.keytype == kt && if kt == KInt then n.key == key else stack[n.key - 2] == str
  {
  }

  /** lookup_key: the slot that holds the key, or -1 for NULL. */
  method Lookup(stack: seq<bytes>, hash: seq<Node>, keyhash: nat, key: int, kt: KeyType, str: bytes, ghost q: Key) returns (r: int)
    requires Chained(hash) && Keyed(stack, hash) && Asks(q, key, kt, str) && keyhash == HashOf(q)
    ensures -1 <= r < |hash|
    ensures r >= 0 ==> KeyOf(stack, hash[r]) == q
    ensures r == -1 ==> forall i: nat :: i < |hash| ==> KeyOf(stack, hash[i]) != q
  {
    hide Chained, KeyOf, HashOf, Ahead, Asks, Bound;
    if |hash| == 0 {
      return -1;
    }
    var n := keyhash % |hash|;
    AheadAtStart(stack, hash, q);
    if keyhash != hash[n].keyhash && hash[n].nocolliding {
      AloneThere(stack, hash, q, n);
      return -1;
    }
    while true
      invariant 0 <= n < |hash| && Ahead(stack, hash, q, n)
      decreases Bound(hash, n)
    {
      SameKey(stack, hash[n], q, key, kt, str);
      if keyhash == hash[n].keyhash {
        if hash[n].keytype == KInt {
          if kt == KInt && hash[n].key == key {
            return n;
          }
        } else {
          if kt == KStr {
            var str2 := stack[hash[n].key - 2];
            if str == str2 {
              return n;
            }
          }
        }
      }
      AheadNext(stack, hash, q, n);
      if hash[n].next < 0 {
        return -1;
      }
      n := hash[n].next;
    }
  }

  /** The key that a query is taken for: an integer loses its high bits. */
  function Taken(q: Key): (r: Key)
    ensures (q.IntKey? ==> IsInt32(q.k)) ==> r == q
  {
    if q.IntKey? then IntKey(ToInt32(q.k)) else q
  }

  /** A value read agrees with the source's value for the key. */
  ghost predicate Agrees(conf: Conf, v: CVal, src: Source, q: Key) {
    var e := Find(src.entries, |src.entries|, q);
    if e < 0 then v == CNil else ValueIs(conf.stack, v, src.entries[e].value)
  }

  ghost predicate Faithful(conf: Conf, src: Source) {
    WellFormed(src) && Distinct(conf.stack) && Represents(conf.stack, conf.table, src)
  }

  lemma ArrayAgrees(conf: Conf, src: Source, k: int)
    requires Faithful(conf, src) && 0 < k <= |conf.table.slots|
    ensures Agrees(conf, conf.table.slots[k - 1], src, IntKey(k))
  {
    assert SlotIs(conf.stack, conf.table.slots[k - 1], src, |src.entries|, k - 1);
    assert IntKey(k) == IntKey((k - 1) + 1);
  }

  lemma HashAgrees(conf: Conf, src: Source, q: Key, r: int)
    requires Faithful(conf, src) && !InArray(q, |conf.table.slots|)
    requires -1 <= r < |conf.table.hash| && (r >= 0 ==> KeyOf(conf.stack, conf.table.hash[r]) == q)
    requires r == -1 ==> forall i: nat :: i < |conf.table.hash| ==> KeyOf(conf.stack, conf.table.hash[i]) != q
    ensures Agrees(conf, if r < 0 then CNil else conf.table.hash[r].v, src, q)
  {
    hide WellFormed, ValueIs, KeyOf, Chained, Keyed, Owners, SlotIs;
    HashKeysAreSource(conf.stack, conf.table, src);
    if r >= 0 {
      assert HashSlotOk(conf.stack, conf.table, src, r);
    } else {
      var e := Find(src.entries, |src.entries|, q);
      assert e >= 0 ==> HashEntry(src, e);
    }
  }

  /** What a caller in Lua gets. */
  datatype LuaValue = LuaNil | LuaReal(n: nat) | LuaInt(d: int) | LuaString(s: bytes) | LuaBool(b: bool) | LuaTable(t: Table)

  /** pushvalue; strings are taken from the string table. */
  function PushValue(stack: seq<bytes>, v: CVal): LuaValue {
    match v
    case CNil => LuaNil
    case CReal(n) => LuaReal(n)
    case CInt(d) => LuaInt(d)
    case CString(i) => if 2 <= i < |stack| + 2 then LuaString(stack[i - 2]) else LuaNil
    case CBool(b) => LuaBool(b)
    case CTable(t) => LuaTable(t)
  }

  /** A value that is stored for one of the source comes out as that one. */
  lemma Pushed(stack: seq<bytes>, v: CVal, value: Value)
    requires ValueIs(stack, v, value)
    ensures value.RealVal? ==> PushValue(stack, v) == LuaReal(value.n)
    ensures value.IntVal? ==> PushValue(stack, v) == LuaInt(value.d)
    ensures value.StrVal? ==> PushValue(stack, v) == LuaString(value.s)
    ensures value.BoolVal? ==> PushValue(stack, v) == LuaBool(value.b)
    ensures value.TabVal? ==> PushValue(stack, v).LuaTable? && Represents(stack, PushValue(stack, v).t, value.t)
    ensures !value.Unsupported?
  {
  }

  /** lindexconf: the source's own value for the key, nil if it has none. A table that comes out can be indexed in
      turn. */
  method Index(conf: Conf, q: Key, ghost src: Source) returns (r: Result<LuaValue>)
    requires Faithful(conf, src)
    ensures r.Ok? <==> q.IntKey? || q.StrKey?
    ensures r.Ok? && Find(src.entries, |src.entries|, Taken(q)) < 0 ==> r.value == LuaNil
    ensures r.Ok? && Find(src.entries, |src.entries|, Taken(q)) >= 0 ==>
      match src.entries[Find(src.entries, |src.entries|, Taken(q))].value
      case RealVal(n) => r.value == LuaReal(n)
      case IntVal(d) => r.value == LuaInt(d)
      case StrVal(s) => r.value == LuaString(s)
      case BoolVal(b) => r.value == LuaBool(b)
      case TabVal(t) => r.value.LuaTable? && Faithful(Conf(r.value.t, conf.stack), t)
      case Unsupported => false
  {
    hide Find, Represents, ValueIs, PushValue, WellFormed, Taken, Agrees, Faithful;
    var v := IndexRaw(conf, q, src);
    if v.Fail? { return Fail; }
    AgreedPushed(conf, src, Taken(q), v.value);
    r := Ok(PushValue(conf.stack, v.value));
  }

  lemma AgreedPushed(conf: Conf, src: Source, q: Key, v: CVal)
    requires Faithful(conf, src) && Agrees(conf, v, src, q)
    ensures var e, r := Find(src.entries, |src.entries|, q), PushValue(conf.stack, v);
      if e < 0 then r == LuaNil else
        match src.entries[e].value
        case RealVal(n) => r == LuaReal(n)
        case IntVal(d) => r == LuaInt(d)
        case StrVal(s) => r == LuaString(s)
        case BoolVal(b) => r == LuaBool(b)
        case TabVal(t) => r.LuaTable? && Faithful(Conf(r.t, conf.stack), t)
        case Unsupported => false
  {
    hide ValueIs, Represents, Supported;
    var e := Find(src.entries, |src.entries|, q);
    if e >= 0 {
      Pushed(conf.stack, v, src.entries[e].value);
    }
  }

  /** The part of lindexconf that finds the value. */
  method IndexRaw(conf: Conf, q: Key, ghost src: Source) returns (r: Result<CVal>)
    requires Faithful(conf, src)
    ensures r.Ok? <==> Askable(q)
    ensures r.Ok? ==> Agrees(conf, r.value, src, Taken(q))
  {
    hide WellFormed, Represents, Chained, Keyed, KeyOf, HashOf, ValueIs, Agrees, Faithful;
    FaithfulKeyed(conf, src);
    var key, kt, str, keyhash := 0, KStr, [], 0;
    match q {
      case FloatKey => return Fail;
      case TableKey => return Fail;
      case OtherKey => return Fail;
      case IntKey(k) =>
        key := ToInt32(k);
        if key > 0 && key <= |conf.table.slots| {
          ArrayAgrees(conf, src, key);
          return Ok(conf.table.slots[key - 1]);
        }
        kt := KInt;
        keyhash := key % 0x1_0000_0000;
        HashOfInt(key);
      case StrKey(s) =>
        str := s;
        keyhash := CalcHash(s);
    }
    var n := Lookup(conf.stack, conf.table.hash, keyhash, key, kt, str, Taken(q));
    HashAgrees(conf, src, Taken(q), n);
    r := Ok(if n < 0 then CNil else conf.table.hash[n].v);
  }

  lemma HashOfInt(k: int)
    ensures HashOf(IntKey(k)) == k % 0x1_0000_0000
  {
  }

  lemma FaithfulKeyed(conf: Conf, src: Source)
    requires Faithful(conf, src)
    ensures Keyed(conf.stack, conf.table.hash) && Chained(conf.table.hash)
  {
    HashKeysAreSource(conf.stack, conf.table, src);
  }

  /** Any integer may be asked for: the answer is the source's, exactly when the integer fits in an
      int or the int it is cut to is no key of the source. */
  lemma CutQueryRight(src: Source, k: int)
    requires WellFormed(src)
    ensures Find(src.entries, |src.entries|, Taken(IntKey(k))) == Find(src.entries, |src.entries|, IntKey(k))
      <==> IsInt32(k) || Find(src.entries, |src.entries|, IntKey(ToInt32(k))) == -1
  {
    var e := Find(src.entries, |src.entries|, IntKey(k));
    if e >= 0 { assert src.entries[e].key == IntKey(k); }
  }

  /** The value that a path of keys leads to in the source. */
  function Reached(src: Source, path: seq<Key>): Option<Value>
    requires path != []
    decreases |path|
  {
    var e := Find(src.entries, |src.entries|, path[0]);
    if e < 0 then None
    else if |path| == 1 then Some(src.entries[e].value)
    else match src.entries[e].value
      case TabVal(t) => Reached(t, path[1..])
      case _ => None
  }

  /** Indexing level by level leads to the source's own value. */
  method IndexPath(conf: Conf, path: seq<Key>, ghost src: Source) returns (r: LuaValue)
    requires Faithful(conf, src) && path != []
    requires forall i :: 0 <= i < |path| ==> path[i].StrKey? || (path[i].IntKey? && IsInt32(path[i].k))
    ensures match Reached(src, path)
      case None => r == LuaNil
      case Some(RealVal(n)) => r == LuaReal(n)
      case Some(IntVal(d)) => r == LuaInt(d)
      case Some(StrVal(s)) => r == LuaString(s)
      case Some(BoolVal(b)) => r == LuaBool(b)
      case Some(TabVal(t)) => r.LuaTable? && Faithful(Conf(r.t, conf.stack), t)
      case Some(Unsupported) => false
    decreases |path|
  {
    hide Find, Represents, WellFormed, Faithful;
    assert Taken(path[0]) == path[0];
    var first := Index(conf, path[0], src);
    if |path| == 1 {
      return first.value;
    }
    if !first.value.LuaTable? {
      return LuaNil;
    }
    ghost var e := Find(src.entries, |src.entries|, path[0]);
    r := IndexPath(Conf(first.value.t, conf.stack), path[1..], src.entries[e].value.t);
  }

  // ---- iteration

  /** The keys of the array part from slot `i` on. */
  function ArrayKeys(slots: seq<CVal>, i: nat): seq<Key>
    decreases |slots| - i
  {
    if i >= |slots| then [] else if slots[i].CNil? then ArrayKeys(slots, i + 1) else [IntKey(i + 1)] + ArrayKeys(slots, i + 1)
  }

  function HashKeys(stack: seq<bytes>, hash: seq<Node>): (r: seq<Key>)
    ensures |r| == |hash|
  {
    seq(|hash|, i requires 0 <= i < |hash| => KeyOf(stack, hash[i]))
  }

  /** The order of visit: the array slots that hold a value, then the hash slots. */
  function Order(conf: Conf): seq<Key> {
    ArrayKeys(conf.table.slots, 0) + HashKeys(conf.stack, conf.table.hash)
  }

  /** A key of the array part is followed by those of the slots behind its own. */
  lemma {:induction false} ArrayKeyAt(slots: seq<CVal>, i: nat, j: nat)
    requires j < |ArrayKeys(slots, i)|
    ensures ArrayKeys(slots, i)[j].IntKey?
    ensures var k := ArrayKeys(slots, i)[j].k;
      && i < k <= |slots| && !slots[k - 1].CNil? && ArrayKeys(slots, i)[j + 1..] == ArrayKeys(slots, k)
      && forall j' :: 0 <= j' < j ==> ArrayKeys(slots, i)[j'] != ArrayKeys(slots, i)[j]
    decreases |slots| - i
  {
    if slots[i].CNil? {
      ArrayKeyAt(slots, i + 1, j);
    } else if j > 0 {
      ArrayKeyAt(slots, i + 1, j - 1);
      var rest := ArrayKeys(slots, i + 1);
      assert ArrayKeys(slots, i)[j + 1..] == rest[j..];
      forall j' | 0 <= j' < j ensures ArrayKeys(slots, i)[j'] != ArrayKeys(slots, i)[j] {
        if j' > 0 { assert rest[j' - 1] != rest[j - 1]; }
      }
    } else {
      assert ArrayKeys(slots, i)[1..] == ArrayKeys(slots, i + 1);
    }
  }

  lemma {:induction false} ArrayKeyIn(slots: seq<CVal>, i: nat, k: nat)
    requires i < k <= |slots| && !slots[k - 1].CNil?
    ensures IntKey(k) in ArrayKeys(slots, i)
    decreases |slots| - i
  {
    if i + 1 < k {
      ArrayKeyIn(slots, i + 1, k);
    }
  }

  /** Every key of the source is visited exactly once, and no other. */
  lemma OrderIsSource(conf: Conf, src: Source)
    requires Faithful(conf, src)
    ensures Distinct(Order(conf))
    ensures forall q :: q in Order(conf) <==> Find(src.entries, |src.entries|, q) >= 0
  {
    hide WellFormed, Represents, KeyOf, Chained, ValueIs;
    var a, h := ArrayKeys(conf.table.slots, 0), HashKeys(conf.stack, conf.table.hash);
    HashKeysAreSource(conf.stack, conf.table, src);
    SlotCount(conf, src);
    forall j: nat | j < |a| ensures InArray(a[j], src.len) && Find(src.entries, |src.entries|, a[j]) >= 0 {
      ArrayKeyAt(conf.table.slots, 0, j);
      ArrayAgrees(conf, src, a[j].k);
    }
    forall j: nat | j < |h| ensures !InArray(h[j], src.len) && Find(src.entries, |src.entries|, h[j]) >= 0 {
      assert HashSlotOk(conf.stack, conf.table, src, j);
    }
    forall i, j | 0 <= i < j < |a| + |h| ensures (a + h)[i] != (a + h)[j] {
      if j < |a| {
        ArrayKeyAt(conf.table.slots, 0, j);
      } else if i < |a| {
        assert InArray(a[i], src.len) && !InArray(h[j - |a|], src.len);
      }
    }
    forall q | Find(src.entries, |src.entries|, q) >= 0 ensures q in a + h {
      Visited(conf, src, q);
    }
  }

  lemma SlotCount(conf: Conf, src: Source)
    requires Faithful(conf, src)
    ensures |conf.table.slots| == src.len
  {
  }

  lemma Visited(conf: Conf, src: Source, q: Key)
    requires Faithful(conf, src) && Find(src.entries, |src.entries|, q) >= 0
    ensures q in ArrayKeys(conf.table.slots, 0) || q in HashKeys(conf.stack, conf.table.hash)
  {
    hide WellFormed, Represents, KeyOf, Chained;
    var e := Find(src.entries, |src.entries|, q);
    SlotCount(conf, src);
    if InArray(q, src.len) {
      ArrayAgrees(conf, src, q.k);
      ArrayKeyIn(conf.table.slots, 0, q.k);
    } else {
      HashKeysAreSource(conf.stack, conf.table, src);
      assert HashEntry(src, e);
      var i: nat :| i < |conf.table.hash| && KeyOf(conf.stack, conf.table.hash[i]) == q;
      assert HashKeys(conf.stack, conf.table.hash)[i] == q;
    }
  }

  /** The first array slot with a value from `i` on, else the first hash slot. */
  method FirstFrom(conf: Conf, from: nat) returns (r: Option<Key>)
    requires from <= |conf.table.slots|
    ensures var rest := ArrayKeys(conf.table.slots, from) + HashKeys(conf.stack, conf.table.hash);
      r == if rest == [] then None else Some(rest[0])
  {
    for i := from to |conf.table.slots|
      invariant ArrayKeys(conf.table.slots, from) == ArrayKeys(conf.table.slots, i)
    {
      if !conf.table.slots[i].CNil? {
        return Some(IntKey(i + 1));
      }
    }
    r := if |conf.table.hash| > 0 then Some(KeyOf(conf.stack, conf.table.hash[0])) else None;
  }

  function At(order: seq<Key>, i: nat): Option<Key> {
    if i < |order| then Some(order[i]) else None
  }

  /** lnextkey, for keys of the allowed types; None stands for nil. */
  method NextKey(conf: Conf, q: Option<Key>, ghost src: Source) returns (r: Option<Key>)
    requires Faithful(conf, src) && (q.Some? ==> Askable(q.value))
    ensures q == None ==> r == At(Order(conf), 0)
    ensures forall i: nat :: q.Some? && q == At(Order(conf), i) ==> r == At(Order(conf), i + 1)
  {
    hide WellFormed, Represents, Chained, Keyed, KeyOf, HashOf, Faithful, ArrayKeys, HashKeys;
    if q == None {
      r := FirstFrom(conf, 0);
      return;
    }
    OrderKeysInt32(conf, src);
    var key, kt, str, keyhash := 0, KStr, [], 0;
    match q.value {
      case IntKey(k) =>
        key := ToInt32(k);
        if key > 0 && key <= |conf.table.slots| {
          AfterArrayKey(conf, src, key);
          r := FirstFrom(conf, key);
          return;
        }
        kt := KInt;
        keyhash := key % 0x1_0000_0000;
        HashOfInt(key);
      case StrKey(s) =>
        str := s;
        keyhash := CalcHash(s);
    }
    FaithfulKeyed(conf, src);
    var n := Lookup(conf.stack, conf.table.hash, keyhash, key, kt, str, Taken(q.value));
    AfterHashKey(conf, src, Taken(q.value), n);
    if n >= 0 {
      n := n + 1;
      if n == |conf.table.hash| {
        return None;
      }
      return Some(KeyOf(conf.stack, conf.table.hash[n]));
    } else {
      return None;
    }
  }

  /** Keys that are visited are taken as they are. */
  lemma OrderKeysInt32(conf: Conf, src: Source)
    requires Faithful(conf, src)
    ensures forall i: nat :: i < |Order(conf)| ==> Taken(Order(conf)[i]) == Order(conf)[i]
  {
    hide Represents;
    OrderIsSource(conf, src);
    forall i: nat | i < |Order(conf)| ensures Taken(Order(conf)[i]) == Order(conf)[i] {
      var e := Find(src.entries, |src.entries|, Order(conf)[i]);
      assert Order(conf)[i] in Order(conf);
      assert KeyRead(src.entries[e].key) == Order(conf)[i];
    }
  }

  lemma AfterArrayKey(conf: Conf, src: Source, k: int)
    requires Faithful(conf, src) && 0 < k <= |conf.table.slots|
    ensures forall i: nat :: i < |Order(conf)| && Order(conf)[i] == IntKey(k) ==>
      Order(conf)[i + 1..] == ArrayKeys(conf.table.slots, k) + HashKeys(conf.stack, conf.table.hash)
  {
    hide WellFormed, Represents, KeyOf, Chained;
    var a, h := ArrayKeys(conf.table.slots, 0), HashKeys(conf.stack, conf.table.hash);
    SlotCount(conf, src);
    HashKeysAreSource(conf.stack, conf.table, src);
    forall j: nat | j < |h| ensures h[j] != IntKey(k) {
      assert HashSlotOk(conf.stack, conf.table, src, j);
    }
    forall i: nat | i < |Order(conf)| && Order(conf)[i] == IntKey(k) ensures Order(conf)[i + 1..] == ArrayKeys(conf.table.slots, k) + h {
      assert i < |a|;
      ArrayKeyAt(conf.table.slots, 0, i);
      assert (a + h)[i + 1..] == a[i + 1..] + h;
    }
  }

  lemma AfterHashKey(conf: Conf, src: Source, q: Key, n: int)
    requires Faithful(conf, src) && !InArray(q, |conf.table.slots|)
    requires -1 <= n < |conf.table.hash| && (n >= 0 ==> KeyOf(conf.stack, conf.table.hash[n]) == q)
    requires n == -1 ==> forall i: nat :: i < |conf.table.hash| ==> KeyOf(conf.stack, conf.table.hash[i]) != q
    ensures forall i: nat :: i < |Order(conf)| && Order(conf)[i] == q ==>
      n >= 0 && i == |ArrayKeys(conf.table.slots, 0)| + n
    ensures |Order(conf)| == |ArrayKeys(conf.table.slots, 0)| + |conf.table.hash|
    ensures forall j: nat :: j < |conf.table.hash| ==> Order(conf)[|ArrayKeys(conf.table.slots, 0)| + j] == KeyOf(conf.stack, conf.table.hash[j])
  {
    hide WellFormed, Represents, KeyOf, Chained, Faithful;
    var a, h := ArrayKeys(conf.table.slots, 0), HashKeys(conf.stack, conf.table.hash);
    FaithfulKeyed(conf, src);
    forall i: nat | i < |Order(conf)| && Order(conf)[i] == q ensures n >= 0 && i == |a| + n {
      if i >= |a| {
        assert KeyOf(conf.stack, conf.table.hash[i - |a|]) == q;
      } else {
        ArrayKeyAt(conf.table.slots, 0, i);
      }
    }
  }

  /** Starting from nil and asking for the next key until there is none visits exactly the keys of the
      source table, each once. */
  method Visit(conf: Conf, ghost src: Source) returns (keys: seq<Key>)
    requires Faithful(conf, src)
    ensures keys == Order(conf) && Distinct(keys)
    ensures forall q :: q in keys <==> Find(src.entries, |src.entries|, q) >= 0
  {
    hide Faithful, Order;
    OrderIsSource(conf, src);
    OrderAllowed(conf, src);
    keys := [];
    var q := NextKey(conf, None, src);
    while q.Some?
      invariant keys <= Order(conf)
      invariant q == At(Order(conf), |keys|)
      decreases |Order(conf)| - |keys|
    {
      ghost var i: nat := |keys|;
      assert keys + [q.value] == Order(conf)[..i + 1];
      keys := keys + [q.value];
      q := NextKey(conf, q, src);
    }
  }

  lemma OrderAllowed(conf: Conf, src: Source)
    requires Faithful(conf, src)
    ensures forall i: nat :: i < |Order(conf)| ==> Askable(Order(conf)[i])
  {
    hide WellFormed, Represents, KeyOf, Chained;
    HashKeysAreSource(conf.stack, conf.table, src);
    var a := ArrayKeys(conf.table.slots, 0);
    forall i: nat | i < |Order(conf)| ensures Askable(Order(conf)[i]) {
      if i < |a| { ArrayKeyAt(conf.table.slots, 0, i); }
    }
  }
}
