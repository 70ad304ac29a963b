/** The frozen tables of lua-sharedata.c and what makes one a faithful image of a Lua table. A table
    has an array part and a hash part. The hash part is full: as many slots as it has keys. */
module ShareTable {
  import opened Common

  // ---- the Lua table to be converted

  /** FloatKey and OtherKey stand for the keys that are refused. */
  datatype Key = IntKey(k: int) | StrKey(s: bytes) | TableKey | FloatKey | OtherKey

  /** A table as a key is let through by countsize, and read as the empty string by lua_tolstring. */
  function KeyRead(key: Key): Key { if key.TableKey? then StrKey([]) else key }

  /** A number that is no integer is a 64-bit word. */
  datatype Value = RealVal(n: nat) | IntVal(d: int) | StrVal(s: bytes) | BoolVal(b: bool) | TabVal(t: Source) | Unsupported

  datatype Entry = Entry(key: Key, value: Value)

  /** `len` is lua_rawlen and `entries` the pairs in the order of lua_next. */
  datatype Source = Source(len: nat, entries: seq<Entry>)

  ghost predicate WellFormed(src: Source)
    decreases src
  {
    && (forall i, j :: 0 <= i < j < |src.entries| ==> KeyRead(src.entries[i].key) != KeyRead(src.entries[j].key))
    && (forall i :: 0 <= i < |src.entries| && src.entries[i].key.IntKey? ==> IsInt32(src.entries[i].key.k))
    && (forall i :: 0 <= i < |src.entries| ==> src.entries[i].value.TabVal? ==> WellFormed(src.entries[i].value.t))
  }

  predicate KeyAllowed(key: Key) { key.IntKey? || key.StrKey? || key.TableKey? }

  ghost predicate Supported(v: Value)
    decreases v
  {
    match v
    case Unsupported => false
    case TabVal(t) => Convertible(t)
    case _ => true
  }

  ghost predicate Convertible(src: Source)
    decreases src
  {
    forall i :: 0 <= i < |src.entries| ==> KeyAllowed(src.entries[i].key) && Supported(src.entries[i].value)
  }

  /** What can be shared: numbers, strings and booleans, and tables whose keys are integers, strings or tables and
      whose values can be shared. */
  lemma SupportedKinds(v: Value)
    ensures v.RealVal? || v.IntVal? || v.StrVal? || v.BoolVal? ==> Supported(v)
    ensures v.Unsupported? ==> !Supported(v)
    ensures v.TabVal? ==> (Supported(v) <==> forall i :: 0 <= i < |v.t.entries| ==>
      (v.t.entries[i].key.IntKey? || v.t.entries[i].key.StrKey? || v.t.entries[i].key.TableKey?) && Supported(v.t.entries[i].value))
  {
  }

  predicate InArray(key: Key, len: nat) { key.IntKey? && 0 < key.k <= len }

  /** The index of the entry whose key is read as this one among the first `n`, or -1. */
  function Find(entries: seq<Entry>, n: nat, key: Key): (r: int)
    requires n <= |entries|
    ensures r == -1 || (0 <= r < n && KeyRead(entries[r].key) == key)
    ensures r == -1 ==> forall i :: 0 <= i < n ==> KeyRead(entries[i].key) != key
  {
    if n == 0 then -1 else if KeyRead(entries[n - 1].key) == key then n - 1 else Find(entries, n - 1, key)
  }

  // ---- the converted table

  datatype KeyType = KInt | KStr

  /** A string is its index in the string table. */
  datatype CVal = CNil | CReal(n: nat) | CInt(d: int) | CString(index: int) | CBool(b: bool) | CTable(t: Table)

  datatype Node = Node(v: CVal, key: int, next: int, keyhash: nat, keytype: KeyType, nocolliding: bool)

  datatype Table = Table(slots: seq<CVal>, hash: seq<Node>)

  /** calchash, the position `at` falling by `step` */
  function HashFrom(s: bytes, at: nat, step: nat, h: bv32): bv32
    requires at <= |s| && step > 0
  {
    if at < step then h else HashFrom(s, at - step, step, h ^ ((h << 5) + (h >> 2) + s[at - 1] as bv32))
  }

  function HashOf(key: Key): (h: nat)
    ensures h < TWO_32
  {
    match KeyRead(key)
    case IntKey(k) => k % 0x1_0000_0000
    case StrKey(s) => HashFrom(s, |s|, |s| / 32 + 1, (|s| % 0x1_0000_0000) as bv32) as nat
    case _ => 0
  }

  lemma HashRead(key: Key)
    ensures HashOf(KeyRead(key)) == HashOf(key)
  {
    hide HashFrom;
  }

  /** The string at an index of the string table; index 1 is reserved and 0 unused. */
  predicate StringAt(stack: seq<bytes>, i: int, s: bytes) {
    2 <= i < |stack| + 2 && stack[i - 2] == s
  }

  predicate KeyIs(stack: seq<bytes>, kt: KeyType, k: int, key: Key) {
    match KeyRead(key)
    case IntKey(n) => kt == KInt && k == n
    case StrKey(s) => kt == KStr && StringAt(stack, k, s)
    case _ => false
  }

  lemma KeyUnique(stack: seq<bytes>, kt: KeyType, k: int, key: Key, kt': KeyType, k': int, key': Key)
    requires Distinct(stack) && KeyIs(stack, kt, k, key) && KeyIs(stack, kt', k', key')
    ensures kt == kt' && k == k' <==> KeyRead(key) == KeyRead(key')
  {
  }

  /** The slot holds the entry. */
  ghost predicate Holds(stack: seq<bytes>, n: Node, e: Entry)
    decreases n, 0
  {
    && KeyIs(stack, n.keytype, n.key, e.key) && n.keyhash == HashOf(e.key)
    && ValueIs(stack, n.v, e.value)
  }

  ghost predicate ValueIs(stack: seq<bytes>, v: CVal, value: Value)
    decreases v, 0
  {
    && Supported(value)
    && match value
       case RealVal(n) => v == CReal(n)
       case IntVal(d) => v == CInt(d)
       case StrVal(s) => v.CString? && StringAt(stack, v.index, s)
       case BoolVal(b) => v == CBool(b)
       case TabVal(t) => v.CTable? && Represents(stack, v.t, t)
       case Unsupported => false
  }

  /** A slot and its owner, an entry index, or -1 for an empty slot. */
  ghost predicate OwnedBy(stack: seq<bytes>, n: Node, src: Source, o: int)
    decreases n, 1
  {
    if n.v.CNil? then o == -1
    else 0 <= o < |src.entries| && !InArray(src.entries[o].key, src.len) && Holds(stack, n, src.entries[o])
  }

  /** Array slot `i` after the first `n` entries are in. */
  ghost predicate SlotIs(stack: seq<bytes>, v: CVal, src: Source, n: nat, i: nat)
    requires n <= |src.entries|
    decreases v, 1
  {
    var o := Find(src.entries, n, IntKey(i + 1));
    if o < 0 then v == CNil else ValueIs(stack, v, src.entries[o].value)
  }

  ghost predicate Injective(own: seq<int>) {
    forall i, j :: 0 <= i < j < |own| && own[i] >= 0 ==> own[i] != own[j]
  }

  /** Every entry is in, in its array slot or in a hash slot of its own; no slot is left over; and the
      hash slots are chained so that the walk of lookup_key finds them. Nested tables likewise. */
  ghost predicate Represents(stack: seq<bytes>, t: Table, src: Source)
    decreases t, 1
  {
    && |t.slots| == src.len
    && (forall i :: 0 <= i < |t.slots| ==> SlotIs(stack, t.slots[i], src, |src.entries|, i))
    && Chained(t.hash)
    && exists own: seq<int> :: Owners(stack, t, src, own)
  }

  /** Hash slot `i` holds entry `own[i]`. */
  ghost predicate Owners(stack: seq<bytes>, t: Table, src: Source, own: seq<int>)
    decreases t, 0
  {
    && Injective(own) && |own| == |t.hash|
    && (forall i :: 0 <= i < |t.hash| ==> own[i] >= 0 && OwnedBy(stack, t.hash[i], src, own[i]))
    && (forall e :: 0 <= e < |src.entries| && !InArray(src.entries[e].key, src.len) ==> e in own)
  }

  // ---- chains

  function Main(hash: seq<Node>, i: nat): (m: nat)
    requires i < |hash|
    ensures m < |hash|
  {
    hash[i].keyhash % |hash|
  }

  predicate Filled(hash: seq<Node>, i: nat)
    requires i < |hash|
  {
    !hash[i].v.CNil?
  }

  /** Slot `j` holds a key of main position `m` that found `m` taken. */
  predicate Sub(hash: seq<Node>, m: nat, j: nat)
    requires j < |hash|
  {
    Filled(hash, j) && Main(hash, j) == m != j
  }

  predicate IsMain(hash: seq<Node>, m: nat)
    requires m < |hash|
  {
    Filled(hash, m) && Main(hash, m) == m
  }

  /** A chain starts at its main position and runs through the other slots of that main position
      downwards. */
  function Bound(hash: seq<Node>, i: nat): nat
    requires i < |hash|
  {
    if Main(hash, i) == i then |hash| else i
  }

  /** `p` is the last slot of main position `m` below `bound`, or -1. */
  ghost predicate Last(hash: seq<Node>, m: nat, bound: nat, p: int)
    requires bound <= |hash|
  {
    && (p == -1 || (0 <= p < bound && Sub(hash, m, p)))
    && forall j: nat :: p < j < bound ==> !Sub(hash, m, j)
  }

  ghost predicate NextOk(hash: seq<Node>, i: nat)
    requires i < |hash|
  {
    && Last(hash, Main(hash, i), Bound(hash, i), hash[i].next)
    && (hash[i].nocolliding ==> hash[i].next == -1)
  }

  /** The slots in use are chained, and each has its main position at the head of its chain. */
  ghost predicate Linked(hash: seq<Node>) {
    forall i: nat :: i < |hash| && Filled(hash, i) ==> NextOk(hash, i) && IsMain(hash, Main(hash, i))
  }

  ghost predicate Chained(hash: seq<Node>) {
    Linked(hash) && forall i: nat :: i < |hash| ==> Filled(hash, i)
  }

  // ---- more strings leave it as it is

  lemma {:induction false} ValueGrows(stack: seq<bytes>, more: seq<bytes>, v: CVal, value: Value)
    requires ValueIs(stack, v, value) && stack <= more
    ensures ValueIs(more, v, value)
    decreases v, 0
  {
    if value.TabVal? {
      RepresentsGrows(stack, more, v.t, value.t);
    }
  }

  lemma {:induction false} OwnedGrows(stack: seq<bytes>, more: seq<bytes>, n: Node, src: Source, o: int)
    requires OwnedBy(stack, n, src, o) && stack <= more
    ensures OwnedBy(more, n, src, o)
    decreases n, 1
  {
    if !n.v.CNil? {
      ValueGrows(stack, more, n.v, src.entries[o].value);
    }
  }

  lemma {:induction false} SlotGrows(stack: seq<bytes>, more: seq<bytes>, v: CVal, src: Source, n: nat, i: nat)
    requires n <= |src.entries| && SlotIs(stack, v, src, n, i) && stack <= more
    ensures SlotIs(more, v, src, n, i)
    decreases v, 1
  {
    var o := Find(src.entries, n, IntKey(i + 1));
    if o >= 0 {
      ValueGrows(stack, more, v, src.entries[o].value);
    }
  }

  lemma {:induction false} RepresentsGrows(stack: seq<bytes>, more: seq<bytes>, t: Table, src: Source)
    requires Represents(stack, t, src) && stack <= more
    ensures Represents(more, t, src)
    decreases t, 0
  {
    hide OwnedBy, SlotIs, Find, Chained;
    forall i | 0 <= i < |t.slots| ensures SlotIs(more, t.slots[i], src, |src.entries|, i) {
      SlotGrows(stack, more, t.slots[i], src, |src.entries|, i);
    }
    var own :| Owners(stack, t, src, own);
    forall i | 0 <= i < |t.hash| ensures OwnedBy(more, t.hash[i], src, own[i]) {
      OwnedGrows(stack, more, t.hash[i], src, own[i]);
    }
    assert Owners(more, t, src, own);
  }

  // ---- the first pass

  /** Every slot in use has an owner among the first `n` entries (in pass two, any entry). */
  ghost predicate Owned(stack: seq<bytes>, hash: seq<Node>, src: Source, own: seq<int>) {
    && Distinct(stack) && Injective(own) && |own| == |hash|
    && forall i: nat :: i < |hash| ==> OwnedBy(stack, hash[i], src, own[i])
  }

  lemma AllOwnedGrow(stack: seq<bytes>, more: seq<bytes>, hash: seq<Node>, src: Source, own: seq<int>)
    requires Owned(stack, hash, src, own) && stack <= more && Distinct(more)
    ensures Owned(more, hash, src, own)
  {
    forall i: nat | i < |hash| ensures OwnedBy(more, hash[i], src, own[i]) {
      OwnedGrows(stack, more, hash[i], src, own[i]);
    }
  }

  /** A hash key of the source, at its main position. */
  predicate HashEntry(src: Source, e: int) {
    0 <= e < |src.entries| && !InArray(src.entries[e].key, src.len)
  }

  function Home(hash: seq<Node>, src: Source, e: nat): (m: nat)
    requires e < |src.entries| && |hash| > 0
    ensures m < |hash|
  {
    HashOf(src.entries[e].key) % |hash|
  }

  /** Pass one through the first `n` entries: a key is at its main position or found it taken. */
  ghost predicate PassOne(hash: seq<Node>, src: Source, n: nat, own: seq<int>) {
    && |own| == |hash| > 0
    && (forall i: nat :: i < |hash| && Filled(hash, i) ==>
          own[i] < n && Main(hash, i) == i && hash[i].next == -1 && hash[i].nocolliding)
    && (forall e: nat :: e < n && HashEntry(src, e) ==> Filled(hash, Home(hash, src, e)))
  }

  lemma PassOneStep(stack: seq<bytes>, hash: seq<Node>, src: Source, n: nat, own: seq<int>, node: Node)
    requires Owned(stack, hash, src, own) && PassOne(hash, src, n, own) && HashEntry(src, n)
    requires Holds(stack, node, src.entries[n]) && !node.v.CNil? && node.next == -1 && node.nocolliding
    requires !Filled(hash, Home(hash, src, n))
    ensures var m := Home(hash, src, n);
      Owned(stack, hash[m := node], src, own[m := n]) && PassOne(hash[m := node], src, n + 1, own[m := n])
  {
    var m := Home(hash, src, n);
    var after, own' := hash[m := node], own[m := n];
    forall i: nat | i < |hash| ensures OwnedBy(stack, after[i], src, own'[i]) && own[i] < n {
      assert OwnedBy(stack, hash[i], src, own[i]);
      assert i == m || Filled(after, i) == Filled(hash, i);
      assert Filled(hash, i) || own[i] == -1;
    }
    forall e: nat | e < n + 1 && HashEntry(src, e) ensures Filled(after, Home(after, src, e)) {
      if e < n { assert Filled(hash, Home(hash, src, e)); }
    }
    forall i: nat | i < |after| && Filled(after, i) ensures own'[i] < n + 1 && Main(after, i) == i && after[i].next == -1 && after[i].nocolliding {
      if i != m { assert Filled(hash, i) && Main(hash, i) == Main(after, i); }
    }
  }

  // ---- the second pass

  /** Pass two through the first `n` entries. Its keys fill the empty slots from below. */
  ghost predicate PassTwo(hash: seq<Node>, src: Source, n: nat, own: seq<int>) {
    && |own| == |hash| > 0 && Linked(hash)
    && (forall e: nat :: HashEntry(src, e) ==> IsMain(hash, Home(hash, src, e)))
    && (forall i: nat :: i < |hash| && Filled(hash, i) && Main(hash, i) != i ==>
          own[i] < n && forall j: nat :: j < i ==> Filled(hash, j))
    && (forall e: nat :: e < n && HashEntry(src, e) ==> e in own)
  }

  lemma PassTwoStarts(hash: seq<Node>, src: Source, own: seq<int>)
    requires PassOne(hash, src, |src.entries|, own)
    ensures PassTwo(hash, src, 0, own)
  {
    forall i: nat | i < |hash| && Filled(hash, i) ensures NextOk(hash, i) && IsMain(hash, Main(hash, i)) {
      assert Main(hash, i) == i;
      forall j: nat | j < |hash| ensures !Sub(hash, i, j) {
        if Filled(hash, j) { assert Main(hash, j) == j; }
      }
    }
    forall e: nat | HashEntry(src, e) ensures IsMain(hash, Home(hash, src, e)) {
      assert Filled(hash, Home(hash, src, e));
    }
  }

  /** The test of fillcolliding: the main position has the key exactly when the key is in already. */
  lemma AtMain(stack: seq<bytes>, hash: seq<Node>, src: Source, n: nat, own: seq<int>, kt: KeyType, k: int)
    requires WellFormed(src) && Owned(stack, hash, src, own) && PassTwo(hash, src, n, own) && HashEntry(src, n)
    requires KeyIs(stack, kt, k, src.entries[n].key)
    ensures var m := Home(hash, src, n);
      if hash[m].keytype == kt && hash[m].key == k then own[m] == n else n !in own
  {
    hide ValueIs, Holds, KeyIs, Linked, HashOf, WellFormed;
    var m := Home(hash, src, n);
    assert IsMain(hash, m) && OwnedBy(stack, hash[m], src, own[m]);
    OwnerOf(stack, hash[m], src, own[m]);
    KeysDiffer(src, n, own[m]);
    KeyUnique(stack, kt, k, src.entries[n].key, hash[m].keytype, hash[m].key, src.entries[own[m]].key);
    if n in own {
      var i :| 0 <= i < |own| && own[i] == n;
      OwnerOf(stack, hash[i], src, own[i]);
      assert hash[i].keyhash % |hash| == m;
      assert Filled(hash, i) && Main(hash, i) == m;
    }
  }

  lemma KeysDiffer(src: Source, i: int, j: int)
    requires WellFormed(src) && 0 <= i < |src.entries| && 0 <= j < |src.entries|
    ensures KeyRead(src.entries[i].key) == KeyRead(src.entries[j].key) ==> i == j
  {
  }

  lemma OwnerOf(stack: seq<bytes>, node: Node, src: Source, o: int)
    requires OwnedBy(stack, node, src, o) && o >= 0
    ensures !node.v.CNil? && o < |src.entries|
    ensures KeyIs(stack, node.keytype, node.key, src.entries[o].key) && node.keyhash == HashOf(src.entries[o].key)
  {
    hide ValueIs, KeyIs, HashOf;
  }

  /** `n` takes the empty slot `s`, the first one, and follows its main position in the chain. */
  function Insert(hash: seq<Node>, m: nat, s: nat, node: Node): (r: seq<Node>)
    requires m < |hash| && s < |hash|
    ensures |r| == |hash|
  {
    hash[m := hash[m].(next := s, nocolliding := false)][s := node.(next := hash[m].next, nocolliding := false)]
  }

  lemma InsertSlots(hash: seq<Node>, m: nat, s: nat, node: Node, i: nat)
    requires m < |hash| && s < |hash| && m != s && i < |hash| && !node.v.CNil? && !Filled(hash, s)
    ensures var r := Insert(hash, m, s, node);
      && (Filled(r, i) <==> i == s || Filled(hash, i))
      && (i != s ==> Main(r, i) == Main(hash, i) && Bound(r, i) == Bound(hash, i) && forall c :: Sub(r, c, i) == Sub(hash, c, i))
      && (i != s && i != m ==> r[i] == hash[i])
      && (i == s ==> Main(r, i) == node.keyhash % |hash|)
  {
  }

  lemma InsertLinks(hash: seq<Node>, m: nat, s: nat, node: Node)
    requires Linked(hash) && m < |hash| && s < |hash| && IsMain(hash, m) && !Filled(hash, s)
    requires !node.v.CNil? && node.keyhash % |hash| == m
    requires forall i: nat :: i < |hash| && Filled(hash, i) && Main(hash, i) != i ==> i < s
    ensures Linked(Insert(hash, m, s, node))
  {
    hide Main, Bound, Sub, Filled;
    var r := Insert(hash, m, s, node);
    assert m != s;
    forall i: nat | i < |r| && Filled(r, i) ensures NextOk(r, i) && IsMain(r, Main(r, i)) {
      LinkKept(hash, m, s, node, i);
    }
  }

  lemma LinkKept(hash: seq<Node>, m: nat, s: nat, node: Node, i: nat)
    requires Linked(hash) && m < |hash| && s < |hash| && IsMain(hash, m) && !Filled(hash, s)
    requires !node.v.CNil? && node.keyhash % |hash| == m && m != s
    requires forall i: nat :: i < |hash| && Filled(hash, i) && Main(hash, i) != i ==> i < s
    requires i < |hash| && Filled(Insert(hash, m, s, node), i)
    ensures var r := Insert(hash, m, s, node); NextOk(r, i) && IsMain(r, Main(r, i))
  {
    var r := Insert(hash, m, s, node);
    InsertSlots(hash, m, s, node, i);
    InsertSlots(hash, m, s, node, m);
    forall j: nat, c | j < |hash| && j != s ensures Sub(r, c, j) == Sub(hash, c, j) {
      InsertSlots(hash, m, s, node, j);
    }
    assert forall c :: Sub(r, c, s) <==> c == m;
    forall j: nat, c | s < j < |hash| ensures !Sub(hash, c, j) {
    }
    assert NextOk(hash, m);
    if i == s {
      assert Last(r, m, s, hash[m].next);
    } else if i == m {
      assert Last(r, m, |r|, s);
    } else {
      assert NextOk(hash, i) && IsMain(hash, Main(hash, i));
      InsertSlots(hash, m, s, node, Main(hash, i));
      var c, b := Main(hash, i), Bound(hash, i);
      assert Last(r, c, b, hash[i].next) by {
        if c == m { assert b == i < s; }
        assert Last(hash, c, b, hash[i].next);
      }
    }
  }

  lemma PassTwoStep(stack: seq<bytes>, hash: seq<Node>, src: Source, n: nat, own: seq<int>, s: nat, node: Node)
    requires Owned(stack, hash, src, own) && PassTwo(hash, src, n, own) && HashEntry(src, n) && n !in own
    requires Holds(stack, node, src.entries[n]) && !node.v.CNil?
    requires s < |hash| && !Filled(hash, s) && forall j: nat :: j < s ==> Filled(hash, j)
    ensures var r := Insert(hash, Home(hash, src, n), s, node);
      Owned(stack, r, src, own[s := n]) && PassTwo(r, src, n + 1, own[s := n])
  {
    hide ValueIs, KeyIs, Linked, HashOf, KeyAllowed;
    var m := Home(hash, src, n);
    var r, own' := Insert(hash, m, s, node), own[s := n];
    InsertLinks(hash, m, s, node);
    forall i: nat | i < |hash| ensures OwnedBy(stack, r[i], src, own'[i]) {
      assert OwnedBy(stack, hash[i], src, own[i]);
    }
    forall e: nat | HashEntry(src, e) ensures IsMain(r, Home(r, src, e)) {
      var h := Home(hash, src, e);
      assert IsMain(hash, h);
      InsertSlots(hash, m, s, node, h);
    }
    forall i: nat | i < |r| && Filled(r, i) && Main(r, i) != i ensures own'[i] < n + 1 && forall j: nat :: j < i ==> Filled(r, j) {
      InsertSlots(hash, m, s, node, i);
      forall j: nat | j < i ensures Filled(r, j) {
        InsertSlots(hash, m, s, node, j);
      }
    }
    OwnersKept(hash, stack, src, own, s, n);
  }

  lemma OwnersKept(hash: seq<Node>, stack: seq<bytes>, src: Source, own: seq<int>, s: nat, n: nat)
    requires Owned(stack, hash, src, own) && s < |hash| && !Filled(hash, s) && n !in own
    ensures Injective(own[s := n]) && n in own[s := n] && forall e: nat :: e in own ==> e in own[s := n]
  {
    assert OwnedBy(stack, hash[s], src, own[s]);
    assert own[s := n][s] == n;
    forall e: nat | e in own ensures e in own[s := n] {
      var i :| 0 <= i < |own| && own[i] == e;
      assert own[s := n][i] == e;
    }
  }

  // ---- counting

  ghost function HashSet(src: Source, n: nat): set<int> {
    set e | 0 <= e < n && HashEntry(src, e)
  }

  lemma HashSetStep(src: Source, n: nat)
    ensures HashSet(src, n + 1) == HashSet(src, n) + if HashEntry(src, n) then {n} else {}
    ensures |HashSet(src, n + 1)| == |HashSet(src, n)| + if HashEntry(src, n) then 1 else 0
  {
    assert HashSet(src, n + 1) == HashSet(src, n) + if HashEntry(src, n) then {n} else {};
  }

  lemma {:induction false} OwnersCount(own: seq<int>)
    requires Injective(own) && forall i :: 0 <= i < |own| ==> own[i] >= 0
    ensures |set e | e in own| == |own|
  {
    if own != [] {
      var n := |own| - 1;
      OwnersCount(own[..n]);
      assert own == own[..n] + [own[n]];
      assert (set e | e in own) == (set e | e in own[..n]) + {own[n]};
    }
  }

  lemma {:induction false} CoverCount(own: seq<int>, covered: set<int>)
    requires forall e :: e in covered ==> e in own
    ensures |covered| <= |own|
  {
    if own == [] {
      assert forall e :: e in covered ==> e in own;
      assert covered == {};
    } else {
      var rest := covered - {own[0]};
      assert own == [own[0]] + own[1..];
      CoverCount(own[1..], rest);
      SubsetCount(covered, rest + {own[0]});
    }
  }

  lemma SubsetCount<T>(a: set<T>, b: set<T>)
    requires a <= b
    ensures |a| <= |b|
  {
    assert b == a + (b - a);
  }

  /** There is an empty slot as long as a key is missing. */
  lemma RoomLeft(stack: seq<bytes>, hash: seq<Node>, src: Source, own: seq<int>, n: nat)
    requires Owned(stack, hash, src, own) && HashEntry(src, n) && n !in own
    requires |hash| == |HashSet(src, |src.entries|)|
    ensures exists s: nat :: s < |hash| && !Filled(hash, s)
  {
    hide Holds;
    if forall s: nat :: s < |hash| ==> Filled(hash, s) {
      forall i | 0 <= i < |own| ensures own[i] in HashSet(src, |src.entries|) {
        assert OwnedBy(stack, hash[i], src, own[i]) && Filled(hash, i);
      }
      OwnersCount(own);
      SubsetCount((set e | e in own), HashSet(src, |src.entries|) - {n});
      assert false;
    }
  }

  /** Once every key is in, no slot is empty. */
  lemma NoneLeft(stack: seq<bytes>, hash: seq<Node>, src: Source, own: seq<int>, s: nat)
    requires Owned(stack, hash, src, own) && s < |hash|
    requires forall e: nat :: HashEntry(src, e) ==> e in own
    requires |hash| == |HashSet(src, |src.entries|)|
    ensures Filled(hash, s)
  {
    hide Holds;
    assert OwnedBy(stack, hash[s], src, own[s]);
    var rest := own[..s] + own[s + 1..];
    if !Filled(hash, s) {
      assert own == own[..s] + [-1] + own[s + 1..];
      CoverCount(rest, HashSet(src, |src.entries|));
    }
  }

  // ---- the finished table

  lemma Finished(stack: seq<bytes>, slots: seq<CVal>, hash: seq<Node>, src: Source, own: seq<int>)
    requires |slots| == src.len && forall i: nat :: i < |slots| ==> SlotIs(stack, slots[i], src, |src.entries|, i)
    requires Owned(stack, hash, src, own) && PassTwo(hash, src, |src.entries|, own)
    requires |hash| == |HashSet(src, |src.entries|)|
    ensures Represents(stack, Table(slots, hash), src)
  {
    hide ValueIs, Holds, KeyIs, HashOf, NextOk, IsMain, Home, Main, Find;
    forall i | 0 <= i < |hash| ensures Filled(hash, i) && own[i] >= 0 && OwnedBy(stack, hash[i], src, own[i]) {
      NoneLeft(stack, hash, src, own, i);
      assert OwnedBy(stack, hash[i], src, own[i]);
    }
    forall e | 0 <= e < |src.entries| && !InArray(src.entries[e].key, src.len) ensures e in own {
      assert HashEntry(src, e);
    }
    assert Owners(stack, Table(slots, hash), src, own);
  }
}
