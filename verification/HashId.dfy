/** The set of live connection ids kept by the gate services: a fixed slot array whose occupied
    slots are threaded into bucket chains (service-src/hashid.h). A node pointer of the source is
    the index of the node in the slot array, and NONE is the null pointer. */
module HashId {
  import opened Common

  const NONE := -1

  /** The values of the object's fields, with the slots of each bucket in chain order. */
  datatype View = View(mod: nat, id: seq<int>, next: seq<int>, hash: seq<int>, chains: seq<seq<nat>>)

  ghost predicate PowerOfTwo(n: int)
    decreases n
  {
    n == 1 || (n > 1 && n % 2 == 0 && PowerOfTwo(n / 2))
  }

  /** `id & hashmod`: hashmod + 1 is a power of two, so the mask is a remainder, for negative
      ids in two's complement too. */
  function Bucket(x: int, mod: nat): (h: nat)
    ensures h <= mod
  {
    x % (mod + 1)
  }

  ghost function Head(c: seq<nat>): int { if c == [] then NONE else c[0] }

  /** `next` links the slots of `c` one after the other, ending in NONE. */
  ghost predicate Linked(c: seq<nat>, next: seq<int>) {
    && (forall k :: 0 <= k < |c| ==> c[k] < |next|)
    && (forall k :: 0 <= k < |c| ==> next[c[k]] == (if k + 1 < |c| then c[k + 1] else NONE))
  }

  ghost predicate ChainOk(v: View, h: nat)
    requires h < |v.hash| && h < |v.chains| && |v.id| == |v.next|
  {
    var c := v.chains[h];
    && v.hash[h] == Head(c) && Linked(c, v.next) && Distinct(c)
    && forall k :: 0 <= k < |c| ==> v.id[c[k]] >= 0 && Bucket(v.id[c[k]], v.mod) == h
  }

  ghost predicate SlotOk(v: View, s: nat)
    requires s < |v.id| == |v.next| && |v.chains| == v.mod + 1
  {
    if v.id[s] == -1 then v.next[s] == NONE
    else v.id[s] >= 0 && s in v.chains[Bucket(v.id[s], v.mod)]
  }

  ghost predicate UniqueIds(id: seq<int>) {
    forall s, t :: 0 <= s < t < |id| && id[s] != -1 ==> id[s] != id[t]
  }

  ghost predicate Inv(v: View) {
    && PowerOfTwo(v.mod + 1)
    && |v.id| == |v.next| && |v.hash| == |v.chains| == v.mod + 1
    && (forall s :: 0 <= s < |v.id| ==> SlotOk(v, s))
    && UniqueIds(v.id)
    && (forall h :: 0 <= h <= v.mod ==> ChainOk(v, h))
  }

  ghost function Occupied(id: seq<int>): set<nat> { set s: nat | s < |id| && id[s] != -1 }

  ghost function SlotOf(id: seq<int>, x: int): (s: nat)
    requires x in id
    ensures s < |id| && id[s] == x
  {
    var s: nat :| s < |id| && id[s] == x; s
  }

  /** The abstract value: the slot of every live id. */
  ghost function Live(id: seq<int>): (m: map<int, nat>) {
    map x | x in id && x != -1 :: SlotOf(id, x)
  }

  lemma LiveSlot(id: seq<int>, s: nat)
    requires UniqueIds(id) && s < |id| && id[s] != -1
    ensures id[s] in Live(id) && Live(id)[id[s]] == s
  {
    var t := SlotOf(id, id[s]);
  }

  /** A map that inverts `id` on the occupied slots is Live. */
  lemma LiveUnique(id: seq<int>, m: map<int, nat>)
    requires UniqueIds(id)
    requires forall s: nat :: s < |id| && id[s] != -1 ==> id[s] in m && m[id[s]] == s
    requires forall x :: x in m ==> m[x] < |id| && id[m[x]] == x != -1
    ensures Live(id) == m
  {
    forall x | x in m ensures x in Live(id) && Live(id)[x] == m[x] {
      LiveSlot(id, m[x]);
    }
  }

  lemma LiveInserted(id: seq<int>, slot: nat, x: int)
    requires UniqueIds(id) && slot < |id| && id[slot] == -1 && x != -1 && x !in Live(id)
    ensures UniqueIds(id[slot := x]) && Live(id[slot := x]) == Live(id)[x := slot]
    ensures Occupied(id[slot := x]) == Occupied(id) + {slot}
  {
    forall s: nat | s < |id| && id[s] != -1 ensures id[s] in Live(id) && Live(id)[id[s]] == s {
      LiveSlot(id, s);
    }
    LiveUnique(id[slot := x], Live(id)[x := slot]);
  }

  lemma LiveRemoved(id: seq<int>, slot: nat)
    requires UniqueIds(id) && slot < |id| && id[slot] != -1
    ensures UniqueIds(id[slot := -1]) && Live(id[slot := -1]) == Live(id) - {id[slot]}
    ensures Occupied(id[slot := -1]) == Occupied(id) - {slot}
  {
    forall s: nat | s < |id| && id[s] != -1 ensures id[s] in Live(id) && Live(id)[id[s]] == s {
      LiveSlot(id, s);
    }
    LiveUnique(id[slot := -1], Live(id) - {id[slot]});
  }

  lemma {:induction false} OccupiedBound(id: seq<int>)
    ensures |Occupied(id)| <= |id|
    ensures |Occupied(id)| == |id| <==> -1 !in id
  {
    if id == [] {
      assert Occupied(id) == {};
    } else {
      var n := |id| - 1;
      OccupiedBound(id[..n]);
      var rest := Occupied(id[..n]);
      assert forall x :: x in id <==> x in id[..n] || x == id[n];
      if id[n] != -1 {
        assert Occupied(id) == rest + {n};
      } else {
        assert Occupied(id) == rest;
      }
    }
  }

  lemma {:induction false} SizeOfInverse(m: map<int, nat>, slots: set<nat>, id: seq<int>)
    requires forall s :: s in slots ==> s < |id| && id[s] in m && m[id[s]] == s
    requires forall x :: x in m ==> m[x] in slots && id[m[x]] == x
    ensures |m| == |slots|
    decreases slots
  {
    if slots == {} {
      assert m.Keys == {} by { assert forall x :: x in m ==> m[x] in slots; }
    } else {
      var s :| s in slots;
      var x := id[s];
      SizeOfInverse(m - {x}, slots - {m[x]}, id);
      assert m == (m - {x})[x := m[x]];
    }
  }

  /** The number of occupied slots is the number of live ids; it reaches the capacity exactly when
      no slot is free; and two live ids never share a slot. */
  lemma LiveSlots(id: seq<int>)
    requires UniqueIds(id)
    ensures |Occupied(id)| == |Live(id)| <= |id|
    ensures |Live(id)| == |id| <==> forall s: nat :: s < |id| ==> s in Live(id).Values
    ensures forall x, y :: x in Live(id) && y in Live(id) && x != y ==> Live(id)[x] != Live(id)[y]
  {
    OccupiedBound(id);
    forall s: nat | s < |id| && id[s] != -1 ensures id[s] in Live(id) && Live(id)[id[s]] == s {
      LiveSlot(id, s);
    }
    SizeOfInverse(Live(id), Occupied(id), id);
    forall s: nat | s < |id| ensures s in Live(id).Values <==> id[s] != -1 {
      if id[s] != -1 { assert Live(id)[id[s]] == s; }
    }
  }

  lemma OnChain(v: View, h: nat, k: nat)
    requires Inv(v) && h <= v.mod && k < |v.chains[h]|
    ensures v.chains[h][k] < |v.id| && v.id[v.chains[h][k]] != -1
    ensures v.next[v.chains[h][k]] == (if k + 1 < |v.chains[h]| then v.chains[h][k + 1] else NONE)
    ensures v.hash[h] == v.chains[h][0]
  {
    assert ChainOk(v, h);
  }

  /** A live id is met on the chain of its bucket. */
  lemma LiveIsChained(v: View, x: int)
    requires Inv(v) && x in Live(v.id)
    ensures Bucket(x, v.mod) == x % (v.mod + 1) && Live(v.id)[x] in v.chains[Bucket(x, v.mod)]
  {
    assert SlotOk(v, Live(v.id)[x]);
  }

  /** Slot `slot` takes `x` and becomes the head of its bucket. */
  ghost function Inserted(v: View, slot: nat, x: int): View
    requires Inv(v) && slot < |v.id|
  {
    var h := Bucket(x, v.mod);
    v.(id := v.id[slot := x], next := v.next[slot := v.hash[h]], hash := v.hash[h := slot],
       chains := v.chains[h := [slot] + v.chains[h]])
  }

  lemma LinkedCons(c: seq<nat>, next: seq<int>, slot: nat)
    requires Linked(c, next) && Distinct(c) && slot < |next| && slot !in c
    ensures Linked([slot] + c, next[slot := Head(c)]) && Distinct([slot] + c)
  {
    var d, n := [slot] + c, next[slot := Head(c)];
    forall k | 0 <= k < |d| ensures d[k] < |n| && n[d[k]] == (if k + 1 < |d| then d[k + 1] else NONE) {
      if k > 0 {
        assert d[k] == c[k - 1] != slot;
        assert next[c[k - 1]] == (if k < |c| then c[k] else NONE);
      }
    }
    assert Linked(d, n);
  }

  lemma InsertedChain(v: View, slot: nat, x: int, h: nat)
    requires Inv(v) && slot < |v.id| && v.id[slot] == -1 && x >= 0 && h <= v.mod
    ensures ChainOk(Inserted(v, slot, x), h)
  {
    var w, c := Inserted(v, slot, x), v.chains[h];
    assert ChainOk(v, h);
    assert forall k :: 0 <= k < |c| ==> c[k] != slot;
    LinkedCons(c, v.next, slot);
    if h != Bucket(x, v.mod) {
      assert w.chains[h] == c && Linked(c, w.next);
    }
  }

  lemma InsertedKeeps(v: View, slot: nat, x: int)
    requires Inv(v) && slot < |v.id| && v.id[slot] == -1 && x >= 0 && x !in Live(v.id)
    ensures Inv(Inserted(v, slot, x))
  {
    var w, g := Inserted(v, slot, x), Bucket(x, v.mod);
    forall h | 0 <= h <= v.mod ensures ChainOk(w, h) {
      InsertedChain(v, slot, x, h);
    }
    forall s: nat | s < |v.id| ensures SlotOk(w, s) {
      assert SlotOk(v, s);
    }
    LiveInserted(v.id, slot, x);
  }

  ghost function Without(c: seq<nat>, k: nat): seq<nat>
    requires k < |c|
  {
    c[..k] + c[k + 1..]
  }

  /** The predecessor of the k-th node of chain `c` skips it. */
  ghost function Unlinked(next: seq<int>, c: seq<nat>, k: nat): (r: seq<int>)
    requires k < |c| && Linked(c, next)
    ensures |r| == |next|
  {
    var n := next[c[k]];
    (if k == 0 then next else next[c[k - 1] := n])[c[k] := NONE]
  }

  lemma UnlinkedChain(next: seq<int>, c: seq<nat>, k: nat)
    requires k < |c| && Linked(c, next) && Distinct(c)
    ensures Linked(Without(c, k), Unlinked(next, c, k)) && Distinct(Without(c, k))
    ensures Head(Without(c, k)) == (if k == 0 then next[c[0]] else c[0])
  {
    var d, r := Without(c, k), Unlinked(next, c, k);
    assert forall j :: 0 <= j < |d| ==> d[j] == c[if j < k then j else j + 1];
    assert next[c[k]] == (if k + 1 < |c| then c[k + 1] else NONE);
    assert forall j :: 0 <= j < |d| ==> d[j] < |r|;
    forall j | 0 <= j < |d| ensures r[d[j]] == (if j + 1 < |d| then d[j + 1] else NONE) {
      var i := if j < k then j else j + 1;
      var i' := if j + 1 < k then j + 1 else j + 2;
      assert d[j] == c[i] != c[k];
      assert next[c[i]] == (if i + 1 < |c| then c[i + 1] else NONE);
      assert j + 1 < |d| ==> d[j + 1] == c[i'];
      assert j + 1 != k ==> k == 0 || c[i] != c[k - 1];
    }
    assert Linked(d, r);
  }

  /** Chain position `k` of bucket `h` is unlinked and its slot freed. */
  ghost function Removed(v: View, h: nat, k: nat): (w: View)
    requires h < |v.chains| == |v.hash| && |v.id| == |v.next| && ChainOk(v, h) && k < |v.chains[h]|
    ensures |w.id| == |w.next| == |v.id| && |w.hash| == |w.chains| == |v.hash| && w.mod == v.mod
  {
    var c := v.chains[h];
    v.(id := v.id[c[k] := -1], next := Unlinked(v.next, c, k),
       hash := if k == 0 then v.hash[h := v.next[c[0]]] else v.hash, chains := v.chains[h := Without(c, k)])
  }

  lemma RemovedChain(v: View, h: nat, k: nat, g: nat)
    requires h < |v.chains| == |v.hash| && |v.id| == |v.next| && ChainOk(v, h) && k < |v.chains[h]|
    requires g < |v.hash| && ChainOk(v, g)
    ensures ChainOk(Removed(v, h, k), g)
  {
    var c, w := v.chains[h], Removed(v, h, k);
    if g == h {
      UnlinkedChain(v.next, c, k);
      forall j | 0 <= j < |c| - 1 ensures w.id[Without(c, k)[j]] == v.id[c[if j < k then j else j + 1]] {}
    }
  }

  lemma RemovedSlot(v: View, h: nat, k: nat, s: nat)
    requires h < |v.chains| == |v.hash| == v.mod + 1 && |v.id| == |v.next| && ChainOk(v, h) && k < |v.chains[h]|
    requires s < |v.id| && SlotOk(v, s) && (v.id[s] != -1 ==> ChainOk(v, Bucket(v.id[s], v.mod)))
    ensures SlotOk(Removed(v, h, k), s)
  {
    var c, w := v.chains[h], Removed(v, h, k);
    if s != c[k] && v.id[s] != -1 && Bucket(v.id[s], v.mod) == h {
      var j :| 0 <= j < |c| && c[j] == s;
      assert w.chains[h][if j < k then j else j - 1] == s;
    }
  }

  lemma RemovedKeeps(v: View, h: nat, k: nat)
    requires Inv(v) && h <= v.mod && k < |v.chains[h]|
    ensures ChainOk(v, h) && Inv(Removed(v, h, k))
  {
    assert ChainOk(v, h);
    var w := Removed(v, h, k);
    forall g | 0 <= g <= v.mod ensures ChainOk(w, g) {
      RemovedChain(v, h, k, g);
    }
    forall s: nat | s < |v.id| ensures SlotOk(w, s) {
      RemovedSlot(v, h, k, s);
    }
    LiveRemoved(v.id, v.chains[h][k]);
  }

  function Probe(x: nat, i: nat, cap: nat): (slot: nat)
    requires cap > 0
    ensures slot < cap && slot == (x + i) % cap
  {
    (i + x) % cap
  }

  /** The slots probed before a free one are those of live ids; the free one is not. */
  lemma ProbesTaken(v: View, x: nat, i: nat)
    requires Inv(v) && |v.id| > 0 && v.id[Probe(x, i, |v.id|)] == -1
    requires forall j: nat :: j < i ==> v.id[Probe(x, j, |v.id|)] != -1
    ensures forall j: nat :: j < i ==> Probe(x, j, |v.id|) in Live(v.id).Values
    ensures Probe(x, i, |v.id|) !in Live(v.id).Values
  {
    hide Probe;
    forall j: nat | j < i ensures Probe(x, j, |v.id|) in Live(v.id).Values {
      LiveSlot(v.id, Probe(x, j, |v.id|));
      assert v.id[Probe(x, j, |v.id|)] in Live(v.id);
    }
  }

  /** The sizes and ids that the invariant fixes. */
  lemma Shape(v: View)
    requires Inv(v)
    ensures |v.id| == |v.next| && |v.hash| == |v.chains| == v.mod + 1 && UniqueIds(v.id)
  {
  }

  lemma FreeSlot(v: View, s: nat)
    requires Inv(v) && s < |v.id| && v.id[s] == -1
    ensures v.next[s] == NONE && forall h :: 0 <= h <= v.mod ==> v.hash[h] == Head(v.chains[h])
  {
    assert SlotOk(v, s);
    forall h | 0 <= h <= v.mod ensures v.hash[h] == Head(v.chains[h]) { assert ChainOk(v, h); }
  }

  lemma OneMore(id: seq<int>, slot: nat, x: int)
    requires slot < |id| && id[slot] == -1 && x != -1
    ensures |Occupied(id[slot := x])| == |Occupied(id)| + 1
  {
    assert Occupied(id[slot := x]) == Occupied(id) + {slot};
  }

  lemma OneLess(id: seq<int>, slot: nat)
    requires slot < |id| && id[slot] != -1
    ensures |Occupied(id[slot := -1])| == |Occupied(id)| - 1
  {
    assert Occupied(id[slot := -1]) == Occupied(id) - {slot};
  }

  lemma EmptyOk(v: View)
    requires PowerOfTwo(v.mod + 1) && |v.id| == |v.next| && |v.hash| == |v.chains| == v.mod + 1
    requires (forall s :: 0 <= s < |v.id| ==> v.id[s] == -1 && v.next[s] == NONE)
    requires forall h :: 0 <= h <= v.mod ==> v.hash[h] == NONE && v.chains[h] == []
    ensures Inv(v) && Occupied(v.id) == {} && Live(v.id) == map[]
  {
  }

  class HashId {
    var hashmod: nat
    var cap: nat
    var count: int
    var id: array<int>      // the id field of every slot node, -1 when the slot is free
    var next: array<int>    // the next field of every slot node
    var hash: array<int>    // bucket heads
    ghost var chains: seq<seq<nat>>

    ghost function State(): View
      reads this, id, next, hash
    {
      View(hashmod, id[..], next[..], hash[..], chains)
    }

    ghost predicate Valid()
      reads this, id, next, hash
    {
      && id != next && id != hash && next != hash
      && cap == id.Length && Inv(State())
      && count == |Occupied(id[..])|
    }

    ghost function Ids(): map<int, nat>
      requires Valid()
      reads this, id, next, hash
    {
      Live(id[..])
    }

    constructor (max: nat)
      requires max <= 0x4000_0000
      ensures Valid() && fresh(id) && fresh(next) && fresh(hash)
      ensures cap == max && count == 0 && Ids() == map[]
      ensures hashmod + 1 >= 16 && hashmod + 1 >= max
      ensures hashmod + 1 == 16 || hashmod + 1 < 2 * max
    {
      hide Inv, Live, Occupied;
      var hashcap := 16;
      assert PowerOfTwo(2) && PowerOfTwo(4) && PowerOfTwo(8);
      while hashcap < max
        invariant hashcap >= 16 && PowerOfTwo(hashcap)
        invariant hashcap == 16 || hashcap < 2 * max
        decreases max - hashcap
      {
        hashcap := hashcap * 2;
      }
      hashmod := hashcap - 1;
      cap := max;
      count := 0;
      id := new int[max](_ => -1);
      next := new int[max](_ => NONE);
      hash := new int[hashcap](_ => NONE);
      chains := seq(hashcap, _ => []);
      new;
      EmptyOk(State());
    }

    /** The loop of hashid_lookup and hashid_remove: the node of bucket `h` that holds `x`, and the
        node before it. */
    method Walk(x: int, h: nat) returns (before: int, c: int, ghost k: nat)
      requires Valid() && h == Bucket(x, hashmod)
      ensures c == NONE ==> x !in Ids()
      ensures c != NONE ==> k < |chains[h]| && c == chains[h][k] && 0 <= c < cap && id[c] == x && x in Ids() && Ids()[x] == c
      ensures c != NONE ==> before == if k == 0 then NONE else chains[h][k - 1]
    {
      ghost var v, l := State(), chains[h];
      before, c, k := NONE, hash[h], 0;
      assert ChainOk(v, h);
      while c != NONE && id[c] != x
        invariant 0 <= k <= |l| && c == if k < |l| then l[k] else NONE
        invariant c == NONE || 0 <= c < cap
        invariant before == if k == 0 then NONE else l[k - 1]
        invariant forall j :: 0 <= j < k ==> l[j] < cap && v.id[l[j]] != x
        decreases |l| - k
      {
        OnChain(v, h, k);
        assert next[c] == v.next[c];
        if k + 1 < |l| { OnChain(v, h, k + 1); }
        before, c, k := c, next[c], k + 1;
      }
      if c != NONE {
        OnChain(v, h, k);
        LiveSlot(v.id, c);
      } else if x in Ids() {
        LiveIsChained(v, x);
      }
    }

    method Lookup(x: int) returns (slot: int)
      requires Valid()
      ensures slot == if x in Ids() then Ids()[x] else -1
    {
      var _, c, _ := Walk(x, Bucket(x, hashmod));
      slot := c;
    }

    /** The first free slot of the probe sequence id, id + 1, .. (mod cap) is taken, so a slot is
        found whenever the set is not full. */
    method Insert(x: int) returns (slot: int)
      requires Valid() && x !in Ids()
      requires count < cap                       // the source's assert(c)
      requires 0 <= x && x + cap <= INT_MAX + 1  // i + id is an int sum
      modifies this`count, this`chains, id, next, hash
      ensures Valid() && cap == old(cap) && hashmod == old(hashmod) && id == old(id) && next == old(next) && hash == old(hash)
      ensures 0 <= slot < cap && slot !in old(Ids()).Values
      ensures Ids() == old(Ids())[x := slot] && count == old(count) + 1
      ensures exists i: nat :: i < cap && Probe(x, i, cap) == slot
                && forall j: nat :: j < i ==> Probe(x, j, cap) in old(Ids()).Values
    {
      hide Inv, Live, Occupied, Probe, Bucket, UniqueIds;
      ghost var v := State();
      Shape(v);
      var i := FindFree(x);
      slot := Probe(x, i, cap);
      ProbesTaken(v, x, i);
      InsertedKeeps(v, slot, x);
      LiveInserted(v.id, slot, x);
      OneMore(v.id, slot, x);
      FreeSlot(v, slot);
      count := count + 1;
      id[slot] := x;
      var h := Bucket(x, hashmod);
      if hash[h] != NONE {
        next[slot] := hash[h];
      }
      hash[h] := slot;
      chains := chains[h := [slot] + chains[h]];
      assert State() == Inserted(v, slot, x);
    }

    method FindFree(x: int) returns (i: nat)
      requires Valid() && count < cap && 0 <= x
      ensures i < cap && id[Probe(x, i, cap)] == -1
      ensures forall j: nat :: j < i ==> id[Probe(x, j, cap)] != -1
    {
      OccupiedBound(id[..]);
      ghost var s :| 0 <= s < cap && id[s] == -1;
      ghost var k := ProbeReaches(x, s, cap);
      i := 0;
      while id[Probe(x, i, cap)] != -1
        invariant 0 <= i <= k
        invariant forall j: nat :: j < i ==> id[Probe(x, j, cap)] != -1
        decreases k - i
      {
        i := i + 1;
      }
    }

    method Remove(x: int) returns (slot: int)
      requires Valid()
      modifies this`count, this`chains, id, next, hash
      ensures Valid() && cap == old(cap) && hashmod == old(hashmod) && id == old(id) && next == old(next) && hash == old(hash)
      ensures slot == if x in old(Ids()) then old(Ids()[x]) else -1
      ensures Ids() == old(Ids()) - {x}
      ensures count == old(count) - (if x in old(Ids()) then 1 else 0)
    {
      hide Inv, Live, Occupied, Without;
      ghost var v := State();
      Shape(v);
      var h := Bucket(x, hashmod);
      var before, c, k := Walk(x, h);
      if c == NONE {
        return -1;
      }
      OnChain(v, h, k);
      RemovedKeeps(v, h, k);
      LiveRemoved(v.id, c);
      OneLess(v.id, c);
      if before == NONE {
        hash[h] := next[c];
      } else {
        OnChain(v, h, k - 1);
        next[before] := next[c];
      }
      id[c] := -1;
      next[c] := NONE;
      count := count - 1;
      chains := chains[h := Without(chains[h], k)];
      slot := c;
      assert State() == Removed(v, h, k);
    }

    predicate Full()
      reads this
    {
      count == cap
    }
  }
}
