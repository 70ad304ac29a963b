/** The receive buffers of lua-socket.c: blocks of bytes as they came in, linked in nodes that all
    buffers take from one pool. A node pointer is an index into the pool's nodes, and NONE is NULL. */
module SocketBuffer {
  import opened Common

  const NONE := -1

  datatype Node = Node(msg: Option<bytes>, sz: nat, next: int)

  /** `l` lists the nodes of a chain from its head on. */
  ghost predicate Linked(nodes: seq<Node>, l: seq<nat>) {
    Distinct(l) && forall k: nat :: k < |l| ==> LinkAt(nodes, l, k)
  }

  ghost predicate LinkAt(nodes: seq<Node>, l: seq<nat>, k: nat)
    requires k < |l|
  {
    l[k] < |nodes| && nodes[l[k]].next == if k + 1 < |l| then l[k + 1] else NONE
  }

  ghost function Head(l: seq<nat>): int { if l == [] then NONE else l[0] }

  ghost function Tail(l: seq<nat>): int { if l == [] then NONE else l[|l| - 1] }

  /** Every node of a buffer's chain holds a non-empty block. */
  ghost predicate Holding(nodes: seq<Node>, l: seq<nat>) {
    forall k :: 0 <= k < |l| ==> l[k] < |nodes| && Full(nodes[l[k]])
  }

  predicate Full(n: Node) { n.msg.Some? && |n.msg.value| == n.sz > 0 }

  predicate Empty(n: Node) { n.msg == None && n.sz == 0 }

  ghost function Contents(nodes: seq<Node>, l: seq<nat>): bytes
    requires Holding(nodes, l)
  {
    if l == [] then [] else nodes[l[0]].msg.value + Contents(nodes, l[1..])
  }

  lemma {:induction false} ContentsAppend(nodes: seq<Node>, l: seq<nat>, n: nat)
    requires Holding(nodes, l) && n < |nodes| && Full(nodes[n])
    ensures Holding(nodes, l + [n]) && Contents(nodes, l + [n]) == Contents(nodes, l) + nodes[n].msg.value
  {
    if l == [] {
      assert l + [n] == [n] && [n][1..] == [];
    } else {
      assert (l + [n])[1..] == l[1..] + [n];
      ContentsAppend(nodes, l[1..], n);
    }
  }

  /** A chain reads the same in two pools that agree on its nodes. */
  lemma {:induction false} ContentsSame(nodes: seq<Node>, other: seq<Node>, l: seq<nat>)
    requires Holding(nodes, l) && forall k :: 0 <= k < |l| ==> l[k] < |other| && other[l[k]].msg == nodes[l[k]].msg && other[l[k]].sz == nodes[l[k]].sz
    ensures Holding(other, l) && Contents(other, l) == Contents(nodes, l)
  {
    if l != [] {
      ContentsSame(nodes, other, l[1..]);
    }
  }

  lemma LinkedTail(nodes: seq<Node>, l: seq<nat>)
    requires Linked(nodes, l) && l != []
    ensures l[0] < |nodes| && nodes[l[0]].next == Head(l[1..]) && l[0] !in l[1..] && Linked(nodes, l[1..])
  {
    assert LinkAt(nodes, l, 0);
    forall k: nat | k < |l[1..]| ensures LinkAt(nodes, l[1..], k) {
      assert LinkAt(nodes, l, k + 1);
    }
  }

  lemma LinkedCons(nodes: seq<Node>, l: seq<nat>, n: nat)
    requires Linked(nodes, l) && n < |nodes| && n !in l && nodes[n].next == Head(l)
    ensures Linked(nodes, [n] + l)
  {
    forall k: nat | k < |l| + 1 ensures LinkAt(nodes, [n] + l, k) {
      if k > 0 { assert LinkAt(nodes, l, k - 1); }
    }
  }

  /** A chain stays linked when nodes outside it change. */
  lemma LinkedSame(nodes: seq<Node>, other: seq<Node>, l: seq<nat>)
    requires Linked(nodes, l) && forall n :: n in l && n < |nodes| ==> n < |other| && other[n] == nodes[n]
    ensures Linked(other, l)
  {
    forall k: nat | k < |l| ensures LinkAt(other, l, k) {
      assert LinkAt(nodes, l, k);
      assert l[k] in l;
    }
  }

  /** Every node is either free and empty, or in use. */
  ghost predicate PoolOk(nodes: seq<Node>, free: int, freeList: seq<nat>, used: set<nat>) {
    && free == Head(freeList) && Linked(nodes, freeList)
    && (forall n :: n in freeList ==> n < |nodes| && Empty(nodes[n]) && n !in used)
    && (forall n: nat :: n < |nodes| <==> n in freeList || n in used)
  }

  lemma TakeKeeps(nodes: seq<Node>, l: seq<nat>, used: set<nat>, m: Node)
    requires PoolOk(nodes, Head(l), l, used) && l != []
    ensures l[0] < |nodes| && l[0] !in used && nodes[l[0]].next == Head(l[1..])
    ensures PoolOk(nodes[l[0] := m], Head(l[1..]), l[1..], used + {l[0]})
  {
    LinkedTail(nodes, l);
    var t, ns := l[1..], nodes[l[0] := m];
    assert l == [l[0]] + t;
    assert forall n :: n in t ==> n in l && n != l[0];
    LinkedSame(nodes, ns, t);
    forall n: nat ensures n < |ns| <==> n in t || n in used + {l[0]} {
      assert n in l <==> n == l[0] || n in t;
    }
  }

  lemma GiveKeeps(nodes: seq<Node>, l: seq<nat>, used: set<nat>, n: nat)
    requires PoolOk(nodes, Head(l), l, used) && n in used
    ensures n < |nodes| && PoolOk(nodes[n := Node(None, 0, Head(l))], n, [n] + l, used - {n})
  {
    var ns := nodes[n := Node(None, 0, Head(l))];
    LinkedSame(nodes, ns, l);
    LinkedCons(ns, l, n);
    assert forall m :: m in [n] + l <==> m == n || m in l;
  }

  /** The nodes of a chunk that starts at index `start`, each linked to the next. */
  function Chunk(start: nat, size: nat): seq<Node> {
    seq(size, i requires 0 <= i < size => Node(None, 0, if i + 1 < size then start + i + 1 else NONE))
  }

  lemma GrowKeeps(nodes: seq<Node>, used: set<nat>, size: nat)
    requires PoolOk(nodes, NONE, [], used) && size > 0
    ensures PoolOk(nodes + Chunk(|nodes|, size), |nodes|, seq(size, i => |nodes| + i), used)
  {
    var l, ns := seq(size, i => |nodes| + i), nodes + Chunk(|nodes|, size);
    forall k: nat | k < size ensures LinkAt(ns, l, k) && Empty(ns[l[k]]) && l[k] !in used {
      assert ns[l[k]] == Chunk(|nodes|, size)[k];
    }
    forall n: nat ensures n < |ns| <==> n in l || n in used {
      if |nodes| <= n < |ns| { assert l[n - |nodes|] == n; }
    }
  }

  /** The node pool: the chunks, the free list threaded through them, and the nodes in use. */
  class Pool {
    var nodes: seq<Node>
    var free: int
    var chunks: nat
    ghost var freeList: seq<nat>
    ghost var used: set<nat>

    ghost predicate Valid()
      reads this
    {
      PoolOk(nodes, free, freeList, used)
    }

    constructor ()
      ensures Valid() && nodes == [] && used == {} && chunks == 0
    {
      nodes, free, chunks := [], NONE, 0;
      freeList, used := [], {};
    }

    /** The size of the next chunk: 16 nodes, doubling up to 4096. */
    function ChunkSize(): (n: nat)
      reads this
      ensures n == if chunks < 9 then [16, 32, 64, 128, 256, 512, 1024, 2048, 4096][chunks] else 4096
    {
      Doublings();
      if chunks + 1 <= 9 then Shift8(chunks + 1) else 4096
    }

    /** lnewpool, entered as the new free list. */
    method NewChunk()
      requires Valid() && free == NONE
      modifies this
      ensures Valid() && freeList != [] && used == old(used) && chunks == old(chunks) + 1
      ensures |nodes| == |old(nodes)| + old(ChunkSize()) && nodes[..|old(nodes)|] == old(nodes)
    {
      assert freeList == [];
      var size := ChunkSize();
      GrowKeeps(nodes, used, size);
      ghost var start := |nodes|;
      freeList := seq(size, i => start + i);
      free := |nodes|;
      nodes := nodes + Chunk(|nodes|, size);
      chunks := chunks + 1;
    }

    /** The part of lpushbuffer that takes a free node, from a new chunk if there is none, and puts a
        block in it. */
    method Take(msg: bytes) returns (n: nat)
      requires Valid() && |msg| > 0
      modifies this
      ensures Valid() && n !in old(used) && n < |nodes| && used == old(used) + {n}
      ensures nodes[n] == Node(Some(msg), |msg|, NONE)
      ensures Undisturbed(old(nodes), nodes, n)
    {
      hide Linked;
      if free == NONE {
        NewChunk();
      }
      n := free;
      TakeKeeps(nodes, freeList, used, Node(Some(msg), |msg|, NONE));
      free := nodes[n].next;
      nodes := nodes[n := Node(Some(msg), |msg|, NONE)];
      freeList := freeList[1..];
      used := used + {n};
    }

    /** `tail->next = n` */
    method Link(tail: nat, n: nat)
      requires Valid() && tail in used && tail < |nodes|
      modifies this`nodes
      ensures Valid() && nodes == old(nodes)[tail := old(nodes)[tail].(next := n)]
    {
      assert tail !in freeList;
      LinkedSame(nodes, nodes[tail := nodes[tail].(next := n)], freeList);
      nodes := nodes[tail := nodes[tail].(next := n)];
    }

    /** The part of return_free_node that gives a node back, its block freed. */
    method Give(n: nat)
      requires Valid() && n in used
      modifies this
      ensures Valid() && used == old(used) - {n} && Undisturbed(old(nodes), nodes, n)
    {
      hide Linked;
      GiveKeeps(nodes, freeList, used, n);
      nodes := nodes[n := Node(None, 0, free)];
      free := n;
      freeList := [n] + freeList;
      used := used - {n};
    }
  }

  /** Nodes other than `n` are as before. */
  ghost predicate Undisturbed(before: seq<Node>, after: seq<Node>, n: nat) {
    |before| <= |after| && forall k :: 0 <= k < |before| && k != n ==> after[k] == before[k]
  }

  lemma Doublings()
    ensures Shift8(1) == 16 && Shift8(2) == 32 && Shift8(3) == 64 && Shift8(4) == 128 && Shift8(5) == 256
    ensures Shift8(6) == 512 && Shift8(7) == 1024 && Shift8(8) == 2048 && Shift8(9) == 4096
  {
    assert Shift8(5) == 256;
  }

  function Shift8(k: nat): (n: nat)
    ensures n >= 8
  {
    if k == 0 then 8 else 2 * Shift8(k - 1)
  }

  // ---- a buffer's chain

  /** The chain `l` of a buffer: linked, every node in use and holding a block. */
  ghost predicate ChainOk(nodes: seq<Node>, used: set<nat>, l: seq<nat>) {
    Linked(nodes, l) && Holding(nodes, l) && forall n :: n in l ==> n in used
  }

  /** The unread bytes of a chain whose first `offset` bytes are consumed. */
  ghost function Unread(nodes: seq<Node>, l: seq<nat>, offset: nat): bytes
    requires Holding(nodes, l) && OffsetOk(nodes, l, offset)
  {
    Contents(nodes, l)[offset..]
  }

  lemma ChainSame(nodes: seq<Node>, used: set<nat>, other: seq<Node>, still: set<nat>, l: seq<nat>)
    requires ChainOk(nodes, used, l)
    requires forall n :: n in l ==> n in still && n < |other| && (n < |nodes| ==> other[n] == nodes[n])
    ensures ChainOk(other, still, l) && Contents(other, l) == Contents(nodes, l)
  {
    LinkedSame(nodes, other, l);
    ContentsSame(nodes, other, l);
  }

  lemma ChainTail(nodes: seq<Node>, used: set<nat>, l: seq<nat>)
    requires ChainOk(nodes, used, l) && l != []
    ensures l[0] < |nodes| && Full(nodes[l[0]]) && nodes[l[0]].next == Head(l[1..]) && l[0] !in l[1..]
    ensures ChainOk(nodes, used, l[1..])
    ensures Contents(nodes, l) == nodes[l[0]].msg.value + Contents(nodes, l[1..])
    ensures |Contents(nodes, l)| >= nodes[l[0]].sz
  {
    LinkedTail(nodes, l);
  }

  /** `n` becomes the last node of the chain. */
  lemma ChainAppend(nodes: seq<Node>, used: set<nat>, l: seq<nat>, n: nat)
    requires ChainOk(nodes, used, l) && n < |nodes| && n in used && n !in l && Full(nodes[n]) && nodes[n].next == NONE
    ensures l != [] ==> l[|l| - 1] < |nodes|
    ensures var after := if l == [] then nodes else nodes[l[|l| - 1] := nodes[l[|l| - 1]].(next := n)];
      && ChainOk(after, used, l + [n])
      && Contents(after, l + [n]) == Contents(nodes, l) + nodes[n].msg.value
  {
    if l != [] { assert LinkAt(nodes, l, |l| - 1); }
    var after := if l == [] then nodes else nodes[l[|l| - 1] := nodes[l[|l| - 1]].(next := n)];
    forall k: nat | k < |l| + 1 ensures LinkAt(after, l + [n], k) {
      if k < |l| { assert LinkAt(nodes, l, k); }
    }
    ContentsSame(nodes, after, l);
    ContentsAppend(after, l, n);
  }

  /** The chain `l` with `n` linked behind it. */
  ghost function Extended(nodes: seq<Node>, l: seq<nat>, n: nat): seq<Node>
    requires l == [] || l[|l| - 1] < |nodes|
  {
    if l == [] then nodes else nodes[l[|l| - 1] := nodes[l[|l| - 1]].(next := n)]
  }

  ghost predicate OffsetOk(nodes: seq<Node>, l: seq<nat>, offset: nat) {
    if l == [] then offset == 0 else l[0] < |nodes| && offset < nodes[l[0]].sz
  }

  lemma ExtendedReads(nodes: seq<Node>, used: set<nat>, l: seq<nat>, n: nat, offset: nat)
    requires ChainOk(nodes, used, l) && n < |nodes| && n in used && n !in l && Full(nodes[n]) && nodes[n].next == NONE
    requires OffsetOk(nodes, l, offset)
    ensures l != [] ==> l[|l| - 1] < |nodes| && l[|l| - 1] in used && Tail(l) == l[|l| - 1]
    ensures ChainOk(Extended(nodes, l, n), used, l + [n]) && OffsetOk(Extended(nodes, l, n), l + [n], offset)
    ensures Unread(Extended(nodes, l, n), l + [n], offset) == Unread(nodes, l, offset) + nodes[n].msg.value
    ensures Head(l + [n]) == (if l == [] then n else Head(l)) && Tail(l + [n]) == n
  {
    ChainAppend(nodes, used, l, n);
    if l != [] {
      ChainTail(nodes, used, l);
      assert l[|l| - 1] in l;
    }
  }

  /** The unread bytes start with the rest of the first block; what follows is the rest of the chain. */
  lemma FirstBlock(nodes: seq<Node>, used: set<nat>, l: seq<nat>, offset: nat)
    requires ChainOk(nodes, used, l) && OffsetOk(nodes, l, offset) && l != []
    ensures l[0] < |nodes| && l[0] in used && Full(nodes[l[0]]) && offset < nodes[l[0]].sz == |nodes[l[0]].msg.value|
    ensures nodes[l[0]].next == Head(l[1..])
    ensures var data, bytes := Unread(nodes, l, offset), nodes[l[0]].sz - offset;
      && bytes <= |data| && data[..bytes] == nodes[l[0]].msg.value[offset..]
      && data[bytes..] == Contents(nodes, l[1..])
      && (l[1..] == [] <==> bytes == |data|)
  {
    ChainTail(nodes, used, l);
    assert l[0] in l;
    if l[1..] != [] {
      ChainTail(nodes, used, l[1..]);
    }
  }

  /** Consuming `k` bytes of the first block only. */
  lemma WithinBlock(nodes: seq<Node>, used: set<nat>, l: seq<nat>, offset: nat, k: nat)
    requires ChainOk(nodes, used, l) && OffsetOk(nodes, l, offset) && l != [] && offset + k < nodes[l[0]].sz
    ensures OffsetOk(nodes, l, offset + k) && k < |Unread(nodes, l, offset)|
    ensures Unread(nodes, l, offset + k) == Unread(nodes, l, offset)[k..]
  {
    ChainTail(nodes, used, l);
  }

  /** The chain without its first node, after that node was given back. */
  lemma RestKept(nodes: seq<Node>, used: set<nat>, l: seq<nat>, after: seq<Node>)
    requires ChainOk(nodes, used, l) && l != [] && Undisturbed(nodes, after, l[0])
    ensures ChainOk(after, used - {l[0]}, l[1..]) && OffsetOk(after, l[1..], 0)
    ensures Unread(after, l[1..], 0) == Contents(nodes, l[1..])
    ensures (Head(l[1..]) == NONE <==> l[1..] == []) && Tail(l[1..]) == (if l[1..] == [] then NONE else Tail(l))
  {
    ChainTail(nodes, used, l);
    var t := l[1..];
    forall k | k in t ensures k in l && k != l[0] && k < |nodes| && k in used { var i :| 0 <= i < |t| && t[i] == k; assert l[i + 1] == k; }
    ChainSame(nodes, used, after, used - {l[0]}, t);
    if t != [] { assert t[0] in t; }
  }

  /** One socket_buffer. `list` is its chain and `data` its unread bytes. */
  class Buffer {
    var size: nat
    var offset: nat
    var head: int
    var tail: int
    ghost var list: seq<nat>
    ghost var data: bytes

    /** All but `size`, which lpopbuffer and lreadline settle after pop_lstring. */
    ghost predicate Chained(pool: Pool)
      reads this, pool
    {
      && pool.Valid()
      && head == Head(list) && tail == Tail(list) && ChainOk(pool.nodes, pool.used, list)
      && OffsetOk(pool.nodes, list, offset)
      && data == Unread(pool.nodes, list, offset)
    }

    ghost predicate Valid(pool: Pool)
      reads this, pool
    {
      Chained(pool) && size == |data|
    }

    /** lnewbuffer */
    constructor (pool: Pool)
      requires pool.Valid()
      ensures Valid(pool) && data == [] && list == []
    {
      size, offset, head, tail := 0, 0, NONE, NONE;
      list, data := [], [];
    }

    /** lpushbuffer. The socket threads deliver no empty block. */
    method Push(pool: Pool, msg: bytes) returns (r: nat)
      requires Valid(pool) && |msg| > 0
      modifies this, pool
      ensures Valid(pool) && data == old(data) + msg && r == |data|
      ensures exists n :: list == old(list) + [n] && n !in old(pool.used) && pool.used == old(pool.used) + {n}
      ensures Apart(old(pool.nodes), pool.nodes, old(pool.used), pool.used, old(list), list)
    {
      hide Linked, PoolOk, Undisturbed, ChainOk, Full, Head, Tail, Unread, OffsetOk;
      ghost var before, l := pool.nodes, list;
      var n := pool.Take(msg);
      TakenElsewhere(before, pool.nodes, old(pool.used), pool.used, l, n, offset);
      NewNode(msg);
      ExtendedReads(pool.nodes, pool.used, l, n, offset);
      ghost var middle := pool.nodes;
      if head == NONE {
        head, tail := n, n;
      } else {
        pool.Link(tail, n);
        tail := n;
      }
      assert pool.nodes == Extended(middle, l, n);
      ApartAfterPush(before, middle, old(pool.used), l, n);
      list := list + [n];
      data := data + msg;
      size := size + |msg|;
      r := size;
    }

    /** return_free_node */
    method ReturnFreeNode(pool: Pool)
      requires Chained(pool) && list != []
      modifies this`offset, this`head, this`tail, this`list, this`data, pool
      ensures Chained(pool) && list == old(list)[1..] && pool.used == old(pool.used) - {old(list)[0]}
      ensures old(list)[0] < |old(pool.nodes)| && old(pool.nodes[list[0]].sz - offset) <= |old(data)|
      ensures data == old(data[pool.nodes[list[0]].sz - offset..])
      ensures Apart(old(pool.nodes), pool.nodes, old(pool.used), pool.used, old(list), list)
    {
      hide Linked, PoolOk, ChainOk, Full, Head, Tail, OffsetOk, Unread;
      ghost var before, l := pool.nodes, list;
      FirstBlock(before, pool.used, l, offset);
      HeadAndTail(l);
      var n := head;
      offset := 0;
      head := pool.nodes[n].next;
      if head == NONE {
        tail := NONE;
      }
      pool.Give(n);
      RestKept(before, old(pool.used), l, pool.nodes);
      list := l[1..];
      data := Unread(pool.nodes, list, 0);
      ApartAfterGive(before, pool.nodes, old(pool.used), l);
    }

    /** `offset += sz`, within the first block */
    method Advance(pool: Pool, sz: nat)
      requires Chained(pool) && list != [] && sz < pool.nodes[list[0]].sz - offset
      modifies this`offset, this`data
      ensures Chained(pool) && sz <= old(|data|) && data == old(data)[sz..]
    {
      hide Linked, PoolOk, ChainOk, Full, Head, Tail, OffsetOk, Unread;
      WithinBlock(pool.nodes, pool.used, list, offset, sz);
      offset := offset + sz;
      data := data[sz..];
    }

    /** pop_lstring: consumes `n` bytes, and returns them without the last `skip` ones. */
    method PopLstring(pool: Pool, n: nat, skip: nat) returns (r: bytes)
      requires Chained(pool) && list != [] && skip <= n <= |data|
      modifies this`offset, this`head, this`tail, this`list, this`data, pool
      ensures Chained(pool) && r == old(data)[..n - skip] && data == old(data)[n..]
      ensures Apart(old(pool.nodes), pool.nodes, old(pool.used), pool.used, old(list), list)
    {
      hide Linked, PoolOk, ChainOk, Full, Head, Tail, OffsetOk, Unread, Apart;
      FirstBlock(pool.nodes, pool.used, list, offset);
      HeadAndTail(list);
      ApartSelf(pool.nodes, pool.used, list);
      var bytes := pool.nodes[head].sz - offset;
      if n < bytes {
        r := pool.nodes[head].msg.value[offset..][..n - skip];
        Advance(pool, n);
        return;
      }
      if n == bytes {
        r := pool.nodes[head].msg.value[offset..][..n - skip];
        ReturnFreeNode(pool);
        return;
      }
      r := PopBlocks(pool, n, skip);
    }

    /** The loop of pop_lstring. */
    method PopBlocks(pool: Pool, n: nat, skip: nat) returns (r: bytes)
      requires Chained(pool) && list != [] && skip <= n <= |data| && n > 0
      modifies this`offset, this`head, this`tail, this`list, this`data, pool
      ensures Chained(pool) && r == old(data)[..n - skip] && data == old(data)[n..]
      ensures Apart(old(pool.nodes), pool.nodes, old(pool.used), pool.used, old(list), list)
    {
      hide Linked, PoolOk, ChainOk, Full, Head, Tail, OffsetOk, Unread, Apart;
      ApartSelf(pool.nodes, pool.used, list);
      ghost var whole := data;
      r := [];
      var sz := n;
      while true
        invariant Chained(pool) && list != [] && 0 < sz <= n && sz <= |data| && data == whole[n - sz..]
        invariant r == whole[..Least(n - sz, n - skip)]
        invariant Apart(old(pool.nodes), pool.nodes, old(pool.used), pool.used, old(list), list)
        decreases sz
      {
        FirstBlock(pool.nodes, pool.used, list, offset);
        HeadAndTail(list);
        var block := pool.nodes[head].msg.value[offset..];
        var bytes := pool.nodes[head].sz - offset;
        Collected(whole, n, skip, sz, block, r);
        ghost var nodes, used, l := pool.nodes, pool.used, list;
        if bytes >= sz {
          if sz > skip {
            r := r + block[..sz - skip];
          }
          if bytes == sz {
            ReturnFreeNode(pool);
            ApartTrans(old(pool.nodes), nodes, pool.nodes, old(pool.used), used, pool.used, old(list), l, list);
          } else {
            Advance(pool, sz);
          }
          break;
        }
        var realSize := sz - skip;
        if realSize > 0 {
          r := r + block[..if realSize < bytes then realSize else bytes];
        }
        ReturnFreeNode(pool);
        ApartTrans(old(pool.nodes), nodes, pool.nodes, old(pool.used), used, pool.used, old(list), l, list);
        sz := sz - bytes;
        EmptyChain(pool.nodes, pool.used, list, offset);
      }
    }

    /** lpopbuffer */
    method PopBuffer(pool: Pool, n: nat) returns (r: Option<bytes>, left: nat)
      requires Valid(pool)
      modifies this, pool
      ensures Valid(pool) && left == |data|
      ensures r == if 0 < n <= |old(data)| then Some(old(data)[..n]) else None
      ensures data == if 0 < n <= |old(data)| then old(data)[n..] else old(data)
      ensures Apart(old(pool.nodes), pool.nodes, old(pool.used), pool.used, old(list), list)
    {
      hide Linked, PoolOk, ChainOk, Full, Head, Tail, OffsetOk, Unread, Apart;
      EmptyChain(pool.nodes, pool.used, list, offset);
      ApartSelf(pool.nodes, pool.used, list);
      if size < n || n == 0 {
        r := None;
      } else {
        var s := PopLstring(pool, n, 0);
        size := size - n;
        r := Some(s);
      }
      left := size;
    }

    /** lreadall */
    method ReadAll(pool: Pool) returns (r: bytes)
      requires Valid(pool)
      modifies this, pool
      ensures Valid(pool) && r == old(data) && data == [] && list == []
      ensures Apart(old(pool.nodes), pool.nodes, old(pool.used), pool.used, old(list), list)
    {
      hide Linked, PoolOk, ChainOk, Full, Head, Tail, OffsetOk, Unread, Apart;
      ApartSelf(pool.nodes, pool.used, list);
      HeadAndTail(list);
      r := [];
      while head != NONE
        invariant Chained(pool) && r + data == old(data) && (head == NONE <==> list == [])
        invariant Apart(old(pool.nodes), pool.nodes, old(pool.used), pool.used, old(list), list)
        decreases |list|
      {
        FirstBlock(pool.nodes, pool.used, list, offset);
        HeadAndTail(list);
        ghost var nodes, used, l := pool.nodes, pool.used, list;
        r := r + pool.nodes[head].msg.value[offset..];
        ReturnFreeNode(pool);
        ApartTrans(old(pool.nodes), nodes, pool.nodes, old(pool.used), used, pool.used, old(list), l, list);
        HeadAndTail(list);
      }
      EmptyChain(pool.nodes, pool.used, list, offset);
      size := 0;
    }

    /** lclearbuffer */
    method Clear(pool: Pool)
      requires Valid(pool)
      modifies this, pool
      ensures Valid(pool) && data == [] && list == []
      ensures Apart(old(pool.nodes), pool.nodes, old(pool.used), pool.used, old(list), list)
    {
      hide Linked, PoolOk, ChainOk, Full, Head, Tail, OffsetOk, Unread, Apart;
      ApartSelf(pool.nodes, pool.used, list);
      HeadAndTail(list);
      while head != NONE
        invariant Chained(pool) && (head == NONE <==> list == [])
        invariant Apart(old(pool.nodes), pool.nodes, old(pool.used), pool.used, old(list), list)
        decreases |list|
      {
        ghost var nodes, used, l := pool.nodes, pool.used, list;
        ReturnFreeNode(pool);
        ApartTrans(old(pool.nodes), nodes, pool.nodes, old(pool.used), used, pool.used, old(list), l, list);
        HeadAndTail(list);
      }
      EmptyChain(pool.nodes, pool.used, list, offset);
      size := 0;
    }

    /** lreadline. `check` asks only whether there is a line. */
    method ReadLine(pool: Pool, sep: bytes, check: bool) returns (r: Answer)
      requires Valid(pool)
      modifies this, pool
      ensures Valid(pool)
      ensures r.NoLine? <==> old(data) == [] || forall i :: !Occurs(old(data), sep, i)
      ensures r.Line? ==> var i := |r.line|;
        && Occurs(old(data), sep, i) && (forall j :: 0 <= j < i ==> !Occurs(old(data), sep, j))
        && r.line == old(data)[..i] && data == old(data)[i + |sep|..]
      ensures !r.Line? ==> data == old(data) && list == old(list)
      ensures (check ==> !r.Line?) && (!check ==> !r.HasLine?)
      ensures Apart(old(pool.nodes), pool.nodes, old(pool.used), pool.used, old(list), list)
    {
      hide Linked, PoolOk, ChainOk, Full, Head, Tail, OffsetOk, Unread, Apart;
      ApartSelf(pool.nodes, pool.used, list);
      var i, found := FindLine(pool, sep);
      if !found {
        return NoLine;
      }
      if check {
        return HasLine;
      }
      EmptyChain(pool.nodes, pool.used, list, offset);
      var line := PopLstring(pool, i + |sep|, |sep|);
      size := size - (i + |sep|);
      r := Line(line);
    }

    /** The search of lreadline. */
    method FindLine(pool: Pool, sep: bytes) returns (i: int, found: bool)
      requires Valid(pool)
      ensures found ==> data != [] && Occurs(data, sep, i) && forall j :: 0 <= j < i ==> !Occurs(data, sep, j)
      ensures !found ==> data == [] || forall j :: !Occurs(data, sep, j)
    {
      hide Linked, PoolOk, Full, Head, Tail, OffsetOk, Unread;
      EmptyChain(pool.nodes, pool.used, list, offset);
      HeadAndTail(list);
      i, found := 0, false;
      var current := head;
      if current == NONE {
        return;
      }
      FirstBlock(pool.nodes, pool.used, list, offset);
      var from := offset;
      var bytes := pool.nodes[current].sz - from;
      ghost var l: seq<nat> := list;
      while i <= size - |sep|
        invariant 0 <= i < |data| && l != [] && current == l[0] < |pool.nodes|
        invariant 0 <= from && ChainOk(pool.nodes, pool.used, l) && OffsetOk(pool.nodes, l, from)
        invariant bytes == pool.nodes[current].sz - from
        invariant Unread(pool.nodes, l, from) == data[i..]
        invariant forall j :: 0 <= j < i ==> !Occurs(data, sep, j)
        invariant !found
        decreases |data| - i
      {
        Suffix(data, sep, i);
        found := CheckSep(pool, current, from, sep, l);
        if found {
          break;
        }
        FirstBlock(pool.nodes, pool.used, l, from);
        if bytes > 1 {
          WithinBlock(pool.nodes, pool.used, l, from, 1);
        }
        from := from + 1;
        bytes := bytes - 1;
        if bytes == 0 {
          current := pool.nodes[current].next;
          from := 0;
          RestOfChain(pool.nodes, pool.used, l);
          l := l[1..];
          HeadAndTail(l);
          if current == NONE {
            break;
          }
          EmptyChain(pool.nodes, pool.used, l, 0);
          FirstBlock(pool.nodes, pool.used, l, 0);
          bytes := pool.nodes[current].sz;
        }
        i := i + 1;
      }
    }
  }

  /** What lreadline returns: nothing, true, or a line. */
  datatype Answer = NoLine | HasLine | Line(line: bytes)

  function Least(a: int, b: int): int { if a < b then a else b }

  /** The separator stands at index `i`. */
  predicate Occurs(data: bytes, sep: bytes, i: int) {
    0 <= i && i + |sep| <= |data| && data[i..i + |sep|] == sep
  }

  lemma Suffix(data: bytes, sep: bytes, i: nat)
    requires i + |sep| <= |data|
    ensures Occurs(data, sep, i) <==> data[i..][..|sep|] == sep
  {
    assert data[i..][..|sep|] == data[i..i + |sep|];
  }

  lemma ApartSelf(nodes: seq<Node>, used: set<nat>, l: seq<nat>)
    ensures Apart(nodes, nodes, used, used, l, l)
  {
  }

  /** A chain is empty exactly when no byte is unread. */
  lemma EmptyChain(nodes: seq<Node>, used: set<nat>, l: seq<nat>, offset: nat)
    requires ChainOk(nodes, used, l) && OffsetOk(nodes, l, offset)
    ensures l == [] <==> Unread(nodes, l, offset) == []
  {
    if l != [] {
      FirstBlock(nodes, used, l, offset);
    }
  }

  lemma RestOfChain(nodes: seq<Node>, used: set<nat>, l: seq<nat>)
    requires ChainOk(nodes, used, l) && l != []
    ensures ChainOk(nodes, used, l[1..]) && OffsetOk(nodes, l[1..], 0)
    ensures Unread(nodes, l[1..], 0) == Contents(nodes, l[1..])
  {
    ChainTail(nodes, used, l);
    if l[1..] != [] {
      ChainTail(nodes, used, l[1..]);
    }
  }

  /** The bytes pop_lstring has collected when `sz` of `n` bytes are still to be consumed. */
  lemma Collected(whole: bytes, n: nat, skip: nat, sz: nat, block: bytes, r: bytes)
    requires skip <= n <= |whole| && sz <= n && |block| <= |whole| - (n - sz) && whole[n - sz..][..|block|] == block
    requires r == whole[..Least(n - sz, n - skip)]
    ensures |block| >= sz && sz > skip ==> r + block[..sz - skip] == whole[..n - skip]
    ensures sz <= skip ==> r == whole[..n - skip] && Least(n - sz + |block|, n - skip) == n - skip
    ensures |block| < sz && sz > skip ==> r + block[..Least(sz - skip, |block|)] == whole[..Least(n - sz + |block|, n - skip)]
  {
    forall k: nat | k < |block| ensures block[k] == whole[n - sz + k] {
      assert whole[n - sz..][..|block|][k] == whole[n - sz + k];
    }
  }

  /** check_sep: whether the separator stands at byte `from` of the chain that starts at `node`. The
      chain `l` is long enough, so the walk never runs off its end. */
  method CheckSep(pool: Pool, node: int, from: int, sep: bytes, ghost l: seq<nat>) returns (r: bool)
    requires 0 <= from && ChainOk(pool.nodes, pool.used, l) && OffsetOk(pool.nodes, l, from) && l != [] && node == l[0]
    requires |sep| <= |Unread(pool.nodes, l, from)|
    ensures r <==> Unread(pool.nodes, l, from)[..|sep|] == sep
  {
    hide Linked, PoolOk, Full, Head, Tail, OffsetOk, Unread;
    var node, from, sep := node, from, sep;
    ghost var chain: seq<nat>, whole, all := l, sep, Unread(pool.nodes, l, from);
    while true
      invariant 0 <= from && ChainOk(pool.nodes, pool.used, chain) && OffsetOk(pool.nodes, chain, from) && chain != [] && node == chain[0]
      invariant |sep| <= |Unread(pool.nodes, chain, from)|
      invariant all[..|whole|] == whole <==> Unread(pool.nodes, chain, from)[..|sep|] == sep
      decreases |chain|
    {
      FirstBlock(pool.nodes, pool.used, chain, from);
      var block := pool.nodes[node].msg.value[from..];
      var sz := pool.nodes[node].sz - from;
      ghost var data := Unread(pool.nodes, chain, from);
      if sz >= |sep| {
        assert data[..|sep|] == data[..sz][..|sep|];
        return block[..|sep|] == sep;
      }
      SplitPrefix(data, sep, sz);
      if sz > 0 {
        if block != sep[..sz] {
          return false;
        }
      }
      RestOfChain(pool.nodes, pool.used, chain);
      chain := chain[1..];
      HeadAndTail(chain);
      EmptyChain(pool.nodes, pool.used, chain, 0);
      node := pool.nodes[node].next;
      sep := sep[sz..];
      from := 0;
    }
  }

  lemma SplitPrefix(data: bytes, sep: bytes, k: nat)
    requires k <= |sep| <= |data|
    ensures data[..|sep|] == sep <==> data[..k] == sep[..k] && data[k..][..|sep| - k] == sep[k..]
  {
    assert sep == sep[..k] + sep[k..];
    assert data[..|sep|] == data[..k] + data[k..][..|sep| - k];
    if data[..|sep|] == sep {
      assert data[..|sep|][..k] == data[..k];
      assert data[..|sep|][k..] == data[k..][..|sep| - k];
    }
  }

  lemma HeadAndTail(l: seq<nat>)
    ensures Head(l) == (if l == [] then NONE else l[0]) && Tail(l) == (if l == [] then NONE else l[|l| - 1])
  {
  }

  lemma ApartAfterGive(before: seq<Node>, after: seq<Node>, used: set<nat>, l: seq<nat>)
    requires l != [] && Undisturbed(before, after, l[0])
    ensures Apart(before, after, used, used - {l[0]}, l, l[1..])
  {
    assert l == [l[0]] + l[1..];
  }

  /** The nodes in use outside the chain are the same ones as before, and as before: all that the
      other buffers of the pool can see. The chain was `l` and is `l'`. */
  ghost predicate Apart(before: seq<Node>, after: seq<Node>, used: set<nat>, used': set<nat>, l: seq<nat>, l': seq<nat>) {
    && |before| <= |after|
    && (forall n :: n in used && n !in l ==> n in used' && n !in l' && (n < |before| ==> after[n] == before[n]))
    && (forall n :: n in used' && n !in l' ==> n in used && n !in l)
  }

  lemma ApartAfterPush(before: seq<Node>, middle: seq<Node>, used: set<nat>, l: seq<nat>, n: nat)
    requires Undisturbed(before, middle, n) && n !in used && (l == [] || l[|l| - 1] < |middle|)
    ensures Apart(before, Extended(middle, l, n), used, used + {n}, l, l + [n])
  {
  }

  lemma ApartTrans(a: seq<Node>, b: seq<Node>, c: seq<Node>, u: set<nat>, v: set<nat>, w: set<nat>, l: seq<nat>, m: seq<nat>, n: seq<nat>)
    requires Apart(a, b, u, v, l, m) && Apart(b, c, v, w, m, n)
    ensures Apart(a, c, u, w, l, n)
  {
  }

  lemma NewNode(msg: bytes)
    requires |msg| > 0
    ensures Full(Node(Some(msg), |msg|, NONE))
  {
  }

  /** Taking a free node does not touch a chain. */
  lemma TakenElsewhere(before: seq<Node>, after: seq<Node>, used: set<nat>, still: set<nat>, l: seq<nat>, n: nat, offset: nat)
    requires ChainOk(before, used, l) && n !in used && still == used + {n} && Undisturbed(before, after, n)
    requires OffsetOk(before, l, offset)
    ensures ChainOk(after, still, l) && OffsetOk(after, l, offset) && n !in l
    ensures Unread(after, l, offset) == Unread(before, l, offset)
    ensures Head(l) == NONE <==> l == []
  {
    forall k | k in l ensures k < |before| { var i :| 0 <= i < |l| && l[i] == k; }
    ChainSame(before, used, after, still, l);
  }
}
