/** Runs of operations on many socket buffers that share one pool: each buffer behaves as a flat byte
    string of its own, and every node is free or in exactly one buffer. */
module SocketRuns {
  import opened Common
  import opened SocketBuffer

  datatype Op = PushOp(msg: bytes) | PopOp(n: nat) | LineOp(sep: bytes, check: bool) | AllOp | ClearOp

  datatype Reply = Total(size: nat) | Piece(r: Option<bytes>, left: nat) | LineReply(answer: Answer) | Everything(all: bytes) | Nothing

  /** Index of the first separator at or after `i`, if any. */
  function First(data: bytes, sep: bytes, i: nat): (r: Option<nat>)
    ensures r.Some? ==> i <= r.value && Occurs(data, sep, r.value)
    ensures r.Some? ==> forall j :: i <= j < r.value ==> !Occurs(data, sep, j)
    decreases |data| - i
  {
    if i + |sep| > |data| then None else if Occurs(data, sep, i) then Some(i) else First(data, sep, i + 1)
  }

  lemma {:induction false} FirstIs(data: bytes, sep: bytes, from: nat, i: nat)
    requires from <= i && Occurs(data, sep, i) && forall j :: from <= j < i ==> !Occurs(data, sep, j)
    ensures First(data, sep, from) == Some(i)
    decreases i - from
  {
    if from < i {
      FirstIs(data, sep, from + 1, i);
    }
  }

  lemma {:induction false} FirstIsNone(data: bytes, sep: bytes, from: nat)
    requires forall j :: !Occurs(data, sep, j)
    ensures First(data, sep, from) == None
    decreases |data| - from
  {
    if from + |sep| <= |data| {
      FirstIsNone(data, sep, from + 1);
    }
  }

  /** What an operation does to a flat byte string. */
  function Flat(op: Op, data: bytes): (Reply, bytes) {
    match op
    case PushOp(msg) => (Total(|data| + |msg|), data + msg)
    case PopOp(n) => if 0 < n <= |data| then (Piece(Some(data[..n]), |data| - n), data[n..]) else (Piece(None, |data|), data)
    case LineOp(sep, check) =>
      (match if data == [] then None else First(data, sep, 0)
       case None => (LineReply(NoLine), data)
       case Some(i) =>
         if check then (LineReply(HasLine), data)
         else (LineReply(Line(data[..i])), data[i + |sep|..]))
    case AllOp => (Everything(data), [])
    case ClearOp => (Nothing, [])
  }

  /** A run over the contents of several byte strings. */
  function FlatRun(datas: seq<bytes>, ops: seq<(nat, Op)>): (r: (seq<Reply>, seq<bytes>))
    requires forall k :: 0 <= k < |ops| ==> ops[k].0 < |datas|
    ensures |r.1| == |datas| && |r.0| == |ops|
    decreases |ops|
  {
    if ops == [] then ([], datas)
    else
      var n := |ops| - 1;
      var before := FlatRun(datas, ops[..n]);
      var b := ops[n].0;
      var step := Flat(ops[n].1, before.1[b]);
      (before.0 + [step.0], before.1[b := step.1])
  }

  /** A line read is what Flat says. */
  lemma LineIsFlat(data: bytes, sep: bytes, check: bool, r: Answer, after: bytes)
    requires r.NoLine? <==> data == [] || forall i :: !Occurs(data, sep, i)
    requires r.Line? ==> var i := |r.line|;
      && Occurs(data, sep, i) && (forall j :: 0 <= j < i ==> !Occurs(data, sep, j))
      && r.line == data[..i] && after == data[i + |sep|..]
    requires (!r.Line? ==> after == data) && (check ==> !r.Line?) && (!check ==> !r.HasLine?)
    ensures Flat(LineOp(sep, check), data) == (LineReply(r), after)
  {
    match r
    case NoLine => if data != [] { FirstIsNone(data, sep, 0); }
    case Line(line) => FirstIs(data, sep, 0, |line|);
    case HasLine =>
      var i :| Occurs(data, sep, i);
      Earliest(data, sep, i);
  }

  lemma {:induction false} Earliest(data: bytes, sep: bytes, i: nat)
    requires Occurs(data, sep, i)
    ensures First(data, sep, 0).Some?
    decreases i
  {
    if j: nat :| j < i && Occurs(data, sep, j) {
      Earliest(data, sep, j);
    } else {
      FirstIs(data, sep, 0, i);
    }
  }

  /** No node is in two chains, and every node in use is in one. */
  ghost predicate Exclusive(used: set<nat>, lists: seq<seq<nat>>) {
    && (forall i, j, n :: 0 <= i < j < |lists| && n in lists[i] ==> n !in lists[j])
    && (forall n :: n in used <==> exists i :: 0 <= i < |lists| && n in lists[i])
  }

  lemma ExclusiveKept(before: seq<Node>, after: seq<Node>, used: set<nat>, used': set<nat>, lists: seq<seq<nat>>, b: nat, l: seq<nat>)
    requires Exclusive(used, lists) && b < |lists| && Apart(before, after, used, used', lists[b], l)
    requires forall n :: n in l ==> n in used'
    ensures Exclusive(used', lists[b := l])
  {
    var after := lists[b := l];
    forall n ensures n in used' <==> exists i :: 0 <= i < |after| && n in after[i] {
      if n in used' {
        if n in l {
          assert n in after[b];
        } else {
          var i :| 0 <= i < |lists| && n in lists[i];
          assert n in after[i];
        }
      }
      if i :| 0 <= i < |after| && n in after[i] {
        assert i != b ==> n in lists[i] && n !in lists[b];
      }
    }
  }

  /** Other chains of the pool read as before. */
  lemma ChainStays(before: seq<Node>, after: seq<Node>, used: set<nat>, used': set<nat>, l: seq<nat>, l': seq<nat>, m: seq<nat>, offset: nat)
    requires ChainOk(before, used, m) && OffsetOk(before, m, offset) && Apart(before, after, used, used', l, l')
    requires forall n :: n in m ==> n !in l
    ensures ChainOk(after, used', m) && OffsetOk(after, m, offset)
    ensures Unread(after, m, offset) == Unread(before, m, offset)
  {
    forall n | n in m ensures n < |before| && n in used' && after[n] == before[n] {
      var k :| 0 <= k < |m| && m[k] == n;
    }
    ChainSame(before, used, after, used', m);
    if m != [] { assert m[0] in m; }
  }

  ghost function Lists(bufs: seq<Buffer>): (lists: seq<seq<nat>>)
    reads bufs
    ensures |lists| == |bufs|
  {
    seq(|bufs|, i requires 0 <= i < |bufs| reads bufs => bufs[i].list)
  }

  ghost function Datas(bufs: seq<Buffer>): (datas: seq<bytes>)
    reads bufs
    ensures |datas| == |bufs|
  {
    seq(|bufs|, i requires 0 <= i < |bufs| reads bufs => bufs[i].data)
  }

  ghost predicate World(pool: Pool, bufs: seq<Buffer>)
    reads pool, bufs
  {
    && (forall i, j :: 0 <= i < j < |bufs| ==> bufs[i] != bufs[j])
    && (forall i :: 0 <= i < |bufs| ==> bufs[i].Valid(pool))
    && pool.Valid()
    && Exclusive(pool.used, Lists(bufs))
  }

  /** In such a world every node is free and empty, or holds a block of exactly one buffer; and each
      buffer's `size` counts its unread bytes. */
  lemma NodesAccounted(pool: Pool, bufs: seq<Buffer>, n: nat)
    requires World(pool, bufs) && n < |pool.nodes|
    ensures n in pool.freeList <==> pool.nodes[n].msg == None
    ensures n in pool.freeList <==> forall i :: 0 <= i < |bufs| ==> n !in bufs[i].list
    ensures forall i, j :: 0 <= i < j < |bufs| && n in bufs[i].list ==> n !in bufs[j].list
    ensures forall i :: 0 <= i < |bufs| ==> bufs[i].size == |bufs[i].data|
  {
    var lists := Lists(bufs);
    forall i, j | 0 <= i < j < |bufs| && n in bufs[i].list ensures n !in bufs[j].list {
      assert n in lists[i] && lists[j] == bufs[j].list;
    }
    if n in pool.used {
      var i :| 0 <= i < |lists| && n in lists[i];
      assert lists[i] == bufs[i].list;
      var k :| 0 <= k < |bufs[i].list| && bufs[i].list[k] == n;
      assert Full(pool.nodes[n]);
    } else {
      forall i | 0 <= i < |bufs| ensures n !in bufs[i].list { assert lists[i] == bufs[i].list; }
    }
  }

  /** One operation on buffer `b`. */
  method Do(pool: Pool, bufs: seq<Buffer>, b: nat, op: Op) returns (r: Reply)
    requires World(pool, bufs) && b < |bufs| && (op.PushOp? ==> op.msg != [])
    modifies pool, bufs[b]
    ensures World(pool, bufs)
    ensures Flat(op, old(bufs[b].data)) == (r, bufs[b].data)
    ensures Datas(bufs) == old(Datas(bufs))[b := bufs[b].data]
  {
    hide Linked, PoolOk, ChainOk, Full, Head, Tail, OffsetOk, Unread, Apart, Exclusive;
    ghost var nodes, used, lists, was := pool.nodes, pool.used, Lists(bufs), bufs[b].data;
    assert lists[b] == bufs[b].list;
    r := Apply(pool, bufs[b], op);
    InUse(pool.nodes, pool.used, bufs[b].list);
    ExclusiveKept(nodes, pool.nodes, used, pool.used, lists, b, bufs[b].list);
    assert Lists(bufs) == lists[b := bufs[b].list];
    forall j | 0 <= j < |bufs| ensures bufs[j].Valid(pool) {
      if j != b {
        assert lists[j] == old(bufs[j].list) == bufs[j].list;
        Elsewhere(used, lists, b, j);
        ChainStays(nodes, pool.nodes, used, pool.used, lists[b], bufs[b].list, bufs[j].list, bufs[j].offset);
      }
    }
  }

  lemma InUse(nodes: seq<Node>, used: set<nat>, l: seq<nat>)
    requires ChainOk(nodes, used, l)
    ensures forall n :: n in l ==> n in used
  {
  }

  lemma Elsewhere(used: set<nat>, lists: seq<seq<nat>>, b: nat, j: nat)
    requires Exclusive(used, lists) && b < |lists| && j < |lists| && j != b
    ensures forall n :: n in lists[j] ==> n !in lists[b]
  {
  }

  method Apply(pool: Pool, buf: Buffer, op: Op) returns (r: Reply)
    requires buf.Valid(pool) && (op.PushOp? ==> op.msg != [])
    modifies pool, buf
    ensures buf.Valid(pool) && Flat(op, old(buf.data)) == (r, buf.data)
    ensures Apart(old(pool.nodes), pool.nodes, old(pool.used), pool.used, old(buf.list), buf.list)
  {
    hide Linked, PoolOk, ChainOk, Full, Head, Tail, OffsetOk, Unread, Apart, Occurs;
    match op
    case PushOp(msg) =>
      var n := buf.Push(pool, msg);
      r := Total(n);
    case PopOp(n) =>
      var s, left := buf.PopBuffer(pool, n);
      r := Piece(s, left);
    case LineOp(sep, check) =>
      var a := buf.ReadLine(pool, sep, check);
      LineIsFlat(old(buf.data), sep, check, a, buf.data);
      r := LineReply(a);
    case AllOp =>
      var s := buf.ReadAll(pool);
      r := Everything(s);
    case ClearOp =>
      buf.Clear(pool);
      r := Nothing;
  }

  /** Any run over any number of buffers: the replies and the contents left are those of independent
      byte strings, whatever nodes the buffers traded through the pool. */
  method Run(pool: Pool, bufs: seq<Buffer>, ops: seq<(nat, Op)>) returns (replies: seq<Reply>)
    requires World(pool, bufs)
    requires forall k :: 0 <= k < |ops| ==> ops[k].0 < |bufs| && (ops[k].1.PushOp? ==> ops[k].1.msg != [])
    modifies pool, bufs
    ensures World(pool, bufs)
    ensures FlatRun(old(Datas(bufs)), ops) == (replies, Datas(bufs))
  {
    hide World, Flat, Exclusive;
    replies := [];
    ghost var start := Datas(bufs);
    for i := 0 to |ops|
      invariant World(pool, bufs) && FlatRun(start, ops[..i]) == (replies, Datas(bufs))
    {
      assert ops[..i + 1][..i] == ops[..i];
      var r := Do(pool, bufs, ops[i].0, ops[i].1);
      replies := replies + [r];
    }
    assert ops[..|ops|] == ops;
  }
}
