/** The per-connection frame reassembly of lua-netpack.c: a hash table of half-read packets and a
    growing ring of finished ones. A bucket's linked list is a sequence, and `got` holds the bytes
    that were copied into a packet's buffer so far. The absent queue object of the Lua side (a nil
    that get_queue replaces) is the empty queue. */
module NetPack {
  import opened Common
  import opened Framing

  const QUEUESIZE := 1024
  const HASHSIZE := 4096

  datatype Packet = Packet(id: int, data: bytes)

  datatype Uncomplete = Uncomplete(id: int, size: nat, got: bytes, read: int, header: int)

  /** What lfilter hands to Lua for a data message. */
  datatype Event = Nothing | Data(id: int, data: bytes) | More

  // ---- half-read packets

  /** The arithmetic right shifts are floors, and the remainder is that of the unsigned sum. */
  function HashFd(fd: int): (h: nat)
    ensures h < HASHSIZE
  {
    (fd / 0x100_0000 + fd / 0x1000 + fd) % 4096
  }

  /** Either one header byte has been read, or the header and less than the whole packet. */
  predicate WellFormed(u: Uncomplete) {
    if u.read < 0 then u.read == -1 && u.got == [] && 0 <= u.header < 256
    else u.read == |u.got| < u.size < 0x1_0000
  }

  /** The unconsumed bytes that the record stands for. */
  function Saved(u: Uncomplete): bytes
    requires WellFormed(u)
  {
    if u.read < 0 then [u.header] else WriteSize(u.size) + u.got
  }

  predicate BucketOk(b: seq<Uncomplete>, h: nat) {
    && (forall i :: 0 <= i < |b| ==> WellFormed(b[i]) && HashFd(b[i].id) == h)
    && (forall i, j :: 0 <= i < j < |b| ==> b[i].id != b[j].id)
  }

  type Table = seq<seq<Uncomplete>>

  ghost predicate TableOk(t: Table) {
    |t| == HASHSIZE && forall h :: 0 <= h < HASHSIZE ==> BucketOk(t[h], h)
  }

  ghost function Lookup(b: seq<Uncomplete>, fd: int): bytes
    requires forall u :: u in b ==> WellFormed(u)
  {
    if b == [] then [] else if b[0].id == fd then Saved(b[0]) else Lookup(b[1..], fd)
  }

  /** The leftover bytes of connection `fd`; none when it has no record. */
  ghost function Partial(t: Table, fd: int): bytes
    requires TableOk(t)
  {
    assert BucketOk(t[HashFd(fd)], HashFd(fd));
    Lookup(t[HashFd(fd)], fd)
  }

  lemma {:induction false} LookupAt(b: seq<Uncomplete>, h: nat, k: nat)
    requires BucketOk(b, h) && k < |b|
    ensures Lookup(b, b[k].id) == Saved(b[k])
  {
    if k > 0 {
      assert BucketOk(b[1..], h);
      LookupAt(b[1..], h, k - 1);
    }
  }

  lemma {:induction false} LookupNone(b: seq<Uncomplete>, h: nat, fd: int)
    requires BucketOk(b, h) && forall u :: u in b ==> u.id != fd
    ensures Lookup(b, fd) == []
  {
    if b != [] {
      assert BucketOk(b[1..], h);
      LookupNone(b[1..], h, fd);
    }
  }

  lemma {:induction false} LookupWithout(b: seq<Uncomplete>, h: nat, k: nat, fd: int)
    requires BucketOk(b, h) && k < |b|
    ensures BucketOk(b[..k] + b[k + 1..], h)
    ensures Lookup(b[..k] + b[k + 1..], fd) == if fd == b[k].id then [] else Lookup(b, fd)
  {
    var c := b[..k] + b[k + 1..];
    assert forall i :: 0 <= i < |c| ==> c[i] == b[if i < k then i else i + 1];
    assert BucketOk(c, h);
    if k == 0 {
      assert c == b[1..];
      if fd == b[k].id { LookupNone(c, h, fd); }
    } else {
      assert BucketOk(b[1..], h) && b[1..][k - 1] == b[k];
      LookupWithout(b[1..], h, k - 1, fd);
      assert c[0] == b[0] && c[1..] == b[1..][..k - 1] + b[1..][k..];
    }
  }

  /** The leftover bytes by connection, for those that have a record. */
  type Leftovers = map<int, bytes>

  ghost function Get(m: Leftovers, fd: int): bytes { if fd in m then m[fd] else [] }

  ghost function Put(m: Leftovers, fd: int, b: bytes): Leftovers { if b == [] then m - {fd} else m[fd := b] }

  ghost predicate Represents(t: Table, m: Leftovers) {
    && TableOk(t)
    && (forall g :: Partial(t, g) == Get(m, g))
    && (forall g :: g in m ==> m[g] != [])
  }

  ghost predicate Absent(t: Table, fd: int)
    requires |t| == HASHSIZE
  {
    forall u :: u in t[HashFd(fd)] ==> u.id != fd
  }

  /** The table with `u` put at the head of its bucket. */
  ghost function WithRecord(t: Table, u: Uncomplete): Table
    requires |t| == HASHSIZE
  {
    t[HashFd(u.id) := [u] + t[HashFd(u.id)]]
  }

  lemma WithRecordOk(t: Table, u: Uncomplete)
    requires TableOk(t) && WellFormed(u) && Absent(t, u.id)
    ensures TableOk(WithRecord(t, u))
    ensures forall m :: Represents(t, m) ==> Represents(WithRecord(t, u), Put(m, u.id, Saved(u)))
  {
    var h, w := HashFd(u.id), WithRecord(t, u);
    assert BucketOk(t[h], h);
    assert BucketOk(w[h], h);
    forall g ensures Partial(w, g) == if g == u.id then Saved(u) else Partial(t, g) {
      assert w[h][1..] == t[h];
    }
  }

  ghost function WithoutRecord(t: Table, h: nat, k: nat): Table
    requires h < |t| && k < |t[h]|
  {
    t[h := t[h][..k] + t[h][k + 1..]]
  }

  lemma WithoutRecordOk(t: Table, h: nat, k: nat)
    requires TableOk(t) && h < HASHSIZE && k < |t[h]|
    ensures TableOk(WithoutRecord(t, h, k)) && Absent(WithoutRecord(t, h, k), t[h][k].id)
    ensures forall m :: Represents(t, m) ==> Represents(WithoutRecord(t, h, k), Put(m, t[h][k].id, []))
  {
    var w := WithoutRecord(t, h, k);
    assert BucketOk(t[h], h);
    LookupWithout(t[h], h, k, 0);
    forall g ensures Partial(w, g) == if g == t[h][k].id then [] else Partial(t, g) {
      if HashFd(g) == h { LookupWithout(t[h], h, k, g); }
    }
  }

  // ---- the ring of finished packets

  /** The queued packets from `head` up to `tail`, wrapping around. */
  ghost function Ring(q: seq<Packet>, head: nat, tail: nat): seq<Packet>
    requires head <= |q| && tail <= |q|
  {
    if head <= tail then q[head..tail] else q[head..] + q[..tail]
  }

  lemma RingPush(q: seq<Packet>, head: nat, tail: nat, p: Packet)
    requires head < |q| && tail < |q|
    ensures var next := if tail + 1 == |q| then 0 else tail + 1;
      && (next != head ==> Ring(q[tail := p], head, next) == Ring(q, head, tail) + [p])
      && (next == head ==> q[tail := p][head..] + q[tail := p][..head] == Ring(q, head, tail) + [p])
  {
    var w := q[tail := p];
    assert w[..tail + 1] == q[..tail] + [p];
    if head <= tail {
      assert w[head..tail + 1] == q[head..tail] + [p];
    } else {
      assert w[head..] == q[head..];
    }
  }

  /** The i-th queued packet, for an index that has not been wrapped yet. */
  lemma RingAt(q: seq<Packet>, head: nat, tail: nat, i: nat)
    requires head < |q| && tail < |q| && head <= i < (if head > tail then tail + |q| else tail)
    ensures i - head < |Ring(q, head, tail)| && Ring(q, head, tail)[i - head] == q[i % |q|]
  {
    WrapIndex(i, |q|);
  }

  lemma RingPop(q: seq<Packet>, head: nat, tail: nat)
    requires head < |q| && tail < |q| && head != tail
    ensures Ring(q, head, tail) == [q[head]] + Ring(q, if head + 1 == |q| then 0 else head + 1, tail)
  {
  }

  lemma AbsentIsEmpty(t: Table, fd: int, m: Leftovers)
    requires Represents(t, m) && Absent(t, fd)
    ensures fd !in m
  {
    assert BucketOk(t[HashFd(fd)], HashFd(fd));
    LookupNone(t[HashFd(fd)], HashFd(fd), fd);
    assert Partial(t, fd) == [];
  }

  /** The frames as packets of connection `fd`. */
  function Tagged(fd: int, frames: seq<bytes>): (ps: seq<Packet>)
    ensures |ps| == |frames| && forall i :: 0 <= i < |ps| ==> ps[i] == Packet(fd, frames[i])
  {
    seq(|frames|, i requires 0 <= i < |frames| => Packet(fd, frames[i]))
  }

  lemma TaggedCons(fd: int, frame: bytes, frames: seq<bytes>)
    ensures Tagged(fd, [frame] + frames) == [Packet(fd, frame)] + Tagged(fd, frames)
  {
  }

  lemma HeaderFirst(s: bytes)
    requires |s| >= 2
    ensures s == WriteSize(ReadSize(s)) + s[2..]
  {
    SizeOfHeader(s[0], s[1]);
  }

  /** The event for the unconsumed stream `s` of connection `fd`. */
  function Outcome(fd: int, s: bytes): Event {
    var frames := Frames(s);
    if frames == [] then Nothing
    else if |frames| == 1 && Rest(s) == [] then Data(fd, frames[0])
    else More
  }

  /** The packets it queues: all of them unless the event carries the only one. */
  function Enqueued(fd: int, s: bytes): seq<Packet> {
    if Outcome(fd, s) == More then Tagged(fd, Frames(s)) else []
  }

  /** The outcome for a stream that starts with the whole packet `data`. */
  lemma OutcomeOfFirst(fd: int, s: bytes, data: bytes, buffer: bytes)
    requires Frames(s) == [data] + Frames(buffer) && Rest(s) == Rest(buffer)
    ensures Outcome(fd, s) == if buffer == [] then Data(fd, data) else More
  {
    if buffer != [] && Frames(buffer) == [] {
      assert Rest(buffer) == buffer;
    }
  }

  /** What the event is for: nothing while the first frame is not whole, the data when it is all there is,
      and otherwise the queue, which then gets every whole frame. */
  lemma OutcomeCases(fd: int, s: bytes, n: int)
    requires |s| >= 2 ==> n == 2 + 256 * s[0] as int + s[1] as int
    ensures Outcome(fd, s) == Nothing <==> |s| < 2 || |s| < n
    ensures Outcome(fd, s).Data? <==> |s| >= 2 && |s| == n
    ensures Outcome(fd, s).Data? ==> Outcome(fd, s) == Data(fd, s[2..])
    ensures Outcome(fd, s) != More ==> Enqueued(fd, s) == []
    ensures Outcome(fd, s) == More ==> |Enqueued(fd, s)| == |Frames(s)|
    ensures Outcome(fd, s) == More ==> forall i :: 0 <= i < |Frames(s)| ==> Enqueued(fd, s)[i] == Packet(fd, Frames(s)[i])
  {
    hide Frames, Rest;
    Layout(s, n);
    EmptyStream();
    if |s| >= 2 && |s| >= n {
      OutcomeOfFirst(fd, s, s[2..n], s[n..]);
      assert n == |s| ==> s[n..] == [] && s[2..n] == s[2..];
    }
  }

  class NetPack {
    var cap: nat
    var head: nat
    var tail: nat
    var queue: array<Packet>
    var hash: array<seq<Uncomplete>>
    ghost var queued: seq<Packet>      // finished packets, oldest first
    ghost var leftover: Leftovers      // unconsumed bytes of each connection

    ghost predicate Valid()
      reads this, queue, hash
    {
      && queue.Length == cap > 0 && head < cap && tail < cap
      && hash.Length == HASHSIZE && (queue as object) != hash
      && queued == Ring(queue[..], head, tail)
      && Represents(hash[..], leftover)
    }

    constructor ()
      ensures Valid() && fresh(queue) && fresh(hash)
      ensures queued == [] && leftover == map[]
    {
      cap, head, tail := QUEUESIZE, 0, 0;
      queue := new Packet[QUEUESIZE](_ => Packet(0, []));
      hash := new seq<Uncomplete>[HASHSIZE](_ => []);
      queued, leftover := [], map[];
      new;
      assert forall h :: 0 <= h < HASHSIZE ==> hash[..][h] == [];
    }

    /** expand_queue: a full ring is copied, in order, into a larger one. */
    method ExpandQueue()
      requires queue.Length == cap > 0 && head == tail < cap
      modifies this`cap, this`head, this`tail, this`queue
      ensures fresh(queue) && queue.Length == cap == old(cap) + QUEUESIZE && head == 0 && tail == old(cap)
      ensures queue[..tail] == old(queue[head..] + queue[..head])
    {
      var larger := new Packet[cap + QUEUESIZE](_ => Packet(0, []));
      ghost var ring := queue[head..] + queue[..head];
      for i := 0 to cap
        modifies larger
        invariant larger[..i] == ring[..i]
      {
        WrapIndex(head + i, cap);
        larger[i] := queue[(head + i) % cap];
      }
      assert ring[..cap] == ring;
      queue, head, tail, cap := larger, 0, cap, cap + QUEUESIZE;
    }

    /** push_data */
    method PushData(fd: int, data: bytes)
      requires Valid()
      modifies this`cap, this`head, this`tail, this`queue, this`queued, queue
      ensures Valid() && hash[..] == old(hash[..]) && (queue == old(queue) || fresh(queue))
      ensures queued == old(queued) + [Packet(fd, data)]
    {
      RingPush(queue[..], head, tail, Packet(fd, data));
      ghost var q := queue[..][tail := Packet(fd, data)];
      queue[tail] := Packet(fd, data);
      assert queue[..] == q;
      queued := queued + [Packet(fd, data)];
      tail := tail + 1;
      if tail >= cap {
        tail := tail - cap;
      }
      if head == tail {
        ExpandQueue();
      }
    }

    /** lpop */
    method Pop() returns (r: Option<Packet>)
      requires Valid()
      modifies this`head, this`queued
      ensures Valid() && leftover == old(leftover)
      ensures r.Some? ==> old(queued) == [r.value] + queued
      ensures r.None? ==> old(queued) == queued == []
    {
      if head == tail {
        return None;
      }
      RingPop(queue[..], head, tail);
      r := Some(queue[head]);
      queued := queued[1..];
      head := head + 1;
      if head >= cap {
        head := 0;
      }
    }

    /** lclear: every half-read packet and every queued one is freed, the queued ones in order and each
        exactly once. */
    method Clear() returns (freed: seq<Packet>)
      requires Valid()
      modifies this`head, this`tail, this`queued, this`leftover, hash
      ensures Valid() && queued == [] && leftover == map[]
      ensures freed == old(queued)
    {
      freed := [];
      var last := tail;
      if head > tail {
        last := last + cap;
      }
      var i := head;
      while i < last
        modifies {}
        invariant head <= i <= last && last - head == |queued| && freed == queued[..i - head]
      {
        RingAt(queue[..], head, tail, i);
        WrapIndex(i, cap);
        freed := freed + [queue[i % cap]];
        i := i + 1;
      }
      forall h | 0 <= h < HASHSIZE {
        hash[h] := [];
      }
      head, tail, queued, leftover := 0, 0, [], map[];
      assert forall h :: 0 <= h < HASHSIZE ==> hash[..][h] == [];
    }

    /** find_uncomplete: the record of `fd` is taken off its list. */
    method FindUncomplete(fd: int) returns (r: Option<Uncomplete>)
      requires Valid()
      modifies hash, this`leftover
      ensures Valid() && Absent(hash[..], fd) && leftover == old(leftover) - {fd}
      ensures r.Some? ==> WellFormed(r.value) && r.value.id == fd && Saved(r.value) == Get(old(leftover), fd)
      ensures r.None? ==> fd !in old(leftover)
    {
      ghost var t := hash[..];
      var h := HashFd(fd);
      var b := hash[h];
      assert BucketOk(t[h], h);
      var k := 0;
      while k < |b| && b[k].id != fd
        modifies {}
        invariant 0 <= k <= |b| && forall i :: 0 <= i < k ==> b[i].id != fd
      {
        k := k + 1;
      }
      if k == |b| {
        AbsentIsEmpty(t, fd, leftover);
        return None;
      }
      LookupAt(b, h, k);
      assert Partial(t, fd) == Saved(b[k]);
      WithoutRecordOk(t, h, k);
      hash[h] := b[..k] + b[k + 1..];
      leftover := leftover - {fd};
      assert hash[..] == WithoutRecord(t, h, k);
      return Some(b[k]);
    }

    /** save_uncomplete, or putting a found record back: `u` becomes the head of its list. */
    method Save(u: Uncomplete)
      requires Valid() && WellFormed(u) && Absent(hash[..], u.id)
      modifies hash, this`leftover
      ensures Valid() && leftover == old(leftover)[u.id := Saved(u)]
    {
      ghost var t := hash[..];
      var h := HashFd(u.id);
      WithRecordOk(t, u);
      hash[h] := [u] + hash[h];
      leftover := leftover[u.id := Saved(u)];
      assert hash[..] == WithRecord(t, u);
    }

    /** The record for a stream that stops within its first frame: after one header byte, or with less
        than the whole packet. */
    method SaveRest(fd: int, s: bytes)
      requires Valid() && |s| > 0 && !Complete(s) && Absent(hash[..], fd)
      modifies hash, this`leftover
      ensures Valid() && leftover == old(leftover)[fd := s]
    {
      if |s| == 1 {
        assert s == [s[0]];
        Save(Uncomplete(fd, 0, [], -1, s[0]));
      } else {
        HeaderFirst(s);
        Save(Uncomplete(fd, ReadSize(s), s[2..], |s| - 2, 0));
      }
    }

    /** push_more: every whole frame of `buffer` is queued and the remainder recorded. */
    method PushMore(fd: int, buffer: bytes)
      requires Valid() && |buffer| > 0 && Absent(hash[..], fd)
      modifies this`cap, this`head, this`tail, this`queue, this`queued, this`leftover, queue, hash
      ensures Valid() && hash == old(hash) && (queue == old(queue) || fresh(queue))
      ensures queued == old(queued) + Tagged(fd, Frames(buffer))
      ensures leftover == Put(old(leftover), fd, Rest(buffer))
      decreases |buffer|
    {
      hide Represents, Ring, Absent;
      if |buffer| == 1 || |buffer| - 2 < ReadSize(buffer) {
        SaveRest(fd, buffer);
        return;
      }
      var data, rest := FirstFrame(buffer), AfterFirst(buffer);
      TaggedCons(fd, data, Frames(rest));
      PushData(fd, data);
      if |rest| > 0 {
        PushMore(fd, rest);
      } else {
        AbsentIsEmpty(hash[..], fd, leftover);
      }
    }

    /** filter_data_: whatever was left over of connection `fd`, followed by the new chunk, is framed;
        one frame that ends the chunk is returned at once, and otherwise every whole frame is queued. */
    method Filter(fd: int, chunk: bytes) returns (e: Event)
      requires Valid() && |chunk| > 0
      modifies this`cap, this`head, this`tail, this`queue, this`queued, this`leftover, queue, hash
      ensures Valid() && hash == old(hash) && (queue == old(queue) || fresh(queue))
      ensures e == Outcome(fd, Get(old(leftover), fd) + chunk)
      ensures queued == old(queued) + Enqueued(fd, Get(old(leftover), fd) + chunk)
      ensures leftover == Put(old(leftover), fd, Rest(Get(old(leftover), fd) + chunk))
    {
      hide Represents, Ring, Absent;
      var found := FindUncomplete(fd);
      if found.Some? {
        e := Resume(found.value, chunk);
      } else {
        assert Get(old(leftover), fd) + chunk == chunk;
        e := Start(fd, chunk);
      }
    }

    /** The branch of filter_data_ that fills up a half-read packet. */
    method Resume(found: Uncomplete, chunk: bytes) returns (e: Event)
      requires Valid() && |chunk| > 0 && WellFormed(found) && Absent(hash[..], found.id)
      modifies this`cap, this`head, this`tail, this`queue, this`queued, this`leftover, queue, hash
      ensures Valid() && hash == old(hash) && (queue == old(queue) || fresh(queue))
      ensures e == Outcome(found.id, Saved(found) + chunk)
      ensures queued == old(queued) + Enqueued(found.id, Saved(found) + chunk)
      ensures leftover == Put(old(leftover), found.id, Rest(Saved(found) + chunk))
    {
      hide Represents, Ring, Absent;
      var uc, buffer := found, chunk;
      if uc.read < 0 {
        var size := buffer[0] as int + uc.header * 0x100;
        SizeOfHeader(uc.header, buffer[0]);
        buffer := buffer[1..];
        uc := uc.(size := size, got := [], read := 0);
      }
      ghost var body := uc.got + buffer;
      assert Saved(found) + chunk == WriteSize(uc.size) + body;
      FromHeader(uc.size, body);
      var need := uc.size - uc.read;
      if |buffer| < need {
        Save(uc.(got := uc.got + buffer, read := uc.read + |buffer|));
        return Nothing;
      }
      var data := uc.got + buffer[..need];
      buffer := buffer[need..];
      assert data == body[..uc.size] && buffer == body[uc.size..];
      e := Finish(uc.id, data, buffer, Saved(found) + chunk);
    }

    /** The branch of filter_data_ for a connection without a half-read packet. */
    method Start(fd: int, chunk: bytes) returns (e: Event)
      requires Valid() && |chunk| > 0 && Absent(hash[..], fd)
      modifies this`cap, this`head, this`tail, this`queue, this`queued, this`leftover, queue, hash
      ensures Valid() && hash == old(hash) && (queue == old(queue) || fresh(queue))
      ensures e == Outcome(fd, chunk)
      ensures queued == old(queued) + Enqueued(fd, chunk)
      ensures leftover == Put(old(leftover), fd, Rest(chunk))
    {
      hide Represents, Ring, Absent;
      if |chunk| == 1 || |chunk| - 2 < ReadSize(chunk) {
        SaveRest(fd, chunk);
        return Nothing;
      }
      e := Finish(fd, FirstFrame(chunk), AfterFirst(chunk), chunk);
    }

    /** The common end of both branches: a whole packet, and what follows it in the chunk. */
    method Finish(fd: int, data: bytes, buffer: bytes, ghost s: bytes) returns (e: Event)
      requires Valid() && Absent(hash[..], fd)
      requires Frames(s) == [data] + Frames(buffer) && Rest(s) == Rest(buffer)
      modifies this`cap, this`head, this`tail, this`queue, this`queued, this`leftover, queue, hash
      ensures Valid() && hash == old(hash) && (queue == old(queue) || fresh(queue))
      ensures e == Outcome(fd, s)
      ensures queued == old(queued) + Enqueued(fd, s)
      ensures leftover == Put(old(leftover), fd, Rest(s))
    {
      hide Represents, Ring, Absent;
      OutcomeOfFirst(fd, s, data, buffer);
      if |buffer| == 0 {
        AbsentIsEmpty(hash[..], fd, leftover);
        return Data(fd, data);
      }
      PushData(fd, data);
      TaggedCons(fd, data, Frames(buffer));
      PushMore(fd, buffer);
      return More;
    }

    /** close_uncomplete: what was left over of the connection is dropped. */
    method CloseUncomplete(fd: int)
      requires Valid()
      modifies hash, this`leftover
      ensures Valid() && leftover == old(leftover) - {fd}
    {
      var _ := FindUncomplete(fd);
    }
  }
}
