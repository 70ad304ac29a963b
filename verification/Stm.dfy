/** The reference-counted snapshots of lua-stm.c: one writer publishes copies, any number of readers
    hold them. The write lock excludes everyone else, so a section under it is one step. The read lock
    is shared: rlock and the access it guards are one step, the unlocking is another, and the freeing
    of the object in stm_releasereader is one of its own. Each atomic decrement outside a lock is a
    step too; between the steps of one caller the others run. Addresses of freed copies may be used
    again. Versions, `seen` and `freed` are history: versions number the copies in publishing order. */
module Stm {
  import opened Common

  type Addr = int

  datatype Copy = Copy(ref: nat, version: nat)

  datatype Object = Object(ref: nat, copy: Option<Addr>)

  /** Between calls, inside stm_grab, between the two steps of stm_update (the old copy still to be
      released), or deleted. */
  datatype Writer = Writing | Grabbing | Releasing(prev: Addr) | Deleted

  /** A reader between calls or in stm_grab; after the copy was taken in lread; in its finalizer after
      dropping the last reference to the object, or after dropping another one; gone. */
  datatype Phase = Idle | Got(copy: Option<Addr>) | Freeing | Leaving | Done

  /** `locked`: it holds the read lock. */
  datatype Reader = Reader(phase: Phase, last: Option<Addr>, seen: nat, locked: bool)

  datatype Memory = Memory(heap: map<Addr, Copy>, freed: seq<nat>)

  datatype State = State(mem: Memory, obj: Option<Object>, writer: Writer, readers: seq<Reader>, published: nat)

  datatype Answer = NotUpdated | Snapshot(version: nat) | Closed

  datatype Caller = TheWriter | TheReader(i: nat)

  datatype Action =
    | Update(at: Addr)          // stm_update up to the unlock
    | ReleaseOld                // its stm_releasecopy(oldcopy)
    | DeleteWriter              // stm_release
    | Grab(who: Caller)          // stm_grab by a holder, for a new reader, before the unlock
    | CopyCurrent(i: nat)       // stm_copy in lread, before the unlock
    | Compare(i: nat)           // the rest of lread
    | LeaveObject(i: nat)       // stm_releasereader up to the decrement
    | Free(i: nat)              // its skynet_free(obj), which does not unlock
    | LeaveCopy(i: nat)         // stm_releasecopy(lastcopy)
    | Unlock(who: Caller)        // rwlock_runlock

  // ---- reference counts

  function Refers(o: Option<Addr>, a: Addr): nat { if o == Some(a) then 1 else 0 }

  function ReaderHolds(r: Reader, a: Addr): nat {
    Refers(r.last, a) + if r.phase.Got? then Refers(r.phase.copy, a) else 0
  }

  function ReadersHold(rs: seq<Reader>, a: Addr): nat {
    if rs == [] then 0 else ReadersHold(rs[..|rs| - 1], a) + ReaderHolds(rs[|rs| - 1], a)
  }

  function ObjectHolds(o: Option<Object>, a: Addr): nat { if o.Some? then Refers(o.value.copy, a) else 0 }

  /** How many pointers to the copy at `a` there are. */
  function Holders(s: State, a: Addr): nat {
    ObjectHolds(s.obj, a) + (if s.writer == Releasing(a) then 1 else 0) + ReadersHold(s.readers, a)
  }

  function Active(r: Reader): nat { if r.phase.Idle? || r.phase.Got? then 1 else 0 }

  function ActiveReaders(rs: seq<Reader>): nat {
    if rs == [] then 0 else ActiveReaders(rs[..|rs| - 1]) + Active(rs[|rs| - 1])
  }

  /** How many are about to free the object. */
  function FreeingReaders(rs: seq<Reader>): nat {
    if rs == [] then 0 else FreeingReaders(rs[..|rs| - 1]) + if rs[|rs| - 1].phase.Freeing? then 1 else 0
  }

  /** How many hold the object itself. */
  function Owners(s: State): nat { (if s.writer == Deleted then 0 else 1) + ActiveReaders(s.readers) }

  lemma {:induction false} ReadersUpdated(rs: seq<Reader>, i: nat, r: Reader)
    requires i < |rs|
    ensures forall a :: ReadersHold(rs[i := r], a) + ReaderHolds(rs[i], a) == ReadersHold(rs, a) + ReaderHolds(r, a)
    ensures ActiveReaders(rs[i := r]) + Active(rs[i]) == ActiveReaders(rs) + Active(r)
    ensures FreeingReaders(rs[i := r]) + (if rs[i].phase.Freeing? then 1 else 0)
      == FreeingReaders(rs) + if r.phase.Freeing? then 1 else 0
  {
    var n := |rs| - 1;
    if i == n {
      assert rs[i := r][..n] == rs[..n];
    } else {
      ReadersUpdated(rs[..n], i, r);
      assert rs[i := r][..n] == rs[..n][i := r];
    }
  }

  lemma {:induction false} ReaderCounted(rs: seq<Reader>, i: nat)
    requires i < |rs|
    ensures forall a :: ReadersHold(rs, a) >= ReaderHolds(rs[i], a)
    ensures ActiveReaders(rs) >= Active(rs[i])
    ensures FreeingReaders(rs) >= if rs[i].phase.Freeing? then 1 else 0
  {
    if i < |rs| - 1 {
      ReaderCounted(rs[..|rs| - 1], i);
    }
  }

  // ---- steps

  /** stm_releasecopy */
  function Release(m: Memory, o: Option<Addr>): Memory
    requires o.Some? ==> o.value in m.heap && m.heap[o.value].ref > 0
  {
    if o.None? then m else
      var a, c := o.value, m.heap[o.value];
      if c.ref == 1 then Memory(m.heap - {a}, m.freed + [c.version])
      else m.(heap := m.heap[a := c.(ref := c.ref - 1)])
  }

  /** `wlock` waits until nobody holds the read lock. */
  predicate NoneReading(s: State) {
    s.writer != Grabbing && forall i :: 0 <= i < |s.readers| ==> !s.readers[i].locked
  }

  /** The reader is between calls. */
  predicate Resting(s: State, i: nat) { i < |s.readers| && s.readers[i].phase == Idle && !s.readers[i].locked }

  /** The callers that may take a step, and for an allocation an address that is not in use. */
  predicate Enabled(s: State, act: Action) {
    match act
    case Update(a) => s.writer == Writing && NoneReading(s) && a !in s.mem.heap
    case ReleaseOld => s.writer.Releasing?
    case DeleteWriter => s.writer == Writing && NoneReading(s)
    case Grab(who) => (match who case TheWriter => s.writer == Writing case TheReader(i) => Resting(s, i))
    case CopyCurrent(i) => Resting(s, i)
    case Compare(i) => i < |s.readers| && s.readers[i].phase.Got? && !s.readers[i].locked
    case LeaveObject(i) => Resting(s, i)
    case Free(i) => i < |s.readers| && s.readers[i].phase == Freeing
    case LeaveCopy(i) => i < |s.readers| && s.readers[i].phase == Leaving && !s.readers[i].locked
    case Unlock(who) => (match who
      case TheWriter => s.writer == Grabbing
      case TheReader(i) => i < |s.readers| && s.readers[i].locked && s.readers[i].phase != Freeing)
  }

  predicate Allocated(s: State, o: Option<Addr>) {
    o.Some? ==> o.value in s.mem.heap && s.mem.heap[o.value].ref > 0
  }

  /** What a step touches exists, and the source's assertions hold. */
  predicate Safe(s: State, act: Action)
    requires Enabled(s, act)
  {
    match act
    case Update(_) => s.obj.Some? && s.obj.value.copy.Some?
    case ReleaseOld => Allocated(s, Some(s.writer.prev))
    case DeleteWriter => s.obj.Some? && s.obj.value.ref > 0 && s.obj.value.copy.Some? && Allocated(s, s.obj.value.copy)
    case Grab(_) => s.obj.Some? && s.obj.value.ref > 0
    case CopyCurrent(i) => s.obj.Some? && Allocated(s, s.obj.value.copy)
    case Compare(i) => Allocated(s, s.readers[i].phase.copy) && Allocated(s, s.readers[i].last)
    case LeaveObject(i) => s.obj.Some? && s.obj.value.ref > 0
    case Free(i) => s.obj.Some? && s.obj.value.copy == None
    case LeaveCopy(i) => Allocated(s, s.readers[i].last)
    case Unlock(_) => s.obj.Some?
  }

  function DropOwner(o: Object): Option<Object> { if o.ref <= 1 then None else Some(o.(ref := o.ref - 1)) }

  function VersionAt(m: Memory, a: Addr): nat { if a in m.heap then m.heap[a].version else 0 }

  /** The caller takes the read lock, or gives it back. */
  function Locked(s: State, who: Caller, locked: bool): (t: State)
    requires who.TheReader? ==> who.i < |s.readers|
    ensures |t.readers| == |s.readers|
  {
    match who
    case TheWriter => s.(writer := if locked then Grabbing else Writing)
    case TheReader(i) => s.(readers := s.readers[i := s.readers[i].(locked := locked)])
  }

  function Next(s: State, act: Action): State
    requires Enabled(s, act) && Safe(s, act)
  {
    match act
    case Update(a) =>
      s.(mem := s.mem.(heap := s.mem.heap[a := Copy(1, s.published + 1)]), published := s.published + 1,
         obj := Some(s.obj.value.(copy := Some(a))), writer := Releasing(s.obj.value.copy.value))
    case ReleaseOld =>
      s.(mem := Release(s.mem, Some(s.writer.prev)), writer := Writing)
    case DeleteWriter =>
      s.(mem := Release(s.mem, s.obj.value.copy), obj := DropOwner(s.obj.value.(copy := None)), writer := Deleted)
    case Grab(who) =>
      var t := Locked(s, who, true);
      t.(obj := Some(s.obj.value.(ref := s.obj.value.ref + 1)), readers := t.readers + [Reader(Idle, None, 0, false)])
    case CopyCurrent(i) =>
      var o := s.obj.value.copy;
      var heap := if o.Some? then s.mem.heap[o.value := s.mem.heap[o.value].(ref := s.mem.heap[o.value].ref + 1)] else s.mem.heap;
      s.(mem := s.mem.(heap := heap), readers := s.readers[i := s.readers[i].(phase := Got(o), locked := true)])
    case Compare(i) =>
      var r := s.readers[i];
      if r.phase.copy == r.last then
        s.(mem := Release(s.mem, r.phase.copy), readers := s.readers[i := r.(phase := Idle)])
      else
        var seen := if r.phase.copy.Some? then VersionAt(s.mem, r.phase.copy.value) else r.seen;
        s.(mem := Release(s.mem, r.last), readers := s.readers[i := Reader(Idle, r.phase.copy, seen, false)])
    case LeaveObject(i) =>
      var o := s.obj.value;
      s.(obj := Some(o.(ref := o.ref - 1)), readers := s.readers[i := s.readers[i].(phase := if o.ref == 1 then Freeing else Leaving, locked := true)])
    case Free(i) =>
      s.(obj := None, readers := s.readers[i := s.readers[i].(phase := Leaving, locked := false)])
    case LeaveCopy(i) =>
      s.(mem := Release(s.mem, s.readers[i].last), readers := s.readers[i := s.readers[i].(phase := Done, last := None)])
    case Unlock(who) => Locked(s, who, false)
  }

  /** What lread tells its caller. */
  function AnswerOf(s: State, i: nat): Answer
    requires Enabled(s, Compare(i)) && Safe(s, Compare(i))
  {
    var r := s.readers[i];
    if r.phase.copy == r.last then NotUpdated
    else if r.phase.copy.Some? then Snapshot(VersionAt(s.mem, r.phase.copy.value))
    else Closed
  }

  // ---- the invariant

  /** Every copy in memory is counted exactly by its pointers, and every pointer is to a copy in memory. */
  ghost predicate Counted(m: Memory, holders: Addr -> nat) {
    && (forall a :: a in m.heap ==> m.heap[a].ref == holders(a) > 0)
    && (forall a :: a !in m.heap ==> holders(a) == 0)
  }

  /** Each published version is either in memory once or freed once. */
  ghost predicate Versions(m: Memory, published: nat) {
    && (forall a :: a in m.heap ==> 1 <= m.heap[a].version <= published && m.heap[a].version !in m.freed)
    && (forall a, b :: a in m.heap && b in m.heap && a != b ==> m.heap[a].version != m.heap[b].version)
    && Distinct(m.freed)
    && (forall v :: v in m.freed ==> 1 <= v <= published)
    && (forall v {:trigger v in m.freed} :: 1 <= v <= published && v !in m.freed ==> InMemory(m, v))
  }

  ghost predicate InMemory(m: Memory, v: nat) { exists a :: a in m.heap && m.heap[a].version == v }

  ghost predicate ObjectOk(s: State) {
    && (s.obj.Some? <==> Owners(s) + FreeingReaders(s.readers) > 0)
    && (FreeingReaders(s.readers) > 0 ==> Owners(s) == 0 && FreeingReaders(s.readers) == 1)
    && (s.obj.Some? ==> s.obj.value.ref == Owners(s) && (s.obj.value.copy.Some? <==> s.writer != Deleted))
    && (s.obj.Some? && s.obj.value.copy.Some? ==> VersionAt(s.mem, s.obj.value.copy.value) == s.published)
  }

  ghost predicate ReaderOk(s: State, r: Reader) {
    && (r.last.Some? ==> VersionAt(s.mem, r.last.value) == r.seen)
    && (r.last.None? && r.seen > 0 && r.phase != Done ==> s.writer == Deleted && !(r.phase.Got? && r.phase.copy.Some?))
    && (r.phase.Got? && r.phase.copy.Some? ==> VersionAt(s.mem, r.phase.copy.value) >= r.seen)
    && (r.phase == Got(None) ==> s.writer == Deleted)
    && (r.phase.Done? ==> r.last.None? && !r.locked) && (r.phase.Freeing? ==> r.locked)
  }

  ghost predicate Inv(s: State) {
    && Counted(s.mem, a => Holders(s, a))
    && Versions(s.mem, s.published)
    && ObjectOk(s)
    && forall i :: 0 <= i < |s.readers| ==> ReaderOk(s, s.readers[i])
  }

  /** stm_new */
  function Initial(a: Addr): State {
    State(Memory(map[a := Copy(1, 1)], []), Some(Object(1, Some(a))), Writing, [], 1)
  }

  lemma InitialInv(a: Addr)
    ensures Inv(Initial(a))
  {
    var s := Initial(a);
    assert s.mem.heap[a].version == 1;
    assert InMemory(s.mem, 1);
  }

  // ---- every step keeps the invariant

  /** A step from a state of the invariant touches only what exists, but for the unlocking of an object
      that another reader has freed meanwhile. */
  lemma EnabledIsSafe(s: State, act: Action)
    requires Inv(s) && Enabled(s, act)
    ensures Safe(s, act) <==> !(act.Unlock? && s.obj == None)
    ensures !Safe(s, act) ==> act.who.TheReader? && s.readers[act.who.i].phase == Leaving
  {
    hide Versions;
    match act
    case Update(_) =>
    case ReleaseOld => HeldIsAllocated(s, s.writer.prev);
    case DeleteWriter => HeldIsAllocated(s, s.obj.value.copy.value);
    case Grab(who) => if who.TheReader? { ReaderCounted(s.readers, who.i); }
    case CopyCurrent(i) =>
      ReaderCounted(s.readers, i);
      if s.obj.value.copy.Some? { HeldIsAllocated(s, s.obj.value.copy.value); }
    case Compare(i) => ReaderAllocated(s, i);
    case LeaveObject(i) => ReaderCounted(s.readers, i);
    case Free(i) => ReaderCounted(s.readers, i);
    case LeaveCopy(i) => ReaderAllocated(s, i);
    case Unlock(who) => if who.TheReader? { ReaderCounted(s.readers, who.i); }
  }

  lemma HeldIsAllocated(s: State, a: Addr)
    requires Counted(s.mem, b => Holders(s, b)) && Holders(s, a) > 0
    ensures Allocated(s, Some(a))
  {
    hide Holders;
    assert (b => Holders(s, b))(a) > 0;
  }

  lemma ReaderAllocated(s: State, i: nat)
    requires Counted(s.mem, b => Holders(s, b)) && i < |s.readers|
    ensures Allocated(s, s.readers[i].last) && (s.readers[i].phase.Got? ==> Allocated(s, s.readers[i].phase.copy))
  {
    var r := s.readers[i];
    ReaderCounted(s.readers, i);
    if r.last.Some? { HeldIsAllocated(s, r.last.value); }
    if r.phase.Got? && r.phase.copy.Some? { HeldIsAllocated(s, r.phase.copy.value); }
  }

  ghost predicate SameVersions(m: Memory, n: Memory) {
    forall a :: a in m.heap && a in n.heap ==> m.heap[a].version == n.heap[a].version
  }

  lemma ReleaseCounted(m: Memory, o: Option<Addr>, before: Addr -> nat, after: Addr -> nat)
    requires Counted(m, before) && (o.Some? ==> o.value in m.heap && m.heap[o.value].ref > 0)
    requires forall a :: after(a) + Refers(o, a) == before(a)
    ensures Counted(Release(m, o), after) && SameVersions(m, Release(m, o))
  {
    if o.Some? {
      assert Refers(o, o.value) == 1;
      assert before(o.value) == m.heap[o.value].ref && after(o.value) == m.heap[o.value].ref - 1;
    }
  }

  lemma ReleaseVersions(m: Memory, o: Option<Addr>, published: nat)
    requires Versions(m, published) && (o.Some? ==> o.value in m.heap && m.heap[o.value].ref > 0)
    ensures Versions(Release(m, o), published)
  {
    var n := Release(m, o);
    if o.Some? {
      var c := m.heap[o.value];
      forall v {:trigger v in n.freed} | 1 <= v <= published && v !in n.freed ensures InMemory(n, v) {
        assert InMemory(m, v) by { if c.ref == 1 { assert n.freed[..|m.freed|] == m.freed; } }
        var a :| a in m.heap && m.heap[a].version == v;
        assert a in n.heap && n.heap[a].version == v by {
          if c.ref == 1 { assert n.freed[|m.freed|] == c.version; }
        }
      }
    }
  }

  /** A reader that takes no part in a step stays as it should be. */
  lemma Bystander(s: State, t: State, i: nat)
    requires i < |s.readers| && i < |t.readers| && s.readers[i] == t.readers[i] && ReaderOk(s, s.readers[i])
    requires Counted(s.mem, a => Holders(s, a)) && Counted(t.mem, a => Holders(t, a)) && SameVersions(s.mem, t.mem)
    requires s.writer == Deleted ==> t.writer == Deleted
    ensures ReaderOk(t, t.readers[i])
  {
    var r := s.readers[i];
    ReaderCounted(s.readers, i);
    ReaderCounted(t.readers, i);
    if r.last.Some? { assert Holders(s, r.last.value) > 0 && Holders(t, r.last.value) > 0; }
    if r.phase.Got? && r.phase.copy.Some? { assert Holders(s, r.phase.copy.value) > 0 && Holders(t, r.phase.copy.value) > 0; }
  }

  lemma Bystanders(s: State, t: State, but: int)
    requires Inv(s) && Counted(t.mem, a => Holders(t, a)) && SameVersions(s.mem, t.mem)
    requires |s.readers| <= |t.readers| && forall i :: 0 <= i < |s.readers| && i != but ==> s.readers[i] == t.readers[i]
    requires s.writer == Deleted ==> t.writer == Deleted
    ensures forall i :: 0 <= i < |s.readers| && i != but ==> ReaderOk(t, t.readers[i])
  {
    forall i | 0 <= i < |s.readers| && i != but ensures ReaderOk(t, t.readers[i]) {
      Bystander(s, t, i);
    }
  }

  lemma PublishVersions(m: Memory, a: Addr, published: nat)
    requires Versions(m, published) && a !in m.heap
    ensures Versions(m.(heap := m.heap[a := Copy(1, published + 1)]), published + 1)
  {
    var n := m.(heap := m.heap[a := Copy(1, published + 1)]);
    forall v {:trigger v in n.freed} | 1 <= v <= published + 1 && v !in n.freed ensures InMemory(n, v) {
      if v == published + 1 {
        assert n.heap[a].version == v;
      } else {
        assert InMemory(m, v);
        var b :| b in m.heap && m.heap[b].version == v;
        assert n.heap[b].version == v;
      }
    }
  }

  lemma UpdateKeeps(s: State, a: Addr)
    requires Inv(s) && Enabled(s, Update(a)) && Safe(s, Update(a))
    ensures Inv(Next(s, Update(a)))
  {
    hide Versions, InMemory;
    var t := Next(s, Update(a));
    var prev := s.obj.value.copy.value;
    assert Holders(s, a) == 0 && Holders(s, prev) > 0;
    assert forall b :: Holders(t, b) == Holders(s, b) + Refers(Some(a), b);
    assert Counted(t.mem, b => Holders(t, b));
    PublishVersions(s.mem, a, s.published);
    Bystanders(s, t, -1);
  }

  lemma ReleaseOldKeeps(s: State)
    requires Inv(s) && Enabled(s, ReleaseOld) && Safe(s, ReleaseOld)
    ensures Inv(Next(s, ReleaseOld))
  {
    hide Versions, InMemory;
    var t := Next(s, ReleaseOld);
    ReleaseCounted(s.mem, Some(s.writer.prev), a => Holders(s, a), a => Holders(t, a));
    ReleaseVersions(s.mem, Some(s.writer.prev), s.published);
    if s.obj.value.copy.Some? { assert Holders(s, s.obj.value.copy.value) > 0 && Holders(t, s.obj.value.copy.value) > 0; }
    Bystanders(s, t, -1);
  }

  lemma DeleteWriterKeeps(s: State)
    requires Inv(s) && Enabled(s, DeleteWriter) && Safe(s, DeleteWriter)
    ensures Inv(Next(s, DeleteWriter))
  {
    hide Versions, InMemory;
    var t := Next(s, DeleteWriter);
    ReleaseCounted(s.mem, s.obj.value.copy, a => Holders(s, a), a => Holders(t, a));
    ReleaseVersions(s.mem, s.obj.value.copy, s.published);
    Bystanders(s, t, -1);
  }

  /** Taking or giving back the read lock moves no pointer. */
  lemma LockedSame(s: State, who: Caller, locked: bool)
    requires who.TheReader? ==> who.i < |s.readers|
    requires who.TheWriter? ==> s.writer == Writing || s.writer == Grabbing
    ensures var t := Locked(s, who, locked);
      && (forall a :: Holders(t, a) == Holders(s, a))
      && Owners(t) == Owners(s) && FreeingReaders(t.readers) == FreeingReaders(s.readers)
      && t.mem == s.mem && t.obj == s.obj && (t.writer == Deleted <==> s.writer == Deleted)
  {
    if who.TheReader? {
      ReadersUpdated(s.readers, who.i, s.readers[who.i].(locked := locked));
    }
  }

  /** A caller that can take the lock, or give it back, is in a phase where it may. */
  lemma LockKeeps(s: State, who: Caller, locked: bool)
    requires Inv(s) && (if locked then Enabled(s, Grab(who)) else Enabled(s, Unlock(who)))
    ensures Inv(Locked(s, who, locked))
  {
    hide Versions, Holders;
    var t := Locked(s, who, locked);
    LockedSame(s, who, locked);
    assert Counted(t.mem, a => Holders(t, a));
    Bystanders(s, t, if who.TheReader? then who.i else -1);
  }

  /** The reader that joins holds the object and no copy. */
  lemma GrabCounts(s: State, who: Caller)
    requires Inv(s) && Enabled(s, Grab(who)) && Safe(s, Grab(who))
    ensures var t, u := Locked(s, who, true), Next(s, Grab(who));
      (forall a :: Holders(u, a) == Holders(t, a)) && ObjectOk(u)
  {
    hide Counted, Versions, ReaderOk;
    LockedSame(s, who, true);
    var t, u := Locked(s, who, true), Next(s, Grab(who));
    assert u.readers[..|u.readers| - 1] == t.readers;
  }

  lemma GrabKeeps(s: State, who: Caller)
    requires Inv(s) && Enabled(s, Grab(who)) && Safe(s, Grab(who))
    ensures Inv(Next(s, Grab(who)))
  {
    hide Versions, Holders, ObjectOk;
    var t, u := Locked(s, who, true), Next(s, Grab(who));
    LockKeeps(s, who, true);
    GrabCounts(s, who);
    assert Counted(u.mem, a => Holders(u, a));
    hide Counted;
    Joined(t, u);
  }

  lemma Joined(t: State, u: State)
    requires forall i :: 0 <= i < |t.readers| ==> ReaderOk(t, t.readers[i])
    requires u.mem == t.mem && u.writer == t.writer && u.readers == t.readers + [Reader(Idle, None, 0, false)]
    ensures forall i :: 0 <= i < |u.readers| ==> ReaderOk(u, u.readers[i])
  {
  }

  lemma VersionsKept(m: Memory, n: Memory, published: nat)
    requires Versions(m, published) && n.freed == m.freed && n.heap.Keys == m.heap.Keys && SameVersions(m, n)
    ensures Versions(n, published)
  {
    forall v {:trigger v in n.freed} | 1 <= v <= published && v !in n.freed ensures InMemory(n, v) {
      assert InMemory(m, v);
      var b :| b in m.heap && m.heap[b].version == v;
      assert n.heap[b].version == v;
    }
  }

  lemma CopyCurrentCounts(s: State, i: nat)
    requires Inv(s) && Enabled(s, CopyCurrent(i)) && Safe(s, CopyCurrent(i))
    ensures var t := Next(s, CopyCurrent(i));
      && Counted(t.mem, a => Holders(t, a)) && SameVersions(s.mem, t.mem) && t.mem.heap.Keys == s.mem.heap.Keys
      && Owners(t) == Owners(s) && FreeingReaders(t.readers) == FreeingReaders(s.readers)
  {
    hide Versions, ReaderOk, ObjectOk;
    var t := Next(s, CopyCurrent(i));
    var o := s.obj.value.copy;
    ReadersUpdated(s.readers, i, t.readers[i]);
    assert forall a :: Holders(t, a) == Holders(s, a) + Refers(o, a);
  }

  lemma CopyCurrentKeeps(s: State, i: nat)
    requires Inv(s) && Enabled(s, CopyCurrent(i)) && Safe(s, CopyCurrent(i))
    ensures Inv(Next(s, CopyCurrent(i)))
  {
    hide Versions, ReaderOk, Counted;
    var t := Next(s, CopyCurrent(i));
    CopyCurrentCounts(s, i);
    VersionsKept(s.mem, t.mem, s.published);
    CopyCurrentReader(s, i);
    StillNewest(s, t);
    Bystanders(s, t, i);
  }

  lemma CopyCurrentReader(s: State, i: nat)
    requires Inv(s) && Enabled(s, CopyCurrent(i)) && Safe(s, CopyCurrent(i))
    ensures ReaderOk(Next(s, CopyCurrent(i)), Next(s, CopyCurrent(i)).readers[i])
  {
    hide Versions, InMemory;
    var r := s.readers[i];
    CurrentIsNewest(s, r);
    if r.last.Some? {
      ReaderCounted(s.readers, i);
      assert Holders(s, r.last.value) > 0;
    }
  }

  /** No reader has seen a version that is newer than the current one. */
  lemma CurrentIsNewest(s: State, r: Reader)
    requires Inv(s) && r in s.readers
    ensures s.obj.Some? && s.obj.value.copy.Some? ==> VersionAt(s.mem, s.obj.value.copy.value) >= (if r.phase.Done? then 0 else r.seen)
  {
    var i :| 0 <= i < |s.readers| && s.readers[i] == r;
    ReaderCounted(s.readers, i);
    if r.last.Some? { assert Holders(s, r.last.value) > 0; }
  }

  /** The pointers to a copy that a Compare step gives up. */
  function GivenUp(r: Reader): Option<Addr>
    requires r.phase.Got?
  {
    if r.phase.copy == r.last then r.phase.copy else r.last
  }

  lemma CompareHolds(s: State, i: nat)
    requires Inv(s) && Enabled(s, Compare(i)) && Safe(s, Compare(i))
    ensures var t := Next(s, Compare(i));
      && (forall a :: Holders(t, a) + Refers(GivenUp(s.readers[i]), a) == Holders(s, a))
      && t.mem == Release(s.mem, GivenUp(s.readers[i])) && t.obj == s.obj && t.writer == s.writer
      && Owners(t) == Owners(s) && FreeingReaders(t.readers) == FreeingReaders(s.readers)
  {
    hide Counted, Versions, ReaderOk, ObjectOk, Release;
    ReadersUpdated(s.readers, i, Next(s, Compare(i)).readers[i]);
  }

  lemma CompareCounts(s: State, i: nat)
    requires Inv(s) && Enabled(s, Compare(i)) && Safe(s, Compare(i))
    ensures var t := Next(s, Compare(i));
      Counted(t.mem, a => Holders(t, a)) && SameVersions(s.mem, t.mem) && Versions(t.mem, t.published)
  {
    hide Versions, Release, Holders, ReaderOk, ObjectOk;
    var t, o := Next(s, Compare(i)), GivenUp(s.readers[i]);
    CompareHolds(s, i);
    ReleaseCounted(s.mem, o, a => Holders(s, a), a => Holders(t, a));
    ReleaseVersions(s.mem, o, s.published);
  }

  lemma CompareReader(s: State, i: nat)
    requires Inv(s) && Enabled(s, Compare(i)) && Safe(s, Compare(i))
    ensures ReaderOk(Next(s, Compare(i)), Next(s, Compare(i)).readers[i])
  {
    hide Versions, InMemory;
    var t := Next(s, Compare(i));
    CompareCounts(s, i);
    ReaderCounted(s.readers, i);
    ReaderCounted(t.readers, i);
    var last := t.readers[i].last;
    if last.Some? { assert Holders(t, last.value) > 0 && Holders(s, last.value) > 0; }
  }

  lemma CompareKeeps(s: State, i: nat)
    requires Inv(s) && Enabled(s, Compare(i)) && Safe(s, Compare(i))
    ensures Inv(Next(s, Compare(i)))
  {
    hide Versions, ReaderOk, Counted, Release;
    var t := Next(s, Compare(i));
    CompareHolds(s, i);
    CompareCounts(s, i);
    CompareReader(s, i);
    StillNewest(s, t);
    Bystanders(s, t, i);
  }

  /** The object's reference count follows its owners as one of them leaves. */
  lemma LeaveObjectCounts(s: State, i: nat)
    requires Inv(s) && Enabled(s, LeaveObject(i)) && Safe(s, LeaveObject(i))
    ensures var t := Next(s, LeaveObject(i));
      ObjectOk(t) && forall a :: Holders(t, a) == Holders(s, a)
  {
    hide Counted, Versions, ReaderOk;
    ReaderCounted(s.readers, i);
    ReadersUpdated(s.readers, i, Next(s, LeaveObject(i)).readers[i]);
  }

  lemma LeaveObjectKeeps(s: State, i: nat)
    requires Inv(s) && Enabled(s, LeaveObject(i)) && Safe(s, LeaveObject(i))
    ensures Inv(Next(s, LeaveObject(i)))
  {
    hide Versions, Holders, ObjectOk;
    var t := Next(s, LeaveObject(i));
    LeaveObjectCounts(s, i);
    assert Counted(t.mem, a => Holders(t, a));
    Bystanders(s, t, i);
  }

  lemma FreeCounts(s: State, i: nat)
    requires Inv(s) && Enabled(s, Free(i)) && Safe(s, Free(i))
    ensures var t := Next(s, Free(i));
      ObjectOk(t) && forall a :: Holders(t, a) == Holders(s, a)
  {
    hide Counted, Versions, ReaderOk;
    ReaderCounted(s.readers, i);
    ReadersUpdated(s.readers, i, Next(s, Free(i)).readers[i]);
  }

  lemma FreeKeeps(s: State, i: nat)
    requires Inv(s) && Enabled(s, Free(i)) && Safe(s, Free(i))
    ensures Inv(Next(s, Free(i)))
  {
    hide Versions, Holders, ObjectOk;
    var t := Next(s, Free(i));
    FreeCounts(s, i);
    assert Counted(t.mem, a => Holders(t, a));
    Bystanders(s, t, i);
  }

  lemma LeaveCopyCounts(s: State, i: nat)
    requires Inv(s) && Enabled(s, LeaveCopy(i)) && Safe(s, LeaveCopy(i))
    ensures var t := Next(s, LeaveCopy(i));
      && Counted(t.mem, a => Holders(t, a)) && SameVersions(s.mem, t.mem)
      && Owners(t) == Owners(s) && FreeingReaders(t.readers) == FreeingReaders(s.readers)
  {
    hide Versions, ReaderOk;
    var t := Next(s, LeaveCopy(i));
    ReadersUpdated(s.readers, i, t.readers[i]);
    ReleaseCounted(s.mem, s.readers[i].last, a => Holders(s, a), a => Holders(t, a));
  }

  /** The object's copy is the newest still, when versions stay where they are. */
  lemma StillNewest(s: State, t: State)
    requires Inv(s) && Counted(t.mem, a => Holders(t, a)) && SameVersions(s.mem, t.mem) && t.obj == s.obj
    ensures t.obj.Some? && t.obj.value.copy.Some? ==> VersionAt(t.mem, t.obj.value.copy.value) == s.published
  {
    hide Versions, ReaderOk;
    if s.obj.Some? && s.obj.value.copy.Some? {
      HeldIsAllocated(s, s.obj.value.copy.value);
      HeldIsAllocated(t, s.obj.value.copy.value);
    }
  }

  lemma LeaveCopyKeeps(s: State, i: nat)
    requires Inv(s) && Enabled(s, LeaveCopy(i)) && Safe(s, LeaveCopy(i))
    ensures Inv(Next(s, LeaveCopy(i)))
  {
    hide Versions, Counted, Release;
    var t := Next(s, LeaveCopy(i));
    LeaveCopyCounts(s, i);
    StillNewest(s, t);
    ReleaseVersions(s.mem, s.readers[i].last, s.published);
    Bystanders(s, t, i);
  }

  /** Whatever caller goes next, a step that is safe keeps the invariant. */
  lemma StepKeeps(s: State, act: Action)
    requires Inv(s) && Enabled(s, act) && Safe(s, act)
    ensures Inv(Next(s, act))
  {
    hide Inv, Locked;
    match act
    case Update(a) => UpdateKeeps(s, a);
    case ReleaseOld => ReleaseOldKeeps(s);
    case DeleteWriter => DeleteWriterKeeps(s);
    case Grab(who) => GrabKeeps(s, who);
    case CopyCurrent(i) => CopyCurrentKeeps(s, i);
    case Compare(i) => CompareKeeps(s, i);
    case LeaveObject(i) => LeaveObjectKeeps(s, i);
    case Free(i) => FreeKeeps(s, i);
    case LeaveCopy(i) => LeaveCopyKeeps(s, i);
    case Unlock(who) => LockKeeps(s, who, false);
  }

  // ---- runs

  /** How a run can end: in a state, with a step its caller could not take, or with an access to
      something that does not exist. */
  datatype Outcome = In(state: State) | Refused | Crashed

  function Run(a: Addr, acts: seq<Action>): Outcome {
    if acts == [] then In(Initial(a)) else
      var before := Run(a, acts[..|acts| - 1]);
      var act := acts[|acts| - 1];
      if !before.In? then before
      else if !Enabled(before.state, act) then Refused
      else if !Safe(before.state, act) then Crashed
      else In(Next(before.state, act))
  }

  /** Every state that a run reaches satisfies the invariant. */
  lemma {:induction false} EveryRun(a: Addr, acts: seq<Action>)
    ensures Run(a, acts).In? ==> Inv(Run(a, acts).state)
  {
    hide Inv, Safe, Enabled, Next;
    if acts == [] {
      InitialInv(a);
    } else {
      var before := Run(a, acts[..|acts| - 1]);
      EveryRun(a, acts[..|acts| - 1]);
      if before.In? && Enabled(before.state, acts[|acts| - 1]) && Safe(before.state, acts[|acts| - 1]) {
        StepKeeps(before.state, acts[|acts| - 1]);
      }
    }
  }

  // ---- the shared lock: when a run crashes

  /** A reader frees the object while another one, past its own decrement, has still to unlock it. */
  predicate FreesUnderLock(s: State, act: Action) {
    act.Free? && exists j :: 0 <= j < |s.readers| && j != act.i && s.readers[j].locked
  }

  /** A step of the run does so. */
  ghost predicate FreedUnderLock(a: Addr, acts: seq<Action>) {
    acts != [] &&
    var (before, act) := (acts[..|acts| - 1], acts[|acts| - 1]);
    || FreedUnderLock(a, before)
    || (Run(a, before).In? && Enabled(Run(a, before).state, act) && FreesUnderLock(Run(a, before).state, act))
  }

  /** The object is gone and some reader has still to unlock it. */
  ghost predicate Stranded(s: State) {
    s.obj == None && exists j :: 0 <= j < |s.readers| && s.readers[j].locked
  }

  /** Only a free under lock strands a reader, and nothing but its crash ends that. */
  lemma StrandedStep(s: State, act: Action)
    requires Inv(s) && Enabled(s, act) && Safe(s, act)
    ensures Stranded(Next(s, act)) <==> Stranded(s) || FreesUnderLock(s, act)
  {
    hide Counted, Versions, ReaderOk, Holders, Release;
    var t := Next(s, act);
    if act.Free? {
      assert forall j :: 0 <= j < |t.readers| ==> (t.readers[j].locked <==> j != act.i && s.readers[j].locked);
    } else if s.obj == None {
      assert |t.readers| == |s.readers| && forall j :: 0 <= j < |t.readers| ==> t.readers[j].locked == s.readers[j].locked;
    } else if act.DeleteWriter? {
      assert t.readers == s.readers;
    }
  }

  /** A run crashes, or leaves a reader whose unlocking will crash, exactly when some reader freed the
      object while another still held the shared lock. */
  lemma {:induction false} CrashIff(a: Addr, acts: seq<Action>)
    ensures Run(a, acts).Crashed? ==> FreedUnderLock(a, acts)
    ensures Run(a, acts).In? ==> (FreedUnderLock(a, acts) <==> Stranded(Run(a, acts).state))
  {
    hide Inv, Safe, Enabled, Next, Stranded, FreesUnderLock;
    if acts == [] {
      NotStranded(a);
    } else {
      var before, act := acts[..|acts| - 1], acts[|acts| - 1];
      CrashIff(a, before);
      EveryRun(a, before);
      if Run(a, before).In? && Enabled(Run(a, before).state, act) {
        var s := Run(a, before).state;
        if Safe(s, act) {
          StrandedStep(s, act);
        } else {
          UnsafeIsStranded(s, act);
        }
      }
    }
  }

  lemma NotStranded(a: Addr)
    ensures !Stranded(Initial(a))
  {
  }

  lemma UnsafeIsStranded(s: State, act: Action)
    requires Inv(s) && Enabled(s, act) && !Safe(s, act)
    ensures Stranded(s)
  {
    hide Inv, Safe;
    EnabledIsSafe(s, act);
  }

  /** A stranded reader can take no step but the unlocking, and that crashes. */
  lemma StrandedCrashes(a: Addr, acts: seq<Action>, j: nat)
    requires Run(a, acts).In? && Stranded(Run(a, acts).state)
    requires j < |Run(a, acts).state.readers| && Run(a, acts).state.readers[j].locked
    ensures Run(a, acts + [Unlock(TheReader(j))]).Crashed?
    ensures forall act: Action :: Enabled(Run(a, acts).state, act) && By(act) == TheReader(j) ==> act == Unlock(TheReader(j))
  {
    hide Counted, Versions;
    EveryRun(a, acts);
    var s := Run(a, acts).state;
    ReaderCounted(s.readers, j);
    assert (acts + [Unlock(TheReader(j))])[..|acts|] == acts;
  }

  /** Who takes the step. */
  function By(act: Action): Caller {
    match act
    case Grab(who) => who
    case Unlock(who) => who
    case CopyCurrent(i) => TheReader(i)
    case Compare(i) => TheReader(i)
    case LeaveObject(i) => TheReader(i)
    case Free(i) => TheReader(i)
    case LeaveCopy(i) => TheReader(i)
    case _ => TheWriter
  }

  /** So a run in which every reader ends is one in which no object was freed under lock, and a run
      without such a free never touches what was freed. */
  lemma WholeRuns(a: Addr, acts: seq<Action>)
    ensures Run(a, acts).In? && (forall r :: r in Run(a, acts).state.readers ==> r.phase == Done) ==> !FreedUnderLock(a, acts)
    ensures !FreedUnderLock(a, acts) ==> !Run(a, acts).Crashed?
  {
    CrashIff(a, acts);
    EveryRun(a, acts);
    if Run(a, acts).In? && forall r :: r in Run(a, acts).state.readers ==> r.phase == Done {
      var s := Run(a, acts).state;
      forall j | 0 <= j < |s.readers| ensures !s.readers[j].locked {
        assert s.readers[j] in s.readers && ReaderOk(s, s.readers[j]);
      }
    }
  }

  /** One more step of a run. */
  lemma RunStep(a: Addr, acts: seq<Action>, act: Action, s: State)
    requires Run(a, acts) == In(s)
    ensures Enabled(s, act) && Safe(s, act) ==> Run(a, acts + [act]) == In(Next(s, act))
    ensures Enabled(s, act) && !Safe(s, act) ==> Run(a, acts + [act]) == Crashed
  {
    hide Enabled, Safe, Next;
    assert (acts + [act])[..|acts|] == acts;
  }

  /** The failing run: two readers leave after the writer, the first one only decrements, the second one
      frees the object, and then the first one unlocks it. */
  const FAILING: seq<Action> := [Grab(TheWriter), Unlock(TheWriter), Grab(TheWriter), Unlock(TheWriter), DeleteWriter,
    LeaveObject(0), LeaveObject(1), Free(1), Unlock(TheReader(0))]

  /** Its states. */
  function Stage(a: Addr, k: nat): State {
    var mem, gone := Initial(a).mem, Memory(map[], [1]);
    var idle, left := Reader(Idle, None, 0, false), Reader(Leaving, None, 0, true);
    match k
    case 0 => Initial(a)
    case 1 => State(mem, Some(Object(2, Some(a))), Grabbing, [idle], 1)
    case 2 => State(mem, Some(Object(2, Some(a))), Writing, [idle], 1)
    case 3 => State(mem, Some(Object(3, Some(a))), Grabbing, [idle, idle], 1)
    case 4 => State(mem, Some(Object(3, Some(a))), Writing, [idle, idle], 1)
    case 5 => State(gone, Some(Object(2, None)), Deleted, [idle, idle], 1)
    case 6 => State(gone, Some(Object(1, None)), Deleted, [left, idle], 1)
    case 7 => State(gone, Some(Object(0, None)), Deleted, [left, Reader(Freeing, None, 0, true)], 1)
    case _ => State(gone, None, Deleted, [left, Reader(Leaving, None, 0, false)], 1)
  }

  lemma StageStep(a: Addr, k: nat)
    requires k < 8
    ensures var s := Stage(a, k); Enabled(s, FAILING[k]) && Safe(s, FAILING[k]) && Next(s, FAILING[k]) == Stage(a, k + 1)
  {
    if k == 4 {
      assert map[a := Copy(1, 1)] - {a} == map[];
    }
  }

  lemma {:induction false} Staged(a: Addr, k: nat)
    requires k <= 8
    ensures Run(a, FAILING[..k]) == In(Stage(a, k))
  {
    if k > 0 {
      hide Enabled, Safe, Next, Stage;
      Staged(a, k - 1);
      StageStep(a, k - 1);
      assert FAILING[..k] == FAILING[..k - 1] + [FAILING[k - 1]];
      RunStep(a, FAILING[..k - 1], FAILING[k - 1], Stage(a, k - 1));
    }
  }

  lemma UnlockAfterFree(a: Addr)
    ensures Run(a, FAILING) == Crashed
  {
    Staged(a, 8);
    assert FAILING == FAILING[..8] + [FAILING[8]];
    RunStep(a, FAILING[..8], FAILING[8], Stage(a, 8));
  }

  /** Each published version is in memory or freed, not both, never freed twice, and it is in memory as
      long as the object or a reader points to it. */
  lemma FreedOnce(s: State, v: nat)
    requires Inv(s) && 1 <= v <= s.published
    ensures v in s.mem.freed <==> !InMemory(s.mem, v)
    ensures multiset(s.mem.freed)[v] <= 1
    ensures forall a :: Holders(s, a) > 0 <==> a in s.mem.heap
  {
    OccursOnce(s.mem.freed, v);
  }

  lemma {:induction false} OccursOnce(f: seq<nat>, v: nat)
    requires Distinct(f)
    ensures multiset(f)[v] <= 1
  {
    if f != [] {
      var n := |f| - 1;
      OccursOnce(f[..n], v);
      assert f == f[..n] + [f[n]];
      assert v == f[n] ==> v !in f[..n];
    }
  }

  /** What stm_copy hands a reader is the newest version there is. */
  lemma CopyIsCurrent(s: State, i: nat)
    requires Inv(s) && Enabled(s, CopyCurrent(i)) && Safe(s, CopyCurrent(i))
    ensures var t := Next(s, CopyCurrent(i));
      if s.writer == Deleted then t.readers[i].phase == Got(None)
      else t.readers[i].phase.Got? && t.readers[i].phase.copy.Some?
           && VersionAt(t.mem, t.readers[i].phase.copy.value) == s.published
  {
    ReaderCounted(s.readers, i);
  }

  /** Although freed addresses are used again, comparing addresses compares versions: "not updated" is
      answered exactly when the version copied is the one the reader already has, and a snapshot is
      always newer than what the reader has seen. */
  lemma AnswerIsRight(s: State, i: nat)
    requires Inv(s) && Enabled(s, Compare(i)) && Safe(s, Compare(i))
    ensures var (r, answer) := (s.readers[i], AnswerOf(s, i));
      && (r.phase.copy.Some? ==>
            (answer == NotUpdated <==> VersionAt(s.mem, r.phase.copy.value) == r.seen)
            && (answer.Snapshot? ==> answer.version == VersionAt(s.mem, r.phase.copy.value) > r.seen))
      && (r.phase.copy.None? ==> !answer.Snapshot? && s.writer == Deleted)
  {
    var r := s.readers[i];
    ReaderCounted(s.readers, i);
    if r.phase.copy.Some? {
      assert Holders(s, r.phase.copy.value) > 0;
      if r.last.Some? { assert Holders(s, r.last.value) > 0; }
    }
  }

  /** A reader's snapshots never go back to an older version. */
  lemma SeenGrows(s: State, act: Action, j: nat)
    requires Inv(s) && Enabled(s, act) && Safe(s, act) && j < |s.readers|
    ensures j < |Next(s, act).readers| && Next(s, act).readers[j].seen >= s.readers[j].seen
  {
  }

  lemma {:induction false} NoneActive(rs: seq<Reader>)
    requires forall r :: r in rs ==> r.phase == Done && r.last == None
    ensures ActiveReaders(rs) == FreeingReaders(rs) == 0 && forall a :: ReadersHold(rs, a) == 0
  {
    if rs != [] {
      NoneActive(rs[..|rs| - 1]);
    }
  }

  /** Once the writer and all readers are gone, the object is freed, no copy is left, and every version
      ever published has been freed. */
  lemma NothingRemains(s: State)
    requires Inv(s) && s.writer == Deleted && forall r :: r in s.readers ==> r.phase == Done
    ensures s.obj == None && s.mem.heap == map[]
    ensures forall v :: v in s.mem.freed <==> 1 <= v <= s.published
  {
    forall r | r in s.readers ensures r.last == None {
      var i :| 0 <= i < |s.readers| && s.readers[i] == r;
      assert ReaderOk(s, s.readers[i]);
    }
    NoneActive(s.readers);
    assert forall a :: Holders(s, a) == 0;
    assert forall a :: a in s.mem.heap ==> (b => Holders(s, b))(a) > 0;
    assert s.mem.heap.Keys == {};
    forall v: nat | 1 <= v <= s.published ensures v in s.mem.freed {
      assert v in s.mem.freed || InMemory(s.mem, v);
    }
  }

  // ---- whole calls, from every state a run reaches

  lemma TwoSteps(a: Addr, acts: seq<Action>, x: Action, y: Action, s: State)
    requires Run(a, acts) == In(s) && Enabled(s, x) && Safe(s, x)
    requires Enabled(Next(s, x), y) && Safe(Next(s, x), y)
    ensures Run(a, acts + [x, y]) == In(Next(Next(s, x), y))
  {
    hide Enabled, Safe, Next;
    RunStep(a, acts, x, s);
    RunStep(a, acts + [x], y, Next(s, x));
    assert acts + [x] + [y] == acts + [x, y];
  }

  lemma ThreeSteps(a: Addr, acts: seq<Action>, x: Action, y: Action, z: Action, s: State)
    requires Run(a, acts) == In(s) && Enabled(s, x) && Safe(s, x)
    requires Enabled(Next(s, x), y) && Safe(Next(s, x), y)
    requires var t := Next(Next(s, x), y); Enabled(t, z) && Safe(t, z)
    ensures Run(a, acts + [x, y]) == In(Next(Next(s, x), y))
    ensures Run(a, acts + [x, y, z]) == In(Next(Next(Next(s, x), y), z))
  {
    hide Enabled, Safe, Next;
    TwoSteps(a, acts, x, y, s);
    RunStep(a, acts + [x, y], z, Next(Next(s, x), y));
    assert acts + [x, y] + [z] == acts + [x, y, z];
  }

  /** A reader between calls sees the object. */
  lemma RestingSees(s: State, i: nat)
    requires Inv(s) && i < |s.readers| && s.readers[i].phase == Idle
    ensures s.obj.Some? && s.obj.value.ref > 0 && (s.obj.value.copy.Some? <==> s.writer != Deleted)
    ensures s.obj.value.copy.Some? ==>
      s.obj.value.copy.value in s.mem.heap && s.mem.heap[s.obj.value.copy.value].version == s.published >= 1
    ensures s.readers[i].last.Some? ==>
      s.readers[i].last.value in s.mem.heap && s.mem.heap[s.readers[i].last.value].version == s.readers[i].seen <= s.published
    ensures s.readers[i].last.None? && s.writer != Deleted ==> s.readers[i].seen == 0
  {
    ReaderCounted(s.readers, i);
    ReaderAllocated(s, i);
    assert ReaderOk(s, s.readers[i]);
    if s.obj.value.copy.Some? {
      assert Holders(s, s.obj.value.copy.value) > 0;
      HeldIsAllocated(s, s.obj.value.copy.value);
    }
  }

  /** The reader after stm_copy and its unlocking. */
  lemma Copied(s: State, i: nat)
    requires Inv(s) && i < |s.readers| && s.readers[i].phase == Idle && !s.readers[i].locked
    ensures Enabled(s, CopyCurrent(i)) && Safe(s, CopyCurrent(i))
    ensures var t := Next(s, CopyCurrent(i)); Inv(t) && Enabled(t, Unlock(TheReader(i))) && Safe(t, Unlock(TheReader(i)))
    ensures var u := Next(Next(s, CopyCurrent(i)), Unlock(TheReader(i)));
      && Inv(u) && u.writer == s.writer && u.published == s.published && u.obj == s.obj && |u.readers| == |s.readers|
      && u.readers[i] == s.readers[i].(phase := Got(s.obj.value.copy))
      && (s.obj.value.copy.Some? ==> s.obj.value.copy.value in u.mem.heap && u.mem.heap[s.obj.value.copy.value].version == s.published)
      && Enabled(u, Compare(i)) && Safe(u, Compare(i))
  {
    hide Inv;
    EnabledIsSafe(s, CopyCurrent(i));
    RestingSees(s, i);
    StepKeeps(s, CopyCurrent(i));
    var t := Next(s, CopyCurrent(i));
    EnabledIsSafe(t, Unlock(TheReader(i)));
    StepKeeps(t, Unlock(TheReader(i)));
    EnabledIsSafe(Next(t, Unlock(TheReader(i))), Compare(i));
  }

  /** A whole call of lread always goes through. It answers with the newest version if the reader has not seen
      it yet, and that nothing is new otherwise; once the writer is gone it says so, or that nothing is new. */
  lemma ReadCall(a: Addr, acts: seq<Action>, i: nat)
    requires Run(a, acts).In? && i < |Run(a, acts).state.readers|
    requires Run(a, acts).state.readers[i].phase == Idle && !Run(a, acts).state.readers[i].locked
    ensures var s, before := Run(a, acts).state, Run(a, acts + [CopyCurrent(i), Unlock(TheReader(i))]);
      && before.In? && Enabled(before.state, Compare(i)) && Safe(before.state, Compare(i))
      && (s.writer != Deleted ==>
            AnswerOf(before.state, i) == if s.published > s.readers[i].seen then Snapshot(s.published) else NotUpdated)
      && (s.writer == Deleted ==> AnswerOf(before.state, i) == if s.readers[i].last.Some? then Closed else NotUpdated)
    ensures var s, after := Run(a, acts).state, Run(a, acts + [CopyCurrent(i), Unlock(TheReader(i)), Compare(i)]);
      && after.In? && |after.state.readers| == |s.readers| && after.state.published == s.published
      && after.state.readers[i].phase == Idle && !after.state.readers[i].locked
      && after.state.readers[i].seen == if s.writer != Deleted then s.published else s.readers[i].seen
  {
    hide Inv, Run, Enabled, Safe;
    var s := Run(a, acts).state;
    EveryRun(a, acts);
    RestingSees(s, i);
    Copied(s, i);
    ThreeSteps(a, acts, CopyCurrent(i), Unlock(TheReader(i)), Compare(i), s);
    var u := Next(Next(s, CopyCurrent(i)), Unlock(TheReader(i)));
    if s.writer != Deleted {
      SameVersionSameCopy(u, s.obj.value.copy.value, s.readers[i], i);
    }
  }

  lemma SameVersionSameCopy(u: State, c: Addr, r: Reader, i: nat)
    requires Inv(u) && i < |u.readers| && u.readers[i] == r.(phase := Got(Some(c))) && c in u.mem.heap
    ensures r.last.Some? ==> r.last.value in u.mem.heap && u.mem.heap[r.last.value].version == r.seen
    ensures r.last == Some(c) ==> r.seen == u.mem.heap[c].version
    ensures r.last.Some? && r.last != Some(c) ==> r.seen != u.mem.heap[c].version
    ensures r.seen <= u.mem.heap[c].version && u.mem.heap[c].version >= 1
    ensures r.last.None? && u.writer != Deleted ==> r.seen == 0
  {
    ReaderAllocated(u, i);
    assert ReaderOk(u, u.readers[i]);
  }

  /** A whole call of stm_update goes through whenever nobody holds the read lock, and publishes a version. */
  lemma UpdateCall(a: Addr, acts: seq<Action>, at: Addr)
    requires Run(a, acts).In? && Run(a, acts).state.writer == Writing && at !in Run(a, acts).state.mem.heap
    requires forall i :: 0 <= i < |Run(a, acts).state.readers| ==> !Run(a, acts).state.readers[i].locked
    ensures var s, after := Run(a, acts).state, Run(a, acts + [Update(at), ReleaseOld]);
      && after.In? && after.state.writer == Writing && after.state.published == s.published + 1
      && after.state.readers == s.readers && after.state.obj.Some? && after.state.obj.value.copy == Some(at)
      && at in after.state.mem.heap && after.state.mem.heap[at].version == s.published + 1
  {
    hide Inv;
    var s := Run(a, acts).state;
    EveryRun(a, acts);
    EnabledIsSafe(s, Update(at));
    var t := Next(s, Update(at));
    StepKeeps(s, Update(at));
    EnabledIsSafe(t, ReleaseOld);
    OldIsOther(s, at);
    TwoSteps(a, acts, Update(at), ReleaseOld, s);
  }

  /** A whole call of stm_release goes through whenever nobody holds the read lock: the readers lose the copy and
      keep the object. */
  lemma DeleteCall(a: Addr, acts: seq<Action>)
    requires Run(a, acts).In? && Run(a, acts).state.writer == Writing
    requires forall i :: 0 <= i < |Run(a, acts).state.readers| ==> !Run(a, acts).state.readers[i].locked
    ensures var s, after := Run(a, acts).state, Run(a, acts + [DeleteWriter]);
      && after.In? && after.state.writer == Deleted && after.state.readers == s.readers && after.state.published == s.published
      && s.obj.Some? && after.state.obj == if s.obj.value.ref == 1 then None else Some(Object(s.obj.value.ref - 1, None))
  {
    hide Inv, Release;
    var s := Run(a, acts).state;
    EveryRun(a, acts);
    EnabledIsSafe(s, DeleteWriter);
    RunStep(a, acts, DeleteWriter, s);
    assert s.obj.Some? && s.obj.value.ref > 0;
  }

  /** The writer's two changes of the object exclude every holder of the read lock. */
  lemma WriterExcludes(s: State, act: Action, i: nat)
    requires Enabled(s, act) && (act.Update? || act.DeleteWriter?)
    ensures s.writer == Writing && (i < |s.readers| ==> !s.readers[i].locked)
  {
  }

  /** What a run starts from: one version, one reference to the object and one to the copy, and no readers. */
  lemma Begins(a: Addr)
    ensures Run(a, []).In?
    ensures var s := Run(a, []).state;
      && s.mem.heap == map[a := Copy(1, 1)] && s.mem.freed == [] && s.obj == Some(Object(1, Some(a)))
      && s.writer == Writing && s.readers == [] && s.published == 1
  {
  }

  lemma OldIsOther(s: State, at: Addr)
    requires Inv(s) && s.writer == Writing && at !in s.mem.heap
    ensures s.obj.Some? && s.obj.value.copy.Some? && s.obj.value.copy.value != at
  {
    assert Holders(s, s.obj.value.copy.value) > 0;
    HeldIsAllocated(s, s.obj.value.copy.value);
  }

  /** A whole call of stm_grab goes through, and makes one more reader. */
  lemma GrabCall(a: Addr, acts: seq<Action>, who: Caller)
    requires Run(a, acts).In?
    requires match who
      case TheWriter => Run(a, acts).state.writer == Writing
      case TheReader(i) => i < |Run(a, acts).state.readers| && Run(a, acts).state.readers[i].phase == Idle && !Run(a, acts).state.readers[i].locked
    ensures var s, after := Run(a, acts).state, Run(a, acts + [Grab(who), Unlock(who)]);
      && after.In? && after.state.readers == s.readers + [Reader(Idle, None, 0, false)] && after.state.writer == s.writer
      && s.obj.Some? && after.state.obj == Some(s.obj.value.(ref := s.obj.value.ref + 1)) && after.state.mem == s.mem
  {
    hide Inv;
    var s := Run(a, acts).state;
    EveryRun(a, acts);
    EnabledIsSafe(s, Grab(who));
    StepKeeps(s, Grab(who));
    Grabbed(s, who);
    TwoSteps(a, acts, Grab(who), Unlock(who), s);
  }

  lemma Grabbed(s: State, who: Caller)
    requires Enabled(s, Grab(who)) && Safe(s, Grab(who))
    ensures var t := Next(s, Grab(who));
      && Enabled(t, Unlock(who)) && Safe(t, Unlock(who))
      && var u := Next(t, Unlock(who));
      && u.readers == s.readers + [Reader(Idle, None, 0, false)] && u.writer == s.writer
      && u.obj == Some(s.obj.value.(ref := s.obj.value.ref + 1)) && u.mem == s.mem
  {
    if who.TheReader? {
      assert s.readers[who.i := s.readers[who.i].(locked := true)][who.i := s.readers[who.i]] == s.readers;
    }
  }

  /** A whole finalizer of a reader goes through: with the last reference it frees the object, else it unlocks. */
  lemma LeaveCall(a: Addr, acts: seq<Action>, i: nat)
    requires Run(a, acts).In? && i < |Run(a, acts).state.readers|
    requires Run(a, acts).state.readers[i].phase == Idle && !Run(a, acts).state.readers[i].locked
    ensures var s := Run(a, acts).state;
      && s.obj.Some? && s.obj.value.ref > 0
      && var after := Run(a, acts + [LeaveObject(i), if s.obj.value.ref == 1 then Free(i) else Unlock(TheReader(i)), LeaveCopy(i)]);
      && after.In? && |after.state.readers| == |s.readers| && after.state.readers[i].phase == Done
      && after.state.obj == if s.obj.value.ref == 1 then None else Some(s.obj.value.(ref := s.obj.value.ref - 1))
  {
    hide Inv, Run, Enabled, Safe, Next;
    var s := Run(a, acts).state;
    EveryRun(a, acts);
    RestingSees(s, i);
    Leaves(s, i);
    Left(s, i);
    ThreeSteps(a, acts, LeaveObject(i), if s.obj.value.ref == 1 then Free(i) else Unlock(TheReader(i)), LeaveCopy(i), s);
  }

  lemma Leaves(s: State, i: nat)
    requires Inv(s) && i < |s.readers| && s.readers[i].phase == Idle && !s.readers[i].locked
    ensures Enabled(s, LeaveObject(i)) && Safe(s, LeaveObject(i))
    ensures var t := Next(s, LeaveObject(i)); var second := if s.obj.value.ref == 1 then Free(i) else Unlock(TheReader(i));
      Enabled(t, second) && Safe(t, second) && Enabled(Next(t, second), LeaveCopy(i)) && Safe(Next(t, second), LeaveCopy(i))
  {
    hide Inv, Release;
    RestingSees(s, i);
    EnabledIsSafe(s, LeaveObject(i));
    StepKeeps(s, LeaveObject(i));
    var t := Next(s, LeaveObject(i));
    var second := if s.obj.value.ref == 1 then Free(i) else Unlock(TheReader(i));
    EnabledIsSafe(t, second);
    StepKeeps(t, second);
    EnabledIsSafe(Next(t, second), LeaveCopy(i));
  }

  lemma Left(s: State, i: nat)
    requires Enabled(s, LeaveObject(i)) && Safe(s, LeaveObject(i))
    requires var t := Next(s, LeaveObject(i)); var second := if s.obj.value.ref == 1 then Free(i) else Unlock(TheReader(i));
      Enabled(t, second) && Safe(t, second) && Enabled(Next(t, second), LeaveCopy(i)) && Safe(Next(t, second), LeaveCopy(i))
    ensures var t := Next(s, LeaveObject(i)); var second := if s.obj.value.ref == 1 then Free(i) else Unlock(TheReader(i));
      var u := Next(Next(t, second), LeaveCopy(i));
      && |u.readers| == |s.readers| && u.readers[i].phase == Done
      && u.obj == if s.obj.value.ref == 1 then None else Some(s.obj.value.(ref := s.obj.value.ref - 1))
  {
    hide Release;
  }

  /** A reader that is not gone can always take its next step: between calls any call it likes, inside one the
      step that comes next. */
  lemma ReaderMoves(a: Addr, acts: seq<Action>, i: nat)
    requires Run(a, acts).In? && i < |Run(a, acts).state.readers|
    ensures var s := Run(a, acts).state; var r := s.readers[i];
      && (r.phase == Idle && !r.locked ==>
            Enabled(s, CopyCurrent(i)) && Enabled(s, LeaveObject(i)) && Enabled(s, Grab(TheReader(i))))
      && (r.phase.Got? && !r.locked ==> Enabled(s, Compare(i)))
      && (r.phase == Leaving && !r.locked ==> Enabled(s, LeaveCopy(i)))
      && (r.phase == Freeing ==> Enabled(s, Free(i)))
      && (r.locked && r.phase != Freeing ==> Enabled(s, Unlock(TheReader(i))))
      && (r.phase == Done ==> !r.locked) && (r.phase == Freeing ==> r.locked)
  {
    hide Counted, Versions;
    EveryRun(a, acts);
    assert ReaderOk(Run(a, acts).state, Run(a, acts).state.readers[i]);
  }

  /** As long as somebody is left, and no reader is stranded, somebody can take a step that is safe; the writer only
      ever waits for readers to unlock. */
  lemma SomebodyMoves(a: Addr, acts: seq<Action>) returns (act: Action)
    requires Run(a, acts).In? && !Stranded(Run(a, acts).state)
    requires Run(a, acts).state.writer != Deleted || exists r :: r in Run(a, acts).state.readers && r.phase != Done
    ensures Enabled(Run(a, acts).state, act) && Safe(Run(a, acts).state, act)
    ensures Run(a, acts + [act]).In?
  {
    hide Inv, Run;
    var s := Run(a, acts).state;
    EveryRun(a, acts);
    if i :| 0 <= i < |s.readers| && s.readers[i].locked {
      ReaderMoves(a, acts, i);
      act := ReaderStep(a, acts, i);
    } else if s.writer == Grabbing {
      act := Unlock(TheWriter);
    } else if s.writer.Releasing? {
      act := ReleaseOld;
    } else if s.writer == Writing {
      act := DeleteWriter;
    } else {
      var r :| r in s.readers && r.phase != Done;
      var i :| 0 <= i < |s.readers| && s.readers[i] == r;
      act := ReaderStep(a, acts, i);
    }
    hide Enabled, Safe;
    SafeUnlessStranded(s, act);
    RunStep(a, acts, act, s);
  }

  lemma ReaderStep(a: Addr, acts: seq<Action>, i: nat) returns (act: Action)
    requires Run(a, acts).In? && i < |Run(a, acts).state.readers| && Run(a, acts).state.readers[i].phase != Done
    ensures Enabled(Run(a, acts).state, act)
  {
    hide Run, Enabled;
    ReaderMoves(a, acts, i);
    var r := Run(a, acts).state.readers[i];
    act := if r.phase == Freeing then Free(i) else if r.locked then Unlock(TheReader(i)) else if r.phase == Idle then LeaveObject(i)
      else if r.phase.Got? then Compare(i) else LeaveCopy(i);
  }

  lemma SafeUnlessStranded(s: State, act: Action)
    requires Inv(s) && Enabled(s, act) && !Stranded(s)
    ensures Safe(s, act)
  {
    hide Inv, Safe;
    EnabledIsSafe(s, act);
  }
}
