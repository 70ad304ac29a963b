/** Whole runs of the frame reassembly: data, close and pop messages in any order, over any number of
    connections. A step changes the abstract state as the contracts of NetPack.Filter,
    NetPack.CloseUncomplete and NetPack.Pop say, and Play runs the object itself. */
module Reassembly {
  import opened Common
  import opened Framing
  import opened NetPack

  datatype Op = Feed(id: int, chunk: bytes) | Close(id: int) | Pop

  /** The queue object's state, with a log of every packet completed (handed to Lua directly or
      queued), of every packet queued, of every packet handed over directly, and of every packet popped. */
  datatype State = State(leftover: Leftovers, queued: seq<Packet>, completed: seq<Packet>,
                         enqueued: seq<Packet>, direct: seq<Packet>, popped: seq<Packet>)

  const START := State(map[], [], [], [], [], [])

  /** The packets an event hands over directly. */
  function Direct(e: Event): seq<Packet> { if e.Data? then [Packet(e.id, e.data)] else [] }

  ghost function Next(s: State, op: Op): State {
    match op
    case Feed(fd, chunk) =>
      var stream := Get(s.leftover, fd) + chunk;
      var arrived := Enqueued(fd, stream);
      s.(leftover := Put(s.leftover, fd, Rest(stream)), queued := s.queued + arrived, enqueued := s.enqueued + arrived,
         direct := s.direct + Direct(Outcome(fd, stream)), completed := s.completed + Direct(Outcome(fd, stream)) + arrived)
    case Close(fd) => s.(leftover := s.leftover - {fd})
    case Pop => if s.queued == [] then s else s.(queued := s.queued[1..], popped := s.popped + [s.queued[0]])
  }

  ghost function Run(ops: seq<Op>): State {
    if ops == [] then START else Next(Run(ops[..|ops| - 1]), ops[|ops| - 1])
  }

  /** The bytes of connection `fd` since it was last closed. */
  function Stream(ops: seq<Op>, fd: int): bytes {
    if ops == [] then [] else
      var (before, op) := (ops[..|ops| - 1], ops[|ops| - 1]);
      if op == Close(fd) then []
      else if op.Feed? && op.id == fd then Stream(before, fd) + op.chunk
      else Stream(before, fd)
  }

  /** The whole frames of connection `fd` in the streams that were closed. */
  function FramesOfEarlierLives(ops: seq<Op>, fd: int): seq<bytes> {
    if ops == [] then [] else
      var (before, op) := (ops[..|ops| - 1], ops[|ops| - 1]);
      if op == Close(fd) then FramesOfEarlierLives(before, fd) + Frames(Stream(before, fd))
      else FramesOfEarlierLives(before, fd)
  }

  /** The data of the packets of connection `fd`, in order. */
  function DataOf(ps: seq<Packet>, fd: int): seq<bytes> {
    if ps == [] then [] else
      (if ps[0].id == fd then [ps[0].data] else []) + DataOf(ps[1..], fd)
  }

  lemma {:induction false} DataOfConcat(a: seq<Packet>, b: seq<Packet>, fd: int)
    ensures DataOf(a + b, fd) == DataOf(a, fd) + DataOf(b, fd)
  {
    if a == [] {
      assert a + b == b;
    } else {
      assert (a + b)[1..] == a[1..] + b;
      DataOfConcat(a[1..], b, fd);
    }
  }

  lemma {:induction false} DataOfTagged(id: int, frames: seq<bytes>, fd: int)
    ensures DataOf(Tagged(id, frames), fd) == if id == fd then frames else []
  {
    if frames != [] {
      assert frames == [frames[0]] + frames[1..];
      TaggedCons(id, frames[0], frames[1..]);
      assert Tagged(id, frames)[1..] == Tagged(id, frames[1..]);
      DataOfTagged(id, frames[1..], fd);
    }
  }

  /** Directly or through the queue, a step completes exactly the whole frames of the stream. */
  lemma StepCompletes(fd: int, s: bytes)
    ensures Direct(Outcome(fd, s)) + Enqueued(fd, s) == Tagged(fd, Frames(s))
  {
    if Outcome(fd, s).Data? {
      assert Frames(s) == [Frames(s)[0]];
      TaggedCons(fd, Frames(s)[0], []);
    }
  }

  /** What one step does for connection `fd`. */
  lemma StepFor(s: State, op: Op, fd: int)
    ensures DataOf(Next(s, op).completed, fd)
         == DataOf(s.completed, fd) + if op.Feed? && op.id == fd then Frames(Get(s.leftover, fd) + op.chunk) else []
    ensures Get(Next(s, op).leftover, fd)
         == if op == Close(fd) then []
            else if op.Feed? && op.id == fd then Rest(Get(s.leftover, fd) + op.chunk)
            else Get(s.leftover, fd)
  {
    hide Outcome, Enqueued, Frames, Rest;
    if op.Feed? {
      var stream := Get(s.leftover, op.id) + op.chunk;
      StepCompletes(op.id, stream);
      assert Next(s, op).completed == s.completed + Tagged(op.id, Frames(stream));
      DataOfConcat(s.completed, Tagged(op.id, Frames(stream)), fd);
      DataOfTagged(op.id, Frames(stream), fd);
    }
  }

  /** For every interleaving, each connection completes exactly the frames of its own bytes, in order,
      and what is saved for it is exactly the unread remainder. */
  lemma {:induction false} Reassembled(ops: seq<Op>, fd: int)
    ensures DataOf(Run(ops).completed, fd) == FramesOfEarlierLives(ops, fd) + Frames(Stream(ops, fd))
    ensures Get(Run(ops).leftover, fd) == Rest(Stream(ops, fd))
  {
    hide Next, DataOf, Get, Frames, Rest;
    EmptyStart(fd);
    if ops != [] {
      var before, op := ops[..|ops| - 1], ops[|ops| - 1];
      Reassembled(before, fd);
      StepFor(Run(before), op, fd);
      if op.Feed? && op.id == fd {
        FramesOfConcat(Stream(before, fd), op.chunk);
      }
    }
  }

  lemma EmptyStart(fd: int)
    ensures DataOf(START.completed, fd) == [] && Get(START.leftover, fd) == []
    ensures Frames([]) == [] && Rest([]) == []
  {
  }

  /** The ring is a FIFO over whole runs: nothing is lost, duplicated or reordered. */
  lemma {:induction false} QueueIsFifo(ops: seq<Op>)
    ensures Run(ops).popped + Run(ops).queued == Run(ops).enqueued
  {
    if ops != [] {
      var before, op := ops[..|ops| - 1], ops[|ops| - 1];
      QueueIsFifo(before);
      var s := Run(before);
      if op.Pop? && s.queued != [] {
        assert s.queued == [s.queued[0]] + s.queued[1..];
      }
    }
  }

  /** Messages packed with lpack and cut into chunks anywhere arrive whole and in order. */
  lemma PackedMessagesArrive(ops: seq<Op>, fd: int, msgs: seq<bytes>)
    requires forall m :: m in msgs ==> |m| < 0x1_0000
    requires Stream(ops, fd) == PackAll(msgs)
    ensures DataOf(Run(ops).completed, fd) == FramesOfEarlierLives(ops, fd) + msgs
    ensures Get(Run(ops).leftover, fd) == []
  {
    Reassembled(ops, fd);
    FramesOfPacked(msgs);
  }

  // ---- runs of the queue object

  /** The object is in this state. */
  ghost predicate Is(q: NetPack, s: State)
    reads q, q.queue, q.hash
  {
    q.Valid() && q.queued == s.queued && q.leftover == s.leftover
  }

  /** One message of the socket thread, or one pop; returned is what reaches Lua directly or by the pop. */
  method Do(q: NetPack, op: Op, ghost s: State) returns (direct: seq<Packet>, popped: seq<Packet>)
    requires Is(q, s) && (op.Feed? ==> op.chunk != [])
    modifies q, q.queue, q.hash
    ensures Is(q, Next(s, op)) && q.hash == old(q.hash) && (q.queue == old(q.queue) || fresh(q.queue))
    ensures Next(s, op).direct == s.direct + direct && Next(s, op).popped == s.popped + popped
  {
    hide Outcome, Enqueued, Frames, Rest, Get, Put;
    direct, popped := [], [];
    match op {
      case Feed(fd, chunk) =>
        var e := q.Filter(fd, chunk);
        direct := Direct(e);
      case Close(fd) =>
        q.CloseUncomplete(fd);
      case Pop =>
        var p := q.Pop();
        if p.Some? {
          popped := [p.value];
        }
    }
  }

  /** Any run of the queue object is the run that the laws above speak of: in what it keeps and queues, and
      in what reaches Lua directly and by pops. */
  method Play(q: NetPack, ops: seq<Op>) returns (direct: seq<Packet>, popped: seq<Packet>)
    requires Is(q, START) && forall k :: 0 <= k < |ops| && ops[k].Feed? ==> ops[k].chunk != []
    modifies q, q.queue, q.hash
    ensures Is(q, Run(ops)) && direct == Run(ops).direct && popped == Run(ops).popped
  {
    hide Next, Is;
    direct, popped := [], [];
    for i := 0 to |ops|
      invariant Is(q, Run(ops[..i])) && q.hash == old(q.hash) && (q.queue == old(q.queue) || fresh(q.queue))
      invariant direct == Run(ops[..i]).direct && popped == Run(ops[..i]).popped
    {
      assert ops[..i + 1][..i] == ops[..i];
      var d, p := Do(q, ops[i], Run(ops[..i]));
      direct, popped := direct + d, popped + p;
    }
    assert ops[..|ops|] == ops;
  }
}
