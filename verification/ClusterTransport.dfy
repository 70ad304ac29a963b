/** End to end: cluster requests and responses, sent as the frames of lua-cluster.c, cut anywhere by
    the network and put together again by lua-netpack.c, are read back exactly. */
module ClusterTransport {
  import opened Common
  import opened Framing
  import opened NetPack
  import opened Reassembly
  import opened Cluster

  // ---- requests

  datatype Req = Req(addr: Address, session: uint32, msg: bytes) {
    ghost predicate Valid() {
      (addr.Name? ==> |addr.name| <= 255) && |msg| < TWO_32
    }

    function First(): bytes
      requires Valid()
    {
      RequestBody(addr, session, msg)
    }

    /** All bodies, in sending order. */
    function Bodies(): seq<bytes>
      requires Valid()
    {
      [First()] + if |msg| < MULTI_PART then [] else PartBodies(session, Chunks(msg))
    }

    /** What the receiver unpacks. */
    function ReadBack(): seq<Request>
      requires |msg| < TWO_32
    {
      if |msg| < MULTI_PART then [Whole(addr, session, msg)]
      else [Announced(addr, session, |msg|)] + Parts(session, Chunks(msg))
    }
  }

  function Parts(session: uint32, chunks: seq<bytes>): (rs: seq<Request>)
    ensures |rs| == |chunks|
    ensures forall i :: 0 <= i < |rs| ==> rs[i] == Part(session, chunks[i], i != |rs| - 1)
  {
    if chunks == [] then [] else [Part(session, chunks[0], |chunks| != 1)] + Parts(session, chunks[1..])
  }

  function UnpackAll(bodies: seq<bytes>): (rs: seq<Result<Request>>)
    ensures |rs| == |bodies| && forall i :: 0 <= i < |rs| ==> rs[i] == UnpackRequest(bodies[i])
  {
    seq(|bodies|, i requires 0 <= i < |bodies| => UnpackRequest(bodies[i]))
  }

  function Oks(rs: seq<Request>): (s: seq<Result<Request>>)
    ensures |s| == |rs| && forall i :: 0 <= i < |s| ==> s[i] == Ok(rs[i])
  {
    seq(|rs|, i requires 0 <= i < |rs| => Ok(rs[i]))
  }

  /** Frames written one after the other are the packed bodies. */
  lemma {:induction false} JoinOfFrames(frames: seq<bytes>, bodies: seq<bytes>)
    requires |frames| == |bodies|
    requires forall i :: 0 <= i < |frames| ==> |bodies[i]| < 0x1_0000 && frames[i] == Frame(bodies[i])
    ensures Join(frames) == PackAll(bodies)
  {
    if frames != [] {
      JoinOfFrames(frames[1..], bodies[1..]);
    }
  }

  lemma {:induction false} PackAllConcat(a: seq<bytes>, b: seq<bytes>)
    requires forall m :: m in a || m in b ==> |m| < 0x1_0000
    ensures PackAll(a + b) == PackAll(a) + PackAll(b)
  {
    if a == [] {
      assert a + b == b;
    } else {
      assert (a + b)[1..] == a[1..] + b;
      PackAllConcat(a[1..], b);
    }
  }

  lemma PartsReadBack(session: uint32, cs: seq<bytes>)
    requires forall c :: c in cs ==> |c| <= MULTI_PART
    ensures forall b :: b in PartBodies(session, cs) ==> |b| < 0x1_0000
    ensures UnpackAll(PartBodies(session, cs)) == Oks(Parts(session, cs))
  {
    hide UnpackRequest, PartBody, PartBodies, Parts, UnpackAll, Oks;
    forall i | 0 <= i < |cs|
      ensures |PartBodies(session, cs)[i]| < 0x1_0000
      ensures UnpackRequest(PartBodies(session, cs)[i]) == Ok(Parts(session, cs)[i])
    {
      PartReadBack(session, cs[i], i == |cs| - 1);
    }
  }

  /** Every body of a request fits a 16-bit header and is unpacked as intended. */
  lemma BodiesReadBack(q: Req)
    requires q.Valid()
    ensures forall b :: b in q.Bodies() ==> |b| < 0x1_0000
    ensures UnpackAll(q.Bodies()) == Oks(q.ReadBack())
  {
    hide RequestBody, UnpackRequest, PartBodies, Parts, Chunks, UnpackAll, Oks;
    RequestReadBack(q.addr, q.session, q.msg);
    PartsReadBack(q.session, Chunks(q.msg));
  }

  /** The strings of lpackrequest are the frames of the bodies. */
  lemma RequestWire(p: Packed, q: Req)
    requires q.Valid() && PackedAs(p, q.addr, q.session, q.msg)
    ensures forall b :: b in q.Bodies() ==> |b| < 0x1_0000
    ensures p.request + Join(p.parts) == PackAll(q.Bodies())
  {
    hide RequestBody, UnpackRequest, PartBodies, PartBody, Chunks, Frame, PackAll, Join, UnpackAll, Oks;
    BodiesReadBack(q);
    var frames, bodies := [p.request] + p.parts, q.Bodies();
    forall i | 0 <= i < |frames| ensures frames[i] == Frame(bodies[i]) {
      if i > 0 {
        assert frames[i] == p.parts[i - 1] && bodies[i] == PartBodies(q.session, Chunks(q.msg))[i - 1];
      }
    }
    JoinOfFrames(frames, bodies);
    JoinCons(p.request, p.parts);
  }

  /** From what was unpacked the receiver has the address, the session and the message: at once, or as
      parts that add up to the announced size, of which only the last is not marked as followed by
      more. */
  lemma RequestRecovered(q: Req)
    requires q.Valid()
    ensures |q.msg| < MULTI_PART ==> q.ReadBack() == [Whole(q.addr, q.session, q.msg)]
    ensures |q.msg| >= MULTI_PART ==> var rs := q.ReadBack();
      && rs[0] == Announced(q.addr, q.session, |q.msg|)
      && |rs| == (|q.msg| - 1) / 0x8000 + 2
      && (forall i :: 1 <= i < |rs| ==> rs[i].Part? && rs[i].session == q.session && rs[i].padding == (i < |rs| - 1))
      && Join(Messages(rs[1..])) == q.msg
  {
    if |q.msg| >= MULTI_PART {
      var cs := Chunks(q.msg);
      ChunksJoin(q.msg);
      assert q.ReadBack()[1..] == Parts(q.session, cs);
      assert Messages(Parts(q.session, cs)) == cs;
    }
  }

  function Messages(rs: seq<Request>): (ms: seq<bytes>)
    requires forall r :: r in rs ==> r.Part?
    ensures |ms| == |rs|
  {
    seq(|rs|, i requires 0 <= i < |rs| => rs[i].msg)
  }

  ghost predicate AllPacked(ps: seq<Packed>, qs: seq<Req>) {
    |ps| == |qs| && forall i :: 0 <= i < |ps| ==> qs[i].Valid() && PackedAs(ps[i], qs[i].addr, qs[i].session, qs[i].msg)
  }

  /** What is written to the connection, and what should be read from it. */
  function Sent(ps: seq<Packed>): bytes {
    if ps == [] then [] else ps[0].request + Join(ps[0].parts) + Sent(ps[1..])
  }

  function Expected(qs: seq<Req>): seq<Request>
    requires forall q :: q in qs ==> |q.msg| < TWO_32
  {
    if qs == [] then [] else qs[0].ReadBack() + Expected(qs[1..])
  }

  function AllBodies(qs: seq<Req>): seq<bytes>
    requires forall q :: q in qs ==> q.Valid()
  {
    if qs == [] then [] else qs[0].Bodies() + AllBodies(qs[1..])
  }

  lemma {:induction false} SentIsPacked(ps: seq<Packed>, qs: seq<Req>)
    requires AllPacked(ps, qs)
    ensures forall b :: b in AllBodies(qs) ==> |b| < 0x1_0000
    ensures Sent(ps) == PackAll(AllBodies(qs))
    ensures UnpackAll(AllBodies(qs)) == Oks(Expected(qs))
  {
    hide PackedAs, UnpackRequest, UnpackAll, Oks, Chunks, RequestBody, PackAll, Join, PartBodies, Parts;
    if ps == [] {
      NothingPacked();
    } else {
      RequestWire(ps[0], qs[0]);
      BodiesReadBack(qs[0]);
      SentIsPacked(ps[1..], qs[1..]);
      PackAllConcat(qs[0].Bodies(), AllBodies(qs[1..]));
      ReadConcat(qs[0].Bodies(), AllBodies(qs[1..]), qs[0].ReadBack(), Expected(qs[1..]));
    }
  }

  lemma ReadConcat(a: seq<bytes>, b: seq<bytes>, x: seq<Request>, y: seq<Request>)
    requires UnpackAll(a) == Oks(x) && UnpackAll(b) == Oks(y)
    ensures UnpackAll(a + b) == Oks(x + y)
  {
    hide UnpackRequest;
    assert UnpackAll(a + b) == UnpackAll(a) + UnpackAll(b);
    assert Oks(x + y) == Oks(x) + Oks(y);
  }

  /** For every way the network cuts and interleaves the connections: the requests packed and written
      to a connection are unpacked, in order, exactly as they were meant. */
  lemma RequestsArrive(ops: seq<Op>, fd: int, ps: seq<Packed>, qs: seq<Req>)
    requires AllPacked(ps, qs) && Stream(ops, fd) == Sent(ps)
    ensures UnpackAll(DataOf(Run(ops).completed, fd)) == UnpackAll(FramesOfEarlierLives(ops, fd)) + Oks(Expected(qs))
    ensures Get(Run(ops).leftover, fd) == []
  {
    hide Run, Stream, DataOf, FramesOfEarlierLives, UnpackAll, Oks, Expected, AllBodies, Sent, PackAll, PackedAs;
    SentIsPacked(ps, qs);
    PackedMessagesArrive(ops, fd, AllBodies(qs));
  }

  // ---- responses

  datatype Resp = Resp(session: uint32, ok: bool, msg: bytes) {
    /** The bodies of the strings of lpackresponse. */
    function Bodies(): seq<bytes>
      requires |msg| < TWO_32
    {
      if !ok then [ResponseBody(session, 0, Truncated(msg))]
      else if |msg| <= MULTI_PART then [ResponseBody(session, 1, msg)]
      else [ResponseBody(session, 2, FillUint32(|msg|))] + ResponseParts(session, Chunks(msg))
    }

    function ReadBack(): seq<Response>
      requires |msg| < TWO_32
    {
      if !ok then [Failed(session, Truncated(msg))]
      else if |msg| <= MULTI_PART then [Last(session, msg)]
      else [Begin(session, |msg|)] + ResponsePartsRead(session, Chunks(msg))
    }
  }

  function ResponseParts(session: uint32, cs: seq<bytes>): (bs: seq<bytes>)
    ensures |bs| == |cs|
    ensures forall i :: 0 <= i < |cs| ==> bs[i] == ResponseBody(session, if i == |cs| - 1 then 4 else 3, cs[i])
  {
    seq(|cs|, i requires 0 <= i < |cs| => ResponseBody(session, if i == |cs| - 1 then 4 else 3, cs[i]))
  }

  function ResponsePartsRead(session: uint32, cs: seq<bytes>): (rs: seq<Response>)
    ensures |rs| == |cs|
    ensures forall i :: 0 <= i < |cs| ==> rs[i] == if i == |cs| - 1 then Last(session, cs[i]) else Response.More(session, cs[i])
  {
    seq(|cs|, i requires 0 <= i < |cs| => if i == |cs| - 1 then Last(session, cs[i]) else Response.More(session, cs[i]))
  }

  /** Every response body fits a 16-bit header and is unpacked as intended. */
  lemma ResponseBodiesReadBack(r: Resp)
    requires |r.msg| < TWO_32
    ensures |r.Bodies()| == |r.ReadBack()|
    ensures forall i :: 0 <= i < |r.Bodies()| ==>
      |r.Bodies()[i]| < 0x1_0000 && UnpackResponse(r.Bodies()[i]) == Some(r.ReadBack()[i])
  {
    hide ResponseBody, UnpackResponse, Chunks, FillUint32, ResponseParts, ResponsePartsRead;
    if !r.ok {
      ResponseReadBack(r.session, 0, Truncated(r.msg));
    } else if |r.msg| <= MULTI_PART {
      ResponseReadBack(r.session, 1, r.msg);
    } else {
      ResponseReadBack(r.session, 2, FillUint32(|r.msg|));
      var cs := Chunks(r.msg);
      forall i | 0 <= i < |cs|
        ensures |ResponseParts(r.session, cs)[i]| < 0x1_0000
        ensures UnpackResponse(ResponseParts(r.session, cs)[i]) == Some(ResponsePartsRead(r.session, cs)[i])
      {
        ResponseReadBack(r.session, if i == |cs| - 1 then 4 else 3, cs[i]);
      }
    }
  }

  /** The payload the receiver ends up with: the single message, or the parts joined. */
  function Payload(rs: seq<Response>): bytes {
    if rs == [] then []
    else (match rs[0] case Failed(_, m) => m case Last(_, m) => m case More(_, m) => m case Begin(_, _) => [])
         + Payload(rs[1..])
  }

  lemma {:induction false} PayloadOfParts(session: uint32, cs: seq<bytes>)
    ensures Payload(ResponsePartsRead(session, cs)) == Join(cs)
  {
    if cs != [] {
      assert ResponsePartsRead(session, cs)[1..] == ResponsePartsRead(session, cs[1..]);
      PayloadOfParts(session, cs[1..]);
    }
  }

  /** A response is recovered exactly, unless it is an error message of more than 32K, of which the
      first 32K arrive. */
  lemma ResponseRecovered(r: Resp)
    requires |r.msg| < TWO_32
    ensures Payload(r.ReadBack()) == if r.ok then r.msg else Truncated(r.msg)
    ensures Payload(r.ReadBack()) == r.msg <==> r.ok || |r.msg| <= MULTI_PART
    ensures r.ReadBack()[0].Failed? <==> !r.ok
    ensures forall i :: 0 <= i < |r.ReadBack()| ==> r.ReadBack()[i].session == r.session
    ensures r.ReadBack()[0].Begin? ==> r.ReadBack()[0].size == |Payload(r.ReadBack())|
  {
    var rs, cs := r.ReadBack(), Chunks(r.msg);
    if r.ok && |r.msg| > MULTI_PART {
      ChunksJoin(r.msg);
      PayloadOfParts(r.session, cs);
      assert rs[1..] == ResponsePartsRead(r.session, cs);
      assert Payload(rs) == Payload(rs[1..]);
    } else {
      assert rs[1..] == [];
      assert Payload(rs) == if r.ok then r.msg else Truncated(r.msg);
    }
  }

  lemma ResponseWire(strs: seq<bytes>, r: Resp)
    requires |r.msg| < TWO_32 && ResponsePackedAs(strs, r.session, r.ok, r.msg)
    ensures forall b :: b in r.Bodies() ==> |b| < 0x1_0000
    ensures Join(strs) == PackAll(r.Bodies())
  {
    hide ResponseBody, UnpackResponse, Chunks, FillUint32, ResponseParts, Frame, Join, PackAll;
    ResponseBodiesReadBack(r);
    var bodies, cs := r.Bodies(), Chunks(r.msg);
    assert |strs| == |bodies|;
    forall i | 0 <= i < |strs| ensures strs[i] == Frame(bodies[i]) {
      if i > 0 {
        assert bodies[i] == ResponseParts(r.session, cs)[i - 1];
        assert strs[i - 1 + 1] == ResponseFrame(r.session, if i - 1 == |cs| - 1 then 4 else 3, cs[i - 1]);
      }
    }
    JoinOfFrames(strs, r.Bodies());
  }

  function UnpackResponses(bodies: seq<bytes>): (rs: seq<Option<Response>>)
    ensures |rs| == |bodies| && forall i :: 0 <= i < |rs| ==> rs[i] == UnpackResponse(bodies[i])
  {
    seq(|bodies|, i requires 0 <= i < |bodies| => UnpackResponse(bodies[i]))
  }

  function Somes(rs: seq<Response>): (s: seq<Option<Response>>)
    ensures |s| == |rs| && forall i :: 0 <= i < |s| ==> s[i] == Some(rs[i])
  {
    seq(|rs|, i requires 0 <= i < |rs| => Some(rs[i]))
  }

  ghost predicate AllAnswered(ss: seq<seq<bytes>>, rs: seq<Resp>) {
    |ss| == |rs| && forall i :: 0 <= i < |ss| ==> |rs[i].msg| < TWO_32 && ResponsePackedAs(ss[i], rs[i].session, rs[i].ok, rs[i].msg)
  }

  /** What is written to the connection for the responses, and what should be read from it. */
  function Answered(ss: seq<seq<bytes>>): bytes {
    if ss == [] then [] else Join(ss[0]) + Answered(ss[1..])
  }

  function AnswerBodies(rs: seq<Resp>): seq<bytes>
    requires forall r :: r in rs ==> |r.msg| < TWO_32
  {
    if rs == [] then [] else rs[0].Bodies() + AnswerBodies(rs[1..])
  }

  function ExpectedAnswers(rs: seq<Resp>): seq<Response>
    requires forall r :: r in rs ==> |r.msg| < TWO_32
  {
    if rs == [] then [] else rs[0].ReadBack() + ExpectedAnswers(rs[1..])
  }

  lemma {:induction false} AnsweredIsPacked(ss: seq<seq<bytes>>, rs: seq<Resp>)
    requires AllAnswered(ss, rs)
    ensures forall b :: b in AnswerBodies(rs) ==> |b| < 0x1_0000
    ensures Answered(ss) == PackAll(AnswerBodies(rs))
    ensures UnpackResponses(AnswerBodies(rs)) == Somes(ExpectedAnswers(rs))
  {
    hide ResponsePackedAs, UnpackResponse, UnpackResponses, Somes, Chunks, PackAll, Join, ResponseParts, ResponsePartsRead, ResponseBody;
    if ss == [] {
      NothingPacked();
    } else {
      var bodies, rest := rs[0].Bodies(), AnswerBodies(rs[1..]);
      ResponseWire(ss[0], rs[0]);
      ResponseRead(rs[0]);
      AnsweredIsPacked(ss[1..], rs[1..]);
      PackAllConcat(bodies, rest);
      UnpackedConcat(bodies, rest, rs[0].ReadBack(), ExpectedAnswers(rs[1..]));
    }
  }

  lemma ResponseRead(r: Resp)
    requires |r.msg| < TWO_32
    ensures UnpackResponses(r.Bodies()) == Somes(r.ReadBack())
  {
    ResponseBodiesReadBack(r);
  }

  lemma UnpackedConcat(a: seq<bytes>, b: seq<bytes>, x: seq<Response>, y: seq<Response>)
    requires UnpackResponses(a) == Somes(x) && UnpackResponses(b) == Somes(y)
    ensures UnpackResponses(a + b) == Somes(x + y)
  {
    hide UnpackResponse;
    assert UnpackResponses(a + b) == UnpackResponses(a) + UnpackResponses(b);
    assert Somes(x + y) == Somes(x) + Somes(y);
  }

  lemma NothingPacked()
    ensures PackAll([]) == []
  {
  }

  /** For every way the network cuts and interleaves the connections: the responses packed and written
      to a connection are unpacked, in order, exactly as they were meant. */
  lemma ResponsesArrive(ops: seq<Op>, fd: int, ss: seq<seq<bytes>>, rs: seq<Resp>)
    requires AllAnswered(ss, rs) && Stream(ops, fd) == Answered(ss)
    ensures UnpackResponses(DataOf(Run(ops).completed, fd))
         == UnpackResponses(FramesOfEarlierLives(ops, fd)) + Somes(ExpectedAnswers(rs))
    ensures Get(Run(ops).leftover, fd) == []
  {
    hide Run, Stream, DataOf, FramesOfEarlierLives, UnpackResponses, Somes, ExpectedAnswers, AnswerBodies, Answered, PackAll,
      ResponsePackedAs;
    AnsweredIsPacked(ss, rs);
    PackedMessagesArrive(ops, fd, AnswerBodies(rs));
  }
}
