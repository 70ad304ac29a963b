/** The messages between cluster nodes (lua-cluster.c). Every packed string is a frame of the wire
    format of Framing; a body is what follows its 16-bit header, which is what the unpackers get. */
module Cluster {
  import opened Common
  import opened Framing

  const MULTI_PART := 0x8000

  type uint32 = n: nat | n < 0x1_0000_0000

  datatype Address = Number(id: uint32) | Name(name: bytes)

  /** What lunpackrequest returns. */
  datatype Request =
    | Whole(addr: Address, session: uint32, msg: bytes)
    | Announced(addr: Address, session: uint32, size: uint32)
    | Part(session: uint32, msg: bytes, padding: bool)

  /** What lunpackresponse returns. */
  datatype Response =
    | Failed(session: uint32, msg: bytes)
    | Last(session: uint32, msg: bytes)
    | Begin(session: uint32, size: uint32)
    | More(session: uint32, msg: bytes)

  function FillUint32(n: uint32): (b: bytes)
    ensures |b| == 4
  {
    Le(n, 4)
  }

  // ---- bodies

  /** The kind byte and the address: 0 and 1 are for numbers, 0x80 and 0x81 for names. */
  function AddressBytes(addr: Address, multi: bool): (b: bytes)
    requires addr.Name? ==> |addr.name| <= 255
    ensures addr.Number? ==> |b| == 5 && b[0] == (if multi then 1 else 0) && b[1..] == Le(addr.id, 4)
    ensures addr.Name? ==> |b| == |addr.name| + 2 && b[0] == (if multi then 0x81 else 0x80) && b[1] == |addr.name| && b[2..] == addr.name
  {
    match addr
    case Number(id) => [if multi then 1 else 0] + FillUint32(id)
    case Name(name) => [if multi then 0x81 else 0x80, |name|] + name
  }

  /** The body of packreq_number and packreq_string: the message itself, or its size when it follows in
      parts. */
  function RequestBody(addr: Address, session: uint32, msg: bytes): bytes
    requires addr.Name? ==> |addr.name| <= 255
    requires |msg| < TWO_32
  {
    if |msg| < MULTI_PART then AddressBytes(addr, false) + FillUint32(session) + msg
    else AddressBytes(addr, true) + FillUint32(session) + FillUint32(|msg|)
  }

  /** 2 is the kind of a part that others follow, 3 that of the last one. */
  function PartBody(session: uint32, chunk: bytes, last: bool): (b: bytes)
    ensures |b| == |chunk| + 5 && b[0] == (if last then 3 else 2) && b[1..5] == Le(session, 4) && b[5..] == chunk
  {
    [if last then 3 else 2] + FillUint32(session) + chunk
  }

  /** The 32K parts of a long message. */
  function Chunks(msg: bytes): (cs: seq<bytes>)
    ensures forall c :: c in cs ==> |c| <= MULTI_PART
  {
    if |msg| <= MULTI_PART then [msg] else [msg[..MULTI_PART]] + Chunks(msg[MULTI_PART..])
  }

  /** The bodies of the parts, the last one marked. */
  function PartBodies(session: uint32, chunks: seq<bytes>): (bs: seq<bytes>)
    ensures |bs| == |chunks|
    ensures forall i :: 0 <= i < |bs| ==> bs[i] == PartBody(session, chunks[i], i == |bs| - 1)
  {
    if chunks == [] then [] else [PartBody(session, chunks[0], |chunks| == 1)] + PartBodies(session, chunks[1..])
  }

  /** A frame: the size in two bytes, the high one first. */
  function Frame(body: bytes): (f: bytes)
    requires |body| < 0x1_0000   // the source's assert(sz < 0x10000)
    ensures |f| == |body| + 2 && f[0] == |body| / 256 && f[1] == |body| % 256 && f[2..] == body
  {
    WriteSize(|body|) + body
  }

  lemma {:induction false} ChunksJoin(msg: bytes)
    ensures Join(Chunks(msg)) == msg
    ensures |msg| > 0 ==> |Chunks(msg)| == (|msg| - 1) / 0x8000 + 1
    ensures forall i :: 0 <= i < |Chunks(msg)| - 1 ==> |Chunks(msg)[i]| == 0x8000
  {
    if |msg| > MULTI_PART {
      ChunksJoin(msg[MULTI_PART..]);
      assert msg == msg[..MULTI_PART] + msg[MULTI_PART..];
    } else {
      assert Join([msg]) == msg + Join([]);
    }
  }

  // ---- packing

  /** A fixed buffer on the stack, its contents arbitrary. */
  const TEMP_LENGTH := 0x8200

  method NewBuffer() returns (buf: array<byte>)
    ensures fresh(buf) && buf.Length == TEMP_LENGTH
  {
    buf := new byte[TEMP_LENGTH];
  }

  /** fill_header; the asserted bound is a precondition. */
  method FillHeader(buf: array<byte>, sz: nat)
    requires sz < 0x1_0000 && buf.Length == TEMP_LENGTH
    modifies buf
    ensures buf[..2] == WriteSize(sz) && buf[2..] == old(buf[2..])
  {
    CopyInto(buf, 0, WriteSize(sz));
  }

  /** The buffer of a part: kind, header, session and the bytes themselves. */
  method FillPart(buf: array<byte>, session: uint32, chunk: bytes, last: bool)
    requires buf.Length == TEMP_LENGTH && |chunk| <= MULTI_PART
    modifies buf
    ensures buf[..|chunk| + 7] == PartFrame(session, chunk, last)
  {
    hide WriteSize, FillUint32;
    buf[2] := if last then 3 else 2;
    FillHeader(buf, |chunk| + 5);
    assert buf[2] == buf[2..][0];
    assert buf[..3] == WriteSize(|chunk| + 5) + [if last then 3 else 2];
    CopyInto(buf, 3, FillUint32(session));
    CopyInto(buf, 7, chunk);
    assert PartFrame(session, chunk, last) == WriteSize(|chunk| + 5) + [if last then 3 else 2] + FillUint32(session) + chunk;
  }

  /** packreq_multi */
  method PackReqMulti(session: uint32, msg: bytes) returns (parts: seq<bytes>)
    requires 0 < |msg| < TWO_32
    ensures |parts| == |Chunks(msg)|
    ensures forall i :: 0 <= i < |parts| ==> parts[i] == PartFrame(session, Chunks(msg)[i], i == |parts| - 1)
  {
    hide WriteSize, FillUint32, Chunks, PartFrame;
    var buf := NewBuffer();
    var sz := |msg|;
    var part := (sz - 1) / 0x8000 + 1;
    var ptr := 0;
    parts := [];
    ghost var all := Chunks(msg);
    ChunksJoin(msg);
    for i := 0 to part
      invariant 0 <= ptr && ptr + sz == |msg| && |parts| == i
      invariant if i == part then sz == 0 else sz > 0 && Chunks(msg[ptr..]) == all[i..]
      invariant forall j :: 0 <= j < i ==> parts[j] == PartFrame(session, all[j], j == part - 1)
      modifies buf
    {
      ChunksStep(msg, ptr, all, i);
      var s := if sz > MULTI_PART then MULTI_PART else sz;
      FillPart(buf, session, msg[ptr..ptr + s], sz <= MULTI_PART);
      parts := parts + [buf[..s + 7]];
      sz, ptr := sz - s, ptr + s;
    }
  }

  /** The part frame that the loop of packreq_multi fills in. */
  function PartFrame(session: uint32, chunk: bytes, last: bool): bytes
    requires |chunk| <= MULTI_PART
  {
    Frame(PartBody(session, chunk, last))
  }

  /** The next part is the next 32K of the message, or all that is left of it. */
  lemma ChunksStep(msg: bytes, ptr: nat, all: seq<bytes>, i: nat)
    requires ptr < |msg| && i < |all| && Chunks(msg[ptr..]) == all[i..]
    ensures |all| - i == (|msg| - ptr - 1) / 0x8000 + 1
    ensures var s := if |msg| - ptr > MULTI_PART then MULTI_PART else |msg| - ptr;
      && all[i] == msg[ptr..ptr + s]
      && (s < |msg| - ptr ==> Chunks(msg[ptr + s..]) == all[i + 1..])
      && (i + 1 == |all| <==> s == |msg| - ptr)
  {
    var rest := msg[ptr..];
    ChunksJoin(rest);
    assert all[i] == all[i..][0] && all[i + 1..] == all[i..][1..];
    if |rest| > MULTI_PART {
      assert rest[MULTI_PART..] == msg[ptr + MULTI_PART..];
    }
  }

  datatype Packed = Packed(request: bytes, next: int, parts: seq<bytes>)

  /** The strings of a request: the frames of its bodies. */
  ghost predicate PackedAs(p: Packed, addr: Address, session: uint32, msg: bytes)
    requires addr.Name? ==> |addr.name| <= 255
    requires |msg| < TWO_32
  {
    && |RequestBody(addr, session, msg)| < 0x1_0000
    && p.request == Frame(RequestBody(addr, session, msg))
    && (|msg| < MULTI_PART ==> p.parts == [])
    && (|msg| >= MULTI_PART ==> |p.parts| == |Chunks(msg)|)
    && (forall i :: 0 <= i < |p.parts| ==> p.parts[i] == PartFrame(session, Chunks(msg)[i], i == |p.parts| - 1))
  }

  /** packreq_number, and how many parts follow. */
  method PackReqNumber(id: uint32, session: uint32, msg: bytes) returns (request: bytes, part: nat)
    requires |msg| < TWO_32
    ensures |RequestBody(Number(id), session, msg)| < 0x1_0000
    ensures request == Frame(RequestBody(Number(id), session, msg))
    ensures part == if |msg| < MULTI_PART then 0 else (|msg| - 1) / 0x8000 + 1
  {
    hide WriteSize, FillUint32, RequestBody, Frame;
    var buf := NewBuffer();
    RequestReadBack(Number(id), session, msg);
    NumberBody(id, session, msg);
    ghost var a, n := FillUint32(id), FillUint32(session);
    if |msg| < MULTI_PART {
      FillHeader(buf, |msg| + 9);
      buf[2] := 0;
      assert buf[..3] == WriteSize(|msg| + 9) + [0];
      CopyInto(buf, 3, FillUint32(id));
      CopyInto(buf, 7, FillUint32(session));
      CopyInto(buf, 11, msg);
      FramedAs(|msg| + 9, [0], a, n, msg);
      return buf[..|msg| + 11], 0;
    } else {
      FillHeader(buf, 13);
      buf[2] := 1;
      assert buf[..3] == WriteSize(13) + [1];
      CopyInto(buf, 3, FillUint32(id));
      CopyInto(buf, 7, FillUint32(session));
      CopyInto(buf, 11, FillUint32(|msg|));
      FramedAs(13, [1], a, n, FillUint32(|msg|));
      return buf[..15], (|msg| - 1) / 0x8000 + 1;
    }
  }

  /** packreq_string with a name that was found good. */
  method PackReqString(name: bytes, session: uint32, msg: bytes) returns (request: bytes, part: nat)
    requires |msg| < TWO_32 && 1 <= |name| <= 255
    ensures |RequestBody(Name(name), session, msg)| < 0x1_0000
    ensures request == Frame(RequestBody(Name(name), session, msg))
    ensures part == if |msg| < MULTI_PART then 0 else (|msg| - 1) / 0x8000 + 1
  {
    hide WriteSize, FillUint32, RequestBody, Frame;
    var buf := NewBuffer();
    RequestReadBack(Name(name), session, msg);
    NameBody(name, session, msg);
    ghost var n := FillUint32(session);
    if |msg| < MULTI_PART {
      FillHeader(buf, |msg| + 6 + |name|);
      buf[2], buf[3] := 0x80, |name|;
      assert buf[..4] == WriteSize(|msg| + 6 + |name|) + [0x80, |name|];
      CopyInto(buf, 4, name);
      CopyInto(buf, 4 + |name|, FillUint32(session));
      CopyInto(buf, 8 + |name|, msg);
      FramedAs(|msg| + 6 + |name|, [0x80, |name|], name, n, msg);
      return buf[..|msg| + 8 + |name|], 0;
    } else {
      FillHeader(buf, 10 + |name|);
      buf[2], buf[3] := 0x81, |name|;
      assert buf[..4] == WriteSize(10 + |name|) + [0x81, |name|];
      CopyInto(buf, 4, name);
      CopyInto(buf, 4 + |name|, FillUint32(session));
      CopyInto(buf, 8 + |name|, FillUint32(|msg|));
      FramedAs(10 + |name|, [0x81, |name|], name, n, FillUint32(|msg|));
      return buf[..12 + |name|], (|msg| - 1) / 0x8000 + 1;
    }
  }

  /** The kind byte behind the header of each string that lpackrequest makes. */
  lemma RequestKinds(p: Packed, addr: Address, session: uint32, msg: bytes)
    requires addr.Name? ==> |addr.name| <= 255
    requires |msg| < TWO_32 && PackedAs(p, addr, session, msg)
    ensures |p.request| > 2 && p.request[2] ==
      match addr case Number(_) => (if |msg| < 0x8000 then 0 else 1) case Name(_) => (if |msg| < 0x8000 then 0x80 else 0x81)
    ensures forall i :: 0 <= i < |p.parts| ==> |p.parts[i]| > 2 && p.parts[i][2] == if i == |p.parts| - 1 then 3 else 2
  {
    hide FillUint32, WriteSize, Le;
    assert p.request[2] == p.request[2..][0];
    forall i | 0 <= i < |p.parts|
      ensures |p.parts[i]| > 2 && p.parts[i][2] == if i == |p.parts| - 1 then 3 else 2
    {
      hide Chunks;
      var f := PartFrame(session, Chunks(msg)[i], i == |p.parts| - 1);
      assert f[2] == f[2..][0];
    }
  }

  lemma NumberBody(id: uint32, session: uint32, msg: bytes)
    requires |msg| < TWO_32
    ensures RequestBody(Number(id), session, msg) == if |msg| < MULTI_PART
      then [0] + FillUint32(id) + FillUint32(session) + msg
      else [1] + FillUint32(id) + FillUint32(session) + FillUint32(|msg|)
  {
    hide FillUint32;
  }

  lemma NameBody(name: bytes, session: uint32, msg: bytes)
    requires |msg| < TWO_32 && |name| <= 255
    ensures RequestBody(Name(name), session, msg) == if |msg| < MULTI_PART
      then [0x80, |name|] + name + FillUint32(session) + msg
      else [0x81, |name|] + name + FillUint32(session) + FillUint32(|msg|)
  {
    hide FillUint32;
  }

  /** What was filled in piece by piece is the frame of the pieces. */
  lemma FramedAs(size: nat, t: bytes, a: bytes, n: bytes, m: bytes)
    requires size < 0x1_0000 && size == |t| + |a| + |n| + |m|
    ensures WriteSize(size) + t + a + n + m == Frame(t + a + n + m)
  {
    hide WriteSize;
  }

  /** lpackrequest */
  method PackRequest(addr: Address, session: int, msg: bytes) returns (r: Result<Packed>)
    requires session <= INT_MAX && |msg| < TWO_32
    ensures r.Ok? <==> session > 0 && (addr.Name? ==> 1 <= |addr.name| <= 255)
    ensures r.Ok? ==> PackedAs(r.value, addr, session, msg)
    ensures r.Ok? ==> r.value.next == if session == INT_MAX then 1 else session + 1
  {
    hide RequestBody, Chunks, Frame, PartFrame;
    if session <= 0 {
      return Fail;
    }
    var request, multi;
    match addr {
      case Number(id) => request, multi := PackReqNumber(id, session, msg);
      case Name(name) =>
        if |name| < 1 || |name| > 255 {
          return Fail;
        }
        request, multi := PackReqString(name, session, msg);
    }
    var next := if session == INT_MAX then 1 else session + 1;   // ++session, which wraps to negative
    var parts := [];
    if multi > 0 {
      parts := PackReqMulti(session, msg);
    }
    return Ok(Packed(request, next, parts));
  }

  // ---- unpacking

  /** lunpackrequest, on the body of a request frame. */
  function UnpackRequest(b: bytes): Result<Request> {
    if b == [] then Fail
    else if b[0] == 0 then
      if |b| < 9 then Fail else Ok(Whole(Number(Dword(b, 1)), Dword(b, 5), b[9..]))
    else if b[0] == 1 then
      if |b| != 13 then Fail else Ok(Announced(Number(Dword(b, 1)), Dword(b, 5), Dword(b, 9)))
    else if b[0] == 2 || b[0] == 3 then
      if |b| < 5 then Fail else Ok(Part(Dword(b, 1), b[5..], b[0] == 2))
    else if b[0] == 0x80 then
      if |b| < 2 || |b| < b[1] as int + 6 then Fail
      else var n := b[1] as int; Ok(Whole(Name(b[2..2 + n]), Dword(b, n + 2), b[n + 6..]))
    else if b[0] == 0x81 then
      if |b| < 2 || |b| < b[1] as int + 10 then Fail
      else var n := b[1] as int; Ok(Announced(Name(b[2..2 + n]), Dword(b, n + 2), Dword(b, n + 6)))
    else Fail
  }

  /** The first body of a request is read back as the message, or as the announcement of its size. */
  lemma RequestReadBack(addr: Address, session: uint32, msg: bytes)
    requires addr.Name? ==> |addr.name| <= 255
    requires |msg| < TWO_32
    ensures |RequestBody(addr, session, msg)| < 0x1_0000
    ensures UnpackRequest(RequestBody(addr, session, msg)) == Ok(
      if |msg| < MULTI_PART then Whole(addr, session, msg) else Announced(addr, session, |msg|))
  {
    hide Dword, Le;
    var multi := |msg| >= MULTI_PART;
    var a, s := AddressBytes(addr, multi), FillUint32(session);
    var tail := if multi then FillUint32(|msg|) else msg;
    var b := a + s + tail;
    DwordAt(a, session, tail);
    if multi {
      assert b == (a + s) + FillUint32(|msg|) + [];
      DwordAt(a + s, |msg|, []);
    } else {
      assert b[|a| + 4..] == msg;
    }
    if addr.Number? {
      assert b == a[..1] + FillUint32(addr.id) + (s + tail);
      DwordAt(a[..1], addr.id, s + tail);
      assert b[0] == a[0];
    } else {
      assert b[0] == a[0] && b[1] == a[1];
      assert b[2..2 + |addr.name|] == addr.name;
    }
  }

  /** Which bodies lunpackrequest refuses: an unknown kind, or a body that is too short, or for an announced
      size to a number not just as long as it must be. */
  lemma RequestRefused(b: bytes)
    ensures UnpackRequest(b).Fail? <==>
      || b == []
      || b[0] !in [0, 1, 2, 3, 0x80, 0x81]
      || (b[0] == 0 && |b| < 9)
      || (b[0] == 1 && |b| != 13)
      || (b[0] in [2, 3] && |b| < 5)
      || (b[0] == 0x80 && (|b| < 2 || |b| < b[1] as int + 6))
      || (b[0] == 0x81 && (|b| < 2 || |b| < b[1] as int + 10))
  {
    hide FromLe;
  }

  lemma PartReadBack(session: uint32, chunk: bytes, last: bool)
    requires |chunk| <= MULTI_PART
    ensures |PartBody(session, chunk, last)| < 0x1_0000
    ensures UnpackRequest(PartBody(session, chunk, last)) == Ok(Part(session, chunk, !last))
  {
    hide Dword, Le;
    var t: bytes := [if last then 3 else 2];
    DwordAt(t, session, chunk);
    assert PartBody(session, chunk, last)[5..] == chunk;
  }

  // ---- responses

  function ResponseBody(session: uint32, kind: byte, data: bytes): (b: bytes)
    ensures |b| == |data| + 5 && b[..4] == Le(session, 4) && b[4] == kind && b[5..] == data
  {
    FillUint32(session) + [kind] + data
  }

  function ResponseFrame(session: uint32, kind: byte, data: bytes): bytes
    requires |data| <= MULTI_PART
  {
    Frame(ResponseBody(session, kind, data))
  }

  /** The strings of a response: one for a short message or an error (cut to 32K), and otherwise the
      announced size and the parts. */
  ghost predicate ResponsePackedAs(strs: seq<bytes>, session: uint32, ok: bool, msg: bytes)
    requires |msg| < TWO_32
  {
    var cs := Chunks(msg);
    if !ok then strs == [ResponseFrame(session, 0, Truncated(msg))]
    else if |msg| <= MULTI_PART then strs == [ResponseFrame(session, 1, msg)]
    else
      && |strs| == |cs| + 1
      && strs[0] == ResponseFrame(session, 2, FillUint32(|msg|))
      && forall i :: 0 <= i < |cs| ==> strs[i + 1] == ResponseFrame(session, if i == |cs| - 1 then 4 else 3, cs[i])
  }

  /** 0 for an error, 1 for a whole answer, 2 for an announced size, 3 for a part and 4 for the last one. */
  function ResponseKind(i: nat, n: nat, ok: bool, size: nat): (k: byte)
    ensures !ok ==> k == 0
    ensures ok && size <= 0x8000 ==> k == 1
    ensures ok && size > 0x8000 ==> (i == 0 ==> k == 2) && (0 < i < n - 1 ==> k == 3) && (0 < i && n - 1 <= i ==> k == 4)
  {
    if !ok then 0 else if size <= MULTI_PART then 1 else if i == 0 then 2 else if i < n - 1 then 3 else 4
  }

  /** The kind byte stands behind the header and the session in each string that lpackresponse makes. */
  lemma ResponseKinds(strs: seq<bytes>, session: uint32, ok: bool, msg: bytes)
    requires |msg| < TWO_32 && ResponsePackedAs(strs, session, ok, msg)
    ensures forall i :: 0 <= i < |strs| ==> |strs[i]| > 6
    ensures forall i :: 0 <= i < |strs| ==> strs[i][6] == ResponseKind(i, |strs|, ok, |msg|)
    ensures |strs| == if ok && |msg| > 0x8000 then (|msg| - 1) / 0x8000 + 2 else 1
  {
    hide FillUint32, WriteSize, Le, Chunks, ResponseFrame;
    ChunksJoin(msg);
    forall i | 0 <= i < |strs|
      ensures |strs[i]| > 6 && strs[i][6] == ResponseKind(i, |strs|, ok, |msg|)
    {
      if !ok {
        KindAt(session, 0, Truncated(msg));
      } else if |msg| <= MULTI_PART {
        KindAt(session, 1, msg);
      } else if i == 0 {
        KindAt(session, 2, FillUint32(|msg|));
      } else {
        assert strs[i] == strs[(i - 1) + 1];
        KindAt(session, if i == |strs| - 1 then 4 else 3, Chunks(msg)[i - 1]);
      }
    }
  }

  lemma KindAt(session: uint32, kind: byte, data: bytes)
    requires |data| <= MULTI_PART
    ensures var f := ResponseFrame(session, kind, data);
      |f| == |data| + 7 && f[6] == kind && f[2..6] == Le(session, 4) && f[7..] == data
  {
    hide FillUint32, WriteSize, Le, ResponseBody;
    var f, b := ResponseFrame(session, kind, data), ResponseBody(session, kind, data);
    assert f[2..] == b && f[6] == b[4] && f[2..6] == b[..4] && f[7..] == b[5..];
  }

  function Truncated(msg: bytes): (m: bytes)
    ensures m == if |msg| <= 0x8000 then msg else msg[..0x8000]
  {
    if |msg| > MULTI_PART then msg[..MULTI_PART] else msg
  }

  /** The buffer of a response: header, session, kind and the bytes. */
  method FillResponse(buf: array<byte>, session: uint32, kind: byte, data: bytes)
    requires buf.Length == TEMP_LENGTH && |data| <= MULTI_PART
    modifies buf
    ensures buf[..|data| + 7] == ResponseFrame(session, kind, data)
  {
    hide WriteSize, FillUint32;
    FillHeader(buf, |data| + 5);
    CopyInto(buf, 2, FillUint32(session));
    buf[6] := kind;
    assert buf[..7] == WriteSize(|data| + 5) + FillUint32(session) + [kind];
    CopyInto(buf, 7, data);
    assert ResponseFrame(session, kind, data) == WriteSize(|data| + 5) + FillUint32(session) + [kind] + data;
  }

  /** lpackresponse */
  method PackResponse(session: uint32, ok: bool, msg: bytes) returns (strs: seq<bytes>)
    requires |msg| < TWO_32
    ensures ResponsePackedAs(strs, session, ok, msg)
  {
    hide ResponseFrame, FillUint32, Chunks;
    var sz := |msg|;
    if !ok {
      if sz > MULTI_PART {
        sz := MULTI_PART;
      }
    } else if sz > MULTI_PART {
      strs := PackResponseMulti(session, msg);
      return;
    }
    var buf := NewBuffer();
    FillResponse(buf, session, if ok then 1 else 0, msg[..sz]);
    assert msg[..sz] == if ok then msg else Truncated(msg);
    return [buf[..sz + 7]];
  }

  /** The branch of lpackresponse for a long message: its size, and the parts. */
  method PackResponseMulti(session: uint32, msg: bytes) returns (strs: seq<bytes>)
    requires MULTI_PART < |msg| < TWO_32
    ensures ResponsePackedAs(strs, session, true, msg)
  {
    hide ResponseFrame, Chunks, FillUint32;
    var buf := NewBuffer();
    var sz := |msg|;
    var part := (sz - 1) / 0x8000 + 1;
    var ptr := 0;
    FillResponse(buf, session, 2, FillUint32(|msg|));
    strs := [buf[..11]];
    ghost var all := Chunks(msg);
    ChunksJoin(msg);
    for i := 0 to part
      invariant 0 <= ptr && ptr + sz == |msg| && |strs| == i + 1
      invariant if i == part then sz == 0 else sz > 0 && Chunks(msg[ptr..]) == all[i..]
      invariant strs[0] == ResponseFrame(session, 2, FillUint32(|msg|))
      invariant forall j :: 0 <= j < i ==> strs[j + 1] == ResponseFrame(session, if j == part - 1 then 4 else 3, all[j])
      modifies buf
    {
      ChunksStep(msg, ptr, all, i);
      var s, kind: byte;
      if sz > MULTI_PART {
        s, kind := MULTI_PART, 3;
      } else {
        s, kind := sz, 4;
      }
      FillResponse(buf, session, kind, msg[ptr..ptr + s]);
      strs := strs + [buf[..s + 7]];
      sz, ptr := sz - s, ptr + s;
    }
  }

  /** lunpackresponse, on the body of a response frame; None stands for returning nothing. */
  function UnpackResponse(b: bytes): Option<Response> {
    if |b| < 5 then None else
      var session := Dword(b, 0);
      match b[4]
      case 0 => Some(Failed(session, b[5..]))
      case 1 => Some(Last(session, b[5..]))
      case 4 => Some(Last(session, b[5..]))
      case 2 => if |b| != 9 then None else Some(Begin(session, Dword(b, 5)))
      case 3 => Some(More(session, b[5..]))
      case _ => None
  }

  /** Which bodies lunpackresponse returns nothing for. */
  lemma ResponseRefused(b: bytes)
    ensures UnpackResponse(b).None? <==> |b| < 5 || b[4] > 4 || (b[4] == 2 && |b| != 9)
  {
    hide FromLe;
  }

  lemma ResponseReadBack(session: uint32, kind: byte, data: bytes)
    requires |data| <= MULTI_PART && (kind in {0, 1, 3, 4} || (kind == 2 && exists n: uint32 :: data == FillUint32(n)))
    ensures |ResponseBody(session, kind, data)| < 0x1_0000
    ensures kind == 0 ==> UnpackResponse(ResponseBody(session, kind, data)) == Some(Failed(session, data))
    ensures kind in {1, 4} ==> UnpackResponse(ResponseBody(session, kind, data)) == Some(Last(session, data))
    ensures kind == 3 ==> UnpackResponse(ResponseBody(session, kind, data)) == Some(More(session, data))
    ensures forall n: uint32 :: kind == 2 && data == FillUint32(n) ==>
      UnpackResponse(ResponseBody(session, kind, data)) == Some(Begin(session, n))
  {
    hide Dword, Le;
    var b := ResponseBody(session, kind, data);
    assert b == [] + FillUint32(session) + ([kind] + data);
    DwordAt([], session, [kind] + data);
    assert b[4] == kind && b[5..] == data;
    forall n: uint32 | kind == 2 && data == FillUint32(n)
      ensures UnpackResponse(b) == Some(Begin(session, n))
    {
      assert b == (FillUint32(session) + [kind]) + FillUint32(n) + [];
      DwordAt(FillUint32(session) + [kind], n, []);
    }
  }

  /** lconcat: the parts are joined exactly when they add up to the announced size. */
  method Concat(size: nat, strs: seq<bytes>) returns (r: Option<bytes>)
    requires size <= INT_MAX
    ensures r == if |Join(strs)| == size then Some(Join(strs)) else None
  {
    hide Join;
    var buff := new byte[size](_ => 0);
    var offset := 0;
    JoinNothing(strs);
    for idx := 0 to |strs|
      invariant 0 <= offset <= size
      invariant buff[..offset] == Join(strs[..idx])
    {
      JoinStep(strs, idx);
      if |strs[idx]| + offset > size {
        return None;
      }
      CopyInto(buff, offset, strs[idx]);
      offset := offset + |strs[idx]|;
    }
    assert strs[..|strs|] == strs;
    if offset != size {
      return None;
    }
    assert buff[..] == buff[..offset];
    return Some(buff[..]);
  }

  lemma JoinNothing(strs: seq<bytes>)
    ensures Join(strs[..0]) == []
  {
  }
}
