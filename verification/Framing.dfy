/** The wire format of lua-netpack.c: a 16-bit big-endian length, then that many bytes. */
module Framing {
  import opened Common

  /** read_size */
  function ReadSize(b: bytes): (n: nat)
    requires |b| >= 2
    ensures n < 0x1_0000
  {
    b[0] as int * 0x100 + b[1] as int
  }

  /** write_size */
  function WriteSize(n: nat): (b: bytes)
    requires n < 0x1_0000
    ensures |b| == 2 && ReadSize(b) == n
  {
    [n / 0x100, n % 0x100]
  }

  /** A whole frame stands at the start of `s`. */
  predicate Complete(s: bytes) {
    |s| >= 2 && |s| - 2 >= ReadSize(s)
  }

  function FirstFrame(s: bytes): bytes
    requires Complete(s)
  {
    s[2..2 + ReadSize(s)]
  }

  function AfterFirst(s: bytes): bytes
    requires Complete(s)
  {
    s[2 + ReadSize(s)..]
  }

  /** The frames that a byte stream is made of, and the bytes after the last whole one. */
  function Frames(s: bytes): seq<bytes> {
    if Complete(s) then [FirstFrame(s)] + Frames(AfterFirst(s)) else []
  }

  function Rest(s: bytes): bytes {
    if Complete(s) then Rest(AfterFirst(s)) else s
  }

  /** The first two bytes, the high one first, say how long the frame is that follows them. */
  lemma Layout(s: bytes, n: int)
    requires |s| >= 2 ==> n == 2 + 256 * s[0] as int + s[1] as int
    ensures |s| < 2 || |s| < n ==> Frames(s) == [] && Rest(s) == s
    ensures |s| >= 2 && |s| >= n ==> Frames(s) == [s[2..n]] + Frames(s[n..]) && Rest(s) == Rest(s[n..])
  {
    assert |s| >= 2 ==> n == 2 + ReadSize(s);
    hide ReadSize;
    assert Complete(s) ==> FirstFrame(s) == s[2..n] && AfterFirst(s) == s[n..];
  }

  /** lpack refuses messages of 64K and more, and puts the length in front of the others. */
  lemma PackIs(msg: bytes)
    ensures Pack(msg) == if |msg| < 0x1_0000 then Ok([|msg| / 256, |msg| % 256] + msg) else Fail
  {
  }

  /** Cutting a stream anywhere changes nothing: what was left over of the first part is completed by
      the second. */
  lemma {:induction false} FramesOfConcat(a: bytes, b: bytes)
    ensures Frames(a + b) == Frames(a) + Frames(Rest(a) + b)
    ensures Rest(a + b) == Rest(Rest(a) + b)
  {
    if Complete(a) {
      assert (a + b)[0] == a[0] && (a + b)[1] == a[1];
      assert FirstFrame(a + b) == FirstFrame(a) && AfterFirst(a + b) == AfterFirst(a) + b;
      FramesOfConcat(AfterFirst(a), b);
    } else {
      assert Frames(a) + Frames(Rest(a) + b) == Frames(a + b);
    }
  }

  lemma {:induction false} RestIsIncomplete(s: bytes)
    ensures !Complete(Rest(s)) && Rest(Rest(s)) == Rest(s) && Frames(Rest(s)) == []
  {
    if Complete(s) {
      RestIsIncomplete(AfterFirst(s));
    }
  }

  /** A stream that starts with the header of a packet of `n` bytes. */
  lemma FromHeader(n: nat, body: bytes)
    requires n < 0x1_0000
    ensures |body| < n ==> Frames(WriteSize(n) + body) == [] && Rest(WriteSize(n) + body) == WriteSize(n) + body
    ensures |body| >= n ==> Frames(WriteSize(n) + body) == [body[..n]] + Frames(body[n..])
                            && Rest(WriteSize(n) + body) == Rest(body[n..])
  {
    if |body| >= n {
      WholeFirst(WriteSize(n), body);
    } else {
      HeaderRead(WriteSize(n), body);
    }
  }

  lemma WholeFirst(h: bytes, body: bytes)
    requires |h| == 2 && |body| >= ReadSize(h)
    ensures Frames(h + body) == [body[..ReadSize(h)]] + Frames(body[ReadSize(h)..])
    ensures Rest(h + body) == Rest(body[ReadSize(h)..])
  {
    HeaderRead(h, body);
    assert FirstFrame(h + body) == body[..ReadSize(h)];
    assert AfterFirst(h + body) == body[ReadSize(h)..];
  }

  lemma HeaderRead(h: bytes, body: bytes)
    requires |h| == 2
    ensures ReadSize(h + body) == ReadSize(h)
    ensures Complete(h + body) <==> |body| >= ReadSize(h)
  {
    assert (h + body)[0] == h[0] && (h + body)[1] == h[1];
  }

  lemma SizeOfHeader(hi: byte, lo: byte)
    ensures WriteSize(hi as int * 0x100 + lo) == [hi, lo]
  {
  }

  lemma EmptyStream()
    ensures Frames([]) == [] && Rest([]) == []
  {
  }

  /** lpack: the frame of a message; a message of 64K or more is refused. */
  function Pack(msg: bytes): Result<bytes> {
    if |msg| >= 0x1_0000 then Fail else Ok(WriteSize(|msg|) + msg)
  }

  function PackAll(msgs: seq<bytes>): bytes
    requires forall m :: m in msgs ==> |m| < 0x1_0000
  {
    if msgs == [] then [] else Pack(msgs[0]).value + PackAll(msgs[1..])
  }

  /** The stream of packed messages is framed back into exactly those messages. */
  lemma {:induction false} FramesOfPacked(msgs: seq<bytes>)
    requires forall m :: m in msgs ==> |m| < 0x1_0000
    ensures Frames(PackAll(msgs)) == msgs && Rest(PackAll(msgs)) == []
  {
    hide Complete, WriteSize, FirstFrame, AfterFirst, Frames, Rest;
    EmptyStream();
    if msgs != [] {
      var m, rest := msgs[0], PackAll(msgs[1..]);
      FromHeader(|m|, m + rest);
      assert PackAll(msgs) == WriteSize(|m|) + (m + rest);
      assert (m + rest)[..|m|] == m && (m + rest)[|m|..] == rest;
      FramesOfPacked(msgs[1..]);
    }
  }
}
