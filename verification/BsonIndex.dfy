/** The field index of lua-bson.c (lmakeindex) and the replacing of a field through it (lreplace). */
module BsonIndex {
  import opened Common
  import opened Reading
  import opened BsonFormat
  import opened Bson

  /** The size of a field that can be replaced; 0 for the others. */
  function FieldSize(bt: byte): (n: nat)
    ensures n == 8 <==> bt in [1, 9, 17, 18]
    ensures (n == 1 <==> bt == 8) && (n == 12 <==> bt == 7) && (n == 4 <==> bt == 16)
    ensures n in [0, 1, 4, 8, 12]
  {
    if bt == BSON_INT64 || bt == BSON_TIMESTAMP || bt == BSON_DATE || bt == BSON_REAL then 8
    else if bt == BSON_BOOLEAN then 1
    else if bt == BSON_OBJECTID then 12
    else if bt == BSON_INT32 then 4
    else 0
  }

  /** What is left after `n` bytes, or a sized block with `extra` bytes more than it says. */
  function SkipBytes(s: bytes, n: int): (r: Option<bytes>)
    ensures r.Some? ==> |r.value| <= |s|
  {
    var b := DecSized(s, n);
    if b.Bad? then None else Some(b.rest)
  }

  function SkipSized(s: bytes, extra: int): (r: Option<bytes>)
    ensures r.Some? ==> |r.value| <= |s|
  {
    var n := DecInt32(s);
    if n.Bad? then None else SkipBytes(n.rest, n.value + extra)
  }

  function SkipRegex(s: bytes): (r: Option<bytes>)
    ensures r.Some? ==> |r.value| <= |s|
  {
    var r1 := CString(s);
    if r1.Bad? then None
    else
      var r2 := CString(r1.rest);
      if r2.Bad? then None else Some(r2.rest)
  }

  /** How lmakeindex steps over a value of each type. */
  function Skip(bt: byte, s: bytes): (r: Option<bytes>)
    ensures r.Some? ==> |r.value| <= |s|
  {
    if FieldSize(bt) > 0 then SkipBytes(s, FieldSize(bt))
    else if bt == BSON_JSCODE || bt == BSON_SYMBOL || bt == BSON_STRING then SkipSized(s, 0)
    else if bt == BSON_CODEWS || bt == BSON_ARRAY || bt == BSON_DOCUMENT then SkipSized(s, -4)
    else if bt == BSON_BINARY then SkipSized(s, 1)
    else if bt == BSON_MINKEY || bt == BSON_MAXKEY || bt == BSON_NULL then Some(s)
    else if bt == BSON_REGEX then SkipRegex(s)
    else if bt == BSON_DBPOINTER then SkipSized(s, 12)
    else None
  }

  /** lmakeindex and the decoder agree on where each value ends. */
  lemma SameBoundary(bt: byte, s: bytes)
    requires DecPayload(bt, s).Got?
    ensures Skip(bt, s) == Some(DecPayload(bt, s).rest)
  {
    hide DecText, DecBinary, DecRaw, DecRegex, DecFrame, DecEntries, SkipSized, SkipRegex, DecScalar;
    if bt == BSON_DOCUMENT || bt == BSON_ARRAY {
      FrameBoundary(s);
    } else if FieldSize(bt) > 0 {
      FixedEnd(bt, s);
    } else {
      OtherEnd(bt, s);
    }
  }

  lemma FixedEnd(bt: byte, s: bytes)
    requires FieldSize(bt) > 0 && DecScalar(bt, s).Got?
    ensures bt != BSON_DOCUMENT && bt != BSON_ARRAY && Skip(bt, s) == Some(DecScalar(bt, s).rest)
  {
    hide FromLe;
  }

  lemma OtherEnd(bt: byte, s: bytes)
    requires FieldSize(bt) == 0 && DecScalar(bt, s).Got?
    ensures bt != BSON_DOCUMENT && bt != BSON_ARRAY ==> Skip(bt, s) == Some(DecScalar(bt, s).rest)
  {
    hide DecText, DecBinary, DecRaw, DecRegex, SkipSized, SkipRegex;
    if bt == BSON_BINARY {
      BinaryBoundary(s);
    } else if bt == BSON_STRING {
      TextBoundary(s);
    } else if bt == BSON_REGEX {
      RegexBoundary(s);
    } else if bt == BSON_MINKEY || bt == BSON_MAXKEY || bt == BSON_NULL {
      assert s[0..] == s;
    } else if bt in {BSON_DBPOINTER, BSON_JSCODE, BSON_SYMBOL, BSON_CODEWS} {
      RawBoundary(bt, s, if bt == BSON_DBPOINTER then 12 else if bt == BSON_CODEWS then -4 else 0);
    }
  }

  lemma TextBoundary(s: bytes)
    requires DecText(s).Got?
    ensures SkipSized(s, 0) == Some(DecText(s).rest)
  {
    hide DecInt32, DecSized;
  }

  lemma RawBoundary(bt: byte, s: bytes, extra: int)
    requires DecRaw(bt, s, extra).Got?
    ensures SkipSized(s, extra) == Some(DecRaw(bt, s, extra).rest)
  {
    hide DecInt32, DecSized;
  }

  lemma RegexBoundary(s: bytes)
    requires DecRegex(s).Got?
    ensures SkipRegex(s) == Some(DecRegex(s).rest)
  {
    hide CString;
  }

  lemma Int32Rest(s: bytes)
    ensures if |s| < 4 then DecInt32(s) == Bad else DecInt32(s).Got? && DecInt32(s).rest == s[4..]
  {
  }

  lemma FrameBoundary(s: bytes)
    requires DecFrame(s).Got?
    ensures SkipSized(s, -4) == Some(DecFrame(s).rest)
  {
    hide DecInt32;
    var n := DecInt32(s);
    assert n.rest[n.value - 5..][1..] == n.rest[n.value - 4..];
  }

  lemma BinaryBoundary(s: bytes)
    requires DecBinary(s).Got?
    ensures SkipSized(s, 1) == Some(DecBinary(s).rest)
  {
    hide DecInt32;
    var n := DecInt32(s);
    assert n.rest[1..][n.value..] == n.rest[n.value + 1..];
  }

  // ---- a value is read from its own bytes

  /** The bytes that were read. */
  function Used(s: bytes, rest: bytes): bytes
    requires |rest| <= |s|
  {
    s[..|s| - |rest|]
  }

  lemma BytesLocal(s: bytes, n: nat, t: bytes)
    requires |s| >= n
    ensures Bytes(s, n) == Got(s[..n], s[n..]) && s == s[..n] + s[n..] && Used(s, s[n..]) == s[..n]
    ensures Bytes(s[..n] + t, n) == Got(s[..n], t)
  {
    BytesBack(s[..n], t);
  }

  /** A length and a block of `k` bytes. */
  lemma SizedLocal(s: bytes, k: nat, t: bytes)
    requires |s| >= 4 + k
    ensures var x := s[..4 + k] + t;
      && DecInt32(s).Got? && DecInt32(s).rest == s[4..] && DecInt32(x) == Got(DecInt32(s).value, s[4..][..k] + t)
      && x[..4] == s[..4] && DecSized(s[4..], k) == Got(s[4..][..k], s[4 + k..])
      && DecSized(s[4..][..k] + t, k) == Got(s[4..][..k], t) && Used(s, s[4 + k..]) == s[..4 + k]
  {
    hide FromLe;
    var x := s[..4 + k] + t;
    BytesLocal(s, 4, t);
    BytesLocal(s[4..], k, t);
    BytesLocal(s[..4] + (s[4..][..k] + t), 4, t);
    assert s[..4 + k] == s[..4] + s[4..][..k];
    assert x == s[..4] + (s[4..][..k] + t);
    assert x[..4] == s[..4] && x[4..] == s[4..][..k] + t;
  }

  lemma TextLocal(s: bytes, t: bytes)
    requires DecText(s).Got?
    ensures var r := DecText(s); s == Used(s, r.rest) + r.rest && DecText(Used(s, r.rest) + t) == Got(r.value, t)
  {
    hide DecInt32, DecSized;
    Int32Rest(s);
    SizedNeeds(DecInt32(s).rest, DecInt32(s).value);
    SizedLocal(s, DecInt32(s).value, t);
  }

  lemma SizedNeeds(s: bytes, n: int)
    requires DecSized(s, n).Got?
    ensures 0 <= n <= |s|
  {
  }

  lemma RawLocal(bt: byte, s: bytes, extra: int, t: bytes)
    requires DecRaw(bt, s, extra).Got?
    ensures var r := DecRaw(bt, s, extra);
      s == Used(s, r.rest) + r.rest && DecRaw(bt, Used(s, r.rest) + t, extra) == Got(r.value, t)
  {
    hide DecInt32, DecSized;
    Int32Rest(s);
    SizedNeeds(DecInt32(s).rest, DecInt32(s).value + extra);
    SizedLocal(s, DecInt32(s).value + extra, t);
  }

  lemma BinaryLocal(s: bytes, t: bytes)
    requires DecBinary(s).Got?
    ensures var r := DecBinary(s); s == Used(s, r.rest) + r.rest && DecBinary(Used(s, r.rest) + t) == Got(r.value, t)
  {
    hide DecInt32, DecSized;
    Int32Rest(s);
    var n := DecInt32(s).value;
    SizedNeeds(s[4..][1..], n);
    SizedLocal(s, n + 1, t);
    var b := s[4..][..n + 1];
    SizedBack(b[1..], t);
    SizedBack(b[1..], s[4 + n + 1..]);
    assert (b + t)[1..] == b[1..] + t && (b + t)[0] == s[4..][0];
    assert s[4..][1..] == b[1..] + s[4 + n + 1..];
  }

  lemma FrameLocal(s: bytes, t: bytes)
    requires DecFrame(s).Got?
    ensures var r := DecFrame(s); s == Used(s, r.rest) + r.rest && DecFrame(Used(s, r.rest) + t) == Got(r.value, t)
  {
    hide DecInt32, DecSized, DecFrame;
    FrameParts(s);
    var n := DecInt32(s).value;
    SizedLocal(s, n - 4, t);
    var b := s[4..][..n - 4];
    var body := b[..n - 5];
    assert b == body + [0];
    Appended(body, [0], t);
    Appended(body, [0], s[n..]);
    assert s[4..] == b + s[n..];
    FrameOf(s, n, body, s[n..]);
    FrameOf(s[..n] + t, n, body, t);
  }

  lemma FrameParts(s: bytes)
    requires DecFrame(s).Got?
    ensures DecInt32(s).Got? && 5 <= DecInt32(s).value <= |s| && s[DecInt32(s).value - 1] == 0
  {
    hide DecInt32;
    Int32Rest(s);
  }

  lemma FrameOf(s: bytes, n: int, body: bytes, rest: bytes)
    requires DecInt32(s) == Got(n, body + ([0] + rest)) && n == |body| + 5
    ensures DecFrame(s) == Got(body, rest)
  {
    hide DecInt32;
    SizedBack(body, [0] + rest);
    assert ([0] + rest)[1..] == rest;
  }

  lemma RegexLocal(s: bytes, t: bytes)
    requires DecRegex(s).Got?
    ensures var r := DecRegex(s); s == Used(s, r.rest) + r.rest && DecRegex(Used(s, r.rest) + t) == Got(r.value, t)
  {
    hide CString, NulFree, DecRegex;
    RegexGot(s);
    var r1 := CString(s);
    var r2 := CString(r1.rest);
    CStringSplits(s);
    CStringSplits(r1.rest);
    var u := r1.value + ([0] + (r2.value + [0]));
    Nested(r1.value, r2.value, r2.rest);
    Nested(r1.value, r2.value, t);
    CStringBack(r1.value, r2.value + ([0] + t));
    CStringBack(r2.value, t);
    RegexOf(u + t, r1.value, r2.value + ([0] + t), r2.value, t);
    RegexOf(s, r1.value, r1.rest, r2.value, r2.rest);
    assert Used(u + r2.rest, r2.rest) == u;
  }

  lemma RegexGot(s: bytes)
    requires DecRegex(s).Got?
    ensures CString(s).Got? && CString(CString(s).rest).Got?
  {
    hide CString;
  }

  lemma Nested(a: bytes, b: bytes, t: bytes)
    ensures a + ([0] + (b + [0])) + t == a + ([0] + (b + ([0] + t)))
  {
  }

  lemma WordLocal(s: bytes, n: nat, t: bytes)
    requires |s| >= n
    ensures DecWord(s, n) == Got(FromLe(s[..n]), s[n..]) && DecWord(s[..n] + t, n) == Got(FromLe(s[..n]), t)
    ensures s == s[..n] + s[n..] && Used(s, s[n..]) == s[..n]
  {
    hide FromLe;
    BytesLocal(s, n, t);
  }

  /** Read from its own bytes with any other rest behind them, the value is the same. */
  lemma ScalarLocal(bt: byte, s: bytes, t: bytes)
    requires DecScalar(bt, s).Got?
    ensures var r := DecScalar(bt, s); s == Used(s, r.rest) + r.rest && DecScalar(bt, Used(s, r.rest) + t) == Got(r.value, t)
  {
    hide DecText, DecBinary, DecRaw, DecRegex, DecWord, FromLe, Bytes;
    if bt == BSON_REAL || bt == BSON_DATE || bt == BSON_INT64 {
      WordNeeds(s, 8);
      WordLocal(s, 8, t);
    } else if bt == BSON_INT32 {
      WordNeeds(s, 4);
      WordLocal(s, 4, t);
    } else if bt == BSON_BOOLEAN {
      assert (s[..1] + t)[1..] == t;
    } else if bt == BSON_STRING {
      TextLocal(s, t);
    } else if bt == BSON_BINARY {
      BinaryLocal(s, t);
    } else if bt == BSON_OBJECTID || bt == BSON_TIMESTAMP || bt == BSON_MINKEY || bt == BSON_MAXKEY || bt == BSON_NULL {
      var n := if bt == BSON_OBJECTID then 12 else if bt == BSON_TIMESTAMP then 8 else 0;
      BytesNeeds(s, n);
      BytesLocal(s, n, t);
    } else if bt == BSON_REGEX {
      RegexLocal(s, t);
    } else {
      RawLocal(bt, s, if bt == BSON_DBPOINTER then 12 else if bt == BSON_CODEWS then -4 else 0, t);
    }
  }

  lemma BytesNeeds(s: bytes, n: nat)
    ensures Bytes(s, n).Got? ==> |s| >= n
  {
  }

  lemma WordNeeds(s: bytes, n: nat)
    ensures DecWord(s, n).Got? ==> |s| >= n
  {
  }

  lemma PayloadLocal(bt: byte, s: bytes, t: bytes)
    requires DecPayload(bt, s).Got?
    ensures var r := DecPayload(bt, s); s == Used(s, r.rest) + r.rest && DecPayload(bt, Used(s, r.rest) + t) == Got(r.value, t)
  {
    hide DecScalar, DecFrame, DecEntries;
    if bt == BSON_DOCUMENT || bt == BSON_ARRAY {
      FrameLocal(s, t);
    } else {
      ScalarLocal(bt, s, t);
    }
  }

  // ---- the fields of a document

  /** A field as lmakeindex meets it: its type, its key, and where its value starts. */
  datatype Spot = Spot(bt: byte, key: bytes, at: nat)

  /** The fields of `s`, which starts at offset `at`, behind those of `done`. */
  function Walk(s: bytes, at: nat, done: seq<Spot>): Option<seq<Spot>>
    decreases |s|
  {
    if s == [] then Some(done)
    else
      var k := CString(s[1..]);
      if k.Bad? then None
      else
        var rest := Skip(s[0], k.rest);
        if rest.None? then None
        else Walk(rest.value, at + (|s| - |rest.value|), done + [Spot(s[0], k.value, at + (|s| - |k.rest|))])
  }

  /** An index entry is an int with the type in its low five bits and the offset above them. */
  function Id(spot: Spot): int { ToInt32(spot.bt + 32 * spot.at) }

  function IndexOf(spots: seq<Spot>): map<bytes, int> {
    if spots == [] then map[]
    else
      var n := |spots| - 1;
      var m := IndexOf(spots[..n]);
      if FieldSize(spots[n].bt) > 0 then m[spots[n].key := Id(spots[n])] else m
  }

  /** With distinct keys the index holds exactly the fields of fixed size. */
  lemma {:induction false} IndexHolds(spots: seq<Spot>, key: bytes)
    requires forall i, j :: 0 <= i < j < |spots| ==> spots[i].key != spots[j].key
    ensures key in IndexOf(spots) <==> exists i :: 0 <= i < |spots| && spots[i].key == key && FieldSize(spots[i].bt) > 0
    ensures forall i :: 0 <= i < |spots| && spots[i].key == key && key in IndexOf(spots) ==> IndexOf(spots)[key] == Id(spots[i])
  {
    hide FieldSize, Id;
    if spots != [] {
      var n := |spots| - 1;
      var front := spots[..n];
      IndexHolds(front, key);
      assert forall i :: 0 <= i < n ==> front[i] == spots[i];
      if key in IndexOf(front) {
        var i :| 0 <= i < |front| && front[i].key == key && FieldSize(front[i].bt) > 0;
        assert spots[i].key == key;
      }
    }
  }

  // ---- replacing a value in place

  lemma {:induction false} Appends(s: bytes, done: seq<Entry>)
    ensures DecEntries(s, false, done).Some? <==> DecEntries(s, false, []).Some?
    ensures DecEntries(s, false, done).Some? ==> DecEntries(s, false, done).value == done + DecEntries(s, false, []).value
    decreases |s|
  {
    hide DecPayload, CString;
    if s != [] && CString(s[1..]).Got? {
      var k := CString(s[1..]);
      var v := DecPayload(s[0], k.rest);
      if v.Got? {
        var e := Entry(Name(k.value), v.value);
        Appends(v.rest, done + [e]);
        Appends(v.rest, [e]);
        Appended2(done, [e], v.rest);
      }
    }
  }

  lemma Appended2(done: seq<Entry>, e: seq<Entry>, rest: bytes)
    ensures DecEntries(rest, false, []).Some? ==>
      done + e + DecEntries(rest, false, []).value == done + (e + DecEntries(rest, false, []).value)
    ensures [] + e == e
  {
  }

  function Head(bt: byte, key: bytes): bytes { [bt] + (key + [0]) }

  /** A field and what follows it. */
  lemma FieldAhead(bt: byte, key: bytes, x: bytes, v: Value, rest: bytes, at: nat, done: seq<Entry>, marks: seq<Spot>)
    requires NulFree(key) && DecPayload(bt, x) == Got(v, rest)
    ensures |rest| <= |x| && Skip(bt, x) == Some(rest)
    ensures DecEntries(Head(bt, key) + x, false, done) == DecEntries(rest, false, done + [Entry(Name(key), v)])
    ensures Walk(Head(bt, key) + x, at, marks)
      == Walk(rest, at + (|key| + 2 + |x| - |rest|), marks + [Spot(bt, key, at + |key| + 2)])
  {
    hide DecPayload, Skip, CString, NulFree, DecEntries, Walk, Head;
    SameBoundary(bt, x);
    KeyAhead(bt, key, x);
    DecAhead(Head(bt, key) + x, done, Got(key, x), Got(v, rest));
    WalkAhead(Head(bt, key) + x, at, marks, Got(key, x), rest);
  }

  lemma KeyAhead(bt: byte, key: bytes, x: bytes)
    requires NulFree(key)
    ensures var s := Head(bt, key) + x; |s| == |key| + 2 + |x| && s[0] == bt && CString(s[1..]) == Got(key, x)
  {
    hide CString;
    var s := Head(bt, key) + x;
    assert s[1..] == key + ([0] + x);
    CStringBack(key, x);
  }

  lemma DecAhead(s: bytes, done: seq<Entry>, k: Read<bytes>, v: Read<Value>)
    requires s != [] && CString(s[1..]) == k && k.Got? && DecPayload(s[0], k.rest) == v && v.Got?
    ensures DecEntries(s, false, done) == DecEntries(v.rest, false, done + [Entry(Name(k.value), v.value)])
  {
    hide DecPayload, CString;
  }

  lemma WalkAhead(s: bytes, at: nat, marks: seq<Spot>, k: Read<bytes>, rest: bytes)
    requires s != [] && CString(s[1..]) == k && k.Got? && |k.rest| <= |s| && Skip(s[0], k.rest) == Some(rest) && |rest| <= |s|
    ensures Walk(s, at, marks) == Walk(rest, at + (|s| - |rest|), marks + [Spot(s[0], k.value, at + (|s| - |k.rest|))])
  {
    hide Skip, CString;
  }

  /** The first field of what can be decoded. */
  lemma FirstField(s: bytes, done: seq<Entry>) returns (key: bytes, x: bytes, v: Value, rest: bytes)
    requires DecEntries(s, false, done).Some? && s != []
    ensures NulFree(key) && s == Head(s[0], key) + x && DecPayload(s[0], x) == Got(v, rest) && |rest| <= |x| < |s|
    ensures x == Used(x, rest) + rest && Skip(s[0], x) == Some(rest)
  {
    hide DecPayload, Skip, CString;
    var k := CString(s[1..]);
    key, x := k.value, k.rest;
    var r := DecPayload(s[0], x);
    v, rest := r.value, r.rest;
    CStringSplits(s[1..]);
    assert s == [s[0]] + s[1..] && s[1..] == key + ([0] + x);
    Appended(key, [0], x);
    PayloadLocal(s[0], x, []);
    SameBoundary(s[0], x);
  }

  lemma FixedBoundary(bt: byte, x: bytes)
    requires FieldSize(bt) > 0 && Skip(bt, x).Some?
    ensures |x| - |Skip(bt, x).value| == FieldSize(bt)
  {
  }

  /** The walk of lmakeindex meets the fields that the decoder decodes, in the same order. */
  lemma {:induction false} WalkFollows(s: bytes, at: nat, done: seq<Entry>, marks: seq<Spot>)
    requires DecEntries(s, false, done).Some? && |done| == |marks|
    ensures var es, ws := DecEntries(s, false, done).value, Walk(s, at, marks);
      && ws.Some? && |ws.value| == |es| >= |done| && es[..|done|] == done && ws.value[..|done|] == marks
      && forall i: nat :: |done| <= i < |es| ==> SpotOf(ws.value[i], es[i], at, at + |s|)
    decreases |s|
  {
    hide DecPayload, Skip, CString, DecEntries, Walk;
    if s == [] {
      NoFields(at, done, marks);
    } else {
      var key, x, v, rest := FirstField(s, done);
      FieldAhead(s[0], key, x, v, rest, at, done, marks);
      var step := |key| + 2 + |x| - |rest|;
      var e, w := Entry(Name(key), v), Spot(s[0], key, at + |key| + 2);
      WalkFollows(rest, at + step, done + [e], marks + [w]);
      var es, ws := DecEntries(s, false, done).value, Walk(s, at, marks).value;
      assert es[..|done|] == es[..|done| + 1][..|done|] && es[|done|] == es[..|done| + 1][|done|];
      assert ws[..|done|] == ws[..|done| + 1][..|done|] && ws[|done|] == ws[..|done| + 1][|done|];
      if FieldSize(s[0]) > 0 { FixedBoundary(s[0], x); }
      assert SpotOf(w, e, at, at + |s|);
    }
  }

  /** The mark of an entry, within these offsets. */
  predicate SpotOf(w: Spot, e: Entry, low: nat, high: nat) {
    e.key == Name(w.key) && low < w.at && w.at + FieldSize(w.bt) <= high
  }

  lemma NoFields(at: nat, done: seq<Entry>, marks: seq<Spot>)
    ensures DecEntries([], false, done) == Some(done) && Walk([], at, marks) == Some(marks)
  {
  }

  /** The bytes `p` in the place of as many bytes at `o`. */
  function Splice(s: bytes, o: nat, p: bytes): (r: bytes)
    requires o + |p| <= |s|
    ensures |r| == |s|
  {
    s[..o] + p + s[o + |p|..]
  }

  ghost predicate Reads(bt: byte, p: bytes, v: Value) {
    forall t :: DecPayload(bt, p + t) == Got(v, t)
  }

  /** A value of fixed size replaced by another of its type changes that field, and no other field nor
      any offset. */
  lemma {:induction false} Replaced(s: bytes, at: nat, done: seq<Entry>, marks: seq<Spot>, j: nat, p: bytes, v: Value)
    requires DecEntries(s, false, done).Some? && Walk(s, at, marks).Some? && |done| == |marks|
    requires |done| <= j < |Walk(s, at, marks).value|
    requires FieldSize(Walk(s, at, marks).value[j].bt) == |p| > 0 && Reads(Walk(s, at, marks).value[j].bt, p, v)
    ensures var w := Walk(s, at, marks).value[j];
      && j < |DecEntries(s, false, done).value| && at < w.at && w.at + |p| <= at + |s|
      && DecEntries(Splice(s, w.at - at, p), false, done) == Some(DecEntries(s, false, done).value[j := Entry(Name(w.key), v)])
      && Walk(Splice(s, w.at - at, p), at, marks) == Walk(s, at, marks)
    decreases |s|
  {
    hide DecPayload, Skip, CString, DecEntries, Walk, Reads;
    WalkFollows(s, at, done, marks);
    var es, ws := DecEntries(s, false, done).value, Walk(s, at, marks).value;
    assert SpotOf(ws[j], es[j], at, at + |s|);
    if s == [] {
      NoFields(at, done, marks);
    } else {
      var key, x, before, rest := FirstField(s, done);
      FieldAhead(s[0], key, x, before, rest, at, done, marks);
      var step := |key| + 2 + |x| - |rest|;
      var e, w := Entry(Name(key), before), Spot(s[0], key, at + |key| + 2);
      WalkFollows(rest, at + step, done + [e], marks + [w]);
      var head := Head(s[0], key);
      if j == |done| {
        assert ws[j] == ws[..j + 1][j] == w;
        FixedBoundary(s[0], x);
        var e' := Entry(Name(key), v);
        UseReads(s[0], p, v, rest);
        SpliceFirst(head, x, p, rest);
        FieldAhead(s[0], key, p + rest, v, rest, at, done, marks);
        Appends(rest, done + [e]);
        Appends(rest, done + [e']);
        OneChanged(done, e, e', DecEntries(rest, false, []).value);
      } else {
        var o := ws[j].at - at;
        Replaced(rest, at + step, done + [e], marks + [w], j, p, v);
        PayloadLocal(s[0], x, Splice(rest, o - step, p));
        SpliceLater(head, x, p, rest, o);
        FieldAhead(s[0], key, Used(x, rest) + Splice(rest, o - step, p), before, Splice(rest, o - step, p), at, done, marks);
      }
    }
  }

  lemma UseReads(bt: byte, p: bytes, v: Value, t: bytes)
    requires Reads(bt, p, v)
    ensures DecPayload(bt, p + t) == Got(v, t)
  {
  }

  lemma OneChanged(done: seq<Entry>, e: Entry, e': Entry, rest: seq<Entry>)
    ensures (done + [e] + rest)[|done| := e'] == done + [e'] + rest
  {
  }

  lemma SpliceFirst(head: bytes, x: bytes, p: bytes, rest: bytes)
    requires |rest| <= |x| && |x| - |rest| == |p| && x == Used(x, rest) + rest
    ensures Splice(head + x, |head|, p) == head + (p + rest)
  {
    assert (head + x)[|head| + |p|..] == rest;
  }

  lemma SpliceLater(head: bytes, x: bytes, p: bytes, rest: bytes, o: nat)
    requires |rest| <= |x| && x == Used(x, rest) + rest
    requires var step := |head| + |x| - |rest|; step <= o && o - step + |p| <= |rest|
    ensures Splice(head + x, o, p) == head + (Used(x, rest) + Splice(rest, o - (|head| + |x| - |rest|), p))
  {
    var step := |head| + |x| - |rest|;
    var s, front := head + x, head + Used(x, rest);
    assert s == front + rest;
    assert s[..o] == front + rest[..o - step] && s[o + |p|..] == rest[o - step + |p|..];
  }

  // ---- lmakeindex

  /** The branches of lmakeindex for values that cannot be replaced. */
  method SkipValue(br: Reader, bt: byte) returns (ok: bool)
    requires br.Valid() && FieldSize(bt) == 0
    modifies br
    ensures br.Valid() && br.ptr + br.size == old(br.ptr + br.size)
    ensures match Skip(bt, old(br.Remaining())) case Some(rest) => ok && br.Remaining() == rest case None => !ok
  {
    hide SkipSized, SkipRegex;
    if bt == BSON_JSCODE || bt == BSON_SYMBOL || bt == BSON_STRING {
      ok := SkipBlock(br, 0);
    } else if bt == BSON_CODEWS || bt == BSON_ARRAY || bt == BSON_DOCUMENT {
      ok := SkipBlock(br, -4);
    } else if bt == BSON_BINARY {
      ok := SkipBlock(br, 1);
    } else if bt == BSON_MINKEY || bt == BSON_MAXKEY || bt == BSON_NULL {
      ok := true;
    } else if bt == BSON_REGEX {
      ok := SkipTwoCStrings(br);
    } else if bt == BSON_DBPOINTER {
      ok := SkipBlock(br, 12);
    } else {
      ok := false;
    }
  }

  method SkipBlock(br: Reader, extra: int) returns (ok: bool)
    requires br.Valid()
    modifies br
    ensures br.Valid() && br.ptr + br.size == old(br.ptr + br.size)
    ensures match SkipSized(old(br.Remaining()), extra) case Some(rest) => ok && br.Remaining() == rest case None => !ok
  {
    hide DecInt32, DecSized;
    var n := br.ReadInt32();
    if n.Fail? { return false; }
    var b := br.ReadBytes(n.value + extra);
    ok := b.Ok?;
  }

  method SkipTwoCStrings(br: Reader) returns (ok: bool)
    requires br.Valid()
    modifies br
    ensures br.Valid() && br.ptr + br.size == old(br.ptr + br.size)
    ensures match SkipRegex(old(br.Remaining())) case Some(rest) => ok && br.Remaining() == rest case None => !ok
  {
    hide CString;
    var r1 := br.ReadCString();
    if r1.Fail? { return false; }
    var r2 := br.ReadCString();
    ok := r2.Ok?;
  }

  /** The bytes of the fields. */
  function Body(doc: bytes): bytes
    requires |doc| >= 5
  {
    doc[4..|doc| - 1]
  }

  /** A document as long as it says. */
  predicate Sound(doc: bytes) { |doc| >= 5 && Dword(doc, 0) == |doc| <= INT_MAX }

  /** lmakeindex */
  method MakeIndex(doc: bytes) returns (r: Result<map<bytes, int>>)
    requires Sound(doc)
    ensures match Walk(Body(doc), 4, []) case Some(ws) => r == Ok(IndexOf(ws)) case None => r == Fail
  {
    hide Skip, CString, Walk, IndexOf, DecSized, Dword, ToInt32;
    var br := new Reader(doc, 4, Dword(doc, 0) - 5);
    var index := map[];
    ghost var ws := [];
    NoIndex();
    while br.size > 0
      invariant br.Valid() && fresh(br) && br.data == doc && br.ptr + br.size == |doc| - 1
      invariant Walk(Body(doc), 4, []) == Walk(br.Remaining(), br.ptr, ws) && index == IndexOf(ws)
      decreases br.size
    {
      ghost var s, at := br.Remaining(), br.ptr;
      var bt := br.ReadByte();
      var key := br.ReadCString();
      if key.Fail? {
        NoWalk(s, at, ws);
        return Fail;
      }
      ghost var x := br.Remaining();
      var fieldSize := FieldSize(bt.value);
      var id := ToInt32(bt.value + 32 * br.ptr);
      var ok := true;
      if fieldSize > 0 {
        FixedSkip(bt.value, x);
        var b := br.ReadBytes(fieldSize);
        ok := b.Ok?;
      } else {
        ok := SkipValue(br, bt.value);
      }
      if !ok {
        NoWalk(s, at, ws);
        return Fail;
      }
      WalkAhead(s, at, ws, Got(key.value, x), br.Remaining());
      ghost var w := Spot(bt.value, key.value, at + (|s| - |x|));
      NextIndex(ws, w);
      if fieldSize > 0 {
        index := index[key.value := id];
      }
      ws := ws + [w];
    }
    NoFields(br.ptr, [], ws);
    r := Ok(index);
  }

  lemma NoIndex()
    ensures IndexOf([]) == map[]
  {
  }

  lemma NextIndex(ws: seq<Spot>, w: Spot)
    ensures IndexOf(ws + [w]) == if FieldSize(w.bt) > 0 then IndexOf(ws)[w.key := ToInt32(w.bt + 32 * w.at)] else IndexOf(ws)
  {
    hide FieldSize, ToInt32;
    assert (ws + [w])[..|ws|] == ws;
  }

  lemma NoWalk(s: bytes, at: nat, ws: seq<Spot>)
    requires s != [] && (CString(s[1..]).Bad? || Skip(s[0], CString(s[1..]).rest).None?)
    ensures Walk(s, at, ws) == None
  {
    hide CString, Skip;
  }

  lemma FixedSkip(bt: byte, x: bytes)
    requires FieldSize(bt) > 0
    ensures Skip(bt, x) == var b := DecSized(x, FieldSize(bt)); if b.Bad? then None else Some(b.rest)
  {
    hide DecSized;
  }

  // ---- lreplace

  type word64 = n: nat | n < TWO_64

  /** The bytes that lreplace writes for a value in a field of this type. `toReal` is the conversion of an
      integer to the bits of a double. An integer for a 32-bit field is cut without a check. */
  function NewPayload(toReal: int -> word64, bt: int, value: Value): Result<bytes> {
    if bt == BSON_REAL then
      (match value case Real(w) => Ok(Le(w, 8)) case Int(i) => Ok(Le(toReal(i), 8)) case _ => Fail)
    else if bt == BSON_BOOLEAN then Ok([if value == Bool(false) then 0 else 1])
    else if bt == BSON_OBJECTID then (if value.Str? && |value.s| == 14 && value.s[..2] == [0, 7] then Ok(value.s[2..]) else Fail)
    else if bt == BSON_DATE then (if value.Str? && |value.s| == 6 && value.s[..2] == [0, 9] then Ok(Le(FromLe(value.s[2..]) * 1000, 8)) else Fail)
    else if bt == BSON_TIMESTAMP then (if value.Str? && |value.s| == 10 && value.s[..2] == [0, 17] then Ok(value.s[2..]) else Fail)
    else if bt == BSON_INT32 then (if value.Int? then Ok(Le(value.i % 0x1_0000_0000, 4)) else Fail)
    else if bt == BSON_INT64 then (if value.Int? then Ok(Le(value.i % 0x1_0000_0000_0000_0000, 8)) else Fail)
    else Fail
  }

  /** The value as it will be read back. */
  function Stored(toReal: int -> word64, bt: int, value: Value): Value {
    if bt == BSON_BOOLEAN then Bool(value != Bool(false))
    else if bt == BSON_INT32 && value.Int? then Int(ToInt32(value.i))
    else if bt == BSON_REAL && value.Int? then Real(toReal(value.i))
    else value
  }

  /** Which values a field takes, by the type codes of BSON 1.1: numbers for a double (1), anything for a
      boolean (8), the special strings of an object id (7), a date (9) and a timestamp (17), and integers
      for the integer types (16 and 18). All other types are refused. */
  lemma Takes(toReal: int -> word64, bt: int, value: Value)
    ensures NewPayload(toReal, bt, value).Ok? <==>
      || (bt == 1 && (value.Real? || value.Int?))
      || bt == 8
      || (bt == 7 && value.Str? && |value.s| == 14 && value.s[0] == 0 && value.s[1] == 7)
      || (bt == 9 && value.Str? && |value.s| == 6 && value.s[0] == 0 && value.s[1] == 9)
      || (bt == 17 && value.Str? && |value.s| == 10 && value.s[0] == 0 && value.s[1] == 17)
      || ((bt == 16 || bt == 18) && value.Int?)
  {
    hide Le, FromLe;
    if value.Str? && |value.s| >= 2 {
      assert value.s[..2] == [value.s[0], value.s[1]];
    }
  }

  /** What a field that takes the value will hold: the truth of it in a boolean, where only false is not
      true; an integer converted to a double, or cut to 32 bits; and otherwise the value itself. */
  lemma StoredIs(toReal: int -> word64, bt: int, value: Value)
    ensures bt == 8 ==> Stored(toReal, bt, value) == Bool(value != Bool(false))
    ensures bt == 1 && value.Int? ==> Stored(toReal, bt, value) == Real(toReal(value.i))
    ensures bt == 16 && value.Int? ==> exists r :: Stored(toReal, bt, value) == Int(r) && -0x8000_0000 <= r < 0x8000_0000 && (r - value.i) % 0x1_0000_0000 == 0
    ensures bt in {7, 9, 17, 18} || (bt == 1 && !value.Int?) ==> Stored(toReal, bt, value) == value
  {
    if bt == 16 && value.Int? {
      var r := ToInt32(value.i);
      assert Stored(toReal, bt, value) == Int(r);
    }
  }

  /** A field of this type keeps the value as it is given. */
  predicate Keeps(bt: int, value: Value) {
    && (bt == BSON_INT32 && value.Int? ==> IsInt32(value.i))
    && (bt == BSON_BOOLEAN ==> value.Bool?)
    && (bt == BSON_REAL ==> value.Real?)
  }

  /** Of the values that lreplace accepts, the field gets exactly those as they were given. */
  lemma StoredAsGiven(toReal: int -> word64, bt: int, value: Value)
    requires NewPayload(toReal, bt, value).Ok?
    ensures Stored(toReal, bt, value) == value <==> Keeps(bt, value)
  {
  }

  /** An integer of more than 32 bits is accepted for a 32-bit field, and another one is stored. */
  lemma WideIntegerCut(toReal: int -> word64)
    ensures NewPayload(toReal, BSON_INT32, Int(0x1_0000_0005)).Ok?
    ensures Stored(toReal, BSON_INT32, Int(0x1_0000_0005)) == Int(5)
  {
  }

  lemma ToInt32Same(i: int)
    ensures i % 0x1_0000_0000 == ToInt32(i) % 0x1_0000_0000
  {
  }

  /** What is written is read back, whatever stands behind it. */
  lemma NewPayloadReads(toReal: int -> word64, bt: byte, value: Value)
    requires WellFormed(value) && NewPayload(toReal, bt, value).Ok?
    ensures |NewPayload(toReal, bt, value).value| == FieldSize(bt) > 0
    ensures Reads(bt, NewPayload(toReal, bt, value).value, Stored(toReal, bt, value))
  {
    hide Le, FromLe, DecPayload, ToInt32;
    var p := NewPayload(toReal, bt, value).value;
    forall t ensures DecPayload(bt, p + t) == Got(Stored(toReal, bt, value), t) {
      NewPayloadRead(toReal, bt, value, p, t);
    }
  }

  lemma NewPayloadRead(toReal: int -> word64, bt: byte, value: Value, p: bytes, t: bytes)
    requires WellFormed(value) && NewPayload(toReal, bt, value) == Ok(p)
    ensures DecPayload(bt, p + t) == Got(Stored(toReal, bt, value), t)
  {
    hide Le, FromLe, ToInt32, DecInt32, DecInt64, DecDate, DecFixed, DecWord;
    if bt == BSON_REAL {
      Pow256Values();
      WordBack(if value.Real? then value.w else toReal(value.i), 8, t);
    } else if bt == BSON_BOOLEAN {
      assert (p + t)[1..] == t;
    } else if bt == BSON_INT32 {
      ToInt32Same(value.i);
      Int32Back(ToInt32(value.i), t);
    } else if bt == BSON_INT64 {
      Int64Back(value.i, t);
    } else if bt == BSON_DATE {
      DateBack(value.s[2..], t);
      assert value.s == value.s[..2] + value.s[2..];
    } else {
      FixedBack(bt, value.s[2..], t);
      assert value.s == value.s[..2] + value.s[2..];
    }
  }

  /** The document decodes to these entries, and these are its fields. */
  ghost predicate Holds(doc: bytes, es: seq<Entry>, ws: seq<Spot>) {
    Sound(doc) && DecDoc(doc, false) == Got(Table(false, es), []) && Walk(Body(doc), 4, []) == Some(ws)
  }

  lemma HoldsBody(doc: bytes, es: seq<Entry>, ws: seq<Spot>)
    ensures Holds(doc, es, ws) <==>
      Sound(doc) && doc[|doc| - 1] == 0 && DecEntries(Body(doc), false, []) == Some(es) && Walk(Body(doc), 4, []) == Some(ws)
  {
    hide FromLe, DecEntries, Walk;
    if Sound(doc) {
      var n := |doc| - 5;
      assert doc[0..4] == doc[..4];
      assert DecInt32(doc) == Got(|doc|, doc[4..]);
      assert doc[4..][..n] == Body(doc) && doc[4..][n..] == [doc[|doc| - 1]];
      assert DecSized(doc[4..], n) == Got(Body(doc), [doc[|doc| - 1]]);
      assert [doc[|doc| - 1]][1..] == [];
    }
  }

  /** Putting a value in the place of another, in the document as a whole. */
  lemma DocReplaced(doc: bytes, es: seq<Entry>, ws: seq<Spot>, j: nat, p: bytes, v: Value)
    requires Holds(doc, es, ws) && j < |ws| && FieldSize(ws[j].bt) == |p| > 0 && Reads(ws[j].bt, p, v)
    ensures j < |es| && es[j].key == Name(ws[j].key) && 4 < ws[j].at && ws[j].at + |p| < |doc|
    ensures Holds(Splice(doc, ws[j].at, p), es[j := Entry(Name(ws[j].key), v)], ws)
  {
    hide DecEntries, Walk, Reads, DecDoc, Holds, Dword;
    HoldsBody(doc, es, ws);
    WalkFollows(Body(doc), 4, [], []);
    assert SpotOf(ws[j], es[j], 4, 4 + |Body(doc)|);
    Replaced(Body(doc), 4, [], [], j, p, v);
    var after := Splice(doc, ws[j].at, p);
    SpliceBody(doc, ws[j].at, p);
    HoldsBody(after, es[j := Entry(Name(ws[j].key), v)], ws);
  }

  lemma SpliceBody(doc: bytes, o: nat, p: bytes)
    requires Sound(doc) && 4 <= o && o + |p| < |doc|
    ensures Sound(Splice(doc, o, p)) && Body(Splice(doc, o, p)) == Splice(Body(doc), o - 4, p)
    ensures Splice(doc, o, p)[|doc| - 1] == doc[|doc| - 1]
  {
    hide FromLe;
    var after := Splice(doc, o, p);
    assert after[0..4] == doc[0..4];
  }

  /** The document decodes as before but for entry `j`, which has this key and now the new value as it is
      stored. */
  ghost predicate FieldChanged(doc: bytes, es: seq<Entry>, ws: seq<Spot>, j: nat, key: bytes, stored: Value) {
    j < |ws| && j < |es| && es[j].key == Name(key) && Holds(doc, es[j := Entry(Name(key), stored)], ws)
  }

  /** The fields with this key start where an index entry can say so. */
  predicate InReach(ws: seq<Spot>, key: bytes) {
    forall j :: 0 <= j < |ws| && ws[j].key == key ==> ws[j].at < 0x400_0000
  }

  /** lreplace: the value of the field `key` is overwritten. In the document that results just that field
      has changed when it is decoded, and its index is still right. The field holds the value given exactly
      when its type keeps it. */
  method Replace(toReal: int -> word64, doc: array<byte>, index: map<bytes, int>, key: bytes, value: Value, ghost es: seq<Entry>, ghost ws: seq<Spot>)
    returns (ok: bool)
    requires Holds(doc[..], es, ws) && index == IndexOf(ws) && WellFormed(value) && value != Unsupported
    requires (forall i, j :: 0 <= i < j < |es| ==> es[i].key != es[j].key) && InReach(ws, key)
    modifies doc
    ensures ok <==> key in index && NewPayload(toReal, index[key] % 32, value).Ok?
    ensures key in index <==> exists j :: 0 <= j < |ws| && ws[j].key == key && FieldSize(ws[j].bt) > 0
    ensures !ok ==> doc[..] == old(doc[..])
    ensures ok ==> exists j :: FieldChanged(doc[..], es, ws, j, key, Stored(toReal, index[key] % 32, value))
    ensures ok ==> (Keeps(index[key] % 32, value) <==> Stored(toReal, index[key] % 32, value) == value)
  {
    hide Holds, IndexOf, NewPayload, Stored, WellFormed, FieldSize, Keeps;
    ghost var before := doc[..];
    SpotsDistinct(before, es, ws);
    IndexHolds(ws, key);
    if key !in index {
      return false;
    }
    ghost var j :| 0 <= j < |ws| && ws[j].key == key && FieldSize(ws[j].bt) > 0;
    var id := index[key];
    var bt, offset := id % 32, id / 32;
    IdRight(ws[j]);
    var p := NewPayload(toReal, bt, value);
    if p.Fail? {
      return false;
    }
    StoredAsGiven(toReal, bt, value);
    NewPayloadReads(toReal, ws[j].bt, value);
    DocReplaced(before, es, ws, j, p.value, Stored(toReal, bt, value));
    CopyInto(doc, offset, p.value);
    assert doc[..] == Splice(before, offset, p.value) by {
      assert doc[..] == doc[..offset + |p.value|] + doc[offset + |p.value|..];
    }
    assert FieldChanged(doc[..], es, ws, j, key, Stored(toReal, bt, value));
    ok := true;
  }

  /** The offset is read back from an index entry exactly when it is below 2^26. */
  lemma IdRight(w: Spot)
    requires FieldSize(w.bt) > 0 && w.at <= INT_MAX
    ensures Id(w) % 32 == w.bt
    ensures Id(w) / 32 == w.at <==> w.at < 0x400_0000
  {
    var x := w.bt + 32 * w.at;
    var k := (x + 0x8000_0000) / 0x1_0000_0000;
    assert Id(w) == 32 * (w.at - k * 0x800_0000) + w.bt;
    ModUnique(Id(w), 32, w.at - k * 0x800_0000, w.bt);
  }

  lemma SpotsDistinct(doc: bytes, es: seq<Entry>, ws: seq<Spot>)
    requires Holds(doc, es, ws) && forall i, j :: 0 <= i < j < |es| ==> es[i].key != es[j].key
    ensures forall i, j :: 0 <= i < j < |ws| ==> ws[i].key != ws[j].key
  {
    hide Walk, DecEntries, Holds, DecDoc;
    HoldsBody(doc, es, ws);
    WalkFollows(Body(doc), 4, [], []);
    forall i, j | 0 <= i < j < |ws| ensures ws[i].key != ws[j].key {
      assert SpotOf(ws[i], es[i], 4, 4 + |Body(doc)|) && SpotOf(ws[j], es[j], 4, 4 + |Body(doc)|);
    }
  }

  /** Every document that lencode makes can be indexed, and decodes to what was encoded. */
  lemma EncodedHolds(es: seq<Entry>) returns (ws: seq<Spot>)
    requires WellFormed(Table(false, es)) && Accepted(Table(false, es)) && |EncEntries(es)| + 5 <= INT_MAX
    ensures Holds(Wrap(EncEntries(es)), es, ws)
  {
    hide WellFormed, Accepted, EncEntries, Wrap, DecEntries, Walk, Holds, DecDoc, Dword;
    var doc := Wrap(EncEntries(es));
    DocBack(false, es, []);
    assert doc + [] == doc;
    OwnLength(EncEntries(es));
    DecodedBody(doc, es);
    WalkFollows(Body(doc), 4, [], []);
    ws := Walk(Body(doc), 4, []).value;
    HoldsIs(doc, es, ws);
  }

  lemma HoldsIs(doc: bytes, es: seq<Entry>, ws: seq<Spot>)
    requires Sound(doc) && DecDoc(doc, false) == Got(Table(false, es), []) && Walk(Body(doc), 4, []) == Some(ws)
    ensures Holds(doc, es, ws)
  {
    hide Walk, DecDoc, Dword;
  }

  lemma DecodedBody(doc: bytes, es: seq<Entry>)
    requires Sound(doc) && DecDoc(doc, false) == Got(Table(false, es), [])
    ensures DecEntries(Body(doc), false, []) == Some(es)
  {
    hide FromLe, DecEntries;
    var n := |doc| - 5;
    assert doc[0..4] == doc[..4];
    assert DecInt32(doc) == Got(|doc|, doc[4..]);
    assert doc[4..][..n] == Body(doc);
  }
}
