/** lua-bson.c: encoding into a growing buffer with lengths filled in afterwards, and decoding. */
module Bson {
  import opened Common
  import opened Reading
  import opened Utf8
  import opened BsonFormat

  /** `struct bson`. `contents` is what was written. */
  class Buffer {
    var size: nat
    var cap: nat
    var ptr: array<byte>
    ghost var contents: bytes

    ghost predicate Valid()
      reads this, ptr
    {
      size <= cap == ptr.Length && cap > 0 && contents == ptr[..size]
    }

    /** bson_create */
    constructor ()
      ensures Valid() && contents == [] && fresh(ptr)
    {
      size, cap := 0, 64;
      ptr := new byte[64];
      contents := [];
    }

    /** bson_reserve: the capacity doubles until `sz` more bytes fit; what was written moves along. */
    method Reserve(sz: nat)
      requires Valid()
      modifies this`cap, this`ptr
      ensures Valid() && size + sz <= cap && (ptr == old(ptr) || fresh(ptr))
    {
      if size + sz <= cap {
        return;
      }
      cap := cap * 2;
      while cap <= size + sz
        invariant cap > size
        decreases size + sz - cap
        modifies this`cap
      {
        cap := cap * 2;
      }
      var larger := new byte[cap];
      CopyInto(larger, 0, ptr[..size]);
      ptr := larger;
    }

    /** The copying of `data` to the end of the buffer, once there is room. */
    method Append(data: bytes)
      requires Valid()
      modifies this, ptr
      ensures Valid() && (ptr == old(ptr) || fresh(ptr)) && contents == old(contents) + data
    {
      Reserve(|data|);
      CopyInto(ptr, size, data);
      size := size + |data|;
      contents := contents + data;
    }

    method WriteInt32(v: int)
      requires Valid()
      modifies this, ptr
      ensures Valid() && (ptr == old(ptr) || fresh(ptr)) && contents == old(contents) + Le(v % 0x1_0000_0000, 4)
    {
      Append(Le(v % 0x1_0000_0000, 4));
    }

    /** write_int64, and write_double of the bits of a double */
    method WriteInt64(v: int)
      requires Valid()
      modifies this, ptr
      ensures Valid() && (ptr == old(ptr) || fresh(ptr)) && contents == old(contents) + Le(v % 0x1_0000_0000_0000_0000, 8)
    {
      Append(Le(v % 0x1_0000_0000_0000_0000, 8));
    }

    /** reserve_length: room for a length that is not known yet. */
    method ReserveLength() returns (at: nat)
      requires Valid()
      modifies this, ptr
      ensures Valid() && (ptr == old(ptr) || fresh(ptr))
      ensures at == |old(contents)| && |contents| == at + 4 && contents[..at] == old(contents)
    {
      at := size;
      Reserve(4);
      size := size + 4;
      contents := ptr[..size];
    }

    /** write_length */
    method WriteLength(v: int, at: nat)
      requires Valid() && at + 4 <= size
      modifies this`contents, ptr
      ensures Valid() && contents == old(contents)[..at] + Le(v % 0x1_0000_0000, 4) + old(contents)[at + 4..]
    {
      ghost var was := contents;
      CopyInto(ptr, at, Le(v % 0x1_0000_0000, 4));
      contents := ptr[..size];
      assert ptr[at + 4..size] == was[at + 4..];
      assert contents == ptr[..at + 4] + ptr[at + 4..size];
    }

    /** write_string: fails exactly when the bytes are not UTF-8. */
    method WriteString(s: bytes) returns (ok: bool)
      requires Valid()
      modifies this, ptr
      ensures Valid() && (ptr == old(ptr) || fresh(ptr))
      ensures ok <==> ValidUtf8(s)
      ensures ok ==> contents == old(contents) + (s + [0])
    {
      hide ValidUtf8;
      Reserve(|s| + 1);
      ok := CopyString(s, ptr, size);
      if !ok {
        return;
      }
      ptr[size + |s|] := 0;
      assert ptr[..size + |s| + 1] == contents + (s + [0]);
      size := size + |s| + 1;
      contents := ptr[..size];
    }

    /** write_binary: the subtype is not counted. */
    method WriteBinary(data: bytes)
      requires Valid() && data != []
      modifies this, ptr
      ensures Valid() && (ptr == old(ptr) || fresh(ptr))
      ensures contents == old(contents) + (Le((|data| - 1) % 0x1_0000_0000, 4) + data)
    {
      hide Le;
      var at := ReserveLength();
      ghost var middle := contents;
      Append(data);
      assert contents[at + 4..] == data && contents[..at] == middle[..at];
      WriteLength(|data| - 1, at);
      Appended(old(contents), Le((|data| - 1) % 0x1_0000_0000, 4), data);
    }
  }

  /** The loop of write_string. */
  method CopyString(s: bytes, d: array<byte>, start: nat) returns (ok: bool)
    requires start + |s| <= d.Length
    modifies d
    ensures d[..start] == old(d[..start])
    ensures ok <==> ValidUtf8(s)
    ensures ok ==> d[start..start + |s|] == s
  {
    hide ValidUtf8, Starts, Char;
    var src, at := s, start;
    NoText();
    while src != []
      invariant at + |src| == start + |s| && src == s[at - start..]
      invariant d[..start] == old(d[..start]) && d[start..at] == s[..at - start]
      invariant ValidUtf8(s) <==> ValidUtf8(src)
      decreases |src|
      modifies d
    {
      ghost var was := d[..at];
      var c := Utf8Copy(src, d, at);
      Prefixes(was, d[..at], start);
      assert d[..start] == d[..at][..start] && d[start..at] == d[..at][start..];
      if c == 0 {
        NotUtf8(src);
        return false;
      }
      Utf8Moved(src, c);
      assert d[start..at + c] == d[start..at] + d[at..at + c];
      assert s[..at - start + c] == s[..at - start] + src[..c];
      src := src[c..];
      at := at + c;
    }
    assert s[..|s|] == s;
    ok := true;
  }

  lemma NoText()
    ensures ValidUtf8([])
  {
  }

  lemma Prefixes(a: bytes, b: bytes, k: nat)
    requires a == b && k <= |a|
    ensures a[..k] == b[..k] && a[k..] == b[k..]
  {
  }

  lemma Utf8Moved(s: bytes, c: nat)
    requires 0 < c <= |s| && exists cp: nat :: Starts(s, cp) && |Char(cp)| == c
    ensures ValidUtf8(s) <==> ValidUtf8(s[c..])
  {
    var cp: nat :| Starts(s, cp) && |Char(cp)| == c;
    Utf8Step(s, cp);
  }

  // ---- encoding

  /** append_key */
  method AppendKey(b: Buffer, t: byte, key: bytes) returns (ok: bool)
    requires b.Valid()
    modifies b, b.ptr
    ensures b.Valid() && (b.ptr == old(b.ptr) || fresh(b.ptr))
    ensures ok <==> ValidUtf8(key)
    ensures ok ==> b.contents == old(b.contents) + ([t] + (key + [0]))
  {
    hide ValidUtf8;
    b.Append([t]);
    ok := b.WriteString(key);
    Appended(old(b.contents), [t], key + [0]);
  }

  /** The last NUL of the text of a regular expression, looked for from its end. */
  method RegexSplit(c: bytes) returns (i: nat)
    requires RegexFormed(c)
    ensures i < |c| - 1 && c[..|c| - 1 - i - 1] == CString(c).value && c[|c| - 1 - i..|c| - 1] == CString(CString(c).rest).value
  {
    ghost var r1, r2 := CString(c).value, CString(CString(c).rest).value;
    RegexParts(c, r1, r2);
    var len := |c| - 1;
    i := 0;
    while i < len
      invariant i <= |r2|
    {
      if c[len - i - 1] == 0 {
        break;
      }
      i := i + 1;
    }
    assert i == |r2|;
  }

  lemma RegexParts(c: bytes, r1: bytes, r2: bytes)
    requires RegexFormed(c) && r1 == CString(c).value && r2 == CString(CString(c).rest).value
    ensures NulFree(r2) && |c| == |r1| + |r2| + 2 && c == r1 + ([0] + (r2 + [0]))
    ensures c[..|r1|] == r1 && c[|r1|] == 0 && c[|r1| + 1..|c| - 1] == r2
    ensures forall k :: |r1| < k < |c| - 1 ==> c[k] != 0
  {
    hide CString, RegexFormed;
    RegexIs(c, r1, r2);
    Sliced(c, r1, r2);
  }

  ghost predicate RegexShape(c: bytes, r1: bytes, r2: bytes) { NulFree(r2) && c == r1 + ([0] + (r2 + [0])) }

  lemma RegexIs(c: bytes, r1: bytes, r2: bytes)
    requires RegexFormed(c) && r1 == CString(c).value && r2 == CString(CString(c).rest).value
    ensures RegexShape(c, r1, r2)
  {
    hide CString;
    CStringSplits(c);
    CStringSplits(CString(c).rest);
    Appended(r2, [0], []);
  }

  lemma Sliced(c: bytes, r1: bytes, r2: bytes)
    requires RegexShape(c, r1, r2)
    ensures |c| == |r1| + |r2| + 2
    ensures c[..|r1|] == r1 && c[|r1|] == 0 && c[|r1| + 1..|c| - 1] == r2
    ensures forall k :: |r1| < k < |c| - 1 ==> c[k] != 0
  {
    forall k | |r1| < k < |c| - 1 ensures c[k] == r2[k - |r1| - 1] {
    }
  }

  lemma TwoStrings(start: bytes, r1: bytes, r2: bytes, c: bytes)
    requires c == r1 + ([0] + (r2 + [0]))
    ensures start + (r1 + [0]) + (r2 + [0]) == start + c
  {
  }

  /** The case of append_one for a regular expression. */
  method AppendRegex(b: Buffer, c: bytes) returns (ok: bool)
    requires b.Valid() && RegexFormed(c)
    modifies b, b.ptr
    ensures b.Valid() && (b.ptr == old(b.ptr) || fresh(b.ptr))
    ensures ok <==> ValidUtf8(CString(c).value) && ValidUtf8(CString(CString(c).rest).value)
    ensures ok ==> b.contents == old(b.contents) + c
  {
    hide ValidUtf8, CString;
    ghost var r1, r2 := CString(c).value, CString(CString(c).rest).value;
    RegexParts(c, r1, r2);
    var i := RegexSplit(c);
    var len := |c| - 1;
    ok := b.WriteString(c[..len - i - 1]);
    if ok {
      ok := b.WriteString(c[len - i..len]);
      TwoStrings(old(b.contents), r1, r2, c);
    }
  }

  /** The case of append_one for a string that holds a special object. */
  method AppendSpecial(b: Buffer, key: bytes, s: bytes) returns (ok: bool)
    requires b.Valid() && Special(s) && StrFormed(s)
    modifies b, b.ptr
    ensures b.Valid() && (b.ptr == old(b.ptr) || fresh(b.ptr))
    ensures ok <==> ValidUtf8(key) && StrAccepted(s)
    ensures ok ==> b.contents == old(b.contents) + Field(key, Str(s))
  {
    hide ValidUtf8, RegexFormed, Dword, Le, FromLe, CString, StrAccepted;
    AcceptedTypes(s);
    var subt, c := s[1], s[2..];
    ok := AppendKey(b, subt, key);
    if !ok { return; }
    ghost var start := b.contents;
    if subt == BSON_BINARY {
      b.WriteBinary(c);
    } else if subt == BSON_OBJECTID && |s| != 2 + 12 {
      return false;
    } else if subt == BSON_OBJECTID || subt == BSON_JSCODE || subt == BSON_DBPOINTER || subt == BSON_SYMBOL || subt == BSON_CODEWS {
      b.Append(c);
    } else if subt == BSON_DATE {
      if |s| != 2 + 4 { return false; }
      SecondsFit(c);
      b.WriteInt64(FromLe(c) * 1000);
    } else if subt == BSON_TIMESTAMP {
      if |s| != 2 + 8 { return false; }
      WordsKept(c);
      b.WriteInt32(FromLe(c[..4]));
      b.WriteInt32(FromLe(c[4..]));
      Appended(start, c[..4], c[4..]);
    } else if subt == BSON_REGEX {
      ok := AppendRegex(b, c);
    } else if subt == BSON_MINKEY || subt == BSON_MAXKEY || subt == BSON_NULL {
      Appended(start, [], []);
    } else {
      return false;
    }
    assert ok ==> b.contents == start + StrPayload(s);
    FieldIs(old(b.contents), key, Str(s));
  }

  /** Which special objects are accepted, type by type. */
  lemma AcceptedTypes(s: bytes)
    requires Special(s) && StrFormed(s)
    ensures s[1] in {5, 10, 12, 13, 14, 15, 127, 255} ==> StrAccepted(s)
    ensures s[1] == BSON_OBJECTID ==> (StrAccepted(s) <==> |s| == 14)
    ensures s[1] == BSON_DATE ==> (StrAccepted(s) <==> |s| == 6)
    ensures s[1] == BSON_TIMESTAMP ==> (StrAccepted(s) <==> |s| == 10)
    ensures s[1] == BSON_REGEX ==> RegexFormed(s[2..])
    ensures s[1] == BSON_REGEX ==>
      (StrAccepted(s) <==> ValidUtf8(CString(s[2..]).value) && ValidUtf8(CString(CString(s[2..]).rest).value))
    ensures s[1] !in {5, 7, 9, 10, 11, 12, 13, 14, 15, 17, 127, 255} ==> !StrAccepted(s)
  {
    hide ValidUtf8, CString;
  }

  lemma SecondsFit(c: bytes)
    requires |c| == 4
    ensures FromLe(c) * 1000 % 0x1_0000_0000_0000_0000 == FromLe(c) * 1000
  {
    LeOfFromLe(c);
    Pow256Values();
    assert FromLe(c) < 0x1_0000_0000;
  }

  lemma WordsKept(c: bytes)
    requires |c| == 8
    ensures Le(FromLe(c[..4]) % 0x1_0000_0000, 4) == c[..4] && Le(FromLe(c[4..]) % 0x1_0000_0000, 4) == c[4..] && c == c[..4] + c[4..]
  {
    hide Le, FromLe;
    WordKept(c[..4]);
    WordKept(c[4..]);
  }

  lemma WordKept(c: bytes)
    requires |c| == 4
    ensures Le(FromLe(c) % 0x1_0000_0000, 4) == c
  {
    hide Le, FromLe;
    Pow256Values();
    LeOfFromLe(c);
  }

  /** A field is its type and key, and then its value. */
  lemma FieldIs(start: bytes, key: bytes, v: Value)
    ensures start + ([TypeOf(v)] + (key + [0])) + Payload(v) == start + Field(key, v)
  {
    hide Payload, TypeOf;
    var t, p := [TypeOf(v)], Payload(v);
    Appended(start, t + (key + [0]), p);
    Appended(t, key + [0], p);
    Appended(key, [0], p);
  }

  /** Where a text and the room for its length lie. */
  lemma TextLies(start: bytes, middle: bytes, s: bytes, now: bytes)
    requires |middle| == |start| + 4 && middle[..|start|] == start && now == middle + (s + [0])
    ensures now[..|start|] == start && now[|start| + 4..] == s + [0]
    ensures !Special(s) ==> StrPayload(s) == Le((|s| + 1) % 0x1_0000_0000, 4) + (s + [0])
  {
    hide Le;
  }

  /** The case of append_one for any other string. */
  method AppendText(b: Buffer, key: bytes, s: bytes) returns (ok: bool)
    requires b.Valid() && !Special(s)
    modifies b, b.ptr
    ensures b.Valid() && (b.ptr == old(b.ptr) || fresh(b.ptr))
    ensures ok <==> ValidUtf8(key) && ValidUtf8(s)
    ensures ok ==> b.contents == old(b.contents) + Field(key, Str(s))
  {
    hide ValidUtf8, Le, StrPayload;
    ok := AppendKey(b, 2, key);
    if !ok { return; }
    ghost var start := b.contents;
    var at := b.ReserveLength();
    ghost var middle := b.contents;
    ok := b.WriteString(s);
    if !ok { return; }
    TextLies(start, middle, s, b.contents);
    b.WriteLength(|s| + 1, at);
    Appended(start, Le((|s| + 1) % 0x1_0000_0000, 4), s + [0]);
    FieldIs(old(b.contents), key, Str(s));
  }

  /** The cases of append_one for numbers and booleans. */
  method AppendPlain(b: Buffer, key: bytes, v: Value) returns (ok: bool)
    requires b.Valid() && WellFormed(v) && (v.Real? || v.Int? || v.Bool?)
    modifies b, b.ptr
    ensures b.Valid() && (b.ptr == old(b.ptr) || fresh(b.ptr))
    ensures ok <==> ValidUtf8(key)
    ensures ok ==> b.contents == old(b.contents) + Field(key, v)
  {
    hide ValidUtf8, Le;
    ok := AppendKey(b, TypeOf(v), key);
    if !ok { return; }
    match v {
      case Real(w) => b.WriteInt64(w);
      case Int(i) =>
        if IsInt32(i) {
          b.WriteInt32(i);
        } else {
          b.WriteInt64(i);
        }
      case Bool(x) => b.Append([if x then 1 else 0]);
    }
    FieldIs(old(b.contents), key, v);
  }

  /** append_one. It fails exactly on what the format cannot hold, and on tables nested too deep. */
  method AppendOne(b: Buffer, key: bytes, v: Value, depth: nat) returns (ok: bool)
    requires b.Valid() && WellFormed(v) && depth <= 128
    modifies b, b.ptr
    ensures b.Valid() && (b.ptr == old(b.ptr) || fresh(b.ptr))
    ensures ok <==> ValidUtf8(key) && Encodes(v, depth)
    ensures ok ==> b.contents == old(b.contents) + Field(key, v)
    decreases v, 3
  {
    hide ValidUtf8, StrAccepted, StrFormed, Field, EntriesHeight;
    match v
    case Str(s) =>
      Texts(s);
      if Special(s) {
        ok := AppendSpecial(b, key, s);
      } else {
        ok := AppendText(b, key, s);
      }
    case Table(arr, es) =>
      TableEncodes(arr, es, depth);
      ok := AppendTable(b, key, arr, es, depth + 1);
    case Unsupported => ok := false;
    case _ => ok := AppendPlain(b, key, v);
  }

  lemma Texts(s: bytes)
    ensures !Special(s) ==> (StrAccepted(s) <==> ValidUtf8(s))
  {
  }

  /** append_table */
  method AppendTable(b: Buffer, key: bytes, arr: bool, es: seq<Entry>, depth: nat) returns (ok: bool)
    requires b.Valid() && WellFormed(Table(arr, es))
    modifies b, b.ptr
    ensures b.Valid() && (b.ptr == old(b.ptr) || fresh(b.ptr))
    ensures ok <==> ValidUtf8(key) && depth <= 128 && forall i :: 0 <= i < |es| ==> EntryEncodes(es[i], depth)
    ensures ok ==> b.contents == old(b.contents) + Field(key, Table(arr, es))
    decreases Table(arr, es), 2
  {
    hide ValidUtf8, WellFormed, EntryEncodes, Wrap, EncEntries, Field;
    if depth > 128 {
      return false;
    }
    ok := AppendKey(b, if arr then 4 else 3, key);
    if ok {
      ok := PackTable(b, arr, es, depth);
      FieldIs(old(b.contents), key, Table(arr, es));
    }
  }

  /** pack_array, pack_simple_dict and their like: the length is filled in when the fields are written.
      In an array the keys are the decimal numbers from 0 on. */
  method PackTable(b: Buffer, arr: bool, es: seq<Entry>, depth: nat) returns (ok: bool)
    requires b.Valid() && WellFormed(Table(arr, es)) && depth <= 128
    modifies b, b.ptr
    ensures b.Valid() && (b.ptr == old(b.ptr) || fresh(b.ptr))
    ensures ok <==> forall i :: 0 <= i < |es| ==> EntryEncodes(es[i], depth)
    ensures ok ==> b.contents == old(b.contents) + Wrap(EncEntries(es))
    decreases Table(arr, es), 1
  {
    hide ValidUtf8, WellFormed, EntryEncodes, Encodes, EncEntries, Field, Decimal, Le, KeyFormed;
    var at := b.ReserveLength();
    ghost var start := b.contents;
    ok := PackEntries(b, arr, es, depth);
    if !ok { return; }
    b.Append([0]);
    Patched(old(b.contents), start, EncEntries(es), at, b.contents);
    b.WriteLength(b.size - at, at);
  }

  /** The loop of pack_array and its like. */
  method PackEntries(b: Buffer, arr: bool, es: seq<Entry>, depth: nat) returns (ok: bool)
    requires b.Valid() && WellFormed(Table(arr, es)) && depth <= 128
    modifies b, b.ptr
    ensures b.Valid() && (b.ptr == old(b.ptr) || fresh(b.ptr))
    ensures ok <==> forall i :: 0 <= i < |es| ==> EntryEncodes(es[i], depth)
    ensures ok ==> b.contents == old(b.contents) + EncEntries(es)
    decreases Table(arr, es), 0
  {
    hide ValidUtf8, WellFormed, EntryEncodes, Encodes, EncEntries, Field, Decimal, Le, KeyFormed;
    ghost var start := b.contents;
    EncLast([]);
    for i := 0 to |es|
      invariant b.Valid() && (b.ptr == old(b.ptr) || fresh(b.ptr))
      invariant b.contents == start + EncEntries(es[..i])
      invariant forall j :: 0 <= j < i ==> EntryEncodes(es[j], depth)
    {
      EntryOf(arr, es, i);
      EncLast(es[..i + 1]);
      assert es[..i + 1][..i] == es[..i];
      var key := if arr then Decimal(i) else es[i].key.s;
      ok := AppendOne(b, key, es[i].value, depth);
      EntryIs(es[i], key, depth);
      if !ok { return; }
    }
    assert es[..|es|] == es;
    ok := true;
  }

  lemma EntryOf(arr: bool, es: seq<Entry>, i: nat)
    requires WellFormed(Table(arr, es)) && i < |es|
    ensures WellFormed(es[i].value) && es[i].value < Table(arr, es)
    ensures arr ==> KeyBytes(es[i].key) == Decimal(i)
    ensures !arr ==> es[i].key.Name? && KeyBytes(es[i].key) == es[i].key.s
  {
    assert EntryFormed(es[i], arr, i);
  }

  lemma EntryIs(e: Entry, key: bytes, depth: nat)
    requires key == KeyBytes(e.key)
    ensures EncEntry(e) == Field(key, e.value)
    ensures EntryEncodes(e, depth) <==> ValidUtf8(key) && Encodes(e.value, depth)
  {
  }

  /** The length replaces the four bytes that were kept for it, and it is the number of bytes written
      since. */
  lemma Patched(before: bytes, start: bytes, body: bytes, at: nat, now: bytes)
    requires at == |before| && |start| == at + 4 && start[..at] == before && now == start + body + [0]
    ensures |now| - at == |body| + 5
    ensures now[..at] + Le((|body| + 5) % 0x1_0000_0000, 4) + now[at + 4..] == before + Wrap(body)
  {
    hide Le;
    assert now[..at] == before && now[at + 4..] == body + [0];
    Appended(before, Le((|body| + 5) % 0x1_0000_0000, 4), body + [0]);
  }

  /** lencode of a table with these entries. */
  method Encode(es: seq<Entry>) returns (r: Result<bytes>)
    requires WellFormed(Table(false, es))
    ensures r.Ok? <==> forall i :: 0 <= i < |es| ==> EntryEncodes(es[i], 0)
    ensures r.Ok? ==> r.value == Wrap(EncEntries(es))
  {
    hide WellFormed, EntryEncodes, EncEntries, Wrap;
    var b := new Buffer();
    var ok := PackTable(b, false, es, 0);
    if !ok { return Fail; }
    r := Ok(b.ptr[..b.size]);
  }

  // ---- decoding

  /** `struct bson_reader`: `size` bytes from `ptr` on, possibly in the middle of a document. */
  class Reader {
    const data: bytes
    var ptr: nat
    var size: nat

    ghost predicate Valid()
      reads this
    {
      ptr + size <= |data|
    }

    ghost function Remaining(): (s: bytes)
      reads this
      requires Valid()
      ensures |s| == size
    {
      data[ptr..ptr + size]
    }

    constructor (d: bytes, p: nat, n: nat)
      requires p + n <= |d|
      ensures Valid() && Remaining() == d[p..p + n] && ptr == p && size == n && data == d
    {
      data, ptr, size := d, p, n;
    }

    /** read_bytes. A negative size, which C reads backwards, is a failure here. */
    method ReadBytes(n: int) returns (r: Result<bytes>)
      requires Valid()
      modifies this
      ensures Valid() && ReadAs(r, Remaining(), DecSized(old(Remaining()), n))
      ensures ptr + size == old(ptr + size)
      ensures r.Ok? ==> n >= 0 && ptr == old(ptr) + n && r.value == data[old(ptr)..ptr]
    {
      if n < 0 || size < n {
        return Fail;
      }
      r := Ok(data[ptr..ptr + n]);
      Shifted(data, ptr, size, n);
      ptr := ptr + n;
      size := size - n;
    }

    /** read_byte */
    method ReadByte() returns (r: Result<byte>)
      requires Valid()
      modifies this
      ensures Valid() && ptr + size == old(ptr + size) && (r.Ok? <==> old(Remaining()) != [])
      ensures r.Ok? ==> r.value == old(Remaining())[0] && Remaining() == old(Remaining())[1..]
    {
      if size < 1 {
        return Fail;
      }
      r := Ok(data[ptr]);
      Shifted(data, ptr, size, 1);
      ptr := ptr + 1;
      size := size - 1;
    }

    /** Four or eight bytes, least significant first. */
    method ReadWord(n: nat) returns (r: Result<nat>)
      requires Valid()
      modifies this
      ensures Valid() && ReadAs(r, Remaining(), DecWord(old(Remaining()), n))
      ensures ptr + size == old(ptr + size)
    {
      hide FromLe;
      var b := ReadBytes(n);
      r := if b.Ok? then Ok(FromLe(b.value)) else Fail;
    }

    method ReadInt32() returns (r: Result<int>)
      requires Valid()
      modifies this
      ensures Valid() && ReadAs(r, Remaining(), DecInt32(old(Remaining())))
      ensures ptr + size == old(ptr + size)
    {
      hide DecWord;
      var n := ReadWord(4);
      r := if n.Ok? then Ok(Signed(n.value, 0x1_0000_0000)) else Fail;
    }

    method ReadInt64() returns (r: Result<int>)
      requires Valid()
      modifies this
      ensures Valid() && ReadAs(r, Remaining(), DecInt64(old(Remaining())))
    {
      hide DecWord;
      var n := ReadWord(8);
      r := if n.Ok? then Ok(Signed(n.value, 0x1_0000_0000_0000_0000)) else Fail;
    }

    /** read_cstring */
    method ReadCString() returns (r: Result<bytes>)
      requires Valid()
      modifies this
      ensures Valid() && ReadAs(r, Remaining(), CString(old(Remaining())))
      ensures ptr + size == old(ptr + size)
    {
      hide CString;
      ghost var s := Remaining();
      var i := 0;
      while true
        invariant i <= size && forall k :: 0 <= k < i ==> s[k] != 0
        decreases size - i
        modifies {}
      {
        if i == size {
          NoNul(s);
          return Fail;
        }
        if data[ptr + i] == 0 {
          break;
        }
        i := i + 1;
      }
      FirstNul(s, i);
      Shifted(data, ptr, size, i);
      Shifted(data, ptr, size, i + 1);
      r := Ok(data[ptr..ptr + i]);
      ptr := ptr + i + 1;
      size := size - (i + 1);
    }

    method ReadText() returns (r: Result<Value>)
      requires Valid()
      modifies this
      ensures Valid() && ReadAs(r, Remaining(), DecText(old(Remaining())))
    {
      hide DecInt32, DecSized;
      var n := ReadInt32();
      if n.Fail? || n.value <= 0 { return Fail; }
      var b := ReadBytes(n.value);
      if b.Fail? { return Fail; }
      SizedLength(old(Remaining()), n.value);
      r := Ok(Str(b.value[..n.value - 1]));
    }

    lemma SizedLength(s: bytes, n: int)
      ensures DecInt32(s).Got? && DecSized(DecInt32(s).rest, n).Got? ==> |DecSized(DecInt32(s).rest, n).value| == n >= 0
    {
    }

    method ReadBinary() returns (r: Result<Value>)
      requires Valid()
      modifies this
      ensures Valid() && ReadAs(r, Remaining(), DecBinary(old(Remaining())))
    {
      hide DecInt32, DecSized;
      var n := ReadInt32();
      if n.Fail? { return Fail; }
      var subtype := ReadByte();
      if subtype.Fail? { return Fail; }
      var b := ReadBytes(n.value);
      if b.Fail? { return Fail; }
      r := Ok(Str([0, 5] + ([subtype.value] + b.value)));
    }

    method ReadRegex() returns (r: Result<Value>)
      requires Valid()
      modifies this
      ensures Valid() && ReadAs(r, Remaining(), DecRegex(old(Remaining())))
    {
      hide CString;
      var r1 := ReadCString();
      if r1.Fail? { return Fail; }
      var r2 := ReadCString();
      if r2.Fail? { return Fail; }
      r := Ok(Str([0, 11] + (r1.value + ([0] + (r2.value + [0])))));
    }

    method ReadFixed(bt: byte, n: nat) returns (r: Result<Value>)
      requires Valid()
      modifies this
      ensures Valid() && ReadAs(r, Remaining(), DecFixed(bt, old(Remaining()), n))
    {
      var b := ReadBytes(n);
      r := if b.Ok? then Ok(Str([0, bt] + b.value)) else Fail;
    }

    method ReadDate() returns (r: Result<Value>)
      requires Valid()
      modifies this
      ensures Valid() && ReadAs(r, Remaining(), DecDate(old(Remaining())))
      ensures r.Ok? <==> DecInt64(old(Remaining())).Got?
      ensures r.Ok? ==> exists s: nat :: r.value == Str([0, 9] + Le(s, 4)) && WholeSeconds(DecInt64(old(Remaining())).value, s)
    {
      hide DecInt64, Seconds, WholeSeconds;
      if DecInt64(Remaining()).Got? { SecondsRead(DecInt64(Remaining()).value); }
      var n := ReadInt64();
      r := if n.Ok? then Ok(Str([0, 9] + Le(Seconds(n.value), 4))) else Fail;
    }

    /** The objects that keep their own length; they are taken with it. */
    method ReadRaw(bt: byte, extra: int) returns (r: Result<Value>)
      requires Valid()
      modifies this
      ensures Valid() && ReadAs(r, Remaining(), DecRaw(bt, old(Remaining()), extra))
    {
      hide DecSized, Signed;
      var start := ptr;
      ghost var s := Remaining();
      var n := ReadInt32();
      if n.Fail? { return Fail; }
      assert data[start..start + 4] == s[..4];
      var b := ReadBytes(n.value + extra);
      r := if b.Ok? then Ok(Str([0, bt] + (data[start..start + 4] + b.value))) else Fail;
    }

    method ReadScalar(bt: byte) returns (r: Result<Value>)
      requires Valid()
      modifies this
      ensures Valid() && ReadAs(r, Remaining(), DecScalar(bt, old(Remaining())))
    {
      hide DecWord, DecText, DecBinary, DecFixed, DecDate, DecRegex, DecInt32, DecInt64, DecRaw;
      if bt == BSON_REAL {
        var n := ReadWord(8);
        r := if n.Ok? then Ok(Real(n.value)) else Fail;
      } else if bt == BSON_BOOLEAN {
        var n := ReadByte();
        r := if n.Ok? then Ok(Bool(n.value != 0)) else Fail;
      } else if bt == BSON_STRING {
        r := ReadText();
      } else if bt == BSON_BINARY {
        r := ReadBinary();
      } else if bt == BSON_OBJECTID {
        r := ReadFixed(7, 12);
      } else if bt == BSON_DATE {
        r := ReadDate();
      } else if bt == BSON_MINKEY || bt == BSON_MAXKEY || bt == BSON_NULL {
        r := ReadFixed(bt, 0);
      } else if bt == BSON_REGEX {
        r := ReadRegex();
      } else if bt == BSON_INT32 {
        var n := ReadInt32();
        r := if n.Ok? then Ok(Int(n.value)) else Fail;
      } else if bt == BSON_TIMESTAMP {
        r := ReadFixed(17, 8);
      } else if bt == BSON_INT64 {
        var n := ReadInt64();
        r := if n.Ok? then Ok(Int(n.value)) else Fail;
      } else if bt == BSON_DBPOINTER {
        r := ReadRaw(bt, 12);
      } else if bt == BSON_JSCODE || bt == BSON_SYMBOL {
        r := ReadRaw(bt, 0);
      } else if bt == BSON_CODEWS {
        r := ReadRaw(bt, -4);
      } else {
        r := Fail;
      }
    }

    method ReadValue(bt: byte) returns (r: Result<Value>)
      requires Valid()
      modifies this
      ensures Valid() && ReadAs(r, Remaining(), DecPayload(bt, old(Remaining())))
      decreases size, 1
    {
      hide DecScalar, DecDoc;
      if bt == BSON_DOCUMENT || bt == BSON_ARRAY {
        r := UnpackDict(bt == BSON_ARRAY);
      } else {
        r := ReadScalar(bt);
      }
    }

    /** The frame of a document: where its fields lie. */
    method ReadFrame() returns (r: Result<(nat, nat)>)
      requires Valid()
      modifies this
      ensures Valid() && (r.Ok? <==> DecFrame(old(Remaining())).Got?)
      ensures r.Ok? ==> r.value.0 + r.value.1 <= |data| && r.value.1 < old(size)
      ensures r.Ok? ==> DecFrame(old(Remaining())) == Got(data[r.value.0..r.value.0 + r.value.1], Remaining())
    {
      hide DecInt32, DecSized;
      var n := ReadInt32();
      if n.Fail? { return Fail; }
      var start := ptr;
      var b := ReadBytes(n.value - 5);
      if b.Fail? { return Fail; }
      var end := ReadByte();
      if end.Fail? || end.value != 0 { return Fail; }
      r := Ok((start, n.value - 5));
    }

    /** unpack_dict: the fields are read by a reader of their own. */
    method UnpackDict(arr: bool) returns (r: Result<Value>)
      requires Valid()
      modifies this
      ensures Valid() && ReadAs(r, Remaining(), DecDoc(old(Remaining()), arr))
      decreases size, 0
    {
      hide DecFrame, DecEntries;
      var f := ReadFrame();
      if f.Fail? { return Fail; }
      var t := new Reader(data, f.value.0, f.value.1);
      var es := t.ReadEntries(arr);
      r := if es.Ok? then Ok(Table(arr, es.value)) else Fail;
    }

    method ReadEntries(arr: bool) returns (r: Result<seq<Entry>>)
      requires Valid()
      modifies this
      ensures Valid()
      ensures match DecEntries(old(Remaining()), arr, []) case Some(es) => r == Ok(es) case None => r == Fail
      decreases size, 2
    {
      hide DecPayload, CString, KeyOf;
      var es := [];
      while true
        invariant Valid() && size <= old(size)
        invariant DecEntries(old(Remaining()), arr, []) == DecEntries(Remaining(), arr, es)
        decreases size
      {
        if size == 0 {
          return Ok(es);
        }
        var bt := ReadByte();
        var key := ReadCString();
        if key.Fail? { return Fail; }
        var v := ReadValue(bt.value);
        if v.Fail? { return Fail; }
        es := es + [Entry(KeyOf(key.value, arr), v.value)];
      }
    }
  }

  lemma Shifted(data: bytes, ptr: nat, size: nat, n: nat)
    requires ptr + size <= |data| && n <= size
    ensures data[ptr..ptr + size][..n] == data[ptr..ptr + n]
    ensures data[ptr..ptr + size][n..] == data[ptr + n..ptr + n + (size - n)]
  {
  }

  lemma {:induction false} NoNul(s: bytes)
    requires NulFree(s)
    ensures CString(s) == Bad
  {
    if s != [] {
      NoNul(s[1..]);
    }
  }

  lemma {:induction false} FirstNul(s: bytes, i: nat)
    requires i < |s| && s[i] == 0 && NulFree(s[..i])
    ensures CString(s) == Got(s[..i], s[i + 1..])
  {
    assert s == s[..i] + ([0] + s[i + 1..]);
    CStringBack(s[..i], s[i + 1..]);
  }

  /** `s` is a date in milliseconds, in whole seconds as a uint32_t. */
  ghost predicate WholeSeconds(millis: int, s: nat) {
    && (0 <= millis < 0x1_0000_0000 * 1000 ==> 1000 * s <= millis < 1000 * s + 1000)
    && (millis < 0 ==> exists q: nat :: 1000 * q <= -millis < 1000 * q + 1000 && s == (-(q as int)) % 0x1_0000_0000)
  }

  lemma SecondsRead(millis: int)
    ensures WholeSeconds(millis, Seconds(millis))
  {
    hide Seconds;
    SecondsAre(millis);
  }

  /** ldecode of a document that is as long as it says. */
  method Decode(doc: bytes) returns (r: Result<Value>)
    requires |doc| >= 4 && Dword(doc, 0) == |doc| <= INT_MAX
    ensures match DecDoc(doc, false) case Got(v, _) => r == Ok(v) case Bad => r == Fail
  {
    hide DecDoc;
    var br := new Reader(doc, 0, Dword(doc, 0));
    assert doc[0..|doc|] == doc;
    r := br.UnpackDict(false);
  }

  /** A document that was encoded and decoded. */
  method RoundTrip(es: seq<Entry>) returns (r: Result<Value>)
    requires WellFormed(Table(false, es)) && |EncEntries(es)| + 5 <= INT_MAX
    ensures r.Ok? <==> forall i :: 0 <= i < |es| ==> EntryEncodes(es[i], 0)
    ensures r.Ok? ==> r.value == Table(false, es)
  {
    hide WellFormed, EntryEncodes, EncEntries, Wrap, Accepted, DecDoc;
    var doc := Encode(es);
    if doc.Fail? { return Fail; }
    AllAccepted(es);
    DocBack(false, es, []);
    Appended(doc.value, [], []);
    OwnLength(EncEntries(es));
    r := Decode(doc.value);
  }

  lemma AllAccepted(es: seq<Entry>)
    requires forall i :: 0 <= i < |es| ==> EntryEncodes(es[i], 0)
    ensures Accepted(Table(false, es))
  {
  }

  /** The length in front of a document is the document's own. */
  lemma OwnLength(body: bytes)
    requires |body| + 5 <= INT_MAX
    ensures |Wrap(body)| == |body| + 5 && Dword(Wrap(body), 0) == |body| + 5
  {
    hide Le, Dword;
    DwordAt([], |body| + 5, body + [0]);
    assert Wrap(body) == [] + Le(|body| + 5, 4) + (body + [0]);
  }
}
