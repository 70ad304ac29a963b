/** The documents of lua-bson.c: what is written for a Lua table, and the reading of any bytes. */
module BsonFormat {
  import opened Common
  import opened Reading
  import opened Utf8

  /** A real is an opaque 64-bit word. Str is a Lua string: a text, or, if a NUL and a type byte lead it,
      one of the special objects. A table lists its entries in the order they are visited; `arr` tells
      whether it is taken for an array. Unsupported stands for nil and all other types. */
  datatype Value = Real(w: nat) | Int(i: int) | Bool(b: bool) | Str(s: bytes) | Table(arr: bool, entries: seq<Entry>) | Unsupported

  datatype Entry = Entry(key: Key, value: Value)

  /** A number key of a table that is no array counts as the string Lua makes of it. */
  datatype Key = Id(i: int) | Name(s: bytes)

  const BSON_REAL := 1
  const BSON_STRING := 2
  const BSON_DOCUMENT := 3
  const BSON_ARRAY := 4
  const BSON_BINARY := 5
  const BSON_OBJECTID := 7
  const BSON_BOOLEAN := 8
  const BSON_DATE := 9
  const BSON_NULL := 10
  const BSON_REGEX := 11
  const BSON_DBPOINTER := 12
  const BSON_JSCODE := 13
  const BSON_SYMBOL := 14
  const BSON_CODEWS := 15
  const BSON_INT32 := 16
  const BSON_TIMESTAMP := 17
  const BSON_INT64 := 18
  const BSON_MINKEY := 255
  const BSON_MAXKEY := 127

  // ---- strings and keys

  predicate Special(s: bytes) { |s| > 1 && s[0] == 0 }

  /** read_cstring: the bytes up to a NUL. */
  function CString(s: bytes): (r: Read<bytes>)
    ensures r.Got? ==> |r.rest| < |s|
  {
    if s == [] then Bad
    else if s[0] == 0 then Got([], s[1..])
    else
      var r := CString(s[1..]);
      if r.Bad? then Bad else Got([s[0]] + r.value, r.rest)
  }

  predicate NulFree(s: bytes) { forall i :: 0 <= i < |s| ==> s[i] != 0 }

  lemma {:induction false} CStringBack(k: bytes, rest: bytes)
    requires NulFree(k)
    ensures CString(k + ([0] + rest)) == Got(k, rest)
  {
    var s := k + ([0] + rest);
    if k == [] {
      assert s == [0] + rest && s[1..] == rest;
    } else {
      assert s[1..] == k[1..] + ([0] + rest);
      CStringBack(k[1..], rest);
      assert [k[0]] + k[1..] == k;
    }
  }

  /** What was read, the NUL and the rest make up the bytes again. */
  lemma {:induction false} CStringSplits(s: bytes)
    requires CString(s).Got?
    ensures NulFree(CString(s).value) && s == CString(s).value + ([0] + CString(s).rest)
  {
    if s[0] != 0 {
      CStringSplits(s[1..]);
      assert s == [s[0]] + s[1..];
    } else {
      assert s == [] + ([0] + s[1..]);
    }
  }

  function Decimal(n: nat): (b: bytes)
    ensures forall i :: 0 <= i < |b| ==> 48 <= b[i] < 58
  {
    if n < 10 then [48 + n] else Decimal(n / 10) + [48 + n % 10]
  }

  /** strtol on digits, from the value of those already read. */
  function StrToL(s: bytes, n: nat): nat {
    if s == [] || !(48 <= s[0] < 58) then n else StrToL(s[1..], 10 * n + (s[0] as int - 48))
  }

  lemma {:induction false} StrToLConcat(a: bytes, b: bytes, n: nat)
    requires forall i :: 0 <= i < |a| ==> 48 <= a[i] < 58
    ensures StrToL(a + b, n) == StrToL(b, StrToL(a, n))
  {
    if a == [] {
      assert a + b == b;
    } else {
      assert (a + b)[1..] == a[1..] + b;
      StrToLConcat(a[1..], b, 10 * n + (a[0] as int - 48));
    }
  }

  lemma {:induction false} StrToLBack(n: nat)
    ensures StrToL(Decimal(n), 0) == n
  {
    if n >= 10 {
      StrToLBack(n / 10);
      StrToLConcat(Decimal(n / 10), [48 + n % 10], 0);
      assert StrToL([48 + n % 10], n / 10) == StrToL([48 + n % 10][1..], 10 * (n / 10) + n % 10);
    }
  }

  function KeyBytes(key: Key): bytes {
    match key
    case Id(i) => if i < 1 then [] else Decimal(i - 1)
    case Name(s) => s
  }

  function KeyOf(s: bytes, arr: bool): Key {
    if arr then Id(ToInt32(StrToL(s, 0) + 1)) else Name(s)
  }

  predicate KeyFormed(key: Key, arr: bool, i: nat) {
    if arr then key == Id(i + 1) else key.Name? && NulFree(key.s)
  }

  lemma KeyBack(key: Key, arr: bool, i: nat, rest: bytes)
    requires KeyFormed(key, arr, i) && i < INT_MAX
    ensures var k := CString(KeyBytes(key) + ([0] + rest)); k == Got(KeyBytes(key), rest) && KeyOf(KeyBytes(key), arr) == key
  {
    CStringBack(KeyBytes(key), rest);
    StrToLBack(i);
  }

  // ---- special objects

  /** The text and the options of a regular expression, each up to its NUL. */
  ghost predicate RegexFormed(c: bytes) {
    CString(c).Got? && CString(CString(c).rest).Got? && CString(CString(c).rest).rest == []
  }

  /** The shapes that the special objects must have; what is not checked by the encoder is demanded of its
      caller. */
  ghost predicate StrFormed(s: bytes) {
    Special(s) ==>
      var c := s[2..];
      && (s[1] == BSON_BINARY ==> |c| >= 1)
      && (s[1] == BSON_DBPOINTER ==> |c| >= 16 && Dword(c, 0) + 16 == |c|)
      && (s[1] == BSON_JSCODE || s[1] == BSON_SYMBOL ==> |c| >= 4 && Dword(c, 0) + 4 == |c|)
      && (s[1] == BSON_CODEWS ==> |c| >= 4 && Dword(c, 0) == |c|)
      && (s[1] == BSON_REGEX ==> RegexFormed(c))
      && (s[1] == BSON_MINKEY || s[1] == BSON_MAXKEY || s[1] == BSON_NULL ==> c == [])
  }

  /** What the encoder accepts. */
  ghost predicate StrAccepted(s: bytes) {
    if !Special(s) then ValidUtf8(s)
    else
      var t: nat := s[1];
      if t == BSON_OBJECTID then |s| == 14
      else if t == BSON_DATE then |s| == 6
      else if t == BSON_TIMESTAMP then |s| == 10
      else if t == BSON_REGEX then
        var r1 := CString(s[2..]);
        r1.Got? && ValidUtf8(r1.value) && CString(r1.rest).Got? && ValidUtf8(CString(r1.rest).value)
      else t in {5, 10, 12, 13, 14, 15, 127, 255}
  }

  function StrType(s: bytes): byte { if Special(s) then s[1] else 2 }

  function StrPayload(s: bytes): bytes {
    if !Special(s) then Le((|s| + 1) % 0x1_0000_0000, 4) + (s + [0])
    else if s[1] == BSON_BINARY then Le((|s| - 3) % 0x1_0000_0000, 4) + s[2..]
    else if s[1] == BSON_DATE then Le(FromLe(s[2..]) * 1000, 8)
    else s[2..]
  }

  // ---- writing

  function TypeOf(v: Value): byte {
    match v
    case Real(w) => 1
    case Int(i) => if IsInt32(i) then 16 else 18
    case Bool(b) => 8
    case Str(s) => StrType(s)
    case Table(arr, es) => if arr then 4 else 3
    case Unsupported => 0
  }

  /** A document around its fields: the length of the whole comes first. */
  function Wrap(body: bytes): bytes {
    Le((|body| + 5) % 0x1_0000_0000, 4) + (body + [0])
  }

  function Payload(v: Value): bytes
    decreases v, 0
  {
    match v
    case Real(w) => Le(w, 8)
    case Int(i) => if IsInt32(i) then Le(i % 0x1_0000_0000, 4) else Le(i % 0x1_0000_0000_0000_0000, 8)
    case Bool(b) => [if b then 1 else 0]
    case Str(s) => StrPayload(s)
    case Table(arr, es) => Wrap(EncEntries(es))
    case Unsupported => []
  }

  /** A field: type, key and value. */
  function Field(key: bytes, v: Value): bytes
    decreases v, 1
  {
    [TypeOf(v)] + (key + ([0] + Payload(v)))
  }

  function EncEntry(e: Entry): bytes
    decreases e
  {
    Field(KeyBytes(e.key), e.value)
  }

  function EncEntries(es: seq<Entry>): bytes
    decreases es
  {
    if es == [] then [] else EncEntries(es[..|es| - 1]) + EncEntry(es[|es| - 1])
  }

  lemma EncLast(es: seq<Entry>)
    ensures EncEntries([]) == []
    ensures es != [] ==> EncEntries(es) == EncEntries(es[..|es| - 1]) + EncEntry(es[|es| - 1])
  {
    hide EncEntry;
  }

  lemma {:induction false} EncCons(es: seq<Entry>)
    requires es != []
    ensures EncEntries(es) == EncEntry(es[0]) + EncEntries(es[1..])
    decreases |es|
  {
    hide EncEntries, EncEntry;
    var n := |es| - 1;
    EncLast(es);
    EncLast(es[1..]);
    if n == 0 {
      assert es[1..] == [] == es[..0];
    } else {
      EncCons(es[..n]);
      assert es[..n][1..] == es[1..][..n - 1] && es[1..][n - 1] == es[n] && es[..n][0] == es[0];
    }
  }

  // ---- which values are encoded

  ghost predicate WellFormed(v: Value)
    decreases v
  {
    match v
    case Real(w) => w < TWO_64
    case Int(i) => -0x8000_0000_0000_0000 <= i < 0x8000_0000_0000_0000
    case Str(s) => StrFormed(s)
    case Table(arr, es) => |es| <= INT_MAX && forall i :: 0 <= i < |es| ==> EntryFormed(es[i], arr, i)
    case _ => true
  }

  ghost predicate EntryFormed(e: Entry, arr: bool, i: nat)
    decreases e
  {
    KeyFormed(e.key, arr, i) && WellFormed(e.value)
  }

  ghost predicate Accepted(v: Value)
    decreases v
  {
    match v
    case Unsupported => false
    case Str(s) => StrAccepted(s)
    case Table(arr, es) => forall i :: 0 <= i < |es| ==> EntryAccepted(es[i])
    case _ => true
  }

  ghost predicate EntryAccepted(e: Entry)
    decreases e
  {
    ValidUtf8(KeyBytes(e.key)) && Accepted(e.value)
  }

  function Max(a: nat, b: nat): nat { if a < b then b else a }

  /** How deep tables are nested; an empty table counts as one. */
  function Height(v: Value): nat
    decreases v
  {
    match v
    case Table(arr, es) => 1 + EntriesHeight(es)
    case _ => 0
  }

  function EntriesHeight(es: seq<Entry>): nat
    decreases es
  {
    if es == [] then 0 else Max(EntriesHeight(es[..|es| - 1]), EntryHeight(es[|es| - 1]))
  }

  function EntryHeight(e: Entry): nat
    decreases e
  {
    Height(e.value)
  }

  /** The encoder takes the value at this depth: valid keys and strings, supported types, and not more
      than 128 levels of tables. */
  ghost predicate Encodes(v: Value, depth: nat) { Accepted(v) && depth + Height(v) <= 128 }

  ghost predicate EntryEncodes(e: Entry, depth: nat) { ValidUtf8(KeyBytes(e.key)) && Encodes(e.value, depth) }

  lemma {:induction false} EntriesHeightBound(es: seq<Entry>, k: nat)
    ensures EntriesHeight(es) <= k <==> forall i :: 0 <= i < |es| ==> EntryHeight(es[i]) <= k
  {
    hide EntryHeight;
    if es != [] {
      var n := |es| - 1;
      EntriesHeightBound(es[..n], k);
      assert forall i :: 0 <= i < n ==> es[..n][i] == es[i];
    }
  }

  /** A table is taken when its entries are, one level down. */
  lemma TableEncodes(arr: bool, es: seq<Entry>, depth: nat)
    ensures Encodes(Table(arr, es), depth) <==>
      depth < 128 && forall i :: 0 <= i < |es| ==> EntryEncodes(es[i], depth + 1)
  {
    var t := Table(arr, es);
    assert Height(t) == 1 + EntriesHeight(es);
    assert Accepted(t) <==> forall i :: 0 <= i < |es| ==> EntryAccepted(es[i]);
    if depth < 128 {
      EntriesHeightBound(es, 127 - depth);
      hide Height, EntriesHeight, ValidUtf8, Accepted;
      assert forall i :: 0 <= i < |es| ==> (EntryEncodes(es[i], depth + 1) <==> EntryAccepted(es[i]) && EntryHeight(es[i]) <= 127 - depth);
    }
  }

  // ---- types and layouts by the numbers of BSON 1.1

  /** Integers, reals and booleans: the type code and the bytes. */
  lemma PlainForms(v: Value)
    ensures v.Real? ==> TypeOf(v) == 1 && Payload(v) == Le(v.w, 8)
    ensures v.Bool? ==> TypeOf(v) == 8 && Payload(v) == [if v.b then 1 else 0]
    ensures v.Int? && 0 <= v.i < 0x8000_0000 ==> TypeOf(v) == 16 && Payload(v) == Le(v.i, 4)
    ensures v.Int? && -0x8000_0000 <= v.i < 0 ==> TypeOf(v) == 16 && Payload(v) == Le(v.i + 0x1_0000_0000, 4)
    ensures v.Int? && 0x8000_0000 <= v.i < 0x8000_0000_0000_0000 ==> TypeOf(v) == 18 && Payload(v) == Le(v.i, 8)
    ensures v.Int? && -0x8000_0000_0000_0000 <= v.i < -0x8000_0000 ==>
      TypeOf(v) == 18 && Payload(v) == Le(v.i + 0x1_0000_0000_0000_0000, 8)
  {
    hide Le;
  }

  /** A text: its length with the NUL, the bytes and the NUL. */
  lemma TextForm(s: bytes)
    requires !(|s| > 1 && s[0] == 0) && |s| + 1 < 0x8000_0000
    ensures TypeOf(Str(s)) == 2 && Payload(Str(s)) == Le(|s| + 1, 4) + (s + [0])
  {
    hide Le, StrPayload;
    PlainText(s);
  }

  lemma PlainText(s: bytes)
    requires !Special(s) && |s| + 1 < 0x8000_0000
    ensures StrPayload(s) == Le(|s| + 1, 4) + (s + [0])
  {
    hide Le, FromLe, Special;
    ShortLength(|s| + 1);
  }

  lemma ShortLength(n: nat)
    requires n < 0x8000_0000
    ensures n % 0x1_0000_0000 == n
  {
  }

  /** A special object: its type is its second byte. A binary gets its length, without the subtype, in
      front, and the seconds of a date become milliseconds; all others are taken over. */
  lemma SpecialForm(s: bytes)
    requires 2 <= |s| < 0x8000_0000 && s[0] == 0
    ensures TypeOf(Str(s)) == s[1]
    ensures s[1] == 5 && |s| >= 3 ==> Payload(Str(s)) == Le(|s| - 3, 4) + s[2..]
    ensures s[1] == 9 ==> Payload(Str(s)) == Le(FromLe(s[2..]) * 1000, 8)
    ensures s[1] != 5 && s[1] != 9 ==> Payload(Str(s)) == s[2..]
  {
    hide Le, FromLe;
  }

  /** A table: the length of the whole in four bytes, the fields and a NUL. A field is a type code, a key, a
      NUL and a value. */
  lemma TableForm(arr: bool, es: seq<Entry>)
    requires |EncEntries(es)| + 5 < 0x8000_0000
    ensures TypeOf(Table(arr, es)) == if arr then 4 else 3
    ensures Payload(Table(arr, es)) == Le(|EncEntries(es)| + 5, 4) + (EncEntries(es) + [0])
    ensures es != [] ==>
      EncEntries(es) == [TypeOf(es[0].value)] + (KeyBytes(es[0].key) + ([0] + Payload(es[0].value))) + EncEntries(es[1..])
    ensures EncEntries([]) == []
  {
    EncLast([]);
    TablePayload(arr, es);
    hide Le, EncEntries, Payload, KeyBytes;
    if es != [] {
      EncCons(es);
      EntryForm(es[0]);
    }
  }

  lemma TablePayload(arr: bool, es: seq<Entry>)
    requires |EncEntries(es)| + 5 < 0x8000_0000
    ensures Payload(Table(arr, es)) == Le(|EncEntries(es)| + 5, 4) + (EncEntries(es) + [0])
  {
    hide Le, EncEntries;
    assert Payload(Table(arr, es)) == Wrap(EncEntries(es));
  }

  lemma EntryForm(e: Entry)
    ensures EncEntry(e) == [TypeOf(e.value)] + (KeyBytes(e.key) + ([0] + Payload(e.value)))
  {
    hide Payload, KeyBytes, TypeOf;
  }

  function Pow10(k: nat): (p: nat)
    ensures p >= 1
  {
    if k == 0 then 1 else 10 * Pow10(k - 1)
  }

  /** The decimal digits of a number, none of them a leading zero. */
  lemma {:induction false} DecimalDigits(n: nat, i: nat)
    requires i < |Decimal(n)|
    ensures Decimal(n)[|Decimal(n)| - 1 - i] == 48 + n / Pow10(i) % 10
  {
    hide Decimal;
    LastDigit(n);
    if i > 0 {
      DecimalDigits(n / 10, i - 1);
      DivTen(n, Pow10(i - 1));
    }
  }

  lemma LastDigit(n: nat)
    ensures Decimal(n) == (if n < 10 then [] else Decimal(n / 10)) + [48 + n % 10]
  {
  }

  lemma DivTen(n: nat, d: nat)
    requires d > 0
    ensures n / 10 / d == n / (10 * d)
  {
    var q, r := n / 10 / d, n / 10 % d;
    assert n / 10 == d * q + r;
    MulAssociative(10, d, q);
    MulMonotone(10, r, d - 1);
    ModUnique(n, 10 * d, q, 10 * r + n % 10);
  }

  lemma {:induction false} DecimalLength(n: nat)
    ensures |Decimal(n)| >= 1 && n < Pow10(|Decimal(n)|)
    ensures n >= 10 ==> n >= Pow10(|Decimal(n)| - 1)
    ensures n < 10 ==> |Decimal(n)| == 1
  {
    hide Decimal;
    LastDigit(n);
    if n >= 10 {
      DecimalLength(n / 10);
    }
  }

  /** The keys of an array are the numbers from 0 on. */
  lemma ArrayKeys(i: nat)
    ensures KeyBytes(Id(i + 1)) == Decimal(i)
    ensures KeyBytes(Id(1)) == [48] && KeyBytes(Id(11)) == [49, 48]
  {
    assert Decimal(10) == Decimal(1) + [48];
  }

  /** Which values can be fields: all but those of unsupported types, with keys and texts in UTF-8. */
  lemma AcceptedKinds(v: Value)
    ensures v.Real? || v.Int? || v.Bool? ==> Accepted(v)
    ensures v == Unsupported ==> !Accepted(v)
    ensures v.Table? ==> (Accepted(v) <==> forall i :: 0 <= i < |v.entries| ==> ValidUtf8(KeyBytes(v.entries[i].key)) && Accepted(v.entries[i].value))
    ensures v.Str? && !(|v.s| > 1 && v.s[0] == 0) ==> (Accepted(v) <==> ValidUtf8(v.s))
  {
    hide ValidUtf8, KeyBytes;
    if v.Table? {
      assert forall i :: 0 <= i < |v.entries| ==>
        (EntryAccepted(v.entries[i]) <==> ValidUtf8(KeyBytes(v.entries[i].key)) && Accepted(v.entries[i].value));
    }
  }

  /** Which special objects can be fields: some have a fixed size, and a type that is not known is refused. */
  lemma SpecialKinds(s: bytes)
    requires |s| >= 2 && s[0] == 0
    ensures s[1] == 7 ==> (Accepted(Str(s)) <==> |s| == 14)
    ensures s[1] == 9 ==> (Accepted(Str(s)) <==> |s| == 6)
    ensures s[1] == 17 ==> (Accepted(Str(s)) <==> |s| == 10)
    ensures s[1] in [5, 10, 12, 13, 14, 15, 127, 255] ==> Accepted(Str(s))
    ensures s[1] !in [5, 7, 9, 10, 11, 12, 13, 14, 15, 17, 127, 255] ==> !Accepted(Str(s))
  {
    hide ValidUtf8, CString, NulFree;
  }

  /** A regular expression: its text and its options must be UTF-8, each up to its NUL. */
  lemma RegexKinds(a: bytes, b: bytes)
    requires NulFree(a) && NulFree(b)
    ensures Accepted(Str([0, 11] + (a + ([0] + (b + [0]))))) <==> ValidUtf8(a) && ValidUtf8(b)
  {
    hide ValidUtf8, CString, NulFree;
    var s := [0, 11] + (a + ([0] + (b + [0])));
    CStringBack(a, b + [0]);
    CStringBack(b, []);
    assert s[2..] == a + ([0] + (b + [0]));
    assert b + [0] == b + ([0] + []);
  }

  /** `n` tables, one in the other. */
  function Nest(n: nat): Value
    requires n > 0
  {
    Table(true, if n == 1 then [] else [Entry(Id(1), Nest(n - 1))])
  }

  /** The depth that is allowed, by its number. */
  lemma {:induction false} NestEncodes(n: nat, depth: nat)
    requires n > 0
    ensures Encodes(Nest(n), depth) <==> depth + n <= 128
    decreases n
  {
    hide ValidUtf8;
    if n == 1 {
      TableEncodes(true, [], depth);
    } else {
      var es := [Entry(Id(1), Nest(n - 1))];
      NestEncodes(n - 1, depth + 1);
      ZeroKey();
      TableEncodes(true, es, depth);
      assert EntryEncodes(es[0], depth + 1) <==> Encodes(Nest(n - 1), depth + 1);
    }
  }

  lemma ZeroKey()
    ensures ValidUtf8(KeyBytes(Id(1)))
  {
    AsciiIsUtf8(KeyBytes(Id(1)));
  }

  // ---- reading

  function DecInt32(s: bytes): (r: Read<int>)
    ensures r.Got? ==> |r.rest| == |s| - 4
  {
    var n := DecWord(s, 4);
    if n.Bad? then Bad else Got(Signed(n.value, 0x1_0000_0000), n.rest)
  }

  function DecInt64(s: bytes): (r: Read<int>)
    ensures r.Got? ==> |r.rest| == |s| - 8
  {
    var n := DecWord(s, 8);
    if n.Bad? then Bad else Got(Signed(n.value, 0x1_0000_0000_0000_0000), n.rest)
  }

  /** A negative length is invalid. */
  function DecSized(s: bytes, n: int): (r: Read<bytes>)
    ensures r.Got? ==> |r.value| == n && |r.rest| == |s| - n
  {
    if n < 0 then Bad else Bytes(s, n)
  }

  /** The uint32_t of the quotient, as C divides. */
  function Seconds(millis: int): nat {
    (if millis >= 0 then millis / 1000 else -((-millis) / 1000)) % 0x1_0000_0000
  }

  /** The whole seconds of a date: rounded down from 1970 on, and counted back from 2^32 before. */
  lemma SecondsAre(millis: int)
    ensures 0 <= millis < 0x1_0000_0000 * 1000 ==> 1000 * Seconds(millis) <= millis < 1000 * Seconds(millis) + 1000
    ensures millis < 0 ==> exists q: nat :: 1000 * q <= -millis < 1000 * q + 1000 && Seconds(millis) == (-(q as int)) % 0x1_0000_0000
    ensures Seconds(millis) < 0x1_0000_0000
  {
    if millis < 0 {
      var q := (-millis) / 1000;
      assert 1000 * q <= -millis < 1000 * q + 1000;
    }
  }

  /** An object that keeps its own length: the length and that many bytes, more or less. */
  function DecRaw(bt: byte, s: bytes, extra: int): (r: Read<Value>)
    ensures r.Got? ==> |r.rest| <= |s|
  {
    var n := DecInt32(s);
    if n.Bad? then Bad
    else
      var b := DecSized(n.rest, n.value + extra);
      if b.Bad? then Bad else Got(Str([0, bt] + (s[..4] + b.value)), b.rest)
  }

  function DecText(s: bytes): (r: Read<Value>)
    ensures r.Got? ==> |r.rest| <= |s|
  {
    var n := DecInt32(s);
    if n.Bad? || n.value <= 0 then Bad
    else
      var b := DecSized(n.rest, n.value);
      if b.Bad? then Bad else Got(Str(b.value[..n.value - 1]), b.rest)
  }

  function DecBinary(s: bytes): (r: Read<Value>)
    ensures r.Got? ==> |r.rest| <= |s|
  {
    var n := DecInt32(s);
    if n.Bad? || n.rest == [] then Bad
    else
      var b := DecSized(n.rest[1..], n.value);
      if b.Bad? then Bad else Got(Str([0, 5] + ([n.rest[0]] + b.value)), b.rest)
  }

  function DecRegex(s: bytes): (r: Read<Value>)
    ensures r.Got? ==> |r.rest| <= |s|
  {
    var r1 := CString(s);
    if r1.Bad? then Bad
    else
      var r2 := CString(r1.rest);
      if r2.Bad? then Bad else Got(Str([0, 11] + (r1.value + ([0] + (r2.value + [0])))), r2.rest)
  }

  /** An object of fixed size. */
  function DecFixed(bt: byte, s: bytes, n: nat): (r: Read<Value>)
    ensures r.Got? ==> |r.rest| <= |s|
  {
    var b := Bytes(s, n);
    if b.Bad? then Bad else Got(Str([0, bt] + b.value), b.rest)
  }

  function DecDate(s: bytes): (r: Read<Value>)
    ensures r.Got? ==> |r.rest| <= |s|
  {
    var n := DecInt64(s);
    if n.Bad? then Bad else Got(Str([0, 9] + Le(Seconds(n.value), 4)), n.rest)
  }

  /** All types but documents and arrays. */
  function DecScalar(bt: byte, s: bytes): (r: Read<Value>)
    ensures r.Got? ==> |r.rest| <= |s|
  {
    if bt == BSON_REAL then (var n := DecWord(s, 8); if n.Bad? then Bad else Got(Real(n.value), n.rest))
    else if bt == BSON_BOOLEAN then (if s == [] then Bad else Got(Bool(s[0] != 0), s[1..]))
    else if bt == BSON_STRING then DecText(s)
    else if bt == BSON_BINARY then DecBinary(s)
    else if bt == BSON_OBJECTID then DecFixed(7, s, 12)
    else if bt == BSON_DATE then DecDate(s)
    else if bt == BSON_MINKEY || bt == BSON_MAXKEY || bt == BSON_NULL then DecFixed(bt, s, 0)
    else if bt == BSON_REGEX then DecRegex(s)
    else if bt == BSON_INT32 then (var n := DecInt32(s); if n.Bad? then Bad else Got(Int(n.value), n.rest))
    else if bt == BSON_TIMESTAMP then DecFixed(17, s, 8)
    else if bt == BSON_INT64 then (var n := DecInt64(s); if n.Bad? then Bad else Got(Int(n.value), n.rest))
    else if bt == BSON_DBPOINTER then DecRaw(bt, s, 12)
    else if bt == BSON_JSCODE || bt == BSON_SYMBOL then DecRaw(bt, s, 0)
    else if bt == BSON_CODEWS then DecRaw(bt, s, -4)
    else Bad
  }

  function DecPayload(bt: byte, s: bytes): (r: Read<Value>)
    ensures r.Got? ==> |r.rest| <= |s|
    decreases |s|, 1
  {
    if bt == BSON_DOCUMENT || bt == BSON_ARRAY then DecDoc(s, bt == BSON_ARRAY) else DecScalar(bt, s)
  }

  /** The length, the bytes of the fields, and the closing NUL. */
  function DecFrame(s: bytes): (r: Read<bytes>)
    ensures r.Got? ==> |r.value| < |s| && |r.rest| < |s|
  {
    var n := DecInt32(s);
    if n.Bad? then Bad
    else
      var b := DecSized(n.rest, n.value - 5);
      if b.Bad? || b.rest == [] || b.rest[0] != 0 then Bad else Got(b.value, b.rest[1..])
  }

  /** unpack_dict */
  function DecDoc(s: bytes, arr: bool): (r: Read<Value>)
    ensures r.Got? ==> |r.rest| < |s|
    decreases |s|, 0
  {
    var f := DecFrame(s);
    if f.Bad? then Bad
    else
      var es := DecEntries(f.value, arr, []);
      if es.None? then Bad else Got(Table(arr, es.value), f.rest)
  }

  /** The fields up to the end, behind those of `done`. */
  function DecEntries(s: bytes, arr: bool, done: seq<Entry>): Option<seq<Entry>>
    decreases |s|, 2
  {
    if s == [] then Some(done)
    else
      var k := CString(s[1..]);
      if k.Bad? then None
      else
        var v := DecPayload(s[0], k.rest);
        if v.Bad? then None else DecEntries(v.rest, arr, done + [Entry(KeyOf(k.value, arr), v.value)])
  }

  /** What the reader makes of a boolean, and what it refuses: a type that is not known, a text without
      room for its NUL, and a document without a NUL at its end. */
  lemma Refuses(bt: byte, s: bytes)
    ensures bt == 8 ==> DecPayload(bt, s) == if s == [] then Bad else Got(Bool(s[0] != 0), s[1..])
    ensures bt !in [1, 2, 3, 4, 5, 7, 8, 9, 10, 11, 12, 13, 14, 15, 16, 17, 18, 127, 255] ==> DecPayload(bt, s) == Bad
    ensures bt == 2 && (|s| < 4 || FromLe(s[..4]) == 0 || FromLe(s[..4]) >= 0x8000_0000) ==> DecPayload(bt, s) == Bad
    ensures bt in [3, 4] && (|s| < 4 || FromLe(s[..4]) < 5 || FromLe(s[..4]) > |s| || s[FromLe(s[..4]) - 1] != 0) ==>
      DecPayload(bt, s) == Bad
  {
    hide DecFrame, DecText, DecEntries, DecBinary, DecRegex, DecRaw, DecFixed, DecDate;
    if bt == 2 && (|s| < 4 || FromLe(s[..4]) == 0 || FromLe(s[..4]) >= 0x8000_0000) {
      TextRefused(s);
    }
    if bt in [3, 4] && (|s| < 4 || FromLe(s[..4]) < 5 || FromLe(s[..4]) > |s| || s[FromLe(s[..4]) - 1] != 0) {
      FrameRefused(s);
      assert DecDoc(s, bt == 4) == Bad;
    }
  }

  lemma TextRefused(s: bytes)
    requires |s| < 4 || FromLe(s[..4]) == 0 || FromLe(s[..4]) >= 0x8000_0000
    ensures DecText(s) == Bad
  {
    hide FromLe;
    if |s| >= 4 {
      Pow256Values();
      LeOfFromLe(s[..4]);
    }
  }

  lemma FrameRefused(s: bytes)
    requires |s| < 4 || FromLe(s[..4]) < 5 || FromLe(s[..4]) > |s| || s[FromLe(s[..4]) - 1] != 0
    ensures DecFrame(s) == Bad
  {
    hide FromLe;
    if |s| >= 4 {
      Pow256Values();
      LeOfFromLe(s[..4]);
    }
  }

  // ---- reading undoes writing

  lemma Int32Back(n: int, rest: bytes)
    requires IsInt32(n)
    ensures DecInt32(Le(n % 0x1_0000_0000, 4) + rest) == Got(n, rest)
  {
    hide Le, FromLe;
    Pow256Values();
    SignedBack(n);
    WordBack(n % 0x1_0000_0000, 4, rest);
  }

  lemma Int64Back(n: int, rest: bytes)
    requires -0x8000_0000_0000_0000 <= n < 0x8000_0000_0000_0000
    ensures DecInt64(Le(n % 0x1_0000_0000_0000_0000, 8) + rest) == Got(n, rest)
  {
    hide Le, FromLe;
    Pow256Values();
    SignedBack(n);
    WordBack(n % 0x1_0000_0000_0000_0000, 8, rest);
  }

  lemma SizedBack(b: bytes, rest: bytes)
    ensures DecSized(b + rest, |b|) == Got(b, rest)
  {
    BytesBack(b, rest);
  }

  lemma TextBack(s: bytes, rest: bytes)
    requires |s| < INT_MAX
    ensures DecText(Le((|s| + 1) % 0x1_0000_0000, 4) + (s + [0]) + rest) == Got(Str(s), rest)
  {
    hide Le, DecInt32, DecSized, DecText;
    var n, t := |s| + 1, s + [0];
    var head := Le(n % 0x1_0000_0000, 4);
    Int32Back(n, t + rest);
    SizedBack(t, rest);
    Appended(head, t, rest);
    TextOf(head + t + rest, n, t, rest);
    assert t[..n - 1] == s;
  }

  lemma TextOf(s: bytes, n: nat, t: bytes, rest: bytes)
    requires n == |t| > 0 && DecInt32(s) == Got(n, t + rest) && DecSized(t + rest, n) == Got(t, rest)
    ensures DecText(s) == Got(Str(t[..n - 1]), rest)
  {
    hide DecInt32, DecSized;
  }

  lemma BinaryBack(c: bytes, rest: bytes)
    requires 1 <= |c| <= INT_MAX
    ensures DecBinary(Le((|c| - 1) % 0x1_0000_0000, 4) + c + rest) == Got(Str([0, 5] + c), rest)
  {
    hide DecInt32, DecBinary, Le;
    Int32Back(|c| - 1, c + rest);
    BinaryOf(Le((|c| - 1) % 0x1_0000_0000, 4), c, rest);
  }

  lemma BinaryOf(head: bytes, c: bytes, rest: bytes)
    requires |c| >= 1 && DecInt32(head + (c + rest)) == Got(|c| - 1, c + rest)
    ensures DecBinary(head + c + rest) == Got(Str([0, 5] + c), rest)
  {
    hide DecInt32, DecSized;
    Appended(head, c, rest);
    var x := c + rest;
    assert x[1..] == c[1..] + rest && x[0] == c[0];
    SizedBack(c[1..], rest);
    assert [c[0]] + c[1..] == c;
  }

  lemma RawBack(bt: byte, c: bytes, extra: int, rest: bytes)
    requires |c| <= INT_MAX && |c| >= 4 && Dword(c, 0) + extra + 4 == |c| && -4 <= extra <= 12
    ensures DecRaw(bt, c + rest, extra) == Got(Str([0, bt] + c), rest)
  {
    hide Le, FromLe, Dword;
    var s, n := c + rest, Dword(c, 0);
    assert s[..4] == c[..4] == c[0..4] && s[4..] == c[4..] + rest;
    assert DecInt32(s) == Got(Signed(n, 0x1_0000_0000), s[4..]);
    assert Signed(n, 0x1_0000_0000) == n || extra == 0 || extra == 12 || extra == -4;
    SizedBack(c[4..], rest);
    assert c == c[..4] + c[4..];
  }

  lemma RegexBack(c: bytes, rest: bytes)
    requires RegexFormed(c)
    ensures DecRegex(c + rest) == Got(Str([0, 11] + c), rest)
  {
    hide CString, NulFree, DecRegex;
    var r1 := CString(c);
    var r2 := CString(r1.rest);
    var last := r2.value + ([0] + []);
    CStringSplits(c);
    CStringSplits(r1.rest);
    CStringBack(r1.value, last + rest);
    CStringBack(r2.value, rest);
    assert c == r1.value + ([0] + last);
    assert c + rest == r1.value + ([0] + (last + rest));
    assert last + rest == r2.value + ([0] + rest);
    RegexOf(c + rest, r1.value, last + rest, r2.value, rest);
    assert last == r2.value + [0];
  }

  lemma RegexOf(s: bytes, r1: bytes, x: bytes, r2: bytes, rest: bytes)
    requires CString(s) == Got(r1, x) && CString(x) == Got(r2, rest)
    ensures DecRegex(s) == Got(Str([0, 11] + (r1 + ([0] + (r2 + [0])))), rest)
  {
    hide CString;
  }

  lemma FixedBack(bt: byte, c: bytes, rest: bytes)
    ensures DecFixed(bt, c + rest, |c|) == Got(Str([0, bt] + c), rest)
  {
    BytesBack(c, rest);
  }

  lemma DateBack(c: bytes, rest: bytes)
    requires |c| == 4
    ensures DecDate(Le(FromLe(c) * 1000, 8) + rest) == Got(Str([0, 9] + c), rest)
  {
    hide Le, FromLe, DecInt64;
    LeOfFromLe(c);
    Pow256Values();
    var n := FromLe(c);
    assert n < 0x1_0000_0000;
    Int64Back(n * 1000, rest);
    assert (n * 1000) % 0x1_0000_0000_0000_0000 == n * 1000;
    assert Seconds(n * 1000) == n;
  }

  lemma {:induction false} StrBack(s: bytes, rest: bytes)
    requires StrFormed(s) && StrAccepted(s) && |StrPayload(s)| <= INT_MAX
    ensures StrType(s) != 3 && StrType(s) != 4 && DecScalar(StrType(s), StrPayload(s) + rest) == Got(Str(s), rest)
  {
    hide DecText, DecBinary, DecRaw, DecRegex, DecFixed, DecDate, DecInt32, DecInt64, Le, FromLe, ValidUtf8, CString, RegexFormed, Dword;
    if !Special(s) {
      TextBack(s, rest);
    } else {
      var c := s[2..];
      assert s == [0, s[1]] + c;
      if s[1] == BSON_BINARY { BinaryBack(c, rest); }
      else if s[1] == BSON_DATE { DateBack(c, rest); }
      else if s[1] == BSON_DBPOINTER { RawBack(s[1], c, 12, rest); }
      else if s[1] == BSON_JSCODE || s[1] == BSON_SYMBOL { RawBack(s[1], c, 0, rest); }
      else if s[1] == BSON_CODEWS { RawBack(s[1], c, -4, rest); }
      else if s[1] == BSON_REGEX { RegexBack(c, rest); }
      else { FixedBack(s[1], c, rest); }
    }
  }

  /** The objects that lead with a length: how many bytes there are behind it, by type. A binary has its subtype
      in between. */
  lemma ReadSized(n: nat, body: bytes, rest: bytes)
    requires |body| + 4 <= INT_MAX
    ensures var (c, s) := (Le(n, 4) + body, Le(n, 4) + body + rest);
      && (n <= INT_MAX && |body| == n + 12 ==> DecPayload(12, s) == Got(Str([0, 12] + c), rest))
      && (n <= INT_MAX && |body| == n ==> DecPayload(13, s) == Got(Str([0, 13] + c), rest) && DecPayload(14, s) == Got(Str([0, 14] + c), rest))
      && (n <= INT_MAX && |body| + 4 == n ==> DecPayload(15, s) == Got(Str([0, 15] + c), rest))
      && (n <= INT_MAX && |body| == n + 1 ==> DecPayload(5, s) == Got(Str([0, 5] + body), rest))
  {
    hide Le, FromLe, DecRaw, DecBinary, Dword, DecText, DecRegex, DecFixed, DecDate, DecDoc;
    var c := Le(n, 4) + body;
    if n <= INT_MAX {
      assert c == [] + Le(n, 4) + body;
      DwordAt([], n, body);
      if |body| == n + 12 { RawBack(12, c, 12, rest); }
      if |body| == n { RawBack(13, c, 0, rest); RawBack(14, c, 0, rest); }
      if |body| + 4 == n { RawBack(15, c, -4, rest); }
      if |body| == n + 1 { BinaryBack(body, rest); }
    }
  }

  /** The objects of a fixed size, by type. */
  lemma ReadFixed(c: bytes, rest: bytes)
    ensures |c| == 12 ==> DecPayload(7, c + rest) == Got(Str([0, 7] + c), rest)
    ensures |c| == 8 ==> DecPayload(17, c + rest) == Got(Str([0, 17] + c), rest)
    ensures DecPayload(10, rest) == Got(Str([0, 10]), rest)
    ensures DecPayload(127, rest) == Got(Str([0, 127]), rest) && DecPayload(255, rest) == Got(Str([0, 255]), rest)
  {
    hide DecRaw, DecBinary, DecText, DecRegex, DecFixed, DecDate, DecDoc;
    assert [] + rest == rest && [0, 10] + [] == [0, 10] && [0, 127] + [] == [0, 127] && [0, 255] + [] == [0, 255];
    FixedBack(10, [], rest);
    FixedBack(127, [], rest);
    FixedBack(255, [], rest);
    if |c| == 12 { FixedBack(7, c, rest); }
    if |c| == 8 { FixedBack(17, c, rest); }
  }

  lemma FrameBack(body: bytes, rest: bytes)
    requires |body| + 5 <= INT_MAX
    ensures DecFrame(Wrap(body) + rest) == Got(body, rest)
  {
    hide Le, DecInt32, DecSized;
    var n := |body| + 5;
    var tail := [0] + rest;
    Int32Back(n, body + tail);
    SizedBack(body, tail);
    assert Wrap(body) + rest == Le(n % 0x1_0000_0000, 4) + (body + tail);
    assert tail[1..] == rest;
  }

  /** Decoding what was encoded gives the value back and consumes exactly its bytes. */
  lemma {:induction false} PayloadBack(v: Value, rest: bytes)
    requires WellFormed(v) && Accepted(v) && |Payload(v)| <= INT_MAX
    ensures DecPayload(TypeOf(v), Payload(v) + rest) == Got(v, rest)
    decreases v, 1
  {
    hide DecDoc, StrType, StrPayload, StrAccepted, StrFormed, Le, FromLe, DecInt32, DecInt64, DecText, DecBinary, DecRaw, DecRegex, DecFixed, DecDate;
    match v
    case Real(w) =>
      Pow256Values();
      WordBack(w, 8, rest);
    case Int(i) => if IsInt32(i) { Int32Back(i, rest); } else { Int64Back(i, rest); }
    case Bool(b) => assert (Payload(v) + rest)[1..] == rest;
    case Str(s) => StrBack(s, rest);
    case Table(arr, es) => DocBack(arr, es, rest);
  }

  lemma TableParts(arr: bool, es: seq<Entry>)
    requires WellFormed(Table(arr, es)) && Accepted(Table(arr, es))
    ensures |es| <= INT_MAX && forall i :: 0 <= i < |es| ==> es[i] < Table(arr, es) && EntryFormed(es[i], arr, i) && EntryAccepted(es[i])
  {
  }

  lemma {:induction false} DocBack(arr: bool, es: seq<Entry>, rest: bytes)
    requires WellFormed(Table(arr, es)) && Accepted(Table(arr, es)) && |EncEntries(es)| + 5 <= INT_MAX
    ensures DecDoc(Wrap(EncEntries(es)) + rest, arr) == Got(Table(arr, es), rest)
    decreases Table(arr, es), 0
  {
    hide WellFormed, Accepted, DecFrame, Wrap, DecEntries, EncEntries;
    TableParts(arr, es);
    FrameBack(EncEntries(es), rest);
    EntriesBack(Table(arr, es), es, arr, []);
    assert [] + es == es;
  }

  lemma {:induction false} EntriesBack(whole: Value, es: seq<Entry>, arr: bool, done: seq<Entry>)
    requires |done| + |es| <= INT_MAX && |EncEntries(es)| <= INT_MAX
    requires forall i :: 0 <= i < |es| ==> es[i] < whole && EntryFormed(es[i], arr, |done| + i) && EntryAccepted(es[i])
    ensures DecEntries(EncEntries(es), arr, done) == Some(done + es)
    decreases whole, 0, |es|
  {
    hide WellFormed, Accepted, EncEntries, DecPayload, Payload, CString, KeyOf, KeyBytes, TypeOf, KeyFormed, ValidUtf8;
    EncLast([]);
    if es == [] {
      assert done + es == done;
    } else {
      EncCons(es);
      var e, tail := es[0], EncEntries(es[1..]);
      var k, p := KeyBytes(e.key), Payload(e.value);
      var s := EncEntries(es);
      assert s == [TypeOf(e.value)] + (k + ([0] + (p + tail)));
      assert s[1..] == k + ([0] + (p + tail));
      KeyBack(e.key, arr, |done|, p + tail);
      PayloadBack(e.value, tail);
      EntriesBack(whole, es[1..], arr, done + [e]);
      assert done + [e] + es[1..] == done + es;
    }
  }
}
