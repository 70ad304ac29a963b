/** Vocabulary shared by the models: the C integer limits, results, and a few facts about
    remainders and sequences. */
module Common {
  const INT_MAX := 0x7FFF_FFFF
  const TWO_32 := 0x1_0000_0000
  const TWO_64 := 0x1_0000_0000_0000_0000

  type byte = b: int | 0 <= b < 256
  type bytes = seq<byte>

  datatype Option<+T> = None | Some(value: T)

  /** `lua_error` and its relatives become Fail. */
  datatype Result<+T> = Ok(value: T) | Fail

  ghost predicate Distinct<T>(s: seq<T>) {
    forall i, j :: 0 <= i < j < |s| ==> s[i] != s[j]
  }

  lemma MulMonotone(d: nat, a: int, b: int)
    ensures a <= b ==> d * a <= d * b
  {
  }

  lemma MulAssociative(a: int, b: int, c: int)
    ensures a * (b * c) == (a * b) * c
  {
  }

  lemma MulDistributes(a: int, b: int, c: int)
    ensures a * (b + c) == a * b + a * c && (b + c) * a == a * b + a * c
  {
  }

  /** Quotient and remainder are unique. */
  lemma ModUnique(n: int, d: nat, q: int, r: nat)
    requires r < d && n == d * q + r
    ensures n / d == q && n % d == r
  {
    var z := n / d - q;
    assert d * z == r - n % d;
    MulMonotone(d, 1, z);
    MulMonotone(d, z, -1);
  }

  /** An index that runs past the end of a ring once. */
  lemma WrapIndex(x: nat, n: nat)
    requires x < 2 * n
    ensures x % n == if x < n then x else x - n
  {
    ModUnique(x, n, if x < n then 0 else 1, if x < n then x else x - n);
  }

  /** (i + x) % n is onto as i runs through 0 .. n - 1. */
  lemma ProbeReaches(x: nat, target: nat, n: nat) returns (i: nat)
    requires target < n
    ensures i < n && (i + x) % n == target
  {
    i := (target - x) % n;
    var q := -((target - x) / n);
    assert i + x == n * q + target;
    ModUnique(i + x, n, q, target);
  }

  predicate IsInt32(k: int)
    ensures IsInt32(k) <==> -0x8000_0000 <= k <= 0x7FFF_FFFF
  {
    -0x8000_0000 <= k < 0x8000_0000
  }

  /** `(int)` applied to a Lua integer */
  function ToInt32(k: int): (r: int)
    ensures -0x8000_0000 <= r < 0x8000_0000 && (r - k) % 0x1_0000_0000 == 0 && (IsInt32(k) ==> r == k)
  {
    (k + 0x8000_0000) % 0x1_0000_0000 - 0x8000_0000
  }

  /** The `k` low bytes of `n`, least significant first. */
  function Le(n: nat, k: nat): (b: bytes)
    ensures |b| == k
  {
    if k == 0 then [] else [n % 256] + Le(n / 256, k - 1)
  }

  function FromLe(b: bytes): nat {
    if b == [] then 0 else b[0] + 256 * FromLe(b[1..])
  }

  function Pow256(k: nat): (p: nat)
    ensures p > 0
  {
    if k == 0 then 1 else 256 * Pow256(k - 1)
  }

  lemma Pow256Values()
    ensures Pow256(1) == 0x100 && Pow256(2) == 0x1_0000 && Pow256(4) == TWO_32 && Pow256(8) == TWO_64
  {
    assert Pow256(4) == 256 * Pow256(3) && Pow256(3) == 256 * Pow256(2);
    assert Pow256(8) == 256 * Pow256(7) && Pow256(7) == 256 * Pow256(6);
    assert Pow256(6) == 256 * Pow256(5) && Pow256(5) == 256 * Pow256(4);
  }

  /** Byte `i` is digit `i` of the number to the base 256, the lowest one first. */
  lemma {:induction false} LeByte(n: nat, k: nat, i: nat)
    requires i < k
    ensures Le(n, k)[i] == n / Pow256(i) % 256
  {
    if i > 0 {
      LeByte(n / 256, k - 1, i - 1);
      DivTwice(n, Pow256(i - 1));
    }
  }

  lemma DivTwice(n: nat, d: nat)
    requires d > 0
    ensures n / 256 / d == n / (256 * d)
  {
    var q, r := n / 256 / d, n / 256 % d;
    assert n / 256 == d * q + r;
    MulAssociative(256, d, q);
    MulMonotone(256, r, d - 1);
    ModUnique(n, 256 * d, q, 256 * r + n % 256);
  }

  /** Reading back the little-endian bytes of a number that fits gives the number. */
  lemma {:induction false} FromLeOfLe(n: nat, k: nat)
    requires n < Pow256(k)
    ensures FromLe(Le(n, k)) == n
  {
    if k > 0 {
      FromLeOfLe(n / 256, k - 1);
      assert Le(n, k)[1..] == Le(n / 256, k - 1);
    }
  }

  lemma {:induction false} LeOfFromLe(b: bytes)
    ensures FromLe(b) < Pow256(|b|) && Le(FromLe(b), |b|) == b
  {
    if b != [] {
      LeOfFromLe(b[1..]);
      var f := FromLe(b[1..]);
      ModUnique(b[0] + 256 * f, 256, f, b[0]);
      assert b == [b[0]] + b[1..];
    }
  }

  /** The four bytes at `i`, least significant first, as the sources spell them out. */
  function Dword(b: bytes, i: nat): (n: nat)
    requires i + 4 <= |b|
    ensures n == FromLe(b[i..i + 4]) < TWO_32
  {
    var d := b[i..i + 4];
    assert FromLe(d) == d[0] + 256 * FromLe(d[1..]);
    assert FromLe(d[1..]) == d[1] + 256 * FromLe(d[2..]) by { assert d[1..][1..] == d[2..]; }
    assert FromLe(d[2..]) == d[2] + 256 * FromLe(d[3..]) by { assert d[2..][1..] == d[3..]; }
    assert FromLe(d[3..]) == d[3];
    b[i] as int + b[i + 1] as int * 0x100 + b[i + 2] as int * 0x1_0000 + b[i + 3] as int * 0x100_0000
  }

  /** Little-endian values concatenate. */
  lemma {:induction false} FromLeConcat(a: bytes, b: bytes)
    ensures FromLe(a + b) == FromLe(a) + Pow256(|a|) * FromLe(b)
  {
    if a == [] {
      assert a + b == b;
    } else {
      assert (a + b)[1..] == a[1..] + b;
      FromLeConcat(a[1..], b);
      MulAssociative(256, Pow256(|a| - 1), FromLe(b));
    }
  }

  /** Reading a double word where one was written. */
  lemma DwordAt(p: bytes, n: nat, q: bytes)
    requires n < TWO_32
    ensures Dword(p + Le(n, 4) + q, |p|) == n
  {
    var b := p + Le(n, 4) + q;
    assert b[|p|..|p| + 4] == Le(n, 4);
    Pow256Values();
    FromLeOfLe(n, 4);
  }

  lemma Appended(a: bytes, b: bytes, c: bytes)
    ensures a + b + c == a + (b + c) && a + [] == a
  {
  }

  function Join(parts: seq<bytes>): bytes {
    if parts == [] then [] else parts[0] + Join(parts[1..])
  }

  lemma {:induction false} JoinConcat(a: seq<bytes>, b: seq<bytes>)
    ensures Join(a + b) == Join(a) + Join(b)
  {
    if a == [] {
      assert a + b == b;
    } else {
      assert (a + b)[1..] == a[1..] + b;
      JoinConcat(a[1..], b);
    }
  }

  lemma JoinCons(part: bytes, parts: seq<bytes>)
    ensures Join([part] + parts) == part + Join(parts)
  {
    assert ([part] + parts)[1..] == parts;
  }

  /** One more part, and no prefix is longer than the whole. */
  lemma JoinStep(parts: seq<bytes>, i: nat)
    requires i < |parts|
    ensures Join(parts[..i + 1]) == Join(parts[..i]) + parts[i]
    ensures |Join(parts[..i + 1])| <= |Join(parts)|
  {
    assert parts[..i + 1] == parts[..i] + [parts[i]];
    JoinConcat(parts[..i], [parts[i]]);
    assert Join([parts[i]]) == parts[i] + Join([]);
    assert parts == parts[..i + 1] + parts[i + 1..];
    JoinConcat(parts[..i + 1], parts[i + 1..]);
  }

  /** memcpy(buff + at, src, |src|), for a buffer that is filled from the front. */
  method CopyInto(buff: array<byte>, at: nat, src: bytes)
    requires at + |src| <= buff.Length
    modifies buff
    ensures buff[..at + |src|] == old(buff[..at]) + src
    ensures buff[at + |src|..] == old(buff[at + |src|..])
  {
    forall j | 0 <= j < |src| {
      buff[at + j] := src[j];
    }
    assert buff[at..at + |src|] == src;
    assert buff[..at + |src|] == buff[..at] + buff[at..at + |src|];
  }
}
