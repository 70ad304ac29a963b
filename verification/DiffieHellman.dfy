/** The 64-bit Diffie-Hellman exchange of lua-crypt.c: multiplication and exponentiation modulo the
    largest 64-bit prime in uint64 arithmetic that wraps around. */
module DiffieHellman {
  import opened Common

  const P := 0xffff_ffff_ffff_ffc5
  const G := 5

  type uint64 = x: int | 0 <= x < TWO_64

  /** A uint64 result: the value modulo 2^64. */
  function Wrap(x: int): uint64 { x % 0x1_0000_0000_0000_0000 }

  function ModP(x: int): (r: nat)
    ensures r < P
  {
    x % 0xffff_ffff_ffff_ffc5
  }

  function Power(a: int, e: nat): int {
    if e == 0 then 1 else a * Power(a, e - 1)
  }

  lemma {:induction false} PowerSum(a: int, m: nat, n: nat)
    ensures Power(a, m + n) == Power(a, m) * Power(a, n)
  {
    if m > 0 {
      PowerSum(a, m - 1, n);
      var x, y := Power(a, m - 1), Power(a, n);
      assert a * (x * y) == (a * x) * y;
    }
  }

  lemma {:induction false} PowerProduct(a: int, m: nat, n: nat)
    ensures Power(a, m * n) == Power(Power(a, m), n)
  {
    if n > 0 {
      PowerProduct(a, m, n - 1);
      assert m * n == m + m * (n - 1);
      PowerSum(a, m, m * (n - 1));
    } else {
      assert m * n == 0;
    }
  }

  /** Reducing the factors does not change the residue of a product. */
  lemma ResidueOfProduct(x: int, y: int)
    ensures ModP(x * y) == ModP(ModP(x) * ModP(y))
  {
    var qx, rx, qy, ry := (x - ModP(x)) / P, ModP(x), (y - ModP(y)) / P, ModP(y);
    assert x == P * qx + rx && y == P * qy + ry;
    MulDistributes(y, P * qx, rx);
    MulDistributes(rx, P * qy, ry);
    MulAssociative(P, qx, y);
    MulAssociative(P, rx, qy);
    assert rx * (P * qy) == P * (rx * qy);
    SameResidue(x * y, qx * y + rx * qy, rx * ry);
  }

  lemma SameResidue(n: int, q: int, r: int)
    requires n == P * q + r
    ensures ModP(n) == ModP(r)
  {
  }

  lemma CongruentProduct(x: int, x': int, y: int, y': int)
    requires ModP(x) == ModP(x') && ModP(y) == ModP(y')
    ensures ModP(x * y) == ModP(x' * y')
  {
    ResidueOfProduct(x, y);
    ResidueOfProduct(x', y');
  }

  lemma {:induction false} ResidueOfPower(a: int, e: nat)
    ensures ModP(Power(a, e)) == ModP(Power(ModP(a), e))
  {
    if e > 0 {
      ResidueOfPower(a, e - 1);
      CongruentProduct(a, ModP(a), Power(a, e - 1), Power(ModP(a), e - 1));
    }
  }

  /** The product in the loop's variables: `k` multiples of P have been taken out. */
  ghost function Total(m: int, a: int, b: int, k: int): int { m + a * b + k * P }

  /** One bit of the double-and-add loop: `m` gathers the addends, `a` doubles, and the product is
      preserved up to multiples of P. */
  lemma MulStep(m: int, a: int, b: nat, k: int, m': int, a': int, u: bool, w: bool)
    requires m' == m + (if b % 2 == 1 then a else 0) - (if u then P else 0)
    requires a' == 2 * a - (if w then P else 0)
    ensures Total(m, a, b, k) == Total(m', a', b / 2, Carried(k, b, u, w))
  {
    var h := b / 2;
    if b % 2 == 1 {
      assert a * (2 * h + 1) == 2 * (a * h) + a;
    } else {
      assert a * (2 * h) == 2 * (a * h);
    }
    if w {
      assert (2 * a - P) * h == 2 * (a * h) - P * h;
    } else {
      assert (2 * a) * h == 2 * (a * h);
    }
  }

  lemma MulDone(m: nat, a: int, a0: int, b0: int, k: int)
    requires m < P && Total(m, a, 0, k) == Total(0, a0, b0, 0)
    ensures m == ModP(a0 * b0)
  {
    assert a * 0 == 0;
    SameResidue(a0 * b0, k, m);
  }

  ghost function Carried(k: int, b: nat, u: bool, w: bool): int {
    k + (if u then 1 else 0) + (if w then b / 2 else 0)
  }

  /** The wrapped differences and doublings of the loop never lose a carry. */
  lemma NoCarryLost(m: nat, a: nat)
    requires m < P && a <= P
    ensures Wrap(P - a) == P - a
    ensures if m >= P - a then Wrap(m - (P - a)) == m + a - P else Wrap(m + a) == m + a
    ensures if a >= P - a then Wrap(Wrap(a * 2) - P) == 2 * a - P else Wrap(a * 2) == 2 * a
  {
  }

  /** `a * b mod P` for every b, although a * 2 and a * 2 - P wrap around in 64 bits. */
  method MulModP(a0: uint64, b0: uint64) returns (m: uint64)
    requires a0 <= P
    ensures m == ModP(a0 * b0)
  {
    var a: uint64, b: uint64 := a0, b0;
    m := 0;
    ghost var k := 0;
    while b != 0
      invariant m < P && a <= P
      invariant Total(m, a, b, k) == Total(0, a0, b0, 0)
      decreases b
    {
      ghost var m0, a1, u, w := m, a, false, false;
      NoCarryLost(m, a);
      if b % 2 == 1 {
        var t := Wrap(P - a);
        if m >= t {
          m := Wrap(m - t);
          u := true;
        } else {
          m := Wrap(m + a);
        }
      }
      if a >= Wrap(P - a) {
        a := Wrap(Wrap(a * 2) - P);
        w := true;
      } else {
        a := Wrap(a * 2);
      }
      MulStep(m0, a1, b, k, m, a, u, w);
      k := Carried(k, b, u, w);
      b := b / 2;
    }
    MulDone(m, a, a0, b0, k);
  }

  lemma PowerOne(a: int)
    ensures Power(a, 1) == a
  {
    assert Power(a, 1) == a * Power(a, 0);
  }

  lemma PowSquare(a: int, h: nat, t: int)
    requires ModP(t) == ModP(Power(a, h))
    ensures ModP(t * t) == ModP(Power(a, h * 2))
  {
    CongruentProduct(t, Power(a, h), t, Power(a, h));
    PowerSum(a, h, h);
  }

  lemma PowTimes(a: int, e: nat, t: int)
    requires ModP(t) == ModP(Power(a, e))
    ensures ModP(t * a) == ModP(Power(a, e + 1))
  {
    CongruentProduct(t, Power(a, e), a, a);
  }

  lemma Reduced(x: int)
    ensures ModP(ModP(x)) == ModP(x)
  {
  }

  lemma Partial(a: int, e: nat, t: int)
    requires t == if e == 1 then a else ModP(Power(a, e))
    ensures ModP(t) == ModP(Power(a, e))
  {
    PowerOne(a);
    Reduced(Power(a, e));
  }

  /** The recursion of pow_mod_p bottoms out at exponent 1, where the base is returned as it is. */
  method PowModP(a: uint64, b: uint64) returns (t: uint64)
    requires a <= P
    requires b >= 1     // exponent 0 would recurse forever; both callers reject it
    ensures t == if b == 1 then a else ModP(Power(a, b))
    decreases b
  {
    hide Power, ModP;
    if b == 1 {
      return a;
    }
    t := PowModP(a, b / 2);
    Partial(a, b / 2, t);
    PowSquare(a, b / 2, t);
    t := MulModP(t, t);
    Reduced(Power(a, b / 2 * 2));
    PowTimes(a, b / 2 * 2, t);
    if b % 2 != 0 {
      t := MulModP(t, a);
    }
  }

  /** What powmodp returns: the base P itself slips past `a > P` and comes back unreduced when the
      exponent is 1. */
  function PowModSpec(a: uint64, b: uint64): uint64 {
    if a == P && b == 1 then P else ModP(Power(a, b))
  }

  /** powmodp is modular exponentiation exactly when it is not asked for P to the power 1. */
  method PowMod(a: uint64, b: uint64) returns (r: uint64)
    requires b >= 1
    ensures r == PowModSpec(a, b)
    ensures r == ModP(Power(a, b)) <==> !(a == P && b == 1)
  {
    PowerOne(a);
    PowerOne(ModP(a));
    ResidueOfPower(a, b);
    if a > P {
      r := PowModP(ModP(a), b);
    } else {
      r := PowModP(a, b);
    }
  }

  /** The 8-byte little-endian strings of the Lua interface. */
  function Push64(r: uint64): bytes { Le(r, 8) }

  method Read64(x: bytes) returns (r: Result<uint64>)
    ensures r == if |x| == 8 then (LeOfFromLe(x); Pow256Values(); Ok(FromLe(x))) else Fail
  {
    if |x| != 8 {
      return Fail;
    }
    LeOfFromLe(x);
    Pow256Values();
    var lo, hi := Dword(x, 0), Dword(x, 4);
    assert x == x[0..4] + x[4..8];
    FromLeConcat(x[0..4], x[4..8]);
    return Ok(lo + hi * TWO_32);
  }

  /** Specification of ldhexchange on the private key string. */
  function ExchangeSpec(x: bytes): Result<bytes> {
    if |x| != 8 then Fail else
      LeOfFromLe(x); Pow256Values();
      var n := FromLe(x);
      if n == 0 then Fail else Ok(Push64(PowModSpec(G, n)))
  }

  /** Specification of ldhsecret on the peer's public string and the private key string. */
  function SecretSpec(x: bytes, y: bytes): Result<bytes> {
    if |x| != 8 || |y| != 8 then Fail else
      LeOfFromLe(x); LeOfFromLe(y); Pow256Values();
      var (xx, yy) := (FromLe(x), FromLe(y));
      if xx == 0 || yy == 0 then Fail else Ok(Push64(PowModSpec(xx, yy)))
  }

  /** ldhexchange: 5 to the private key, modulo 2^64 - 59. */
  method Exchange(x: bytes) returns (r: Result<bytes>)
    ensures r == ExchangeSpec(x)
    ensures r == if |x| == 8 && FromLe(x) != 0 then Ok(Le(Power(5, FromLe(x)) % 0xffff_ffff_ffff_ffc5, 8)) else Fail
  {
    var xx := Read64(x);
    if xx.Fail? || xx.value == 0 {
      return Fail;
    }
    var v := PowMod(G, xx.value);
    return Ok(Push64(v));
  }

  /** ldhsecret: the peer's public number to the private key, modulo 2^64 - 59, but for the modulus itself
      to the power 1. */
  method Secret(x: bytes, y: bytes) returns (r: Result<bytes>)
    ensures r == SecretSpec(x, y)
    ensures r.Ok? <==> |x| == |y| == 8 && FromLe(x) != 0 && FromLe(y) != 0
    ensures r.Ok? && !(FromLe(x) == 0xffff_ffff_ffff_ffc5 && FromLe(y) == 1) ==>
      r == Ok(Le(Power(FromLe(x), FromLe(y)) % 0xffff_ffff_ffff_ffc5, 8))
    ensures r.Ok? && FromLe(x) == 0xffff_ffff_ffff_ffc5 && FromLe(y) == 1 ==> r == Ok(Le(0xffff_ffff_ffff_ffc5, 8))
  {
    var xx := Read64(x);
    var yy := Read64(y);
    if xx.Fail? || yy.Fail? || xx.value == 0 || yy.value == 0 {
      return Fail;
    }
    var v := PowMod(xx.value, yy.value);
    return Ok(Push64(v));
  }

  /** No power of the generator is 0 modulo P: 5 has an inverse. So a public value is never the 0
      that the secret step rejects. */
  lemma {:induction false} GeneratorPower(n: nat)
    ensures 0 < ModP(Power(G, n)) < P
  {
    if n > 0 {
      GeneratorPower(n - 1);
      TimesFive(Power(G, n - 1));
    }
  }

  lemma TimesFive(x: int)
    requires ModP(x) != 0
    ensures ModP(5 * x) != 0
  {
  }

  /** The secret the two parties aim for. */
  ghost function Shared(m: nat, n: nat): uint64 { ModP(Power(G, m * n)) }

  /** Both sides derive the same secret, for every pair of non-zero private keys. */
  lemma Agreement(x: bytes, y: bytes)
    requires |x| == |y| == 8 && FromLe(x) != 0 && FromLe(y) != 0
    ensures ExchangeSpec(x).Ok? && ExchangeSpec(y).Ok?
    ensures SecretSpec(ExchangeSpec(x).value, y) == SecretSpec(ExchangeSpec(y).value, x)
    ensures SecretSpec(ExchangeSpec(x).value, y) == Ok(Push64(Shared(FromLe(x), FromLe(y))))
  {
    Derived(x, y);
    Derived(y, x);
    SharedSymmetric(FromLe(x), FromLe(y));
  }

  lemma SharedSymmetric(m: nat, n: nat)
    ensures Shared(m, n) == Shared(n, m)
  {
    assert m * n == n * m;
  }

  lemma SharedPower(m: nat, n: nat)
    ensures ModP(Power(ModP(Power(G, m)), n)) == Shared(m, n)
  {
    ResidueOfPower(Power(G, m), n);
    PowerProduct(G, m, n);
  }

  lemma Derived(x: bytes, y: bytes)
    requires |x| == |y| == 8 && FromLe(x) != 0 && FromLe(y) != 0
    ensures ExchangeSpec(x).Ok?
    ensures SecretSpec(ExchangeSpec(x).value, y) == Ok(Push64(Shared(FromLe(x), FromLe(y))))
  {
    LeOfFromLe(x);
    LeOfFromLe(y);
    Pow256Values();
    var g := ModP(Power(G, FromLe(x)));
    GeneratorPower(FromLe(x));
    FromLeOfLe(g, 8);
    SharedPower(FromLe(x), FromLe(y));
  }
}
