/** Reading from the front of a byte string. */
module Reading {
  import opened Common

  /** What was read and what is left to read, or that the input is invalid. */
  datatype Read<+T> = Got(value: T, rest: bytes) | Bad

  /** `n` bytes, if there are as many. */
  function Bytes(s: bytes, n: nat): (r: Read<bytes>)
    ensures r.Got? ==> |r.value| == n && |r.rest| == |s| - n
  {
    if |s| < n then Bad else Got(s[..n], s[n..])
  }

  function Signed(n: nat, width: nat): int { if n < width / 2 then n else n - width }

  function DecWord(s: bytes, n: nat): (r: Read<nat>)
    ensures r.Got? ==> |r.rest| == |s| - n
  {
    var b := Bytes(s, n);
    if b.Bad? then Bad else Got(FromLe(b.value), b.rest)
  }

  /** What a reader returned and what it left are as read by a decoding function. */
  ghost predicate ReadAs<T>(r: Result<T>, remaining: bytes, d: Read<T>) {
    match d
    case Got(v, rest) => r == Ok(v) && remaining == rest
    case Bad => r == Fail
  }

  lemma BytesBack(b: bytes, rest: bytes)
    ensures Bytes(b + rest, |b|) == Got(b, rest)
  {
    assert (b + rest)[..|b|] == b && (b + rest)[|b|..] == rest;
  }

  lemma WordBack(w: nat, k: nat, rest: bytes)
    requires w < Pow256(k)
    ensures DecWord(Le(w, k) + rest, k) == Got(w, rest)
  {
    BytesBack(Le(w, k), rest);
    FromLeOfLe(w, k);
  }

  /** Two's complement, 4 and 8 bytes wide. */
  lemma SignedBack(i: int)
    ensures -0x8000_0000 <= i < 0x8000_0000 ==> Signed(i % 0x1_0000_0000, 0x1_0000_0000) == i
    ensures -0x8000_0000_0000_0000 <= i < 0x8000_0000_0000_0000 ==>
      Signed(i % 0x1_0000_0000_0000_0000, 0x1_0000_0000_0000_0000) == i
  {
  }
}
