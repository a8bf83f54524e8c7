/** Bytes as bit-vectors, and numbers as bytes. */
module Octets {
  /** The byte of value `n`; what a cast to uint8_t gives. */
  function ByteOf(n: nat): bv8
    requires n < 256
  {
    if n == 0 then 0 else ByteOf(n - 1) + 1
  }

  lemma Increment(x: bv8)
    requires x as int < 255
    ensures (x + 1) as int == x as int + 1
  {
  }

  lemma {:induction false} ByteOfIs(n: nat)
    requires n < 256
    ensures ByteOf(n) as int == n
  {
    if n > 0 {
      ByteOfIs(n - 1);
      Increment(ByteOf(n - 1));
    }
  }

  lemma SameNumber(a: bv8, b: bv8)
    requires a as int == b as int
    ensures a == b
  {
  }

  lemma SameByte(a: bv8, b: bv8)
    requires a == b
    ensures a as int == b as int
  {
  }

  lemma ByteOfNumber(x: bv8)
    ensures ByteOf(x as int) == x
  {
    ByteOfIs(x as int);
    SameNumber(ByteOf(x as int), x);
  }

  /** The number that bytes stand for, the most significant first. */
  function Number(b: seq<bv8>): nat {
    if b == [] then 0 else Number(b[..|b| - 1]) * 256 + b[|b| - 1] as int
  }

  lemma NumberBack(a: seq<bv8>)
    requires a != []
    ensures var n := |a| - 1; Number(a) == Number(a[..n]) * 256 + a[n] as int
  {
  }

  /** A further byte. */
  lemma NumberSnoc(b: seq<bv8>, n: nat)
    requires n < 256
    ensures Number(b + [ByteOf(n)]) == Number(b) * 256 + n
  {
    hide ByteOf;
    ByteOfIs(n);
    assert (b + [ByteOf(n)])[..|b|] == b;
  }
}
