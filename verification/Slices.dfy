/** Slices of slices, and sequences with an element taken out. */
module Slices {
  lemma Subrange<T>(s: seq<T>, off: nat, n: nat, a: nat, b: nat)
    requires off + n <= |s| && a <= b <= n
    ensures s[off..off + n][a..b] == s[off + a..off + b]
  {
    var x, y := s[off..off + n][a..b], s[off + a..off + b];
    assert forall i :: 0 <= i < b - a ==>
      x[i] == s[off..off + n][a + i] == s[off + (a + i)] && y[i] == s[(off + a) + i];
    assert x == y;
  }

  /** A slice that lies within a prefix. */
  lemma InPrefix<T>(s: seq<T>, p: seq<T>, a: nat, b: nat)
    requires a <= b <= |p| && p <= s
    ensures s[a..b] == p[a..b]
  {
  }

  /** What stands behind `b`. */
  lemma Behind<T>(s: seq<T>, i: nat, b: seq<T>, rest: seq<T>)
    requires i <= |s| && b + rest <= s[i..]
    ensures i + |b| <= |s| && s[i..i + |b|] == b && b <= s[i..]
    ensures s[i + |b|..] == s[i..][|b|..] && rest <= s[i + |b|..]
  {
    assert s[i..i + |b|] == s[i..][..|b|];
    assert s[i + |b|..] == s[i..][|b|..];
  }

  lemma BehindAll<T>(s: seq<T>, i: nat, b: seq<T>, rest: seq<T>)
    requires i <= |s| && s[i..] == b + rest
    ensures b <= s[i..] && i + |b| <= |s| && s[i + |b|..] == rest
  {
    assert s[i + |b|..] == s[i..][|b|..];
  }

  /** A slice that is two pieces. */
  lemma Pieces<T>(s: seq<T>, off: nat, n: nat, b: seq<T>, rest: seq<T>)
    requires off <= n <= |s| && s[off..n] == b + rest
    ensures off + |b| <= n && s[off..off + |b|] == b && s[off + |b|..n] == rest
  {
    Subrange(s, off, n - off, 0, |b|);
    Subrange(s, off, n - off, |b|, n - off);
  }

  function Without<T>(x: seq<T>, i: nat): seq<T>
    requires i < |x|
  {
    x[..i] + x[i + 1..]
  }
}
