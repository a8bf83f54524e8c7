/** The pairwise key derivation of IEEE 802.11-2016 section 12.7.1: PRF over HMAC, inputs in sorted order. */
module Kdf {
  import opened Octets
  import opened Sha1
  import opened Hmac

  const LABEL: seq<bv8> := [ // "Pairwise key expansion"
    0x50, 0x61, 0x69, 0x72, 0x77, 0x69, 0x73, 0x65, 0x20, 0x6b, 0x65, 0x79, 0x20, 0x65, 0x78, 0x70, 0x61, 0x6e,
    0x73, 0x69, 0x6f, 0x6e]
  const WORK: nat := 128

  /** `n` bytes of output: blocks of HMAC(key, prefix || counter), the counter one byte wide. */
  function PrfFrom(cf: Compress, key: seq<bv8>, prefix: seq<bv8>, counter: nat, n: nat): (out: seq<bv8>)
    ensures |out| == n
    decreases n
  {
    if n == 0 then [] else
    var d := Mac(cf, key, prefix + [ByteOf(counter % 256)]);
    if n <= DIGEST then d[..n] else d + PrfFrom(cf, key, prefix, counter + 1, n - DIGEST)
  }

  /** memcmp(a, b, n) < 0. */
  predicate Less(a: seq<bv8>, b: seq<bv8>)
    requires |a| == |b|
  {
    a != [] && (a[0] < b[0] || (a[0] == b[0] && Less(a[1..], b[1..])))
  }

  lemma {:induction false} LessTotal(a: seq<bv8>, b: seq<bv8>)
    requires |a| == |b|
    ensures !(Less(a, b) && Less(b, a))
    ensures a == b <==> !Less(a, b) && !Less(b, a)
  {
    if a != [] {
      LessTotal(a[1..], b[1..]);
      assert a == [a[0]] + a[1..] && b == [b[0]] + b[1..];
    }
  }

  lemma {:induction false} LessTransitive(a: seq<bv8>, b: seq<bv8>, c: seq<bv8>)
    requires |a| == |b| == |c| && Less(a, b) && Less(b, c)
    ensures Less(a, c)
  {
    if a[0] == b[0] == c[0] {
      LessTransitive(a[1..], b[1..], c[1..]);
    }
  }

  /** memcmp() is a strict total order on strings of one length. */
  lemma LessIsOrder(a: seq<bv8>, b: seq<bv8>, c: seq<bv8>)
    requires |a| == |b| == |c|
    ensures !Less(a, a) && !(Less(a, b) && Less(b, a)) && (Less(a, b) || a == b || Less(b, a))
    ensures Less(a, b) && Less(b, c) ==> Less(a, c)
  {
    hide Less;
    LessTotal(a, b);
    LessTotal(a, a);
    if Less(a, b) && Less(b, c) {
      LessTransitive(a, b, c);
    }
  }

  /** `a` comes first: at the first byte in which they differ it has the smaller one. */
  ghost predicate Before(a: seq<bv8>, b: seq<bv8>)
    requires |a| == |b|
  {
    exists i :: 0 <= i < |a| && a[..i] == b[..i] && a[i] < b[i]
  }

  lemma {:induction false} LessIs(a: seq<bv8>, b: seq<bv8>)
    requires |a| == |b|
    ensures Less(a, b) <==> Before(a, b)
    decreases |a|
  {
    if a != [] {
      LessIs(a[1..], b[1..]);
      if Less(a[1..], b[1..]) && a[0] == b[0] {
        var i :| 0 <= i < |a| - 1 && a[1..][..i] == b[1..][..i] && a[1..][i] < b[1..][i];
        assert a[..i + 1] == [a[0]] + a[1..][..i] && b[..i + 1] == [b[0]] + b[1..][..i];
        assert a[i + 1] < b[i + 1];
      } else if a[0] < b[0] {
        assert a[..0] == b[..0];
      }
      if i :| 0 <= i < |a| && a[..i] == b[..i] && a[i] < b[i] {
        if i > 0 {
          assert a[0] == a[..i][0] == b[..i][0] == b[0];
          assert a[1..][..i - 1] == a[..i][1..] && b[1..][..i - 1] == b[..i][1..];
          assert a[1..][i - 1] < b[1..][i - 1];
        }
      }
    }
  }

  function Sorted(a: seq<bv8>, b: seq<bv8>): seq<bv8>
    requires |a| == |b|
  {
    if Less(a, b) then a + b else b + a
  }

  function Ptk(cf: Compress, pmk: seq<bv8>, aa: seq<bv8>, spa: seq<bv8>, anonce: seq<bv8>, snonce: seq<bv8>)
    : (k: seq<bv8>)
    requires |aa| == |spa| == 6 && |anonce| == |snonce| == 32
    ensures |k| == 48
  {
    PrfFrom(cf, pmk, LABEL + [0] + (Sorted(aa, spa) + Sorted(anonce, snonce)), 0, 48)
  }

  /** Either side gets the same key: it does not matter whose address and nonce come first. */
  lemma PtkSymmetric(cf: Compress, pmk: seq<bv8>, aa: seq<bv8>, spa: seq<bv8>, anonce: seq<bv8>, snonce: seq<bv8>)
    requires |aa| == |spa| == 6 && |anonce| == |snonce| == 32
    ensures Ptk(cf, pmk, aa, spa, anonce, snonce) == Ptk(cf, pmk, spa, aa, snonce, anonce)
  {
    hide PrfFrom, Less;
    LessTotal(aa, spa);
    LessTotal(anonce, snonce);
  }

  /** `x` and `y` are `a` and `b` in some order, with none before `x`. */
  ghost predicate InOrder(a: seq<bv8>, b: seq<bv8>, x: seq<bv8>, y: seq<bv8>)
    requires |a| == |b|
  {
    ((x == a && y == b) || (x == b && y == a)) && !Before(y, x)
  }

  lemma SortedIs(a: seq<bv8>, b: seq<bv8>, x: seq<bv8>, y: seq<bv8>)
    requires |a| == |b| && InOrder(a, b, x, y)
    ensures Sorted(a, b) == x + y
  {
    hide Less, Before;
    LessIs(a, b);
    LessIs(b, a);
    LessTotal(a, b);
  }

  /** Three MACs with the counters 0, 1 and 2, over the label, a zero, and the two pairs with the smaller one first. */
  lemma PtkIs(cf: Compress, pmk: seq<bv8>, aa: seq<bv8>, spa: seq<bv8>, anonce: seq<bv8>, snonce: seq<bv8>,
              lowA: seq<bv8>, highA: seq<bv8>, lowN: seq<bv8>, highN: seq<bv8>)
    requires |aa| == |spa| == 6 && |anonce| == |snonce| == 32
    requires InOrder(aa, spa, lowA, highA) && InOrder(anonce, snonce, lowN, highN)
    ensures
      var text := LABEL + [0] + lowA + highA + lowN + highN;
      Ptk(cf, pmk, aa, spa, anonce, snonce) ==
        Mac(cf, pmk, text + [0]) + Mac(cf, pmk, text + [1]) + Mac(cf, pmk, text + [2])[..8]
  {
    hide Mac, PrfFrom, Sorted, InOrder, LABEL, ByteOf;
    SortedIs(aa, spa, lowA, highA);
    SortedIs(anonce, snonce, lowN, highN);
    var text := LABEL + [0] + lowA + highA + lowN + highN;
    assert LABEL + [0] + (Sorted(aa, spa) + Sorted(anonce, snonce)) == text;
    SmallBytes();
    PrfStep(cf, pmk, text, 0, 48);
    PrfStep(cf, pmk, text, 1, 28);
    PrfStep(cf, pmk, text, 2, 8);
    PrfStep(cf, pmk, text, 3, 0);
    Three(Mac(cf, pmk, text + [0]), Mac(cf, pmk, text + [1]), Mac(cf, pmk, text + [2]));
  }

  lemma SmallBytes()
    ensures ByteOf(0) == 0 && ByteOf(1) == 1 && ByteOf(2) == 2
  {
  }

  lemma Three(a: seq<bv8>, b: seq<bv8>, c: seq<bv8>)
    requires |a| == |b| == |c| == DIGEST
    ensures a[..20] + (b[..20] + (c[..8] + [])) == a + b + c[..8]
  {
  }

  lemma PrfStep(cf: Compress, key: seq<bv8>, prefix: seq<bv8>, counter: nat, n: nat)
    ensures PrfFrom(cf, key, prefix, counter, 0) == []
    ensures n > 0 ==>
      var d, c := Mac(cf, key, prefix + [ByteOf(counter % 256)]), if n < DIGEST then n else DIGEST;
      PrfFrom(cf, key, prefix, counter, n) == d[..c] + PrfFrom(cf, key, prefix, counter + 1, n - c)
  {
    hide Mac;
    assert PrfFrom(cf, key, prefix, counter + 1, 0) == [];
  }

  /** The code's loop: one HMAC base, copied for every block. False when the input does not fit the work buffer. */
  method Prf(cf: Compress, key: seq<bv8>, name: seq<bv8>, data: seq<bv8>, outLen: nat) returns (ok: bool, out: seq<bv8>)
    ensures ok <==> |name| + 1 + |data| + 1 <= WORK
    ensures ok ==> out == PrfFrom(cf, key, name + [0] + data, 0, outLen)
  {
    hide Mac, PrfFrom, Hmac.Context.Valid, Sha1.Context.Valid;
    out := [];
    if |name| + 1 + |data| + 1 > WORK {
      return false, [];
    }
    var prefix := name + [0] + data;
    var base := new Hmac.Context(cf, key);
    var counter, left := 0, outLen;
    PrfStep(cf, key, prefix, 0, 0);
    while left > 0
      invariant 0 <= left
      invariant base.Valid() && base.key == key && base.msg == [] && base.inner.cf == cf && fresh(base.Repr())
      invariant out + PrfFrom(cf, key, prefix, counter, left) == PrfFrom(cf, key, prefix, 0, outLen)
    {
      var h := new Hmac.Context.Copy(base);
      h.Update(prefix + [ByteOf(counter % 256)]);
      assert [] + (prefix + [ByteOf(counter % 256)]) == prefix + [ByteOf(counter % 256)];
      var d := h.Final();
      var c := if left < DIGEST then left else DIGEST;
      PrfStep(cf, key, prefix, counter, left);
      out := out + d[..c];
      counter, left := counter + 1, left - c;
    }
    return true, out;
  }

  method PtkCode(cf: Compress, pmk: seq<bv8>, aa: seq<bv8>, spa: seq<bv8>, anonce: seq<bv8>, snonce: seq<bv8>)
    returns (k: seq<bv8>)
    requires |aa| == |spa| == 6 && |anonce| == |snonce| == 32
    ensures k == Ptk(cf, pmk, aa, spa, anonce, snonce)
  {
    hide PrfFrom, Less;
    var loA, hiA := if Less(aa, spa) then aa else spa, if Less(aa, spa) then spa else aa;
    var loN, hiN := if Less(anonce, snonce) then anonce else snonce, if Less(anonce, snonce) then snonce else anonce;
    var data := loA + hiA + loN + hiN;
    assert data == Sorted(aa, spa) + Sorted(anonce, snonce);
    var ok;
    ok, k := Prf(cf, pmk, LABEL, data, 48);
  }
}
