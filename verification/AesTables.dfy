/** The AES S-box, built by walking the powers of 3 in GF(2^8) as the code does. */
module AesTables {
  import opened Octets

  function Xtime(x: bv8): bv8 {
    (x << 1) ^ ((x >> 7) * 0x1b)
  }

  /** p times 3. */
  function Times3(p: bv8): bv8 {
    p ^ (p << 1) ^ if p & 0x80 != 0 then 0x1b else 0
  }

  /** q divided by 3. */
  function Over3(q: bv8): bv8 {
    var a := q ^ (q << 1);
    var b := a ^ (a << 2);
    var c := b ^ (b << 4);
    if c & 0x80 != 0 then c ^ 0x09 else c
  }

  function Rotl8(x: bv8, n: bv4): bv8
    requires n <= 8
  {
    (x << n) | (x >> (8 - n))
  }

  function Affine(q: bv8): bv8 {
    q ^ Rotl8(q, 1) ^ Rotl8(q, 2) ^ Rotl8(q, 3) ^ Rotl8(q, 4) ^ 0x63
  }

  lemma Times3Over3(q: bv8)
    ensures Times3(Over3(q)) == q && Over3(Times3(q)) == q
  {
  }

  lemma AffineInjective(a: bv8, b: bv8)
    requires Affine(a) == Affine(b)
    ensures a == b
  {
  }

  /** The powers of 3, and of its inverse. */
  function Power(k: nat): bv8 {
    if k == 0 then 1 else Times3(Power(k - 1))
  }

  function Inverse(k: nat): bv8 {
    if k == 0 then 1 else Over3(Inverse(k - 1))
  }

  // ---- 3 has order 255: sixteen steps at a time ----

  function By2(p: bv8): bv8 { Times3(Times3(p)) }
  function By4(p: bv8): bv8 { By2(By2(p)) }
  function By8(p: bv8): bv8 { By4(By4(p)) }
  function By16(p: bv8): bv8 { By8(By8(p)) }

  predicate Clear2(p: bv8) { p != 1 && Times3(p) != 1 }
  predicate Clear4(p: bv8) { Clear2(p) && Clear2(By2(p)) }
  predicate Clear8(p: bv8) { Clear4(p) && Clear4(By4(p)) }
  predicate Clear16(p: bv8) { Clear8(p) && Clear8(By8(p)) }

  /** No power from the first to the last before `n` is 1. */
  ghost predicate NoOneBefore(n: nat) {
    forall i :: 1 <= i < n ==> Power(i) != 1
  }

  lemma Advance2(k: nat)
    requires NoOneBefore(k) && Clear2(Power(k))
    ensures NoOneBefore(k + 2) && Power(k + 2) == By2(Power(k))
  {
    assert Power(k + 1) == Times3(Power(k)) && Power(k + 2) == Times3(Power(k + 1));
    hide Times3;
  }

  lemma Advance4(k: nat)
    requires NoOneBefore(k) && Clear4(Power(k))
    ensures NoOneBefore(k + 4) && Power(k + 4) == By4(Power(k))
  {
    hide Times3, By2, Clear2, Power, NoOneBefore;
    Advance2(k);
    Advance2(k + 2);
  }

  lemma Advance8(k: nat)
    requires NoOneBefore(k) && Clear8(Power(k))
    ensures NoOneBefore(k + 8) && Power(k + 8) == By8(Power(k))
  {
    hide Times3, By4, Clear4, Power, NoOneBefore;
    Advance4(k);
    Advance4(k + 4);
  }

  lemma Advance16(k: nat, c: bv8, d: bv8)
    requires NoOneBefore(k) && Power(k) == c && Clear16(c) && By16(c) == d
    ensures NoOneBefore(k + 16) && Power(k + 16) == d
  {
    hide Times3, By8, Clear8, Power, NoOneBefore;
    Advance8(k);
    Advance8(k + 8);
  }

  lemma Ground0() ensures Clear16(0x03) && By16(0x03) == 0xe1 {}
  lemma Ground1() ensures Clear16(0xe1) && By16(0xe1) == 0x34 {}
  lemma Ground2() ensures Clear16(0x34) && By16(0x34) == 0xf5 {}
  lemma Ground3() ensures Clear16(0xf5) && By16(0xf5) == 0xd4 {}
  lemma Ground4() ensures Clear16(0xd4) && By16(0xd4) == 0x9e {}
  lemma Ground5() ensures Clear16(0x9e) && By16(0x9e) == 0xc4 {}
  lemma Ground6() ensures Clear16(0xc4) && By16(0xc4) == 0x19 {}
  lemma Ground7() ensures Clear16(0x19) && By16(0x19) == 0x16 {}
  lemma Ground8() ensures Clear16(0x16) && By16(0x16) == 0x5e {}
  lemma Ground9() ensures Clear16(0x5e) && By16(0x5e) == 0xba {}
  lemma Ground10() ensures Clear16(0xba) && By16(0xba) == 0xb6 {}
  lemma Ground11() ensures Clear16(0xb6) && By16(0xb6) == 0x1f {}
  lemma Ground12() ensures Clear16(0x1f) && By16(0x1f) == 0xcf {}
  lemma Ground13() ensures Clear16(0xcf) && By16(0xcf) == 0x36 {}
  lemma Ground14() ensures Clear16(0x36) && By16(0x36) == 0x4b {}

  lemma GroundLast()
    ensures Clear8(0x4b) && By8(0x4b) == 0x24
    ensures Clear4(0x24) && By4(0x24) == 0x52
    ensures Clear2(0x52) && By2(0x52) == 0x01
  {
  }

  lemma FirstPower()
    ensures NoOneBefore(1) && Power(1) == 0x03
  {
    assert Power(0) == 1;
  }

  /** Sixteen steps at a time: 3 has order 255, so its powers are all the non-zero elements. */
  lemma OrderOf3()
    ensures NoOneBefore(255) && Power(255) == 1
  {
    hide Times3, Power, Clear16, By16, Clear8, By8, Clear4, By4, Clear2, By2, NoOneBefore;
    FirstPower();
    Ground0(); Advance16(1, 0x03, 0xe1);
    Ground1(); Advance16(17, 0xe1, 0x34);
    Ground2(); Advance16(33, 0x34, 0xf5);
    Ground3(); Advance16(49, 0xf5, 0xd4);
    Ground4(); Advance16(65, 0xd4, 0x9e);
    Ground5(); Advance16(81, 0x9e, 0xc4);
    Ground6(); Advance16(97, 0xc4, 0x19);
    Ground7(); Advance16(113, 0x19, 0x16);
    Ground8(); Advance16(129, 0x16, 0x5e);
    Ground9(); Advance16(145, 0x5e, 0xba);
    Ground10(); Advance16(161, 0xba, 0xb6);
    Ground11(); Advance16(177, 0xb6, 0x1f);
    Ground12(); Advance16(193, 0x1f, 0xcf);
    Ground13(); Advance16(209, 0xcf, 0x36);
    Ground14(); Advance16(225, 0x36, 0x4b);
    GroundLast();
    Advance8(241);
    Advance4(249);
    Advance2(253);
  }

  // ---- The walk visits every non-zero element once ----

  lemma {:induction false} PowerDistinct(i: nat, j: nat)
    requires i < j < i + 255
    ensures Power(i) != Power(j)
    decreases i
  {
    OrderOf3();
    assert Power(0) == 1;
    if i > 0 {
      PowerDistinct(i - 1, j - 1);
      Times3Over3(Power(i - 1));
      Times3Over3(Power(j - 1));
    }
  }

  function Scale(p: bv8, n: nat): bv8
    decreases n
  {
    if n == 0 then p else Times3(Scale(p, n - 1))
  }

  lemma {:induction false} ScaleTimes3(p: bv8, n: nat)
    ensures Scale(Times3(p), n) == Times3(Scale(p, n))
    decreases n
  {
    hide Times3;
    if n > 0 {
      ScaleTimes3(p, n - 1);
    }
  }

  lemma {:induction false} ScaleOne(n: nat)
    ensures Scale(1, n) == Power(n)
  {
    hide Times3;
    if n > 0 {
      ScaleOne(n - 1);
    }
  }

  /** The second walker undoes the first. */
  lemma {:induction false} ScaleInverse(n: nat)
    ensures Scale(Inverse(n), n) == 1
  {
    hide Times3, Over3;
    if n > 0 {
      var q := Inverse(n);
      Times3Over3(Inverse(n - 1));
      ScaleTimes3(q, n - 1);
      ScaleInverse(n - 1);
    }
  }

  lemma {:induction false} InverseDistinct(i: nat, j: nat)
    requires i < j < i + 255
    ensures Inverse(i) != Inverse(j)
    decreases i
  {
    hide Times3, Over3;
    if Inverse(i) == Inverse(j) {
      if i == 0 {
        ScaleInverse(j);
        ScaleOne(j);
        assert Power(0) == 1;
        PowerDistinct(0, j);
        assert false;
      } else {
        Times3Over3(Inverse(i - 1));
        Times3Over3(Inverse(j - 1));
        InverseDistinct(i - 1, j - 1);
      }
    }
  }

  lemma {:induction false} NonZero(k: nat)
    ensures Power(k) != 0 && Inverse(k) != 0
  {
    if k > 0 {
      NonZero(k - 1);
      Times3Over3(Power(k - 1));
      Times3Over3(Inverse(k - 1));
      assert Over3(0) == 0 && Times3(0) == 0;
    }
  }

  /** An injective map of the numbers below `n` into themselves reaches every one of them. */
  lemma {:induction false} Pigeonhole(f: nat -> int, n: nat, x: int) returns (k: nat)
    requires forall i, j :: 0 <= i < j < n ==> f(i) != f(j)
    requires forall i :: 0 <= i < n ==> 0 <= f(i) < n
    requires 0 <= x < n
    ensures k < n && f(k) == x
  {
    var m := n - 1;
    var v := f(m);
    if v == x {
      k := m;
    } else {
      var g := (i: nat) => if f(i) == m then v else f(i);
      k := Pigeonhole(g, m, if x == m then v else x);
    }
  }

  function PowerNumber(k: nat): (n: int)
    ensures 0 <= n < 256
  {
    if k == 0 then 0 else Power(k) as int
  }

  lemma PowerNumberDistinct(i: nat, j: nat)
    requires i < j < 256
    ensures PowerNumber(i) != PowerNumber(j)
  {
    hide Power;
    NonZero(j);
    if i > 0 {
      PowerDistinct(i, j);
      NumbersDiffer(Power(i), Power(j));
    } else {
      NumbersDiffer(0, Power(j));
    }
  }

  /** Every non-zero element is a power of 3. */
  lemma LogExists(x: bv8) returns (k: nat)
    requires x != 0
    ensures 1 <= k <= 255 && Power(k) == x
  {
    hide Power, PowerNumber;
    forall i, j | 0 <= i < j < 256 ensures PowerNumber(i) != PowerNumber(j) {
      PowerNumberDistinct(i, j);
    }
    k := Pigeonhole(PowerNumber, 256, x as int);
    PowerNumberIs(k);
    NumbersDiffer(0, x);
    SameNumber(Power(k), x);
  }

  lemma PowerNumberIs(k: nat)
    ensures PowerNumber(0) == 0 && (k > 0 ==> PowerNumber(k) == Power(k) as int)
  {
  }

  // ---- The S-box and its inverse ----

  function Search(x: bv8, k: nat): bv8
    decreases 256 - k
  {
    if k > 255 then 0x63 else if Power(k) == x then Affine(Inverse(k)) else Search(x, k + 1)
  }

  /** The affine image of the inverse; 0 has none and maps to 0x63. */
  function Sbox(x: bv8): bv8 {
    Search(x, 1)
  }

  function SearchInverse(y: bv8, i: nat): bv8
    requires i <= 256
    decreases 256 - i
  {
    if i == 256 then 0 else if Sbox(ByteOf(i)) == y then ByteOf(i) else SearchInverse(y, i + 1)
  }

  function InvSbox(y: bv8): bv8 {
    SearchInverse(y, 0)
  }

  lemma {:induction false} SearchFinds(j: nat, k: nat)
    requires 1 <= j <= k <= 255
    ensures Search(Power(k), j) == Affine(Inverse(k))
    decreases k - j
  {
    hide Power, Inverse, Affine;
    if j < k {
      PowerDistinct(j, k);
      SearchFinds(j + 1, k);
    }
  }

  lemma {:induction false} SearchZero(j: nat)
    requires 1 <= j <= 256
    ensures Search(0, j) == 0x63
    decreases 256 - j
  {
    hide Power, Inverse, Affine;
    if j <= 255 {
      NonZero(j);
      SearchZero(j + 1);
    }
  }

  lemma SboxOfPower(k: nat)
    requires 1 <= k <= 255
    ensures Sbox(Power(k)) == Affine(Inverse(k)) && Affine(Inverse(k)) != 0x63
    ensures Sbox(0) == 0x63
  {
    SearchFinds(1, k);
    SearchZero(1);
    NonZero(k);
    assert Affine(0) == 0x63;
    if Affine(Inverse(k)) == 0x63 {
      AffineInjective(Inverse(k), 0);
    }
  }

  lemma SboxInjective(x: bv8, y: bv8)
    requires Sbox(x) == Sbox(y)
    ensures x == y
  {
    hide Sbox, Power, Inverse, Affine;
    if x != 0 && y != 0 {
      var i := LogExists(x);
      var j := LogExists(y);
      SboxOfPower(i);
      SboxOfPower(j);
      AffineInjective(Inverse(i), Inverse(j));
      if i < j { InverseDistinct(i, j); }
      if j < i { InverseDistinct(j, i); }
    } else if x != 0 {
      var i := LogExists(x);
      SboxOfPower(i);
    } else if y != 0 {
      var j := LogExists(y);
      SboxOfPower(j);
    }
  }

  lemma {:induction false} SearchInverseFinds(y: bv8, i: nat, x: bv8)
    requires i <= x as int && Sbox(x) == y
    ensures SearchInverse(y, i) == x
    decreases 256 - i
  {
    hide Sbox, ByteOf;
    ByteOfNumber(x);
    ByteOfIs(i);
    if i < x as int {
      if Sbox(ByteOf(i)) == y {
        SboxInjective(ByteOf(i), x);
      } else {
        SearchInverseFinds(y, i + 1, x);
      }
    }
  }

  /** The S-box is a permutation, and the second table is its inverse. */
  lemma SboxPermutation(x: bv8)
    ensures InvSbox(Sbox(x)) == x && Sbox(InvSbox(x)) == x
  {
    hide Sbox;
    SearchInverseFinds(Sbox(x), 0, x);
    var i := SboxReaches(x);
    SearchInverseFinds(x, 0, i);
  }

  function SboxNumber(i: nat): (n: int)
    ensures 0 <= n < 256
  {
    if i < 256 then Sbox(ByteOf(i)) as int else 0
  }

  lemma SboxNumberDistinct(i: nat, j: nat)
    requires i < j < 256
    ensures SboxNumber(i) != SboxNumber(j)
  {
    hide Sbox;
    var x, y := ByteOf(i), ByteOf(j);
    ByteOfIs(i);
    ByteOfIs(j);
    if Sbox(x) as int == Sbox(y) as int {
      SameNumber(Sbox(x), Sbox(y));
      SboxInjective(x, y);
      SameByte(x, y);
    }
  }

  lemma SboxReaches(y: bv8) returns (x: bv8)
    ensures Sbox(x) == y
  {
    hide Sbox, SboxNumber;
    forall i, j | 0 <= i < j < 256 ensures SboxNumber(i) != SboxNumber(j) {
      SboxNumberDistinct(i, j);
    }
    var k := Pigeonhole(SboxNumber, 256, y as int);
    SboxNumberIs(k);
    x := ByteOf(k);
    SameNumber(Sbox(x), y);
  }

  lemma SboxNumberIs(i: nat)
    requires i < 256
    ensures SboxNumber(i) == Sbox(ByteOf(i)) as int
  {
  }

  /** The tables as the code fills them. */
  ghost predicate IsTables(sbox: seq<bv8>, inv: seq<bv8>) {
    && |sbox| == 256 && |inv| == 256
    && (forall x: bv8 :: sbox[x as int] == Sbox(x))
    && (forall y: bv8 :: inv[y as int] == InvSbox(y))
  }

  /** The walk of init_tables(): it stops when p is back at 1, which is after 255 steps. */
  method FillSbox(sbox: array<bv8>)
    requires sbox.Length == 256
    modifies sbox
    ensures forall x: bv8 :: sbox[x as int] == Sbox(x)
  {
    hide Power, Inverse, Affine, Sbox, Times3, Over3, NoOneBefore;
    var p: bv8, q: bv8 := 1, 1;
    ghost var k := 0;
    OrderOf3();
    StartWalk();
    var more := true;
    while more
      invariant k <= 255 && p == Power(k) && q == Inverse(k)
      invariant more <==> k < 255
      invariant forall j :: 1 <= j <= k ==> sbox[Power(j) as int] == Affine(Inverse(j))
      decreases 255 - k
    {
      StepWalk(k);
      p, q := Times3(p), Over3(q);
      forall j | 1 <= j <= k ensures Power(j) as int != p as int {
        PowerDistinct(j, k + 1);
        NumbersDiffer(Power(j), p);
      }
      sbox[p as int] := Affine(q);
      k := k + 1;
      more := p != 1;
      NotOneYet(k);
    }
    sbox[0] := 0x63;
    forall x: bv8 ensures sbox[x as int] == Sbox(x) {
      if x != 0 {
        var j := LogExists(x);
        SboxOfPower(j);
        NumbersDiffer(x, 0);
      } else {
        SboxOfPower(1);
      }
    }
  }

  lemma StartWalk()
    ensures Power(0) == 1 && Inverse(0) == 1
  {
  }

  lemma StepWalk(k: nat)
    ensures Power(k + 1) == Times3(Power(k)) && Inverse(k + 1) == Over3(Inverse(k))
  {
  }

  lemma NotOneYet(k: nat)
    requires 1 <= k <= 255
    ensures Power(k) != 1 <==> k < 255
  {
    hide Power;
    OrderOf3();
  }

  lemma NumbersDiffer(a: bv8, b: bv8)
    requires a != b
    ensures a as int != b as int
  {
    if a as int == b as int {
      SameNumber(a, b);
    }
  }

  method FillInverse(sbox: array<bv8>, inv: array<bv8>)
    requires sbox.Length == 256 && inv.Length == 256 && sbox != inv
    requires forall x: bv8 :: sbox[x as int] == Sbox(x)
    modifies inv
    ensures forall y: bv8 :: inv[y as int] == InvSbox(y)
  {
    hide Sbox, InvSbox;
    for i := 0 to 256
      invariant forall x: bv8 :: x as int < i ==> inv[Sbox(x) as int] == x
    {
      var c := ByteOf(i);
      ByteOfIs(i);
      assert sbox[i] == Sbox(c);
      forall x: bv8 | x as int < i ensures Sbox(x) as int != Sbox(c) as int {
        if Sbox(x) == Sbox(c) {
          SboxInjective(x, c);
        }
        NumbersDiffer(Sbox(x), Sbox(c));
      }
      inv[sbox[i] as int] := c;
      forall x: bv8 | x as int == i ensures x == c && Sbox(x) == Sbox(c) {
        SameNumber(x, c);
      }
    }
    forall y: bv8 ensures inv[y as int] == InvSbox(y) {
      SboxPermutation(y);
    }
  }

  method InitTables() returns (sbox: array<bv8>, inv: array<bv8>)
    ensures fresh(sbox) && fresh(inv) && IsTables(sbox[..], inv[..])
  {
    hide Sbox, InvSbox;
    sbox := new bv8[256];
    inv := new bv8[256];
    FillSbox(sbox);
    FillInverse(sbox, inv);
  }
}
