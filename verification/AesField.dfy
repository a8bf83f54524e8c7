/** The field GF(2^8) of FIPS 197 section 4.2, and that the generated S-box is the one of section 5.1.1. */
module AesField {
  import opened AesTables
  import opened Aes

  /** a times the polynomial of the lowest `n` bits of `q`. */
  function MulBits(a: bv8, q: bv8, n: nat): bv8
    decreases n
  {
    if n == 0 then 0
    else if q & 1 == 1 then Xor(a, MulBits(Xtime(a), q >> 1, n - 1))
    else MulBits(Xtime(a), q >> 1, n - 1)
  }

  /** The product in GF(2^8). */
  function Mul(a: bv8, q: bv8): bv8 {
    MulBits(a, q, 8)
  }

  lemma XtimeZero()
    ensures Xtime(0) == 0 && Xor(0, 0) == 0
  {
  }

  lemma Times3Raw(a: bv8)
    ensures Times3(a) == a ^ ((a << 1) ^ ((a >> 7) * 0x1b))
  {
  }

  lemma Times3Is(a: bv8)
    ensures Times3(a) == Xor(a, Xtime(a))
  {
    hide Times3;
    Times3Raw(a);
  }

  lemma XorDef(a: bv8, b: bv8)
    ensures Xor(a, b) == a ^ b
  {
  }

  lemma SwapRaw(a: bv8, b: bv8, m: bv8, n: bv8)
    ensures Xor(a ^ b, m ^ n) == Xor(a ^ m, b ^ n)
  {
  }

  lemma Swap(a: bv8, b: bv8, m: bv8, n: bv8)
    ensures Xor(Xor(a, b), Xor(m, n)) == Xor(Xor(a, m), Xor(b, n))
  {
    hide Xor;
    XorDef(a, b); XorDef(m, n); XorDef(a, m); XorDef(b, n);
    SwapRaw(a, b, m, n);
  }

  lemma {:induction false} MulXor(a: bv8, b: bv8, q: bv8, n: nat)
    ensures MulBits(Xor(a, b), q, n) == Xor(MulBits(a, q, n), MulBits(b, q, n))
    decreases n
  {
    hide Xtime, Xor;
    if n == 0 {
      XtimeZero();
    } else {
      XtimeOfXor(a, b);
      MulXor(Xtime(a), Xtime(b), q >> 1, n - 1);
      Swap(a, b, MulBits(Xtime(a), q >> 1, n - 1), MulBits(Xtime(b), q >> 1, n - 1));
    }
  }

  lemma {:induction false} MulXtime(a: bv8, q: bv8, n: nat)
    ensures MulBits(Xtime(a), q, n) == Xtime(MulBits(a, q, n))
    decreases n
  {
    hide Xtime, Xor;
    if n == 0 {
      XtimeZero();
    } else {
      XtimeOfXor(a, MulBits(Xtime(a), q >> 1, n - 1));
      MulXtime(Xtime(a), q >> 1, n - 1);
    }
  }

  /** Multiplying by 3 commutes with the product. */
  lemma MulTimes3(a: bv8, q: bv8)
    ensures Mul(Times3(a), q) == Times3(Mul(a, q))
  {
    hide Xtime, Times3, MulBits, Xor;
    Times3Is(a);
    MulXor(a, Xtime(a), q, 8);
    MulXtime(a, q, 8);
    Times3Is(Mul(a, q));
  }

  /** `q` is the sum of its bits: bit by bit from the top. */
  lemma Bits7(q: bv8)
    ensures MulBits(0x80, q >> 7, 1) == (q >> 7) << 7
  {
    assert MulBits(Xtime(0x80), (q >> 7) >> 1, 0) == 0;
  }

  lemma Bits6(q: bv8)
    ensures MulBits(0x40, q >> 6, 2) == (q >> 6) << 6
  {
    Bits7(q);
    assert Xtime(0x40) == 0x80 && (q >> 6) >> 1 == q >> 7;
  }

  lemma Bits5(q: bv8)
    ensures MulBits(0x20, q >> 5, 3) == (q >> 5) << 5
  {
    Bits6(q);
    assert Xtime(0x20) == 0x40 && (q >> 5) >> 1 == q >> 6;
  }

  lemma Bits4(q: bv8)
    ensures MulBits(0x10, q >> 4, 4) == (q >> 4) << 4
  {
    Bits5(q);
    assert Xtime(0x10) == 0x20 && (q >> 4) >> 1 == q >> 5;
  }

  lemma Bits3(q: bv8)
    ensures MulBits(0x08, q >> 3, 5) == (q >> 3) << 3
  {
    Bits4(q);
    assert Xtime(0x08) == 0x10 && (q >> 3) >> 1 == q >> 4;
  }

  lemma Bits2(q: bv8)
    ensures MulBits(0x04, q >> 2, 6) == (q >> 2) << 2
  {
    Bits3(q);
    assert Xtime(0x04) == 0x08 && (q >> 2) >> 1 == q >> 3;
  }

  lemma Bits1(q: bv8)
    ensures MulBits(0x02, q >> 1, 7) == (q >> 1) << 1
  {
    Bits2(q);
    assert Xtime(0x02) == 0x04 && (q >> 1) >> 1 == q >> 2;
  }

  lemma Bits0(q: bv8)
    ensures MulBits(0x01, q >> 0, 8) == (q >> 0) << 0
  {
    Bits1(q);
    assert Xtime(0x01) == 0x02 && (q >> 0) >> 1 == q >> 1;
  }

  lemma MulOne(q: bv8)
    ensures Mul(1, q) == q
  {
    hide MulBits;
    Bits0(q);
    assert (q >> 0) << 0 == q && q >> 0 == q;
  }

  /** The powers of 3 multiply as repeated steps do. */
  lemma {:induction false} MulPower(k: nat, q: bv8)
    ensures Mul(Power(k), q) == Scale(q, k)
  {
    hide Mul, Times3;
    if k == 0 {
      MulOne(q);
    } else {
      MulPower(k - 1, q);
      MulTimes3(Power(k - 1), q);
    }
  }

  /** The S-box of FIPS 197 section 5.1.1: the affine image of the inverse in the field, and of 0 for 0. */
  lemma SboxIsStandard(x: bv8) returns (y: bv8)
    ensures if x == 0 then y == 0 else Mul(x, y) == 1
    ensures Sbox(x) == Affine(y)
  {
    hide Mul, Sbox, Affine, Power, Inverse, Scale;
    if x == 0 {
      y := 0;
      SboxOfPower(1);
      AffineZero();
    } else {
      var k := LogExists(x);
      y := Inverse(k);
      MulPower(k, y);
      ScaleInverse(k);
      SboxOfPower(k);
    }
  }

  lemma AffineZero()
    ensures Affine(0) == 0x63
  {
  }

  lemma {:induction false} MulZero(a: bv8, n: nat)
    ensures MulBits(a, 0, n) == 0
    decreases n
  {
    hide Xtime, Xor;
    if n > 0 {
      MulZero(Xtime(a), n - 1);
    }
  }

  lemma MulTwo(a: bv8)
    ensures Mul(a, 2) == Xtime(a) && Mul(a, 3) == Xor(a, Xtime(a))
  {
    hide Xtime;
    MulZero(Xtime(Xtime(a)), 6);
    assert (2 as bv8) >> 1 == 1 && (3 as bv8) >> 1 == 1 && (1 as bv8) >> 1 == 0;
    assert MulBits(Xtime(a), 1, 7) == Xor(Xtime(a), 0);
    XorDef(Xtime(a), 0);
  }

  lemma FourRaw(b: bv8, c: bv8, d: bv8, x: bv8, y: bv8)
    ensures Xor5(b, c, d, x, y) == (x ^ (b ^ y)) ^ (c ^ d)
  {
  }

  /** The column mix of FIPS 197 section 5.1.3: 2, 3, 1, 1 times the bytes of the column. */
  lemma MixIsStandard(a: bv8, b: bv8, c: bv8, d: bv8)
    ensures MixByte(a, b, c, d) == Xor(Xor(Mul(a, 2), Mul(b, 3)), Xor(c, d))
  {
    hide Xtime, Mul, MixByte, Xor5;
    MulTwo(a);
    MulTwo(b);
    MixByteIs(a, b, c, d);
    FourRaw(b, c, d, Xtime(a), Xtime(b));
  }
}
