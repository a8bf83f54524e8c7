/** The AES key wrap of RFC 3394 section 2.2, in the index-based form the code uses. */
module KeyWrap {
  import opened Buffers
  import opened Wrappers
  import opened Octets
  import opened AesTables
  import opened Aes
  import opened AesCode

  const IV: seq<bv8> := [0xA6, 0xA6, 0xA6, 0xA6, 0xA6, 0xA6, 0xA6, 0xA6]

  /** The integrity register and the registers R[1..n], eight bytes each. */
  datatype Regs = Regs(a: seq<bv8>, r: seq<bv8>)

  predicate Shaped(s: Regs, n: nat) {
    |s.a| == 8 && |s.r| == 8 * n
  }

  /** The step counter enters the last two bytes of the integrity register. */
  function Tag(a: seq<bv8>, t: nat): (r: seq<bv8>)
    requires |a| == 8
    ensures |r| == 8
  {
    a[..6] + [Xor(a[6], ByteOf(t / 256 % 256)), Xor(a[7], ByteOf(t % 256))]
  }

  /** The step counter. */
  function Turn(n: nat, j: nat, i: nat): nat {
    n * j + i
  }

  /** The `i`-th register. */
  function Reg(r: seq<bv8>, i: nat): (x: seq<bv8>)
    requires 1 <= i && 8 * i <= |r|
    ensures |x| == 8
  {
    r[8 * i - 8..8 * i]
  }

  /** Eight bytes of `r` replaced by `x`. */
  function SetReg(r: seq<bv8>, i: nat, x: seq<bv8>): (r': seq<bv8>)
    requires 1 <= i && 8 * i <= |r| && |x| == 8
    ensures |r'| == |r|
  {
    r[..8 * i - 8] + x + r[8 * i..]
  }

  function WrapStep(kek: Block, s: Regs, n: nat, j: nat, i: nat): (s': Regs)
    requires Shaped(s, n) && 1 <= i <= n
    ensures Shaped(s', n)
  {
    var b := Encrypt(kek, s.a + Reg(s.r, i));
    Regs(Tag(b[..8], Turn(n, j, i)), SetReg(s.r, i, b[8..]))
  }

  function UnwrapStep(kek: Block, s: Regs, n: nat, j: nat, i: nat): (s': Regs)
    requires Shaped(s, n) && 1 <= i <= n
    ensures Shaped(s', n)
  {
    var b := Decrypt(kek, Tag(s.a, Turn(n, j, i)) + Reg(s.r, i));
    Regs(b[..8], SetReg(s.r, i, b[8..]))
  }

  /** Steps 1 to i of round j, and undone again from i down. */
  function WrapRow(kek: Block, s: Regs, n: nat, j: nat, i: nat): (s': Regs)
    requires Shaped(s, n) && i <= n
    ensures Shaped(s', n)
  {
    if i == 0 then s else WrapStep(kek, WrapRow(kek, s, n, j, i - 1), n, j, i)
  }

  function UnwrapRow(kek: Block, s: Regs, n: nat, j: nat, i: nat): (s': Regs)
    requires Shaped(s, n) && i <= n
    ensures Shaped(s', n)
    decreases i
  {
    if i == 0 then s else UnwrapRow(kek, UnwrapStep(kek, s, n, j, i), n, j, i - 1)
  }

  function WrapRows(kek: Block, s: Regs, n: nat, j: nat): (s': Regs)
    requires Shaped(s, n)
    ensures Shaped(s', n)
  {
    if j == 0 then s else WrapRow(kek, WrapRows(kek, s, n, j - 1), n, j - 1, n)
  }

  function UnwrapRows(kek: Block, s: Regs, n: nat, j: nat): (s': Regs)
    requires Shaped(s, n)
    ensures Shaped(s', n)
    decreases j
  {
    if j == 0 then s else UnwrapRows(kek, UnwrapRow(kek, s, n, j - 1, n), n, j - 1)
  }

  function Wrap(kek: Block, plain: seq<bv8>): (out: seq<bv8>)
    requires |plain| % 8 == 0
    ensures |out| == |plain| + 8
  {
    var s := WrapRows(kek, Regs(IV, plain), |plain| / 8, 6);
    s.a + s.r
  }

  lemma Registers(size: nat)
    requires size >= 24 && size % 8 == 0
    ensures size == 8 * (size / 8 - 1) + 8 && (size - 8) % 8 == 0
  {
  }

  function Unwrap(kek: Block, inp: seq<bv8>): (out: Option<seq<bv8>>)
    ensures out.Some? ==> |inp| >= 24 && |inp| % 8 == 0 && |out.value| == |inp| - 8 && |out.value| % 8 == 0
  {
    if |inp| < 24 || |inp| % 8 != 0 then None else
    Registers(|inp|);
    var n := |inp| / 8 - 1;
    var s := UnwrapRows(kek, Regs(inp[..8], inp[8..]), n, 6);
    if s.a == IV then Some(s.r) else None
  }

  // ---- Each step has an inverse ----

  lemma TagTwice(a: seq<bv8>, t: nat)
    requires |a| == 8
    ensures Tag(Tag(a, t), t) == a
  {
    hide ByteOf, Xor;
    XorCancels(a[6], 0, ByteOf(t / 256 % 256));
    XorCancels(a[7], 0, ByteOf(t % 256));
    assert Tag(Tag(a, t), t) == a;
  }

  lemma SetRegTwice(r: seq<bv8>, i: nat, x: seq<bv8>)
    requires 1 <= i && 8 * i <= |r| && |x| == 8
    ensures Reg(SetReg(r, i, x), i) == x
    ensures SetReg(SetReg(r, i, x), i, Reg(r, i)) == r
  {
  }

  lemma Halves(x: seq<bv8>, y: seq<bv8>)
    requires |x| == |y| == 8
    ensures |x + y| == 16 && (x + y)[..8] == x && (x + y)[8..] == y
  {
  }

  lemma Joined(b: Block)
    ensures b[..8] + b[8..] == b
  {
  }

  lemma UnwrapWrapStep(kek: Block, s: Regs, n: nat, j: nat, i: nat)
    requires Shaped(s, n) && 1 <= i <= n
    ensures UnwrapStep(kek, WrapStep(kek, s, n, j, i), n, j, i) == s
  {
    hide Encrypt, Decrypt, Tag, SetReg, Reg, Turn;
    Halves(s.a, Reg(s.r, i));
    var x := s.a + Reg(s.r, i);
    var b := Encrypt(kek, x);
    TagTwice(b[..8], Turn(n, j, i));
    SetRegTwice(s.r, i, b[8..]);
    Joined(b);
    DecryptEncrypt(kek, x);
  }

  lemma WrapUnwrapStep(kek: Block, s: Regs, n: nat, j: nat, i: nat)
    requires Shaped(s, n) && 1 <= i <= n
    ensures WrapStep(kek, UnwrapStep(kek, s, n, j, i), n, j, i) == s
  {
    hide Encrypt, Decrypt, Tag, SetReg, Reg, Turn;
    var a := Tag(s.a, Turn(n, j, i));
    Halves(a, Reg(s.r, i));
    var x := a + Reg(s.r, i);
    var b := Decrypt(kek, x);
    TagTwice(s.a, Turn(n, j, i));
    SetRegTwice(s.r, i, b[8..]);
    Joined(b);
    DecryptEncrypt(kek, x);
  }

  lemma {:induction false} UnwrapWrapRow(kek: Block, s: Regs, n: nat, j: nat, i: nat)
    requires Shaped(s, n) && i <= n
    ensures UnwrapRow(kek, WrapRow(kek, s, n, j, i), n, j, i) == s
  {
    hide WrapStep, UnwrapStep;
    if i > 0 {
      UnwrapWrapStep(kek, WrapRow(kek, s, n, j, i - 1), n, j, i);
      UnwrapWrapRow(kek, s, n, j, i - 1);
    }
  }

  lemma {:induction false} WrapUnwrapRow(kek: Block, s: Regs, n: nat, j: nat, i: nat)
    requires Shaped(s, n) && i <= n
    ensures WrapRow(kek, UnwrapRow(kek, s, n, j, i), n, j, i) == s
    decreases i
  {
    hide WrapStep, UnwrapStep;
    if i > 0 {
      WrapUnwrapRow(kek, UnwrapStep(kek, s, n, j, i), n, j, i - 1);
      WrapUnwrapStep(kek, s, n, j, i);
    }
  }

  lemma {:induction false} UnwrapWrapRows(kek: Block, s: Regs, n: nat, j: nat)
    requires Shaped(s, n)
    ensures UnwrapRows(kek, WrapRows(kek, s, n, j), n, j) == s
  {
    hide WrapRow, UnwrapRow;
    if j > 0 {
      UnwrapWrapRow(kek, WrapRows(kek, s, n, j - 1), n, j - 1, n);
      UnwrapWrapRows(kek, s, n, j - 1);
    }
  }

  lemma {:induction false} WrapUnwrapRows(kek: Block, s: Regs, n: nat, j: nat)
    requires Shaped(s, n)
    ensures WrapRows(kek, UnwrapRows(kek, s, n, j), n, j) == s
    decreases j
  {
    hide WrapRow, UnwrapRow;
    if j > 0 {
      WrapUnwrapRows(kek, UnwrapRow(kek, s, n, j - 1, n), n, j - 1);
      WrapUnwrapRow(kek, s, n, j - 1, n);
    }
  }

  /** Whatever was wrapped is recovered. */
  lemma UnwrapOfWrap(kek: Block, plain: seq<bv8>)
    requires |plain| % 8 == 0 && |plain| >= 16
    ensures Unwrap(kek, Wrap(kek, plain)) == Some(plain)
  {
    hide WrapRows, UnwrapRows;
    var n := |plain| / 8;
    UnwrapWrapRows(kek, Regs(IV, plain), n, 6);
    var s, w := WrapRows(kek, Regs(IV, plain), n, 6), Wrap(kek, plain);
    assert w[..8] == s.a && w[8..] == s.r;
  }

  /** Only wrapped keys unwrap: an input that passes the integrity check is the wrap of its result. */
  lemma WrapOfUnwrap(kek: Block, inp: seq<bv8>)
    requires Unwrap(kek, inp).Some?
    ensures Wrap(kek, Unwrap(kek, inp).value) == inp
  {
    hide WrapRows, UnwrapRows;
    var n := |inp| / 8 - 1;
    WrapUnwrapRows(kek, Regs(inp[..8], inp[8..]), n, 6);
    assert |inp[8..]| / 8 == n;
    assert inp[..8] + inp[8..] == inp;
  }

  // ---- The code, on buffers ----

  /** The tag as the code writes it: two XORs into the register. */
  method TagInPlace(a: array<bv8>, t: nat)
    requires a.Length == 8
    modifies a
    ensures a[..] == Tag(old(a[..]), t)
  {
    hide ByteOf, Xor;
    a[7] := Xor(a[7], ByteOf(t % 256));
    a[6] := Xor(a[6], ByteOf(t / 256 % 256));
    assert a[..] == Tag(old(a[..]), t);
  }

  method KeyWrapCode(sbox: seq<bv8>, ghost inv: seq<bv8>, kek: Block, plain: seq<bv8>, out: array<bv8>)
    requires IsTables(sbox, inv)
    requires |plain| % 8 == 0 && |plain| >= 16 && out.Length == |plain| + 8
    modifies out
    ensures out[..] == Wrap(kek, plain)
  {
    hide Encrypt, WrapStep, WrapRow, WrapRows, IsTables;
    var n := |plain| / 8;
    ghost var s0 := Regs(IV, plain);
    var a := new bv8[8](i requires 0 <= i < 8 => IV[i]);
    CopyIn(out, 8, plain);
    assert a[..] == IV && out[8..] == plain;
    RowsStart(kek, s0, n);
    for j := 0 to 6
      invariant out.Length == |plain| + 8 && Regs(a[..], out[8..]) == WrapRows(kek, s0, n, j)
    {
      ghost var sj := WrapRows(kek, s0, n, j);
      RowStart(kek, sj, n, j);
      for i := 1 to n + 1
        invariant Regs(a[..], out[8..]) == WrapRow(kek, sj, n, j, i - 1)
      {
        WrapRowStep(kek, sj, n, j, i);
        WrapTurn(sbox, inv, kek, a, out, n, j, i);
      }
      RowsStep(kek, s0, n, j);
    }
    CopyIn(out, 0, a[..]);
    assert out[..] == a[..] + out[8..];
  }

  lemma RowsStart(kek: Block, s: Regs, n: nat)
    requires Shaped(s, n)
    ensures WrapRows(kek, s, n, 0) == s
  {
  }

  lemma RowStart(kek: Block, s: Regs, n: nat, j: nat)
    requires Shaped(s, n)
    ensures WrapRow(kek, s, n, j, 0) == s
  {
  }

  lemma WrapRowStep(kek: Block, s: Regs, n: nat, j: nat, i: nat)
    requires Shaped(s, n) && 1 <= i <= n
    ensures WrapRow(kek, s, n, j, i) == WrapStep(kek, WrapRow(kek, s, n, j, i - 1), n, j, i)
  {
  }

  lemma RowsStep(kek: Block, s: Regs, n: nat, j: nat)
    requires Shaped(s, n)
    ensures WrapRows(kek, s, n, j + 1) == WrapRow(kek, WrapRows(kek, s, n, j), n, j, n)
  {
  }

  /** The registers lie in the buffer behind the first `k` bytes. */
  lemma RegAt(buf: seq<bv8>, r: seq<bv8>, k: nat, i: nat)
    requires k <= |buf| && buf[k..] == r && 1 <= i && 8 * i <= |r|
    ensures buf[k + 8 * i - 8..k + 8 * i] == Reg(r, i)
  {
  }

  lemma SetAt(buf: seq<bv8>, r: seq<bv8>, k: nat, i: nat, x: seq<bv8>)
    requires k <= |buf| && buf[k..] == r && 1 <= i && 8 * i <= |r| && |x| == 8
    ensures (buf[..k + 8 * i - 8] + x + buf[k + 8 * i..])[k..] == SetReg(r, i, x)
  {
  }

  /** One turn of the wrap: encrypt the register pair, tag, store. */
  method WrapTurn(sbox: seq<bv8>, ghost inv: seq<bv8>, kek: Block, a: array<bv8>, out: array<bv8>, n: nat, j: nat,
                  i: nat)
    requires IsTables(sbox, inv) && a != out && a.Length == 8 && out.Length == 8 * n + 8 && 1 <= i <= n
    modifies a, out
    ensures Regs(a[..], out[8..]) == WrapStep(kek, Regs(old(a[..]), old(out[8..])), n, j, i)
  {
    hide Encrypt, IsTables, Tag, SetReg, Reg;
    ghost var r := out[8..];
    RegAt(out[..], r, 8, i);
    var b := EncryptBlock(sbox, inv, kek, a[..] + out[8 * i..8 * i + 8]);
    CopyIn(a, 0, b[..8]);
    assert a[..] == b[..8];
    TagInPlace(a, n * j + i);
    CopyIn(out, 8 * i, b[8..]);
    SetAt(old(out[..]), r, 8, i, b[8..]);
  }

  method UnwrapTurn(sbox: seq<bv8>, inv: seq<bv8>, kek: Block, a: array<bv8>, out: array<bv8>, n: nat, j: nat, i: nat)
    requires IsTables(sbox, inv) && a != out && a.Length == 8 && out.Length == 8 * n && 1 <= i <= n
    modifies a, out
    ensures Regs(a[..], out[..]) == UnwrapStep(kek, Regs(old(a[..]), old(out[..])), n, j, i)
  {
    hide Decrypt, IsTables, Tag, SetReg, Reg;
    ghost var r := out[..];
    TagInPlace(a, n * j + i);
    RegAt(out[..], r, 0, i);
    var b := DecryptBlock(sbox, inv, kek, a[..] + out[8 * (i - 1)..8 * i]);
    CopyIn(a, 0, b[..8]);
    assert a[..] == b[..8];
    CopyIn(out, 8 * (i - 1), b[8..]);
    SetAt(old(out[..]), r, 0, i, b[8..]);
  }

  method KeyUnwrapCode(sbox: seq<bv8>, inv: seq<bv8>, kek: Block, inp: seq<bv8>, out: array<bv8>) returns (ok: bool)
    requires IsTables(sbox, inv)
    requires |inp| >= 24 && |inp| % 8 == 0 ==> out.Length == |inp| - 8
    modifies out
    ensures ok <==> Unwrap(kek, inp).Some?
    ensures ok ==> out[..] == Unwrap(kek, inp).value
  {
    hide Decrypt, UnwrapStep, UnwrapRow, UnwrapRows, IsTables;
    if |inp| < 24 || |inp| % 8 != 0 {
      return false;
    }
    var n := |inp| / 8 - 1;
    ghost var s0 := Regs(inp[..8], inp[8..]);
    var a := new bv8[8](i requires 0 <= i < 8 => inp[i]);
    CopyIn(out, 0, inp[8..]);
    assert a[..] == inp[..8] && out[..] == inp[8..];
    var j := 6;
    while j > 0
      invariant 0 <= j <= 6
      invariant Shaped(Regs(a[..], out[..]), n)
      invariant UnwrapRows(kek, Regs(a[..], out[..]), n, j) == UnwrapRows(kek, s0, n, 6)
    {
      j := j - 1;
      ghost var sj := Regs(a[..], out[..]);
      UnwrapRowsStep(kek, sj, n, j);
      var i := n;
      while i >= 1
        invariant 0 <= i <= n
        invariant Shaped(Regs(a[..], out[..]), n)
        invariant UnwrapRow(kek, Regs(a[..], out[..]), n, j, i) == UnwrapRow(kek, sj, n, j, n)
      {
        UnwrapRowStep(kek, Regs(a[..], out[..]), n, j, i);
        UnwrapTurn(sbox, inv, kek, a, out, n, j, i);
        i := i - 1;
      }
      UnwrapRowStep(kek, Regs(a[..], out[..]), n, j, 0);
    }
    UnwrapRowsEnd(kek, Regs(a[..], out[..]), n);
    ok := a[..] == IV;
  }

  lemma UnwrapRowStep(kek: Block, s: Regs, n: nat, j: nat, i: nat)
    requires Shaped(s, n) && i <= n
    ensures i == 0 ==> UnwrapRow(kek, s, n, j, i) == s
    ensures i > 0 ==> UnwrapRow(kek, s, n, j, i) == UnwrapRow(kek, UnwrapStep(kek, s, n, j, i), n, j, i - 1)
  {
  }

  lemma UnwrapRowsStep(kek: Block, s: Regs, n: nat, j: nat)
    requires Shaped(s, n)
    ensures UnwrapRows(kek, s, n, j + 1) == UnwrapRows(kek, UnwrapRow(kek, s, n, j, n), n, j)
  {
  }

  lemma UnwrapRowsEnd(kek: Block, s: Regs, n: nat)
    requires Shaped(s, n)
    ensures UnwrapRows(kek, s, n, 0) == s
  {
  }

  // ---- The width of the step counter ----

  /** RFC 3394 section 2.2.1, step 2: the counter enters as a 64-bit big-endian number. */
  function StandardTag(a: seq<bv8>, t: nat): (r: seq<bv8>)
    requires |a| == 8
    ensures |r| == 8
  {
    [Xor(a[0], Digit(t, 7)), Xor(a[1], Digit(t, 6)), Xor(a[2], Digit(t, 5)), Xor(a[3], Digit(t, 4)),
     Xor(a[4], Digit(t, 3)), Xor(a[5], Digit(t, 2)), Xor(a[6], Digit(t, 1)), Xor(a[7], Digit(t, 0))]
  }

  function Shifted(t: nat, k: nat): nat {
    if k == 0 then t else Shifted(t, k - 1) / 256
  }

  /** The `k`-th byte of a number, from the lowest. */
  function Digit(t: nat, k: nat): bv8 {
    ByteOf(Shifted(t, k) % 256)
  }

  lemma XorNone(x: bv8, b: bv8)
    ensures Xor(x, b) == x <==> b == 0
  {
  }

  lemma DigitZero(t: nat, k: nat)
    ensures Digit(t, k) == 0 <==> Shifted(t, k) % 256 == 0
  {
    ByteOfIs(Shifted(t, k) % 256);
    ByteOfIs(0);
  }

  lemma ShiftedNext(t: nat, k: nat)
    ensures Shifted(t, k + 1) == Shifted(t, k) / 256 && Shifted(t, 0) == t
  {
  }

  lemma {:induction false} ShiftedSmall(t: nat, k: nat)
    requires t < 0x1_0000 && k >= 2
    ensures Shifted(t, k) == 0
  {
    hide Shifted;
    ShiftedNext(t, k - 1);
    if k == 2 {
      ShiftedNext(t, 0);
    } else {
      ShiftedSmall(t, k - 1);
    }
  }

  /** Without upper digits the number is small. */
  lemma {:induction false} ShiftedZero(t: nat, k: nat)
    requires 2 <= k <= 8 && Shifted(t, 8) == 0 && forall j :: 2 <= j < 8 ==> Shifted(t, j) % 256 == 0
    ensures Shifted(t, k) == 0
    decreases 8 - k
  {
    hide Shifted;
    if k < 8 {
      ShiftedNext(t, k);
      ShiftedZero(t, k + 1);
    }
  }

  /** Tagging with the low two bytes is the standard's tag exactly while the counter is below 65536. */
  lemma TagIsStandard(a: seq<bv8>, t: nat)
    requires |a| == 8 && Shifted(t, 8) == 0
    ensures Tag(a, t) == StandardTag(a, t) <==> t < 0x1_0000
  {
    hide ByteOf, Xor, Shifted, Digit;
    TagDigits(a, t);
    var x, y := Tag(a, t), StandardTag(a, t);
    forall i | 0 <= i < 6 ensures y[i] == x[i] <==> Shifted(t, 7 - i) % 256 == 0 {
      XorNone(a[i], Digit(t, 7 - i));
      DigitZero(t, 7 - i);
      assert y[i] == Xor(a[i], Digit(t, 7 - i)) && x[i] == a[i];
    }
    if t < 0x1_0000 {
      forall i | 0 <= i < 6 ensures y[i] == x[i] {
        ShiftedSmall(t, 7 - i);
      }
    } else if x == y {
      forall k | 2 <= k < 8 ensures Shifted(t, k) % 256 == 0 {
        assert y[7 - k] == x[7 - k];
      }
      ShiftedZero(t, 2);
      ShiftedNext(t, 0);
      ShiftedNext(t, 1);
      assert false;
    }
  }

  lemma TagDigits(a: seq<bv8>, t: nat)
    requires |a| == 8
    ensures Tag(a, t) == [a[0], a[1], a[2], a[3], a[4], a[5], Xor(a[6], Digit(t, 1)), Xor(a[7], Digit(t, 0))]
  {
    hide ByteOf, Xor;
    assert Shifted(t, 1) == t / 256 && Shifted(t, 0) == t;
  }

  /**
   * The wrap of RFC 3394 section 2.2.1 as it is first given: the registers shift by one place in every step, the first
   * one goes through the cipher and comes back at the end, and the counter runs from 1.
   */
  function ShiftStep(kek: Block, s: Regs, t: nat): (s': Regs)
    requires |s.a| == 8 && |s.r| >= 8
    ensures |s'.a| == 8 && |s'.r| == |s.r|
  {
    var b := Encrypt(kek, s.a + s.r[..8]);
    Regs(StandardTag(b[..8], t), s.r[8..] + b[8..])
  }

  function ShiftSteps(kek: Block, s: Regs, t: nat): (s': Regs)
    requires |s.a| == 8 && (t > 0 ==> |s.r| >= 8)
    ensures |s'.a| == 8 && |s'.r| == |s.r|
  {
    if t == 0 then s else ShiftStep(kek, ShiftSteps(kek, s, t - 1), t)
  }

  function StandardWrap(kek: Block, plain: seq<bv8>): seq<bv8>
    requires |plain| % 8 == 0
  {
    var s := ShiftSteps(kek, Regs([0xA6, 0xA6, 0xA6, 0xA6, 0xA6, 0xA6, 0xA6, 0xA6], plain), 6 * (|plain| / 8));
    s.a + s.r
  }

  /** The registers shifted by `i` places, going round. */
  function Rotated(r: seq<bv8>, i: nat): seq<bv8>
    requires 8 * i <= |r|
  {
    r[8 * i..] + r[..8 * i]
  }

  lemma RotatedStep(r: seq<bv8>, i: nat, x: seq<bv8>)
    requires 1 <= i && 8 * i <= |r| && |x| == 8
    ensures |Rotated(r, i - 1)| == |r| && Rotated(r, i - 1)[..8] == Reg(r, i)
    ensures Rotated(r, i - 1)[8..] + x == Rotated(SetReg(r, i, x), i)
  {
    var old' := Rotated(r, i - 1);
    assert old'[..8] == r[8 * i - 8..8 * i];
    assert old'[8..] == r[8 * i..] + r[..8 * i - 8];
    var new' := SetReg(r, i, x);
    assert new'[8 * i..] == r[8 * i..] && new'[..8 * i] == r[..8 * i - 8] + x;
    assert (r[8 * i..] + r[..8 * i - 8]) + x == r[8 * i..] + (r[..8 * i - 8] + x);
  }

  lemma RotatedWhole(r: seq<bv8>, n: nat)
    requires |r| == 8 * n
    ensures Rotated(r, n) == r && Rotated(r, 0) == r
  {
  }

  lemma TurnSmall(n: nat, j: nat, i: nat)
    requires j < 6 && i <= n && 6 * n < 0x1_0000
    ensures Turn(n, j, i) < 0x1_0000
  {
    assert n * j <= n * 5;
  }

  /** After `t` shifts the registers are those of `w`, shifted by `i` places. */
  ghost predicate Stands(kek: Block, s0: Regs, t: nat, w: Regs, i: nat)
    requires |s0.a| == 8 && |s0.r| >= 8
  {
    8 * i <= |w.r| && ShiftSteps(kek, s0, t) == Regs(w.a, Rotated(w.r, i))
  }

  /** Step i of the round behind `t` shifts is shift t + i, with the registers shifted by i places. */
  lemma {:induction false} RowIsShift(kek: Block, s0: Regs, s: Regs, n: nat, j: nat, t: nat, i: nat)
    requires 0 < n && Shaped(s0, n) && Shaped(s, n) && i <= n && j < 6 && 6 * n < 0x1_0000
    requires ShiftSteps(kek, s0, t) == s && t == Turn(n, j, 0)
    ensures Stands(kek, s0, t + i, WrapRow(kek, s, n, j, i), i)
  {
    hide Encrypt, Tag, StandardTag, SetReg, Reg, Rotated, Turn;
    if i == 0 {
      RotatedWhole(s.r, n);
    } else {
      RowIsShift(kek, s0, s, n, j, t, i - 1);
      var before := WrapRow(kek, s, n, j, i - 1);
      var b := Encrypt(kek, before.a + Reg(before.r, i));
      RotatedStep(before.r, i, b[8..]);
      TurnSmall(n, j, i);
      TurnFrom(n, j, i);
      ShiftedSmall(Turn(n, j, i), 8);
      TagIsStandard(b[..8], Turn(n, j, i));
    }
  }

  lemma TurnFrom(n: nat, j: nat, i: nat)
    ensures Turn(n, j, i) == Turn(n, j, 0) + i && Turn(n, j, n) == Turn(n, j + 1, 0) && Turn(n, 0, 0) == 0
  {
    assert n * (j + 1) == n * j + n;
  }

  lemma {:induction false} RowsAreShifts(kek: Block, s: Regs, n: nat, j: nat)
    requires 0 < n && Shaped(s, n) && j <= 6 && 6 * n < 0x1_0000
    ensures WrapRows(kek, s, n, j) == ShiftSteps(kek, s, Turn(n, j, 0))
  {
    hide WrapRow, ShiftSteps, Rotated, Turn;
    if j > 0 {
      RowsAreShifts(kek, s, n, j - 1);
      var before := WrapRows(kek, s, n, j - 1);
      RowIsShift(kek, s, before, n, j - 1, Turn(n, j - 1, 0), n);
      RotatedWhole(WrapRow(kek, before, n, j - 1, n).r, n);
      TurnFrom(n, j - 1, n);
    } else {
      TurnFrom(n, 0, 0);
      NoShift(kek, s);
    }
  }

  lemma {:induction false} NoRegisters(kek: Block, s: Regs, j: nat)
    requires Shaped(s, 0)
    ensures WrapRows(kek, s, 0, j) == s
  {
    if j > 0 {
      NoRegisters(kek, s, j - 1);
    }
  }

  lemma NoShift(kek: Block, s: Regs)
    requires |s.a| == 8
    ensures ShiftSteps(kek, s, 0) == s
  {
  }

  /** The code's wrap is the standard's while six times the number of registers is below 65536. */
  lemma WrapIsStandard(kek: Block, plain: seq<bv8>)
    requires |plain| % 8 == 0 && 6 * (|plain| / 8) < 0x1_0000
    ensures Wrap(kek, plain) == StandardWrap(kek, plain)
  {
    hide WrapRows, ShiftSteps;
    var n := |plain| / 8;
    if n == 0 {
      NoRegisters(kek, Regs(IV, plain), 6);
      NoShift(kek, Regs(IV, plain));
    } else {
      RowsAreShifts(kek, Regs(IV, plain), n, 6);
    }
  }

  /** That is exactly while every counter of the run is one the code tags with as the standard does. */
  lemma CountersFit(n: nat)
    ensures 6 * n < 0x1_0000 <==> forall j, i :: 0 <= j < 6 && 1 <= i <= n ==> Turn(n, j, i) < 0x1_0000
  {
    hide Turn;
    if 6 * n < 0x1_0000 {
      forall j, i | 0 <= j < 6 && 1 <= i <= n ensures Turn(n, j, i) < 0x1_0000 {
        TurnSmall(n, j, i);
      }
    } else {
      LastTurn(n);
    }
  }

  lemma LastTurn(n: nat)
    ensures Turn(n, 5, n) == 6 * n
  {
  }
}
