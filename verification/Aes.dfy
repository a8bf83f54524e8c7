/** AES-128 in both directions, on the 16-byte state. */
module Aes {
  import opened AesTables

  type Block = s: seq<bv8> | |s| == 16 witness [0, 0, 0, 0, 0, 0, 0, 0, 0, 0, 0, 0, 0, 0, 0, 0]

  function Xor(a: bv8, b: bv8): bv8 {
    a ^ b
  }

  function AddKey(s: Block, k: Block): Block {
    seq(16, i requires 0 <= i < 16 => s[i] ^ k[i])
  }

  function SubBytes(s: Block): Block {
    seq(16, i requires 0 <= i < 16 => Sbox(s[i]))
  }

  function InvSubBytes(s: Block): Block {
    seq(16, i requires 0 <= i < 16 => InvSbox(s[i]))
  }

  /** Byte 4c+r is row r of column c; row r moves r columns to the left. */
  function ShiftRows(s: Block): Block {
    seq(16, i requires 0 <= i < 16 => s[Left(i)])
  }

  function InvShiftRows(s: Block): Block {
    seq(16, i requires 0 <= i < 16 => s[Right(i)])
  }

  /** The first byte of a mixed column; the others are the same on the rotated column. */
  function MixByte(a: bv8, b: bv8, c: bv8, d: bv8): bv8 {
    a ^ (a ^ b ^ c ^ d) ^ Xtime(a ^ b)
  }

  /** The byte `n` rows further down the same column, going round. */
  function RowDown(i: nat, n: nat): (j: nat)
    requires i < 16
    ensures j < 16
  {
    4 * (i / 4) + (i % 4 + n) % 4
  }

  lemma RowDownTwice(i: nat, n: nat, m: nat)
    requires i < 16
    ensures RowDown(RowDown(i, n), m) == RowDown(i, n + m) && RowDown(i, 4) == i && RowDown(i, n + 4) == RowDown(i, n)
  {
    var c, r := i / 4, (i % 4 + n) % 4;
    assert (4 * c + r) / 4 == c && (4 * c + r) % 4 == r;
  }

  function MixColumns(s: Block): Block {
    seq(16, i requires 0 <= i < 16 => MixByte(s[i], s[RowDown(i, 1)], s[RowDown(i, 2)], s[RowDown(i, 3)]))
  }

  /** The correction inv_mix_columns() makes before it mixes. */
  function PreByte(a: bv8, c: bv8): bv8 {
    a ^ Xtime(Xtime(a ^ c))
  }

  function PreMix(s: Block): Block {
    seq(16, i requires 0 <= i < 16 => PreByte(s[i], s[RowDown(i, 2)]))
  }

  function InvMixColumns(s: Block): Block {
    MixColumns(PreMix(s))
  }

  // ---- Key schedule ----

  function Rcon(n: nat): bv8 {
    if n == 0 then 1 else Xtime(Rcon(n - 1))
  }

  /** The next four bytes of the schedule: every fourth word goes through the S-box first. */
  function NextWord(rk: seq<bv8>): (w: seq<bv8>)
    requires |rk| >= 16
    ensures |w| == 4
  {
    var n := |rk|;
    var u := if n % 16 == 0
      then [Xor(Sbox(rk[n - 3]), Rcon(n / 16 - 1)), Sbox(rk[n - 2]), Sbox(rk[n - 1]), Sbox(rk[n - 4])]
      else rk[n - 4..];
    [Xor(rk[n - 16], u[0]), Xor(rk[n - 15], u[1]), Xor(rk[n - 14], u[2]), Xor(rk[n - 13], u[3])]
  }

  function Schedule(key: Block, words: nat): (rk: seq<bv8>)
    requires words >= 4
    ensures |rk| == 4 * words
  {
    if words == 4 then key else
    var rk := Schedule(key, words - 1);
    rk + NextWord(rk)
  }

  function RoundKey(rk: seq<bv8>, r: nat): Block
    requires |rk| == 176 && r <= 10
  {
    rk[16 * r..16 * r + 16]
  }

  // ---- The cipher and its inverse ----

  /** The state after the key addition and `r` full rounds. */
  function Rounds(rk: seq<bv8>, s: Block, r: nat): Block
    requires |rk| == 176 && r <= 9
  {
    if r == 0 then AddKey(s, RoundKey(rk, 0))
    else AddKey(MixColumns(ShiftRows(SubBytes(Rounds(rk, s, r - 1)))), RoundKey(rk, r))
  }

  function EncryptWith(rk: seq<bv8>, s: Block): Block
    requires |rk| == 176
  {
    AddKey(ShiftRows(SubBytes(Rounds(rk, s, 9))), RoundKey(rk, 10))
  }

  /** The state after `r` undone full rounds, from round 9 down. */
  function InvRounds(rk: seq<bv8>, s: Block, r: nat): Block
    requires |rk| == 176 && r <= 9
  {
    if r == 0 then AddKey(s, RoundKey(rk, 10))
    else InvMixColumns(AddKey(InvSubBytes(InvShiftRows(InvRounds(rk, s, r - 1))), RoundKey(rk, 10 - r)))
  }

  function DecryptWith(rk: seq<bv8>, s: Block): Block
    requires |rk| == 176
  {
    AddKey(InvSubBytes(InvShiftRows(InvRounds(rk, s, 9))), RoundKey(rk, 0))
  }

  function Encrypt(key: Block, s: Block): Block {
    EncryptWith(Schedule(key, 44), s)
  }

  function Decrypt(key: Block, s: Block): Block {
    DecryptWith(Schedule(key, 44), s)
  }

  // ---- Each layer has an inverse ----

  lemma AddKeyTwice(s: Block, k: Block)
    ensures AddKey(AddKey(s, k), k) == s
  {
    forall i | 0 <= i < 16 ensures AddKey(AddKey(s, k), k)[i] == s[i] {
      assert (s[i] ^ k[i]) ^ k[i] == s[i];
    }
  }

  lemma SubBytesInverse(s: Block)
    ensures InvSubBytes(SubBytes(s)) == s && SubBytes(InvSubBytes(s)) == s
  {
    hide Sbox, InvSbox;
    forall i | 0 <= i < 16 ensures InvSbox(Sbox(s[i])) == s[i] && Sbox(InvSbox(s[i])) == s[i] {
      SboxPermutation(s[i]);
    }
  }

  /** Where ShiftRows and its inverse fetch byte `i` from. */
  function Left(i: nat): (j: nat)
    requires i < 16
    ensures j < 16
  {
    4 * ((i / 4 + i % 4) % 4) + i % 4
  }

  function Right(i: nat): (j: nat)
    requires i < 16
    ensures j < 16
  {
    4 * ((i / 4 + 4 - i % 4) % 4) + i % 4
  }

  /** The column `k` places on, going round. */
  function Round4(c: nat, k: nat): (d: nat)
    requires c < 4 && k <= 4
    ensures d < 4
  {
    if c + k < 4 then c + k else c + k - 4
  }

  lemma Round4Is(c: nat, k: nat)
    requires c < 4 && k <= 4
    ensures (c + k) % 4 == Round4(c, k)
  {
  }

  lemma LeftRightAt(c: nat, r: nat)
    requires c < 4 && r < 4
    ensures Left(4 * c + r) == 4 * Round4(c, r) + r && Right(4 * c + r) == 4 * Round4(c, 4 - r) + r
  {
    hide Round4;
    Place(c, r);
    Round4Is(c, r);
    Round4Is(c, 4 - r);
  }

  lemma LeftRight(i: nat)
    requires i < 16
    ensures Left(Right(i)) == i && Right(Left(i)) == i
  {
    hide Left, Right;
    var c, r := i / 4, i % 4;
    LeftRightAt(c, r);
    LeftRightAt(Round4(c, r), r);
    LeftRightAt(Round4(c, 4 - r), r);
  }

  lemma Place(c: nat, r: nat)
    requires c < 4 && r < 4
    ensures (4 * c + r) / 4 == c && (4 * c + r) % 4 == r
  {
  }

  lemma Around(c: nat, r: nat)
    requires c < 4 && r < 4
    ensures ((c + r) % 4 + 4 - r) % 4 == c && ((c + 4 - r) % 4 + r) % 4 == c
  {
  }

  lemma ShiftRowsInverse(s: Block)
    ensures InvShiftRows(ShiftRows(s)) == s && ShiftRows(InvShiftRows(s)) == s
  {
    hide Left, Right;
    forall i | 0 <= i < 16
      ensures InvShiftRows(ShiftRows(s))[i] == s[i] && ShiftRows(InvShiftRows(s))[i] == s[i]
    {
      LeftRight(i);
    }
  }

  // The sums below are stated once over plain XORs, where terms cancel by themselves, and used through Xor5.

  function Xor5(v: bv8, w: bv8, x: bv8, y: bv8, z: bv8): bv8 {
    v ^ w ^ x ^ y ^ z
  }

  function Xor3(a: bv8, b: bv8, c: bv8): bv8 {
    a ^ (b ^ c)
  }

  lemma Xor5Def(v: bv8, w: bv8, x: bv8, y: bv8, z: bv8)
    ensures Xor5(v, w, x, y, z) == v ^ w ^ x ^ y ^ z
  {
  }

  lemma XtimeDef(x: bv8)
    ensures Xtime(x) == (x << 1) ^ ((x >> 7) * 0x1b)
  {
  }

  lemma XtimeXor(a: bv8, b: bv8)
    ensures Xtime(a ^ b) == Xtime(a) ^ Xtime(b)
  {
  }

  lemma XtimeSum(a: bv8, b: bv8, c: bv8, d: bv8, e: bv8)
    ensures Xtime(a ^ b ^ c ^ d ^ e) ==
            Xor5((a << 1) ^ ((a >> 7) * 0x1b), (b << 1) ^ ((b >> 7) * 0x1b), (c << 1) ^ ((c >> 7) * 0x1b),
                 (d << 1) ^ ((d >> 7) * 0x1b), (e << 1) ^ ((e >> 7) * 0x1b))
  {
  }

  lemma XtimeXor5(a: bv8, b: bv8, c: bv8, d: bv8, e: bv8)
    ensures Xtime(Xor5(a, b, c, d, e)) == Xor5(Xtime(a), Xtime(b), Xtime(c), Xtime(d), Xtime(e))
  {
    hide Xtime, Xor5;
    XtimeSum(a, b, c, d, e);
    Xor5Def(a, b, c, d, e);
    XtimeDef(a); XtimeDef(b); XtimeDef(c); XtimeDef(d); XtimeDef(e);
  }

  lemma MixByteIs(a: bv8, b: bv8, c: bv8, d: bv8)
    ensures MixByte(a, b, c, d) == Xor5(b, c, d, Xtime(a), Xtime(b))
  {
    hide Xtime;
    XtimeXor(a, b);
  }

  lemma PreByteDef(a: bv8, c: bv8)
    ensures PreByte(a, c) == Xor(a, Xtime(Xtime(Xor(a, c))))
  {
    hide Xtime;
  }

  lemma XtimeOfXor(a: bv8, b: bv8)
    ensures Xtime(Xor(a, b)) == Xor(Xtime(a), Xtime(b))
  {
    hide Xtime;
    XtimeXor(a, b);
  }

  lemma Xor3Def(a: bv8, b: bv8, c: bv8)
    ensures Xor3(a, b, c) == Xor(a, Xor(b, c))
  {
  }

  lemma PreByteIs(a: bv8, c: bv8)
    ensures PreByte(a, c) == Xor3(a, Xtime(Xtime(a)), Xtime(Xtime(c)))
  {
    hide Xtime, Xor, Xor3, PreByte;
    PreByteDef(a, c);
    XtimeOfXor(a, c);
    XtimeOfXor(Xtime(a), Xtime(c));
    Xor3Def(a, Xtime(Xtime(a)), Xtime(Xtime(c)));
  }

  lemma Cancel(a: bv8, b: bv8, c: bv8, d: bv8, a1: bv8, b1: bv8, c1: bv8, d1: bv8, a2: bv8, b2: bv8, c2: bv8)
    ensures Xor5(c ^ d ^ a ^ b1 ^ c1, d ^ a ^ b ^ c1 ^ d1, a ^ b ^ c ^ d1 ^ a1,
                 b1 ^ c1 ^ d1 ^ a2 ^ b2, c1 ^ d1 ^ a1 ^ b2 ^ c2) == Xor3(a, a2, c2)
  {
  }

  lemma CancelXor5(a: bv8, b: bv8, c: bv8, d: bv8, a1: bv8, b1: bv8, c1: bv8, d1: bv8, a2: bv8, b2: bv8, c2: bv8)
    ensures Xor5(Xor5(c, d, a, b1, c1), Xor5(d, a, b, c1, d1), Xor5(a, b, c, d1, a1),
                 Xor5(b1, c1, d1, a2, b2), Xor5(c1, d1, a1, b2, c2)) == Xor3(a, a2, c2)
  {
    hide Xor5, Xor3;
    Xor5Def(c, d, a, b1, c1); Xor5Def(d, a, b, c1, d1); Xor5Def(a, b, c, d1, a1);
    Xor5Def(b1, c1, d1, a2, b2); Xor5Def(c1, d1, a1, b2, c2);
    Cancel(a, b, c, d, a1, b1, c1, d1, a2, b2, c2);
  }

  /** Mixing twice is the correction inv_mix_columns() starts with. */
  lemma MixByteTwice(a: bv8, b: bv8, c: bv8, d: bv8)
    ensures MixByte(MixByte(a, b, c, d), MixByte(b, c, d, a), MixByte(c, d, a, b), MixByte(d, a, b, c))
            == PreByte(a, c)
  {
    hide Xtime, MixByte, Xor5, Xor3, PreByte;
    var a1, b1, c1, d1 := Xtime(a), Xtime(b), Xtime(c), Xtime(d);
    MixByteIs(a, b, c, d); MixByteIs(b, c, d, a); MixByteIs(c, d, a, b); MixByteIs(d, a, b, c);
    MixByteIs(MixByte(a, b, c, d), MixByte(b, c, d, a), MixByte(c, d, a, b), MixByte(d, a, b, c));
    XtimeXor5(b, c, d, a1, b1);
    XtimeXor5(c, d, a, b1, c1);
    CancelXor5(a, b, c, d, a1, b1, c1, d1, Xtime(a1), Xtime(b1), Xtime(c1));
    PreByteIs(a, c);
  }

  lemma MixAt(s: Block, i: nat)
    requires i < 16
    ensures MixColumns(s)[i] == MixByte(s[i], s[RowDown(i, 1)], s[RowDown(i, 2)], s[RowDown(i, 3)])
  {
    hide MixByte, RowDown;
  }

  lemma PreAt(s: Block, i: nat)
    requires i < 16
    ensures PreMix(s)[i] == PreByte(s[i], s[RowDown(i, 2)])
  {
    hide PreByte, RowDown;
  }

  lemma MixTwiceAt(s: Block, i: nat)
    requires i < 16
    ensures MixColumns(MixColumns(s))[i] == PreMix(s)[i]
  {
    hide PreByte, MixByte, RowDown, MixColumns, PreMix;
    var j1, j2, j3 := RowDown(i, 1), RowDown(i, 2), RowDown(i, 3);
    RowDownTwice(i, 1, 1); RowDownTwice(i, 1, 2); RowDownTwice(i, 1, 3);
    RowDownTwice(i, 2, 1); RowDownTwice(i, 2, 2); RowDownTwice(i, 2, 3);
    RowDownTwice(i, 3, 1); RowDownTwice(i, 3, 2); RowDownTwice(i, 3, 3);
    MixAt(s, i); MixAt(s, j1); MixAt(s, j2); MixAt(s, j3);
    MixAt(MixColumns(s), i);
    PreAt(s, i);
    MixByteTwice(s[i], s[j1], s[j2], s[j3]);
  }

  lemma MixColumnsTwice(s: Block)
    ensures MixColumns(MixColumns(s)) == PreMix(s)
  {
    hide MixColumns, PreMix;
    forall i | 0 <= i < 16 ensures MixColumns(MixColumns(s))[i] == PreMix(s)[i] {
      MixTwiceAt(s, i);
    }
  }

  lemma XorCancels(a: bv8, c: bv8, u: bv8)
    ensures Xor(Xor(a, u), Xor(c, u)) == Xor(a, c) == Xor(c, a) && Xor(Xor(a, u), u) == a
  {
  }

  lemma PreByteTwice(a: bv8, c: bv8)
    ensures PreByte(PreByte(a, c), PreByte(c, a)) == a
  {
    hide PreByte, Xtime, Xor;
    var u := Xtime(Xtime(Xor(a, c)));
    XorCancels(a, c, u);
    PreByteDef(a, c);
    PreByteDef(c, a);
    PreByteDef(Xor(a, u), Xor(c, u));
  }

  lemma PreMixTwice(s: Block)
    ensures PreMix(PreMix(s)) == s
  {
    hide PreByte, RowDown, PreMix;
    forall i | 0 <= i < 16 ensures PreMix(PreMix(s))[i] == s[i] {
      var j := RowDown(i, 2);
      RowDownTwice(i, 2, 2);
      PreAt(s, i);
      PreAt(s, j);
      PreAt(PreMix(s), i);
      PreByteTwice(s[i], s[j]);
    }
  }

  /** Four mixings are the identity, so mixing after the correction undoes a mixing, on either side. */
  lemma MixColumnsInverse(s: Block)
    ensures InvMixColumns(MixColumns(s)) == s && MixColumns(InvMixColumns(s)) == s
  {
    hide MixColumns, PreMix;
    MixColumnsTwice(MixColumns(s));
    MixColumnsTwice(PreMix(s));
    MixColumnsTwice(s);
    MixColumnsTwice(MixColumns(MixColumns(s)));
    PreMixTwice(s);
  }

  // ---- Decryption undoes encryption, and the other way round ----

  lemma {:induction false} RoundsUndone(rk: seq<bv8>, s: Block, r: nat)
    requires |rk| == 176 && r <= 9
    ensures InvRounds(rk, EncryptWith(rk, s), 9 - r) == ShiftRows(SubBytes(Rounds(rk, s, r)))
    decreases 9 - r
  {
    hide AddKey, SubBytes, InvSubBytes, ShiftRows, InvShiftRows, MixColumns, InvMixColumns, RoundKey;
    if r == 9 {
      AddKeyTwice(ShiftRows(SubBytes(Rounds(rk, s, 9))), RoundKey(rk, 10));
    } else {
      RoundsUndone(rk, s, r + 1);
      var x := Rounds(rk, s, r + 1);
      var y := ShiftRows(SubBytes(Rounds(rk, s, r)));
      ShiftRowsInverse(SubBytes(x));
      SubBytesInverse(x);
      AddKeyTwice(MixColumns(y), RoundKey(rk, r + 1));
      MixColumnsInverse(y);
    }
  }

  lemma {:induction false} InvRoundsUndone(rk: seq<bv8>, s: Block, r: nat)
    requires |rk| == 176 && r <= 9
    ensures Rounds(rk, DecryptWith(rk, s), 9 - r) == InvSubBytes(InvShiftRows(InvRounds(rk, s, r)))
    decreases 9 - r
  {
    hide AddKey, SubBytes, InvSubBytes, ShiftRows, InvShiftRows, MixColumns, InvMixColumns, RoundKey;
    if r == 9 {
      AddKeyTwice(InvSubBytes(InvShiftRows(InvRounds(rk, s, 9))), RoundKey(rk, 0));
    } else {
      InvRoundsUndone(rk, s, r + 1);
      var x := InvRounds(rk, s, r + 1);
      var y := InvSubBytes(InvShiftRows(InvRounds(rk, s, r)));
      SubBytesInverse(InvShiftRows(x));
      ShiftRowsInverse(x);
      MixColumnsInverse(AddKey(y, RoundKey(rk, 9 - r)));
      AddKeyTwice(y, RoundKey(rk, 9 - r));
    }
  }

  /** For every key and block, each direction undoes the other. */
  lemma DecryptEncrypt(key: Block, s: Block)
    ensures Decrypt(key, Encrypt(key, s)) == s
    ensures Encrypt(key, Decrypt(key, s)) == s
  {
    hide AddKey, SubBytes, InvSubBytes, ShiftRows, InvShiftRows, MixColumns, InvMixColumns, RoundKey, Schedule;
    var rk := Schedule(key, 44);
    var x, y := Rounds(rk, s, 0), InvRounds(rk, s, 0);
    RoundsUndone(rk, s, 0);
    ShiftRowsInverse(SubBytes(x));
    SubBytesInverse(x);
    AddKeyTwice(s, RoundKey(rk, 0));
    InvRoundsUndone(rk, s, 0);
    SubBytesInverse(InvShiftRows(y));
    ShiftRowsInverse(y);
    AddKeyTwice(s, RoundKey(rk, 10));
  }
}
