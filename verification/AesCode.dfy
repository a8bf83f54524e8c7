/** The AES routines as the code runs them: in place, on arrays, with the generated tables. */
module AesCode {
  import opened AesTables
  import opened Aes

  method AddKeyInPlace(s: array<bv8>, k: seq<bv8>)
    requires s.Length == 16 && |k| == 16
    modifies s
    ensures s[..] == AddKey(old(s[..]), k)
  {
    for i := 0 to 16
      invariant forall j :: 0 <= j < i ==> s[j] == old(s[j]) ^ k[j]
      invariant forall j :: i <= j < 16 ==> s[j] == old(s[j])
    {
      s[i] := s[i] ^ k[i];
    }
    assert s[..] == AddKey(old(s[..]), k);
  }

  method SubBytesInPlace(s: array<bv8>, box: seq<bv8>)
    requires s.Length == 16 && |box| == 256
    modifies s
    ensures forall i :: 0 <= i < 16 ==> s[i] == box[old(s[i]) as int]
  {
    for i := 0 to 16
      invariant forall j :: 0 <= j < i ==> s[j] == box[old(s[j]) as int]
      invariant forall j :: i <= j < 16 ==> s[j] == old(s[j])
    {
      s[i] := box[s[i] as int];
    }
  }

  lemma PlaceOf(c: nat, r: nat)
    requires c < 4 && r < 4
    ensures Left(4 * c + r) == 4 * ((c + r) % 4) + r && Right(4 * ((c + r) % 4) + r) == 4 * c + r
  {
    Place(c, r);
    Place((c + r) % 4, r);
    Around(c, r);
  }

  method ShiftRowsInPlace(s: array<bv8>)
    requires s.Length == 16
    modifies s
    ensures s[..] == ShiftRows(old(s[..]))
  {
    hide Left, Right;
    ghost var was := s[..];
    var t := new bv8[16];
    for c := 0 to 4
      invariant s[..] == was && forall i :: 0 <= i < 4 * c ==> t[i] == was[Left(i)]
    {
      for r := 0 to 4
        invariant s[..] == was && forall i :: 0 <= i < 4 * c + r ==> t[i] == was[Left(i)]
      {
        PlaceOf(c, r);
        var to, from := 4 * c + r, 4 * ((c + r) % 4) + r;
        t[to] := s[from];
      }
    }
    CopyBlock(s, t);
    assert s[..] == ShiftRows(was);
  }

  method InvShiftRowsInPlace(s: array<bv8>)
    requires s.Length == 16
    modifies s
    ensures s[..] == InvShiftRows(old(s[..]))
  {
    hide Left, Right;
    ghost var was := s[..];
    var t := new bv8[16];
    for c := 0 to 4
      invariant s[..] == was && forall k :: 0 <= k < 16 && Right(k) < 4 * c ==> t[k] == was[Right(k)]
    {
      for r := 0 to 4
        invariant s[..] == was && forall k :: 0 <= k < 16 && Right(k) < 4 * c + r ==> t[k] == was[Right(k)]
      {
        PlaceOf(c, r);
        var from, to := 4 * c + r, 4 * ((c + r) % 4) + r;
        forall k | 0 <= k < 16 && Right(k) == from ensures k == to {
          LeftRight(k);
        }
        t[to] := s[from];
      }
    }
    CopyBlock(s, t);
    assert s[..] == InvShiftRows(was);
  }

  method CopyBlock(s: array<bv8>, t: array<bv8>)
    requires s.Length == t.Length == 16 && s != t
    modifies s
    ensures s[..] == t[..]
  {
    for i := 0 to 16
      invariant forall j :: 0 <= j < i ==> s[j] == t[j]
    {
      s[i] := t[i];
    }
  }

  lemma ColumnOf(c: nat, r: nat, n: nat)
    requires c < 4 && r < 4
    ensures RowDown(4 * c + r, n) == 4 * c + (r + n) % 4
  {
    Place(c, r);
  }

  method MixColumnsInPlace(s: array<bv8>)
    requires s.Length == 16
    modifies s
    ensures s[..] == MixColumns(old(s[..]))
  {
    hide MixByte, RowDown, Xtime, MixColumns;
    ghost var was := s[..];
    for c := 0 to 4
      invariant forall i :: 0 <= i < 4 * c ==> s[i] == MixColumns(was)[i]
      invariant forall i :: 4 * c <= i < 16 ==> s[i] == was[i]
    {
      MixOneColumn(s, c, was);
    }
    assert s[..] == MixColumns(was);
  }

  /** One column; the first byte is saved because the last one needs its old value. */
  method MixOneColumn(s: array<bv8>, c: nat, ghost was: seq<bv8>)
    requires s.Length == 16 && c < 4 && |was| == 16
    requires forall i :: 4 * c <= i < 16 ==> s[i] == was[i]
    modifies s
    ensures forall i :: 4 * c <= i < 4 * c + 4 ==> s[i] == MixColumns(was)[i]
    ensures forall i :: 0 <= i < 16 && !(4 * c <= i < 4 * c + 4) ==> s[i] == old(s[i])
  {
    hide MixByte, RowDown, MixColumns, MixStep, Total;
    MixColumnAt(was, c);
    var at := 4 * c;
    var t := Total(s[at], s[at + 1], s[at + 2], s[at + 3]);
    var a0 := s[at];
    MixSteps(s[at], s[at + 1], s[at + 2], s[at + 3]);
    s[at] := MixStep(t, s[at], s[at + 1]);
    s[at + 1] := MixStep(t, s[at + 1], s[at + 2]);
    s[at + 2] := MixStep(t, s[at + 2], s[at + 3]);
    s[at + 3] := MixStep(t, s[at + 3], a0);
  }

  function Total(a: bv8, b: bv8, c: bv8, d: bv8): bv8 {
    a ^ b ^ c ^ d
  }

  /** `x ^= t ^ xtime(x ^ y)`. */
  function MixStep(t: bv8, x: bv8, y: bv8): bv8 {
    x ^ (t ^ Xtime(x ^ y))
  }

  lemma MixStepIs(a: bv8, b: bv8, c: bv8, d: bv8)
    ensures MixStep(Total(a, b, c, d), a, b) == MixByte(a, b, c, d)
  {
    hide Xtime;
  }

  lemma TotalTurns(a: bv8, b: bv8, c: bv8, d: bv8)
    ensures Total(a, b, c, d) == Total(b, c, d, a)
  {
  }

  lemma MixSteps(a: bv8, b: bv8, c: bv8, d: bv8)
    ensures
      var t := Total(a, b, c, d);
      && MixStep(t, a, b) == MixByte(a, b, c, d) && MixStep(t, b, c) == MixByte(b, c, d, a)
      && MixStep(t, c, d) == MixByte(c, d, a, b) && MixStep(t, d, a) == MixByte(d, a, b, c)
  {
    hide MixByte, MixStep, Total;
    TotalTurns(a, b, c, d); TotalTurns(b, c, d, a); TotalTurns(c, d, a, b);
    MixStepIs(a, b, c, d); MixStepIs(b, c, d, a); MixStepIs(c, d, a, b); MixStepIs(d, a, b, c);
  }

  lemma MixColumnAt(s: Block, c: nat)
    requires c < 4
    ensures
      var m, at := MixColumns(s), 4 * c;
      && m[at] == MixByte(s[at], s[at + 1], s[at + 2], s[at + 3])
      && m[at + 1] == MixByte(s[at + 1], s[at + 2], s[at + 3], s[at])
      && m[at + 2] == MixByte(s[at + 2], s[at + 3], s[at], s[at + 1])
      && m[at + 3] == MixByte(s[at + 3], s[at], s[at + 1], s[at + 2])
  {
    hide MixByte, RowDown, MixColumns;
    ColumnOf(c, 0, 1); ColumnOf(c, 0, 2); ColumnOf(c, 0, 3);
    ColumnOf(c, 1, 1); ColumnOf(c, 1, 2); ColumnOf(c, 1, 3);
    ColumnOf(c, 2, 1); ColumnOf(c, 2, 2); ColumnOf(c, 2, 3);
    ColumnOf(c, 3, 1); ColumnOf(c, 3, 2); ColumnOf(c, 3, 3);
    MixAt(s, 4 * c); MixAt(s, 4 * c + 1); MixAt(s, 4 * c + 2); MixAt(s, 4 * c + 3);
  }

  method PreMixInPlace(s: array<bv8>)
    requires s.Length == 16
    modifies s
    ensures s[..] == PreMix(old(s[..]))
  {
    hide PreByte, RowDown, PreMix;
    ghost var was := s[..];
    for c := 0 to 4
      invariant forall i :: 0 <= i < 4 * c ==> s[i] == PreMix(was)[i]
      invariant forall i :: 4 * c <= i < 16 ==> s[i] == was[i]
    {
      PreMixColumnAt(was, c);
      var at := 4 * c;
      var u, v := Twice(s[at], s[at + 2]), Twice(s[at + 1], s[at + 3]);
      PreByteCode(s[at], s[at + 2]);
      PreByteCode(s[at + 1], s[at + 3]);
      hide Xor, Twice;
      s[at] := Xor(s[at], u);
      s[at + 1] := Xor(s[at + 1], v);
      s[at + 2] := Xor(s[at + 2], u);
      s[at + 3] := Xor(s[at + 3], v);
    }
    assert s[..] == PreMix(was);
  }

  function Twice(a: bv8, c: bv8): bv8 {
    Xtime(Xtime(a ^ c))
  }

  lemma PreByteCode(a: bv8, c: bv8)
    ensures PreByte(a, c) == Xor(a, Twice(a, c)) && PreByte(c, a) == Xor(c, Twice(a, c))
  {
    hide Xtime;
  }

  lemma PreMixColumnAt(s: Block, c: nat)
    requires c < 4
    ensures
      var m, at := PreMix(s), 4 * c;
      && m[at] == PreByte(s[at], s[at + 2]) && m[at + 1] == PreByte(s[at + 1], s[at + 3])
      && m[at + 2] == PreByte(s[at + 2], s[at]) && m[at + 3] == PreByte(s[at + 3], s[at + 1])
  {
    hide PreByte, RowDown, PreMix;
    ColumnOf(c, 0, 2); ColumnOf(c, 1, 2); ColumnOf(c, 2, 2); ColumnOf(c, 3, 2);
    PreAt(s, 4 * c); PreAt(s, 4 * c + 1); PreAt(s, 4 * c + 2); PreAt(s, 4 * c + 3);
  }

  method InvMixColumnsInPlace(s: array<bv8>)
    requires s.Length == 16
    modifies s
    ensures s[..] == InvMixColumns(old(s[..]))
  {
    hide PreMix, MixColumns;
    PreMixInPlace(s);
    MixColumnsInPlace(s);
  }

  /** One turn of the key schedule, on the bytes before it. */
  method NextWordCode(sbox: seq<bv8>, rk: seq<bv8>, rcon: bv8) returns (w: seq<bv8>)
    requires |sbox| == 256 && forall x: bv8 :: sbox[x as int] == Sbox(x)
    requires |rk| >= 16 && (|rk| % 16 == 0 ==> rcon == Rcon(|rk| / 16 - 1))
    ensures w == NextWord(rk)
  {
    hide Sbox, Xor, Rcon;
    var i := |rk|;
    var t0, t1, t2, t3 := rk[i - 4], rk[i - 3], rk[i - 2], rk[i - 1];
    if i % 16 == 0 {
      var u := t0;
      t0 := Xor(sbox[t1 as int], rcon);
      t1 := sbox[t2 as int];
      t2 := sbox[t3 as int];
      t3 := sbox[u as int];
    }
    w := [Xor(rk[i - 16], t0), Xor(rk[i - 15], t1), Xor(rk[i - 14], t2), Xor(rk[i - 13], t3)];
  }

  /** The key schedule, four bytes at a time. */
  method Expand(sbox: seq<bv8>, key: Block) returns (rk: seq<bv8>)
    requires |sbox| == 256 && forall x: bv8 :: sbox[x as int] == Sbox(x)
    ensures rk == Schedule(key, 44)
  {
    hide Sbox, Xtime, Schedule, NextWord, Rcon;
    rk := key;
    ScheduleStep(key, 4);
    RconStep(0);
    var rcon: bv8 := 1;
    for words := 4 to 44
      invariant rk == Schedule(key, words)
      invariant rcon == Rcon((words + 3) / 4 - 1)
    {
      ScheduleStep(key, words);
      var w := NextWordCode(sbox, rk, rcon);
      if |rk| % 16 == 0 {
        RconStep((words + 3) / 4 - 1);
        rcon := Xtime(rcon);
      }
      rk := rk + w;
    }
  }

  lemma RconStep(n: nat)
    ensures Rcon(0) == 1 && Rcon(n + 1) == Xtime(Rcon(n))
  {
  }

  lemma ScheduleStep(key: Block, words: nat)
    requires words >= 4
    ensures Schedule(key, 4) == key
    ensures Schedule(key, words + 1) == Schedule(key, words) + NextWord(Schedule(key, words))
  {
    hide NextWord;
  }

  lemma BoxIsSub(sbox: seq<bv8>, inv: seq<bv8>, s: Block, t: Block)
    requires IsTables(sbox, inv)
    ensures (forall i :: 0 <= i < 16 ==> t[i] == sbox[s[i] as int]) ==> t == SubBytes(s)
    ensures (forall i :: 0 <= i < 16 ==> t[i] == inv[s[i] as int]) ==> t == InvSubBytes(s)
  {
    hide Sbox, InvSbox;
  }

  method EncryptBlock(sbox: seq<bv8>, ghost inv: seq<bv8>, key: Block, inp: Block) returns (out: Block)
    requires IsTables(sbox, inv)
    ensures out == Encrypt(key, inp)
  {
    hide Sbox, InvSbox, AddKey, SubBytes, ShiftRows, MixColumns, Schedule;
    var rk := Expand(sbox, key);
    var s := new bv8[16](i requires 0 <= i < 16 => inp[i]);
    assert s[..] == inp;
    AddKeyInPlace(s, rk[0..16]);
    for r := 1 to 10
      invariant s[..] == Rounds(rk, inp, r - 1)
    {
      ghost var x := s[..];
      SubBytesInPlace(s, sbox);
      BoxIsSub(sbox, inv, x, s[..]);
      ShiftRowsInPlace(s);
      MixColumnsInPlace(s);
      AddKeyInPlace(s, rk[16 * r..16 * r + 16]);
    }
    ghost var x := s[..];
    SubBytesInPlace(s, sbox);
    BoxIsSub(sbox, inv, x, s[..]);
    ShiftRowsInPlace(s);
    AddKeyInPlace(s, rk[160..176]);
    out := s[..];
  }

  method DecryptBlock(sbox: seq<bv8>, inv: seq<bv8>, key: Block, inp: Block) returns (out: Block)
    requires IsTables(sbox, inv)
    ensures out == Decrypt(key, inp)
  {
    hide Sbox, InvSbox, AddKey, InvSubBytes, InvShiftRows, InvMixColumns, Schedule;
    var rk := Expand(sbox, key);
    var s := new bv8[16](i requires 0 <= i < 16 => inp[i]);
    assert s[..] == inp;
    AddKeyInPlace(s, rk[160..176]);
    for r := 9 downto 0
      invariant s[..] == InvRounds(rk, inp, 9 - r)
    {
      InvShiftRowsInPlace(s);
      ghost var y := s[..];
      SubBytesInPlace(s, inv);
      BoxIsSub(sbox, inv, y, s[..]);
      AddKeyInPlace(s, rk[16 * (r + 1)..16 * (r + 1) + 16]);
      InvMixColumnsInPlace(s);
    }
    InvShiftRowsInPlace(s);
    ghost var y := s[..];
    SubBytesInPlace(s, inv);
    BoxIsSub(sbox, inv, y, s[..]);
    AddKeyInPlace(s, rk[0..16]);
    out := s[..];
  }
}
