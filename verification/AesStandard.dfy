/** The cipher against FIPS 197, byte by byte: the key schedule of section 5.2 and the rounds of section 5.1. */
module AesStandard {
  import opened AesTables
  import opened Aes
  import opened AesField

  /** The round constants of FIPS 197 section 5.2. */
  const ROUND_CONSTANTS: seq<bv8> := [0x01, 0x02, 0x04, 0x08, 0x10, 0x20, 0x40, 0x80, 0x1b, 0x36]

  // ---- The key schedule ----

  lemma {:induction false} SchedulePrefix(key: Block, n: nat, words: nat)
    requires 4 <= n <= words
    ensures Schedule(key, n) <= Schedule(key, words)
    decreases words
  {
    hide NextWord;
    if n < words {
      SchedulePrefix(key, n, words - 1);
    }
  }

  lemma XtimeOfPowers()
    ensures Xtime(0x01) == 0x02 && Xtime(0x02) == 0x04 && Xtime(0x04) == 0x08 && Xtime(0x08) == 0x10
    ensures Xtime(0x10) == 0x20 && Xtime(0x20) == 0x40 && Xtime(0x40) == 0x80 && Xtime(0x80) == 0x1b
    ensures Xtime(0x1b) == 0x36
  {
  }

  lemma {:induction false} RconIs(n: nat)
    requires n < 10
    ensures Rcon(n) == ROUND_CONSTANTS[n]
  {
    hide Xtime;
    XtimeOfPowers();
    if n > 0 {
      RconIs(n - 1);
    }
  }

  /** The bytes of the next word, each on its own. */
  lemma NextBytes(rk: seq<bv8>, i: nat)
    requires i >= 4 && |rk| == 4 * i
    ensures
      var n, w := 4 * i, NextWord(rk);
      if i % 4 == 0 then
        && w[0] == Xor(rk[n - 16], Xor(Sbox(rk[n - 3]), Rcon(i / 4 - 1)))
        && w[1] == Xor(rk[n - 15], Sbox(rk[n - 2]))
        && w[2] == Xor(rk[n - 14], Sbox(rk[n - 1]))
        && w[3] == Xor(rk[n - 13], Sbox(rk[n - 4]))
      else
        && w[0] == Xor(rk[n - 16], rk[n - 4]) && w[1] == Xor(rk[n - 15], rk[n - 3])
        && w[2] == Xor(rk[n - 14], rk[n - 2]) && w[3] == Xor(rk[n - 13], rk[n - 1])
  {
    hide Xor, Sbox, Rcon;
    Quarter(i);
  }

  lemma Quarter(i: nat)
    ensures (4 * i % 16 == 0 <==> i % 4 == 0) && 4 * i / 16 == i / 4
  {
  }

  /** Word i of the whole schedule is the next one behind the schedule so far. */
  lemma WordOf(key: Block, i: nat)
    requires 4 <= i < 44
    ensures
      var w, rk, next := Schedule(key, 44), Schedule(key, i), NextWord(Schedule(key, i));
      && (forall m :: 0 <= m < 4 * i ==> w[m] == rk[m])
      && w[4 * i] == next[0] && w[4 * i + 1] == next[1] && w[4 * i + 2] == next[2] && w[4 * i + 3] == next[3]
  {
    hide NextWord, Schedule;
    Longer(key, i);
    SchedulePrefix(key, i, 44);
    SchedulePrefix(key, i + 1, 44);
    var w, longer := Schedule(key, 44), Schedule(key, i + 1);
    assert forall m :: 0 <= m < 4 * i + 4 ==> w[m] == longer[m];
  }

  /**
   * The first four words are the key. Word i is word i - 4 with word i - 1 added; where i is a multiple of 4, word
   * i - 1 is first rotated by one byte and put through the S-box, and a round constant is added to its first byte.
   */
  lemma ScheduleWords(key: Block, i: nat)
    requires 4 <= i < 44
    ensures
      var w, at := Schedule(key, 44), 4 * i;
      && w[..16] == key
      && (if i % 4 == 0 then
            && w[at] == Xor(w[at - 16], Xor(Sbox(w[at - 3]), ROUND_CONSTANTS[i / 4 - 1]))
            && w[at + 1] == Xor(w[at - 15], Sbox(w[at - 2]))
            && w[at + 2] == Xor(w[at - 14], Sbox(w[at - 1]))
            && w[at + 3] == Xor(w[at - 13], Sbox(w[at - 4]))
          else
            && w[at] == Xor(w[at - 16], w[at - 4]) && w[at + 1] == Xor(w[at - 15], w[at - 3])
            && w[at + 2] == Xor(w[at - 14], w[at - 2]) && w[at + 3] == Xor(w[at - 13], w[at - 1]))
  {
    hide Xor, Sbox, Rcon, NextWord, Schedule;
    Longer(key, i);
    SchedulePrefix(key, 4, 44);
    WordOf(key, i);
    NextBytes(Schedule(key, i), i);
    if i % 4 == 0 {
      RconIs(i / 4 - 1);
    }
  }

  lemma Longer(key: Block, words: nat)
    requires words >= 4
    ensures Schedule(key, 4) == key && Schedule(key, words + 1) == Schedule(key, words) + NextWord(Schedule(key, words))
  {
    hide NextWord;
  }

  // ---- The rounds ----

  /** The byte in row `row` of column `c`: the state is stored column by column. */
  function Cell(x: Block, c: nat, row: nat): bv8
    requires c < 4 && row < 4
  {
    x[4 * c + row]
  }

  /** Row `row` of column `c` after the S-box and the row shift: row r comes from r columns to the right. */
  function Shifted(x: Block, c: nat, row: nat): bv8 {
    Sbox(Cell(x, (c + row % 4) % 4, row % 4))
  }

  lemma ShiftedAt(x: Block, c: nat, row: nat)
    requires c < 4 && row < 4
    ensures ShiftRows(SubBytes(x))[4 * c + row] == Shifted(x, c, row)
  {
    hide Sbox;
    Place(c, row);
  }

  lemma ShiftedAround(x: Block, c: nat, row: nat)
    ensures Shifted(x, c, row + 4) == Shifted(x, c, row)
  {
    assert (row + 4) % 4 == row % 4;
  }

  /** One byte of a full round. */
  function RoundByte(x: Block, c: nat, row: nat, k: bv8): bv8 {
    var mixed := Xor(Xor(Mul(Shifted(x, c, row), 2), Mul(Shifted(x, c, row + 1), 3)),
                     Xor(Shifted(x, c, row + 2), Shifted(x, c, row + 3)));
    Xor(mixed, k)
  }

  lemma DownFrom(c: nat, row: nat, n: nat)
    requires c < 4 && row < 4 && n < 4
    ensures RowDown(4 * c + row, n) == 4 * c + (row + n) % 4
  {
    Place(c, row);
  }

  lemma ShiftedDown(x: Block, c: nat, row: nat, n: nat)
    requires c < 4 && row < 4 && n < 4
    ensures ShiftRows(SubBytes(x))[RowDown(4 * c + row, n)] == Shifted(x, c, row + n)
  {
    hide ShiftRows, SubBytes, Shifted, RowDown;
    DownFrom(c, row, n);
    ShiftedAt(x, c, (row + n) % 4);
    if row + n >= 4 {
      ShiftedAround(x, c, row + n - 4);
    }
  }

  lemma AddKeyAt(s: Block, k: Block, i: nat)
    requires i < 16
    ensures AddKey(s, k)[i] == Xor(s[i], k[i])
  {
  }

  lemma RoundBytes(x: Block, k: Block, c: nat, row: nat)
    requires c < 4 && row < 4
    ensures AddKey(MixColumns(ShiftRows(SubBytes(x))), k)[4 * c + row] == RoundByte(x, c, row, k[4 * c + row])
  {
    hide Mul, Xor, MixByte, Shifted, ShiftRows, SubBytes, MixColumns, AddKey, RowDown;
    var y, i := ShiftRows(SubBytes(x)), 4 * c + row;
    AddKeyAt(MixColumns(y), k, i);
    MixAt(y, i);
    RowDownTwice(i, 0, 0);
    ShiftedAt(x, c, row);
    ShiftedDown(x, c, row, 1);
    ShiftedDown(x, c, row, 2);
    ShiftedDown(x, c, row, 3);
    MixIsStandard(Shifted(x, c, row), Shifted(x, c, row + 1), Shifted(x, c, row + 2), Shifted(x, c, row + 3));
  }

  /** `states[r]` is the state after the key addition of round `r`, by FIPS 197 section 5.1. */
  ghost predicate IsCipher(w: seq<bv8>, inp: Block, states: seq<Block>)
    requires |w| == 176
  {
    && |states| == 11
    && (forall i :: 0 <= i < 16 ==> states[0][i] == Xor(inp[i], w[i]))
    && (forall r, c, row :: 1 <= r < 10 && 0 <= c < 4 && 0 <= row < 4 ==>
          Cell(states[r], c, row) == RoundByte(states[r - 1], c, row, w[16 * r + (4 * c + row)]))
    && (forall c, row :: 0 <= c < 4 && 0 <= row < 4 ==>
          Cell(states[10], c, row) == Xor(Shifted(states[9], c, row), w[160 + (4 * c + row)]))
  }

  lemma FullRound(rk: seq<bv8>, s: Block, r: nat, c: nat, row: nat)
    requires |rk| == 176 && 1 <= r < 10 && c < 4 && row < 4
    ensures Rounds(rk, s, r)[4 * c + row] == RoundByte(Rounds(rk, s, r - 1), c, row, rk[16 * r + (4 * c + row)])
  {
    hide RoundByte, AddKey, MixColumns, ShiftRows, SubBytes;
    RoundBytes(Rounds(rk, s, r - 1), RoundKey(rk, r), c, row);
    assert RoundKey(rk, r)[4 * c + row] == rk[16 * r + (4 * c + row)];
  }

  lemma LastRound(rk: seq<bv8>, s: Block, c: nat, row: nat)
    requires |rk| == 176 && c < 4 && row < 4
    ensures EncryptWith(rk, s)[4 * c + row] == Xor(Shifted(Rounds(rk, s, 9), c, row), rk[160 + (4 * c + row)])
  {
    hide Shifted, AddKey, ShiftRows, SubBytes, Rounds, Xor;
    var x := Rounds(rk, s, 9);
    AddKeyAt(ShiftRows(SubBytes(x)), RoundKey(rk, 10), 4 * c + row);
    ShiftedAt(x, c, row);
    assert RoundKey(rk, 10)[4 * c + row] == rk[160 + (4 * c + row)];
  }

  /** Encryption is the cipher of FIPS 197 over the key schedule. */
  lemma EncryptIsStandard(key: Block, inp: Block) returns (states: seq<Block>)
    ensures IsCipher(Schedule(key, 44), inp, states) && Encrypt(key, inp) == states[10]
  {
    hide RoundByte, AddKey, MixColumns, ShiftRows, SubBytes, Schedule, Xor, Shifted, Rounds;
    var w := Schedule(key, 44);
    states := seq(10, r requires 0 <= r < 10 => Rounds(w, inp, r)) + [Encrypt(key, inp)];
    FirstState(w, inp);
    forall r, c, row | 1 <= r < 10 && 0 <= c < 4 && 0 <= row < 4
      ensures Cell(states[r], c, row) == RoundByte(states[r - 1], c, row, w[16 * r + (4 * c + row)])
    {
      FullRound(w, inp, r, c, row);
    }
    forall c, row | 0 <= c < 4 && 0 <= row < 4
      ensures Cell(states[10], c, row) == Xor(Shifted(states[9], c, row), w[160 + (4 * c + row)])
    {
      LastRound(w, inp, c, row);
    }
  }

  lemma FirstState(w: seq<bv8>, inp: Block)
    requires |w| == 176
    ensures forall i :: 0 <= i < 16 ==> Rounds(w, inp, 0)[i] == Xor(inp[i], w[i])
  {
    hide AddKey, Xor;
    forall i | 0 <= i < 16 ensures Rounds(w, inp, 0)[i] == Xor(inp[i], w[i]) {
      AddKeyAt(inp, RoundKey(w, 0), i);
    }
  }
}
