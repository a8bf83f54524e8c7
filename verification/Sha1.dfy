/**
 * SHA-1 as a stream of updates. The compression function is a parameter: nothing here depends on what it computes,
 * so the results hold for every one, and for SHA-1's own in particular.
 */
module Sha1 {
  import opened Arithmetic
  import opened Buffers
  import opened Octets

  /** The five words of the chaining value. */
  datatype Hash = Hash(a: bv32, b: bv32, c: bv32, d: bv32, e: bv32)
  type Compress = (Hash, seq<bv8>) -> Hash

  const INIT: Hash := Hash(0x67452301, 0xEFCDAB89, 0x98BADCFE, 0x10325476, 0xC3D2E1F0)
  const BLOCK: nat := 64
  const DIGEST: nat := 20
  const WORD64: nat := 0x1_0000_0000_0000_0000

  /** The chaining value after the complete blocks of `m`. */
  function Absorb(cf: Compress, h: Hash, m: seq<bv8>): Hash
    decreases |m|
  {
    if |m| < BLOCK then h else Absorb(cf, cf(h, m[..BLOCK]), m[BLOCK..])
  }

  function Zeros(n: nat): (z: seq<bv8>)
    ensures |z| == n
  {
    seq(n, _ => 0)
  }

  /** Eight bytes, most significant first, of a number taken modulo 2^64. */
  function Be64(n: nat): (b: seq<bv8>)
    ensures |b| == 8
  {
    [ByteOf(n / 0x100_0000_0000_0000 % 256), ByteOf(n / 0x1_0000_0000_0000 % 256),
     ByteOf(n / 0x100_0000_0000 % 256), ByteOf(n / 0x1_0000_0000 % 256),
     ByteOf(n / 0x100_0000 % 256), ByteOf(n / 0x1_0000 % 256), ByteOf(n / 0x100 % 256), ByteOf(n % 256)]
  }

  /** How many zero bytes FIPS 180-4 section 5.1.1 puts between the 0x80 and the length. */
  function PadZeros(len: nat): nat {
    (119 - len % BLOCK) % BLOCK
  }

  function Pad(m: seq<bv8>): seq<bv8> {
    m + [0x80] + Zeros(PadZeros(|m|)) + Be64(|m| * 8 % WORD64)
  }

  function Word(w: bv32): (b: seq<bv8>)
    ensures |b| == 4
  {
    [((w >> 24) & 0xFF) as bv8, ((w >> 16) & 0xFF) as bv8, ((w >> 8) & 0xFF) as bv8, (w & 0xFF) as bv8]
  }

  function Output(h: Hash): (d: seq<bv8>)
    ensures |d| == DIGEST
  {
    Word(h.a) + Word(h.b) + Word(h.c) + Word(h.d) + Word(h.e)
  }

  /** The one-shot definition: pad, then fold the compression function over the blocks. */
  function Digest(cf: Compress, m: seq<bv8>): (d: seq<bv8>)
    ensures |d| == DIGEST
  {
    Output(Absorb(cf, INIT, Pad(m)))
  }

  lemma {:induction false} AbsorbBlock(cf: Compress, h: Hash, m: seq<bv8>, b: seq<bv8>)
    requires |m| % BLOCK == 0 && |b| == BLOCK
    ensures Absorb(cf, h, m + b) == cf(Absorb(cf, h, m), b)
    decreases |m|
  {
    if |m| == 0 {
      assert m + b == b && b[..BLOCK] == b && b[BLOCK..] == [];
    } else {
      assert (m + b)[..BLOCK] == m[..BLOCK] && (m + b)[BLOCK..] == m[BLOCK..] + b;
      AbsorbBlock(cf, cf(h, m[..BLOCK]), m[BLOCK..], b);
    }
  }

  /** How many bytes of a message lie in its open block. */
  function InBlock(len: nat): (n: nat)
    ensures n < BLOCK && n <= len
  {
    len % BLOCK
  }

  /** The 64-bit byte counter. */
  function Total(len: nat): (n: nat)
    ensures n < WORD64
  {
    len % WORD64
  }

  class Context {
    const cf: Compress
    const block: array<bv8>
    var h: Hash
    var total: nat
    var used: nat
    /** The bytes fed so far. */
    ghost var msg: seq<bv8>

    ghost predicate Valid()
      reads this, block
    {
      && block.Length == BLOCK
      && used == InBlock(|msg|) && total == Total(|msg|)
      && h == Absorb(cf, INIT, msg[..|msg| - used])
      && block[..used] == msg[|msg| - used..]
    }

    constructor (cf: Compress)
      ensures Valid() && msg == [] && this.cf == cf && fresh(block)
    {
      this.cf := cf;
      block := new bv8[BLOCK](_ => 0);
      h, total, used, msg := INIT, 0, 0, [];
    }

    /** A copy of the struct: the original goes on unchanged. */
    constructor Copy(other: Context)
      requires other.Valid()
      ensures Valid() && msg == other.msg && cf == other.cf && fresh(block)
    {
      cf := other.cf;
      block := new bv8[BLOCK](
        i requires 0 <= i < BLOCK && other.block.Length == BLOCK reads other.block => other.block[i]);
      h, total, used, msg := other.h, other.total, other.used, other.msg;
      new;
      assert block[..used] == other.block[..used];
    }

    /** One turn: fill the block as far as the data goes, compress it when it is full. */
    method Feed(data: seq<bv8>) returns (n: nat)
      requires Valid() && |data| > 0
      modifies this`h, this`used, this`msg, this`total, block
      ensures Valid() && 0 < n <= |data| && msg == old(msg) + data[..n]
    {
      hide Absorb, InBlock, Total;
      n := BLOCK - used;
      if n > |data| {
        n := |data|;
      }
      Counts(|msg|, n);
      CopyIn(block, used, data[..n]);
      Fed(cf, msg, data[..n], block[..used + n]);
      used := used + n;
      total := (total + n) % WORD64;
      msg := msg + data[..n];
      if used == BLOCK {
        assert block[..] == block[..BLOCK];
        h := cf(h, block[..]);
        used := 0;
        assert msg[..|msg|] == msg;
      }
    }

    method Update(data: seq<bv8>)
      requires Valid()
      modifies this`h, this`used, this`msg, this`total, block
      ensures Valid() && msg == old(msg) + data
    {
      hide Absorb, InBlock, Total;
      var done := 0;
      while done < |data|
        invariant done <= |data| && Valid() && msg == old(msg) + data[..done]
      {
        var n := Feed(data[done..]);
        assert data[..done] + data[done..][..n] == data[..done + n];
        done := done + n;
      }
      assert data[..done] == data;
    }

    /** The padding loop: it ends after PadZeros bytes. */
    method PadTo56(ghost m: seq<bv8>)
      requires Valid() && msg == m + [0x80]
      modifies this`h, this`used, this`msg, this`total, block
      ensures Valid() && used == 56 && msg == m + [0x80] + Zeros(PadZeros(|m|))
    {
      hide Absorb, Zeros, PadZeros, Missing;
      ghost var z := 0;
      PadStart(|m|);
      ZerosSnoc(0);
      assert m + [0x80] + [] == m + [0x80];
      while used != 56
        invariant Valid() && msg == m + [0x80] + Zeros(z)
        invariant z + Missing(|msg|) == PadZeros(|m|)
        decreases Missing(|msg|)
      {
        PadStep(|msg|);
        Update([0]);
        ZerosSnoc(z);
        z := z + 1;
      }
      PadEnd(|msg|);
    }

    /** Pads and closes. */
    method Final() returns (out: seq<bv8>)
      requires Valid()
      modifies this`h, this`used, this`msg, this`total, block
      ensures out == Digest(cf, old(msg))
    {
      hide Absorb, Be64, PadZeros, Zeros;
      ghost var m := msg;
      var bits := total * 8 % WORD64;
      BitsWrap(|m|);
      Update([0x80]);
      PadTo56(m);
      Counts(|msg|, 8);
      Update(Be64(bits));
      assert msg == Pad(m);
      assert msg[..|msg| - used] == msg;
      out := Output(h);
    }
  }

  function Flatten(parts: seq<seq<bv8>>): seq<bv8> {
    if parts == [] then [] else Flatten(parts[..|parts| - 1]) + parts[|parts| - 1]
  }

  /** However a message is split into updates, the digest is that of the whole. */
  method DigestOfParts(cf: Compress, parts: seq<seq<bv8>>) returns (out: seq<bv8>)
    ensures out == Digest(cf, Flatten(parts))
  {
    hide Absorb, Digest, Context.Valid;
    var c := new Context(cf);
    assert parts[..0] == [];
    for i := 0 to |parts|
      invariant c.Valid() && c.cf == cf && fresh(c) && fresh(c.block) && c.msg == Flatten(parts[..i])
    {
      assert parts[..i + 1][..i] == parts[..i];
      c.Update(parts[i]);
    }
    assert parts[..|parts|] == parts;
    out := c.Final();
  }

  lemma BitsWrap(n: nat)
    ensures n % WORD64 * 8 % WORD64 == n * 8 % WORD64
  {
    var q := n / WORD64;
    assert n * 8 == n % WORD64 * 8 + (q * 8) * WORD64;
  }

  /** How many zero bytes the padding loop still has to write. */
  function Missing(len: nat): nat {
    (120 - len % BLOCK) % BLOCK
  }

  lemma ZerosSnoc(n: nat)
    ensures Zeros(n) + [0] == Zeros(n + 1) && Zeros(0) == []
  {
  }

  lemma PadStart(len: nat)
    ensures Missing(len + 1) == PadZeros(len)
  {
  }

  lemma PadStep(len: nat)
    requires len % BLOCK != 56
    ensures Missing(len) == Missing(len + 1) + 1
  {
  }

  lemma PadEnd(len: nat)
    requires len % BLOCK == 56
    ensures Missing(len) == 0
  {
  }

  /** Both counters follow the length of the message. */
  lemma Counts(len: nat, n: nat)
    requires InBlock(len) + n <= BLOCK
    ensures InBlock(len + n) == if InBlock(len) + n == BLOCK then 0 else InBlock(len) + n
    ensures Total(len + n) == (Total(len) + n) % WORD64
  {
    DivMod(len, BLOCK);
    if len % BLOCK + n == BLOCK {
      DivModUnique(len + n, len / BLOCK + 1, BLOCK, 0);
    } else {
      DivModUnique(len + n, len / BLOCK, BLOCK, len % BLOCK + n);
    }
    DivMod(len, WORD64);
    AddMultiple(len / WORD64, len % WORD64 + n, WORD64);
  }

  /** The state after `part` has joined the open block: either that block is closed, or it stays open. */
  lemma Fed(cf: Compress, msg: seq<bv8>, part: seq<bv8>, block: seq<bv8>)
    requires InBlock(|msg|) + |part| <= BLOCK && block == msg[|msg| - InBlock(|msg|)..] + part
    ensures
      var m, h := msg + part, Absorb(cf, INIT, msg[..|msg| - InBlock(|msg|)]);
      if |block| == BLOCK then InBlock(|m|) == 0 && Absorb(cf, INIT, m) == cf(h, block)
      else InBlock(|m|) == |block| && Absorb(cf, INIT, m[..|m| - |block|]) == h && m[|m| - |block|..] == block
  {
    hide Absorb;
    var whole := msg[..|msg| - InBlock(|msg|)];
    assert msg + part == whole + block;
    Counts(|msg|, |part|);
    if |block| == BLOCK {
      WholeBlocks(|msg|);
      AbsorbBlock(cf, INIT, whole, block);
    }
  }

  lemma WholeBlocks(len: nat)
    ensures (len - len % BLOCK) % BLOCK == 0
  {
  }

  // ---- The padding of FIPS 180-4 section 5.1.1, and the output ----

  /** Dividing by 256 and then by `m`. */
  lemma DivideOn(n: nat, m: nat)
    requires m > 0
    ensures n / 256 / m == n / (256 * m) && (n / 256 % m) * 256 + n % 256 == n % (256 * m)
  {
    DivMod(n / 256, m);
    DivMod(n, 256);
    var q, r := n / 256 / m, n / 256 % m;
    assert n == q * (256 * m) + (r * 256 + n % 256);
    assert r * 256 + n % 256 < 256 * m;
    DivModUnique(n, q, 256 * m, r * 256 + n % 256);
  }

  /** The lowest `k` digits to the base 256, the most significant first. */
  function Digits(n: nat, k: nat): (b: seq<bv8>)
    ensures |b| == k
  {
    if k == 0 then [] else Digits(n / 256, k - 1) + [ByteOf(n % 256)]
  }

  function Power256(k: nat): (p: nat)
    ensures p > 0
  {
    if k == 0 then 1 else 256 * Power256(k - 1)
  }

  lemma {:induction false} DigitsRead(n: nat, k: nat)
    ensures Number(Digits(n, k)) == n % Power256(k)
  {
    hide ByteOf;
    if k > 0 {
      hide Number;
      DigitsRead(n / 256, k - 1);
      NumberSnoc(Digits(n / 256, k - 1), n % 256);
      DivideOn(n, Power256(k - 1));
    }
  }

  /** The digit of weight 256^i. */
  lemma {:induction false} DigitAt(n: nat, k: nat, i: nat)
    requires i < k
    ensures Digits(n, k)[k - 1 - i] == ByteOf(n / Power256(i) % 256)
    decreases k
  {
    hide ByteOf;
    if i > 0 {
      DigitAt(n / 256, k - 1, i - 1);
      DivideOn(n, Power256(i - 1));
    }
  }

  lemma Powers()
    ensures Power256(0) == 1 && Power256(1) == 0x100 && Power256(2) == 0x1_0000 && Power256(3) == 0x100_0000
    ensures Power256(4) == 0x1_0000_0000 && Power256(5) == 0x100_0000_0000 && Power256(6) == 0x1_0000_0000_0000
    ensures Power256(7) == 0x100_0000_0000_0000
  {
    assert Power256(2) == 0x100 * Power256(1);
    assert Power256(4) == 0x1_0000 * Power256(2);
    assert Power256(6) == 0x1_0000 * Power256(4);
  }

  lemma Be64IsDigits(n: nat)
    ensures Be64(n) == Digits(n, 8)
  {
    hide ByteOf, Digits, Power256;
    Powers();
    DigitAt(n, 8, 0); DigitAt(n, 8, 1); DigitAt(n, 8, 2); DigitAt(n, 8, 3);
    DigitAt(n, 8, 4); DigitAt(n, 8, 5); DigitAt(n, 8, 6); DigitAt(n, 8, 7);
  }

  lemma Power8()
    ensures Power256(8) == WORD64
  {
    assert Power256(2) == 0x1_0000;
    assert Power256(4) == 0x1_0000 * Power256(2);
    assert Power256(6) == 0x1_0000 * Power256(4);
    assert Power256(8) == 0x1_0000 * Power256(6);
  }

  /** The length field reads back as the number, modulo 2^64. */
  lemma Be64Reads(n: nat)
    ensures Number(Be64(n)) == n % 0x1_0000_0000_0000_0000
  {
    hide Be64, Number, Digits, Power256;
    Be64IsDigits(n);
    DigitsRead(n, 8);
    Power8();
  }

  /**
   * The padded message: a 1 bit, as few zeros as make whole blocks, and the length of the message in bits as a 64-bit
   * number, the most significant byte first.
   */
  lemma PadIs(m: seq<bv8>)
    ensures
      var p := Pad(m);
      var n := |p| - 8;
      && |p| % 64 == 0 && |m| + 9 <= |p| < |m| + 9 + 64
      && p[..|m|] == m && p[|m|] == 0x80 && (forall i :: |m| < i < n ==> p[i] == 0)
      && Number(p[n..]) == |m| * 8 % 0x1_0000_0000_0000_0000
  {
    hide Be64, Number;
    var p := Pad(m);
    var n := |p| - 8;
    PadLength(|m|);
    Be64Reads(|m| * 8 % WORD64);
    assert p[n..] == Be64(|m| * 8 % WORD64);
  }

  lemma PadLength(len: nat)
    ensures (len + 1 + PadZeros(len) + 8) % 64 == 0 && PadZeros(len) < 64
  {
  }

  /** Four bytes as a word, the most significant first. */
  function ReadWord(b: seq<bv8>): bv32
    requires |b| == 4
  {
    ((b[0] as bv32) << 24) | ((b[1] as bv32) << 16) | ((b[2] as bv32) << 8) | (b[3] as bv32)
  }

  lemma WordReads(w: bv32)
    ensures ReadWord(Word(w)) == w
  {
  }

  /** The digest is the five words of the chaining value. */
  lemma OutputReads(h: Hash)
    ensures
      var d := Output(h);
      && ReadWord(d[0..4]) == h.a && ReadWord(d[4..8]) == h.b && ReadWord(d[8..12]) == h.c
      && ReadWord(d[12..16]) == h.d && ReadWord(d[16..20]) == h.e
  {
    hide Word, ReadWord;
    var d := Output(h);
    assert d[0..4] == Word(h.a) && d[4..8] == Word(h.b) && d[8..12] == Word(h.c);
    assert d[12..16] == Word(h.d) && d[16..20] == Word(h.e);
    WordReads(h.a); WordReads(h.b); WordReads(h.c); WordReads(h.d); WordReads(h.e);
  }

  /** A message of at most 55 bytes is one compression of the initial value. */
  lemma OneBlock(cf: Compress, m: seq<bv8>)
    requires |m| <= 55
    ensures Digest(cf, m) == Output(cf(Hash(0x67452301, 0xEFCDAB89, 0x98BADCFE, 0x10325476, 0xC3D2E1F0), Pad(m)))
  {
    hide Be64, Output;
    var p := Pad(m);
    PadLength(|m|);
    assert |p| == 64 && p[..64] == p && p[64..] == [];
    assert Absorb(cf, cf(INIT, p), []) == cf(INIT, p);
  }
}
