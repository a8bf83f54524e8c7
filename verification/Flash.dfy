/**
 * The SPI NOR flash and the driver over it. The chip only knows aligned 32-byte reads, 32-byte page
 * programs, which can clear bits but never set them, and sector erases. The driver builds reads and
 * writes of any range out of those.
 */
module Flash {
  import opened Slices
  import opened Bytes

  const BLOCK: nat := 32
  const SECTOR: nat := 4096
  const ERASED: byte := 0xFF

  /** Bitwise AND, which is what programming a cell does to it. */
  function And(x: nat, y: nat): (r: nat)
    ensures r <= x && r <= y
  {
    if x == 0 || y == 0 then 0 else (if x % 2 == 1 && y % 2 == 1 then 1 else 0) + 2 * And(x / 2, y / 2)
  }

  /** Bit `k` of a number. */
  predicate Bit(x: nat, k: nat) {
    if k == 0 then x % 2 == 1 else Bit(x / 2, k - 1)
  }

  lemma {:induction false} NoBits(k: nat)
    ensures !Bit(0, k)
    decreases k
  {
    if k > 0 {
      NoBits(k - 1);
    }
  }

  /** A bit is set afterwards exactly when it is set in both. */
  lemma {:induction false} AndBits(x: nat, y: nat, k: nat)
    ensures Bit(And(x, y), k) <==> Bit(x, k) && Bit(y, k)
    decreases k
  {
    if x == 0 || y == 0 {
      NoBits(k);
    } else {
      var low, rest := if x % 2 == 1 && y % 2 == 1 then 1 else 0, And(x / 2, y / 2);
      assert (low + 2 * rest) / 2 == rest && (low + 2 * rest) % 2 == low;
      if k > 0 {
        AndBits(x / 2, y / 2, k - 1);
      }
    }
  }

  lemma {:induction false} AndSelf(x: nat)
    ensures And(x, x) == x
  {
    if x != 0 {
      AndSelf(x / 2);
    }
  }

  lemma AndErased(x: byte)
    ensures And(ERASED, x) == x
  {
    AndOnes(x, 8);
  }

  function Ones(n: nat): nat {
    if n == 0 then 0 else 1 + 2 * Ones(n - 1)
  }

  lemma {:induction false} AndOnes(x: nat, n: nat)
    requires x <= Ones(n)
    ensures And(Ones(n), x) == x
  {
    if n != 0 && x != 0 {
      AndOnes(x / 2, n - 1);
    }
  }

  /** The cells after `src` is programmed at `at`. */
  function Program(cells: seq<byte>, at: nat, src: seq<byte>): (r: seq<byte>)
    requires at + |src| <= |cells|
    ensures |r| == |cells|
  {
    seq(|cells|, i requires 0 <= i < |cells| =>
      if at <= i < at + |src| then And(cells[i], src[i - at]) else cells[i])
  }

  function Erase(cells: seq<byte>, at: nat): (r: seq<byte>)
    requires at + SECTOR <= |cells|
    ensures |r| == |cells|
  {
    cells[..at] + Fill(SECTOR, ERASED) + cells[at + SECTOR..]
  }

  /** Programming over erased cells stores the bytes as they are. */
  lemma ProgramErased(cells: seq<byte>, at: nat, src: seq<byte>)
    requires at + |src| <= |cells|
    requires AllAre(cells[at..at + |src|], ERASED)
    ensures Program(cells, at, src) == cells[..at] + src + cells[at + |src|..]
  {
    forall i | 0 <= i < |src|
      ensures Program(cells, at, src)[at + i] == src[i]
    {
      assert cells[at + i] == cells[at..at + |src|][i];
      AndErased(src[i]);
    }
    assert Program(cells, at, src) == cells[..at] + src + cells[at + |src|..];
  }

  /** Two adjacent programs are one. */
  lemma ProgramSplit(cells: seq<byte>, at: nat, a: seq<byte>, b: seq<byte>)
    requires at + |a| + |b| <= |cells|
    ensures Program(Program(cells, at, a), at + |a|, b) == Program(cells, at, a + b)
  {
  }

  lemma ProgramNone(cells: seq<byte>, at: nat)
    requires at <= |cells|
    ensures Program(cells, at, []) == cells
  {
  }

  lemma ProgramNext(cells: seq<byte>, at: nat, src: seq<byte>, done: nat, c: nat)
    requires done + c <= |src| && at + |src| <= |cells|
    ensures Program(Program(cells, at, src[..done]), at + done, src[done..][..c]) == Program(cells, at, src[..done + c])
  {
    ProgramSplit(cells, at, src[..done], src[done..][..c]);
    assert src[..done] + src[done..][..c] == src[..done + c];
  }

  /** How much of a range that starts at `addr` the block under `addr` still covers. */
  function Chunk(addr: nat, count: nat): (c: nat)
    ensures c <= count && (count > 0 ==> c > 0) && addr % BLOCK + c <= BLOCK
  {
    var available := BLOCK - addr % BLOCK;
    if available < count then available else count
  }

  /** The 32 bytes the driver programs for the first chunk of a write: old cells around the new bytes. */
  function Overlay(cells: seq<byte>, addr: nat, src: seq<byte>): (r: seq<byte>)
    requires |src| > 0
    requires addr - addr % BLOCK + BLOCK <= |cells|
    ensures |r| == BLOCK
  {
    var base, c := addr - addr % BLOCK, Chunk(addr, |src|);
    cells[base..addr] + src[..c] + cells[addr + c..base + BLOCK]
  }

  lemma ProgramAt(cells: seq<byte>, at: nat, src: seq<byte>, i: nat)
    requires at + |src| <= |cells| && i < |cells|
    ensures Program(cells, at, src)[i] == if at <= i < at + |src| then And(cells[i], src[i - at]) else cells[i]
  {
    hide And;
  }

  lemma OverlayAt(cells: seq<byte>, addr: nat, src: seq<byte>, m: nat)
    requires |src| > 0 && m < BLOCK && addr - addr % BLOCK + BLOCK <= |cells|
    ensures
      var c, lead := Chunk(addr, |src|), addr % BLOCK;
      Overlay(cells, addr, src)[m] == if lead <= m < lead + c then src[m - lead] else cells[addr - lead + m]
  {
    hide Chunk;
  }

  /** Programming the first `k` bytes of an overlaid block programs a prefix of the new bytes and nothing else. */
  lemma OverlayPrefix(cells: seq<byte>, addr: nat, src: seq<byte>, k: nat)
    requires |src| > 0 && k <= BLOCK
    requires addr - addr % BLOCK + BLOCK <= |cells|
    ensures
      var c, lead := Chunk(addr, |src|), addr % BLOCK;
      var n := if k <= lead then 0 else if k - lead < c then k - lead else c;
      Program(cells, addr - lead, Overlay(cells, addr, src)[..k]) == Program(cells, addr, src[..n])
  {
    hide Chunk, Overlay, Program;
    var lead, c := addr % BLOCK, Chunk(addr, |src|);
    var n := if k <= lead then 0 else if k - lead < c then k - lead else c;
    var buf := Overlay(cells, addr, src);
    forall m | 0 <= m < BLOCK
      ensures buf[m] == if lead <= m < lead + c then src[..c][m - lead] else cells[addr - lead + m]
    {
      OverlayAt(cells, addr, src, m);
    }
    BlockPrefix(cells, addr - lead, lead, src[..c], buf, k);
    assert src[..c][..n] == src[..n];
  }

  lemma WholeOverlay(cells: seq<byte>, addr: nat, src: seq<byte>)
    requires |src| > 0 && addr - addr % BLOCK + BLOCK <= |cells|
    ensures
      Program(cells, addr - addr % BLOCK, Overlay(cells, addr, src)) == Program(cells, addr, src[..Chunk(addr, |src|)])
  {
    hide Program, Overlay, Chunk;
    OverlayPrefix(cells, addr, src, BLOCK);
    assert Overlay(cells, addr, src)[..BLOCK] == Overlay(cells, addr, src);
  }

  lemma SectorsAreBlocks(size: nat)
    requires size % SECTOR == 0
    ensures size % BLOCK == 0
  {
  }

  /** The block the driver assembles; what it read does not matter when the bytes cover the block. */
  lemma OverlayIs(cells: seq<byte>, addr: nat, src: seq<byte>, buf: seq<byte>)
    requires |src| > 0 && |buf| == BLOCK && addr - addr % BLOCK + BLOCK <= |cells|
    requires
      var base := addr - addr % BLOCK;
      (addr == base && Chunk(addr, |src|) == BLOCK) || buf == cells[base..base + BLOCK]
    ensures
      var lead, c := addr % BLOCK, Chunk(addr, |src|);
      buf[..lead] + src[..c] + buf[lead + c..] == Overlay(cells, addr, src)
  {
    hide Chunk;
    var lead, c := addr % BLOCK, Chunk(addr, |src|);
    var base := addr - lead;
    if buf == cells[base..base + BLOCK] {
      Subrange(cells, base, BLOCK, 0, lead);
      Subrange(cells, base, BLOCK, lead + c, BLOCK);
    }
  }

  /** The same for any block that is old cells but for the bytes from `lead` on. */
  lemma BlockPrefix(cells: seq<byte>, base: nat, lead: nat, src: seq<byte>, buf: seq<byte>, k: nat)
    requires k <= BLOCK == |buf| && lead + |src| <= BLOCK && base + BLOCK <= |cells|
    requires forall m :: 0 <= m < BLOCK ==>
      buf[m] == if lead <= m < lead + |src| then src[m - lead] else cells[base + m]
    ensures
      var n := if k <= lead then 0 else if k - lead < |src| then k - lead else |src|;
      Program(cells, base, buf[..k]) == Program(cells, base + lead, src[..n])
  {
    hide And, Program;
    var n := if k <= lead then 0 else if k - lead < |src| then k - lead else |src|;
    var a, b := Program(cells, base, buf[..k]), Program(cells, base + lead, src[..n]);
    forall i | 0 <= i < |cells| ensures a[i] == b[i] {
      AndSelf(cells[i]);
      ProgramAt(cells, base, buf[..k], i);
      ProgramAt(cells, base + lead, src[..n], i);
      if base <= i < base + k {
        assert buf[..k][i - base] == buf[i - base];
      }
    }
  }

  /**
   * The cells when power fails while `src` is being written: blocks are programmed one after the other,
   * each from its first byte on, and only the first `budget` bytes reach the cells.
   */
  function TornWrite(cells: seq<byte>, addr: nat, src: seq<byte>, budget: nat): (r: seq<byte>)
    requires addr + |src| <= |cells| && |cells| % BLOCK == 0
    ensures |r| == |cells|
    decreases |src|
  {
    if src == [] then cells else
    var base, c := addr - addr % BLOCK, Chunk(addr, |src|);
    var buf := Overlay(cells, addr, src);
    if budget < BLOCK then Program(cells, base, buf[..budget]) else
    TornWrite(Program(cells, base, buf), addr + c, src[c..], budget - BLOCK)
  }

  lemma BlockFits(at: nat, size: nat)
    requires at < size && size % BLOCK == 0
    ensures at % BLOCK <= at && (at - at % BLOCK) % BLOCK == 0 && at - at % BLOCK + BLOCK <= size
  {
  }

  lemma Follows(cells: seq<byte>, a: nat, b: nat, c: nat)
    requires a <= b <= c <= |cells|
    ensures cells[a..b] + cells[b..c] == cells[a..c]
  {
  }

  /** Wherever the power fails, the flash holds the old cells with some prefix of `src` programmed. */
  lemma {:induction false} TornWriteIsPrefix(cells: seq<byte>, addr: nat, src: seq<byte>, budget: nat) returns (n: nat)
    requires addr + |src| <= |cells| && |cells| % BLOCK == 0
    ensures n <= |src|
    ensures TornWrite(cells, addr, src, budget) == Program(cells, addr, src[..n])
    decreases |src|
  {
    hide Chunk, Overlay, Program;
    if src == [] {
      ProgramNone(cells, addr);
      n := 0;
    } else {
      BlockFits(addr, |cells|);
      var base, c := addr - addr % BLOCK, Chunk(addr, |src|);
      var buf := Overlay(cells, addr, src);
      if budget < BLOCK {
        OverlayPrefix(cells, addr, src, budget);
        n := if budget <= addr % BLOCK then 0 else if budget - addr % BLOCK < c then budget - addr % BLOCK else c;
      } else {
        assert buf[..BLOCK] == buf;
        OverlayPrefix(cells, addr, src, BLOCK);
        var m := TornWriteIsPrefix(Program(cells, base, buf), addr + c, src[c..], budget - BLOCK);
        ProgramNext(cells, addr, src, c, m);
        n := c + m;
      }
    }
  }

  // ---- The commands the driver gives ----

  datatype Command = Programs(at: nat, words: seq<byte>) | Erases(at: nat)

  /** The page programs of a write: one per block, in order, each with the old cells around the new bytes. */
  function Blocks(cells: seq<byte>, addr: nat, src: seq<byte>): seq<Command>
    requires addr + |src| <= |cells| && |cells| % BLOCK == 0
    decreases |src|
  {
    if src == [] then [] else
    BlockFits(addr, |cells|);
    var c := Chunk(addr, |src|);
    [Programs(addr - addr % BLOCK, Overlay(cells, addr, src))] + Blocks(cells, addr + c, src[c..])
  }

  predicate AllFit(commands: seq<Command>, size: nat) {
    forall i :: 0 <= i < |commands| ==>
      commands[i].Programs? && |commands[i].words| == BLOCK && commands[i].at + BLOCK <= size
  }

  /** The cells when power fails while page programs are carried out, after `budget` bytes have reached them. */
  function CutShort(cells: seq<byte>, commands: seq<Command>, budget: nat): (r: seq<byte>)
    requires AllFit(commands, |cells|)
    decreases |commands|
  {
    if commands == [] then cells else
    var at, words := commands[0].at, commands[0].words;
    if budget < BLOCK then Program(cells, at, words[..budget])
    else CutShort(Program(cells, at, words), commands[1..], budget - BLOCK)
  }

  lemma {:induction false} BlocksFit(cells: seq<byte>, addr: nat, src: seq<byte>)
    requires addr + |src| <= |cells| && |cells| % BLOCK == 0
    ensures AllFit(Blocks(cells, addr, src), |cells|)
    decreases |src|
  {
    hide Chunk, Overlay;
    if src != [] {
      BlockFits(addr, |cells|);
      var c := Chunk(addr, |src|);
      BlocksFit(cells, addr + c, src[c..]);
    }
  }

  /** A block depends on its own cells only. */
  lemma OverlaySame(cells: seq<byte>, after: seq<byte>, addr: nat, src: seq<byte>)
    requires |after| == |cells| && |src| > 0 && addr - addr % BLOCK + BLOCK <= |cells|
    requires forall i :: addr - addr % BLOCK <= i < addr - addr % BLOCK + BLOCK ==> after[i] == cells[i]
    ensures Overlay(after, addr, src) == Overlay(cells, addr, src)
  {
    hide Overlay, Chunk;
    forall m | 0 <= m < BLOCK ensures Overlay(after, addr, src)[m] == Overlay(cells, addr, src)[m] {
      OverlayAt(cells, addr, src, m);
      OverlayAt(after, addr, src, m);
    }
  }

  /** What follows the first chunk begins with a block of its own. */
  lemma NextBlock(addr: nat, count: nat)
    requires Chunk(addr, count) < count
    ensures (addr + Chunk(addr, count)) % BLOCK == 0 && addr + Chunk(addr, count) == addr - addr % BLOCK + BLOCK
  {
  }

  /** Cells in front of a range do not matter to the blocks of that range. */
  lemma {:induction false} BlocksSame(cells: seq<byte>, after: seq<byte>, addr: nat, src: seq<byte>)
    requires |after| == |cells| && addr + |src| <= |cells| && |cells| % BLOCK == 0
    requires src != [] ==> forall i :: addr - addr % BLOCK <= i < |cells| ==> after[i] == cells[i]
    ensures Blocks(after, addr, src) == Blocks(cells, addr, src)
    decreases |src|
  {
    hide Chunk, Overlay;
    if src != [] {
      BlockFits(addr, |cells|);
      var c := Chunk(addr, |src|);
      OverlaySame(cells, after, addr, src);
      if c < |src| {
        NextBlock(addr, |src|);
      }
      BlocksSame(cells, after, addr + c, src[c..]);
    }
  }

  /** What a power failure during a write leaves is what cutting its page programs short leaves. */
  lemma {:induction false} TornWriteIsCut(cells: seq<byte>, addr: nat, src: seq<byte>, budget: nat)
    requires addr + |src| <= |cells| && |cells| % BLOCK == 0
    ensures AllFit(Blocks(cells, addr, src), |cells|)
    ensures TornWrite(cells, addr, src, budget) == CutShort(cells, Blocks(cells, addr, src), budget)
    decreases |src|
  {
    hide Chunk, Overlay, Program, AllFit;
    BlocksFit(cells, addr, src);
    if src != [] {
      BlockFits(addr, |cells|);
      var base, c, buf := addr - addr % BLOCK, Chunk(addr, |src|), Overlay(cells, addr, src);
      var after := Program(cells, base, buf);
      assert Blocks(cells, addr, src)[1..] == Blocks(cells, addr + c, src[c..]);
      if budget >= BLOCK {
        if c < |src| {
          NextBlock(addr, |src|);
          ProgramBehind(cells, base, buf);
        }
        BlocksSame(cells, after, addr + c, src[c..]);
        TornWriteIsCut(after, addr + c, src[c..], budget - BLOCK);
      }
    }
  }

  lemma ProgramBehind(cells: seq<byte>, at: nat, src: seq<byte>)
    requires at + |src| <= |cells|
    ensures forall i :: at + |src| <= i < |cells| ==> Program(cells, at, src)[i] == cells[i]
  {
    hide And;
  }

  class Chip {
    var cells: seq<byte>
    /** Block protection: the chip then ignores programs and erases without a word. */
    var locked: bool
    /** The commands given so far. */
    ghost var commands: seq<Command>

    ghost predicate Valid()
      reads this
    {
      |cells| % SECTOR == 0
    }

    method ReadBlock(addr: nat) returns (words: seq<byte>)
      requires addr % BLOCK == 0 && addr + BLOCK <= |cells|
      ensures words == cells[addr..addr + BLOCK]
    {
      words := cells[addr..addr + BLOCK];
    }

    method ProgramBlock(addr: nat, words: seq<byte>)
      requires addr % BLOCK == 0 && addr + BLOCK <= |cells| && |words| == BLOCK
      modifies this`cells, this`commands
      ensures cells == if locked then old(cells) else Program(old(cells), addr, words)
      ensures commands == old(commands) + [Programs(addr, words)]
    {
      commands := commands + [Programs(addr, words)];
      if !locked {
        cells := Program(cells, addr, words);
      }
    }

    method EraseSector(addr: nat)
      requires Valid() && addr < |cells|
      modifies this`cells, this`commands
      ensures Valid()
      ensures cells == if locked then old(cells) else Erase(old(cells), addr - addr % SECTOR)
      ensures commands == old(commands) + [Erases(addr - addr % SECTOR)]
    {
      commands := commands + [Erases(addr - addr % SECTOR)];
      if !locked {
        cells := Erase(cells, addr - addr % SECTOR);
      }
    }

    method Read(addr: nat, count: nat) returns (dst: seq<byte>)
      requires Valid() && addr + count <= |cells|
      ensures dst == cells[addr..addr + count]
    {
      hide Chunk;
      dst := [];
      var at, left := addr, count;
      while left > 0
        invariant 0 <= left && addr <= at && at + left == addr + count
        invariant dst == cells[addr..at]
        decreases left
      {
        var aligned := at - at % BLOCK;
        BlockFits(at, |cells|);
        var buf := ReadBlock(aligned);
        var c := Chunk(at, left);
        Subrange(cells, aligned, BLOCK, at % BLOCK, at % BLOCK + c);
        dst := dst + buf[at - aligned..at - aligned + c];
        Follows(cells, addr, at, at + c);
        at, left := at + c, left - c;
      }
    }

    /** One chunk of a write: the block is read first when it is only partly covered. */
    method WriteChunk(addr: nat, src: seq<byte>)
      requires Valid() && |src| > 0 && addr + |src| <= |cells|
      modifies this`cells, this`commands
      ensures Valid()
      ensures cells == if locked then old(cells) else Program(old(cells), addr, src[..Chunk(addr, |src|)])
      ensures addr - addr % BLOCK + BLOCK <= |cells| == |old(cells)|
      ensures commands == old(commands) + [Programs(addr - addr % BLOCK, Overlay(old(cells), addr, src))]
    {
      hide Program, Overlay, Chunk;
      SectorsAreBlocks(|cells|);
      BlockFits(addr, |cells|);
      var lead, c := addr % BLOCK, Chunk(addr, |src|);
      var aligned := addr - lead;
      var buf := Fill(BLOCK, 0);
      if addr != aligned || c < BLOCK {
        buf := Read(aligned, BLOCK);
      }
      OverlayIs(cells, addr, src, buf);
      WholeOverlay(cells, addr, src);
      ProgramBlock(aligned, buf[..lead] + src[..c] + buf[lead + c..]);
    }

    /** Block by block, preserving the bytes around the written range; nothing happens on a locked chip. */
    method Write(addr: nat, src: seq<byte>)
      requires Valid() && addr + |src| <= |cells|
      modifies this`cells, this`commands
      ensures Valid() && |cells| == |old(cells)| && |cells| % BLOCK == 0
      ensures cells == if locked then old(cells) else Program(old(cells), addr, src)
      ensures commands == old(commands) + Blocks(old(cells), addr, src)
    {
      hide Program, Chunk, Overlay, Blocks;
      SectorsAreBlocks(|cells|);
      var done := 0;
      ghost var before := cells;
      assert src[..0] == [] && src[0..] == src;
      ProgramNone(cells, addr);
      while done < |src|
        invariant done <= |src| && |cells| == |before|
        invariant locked == old(locked)
        invariant locked ==> cells == before
        invariant !locked ==> cells == Program(before, addr, src[..done])
        invariant 0 < done < |src| ==> (addr + done) % BLOCK == 0
        invariant old(commands) + Blocks(before, addr, src) == commands + Blocks(before, addr + done, src[done..])
      {
        ghost var c := Chunk(addr + done, |src| - done);
        BlockFits(addr + done, |cells|);
        ProgramNext(before, addr, src, done, c);
        ChunkAtStart(before, cells, addr, src, done);
        BlocksNext(before, addr + done, src[done..]);
        WriteChunk(addr + done, src[done..]);
        assert src[done..][c..] == src[done + c..];
        if c < |src| - done {
          NextBlock(addr + done, |src| - done);
        }
        done := done + Chunk(addr + done, |src| - done);
      }
      assert src[..done] == src;
      NoBlocks(before, addr + done, src[done..]);
    }
  }

  lemma BlocksNext(cells: seq<byte>, addr: nat, src: seq<byte>)
    requires src != [] && addr + |src| <= |cells| && |cells| % BLOCK == 0
    ensures addr - addr % BLOCK + BLOCK <= |cells|
    ensures
      var c := Chunk(addr, |src|);
      Blocks(cells, addr, src) ==
        [Programs(addr - addr % BLOCK, Overlay(cells, addr, src))] + Blocks(cells, addr + c, src[c..])
  {
    hide Chunk, Overlay;
    BlockFits(addr, |cells|);
  }

  lemma NoBlocks(cells: seq<byte>, addr: nat, src: seq<byte>)
    requires src == [] && addr <= |cells| && |cells| % BLOCK == 0
    ensures Blocks(cells, addr, src) == []
  {
  }

  /** The block of a later chunk is still as it was before the write. */
  lemma ChunkAtStart(before: seq<byte>, cells: seq<byte>, addr: nat, src: seq<byte>, done: nat)
    requires done < |src| && addr + |src| <= |before| && |before| % BLOCK == 0
    requires cells == before || cells == Program(before, addr, src[..done])
    requires done > 0 ==> (addr + done) % BLOCK == 0
    ensures
      var at := addr + done;
      && at - at % BLOCK + BLOCK <= |before| == |cells|
      && Overlay(cells, at, src[done..]) == Overlay(before, at, src[done..])
  {
    hide Overlay, Program;
    BlockFits(addr + done, |before|);
    ProgramNone(before, addr);
    if done > 0 {
      ProgramBehind(before, addr, src[..done]);
    } else {
      assert src[..done] == [];
    }
    OverlaySame(before, cells, addr + done, src[done..]);
  }
}
