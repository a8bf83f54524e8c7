/**
 * The key-value store itself: one erase sector, read and written through the flash driver. Each operation is
 * stated against the map the sector stands for, for every content the sector may have had.
 */
module FlashKv {
  import opened Slices
  import opened Buffers
  import opened Bytes
  import opened Flash
  import opened KvLog
  import opened KvCompact
  import opened KvImage
  import KvTorn

  const KV_BASE: nat := 0x1F_F000

  datatype Errno = EINVAL | ENOENT | EBADMSG | EMSGSIZE | ENOSPC | EIO | ENOMEM
  datatype Code = Ok | Err(e: Errno)
  datatype Length = Len(n: nat) | NoLen(e: Errno)

  /** The header, the records of the other keys and one record of `len` bytes fit the sector together. */
  ghost predicate Fits(m: Store, key: u16, len: nat) {
    HEADER_SIZE + LiveBytes(m - {key}) + RecordSize(len) <= SECTOR
  }

  /** The next write has to compact: no valid log, or no room behind it. */
  ghost predicate NeedsRebuild(crc: Crc, s: Sector, len: nat) {
    StateOf(crc, s) != State.Valid || WalkAll(crc, s).end + RecordSize(len) > SECTOR
  }

  /** The image a rebuild would write is what the sector already starts with. */
  ghost predicate AlreadyImage(crc: Crc, s: Sector, r: Record)
    requires WellFormed(r)
  {
    RebuiltProperties(crc, s, r);
    Image(crc, Rebuilt(crc, s, r)) <= s
  }

  /** Memory that can be appended to has room for the update after compaction as well. */
  lemma AppendFits(crc: Crc, s: Sector, r: Record)
    requires WellFormed(r) && !NeedsRebuild(crc, s, |r.value|)
    ensures Fits(View(crc, s), r.key, |r.value|)
  {
    hide WalkFrom, AllAre, ParseAt;
    RebuiltProperties(crc, s, r);
    WalkSound(crc, s, HEADER_SIZE);
  }

  lemma StoredFits(crc: Crc, s: Sector, key: u16)
    requires key in View(crc, s) && key != KEY_NONE
    ensures Fits(View(crc, s), key, |View(crc, s)[key]|)
  {
    hide WalkFrom, AllAre, ParseAt, Log;
    var m := View(crc, s);
    RebuiltProperties(crc, s, Record(KEY_NONE - 1, []));
    WholeLive(crc, s);
    LiveBytesWithout(m, key);
  }

  lemma WholeLive(crc: Crc, s: Sector)
    ensures HEADER_SIZE + LiveBytes(View(crc, s)) <= SECTOR
  {
    hide ParseAt;
    var log := Log(crc, s);
    WalkSound(crc, s, HEADER_SIZE);
    IsLogEnd(crc, s, HEADER_SIZE, WalkAll(crc, s).log);
    CollectProperties(log);
    LiveTotal(Collect(log));
  }

  // ---- What an update does to the chip ----

  /** A chip that holds the store. */
  ghost predicate Holds(cells: seq<byte>) {
    |cells| % SECTOR == 0 && KV_BASE + SECTOR <= |cells|
  }

  ghost function SectorOf(cells: seq<byte>): Sector
    requires Holds(cells)
  {
    cells[KV_BASE..KV_BASE + SECTOR]
  }

  /** The cells with the record programmed at the end of the log, and nothing else changed. */
  ghost function Appended(crc: Crc, cells: seq<byte>, r: Record): seq<byte>
    requires Holds(cells) && WellFormed(r) && WalkAll(crc, SectorOf(cells)).end + Size(r) <= SECTOR
  {
    Program(cells, KV_BASE + WalkAll(crc, SectorOf(cells)).end, Encode(crc, r))
  }

  /** An append gives the page programs of the record's bytes and no other command. */
  ghost function Appending(crc: Crc, cells: seq<byte>, r: Record): seq<Command>
    requires Holds(cells) && WellFormed(r) && WalkAll(crc, SectorOf(cells)).end + Size(r) <= SECTOR
  {
    SectorsAreBlocks(|cells|);
    Blocks(cells, KV_BASE + WalkAll(crc, SectorOf(cells)).end, Encode(crc, r))
  }

  /** A compaction erases the sector and writes the image, if it fits. */
  ghost function Compaction(crc: Crc, cells: seq<byte>, locked: bool, r: Record): seq<Command>
    requires Holds(cells) && WellFormed(r)
  {
    SectorsAreBlocks(|cells|);
    RebuiltProperties(crc, SectorOf(cells), r);
    if HEADER_SIZE + Total(Rebuilt(crc, SectorOf(cells), r)) > SECTOR then [] else
    [Erases(KV_BASE)] +
      Blocks(if locked then cells else Erase(cells, KV_BASE), KV_BASE, Image(crc, Rebuilt(crc, SectorOf(cells), r)))
  }

  /** The commands of an update that is carried out. */
  ghost function Update(crc: Crc, cells: seq<byte>, locked: bool, r: Record): seq<Command>
    requires Holds(cells) && WellFormed(r)
  {
    if NeedsRebuild(crc, SectorOf(cells), |r.value|) then Compaction(crc, cells, locked, r)
    else Appending(crc, cells, r)
  }

  /** The records after an update: one more behind the old ones, or, after a compaction, the live ones. */
  ghost function LogAfter(crc: Crc, s: Sector, r: Record): seq<Record>
    requires WellFormed(r)
  {
    if NeedsRebuild(crc, s, |r.value|) then Rebuilt(crc, s, r) else Log(crc, s) + [r]
  }

  class Kv {
    const chip: Chip
    const crc: Crc

    constructor (chip: Chip, crc: Crc)
      ensures this.chip == chip && this.crc == crc
    {
      this.chip, this.crc := chip, crc;
    }

    ghost predicate Valid()
      reads chip
    {
      chip.Valid() && KV_BASE + SECTOR <= |chip.cells|
    }

    ghost function Content(): Sector
      requires Valid()
      reads chip
    {
      chip.cells[KV_BASE..KV_BASE + SECTOR]
    }

    method ReadAt(off: nat, count: nat) returns (b: seq<byte>)
      requires Valid() && off + count <= SECTOR
      ensures b == Content()[off..off + count]
    {
      b := chip.Read(KV_BASE + off, count);
      assert b == Content()[off..off + count];
    }

    /** The state the header alone gives. */
    method HeaderState() returns (st: State)
      requires Valid()
      ensures st == State.Valid <==> Content()[..HEADER_SIZE] == HEADER
      ensures st != State.Valid ==> st == StateOf(crc, Content())
    {
      var header := ReadAt(0, HEADER_SIZE);
      assert header == Content()[..HEADER_SIZE];
      if header == HEADER {
        return State.Valid;
      }
      for i := 0 to HEADER_SIZE
        invariant forall j :: 0 <= j < i ==> header[j] == ERASED
      {
        if header[i] != ERASED {
          return State.Foreign;
        }
      }
      return State.Blank;
    }

    /** One turn of the walk: head first, then the value and its checksum if the head makes sense. */
    method ReadRecord(off: nat) returns (p: Parse)
      requires Valid() && off + HEAD_SIZE <= SECTOR
      ensures p == ParseAt(crc, Content(), off)
    {
      ghost var s := Content();
      var head := ReadAt(off, HEAD_SIZE);
      var key, len := ReadLe16(head, 0), ReadLe16(head, 2);
      assert key == ReadLe16(s, off) && len == ReadLe16(s, off + 2);
      if key == KEY_NONE {
        return End;
      }
      if len > MAX_LEN || off + RecordSize(len) > SECTOR {
        return Broken;
      }
      var at := off + HEAD_SIZE + Align4(len);
      var value := ReadAt(off + HEAD_SIZE, len);
      var stored := ReadAt(at, CRC_SIZE);
      assert ReadLe32(stored, 0) == ReadLe32(s, at);
      var r := Record(key, value);
      p := if ReadLe32(stored, 0) != RecordCrc(crc, r) then Broken else Found(r);
    }

    /** Reads the records in order; the visitors below run over what it returns. */
    method ReadLog() returns (w: Walk)
      requires Valid()
      ensures w == WalkAll(crc, Content())
    {
      hide ParseAt, Size, WalkFrom;
      ghost var s := Content();
      var off, log := HEADER_SIZE, [];
      WalkAtEnd(crc, s);
      while off != SECTOR
        invariant HEADER_SIZE <= off <= SECTOR && off % 4 == 0
        invariant var rest := WalkFrom(crc, s, off); WalkAll(crc, s) == rest.(log := log + rest.log)
        decreases SECTOR - off
      {
        var p := ReadRecord(off);
        WalkStep(crc, s, off);
        if !p.Found? {
          return Walk(log, off, p.End?);
        }
        ghost var rest := WalkFrom(crc, s, off + Size(p.r));
        assert log + ([p.r] + rest.log) == (log + [p.r]) + rest.log;
        log, off := log + [p.r], off + Size(p.r);
      }
      return Walk(log, off, true);
    }

    method TailIsBlank(from: nat) returns (blank: bool)
      requires Valid() && from <= SECTOR
      ensures blank <==> AllAre(Content()[from..], ERASED)
    {
      ghost var s := Content();
      var off := from;
      while off < SECTOR
        invariant from <= off
        invariant forall i :: from <= i < off && i < SECTOR ==> s[i] == ERASED
      {
        var n := if SECTOR - off < BLOCK then SECTOR - off else BLOCK;
        var block := ReadAt(off, n);
        for i := 0 to n
          invariant forall j :: off <= j < off + i ==> s[j] == ERASED
        {
          assert block[i] == s[off + i];
          if block[i] != ERASED {
            assert s[from..][off + i - from] != ERASED;
            return false;
          }
        }
        off := off + BLOCK;
      }
      return true;
    }

    method Scan() returns (st: State, end: nat)
      requires Valid()
      ensures st == StateOf(crc, Content())
      ensures st == State.Valid ==> end == WalkAll(crc, Content()).end
    {
      end := 0;
      st := HeaderState();
      if st == State.Valid {
        var w := ReadLog();
        end := w.end;
        var blank := TailIsBlank(end);
        st := if w.clean && blank then State.Valid else State.Torn;
      }
    }

    /** The length and place of the newest record of `key` in the log just read. */
    method Lookup(key: u16, w: Walk) returns (r: Length, off: nat)
      requires Valid() && w == WalkAll(crc, Content())
      ensures r.Len? <==> key in Fold(w.log)
      ensures !r.Len? ==> r.e == ENOENT
      ensures r.Len? ==> off + HEAD_SIZE + r.n <= SECTOR
      ensures r.Len? ==> Content()[off + HEAD_SIZE..off + HEAD_SIZE + r.n] == Fold(w.log)[key]
    {
      hide ParseAt, Size, WalkFrom, Fold, Total, IsLog;
      ghost var s, log := Content(), w.log;
      WalkSound(crc, s, HEADER_SIZE);
      EmptyLog();
      r, off := NoLen(ENOENT), 0;
      var at := HEADER_SIZE;
      for i := 0 to |w.log|
        invariant at == HEADER_SIZE + Total(log[..i])
        invariant r.Len? <==> key in Fold(log[..i])
        invariant !r.Len? ==> r.e == ENOENT
        invariant r.Len? ==> off + HEAD_SIZE + r.n <= SECTOR
        invariant r.Len? ==> s[off + HEAD_SIZE..off + HEAD_SIZE + r.n] == Fold(log[..i])[key]
      {
        assert log[..i + 1] == log[..i] + [log[i]];
        FoldSnoc(log[..i], log[i]);
        TotalSnoc(log[..i], log[i]);
        IsLogAt(crc, s, HEADER_SIZE, log, i);
        var rec := w.log[i];
        if rec.key == key {
          r, off := if |rec.value| != 0 then Len(|rec.value|) else NoLen(ENOENT), at;
        }
        at := at + Size(rec);
      }
      assert log[..|log|] == log;
    }

    method Get(key: u16, buf: array?<byte>, size: nat, exact: nat) returns (r: Length)
      requires Valid() && (buf != null ==> size <= buf.Length)
      modifies buf
      ensures
        var m := View(crc, Content());
        r == if key == KEY_NONE then NoLen(EINVAL)
             else if key !in m then NoLen(ENOENT)
             else if exact != 0 && |m[key]| != exact then NoLen(EBADMSG)
             else if buf != null && size < |m[key]| then NoLen(EMSGSIZE)
             else Len(|m[key]|)
      ensures buf != null && r.Len? ==>
        r.n <= size && buf[..] == View(crc, Content())[key] + old(buf[..])[r.n..]
      ensures buf != null && !r.Len? ==> buf[..] == old(buf[..])
    {
      hide ParseAt, Fold, WalkFrom;
      if key == KEY_NONE {
        return NoLen(EINVAL);
      }
      var st := HeaderState();
      if st != State.Valid {
        EmptyLog();
        return NoLen(ENOENT);
      }
      var w := ReadLog();
      var off;
      r, off := Lookup(key, w);
      if !r.Len? {
        return r;
      }
      if exact != 0 && r.n != exact {
        return NoLen(EBADMSG);
      }
      if buf != null {
        if size < r.n {
          return NoLen(EMSGSIZE);
        }
        var value := ReadAt(off + HEAD_SIZE, r.n);
        CopyIn(buf, 0, value);
      }
    }

    /** The read-back comparison, block by block. */
    method Matches(off: nat, src: seq<byte>) returns (same: bool)
      requires Valid() && off + |src| <= SECTOR
      ensures same <==> Content()[off..off + |src|] == src
    {
      ghost var there := Content()[off..off + |src|];
      var done := 0;
      while done < |src|
        invariant 0 <= done
        invariant forall i :: 0 <= i < done && i < |src| ==> there[i] == src[i]
      {
        var n := if |src| - done < BLOCK then |src| - done else BLOCK;
        var block := ReadAt(off + done, n);
        Subrange(Content(), off, |src|, done, done + n);
        if block != src[done..done + n] {
          return false;
        }
        assert forall i :: done <= i < done + n ==> there[i] == block[i - done] == src[done..done + n][i - done];
        done := done + BLOCK;
      }
      return true;
    }

    /** Writes and reads back, since a locked chip ignores the write. */
    method WriteVerified(off: nat, src: seq<byte>) returns (code: Code)
      requires Valid() && off + |src| <= SECTOR
      modifies chip`cells, chip`commands
      ensures Valid()
      ensures chip.cells == if chip.locked then old(chip.cells) else Program(old(chip.cells), KV_BASE + off, src)
      ensures |old(chip.cells)| % BLOCK == 0
      ensures chip.commands == old(chip.commands) + Blocks(old(chip.cells), KV_BASE + off, src)
      ensures code == if Content()[off..off + |src|] == src then Ok else Err(EIO)
    {
      chip.Write(KV_BASE + off, src);
      hide Program;
      var same := Matches(off, src);
      code := if same then Ok else Err(EIO);
    }

    /** Puts every record of the log into the image. The overflow branch of the visitor cannot be reached. */
    method CollectImage(data: array<byte>, log: seq<Record>) returns (n: nat, overflow: bool)
      requires data.Length == SECTOR && data[..HEADER_SIZE] == HEADER
      requires AllWell(log) && HEADER_SIZE + Total(log) <= SECTOR
      modifies data
      ensures !overflow && Live(Collect(log)) && AllWell(Collect(log))
      ensures n == HEADER_SIZE + Total(Collect(log)) <= SECTOR && data[..n] == Image(crc, Collect(log))
    {
      hide Encode, Size, EncodeAll, Put, Image, Total, Live;
      n, overflow := HEADER_SIZE, false;
      var off := HEADER_SIZE;
      CollectNone(crc);
      for i := 0 to |log|
        invariant !overflow && off == HEADER_SIZE + Total(log[..i])
        invariant Live(Collect(log[..i])) && AllWell(Collect(log[..i]))
        // The image is never longer than the part of the log already walked.
        invariant n == HEADER_SIZE + Total(Collect(log[..i])) <= off <= SECTOR
        invariant data[..n] == Image(crc, Collect(log[..i]))
      {
        CollectStep(log, i);
        TotalPrefix(log, i + 1);
        var r := log[i];
        var ok;
        ok, n := ImagePut(crc, data, n, r.key, r.value, Collect(log[..i]));
        if !ok {
          overflow := true;
        }
        off := off + Size(r);
      }
      assert log[..|log|] == log;
    }

    /** The image of a rebuild, in memory: the live records without the key, then the new one. */
    method BuildImage(st: State, key: u16, value: seq<byte>) returns (data: array<byte>, n: nat, ok: bool)
      requires Valid() && st == StateOf(crc, Content()) && WellFormed(Record(key, value))
      ensures fresh(data) && data.Length == SECTOR && AllWell(Rebuilt(crc, Content(), Record(key, value)))
      ensures ok <==> HEADER_SIZE + Total(Rebuilt(crc, Content(), Record(key, value))) <= SECTOR
      ensures ok ==> n <= SECTOR && data[..n] == Image(crc, Rebuilt(crc, Content(), Record(key, value)))
    {
      hide ParseAt, WalkFrom, Encode, EncodeAll, Total, Size, Put, Collect, Live, StateOf, Log, Image;
      RebuiltProperties(crc, Content(), Record(key, value));
      data := new byte[SECTOR](_ => 0);
      CopyIn(data, 0, HEADER);
      assert data[..HEADER_SIZE] == HEADER;
      var log := [];
      if st == State.Valid || st == State.Torn {
        var w := ReadLog();
        log := w.log;
      }
      LogWell(crc, Content());
      StateLog(crc, Content());
      var overflow, put;
      n, overflow := CollectImage(data, log);
      put, n := ImagePut(crc, data, n, key, value, Collect(log));
      ok := !overflow && put;
    }

    method EraseAndWrite(image: seq<byte>) returns (code: Code)
      requires Valid() && |image| <= SECTOR
      modifies chip`cells, chip`commands
      ensures Valid() && Holds(old(chip.cells)) && |old(chip.cells)| % BLOCK == 0
      ensures chip.cells ==
        if chip.locked then old(chip.cells) else Program(Erase(old(chip.cells), KV_BASE), KV_BASE, image)
      ensures code == if Content()[0..|image|] == image then Ok else Err(EIO)
      ensures chip.commands == old(chip.commands) + [Erases(KV_BASE)] +
        Blocks(if chip.locked then old(chip.cells) else Erase(old(chip.cells), KV_BASE), KV_BASE, image)
    {
      hide Program, Erase, Blocks;
      SectorsAreBlocks(|chip.cells|);
      chip.EraseSector(KV_BASE);
      code := WriteVerified(0, image);
    }

    /** The compaction: the sector afterwards is exactly the image, or, on any error, what it was. */
    method Rebuild(st: State, key: u16, value: seq<byte>, memory: bool) returns (code: Code)
      requires Valid() && st == StateOf(crc, Content()) && WellFormed(Record(key, value))
      modifies chip`cells, chip`commands
      ensures Valid()
      ensures
        var s, l := old(Content()), Rebuilt(crc, old(Content()), Record(key, value));
        && AllWell(l)
        && (code == Err(ENOMEM) <==> !memory)
        && (code == Err(ENOSPC) <==> memory && HEADER_SIZE + Total(l) > SECTOR)
        && (memory && HEADER_SIZE + Total(l) <= SECTOR ==>
              if chip.locked then code == (if AlreadyImage(crc, s, Record(key, value)) then Ok else Err(EIO))
              else code == Ok && Content() == ImageSector(crc, l))
      ensures chip.locked || code.Err? ==> chip.cells == old(chip.cells)
      ensures SameOutside(old(chip.cells), chip.cells)
      ensures
        var s, r := old(Content()), Record(key, value);
        chip.commands == old(chip.commands) +
          if code in {Err(ENOMEM), Err(ENOSPC)} then [] else Compaction(crc, old(chip.cells), chip.locked, r)
    {
      hide ParseAt, WalkFrom, Encode, EncodeAll, Total, Size, Rebuilt, ImageSector, Program, Erase, StateOf, Log;
      hide Blocks, Image, AllWell;
      ghost var s, r := Content(), Record(key, value);
      ghost var l := Rebuilt(crc, s, r);
      RebuiltProperties(crc, s, r);
      if !memory {
        return Err(ENOMEM);
      }
      var data, n, ok := BuildImage(st, key, value);
      if !ok {
        return Err(ENOSPC);
      }
      code := EraseAndWrite(data[..n]);
      if !chip.locked {
        RebuildCells(crc, old(chip.cells), chip.cells, l);
      }
    }

    /** One more record behind a valid log that has room for it, a rebuild otherwise. */
    method Append(key: u16, value: seq<byte>, memory: bool) returns (code: Code)
      requires Valid() && WellFormed(Record(key, value))
      modifies chip`cells, chip`commands
      ensures Valid() && SameOutside(old(chip.cells), chip.cells)
      ensures chip.locked || code.Err? ==> chip.cells == old(chip.cells)
      ensures code in {Ok, Err(ENOMEM), Err(ENOSPC), Err(EIO)}
      ensures
        var s, r := old(Content()), Record(key, value);
        var rebuild := NeedsRebuild(crc, s, |value|);
        var full := rebuild && HEADER_SIZE + Total(Rebuilt(crc, s, r)) > SECTOR;
        && (code == Err(ENOMEM) <==> !memory)
        && (code == Err(ENOSPC) <==> memory && full)
        && (code == Err(EIO) ==> chip.locked)
        && (chip.locked ==> (code == Ok <==> memory && !full && rebuild && AlreadyImage(crc, s, r)))
        && (!chip.locked && code == Ok ==>
              && StateOf(crc, Content()) == State.Valid && View(crc, Content()) == Apply(View(crc, s), r)
              && Log(crc, Content()) == LogAfter(crc, s, r)
              && (!rebuild ==> chip.cells == Appended(crc, old(chip.cells), r)))
        && chip.commands == old(chip.commands) +
             (if code in {Err(ENOMEM), Err(ENOSPC)} then [] else Update(crc, old(chip.cells), chip.locked, r))
    {
      hide ParseAt, WalkFrom, Encode, EncodeAll, Total, Size, Rebuilt, ImageSector, Patch, Program, Fold, Image;
      hide Blocks, Compaction;
      ghost var s, r := Content(), Record(key, value);
      SizeIs(r);
      var st, end := Scan();
      if st == State.Valid && end + RecordSize(|value|) <= SECTOR {
        if !memory {
          return Err(ENOMEM);
        }
        var record := Encode(crc, Record(key, value));
        code := WriteVerified(end, record);
        AppendCells(crc, old(chip.cells), r);
        AppendView(crc, s, r);
      } else {
        code := Rebuild(st, key, value, memory);
        RebuiltProperties(crc, s, r);
        if code == Ok && !chip.locked {
          ImageSectorView(crc, Rebuilt(crc, s, r));
        }
      }
    }

    /** Removes a key. It never fails for lack of space. */
    method EraseKey(key: u16, memory: bool) returns (code: Code)
      requires Valid()
      modifies chip`cells, chip`commands
      ensures Valid() && SameOutside(old(chip.cells), chip.cells)
      ensures code in {Ok, Err(EINVAL), Err(ENOMEM), Err(EIO)}
      ensures chip.locked || code.Err? ==> chip.cells == old(chip.cells)
      ensures
        var s, r := old(Content()), Record(key, []);
        var m := View(crc, s);
        && (code == Err(EINVAL) <==> key == KEY_NONE)
        && (code == Err(ENOMEM) <==> key != KEY_NONE && key in m && !memory)
        && (code == Err(EIO) ==> chip.locked)
        && (chip.locked && key != KEY_NONE ==>
              (code == Ok <==> key !in m || (memory && NeedsRebuild(crc, s, 0) && AlreadyImage(crc, s, r))))
        && (!chip.locked && code == Ok ==>
              && View(crc, Content()) == m - {key}
              && (key in m ==> StateOf(crc, Content()) == State.Valid)
              && (key in m ==> Log(crc, Content()) == LogAfter(crc, s, r))
              && (key !in m ==> chip.cells == old(chip.cells)))
        && (key != KEY_NONE ==>
              chip.commands == old(chip.commands) +
                (if code in {Ok, Err(EIO)} && key in m then Update(crc, old(chip.cells), chip.locked, r) else []))
        && (key == KEY_NONE ==> chip.commands == old(chip.commands))
    {
      hide ParseAt, WalkFrom, Size, Total, Rebuilt, Fold, Log, StateOf, Image;
      ghost var s := Content();
      var len := Get(key, null, 0, 0);
      if len == NoLen(ENOENT) {
        return Ok;
      }
      if len.NoLen? {
        return Err(len.e);
      }
      code := Append(key, [], memory);
      RebuiltProperties(crc, s, Record(key, []));
    }

    /** Stores a value; an empty one removes the key, and one that is already there writes nothing. */
    method Set(key: u16, data: array?<byte>, len: nat, memory1: bool, memory2: bool) returns (code: Code)
      requires Valid() && (data != null ==> len <= data.Length)
      modifies chip`cells, chip`commands
      ensures Valid() && SameOutside(old(chip.cells), chip.cells)
      ensures code == Err(EINVAL) <==> key == KEY_NONE || len > MAX_LEN || (len > 0 && data == null)
      ensures chip.locked || code.Err? ==> chip.cells == old(chip.cells)
      ensures code in {Ok, Err(EINVAL), Err(ENOMEM), Err(ENOSPC), Err(EIO)}
      ensures code == Err(EIO) ==> chip.locked
      ensures code == Err(ENOMEM) <==>
        && code != Err(EINVAL)
        && var m := old(View(crc, Content()));
           if len == 0 then key in m && !memory2
           else !memory1 || (!memory2 && !(key in m && m[key] == data[..len]))
      ensures code == Err(ENOSPC) <==>
        code != Err(EINVAL) && len > 0 && memory1 && memory2 && !Fits(old(View(crc, Content())), key, len)
      ensures code == Err(EINVAL) ==> chip.commands == old(chip.commands)
      ensures code != Err(EINVAL) ==>
        var s, r := old(Content()), Record(key, if data == null then [] else data[..len]);
        var m := View(crc, s);
        && (!chip.locked && code == Ok ==>
              && View(crc, Content()) == Apply(m, r)
              && (Apply(m, r) != m ==> StateOf(crc, Content()) == State.Valid)
              && (Apply(m, r) != m ==> Log(crc, Content()) == LogAfter(crc, s, r))
              && (Apply(m, r) == m ==> chip.cells == old(chip.cells)))
        && chip.commands == old(chip.commands) +
             (if code in {Ok, Err(EIO)} && Apply(m, r) != m then Update(crc, old(chip.cells), chip.locked, r) else [])
        && (chip.locked && memory1 && memory2 && len > 0 ==>
              (code == Ok <==>
                 || (key in m && m[key] == r.value)
                 || (NeedsRebuild(crc, s, len) && Fits(m, key, len) && AlreadyImage(crc, s, r))))
    {
      hide ParseAt, WalkFrom, Size, Total, Rebuilt, Fold, Log, StateOf, Image, Fits, NeedsRebuild;
      if key == KEY_NONE || len > MAX_LEN || (len > 0 && data == null) {
        return Err(EINVAL);
      }
      if len == 0 {
        code := EraseKey(key, memory2);
        return;
      }
      ghost var s, m := Content(), View(crc, Content());
      var value := data[..len];
      ghost var r := Record(key, value);
      RebuiltFits(crc, s, r);
      if !memory1 {
        return Err(ENOMEM);
      }
      var current := new byte[len](_ => 0);
      var got := Get(key, current, len, 0);
      if got == Len(len) && current[..] == value {
        StoredFits(crc, s, key);
        assert m[key] == value;
        return Ok;
      }
      assert !(key in m && m[key] == value);
      code := Append(key, value, memory2);
    }
  }

  /** Room for the update, as the rebuilt list counts it and as the map counts it. */
  lemma RebuiltFits(crc: Crc, s: Sector, r: Record)
    requires WellFormed(r) && r.value != []
    ensures Fits(View(crc, s), r.key, |r.value|) <==> HEADER_SIZE + Total(Rebuilt(crc, s, r)) <= SECTOR
    ensures !NeedsRebuild(crc, s, |r.value|) ==> Fits(View(crc, s), r.key, |r.value|)
  {
    hide ParseAt, WalkFrom, Total, Rebuilt, Fold, Log, StateOf, View;
    RebuiltProperties(crc, s, r);
    SizeIs(r);
    if !NeedsRebuild(crc, s, |r.value|) {
      AppendFits(crc, s, r);
    }
  }

  /** Records followed by a stray programmed byte: the log is kept, and the next write has to compact. */
  lemma StrayTail(crc: Crc, l: seq<Record>) returns (s: Sector)
    requires AllWell(l) && HEADER_SIZE + Total(l) + HEAD_SIZE <= SECTOR
    ensures Image(crc, l) <= s && Log(crc, s) == l && StateOf(crc, s) == State.Torn
  {
    hide Encode, EncodeAll, WalkFrom, Size, Total;
    var e := HEADER_SIZE + Total(l);
    s := Image(crc, l) + [0] + Fill(SECTOR - e - 1, ERASED);
    assert s[..HEADER_SIZE] == HEADER;
    assert s[HEADER_SIZE..e] == EncodeAll(crc, l);
    EncodedIsLog(crc, s, HEADER_SIZE, l);
    StrayIsBroken(crc, s, e);
    hide ParseAt;
    WalkUnique(crc, s, HEADER_SIZE, l);
  }

  lemma StrayIsBroken(crc: Crc, s: Sector, e: nat)
    requires e + HEAD_SIZE <= SECTOR && s[e] == 0 && s[e + 1] == s[e + 2] == s[e + 3] == ERASED
    ensures ParseAt(crc, s, e) == Broken
  {
    assert ReadLe16(s, e) == 0xFF00 && ReadLe16(s, e + 2) == 0xFFFF;
  }

  /** A newer value of the same key is what survives of two records. */
  lemma TwoRecords(r: Record, newer: Record)
    requires WellFormed(r) && WellFormed(newer) && r.key == newer.key && r.value != [] && newer.value != []
    ensures Collect([r, newer]) == [newer] && Put([newer], r) == [r]
    ensures Fold([r, newer]) == map[r.key := newer.value]
    ensures Total([r]) <= Total([r, newer]) <= SECTOR / 2
  {
    EmptyLog();
    assert [r, newer][..1] == [r] && [r][..0] == [] && [newer][..0] == [];
    assert Collect([]) == [] && Drop([], r.key) == [];
    assert Collect([r]) == [] + [r] == [r];
    assert Fold([r]) == map[r.key := r.value];
  }

  /**
   * On a locked chip the read-back can pass although nothing was written: the log holds an old value of the key,
   * a newer one and a torn tail. Storing the old value again compacts to an image the sector already starts with,
   * so the call reports success while the key keeps the newer value.
   */
  lemma LockedSetCanLie(crc: Crc, r: Record, newer: Record) returns (s: Sector)
    requires WellFormed(r) && WellFormed(newer) && r.key == newer.key
    requires r.value != [] && newer.value != [] && r.value != newer.value
    ensures NeedsRebuild(crc, s, |r.value|) && Fits(View(crc, s), r.key, |r.value|)
    ensures AlreadyImage(crc, s, r)
    ensures r.key in View(crc, s) && View(crc, s)[r.key] != r.value
  {
    hide ParseAt, Encode, WalkFrom, StateOf, Log, EncodeAll, Fold, Total, Collect, Put, Size, RecordSize, LiveBytes;
    hide Fits;
    TwoRecords(r, newer);
    s := StrayTail(crc, [r, newer]);
    RebuiltProperties(crc, s, r);
    assert Rebuilt(crc, s, r) == [r];
    EncodeAllSnoc(crc, [r], newer);
    assert [r] + [newer] == [r, newer];
    assert Image(crc, [r]) <= Image(crc, [r, newer]) <= s;
    RebuiltFits(crc, s, r);
  }

  /** Removing lies in the same way: behind a record of the key and a torn tail, the image is the header alone. */
  lemma LockedEraseCanLie(crc: Crc, r: Record) returns (s: Sector)
    requires WellFormed(r) && r.value != []
    ensures NeedsRebuild(crc, s, 0) && AlreadyImage(crc, s, Record(r.key, []))
    ensures r.key in View(crc, s)
  {
    hide ParseAt, Encode, WalkFrom, StateOf, Log, EncodeAll, Total, Size, RecordSize;
    OneRecord(r);
    s := StrayTail(crc, [r]);
    var none := Record(r.key, []);
    RebuiltProperties(crc, s, none);
    assert Rebuilt(crc, s, none) == [];
    CollectNone(crc);
    assert HEADER <= Image(crc, [r]) <= s;
  }

  lemma OneRecord(r: Record)
    requires WellFormed(r) && r.value != []
    ensures Collect([r]) == [r] && Put([r], Record(r.key, [])) == []
    ensures Fold([r]) == map[r.key := r.value]
    ensures Total([r]) <= SECTOR / 2
  {
    EmptyLog();
    assert [r][..0] == [];
    assert Collect([]) == [] && Drop([], r.key) == [];
    assert Collect([r]) == [] + [r] == [r];
  }

  predicate SameOutside(a: seq<byte>, b: seq<byte>)
    requires KV_BASE + SECTOR <= |a|
  {
    |a| == |b| && a[..KV_BASE] == b[..KV_BASE] && a[KV_BASE + SECTOR..] == b[KV_BASE + SECTOR..]
  }

  lemma StateLog(crc: Crc, s: Sector)
    ensures Log(crc, s) == if StateOf(crc, s) in {State.Valid, State.Torn} then WalkAll(crc, s).log else []
  {
    hide WalkAll, AllAre;
  }

  lemma LogWell(crc: Crc, s: Sector)
    ensures AllWell(Log(crc, s)) && HEADER_SIZE + Total(Log(crc, s)) <= SECTOR
  {
    hide ParseAt;
    WalkSound(crc, s, HEADER_SIZE);
    IsLogEnd(crc, s, HEADER_SIZE, WalkAll(crc, s).log);
  }

  lemma {:induction false} TotalPrefix(log: seq<Record>, i: nat)
    requires i <= |log|
    ensures Total(log[..i]) <= Total(log)
    decreases |log| - i
  {
    hide Size;
    if i < |log| {
      assert log[..i + 1] == log[..i] + [log[i]];
      TotalSnoc(log[..i], log[i]);
      TotalPrefix(log, i + 1);
    } else {
      assert log[..i] == log;
    }
  }

  lemma CollectNone(crc: Crc)
    ensures Collect([]) == [] && Live([]) && Total([]) == 0 && Image(crc, []) == HEADER
  {
    EncodeAllNone(crc);
  }

  lemma CollectStep(log: seq<Record>, i: nat)
    requires i < |log| && AllWell(log)
    ensures Collect(log[..i + 1]) == Put(Collect(log[..i]), log[i])
    ensures Total(log[..i + 1]) == Total(log[..i]) + Size(log[i])
    ensures Live(Collect(log[..i + 1])) && AllWell(Collect(log[..i + 1]))
    ensures Total(Collect(log[..i + 1])) <= Total(log[..i + 1])
  {
    hide Put, Live, Size;
    assert log[..i + 1] == log[..i] + [log[i]];
    assert log[..i + 1][..i] == log[..i];
    TotalSnoc(log[..i], log[i]);
    CollectProperties(log[..i + 1]);
    LiveAllWell(Collect(log[..i + 1]));
  }

  /** Erasing the sector and programming an image leaves that image and erased bytes behind it. */
  lemma RebuildCells(crc: Crc, cells: seq<byte>, after: seq<byte>, l: seq<Record>)
    requires AllWell(l) && HEADER_SIZE + Total(l) <= SECTOR && KV_BASE + SECTOR <= |cells|
    requires after == Program(Erase(cells, KV_BASE), KV_BASE, Image(crc, l))
    ensures after[KV_BASE..KV_BASE + SECTOR] == ImageSector(crc, l)
    ensures SameOutside(cells, after)
    ensures after[KV_BASE..KV_BASE + SECTOR][0..|Image(crc, l)|] == Image(crc, l)
  {
    hide Image, Program;
    var b, blank := Image(crc, l), Erase(cells, KV_BASE);
    assert blank[KV_BASE..KV_BASE + SECTOR] == Fill(SECTOR, ERASED);
    hide Fill;
    KvTorn.ProgramSector(blank, KV_BASE, 0, b);
    assert Patch(Fill(SECTOR, ERASED), 0, b) == ImageSector(crc, l) by {
      assert Fill(SECTOR, ERASED)[|b|..] == Fill(SECTOR - |b|, ERASED);
    }
    assert blank[..KV_BASE] == cells[..KV_BASE] && blank[KV_BASE + SECTOR..] == cells[KV_BASE + SECTOR..];
  }

  /** A record programmed behind a valid log, and what a locked chip makes of the read-back. */
  lemma AppendCells(crc: Crc, cells: seq<byte>, r: Record)
    requires KV_BASE + SECTOR <= |cells| && WellFormed(r)
    requires
      var s := cells[KV_BASE..KV_BASE + SECTOR];
      StateOf(crc, s) == State.Valid && WalkAll(crc, s).end + Size(r) <= SECTOR
    ensures
      var s := cells[KV_BASE..KV_BASE + SECTOR];
      var e, b := WalkAll(crc, s).end, Encode(crc, r);
      var after := Program(cells, KV_BASE + e, b);
      && after[KV_BASE..KV_BASE + SECTOR] == Patch(s, e, b)
      && after[KV_BASE..KV_BASE + SECTOR][e..e + |b|] == b
      && SameOutside(cells, after)
      && s[e..e + |b|] != b
  {
    hide ParseAt, WalkFrom, Program, RecordCrc;
    var s := cells[KV_BASE..KV_BASE + SECTOR];
    var e, b := WalkAll(crc, s).end, Encode(crc, r);
    EncodeFields(crc, r);
    hide Encode, Size;
    assert s[e] == s[e..][0] == ERASED && s[e + 1] == s[e..][1] == ERASED;
    assert b[0..2][0] == r.key % 256 && b[0..2][1] == r.key / 256;
    assert s[e..e + |b|][0] == ERASED && s[e..e + |b|][1] == ERASED;
    KvTorn.ProgramSector(cells, KV_BASE, e, b);
    assert Patch(s, e, b)[e..e + |b|] == b;
  }

  lemma EmptyLog()
    ensures Fold([]) == map[] && Total([]) == 0
  {
  }

  /** Each record of a log is found at the offset the sizes before it add up to. */
  lemma {:induction false} IsLogAt(crc: Crc, s: Sector, off: nat, log: seq<Record>, i: nat)
    requires IsLog(crc, s, off, log) && i < |log|
    ensures off + Total(log[..i]) + HEAD_SIZE <= SECTOR
    ensures ParseAt(crc, s, off + Total(log[..i])) == Found(log[i])
    decreases |log|
  {
    hide ParseAt, Size;
    if i > 0 {
      IsLogAt(crc, s, off + Size(log[0]), log[1..], i - 1);
      TotalFront(log[..i]);
      assert log[..i][1..] == log[1..][..i - 1];
    }
  }
}
