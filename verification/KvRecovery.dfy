/** The store after a power loss: the next update, on a sector with a torn record in it. */
module KvRecovery {
  import opened Bytes
  import opened Flash
  import opened KvLog
  import opened KvCompact
  import opened KvTorn
  import opened FlashKv

  /** The torn record is not mistaken for a whole one with another value. */
  ghost predicate Harmless(crc: Crc, s: Sector, r: Record, n: nat)
    requires WellFormed(r)
  {
    Slips(crc, r, n) ==> r.key in View(crc, s) && View(crc, s)[r.key] == PartialValue(r, n)
  }

  /** Power may fail anywhere in the commands of an append: what is left is a torn sector, and nothing else changed. */
  lemma CutAppend(crc: Crc, cells: seq<byte>, r: Record, budget: nat) returns (n: nat)
    requires Holds(cells) && CanAppend(crc, SectorOf(cells), r)
    ensures n <= Size(r) && AllFit(Appending(crc, cells, r), |cells|)
    ensures
      var after := CutShort(cells, Appending(crc, cells, r), budget);
      Holds(after) && SectorOf(after) == TornSector(crc, SectorOf(cells), r, n) && SameOutside(cells, after)
  {
    hide CanAppend, TornSector, Encode, WalkFrom, TornWrite, CutShort, Blocks, AllFit, Size, StateOf;
    SectorsAreBlocks(|cells|);
    CanAppendFits(crc, SectorOf(cells), r);
    TornWriteIsCut(cells, KV_BASE + WalkAll(crc, SectorOf(cells)).end, Encode(crc, r), budget);
    n := PowerLossDuringAppend(crc, cells, KV_BASE, r, budget);
  }

  lemma CanAppendFits(crc: Crc, s: Sector, r: Record)
    requires CanAppend(crc, s, r)
    ensures WellFormed(r) && StateOf(crc, s) == State.Valid && WalkAll(crc, s).end + Size(r) <= SECTOR
  {
    hide WalkAll, StateOf;
  }

  /**
   * The next set after an append was cut short, through whichever path it takes: when it reports success, the map is
   * the surviving one, old or new, with that update, and the sector is valid exactly when the set changed the map or
   * the cut had left it valid. It succeeds whenever its arguments are in range, memory is there and the record fits.
   */
  method SetAfterPowerLoss(kv: Kv, ghost s: Sector, ghost r: Record, ghost n: nat, key: u16, data: array?<byte>,
                           len: nat, memory1: bool, memory2: bool) returns (code: Code)
    requires kv.Valid() && !kv.chip.locked && (data != null ==> len <= data.Length)
    requires CanAppend(kv.crc, s, r) && n <= Size(r) && kv.Content() == TornSector(kv.crc, s, r, n)
    requires Harmless(kv.crc, s, r, n)
    modifies kv.chip`cells, kv.chip`commands
    ensures kv.Valid()
    ensures code == Ok ==>
      var old', new' := View(kv.crc, s), Apply(View(kv.crc, s), r);
      var next := Record(key, if data == null then [] else data[..len]);
      var left, now := old(kv.Content()), kv.Content();
      && View(kv.crc, left) in {old', new'} && View(kv.crc, now) == Apply(View(kv.crc, left), next)
      && (StateOf(kv.crc, now) == State.Valid <==>
            View(kv.crc, now) != View(kv.crc, left) || StateOf(kv.crc, left) == State.Valid)
      && (View(kv.crc, now) == View(kv.crc, left) ==> now == left)
    ensures
      && key != KEY_NONE && len <= MAX_LEN && (len > 0 ==> data != null) && memory1 && memory2
      && (len > 0 ==> FlashKv.Fits(old(View(kv.crc, kv.Content())), key, len))
      ==> code == Ok
  {
    hide ParseAt, WalkFrom, StateOf, Slips, TornSector, CanAppend, FlashKv.Fits, NeedsRebuild, AlreadyImage;
    hide PartialValue, Log;
    TornAppend(kv.crc, s, r, n);
    code := kv.Set(key, data, len, memory1, memory2);
  }

  // ---- A set that changes nothing ----

  /** What a cut behind the first byte of a record leaves. */
  function CutKey(crc: Crc, s: Sector, r: Record): Sector
    requires CanAppend(crc, s, r)
  {
    TornSector(crc, s, r, 1)
  }

  /** Cut behind its first byte, a record whose key does not end in FF leaves a torn sector with the old map. */
  lemma CutKeyIsTorn(crc: Crc, s: Sector, r: Record)
    requires CanAppend(crc, s, r) && r.key % 256 != 255
    ensures StateOf(crc, CutKey(crc, s, r)) == State.Torn && View(crc, CutKey(crc, s, r)) == View(crc, s)
  {
    hide TornSector, Encode, Patch, AllAre, ParseAt, WalkFrom, Log, StateOf;
    var e, t := WalkAll(crc, s).end, TornSector(crc, s, r, 1);
    TornLog(crc, s, r, 1);
    TornBytes(crc, s, r, 1);
    FirstByte(crc, r);
    ErasedAt(t, e + 1, e + 1);
    ErasedAt(t, e + 1, e + 2);
    ErasedAt(t, e + 1, e + 3);
    assert t[e] == t[e..e + 1][0];
    CutIsBroken(crc, t, e);
    LogEnd(crc, s);
    LogEnd(crc, t);
  }

  /** A sector whose log is followed by a broken record is torn. */
  lemma LogEnd(crc: Crc, s: Sector)
    requires StateOf(crc, s) in {State.Valid, State.Torn}
    ensures WalkAll(crc, s).end == HEADER_SIZE + Total(Log(crc, s))
    ensures
      var e := WalkAll(crc, s).end;
      e + HEAD_SIZE <= SECTOR && ParseAt(crc, s, e) == Broken ==> StateOf(crc, s) == State.Torn
  {
    hide ParseAt, WalkFrom, AllAre;
    WalkSound(crc, s, HEADER_SIZE);
    WalkUnique(crc, s, HEADER_SIZE, WalkAll(crc, s).log);
  }

  lemma FirstByte(crc: Crc, r: Record)
    requires WellFormed(r)
    ensures |Encode(crc, r)[..1]| == 1 && Encode(crc, r)[..1][0] == r.key % 256
  {
  }

  lemma CutIsBroken(crc: Crc, t: Sector, e: nat)
    requires e + HEAD_SIZE <= SECTOR && t[e] != ERASED && t[e + 1] == t[e + 2] == t[e + 3] == ERASED
    ensures ParseAt(crc, t, e) == Broken
  {
  }

  /**
   * After such a cut, storing a value that is already there succeeds and leaves the sector torn: not every set that
   * succeeds makes it valid again.
   */
  method SameValueAfterCut(kv: Kv, ghost s: Sector, ghost r: Record, key: u16, data: array<byte>)
    returns (code: Code)
    requires CanAppend(kv.crc, s, r) && r.key % 256 != 255
    requires kv.Valid() && !kv.chip.locked && kv.Content() == CutKey(kv.crc, s, r)
    requires key != KEY_NONE && 0 < data.Length <= MAX_LEN
    requires var m := View(kv.crc, s); key in m && m[key] == data[..]
    modifies kv.chip`cells, kv.chip`commands
    ensures kv.Valid() && code == Ok && kv.Content() == old(kv.Content()) && StateOf(kv.crc, kv.Content()) == State.Torn
  {
    hide ParseAt, WalkFrom, StateOf, CutKey, CanAppend, FlashKv.Fits, NeedsRebuild, AlreadyImage, Log;
    CutKeyIsTorn(kv.crc, s, r);
    StoredFits(kv.crc, kv.Content(), key);
    assert data[..data.Length] == data[..];
    code := kv.Set(key, data, data.Length, true, true);
  }

  // ---- A cut that shows ----

  /** An empty store. */
  function Fresh(crc: Crc): Sector {
    ImageSector(crc, [])
  }

  lemma FreshTakes(crc: Crc, r: Record)
    requires WellFormed(r)
    ensures CanAppend(crc, Fresh(crc), r) && View(crc, Fresh(crc)) == map[]
  {
    hide ParseAt, WalkFrom, ImageSector;
    ImageSectorView(crc, []);
    EmptyLog();
    WalkSound(crc, Fresh(crc), HEADER_SIZE);
    assert Size(r) <= SECTOR - HEADER_SIZE;
  }

  /** For every checksum, a cut that slips shows: in a fresh store it leaves a value that nobody stored. */
  lemma SlipShows(crc: Crc, r: Record, n: nat)
    requires WellFormed(r) && n <= Size(r) && Slips(crc, r, n)
    ensures CanAppend(crc, Fresh(crc), r)
    ensures
      var t := View(crc, TornSector(crc, Fresh(crc), r, n));
      t != View(crc, Fresh(crc)) && t != Apply(View(crc, Fresh(crc)), r)
  {
    hide CanAppend, StateOf, TornSector, Fresh, Slips, PartialValue, Apply, Log;
    FreshTakes(crc, r);
    TornAppend(crc, Fresh(crc), r, n);
  }

  /** A checksum that gives the erased value for everything. */
  const ERASED_CRC: Crc := _ => 0xFFFF_FFFF

  /** Such a cut exists for some checksum: two value bytes, none of them written. */
  lemma CutCanSlip()
    ensures Slips(ERASED_CRC, Record(1, [0, 0]), HEAD_SIZE)
  {
    var r := Record(1, [0, 0]);
    assert PartialValue(r, HEAD_SIZE)[0] == ERASED != r.value[0];
  }
}
