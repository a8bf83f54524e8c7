/**
 * Compaction: the list of live records collected from a log, the image written back for it, and why both the
 * appended and the compacted sector read as the updated map.
 */
module KvCompact {
  import opened Slices
  import opened Bytes
  import opened Flash
  import opened KvLog

  /** The list without the records of `key`. */
  function Drop(l: seq<Record>, key: u16): seq<Record> {
    if l == [] then [] else
    var last := l[|l| - 1];
    var rest := Drop(l[..|l| - 1], key);
    if last.key == key then rest else rest + [last]
  }

  /** What the image holds after a record is put into it: a tombstone leaves nothing behind. */
  function Put(l: seq<Record>, r: Record): seq<Record> {
    Drop(l, r.key) + if r.value == [] then [] else [r]
  }

  function Collect(log: seq<Record>): seq<Record> {
    if log == [] then [] else Put(Collect(log[..|log| - 1]), log[|log| - 1])
  }

  predicate NoKey(l: seq<Record>, key: u16) {
    forall i :: 0 <= i < |l| ==> l[i].key != key
  }

  predicate AllWell(l: seq<Record>) {
    forall i :: 0 <= i < |l| ==> WellFormed(l[i])
  }

  /** One record per key, each with a value. */
  predicate Live(l: seq<Record>) {
    l == [] ||
    var front, last := l[..|l| - 1], l[|l| - 1];
    Live(front) && WellFormed(last) && last.value != [] && NoKey(front, last.key)
  }

  lemma ApplyWithout(m: Store, r: Record, key: u16)
    ensures Apply(m, r) - {key} == if r.key == key then m - {key} else Apply(m - {key}, r)
  {
    assert Apply(m, r) - {key} == if r.key == key then m - {key} else Apply(m - {key}, r);
  }

  lemma {:induction false} DropView(l: seq<Record>, key: u16)
    ensures Total(Drop(l, key)) <= Total(l)
    ensures Fold(Drop(l, key)) == Fold(l) - {key}
    ensures NoKey(Drop(l, key), key)
  {
    hide Apply, Size;
    if l != [] {
      var front, last := l[..|l| - 1], l[|l| - 1];
      DropView(front, key);
      ApplyWithout(Fold(front), last, key);
      if last.key != key {
        TotalSnoc(Drop(front, key), last);
        FoldSnoc(Drop(front, key), last);
      }
    }
  }

  lemma {:induction false} DropNoKey(l: seq<Record>, key: u16, k: u16)
    requires NoKey(l, k)
    ensures NoKey(Drop(l, key), k)
  {
    if l != [] {
      DropNoKey(l[..|l| - 1], key, k);
    }
  }

  lemma SnocLive(l: seq<Record>, r: Record)
    requires Live(l) && NoKey(l, r.key) && WellFormed(r) && r.value != []
    ensures Live(l + [r])
  {
    assert (l + [r])[..|l|] == l;
  }

  lemma {:induction false} DropLive(l: seq<Record>, key: u16)
    requires Live(l)
    ensures Live(Drop(l, key))
  {
    if l != [] {
      var front, last := l[..|l| - 1], l[|l| - 1];
      DropLive(front, key);
      DropNoKey(front, key, last.key);
      if last.key != key {
        SnocLive(Drop(front, key), last);
      }
    }
  }

  lemma {:induction false} LiveAllWell(l: seq<Record>)
    requires Live(l)
    ensures AllWell(l)
  {
    if l != [] {
      LiveAllWell(l[..|l| - 1]);
    }
  }

  lemma PutProperties(l: seq<Record>, r: Record)
    requires WellFormed(r) && Live(l)
    ensures Live(Put(l, r))
    ensures Total(Put(l, r)) == Total(Drop(l, r.key)) + if r.value == [] then 0 else Size(r)
    ensures Fold(Put(l, r)) == Apply(Fold(l), r)
  {
    var d := Drop(l, r.key);
    DropView(l, r.key);
    DropLive(l, r.key);
    if r.value == [] {
      assert Put(l, r) == d;
    } else {
      TotalSnoc(d, r);
      FoldSnoc(d, r);
      SnocLive(d, r);
    }
  }

  /** Compaction keeps the map and never needs more room than the log it came from. */
  lemma {:induction false} CollectProperties(log: seq<Record>)
    requires AllWell(log)
    ensures Live(Collect(log))
    ensures Fold(Collect(log)) == Fold(log)
    ensures Total(Collect(log)) <= Total(log)
  {
    if log != [] {
      var front, last := log[..|log| - 1], log[|log| - 1];
      CollectProperties(front);
      PutProperties(Collect(front), last);
      DropView(Collect(front), last.key);
    }
  }

  // ---- The room a map needs ----

  /** The bytes the records of a map take, in any order. */
  ghost function LiveBytes(m: Store): nat
    decreases |m|
  {
    if m == map[] then 0 else
    var k :| k in m;
    RecordSize(|m[k]|) + LiveBytes(m - {k})
  }

  lemma {:induction false} LiveBytesWithout(m: Store, k: u16)
    requires k in m
    ensures LiveBytes(m) == RecordSize(|m[k]|) + LiveBytes(m - {k})
    decreases |m|
  {
    hide RecordSize;
    var p :| p in m && LiveBytes(m) == RecordSize(|m[p]|) + LiveBytes(m - {p});
    if p != k {
      LiveBytesWithout(m - {p}, k);
      LiveBytesWithout(m - {k}, p);
      assert m - {p} - {k} == m - {k} - {p};
    }
  }

  lemma {:induction false} FoldKeys(l: seq<Record>)
    ensures forall k :: k in Fold(l) ==> exists i :: 0 <= i < |l| && l[i].key == k
  {
    if l != [] {
      FoldKeys(l[..|l| - 1]);
      forall k | k in Fold(l)
        ensures exists i :: 0 <= i < |l| && l[i].key == k
      {
        if k in Fold(l[..|l| - 1]) {
          var i :| 0 <= i < |l| - 1 && l[..|l| - 1][i].key == k;
          assert l[i].key == k;
        } else {
          assert l[|l| - 1].key == k;
        }
      }
    }
  }

  /** A live list takes exactly the room its map needs. */
  lemma {:induction false} LiveTotal(l: seq<Record>)
    requires Live(l)
    ensures LiveBytes(Fold(l)) == Total(l)
  {
    if l != [] {
      var front, last := l[..|l| - 1], l[|l| - 1];
      LiveTotal(front);
      FoldKeys(front);
      assert last.key !in Fold(front);
      assert Fold(l) - {last.key} == Fold(front);
      LiveBytesWithout(Fold(l), last.key);
    }
  }

  // ---- The image written back ----

  function EncodeAll(crc: Crc, l: seq<Record>): (b: seq<byte>)
    requires AllWell(l)
    ensures |b| == Total(l)
  {
    if l == [] then [] else EncodeAll(crc, l[..|l| - 1]) + Encode(crc, l[|l| - 1])
  }

  function Image(crc: Crc, l: seq<Record>): (b: seq<byte>)
    requires AllWell(l)
    ensures |b| == HEADER_SIZE + Total(l)
  {
    HEADER + EncodeAll(crc, l)
  }

  /** The sector a rebuild leaves: the image, and erased bytes up to the end. */
  function ImageSector(crc: Crc, l: seq<Record>): Sector
    requires AllWell(l)
    requires HEADER_SIZE + Total(l) <= SECTOR
  {
    Image(crc, l) + Fill(SECTOR - HEADER_SIZE - Total(l), ERASED)
  }

  /** Encoded records placed in a sector are read back as that list. */
  lemma {:induction false} EncodedIsLog(crc: Crc, s: Sector, off: nat, l: seq<Record>)
    requires AllWell(l)
    requires off + Total(l) <= SECTOR && s[off..off + Total(l)] == EncodeAll(crc, l)
    ensures IsLog(crc, s, off, l)
  {
    hide ParseAt, Size, Encode;
    if l != [] {
      var front, last := l[..|l| - 1], l[|l| - 1];
      var mid, e := off + Total(front), off + Total(l);
      Pieces(s, off, e, EncodeAll(crc, front), Encode(crc, last));
      EncodedIsLog(crc, s, off, front);
      EncodeParses(crc, s, mid, last);
      IsLogSnoc(crc, s, off, front, last);
      assert front + [last] == l;
    }
  }

  lemma ErasedIsEnd(crc: Crc, t: Sector, e: nat)
    requires e + HEAD_SIZE <= SECTOR && t[e] == t[e + 1] == ERASED
    ensures ParseAt(crc, t, e) == End
  {
    assert ReadLe16(t, e) == KEY_NONE;
  }

  /** Records followed by erased bytes: the whole log, in a valid sector. */
  lemma LogThenBlank(crc: Crc, t: Sector, l: seq<Record>)
    requires t[..HEADER_SIZE] == HEADER && IsLog(crc, t, HEADER_SIZE, l)
    requires HEADER_SIZE + Total(l) <= SECTOR && AllAre(t[HEADER_SIZE + Total(l)..], ERASED)
    ensures WalkAll(crc, t) == Walk(l, HEADER_SIZE + Total(l), true)
    ensures StateOf(crc, t) == Valid && Log(crc, t) == l
  {
    hide ParseAt, WalkFrom, Total, IsLog;
    var e := HEADER_SIZE + Total(l);
    TotalAligned(l);
    if e < SECTOR {
      assert t[e] == t[e..][0] && t[e + 1] == t[e..][1];
      ErasedIsEnd(crc, t, e);
    }
    WalkUnique(crc, t, HEADER_SIZE, l);
  }

  /** The compacted sector is valid and holds exactly the map of its list. */
  lemma ImageSectorView(crc: Crc, l: seq<Record>)
    requires AllWell(l)
    requires HEADER_SIZE + Total(l) <= SECTOR
    ensures StateOf(crc, ImageSector(crc, l)) == Valid
    ensures Log(crc, ImageSector(crc, l)) == l
  {
    hide ParseAt, EncodeAll;
    var t := ImageSector(crc, l);
    assert t[..HEADER_SIZE] == HEADER;
    assert t[HEADER_SIZE..HEADER_SIZE + Total(l)] == EncodeAll(crc, l);
    EncodedIsLog(crc, t, HEADER_SIZE, l);
    LogThenBlank(crc, t, l);
  }

  /** A sector with `bytes` written over it from `at` on. */
  function Patch(s: Sector, at: nat, bytes: seq<byte>): Sector
    requires at + |bytes| <= SECTOR
  {
    s[..at] + bytes + s[at + |bytes|..]
  }

  /** Changing bytes from the end of the log on adds to the log the record now found there, if any. */
  lemma ExtendLog(crc: Crc, s: Sector, t: Sector)
    requires s[..HEADER_SIZE] == HEADER
    requires
      var e := WalkAll(crc, s).end;
      && e + HEAD_SIZE <= SECTOR && t[..e] == s[..e]
      && var p := ParseAt(crc, t, e); p.Found? ==> AllAre(t[e + Size(p.r)..], ERASED)
    ensures
      var p := ParseAt(crc, t, WalkAll(crc, s).end);
      && t[..HEADER_SIZE] == HEADER
      && (p.Found? ==> StateOf(crc, t) == Valid && Log(crc, t) == Log(crc, s) + [p.r])
      && (!p.Found? ==> Log(crc, t) == Log(crc, s))
  {
    hide ParseAt, Size, WalkFrom;
    var w := WalkAll(crc, s);
    var e := w.end;
    WalkSound(crc, s, HEADER_SIZE);
    assert t[..HEADER_SIZE] == t[..e][..HEADER_SIZE] == s[..HEADER_SIZE];
    assert t[HEADER_SIZE..e] == t[..e][HEADER_SIZE..] == s[HEADER_SIZE..e];
    IsLogFrame(crc, s, t, HEADER_SIZE, w.log);
    var p := ParseAt(crc, t, e);
    if p.Found? {
      IsLogSnoc(crc, t, HEADER_SIZE, w.log, p.r);
      TotalSnoc(w.log, p.r);
      LogThenBlank(crc, t, w.log + [p.r]);
    } else {
      WalkUnique(crc, t, HEADER_SIZE, w.log);
    }
  }

  /** Appending to a valid sector adds one record to its log and nothing else. */
  lemma AppendView(crc: Crc, s: Sector, r: Record)
    requires StateOf(crc, s) == Valid && WellFormed(r)
    requires WalkAll(crc, s).end + Size(r) <= SECTOR
    ensures
      var t := Patch(s, WalkAll(crc, s).end, Encode(crc, r));
      && StateOf(crc, t) == Valid
      && Log(crc, t) == Log(crc, s) + [r]
      && View(crc, t) == Apply(View(crc, s), r)
  {
    hide ParseAt, Encode, Size, WalkFrom;
    var e := WalkAll(crc, s).end;
    var t := Patch(s, e, Encode(crc, r));
    assert t[e..e + Size(r)] == Encode(crc, r);
    EncodeParses(crc, t, e, r);
    assert t[..e] == s[..e];
    assert t[e + Size(r)..] == s[e..][Size(r)..];
    ExtendLog(crc, s, t);
    FoldSnoc(Log(crc, s), r);
  }

  /** The list a rebuild writes for `r`, from whatever the sector held. */
  function Rebuilt(crc: Crc, s: Sector, r: Record): seq<Record> {
    Put(Collect(Log(crc, s)), r)
  }

  /** A rebuild realises the update, and it runs out of room exactly when the other live records and `r` do. */
  lemma RebuiltProperties(crc: Crc, s: Sector, r: Record)
    requires WellFormed(r)
    ensures Live(Rebuilt(crc, s, r)) && AllWell(Rebuilt(crc, s, r))
    ensures Fold(Rebuilt(crc, s, r)) == Apply(View(crc, s), r)
    ensures Total(Rebuilt(crc, s, r)) ==
            LiveBytes(View(crc, s) - {r.key}) + if r.value == [] then 0 else Size(r)
    ensures LiveBytes(View(crc, s) - {r.key}) <= Total(Log(crc, s)) <= SECTOR - HEADER_SIZE
  {
    hide ParseAt;
    var log := Log(crc, s);
    WalkSound(crc, s, HEADER_SIZE);
    IsLogEnd(crc, s, HEADER_SIZE, WalkAll(crc, s).log);
    CollectProperties(log);
    PutProperties(Collect(log), r);
    DropView(Collect(log), r.key);
    DropLive(Collect(log), r.key);
    LiveAllWell(Rebuilt(crc, s, r));
    LiveTotal(Drop(Collect(log), r.key));
  }
}
