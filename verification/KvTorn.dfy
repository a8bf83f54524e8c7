/**
 * Power loss while a record is being appended. The flash driver programs bytes in order, so what remains is the
 * old sector with a prefix of the record in it.
 */
module KvTorn {
  import opened Slices
  import opened Bytes
  import opened Flash
  import opened KvLog
  import opened KvCompact

  /** The value bytes after the first `n` bytes of the record reached the flash; the rest is still erased. */
  function PartialValue(r: Record, n: nat): (v: seq<byte>)
    requires HEAD_SIZE <= n
    ensures |v| == |r.value|
    ensures n >= HEAD_SIZE + |r.value| ==> v == r.value
  {
    var k := if n - HEAD_SIZE < |r.value| then n - HEAD_SIZE else |r.value|;
    r.value[..k] + Fill(|r.value| - k, ERASED)
  }

  /** The cut leaves part of the value, and the still-erased CRC field happens to be its checksum. */
  predicate Slips(crc: Crc, r: Record, n: nat)
    requires WellFormed(r)
  {
    && HEAD_SIZE <= n < HEAD_SIZE + |r.value|
    && PartialValue(r, n) != r.value
    && RecordCrc(crc, Record(r.key, PartialValue(r, n))) == 0xFFFF_FFFF
  }

  /** A valid sector with room for `r`. */
  predicate CanAppend(crc: Crc, s: Sector, r: Record) {
    WellFormed(r) && StateOf(crc, s) == Valid && WalkAll(crc, s).end + Size(r) <= SECTOR
  }

  function TornSector(crc: Crc, s: Sector, r: Record, n: nat): Sector
    requires CanAppend(crc, s, r) && n <= Size(r)
  {
    Patch(s, WalkAll(crc, s).end, Encode(crc, r)[..n])
  }

  /** The bytes of the torn record: written up to the cut, erased after it. */
  lemma TornBytes(crc: Crc, s: Sector, r: Record, n: nat)
    requires CanAppend(crc, s, r) && n <= Size(r)
    ensures
      var e, t, b := WalkAll(crc, s).end, TornSector(crc, s, r, n), Encode(crc, r);
      && t[..e] == s[..e]
      && AllAre(t[e + n..], ERASED)
      && t[e..e + n] == b[..n]
  {
    hide ParseAt, Encode, WalkFrom, Size;
    var e, t := WalkAll(crc, s).end, TornSector(crc, s, r, n);
    forall i | e + n <= i < SECTOR ensures t[i] == ERASED {
      assert t[i] == s[i] == s[e..][i - e];
    }
    assert t[..e] == s[..e];
  }

  lemma ErasedAt(t: seq<byte>, from: nat, i: nat)
    requires from <= i < |t| && AllAre(t[from..], ERASED)
    ensures t[i] == ERASED
  {
    assert t[i] == t[from..][i - from];
  }

  /** A record cut inside its head: the key is missing, or the length is out of range. */
  lemma TornInHead(crc: Crc, t: Sector, e: nat, n: nat)
    requires n < HEAD_SIZE && e + HEAD_SIZE <= SECTOR && AllAre(t[e + n..], ERASED)
    ensures !ParseAt(crc, t, e).Found?
  {
    ErasedAt(t, e + n, e + 3);
    assert ReadLe16(t, e + 2) > MAX_LEN;
  }

  /** With the head written, key and length read as meant. */
  lemma TornHead(crc: Crc, t: Sector, e: nat, r: Record, n: nat)
    requires WellFormed(r) && HEAD_SIZE <= n <= Size(r) && e + Size(r) <= SECTOR
    requires t[e..e + n] == Encode(crc, r)[..n]
    ensures ReadLe16(t, e) == r.key && ReadLe16(t, e + 2) == |r.value|
  {
    EncodeFields(crc, r);
    hide Encode, RecordCrc, Size;
    var b := Encode(crc, r);
    Subrange(t, e, n, 0, 2);
    Subrange(t, e, n, 2, 4);
    assert b[..n][0..2] == b[0..2] && b[..n][2..4] == b[2..4];
    Le16At(t, e, r.key);
    Le16At(t, e + 2, |r.value|);
  }

  /** The value read is the partial one. */
  lemma TornValue(crc: Crc, t: Sector, e: nat, r: Record, n: nat)
    requires WellFormed(r) && HEAD_SIZE <= n <= Size(r) && e + Size(r) <= SECTOR
    requires t[e..e + n] == Encode(crc, r)[..n] && AllAre(t[e + n..], ERASED)
    ensures t[e + HEAD_SIZE..e + HEAD_SIZE + |r.value|] == PartialValue(r, n)
  {
    EncodeFields(crc, r);
    hide Encode, RecordCrc, Size, AllAre;
    var b, len := Encode(crc, r), |r.value|;
    forall i | 0 <= i < len
      ensures t[e + HEAD_SIZE..e + HEAD_SIZE + len][i] == PartialValue(r, n)[i]
    {
      if HEAD_SIZE + i < n {
        assert t[e + (HEAD_SIZE + i)] == t[e..e + n][HEAD_SIZE + i] == b[HEAD_SIZE..HEAD_SIZE + len][i];
      } else {
        ErasedAt(t, e + n, e + HEAD_SIZE + i);
      }
    }
  }

  /** A record cut after its head is accepted or not by the checksum of its partial value. */
  lemma ErasedCrc(t: Sector, from: nat, at: nat)
    requires from <= at && at + 4 <= SECTOR && AllAre(t[from..], ERASED)
    ensures ReadLe32(t, at) == 0xFFFF_FFFF
  {
    hide AllAre;
    ErasedAt(t, from, at);
    ErasedAt(t, from, at + 1);
    ErasedAt(t, from, at + 2);
    ErasedAt(t, from, at + 3);
  }

  lemma TornInBody(crc: Crc, t: Sector, e: nat, r: Record, n: nat)
    requires WellFormed(r) && HEAD_SIZE <= n <= Size(r) && e + Size(r) <= SECTOR
    requires t[e..e + n] == Encode(crc, r)[..n] && AllAre(t[e + n..], ERASED)
    ensures
      var p := ParseAt(crc, t, e);
      && (p.Found? ==> p.r == Record(r.key, PartialValue(r, n)))
      && (n < HEAD_SIZE + |r.value| && PartialValue(r, n) != r.value ==> (p.Found? <==> Slips(crc, r, n)))
  {
    hide Encode, RecordCrc, PartialValue, ReadLe16, ReadLe32, Align4, AllAre;
    TornHead(crc, t, e, r, n);
    TornValue(crc, t, e, r, n);
    if n < HEAD_SIZE + |r.value| {
      ErasedCrc(t, e + n, e + HEAD_SIZE + Align4(|r.value|));
    }
  }

  /** The log a reader sees after the cut: the old one, or the old one and the record with its partial value. */
  lemma TornLog(crc: Crc, s: Sector, r: Record, n: nat)
    requires CanAppend(crc, s, r) && n <= Size(r)
    ensures
      var t := TornSector(crc, s, r, n);
      && StateOf(crc, t) in {Valid, Torn}
      && (|| Log(crc, t) == Log(crc, s)
          || (n >= HEAD_SIZE && Log(crc, t) == Log(crc, s) + [Record(r.key, PartialValue(r, n))]))
      && (Slips(crc, r, n) ==> Log(crc, t) == Log(crc, s) + [Record(r.key, PartialValue(r, n))])
      && (HEAD_SIZE <= n < HEAD_SIZE + |r.value| && PartialValue(r, n) != r.value && !Slips(crc, r, n) ==>
            Log(crc, t) == Log(crc, s))
  {
    var w, t := WalkAll(crc, s), TornSector(crc, s, r, n);
    var e := w.end;
    TornBytes(crc, s, r, n);
    hide ParseAt, Encode, TornSector, RecordCrc, WalkFrom, PartialValue;
    if n < HEAD_SIZE { TornInHead(crc, t, e, n); } else { TornInBody(crc, t, e, r, n); }
    if ParseAt(crc, t, e).Found? {
      assert t[e + Size(r)..] == t[e + n..][Size(r) - n..];
    }
    ExtendLog(crc, s, t);
  }

  /**
   * Torn append, exactly: every key reads as in the old map or every key reads as in the new one, unless the
   * partial value slips past the checksum, and then it fails precisely when that partial value was not what the
   * key held before.
   */
  lemma TornAppend(crc: Crc, s: Sector, r: Record, n: nat)
    requires CanAppend(crc, s, r) && n <= Size(r)
    ensures
      var old', new', t := View(crc, s), Apply(View(crc, s), r), View(crc, TornSector(crc, s, r, n));
      && (t == old' || t == new' <==>
          (Slips(crc, r, n) ==> r.key in old' && old'[r.key] == PartialValue(r, n)))
      && (forall k :: k != r.key ==> (k in t <==> k in old') && (k in t ==> t[k] == old'[k]))
      && StateOf(crc, TornSector(crc, s, r, n)) in {Valid, Torn}
  {
    hide StateOf, WalkAll, Encode, TornSector, RecordCrc, PartialValue, Fold, Log;
    TornLog(crc, s, r, n);
    if n >= HEAD_SIZE {
      FoldSnoc(Log(crc, s), Record(r.key, PartialValue(r, n)));
      ApplyParts(View(crc, s), r.key, PartialValue(r, n), r.value);
    }
  }

  /** Two updates of one key with values of the same length. */
  lemma ApplyParts(m: Store, key: u16, v: seq<byte>, w: seq<byte>)
    requires |v| == |w|
    ensures v != w ==> Apply(m, Record(key, v)) != Apply(m, Record(key, w))
    ensures v != w ==> (Apply(m, Record(key, v)) == m <==> key in m && m[key] == v)
    ensures forall k :: k != key ==>
      && (k in Apply(m, Record(key, v)) <==> k in m) && (k in m ==> Apply(m, Record(key, v))[k] == m[k])
  {
    if v != w {
      assert Apply(m, Record(key, v))[key] == v && Apply(m, Record(key, w))[key] == w;
      if key in m && m[key] == v {
        assert Apply(m, Record(key, v)) == m;
      }
    }
  }

  /** After a torn append the next update that fits leaves a valid sector with the surviving map and that update. */
  lemma TornThenRebuild(crc: Crc, s: Sector, r: Record, n: nat, next: Record)
    requires CanAppend(crc, s, r) && n <= Size(r) && !Slips(crc, r, n) && WellFormed(next)
    requires HEADER_SIZE + Total(Rebuilt(crc, TornSector(crc, s, r, n), next)) <= SECTOR
    ensures
      var t := TornSector(crc, s, r, n);
      && AllWell(Rebuilt(crc, t, next))
      && var u := ImageSector(crc, Rebuilt(crc, t, next));
         && StateOf(crc, u) == Valid
         && (|| View(crc, u) == Apply(View(crc, s), next)
             || View(crc, u) == Apply(Apply(View(crc, s), r), next))
  {
    hide ParseAt, Encode, TornSector, RecordCrc, WalkFrom, StateOf, ImageSector, Rebuilt, Log;
    var t := TornSector(crc, s, r, n);
    TornAppend(crc, s, r, n);
    RebuiltProperties(crc, t, next);
    ImageSectorView(crc, Rebuilt(crc, t, next));
  }

  lemma PatchInside(cells: seq<byte>, base: nat, e: nat, b: seq<byte>)
    requires base + SECTOR <= |cells| && e + |b| <= SECTOR
    ensures
      var after := cells[..base + e] + b + cells[base + e + |b|..];
      after[base..base + SECTOR] == Patch(cells[base..base + SECTOR], e, b)
  {
    var after := cells[..base + e] + b + cells[base + e + |b|..];
    var x, y := after[base..base + SECTOR], Patch(cells[base..base + SECTOR], e, b);
    forall i | 0 <= i < SECTOR ensures x[i] == y[i] {
      assert x[i] == after[base + i];
      assert y[i] == if e <= i < e + |b| then b[i - e] else cells[base + i];
    }
  }

  /** Programming bytes over the erased tail of a sector patches that sector and leaves every other cell alone. */
  lemma ProgramSector(cells: seq<byte>, base: nat, e: nat, b: seq<byte>)
    requires base + SECTOR <= |cells| && e + |b| <= SECTOR
    requires AllAre(cells[base..base + SECTOR][e..], ERASED)
    ensures
      var after := Program(cells, base + e, b);
      && after[base..base + SECTOR] == Patch(cells[base..base + SECTOR], e, b)
      && after[..base] == cells[..base] && after[base + SECTOR..] == cells[base + SECTOR..]
  {
    var s := cells[base..base + SECTOR];
    forall i | base + e <= i < base + e + |b| ensures cells[i] == ERASED {
      assert s[e..][i - base - e] == cells[i];
    }
    ProgramErased(cells, base + e, b);
    var after := cells[..base + e] + b + cells[base + e + |b|..];
    PatchInside(cells, base, e, b);
    assert after[..base] == cells[..base];
    assert after[base + SECTOR..] == cells[base + SECTOR..];
  }

  /** The same over the block-wise driver: power may fail after any number of programmed bytes. */
  lemma PowerLossDuringAppend(crc: Crc, cells: seq<byte>, base: nat, r: Record, budget: nat) returns (n: nat)
    requires |cells| % BLOCK == 0 && base + SECTOR <= |cells|
    requires CanAppend(crc, cells[base..base + SECTOR], r)
    ensures n <= Size(r)
    ensures
      var s := cells[base..base + SECTOR];
      var after := TornWrite(cells, base + WalkAll(crc, s).end, Encode(crc, r), budget);
      && after[base..base + SECTOR] == TornSector(crc, s, r, n)
      && after[..base] == cells[..base] && after[base + SECTOR..] == cells[base + SECTOR..]
  {
    hide ParseAt, Encode, WalkFrom, TornWrite, Program, Patch, Size, RecordCrc;
    var s := cells[base..base + SECTOR];
    var e := WalkAll(crc, s).end;
    n := TornWriteIsPrefix(cells, base + e, Encode(crc, r), budget);
    ProgramSector(cells, base, e, Encode(crc, r)[..n]);
  }
}
