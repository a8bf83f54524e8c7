/**
 * The record log of the flash key-value store: how a sector's bytes are read as a list of records, and the map
 * that list stands for. Everything here holds for every checksum function.
 */
module KvLog {
  import opened Slices
  import opened Bytes
  import opened Flash

  type Crc = seq<byte> -> u32

  const KEY_NONE: u16 := 0xFFFF
  const MAX_LEN: nat := 256
  const HEAD_SIZE: nat := 4
  const CRC_SIZE: nat := 4
  const HEADER_SIZE: nat := 8
  const HEADER: seq<byte> := Le32(0x564B4C46) + Le32(1)

  datatype Record = Record(key: u16, value: seq<byte>)
  datatype Parse = Found(r: Record) | End | Broken
  datatype Walk = Walk(log: seq<Record>, end: nat, clean: bool)
  datatype State = Blank | Foreign | Valid | Torn

  type Sector = s: seq<byte> | |s| == SECTOR witness Fill(SECTOR, ERASED)

  function Align4(n: nat): (r: nat)
    ensures n <= r < n + 4 && r % 4 == 0
  {
    (n + 3) / 4 * 4
  }

  function RecordSize(len: nat): (n: nat)
    ensures n >= HEAD_SIZE + len + CRC_SIZE
  {
    HEAD_SIZE + Align4(len) + CRC_SIZE
  }

  predicate WellFormed(r: Record) {
    r.key != KEY_NONE && |r.value| <= MAX_LEN
  }

  function Size(r: Record): (n: nat)
    ensures n >= HEAD_SIZE + |r.value| + CRC_SIZE
  {
    RecordSize(|r.value|)
  }

  lemma SizeAligned(r: Record)
    ensures Size(r) % 4 == 0
  {
  }

  function Head(key: u16, len: u16): (h: seq<byte>)
    ensures |h| == HEAD_SIZE
  {
    Le16(key) + Le16(len)
  }

  function RecordCrc(crc: Crc, r: Record): u32
    requires WellFormed(r)
  {
    crc(Head(r.key, |r.value|) + r.value)
  }

  function Encode(crc: Crc, r: Record): (b: seq<byte>)
    requires WellFormed(r)
    ensures |b| == Size(r)
  {
    Head(r.key, |r.value|) + r.value + Fill(Align4(|r.value|) - |r.value|, 0) + Le32(RecordCrc(crc, r))
  }

  /** What a reader makes of the bytes at `off`. Padding is not looked at. */
  function ParseAt(crc: Crc, s: Sector, off: nat): (p: Parse)
    requires off + HEAD_SIZE <= SECTOR
    ensures p.Found? ==> WellFormed(p.r) && off + Size(p.r) <= SECTOR
    ensures p.Found? ==> p.r.value == s[off + HEAD_SIZE..off + HEAD_SIZE + |p.r.value|]
  {
    var key, len := ReadLe16(s, off), ReadLe16(s, off + 2);
    if key == KEY_NONE then End else
    if len > MAX_LEN || off + RecordSize(len) > SECTOR then Broken else
    var r := Record(key, s[off + HEAD_SIZE..off + HEAD_SIZE + len]);
    if ReadLe32(s, off + HEAD_SIZE + Align4(len)) != RecordCrc(crc, r) then Broken else Found(r)
  }

  function WalkFrom(crc: Crc, s: Sector, off: nat): (w: Walk)
    requires off <= SECTOR && off % 4 == 0
    ensures off <= w.end <= SECTOR && w.end % 4 == 0
    decreases SECTOR - off
  {
    if off == SECTOR then Walk([], off, true) else
    match ParseAt(crc, s, off)
    case End => Walk([], off, true)
    case Broken => Walk([], off, false)
    case Found(r) =>
      var rest := WalkFrom(crc, s, off + Size(r));
      rest.(log := [r] + rest.log)
  }

  function WalkAll(crc: Crc, s: Sector): Walk {
    WalkFrom(crc, s, HEADER_SIZE)
  }

  function StateOf(crc: Crc, s: Sector): State {
    if s[..HEADER_SIZE] != HEADER then (if AllAre(s[..HEADER_SIZE], ERASED) then Blank else Foreign) else
    var w := WalkAll(crc, s);
    if w.clean && AllAre(s[w.end..], ERASED) then Valid else Torn
  }

  // ---- The map a log stands for ----

  type Store = map<u16, seq<byte>>

  /** A record with a value sets its key, one without removes it. */
  function Apply(m: Store, r: Record): Store {
    if r.value == [] then m - {r.key} else m[r.key := r.value]
  }

  function Fold(log: seq<Record>): Store {
    if log == [] then map[] else Apply(Fold(log[..|log| - 1]), log[|log| - 1])
  }

  /** The records a reader sees, for every sector content. */
  function Log(crc: Crc, s: Sector): seq<Record> {
    if s[..HEADER_SIZE] == HEADER then WalkAll(crc, s).log else []
  }

  /** The abstract value of a sector, whatever bytes it holds. */
  function View(crc: Crc, s: Sector): Store {
    Fold(Log(crc, s))
  }

  function Total(log: seq<Record>): nat {
    if log == [] then 0 else Total(log[..|log| - 1]) + Size(log[|log| - 1])
  }

  lemma {:induction false} TotalFront(log: seq<Record>)
    requires log != []
    ensures Total(log) == Size(log[0]) + Total(log[1..])
  {
    var n := |log| - 1;
    if n > 0 {
      TotalFront(log[..n]);
      assert log[..n][1..] == log[1..][..n - 1];
    }
  }

  lemma TotalSnoc(log: seq<Record>, r: Record)
    ensures Total(log + [r]) == Total(log) + Size(r)
  {
    assert (log + [r])[..|log|] == log;
  }

  lemma FoldSnoc(log: seq<Record>, r: Record)
    ensures Fold(log + [r]) == Apply(Fold(log), r)
  {
    assert (log + [r])[..|log|] == log;
  }

  // ---- Reading a list of records out of a sector ----

  /** The records `log` lie one after the other from `off` on. */
  ghost predicate IsLog(crc: Crc, s: Sector, off: nat, log: seq<Record>)
    decreases |log|
  {
    log == [] ||
    (off + HEAD_SIZE <= SECTOR && ParseAt(crc, s, off) == Found(log[0]) && IsLog(crc, s, off + Size(log[0]), log[1..]))
  }

  ghost predicate Stops(crc: Crc, s: Sector, off: nat) {
    off + HEAD_SIZE > SECTOR || !ParseAt(crc, s, off).Found?
  }

  lemma {:induction false} TotalAligned(log: seq<Record>)
    ensures Total(log) % 4 == 0
  {
    if log != [] {
      TotalAligned(log[..|log| - 1]);
    }
  }

  lemma {:induction false} IsLogEnd(crc: Crc, s: Sector, off: nat, log: seq<Record>)
    requires off <= SECTOR && IsLog(crc, s, off, log)
    ensures off + Total(log) <= SECTOR
    ensures forall i :: 0 <= i < |log| ==> WellFormed(log[i])
    decreases |log|
  {
    hide ParseAt, Size;
    if log != [] {
      IsLogEnd(crc, s, off + Size(log[0]), log[1..]);
      TotalFront(log);
      assert log == [log[0]] + log[1..];
    }
  }

  lemma WalkStep(crc: Crc, s: Sector, off: nat)
    requires off < SECTOR && off % 4 == 0
    ensures
      match ParseAt(crc, s, off)
      case Found(r) =>
        && (off + Size(r)) % 4 == 0
        && var rest := WalkFrom(crc, s, off + Size(r));
           WalkFrom(crc, s, off) == Walk([r] + rest.log, rest.end, rest.clean)
      case End => WalkFrom(crc, s, off) == Walk([], off, true)
      case Broken => WalkFrom(crc, s, off) == Walk([], off, false)
  {
    hide ParseAt, Size;
    if ParseAt(crc, s, off).Found? {
      SizeAligned(ParseAt(crc, s, off).r);
    }
  }

  lemma WalkAtEnd(crc: Crc, s: Sector)
    ensures WalkFrom(crc, s, SECTOR) == Walk([], SECTOR, true)
  {
  }

  lemma TotalCons(r: Record, log: seq<Record>)
    ensures Total([r] + log) == Size(r) + Total(log) && Total([]) == 0
  {
    TotalFront([r] + log);
    assert ([r] + log)[1..] == log;
  }

  lemma IsLogCons(crc: Crc, s: Sector, off: nat, r: Record, log: seq<Record>)
    requires off + HEAD_SIZE <= SECTOR && ParseAt(crc, s, off) == Found(r)
    ensures IsLog(crc, s, off, [r] + log) <==> IsLog(crc, s, off + Size(r), log)
  {
    hide ParseAt;
    assert ([r] + log)[1..] == log;
  }

  lemma {:induction false} WalkSound(crc: Crc, s: Sector, off: nat)
    requires off <= SECTOR && off % 4 == 0
    ensures
      var w := WalkFrom(crc, s, off);
      IsLog(crc, s, off, w.log) && w.end == off + Total(w.log) && Stops(crc, s, w.end)
    decreases SECTOR - off
  {
    hide ParseAt, Size, WalkFrom, Total;
    if off == SECTOR {
      WalkAtEnd(crc, s);
    } else {
      WalkStep(crc, s, off);
      if ParseAt(crc, s, off).Found? {
        var r := ParseAt(crc, s, off).r;
        WalkSound(crc, s, off + Size(r));
        var rest := WalkFrom(crc, s, off + Size(r)).log;
        TotalCons(r, rest);
        IsLogCons(crc, s, off, r, rest);
      }
    }
    TotalCons(Record(0, []), []);
  }

  /** A list of records that ends where no record follows is the whole walk. */
  lemma {:induction false} WalkUnique(crc: Crc, s: Sector, off: nat, log: seq<Record>)
    requires off <= SECTOR && off % 4 == 0 && IsLog(crc, s, off, log)
    requires Stops(crc, s, off + Total(log))
    ensures
      var e := off + Total(log);
      WalkFrom(crc, s, off) == Walk(log, e, e + HEAD_SIZE > SECTOR || ParseAt(crc, s, e) == End)
    decreases |log|
  {
    hide ParseAt, Size, WalkFrom, Total;
    if off == SECTOR {
      WalkAtEnd(crc, s);
      IsLogEnd(crc, s, off, log);
      TotalCons(Record(0, []), []);
    } else {
      WalkStep(crc, s, off);
      if log == [] {
        TotalCons(Record(0, []), []);
      } else {
        assert log == [log[0]] + log[1..];
        TotalCons(log[0], log[1..]);
        WalkUnique(crc, s, off + Size(log[0]), log[1..]);
      }
    }
  }

  lemma Fields(s: seq<byte>, t: seq<byte>, at: nat)
    requires at + 4 <= |s| && at + 4 <= |t| && s[at..at + 4] == t[at..at + 4]
    ensures ReadLe16(s, at) == ReadLe16(t, at) && ReadLe16(s, at + 2) == ReadLe16(t, at + 2)
  {
    assert s[at] == s[at..at + 4][0] && s[at + 1] == s[at..at + 4][1];
    assert s[at + 2] == s[at..at + 4][2] && s[at + 3] == s[at..at + 4][3];
  }

  lemma CrcField(s: seq<byte>, t: seq<byte>, at: nat)
    requires at + 4 <= |s| && at + 4 <= |t| && s[at..at + 4] == t[at..at + 4]
    ensures ReadLe32(s, at) == ReadLe32(t, at)
  {
    hide ReadLe16;
    Fields(s, t, at);
  }

  lemma ParseFrame(crc: Crc, s: Sector, t: Sector, off: nat)
    requires off + HEAD_SIZE <= SECTOR && ParseAt(crc, s, off).Found?
    requires var e := off + Size(ParseAt(crc, s, off).r); s[off..e] == t[off..e]
    ensures ParseAt(crc, t, off) == ParseAt(crc, s, off)
  {
    hide RecordCrc, WellFormed, Align4, ReadLe16, ReadLe32;
    var len := ReadLe16(s, off + 2);
    var n, at := RecordSize(len), HEAD_SIZE + Align4(len);
    Subrange(s, off, n, 0, 4);
    Subrange(t, off, n, 0, 4);
    Subrange(s, off, n, HEAD_SIZE, HEAD_SIZE + len);
    Subrange(t, off, n, HEAD_SIZE, HEAD_SIZE + len);
    Subrange(s, off, n, at, at + 4);
    Subrange(t, off, n, at, at + 4);
    Fields(s, t, off);
    CrcField(s, t, off + at);
  }

  /** Records depend on no byte after them. */
  lemma {:induction false} IsLogFrame(crc: Crc, s: Sector, t: Sector, off: nat, log: seq<Record>)
    requires IsLog(crc, s, off, log)
    requires off + Total(log) <= SECTOR && s[off..off + Total(log)] == t[off..off + Total(log)]
    ensures IsLog(crc, t, off, log)
    decreases |log|
  {
    hide ParseAt, Size, Total;
    if log != [] {
      TotalFront(log);
      var e, k := off + Total(log), Size(log[0]);
      var mid := off + k;
      Subrange(s, off, e - off, 0, k);
      Subrange(t, off, e - off, 0, k);
      Subrange(s, off, e - off, k, e - off);
      Subrange(t, off, e - off, k, e - off);
      ParseFrame(crc, s, t, off);
      IsLogFrame(crc, s, t, mid, log[1..]);
    }
  }

  lemma {:induction false} IsLogSnoc(crc: Crc, s: Sector, off: nat, log: seq<Record>, r: Record)
    requires IsLog(crc, s, off, log)
    requires off + Total(log) + HEAD_SIZE <= SECTOR
    requires ParseAt(crc, s, off + Total(log)) == Found(r)
    ensures IsLog(crc, s, off, log + [r])
    decreases |log|
  {
    hide ParseAt, Size, Total;
    if log == [] {
      TotalCons(r, []);
      assert (log + [r])[1..] == [];
    } else {
      TotalFront(log);
      IsLogSnoc(crc, s, off + Size(log[0]), log[1..], r);
      assert (log + [r])[1..] == log[1..] + [r];
    }
  }

  /** Reading a 16- or 32-bit field back gives the number that was stored. */
  lemma Le16At(s: seq<byte>, at: nat, v: u16)
    requires at + 2 <= |s| && s[at..at + 2] == Le16(v)
    ensures ReadLe16(s, at) == v
  {
    assert s[at] == s[at..at + 2][0] && s[at + 1] == s[at..at + 2][1];
  }

  lemma Le32At(s: seq<byte>, at: nat, v: u32)
    requires at + 4 <= |s| && s[at..at + 4] == Le32(v)
    ensures ReadLe32(s, at) == v
  {
    assert s[at..at + 2] == s[at..at + 4][..2] && s[at + 2..at + 4] == s[at..at + 4][2..];
    Le16At(s, at, v % 0x1_0000);
    Le16At(s, at + 2, v / 0x1_0000);
  }

  /** Where the fields of an encoded record lie. */
  lemma EncodeFields(crc: Crc, r: Record)
    requires WellFormed(r)
    ensures
      var b, len := Encode(crc, r), |r.value|;
      && b[0..2] == Le16(r.key) && b[2..4] == Le16(len)
      && b[HEAD_SIZE..HEAD_SIZE + len] == r.value
      && b[HEAD_SIZE + Align4(len)..] == Le32(RecordCrc(crc, r))
  {
  }

  /** An encoded record reads back as itself. */
  lemma EncodeParses(crc: Crc, s: Sector, off: nat, r: Record)
    requires WellFormed(r) && off + Size(r) <= SECTOR
    requires s[off..off + Size(r)] == Encode(crc, r)
    ensures ParseAt(crc, s, off) == Found(r)
  {
    hide Encode, RecordCrc, Le16, Le32, ReadLe16, ReadLe32, Align4;
    var len := |r.value|;
    var at := HEAD_SIZE + Align4(len);
    EncodeFields(crc, r);
    Subrange(s, off, Size(r), 0, 2);
    Le16At(s, off, r.key);
    Subrange(s, off, Size(r), 2, 4);
    Le16At(s, off + 2, len);
    Subrange(s, off, Size(r), HEAD_SIZE, HEAD_SIZE + len);
    Subrange(s, off, Size(r), at, at + 4);
    Le32At(s, off + at, RecordCrc(crc, r));
  }

  /** The record lies at `off`, whatever its padding holds. */
  ghost predicate Bears(crc: Crc, s: Sector, off: nat, r: Record) {
    && WellFormed(r) && off + Size(r) <= SECTOR
    && var b, len := Encode(crc, r), |r.value|;
       && s[off..off + HEAD_SIZE + len] == b[..HEAD_SIZE + len]
       && s[off + Size(r) - CRC_SIZE..off + Size(r)] == b[Size(r) - CRC_SIZE..]
  }

  /** A reader finds a record exactly where the bytes of that record lie, but for the padding. */
  lemma ParseIff(crc: Crc, s: Sector, off: nat, r: Record)
    requires off + HEAD_SIZE <= SECTOR
    ensures ParseAt(crc, s, off) == Found(r) <==> Bears(crc, s, off, r)
  {
    hide RecordCrc, Le16, Le32, ReadLe16, ReadLe32, Align4, ParseAt, Bears;
    if ParseAt(crc, s, off) == Found(r) {
      FoundBears(crc, s, off, r);
    }
    if Bears(crc, s, off, r) {
      BearsFound(crc, s, off, r);
    }
  }

  lemma SamePieces(x: seq<byte>, y: seq<byte>, i: nat, j: nat)
    requires |x| == |y| && i <= j <= |x| && x[0..i] == y[0..i] && x[i..j] == y[i..j] && x[j..|x|] == y[j..|y|]
    ensures x == y
  {
    assert x == x[0..i] + x[i..j] + x[j..|x|];
    assert y == y[0..i] + y[i..j] + y[j..|y|];
  }

  lemma FoundBears(crc: Crc, s: Sector, off: nat, r: Record)
    requires off + HEAD_SIZE <= SECTOR && ParseAt(crc, s, off) == Found(r)
    ensures Bears(crc, s, off, r)
  {
    hide RecordCrc, Le16, Le32, ReadLe16, ReadLe32, Align4, Encode;
    EncodeFields(crc, r);
    var b, len := Encode(crc, r), |r.value|;
    Le16Back(s, off);
    Le16Back(s, off + 2);
    Le32Back(s, off + HEAD_SIZE + Align4(len));
    FrontPieces(s, off, b, len);
  }

  /** Head and value of a record, field by field. */
  lemma FrontPieces(s: Sector, off: nat, b: seq<byte>, len: nat)
    requires off + HEAD_SIZE + len <= SECTOR && HEAD_SIZE + len <= |b|
    requires s[off..off + 2] == b[0..2] && s[off + 2..off + 4] == b[2..4]
    requires s[off + HEAD_SIZE..off + HEAD_SIZE + len] == b[HEAD_SIZE..HEAD_SIZE + len]
    ensures s[off..off + HEAD_SIZE + len] == b[..HEAD_SIZE + len]
  {
    var n := HEAD_SIZE + len;
    var x, y := s[off..off + n], b[0..0 + n];
    Subrange(s, off, n, 0, 2);
    Subrange(s, off, n, 2, 4);
    Subrange(s, off, n, 4, n);
    Subrange(b, 0, n, 0, 2);
    Subrange(b, 0, n, 2, 4);
    Subrange(b, 0, n, 4, n);
    SamePieces(x, y, 2, 4);
    assert y == b[..n];
  }

  lemma BearsFound(crc: Crc, s: Sector, off: nat, r: Record)
    requires off + HEAD_SIZE <= SECTOR && Bears(crc, s, off, r)
    ensures ParseAt(crc, s, off) == Found(r)
  {
    hide RecordCrc, Le16, Le32, ReadLe16, ReadLe32, Align4, Encode;
    EncodeFields(crc, r);
    var b, len := Encode(crc, r), |r.value|;
    var at := HEAD_SIZE + Align4(len);
    Subrange(s, off, HEAD_SIZE + len, 0, 2);
    Subrange(s, off, HEAD_SIZE + len, 2, 4);
    Subrange(s, off, HEAD_SIZE + len, HEAD_SIZE, HEAD_SIZE + len);
    Subrange(b, 0, HEAD_SIZE + len, 0, 2);
    Subrange(b, 0, HEAD_SIZE + len, 2, 4);
    Subrange(b, 0, HEAD_SIZE + len, HEAD_SIZE, HEAD_SIZE + len);
    Le16At(s, off, r.key);
    Le16At(s, off + 2, len);
    Le32At(s, off + at, RecordCrc(crc, r));
  }

  lemma Le16Back(s: seq<byte>, at: nat)
    requires at + 2 <= |s|
    ensures s[at..at + 2] == Le16(ReadLe16(s, at))
  {
  }

  lemma TwoWords(lo: u16, hi: u16)
    ensures var v := lo as int + 0x1_0000 * (hi as int); v % 0x1_0000 == lo && v / 0x1_0000 == hi
  {
  }

  lemma Le32Back(s: seq<byte>, at: nat)
    requires at + 4 <= |s|
    ensures s[at..at + 4] == Le32(ReadLe32(s, at))
  {
    hide ReadLe16, Le16;
    TwoWords(ReadLe16(s, at), ReadLe16(s, at + 2));
    Le16Back(s, at);
    Le16Back(s, at + 2);
    assert s[at..at + 4] == s[at..at + 2] + s[at + 2..at + 4];
  }

  /** The number that bytes stand for, the least significant first. */
  function Number(b: seq<byte>): nat {
    if b == [] then 0 else b[0] as int + 256 * Number(b[1..])
  }

  lemma NumberOf2(x: byte, y: byte)
    ensures Number([x, y]) == x as int + 256 * (y as int)
  {
    assert [x, y][1..] == [y] && [y][1..] == [];
    assert Number([y]) == y as int;
  }

  lemma NumberOfLe32(v: u32)
    ensures Number(Le32(v)) == v && (v < 0x1_0000 ==> Number(Le16(v)) == v)
  {
    var b := Le32(v);
    assert b[1..][1..] == [b[2], b[3]];
    NumberOf2(b[2], b[3]);
    if v < 0x1_0000 {
      NumberOf2(v % 256, v / 256);
    }
  }

  /** The bytes of a record: key, length, value, zeros up to a multiple of 4, checksum of all before the zeros. */
  lemma RecordBytes(crc: Crc, r: Record)
    requires WellFormed(r)
    ensures
      var b, len := Encode(crc, r), |r.value|;
      && 8 + len <= |b| < 12 + len && |b| % 4 == 0
      && Number(b[..2]) == r.key && Number(b[2..4]) == len && b[4..4 + len] == r.value
      && AllAre(b[4 + len..|b| - 4], 0)
      && Number(b[|b| - 4..]) == crc(b[..4 + len])
  {
    hide Le16, Le32, Number;
    EncodeFields(crc, r);
    NumberOfLe32(r.key);
    NumberOfLe32(|r.value|);
    NumberOfLe32(RecordCrc(crc, r));
    var b, len := Encode(crc, r), |r.value|;
    assert b[..4 + len] == Head(r.key, len) + r.value;
    assert b[..2] == b[0..2];
  }

  /** A sector is valid exactly when it is a header, records one after the other, and erased bytes behind them. */
  lemma ValidIs(crc: Crc, s: Sector)
    ensures StateOf(crc, s) == Valid <==>
      && s[..HEADER_SIZE] == HEADER
      && exists log :: IsLog(crc, s, HEADER_SIZE, log) && ErasedBehind(s, HEADER_SIZE + Total(log))
  {
    hide ParseAt, WalkFrom, IsLog, Total;
    var w := WalkAll(crc, s);
    WalkSound(crc, s, HEADER_SIZE);
    if StateOf(crc, s) == Valid {
      assert ErasedBehind(s, HEADER_SIZE + Total(w.log));
    }
    if log :|
      && s[..HEADER_SIZE] == HEADER
      && IsLog(crc, s, HEADER_SIZE, log) && ErasedBehind(s, HEADER_SIZE + Total(log))
    {
      var e := HEADER_SIZE + Total(log);
      TotalAligned(log);
      if e < SECTOR {
        ErasedEnds(crc, s, e);
      }
      WalkUnique(crc, s, HEADER_SIZE, log);
    }
  }

  /** The other states by the first eight bytes. */
  lemma StatesAre(crc: Crc, s: Sector)
    ensures StateOf(crc, s) == Blank <==> forall i :: 0 <= i < 8 ==> s[i] == 0xFF
    ensures StateOf(crc, s) == Foreign <==> s[..8] != HEADER && exists i :: 0 <= i < 8 && s[i] != 0xFF
    ensures HEADER == [0x46, 0x4C, 0x4B, 0x56, 1, 0, 0, 0]
  {
    hide WalkAll;
    var h := s[..8];
    if h == HEADER {
      assert s[0] == h[0] == 0x46;
    }
    if AllAre(h, ERASED) {
      assert forall i :: 0 <= i < 8 ==> s[i] == h[i];
    } else {
      var i :| 0 <= i < 8 && h[i] != ERASED;
      assert s[i] == h[i];
    }
  }

  predicate ErasedBehind(s: Sector, e: nat) {
    e <= SECTOR && AllAre(s[e..], ERASED)
  }

  lemma ErasedEnds(crc: Crc, s: Sector, e: nat)
    requires e + HEAD_SIZE <= SECTOR && ErasedBehind(s, e)
    ensures ParseAt(crc, s, e) == End
  {
    assert s[e] == s[e..][0] && s[e + 1] == s[e..][1];
  }
}
