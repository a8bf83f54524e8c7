/**
 * The image buffer of a rebuild: a byte array that is edited in place, record by record, while the log is
 * collected. Each edit is the list operation of KvCompact on the encoded bytes.
 */
module KvImage {
  import opened Slices
  import opened Buffers
  import opened Bytes
  import opened Flash
  import opened KvLog
  import opened KvCompact

  lemma {:induction false} EncodeAllFront(crc: Crc, l: seq<Record>)
    requires AllWell(l) && l != []
    ensures EncodeAll(crc, l) == Encode(crc, l[0]) + EncodeAll(crc, l[1..])
  {
    hide Encode, WellFormed, EncodeAll;
    var n := |l| - 1;
    var front, last := l[..n], l[n];
    assert l == front + [last];
    EncodeAllSnoc(crc, front, last);
    EncodeAllNone(crc);
    if n > 0 {
      EncodeAllFront(crc, front);
      assert l[1..] == front[1..] + [last];
      EncodeAllSnoc(crc, front[1..], last);
    }
  }

  lemma EncodeAllSnoc(crc: Crc, l: seq<Record>, r: Record)
    requires AllWell(l) && WellFormed(r)
    ensures AllWell(l + [r]) && EncodeAll(crc, l + [r]) == EncodeAll(crc, l) + Encode(crc, r)
  {
    assert (l + [r])[..|l|] == l;
  }

  /** The copy to lower addresses that closes the gap of a dropped record. */
  method MoveDown(a: array<byte>, at: nat, gap: nat, count: nat)
    requires at + gap + count <= a.Length
    modifies a
    ensures a[..at] == old(a[..at])
    ensures a[at..at + count] == old(a[at + gap..at + gap + count])
  {
    for i := 0 to count
      invariant forall j :: 0 <= j < at ==> a[j] == old(a[j])
      invariant forall j :: at <= j < at + i ==> a[j] == old(a[j + gap])
      invariant forall j :: at + i <= j < a.Length ==> a[j] == old(a[j])
    {
      a[at + i] := a[at + gap + i];
    }
  }

  lemma SizeIs(r: Record)
    ensures Size(r) == RecordSize(|r.value|)
  {
  }

  /** Where the drop loop stands: `i` records are done, and the rest still follows. */
  ghost predicate DropLoop(crc: Crc, l: seq<Record>, key: u16, i: nat, off: nat, n: nat, d: seq<byte>)
    requires AllWell(l) && i <= |l|
  {
    && AllWell(Drop(l[..i], key))
    && HEADER_SIZE <= off <= n <= |d|
    && d[..off] == Image(crc, Drop(l[..i], key))
    && d[off..n] == EncodeAll(crc, l[i..])
  }

  lemma DropStart(crc: Crc, l: seq<Record>, key: u16, n: nat, d: seq<byte>)
    requires AllWell(l) && n <= |d| && d[..n] == Image(crc, l)
    ensures DropLoop(crc, l, key, 0, HEADER_SIZE, n, d)
  {
    hide EncodeAll;
    EncodeAllNone(crc);
    assert l[0..] == l && l[..0] == [];
    assert d[..HEADER_SIZE] == d[..n][..HEADER_SIZE] == HEADER + [];
    assert d[HEADER_SIZE..n] == d[..n][HEADER_SIZE..];
  }

  lemma EncodeAllNone(crc: Crc)
    ensures EncodeAll(crc, []) == []
  {
  }

  lemma NoneLeft(crc: Crc, l: seq<Record>)
    requires AllWell(l)
    ensures EncodeAll(crc, l[|l|..]) == []
  {
    EncodeAllNone(crc);
  }

  /** The record the loop looks at is the next one of the list. */
  lemma DropLoopHead(crc: Crc, l: seq<Record>, key: u16, i: nat, off: nat, n: nat, d: seq<byte>)
    requires AllWell(l) && i <= |l| && DropLoop(crc, l, key, i, off, n, d) && off < n
    ensures i < |l| && off + Size(l[i]) <= n
    ensures ReadLe16(d, off) == l[i].key && ReadLe16(d, off + 2) == |l[i].value|
    ensures d[off..off + Size(l[i])] == Encode(crc, l[i]) && d[off + Size(l[i])..n] == EncodeAll(crc, l[i + 1..])
    ensures RecordSize(|l[i].value|) == Size(l[i])
  {
    hide Encode, RecordCrc, Image, Drop, Size, EncodeAll, RecordSize;
    NoneLeft(crc, l);
    var r := l[i];
    SizeIs(r);
    EncodeAllFront(crc, l[i..]);
    assert l[i..][1..] == l[i + 1..];
    Pieces(d, off, n, Encode(crc, r), EncodeAll(crc, l[i + 1..]));
    HeadFields(crc, d, off, r);
  }

  lemma HeadFields(crc: Crc, d: seq<byte>, off: nat, r: Record)
    requires WellFormed(r) && off + Size(r) <= |d| && d[off..off + Size(r)] == Encode(crc, r)
    ensures ReadLe16(d, off) == r.key && ReadLe16(d, off + 2) == |r.value|
  {
    EncodeFields(crc, r);
    hide Encode, RecordCrc, Size;
    Subrange(d, off, Size(r), 0, 2);
    Subrange(d, off, Size(r), 2, 4);
    Le16At(d, off, r.key);
    Le16At(d, off + 2, |r.value|);
  }

  lemma DropNext(l: seq<Record>, i: nat, key: u16)
    requires i < |l|
    ensures Drop(l[..i + 1], key) == if l[i].key == key then Drop(l[..i], key) else Drop(l[..i], key) + [l[i]]
  {
    assert l[..i + 1][..i] == l[..i];
  }

  lemma ImageSnoc(crc: Crc, l: seq<Record>, r: Record)
    requires AllWell(l) && WellFormed(r)
    ensures AllWell(l + [r]) && Image(crc, l + [r]) == Image(crc, l) + Encode(crc, r)
  {
    hide Encode, EncodeAll, WellFormed;
    EncodeAllSnoc(crc, l, r);
  }

  lemma DropLoopKeep(crc: Crc, l: seq<Record>, key: u16, i: nat, off: nat, n: nat, d: seq<byte>)
    requires AllWell(l) && i < |l| && DropLoop(crc, l, key, i, off, n, d) && l[i].key != key
    requires off + Size(l[i]) <= n
    requires d[off..off + Size(l[i])] == Encode(crc, l[i]) && d[off + Size(l[i])..n] == EncodeAll(crc, l[i + 1..])
    ensures DropLoop(crc, l, key, i + 1, off + Size(l[i]), n, d)
  {
    hide Encode, Size, EncodeAll, Drop, WellFormed, Image;
    DropNext(l, i, key);
    ImageSnoc(crc, Drop(l[..i], key), l[i]);
    var e := off + Size(l[i]);
    assert d[..e] == d[..off] + d[off..e];
  }

  lemma DropLoopDrop(crc: Crc, l: seq<Record>, key: u16, i: nat, off: nat, n: nat, d: seq<byte>, d': seq<byte>)
    requires AllWell(l) && i < |l| && DropLoop(crc, l, key, i, off, n, d) && l[i].key == key
    requires off + Size(l[i]) <= n && d[off + Size(l[i])..n] == EncodeAll(crc, l[i + 1..])
    requires |d'| == |d| && d'[..off] == d[..off] && d'[off..n - Size(l[i])] == d[off + Size(l[i])..n]
    ensures DropLoop(crc, l, key, i + 1, off, n - Size(l[i]), d')
  {
    hide Size, EncodeAll, Image, Drop, WellFormed;
    DropNext(l, i, key);
  }

  lemma DropLoopEnd(crc: Crc, l: seq<Record>, key: u16, i: nat, off: nat, n: nat, d: seq<byte>)
    requires AllWell(l) && i <= |l| && DropLoop(crc, l, key, i, off, n, d) && off >= n
    ensures AllWell(Drop(l, key)) && n == HEADER_SIZE + Total(Drop(l, key)) && d[..n] == Image(crc, Drop(l, key))
  {
    hide Encode, Image, Drop;
    assert i == |l|;
    assert l[..i] == l;
  }

  /** One update of the image, in place: afterwards it encodes the list that Put gives. */
  method ImagePut(crc: Crc, data: array<byte>, n: nat, key: u16, value: seq<byte>, ghost l: seq<Record>)
    returns (ok: bool, n': nat)
    requires data.Length == SECTOR && WellFormed(Record(key, value))
    requires Live(l) && AllWell(l) && n == HEADER_SIZE + Total(l) <= SECTOR && data[..n] == Image(crc, l)
    modifies data
    ensures ok <==> HEADER_SIZE + Total(Put(l, Record(key, value))) <= SECTOR
    ensures ok ==> n' == HEADER_SIZE + Total(Put(l, Record(key, value))) && AllWell(Put(l, Record(key, value)))
    ensures ok ==> data[..n'] == Image(crc, Put(l, Record(key, value)))
  {
    hide Encode, Size, Drop, EncodeAll, Total, Live, Image, AllWell, Put, RecordSize;
    ghost var r := Record(key, value);
    ghost var kept := Drop(l, key);
    n' := ImageDrop(crc, data, n, key, l);
    DropView(l, key);
    DropLive(l, key);
    PutProperties(l, r);
    LiveAllWell(Put(l, r));
    PutImage(crc, l, r);
    SizeIs(r);
    if |value| == 0 {
      return true, n';
    }
    if n' + RecordSize(|value|) > SECTOR {
      return false, n';
    }
    var record := Encode(crc, Record(key, value));
    CopyIn(data, n', record);
    ok, n' := true, n' + |record|;
  }

  /** A put appends the encoded record, unless it is a tombstone, to the image without the key. */
  lemma PutImage(crc: Crc, l: seq<Record>, r: Record)
    requires WellFormed(r) && AllWell(Drop(l, r.key)) && AllWell(Put(l, r))
    ensures Image(crc, Put(l, r)) == Image(crc, Drop(l, r.key)) + if r.value == [] then [] else Encode(crc, r)
  {
    hide Encode, Drop, Image, WellFormed;
    var kept := Drop(l, r.key);
    if r.value == [] {
      assert Put(l, r) == kept;
    } else {
      ImageSnoc(crc, kept, r);
    }
  }

  /** The loop of ImagePut: records of `key` are closed up, the others stay in order. */
  method ImageDrop(crc: Crc, data: array<byte>, n: nat, key: u16, ghost l: seq<Record>) returns (n': nat)
    requires data.Length == SECTOR
    requires AllWell(l) && n == HEADER_SIZE + Total(l) <= SECTOR && data[..n] == Image(crc, l)
    modifies data
    ensures AllWell(Drop(l, key)) && n' == HEADER_SIZE + Total(Drop(l, key)) <= SECTOR
    ensures data[..n'] == Image(crc, Drop(l, key))
  {
    hide Encode, Size, RecordCrc, Image, EncodeAll, Total, Drop;
    var off: nat := HEADER_SIZE;
    n' := n;
    ghost var i := 0;
    DropStart(crc, l, key, n, data[..]);
    while off < n'
      invariant 0 <= i <= |l| && n' <= SECTOR
      invariant DropLoop(crc, l, key, i, off, n', data[..])
      decreases |l| - i
    {
      DropLoopHead(crc, l, key, i, off, n', data[..]);
      var size := RecordSize(ReadLe16(data[..], off + 2));
      ghost var before := data[..];
      if ReadLe16(data[..], off) == key {
        MoveDown(data, off, size, n' - off - size);
        DropLoopDrop(crc, l, key, i, off, n', before, data[..]);
        n' := n' - size;
      } else {
        DropLoopKeep(crc, l, key, i, off, n', before);
        off := off + size;
      }
      i := i + 1;
    }
    DropLoopEnd(crc, l, key, i, off, n', data[..]);
  }
}
