/** The listing of every record with its status, over a table of the newest record of each key. */
module KvForeach {
  import opened Bytes
  import opened Flash
  import opened KvLog
  import opened KvCompact
  import opened FlashKv

  const MAX_RECORDS: nat := (SECTOR - HEADER_SIZE) / (HEAD_SIZE + CRC_SIZE)

  datatype Status = LiveRecord | OldRecord | DeletedRecord
  datatype Report = Report(off: nat, key: u16, value: seq<byte>, status: Status)
  datatype Latest = Latest(key: u16, off: u16)

  /** The offset of record `i`. */
  function Offset(log: seq<Record>, i: nat): nat
    requires i <= |log|
  {
    HEADER_SIZE + Total(log[..i])
  }

  /** No record after `i`, among the first `n`, has its key. */
  ghost predicate Newest(log: seq<Record>, i: nat, n: nat)
    requires i < |log| && n <= |log|
  {
    forall j :: i < j < n ==> log[j].key != log[i].key
  }

  /** What a record means to a reader of the whole log. */
  ghost function StatusOf(log: seq<Record>, i: nat): Status
    requires i < |log|
  {
    if !Newest(log, i, |log|) then OldRecord else if log[i].value == [] then DeletedRecord else LiveRecord
  }

  lemma {:induction false} OffsetStep(log: seq<Record>, i: nat)
    requires i < |log|
    ensures Offset(log, i + 1) == Offset(log, i) + Size(log[i])
  {
    assert log[..i + 1] == log[..i] + [log[i]];
    TotalSnoc(log[..i], log[i]);
  }

  lemma {:induction false} OffsetGrows(log: seq<Record>, i: nat, j: nat)
    requires i <= j <= |log|
    ensures Offset(log, i) + 8 * (j - i) <= Offset(log, j)
    decreases j - i
  {
    hide Size, Offset;
    if i < j {
      OffsetStep(log, i);
      OffsetGrows(log, i + 1, j);
    }
  }

  /** A sector has room for at most MAX_RECORDS records, and their offsets fit 16 bits. */
  lemma LogBounded(log: seq<Record>)
    requires HEADER_SIZE + Total(log) <= SECTOR
    ensures |log| <= MAX_RECORDS
    ensures forall i :: 0 <= i < |log| ==> Offset(log, i) < SECTOR
  {
    hide Total;
    assert log[..0] == [] && log[..|log|] == log;
    OffsetGrows(log, 0, |log|);
    forall i | 0 <= i < |log| ensures Offset(log, i) < SECTOR {
      OffsetGrows(log, i, |log|);
    }
  }

  /** The newest record of a key decides what the map holds for it. */
  lemma {:induction false} NewestDecides(log: seq<Record>, i: nat)
    requires i < |log| && Newest(log, i, |log|)
    ensures log[i].key in Fold(log) <==> log[i].value != []
    ensures log[i].value != [] ==> Fold(log)[log[i].key] == log[i].value
    decreases |log|
  {
    var n := |log| - 1;
    if i < n {
      NewestDecides(log[..n], i);
    }
  }

  /** Every key of the log has a newest record. */
  lemma {:induction false} SomeNewest(log: seq<Record>, k: u16, n: nat) returns (i: nat)
    requires n <= |log| && exists j :: 0 <= j < n && log[j].key == k
    ensures i < n && log[i].key == k && Newest(log, i, n)
  {
    if log[n - 1].key == k {
      i := n - 1;
    } else {
      i := SomeNewest(log, k, n - 1);
    }
  }

  /**
   * The listing agrees with a lookup: each key of the log has exactly one record that is not OLD, it is LIVE
   * exactly when the key is set, and then it carries the value the map holds.
   */
  lemma ListingAgrees(log: seq<Record>, k: u16) returns (i: nat)
    requires exists j :: 0 <= j < |log| && log[j].key == k
    ensures i < |log| && log[i].key == k && StatusOf(log, i) != OldRecord
    ensures forall j :: 0 <= j < |log| && log[j].key == k && StatusOf(log, j) != OldRecord ==> j == i
    ensures k in Fold(log) <==> StatusOf(log, i) == LiveRecord
    ensures k in Fold(log) ==> Fold(log)[k] == log[i].value
  {
    hide Fold;
    i := SomeNewest(log, k, |log|);
    NewestDecides(log, i);
  }

  /** A key that is set has a record in the log. */
  lemma SetKeysAreListed(log: seq<Record>, k: u16)
    requires k in Fold(log)
    ensures exists j :: 0 <= j < |log| && log[j].key == k
  {
    FoldKeys(log);
  }

  /** The LIVE records are exactly the map: a key is set exactly when one carries it, and each carries its value. */
  lemma LiveIsTheMap(log: seq<Record>, k: u16)
    ensures k in Fold(log) <==> exists i :: 0 <= i < |log| && log[i].key == k && StatusOf(log, i) == LiveRecord
    ensures forall i :: 0 <= i < |log| && log[i].key == k && StatusOf(log, i) == LiveRecord ==>
      k in Fold(log) && Fold(log)[k] == log[i].value
  {
    hide Fold, StatusOf;
    if k in Fold(log) {
      SetKeysAreListed(log, k);
      var i := ListingAgrees(log, k);
      assert log[i].key == k && StatusOf(log, i) == LiveRecord;
    }
    forall i | 0 <= i < |log| && log[i].key == k && StatusOf(log, i) == LiveRecord
      ensures k in Fold(log) && Fold(log)[k] == log[i].value
    {
      var j := ListingAgrees(log, k);
    }
  }

  /** Of the first `n` records those that are newest among the first `m` and have a value, in their order. */
  ghost function LiveRecords(log: seq<Record>, n: nat, m: nat): seq<Record>
    requires n <= m <= |log|
  {
    if n == 0 then [] else
    LiveRecords(log, n - 1, m) + if Newest(log, n - 1, m) && log[n - 1].value != [] then [log[n - 1]] else []
  }

  lemma DropSnoc(l: seq<Record>, r: Record, key: u16)
    ensures Drop(l + [r], key) == if r.key == key then Drop(l, key) else Drop(l, key) + [r]
  {
    assert (l + [r])[..|l|] == l;
  }

  lemma NewestThen(log: seq<Record>, i: nat, m: nat)
    requires i < m < |log|
    ensures Newest(log, i, m + 1) <==> Newest(log, i, m) && log[i].key != log[m].key
  {
  }

  lemma LiveStep(log: seq<Record>, n: nat, m: nat)
    requires 0 < n <= m <= |log|
    ensures
      LiveRecords(log, n, m) ==
        if Newest(log, n - 1, m) && log[n - 1].value != [] then LiveRecords(log, n - 1, m) + [log[n - 1]]
        else LiveRecords(log, n - 1, m)
  {
  }

  lemma NoneLive(log: seq<Record>, m: nat)
    requires m < |log|
    ensures LiveRecords(log, 0, m) == [] == LiveRecords(log, 0, m + 1) && Drop([], log[m].key) == []
  {
  }

  lemma {:induction false} LiveWithout(log: seq<Record>, n: nat, m: nat)
    requires n <= m < |log|
    ensures Drop(LiveRecords(log, n, m), log[m].key) == LiveRecords(log, n, m + 1)
  {
    hide Drop, Newest, LiveRecords;
    if n == 0 {
      NoneLive(log, m);
    } else {
      LiveWithout(log, n - 1, m);
      NewestThen(log, n - 1, m);
      LiveStep(log, n, m);
      LiveStep(log, n, m + 1);
      DropSnoc(LiveRecords(log, n - 1, m), log[n - 1], log[m].key);
    }
  }

  /** What a compaction keeps: the live records of the log, in the order of the log. */
  lemma {:induction false} CollectIsLive(log: seq<Record>, m: nat)
    requires m <= |log|
    ensures Collect(log[..m]) == LiveRecords(log, m, m)
  {
    if m > 0 {
      assert log[..m][..m - 1] == log[..m - 1];
      CollectIsLive(log, m - 1);
      LiveWithout(log, m - 1, m - 1);
      assert Newest(log, m - 1, m);
    }
  }

  /** What a compaction writes: of the log with the new record behind it, the live records in their order. */
  lemma RebuiltIsLive(crc: Crc, s: Sector, r: Record)
    requires WellFormed(r)
    ensures
      var log := Log(crc, s) + [r];
      Rebuilt(crc, s, r) == LiveRecords(log, |log|, |log|)
  {
    hide LiveRecords, Put, Log;
    var log := Log(crc, s) + [r];
    CollectIsLive(log, |log|);
    assert log[..|log|] == log && log[..|log| - 1] == Log(crc, s);
  }

  /** The table after `n` records: one entry per key, pointing at the newest of its records (`at`, by index). */
  ghost predicate TableFor(log: seq<Record>, n: nat, table: seq<Latest>, at: seq<nat>) {
    && n <= |log| && |at| == |table| <= n
    && (forall t :: 0 <= t < |table| ==>
          at[t] < n && table[t].key == log[at[t]].key && table[t].off == Offset(log, at[t]) && Newest(log, at[t], n))
    && (forall t, u :: 0 <= t < u < |table| ==> table[t].key != table[u].key)
    && HasKeys(log, n, table)
  }

  /** Every key of the first `n` records has an entry. */
  ghost predicate HasKeys(log: seq<Record>, n: nat, table: seq<Latest>)
    requires n <= |log|
  {
    forall j :: 0 <= j < n ==> exists t :: 0 <= t < |table| && table[t].key == log[j].key
  }

  /** A table that keeps its keys and has that of the next record has every key so far. */
  lemma KeysStay(log: seq<Record>, n: nat, table: seq<Latest>, table': seq<Latest>, t: nat)
    requires n < |log| && |table'| >= |table| && t < |table'| && table'[t].key == log[n].key
    requires forall u :: 0 <= u < |table| ==> table'[u].key == table[u].key
    requires HasKeys(log, n, table)
    ensures HasKeys(log, n + 1, table')
  {
    forall j | 0 <= j < n + 1
      ensures exists u :: 0 <= u < |table'| && table'[u].key == log[j].key
    {
      if j == n {
        assert table'[t].key == log[j].key;
      } else {
        var u :| 0 <= u < |table| && table[u].key == log[j].key;
        assert table'[u].key == log[j].key;
      }
    }
  }

  lemma EntryMoves(log: seq<Record>, n: nat, table: seq<Latest>, at: seq<nat>, t: nat, u: nat)
    requires TableFor(log, n, table, at) && n < |log| && t < |table| && table[t].key == log[n].key && u < |table|
    requires Offset(log, n) < 0x1_0000
    ensures
      var e, i := if u == t then Latest(log[n].key, Offset(log, n)) else table[u], if u == t then n else at[u];
      i < n + 1 && e.key == log[i].key == table[u].key && e.off == Offset(log, i) && Newest(log, i, n + 1)
  {
    hide Offset;
    assert u < t || u == t || t < u;
  }

  /** An existing entry moves on to the next record of its key. */
  lemma TableReplace(log: seq<Record>, n: nat, table: seq<Latest>, at: seq<nat>, t: nat)
    requires TableFor(log, n, table, at) && n < |log| && t < |table| && table[t].key == log[n].key
    requires Offset(log, n) < 0x1_0000
    ensures TableFor(log, n + 1, table[t := Latest(log[n].key, Offset(log, n))], at[t := n])
  {
    hide Offset, Newest, HasKeys;
    var table', at' := table[t := Latest(log[n].key, Offset(log, n))], at[t := n];
    forall u | 0 <= u < |table'|
      ensures at'[u] < n + 1 && table'[u].key == log[at'[u]].key && table'[u].off == Offset(log, at'[u])
      ensures table'[u].key == table[u].key && Newest(log, at'[u], n + 1)
    {
      EntryMoves(log, n, table, at, t, u);
    }
    KeysStay(log, n, table, table', t);
  }

  lemma EntryStays(log: seq<Record>, n: nat, table: seq<Latest>, at: seq<nat>, u: nat)
    requires TableFor(log, n, table, at) && n < |log| && u < |table| && table[u].key != log[n].key
    ensures at[u] < n + 1 && table[u].key == log[at[u]].key && table[u].off == Offset(log, at[u])
    ensures Newest(log, at[u], n + 1)
  {
    hide Offset;
  }

  lemma LastIsNewest(log: seq<Record>, n: nat)
    requires n < |log|
    ensures Newest(log, n, n + 1)
  {
  }

  /** A key seen for the first time gets a new entry. */
  lemma TableAdd(log: seq<Record>, n: nat, table: seq<Latest>, at: seq<nat>)
    requires TableFor(log, n, table, at) && n < |log|
    requires forall t :: 0 <= t < |table| ==> table[t].key != log[n].key
    requires Offset(log, n) < 0x1_0000
    ensures TableFor(log, n + 1, table + [Latest(log[n].key, Offset(log, n))], at + [n])
  {
    hide Offset, Newest, HasKeys;
    var table', at' := table + [Latest(log[n].key, Offset(log, n))], at + [n];
    LastIsNewest(log, n);
    forall u | 0 <= u < |table'|
      ensures at'[u] < n + 1 && table'[u].key == log[at'[u]].key && table'[u].off == Offset(log, at'[u])
      ensures Newest(log, at'[u], n + 1)
    {
      if u < |table| {
        EntryStays(log, n, table, at, u);
      }
    }
    assert forall u :: 0 <= u < |table| ==> table'[u] == table[u];
    KeysStay(log, n, table, table', |table|);
  }

  lemma KeyHasEntry(log: seq<Record>, n: nat, table: seq<Latest>, i: nat) returns (t: nat)
    requires i < n <= |log| && HasKeys(log, n, table)
    ensures t < |table| && table[t].key == log[i].key
  {
    var key := log[i].key;
    var u :| 0 <= u < |table| && table[u].key == key;
    t := u;
  }

  /** An entry matches a record's key and offset exactly when that record is the newest of its key. */
  lemma TableMatches(log: seq<Record>, table: seq<Latest>, at: seq<nat>, i: nat)
    requires TableFor(log, |log|, table, at) && i < |log|
    ensures (exists t :: 0 <= t < |table| && table[t].key == log[i].key && table[t].off == Offset(log, i))
            <==> Newest(log, i, |log|)
  {
    hide Offset, HasKeys;
    var t := KeyHasEntry(log, |log|, table, i);
    OffsetGrows(log, i, at[t]);
    if Newest(log, i, |log|) {
      assert at[t] == i;
      assert table[t].off == Offset(log, i);
    }
  }

  /** First pass: the table entry of the key moves to the record at hand, or a new entry is added. */
  method LatestVisit(table: array<Latest>, count: nat, key: u16, off: u16, ghost log: seq<Record>, ghost n: nat,
                     ghost at: seq<nat>) returns (count': nat, ghost at': seq<nat>)
    requires count < table.Length && n < |log| && key == log[n].key && off == Offset(log, n)
    requires |at| == count && TableFor(log, n, table[..count], at)
    modifies table
    ensures count <= count' <= count + 1 && |at'| == count' && TableFor(log, n + 1, table[..count'], at')
  {
    hide Offset, TableFor;
    ghost var before := table[..count];
    var i := 0;
    while i < count && table[i].key != key
      invariant i <= count
      invariant forall t :: 0 <= t < i ==> before[t].key != key
    {
      i := i + 1;
    }
    if i < count {
      assert before[i].key == key;
      TableReplace(log, n, before, at, i);
      count', at' := count, at[i := n];
    } else {
      TableAdd(log, n, before, at);
      count', at' := count + 1, at + [n];
    }
    table[i] := Latest(key, off);
    assert table[..count'] == if i < count then before[i := Latest(key, off)] else before + [Latest(key, off)];
  }

  /** Second pass: LIVE or DELETED for the record the table points at, OLD for the others. */
  method ReportVisit(table: array<Latest>, count: nat, r: Record, off: nat) returns (report: Report)
    requires count <= table.Length
    ensures report.off == off && report.key == r.key && report.value == r.value
    ensures report.status ==
      if exists t :: 0 <= t < count && table[..count][t].key == r.key && table[..count][t].off == off
      then (if r.value == [] then DeletedRecord else LiveRecord) else OldRecord
  {
    report := Report(off, r.key, r.value, OldRecord);
    ghost var entries := table[..count];
    for i := 0 to count
      invariant forall t :: 0 <= t < i ==> !(entries[t].key == r.key && entries[t].off == off)
    {
      assert entries[i] == table[i];
      if table[i].key == r.key && table[i].off == off {
        return report.(status := if r.value == [] then DeletedRecord else LiveRecord);
      }
    }
  }

  /** Fills the table; it never needs more than MAX_RECORDS entries. */
  method FillTable(log: seq<Record>) returns (table: array<Latest>, count: nat, ghost at: seq<nat>)
    requires HEADER_SIZE + Total(log) <= SECTOR
    ensures fresh(table) && count <= table.Length == MAX_RECORDS && TableFor(log, |log|, table[..count], at)
  {
    hide Total, Size, Offset, TableFor;
    LogBounded(log);
    table := new Latest[MAX_RECORDS](_ => Latest(0, 0));
    count, at := 0, [];
    var off := HEADER_SIZE;
    OffsetZero(log);
    EmptyTable(log);
    assert table[..count] == [];
    for n := 0 to |log|
      invariant count <= n && |at| == count && off == Offset(log, n)
      invariant TableFor(log, n, table[..count], at)
    {
      count, at := LatestVisit(table, count, log[n].key, off, log, n, at);
      OffsetStep(log, n);
      off := off + Size(log[n]);
    }
  }

  lemma EmptyTable(log: seq<Record>)
    ensures TableFor(log, 0, [], [])
  {
  }

  lemma OffsetZero(log: seq<Record>)
    ensures Offset(log, 0) == HEADER_SIZE
  {
    assert log[..0] == [];
  }

  /** What the listing says of the `i`-th record. */
  ghost function ReportOf(log: seq<Record>, i: nat): Report
    requires i < |log|
  {
    Report(Offset(log, i), log[i].key, log[i].value, StatusOf(log, i))
  }

  /** A report tells of a record that lies at its offset, and the next one begins where it ends. */
  lemma ReportStands(crc: Crc, s: Sector, i: nat)
    requires i < |Log(crc, s)|
    ensures
      var log := Log(crc, s);
      var r := ReportOf(log, i);
      && r.off + HEAD_SIZE <= SECTOR && ParseAt(crc, s, r.off) == Found(Record(r.key, r.value))
      && (i == 0 ==> r.off == HEADER_SIZE)
      && (i + 1 < |log| ==> ReportOf(log, i + 1).off == r.off + Size(Record(r.key, r.value)))
  {
    hide ParseAt, WalkFrom, Size, StatusOf, Total, IsLog;
    WalkSound(crc, s, HEADER_SIZE);
    OffsetZero(Log(crc, s));
    OffsetStep(Log(crc, s), i);
    IsLogAt(crc, s, HEADER_SIZE, Log(crc, s), i);
  }

  method ReportAll(log: seq<Record>) returns (reports: seq<Report>)
    requires HEADER_SIZE + Total(log) <= SECTOR
    ensures |reports| == |log|
    ensures forall i :: 0 <= i < |log| ==> reports[i] == ReportOf(log, i)
  {
    hide Total, Size, Offset, TableFor;
    var table, count;
    ghost var at;
    table, count, at := FillTable(log);
    ghost var entries := table[..count];
    var off := HEADER_SIZE;
    OffsetZero(log);
    reports := [];
    for i := 0 to |log|
      invariant off == Offset(log, i) && |reports| == i && table[..count] == entries
      invariant forall j :: 0 <= j < i ==> reports[j] == ReportOf(log, j)
    {
      var report := ReportVisit(table, count, log[i], off);
      TableMatches(log, entries, at, i);
      reports := reports + [report];
      OffsetStep(log, i);
      off := off + Size(log[i]);
    }
  }

  method Foreach(kv: Kv) returns (st: State, used: nat, reports: seq<Report>)
    requires kv.Valid()
    ensures st == StateOf(kv.crc, kv.Content())
    ensures st == State.Valid || st == State.Torn ==> used == WalkAll(kv.crc, kv.Content()).end
    ensures st != State.Valid && st != State.Torn ==> used == 0
    ensures
      var log := Log(kv.crc, kv.Content());
      && |reports| == |log|
      && forall i :: 0 <= i < |log| ==> reports[i] == ReportOf(log, i)
  {
    hide ParseAt, WalkFrom, Total, Size, Offset, StatusOf;
    var end;
    st, end := kv.Scan();
    used, reports := 0, [];
    if st == State.Valid || st == State.Torn {
      var w := kv.ReadLog();
      LogWell(kv.crc, kv.Content());
      reports := ReportAll(w.log);
      used := w.end;
    }
  }
}
