/**
 * The DHCP address pool: a table of four slots with the time each client last asked. It stands for a list of the
 * clients that hold an address, the one that asked longest ago first.
 */
module DhcpLeases {
  import opened Slices
  import opened Wrappers
  import opened Bytes

  const POOL_SIZE: nat := 4
  const WORD: nat := 0x1_0000_0000

  type Mac = seq<byte>

  // ---- The list ----

  datatype Entry = Entry(mac: Mac, slot: nat)

  /** No client holds two addresses, no address has two clients. */
  ghost predicate LruOk(l: seq<Entry>) {
    && (forall i :: 0 <= i < |l| ==> l[i].slot < POOL_SIZE)
    && (forall i, j :: 0 <= i < j < |l| ==> l[i].mac != l[j].mac && l[i].slot != l[j].slot)
  }

  /** The position of a client in the list. */
  function Find(l: seq<Entry>, mac: Mac): (r: Option<nat>)
    ensures r.Some? ==> r.value < |l| && l[r.value].mac == mac
    ensures r.None? ==> forall i :: 0 <= i < |l| ==> l[i].mac != mac
  {
    if l == [] then None
    else if l[|l| - 1].mac == mac then Some(|l| - 1)
    else Find(l[..|l| - 1], mac)
  }

  function FindSlot(l: seq<Entry>, slot: nat): (r: Option<nat>)
    ensures r.Some? ==> r.value < |l| && l[r.value].slot == slot
    ensures r.None? ==> forall i :: 0 <= i < |l| ==> l[i].slot != slot
  {
    if l == [] then None
    else if l[|l| - 1].slot == slot then Some(|l| - 1)
    else FindSlot(l[..|l| - 1], slot)
  }

  /** A client that asks moves to the end. */
  function Touch(l: seq<Entry>, mac: Mac): seq<Entry> {
    match Find(l, mac)
    case None => l
    case Some(i) => Without(l, i) + [l[i]]
  }

  function LowestFree(l: seq<Entry>, from: nat): (r: Option<nat>)
    requires from <= POOL_SIZE
    ensures r.Some? ==> from <= r.value < POOL_SIZE && FindSlot(l, r.value).None?
    ensures forall s :: from <= s < POOL_SIZE && (r.None? || s < r.value) ==> FindSlot(l, s).Some?
    decreases POOL_SIZE - from
  {
    if from == POOL_SIZE then None
    else if FindSlot(l, from).None? then Some(from)
    else LowestFree(l, from + 1)
  }

  /** The client's own address, else the first free one, else that of the client at the front. */
  function Take(l: seq<Entry>, mac: Mac): (r: seq<Entry>)
    ensures |r| > 0 && r[|r| - 1].mac == mac
  {
    if Find(l, mac).Some? then Touch(l, mac) else
    match LowestFree(l, 0)
    case Some(s) => l + [Entry(mac, s)]
    case None => assert FindSlot(l, 0).Some?; l[1..] + [Entry(mac, l[0].slot)]
  }

  function Claim(l: seq<Entry>, slot: int, mac: Mac): seq<Entry> {
    if 0 <= slot < POOL_SIZE && FindSlot(l, slot).None? then l + [Entry(mac, slot)] else l
  }

  function Release(l: seq<Entry>, slot: int): seq<Entry> {
    if slot < 0 then l else
    match FindSlot(l, slot)
    case None => l
    case Some(i) => Without(l, i)
  }

  /** The slot a client holds, or -1. */
  function SlotOf(l: seq<Entry>, mac: Mac): (s: int)
    ensures s >= -1
  {
    match Find(l, mac) case None => -1 case Some(i) => l[i].slot
  }

  lemma FindOnly(l: seq<Entry>, i: nat)
    requires LruOk(l) && i < |l|
    ensures Find(l, l[i].mac) == Some(i) && FindSlot(l, l[i].slot) == Some(i)
  {
  }

  // ---- The table ----

  datatype Lease = Lease(used: bool, mac: Mac, seen: nat)

  /** Every entry is in the table, with a time that has passed. */
  ghost predicate InTable(t: seq<Lease>, clock: nat, e: Entry)
    requires |t| == POOL_SIZE && e.slot < POOL_SIZE
  {
    t[e.slot].used && t[e.slot].mac == e.mac && t[e.slot].seen <= clock
  }

  /** Every used slot is in the list. */
  ghost predicate Covered(t: seq<Lease>, l: seq<Entry>)
    requires |t| == POOL_SIZE
  {
    forall s :: 0 <= s < POOL_SIZE && t[s].used ==> FindSlot(l, s).Some?
  }

  /** The table stands for the list: its used slots, ordered by when their clients last asked. */
  ghost predicate Shows(t: seq<Lease>, clock: nat, l: seq<Entry>) {
    && |t| == POOL_SIZE && LruOk(l)
    && (forall i :: 0 <= i < |l| ==> InTable(t, clock, l[i]))
    && (forall i, j :: 0 <= i < j < |l| ==> t[l[i].slot].seen < t[l[j].slot].seen)
    && Covered(t, l)
  }

  lemma CoveredMore(t: seq<Lease>, l: seq<Entry>, slot: nat, lease: Lease, mac: Mac)
    requires |t| == POOL_SIZE && Covered(t, l) && slot < POOL_SIZE
    ensures Covered(t[slot := lease], l + [Entry(mac, slot)])
  {
    hide FindSlot;
    var t', l' := t[slot := lease], l + [Entry(mac, slot)];
    forall s | 0 <= s < POOL_SIZE && t'[s].used ensures FindSlot(l', s).Some? {
      if s == slot {
        assert l'[|l|].slot == s;
      } else {
        assert l'[FindSlot(l, s).value].slot == s;
      }
    }
  }

  /** A client comes in at the end with the newest time. */
  lemma PutAtEnd(t: seq<Lease>, clock: nat, l: seq<Entry>, slot: nat, mac: Mac)
    requires Shows(t, clock, l) && slot < POOL_SIZE && FindSlot(l, slot).None? && Find(l, mac).None?
    ensures Shows(t[slot := Lease(true, mac, clock + 1)], clock + 1, l + [Entry(mac, slot)])
  {
    hide FindSlot, Find, Covered;
    CoveredMore(t, l, slot, Lease(true, mac, clock + 1), mac);
  }

  lemma CoveredLess(t: seq<Lease>, l: seq<Entry>, i: nat)
    requires |t| == POOL_SIZE && LruOk(l) && Covered(t, l) && i < |l|
    ensures Covered(t[l[i].slot := t[l[i].slot].(used := false)], Without(l, i))
  {
    hide FindSlot;
    var t', l' := t[l[i].slot := t[l[i].slot].(used := false)], Without(l, i);
    forall s | 0 <= s < POOL_SIZE && t'[s].used ensures FindSlot(l', s).Some? {
      var k := FindSlot(l, s).value;
      assert l'[if k < i then k else k - 1].slot == s;
    }
  }

  lemma WithoutOk(l: seq<Entry>, i: nat)
    requires LruOk(l) && i < |l|
    ensures LruOk(Without(l, i))
    ensures FindSlot(Without(l, i), l[i].slot).None? && Find(Without(l, i), l[i].mac).None?
  {
    hide FindSlot, Find;
    var l' := Without(l, i);
    assert forall k :: 0 <= k < |l'| ==> l'[k] == l[if k < i then k else k + 1];
  }

  /** Taking an entry out of the list and freeing its slot. */
  lemma TakeOut(t: seq<Lease>, clock: nat, l: seq<Entry>, i: nat)
    requires Shows(t, clock, l) && i < |l|
    ensures Shows(t[l[i].slot := t[l[i].slot].(used := false)], clock, Without(l, i))
    ensures FindSlot(Without(l, i), l[i].slot).None? && Find(Without(l, i), l[i].mac).None?
  {
    hide FindSlot, Find, Covered;
    var l' := Without(l, i);
    assert forall k :: 0 <= k < |l'| ==> l'[k] == l[if k < i then k else k + 1];
    WithoutOk(l, i);
    CoveredLess(t, l, i);
  }

  /** What dhcp_leases_find() does to the slot of a client that asks. */
  lemma TouchShows(t: seq<Lease>, clock: nat, l: seq<Entry>, i: nat)
    requires Shows(t, clock, l) && i < |l|
    ensures Shows(t[l[i].slot := t[l[i].slot].(seen := clock + 1)], clock + 1, Touch(l, l[i].mac))
  {
    hide Covered, Without, FindSlot, Find;
    var s := l[i].slot;
    FindOnly(l, i);
    TakeOut(t, clock, l, i);
    var t1 := t[s := t[s].(used := false)];
    PutAtEnd(t1, clock, Without(l, i), s, l[i].mac);
    assert t1[s := Lease(true, l[i].mac, clock + 1)] == t[s := t[s].(seen := clock + 1)];
  }

  // ---- The operations on the table ----

  datatype Table = Table(slot: seq<Lease>, clock: nat)
  datatype Found = Found(table: Table, slot: int)

  ghost predicate Stands(t: Table, l: seq<Entry>) {
    Shows(t.slot, t.clock, l)
  }

  /** The clock is a 32-bit counter. */
  function Tick(clock: nat): (c: nat)
    ensures c < WORD
  {
    (clock + 1) % WORD
  }

  function Assign(t: Table, slot: nat, mac: Mac): Table
    requires slot < |t.slot|
  {
    Table(t.slot[slot := Lease(true, mac, Tick(t.clock))], Tick(t.clock))
  }

  /** The first slot from `i` on that `mac` holds, or -1. */
  function HolderFrom(t: seq<Lease>, mac: Mac, i: nat): (r: int)
    requires i <= |t|
    ensures r == -1 || (i <= r < |t| && t[r].used && t[r].mac == mac)
    ensures r == -1 ==> forall k :: i <= k < |t| ==> !(t[k].used && t[k].mac == mac)
    decreases |t| - i
  {
    if i == |t| then -1 else if t[i].used && t[i].mac == mac then i else HolderFrom(t, mac, i + 1)
  }

  function FindIn(t: Table, mac: Mac): Found {
    var r := HolderFrom(t.slot, mac, 0);
    if r < 0 then Found(t, r)
    else Found(Table(t.slot[r := t.slot[r].(seen := Tick(t.clock))], Tick(t.clock)), r)
  }

  function FreeFrom(t: seq<Lease>, i: nat): (r: int)
    requires i <= |t|
    ensures r == -1 || (i <= r < |t| && !t[r].used && forall k :: i <= k < r ==> t[k].used)
    ensures r == -1 ==> forall k :: i <= k < |t| ==> t[k].used
    decreases |t| - i
  {
    if i == |t| then -1 else if !t[i].used then i else FreeFrom(t, i + 1)
  }

  /** The first slot with the smallest time among the first `n`. */
  function Oldest(t: seq<Lease>, n: nat): (r: nat)
    requires 0 < n <= |t|
    ensures r < n && forall k :: 0 <= k < n ==> t[r].seen <= t[k].seen
  {
    if n == 1 then 0 else
    var r := Oldest(t, n - 1);
    if t[n - 1].seen < t[r].seen then n - 1 else r
  }

  function TakeIn(t: Table, mac: Mac): Found
    requires |t.slot| == POOL_SIZE
  {
    var f := FindIn(t, mac);
    if f.slot >= 0 then f else
    var free := FreeFrom(t.slot, 0);
    var slot := if free >= 0 then free else Oldest(t.slot, POOL_SIZE);
    Found(Assign(t, slot, mac), slot)
  }

  function ClaimIn(t: Table, slot: int, mac: Mac): Found
    requires |t.slot| == POOL_SIZE
  {
    if slot < 0 || slot >= POOL_SIZE || t.slot[slot].used then Found(t, -1) else Found(Assign(t, slot, mac), slot)
  }

  function ReleaseIn(t: Table, slot: int): Table
    requires |t.slot| == POOL_SIZE
  {
    if slot < 0 || slot >= POOL_SIZE then t else t.(slot := t.slot[slot := t.slot[slot].(used := false)])
  }

  // ---- The table does what the list does, as long as the clock does not wrap ----

  lemma HolderIs(t: Table, l: seq<Entry>, mac: Mac)
    requires Stands(t, l)
    ensures HolderFrom(t.slot, mac, 0) == SlotOf(l, mac)
  {
    hide HolderFrom, FindSlot, Find;
    var r := HolderFrom(t.slot, mac, 0);
    if r >= 0 {
      var i := FindSlot(l, r).value;
      assert InTable(t.slot, t.clock, l[i]);
      FindOnly(l, i);
    } else if Find(l, mac).Some? {
      var i := Find(l, mac).value;
      assert InTable(t.slot, t.clock, l[i]);
    }
  }

  lemma FindStands(t: Table, l: seq<Entry>, mac: Mac)
    requires Stands(t, l) && t.clock + 1 < WORD
    ensures var f := FindIn(t, mac); f.slot == SlotOf(l, mac) && Stands(f.table, Touch(l, mac))
  {
    hide HolderFrom, Shows, Without, Find;
    HolderIs(t, l, mac);
    if SlotOf(l, mac) >= 0 {
      TouchShows(t.slot, t.clock, l, Find(l, mac).value);
    }
  }

  lemma UsedIffListed(t: Table, l: seq<Entry>, s: nat)
    requires Stands(t, l) && s < POOL_SIZE
    ensures t.slot[s].used <==> FindSlot(l, s).Some?
  {
    hide FindSlot;
    if FindSlot(l, s).Some? {
      assert InTable(t.slot, t.clock, l[FindSlot(l, s).value]);
    }
  }

  lemma FreeIs(t: Table, l: seq<Entry>)
    requires Stands(t, l)
    ensures FreeFrom(t.slot, 0) == match LowestFree(l, 0) case None => -1 case Some(s) => s
  {
    hide FreeFrom, LowestFree, Shows;
    ShowsFour(t.slot, t.clock, l);
    UsedIffListed(t, l, 0); UsedIffListed(t, l, 1); UsedIffListed(t, l, 2); UsedIffListed(t, l, 3);
  }

  lemma OldestIs(t: Table, l: seq<Entry>)
    requires Stands(t, l) && LowestFree(l, 0).None?
    ensures l != [] && Oldest(t.slot, POOL_SIZE) == l[0].slot
  {
    hide Oldest, LowestFree, FindSlot;
    var r := Oldest(t.slot, POOL_SIZE);
    var i := FindSlot(l, r).value;
    assert l[i].slot == r;
    assert t.slot[r].seen <= t.slot[l[0].slot].seen;
  }

  lemma AssignStands(t: Table, l: seq<Entry>, slot: nat, mac: Mac)
    requires Stands(t, l) && t.clock + 1 < WORD && slot < POOL_SIZE && FindSlot(l, slot).None? && Find(l, mac).None?
    ensures Stands(Assign(t, slot, mac), l + [Entry(mac, slot)])
  {
    hide Shows, FindSlot, Find;
    ShowsFour(t.slot, t.clock, l);
    PutAtEnd(t.slot, t.clock, l, slot, mac);
  }

  lemma ShowsFour(t: seq<Lease>, clock: nat, l: seq<Entry>)
    requires Shows(t, clock, l)
    ensures |t| == POOL_SIZE && LruOk(l)
  {
  }

  lemma TakeStands(t: Table, l: seq<Entry>, mac: Mac)
    requires Stands(t, l) && t.clock + 1 < WORD
    ensures |t.slot| == POOL_SIZE
    ensures var f := TakeIn(t, mac); Stands(f.table, Take(l, mac)) && f.slot == Take(l, mac)[|Take(l, mac)| - 1].slot
  {
    hide Shows, FindSlot, Find, LowestFree, FreeFrom, Oldest, HolderFrom, Without;
    ShowsFour(t.slot, t.clock, l);
    FindStands(t, l, mac);
    FreeIs(t, l);
    if Find(l, mac).None? {
      if LowestFree(l, 0).Some? {
        AssignStands(t, l, LowestFree(l, 0).value, mac);
      } else {
        OldestIs(t, l);
        EvictStands(t, l, mac);
      }
    }
  }

  lemma EvictStands(t: Table, l: seq<Entry>, mac: Mac)
    requires Stands(t, l) && t.clock + 1 < WORD && l != [] && Find(l, mac).None?
    ensures |t.slot| == POOL_SIZE && l[0].slot < POOL_SIZE
    ensures Stands(Assign(t, l[0].slot, mac), l[1..] + [Entry(mac, l[0].slot)])
  {
    hide FindSlot, Find, Covered;
    var s, l' := l[0].slot, Without(l, 0);
    var t' := t.(slot := t.slot[s := t.slot[s].(used := false)]);
    TakeOut(t.slot, t.clock, l, 0);
    assert l' == l[1..];
    AssignStands(t', l', s, mac);
    assert Assign(t', s, mac).slot == Assign(t, s, mac).slot;
  }

  lemma ClaimStands(t: Table, l: seq<Entry>, slot: int, mac: Mac)
    requires Stands(t, l) && t.clock + 1 < WORD && Find(l, mac).None?
    ensures |t.slot| == POOL_SIZE
    ensures
      var f := ClaimIn(t, slot, mac);
      Stands(f.table, Claim(l, slot, mac)) && f.slot == SlotOf(Claim(l, slot, mac), mac)
  {
    hide Shows, FindSlot, Find;
    ShowsFour(t.slot, t.clock, l);
    if 0 <= slot < POOL_SIZE {
      UsedIffListed(t, l, slot);
      if FindSlot(l, slot).None? {
        AssignStands(t, l, slot, mac);
        var l' := l + [Entry(mac, slot)];
        ShowsFour(Assign(t, slot, mac).slot, Tick(t.clock), l');
        FindOnly(l', |l|);
      }
    }
  }

  lemma ReleaseStands(t: Table, l: seq<Entry>, slot: int)
    requires Stands(t, l) && (slot >= 0 ==> slot < POOL_SIZE && FindSlot(l, slot).Some?)
    ensures |t.slot| == POOL_SIZE && Stands(ReleaseIn(t, slot), Release(l, slot))
  {
    hide Shows, FindSlot, Without;
    ShowsFour(t.slot, t.clock, l);
    if slot >= 0 {
      TakeOut(t.slot, t.clock, l, FindSlot(l, slot).value);
    }
  }

  // ---- When the clock wraps ----

  lemma SeenGrows(t: Table, l: seq<Entry>, i: nat, j: nat)
    requires Stands(t, l) && i < j < |l|
    ensures |t.slot| == POOL_SIZE && l[i].slot < POOL_SIZE && l[j].slot < POOL_SIZE
    ensures t.slot[l[i].slot].seen < t.slot[l[j].slot].seen
  {
    hide Covered, InTable;
  }

  /** The newest time is 0 then, and no other time is smaller. */
  lemma NewestAtZero(t: Table, l: seq<Entry>)
    requires |t.slot| == POOL_SIZE && |l| >= 2 && l[|l| - 1].slot < POOL_SIZE && t.slot[l[|l| - 1].slot].seen == 0
    ensures !Stands(t, l)
  {
    hide Shows;
    if Stands(t, l) {
      SeenGrows(t, l, 0, |l| - 1);
    }
  }

  lemma OnlyAtZero(t: Table, e: Entry)
    requires |t.slot| == POOL_SIZE && e.slot < POOL_SIZE && t.slot[e.slot] == Lease(true, e.mac, 0)
    requires Covered(t.slot, [e])
    ensures Stands(t, [e])
  {
  }

  lemma CoveredOne(t: Table, l: seq<Entry>, slot: nat, lease: Lease, mac: Mac)
    requires Stands(t, l) && slot < POOL_SIZE && l == []
    ensures Covered(t.slot[slot := lease], [Entry(mac, slot)])
  {
    CoveredMore(t.slot, l, slot, lease, mac);
    assert l + [Entry(mac, slot)] == [Entry(mac, slot)];
  }

  lemma AssignAtWrap(t: Table, l: seq<Entry>, slot: nat, mac: Mac)
    requires Stands(t, l) && t.clock == WORD - 1 && slot < POOL_SIZE
    ensures |t.slot| == POOL_SIZE
    ensures Stands(Assign(t, slot, mac), l + [Entry(mac, slot)]) <==> l == []
  {
    hide Shows, Covered;
    ShowsFour(t.slot, t.clock, l);
    var t', l' := Assign(t, slot, mac), l + [Entry(mac, slot)];
    assert Tick(t.clock) == 0;
    if l == [] {
      CoveredOne(t, l, slot, Lease(true, mac, 0), mac);
      assert l' == [Entry(mac, slot)];
      OnlyAtZero(t', l'[0]);
    } else {
      NewestAtZero(t', l');
    }
  }

  /** At the wrap a client that holds an address keeps the table in step with the list exactly when it is alone. */
  lemma FindAtWrap(t: Table, l: seq<Entry>, mac: Mac)
    requires Stands(t, l) && t.clock == WORD - 1 && Find(l, mac).Some?
    ensures Stands(FindIn(t, mac).table, Touch(l, mac)) <==> |Touch(l, mac)| == 1
  {
    hide HolderFrom, Shows, Find, Covered;
    HolderIs(t, l, mac);
    ShowsFour(t.slot, t.clock, l);
    var i := Find(l, mac).value;
    var t', l' := FindIn(t, mac).table, Touch(l, mac);
    HeldIs(t, l, i);
    assert l'[|l'| - 1] == l[i];
    if |l'| == 1 {
      assert l' == [l[0]] == l;
      StillCovered(t, l, t'.slot[l[0].slot]);
      OnlyAtZero(t', l[0]);
    } else {
      NewestAtZero(t', l');
    }
  }

  lemma HeldIs(t: Table, l: seq<Entry>, i: nat)
    requires Stands(t, l) && i < |l|
    ensures |t.slot| == POOL_SIZE && l[i].slot < POOL_SIZE && t.slot[l[i].slot].used
      && t.slot[l[i].slot].mac == l[i].mac
  {
    hide Covered;
    assert InTable(t.slot, t.clock, l[i]);
  }

  lemma StillCovered(t: Table, l: seq<Entry>, lease: Lease)
    requires Stands(t, l) && |l| == 1
    ensures |t.slot| == POOL_SIZE && l[0].slot < POOL_SIZE && Covered(t.slot[l[0].slot := lease], l)
  {
    hide FindSlot;
    HeldIs(t, l, 0);
    forall s | 0 <= s < POOL_SIZE && t.slot[l[0].slot := lease][s].used ensures FindSlot(l, s).Some? {
      if s == l[0].slot {
        assert l[0].slot == s;
      }
    }
  }

  /** At the wrap a client that gets an address leaves the table in step with the list exactly when it is alone. */
  lemma TakeAtWrap(t: Table, l: seq<Entry>, mac: Mac)
    requires Stands(t, l) && t.clock == WORD - 1 && Find(l, mac).None?
    ensures |t.slot| == POOL_SIZE
    ensures Stands(TakeIn(t, mac).table, Take(l, mac)) <==> |Take(l, mac)| == 1
  {
    hide Shows, FindSlot, Find, LowestFree, FreeFrom, Oldest, HolderFrom, Assign;
    ShowsFour(t.slot, t.clock, l);
    HolderIs(t, l, mac);
    FreeIs(t, l);
    if LowestFree(l, 0).Some? {
      AssignAtWrap(t, l, LowestFree(l, 0).value, mac);
    } else {
      OldestIs(t, l);
      SeveralHeld(l);
      LastAtZero(t, l[0].slot, mac);
      NewestAtZero(Assign(t, l[0].slot, mac), Take(l, mac));
    }
  }

  lemma SeveralHeld(l: seq<Entry>)
    requires LowestFree(l, 0).None?
    ensures |l| >= 2
  {
    hide FindSlot;
    assert FindSlot(l, 0).Some? && FindSlot(l, 1).Some?;
    var i, j := FindSlot(l, 0).value, FindSlot(l, 1).value;
    assert l[i].slot != l[j].slot;
  }

  lemma LastAtZero(t: Table, slot: nat, mac: Mac)
    requires slot < |t.slot| && t.clock == WORD - 1
    ensures Assign(t, slot, mac).slot == t.slot[slot := Lease(true, mac, 0)] && Assign(t, slot, mac).clock == 0
  {
  }

  /** At the wrap a client that claims an address leaves the table in step with the list exactly when it is alone. */
  lemma ClaimAtWrap(t: Table, l: seq<Entry>, slot: nat, mac: Mac)
    requires Stands(t, l) && t.clock == WORD - 1 && slot < POOL_SIZE && FindSlot(l, slot).None?
    ensures |t.slot| == POOL_SIZE
    ensures Stands(ClaimIn(t, slot, mac).table, Claim(l, slot, mac)) <==> |Claim(l, slot, mac)| == 1
  {
    hide Shows, FindSlot, Assign;
    ShowsFour(t.slot, t.clock, l);
    UsedIffListed(t, l, slot);
    AssignAtWrap(t, l, slot, mac);
  }

  const WRAP_TABLE: Table :=
    Table([Lease(true, [1], 1), Lease(true, [2], 2), Lease(true, [3], 3), Lease(true, [4], WORD - 1)], WORD - 1)

  /** Once the 32-bit clock wraps, the client that asked last counts as the one that asked longest ago. */
  lemma WrapEvictsNewest()
    ensures
      var t := WRAP_TABLE;
      var l := [Entry([1], 0), Entry([2], 1), Entry([3], 2), Entry([4], 3)];
      && Stands(t, l)
      && TakeIn(FindIn(t, [4]).table, [5]).slot == 3
      && Take(Touch(l, [4]), [5]) == [Entry([2], 1), Entry([3], 2), Entry([4], 3), Entry([5], 0)]
  {
    var t := WRAP_TABLE;
    var l := [Entry([1], 0), Entry([2], 1), Entry([3], 2), Entry([4], 3)];
    hide FindSlot, LowestFree, Find, Touch, Take, Stands, FindIn, TakeIn;
    ListSide(l);
    BothStand(t, l);
    FindSide(t);
    TableSide(FindIn(t, [4]).table);
  }

  lemma BothStand(t: Table, l: seq<Entry>)
    requires t == WRAP_TABLE
    requires l == [Entry([1], 0), Entry([2], 1), Entry([3], 2), Entry([4], 3)]
    ensures Stands(t, l)
  {
    hide FindSlot;
    FullListed(l);
  }

  lemma FindSide(t: Table)
    requires t == WRAP_TABLE
    ensures FindIn(t, [4]).table.slot ==
      [Lease(true, [1], 1), Lease(true, [2], 2), Lease(true, [3], 3), Lease(true, [4], 0)]
  {
    assert HolderFrom(t.slot, [4], 2) == 3;
  }

  lemma TableSide(t: Table)
    requires t.slot == [Lease(true, [1], 1), Lease(true, [2], 2), Lease(true, [3], 3), Lease(true, [4], 0)]
    ensures TakeIn(t, [5]).slot == 3
  {
    assert HolderFrom(t.slot, [5], 2) == -1;
    assert FreeFrom(t.slot, 2) == -1;
    assert Oldest(t.slot, 2) == 0 && Oldest(t.slot, 3) == 0;
  }

  lemma ListSide(l: seq<Entry>)
    requires l == [Entry([1], 0), Entry([2], 1), Entry([3], 2), Entry([4], 3)]
    ensures Take(Touch(l, [4]), [5]) == [Entry([2], 1), Entry([3], 2), Entry([4], 3), Entry([5], 0)]
  {
    FullListed(l);
    hide LowestFree, FindSlot;
    assert Touch(l, [4]) == l;
    hide Find;
    assert Find(l, [5]).None?;
  }

  lemma FullListed(l: seq<Entry>)
    requires |l| == POOL_SIZE && l[0].slot == 0 && l[1].slot == 1 && l[2].slot == 2 && l[3].slot == 3
    ensures FindSlot(l, 0).Some? && FindSlot(l, 1).Some? && FindSlot(l, 2).Some? && FindSlot(l, 3).Some?
    ensures LowestFree(l, 0).None?
  {
    hide FindSlot;
    assert FindSlot(l, 0).Some?;
    assert LowestFree(l, 2).None?;
  }

  // ---- The code ----

  class Leases {
    const slot: array<Lease>
    var clock: nat

    ghost predicate Valid()
      reads this
    {
      slot.Length == POOL_SIZE
    }

    ghost function View(): Table
      reads this, slot
    {
      Table(slot[..], clock)
    }

    constructor ()
      ensures Valid() && Stands(View(), []) && clock == 0 && fresh(slot)
    {
      slot := new Lease[POOL_SIZE](_ => Lease(false, [], 0));
      clock := 0;
    }

    method AssignSlot(s: nat, mac: Mac)
      requires Valid() && s < POOL_SIZE
      modifies this`clock, slot
      ensures View() == Assign(old(View()), s, mac)
    {
      clock := (clock + 1) % WORD;
      slot[s] := Lease(true, mac, clock);
    }

    method FindHolder(mac: Mac) returns (r: int)
      requires Valid()
      modifies this`clock, slot
      ensures Found(View(), r) == FindIn(old(View()), mac)
    {
      ghost var t := slot[..];
      for i := 0 to POOL_SIZE
        invariant slot[..] == t && clock == old(clock) && HolderFrom(t, mac, i) == HolderFrom(t, mac, 0)
      {
        if slot[i].used && slot[i].mac == mac {
          clock := (clock + 1) % WORD;
          slot[i] := slot[i].(seen := clock);
          return i;
        }
      }
      return -1;
    }

    method TakeSlot(mac: Mac) returns (r: int)
      requires Valid()
      modifies this`clock, slot
      ensures Found(View(), r) == TakeIn(old(View()), mac)
    {
      hide HolderFrom;
      r := FindHolder(mac);
      if r >= 0 {
        return;
      }
      ghost var t := slot[..];
      var oldest := 0;
      for i := 0 to POOL_SIZE
        invariant oldest < POOL_SIZE && FreeFrom(t, i) == FreeFrom(t, 0)
        invariant oldest == if i == 0 then 0 else Oldest(t, i)
        invariant slot[..] == t && clock == old(clock)
      {
        if !slot[i].used {
          AssignSlot(i, mac);
          return i;
        }
        if slot[i].seen < slot[oldest].seen {
          oldest := i;
        }
      }
      AssignSlot(oldest, mac);
      return oldest;
    }

    method ClaimSlot(s: int, mac: Mac) returns (ok: bool)
      requires Valid()
      modifies this`clock, slot
      ensures Found(View(), if ok then s else -1) == ClaimIn(old(View()), s, mac)
      ensures ok ==> s >= 0
    {
      if s < 0 || s >= POOL_SIZE || slot[s].used {
        return false;
      }
      AssignSlot(s, mac);
      return true;
    }

    method ReleaseSlot(s: int)
      requires Valid()
      modifies slot
      ensures View() == ReleaseIn(old(View()), s)
    {
      if s < 0 || s >= POOL_SIZE {
        return;
      }
      slot[s] := slot[s].(used := false);
    }
  }
}
