/** The DHCP server's answers (RFC 2131 section 4.3): the option walk and the three message types it knows. */
module DhcpServer {
  import opened Slices
  import opened Wrappers
  import opened Bytes
  import opened DhcpLeases
  import opened DhcpOptions

  const DISCOVER: nat := 1
  const REQUEST: nat := 3
  const RELEASE: nat := 7

  /** What the server takes from a request. */
  datatype Message = Message(kind: nat, requested: u32, ciaddr: u32, mac: Mac)
  datatype Reply = Silent | Offer(addr: u32) | Ack(addr: u32) | Nak

  // ---- The request ----

  function Parse(req: seq<byte>): (m: Option<Message>)
    requires |req| >= OPTIONS_OFFSET
  {
    match Walk(req, OPTIONS_OFFSET, Options(0, 0))
    case None => None
    case Some(o) => Some(Message(o.kind, o.requested, Get32(req, 12), req[28..34]))
  }

  /** What a request says, from the items of its option list; nothing when an option runs past the end. */
  lemma ParseFinds(req: seq<byte>, items: seq<Item>, tail: seq<byte>)
    requires |req| >= OPTIONS_OFFSET && AllItems(items) && req[OPTIONS_OFFSET..] == ListBytes(items) + tail
    ensures Ends(tail) ==>
      Parse(req) == Some(Message(LastKind(items, 0), LastRequested(items, 0), Get32(req, 12), req[28..34]))
    ensures RunsPast(tail) ==> Parse(req) == None
  {
    hide Walk, ListBytes, AllItems, LastKind, LastRequested, Get32;
    WalkFinds(req, OPTIONS_OFFSET, Options(0, 0), items, tail);
  }

  // ---- The answers, by the list ----

  function Addr(server: u32, slot: int): u32
    requires slot >= 0
  {
    (server + 1 + slot) % WORD
  }

  datatype Served = Served(list: seq<Entry>, reply: Reply)

  /** The address a request is about: option 50, or ciaddr when that is absent. */
  function Wanted(m: Message): u32 {
    if m.requested == 0 then m.ciaddr else m.requested
  }

  /** The slot of an address of the pool, or -1. */
  function SlotAt(server: u32, addr: u32): (s: int)
    ensures s == -1 || 0 <= s < POOL_SIZE
  {
    if addr > server && addr <= (server + POOL_SIZE) % WORD then addr - server - 1 else -1
  }

  function Serve(l: seq<Entry>, m: Message, server: u32): Served {
    var l1 := Touch(l, m.mac);
    if m.kind == DISCOVER then
      var l2 := if Find(l, m.mac).None? then Take(l1, m.mac) else l1;
      Served(l2, Offer(Addr(server, HeldBy(l2, m.mac))))
    else if m.kind == REQUEST then
      var l2 := if Find(l, m.mac).None? then Claim(l1, SlotAt(server, Wanted(m)), m.mac) else l1;
      var slot := SlotOf(l2, m.mac);
      Served(l2, if slot >= 0 && Wanted(m) == Addr(server, slot) then Ack(Wanted(m)) else Nak)
    else if m.kind == RELEASE then Served(Release(l1, SlotOf(l, m.mac)), Silent)
    else Served(l1, Silent)
  }

  function HeldBy(l: seq<Entry>, mac: Mac): nat {
    var s := SlotOf(l, mac); if s < 0 then 0 else s
  }

  // ---- The answers, by the table ----

  datatype Answered = Answered(table: Table, reply: Reply)

  function Answer(t: Table, m: Message, server: u32): Answered
    requires |t.slot| == POOL_SIZE
  {
    var f := FindIn(t, m.mac);
    if m.kind == DISCOVER then
      var g := if f.slot < 0 then TakeIn(f.table, m.mac) else f;
      Answered(g.table, Offer(Addr(server, g.slot)))
    else if m.kind == REQUEST then
      var wanted := SlotAt(server, Wanted(m));
      var g := if f.slot < 0 then ClaimIn(f.table, wanted, m.mac) else f;
      Answered(g.table, if g.slot >= 0 && Wanted(m) == Addr(server, g.slot) then Ack(Wanted(m)) else Nak)
    else if m.kind == RELEASE then Answered(ReleaseIn(f.table, f.slot), Silent)
    else Answered(f.table, Silent)
  }

  /** The table answers as the list does, for every message before the clock wraps. */
  lemma AnswerStands(t: Table, l: seq<Entry>, m: Message, server: u32)
    requires Stands(t, l) && t.clock + 1 < WORD
    ensures |t.slot| == POOL_SIZE
    ensures
      var a, s := Answer(t, m, server), Serve(l, m, server);
      a.reply == s.reply && Stands(a.table, s.list) && a.table.clock <= t.clock + 1
  {
    hide Shows, Find, FindSlot, Touch, Take, Claim, Release, FindIn, TakeIn, ClaimIn, ReleaseIn, SlotAt;
    ShowsFour(t.slot, t.clock, l);
    FindStands(t, l, m.mac);
    FindMiss(t, l, m.mac);
    AnswerClock(t, m, server);
    if Find(l, m.mac).None? {
      TakeStands(t, l, m.mac);
      ClaimStands(t, l, SlotAt(server, Wanted(m)), m.mac);
      TakenSlot(t, l, m.mac);
      ReleaseStands(t, l, -1);
    } else {
      TouchKeepsSlot(l, m.mac);
      var l1 := Touch(l, m.mac);
      ReleaseStands(FindIn(t, m.mac).table, l1, SlotOf(l, m.mac));
    }
  }

  lemma FindMiss(t: Table, l: seq<Entry>, mac: Mac)
    ensures Find(l, mac).None? ==> Touch(l, mac) == l
    ensures FindIn(t, mac).slot < 0 ==> FindIn(t, mac).table == t
  {
    hide HolderFrom;
  }

  lemma AnswerClock(t: Table, m: Message, server: u32)
    requires |t.slot| == POOL_SIZE && t.clock + 1 < WORD
    ensures Answer(t, m, server).table.clock <= t.clock + 1
  {
    hide HolderFrom, FreeFrom, Oldest;
  }

  lemma TakenSlot(t: Table, l: seq<Entry>, mac: Mac)
    requires Stands(t, l) && t.clock + 1 < WORD
    ensures var r := Take(l, mac); SlotOf(r, mac) == r[|r| - 1].slot
  {
    hide Shows, Take, Find;
    TakeStands(t, l, mac);
    var r := Take(l, mac);
    ShowsFour(TakeIn(t, mac).table.slot, TakeIn(t, mac).table.clock, r);
    FindOnly(r, |r| - 1);
  }

  /** Asking again keeps the address. */
  lemma TouchKeepsSlot(l: seq<Entry>, mac: Mac)
    requires LruOk(l)
    ensures LruOk(Touch(l, mac)) && SlotOf(Touch(l, mac), mac) == SlotOf(l, mac)
    ensures Find(l, mac).Some? ==> FindSlot(Touch(l, mac), SlotOf(l, mac)).Some? && SlotOf(l, mac) < POOL_SIZE
  {
    hide Find, FindSlot, Without;
    if Find(l, mac).Some? {
      var i := Find(l, mac).value;
      WithoutOk(l, i);
      var l' := Touch(l, mac);
      assert LruOk(l');
      FindOnly(l', |l'| - 1);
    }
  }

  // ---- Runs ----

  function RunTable(t: Table, msgs: seq<Message>, server: u32): (r: (Table, seq<Reply>))
    requires |t.slot| == POOL_SIZE
    ensures |r.0.slot| == POOL_SIZE && |r.1| == |msgs|
  {
    if msgs == [] then (t, []) else
    var (t1, replies) := RunTable(t, msgs[..|msgs| - 1], server);
    var a := Answer(t1, msgs[|msgs| - 1], server);
    (a.table, replies + [a.reply])
  }

  function RunList(msgs: seq<Message>, server: u32): (r: (seq<Entry>, seq<Reply>))
    ensures |r.1| == |msgs|
  {
    if msgs == [] then ([], []) else
    var (l1, replies) := RunList(msgs[..|msgs| - 1], server);
    var s := Serve(l1, msgs[|msgs| - 1], server);
    (s.list, replies + [s.reply])
  }

  /** Over every run of fewer messages than the clock can count, the table gives the list's answers. */
  lemma {:induction false} TableRefinesList(t: Table, msgs: seq<Message>, server: u32)
    requires Stands(t, []) && t.clock == 0 && |msgs| < WORD
    ensures |t.slot| == POOL_SIZE
    ensures
      var a, s := RunTable(t, msgs, server), RunList(msgs, server);
      a.1 == s.1 && Stands(a.0, s.0) && a.0.clock <= |msgs|
  {
    hide Shows, Answer, Serve;
    ShowsFour(t.slot, t.clock, []);
    if msgs != [] {
      var before := msgs[..|msgs| - 1];
      TableRefinesList(t, before, server);
      AnswerStands(RunTable(t, before, server).0, RunList(before, server).0, msgs[|msgs| - 1], server);
    }
  }

  type Request = r: seq<byte> | |r| >= OPTIONS_OFFSET witness Fill(OPTIONS_OFFSET, 0)

  /** The messages of the requests that are well formed. */
  function Messages(reqs: seq<Request>): (msgs: seq<Message>)
    ensures |msgs| <= |reqs|
  {
    if reqs == [] then [] else
    var front := Messages(reqs[..|reqs| - 1]);
    match Parse(reqs[|reqs| - 1]) case None => front case Some(m) => front + [m]
  }

  /** The server on raw requests, as OnMessage handles them. */
  function RunRequests(t: Table, reqs: seq<Request>, server: u32): (r: (Table, seq<Reply>))
    requires |t.slot| == POOL_SIZE
    ensures |r.0.slot| == POOL_SIZE && |r.1| == |reqs|
  {
    if reqs == [] then (t, []) else
    var (t1, replies) := RunRequests(t, reqs[..|reqs| - 1], server);
    match Parse(reqs[|reqs| - 1])
    case None => (t1, replies + [Silent])
    case Some(m) => var a := Answer(t1, m, server); (a.table, replies + [a.reply])
  }

  /** The list on raw requests: those that are malformed get no answer and change nothing. */
  function ListRequests(reqs: seq<Request>, server: u32): (r: (seq<Entry>, seq<Reply>))
    ensures |r.1| == |reqs|
  {
    if reqs == [] then ([], []) else
    var (l1, replies) := ListRequests(reqs[..|reqs| - 1], server);
    match Parse(reqs[|reqs| - 1])
    case None => (l1, replies + [Silent])
    case Some(m) => var s := Serve(l1, m, server); (s.list, replies + [s.reply])
  }

  /** The same over every run of raw requests; the list is that of the messages in them. */
  lemma {:induction false} RequestsRefineList(t: Table, reqs: seq<Request>, server: u32)
    requires Stands(t, []) && t.clock == 0 && |reqs| < WORD
    ensures |t.slot| == POOL_SIZE
    ensures
      var a, s := RunRequests(t, reqs, server), ListRequests(reqs, server);
      && a.1 == s.1 && Stands(a.0, s.0) && a.0.clock <= |reqs|
      && s.0 == RunList(Messages(reqs), server).0
  {
    hide Shows, Answer, Serve, Parse;
    ShowsFour(t.slot, t.clock, []);
    if reqs != [] {
      var before := reqs[..|reqs| - 1];
      RequestsRefineList(t, before, server);
      match Parse(reqs[|reqs| - 1])
      case None =>
      case Some(m) =>
        AnswerStands(RunRequests(t, before, server).0, ListRequests(before, server).0, m, server);
        assert (Messages(before) + [m])[..|Messages(before)|] == Messages(before);
    }
  }

  /** When a client last sent a message: its index, or -1. */
  function LastAsk(h: seq<Message>, mac: Mac): (n: int)
    ensures -1 <= n < |h|
  {
    if h == [] then -1 else if h[|h| - 1].mac == mac then |h| - 1 else LastAsk(h[..|h| - 1], mac)
  }

  /** The list holds no client and no address twice, and is ordered by the clients' last messages. */
  ghost predicate InOrder(h: seq<Message>, l: seq<Entry>) {
    && LruOk(l)
    && (forall i :: 0 <= i < |l| ==> LastAsk(h, l[i].mac) >= 0)
    && (forall i, j :: 0 <= i < j < |l| ==> LastAsk(h, l[i].mac) < LastAsk(h, l[j].mac))
  }

  lemma AskNow(h: seq<Message>, m: Message)
    ensures forall mac :: LastAsk(h + [m], mac) == if mac == m.mac then |h| else LastAsk(h, mac)
  {
    assert (h + [m])[..|h|] == h;
  }

  /** The list with the asking client taken out stays in order when it asks. */
  lemma OthersInOrder(h: seq<Message>, l: seq<Entry>, m: Message)
    requires InOrder(h, l) && Find(l, m.mac).None?
    ensures InOrder(h + [m], l)
  {
    hide Find, LastAsk;
    AskNow(h, m);
  }

  lemma JoinInOrder(h: seq<Message>, l: seq<Entry>, m: Message, slot: nat)
    requires InOrder(h, l) && Find(l, m.mac).None? && slot < POOL_SIZE && FindSlot(l, slot).None?
    ensures InOrder(h + [m], l + [Entry(m.mac, slot)])
  {
    hide Find, FindSlot, LastAsk;
    AskNow(h, m);
  }

  lemma LeaveInOrder(h: seq<Message>, l: seq<Entry>, i: nat)
    requires InOrder(h, l) && i < |l|
    ensures InOrder(h, Without(l, i))
    ensures FindSlot(Without(l, i), l[i].slot).None? && Find(Without(l, i), l[i].mac).None?
  {
    hide LastAsk, Find, FindSlot;
    WithoutOk(l, i);
    var l' := Without(l, i);
    assert forall k :: 0 <= k < |l'| ==> l'[k] == l[if k < i then k else k + 1];
  }

  lemma TouchInOrder(h: seq<Message>, l: seq<Entry>, m: Message)
    requires InOrder(h, l)
    ensures InOrder(h + [m], Touch(l, m.mac))
  {
    hide LastAsk, Find, InOrder, Without;
    match Find(l, m.mac)
    case None => OthersInOrder(h, l, m);
    case Some(i) =>
      InOrderOk(h, l);
      LeaveInOrder(h, l, i);
      JoinInOrder(h, Without(l, i), m, l[i].slot);
  }

  lemma InOrderOk(h: seq<Message>, l: seq<Entry>)
    requires InOrder(h, l)
    ensures LruOk(l)
  {
  }

  lemma TakeInOrder(h: seq<Message>, l: seq<Entry>, m: Message)
    requires InOrder(h, l) && Find(l, m.mac).None?
    ensures InOrder(h + [m], Take(l, m.mac))
  {
    hide LastAsk, Find, FindSlot, InOrder, LowestFree;
    InOrderOk(h, l);
    match LowestFree(l, 0)
    case Some(s) => JoinInOrder(h, l, m, s);
    case None =>
      assert FindSlot(l, 0).Some?;
      assert Without(l, 0) == l[1..];
      LeaveInOrder(h, l, 0);
      NoneIn(l, m.mac);
      JoinInOrder(h, l[1..], m, l[0].slot);
  }

  lemma NoneIn(l: seq<Entry>, mac: Mac)
    requires l != [] && Find(l, mac).None?
    ensures Find(l[1..], mac).None?
  {
    hide Find;
  }

  /** Every message keeps the list in order. */
  lemma ServeInOrder(h: seq<Message>, l: seq<Entry>, m: Message, server: u32)
    requires InOrder(h, l)
    ensures InOrder(h + [m], Serve(l, m, server).list)
  {
    hide LastAsk, Find, FindSlot, InOrder, LowestFree, Without, Touch, Take, SlotAt;
    TouchInOrder(h, l, m);
    FindMiss(Table([], 0), l, m.mac);
    var l1 := Touch(l, m.mac);
    if Find(l, m.mac).None? {
      TakeInOrder(h, l, m);
      var s := SlotAt(server, Wanted(m));
      if s >= 0 && FindSlot(l, s).None? {
        JoinInOrder(h, l, m, s);
      }
    } else {
      var s := SlotOf(l, m.mac);
      if FindSlot(l1, s).Some? {
        LeaveInOrder(h + [m], l1, FindSlot(l1, s).value);
      }
    }
  }

  /** Over every run, no client holds two addresses and the list is in the order of the clients' last messages. */
  lemma {:induction false} RunInOrder(msgs: seq<Message>, server: u32)
    ensures InOrder(msgs, RunList(msgs, server).0)
  {
    hide Serve, LastAsk;
    if msgs != [] {
      var before, m := msgs[..|msgs| - 1], msgs[|msgs| - 1];
      RunInOrder(before, server);
      ServeInOrder(before, RunList(before, server).0, m, server);
      assert before + [m] == msgs;
    }
  }

  /**
   * Eviction. A client that loses its address to another one's message loses it to a DISCOVER of a client without
   * one, with every address taken, and its own last message is older than that of every other holder.
   */
  lemma EvictsLeastRecent(h: seq<Message>, l: seq<Entry>, m: Message, server: u32, victim: nat)
    requires InOrder(h, l) && victim < |l| && l[victim].mac != m.mac
    requires Find(Serve(l, m, server).list, l[victim].mac).None?
    ensures m.kind == DISCOVER && Find(l, m.mac).None?
    ensures forall s :: 0 <= s < POOL_SIZE ==> FindSlot(l, s).Some?
    ensures forall j :: 0 <= j < |l| && j != victim ==> LastAsk(h, l[victim].mac) < LastAsk(h, l[j].mac)
    ensures SlotOf(Serve(l, m, server).list, m.mac) == l[victim].slot
  {
    hide LastAsk, Find, FindSlot, LowestFree, SlotAt;
    var l' := Serve(l, m, server).list;
    var v := l[victim];
    if m.kind == DISCOVER && Find(l, m.mac).None? && LowestFree(l, 0).None? {
      assert FindSlot(l, 0).Some?;
      assert forall k :: 1 <= k < |l| ==> l'[k - 1] == l[k];
      assert l'[|l'| - 1] == Entry(m.mac, l[0].slot);
      FullSlots(l);
      ServeInOrder(h, l, m, server);
      FindOnly(l', |l'| - 1);
    } else {
      StaysListed(l, m, server, victim);
    }
  }

  lemma FullSlots(l: seq<Entry>)
    requires LowestFree(l, 0).None?
    ensures forall s :: 0 <= s < POOL_SIZE ==> FindSlot(l, s).Some?
  {
  }

  /** Nobody else loses an address otherwise. */
  lemma StaysListed(l: seq<Entry>, m: Message, server: u32, i: nat)
    requires LruOk(l) && i < |l| && l[i].mac != m.mac
    requires !(m.kind == DISCOVER && Find(l, m.mac).None? && LowestFree(l, 0).None?)
    ensures exists j :: 0 <= j < |Serve(l, m, server).list| && Serve(l, m, server).list[j] == l[i]
  {
    hide Find, FindSlot, LowestFree, SlotAt, Touch, Without;
    FindMiss(Table([], 0), l, m.mac);
    if Find(l, m.mac).None? {
      assert Serve(l, m, server).list[i] == l[i];
    } else {
      var j := TouchKeeps(l, m.mac, i);
      TouchKeepsSlot(l, m.mac);
      var l1 := Touch(l, m.mac);
      if m.kind == RELEASE {
        var r := FindSlot(l1, SlotOf(l, m.mac)).value;
        HolderIsLast(l, m.mac);
        WithoutKeeps(l1, r, j);
      }
      assert Serve(l, m, server).list[j] == l[i];
    }
  }

  lemma TouchKeeps(l: seq<Entry>, mac: Mac, i: nat) returns (j: nat)
    requires i < |l| && l[i].mac != mac
    ensures j < |Touch(l, mac)| - 1 || Find(l, mac).None?
    ensures j < |Touch(l, mac)| && Touch(l, mac)[j] == l[i]
  {
    hide Find;
    j := i;
    if Find(l, mac).Some? && Find(l, mac).value < i {
      j := i - 1;
    }
  }

  /** After a client asked, its entry is the last one. */
  lemma HolderIsLast(l: seq<Entry>, mac: Mac)
    requires LruOk(l) && Find(l, mac).Some?
    ensures var l1 := Touch(l, mac); |l1| > 0 && FindSlot(l1, SlotOf(l, mac)) == Some(|l1| - 1)
  {
    hide Find, FindSlot, Without;
    TouchKeepsSlot(l, mac);
    var l1 := Touch(l, mac);
    FindOnly(l1, |l1| - 1);
  }

  lemma WithoutKeeps(l: seq<Entry>, r: nat, j: nat)
    requires r < |l| && j < r
    ensures j < |Without(l, r)| && Without(l, r)[j] == l[j]
  {
  }

  /** Addresses and slots of the pool go together exactly when the pool does not run past the address space. */
  lemma SlotAtAddr(server: u32, s: nat)
    requires s < POOL_SIZE
    ensures SlotAt(server, Addr(server, s)) == s <==> server + POOL_SIZE < WORD
  {
  }

  lemma AckBySlot(l: seq<Entry>, m: Message, server: u32)
    requires LruOk(l) && m.kind == 3
    ensures
      var s, own, free := Serve(l, m, server), SlotOf(l, m.mac), SlotAt(server, Wanted(m));
      && s.reply in {Ack(Wanted(m)), Nak}
      && (s.reply == Ack(Wanted(m)) <==>
            if own >= 0 then Wanted(m) == Addr(server, own) else free >= 0 && FindSlot(l, free).None?)
      && (s.reply == Ack(Wanted(m)) ==> SlotOf(s.list, m.mac) >= 0 && Wanted(m) == Addr(server, SlotOf(s.list, m.mac)))
      && (s.reply == Nak ==> SlotOf(s.list, m.mac) == own)
  {
    hide Find, FindSlot, Touch, Addr, SlotAt, Wanted;
    TouchKeepsSlot(l, m.mac);
    FindMiss(Table([], 0), l, m.mac);
    if Find(l, m.mac).None? {
      var free := SlotAt(server, Wanted(m));
      AddrOfSlot(server, Wanted(m));
      if free >= 0 && FindSlot(l, free).None? {
        var l' := l + [Entry(m.mac, free)];
        assert LruOk(l');
        FindOnly(l', |l|);
      }
    }
  }

  lemma AddrOfSlot(server: u32, addr: u32)
    ensures SlotAt(server, addr) >= 0 ==> Addr(server, SlotAt(server, addr)) == addr
    ensures SlotAt(server, addr) >= 0 <==> server < addr <= (server + 4) % 0x1_0000_0000
    ensures SlotAt(server, addr) >= 0 ==> SlotAt(server, addr) == addr - server - 1
  {
  }

  /**
   * A request is acknowledged exactly when it asks for the address its client holds, or, from a client without one,
   * for a free address of the pool; it asks in option 50 or, without that, in ciaddr. The client then holds the slot
   * of the acknowledged address. A refused one leaves it with the address it had, or none.
   */
  lemma AckIsHeld(l: seq<Entry>, m: Message, server: u32)
    requires LruOk(l) && m.kind == 3
    ensures
      var s, own, wanted := Serve(l, m, server), SlotOf(l, m.mac), if m.requested != 0 then m.requested else m.ciaddr;
      var inPool := server < wanted <= (server + 4) % 0x1_0000_0000;
      && s.reply in {Ack(wanted), Nak}
      && (s.reply == Ack(wanted) <==>
            if own >= 0 then wanted == (server + 1 + own) % 0x1_0000_0000
            else inPool && FindSlot(l, wanted - server - 1).None?)
      && (s.reply == Ack(wanted) ==>
            && SlotOf(s.list, m.mac) >= 0
            && wanted == (server + 1 + SlotOf(s.list, m.mac)) % 0x1_0000_0000)
      && (s.reply == Nak ==> SlotOf(s.list, m.mac) == own)
  {
    hide SlotOf, Serve, LruOk, FindSlot, SlotAt;
    AckBySlot(l, m, server);
    AddrOfSlot(server, Wanted(m));
  }

  lemma OfferBySlot(l: seq<Entry>, m: Message, server: u32)
    requires LruOk(l) && m.kind == 1
    ensures
      var s := Serve(l, m, server);
      && LruOk(s.list) && SlotOf(s.list, m.mac) >= 0 && s.reply == Offer(Addr(server, SlotOf(s.list, m.mac)))
      && (Find(l, m.mac).Some? ==> SlotOf(s.list, m.mac) == SlotOf(l, m.mac))
  {
    hide Find, FindSlot, Touch, LowestFree, Addr;
    TouchKeepsSlot(l, m.mac);
    FindMiss(Table([], 0), l, m.mac);
    if Find(l, m.mac).None? {
      TakeOk(l, m.mac);
    }
  }

  /** An offer is the address of the slot the client then holds: the one it had, if any. */
  lemma OfferIsHeld(l: seq<Entry>, m: Message, server: u32)
    requires LruOk(l) && m.kind == 1
    ensures
      var s := Serve(l, m, server);
      && LruOk(s.list) && SlotOf(s.list, m.mac) >= 0
      && s.reply == Offer((server + 1 + SlotOf(s.list, m.mac)) % 0x1_0000_0000)
      && (Find(l, m.mac).Some? ==> SlotOf(s.list, m.mac) == SlotOf(l, m.mac))
  {
    hide SlotOf, Serve, LruOk, Find;
    OfferBySlot(l, m, server);
  }

  /** A client without an address gets the lowest free one, or, if none is free, that of the front of the list. */
  lemma DiscoverTakes(l: seq<Entry>, m: Message, server: u32)
    requires LruOk(l) && m.kind == 1 && Find(l, m.mac).None?
    ensures
      var got := SlotOf(Serve(l, m, server).list, m.mac);
      if exists s :: 0 <= s < 4 && FindSlot(l, s).None?
      then 0 <= got < 4 && FindSlot(l, got).None? && forall s :: 0 <= s < got ==> FindSlot(l, s).Some?
      else l != [] && got == l[0].slot
  {
    hide Find, FindSlot, LowestFree;
    FindMiss(Table([], 0), l, m.mac);
    TakeOk(l, m.mac);
    if LowestFree(l, 0).None? {
      assert FindSlot(l, 0).Some?;
    }
    var r := Take(l, m.mac);
    FindOnly(r, |r| - 1);
  }

  /** After its release a client holds no address, and gets no answer. */
  lemma ReleaseFrees(l: seq<Entry>, m: Message, server: u32)
    requires LruOk(l) && m.kind == 7
    ensures SlotOf(Serve(l, m, server).list, m.mac) == -1 && Serve(l, m, server).reply == Silent
  {
    hide Find, FindSlot, Touch, Without;
    FindMiss(Table([], 0), l, m.mac);
    if Find(l, m.mac).Some? {
      TouchKeepsSlot(l, m.mac);
      HolderIsLast(l, m.mac);
      var l1 := Touch(l, m.mac);
      TouchLast(l, m.mac);
      LastGoes(l1);
    }
  }

  lemma TouchLast(l: seq<Entry>, mac: Mac)
    requires Find(l, mac).Some?
    ensures var l1 := Touch(l, mac); l1 != [] && l1[|l1| - 1].mac == mac
  {
    hide Find;
  }

  lemma LastGoes(l: seq<Entry>)
    requires LruOk(l) && l != []
    ensures Find(Without(l, |l| - 1), l[|l| - 1].mac).None?
  {
    hide Find;
    assert Without(l, |l| - 1) == l[..|l| - 1];
  }

  /** A message of any other type changes no address and gets no answer. */
  lemma OtherKinds(l: seq<Entry>, m: Message, server: u32)
    requires LruOk(l) && m.kind !in {1, 3, 7}
    ensures Serve(l, m, server).reply == Silent && SlotOf(Serve(l, m, server).list, m.mac) == SlotOf(l, m.mac)
  {
    hide Find, Touch;
    TouchKeepsSlot(l, m.mac);
  }

  lemma TouchSame(l: seq<Entry>, mac: Mac)
    ensures forall x :: x in Touch(l, mac) <==> x in l
  {
    hide Find;
    if Find(l, mac).Some? {
      var i := Find(l, mac).value;
      assert l == l[..i] + [l[i]] + l[i + 1..];
    }
  }

  /** Only the asking client's entry is new. */
  lemma NothingNew(l: seq<Entry>, m: Message, server: u32, x: Entry)
    requires x in Serve(l, m, server).list && x.mac != m.mac
    ensures x in l
  {
    hide Find, FindSlot, LowestFree, SlotAt, Touch;
    TouchSame(l, m.mac);
    FindMiss(Table([], 0), l, m.mac);
  }

  /** A client keeps its address, or lack of one, when another one asks, but for the one that is evicted. */
  lemma OthersKeep(h: seq<Message>, l: seq<Entry>, m: Message, server: u32, mac: Mac)
    requires InOrder(h, l) && mac != m.mac
    ensures
      var l' := Serve(l, m, server).list;
      SlotOf(l', mac) == SlotOf(l, mac) || (SlotOf(l', mac) == -1 && l[0].mac == mac && m.kind == 1)
  {
    hide Serve, Find, FindSlot, InOrder;
    InOrderOk(h, l);
    var l' := Serve(l, m, server).list;
    if Find(l', mac).Some? {
      var x := l'[Find(l', mac).value];
      NothingNew(l, m, server, x);
      var i :| 0 <= i < |l| && l[i] == x;
      FindOnly(l, i);
    } else if Find(l, mac).Some? {
      var i := Find(l, mac).value;
      EvictsLeastRecent(h, l, m, server, i);
      if i > 0 {
        FirstAskedFirst(h, l, i);
      }
    }
  }

  lemma FirstAskedFirst(h: seq<Message>, l: seq<Entry>, i: nat)
    requires InOrder(h, l) && 0 < i < |l|
    ensures LastAsk(h, l[0].mac) < LastAsk(h, l[i].mac)
  {
    hide LastAsk;
  }

  lemma TakeOk(l: seq<Entry>, mac: Mac)
    requires LruOk(l) && Find(l, mac).None?
    ensures LruOk(Take(l, mac)) && Find(Take(l, mac), mac).Some?
  {
    hide Find, FindSlot, LowestFree;
    if LowestFree(l, 0).None? {
      assert FindSlot(l, 0).Some?;
    }
    var r := Take(l, mac);
    assert LruOk(r);
    FindOnly(r, |r| - 1);
  }

  // ---- The code ----

  class Server {
    const leases: Leases
    const server: u32

    ghost predicate Valid()
      reads leases
    {
      leases.Valid()
    }

    constructor (server: u32)
      ensures Valid() && Stands(leases.View(), []) && leases.clock == 0 && this.server == server
    {
      leases := new Leases();
      this.server := server;
    }

    /** on_message(): a malformed option list changes nothing. */
    method OnMessage(req: seq<byte>) returns (reply: Reply)
      requires Valid() && |req| >= OPTIONS_OFFSET
      modifies leases`clock, leases.slot
      ensures Valid()
      ensures match Parse(req)
              case None => reply == Silent && leases.View() == old(leases.View())
              case Some(m) => Answered(leases.View(), reply) == Answer(old(leases.View()), m, server)
    {
      hide Walk, FindIn, TakeIn, ReleaseIn;
      reply := Silent;
      var o := WalkOptions(req);
      if o.None? {
        return;
      }
      var kind, requested, mac := o.value.kind, o.value.requested, req[28..34];
      var slot := leases.FindHolder(mac);
      if kind == DISCOVER {
        if slot < 0 {
          slot := leases.TakeSlot(mac);
        }
        TakenIsSlot(old(leases.View()), mac);
        reply := Offer(Addr(server, slot));
      } else if kind == REQUEST {
        if requested == 0 {
          requested := Get32(req, 12);
        }
        if slot < 0 && requested > server && requested <= (server + POOL_SIZE) % WORD {
          var wanted := requested - server - 1;
          var ok := leases.ClaimSlot(wanted, mac);
          if ok {
            slot := wanted;
          }
        }
        reply := if slot >= 0 && requested == Addr(server, slot) then Ack(requested) else Nak;
      } else if kind == RELEASE {
        leases.ReleaseSlot(slot);
      }
    }
  }

  lemma TakenIsSlot(t: Table, mac: Mac)
    requires |t.slot| == POOL_SIZE
    ensures FindIn(t, mac).slot < 0 ==> FindIn(t, mac).table == t
    ensures TakeIn(t, mac).slot >= 0
  {
  }
}
