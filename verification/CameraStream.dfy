/**
 * The camera's frame stream: the end-of-frame interrupt closes the slot the DMA filled and moves on to a free one,
 * a reader takes finished frames in order and gives slots back. The interrupt and the DMA may come between any two
 * steps of the reader.
 */
module CameraStream {
  import opened Slices
  import opened Arithmetic
  import opened Wrappers
  import opened Bytes

  const MAX_SLOTS: nat := 8
  const TRAILER_BYTES: nat := 5

  /** g_stream and the slot memory behind it. Counters are unbounded here; see WrapKeepsPlace. */
  datatype Stream = Stream(
    base: nat, slotSize: nat, slotCount: nat,
    armed: bool, current: nat, busy: seq<bool>, size: seq<nat>, queue: seq<nat>,
    head: nat, tail: nat, dropped: nat, mem: seq<seq<byte>>)

  /** Where camera_stream_get() stands. */
  datatype Reader = Idle | Checked | HasSlot(slot: nat) | HasFrame(slot: nat, size: nat)

  /** What the reader is given: an address and a length. */
  datatype Handle = Handle(data: nat, size: nat)

  /** A finished frame, as it was when it was queued. */
  datatype Frame = Frame(slot: nat, bytes: seq<byte>)

  /**
   * `log` are the frames queued so far, `got` the handles given to the reader, `held` the frames not given back yet.
   * They and `interrupts` record what happened; no code reads them.
   */
  datatype System = System(
    s: Stream, reader: Reader, log: seq<Frame>, got: seq<Handle>, held: seq<Frame>, interrupts: nat)

  predicate Shape(s: Stream) {
    && 2 <= s.slotCount <= MAX_SLOTS && s.slotSize > 0
    && |s.busy| == |s.size| == |s.queue| == |s.mem| == s.slotCount
    && s.current < s.slotCount
    && forall k :: 0 <= k < s.slotCount ==> |s.mem[k]| == s.slotSize
  }

  function SlotPtr(s: Stream, slot: nat): nat {
    s.base + slot * s.slotSize
  }

  /** A complete JPEG of `size` bytes and its trailer lie in the slot. */
  predicate Whole(slot: seq<byte>, bytes: nat, size: nat) {
    && size >= 4 && bytes == size + TRAILER_BYTES && bytes <= |slot|
    && slot[0] == 0xFF && slot[1] == 0xD8 && slot[size - 2] == 0xFF && slot[size - 1] == 0xD9
  }

  /** The slot `i` places on, going round. */
  function After(current: nat, i: nat, n: nat): (k: nat)
    requires current < n && i < n
    ensures k < n
  {
    if current + i < n then current + i else current + i - n
  }

  lemma AfterIs(current: nat, i: nat, n: nat)
    requires current < n && i < n
    ensures After(current, i, n) == (current + i) % n
  {
    DivModUnique(current + i, if current + i < n then 0 else 1, n, After(current, i, n));
  }

  /** The first free slot after the current one, going round. */
  function NextFree(busy: seq<bool>, current: nat, i: nat): (r: Option<nat>)
    requires current < |busy|
    ensures r.Some? ==> r.value < |busy| && !busy[r.value]
    decreases |busy| - i
  {
    if i >= |busy| then None
    else if !busy[After(current, i, |busy|)] then Some(After(current, i, |busy|))
    else NextFree(busy, current, i + 1)
  }

  /** The search from `i` places on gives the first slot that is free, and none exactly when all of them are busy. */
  lemma {:induction false} NextFreeIs(busy: seq<bool>, current: nat, i: nat)
    requires current < |busy| && i <= |busy|
    ensures
      var n := |busy|;
      match NextFree(busy, current, i)
      case None => forall j :: i <= j < n ==> busy[After(current, j, n)]
      case Some(k) => !busy[k] && exists j ::
        i <= j < n && k == After(current, j, n) && forall m :: i <= m < j ==> busy[After(current, m, n)]
    decreases |busy| - i
  {
    hide After;
    var n := |busy|;
    if i < n {
      if busy[After(current, i, n)] {
        NextFreeIs(busy, current, i + 1);
        if NextFree(busy, current, i + 1).Some? {
          var k := NextFree(busy, current, i + 1).value;
          var j :| i + 1 <= j < n && k == After(current, j, n) &&
            forall m :: i + 1 <= m < j ==> busy[After(current, m, n)];
          assert forall m :: i <= m < j ==> busy[After(current, m, n)];
        }
      }
    }
  }

  /** A free slot is found exactly when there is one besides the current, and it is not the current one. */
  lemma FindsFree(busy: seq<bool>, current: nat)
    requires current < |busy|
    ensures NextFree(busy, current, 1).Some? <==> exists k :: 0 <= k < |busy| && k != current && !busy[k]
    ensures NextFree(busy, current, 1).Some? ==> NextFree(busy, current, 1).value != current
  {
    hide NextFree;
    var n := |busy|;
    NextFreeIs(busy, current, 1);
    forall k | 0 <= k < n && k != current && !busy[k] ensures NextFree(busy, current, 1).Some? {
      var j := if k > current then k - current else k - current + n;
      assert After(current, j, n) == k;
    }
  }

  /** The frame is queued: it is whole, and the DMA has another slot to go to. */
  predicate Queues(s: Stream, bytes: nat, size: nat)
    requires Shape(s)
  {
    Whole(s.mem[s.current], bytes, size) && NextFree(s.busy, s.current, 1).Some?
  }

  /** The end-of-frame interrupt. */
  function EndFrame(s: Stream, bytes: nat, size: nat): Stream
    requires Shape(s)
  {
    if !s.armed then s.(armed := true)
    else if Queues(s, bytes, size) then
      var next := NextFree(s.busy, s.current, 1).value;
      s.(size := s.size[s.current := size],
         queue := s.queue[s.head % s.slotCount := s.current],
         head := s.head + 1,
         busy := s.busy[next := true],
         current := next)
    else s.(dropped := s.dropped + 1)
  }

  /** The slot camera_stream_release() frees for an address, if it is one of the stream's. */
  function SlotOf(s: Stream, data: nat): Option<nat>
    requires Shape(s)
  {
    if data < s.base then None else
    var slot := (data - s.base) / s.slotSize;
    if slot < s.slotCount then Some(slot) else None
  }

  function ReleaseAt(s: Stream, data: nat): Stream
    requires Shape(s)
  {
    var slot := SlotOf(s, data);
    if slot.Some? then s.(busy := s.busy[slot.value := false]) else s
  }

  /** camera_stream_start() on a valid configuration. */
  function Start(base: nat, slotSize: nat, slotCount: nat, mem: seq<seq<byte>>): System
    requires slotCount > 0
  {
    var zeros := seq(slotCount, _ => 0);
    System(Stream(base, slotSize, slotCount, false, 0, seq(slotCount, i => i == 0), zeros, zeros, 0, 0, 0, mem),
           Idle, [], [], [], 0)
  }

  datatype Event =
    | EndFrameIrq(bytes: nat, size: nat)
    | Dma(at: nat, b: byte)
    | ReaderStep
    | Release(i: nat)

  /** The DMA runs once the stream is armed; the reader gives back only frames it holds. */
  predicate Enabled(y: System, e: Event) {
    match e
    case EndFrameIrq(_, _) => true
    case Dma(at, _) => y.s.armed && at < y.s.slotSize
    case ReaderStep => true
    case Release(i) => y.reader == Idle && i < |y.held|
  }

  function ReaderNext(y: System): System
    requires Shape(y.s)
    requires y.reader.HasSlot? ==> y.reader.slot < y.s.slotCount
    requires y.reader.HasFrame? ==> y.s.tail < |y.log|
  {
    match y.reader
    case Idle => if y.s.tail == y.s.head then y else y.(reader := Checked)
    case Checked => y.(reader := HasSlot(y.s.queue[y.s.tail % y.s.slotCount]))
    case HasSlot(slot) => y.(reader := HasFrame(slot, y.s.size[slot]))
    case HasFrame(slot, size) =>
      y.(s := y.s.(tail := y.s.tail + 1), reader := Idle,
         got := y.got + [Handle(SlotPtr(y.s, slot), size)], held := y.held + [y.log[y.s.tail]])
  }

  function Poke(m: seq<byte>, at: nat, b: byte): seq<byte> {
    if at < |m| then m[..at] + [b] + m[at + 1..] else m
  }

  function Next(y: System, e: Event): System
    requires Shape(y.s) && Enabled(y, e)
    requires y.reader.HasSlot? ==> y.reader.slot < y.s.slotCount
    requires y.reader.HasFrame? ==> y.s.tail < |y.log|
  {
    match e
    case EndFrameIrq(bytes, size) =>
      y.(s := EndFrame(y.s, bytes, size),
         log := if y.s.armed && Queues(y.s, bytes, size)
                then y.log + [Frame(y.s.current, y.s.mem[y.s.current][..size])] else y.log,
         interrupts := y.interrupts + 1)
    case Dma(at, b) => y.(s := y.s.(mem := y.s.mem[y.s.current := Poke(y.s.mem[y.s.current], at, b)]))
    case ReaderStep => ReaderNext(y)
    case Release(i) => y.(s := ReleaseAt(y.s, SlotPtr(y.s, y.held[i].slot)), held := Without(y.held, i))
  }

  /** Some slot besides the DMA's is free. */
  ghost predicate HasRoom(s: Stream)
    requires Shape(s)
  {
    exists k :: 0 <= k < s.slotCount && k != s.current && !s.busy[k]
  }

  /** What arrived in the current slot is a JPEG of `size` bytes, start to end, with 5 bytes behind it. */
  predicate Arrived(s: Stream, bytes: nat, size: nat)
    requires Shape(s)
  {
    && size >= 4 && bytes == size + 5 && bytes <= s.slotSize
    && s.mem[s.current][0..2] == [0xFF, 0xD8] && s.mem[s.current][size - 2..size] == [0xFF, 0xD9]
  }

  /**
   * An armed stream queues its frame exactly when the frame arrived whole and some other slot is free; that slot is
   * the DMA's next one. Otherwise it counts one drop and nothing else changes.
   */
  lemma EndFrameOutcome(y: System, bytes: nat, size: nat)
    requires Steppable(y) && y.s.armed
    ensures
      var s, t := y.s, Next(y, EndFrameIrq(bytes, size));
      if Arrived(s, bytes, size) && HasRoom(s) then
        && t.log == y.log + [Frame(s.current, s.mem[s.current][..size])]
        && t.s.head == s.head + 1 && t.s.dropped == s.dropped
        && t.s.queue == s.queue[s.head % s.slotCount := s.current] && t.s.size == s.size[s.current := size]
        && t.s.current != s.current && !s.busy[t.s.current] && t.s.busy == s.busy[t.s.current := true]
      else t == y.(s := s.(dropped := s.dropped + 1), interrupts := y.interrupts + 1)
  {
    hide NextFree;
    FindsFree(y.s.busy, y.s.current);
    var slot := y.s.mem[y.s.current];
    if size >= 4 && size + 5 <= y.s.slotSize {
      assert slot[0..2] == [slot[0], slot[1]] && slot[size - 2..size] == [slot[size - 2], slot[size - 1]];
    }
  }

  // ---- The width of the counters ----

  const WORD: nat := 0x1_0000_0000

  /** The ring place of an entry, from an unbounded counter and from one that wraps with the machine word. */
  function Place(i: nat, n: nat): nat
    requires n > 0
  {
    i % n
  }

  function WrappedPlace(i: nat, n: nat): nat
    requires n > 0
  {
    i % WORD % n
  }

  /** A wrap of head and tail keeps every entry in its place exactly when the slot count divides 2^32. */
  lemma WrapKeepsPlace(n: nat)
    requires n > 0
    ensures (forall i: nat :: WrappedPlace(i, n) == Place(i, n)) <==> WORD % n == 0
  {
    if WORD % n == 0 {
      forall i: nat ensures WrappedPlace(i, n) == Place(i, n) {
        WrapKeepsRemainder(i, WORD, n);
      }
    } else {
      FirstWrap(n);
    }
  }

  /** Otherwise entry 2^32 is the first one to be written to another place. */
  lemma FirstWrap(n: nat)
    requires n > 0
    ensures WrappedPlace(WORD, n) == 0 && Place(WORD, n) == WORD % n
    ensures forall i: nat :: i < WORD ==> WrappedPlace(i, n) == Place(i, n)
  {
    DivModUnique(0, 0, n, 0);
    forall i: nat | i < WORD ensures WrappedPlace(i, n) == Place(i, n) {
      DivModUnique(i, 0, WORD, i);
    }
  }

  /** Of the slot counts the driver takes, those are 2, 4 and 8. */
  lemma GoodSlotCounts(n: nat)
    requires 2 <= n <= MAX_SLOTS
    ensures WORD % n == 0 <==> n in {2, 4, 8}
  {
  }

  // ---- Ownership ----

  function Slots(f: seq<Frame>): seq<nat> {
    seq(|f|, i requires 0 <= i < |f| => f[i].slot)
  }

  /** The frames queued and not yet taken. */
  function Unread(y: System): seq<Frame>
    requires y.s.tail <= |y.log|
  {
    y.log[y.s.tail..]
  }

  /** Every owner of a slot, counted: the DMA, the queue, the reader. */
  function Owners(y: System): multiset<nat>
    requires y.s.tail <= |y.log|
  {
    multiset{y.s.current} + multiset(Slots(Unread(y))) + multiset(Slots(y.held))
  }

  /** No slot has two owners, and the owned ones are exactly the busy ones. */
  ghost predicate OwnedOnce(busy: seq<bool>, owners: multiset<nat>) {
    forall k: nat :: owners[k] == if k < |busy| && busy[k] then 1 else 0
  }

  /** The frame's bytes are still in its slot, and the recorded size is its length. */
  ghost predicate Intact(s: Stream, f: Frame)
    requires Shape(s)
  {
    && f.slot < s.slotCount && s.size[f.slot] == |f.bytes| <= s.slotSize
    && s.mem[f.slot][..|f.bytes|] == f.bytes
    && |f.bytes| >= 4 && f.bytes[0] == 0xFF && f.bytes[1] == 0xD8
    && f.bytes[|f.bytes| - 2] == 0xFF && f.bytes[|f.bytes| - 1] == 0xD9
  }

  ghost predicate ReaderFits(y: System)
    requires Shape(y.s)
  {
    match y.reader
    case Idle => true
    case Checked => y.s.tail < |y.log|
    case HasSlot(slot) => y.s.tail < |y.log| && slot == y.log[y.s.tail].slot && slot < y.s.slotCount
    case HasFrame(slot, size) =>
      y.s.tail < |y.log| && slot == y.log[y.s.tail].slot && size == |y.log[y.s.tail].bytes|
  }

  /** Every unread entry of the ring still names its slot, and every frame not given back is untouched. */
  ghost predicate FramesKept(y: System)
    requires Shape(y.s) && |y.log| == y.s.head && y.s.tail <= y.s.head
  {
    && (forall i :: y.s.tail <= i < y.s.head ==> Intact(y.s, y.log[i]))
    && (forall i :: y.s.tail <= i < y.s.head ==> y.s.queue[i % y.s.slotCount] == y.log[i].slot)
    && (forall i :: 0 <= i < |y.held| ==> Intact(y.s, y.held[i]))
  }

  /** The handles came out once each, in capture order, with the address and size of their frames. */
  ghost predicate Delivered(y: System) {
    && |y.got| == y.s.tail <= |y.log|
    && forall i :: 0 <= i < |y.got| ==> y.got[i] == Handle(SlotPtr(y.s, y.log[i].slot), |y.log[i].bytes|)
  }

  ghost predicate Inv(y: System) {
    && Shape(y.s)
    && |y.log| == y.s.head && y.s.tail <= y.s.head
    && OwnedOnce(y.s.busy, Owners(y))
    && FramesKept(y)
    && ReaderFits(y)
    && Delivered(y)
    && y.interrupts == (if y.s.armed then 1 else 0) + y.s.head + y.s.dropped
  }

  lemma {:induction false} OwnersBounded(busy: seq<bool>, owners: multiset<nat>)
    requires OwnedOnce(busy, owners)
    ensures |owners| <= |busy|
  {
    if busy == [] {
      assert owners == multiset{};
    } else {
      var k := |busy| - 1;
      var rest := owners - multiset{k};
      OwnersBounded(busy[..k], rest);
      assert owners == rest || owners == rest + multiset{k};
    }
  }

  lemma SlotIn(f: seq<Frame>, i: nat)
    requires i < |f|
    ensures multiset(Slots(f))[f[i].slot] >= 1
  {
    assert Slots(f)[i] in multiset(Slots(f));
  }

  lemma SlotsSnoc(f: seq<Frame>, x: Frame)
    ensures Slots(f + [x]) == Slots(f) + [x.slot]
  {
  }

  lemma SlotsCons(x: Frame, f: seq<Frame>)
    ensures Slots([x] + f) == [x.slot] + Slots(f)
  {
  }

  lemma SlotsWithout(f: seq<Frame>, i: nat)
    requires i < |f|
    ensures multiset(Slots(f)) == multiset(Slots(Without(f, i))) + multiset{f[i].slot}
  {
    var a, b := f[..i], f[i + 1..];
    assert f == a + [f[i]] + b;
    assert Slots(f) == Slots(a) + [f[i].slot] + Slots(b);
    assert Slots(Without(f, i)) == Slots(a) + Slots(b);
  }

  /** The queue never holds as many entries as there are slots, so no unread entry is overwritten. */
  lemma UnreadBounded(y: System)
    requires Inv(y)
    ensures y.s.head - y.s.tail + |y.held| < y.s.slotCount
  {
    OwnersBounded(y.s.busy, Owners(y));
    assert |Owners(y)| == 1 + |Slots(Unread(y))| + |Slots(y.held)|;
  }

  lemma {:induction false} AllOwned(busy: seq<bool>, owners: multiset<nat>)
    requires OwnedOnce(busy, owners) && forall k :: 0 <= k < |busy| ==> busy[k]
    ensures |owners| == |busy|
  {
    if busy == [] {
      assert owners == multiset{};
    } else {
      var k := |busy| - 1;
      var rest := owners - multiset{k};
      AllOwned(busy[..k], rest);
      assert owners == rest + multiset{k};
    }
  }

  /** There is room for the next frame exactly while the reader is behind by less than the slots that are left. */
  lemma RoomIs(y: System)
    requires Inv(y)
    ensures HasRoom(y.s) <==> y.s.head - y.s.tail + |y.held| < y.s.slotCount - 1
  {
    hide Shape, FramesKept, ReaderFits, Delivered;
    ShapeParts(y.s);
    CurrentIsPrivate(y);
    UnreadBounded(y);
    assert |Owners(y)| == 1 + |Slots(Unread(y))| + |Slots(y.held)|;
    hide OwnedOnce, Owners;
    if HasRoom(y.s) {
      var k :| 0 <= k < y.s.slotCount && k != y.s.current && !y.s.busy[k];
      OneMoreOwned(y.s.busy, Owners(y), k);
      OwnersBounded(y.s.busy[k := true], Owners(y) + multiset{k});
    } else {
      AllOwned(y.s.busy, Owners(y));
    }
  }

  lemma ShapeParts(s: Stream)
    requires Shape(s)
    ensures |s.busy| == s.slotCount && s.current < s.slotCount
  {
  }

  /** The DMA's slot is neither queued nor held. */
  lemma CurrentIsPrivate(y: System)
    requires Inv(y)
    ensures forall i :: y.s.tail <= i < y.s.head ==> y.log[i].slot != y.s.current
    ensures forall i :: 0 <= i < |y.held| ==> y.held[i].slot != y.s.current
    ensures y.s.busy[y.s.current]
  {
    assert Owners(y)[y.s.current] <= 1;
    forall i | y.s.tail <= i < y.s.head ensures y.log[i].slot != y.s.current {
      SlotIn(Unread(y), i - y.s.tail);
      assert Unread(y)[i - y.s.tail] == y.log[i];
    }
    forall i | 0 <= i < |y.held| ensures y.held[i].slot != y.s.current {
      SlotIn(y.held, i);
    }
  }

  lemma OneMoreOwned(busy: seq<bool>, owners: multiset<nat>, next: nat)
    requires OwnedOnce(busy, owners) && next < |busy| && !busy[next]
    ensures OwnedOnce(busy[next := true], owners + multiset{next})
  {
  }

  /** Queueing a frame: its slot passes from the DMA to the queue, a free slot passes to the DMA. */
  lemma EndFrameOwners(y: System, bytes: nat, size: nat)
    requires Inv(y) && y.s.armed && Queues(y.s, bytes, size)
    ensures var t := Next(y, EndFrameIrq(bytes, size)); OwnedOnce(t.s.busy, Owners(t))
  {
    hide Whole, NextFree, FramesKept, Delivered, OwnedOnce, Slots;
    WholeFrame(y.s, bytes, size);
    var s, t := y.s, Next(y, EndFrameIrq(bytes, size));
    var f, next := Frame(s.current, s.mem[s.current][..size]), NextFree(s.busy, s.current, 1).value;
    assert Unread(t) == Unread(y) + [f];
    SlotsSnoc(Unread(y), f);
    assert Owners(t) == Owners(y) + multiset{next};
    OneMoreOwned(s.busy, Owners(y), next);
  }

  lemma EndFrameFrames(y: System, bytes: nat, size: nat)
    requires Inv(y) && y.s.armed && Queues(y.s, bytes, size)
    ensures var t := Next(y, EndFrameIrq(bytes, size)); Shape(t.s) && FramesKept(t) && ReaderFits(t)
  {
    hide Whole, NextFree, Owners, OwnedOnce, Delivered;
    CurrentIsPrivate(y);
    UnreadBounded(y);
    WholeFrame(y.s, bytes, size);
    var s, t := y.s, Next(y, EndFrameIrq(bytes, size));
    forall i | s.tail <= i < t.s.head
      ensures t.s.queue[i % s.slotCount] == t.log[i].slot && Intact(t.s, t.log[i])
    {
      if i < s.head {
        RemaindersDiffer(i, s.head, s.slotCount);
        assert t.log[i] == y.log[i];
      }
    }
  }

  lemma EndFrameDelivered(y: System, bytes: nat, size: nat)
    requires Inv(y) && y.s.armed && Queues(y.s, bytes, size)
    ensures var t := Next(y, EndFrameIrq(bytes, size)); Delivered(t) && |t.log| == t.s.head
  {
    hide Whole, NextFree, OwnedOnce, Owners, FramesKept, ReaderFits;
  }

  lemma EndFrameQueues(y: System, bytes: nat, size: nat)
    requires Inv(y) && y.s.armed && Queues(y.s, bytes, size)
    ensures Inv(Next(y, EndFrameIrq(bytes, size)))
  {
    hide OwnedOnce, FramesKept, ReaderFits, Delivered, Owners, Shape, NextFree, Whole;
    EndFrameOwners(y, bytes, size);
    EndFrameFrames(y, bytes, size);
    EndFrameDelivered(y, bytes, size);
  }

  lemma EndFrameKeeps(y: System, bytes: nat, size: nat)
    requires Inv(y)
    ensures Inv(Next(y, EndFrameIrq(bytes, size)))
  {
    hide Whole, NextFree, OwnedOnce, Owners, Slots, Intact;
    if y.s.armed && Queues(y.s, bytes, size) {
      EndFrameQueues(y, bytes, size);
    } else {
      var t := Next(y, EndFrameIrq(bytes, size));
      SameOwners(y, t);
      IntactFrame(y.s, t.s);
    }
  }

  /** Whether a frame is intact depends on the slot memory and the recorded sizes only. */
  lemma IntactFrame(s: Stream, t: Stream)
    requires Shape(s) && Shape(t)
    requires s.slotCount == t.slotCount && s.slotSize == t.slotSize && s.size == t.size && s.mem == t.mem
    ensures forall f :: Intact(s, f) ==> Intact(t, f)
  {
  }

  lemma WholeFrame(s: Stream, bytes: nat, size: nat)
    requires Shape(s) && Whole(s.mem[s.current], bytes, size)
    ensures
      var b := s.mem[s.current][..size];
      && |b| == size >= 4 && size <= s.slotSize && b[0] == 0xFF && b[1] == 0xD8 && b[size - 2] == 0xFF
      && b[size - 1] == 0xD9
  {
  }

  lemma DmaKeeps(y: System, at: nat, b: byte)
    requires Inv(y) && Enabled(y, Dma(at, b))
    ensures Inv(Next(y, Dma(at, b)))
  {
    hide OwnedOnce, Owners, Slots, Intact, Poke;
    CurrentIsPrivate(y);
    var t := Next(y, Dma(at, b));
    PokeLength(y.s.mem[y.s.current], at, b);
    SameOwners(y, t);
    IntactElsewhere(y.s, t.s);
  }

  lemma PokeLength(m: seq<byte>, at: nat, b: byte)
    ensures |Poke(m, at, b)| == |m|
  {
  }

  /** Writing into the DMA's slot leaves every frame in another slot as it was. */
  lemma IntactElsewhere(s: Stream, t: Stream)
    requires Shape(s) && Shape(t) && t == s.(mem := t.mem)
    requires forall k :: 0 <= k < s.slotCount && k != s.current ==> t.mem[k] == s.mem[k]
    ensures forall f :: Intact(s, f) && f.slot != s.current ==> Intact(t, f)
  {
  }

  lemma ReaderOwners(y: System)
    requires Inv(y) && y.reader.HasFrame?
    ensures var t := Next(y, ReaderStep); Owners(t) == Owners(y)
  {
    hide FramesKept, OwnedOnce, Slots, Delivered, Shape, SlotPtr;
    var t, f := Next(y, ReaderStep), y.log[y.s.tail];
    assert Unread(y) == [f] + Unread(t);
    SlotsCons(f, Unread(t));
    SlotsSnoc(y.held, f);
  }

  lemma ReaderKeeps(y: System)
    requires Inv(y)
    ensures Inv(Next(y, ReaderStep))
  {
    hide OwnedOnce, Owners, Slots, Intact;
    var t := Next(y, ReaderStep);
    IntactFrame(y.s, t.s);
    if y.reader.HasFrame? {
      ReaderOwners(y);
    } else {
      SameOwners(y, t);
      if y.reader.HasSlot? {
        IntactSize(y.s, y.log[y.s.tail]);
      }
      if y.reader.Checked? {
        IntactSize(y.s, y.log[y.s.tail]);
      }
    }
  }

  lemma SameOwners(y: System, t: System)
    requires y.s.tail <= |y.log| && t.s.tail == y.s.tail && t.log == y.log && t.held == y.held
      && t.s.current == y.s.current
    ensures Owners(t) == Owners(y)
  {
  }

  lemma IntactSize(s: Stream, f: Frame)
    requires Shape(s) && Intact(s, f)
    ensures f.slot < s.slotCount && s.size[f.slot] == |f.bytes|
  {
  }

  /** The address of a slot divides back to that slot. */
  lemma SlotRoundTrip(s: Stream, slot: nat)
    requires Shape(s) && slot < s.slotCount
    ensures SlotOf(s, SlotPtr(s, slot)) == Some(slot)
  {
    DivModUnique(slot * s.slotSize, slot, s.slotSize, 0);
  }

  lemma ReleaseFreesSlot(y: System, i: nat)
    requires Inv(y) && Enabled(y, Release(i))
    ensures y.held[i].slot < y.s.slotCount && Next(y, Release(i)).s == y.s.(busy := y.s.busy[y.held[i].slot := false])
  {
    hide SlotOf, SlotPtr, OwnedOnce, Owners, Delivered;
    SlotRoundTrip(y.s, y.held[i].slot);
  }

  lemma ReleaseOwners(y: System, i: nat)
    requires Inv(y) && Enabled(y, Release(i))
    ensures var t := Next(y, Release(i)); OwnedOnce(t.s.busy, Owners(t))
  {
    hide SlotOf, SlotPtr, Intact, Delivered, Slots;
    var t, f := Next(y, Release(i)), y.held[i];
    ReleaseFreesSlot(y, i);
    SlotsWithout(y.held, i);
    assert Owners(y) == Owners(t) + multiset{f.slot};
  }

  lemma ReleaseKeeps(y: System, i: nat)
    requires Inv(y) && Enabled(y, Release(i))
    ensures Inv(Next(y, Release(i)))
  {
    hide SlotOf, OwnedOnce, Owners, Intact;
    var t := Next(y, Release(i));
    ReleaseFreesSlot(y, i);
    ReleaseOwners(y, i);
    IntactFrame(y.s, t.s);
    forall j | 0 <= j < |t.held| ensures Intact(t.s, t.held[j]) {
      assert t.held[j] == y.held[if j < i then j else j + 1];
    }
  }

  /** Every step of the interrupt, the DMA and the reader keeps the ownership of every slot. */
  lemma StepKeeps(y: System, e: Event)
    requires Inv(y) && Enabled(y, e)
    ensures Inv(Next(y, e))
  {
    match e
    case EndFrameIrq(bytes, size) => EndFrameKeeps(y, bytes, size);
    case Dma(at, b) => DmaKeeps(y, at, b);
    case ReaderStep => ReaderKeeps(y);
    case Release(i) => ReleaseKeeps(y, i);
  }

  // ---- Runs ----

  ghost predicate GoodStart(y: System) {
    exists base: nat, slotSize: nat, slotCount: nat, mem: seq<seq<byte>> ::
      2 <= slotCount <= MAX_SLOTS && y == Start(base, slotSize, slotCount, mem) && Shape(y.s)
  }

  lemma StartInv(y: System)
    requires GoodStart(y)
    ensures Inv(y)
  {
    assert Unread(y) == [] && Slots([]) == [];
    assert Owners(y) == multiset{0};
  }

  /** What Next needs of the state; every reachable state has it. */
  predicate Steppable(y: System) {
    && Shape(y.s)
    && (y.reader.HasSlot? ==> y.reader.slot < y.s.slotCount)
    && (y.reader.HasFrame? ==> y.s.tail < |y.log|)
  }

  function Run(y: System, events: seq<Event>): Option<System> {
    if events == [] then Some(y) else
    var before := Run(y, events[..|events| - 1]);
    var e := events[|events| - 1];
    if before.Some? && Steppable(before.value) && Enabled(before.value, e) then Some(Next(before.value, e)) else None
  }

  /**
   * In every state of every run each slot has at most one owner, the owned slots are the busy ones, and frames
   * queued or held are unchanged. No run gets stuck: whatever is enabled can happen.
   */
  lemma {:induction false} RunKeeps(y: System, events: seq<Event>)
    requires GoodStart(y) && Run(y, events).Some?
    ensures Inv(Run(y, events).value) && Steppable(Run(y, events).value)
  {
    hide Inv, Run, GoodStart, Steppable;
    StartInv(y);
    RunInv(y, events);
  }

  lemma {:induction false} RunInv(y: System, events: seq<Event>)
    requires Inv(y) && Run(y, events).Some?
    ensures Inv(Run(y, events).value) && Steppable(Run(y, events).value)
  {
    hide Inv, Next, Steppable;
    if events != [] {
      var front := events[..|events| - 1];
      RunInv(y, front);
      StepKeeps(Run(y, front).value, events[|events| - 1]);
    }
    InvSteppable(Run(y, events).value);
  }

  lemma InvSteppable(y: System)
    requires Inv(y)
    ensures Steppable(y)
  {
  }

  // ---- The reader gets its frame ----

  function ReaderSteps(events: seq<Event>): nat {
    if events == [] then 0 else
    ReaderSteps(events[..|events| - 1]) + if events[|events| - 1] == ReaderStep then 1 else 0
  }

  /** How many steps of the call are done. */
  function Done(r: Reader): nat {
    match r
    case Idle => 0
    case Checked => 1
    case HasSlot(_) => 2
    case HasFrame(_, _) => 3
  }

  /** The log only grows, the slots stay where they are. */
  ghost predicate Onward(y: System, t: System) {
    y.log <= t.log && t.s.base == y.s.base && t.s.slotSize == y.s.slotSize
  }

  lemma OnwardStep(y: System, e: Event)
    requires Steppable(y) && Enabled(y, e)
    ensures Onward(y, Next(y, e))
    ensures e != ReaderStep ==> Next(y, e).reader == y.reader && Next(y, e).got == y.got
  {
    hide Queues, SlotOf, Poke;
  }

  lemma CallMoves(y: System)
    requires Inv(y) && (y.reader.Idle? ==> y.s.tail < |y.log|)
    ensures var t := Next(y, ReaderStep); 4 * |t.got| + Done(t.reader) == 4 * |y.got| + Done(y.reader) + 1
  {
    hide OwnedOnce, Owners, FramesKept, Delivered;
  }

  lemma InvCounts(y: System)
    requires Inv(y)
    ensures |y.got| == y.s.tail
  {
  }

  lemma {:induction false} CallProceeds(y: System, events: seq<Event>)
    requires Inv(y) && y.reader.Idle? && y.s.tail < |y.log| && Run(y, events).Some? && ReaderSteps(events) <= 4
    ensures
      var t := Run(y, events).value;
      Onward(y, t) && 4 * |t.got| + Done(t.reader) == 4 * |y.got| + ReaderSteps(events)
  {
    hide Inv, Next, Steppable, Done;
    InvCounts(y);
    if events == [] {
      IdleIsNone(y.reader);
    } else {
      var front, e := events[..|events| - 1], events[|events| - 1];
      CallProceeds(y, front);
      RunInv(y, front);
      var m := Run(y, front).value;
      OnwardStep(m, e);
      InvCounts(m);
      if e == ReaderStep {
        IdleIsNone(m.reader);
        CallMoves(m);
      }
    }
  }

  lemma IdleIsNone(r: Reader)
    ensures r.Idle? <==> Done(r) == 0
    ensures Done(r) < 4
  {
  }

  /**
   * With an unread frame in the queue, four steps of the reader, whatever the interrupt, the DMA and releases do in
   * between, give it the address and size of the oldest one, and nothing else.
   */
  lemma GetDelivers(y: System, events: seq<Event>)
    requires Inv(y) && y.reader.Idle? && y.s.tail < |y.log| && Run(y, events).Some? && ReaderSteps(events) == 4
    ensures
      var t, f := Run(y, events).value, y.log[y.s.tail];
      t.reader.Idle? && t.got == y.got + [Handle(y.s.base + f.slot * y.s.slotSize, |f.bytes|)]
  {
    hide Run, ReaderSteps, Done, Shape, OwnedOnce, Owners, FramesKept, ReaderFits, Steppable;
    var t := Run(y, events).value;
    CallProceeds(y, events);
    RunInv(y, events);
    IdleIsNone(t.reader);
    assert |t.got| == |y.got| + 1;
    forall i | 0 <= i < |y.got| ensures t.got[i] == y.got[i] {
      assert t.log[i] == y.log[i];
    }
    assert t.log[y.s.tail] == y.log[y.s.tail];
    assert t.got == y.got + [t.got[|y.got|]];
  }
}
