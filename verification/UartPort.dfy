/** The masked sections of the UART driver over the real ring buffer; each is one step of the Uart module. */
module UartPort {
  import opened Bytes
  import opened RingBuffer
  import opened Uart

  class TxPort {
    const ring: RingBuf
    var fifo: seq<byte>
    var armed: bool
    ghost var wire: seq<byte>
    ghost var accepted: seq<Sent>
    ghost var lost: seq<byte>

    constructor (ring: RingBuf)
      requires ring.Valid() && ring.Contents() == []
      ensures this.ring == ring && Valid() && Abs() == Start(ring.data.Length).port
    {
      this.ring := ring;
      fifo, armed, wire, accepted, lost := [], false, [], [], [];
    }

    ghost predicate Valid()
      reads this, ring, ring.data
    {
      ring.Valid() && Ordered(Abs())
    }

    ghost function Abs(): Port
      requires ring.Valid()
      reads this, ring, ring.data
    {
      Port(wire, fifo, ring.Contents(), ring.data.Length, armed, accepted, lost)
    }

    method FifoWrite(b: byte)
      modifies this`fifo, this`lost
      ensures fifo == if |old(fifo)| < FIFO_DEPTH then old(fifo) + [b] else old(fifo)
      ensures lost == if |old(fifo)| < FIFO_DEPTH then old(lost) else old(lost) + [b]
    {
      if |fifo| < FIFO_DEPTH {
        fifo := fifo + [b];
      } else {
        lost := lost + [b];
      }
    }

    /** The body of the write loop: around an empty queue if there is room, else into the queue. */
    method WriteSection(ghost who: Who, b: byte, ready: bool) returns (pc: Pc)
      requires Valid()
      modifies this, ring, ring.data
      ensures Valid()
      ensures (Abs(), pc) == CodeStep(old(Abs()), who, Try(b), ready, false)
    {
      CodeKeeps(Abs(), who, Try(b), ready, false);
      var empty := ring.IsEmpty();
      if empty && ready && |fifo| < FIFO_DEPTH {
        FifoWrite(b);
        accepted := accepted + [Sent(who, b)];
        return Done;
      }
      var queued := ring.Put(b);
      if queued {
        armed := true;
        accepted := accepted + [Sent(who, b)];
        return Done;
      }
      return Decide(b);
    }

    /** Check the room again, then take the head of the queue to the FIFO. */
    method SendSection(ghost who: Who, k: Cont, ready: bool) returns (pc: Pc)
      requires Valid()
      requires TaskCode(SendTry(k)) || SyncCode(Abs(), SendTry(k))
      modifies this, ring
      ensures Valid()
      ensures (Abs(), pc) == CodeStep(old(Abs()), who, SendTry(k), ready, false)
    {
      CodeKeeps(Abs(), who, SendTry(k), ready, false);
      if !(ready && |fifo| < FIFO_DEPTH) {
        return SendWait(k);
      }
      var ok, b := ring.Get();
      if ok {
        FifoWrite(b);
      }
      return Resume(k);
    }

    /** No byte can be queued between the look at the queue and the disarm. */
    method FlushSection(ghost who: Who, after: After) returns (pc: Pc)
      requires Valid()
      modifies this`armed
      ensures ring.Valid() && (Abs(), pc) == CodeStep(old(Abs()), who, FlushCheck(after), true, false)
    {
      var empty := ring.IsEmpty();
      if empty {
        armed := false;
        return AfterFlush(after);
      }
      return SendWait(BackToFlush(after));
    }

    /** One turn of the transmit interrupt. */
    method IsrSection(room: nat) returns (irq: IrqPc)
      requires Valid() && room > 0
      modifies this, ring
      ensures ring.Valid() && (Abs(), irq) == IrqCode(old(Abs()), IsrLoop(room), true, false)
    {
      var ok, b := ring.Get();
      if ok {
        FifoWrite(b);
        return IsrLoop(room - 1);
      }
      return IsrDisarm;
    }

    /**
     * The transmit interrupt, uninterrupted: the first bytes of the queue go behind those in the FIFO, as many as there
     * are places or as are queued; it disarms exactly when the queue runs out before the room.
     */
    method Isr()
      requires Valid()
      modifies this, ring
      ensures Valid()
      ensures
        var p := old(Abs());
        var room := 128 - |p.fifo|;
        var k := if room < |p.queue| then room else |p.queue|;
        Abs() == p.(fifo := p.fifo + p.queue[..k], queue := p.queue[k..], armed := p.armed && room <= |p.queue|)
    {
      ghost var p := Abs();
      var room := FIFO_DEPTH - |fifo|;
      ghost var c := 0;
      while room > 0
        invariant Valid() && room + c == FIFO_DEPTH - |p.fifo| && c <= |p.queue|
        invariant Abs() == p.(fifo := p.fifo + p.queue[..c], queue := p.queue[c..])
        decreases room
      {
        OneTurn(p, c);
        HeadKeepsOrder(Abs());
        var irq := IsrSection(room);
        if irq == IsrDisarm {
          armed := false;
          return;
        }
        room, c := room - 1, c + 1;
      }
    }
  }

  /** A turn of the interrupt moves one byte and keeps the order. */
  lemma HeadKeepsOrder(p: Port)
    requires Ordered(p)
    ensures p.queue != [] && |p.fifo| < FIFO_DEPTH ==> Ordered(HeadToFifo(p))
  {
    if p.queue != [] && |p.fifo| < FIFO_DEPTH {
      OrderedHeadToFifo(p);
    }
  }

  lemma OneTurn(p: Port, c: nat)
    requires c <= |p.queue|
    ensures c < |p.queue| ==>
      && p.queue[c..] != [] && p.queue[c..][0] == p.queue[c] && p.queue[c..][1..] == p.queue[c + 1..]
      && p.fifo + p.queue[..c] + [p.queue[c]] == p.fifo + p.queue[..c + 1]
    ensures c == |p.queue| ==> p.queue[c..] == []
  {
    if c < |p.queue| {
      assert p.queue[..c] + [p.queue[c]] == p.queue[..c + 1];
      assert p.fifo + p.queue[..c] + [p.queue[c]] == p.fifo + (p.queue[..c] + [p.queue[c]]);
    }
  }
}
