/** The stream's interrupt handler and reader calls over the real arrays; each does the step of CameraStream. */
module CameraDevice {
  import opened Wrappers
  import opened Bytes
  import opened CameraStream

  class Device {
    const base: nat
    const slotSize: nat
    const slotCount: nat
    const busy: array<bool>
    const size: array<nat>
    const queue: array<nat>
    var armed: bool
    var current: nat
    var head: nat
    var tail: nat
    var dropped: nat
    var mem: seq<seq<byte>>

    ghost predicate Valid()
      reads this, busy, size, queue
    {
      && size != queue && Shape(Abs()) && tail <= head
      && forall k :: 0 <= k < queue.Length ==> queue[k] < slotCount
    }

    ghost function Abs(): Stream
      reads this, busy, size, queue
    {
      Stream(base, slotSize, slotCount, armed, current, busy[..], size[..], queue[..], head, tail, dropped, mem)
    }

    /** camera_stream_start(): the arguments the driver accepts are those with the stream's shape. */
    constructor (base: nat, slotSize: nat, slotCount: nat, mem: seq<seq<byte>>)
      requires 2 <= slotCount <= MAX_SLOTS && slotSize > 0 && |mem| == slotCount
      requires forall k :: 0 <= k < slotCount ==> |mem[k]| == slotSize
      ensures Valid() && Abs() == Start(base, slotSize, slotCount, mem).s
      ensures fresh(busy) && fresh(size) && fresh(queue)
    {
      this.base, this.slotSize, this.slotCount, this.mem := base, slotSize, slotCount, mem;
      busy := new bool[slotCount](i => i == 0);
      size := new nat[slotCount](_ => 0);
      queue := new nat[slotCount](_ => 0);
      armed, current, head, tail, dropped := false, 0, 0, 0, 0;
    }

    /** The search for a free slot, starting behind the current one and going round. */
    method FindFree() returns (next: Option<nat>)
      requires Valid()
      ensures next == NextFree(busy[..], current, 1)
    {
      var i := 1;
      while i < slotCount
        invariant 1 <= i <= slotCount
        invariant NextFree(busy[..], current, 1) == NextFree(busy[..], current, i)
      {
        AfterIs(current, i, slotCount);
        var candidate := (current + i) % slotCount;
        if !busy[candidate] {
          return Some(candidate);
        }
        i := i + 1;
      }
      return None;
    }

    method OnEndFrame(bytes: nat, frameSize: nat)
      requires Valid()
      modifies this, busy, size, queue
      ensures Valid() && Abs() == EndFrame(old(Abs()), bytes, frameSize)
    {
      if !armed {
        armed := true;
        return;
      }
      var whole := Whole(mem[current], bytes, frameSize);
      var next := FindFree();
      if whole && next.Some? {
        size[current] := frameSize;
        queue[head % slotCount] := current;
        head := head + 1;
        busy[next.value] := true;
        current := next.value;
      } else {
        dropped := dropped + 1;
      }
    }

    /** An uninterrupted camera_stream_get(): nothing, or the oldest unread entry. */
    method Get() returns (frame: Option<Handle>)
      requires Valid()
      modifies this`tail
      ensures Valid()
      ensures frame.None? <==> old(tail) == old(head)
      ensures Abs() == if frame.None? then old(Abs()) else old(Abs()).(tail := old(tail) + 1)
      ensures frame.Some? ==>
        var slot := old(queue[tail % slotCount]);
        frame.value == Handle(SlotPtr(old(Abs()), slot), old(size[..])[slot])
    {
      if tail == head {
        return None;
      }
      var slot := queue[tail % slotCount];
      frame := Some(Handle(base + slot * slotSize, size[slot]));
      tail := tail + 1;
    }

    method Release(data: nat)
      requires Valid()
      modifies busy
      ensures Valid() && Abs() == ReleaseAt(old(Abs()), data)
    {
      if data >= base {
        var slot := (data - base) / slotSize;
        if slot < slotCount {
          busy[slot] := false;
        }
      }
    }
  }
}
