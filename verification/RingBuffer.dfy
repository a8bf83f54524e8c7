/**
 * The byte queue between producers and the UART interrupt. Its cursors run free and wrap with the machine word;
 * only the array index is masked, which is sound because the capacity divides the word range.
 */
module RingBuffer {
  import opened Arithmetic
  import opened Bytes

  const WORD: nat := 0x1_0000_0000

  /** `x & mask` for a capacity that is a power of two, as RINGBUF_DECLARE checks. */
  function Masked(x: nat, cap: nat): nat
    requires cap > 0
  {
    x % cap
  }

  /** Wrapping the cursor at the word size does not move the slot it stands for. */
  lemma WrapKeepsSlot(x: nat, cap: nat)
    requires cap > 0 && WORD % cap == 0
    ensures Masked(x % WORD, cap) == Masked(x, cap)
  {
    WrapKeepsRemainder(x, WORD, cap);
  }

  /** The array index of the `i`-th queued byte. */
  function Slot(out: nat, i: nat, cap: nat): (k: nat)
    requires cap > 0
    ensures k < cap
  {
    Masked((out + i) % WORD, cap)
  }

  /** Fewer bytes than the capacity never share a slot with the one to be written next. */
  lemma SlotIsFree(out: nat, i: nat, n: nat, cap: nat)
    requires cap > 0 && WORD % cap == 0 && i < n < cap
    ensures Slot(out, i, cap) != Slot(out, n, cap)
  {
    WrapKeepsSlot(out + i, cap);
    WrapKeepsSlot(out + n, cap);
    RemaindersDiffer(out + i, out + n, cap);
  }

  lemma SlotShift(out: nat, i: nat, cap: nat)
    requires cap > 0 && out < WORD && i < WORD
    ensures Slot((out + 1) % WORD, i, cap) == Slot(out, i + 1, cap)
  {
    assert ((out + 1) % WORD + i) % WORD == (out + 1 + i) % WORD;
  }

  /** The word-sized difference of the cursors. */
  function Gap(inp: nat, out: nat): (n: nat)
    ensures n < WORD
  {
    (inp - out) % WORD
  }

  /** The gap follows either cursor; behind it lies the slot to be written next. */
  lemma CursorStep(inp: nat, out: nat, cap: nat)
    requires inp < WORD && out < WORD && cap > 0
    ensures Gap(inp, out) + 1 < WORD ==> Gap((inp + 1) % WORD, out) == Gap(inp, out) + 1
    ensures inp != out <==> Gap(inp, out) > 0
    ensures inp != out ==> Gap(inp, (out + 1) % WORD) == Gap(inp, out) - 1
    ensures Slot(out, Gap(inp, out), cap) == Masked(inp, cap) && Slot(out, 0, cap) == Masked(out, cap)
  {
    hide Masked, Gap;
    GapIs(inp, out);
    GapIs((inp + 1) % WORD, out);
    GapIs(inp, (out + 1) % WORD);
  }

  lemma GapIs(inp: nat, out: nat)
    requires inp < WORD && out < WORD
    ensures Gap(inp, out) == if inp >= out then inp - out else inp + WORD - out
  {
  }

  class RingBuf {
    const data: array<byte>
    var inp: nat
    var out: nat

    ghost predicate Valid()
      reads this, data
    {
      && 0 < data.Length < WORD && WORD % data.Length == 0
      && inp < WORD && out < WORD && Count() <= data.Length
    }

    function Count(): nat
      reads this
    {
      Gap(inp, out)
    }

    /** The queued bytes, oldest first. */
    ghost function Contents(): (c: seq<byte>)
      requires Valid()
      reads this, data
      ensures |c| == Count()
    {
      seq(Count(), i requires 0 <= i < Count() reads this, data => data[Slot(out, i, data.Length)])
    }

    constructor (capacity: nat)
      requires 0 < capacity < WORD && WORD % capacity == 0
      ensures Valid() && Contents() == [] && data.Length == capacity && fresh(data)
    {
      data := new byte[capacity](_ => 0);
      inp, out := 0, 0;
    }

    method IsEmpty() returns (b: bool)
      requires Valid()
      ensures b <==> Contents() == []
    {
      CursorStep(inp, out, data.Length);
      b := inp == out;
    }

    method Put(b: byte) returns (ok: bool)
      requires Valid()
      modifies this`inp, data
      ensures Valid()
      ensures ok <==> |old(Contents())| < data.Length
      ensures Contents() == if ok then old(Contents()) + [b] else old(Contents())
    {
      hide Masked, Slot, Gap;
      if Count() > data.Length - 1 {
        return false;
      }
      ghost var n := Count();
      CursorStep(inp, out, data.Length);
      forall i: nat | i < n ensures Slot(out, i, data.Length) != Masked(inp, data.Length) {
        SlotIsFree(out, i, n, data.Length);
      }
      data[Masked(inp, data.Length)] := b;
      inp := (inp + 1) % WORD;
      assert Contents() == old(Contents()) + [b];
      return true;
    }

    method Get() returns (ok: bool, b: byte)
      requires Valid()
      modifies this`out
      ensures Valid()
      ensures ok <==> old(Contents()) != []
      ensures ok ==> [b] + Contents() == old(Contents())
      ensures !ok ==> Contents() == old(Contents())
    {
      hide Masked, Slot, Gap;
      ghost var n, was, cap := Count(), out, data.Length;
      CursorStep(inp, out, cap);
      if inp == out {
        return false, 0;
      }
      b := data[Masked(out, data.Length)];
      out := (out + 1) % WORD;
      forall i: nat | i < n - 1 ensures Slot(out, i, cap) == Slot(was, i + 1, cap) {
        SlotShift(was, i, cap);
      }
      assert [b] + Contents() == old(Contents());
      return true, b;
    }
  }
}
