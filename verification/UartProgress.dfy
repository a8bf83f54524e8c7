/**
 * That the transmit path gets its bytes out: what one transmit interrupt moves, that code which finds the FIFO ready
 * comes to an end, and that a drain waits for every byte accepted before it.
 */
module UartProgress {
  import opened Wrappers
  import opened Bytes
  import opened Uart

  /** A run from any state that has the invariant keeps it. */
  lemma {:induction false} RunInv(s: State, events: seq<Event>)
    requires Inv(s) && Run(s, events).Some?
    ensures Inv(Run(s, events).value)
  {
    hide Inv, Next, Enabled;
    if events != [] {
      var front := events[..|events| - 1];
      RunInv(s, front);
      StepKeeps(Run(s, front).value, events[|events| - 1]);
    }
  }

  // ---- The transmit interrupt ----

  /** Only the interrupt and the wire run. */
  predicate InterruptOnly(events: seq<Event>) {
    forall i :: 0 <= i < |events| ==> events[i].IrqStep? || events[i].Drain?
  }

  function IrqSteps(events: seq<Event>): nat {
    if events == [] then 0 else
    IrqSteps(events[..|events| - 1]) + if events[|events| - 1].IrqStep? then 1 else 0
  }

  /** Where the interrupt stands after `c` steps, with `n` bytes queued and `room` places in the FIFO. */
  function IsrAfter(room: nat, n: nat, c: nat): IrqPc {
    if c <= room && c <= n then IsrLoop(room - c)
    else if room <= n || c > n + 1 then Idle
    else IsrDisarm
  }

  ghost predicate IsrMoved(s: State, t: State, room: nat, c: nat) {
    var p, q := s.port, t.port;
    var n := |p.queue|;
    var m := if room < n then room else n;
    var k := if c < m then c else m;
    && t == s.(port := q, irq := IsrAfter(room, n, c))
    && q == p.(wire := q.wire, fifo := q.fifo, queue := p.queue[k..], armed := q.armed)
    && q.wire + q.fifo == p.wire + p.fifo + p.queue[..k]
    && q.armed == (p.armed && !(n < room && c >= n + 2))
  }

  lemma NextOf(a: seq<byte>, k: nat)
    requires k < |a|
    ensures a[..k] + [a[k]] == a[..k + 1] && a[k..][1..] == a[k + 1..] && a[k..][0] == a[k] && a[k..] != []
  {
  }

  lemma Snoc(w: seq<byte>, f: seq<byte>, b: byte)
    ensures w + (f + [b]) == (w + f) + [b]
  {
  }

  lemma IsrTurn(s: State, t: State, room: nat, c: nat, ready: bool, source: bool)
    requires IsrMoved(s, t, room, c) && Inv(t) && s.fiq == Done
    ensures IsrMoved(s, Next(t, IrqStep(ready, source)), room, c + 1)
  {
    hide Ordered, SyncCode;
    FifoBounded(t.port);
    var p, q := s.port, t.port;
    var n := |p.queue|;
    if c < room && c < n {
      NextOf(p.queue, c);
      Snoc(q.wire, q.fifo, p.queue[c]);
      assert p.wire + p.fifo + p.queue[..c] + [p.queue[c]] == p.wire + p.fifo + (p.queue[..c] + [p.queue[c]]);
    }
  }

  lemma FifoBounded(p: Port)
    requires Ordered(p)
    ensures |p.fifo| <= FIFO_DEPTH
  {
  }

  lemma WireMoves(p: Port)
    requires p.fifo != []
    ensures (p.wire + [p.fifo[0]]) + p.fifo[1..] == p.wire + p.fifo
  {
    assert p.fifo == [p.fifo[0]] + p.fifo[1..];
  }

  lemma {:induction false} IsrRun(s: State, room: nat, events: seq<Event>)
    requires Inv(s) && s.fiq == Done && s.irq == IsrLoop(room) && InterruptOnly(events) && Run(s, events).Some?
    ensures IsrMoved(s, Run(s, events).value, room, IrqSteps(events))
  {
    hide Inv, Next, Enabled, IsrMoved;
    if events == [] {
      IsrStart(s, room);
    } else {
      var front, e := events[..|events| - 1], events[|events| - 1];
      IsrRun(s, room, front);
      RunInv(s, front);
      var t := Run(s, front).value;
      match e
      case IrqStep(ready, source) => IsrTurn(s, t, room, IrqSteps(front), ready, source);
      case Drain => IsrDrain(s, t, room, IrqSteps(front));
    }
  }

  lemma IsrStart(s: State, room: nat)
    requires s.irq == IsrLoop(room)
    ensures IsrMoved(s, s, room, 0)
  {
  }

  lemma IsrDrain(s: State, t: State, room: nat, c: nat)
    requires IsrMoved(s, t, room, c) && Enabled(t, Drain)
    ensures IsrMoved(s, Next(t, Drain), room, c)
  {
    WireMoves(t.port);
  }

  /**
   * From its entry, with no fast interrupt in between, the transmit interrupt ends within 131 steps. It has then moved
   * the first bytes of the queue behind those in the FIFO, as many as there were places or as were queued, and it has
   * disarmed itself exactly when the queue ran out before the room did. The wire may take bytes meanwhile.
   */
  lemma IsrSends(s: State, e: Event, events: seq<Event>)
    requires Inv(s) && s.fiq == Done && s.irq == IsrEnter
    requires e.IrqStep? && InterruptOnly(events) && Run(Next(s, e), events).Some? && IrqSteps(events) >= 130
    ensures
      var p, t := s.port, Run(Next(s, e), events).value;
      var room := 128 - |p.fifo|;
      var k := if room < |p.queue| then room else |p.queue|;
      && t.irq == Idle && t.tasks == s.tasks
      && t.port.queue == p.queue[k..]
      && t.port.wire + t.port.fifo == p.wire + p.fifo + p.queue[..k]
      && t.port.armed == (p.armed && room <= |p.queue|)
  {
    hide Run, Inv, Ordered;
    StepKeeps(s, e);
    PortFits(s);
    IsrRun(Next(s, e), 128 - |s.port.fifo|, events);
  }

  lemma PortFits(s: State)
    requires Inv(s)
    ensures Ordered(s.port) && |s.port.fifo| <= FIFO_DEPTH && |s.port.queue| <= s.port.capacity
  {
  }

  // ---- Code that finds the FIFO ready comes to an end ----

  /** A bound on the steps left. */
  function Left(p: Port, pc: Pc): nat {
    var q := |p.queue|;
    match pc
    case Done => 0
    case Try(_) => if q == 0 || q < p.capacity then 1 else 5
    case Decide(_) => 4
    case SendWait(k) => if k.BackToTry? then 3 else if q == 0 then 5 else 3 * q + 2
    case SendTry(k) => if k.BackToTry? then 2 else if q == 0 then 4 else 3 * q + 1
    case FlushStart(_) => 3 * q + 4
    case FlushCheck(_) => 3 * q + 3
    case WriteWait(_) => 2
    case WriteNow(_) => 1
    case WaitEmpty => 1
  }

  /** The hardware has what the code waits for: room in the FIFO, or an empty one. */
  predicate Attentive(p: Port, pc: Pc) {
    |p.fifo| < FIFO_DEPTH && (pc.WaitEmpty? ==> p.fifo == [])
  }

  lemma StepsForward(p: Port, who: Who, pc: Pc)
    requires pc != Done && Attentive(p, pc) && |p.queue| <= p.capacity
    ensures var (p', pc') := CodeStep(p, who, pc, true, false); Left(p', pc') < Left(p, pc)
  {
  }

  function PcOf(s: State, w: Who): Pc {
    match w
    case Task(id) => TaskPc(s, id)
    case Irq => if s.irq.Masked? then s.irq.pc else Done
    case Fiq => s.fiq
  }

  /** A step of `w`, without yielding. */
  predicate OwnStep(e: Event, w: Who) {
    match w
    case Task(id) => e == TaskStep(id, true, false)
    case Irq => e == IrqStep(true, false)
    case Fiq => e == FiqStep(true, false)
  }

  /** Only `w` and the wire run, and `w` finds the FIFO ready whenever it runs. */
  ghost predicate Attended(s: State, w: Who, events: seq<Event>) {
    events == [] ||
    var front, e := events[..|events| - 1], events[|events| - 1];
    && Attended(s, w, front)
    && (Run(s, front).Some? ==>
          var t := Run(s, front).value; e == Drain || (OwnStep(e, w) && Attentive(t.port, PcOf(t, w))))
  }

  function OwnSteps(events: seq<Event>, w: Who): nat {
    if events == [] then 0 else
    OwnSteps(events[..|events| - 1], w) + if OwnStep(events[|events| - 1], w) then 1 else 0
  }

  lemma OwnStepForward(s: State, e: Event, w: Who)
    requires Inv(s) && Enabled(s, e) && OwnStep(e, w) && Attentive(s.port, PcOf(s, w))
    ensures PcOf(s, w) == Done ==> PcOf(Next(s, e), w) == Done
    ensures PcOf(s, w) != Done ==> Left(Next(s, e).port, PcOf(Next(s, e), w)) < Left(s.port, PcOf(s, w))
  {
    hide Left, CodeStep;
    NoneLeft(s.port);
    NoneLeft(Next(s, e).port);
    if PcOf(s, w) != Done {
      PortFits(s);
      StepsForward(s.port, w, PcOf(s, w));
    } else {
      DoneStays(s.port, w);
    }
  }

  lemma NoneLeft(p: Port)
    ensures Left(p, Done) == 0
  {
  }

  lemma DoneStays(p: Port, who: Who)
    ensures CodeStep(p, who, Done, true, false) == (p, Done)
  {
  }

  lemma DrainLeaves(s: State, w: Who)
    requires Enabled(s, Drain)
    ensures var t := Next(s, Drain); PcOf(t, w) == PcOf(s, w) && Left(t.port, PcOf(t, w)) == Left(s.port, PcOf(s, w))
  {
  }

  lemma {:induction false} Forward(s: State, w: Who, events: seq<Event>)
    requires Inv(s) && Run(s, events).Some? && Attended(s, w, events)
    ensures
      var t := Run(s, events).value;
      PcOf(t, w) == Done || Left(t.port, PcOf(t, w)) + OwnSteps(events, w) <= Left(s.port, PcOf(s, w))
  {
    hide Inv, Next, Enabled, Left, PcOf, Attentive;
    if events != [] {
      var front, e := events[..|events| - 1], events[|events| - 1];
      Forward(s, w, front);
      RunInv(s, front);
      var t := Run(s, front).value;
      if e == Drain {
        DrainLeaves(t, w);
      } else {
        OwnStepForward(t, e, w);
      }
    }
  }

  /**
   * No call hangs: with the FIFO ready whenever its code runs, a write or a drain of any context is done after at most
   * three steps a queued byte and five more.
   */
  lemma CallFinishes(s: State, w: Who, events: seq<Event>)
    requires Inv(s) && Run(s, events).Some? && Attended(s, w, events)
    requires OwnSteps(events, w) >= 3 * |s.port.queue| + 5
    ensures PcOf(Run(s, events).value, w) == Done
  {
    hide Inv, Run, Attended, Enabled, Next;
    Forward(s, w, events);
    var t := Run(s, events).value;
    if PcOf(t, w) != Done {
      SomeLeft(t.port, PcOf(t, w));
    }
  }

  lemma SomeLeft(p: Port, pc: Pc)
    requires pc != Done
    ensures Left(p, pc) > 0
  {
  }

  // ---- What a drain waits for ----

  /** `t` is further on: nothing that was accepted, sent to the FIFO or put on the wire is taken back. */
  ghost predicate Onward(p: Port, q: Port) {
    && DataOf(p.accepted) <= DataOf(q.accepted) && p.wire <= q.wire
    && |p.wire| + |p.fifo| <= |q.wire| + |q.fifo|
  }

  lemma DataGrows(sent: seq<Sent>, x: Sent)
    ensures DataOf(sent) <= DataOf(sent + [x])
  {
  }

  lemma CodeOnward(p: Port, who: Who, pc: Pc, ready: bool, source: bool)
    ensures Onward(p, CodeStep(p, who, pc, ready, source).0)
  {
    hide DataOf;
    match pc
    case Try(b) => DataGrows(p.accepted, Sent(who, b));
    case WriteNow(b) => DataGrows(p.accepted, Sent(who, b));
    case _ =>
  }

  lemma StepOnward(s: State, e: Event)
    requires Enabled(s, e)
    ensures Onward(s.port, Next(s, e).port)
  {
    hide CodeStep, DataOf;
    match e
    case TaskStep(id, ready, source) => CodeOnward(s.port, Task(id), TaskPc(s, id), ready, source);
    case FiqStep(ready, source) => CodeOnward(s.port, Fiq, s.fiq, ready, source);
    case IrqStep(ready, source) =>
      if s.irq.Masked? {
        CodeOnward(s.port, Irq, s.irq.pc, ready, source);
      }
    case _ =>
  }

  /** What a draining task knows at each point of its code about the first `n` bytes accepted. */
  ghost predicate DrainKnows(s: State, id: nat, n: nat) {
    match TaskPc(s, id)
    case Done => n <= |s.port.wire|
    case WaitEmpty => n <= |s.port.wire| + |s.port.fifo|
    case FlushStart(after) => after.ThenReturn?
    case FlushCheck(after) => after.ThenReturn?
    case SendWait(k) => k.BackToFlush? && k.after.ThenReturn?
    case SendTry(k) => k.BackToFlush? && k.after.ThenReturn?
    case _ => false
  }

  lemma DrainCode(p: Port, id: nat, pc: Pc, ready: bool, source: bool, n: nat, s: State, t: State)
    requires Ordered(p) && n <= |DataOf(p.accepted)| && s.port == p && TaskPc(s, id) == pc && DrainKnows(s, id, n)
    requires t.port == CodeStep(p, Task(id), pc, ready, source).0
    requires TaskPc(t, id) == CodeStep(p, Task(id), pc, ready, source).1
    ensures DrainKnows(t, id, n)
  {
    assert |p.wire| + |p.fifo| + |p.queue| == |DataOf(p.accepted)|;
  }

  lemma DrainStep(s: State, e: Event, id: nat, n: nat)
    requires Inv(s) && Enabled(s, e) && e != TaskDrain(id) && !(e.TaskWrite? && e.id == id)
    requires DrainKnows(s, id, n) && n <= |DataOf(s.port.accepted)|
    ensures DrainKnows(Next(s, e), id, n)
  {
    hide CodeStep, DataOf, Inv;
    StepOnward(s, e);
    PortFits(s);
    if e.TaskStep? && e.id == id {
      DrainCode(s.port, id, TaskPc(s, id), e.ready, e.source, n, s, Next(s, e));
    } else {
      OtherSteps(s, e, id);
    }
  }

  lemma OtherSteps(s: State, e: Event, id: nat)
    requires Enabled(s, e) && !(e.TaskStep? && e.id == id) && e != TaskDrain(id) && !(e.TaskWrite? && e.id == id)
    ensures TaskPc(Next(s, e), id) == TaskPc(s, id)
  {
    hide CodeStep;
  }

  /** The task calls nothing else. */
  predicate NoOtherCall(events: seq<Event>, id: nat) {
    forall i :: 0 <= i < |events| ==> events[i] != TaskDrain(id) && !(events[i].TaskWrite? && events[i].id == id)
  }

  lemma {:induction false} DrainRun(s: State, id: nat, events: seq<Event>)
    requires Inv(s) && TaskPc(s, id) == FlushStart(ThenReturn) && Run(s, events).Some? && NoOtherCall(events, id)
    ensures
      var t, n := Run(s, events).value, |DataOf(s.port.accepted)|;
      DrainKnows(t, id, n) && DataOf(s.port.accepted) <= DataOf(t.port.accepted)
  {
    hide Inv, Next, Enabled, DataOf;
    if events != [] {
      var front, e := events[..|events| - 1], events[|events| - 1];
      DrainRun(s, id, front);
      RunInv(s, front);
      var t := Run(s, front).value;
      hide DrainKnows;
      StepOnward(t, e);
      DrainStep(t, e, id, |DataOf(s.port.accepted)|);
    }
  }

  /** When a drain returns, whatever ran meanwhile, every byte accepted before it was called is on the wire. */
  lemma DrainWaits(s: State, id: nat, events: seq<Event>)
    requires Inv(s) && TaskPc(s, id) == FlushStart(ThenReturn) && Run(s, events).Some? && NoOtherCall(events, id)
    requires TaskPc(Run(s, events).value, id) == Done
    ensures DataOf(s.port.accepted) <= Run(s, events).value.port.wire
  {
    hide Inv, Run, DataOf;
    DrainRun(s, id, events);
    RunInv(s, events);
    var t := Run(s, events).value;
    PortFits(t);
    WireIsPrefix(t.port, DataOf(s.port.accepted));
  }

  lemma WireIsPrefix(p: Port, a: seq<byte>)
    requires Ordered(p) && a <= DataOf(p.accepted) && |a| <= |p.wire|
    ensures a <= p.wire
  {
    hide DataOf;
    assert p.wire <= p.wire + p.fifo + p.queue;
  }

  // ---- A writer slower than the wire ----

  /** Whenever a task comes to write, the FIFO has room. */
  ghost predicate Slow(s: State, events: seq<Event>) {
    events == [] ||
    var front, e := events[..|events| - 1], events[|events| - 1];
    && Slow(s, front)
    && (Run(s, front).Some? && e.TaskStep? && TaskPc(Run(s, front).value, e.id).Try? ==>
          e.ready && |Run(s, front).value.port.fifo| < FIFO_DEPTH)
  }

  ghost predicate Quiet(p: Port) {
    p.queue == [] && !p.armed
  }

  lemma StaysQuiet(s: State, e: Event)
    requires Inv(s) && Quiet(s.port) && Enabled(s, e)
    requires e.TaskStep? && TaskPc(s, e.id).Try? ==> e.ready && |s.port.fifo| < FIFO_DEPTH
    ensures Quiet(Next(s, e).port)
  {
  }

  /** Bytes that find room in the FIFO go past the queue, and the transmit interrupt is never armed. */
  lemma {:induction false} SlowNeverArms(s: State, events: seq<Event>)
    requires Inv(s) && Quiet(s.port) && Run(s, events).Some? && Slow(s, events)
    ensures Quiet(Run(s, events).value.port)
  {
    hide Inv, Next, Enabled, Quiet;
    if events != [] {
      var front := events[..|events| - 1];
      SlowNeverArms(s, front);
      RunInv(s, front);
      StaysQuiet(Run(s, front).value, events[|events| - 1]);
    }
  }
}
