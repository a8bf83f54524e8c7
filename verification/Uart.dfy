/**
 * The UART transmit path as atomic steps on one core: tasks, one interrupt level and one fast-interrupt level run
 * code in front of the hardware FIFO, and the wire drains the FIFO at any moment. A section under the global mask
 * is one step; code outside of it can be interrupted between any two steps.
 */
module Uart {
  import opened Wrappers
  import opened Bytes

  const FIFO_DEPTH: nat := 128

  datatype Who = Task(id: nat) | Irq | Fiq
  datatype Sent = Sent(who: Who, data: byte)

  /** The port with its queue attached. `accepted` and `lost` record what happened to bytes; no code reads them. */
  datatype Port = Port(
    wire: seq<byte>, fifo: seq<byte>, queue: seq<byte>, capacity: nat, armed: bool,
    accepted: seq<Sent>, lost: seq<byte>)

  /** Where the code of one context stands. */
  datatype After = ThenWrite(b: byte) | ThenReturn
  datatype Cont = BackToTry(b: byte) | BackToFlush(after: After)
  datatype Pc =
    | Done
    | Try(b: byte)                  // the masked section of a write with interrupts enabled
    | Decide(b: byte)               // both buffers full: yield, or push one byte out
    | SendWait(k: Cont)             // unmasked wait for room
    | SendTry(k: Cont)              // masked: check again, dequeue and write
    | FlushStart(after: After)      // unmasked look at the queue
    | FlushCheck(after: After)      // masked: empty and disarm, or send one more
    | WriteWait(b: byte)            // synchronous write: wait for room
    | WriteNow(b: byte)             // synchronous write: the register write
    | WaitEmpty                     // drain: wait for the FIFO to run empty

  datatype IrqPc = Idle | Masked(pc: Pc) | IsrEnter | IsrLoop(room: nat) | IsrDisarm

  datatype State = State(port: Port, tasks: map<nat, Pc>, irq: IrqPc, fiq: Pc, issued: map<Who, seq<byte>>)

  datatype Event =
    | Drain
    | TaskWrite(id: nat, b: byte)
    | TaskDrain(id: nat)
    | TaskStep(id: nat, ready: bool, source: bool)
    | MaskedWrite(b: byte)          // a write with the IRQ masked: another interrupt handler or a critical section
    | IsrFires
    | IrqStep(ready: bool, source: bool)
    | FiqWrite(b: byte)
    | FiqStep(ready: bool, source: bool)

  /** wr_ready may say no although there is room; it never says yes when there is none. */
  predicate Ready(p: Port, ready: bool) {
    ready && |p.fifo| < FIFO_DEPTH
  }

  /** A write to the FIFO register. On a full FIFO the hardware drops the byte. */
  function ToFifo(p: Port, who: Who, b: byte): Port {
    if |p.fifo| < FIFO_DEPTH
    then p.(fifo := p.fifo + [b], accepted := p.accepted + [Sent(who, b)])
    else p.(lost := p.lost + [b])
  }

  function HeadToFifo(p: Port): Port
    requires p.queue != []
  {
    if |p.fifo| < FIFO_DEPTH
    then p.(fifo := p.fifo + [p.queue[0]], queue := p.queue[1..])
    else p.(lost := p.lost + [p.queue[0]], queue := p.queue[1..])
  }

  function AfterFlush(after: After): Pc {
    match after
    case ThenWrite(b) => WriteWait(b)
    case ThenReturn => WaitEmpty
  }

  function Resume(k: Cont): Pc {
    match k
    case BackToTry(b) => Try(b)
    case BackToFlush(after) => FlushCheck(after)
  }

  /** One atomic step of the code of `who`. */
  function CodeStep(p: Port, who: Who, pc: Pc, ready: bool, source: bool): (Port, Pc) {
    match pc
    case Done => (p, Done)
    case Try(b) =>
      if p.queue == [] && Ready(p, ready) then (ToFifo(p, who, b), Done)
      else if |p.queue| < p.capacity then
        (p.(queue := p.queue + [b], armed := true, accepted := p.accepted + [Sent(who, b)]), Done)
      else (p, Decide(b))
    case Decide(b) =>
      if p.capacity > FIFO_DEPTH && p.armed && source then (p, Try(b)) else (p, SendWait(BackToTry(b)))
    case SendWait(k) => (p, if Ready(p, ready) then SendTry(k) else pc)
    case SendTry(k) =>
      if !Ready(p, ready) then (p, SendWait(k))
      else (if p.queue == [] then p else HeadToFifo(p), Resume(k))
    case FlushStart(after) => (p, if p.queue == [] then AfterFlush(after) else FlushCheck(after))
    case FlushCheck(after) =>
      if p.queue == [] then (p.(armed := false), AfterFlush(after)) else (p, SendWait(BackToFlush(after)))
    case WriteWait(b) => (p, if Ready(p, ready) then WriteNow(b) else pc)
    case WriteNow(b) => (ToFifo(p, who, b), Done)
    case WaitEmpty => (p, if p.fifo == [] then Done else pc)
  }

  /** One atomic step at interrupt level: the transmit interrupt itself, or code that prints with the IRQ masked. */
  function IrqCode(p: Port, irq: IrqPc, ready: bool, source: bool): (Port, IrqPc) {
    match irq
    case Idle => (p, Idle)
    case Masked(pc) =>
      var (p', pc') := CodeStep(p, Irq, pc, ready, source);
      (p', if pc' == Done then Idle else Masked(pc'))
    case IsrEnter => (p, IsrLoop(if |p.fifo| <= FIFO_DEPTH then FIFO_DEPTH - |p.fifo| else 0))
    case IsrLoop(room) =>
      if room == 0 then (p, Idle)
      else if p.queue == [] then (p, IsrDisarm)
      else (HeadToFifo(p), IsrLoop(room - 1))
    case IsrDisarm => (p.(armed := false), Idle)
  }

  function Issue(s: State, who: Who, b: byte): State {
    s.(issued := s.issued[who := IssuedBy(s, who) + [b]])
  }

  function IssuedBy(s: State, who: Who): seq<byte> {
    if who in s.issued then s.issued[who] else []
  }

  function TaskPc(s: State, id: nat): Pc {
    if id in s.tasks then s.tasks[id] else Done
  }

  /** A task runs only while no interrupt does, an interrupt only while no fast interrupt does. */
  predicate Enabled(s: State, e: Event) {
    match e
    case Drain => s.port.fifo != []
    case TaskWrite(id, _) => s.fiq == Done && s.irq == Idle && TaskPc(s, id) == Done
    case TaskDrain(id) => s.fiq == Done && s.irq == Idle && TaskPc(s, id) == Done
    case TaskStep(_, _, _) => s.fiq == Done && s.irq == Idle
    case MaskedWrite(_) => s.fiq == Done && s.irq == Idle
    case IsrFires => s.fiq == Done && s.irq == Idle
    case IrqStep(_, _) => s.fiq == Done
    case FiqWrite(_) => s.fiq == Done
    case FiqStep(_, _) => true
  }

  function Next(s: State, e: Event): State
    requires Enabled(s, e)
  {
    var p := s.port;
    match e
    case Drain => s.(port := p.(wire := p.wire + [p.fifo[0]], fifo := p.fifo[1..]))
    case TaskWrite(id, b) => Issue(s, Task(id), b).(tasks := s.tasks[id := Try(b)])
    case TaskDrain(id) => s.(tasks := s.tasks[id := FlushStart(ThenReturn)])
    case TaskStep(id, ready, source) =>
      var (p', pc') := CodeStep(p, Task(id), TaskPc(s, id), ready, source);
      s.(port := p', tasks := s.tasks[id := pc'])
    case MaskedWrite(b) => Issue(s, Irq, b).(irq := Masked(FlushStart(ThenWrite(b))))
    case IsrFires => s.(irq := IsrEnter)
    case IrqStep(ready, source) =>
      var (p', irq') := IrqCode(p, s.irq, ready, source);
      s.(port := p', irq := irq')
    case FiqWrite(b) => Issue(s, Fiq, b).(fiq := FlushStart(ThenWrite(b)))
    case FiqStep(ready, source) =>
      var (p', pc') := CodeStep(p, Fiq, s.fiq, ready, source);
      s.(port := p', fiq := pc')
  }

  /** The port after uart_set_tx_buffer() attached an empty queue. */
  function Start(capacity: nat): State {
    State(Port([], [], [], capacity, false, [], []), map[], Idle, Done, map[])
  }

  /** The state after the events of a run, or none if one of them could not happen. */
  function Run(s: State, events: seq<Event>): Option<State> {
    if events == [] then Some(s) else
    var before := Run(s, events[..|events| - 1]);
    var e := events[|events| - 1];
    if before.Some? && Enabled(before.value, e) then Some(Next(before.value, e)) else None
  }

  // ---- What every step keeps ----

  function DataOf(sent: seq<Sent>): seq<byte> {
    seq(|sent|, i requires 0 <= i < |sent| => sent[i].data)
  }

  /** The bytes of one writer, in order. */
  function By(sent: seq<Sent>, who: Who): seq<byte> {
    if sent == [] then [] else
    var last := sent[|sent| - 1];
    By(sent[..|sent| - 1], who) + if last.who == who then [last.data] else []
  }

  function PendingAfter(after: After): seq<byte> {
    match after
    case ThenWrite(b) => [b]
    case ThenReturn => []
  }

  /** The byte a context has taken from its caller and not handed on yet. */
  function Pending(pc: Pc): seq<byte> {
    match pc
    case Done => []
    case Try(b) => [b]
    case Decide(b) => [b]
    case SendWait(k) => PendingCont(k)
    case SendTry(k) => PendingCont(k)
    case FlushStart(after) => PendingAfter(after)
    case FlushCheck(after) => PendingAfter(after)
    case WriteWait(b) => [b]
    case WriteNow(b) => [b]
    case WaitEmpty => []
  }

  function PendingCont(k: Cont): seq<byte> {
    match k
    case BackToTry(b) => [b]
    case BackToFlush(after) => PendingAfter(after)
  }

  function PendingOf(s: State, who: Who): seq<byte> {
    match who
    case Task(id) => Pending(TaskPc(s, id))
    case Irq => if s.irq.Masked? then Pending(s.irq.pc) else []
    case Fiq => Pending(s.fiq)
  }

  /** The order of the stream: what left, what is in the FIFO and what is queued is what was accepted, in order. */
  ghost predicate Ordered(p: Port) {
    && p.wire + p.fifo + p.queue == DataOf(p.accepted)
    && |p.fifo| <= FIFO_DEPTH && |p.queue| <= p.capacity
    && (p.queue != [] ==> p.armed)
  }

  /** Code that runs in a task: it may queue bytes, and it never writes around the queue. */
  predicate TaskCode(pc: Pc) {
    match pc
    case SendWait(k) => k.BackToFlush? ==> k.after.ThenReturn?
    case SendTry(k) => k.BackToFlush? ==> k.after.ThenReturn?
    case FlushStart(after) => after.ThenReturn?
    case FlushCheck(after) => after.ThenReturn?
    case WriteWait(_) => false
    case WriteNow(_) => false
    case _ => true
  }

  /** Code that runs with the IRQ masked: it empties the queue before it writes, and never fills it. */
  predicate SyncCode(p: Port, pc: Pc) {
    match pc
    case Done => true
    case SendWait(k) => k.BackToFlush? && k.after.ThenWrite?
    case SendTry(k) => k.BackToFlush? && k.after.ThenWrite?
    case FlushStart(after) => after.ThenWrite?
    case FlushCheck(after) => after.ThenWrite?
    case WriteWait(_) => p.queue == []
    case WriteNow(_) => p.queue == []
    case _ => false
  }

  ghost predicate IrqFits(s: State) {
    match s.irq
    case Masked(pc) => pc != Done && SyncCode(s.port, pc)
    case IsrLoop(room) => s.fiq != Done || s.port.queue == [] || room + |s.port.fifo| <= FIFO_DEPTH
    case IsrDisarm => s.port.queue == []
    case _ => true
  }

  ghost predicate Inv(s: State) {
    && Ordered(s.port)
    && (forall id :: id in s.tasks ==> TaskCode(s.tasks[id]))
    && IrqFits(s)
    && SyncCode(s.port, s.fiq)
    && (s.fiq.WriteNow? ==> |s.port.fifo| < FIFO_DEPTH)
  }

  lemma DataSnoc(sent: seq<Sent>, x: Sent)
    ensures DataOf(sent + [x]) == DataOf(sent) + [x.data]
  {
  }

  lemma Shift(a: seq<byte>, b: seq<byte>, c: seq<byte>)
    requires c != []
    ensures a + b + c == a + (b + [c[0]]) + c[1..]
  {
    assert c == [c[0]] + c[1..];
  }

  lemma OrderedToFifo(p: Port, who: Who, b: byte)
    requires Ordered(p) && p.queue == []
    ensures Ordered(ToFifo(p, who, b))
  {
    DataSnoc(p.accepted, Sent(who, b));
    assert p.wire + (p.fifo + [b]) + p.queue == p.wire + p.fifo + p.queue + [b];
  }

  lemma OrderedHeadToFifo(p: Port)
    requires Ordered(p) && p.queue != [] && |p.fifo| < FIFO_DEPTH
    ensures Ordered(HeadToFifo(p))
  {
    Shift(p.wire, p.fifo, p.queue);
  }

  /** No step of a context breaks the order, and only code with the IRQ masked can meet a full FIFO. */
  lemma CodeKeeps(p: Port, who: Who, pc: Pc, ready: bool, source: bool)
    requires Ordered(p) && (TaskCode(pc) || SyncCode(p, pc))
    ensures
      var (p', pc') := CodeStep(p, who, pc, ready, source);
      && Ordered(p')
      && (pc == Done ==> p' == p && pc' == Done)
      && (TaskCode(pc) ==> TaskCode(pc'))
      && (SyncCode(p, pc) ==>
            && SyncCode(p', pc') && |p'.queue| <= |p.queue|
            && (pc' == Done && pc != Done ==> p'.queue == []))
      && (pc'.WriteNow? ==> |p'.fifo| < FIFO_DEPTH)
      && (p'.lost != p.lost ==> pc.WriteNow? && |p.fifo| == FIFO_DEPTH)
  {
    hide DataOf;
    match pc
    case Try(b) =>
      if p.queue == [] && Ready(p, ready) {
        OrderedToFifo(p, who, b);
      } else if |p.queue| < p.capacity {
        DataSnoc(p.accepted, Sent(who, b));
        assert p.wire + p.fifo + (p.queue + [b]) == p.wire + p.fifo + p.queue + [b];
      }
    case SendTry(k) =>
      if Ready(p, ready) && p.queue != [] {
        OrderedHeadToFifo(p);
      }
    case WriteNow(b) => OrderedToFifo(p, who, b);
    case _ =>
  }

  /** The transmit interrupt never overruns the FIFO: a FIQ that printed after the room count left no queue. */
  lemma IrqKeeps(s: State, ready: bool, source: bool)
    requires Inv(s) && s.fiq == Done
    ensures
      var (p', irq') := IrqCode(s.port, s.irq, ready, source);
      && Inv(s.(port := p', irq := irq'))
      && (p'.lost != s.port.lost ==> s.irq.Masked? && s.irq.pc.WriteNow? && |s.port.fifo| == FIFO_DEPTH)
  {
    match s.irq
    case Masked(pc) => CodeKeeps(s.port, Irq, pc, ready, source);
    case IsrLoop(room) =>
      if room > 0 && s.port.queue != [] {
        OrderedHeadToFifo(s.port);
      }
    case _ =>
  }

  lemma DrainKeeps(s: State)
    requires Inv(s) && s.port.fifo != []
    ensures Inv(Next(s, Drain))
  {
    var p := s.port;
    assert p.fifo == [p.fifo[0]] + p.fifo[1..];
    assert (p.wire + [p.fifo[0]]) + p.fifo[1..] + p.queue == p.wire + p.fifo + p.queue;
  }

  lemma TaskStepKeeps(s: State, e: Event)
    requires Inv(s) && e.TaskStep? && Enabled(s, e)
    ensures Inv(Next(s, e)) && Next(s, e).port.lost == s.port.lost
  {
    hide CodeStep, Ordered;
    CodeKeeps(s.port, Task(e.id), TaskPc(s, e.id), e.ready, e.source);
  }

  lemma FiqStepKeeps(s: State, e: Event)
    requires Inv(s) && e.FiqStep?
    ensures Inv(Next(s, e)) && Next(s, e).port.lost == s.port.lost
  {
    hide CodeStep, Ordered;
    CodeKeeps(s.port, Fiq, s.fiq, e.ready, e.source);
  }

  lemma CallKeeps(s: State, e: Event)
    requires Inv(s) && Enabled(s, e) && !(e.Drain? || e.TaskStep? || e.IrqStep? || e.FiqStep?)
    ensures Inv(Next(s, e)) && Next(s, e).port == s.port
  {
    hide Ordered;
  }

  /** Every step of every context keeps the invariant. */
  lemma StepKeeps(s: State, e: Event)
    requires Inv(s) && Enabled(s, e)
    ensures Inv(Next(s, e))
    ensures Next(s, e).port.lost != s.port.lost <==>
      e.IrqStep? && s.irq.Masked? && s.irq.pc.WriteNow? && |s.port.fifo| == FIFO_DEPTH
  {
    hide Inv, CodeStep;
    match e
    case Drain => DrainKeeps(s);
    case TaskStep(_, _, _) => TaskStepKeeps(s, e);
    case IrqStep(ready, source) =>
      IrqKeeps(s, ready, source);
      if s.irq.Masked? && s.irq.pc.WriteNow? && |s.port.fifo| == FIFO_DEPTH {
        OverrunLoses(s, ready, source);
      }
    case FiqStep(_, _) => FiqStepKeeps(s, e);
    case _ => CallKeeps(s, e);
  }

  lemma OverrunLoses(s: State, ready: bool, source: bool)
    requires s.irq.Masked? && s.irq.pc.WriteNow? && |s.port.fifo| == FIFO_DEPTH
    ensures IrqCode(s.port, s.irq, ready, source).0.lost == s.port.lost + [s.irq.pc.b]
  {
  }

  /**
   * Over every interleaving, wire, FIFO and queue together are the accepted bytes in the order they were accepted,
   * and a queue that is not empty has its interrupt enabled.
   */
  lemma {:induction false} RunOrdered(capacity: nat, events: seq<Event>)
    requires Run(Start(capacity), events).Some?
    ensures Inv(Run(Start(capacity), events).value)
  {
    if events == [] {
      assert DataOf([]) == [];
    } else {
      var front := events[..|events| - 1];
      RunOrdered(capacity, front);
      StepKeeps(Run(Start(capacity), front).value, events[|events| - 1]);
    }
  }

  // ---- What is lost ----

  /** A write with the IRQ masked reaches its register write while the FIFO is full. */
  predicate Overrun(s: State, e: Event) {
    e.IrqStep? && s.irq.Masked? && s.irq.pc.WriteNow? && |s.port.fifo| == FIFO_DEPTH
  }

  /** How often that happens in a run. */
  function Overruns(s: State, events: seq<Event>): nat {
    if events == [] then 0 else
    var front, e := events[..|events| - 1], events[|events| - 1];
    Overruns(s, front) + if Run(s, front).Some? && Overrun(Run(s, front).value, e) then 1 else 0
  }

  lemma StepLoses(s: State, e: Event)
    requires Inv(s) && Enabled(s, e)
    ensures Next(s, e).port.lost == if Overrun(s, e) then s.port.lost + [s.irq.pc.b] else s.port.lost
  {
    StepKeeps(s, e);
  }

  /** Over every run, exactly the overrun writes lose their byte; without one nothing is lost. */
  lemma {:induction false} RunLoses(capacity: nat, events: seq<Event>)
    requires Run(Start(capacity), events).Some?
    ensures |Run(Start(capacity), events).value.port.lost| == Overruns(Start(capacity), events)
  {
    if events != [] {
      var front := events[..|events| - 1];
      hide Inv, Overrun, Next, Enabled;
      RunOrdered(capacity, front);
      RunLoses(capacity, front);
      StepLoses(Run(Start(capacity), front).value, events[|events| - 1]);
    }
  }

  /** No FIQ starts printing between the room check and the register write of a write with the IRQ masked. */
  ghost predicate Undisturbed(s: State, e: Event) {
    e.FiqWrite? ==> !(s.irq.Masked? && s.irq.pc.WriteNow?)
  }

  ghost predicate Lossless(s: State) {
    && Inv(s) && s.port.lost == []
    && (s.irq.Masked? && s.irq.pc.WriteNow? ==> s.fiq == Done && |s.port.fifo| < FIFO_DEPTH)
  }

  lemma StepLossless(s: State, e: Event)
    requires Lossless(s) && Enabled(s, e) && Undisturbed(s, e)
    ensures Lossless(Next(s, e))
  {
    StepKeeps(s, e);
    match e
    case IrqStep(ready, source) =>
      if s.irq.Masked? {
        CodeKeeps(s.port, Irq, s.irq.pc, ready, source);
      }
    case _ =>
  }

  ghost predicate RunUndisturbed(s: State, events: seq<Event>) {
    events == [] ||
    var front := events[..|events| - 1];
    && RunUndisturbed(s, front)
    && (Run(s, front).Some? ==> Undisturbed(Run(s, front).value, events[|events| - 1]))
  }

  lemma {:induction false} RunLossless(capacity: nat, events: seq<Event>)
    requires Run(Start(capacity), events).Some? && RunUndisturbed(Start(capacity), events)
    ensures Lossless(Run(Start(capacity), events).value)
  {
    if events == [] {
      assert DataOf([]) == [];
    } else {
      var front := events[..|events| - 1];
      RunLossless(capacity, front);
      StepLossless(Run(Start(capacity), front).value, events[|events| - 1]);
    }
  }

  // ---- Each writer's bytes go out once, in its own order ----

  /** `c` is `a` and `b` shuffled together, each in its own order. */
  ghost predicate Merged(a: seq<byte>, b: seq<byte>, c: seq<byte>)
    decreases |c|
  {
    if c == [] then a == [] && b == [] else
    var x, front := c[|c| - 1], c[..|c| - 1];
    || (a != [] && a[|a| - 1] == x && Merged(a[..|a| - 1], b, front))
    || (b != [] && b[|b| - 1] == x && Merged(a, b[..|b| - 1], front))
  }

  lemma MergedSnoc(a: seq<byte>, b: seq<byte>, c: seq<byte>, x: byte)
    requires Merged(a, b, c)
    ensures Merged(a + [x], b, c + [x]) && Merged(a, b + [x], c + [x])
  {
    assert (a + [x])[..|a|] == a && (b + [x])[..|b|] == b && (c + [x])[..|c|] == c;
  }

  /** Every byte a writer handed over is accepted, in its order, or still on its way. */
  ghost predicate AllAccepted(s: State, who: Who) {
    By(s.port.accepted, who) + PendingOf(s, who) == IssuedBy(s, who)
  }

  /** The same for code with the IRQ masked, whose bytes are accepted or lost. */
  ghost predicate AcceptedOrLost(s: State) {
    exists handed ::
      && handed + PendingOf(s, Irq) == IssuedBy(s, Irq)
      && Merged(By(s.port.accepted, Irq), s.port.lost, handed)
  }

  ghost predicate Accounted(s: State) {
    (forall who :: who != Irq ==> AllAccepted(s, who)) && AcceptedOrLost(s)
  }

  lemma BySnoc(sent: seq<Sent>, x: Sent, who: Who)
    ensures By(sent + [x], who) == By(sent, who) + if x.who == who then [x.data] else []
  {
    assert (sent + [x])[..|sent|] == sent;
  }

  lemma PendingSmall(pc: Pc)
    ensures |Pending(pc)| <= 1 && Pending(Done) == []
  {
  }

  lemma HeadLeavesAccepted(p: Port)
    requires p.queue != [] && |p.fifo| < FIFO_DEPTH
    ensures HeadToFifo(p).accepted == p.accepted && HeadToFifo(p).lost == p.lost
  {
  }

  /** A step hands on the pending byte of its own context, keeps it or loses it, and touches no other writer's bytes. */
  lemma CodeAccounts(p: Port, who: Who, pc: Pc, ready: bool, source: bool, w: Who)
    ensures
      var (p', pc') := CodeStep(p, who, pc, ready, source);
      && (w == who ==>
            || (p'.lost == p.lost && By(p'.accepted, w) == By(p.accepted, w) && Pending(pc') == Pending(pc))
            || (p'.lost == p.lost && By(p'.accepted, w) == By(p.accepted, w) + Pending(pc) && Pending(pc') == [])
            || (p'.lost == p.lost + Pending(pc) != p.lost && p'.accepted == p.accepted && Pending(pc') == []))
      && (w != who ==> By(p'.accepted, w) == By(p.accepted, w))
  {
    hide By, HeadToFifo;
    if pc.SendTry? && Ready(p, ready) && p.queue != [] {
      HeadLeavesAccepted(p);
    }
    match pc
    case Try(b) => BySnoc(p.accepted, Sent(who, b), w);
    case WriteNow(b) => BySnoc(p.accepted, Sent(who, b), w);
    case _ =>
  }

  /** What a step does to the accepted bytes of `w` when it is not a step of `w`, or `w` waits for nothing. */
  lemma OthersKeep(s: State, e: Event, w: Who)
    requires Enabled(s, e)
    requires e.TaskStep? ==> w != Task(e.id)
    requires e.IrqStep? ==> w != Irq || !s.irq.Masked?
    requires e.FiqStep? ==> w != Fiq
    ensures By(Next(s, e).port.accepted, w) == By(s.port.accepted, w)
  {
    hide By, CodeStep;
    match e
    case TaskStep(id, ready, source) => CodeAccounts(s.port, Task(id), TaskPc(s, id), ready, source, w);
    case IrqStep(ready, source) =>
      if s.irq.Masked? {
        CodeAccounts(s.port, Irq, s.irq.pc, ready, source, w);
      }
    case FiqStep(ready, source) => CodeAccounts(s.port, Fiq, s.fiq, ready, source, w);
    case _ =>
  }

  /** Calls add to what their writer handed over and is still on its way; other events leave both alone. */
  lemma CallsIssue(s: State, e: Event, w: Who)
    requires Enabled(s, e)
    requires e.TaskStep? ==> w != Task(e.id)
    requires e.IrqStep? ==> w != Irq || !s.irq.Masked?
    requires e.FiqStep? ==> w != Fiq
    ensures
      var t := Next(s, e);
      || (PendingOf(t, w) == PendingOf(s, w) && IssuedBy(t, w) == IssuedBy(s, w))
      || (PendingOf(s, w) == [] && IssuedBy(t, w) == IssuedBy(s, w) + PendingOf(t, w))
  {
    hide CodeStep;
  }

  /** What a step of `w` itself does: the byte on its way stays, is accepted, or is lost. */
  lemma OwnStep(s: State, e: Event, w: Who)
    requires Enabled(s, e)
    requires (e.TaskStep? && w == Task(e.id)) || (e.IrqStep? && s.irq.Masked? && w == Irq) || (e.FiqStep? && w == Fiq)
    ensures
      var t := Next(s, e);
      && IssuedBy(t, w) == IssuedBy(s, w) && |PendingOf(s, w)| <= 1
      && (|| (&& t.port.lost == s.port.lost
              && By(t.port.accepted, w) == By(s.port.accepted, w) && PendingOf(t, w) == PendingOf(s, w))
          || (&& t.port.lost == s.port.lost
              && By(t.port.accepted, w) == By(s.port.accepted, w) + PendingOf(s, w) && PendingOf(t, w) == [])
          || (&& t.port.lost == s.port.lost + PendingOf(s, w) != s.port.lost
              && t.port.accepted == s.port.accepted && PendingOf(t, w) == []))
  {
    hide By, CodeStep, Pending;
    var pc := match w case Task(id) => TaskPc(s, id) case Irq => s.irq.pc case Fiq => s.fiq;
    PendingSmall(pc);
    CodeAccounts(s.port, w, pc, e.ready, e.source, w);
  }

  lemma AcceptedStep(s: State, e: Event, w: Who)
    requires Inv(s) && Enabled(s, e) && w != Irq && AllAccepted(s, w)
    ensures AllAccepted(Next(s, e), w)
  {
    hide By, Inv, Next, Enabled, PendingOf, IssuedBy;
    StepLoses(s, e);
    assert By(s.port.accepted, w) + [] == By(s.port.accepted, w);
    if (e.TaskStep? && w == Task(e.id)) || (e.FiqStep? && w == Fiq) {
      OwnStep(s, e, w);
      assert (By(s.port.accepted, w) + PendingOf(s, w)) + [] == By(s.port.accepted, w) + PendingOf(s, w);
    } else {
      OthersKeep(s, e, w);
      CallsIssue(s, e, w);
    }
  }

  /** The byte on its way, if there is one, goes to either side. */
  lemma HandOn(sent: seq<byte>, lost: seq<byte>, handed: seq<byte>, x: seq<byte>)
    requires Merged(sent, lost, handed) && |x| <= 1
    ensures Merged(sent + x, lost, handed + x) && Merged(sent, lost + x, handed + x)
  {
    hide Merged;
    if x == [] {
      assert sent + x == sent && lost + x == lost && handed + x == handed;
    } else {
      assert x == [x[0]];
      MergedSnoc(sent, lost, handed, x[0]);
    }
  }

  lemma AcceptedOrLostStep(s: State, e: Event)
    requires Inv(s) && Enabled(s, e) && AcceptedOrLost(s)
    ensures AcceptedOrLost(Next(s, e))
  {
    hide By, Inv, Merged, Next, Enabled, PendingOf, IssuedBy;
    StepLoses(s, e);
    var t, sent, x := Next(s, e), By(s.port.accepted, Irq), PendingOf(s, Irq);
    var handed :| handed + x == IssuedBy(s, Irq) && Merged(sent, s.port.lost, handed);
    assert handed + [] == handed && (handed + x) + [] == handed + x;
    if e.IrqStep? && s.irq.Masked? {
      OwnStep(s, e, Irq);
      if By(t.port.accepted, Irq) == sent && PendingOf(t, Irq) == x && t.port.lost == s.port.lost {
        assert handed + PendingOf(t, Irq) == IssuedBy(t, Irq);
      } else {
        HandOn(sent, s.port.lost, handed, x);
        assert (handed + x) + PendingOf(t, Irq) == IssuedBy(t, Irq);
      }
    } else {
      OthersKeep(s, e, Irq);
      CallsIssue(s, e, Irq);
      assert handed + PendingOf(t, Irq) == IssuedBy(t, Irq);
    }
  }

  lemma StepAccounts(s: State, e: Event)
    requires Inv(s) && Accounted(s) && Enabled(s, e)
    ensures Accounted(Next(s, e))
  {
    hide Inv, AllAccepted, AcceptedOrLost, Next, Enabled;
    forall w: Who | w != Irq ensures AllAccepted(Next(s, e), w) {
      AcceptedStep(s, e, w);
    }
    AcceptedOrLostStep(s, e);
  }

  lemma StartAccounts(capacity: nat)
    ensures Accounted(Start(capacity))
  {
    var none: seq<byte> := [];
    assert none + PendingOf(Start(capacity), Irq) == IssuedBy(Start(capacity), Irq) && Merged([], [], none);
  }

  /**
   * Over every run, each task's and the fast interrupt's bytes are accepted once and in the order they were handed
   * over, but for one still on its way. Of the bytes handed over with the IRQ masked, those not accepted are the lost
   * ones: accepted and lost, each in its own order, make up what was handed over.
   */
  lemma {:induction false} RunAccounted(capacity: nat, events: seq<Event>)
    requires Run(Start(capacity), events).Some?
    ensures Accounted(Run(Start(capacity), events).value)
  {
    hide Inv, Accounted, Next, Enabled;
    if events == [] {
      StartAccounts(capacity);
    } else {
      var front := events[..|events| - 1];
      RunAccounted(capacity, front);
      RunOrdered(capacity, front);
      StepAccounts(Run(Start(capacity), front).value, events[|events| - 1]);
    }
  }

  // ---- The race that can lose a byte ----

  lemma {:induction false} RunAppend(s: State, a: seq<Event>, e: Event)
    requires Run(s, a).Some? && Enabled(Run(s, a).value, e)
    ensures Run(s, a + [e]) == Some(Next(Run(s, a).value, e))
  {
    assert (a + [e])[..|a|] == a;
  }

  /** Fast interrupts alone can fill the FIFO to any level. */
  lemma {:induction false} FillFifo(capacity: nat, n: nat) returns (events: seq<Event>)
    requires n <= FIFO_DEPTH
    ensures
      var r := Run(Start(capacity), events);
      && r.Some? && |r.value.port.fifo| == n && r.value.port.queue == [] && r.value.port.lost == []
      && r.value.fiq == Done && r.value.irq == Idle
  {
    events := [];
    if n > 0 {
      var e0 := FillFifo(capacity, n - 1);
      events := OneFiqWrite(Start(capacity), e0);
    }
  }

  lemma OneFiqWrite(s: State, e0: seq<Event>) returns (events: seq<Event>)
    requires
      var r := Run(s, e0);
      r.Some? && |r.value.port.fifo| < FIFO_DEPTH && r.value.port.queue == [] && r.value.fiq == Done
    ensures
      var r, r' := Run(s, e0), Run(s, events);
      && r'.Some? && |r'.value.port.fifo| == |r.value.port.fifo| + 1 && r'.value.port.queue == []
      && r'.value.port.lost == r.value.port.lost && r'.value.fiq == Done && r'.value.irq == r.value.irq
  {
    hide Run;
    RunAppend(s, e0, FiqWrite(0));
    var e1 := e0 + [FiqWrite(0)];
    RunAppend(s, e1, FiqStep(true, true));
    var e2 := e1 + [FiqStep(true, true)];
    RunAppend(s, e2, FiqStep(true, true));
    var e3 := e2 + [FiqStep(true, true)];
    RunAppend(s, e3, FiqStep(true, true));
    events := e3 + [FiqStep(true, true)];
  }

  /**
   * The synchronous write checks for room and then writes, with the FIQ still enabled: a FIQ that prints in between
   * can take the last place, and the byte is dropped.
   */
  lemma MaskedWriteCanLose(capacity: nat, b: byte) returns (events: seq<Event>)
    ensures Run(Start(capacity), events).Some? && Run(Start(capacity), events).value.port.lost == [b]
  {
    hide Run;
    var s := Start(capacity);
    var e0 := FillFifo(capacity, FIFO_DEPTH - 1);
    RunAppend(s, e0, MaskedWrite(b));
    var e1 := e0 + [MaskedWrite(b)];
    RunAppend(s, e1, IrqStep(true, true));
    var e2 := e1 + [IrqStep(true, true)];
    RunAppend(s, e2, IrqStep(true, true));
    var e3 := e2 + [IrqStep(true, true)];
    var e4 := OneFiqWrite(s, e3);
    RunAppend(s, e4, IrqStep(true, true));
    events := e4 + [IrqStep(true, true)];
  }
}
