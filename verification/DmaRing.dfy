/** The buffer protocol between the Ethernet DMA engine and the interrupt code, as a
    transition system.

    Nine packet buffers circulate between an 8-slot receive ring, an 8-slot transmit ring and
    a one-buffer pool. A CPU step is one access to a descriptor that the DMA engine can see,
    with the work on CPU-private cursors around it; a DMA step completes one descriptor. The
    two kinds interleave freely. */
module DmaRing {
  import opened Frames

  const RING: nat := 8
  const SPARE: nat := 8

  type Slot = i: nat | i < RING
  type Buffer = b: nat | b <= SPARE

  /** The contents of a packet buffer. */
  type Frame = f: Bytes | FullSize(f) witness BLANK

  datatype Address = Null | At(buffer: Buffer)

  datatype RxStatus = RxStatus(own: bool, es: bool, fs: bool, ls: bool, length: int)
  datatype RxDesc = RxDesc(status: RxStatus, rer: bool, address: Address)
  datatype TxStatus = TxStatus(own: bool, ter: bool, report: nat)
  datatype TxDesc = TxDesc(status: TxStatus, size: int, address: Address)

  /** A frame as the receive engine completed it, and as the transmit engine sent it. */
  datatype Arrival = Arrival(frame: Frame, status: RxStatus)
  datatype Departure = Departure(frame: Frame, size: int)

  /** What the driver made of a drained frame: the result of `PacketRxInterrupt`, which is -1
      for a frame that needs no answer, and the bytes left in the buffer. */
  datatype Outcome = Outcome(arrival: Arrival, next: int, reply: Frame)

  /** Which loop called `PacketDoneFromInterrupt`. */
  datatype Caller = FromRx | FromTx

  /** Where the interrupt code is, with its local variables. */
  datatype Pc =
    | Idle
    | RxTop
    | RxCheck(status: RxStatus)
    | RxHandle(slot: Slot, status: RxStatus)
    | RxDetach(slot: Slot, len: int)
    | Enqueue(pkt: Buffer, len: int)
    | EnqueueSize(slot: Slot, txStatus: TxStatus, pkt: Buffer, len: int)
    | EnqueueAddress(slot: Slot, txStatus: TxStatus, pkt: Buffer, len: int)
    | EnqueueOwn(slot: Slot, txStatus: TxStatus, pkt: Buffer, len: int)
    | Done(pkt: Buffer, caller: Caller)
    | DoneAddress(slot: Slot, pkt: Buffer, caller: Caller)
    | DoneOwn(slot: Slot, pkt: Buffer, caller: Caller)
    | ReapTop
    | ReapCheck
    | ReapClear

  /** The static variables of the driver, the memory of the pool, the positions of the two
      DMA engines, and the history of the run so far: the buffers handed to either engine in
      order, and the frames that arrived, were drained, were queued and departed. */
  datatype State = State(
    rx: seq<RxDesc>, tx: seq<TxDesc>, memory: seq<Frame>,
    receiveRd: Slot, receiveWr: Slot, transmitRd: Slot, transmitWr: Slot, inPool: int,
    pc: Pc, dmaRx: nat, dmaTx: nat,
    armed: seq<Buffer>, arrived: seq<Arrival>, drained: seq<Outcome>,
    queued: seq<Buffer>, outgoing: seq<Departure>, sent: seq<Departure>, reaped: nat)
  {
    predicate Shaped() {
      |rx| == RING && |tx| == RING && |memory| == SPARE + 1
    }
  }

  datatype Action =
    | StartRx
    | StartTx
    | Cpu
    | Handle(next: int, reply: Frame)
    | DmaReceive(frame: Frame, status: RxStatus)
    | DmaTransmit(report: nat)

  /** `PACKET_RING_INC`: add one under the mask of the ring length. */
  function Increment(i: Slot): Slot {
    if i == RING - 1 then 0 else i + 1
  }

  const RX_OWNED := RxStatus(true, false, false, false, 0)

  /** `EthernetInitializeDma`. */
  function Init(memory: seq<Frame>): State {
    State(
      seq(RING, i requires 0 <= i < RING => RxDesc(RX_OWNED, i == RING - 1, At(i))),
      seq(RING, i requires 0 <= i < RING => TxDesc(TxStatus(false, i == RING - 1, 0), 0, Null)),
      memory, 0, 0, 0, 0, SPARE, Idle, 0, 0,
      [0, 1, 2, 3, 4, 5, 6, 7], [], [], [], [], [], 0)
  }

  // ----- Steps of the interrupt code -----

  predicate Acceptable(status: RxStatus) {
    !status.es && status.fs && status.ls
  }

  function AfterDone(caller: Caller): Pc {
    match caller
    case FromRx => RxTop
    case FromTx => ReapClear
  }

  predicate CpuEnabled(s: State) {
    match s.pc
    case Idle => false
    case RxHandle(_, _) => false
    case RxDetach(slot, _) => s.Shaped() && s.rx[slot].address.At?
    case _ => s.Shaped()
  }

  /** The step at every program point but the two that involve a choice. */
  function CpuStep(s: State): State
    requires CpuEnabled(s)
  {
    match s.pc
    case RxTop =>
      var status := s.rx[s.receiveRd].status;
      s.(pc := if status.own then Idle else RxCheck(status))
    case RxCheck(status) =>
      if s.rx[s.receiveRd].address.Null? then s.(pc := Idle)
      else s.(receiveRd := Increment(s.receiveRd), pc := RxHandle(s.receiveRd, status))
    case RxDetach(slot, len) =>
      s.(rx := s.rx[slot := s.rx[slot].(address := Null)], pc := Enqueue(s.rx[slot].address.buffer, len))
    case Enqueue(pkt, len) =>
      var status := s.tx[s.transmitRd].status;
      if status.own then s.(pc := Done(pkt, FromRx))
      else s.(transmitRd := Increment(s.transmitRd), pc := EnqueueSize(s.transmitRd, status, pkt, len))
    case EnqueueSize(slot, status, pkt, len) =>
      s.(tx := s.tx[slot := s.tx[slot].(size := len)], pc := EnqueueAddress(slot, status, pkt, len))
    case EnqueueAddress(slot, status, pkt, len) =>
      s.(tx := s.tx[slot := s.tx[slot].(address := At(pkt))], pc := EnqueueOwn(slot, status, pkt, len))
    case EnqueueOwn(slot, status, pkt, len) =>
      s.(tx := s.tx[slot := s.tx[slot].(status := status.(own := true))],
         queued := s.queued + [pkt], outgoing := s.outgoing + [Departure(s.memory[pkt], len)], pc := RxTop)
    case Done(pkt, caller) =>
      if s.inPool < 0 then s.(inPool := pkt, pc := AfterDone(caller))
      else if s.rx[s.receiveWr].status.own then s.(pc := AfterDone(caller))
      else s.(receiveWr := Increment(s.receiveWr), pc := DoneAddress(s.receiveWr, pkt, caller))
    case DoneAddress(slot, pkt, caller) =>
      s.(rx := s.rx[slot := s.rx[slot].(address := At(pkt))], pc := DoneOwn(slot, pkt, caller))
    case DoneOwn(slot, pkt, caller) =>
      s.(rx := s.rx[slot := s.rx[slot].(status := RX_OWNED)],
         armed := s.armed + [pkt], pc := AfterDone(caller))
    case ReapTop =>
      s.(pc := if s.tx[s.transmitWr].status.own then Idle else ReapCheck)
    case ReapCheck =>
      match s.tx[s.transmitWr].address {
        case Null => s.(pc := Idle)
        case At(b) => s.(pc := Done(b, FromTx))
      }
    case ReapClear =>
      s.(tx := s.tx[s.transmitWr := s.tx[s.transmitWr].(address := Null)],
         transmitWr := Increment(s.transmitWr), reaped := s.reaped + 1, pc := ReapTop)
  }

  // ----- All steps -----

  /** The steps of the code, and what any engine could do that follows its ring: complete the
      next descriptor it owns. */
  predicate Possible(s: State, a: Action) {
    && s.Shaped()
    && match a
       case StartRx => s.pc == Idle
       case StartTx => s.pc == Idle
       case Cpu => CpuEnabled(s)
       case Handle(next, reply) =>
         && s.pc.RxHandle? && s.rx[s.pc.slot].address.At? && next >= -1
         && (!Acceptable(s.pc.status) ==> next == -1 && reply == s.memory[s.rx[s.pc.slot].address.buffer])
       case DmaReceive(_, status) =>
         s.dmaRx < RING && s.rx[s.dmaRx].status.own && s.rx[s.dmaRx].address.At? && !status.own
       case DmaTransmit(_) =>
         s.dmaTx < RING && s.tx[s.dmaTx].status.own && s.tx[s.dmaTx].address.At?
  }

  function Do(s: State, a: Action): State
    requires Possible(s, a)
  {
    match a
    case StartRx => s.(pc := RxTop)
    case StartTx => s.(pc := ReapTop)
    case Cpu => CpuStep(s)
    case Handle(next, reply) =>
      var slot, status := s.pc.slot, s.pc.status;
      var b := s.rx[slot].address.buffer;
      s.(memory := s.memory[b := reply],
         drained := s.drained + [Outcome(Arrival(s.memory[b], status), next, reply)],
         pc := if next >= 0 then RxDetach(slot, next) else Done(b, FromRx))
    case DmaReceive(frame, status) =>
      var d := s.rx[s.dmaRx];
      s.(memory := s.memory[d.address.buffer := frame],
         rx := s.rx[s.dmaRx := d.(status := status)],
         arrived := s.arrived + [Arrival(frame, status)],
         dmaRx := if d.rer then 0 else s.dmaRx + 1)
    case DmaTransmit(report) =>
      var d := s.tx[s.dmaTx];
      s.(tx := s.tx[s.dmaTx := d.(status := d.status.(own := false, report := report))],
         sent := s.sent + [Departure(s.memory[d.address.buffer], d.size)],
         dmaTx := if d.status.ter then 0 else s.dmaTx + 1)
  }

  /** A run from initialization: any interleaving of possible steps, with any engine that
      follows its rings. */
  ghost predicate Run(states: seq<State>, actions: seq<Action>) {
    && |states| == |actions| + 1
    && (exists memory :: |memory| == SPARE + 1 && states[0] == Init(memory))
    && forall i :: 0 <= i < |actions| ==>
         Possible(states[i], actions[i]) && states[i + 1] == Do(states[i], actions[i])
  }

  // ----- What can go wrong, and the hardware behaviour that excludes it -----

  /** A drain that has taken every frame goes on past the null check: the descriptor is stale,
      and what it takes next never arrived. */
  predicate Strays(s: State, a: Action) {
    s.Shaped() && a.Cpu? && s.pc.RxCheck? && |s.drained| == |s.arrived| && s.rx[s.receiveRd].address.At?
  }

  /** No step before the `n`-th strays. */
  ghost predicate Steady(states: seq<State>, actions: seq<Action>, n: nat)
    requires n <= |actions| < |states|
  {
    forall m :: 0 <= m < n ==> !Strays(states[m], actions[m])
  }

  /** What the hardware does as observed by the authors: the receive engine fills a descriptor
      only while it owns another one as well, so it never takes the last one. */
  predicate LeavesOne(s: State, a: Action) {
    s.Shaped() && (a.DmaReceive? ==> exists j: nat :: j < RING && j != s.dmaRx && s.rx[j].status.own)
  }

  ghost predicate Observed(states: seq<State>, actions: seq<Action>)
    requires |actions| < |states|
  {
    forall m :: 0 <= m < |actions| ==> LeavesOne(states[m], actions[m])
  }
}
