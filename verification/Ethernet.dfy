/** The interrupt code of the Ethernet driver over its rings, interleaved with the DMA engine,
    and calling the frame handler of `Prdk`.

    Every access to a descriptor is preceded by a call of `Dma`, which lets the engine complete
    any number of descriptors, and followed by a ghost record of the step of `DmaRing` that the
    access is. So whatever holds in every run of `DmaRing` holds between any two accesses
    here. */
module Ethernet {
  import opened DmaRing
  import opened Words
  import opened Frames
  import opened Chaskey
  import opened SysTick
  import opened Answers = Replies
  import opened ObservedEngine
  import opened Prdk
  import opened Service
  import opened RingSteps
  import opened RingTheorems

  /** What the engine will do next: complete a received frame, or a transmission. */
  datatype Event = Receive(frame: Frame, status: RxStatus) | Transmit(report: nat)

  class Driver {
    const rx: array<RxDesc>
    const tx: array<TxDesc>
    const memory: array<Frame>
    const responder: Responder
    var receiveRd: Slot
    var receiveWr: Slot
    var transmitRd: Slot
    var transmitWr: Slot
    var inPool: int

    // The engine: its positions in the rings, and what is still to happen on the wire.
    var dmaRx: nat
    var dmaTx: nat
    var wire: seq<Event>

    // The run of the buffer protocol so far, and its last state.
    ghost var states: seq<State>
    ghost var actions: seq<Action>
    ghost var now: State

    // What the generators delivered for each drained frame.
    ghost var streams: seq<Streams>

    ghost predicate Shows(s: State)
      reads this, rx, tx, memory
    {
      && rx[..] == s.rx && tx[..] == s.tx && memory[..] == s.memory
      && receiveRd == s.receiveRd && receiveWr == s.receiveWr
      && transmitRd == s.transmitRd && transmitWr == s.transmitWr && inPool == s.inPool
      && dmaRx == s.dmaRx && dmaTx == s.dmaTx
    }

    /** The driver is at the end of a run of the buffer protocol with the observed engine. */
    ghost predicate Valid()
      reads this, rx, tx, memory
    {
      && responder.Valid() && Lawful(states, actions, responder.own, streams) && now == states[|actions|]
      && now.Shaped() && Shows(now) && |streams| == |now.drained|
    }

    /** The run so far continues the run that `earlier` ended. */
    ghost predicate Continues(earlier: seq<State>)
      reads this
    {
      earlier <= states
    }

    /** `EthernetInitializeDma`. */
    constructor (pool: array<Frame>, responder: Responder, wire: seq<Event>)
      requires pool.Length == SPARE + 1 && responder.Valid()
      ensures Valid() && |states| == 1 && now.pc.Idle? && this.wire == wire && memory == pool
      ensures fresh(rx) && fresh(tx) && this.responder == responder
    {
      var noRx := RxDesc(RX_OWNED, false, Null);
      var noTx := TxDesc(TxStatus(false, false, 0), 0, Null);
      var t := new TxDesc[RING](_ => noTx);
      for i := 0 to RING
        invariant forall k :: 0 <= k < i ==> t[k] == TxDesc(TxStatus(false, false, 0), 0, Null)
      {
        t[i] := TxDesc(TxStatus(false, false, 0), 0, Null);
      }
      t[RING - 1] := t[RING - 1].(status := t[RING - 1].status.(ter := true));
      assert t[..] == Init(pool[..]).tx;
      var r := new RxDesc[RING](_ => noRx);
      for i := 0 to RING
        invariant t[..] == Init(pool[..]).tx
        invariant forall k: nat :: k < i ==> r[k] == RxDesc(RX_OWNED, false, At(k))
      {
        r[i] := RxDesc(RX_OWNED, false, At(i));
      }
      r[RING - 1] := r[RING - 1].(rer := true);
      assert r[..] == Init(pool[..]).rx;
      rx, tx, memory := r, t, pool;
      receiveRd, receiveWr, transmitRd, transmitWr := 0, 0, 0, 0;
      inPool := SPARE;
      dmaRx, dmaTx := 0, 0;
      this.wire := wire;
      this.responder := responder;
      streams := [];
      states, actions, now := [Init(pool[..])], [], Init(pool[..]);
      new;
      StartOfRun(pool[..]);
    }

    /** The concrete state has taken the step `a`. */
    ghost method Record(a: Action)
      requires responder.Valid() && Lawful(states, actions, responder.own, streams) && now == states[|actions|]
      requires Possible(now, a) && LeavesOne(now, a) && Shows(Do(now, a))
      requires Follows(now, a, responder.own, streams) && |streams| == |Do(now, a).drained|
      modifies `states, `actions, `now
      ensures Valid() && now == Do(old(now), a) && Continues(old(states))
    {
      LawfulExtends(states, actions, responder.own, streams, a);
      StepKeepsShape(now, a);
      states, actions, now := states + [Do(now, a)], actions + [a], Do(now, a);
    }

    // ----- The environment -----

    predicate Fillable()
      requires rx.Length == RING
      reads this, rx
    {
      && dmaRx < RING && rx[dmaRx].status.own && rx[dmaRx].address.At?
      && exists j :: 0 <= j < RING && j != dmaRx && rx[j].status.own
    }

    /** The engine completes any number of the next events on the wire, or none. An event it
        has no descriptor for is lost. */
    method Dma()
      requires Valid()
      modifies this`wire, this`dmaRx, this`dmaTx, this`states, this`actions, this`now, rx, tx, memory
      ensures Valid() && Continues(old(states)) && EngineOnly(old(now), now)
      ensures |wire| + |now.arrived| <= old(|wire| + |now.arrived|)
    {
      var stop := false;
      while wire != [] && !stop
        invariant Valid() && Continues(old(states)) && EngineOnly(old(now), now)
        invariant |wire| + |now.arrived| <= old(|wire| + |now.arrived|)
        decreases |wire|, !stop
      {
        stop := *;
        if !stop {
          DmaEvent();
        }
      }
    }

    method DmaEvent()
      requires Valid() && wire != []
      modifies this`wire, this`dmaRx, this`dmaTx, this`states, this`actions, this`now, rx, tx, memory
      ensures Valid() && Continues(old(states)) && EngineOnly(old(now), now)
      ensures |wire| < old(|wire|)
      ensures |wire| + |now.arrived| <= old(|wire| + |now.arrived|)
    {
      var event := wire[0];
      wire := wire[1..];
      match event
      case Receive(frame, status) =>
        if Fillable() && !status.own {
          FillDescriptor(frame, status);
        }
      case Transmit(report) =>
        if dmaTx < RING && tx[dmaTx].status.own && tx[dmaTx].address.At? {
          SendDescriptor(report);
        }
    }

    method FillDescriptor(frame: Frame, status: RxStatus)
      requires Valid() && Fillable() && !status.own
      modifies this`dmaRx, this`states, this`actions, this`now, rx, memory
      ensures Valid() && Continues(old(states)) && now == Do(old(now), DmaReceive(frame, status))
      ensures EngineOnly(old(now), now) && |now.arrived| == old(|now.arrived|) + 1
    {
      ghost var s := now;
      var i := dmaRx;
      assert LeavesOne(s, DmaReceive(frame, status));
      memory[rx[i].address.buffer] := frame;
      rx[i] := rx[i].(status := status);
      dmaRx := if rx[i].rer then 0 else i + 1;
      Record(DmaReceive(frame, status));
    }

    method SendDescriptor(report: nat)
      requires Valid() && dmaTx < RING && tx[dmaTx].status.own && tx[dmaTx].address.At?
      modifies this`dmaTx, this`states, this`actions, this`now, tx
      ensures Valid() && Continues(old(states)) && now == Do(old(now), DmaTransmit(report))
      ensures EngineOnly(old(now), now) && |now.arrived| == old(|now.arrived|)
    {
      var i := dmaTx;
      tx[i] := tx[i].(status := tx[i].status.(own := false, report := report));
      dmaTx := if tx[i].status.ter then 0 else i + 1;
      Record(DmaTransmit(report));
    }

    // ----- What holds between two accesses -----

    lemma NoDeadBranch()
      requires Valid()
      ensures now.inPool == SPARE
      ensures now.pc.Done? ==> !now.rx[now.receiveWr].status.own
      ensures now.pc.Enqueue? ==> !now.tx[now.transmitRd].status.own
      ensures now.pc.RxCheck? ==> now.rx[now.receiveRd].address.At?
      ensures now.pc.Idle? || CpuEnabled(now) || (now.pc.RxHandle? && now.rx[now.pc.slot].address.At?)
    {
      ObservedSteady(states, actions, |actions|);
      DeadBranches(states, actions, |actions|);
      AlwaysAStep(states, actions, |actions|);
      if now.pc.RxCheck? {
        NullExitDead(states, actions, |actions|);
      }
    }

    lemma LoopExits()
      requires Valid()
      ensures |now.drained| <= |now.arrived| && now.reaped <= |now.queued|
      ensures now.pc.RxTop? ==> (now.rx[now.receiveRd].status.own <==> |now.drained| == |now.arrived|)
      ensures now.pc.ReapTop? ==> (now.tx[now.transmitWr].status.own <==> now.reaped == |now.sent| < |now.queued|)
      ensures now.pc.ReapCheck? ==> (now.tx[now.transmitWr].address.Null? <==> now.reaped == |now.queued|)
      ensures now.pc.ReapCheck? ==> now.reaped <= |now.sent| <= |now.queued|
    {
      ObservedSteady(states, actions, |actions|);
      NeverAhead(states, actions, |actions|);
      if now.pc.RxTop? {
        DrainEndsCaughtUp(states, actions, |actions|);
      } else if now.pc.ReapTop? {
        ReapStopsCaughtUp(states, actions, |actions|);
      } else if now.pc.ReapCheck? {
        ReapEndsEmpty(states, actions, |actions|);
      }
    }

    // ----- Descriptor accesses of the interrupt code -----

    /** The frames that can still reach the drain: those on the wire and those already in. */
    ghost function Budget(): nat
      reads this
    {
      |wire| + |now.arrived|
    }

    /** The part of the history that only the named accesses change. */
    twostate predicate Quiet()
      reads this
    {
      && Continues(old(states)) && Budget() <= old(Budget())
      && now.drained == old(now).drained && now.reaped == old(now).reaped
    }

    // Receive: `EthernetRXInterrupt`.

    method ReadRxStatus() returns (status: RxStatus)
      requires Valid() && now.pc.RxTop?
      modifies this, rx, tx, memory
      ensures Valid() && Quiet() && now.pc == (if status.own then Idle else RxCheck(status))
      ensures status.own ==> |now.drained| == |now.arrived|
    {
      Dma();
      status := rx[receiveRd].status;
      LoopExits();
      Record(Cpu);
    }

    /** The descriptor has a buffer: the null-buffer exit is never taken. */
    method TakeRxSlot(status: RxStatus) returns (slot: Slot, taken: bool)
      requires Valid() && now.pc == RxCheck(status)
      modifies this, rx, tx, memory
      ensures Valid() && Quiet() && taken && now.pc == RxHandle(slot, status)
    {
      Dma();
      NoDeadBranch();
      slot := receiveRd;
      taken := rx[slot].address.At?;
      if taken {
        receiveRd := Increment(receiveRd);
      }
      Record(Cpu);
    }

    /** What the hardware generator and the clock are about to deliver. */
    static method Inputs() returns (random: seq<uint32>, clocks: seq<Reads>)
      ensures |random| == FILL_WORDS && |clocks| == FILL_BLOCKS
    {
      random, clocks := [], [];
      while |random| < FILL_WORDS
        invariant |random| <= FILL_WORDS
      {
        var word: uint32 := *;
        random := random + [word];
      }
      while |clocks| < FILL_BLOCKS
        invariant |clocks| <= FILL_BLOCKS
      {
        var clock: Reads := *;
        clocks := clocks + [clock];
      }
    }

    /** The frame handler on the contents of one buffer. */
    method Handle(buffer: Frame, len: int) returns (next: int, reply: Frame, ghost s: Streams)
      requires responder.Valid()
      modifies responder.prng.pcg`state
      ensures (reply, next) == Answer(buffer, responder.own, s)
    {
      var random, clocks := Inputs();
      var frame := new uint8[ETHER_MAX_LEN](i requires 0 <= i < ETHER_MAX_LEN => buffer[i]);
      assert frame[..] == buffer;
      s := responder.Ahead(random, clocks);
      next := responder.PacketRxInterrupt(frame, len, random, clocks);
      reply := frame[..];
    }

    /** Only a frame that came whole and without error is passed to the handler. */
    method Examine(buffer: Frame, status: RxStatus) returns (next: int, reply: Frame, ghost s: Streams)
      requires responder.Valid()
      modifies responder.prng.pcg`state
      ensures (reply, next) == if !status.es && status.fs && status.ls then Answer(buffer, responder.own, s)
                               else (buffer, PACKET_PROCESSED)
    {
      next, reply, s := PACKET_PROCESSED, buffer, Silent();
      var errorSummary, firstAndLastByte := status.es, status.fs && status.ls;
      if !errorSummary && firstAndLastByte {
        next, reply, s := Handle(buffer, status.length);
      }
    }

    method FrameAt(slot: Slot, status: RxStatus) returns (pkt: Buffer)
      requires Valid() && now.pc == RxHandle(slot, status)
      modifies this, rx, tx, memory
      ensures Valid() && Quiet() && now.pc == RxHandle(slot, status) && now.rx[slot].address == At(pkt)
      ensures streams == old(streams)
    {
      Dma();
      NoDeadBranch();
      pkt := rx[slot].address.buffer;
    }

    /** The frame is handled in its buffer; the drain has advanced by one frame. */
    method HandleFrame(slot: Slot, status: RxStatus) returns (next: int, pkt: Buffer)
      requires Valid() && now.pc == RxHandle(slot, status)
      modifies this, rx, tx, memory, responder.prng.pcg`state
      ensures Valid() && Continues(old(states)) && Budget() <= old(Budget()) && next >= PACKET_PROCESSED
      ensures |now.drained| == |old(now).drained| + 1 && now.reaped == old(now).reaped
      ensures now.pc == (if next >= 0 then RxDetach(slot, next) else Done(pkt, FromRx))
      ensures status.es || !status.fs || !status.ls ==> next == -1
      ensures var o := now.drained[|old(now).drained|];
              && o.arrival.status == status && o.next == next
              && (o.reply, next) == if !status.es && status.fs && status.ls
                                    then Answer(o.arrival.frame, responder.own, streams[|old(streams)|])
                                    else (o.arrival.frame, -1)
    {
      pkt := FrameAt(slot, status);
      var reply;
      ghost var s;
      next, reply, s := Examine(memory[pkt], status);
      memory[pkt] := reply;
      MoreStreams(states, actions, responder.own, streams, s);
      streams := streams + [s];
      Record(DmaRing.Handle(next, reply));
    }

    method DetachRx(slot: Slot, next: int) returns (pkt: Buffer)
      requires Valid() && now.pc == RxDetach(slot, next)
      modifies this, rx, tx, memory
      ensures Valid() && Quiet() && now.pc == Enqueue(pkt, next)
    {
      Dma();
      NoDeadBranch();
      pkt := rx[slot].address.buffer;
      rx[slot] := rx[slot].(address := Null);
      Record(Cpu);
    }

    // Transmit: `EnqueueTxFromInterrupt`.

    /** The descriptor is free: the transmit ring is never overrun. */
    method ClaimTxSlot(pkt: Buffer, len: int) returns (slot: Slot, status: TxStatus, free: bool)
      requires Valid() && now.pc == Enqueue(pkt, len)
      modifies this, rx, tx, memory
      ensures Valid() && Quiet() && now.queued == old(now).queued
      ensures free && now.pc == EnqueueSize(slot, status, pkt, len)
    {
      Dma();
      NoDeadBranch();
      slot := transmitRd;
      status := tx[slot].status;
      free := !status.own;
      if free {
        transmitRd := Increment(transmitRd);
      }
      Record(Cpu);
    }

    method WriteTxSize(slot: Slot, status: TxStatus, pkt: Buffer, len: int)
      requires Valid() && now.pc == EnqueueSize(slot, status, pkt, len)
      modifies this, rx, tx, memory
      ensures Valid() && Quiet() && now.queued == old(now).queued && now.pc == EnqueueAddress(slot, status, pkt, len)
    {
      Dma();
      tx[slot] := tx[slot].(size := len);
      Record(Cpu);
    }

    method WriteTxAddress(slot: Slot, status: TxStatus, pkt: Buffer, len: int)
      requires Valid() && now.pc == EnqueueAddress(slot, status, pkt, len)
      modifies this, rx, tx, memory
      ensures Valid() && Quiet() && now.queued == old(now).queued && now.pc == EnqueueOwn(slot, status, pkt, len)
    {
      Dma();
      tx[slot] := tx[slot].(address := At(pkt));
      Record(Cpu);
    }

    method PublishTx(slot: Slot, status: TxStatus, pkt: Buffer, len: int)
      requires Valid() && now.pc == EnqueueOwn(slot, status, pkt, len)
      modifies this, rx, tx, memory
      ensures Valid() && Quiet() && now.queued == old(now).queued + [pkt] && now.pc.RxTop?
    {
      Dma();
      tx[slot] := tx[slot].(status := status.(own := true));
      Record(Cpu);
    }

    /** The buffer is the next in the transmit ring. */
    method EnqueueTx(pkt: Buffer, len: int)
      requires Valid() && now.pc == Enqueue(pkt, len)
      modifies this, rx, tx, memory
      ensures Valid() && Quiet() && now.queued == old(now).queued + [pkt] && now.pc.RxTop?
    {
      var slot, status, free := ClaimTxSlot(pkt, len);
      if !free {
        assert false;
      }
      FillTx(slot, status, pkt, len);
    }

    method FillTx(slot: Slot, status: TxStatus, pkt: Buffer, len: int)
      requires Valid() && now.pc == EnqueueSize(slot, status, pkt, len)
      modifies this, rx, tx, memory
      ensures Valid() && Quiet() && now.queued == old(now).queued + [pkt] && now.pc.RxTop?
    {
      WriteTxSize(slot, status, pkt, len);
      WriteTxAddress(slot, status, pkt, len);
      PublishTx(slot, status, pkt, len);
    }

    // Recycling: `PacketDoneFromInterrupt`.

    method ReadRxSlot(pkt: Buffer, caller: Caller) returns (own: bool)
      requires Valid() && now.pc == Done(pkt, caller)
      modifies this, rx, tx, memory
      ensures Valid() && Quiet() && now.queued == old(now).queued && now.armed == old(now).armed
      ensures now.pc == Done(pkt, caller) && inPool == SPARE && own == rx[receiveWr].status.own == false
    {
      Dma();
      NoDeadBranch();
      own := rx[receiveWr].status.own;
    }

    /** There is a free descriptor: no buffer leaks. */
    method ClaimRxSlot(pkt: Buffer, caller: Caller) returns (slot: Slot, free: bool)
      requires Valid() && now.pc == Done(pkt, caller)
      modifies this, rx, tx, memory
      ensures Valid() && Quiet() && now.queued == old(now).queued
      ensures free && now.pc == DoneAddress(slot, pkt, caller) && now.armed == old(now).armed
    {
      var own := ReadRxSlot(pkt, caller);
      slot := receiveWr;
      free := inPool >= 0 && !own;
      inPool := if inPool < 0 then pkt else inPool;
      if free {
        receiveWr := Increment(receiveWr);
      }
      Record(Cpu);
    }

    method WriteRxAddress(slot: Slot, pkt: Buffer, caller: Caller)
      requires Valid() && now.pc == DoneAddress(slot, pkt, caller)
      modifies this, rx, tx, memory
      ensures Valid() && Quiet() && now.queued == old(now).queued
      ensures now.pc == DoneOwn(slot, pkt, caller) && now.armed == old(now).armed
    {
      Dma();
      rx[slot] := rx[slot].(address := At(pkt));
      Record(Cpu);
    }

    method PublishRx(slot: Slot, pkt: Buffer, caller: Caller)
      requires Valid() && now.pc == DoneOwn(slot, pkt, caller)
      modifies this, rx, tx, memory
      ensures Valid() && Quiet() && now.queued == old(now).queued
      ensures now.pc == AfterDone(caller) && now.armed == old(now).armed + [pkt]
    {
      Dma();
      rx[slot] := rx[slot].(status := RX_OWNED);
      Record(Cpu);
    }

    /** The buffer is the last in the receive ring. */
    method PacketDone(pkt: Buffer, caller: Caller)
      requires Valid() && now.pc == Done(pkt, caller)
      modifies this, rx, tx, memory
      ensures Valid() && Quiet() && now.queued == old(now).queued
      ensures now.pc == AfterDone(caller) && now.armed == old(now).armed + [pkt]
    {
      var slot, free := ClaimRxSlot(pkt, caller);
      if !free {
        assert false;
      }
      ArmRx(slot, pkt, caller);
    }

    method ArmRx(slot: Slot, pkt: Buffer, caller: Caller)
      requires Valid() && now.pc == DoneAddress(slot, pkt, caller)
      modifies this, rx, tx, memory
      ensures Valid() && Quiet() && now.queued == old(now).queued
      ensures now.pc == AfterDone(caller) && now.armed == old(now).armed + [pkt]
    {
      WriteRxAddress(slot, pkt, caller);
      PublishRx(slot, pkt, caller);
    }

    // Reaping: `EthernetTXInterrupt`.

    method ReadTxStatus() returns (own: bool)
      requires Valid() && now.pc.ReapTop?
      modifies this, rx, tx, memory
      ensures Valid() && Quiet() && now.pc == (if own then Idle else ReapCheck)
      ensures now.queued == old(now).queued && (own ==> now.reaped == |now.sent| < |now.queued|)
    {
      Dma();
      own := tx[transmitWr].status.own;
      LoopExits();
      Record(Cpu);
    }

    /** The exit on a null buffer is the regular one: everything queued has been reaped. */
    method TakeTxBuffer() returns (address: Address)
      requires Valid() && now.pc.ReapCheck?
      modifies this, rx, tx, memory
      ensures Valid() && Quiet() && now.queued == old(now).queued
      ensures now.pc == (match address case Null => Idle case At(b) => Done(b, FromTx))
      ensures address.Null? <==> now.reaped == |now.queued|
      ensures address.Null? ==> now.reaped == |now.sent|
      ensures now.reaped <= |now.queued|
    {
      Dma();
      address := tx[transmitWr].address;
      LoopExits();
      Record(Cpu);
    }

    method ClearTx()
      requires Valid() && now.pc.ReapClear?
      modifies this, rx, tx, memory
      ensures Valid() && Continues(old(states))
      ensures now.pc.ReapTop? && now.reaped == old(now).reaped + 1
      ensures now.drained == old(now).drained && now.queued == old(now).queued
    {
      Dma();
      tx[transmitWr] := tx[transmitWr].(address := Null);
      transmitWr := Increment(transmitWr);
      Record(Cpu);
    }

    // The handlers.

    /** One round of the drain, from a descriptor that the engine has completed. */
    method DrainFrame(status: RxStatus)
      requires Valid() && now.pc == RxCheck(status)
      modifies this, rx, tx, memory, responder.prng.pcg`state
      ensures Valid() && Continues(old(states)) && now.pc.RxTop?
      ensures Budget() <= old(Budget()) && now.reaped == old(now).reaped
      ensures |now.drained| == |old(now).drained| + 1
    {
      var slot, next, pkt := TakeFrame(status);
      if next >= 0 {
        Reply(slot, next);
      } else {
        PacketDone(pkt, FromRx);
      }
    }

    method TakeFrame(status: RxStatus) returns (slot: Slot, next: int, pkt: Buffer)
      requires Valid() && now.pc == RxCheck(status)
      modifies this, rx, tx, memory, responder.prng.pcg`state
      ensures Valid() && Continues(old(states)) && next >= PACKET_PROCESSED
      ensures Budget() <= old(Budget()) && now.reaped == old(now).reaped
      ensures |now.drained| == |old(now).drained| + 1
      ensures now.pc == (if next >= 0 then RxDetach(slot, next) else Done(pkt, FromRx))
    {
      var taken;
      slot, taken := TakeRxSlot(status);
      if !taken {
        assert false;
      }
      next, pkt := HandleFrame(slot, status);
    }

    method Reply(slot: Slot, next: int)
      requires Valid() && now.pc == RxDetach(slot, next)
      modifies this, rx, tx, memory
      ensures Valid() && Quiet() && now.pc.RxTop?
    {
      var pkt := DetachRx(slot, next);
      EnqueueTx(pkt, next);
    }

    /** `EthernetRXInterrupt`: the drain takes every frame completed before it returns, each
        once and in order, and no other: those that were waiting and those that arrive while it
        runs. What has been queued are exactly the answers to them. */
    method RxInterrupt() returns (ghost frames: nat)
      requires Valid() && now.pc.Idle?
      modifies this, rx, tx, memory, responder.prng.pcg`state
      ensures Valid() && Continues(old(states)) && now.pc.Idle?
      ensures |now.drained| == |old(now).drained| + frames
      ensures Arrivals(now.drained) == now.arrived && |streams| == |now.arrived|
      ensures now.outgoing == AnswersTo(now.arrived, responder.own, streams)
      ensures Budget() <= old(Budget()) && now.reaped == old(now).reaped
    {
      Record(StartRx);
      frames := 0;
      LoopExits();
      while true
        invariant Valid() && Continues(old(states)) && now.pc.RxTop?
        invariant |now.drained| == |old(now).drained| + frames <= Budget() <= old(Budget())
        invariant now.reaped == old(now).reaped
        decreases Budget() - |now.drained|
      {
        var status := ReadRxStatus();
        if status.own {
          AllTaken();
          return;
        }
        DrainFrame(status);
        frames := frames + 1;
        LoopExits();
      }
    }

    lemma AllTaken()
      requires Valid() && now.pc.Idle? && |now.drained| == |now.arrived|
      ensures Arrivals(now.drained) == now.arrived && |streams| == |now.arrived|
      ensures now.outgoing == AnswersTo(now.arrived, responder.own, streams)
    {
      ObservedSteady(states, actions, |actions|);
      ObservedExact(states, actions, |actions|);
      SendsAnswers(states, actions, |actions|, responder.own, streams);
      assert now.outgoing + [] == now.outgoing && now.arrived[..|now.drained|] == now.arrived;
    }

    /** One round of the reap: a buffer is recycled, or the reap is over. */
    method ReapRound() returns (more: bool)
      requires Valid() && now.pc.ReapTop?
      modifies this, rx, tx, memory
      ensures Valid() && Continues(old(states))
      ensures now.queued == old(now).queued && now.drained == old(now).drained
      ensures now.reaped == old(now).reaped + (if more then 1 else 0) <= |now.queued|
      ensures if more then now.pc.ReapTop? else now.pc.Idle? && now.reaped == |now.sent|
    {
      var own := ReadTxStatus();
      if own {
        return false;
      }
      var address := TakeTxBuffer();
      if address.Null? {
        return false;
      }
      PacketDone(address.buffer, FromTx);
      ClearTx();
      return true;
    }

    /** `EthernetTXInterrupt`: the reap recycles every buffer sent before it returns, in at
        most as many iterations as buffers were outstanding. */
    method TxInterrupt() returns (ghost buffers: nat)
      requires Valid() && now.pc.Idle?
      modifies this, rx, tx, memory
      ensures Valid() && Continues(old(states)) && now.pc.Idle?
      ensures now.reaped == |now.sent| == old(now).reaped + buffers
      ensures buffers <= |old(now).queued| - old(now).reaped
      ensures now.queued == old(now).queued && now.drained == old(now).drained
    {
      Record(StartTx);
      buffers := 0;
      LoopExits();
      while true
        invariant Valid() && Continues(old(states)) && now.pc.ReapTop?
        invariant now.reaped == old(now).reaped + buffers <= |old(now).queued|
        invariant now.queued == old(now).queued && now.drained == old(now).drained
        decreases |now.queued| - now.reaped
      {
        var more := ReapRound();
        if !more {
          return;
        }
        buffers := buffers + 1;
      }
    }

    /** Nothing that had arrived or was sent is forgotten. */
    twostate lemma Grown()
      requires old(Valid()) && Valid() && Continues(old(states))
      ensures |old(now).arrived| <= |now.arrived| && |old(now).sent| <= |now.sent|
      ensures |old(now).drained| <= |now.drained| && old(now).reaped <= now.reaped
    {
      CountsGrow(states, actions, |old(states)| - 1, |states| - 1);
    }

    /** The part of `ETH_IRQHandler` that serves the rings: one call takes every frame and
        recycles every buffer that was complete when it began. */
    method Irq(receive: bool, send: bool)
      requires Valid() && now.pc.Idle?
      modifies this, rx, tx, memory, responder.prng.pcg`state
      ensures Valid() && Continues(old(states)) && now.pc.Idle?
      ensures receive ==> |old(now).arrived| <= |now.drained|
      ensures send ==> |old(now).sent| <= now.reaped
    {
      if receive {
        ghost var frames := RxInterrupt();
        Grown();
      }
      if send {
        ghost var buffers := TxInterrupt();
        Grown();
      }
    }
  }

  /** For a frame that is not handled. */
  ghost function Silent(): Streams {
    Streams((k: nat) => 0, (k: nat) => 0, (k: nat) => 0, (k: nat) => Block(0, 0, 0, 0))
  }

  /** What the engine cannot change: where the interrupt code is and what it has done. */
  ghost predicate EngineOnly(s: State, t: State) {
    && t.pc == s.pc && t.receiveRd == s.receiveRd && t.receiveWr == s.receiveWr
    && t.transmitRd == s.transmitRd && t.transmitWr == s.transmitWr && t.inPool == s.inPool
    && t.armed == s.armed && t.drained == s.drained && t.queued == s.queued
    && t.outgoing == s.outgoing && t.reaped == s.reaped
    && s.arrived <= t.arrived && s.sent <= t.sent
  }
}
