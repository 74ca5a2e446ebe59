/** What the invariant means for the driver: statements about every state of every run in which
    no step has strayed, with any engine. `StaleAddresses` says exactly which runs these are,
    `ObservedEngine` that the observed hardware produces no others. */
module RingTheorems {
  import opened Counting
  import opened DmaRing
  import opened RingInvariant
  import opened RingSteps

  // ----- Ownership -----

  ghost predicate InReceiveRing(s: State, b: Buffer)
    requires |s.drained| <= |s.armed|
  {
    b in s.armed[|s.drained|..]
  }

  ghost predicate InTransmitRing(s: State, b: Buffer)
    requires ReapedTo(s) <= |s.queued|
  {
    b in s.queued[ReapedTo(s)..]
  }

  /** Each of the nine buffers is in exactly one place: the receive live window, the transmit
      live window, the hands of the interrupt code, or the pool. */
  lemma OwnershipPartition(states: seq<State>, actions: seq<Action>, n: nat, b: Buffer)
    requires Run(states, actions) && n < |states| && Steady(states, actions, n)
    ensures var s := states[n];
            && |s.drained| <= |s.armed| && ReapedTo(s) <= |s.queued|
            && (InReceiveRing(s, b) || InTransmitRing(s, b) || b in Hand(s) || b == SPARE)
            && !(InReceiveRing(s, b) && InTransmitRing(s, b))
            && !(InReceiveRing(s, b) && b in Hand(s)) && !(InTransmitRing(s, b) && b in Hand(s))
            && !((InReceiveRing(s, b) || InTransmitRing(s, b) || b in Hand(s)) && b == SPARE)
            && Distinct(s.armed[|s.drained|..]) && Distinct(s.queued[ReapedTo(s)..])
  {
    var s := states[n];
    RunInv(states, actions, n);
    var x, y, h := s.armed[|s.drained|..], s.queued[ReapedTo(s)..], Hand(s);
    CirculatingDistinct(s);
    ConcatDistinct(x + y, h);
    ConcatDistinct(x, y);
    CirculatingHas(s, b);
  }

  lemma RxPosition(s: State, i: Slot) returns (k: nat)
    requires Inv(s)
    ensures |s.drained| <= k < |s.drained| + RING && SlotOf(k) == i
    ensures s.rx[i].status.own <==> |s.arrived| <= k < |s.armed|
    ensures s.rx[i].status.own ==> s.rx[i].address == At(s.armed[k])
  {
    k := PositionOf(i, |s.drained|);
    assert s.rx[SlotOf(k)] == s.rx[i];
  }

  lemma TxPosition(s: State, i: Slot) returns (k: nat)
    requires Inv(s)
    ensures s.reaped <= k < s.reaped + RING && SlotOf(k) == i
    ensures s.tx[i].status.own <==> |s.sent| <= k < |s.queued|
    ensures s.tx[i].status.own ==> s.tx[i].address == At(s.queued[k])
  {
    k := PositionOf(i, s.reaped);
    assert s.tx[SlotOf(k)] == s.tx[i];
  }

  /** A descriptor is published complete: at every interleaving, whatever the engines own has
      a buffer. */
  lemma OwnedHasBuffer(states: seq<State>, actions: seq<Action>, n: nat, i: Slot)
    requires Run(states, actions) && n < |states| && Steady(states, actions, n)
    ensures var s := states[n];
            && s.Shaped()
            && (s.rx[i].status.own ==> s.rx[i].address.At?) && (s.tx[i].status.own ==> s.tx[i].address.At?)
  {
    RunInv(states, actions, n);
    var k := RxPosition(states[n], i);
    var l := TxPosition(states[n], i);
  }

  lemma OwnedApart(s: State, i: Slot, j: Slot)
    requires Inv(s) && i != j
    ensures s.rx[i].status.own && s.rx[j].status.own ==> s.rx[i].address != s.rx[j].address
    ensures s.tx[i].status.own && s.tx[j].status.own ==> s.tx[i].address != s.tx[j].address
  {
    WindowsDisjoint(s);
    var k := RxPosition(s, i);
    var k' := RxPosition(s, j);
    var l := TxPosition(s, i);
    var l' := TxPosition(s, j);
  }

  lemma RingsApart(s: State, i: Slot, j: Slot)
    requires Inv(s)
    ensures s.rx[i].status.own && s.tx[j].status.own ==> s.rx[i].address != s.tx[j].address
  {
    WindowsDisjoint(s);
    var k := RxPosition(s, i);
    var l := TxPosition(s, j);
  }

  /** No buffer is named by two descriptors that the engines own, although the receive ring
      keeps stale addresses in descriptors of the CPU. */
  lemma NoSharedBuffer(states: seq<State>, actions: seq<Action>, n: nat, i: Slot, j: Slot)
    requires Run(states, actions) && n < |states| && Steady(states, actions, n)
    ensures var s := states[n];
            && s.Shaped()
            && (i != j && s.rx[i].status.own && s.rx[j].status.own ==> s.rx[i].address != s.rx[j].address)
            && (i != j && s.tx[i].status.own && s.tx[j].status.own ==> s.tx[i].address != s.tx[j].address)
            && (s.rx[i].status.own && s.tx[j].status.own ==> s.rx[i].address != s.tx[j].address)
  {
    RunInv(states, actions, n);
    RingsApart(states[n], i, j);
    if i != j {
      OwnedApart(states[n], i, j);
    }
  }

  // ----- Branches that never run -----

  /** "PacketBuffer leaks", the transmit queue overrun and the empty pool are unreachable; the
      spare buffer never enters a ring. */
  lemma DeadBranches(states: seq<State>, actions: seq<Action>, n: nat)
    requires Run(states, actions) && n < |states| && Steady(states, actions, n)
    ensures var s := states[n];
            && s.Shaped() && s.inPool == SPARE
            && (s.pc.Done? ==> !s.rx[s.receiveWr].status.own)
            && (s.pc.Enqueue? ==> !s.tx[s.transmitRd].status.own)
  {
    var s := states[n];
    RunInv(states, actions, n);
    WindowSizes(s);
    if s.pc.Done? {
      assert |s.armed| < |s.drained| + RING;
      assert !s.rx[SlotOf(|s.armed|)].status.own;
    }
    if s.pc.Enqueue? {
      assert !s.tx[SlotOf(|s.queued|)].status.own;
    }
  }

  /** The interrupt code never gets stuck on a bad pointer: while it runs, its next step is
      possible, whatever `PacketRxInterrupt` returns. */
  lemma AlwaysAStep(states: seq<State>, actions: seq<Action>, n: nat)
    requires Run(states, actions) && n < |states| && Steady(states, actions, n)
    ensures var s := states[n];
            s.pc.Idle? || CpuEnabled(s) || (s.pc.RxHandle? && s.Shaped() && s.rx[s.pc.slot].address.At?)
  {
    var s := states[n];
    RunInv(states, actions, n);
    if s.pc.RxHandle? {
      assert s.rx[SlotOf(|s.drained|)].address == At(s.armed[|s.drained|]);
    }
  }

  // ----- Exactly-once, in-order service -----

  function Arrivals(outcomes: seq<Outcome>): (r: seq<Arrival>)
    ensures |r| == |outcomes| && forall i :: 0 <= i < |r| ==> r[i] == outcomes[i].arrival
  {
    seq(|outcomes|, i requires 0 <= i < |outcomes| => outcomes[i].arrival)
  }

  /** The frame that the interrupt code is handling is the next arrival, as it arrived. */
  ghost predicate HandlesArrival(s: State)
    requires s.Shaped()
  {
    match s.pc
    case RxHandle(slot, status) =>
      && s.rx[slot].address.At? && |s.drained| < |s.arrived|
      && s.arrived[|s.drained|] == Arrival(s.memory[s.rx[slot].address.buffer], status)
    case _ => true
  }

  /** The drained frames are the first arrivals, each once and in order; the replies to them
      are sent, queued or about to be queued, each once and in order, and what has been sent is
      what `PacketRxInterrupt` left in the buffer. */
  ghost predicate Exact(s: State) {
    && s.Shaped()
    && Arrivals(s.drained) <= s.arrived && HandlesArrival(s)
    && s.sent <= s.outgoing && s.outgoing + PendingReply(s) == Replies(s.drained)
  }

  lemma ExactlyOnceInOrder(states: seq<State>, actions: seq<Action>, n: nat)
    requires Run(states, actions) && n < |states| && Steady(states, actions, n)
    ensures Exact(states[n])
  {
    var s := states[n];
    RunInv(states, actions, n);
    if s.pc.RxHandle? {
      assert s.rx[SlotOf(|s.drained|)].address == At(s.armed[|s.drained|]);
    }
  }

  /** Service is exact as long as no step strays, and no longer: this holds of every run with
      any engine. */
  lemma ExactIffSteady(states: seq<State>, actions: seq<Action>, n: nat)
    requires Run(states, actions) && n < |states|
    ensures (forall m :: 0 <= m <= n ==> Exact(states[m])) <==> Steady(states, actions, n)
  {
    if Steady(states, actions, n) {
      forall m | 0 <= m <= n ensures Exact(states[m]) {
        ExactlyOnceInOrder(states, actions, m);
      }
    } else {
      var m :| 0 <= m < n && Strays(states[m], actions[m]);
      assert !HandlesArrival(states[m + 1]);
    }
  }

  /** Nothing is left over once the handlers have returned and the engines have nothing of the
      CPU's to do: all arrivals were drained, and exactly the replies were sent. */
  lemma AllServed(states: seq<State>, actions: seq<Action>, n: nat)
    requires Run(states, actions) && n < |states| && Steady(states, actions, n)
    requires states[n].pc.Idle? && states[n].Shaped()
    requires states[n].rx[states[n].receiveRd].status.own
    requires forall i: Slot :: !states[n].tx[i].status.own
    ensures Arrivals(states[n].drained) == states[n].arrived
    ensures states[n].sent == Replies(states[n].drained)
  {
    var s := states[n];
    RunInv(states, actions, n);
    WindowSizes(s);
    assert s.rx[SlotOf(|s.drained|)].status.own;
    assert s.tx[SlotOf(|s.sent|)].status.own == (|s.sent| < |s.queued|);
    assert s.outgoing + [] == s.outgoing;
    assert s.outgoing[..|s.outgoing|] == s.outgoing;
  }

  // ----- Cursors -----

  lemma SlotDistance(k: nat, l: nat, d: nat)
    requires k == l + d || k + RING == l + d
    ensures (SlotOf(k) - SlotOf(l)) % 8 == d % 8
  {
  }

  lemma DistanceApart(s: State)
    requires Inv(s) && s.pc.Idle?
    ensures s.receiveRd == SlotOf(|s.drained|) && s.receiveWr == SlotOf(|s.armed|)
    ensures s.transmitRd == SlotOf(|s.queued|) && s.transmitWr == SlotOf(s.reaped)
    ensures |s.armed| - |s.drained| + |s.queued| - s.reaped == RING
  {
    WindowSizes(s);
  }

  /** Between handler runs the two pairs of cursors are in lockstep: their distances agree
      modulo 8, with the number of buffers outstanding in the transmit ring. */
  lemma CursorLockstep(states: seq<State>, actions: seq<Action>, n: nat)
    requires Run(states, actions) && n < |states| && Steady(states, actions, n) && states[n].pc.Idle?
    ensures var s := states[n];
            && s.reaped <= |s.queued| <= s.reaped + RING
            && (s.receiveRd - s.receiveWr) % 8 == (|s.queued| - s.reaped) % 8
            && (s.transmitRd - s.transmitWr) % 8 == (|s.queued| - s.reaped) % 8
  {
    var s := states[n];
    RunInv(states, actions, n);
    DistanceApart(s);
    SlotDistance(|s.drained|, |s.armed|, |s.queued| - s.reaped);
    SlotDistance(|s.queued|, s.reaped, |s.queued| - s.reaped);
  }

  /** The end-of-ring flags stay on the last descriptors, so that the walk of the engines,
      which follows the flags, is the masked increment. */
  lemma EngineWalk(states: seq<State>, actions: seq<Action>, n: nat, i: Slot)
    requires Run(states, actions) && n < |states| && Steady(states, actions, n)
    ensures var s := states[n];
            && s.Shaped()
            && (s.rx[i].rer <==> i == RING - 1) && (s.tx[i].status.ter <==> i == RING - 1)
            && s.dmaRx == |s.arrived| % 8 && s.dmaTx == |s.sent| % 8
  {
    RunInv(states, actions, n);
  }

  // ----- Exits of the loops -----

  /** The drain meets a descriptor of the engine exactly when it has taken every completed
      frame and the engine has buffers left. */
  lemma DrainEndsCaughtUp(states: seq<State>, actions: seq<Action>, n: nat)
    requires Run(states, actions) && n < |states| && Steady(states, actions, n) && states[n].pc.RxTop?
    ensures var s := states[n];
            s.Shaped() && (s.rx[s.receiveRd].status.own <==> |s.drained| == |s.arrived| < |s.armed|)
  {
    var s := states[n];
    RunInv(states, actions, n);
    WindowSizes(s);
    assert s.rx[SlotOf(|s.drained|)].status.own == (|s.arrived| <= |s.drained| < |s.armed|);
  }

  /** The reap stops at a descriptor of the engine only when it has taken every buffer sent. */
  lemma ReapStopsCaughtUp(states: seq<State>, actions: seq<Action>, n: nat)
    requires Run(states, actions) && n < |states| && Steady(states, actions, n) && states[n].pc.ReapTop?
    ensures var s := states[n];
            s.Shaped() && (s.tx[s.transmitWr].status.own <==> s.reaped == |s.sent| < |s.queued|)
  {
    var s := states[n];
    RunInv(states, actions, n);
    WindowSizes(s);
    assert s.tx[SlotOf(s.reaped)].status.own == (|s.sent| <= s.reaped < |s.queued|);
  }

  /** The reap meets an empty descriptor only when it has reaped everything queued. */
  lemma ReapEndsEmpty(states: seq<State>, actions: seq<Action>, n: nat)
    requires Run(states, actions) && n < |states| && Steady(states, actions, n) && states[n].pc.ReapCheck?
    ensures var s := states[n];
            s.Shaped() && s.reaped <= |s.queued| && (s.tx[s.transmitWr].address.Null? <==> s.reaped == |s.queued|)
            && s.reaped <= |s.sent| <= |s.queued|
  {
    var s := states[n];
    RunInv(states, actions, n);
    WindowSizes(s);
    assert s.reaped < |s.queued| ==> s.tx[SlotOf(s.reaped)].address == At(s.queued[s.reaped]);
    assert s.reaped == |s.queued| ==> s.tx[SlotOf(s.reaped)].address == Null;
  }

  ghost predicate Grows(s: State, t: State) {
    && |s.arrived| <= |t.arrived| && |s.sent| <= |t.sent|
    && |s.drained| <= |t.drained| && s.reaped <= t.reaped
  }

  lemma StepGrows(s: State, a: Action)
    requires Possible(s, a)
    ensures Grows(s, Do(s, a))
  {
  }

  lemma RunGrows(states: seq<State>, actions: seq<Action>, n: nat)
    requires Run(states, actions) && n < |actions|
    ensures Grows(states[n], states[n + 1])
  {
    StepGrows(states[n], actions[n]);
  }

  lemma {:induction false} CountsGrow(states: seq<State>, actions: seq<Action>, m: nat, n: nat)
    requires Run(states, actions) && m <= n < |states|
    ensures Grows(states[m], states[n])
    decreases n
  {
    if m < n {
      CountsGrow(states, actions, m, n - 1);
      RunGrows(states, actions, n - 1);
    }
  }

  /** The drain never overtakes the engine, nor the reap the queue. */
  lemma NeverAhead(states: seq<State>, actions: seq<Action>, n: nat)
    requires Run(states, actions) && n < |states| && Steady(states, actions, n)
    ensures |states[n].drained| <= |states[n].arrived| && states[n].reaped <= |states[n].queued|
    ensures states[n].pc.ReapClear? ==> states[n].reaped < |states[n].queued|
  {
    RunInv(states, actions, n);
  }
}
