/** The addresses that drained descriptors keep: what the free part of the receive ring holds
    in every run, and when a drain goes astray. */
module StaleAddresses {
  import opened DmaRing
  import opened RingInvariant
  import opened RingSteps
  import opened RingTheorems

  /** What the descriptor at the free receive position `k` names. It was drained eight positions
      earlier; if that frame was answered its buffer has been detached, and if it was not, the
      address is still there. The last drained one may be about to be detached, the first free
      one about to be armed. */
  function FreeAddress(s: State, k: nat): Address
    requires RING <= |s.armed| <= k < |s.drained| + RING && |s.drained| <= |s.armed|
  {
    if s.pc.DoneOwn? && k == |s.armed| then At(s.pc.pkt)
    else if s.drained[k - RING].next >= 0 && !(s.pc.RxDetach? && k - RING == |s.drained| - 1) then Null
    else At(s.armed[k - RING])
  }

  ghost predicate FreeAgrees(s: State)
    requires s.Shaped() && Ordered(s)
  {
    && RING <= |s.armed| && (s.pc.RxDetach? ==> 0 < |s.drained| && s.drained[|s.drained| - 1].next >= 0)
    && (forall j :: 0 <= j < |s.armed| ==> s.armed[j] < SPARE)
    && (forall k: nat {:trigger s.rx[SlotOf(k)]} :: |s.armed| <= k < |s.drained| + RING ==>
          s.rx[SlotOf(k)].address == FreeAddress(s, k))
  }

  // ----- Every step keeps it -----

  /** What the steps below use of the invariant. */
  ghost predicate Fits(s: State) {
    s.Shaped() && Ordered(s) && |s.armed| + |Hand(s)| <= |s.drained| + RING
  }

  lemma InvFits(s: State)
    requires Inv(s)
    ensures Fits(s)
  {
    WindowSizes(s);
  }

  lemma HandleFree(s: State, a: Action)
    requires Fits(s) && FreeAgrees(s) && Possible(s, a) && a.Handle? && Fits(Do(s, a)) && |s.drained| < |s.armed|
    requires s.rx[SlotOf(|s.drained|)].address == At(s.armed[|s.drained|])
    ensures FreeAgrees(Do(s, a))
  {
    NextSlot(|s.drained|);
  }

  lemma DetachFree(s: State)
    requires Fits(s) && FreeAgrees(s) && s.pc.RxDetach? && CpuEnabled(s) && Ordered(CpuStep(s))
    requires 0 < |s.drained| && s.pc.slot == SlotOf(|s.drained| - 1) && |s.armed| < |s.drained| + RING
    ensures FreeAgrees(CpuStep(s))
  {
    var t, last: nat := CpuStep(s), |s.drained| - 1 + RING;
    NextSlot(|s.drained| - 1);
    WindowSlots(|s.drained|);
    forall k: nat | |t.armed| <= k < |t.drained| + RING ensures t.rx[SlotOf(k)].address == FreeAddress(t, k) {
      assert s.rx[SlotOf(k)].address == FreeAddress(s, k);
      if k != last {
        assert SlotOf(k) != SlotOf(last);
      }
    }
  }

  lemma DoneAddressFree(s: State)
    requires Fits(s) && FreeAgrees(s) && s.pc.DoneAddress? && s.pc.slot == SlotOf(|s.armed|)
    ensures FreeAgrees(CpuStep(s))
  {
    WindowSlots(|s.armed|);
  }

  lemma DoneOwnFree(s: State)
    requires Fits(s) && FreeAgrees(s) && s.pc.DoneOwn? && s.pc.slot == SlotOf(|s.armed|) && s.pc.pkt < SPARE
    ensures Ordered(CpuStep(s)) ==> FreeAgrees(CpuStep(s))
  {
    WindowSlots(|s.armed|);
  }

  lemma ArmedIsCirculating(s: State)
    requires Inv(s) && s.pc.DoneOwn?
    ensures s.pc.pkt < SPARE
  {
    CirculatingDistinct(s);
    if s.pc.caller.FromRx? {
      assert s.pc.pkt in Hand(s);
      assert s.pc.pkt in Circulating(s);
    } else {
      assert s.queued[s.reaped..][0] == s.pc.pkt;
      assert s.pc.pkt in Circulating(s);
    }
  }

  /** The steps that neither drain, nor arm, nor write an address of the receive ring. */
  lemma OtherFree(s: State, t: State)
    requires Fits(s) && FreeAgrees(s) && t.Shaped() && Ordered(t)
    requires t.armed == s.armed && t.drained == s.drained
    requires forall i: Slot :: t.rx[i].address == s.rx[i].address
    requires t.pc.DoneOwn? || s.pc.DoneOwn? || t.pc.RxDetach? || s.pc.RxDetach? ==> t.pc == s.pc
    ensures FreeAgrees(t)
  {
  }

  lemma OtherStep(s: State, a: Action)
    requires Possible(s, a) && !a.Handle?
    requires a.Cpu? ==> !s.pc.RxDetach? && !s.pc.DoneAddress? && !s.pc.DoneOwn?
    ensures var t := Do(s, a);
            && t.Shaped() && t.armed == s.armed && t.drained == s.drained
            && (forall i: Slot :: t.rx[i].address == s.rx[i].address)
            && (t.pc.DoneOwn? || s.pc.DoneOwn? || t.pc.RxDetach? || s.pc.RxDetach? ==> t.pc == s.pc)
  {
  }

  /** What the invariant says about the slots that the interrupt code works on. */
  lemma SlotsInHand(s: State)
    requires Inv(s)
    ensures s.pc.RxHandle? ==> |s.drained| < |s.armed| && s.rx[SlotOf(|s.drained|)].address == At(s.armed[|s.drained|])
    ensures s.pc.RxDetach? ==> 0 < |s.drained| && s.pc.slot == SlotOf(|s.drained| - 1)
    ensures s.pc.DoneAddress? || s.pc.DoneOwn? ==> s.pc.slot == SlotOf(|s.armed|)
    ensures s.pc.DoneOwn? ==> s.pc.pkt < SPARE
  {
    if s.pc.DoneOwn? {
      ArmedIsCirculating(s);
    }
  }

  lemma StepFree(s: State, a: Action)
    requires Inv(s) && FreeAgrees(s) && Possible(s, a) && Fits(Do(s, a))
    ensures FreeAgrees(Do(s, a))
  {
    InvFits(s);
    SlotsInHand(s);
    if a.Handle? {
      HandleFree(s, a);
    } else if a.Cpu? && s.pc.RxDetach? {
      DetachFree(s);
    } else if a.Cpu? && s.pc.DoneAddress? {
      DoneAddressFree(s);
    } else if a.Cpu? && s.pc.DoneOwn? {
      DoneOwnFree(s);
    } else {
      OtherStep(s, a);
      OtherFree(s, Do(s, a));
    }
  }

  lemma InitFree(memory: seq<Frame>)
    requires |memory| == SPARE + 1
    ensures Inv(Init(memory)) && FreeAgrees(Init(memory))
  {
    InitInv(memory);
  }

  lemma NextFree(s: State, a: Action)
    requires Inv(s) && FreeAgrees(s) && Possible(s, a) && Inv(Do(s, a))
    ensures FreeAgrees(Do(s, a))
  {
    InvFits(Do(s, a));
    StepFree(s, a);
  }

  /** In every run that has not strayed, the free descriptors hold what became of the frames
      drained from them. */
  lemma {:induction false} RunFree(states: seq<State>, actions: seq<Action>, n: nat)
    requires Run(states, actions) && n < |states| && Steady(states, actions, n)
    ensures Inv(states[n]) && FreeAgrees(states[n])
  {
    if n == 0 {
      var memory :| |memory| == SPARE + 1 && states[0] == Init(memory);
      InitFree(memory);
    } else {
      RunFree(states, actions, n - 1);
      RunInv(states, actions, n);
      NextFree(states[n - 1], actions[n - 1]);
    }
  }

  // ----- When the drain strays -----

  /** The engine has filled its last buffer, the drain has taken every frame, and the frame
      drained eight positions earlier was not answered. */
  predicate Overtakes(s: State, a: Action) {
    && a.Cpu? && s.pc.RxCheck? && |s.drained| == |s.arrived| == |s.armed|
    && |s.drained| >= RING && s.drained[|s.drained| - RING].next < 0
  }

  /** When the drain has taken the last buffer of the engine, all eight wait for transmission. */
  lemma AllOutstanding(s: State, b: Buffer)
    requires Inv(s) && s.pc.RxCheck? && |s.drained| == |s.armed| && b < SPARE
    ensures |s.queued| - s.reaped == RING && InTransmitRing(s, b)
  {
    WindowSizes(s);
    CirculatingHas(s, b);
  }

  lemma NextIsFree(s: State)
    requires Inv(s) && FreeAgrees(s) && s.pc.RxCheck? && |s.drained| == |s.armed|
    ensures s.rx[s.receiveRd].address == FreeAddress(s, |s.armed|)
  {
    assert s.rx[SlotOf(|s.armed|)].address == FreeAddress(s, |s.armed|);
  }

  /** A first stray step is exactly that; all eight buffers are then in the transmit ring, so
      what is taken for a frame is a reply that waits there. */
  lemma StraysIff(s: State, a: Action)
    requires Inv(s) && FreeAgrees(s) && Possible(s, a)
    ensures Strays(s, a) <==> Overtakes(s, a)
    ensures Strays(s, a) ==> |s.queued| - s.reaped == RING && InTransmitRing(s, s.rx[s.receiveRd].address.buffer)
  {
    if a.Cpu? && s.pc.RxCheck? && |s.drained| == |s.arrived| {
      NextIsFree(s);
      AllOutstanding(s, s.armed[|s.armed| - RING]);
    }
  }

  ghost predicate Patient(states: seq<State>, actions: seq<Action>, n: nat)
    requires n <= |actions| < |states|
  {
    forall m :: 0 <= m < n ==> !Overtakes(states[m], actions[m])
  }

  lemma FirstStray(states: seq<State>, actions: seq<Action>, n: nat)
    requires Run(states, actions) && n < |actions| && Steady(states, actions, n)
    ensures Strays(states[n], actions[n]) <==> Overtakes(states[n], actions[n])
  {
    RunFree(states, actions, n);
    StraysIff(states[n], actions[n]);
  }

  lemma {:induction false} SteadyIffPatient(states: seq<State>, actions: seq<Action>, n: nat)
    requires Run(states, actions) && n < |states|
    ensures Steady(states, actions, n) <==> Patient(states, actions, n)
  {
    if n > 0 {
      SteadyIffPatient(states, actions, n - 1);
      if Steady(states, actions, n - 1) {
        FirstStray(states, actions, n - 1);
      }
    }
  }

  /** With any engine, a run serves exactly once and in order up to step `n` if and only if in
      no earlier step a drain that has taken every frame, from an engine without buffers, comes
      round to a descriptor whose last frame was not answered. */
  lemma ExactIffPatient(states: seq<State>, actions: seq<Action>, n: nat)
    requires Run(states, actions) && n < |states|
    ensures (forall m :: 0 <= m <= n ==> Exact(states[m])) <==> Patient(states, actions, n)
  {
    ExactIffSteady(states, actions, n);
    SteadyIffPatient(states, actions, n);
  }
}
