/** The receive engine as the authors observed it, which never fills the last descriptor it
    owns: its runs do not stray, so everything proved of those holds of all of its runs. */
module ObservedEngine {
  import opened Words
  import opened DmaRing
  import opened RingInvariant
  import opened RingSteps
  import opened RingTheorems

  /** A second owned descriptor means that the live window holds a second position. */
  lemma AnotherPosition(s: State, j: Slot)
    requires Inv(s) && s.rx[s.dmaRx].status.own && j != s.dmaRx && s.rx[j].status.own
    ensures |s.arrived| + 2 <= |s.armed|
  {
    ReceivePending(s);
    var k := PositionOf(j, |s.drained|);
    assert s.rx[SlotOf(k)].status.own;
  }

  /** While the engine has a buffer left, it keeps one and no step strays. */
  lemma StepKeepsOne(s: State, a: Action)
    requires Inv(s) && Possible(s, a) && LeavesOne(s, a) && |s.arrived| < |s.armed|
    ensures !Strays(s, a) && |Do(s, a).arrived| < |Do(s, a).armed|
  {
    if a.DmaReceive? {
      var j: nat :| j < RING && j != s.dmaRx && s.rx[j].status.own;
      AnotherPosition(s, j);
    }
  }

  /** No run of the observed engine strays, and the engine always has a buffer left. */
  lemma {:induction false} ObservedSteady(states: seq<State>, actions: seq<Action>, n: nat)
    requires Run(states, actions) && n < |states| && Observed(states, actions)
    ensures Steady(states, actions, n) && |states[n].arrived| < |states[n].armed|
  {
    if n > 0 {
      ObservedSteady(states, actions, n - 1);
      RunInv(states, actions, n - 1);
      StepKeepsOne(states[n - 1], actions[n - 1]);
    }
  }

  /** So service is exact in every state of every run of the observed engine... */
  lemma ObservedExact(states: seq<State>, actions: seq<Action>, n: nat)
    requires Run(states, actions) && n < |states| && Observed(states, actions)
    ensures Exact(states[n])
  {
    ObservedSteady(states, actions, n);
    ExactlyOnceInOrder(states, actions, n);
  }

  /** ... the null-buffer exit of the drain is unreachable... */
  lemma NullExitDead(states: seq<State>, actions: seq<Action>, n: nat)
    requires Run(states, actions) && n < |states| && Observed(states, actions) && states[n].pc.RxCheck?
    ensures states[n].Shaped() && states[n].rx[states[n].receiveRd].address.At?
  {
    var s := states[n];
    ObservedSteady(states, actions, n);
    RunInv(states, actions, n);
    assert s.rx[SlotOf(|s.drained|)].address == At(s.armed[|s.drained|]);
  }

  /** ... and between handler runs both cursor distances, modulo 8, are the number of buffers
      outstanding for transmission, at most seven. */
  lemma AtMostSeven(states: seq<State>, actions: seq<Action>, n: nat)
    requires Run(states, actions) && n < |states| && Observed(states, actions) && states[n].pc.Idle?
    ensures var s := states[n];
            && s.reaped <= |s.queued| <= s.reaped + 7
            && (s.receiveRd - s.receiveWr) % 8 == |s.queued| - s.reaped
            && (s.transmitRd - s.transmitWr) % 8 == |s.queued| - s.reaped
  {
    ObservedSteady(states, actions, n);
    CursorLockstep(states, actions, n);
    RunInv(states, actions, n);
    FewerOutstanding(states[n]);
    SmallMod(|states[n].queued| - states[n].reaped, 8);
  }

  lemma FewerOutstanding(s: State)
    requires Inv(s) && s.pc.Idle? && |s.arrived| < |s.armed|
    ensures |s.queued| - s.reaped <= 7
  {
    DistanceApart(s);
  }

  lemma ObservedExtends(states: seq<State>, actions: seq<Action>, s: State, a: Action)
    requires |states| == |actions| + 1 && Observed(states, actions) && LeavesOne(states[|actions|], a)
    ensures Observed(states + [s], actions + [a])
  {
  }
}
