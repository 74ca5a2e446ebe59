/** Two runs: one that leaves a buffer named by two descriptors, and one, with an engine that
    takes its last descriptor, in which the drain serves a frame that never came. */
module ConcreteRuns {
  import opened Frames
  import opened DmaRing
  import opened RingSteps
  import opened RingTheorems
  import opened Naming
  import opened ObservedEngine

  /** A run as it is built up: its states so far, the last of them `s`, and its actions. */
  datatype Trace = Trace(states: seq<State>, actions: seq<Action>, s: State) {
    ghost predicate Valid() {
      Run(states, actions) && s == states[|actions|]
    }
  }

  lemma Start(memory: seq<Frame>) returns (t: Trace)
    requires |memory| == SPARE + 1
    ensures t.Valid() && Observed(t.states, t.actions) && t.s == Init(memory)
  {
    StartOfRun(memory);
    t := Trace([Init(memory)], [], Init(memory));
  }

  lemma Then(t: Trace, a: Action) returns (u: Trace)
    requires t.Valid() && Possible(t.s, a)
    ensures u.Valid() && u.s == Do(t.s, a)
    ensures Observed(t.states, t.actions) && LeavesOne(t.s, a) ==> Observed(u.states, u.actions)
  {
    RunExtends(t.states, t.actions, a);
    u := Trace(t.states + [Do(t.s, a)], t.actions + [a], Do(t.s, a));
    if Observed(t.states, t.actions) && LeavesOne(t.s, a) {
      ObservedExtends(t.states, t.actions, u.s, a);
    }
  }

  const GOOD := RxStatus(false, false, true, true, 60)

  /** `n` frames have arrived in the first descriptors, none has been looked at. */
  ghost predicate Arrived(s: State, n: nat) {
    && s.Shaped() && n <= RING && s.pc.Idle? && s.inPool == SPARE
    && s.receiveRd == 0 && s.receiveWr == 0 && s.transmitRd == 0 && s.dmaRx == n % 8
    && |s.arrived| == n && s.drained == [] && s.outgoing == []
    && (forall i :: 0 <= i < RING ==> s.rx[i].address == At(i) && (s.rx[i].rer <==> i == RING - 1))
    && (forall i :: 0 <= i < n ==> s.rx[i].status == GOOD)
    && (forall i :: n <= i < RING ==> s.rx[i].status.own)
    && (forall i :: 0 <= i < RING ==> !s.tx[i].status.own)
  }

  lemma Arrive(memory: seq<Frame>, count: nat) returns (t: Trace)
    requires |memory| == SPARE + 1 && count <= RING
    ensures t.Valid() && Arrived(t.s, count) && (count < RING ==> Observed(t.states, t.actions))
  {
    t := Start(memory);
    for n := 0 to count
      invariant t.Valid() && Arrived(t.s, n) && (n < RING ==> Observed(t.states, t.actions))
    {
      t := NextArrival(t, n);
    }
  }

  lemma NextArrival(t: Trace, n: nat) returns (u: Trace)
    requires t.Valid() && Arrived(t.s, n) && n < RING && Observed(t.states, t.actions)
    ensures u.Valid() && Arrived(u.s, n + 1) && (n < RING - 1 ==> Observed(u.states, u.actions))
  {
    OneMore(t.s, n);
    u := Then(t, DmaReceive(BLANK, GOOD));
  }

  lemma OneMore(s: State, n: nat)
    requires Arrived(s, n) && n < RING
    ensures Possible(s, DmaReceive(BLANK, GOOD)) && Arrived(Do(s, DmaReceive(BLANK, GOOD)), n + 1)
    ensures n < RING - 1 ==> LeavesOne(s, DmaReceive(BLANK, GOOD))
  {
    assert n < RING - 1 ==> s.rx[RING - 1].status.own;
  }

  ghost predicate Continues(t: Trace, u: Trace) {
    t.Valid() && u.Valid() && (Observed(t.states, t.actions) ==> Observed(u.states, u.actions))
  }

  lemma Cpu1(t: Trace) returns (u: Trace)
    requires t.Valid() && Possible(t.s, Cpu)
    ensures Continues(t, u) && u.s == CpuStep(t.s)
  {
    u := Then(t, Cpu);
  }

  /** A good frame is taken from the ring and handled with the result `next`. */
  lemma Take(t: Trace, next: int, reply: Frame) returns (u: Trace)
    requires t.Valid() && t.s.Shaped() && t.s.pc.RxTop? && next >= -1
    requires t.s.rx[t.s.receiveRd].status == GOOD && t.s.rx[t.s.receiveRd].address.At?
    ensures Continues(t, u)
    ensures var s := t.s;
            var b := s.rx[s.receiveRd].address.buffer;
            u.s == s.(receiveRd := Increment(s.receiveRd), memory := s.memory[b := reply],
                      drained := s.drained + [Outcome(Arrival(s.memory[b], GOOD), next, reply)],
                      pc := if next >= 0 then RxDetach(s.receiveRd, next) else Done(b, FromRx))
  {
    u := Cpu1(t);
    u := Cpu1(u);
    u := Then(u, Handle(next, reply));
  }

  lemma Claim(t: Trace) returns (u: Trace)
    requires t.Valid() && t.s.Shaped() && t.s.pc.RxDetach? && t.s.rx[t.s.pc.slot].address.At?
    requires !t.s.tx[t.s.transmitRd].status.own
    ensures Continues(t, u)
    ensures var s, i, k := t.s, t.s.pc.slot, t.s.transmitRd;
            u.s == s.(rx := s.rx[i := s.rx[i].(address := Null)], transmitRd := Increment(k),
                      pc := EnqueueSize(k, s.tx[k].status, s.rx[i].address.buffer, s.pc.len))
  {
    u := Cpu1(t);
    u := Cpu1(u);
  }

  /** The buffer of a handled frame is moved to the transmit ring. */
  lemma Publish(t: Trace) returns (u: Trace)
    requires t.Valid() && t.s.Shaped() && t.s.pc.RxDetach? && t.s.rx[t.s.pc.slot].address.At?
    requires !t.s.tx[t.s.transmitRd].status.own
    ensures Continues(t, u)
    ensures var s, i, k, len := t.s, t.s.pc.slot, t.s.transmitRd, t.s.pc.len;
            var b := s.rx[i].address.buffer;
            u.s == s.(rx := s.rx[i := s.rx[i].(address := Null)], transmitRd := Increment(k), pc := RxTop,
                      tx := s.tx[k := TxDesc(s.tx[k].status.(own := true), len, At(b))],
                      queued := s.queued + [b], outgoing := s.outgoing + [Departure(s.memory[b], len)])
  {
    u := Claim(t);
    u := Cpu1(u);
    u := Cpu1(u);
    u := Cpu1(u);
  }

  /** What answering the next frame with `reply` makes of the state. */
  ghost predicate Replied(s: State, t: State, reply: Frame)
    requires s.Shaped() && s.rx[s.receiveRd].address.At?
  {
    var b, i, k := s.rx[s.receiveRd].address.buffer, s.receiveRd, s.transmitRd;
    && t.pc.RxTop? && t.inPool == s.inPool && t.receiveWr == s.receiveWr && t.dmaRx == s.dmaRx
    && t.receiveRd == Increment(i) && t.transmitRd == Increment(k)
    && t.arrived == s.arrived && |t.drained| == |s.drained| + 1
    && t.rx == s.rx[i := s.rx[i].(address := Null)] && t.memory == s.memory[b := reply]
    && |t.tx| == RING && (forall j :: 0 <= j < RING && j != k ==> t.tx[j] == s.tx[j])
    && t.tx[k].status.own && t.tx[k].address == At(b)
    && t.outgoing == s.outgoing + [Departure(reply, 60)]
  }

  /** The frame is answered and its buffer queued. */
  lemma Reply(t: Trace, reply: Frame) returns (u: Trace)
    requires t.Valid() && t.s.Shaped() && t.s.pc.RxTop? && !t.s.tx[t.s.transmitRd].status.own
    requires t.s.rx[t.s.receiveRd].status == GOOD && t.s.rx[t.s.receiveRd].address.At?
    ensures Continues(t, u) && Replied(t.s, u.s, reply)
  {
    u := Take(t, 60, reply);
    u := Publish(u);
  }

  /** The frame needs no answer and its buffer is recycled. */
  lemma Discard(t: Trace) returns (u: Trace)
    requires t.Valid() && t.s.Shaped() && t.s.pc.RxTop? && t.s.inPool >= 0 && t.s.receiveWr != t.s.receiveRd
    requires t.s.rx[t.s.receiveRd].status == GOOD && t.s.rx[t.s.receiveRd].address.At?
    requires !t.s.rx[t.s.receiveWr].status.own
    ensures Continues(t, u)
    ensures var s, s' := t.s, u.s;
            var b, i := s.rx[s.receiveRd].address.buffer, s.receiveWr;
            && s'.pc.RxTop? && s'.inPool == s.inPool && s'.receiveWr == Increment(i) && s'.dmaRx == s.dmaRx
            && s'.receiveRd == Increment(s.receiveRd) && s'.transmitRd == s.transmitRd && s'.tx == s.tx
            && s'.arrived == s.arrived && |s'.drained| == |s.drained| + 1 && s'.outgoing == s.outgoing
            && s'.rx == s.rx[i := RxDesc(RX_OWNED, s.rx[i].rer, At(b))] && |s'.memory| == SPARE + 1
  {
    u := Take(t, -1, BLANK);
    u := Cpu1(u);
    u := Cpu1(u);
    u := Cpu1(u);
  }

  /** Of `count` frames the drain has taken `d`, with `q` replies in the transmit ring. The
      buffer of the second frame has been armed again in the first descriptor, and the second
      descriptor still names it. */
  ghost predicate Drained(s: State, count: nat, d: nat, q: nat) {
    && s.Shaped() && 2 <= d <= count <= RING && q < RING && s.pc.RxTop? && s.inPool == SPARE
    && s.receiveRd == d % 8 && s.transmitRd == q && s.dmaRx == count % 8
    && |s.arrived| == count && |s.drained| == d && |s.outgoing| == q
    && (forall i :: d <= i < count ==> s.rx[i].status == GOOD && s.rx[i].address.At?)
    && (forall i :: count <= i < RING ==> s.rx[i].status.own)
    && (forall i :: q <= i < RING ==> !s.tx[i].status.own)
    && s.receiveWr == 1 && s.rx[0].status.own && s.rx[0].address == At(1) && s.rx[1] == RxDesc(GOOD, false, At(1))
  }

  /** The first frame is answered, the second is not. */
  lemma TwoDrained(memory: seq<Frame>, count: nat) returns (t: Trace)
    requires |memory| == SPARE + 1 && 2 <= count <= RING
    ensures t.Valid() && Drained(t.s, count, 2, 1) && (count < RING ==> Observed(t.states, t.actions))
  {
    t := Arrive(memory, count);
    t := Then(t, StartRx);
    t := Reply(t, BLANK);
    t := Discard(t);
  }

  /** The code can leave a buffer named by two descriptors: two frames have arrived, the first
      was answered, the second was not. */
  lemma NamedTwice(memory: seq<Frame>) returns (t: Trace)
    requires |memory| == SPARE + 1
    ensures t.Valid() && Observed(t.states, t.actions) && t.s.pc.Idle? && t.s.Shaped()
    ensures t.s.rx[0].address == t.s.rx[1].address == At(1) && !NamedOnce(t.s)
  {
    t := TwoDrained(memory, 2);
    t := Cpu1(t);
    assert AddressAt(t.s, Rx(0)) == AddressAt(t.s, Rx(1)) == At(1);
  }

  lemma DrainedOn(s: State, t: State, d: nat)
    requires 2 <= d < RING && Drained(s, RING, d, d - 1) && Replied(s, t, BLANK)
    ensures Drained(t, RING, d + 1, d)
  {
  }

  lemma AllDrained(memory: seq<Frame>) returns (t: Trace)
    requires |memory| == SPARE + 1
    ensures t.Valid() && Drained(t.s, RING, RING, RING - 1)
  {
    t := TwoDrained(memory, RING);
    for d := 2 to RING
      invariant t.Valid() && Drained(t.s, RING, d, d - 1)
    {
      var u := Reply(t, BLANK);
      DrainedOn(t.s, u.s, d);
      t := u;
    }
  }

  /** The engine fills its last descriptor, and that frame is answered too. */
  lemma EightReplied(memory: seq<Frame>) returns (t: Trace)
    requires |memory| == SPARE + 1
    ensures t.Valid() && t.s.Shaped() && t.s.pc.RxTop? && |t.s.drained| == |t.s.arrived| && t.s.receiveRd == 1
    ensures t.s.rx[1].status == GOOD && t.s.rx[1].address == t.s.tx[RING - 1].address == At(1)
    ensures t.s.tx[RING - 1].status.own && |t.s.outgoing| == RING && t.s.outgoing[RING - 1].frame == BLANK
  {
    t := AllDrained(memory);
    t := Then(t, DmaReceive(BLANK, GOOD));
    t := Reply(t, BLANK);
  }

  /** An engine that takes the last descriptor breaks exactly-once service and exclusive
      ownership: in this run more frames are drained than have arrived, and what the drain
      takes for a frame and rewrites is a reply that the transmit engine owns. */
  lemma LastDescriptorTaken(memory: seq<Frame>) returns (t: Trace)
    requires |memory| == SPARE + 1
    ensures t.Valid() && t.s.Shaped() && !Exact(t.s) && |t.s.drained| > |t.s.arrived|
    ensures |t.s.outgoing| == RING && t.s.tx[RING - 1].status.own && t.s.tx[RING - 1].address.At?
    ensures t.s.memory[t.s.tx[RING - 1].address.buffer] != t.s.outgoing[RING - 1].frame
  {
    var ghostly: Frame := BLANK[0 := 1];
    assert ghostly[0] != BLANK[0];
    t := EightReplied(memory);
    t := Take(t, -1, ghostly);
    assert |Arrivals(t.s.drained)| == |t.s.drained|;
  }
}
