/** When two descriptors name one buffer, at every point of every run that has not gone
    astray. */
module Naming {
  import opened DmaRing
  import opened RingInvariant
  import opened RingSteps
  import opened StaleAddresses

  datatype Place = Rx(slot: Slot) | Tx(slot: Slot)

  function AddressAt(s: State, p: Place): Address
    requires s.Shaped()
  {
    match p
    case Rx(i) => s.rx[i].address
    case Tx(i) => s.tx[i].address
  }

  /** Each buffer is named by at most one descriptor of the two rings. */
  ghost predicate NamedOnce(s: State)
    requires s.Shaped()
  {
    forall p: Place, q: Place :: p != q && AddressAt(s, p).At? ==> AddressAt(s, p) != AddressAt(s, q)
  }

  lemma SharedName(s: State, p: Place, q: Place)
    requires s.Shaped() && p != q && AddressAt(s, p).At? && AddressAt(s, p) == AddressAt(s, q)
    ensures !NamedOnce(s)
  {
  }

  // ----- The condition -----

  /** A reaped buffer is named by the receive ring again, before the transmit ring lets go of
      it. */
  predicate Recycling(s: State) {
    s.pc.ReapClear? || (s.pc.DoneOwn? && s.pc.caller.FromTx?)
  }

  /** The descriptor that names the buffer in hand: the one that it is about to be detached
      from, or the one that it is about to be published in. */
  function HandPlace(s: State): Place
    requires HandNamed(s)
  {
    match s.pc
    case RxDetach(slot, _) => Rx(slot)
    case EnqueueOwn(slot, _, _, _) => Tx(slot)
    case DoneOwn(slot, _, _) => Rx(slot)
  }

  predicate HandNamed(s: State) {
    s.pc.RxDetach? || s.pc.EnqueueOwn? || s.pc.DoneOwn?
  }

  /** The `j`-th drained frame was not answered and its descriptor has kept its address. */
  predicate Stale(s: State, j: nat)
    requires RING <= |s.armed|
  {
    && |s.armed| - RING <= j < |s.drained| <= |s.armed| && s.drained[j].next < 0
    && !(s.pc.DoneOwn? && j + RING == |s.armed|)
  }

  /** No stale descriptor but one, and that one names the buffer in hand, which no other
      descriptor names yet. */
  ghost predicate Clean(s: State)
    requires RING <= |s.armed|
  {
    && !Recycling(s)
    && (forall j: nat :: Stale(s, j) ==> s.armed[j] in Hand(s) && !HandNamed(s))
    && (forall i: nat, j: nat :: Stale(s, i) && Stale(s, j) ==> i == j)
  }

  // ----- Why a descriptor names a buffer -----

  datatype Reason = LiveRx(k: nat) | LiveTx(k: nat) | InHand | Left(j: nat)

  ghost predicate Justifies(s: State, p: Place, r: Reason)
    requires Ordered(s) && RING <= |s.armed|
  {
    match r
    case LiveRx(k) => |s.drained| <= k < |s.armed| && p == Rx(SlotOf(k))
    case LiveTx(k) => s.reaped <= k < |s.queued| && p == Tx(SlotOf(k))
    case InHand => HandNamed(s) && |Hand(s)| == 1 && p == HandPlace(s)
    case Left(j) => Stale(s, j) && p == Rx(SlotOf(j + RING))
  }

  ghost function Named(s: State, p: Place, r: Reason): Buffer
    requires Ordered(s) && RING <= |s.armed| && Justifies(s, p, r)
  {
    match r
    case LiveRx(k) => s.armed[k]
    case LiveTx(k) => s.queued[k]
    case InHand => Hand(s)[0]
    case Left(j) => s.armed[j]
  }

  lemma RxReason(s: State, i: Slot) returns (r: Reason)
    requires Inv(s) && FreeAgrees(s) && !Recycling(s) && s.rx[i].address.At?
    ensures Justifies(s, Rx(i), r) && s.rx[i].address == At(Named(s, Rx(i), r))
  {
    var k := PositionOf(i, |s.drained|);
    assert s.rx[SlotOf(k)] == s.rx[i];
    WindowSizes(s);
    if k < |s.armed| {
      r := LiveRx(k);
    } else if s.pc.DoneOwn? && k == |s.armed| {
      r := InHand;
    } else if s.pc.RxDetach? && k - RING == |s.drained| - 1 {
      NextSlot(|s.drained| - 1);
      r := InHand;
    } else {
      r := Left(k - RING);
    }
  }

  lemma TxReason(s: State, i: Slot) returns (r: Reason)
    requires Inv(s) && FreeAgrees(s) && !Recycling(s) && s.tx[i].address.At?
    ensures Justifies(s, Tx(i), r) && s.tx[i].address == At(Named(s, Tx(i), r))
  {
    var k := PositionOf(i, s.reaped);
    assert s.tx[SlotOf(k)] == s.tx[i];
    if k < |s.queued| {
      r := LiveTx(k);
    } else {
      assert s.pc.EnqueueOwn? && k == |s.queued|;
      r := InHand;
    }
  }

  lemma ReasonFor(s: State, p: Place) returns (r: Reason)
    requires Inv(s) && FreeAgrees(s) && !Recycling(s) && AddressAt(s, p).At?
    ensures Justifies(s, p, r) && AddressAt(s, p) == At(Named(s, p, r))
  {
    match p
    case Rx(i) => r := RxReason(s, i);
    case Tx(i) => r := TxReason(s, i);
  }

  lemma ReasonsApart(s: State, p: Place, q: Place, r: Reason, r': Reason)
    requires Inv(s) && FreeAgrees(s) && Clean(s)
    requires p != q && Justifies(s, p, r) && Justifies(s, q, r')
    ensures Named(s, p, r) != Named(s, q, r')
  {
    WindowsDisjoint(s);
  }

  lemma CleanIsOnce(s: State)
    requires Inv(s) && FreeAgrees(s) && Clean(s)
    ensures NamedOnce(s)
  {
    forall p: Place, q: Place | p != q && AddressAt(s, p).At? ensures AddressAt(s, p) != AddressAt(s, q) {
      var r := ReasonFor(s, p);
      if AddressAt(s, q).At? {
        var r' := ReasonFor(s, q);
        ReasonsApart(s, p, q, r, r');
      }
    }
  }

  // ----- What breaks it -----

  /** A circulating buffer that is not in hand is named by a live descriptor. */
  lemma LivePlace(s: State, b: Buffer) returns (q: Place, r: Reason)
    requires Inv(s) && RING <= |s.armed| && b < SPARE && b !in Hand(s)
    ensures (r.LiveRx? || r.LiveTx?) && Justifies(s, q, r) && (r.LiveTx? ==> ReapedTo(s) <= r.k)
    ensures AddressAt(s, q) == At(b)
  {
    CirculatingHas(s, b);
    WindowSizes(s);
    if b in s.armed[|s.drained|..] {
      var k :| |s.drained| <= k < |s.armed| && s.armed[k] == b;
      q, r := Rx(SlotOf(k)), LiveRx(k);
    } else {
      var k :| ReapedTo(s) <= k < |s.queued| && s.queued[k] == b;
      q, r := Tx(SlotOf(k)), LiveTx(k);
    }
  }

  lemma StalePlace(s: State, j: nat)
    requires Inv(s) && FreeAgrees(s) && Stale(s, j)
    ensures s.rx[SlotOf(j + RING)].address == At(s.armed[j]) && s.armed[j] < SPARE
    ensures forall q: Place, r: Reason ::
              (r.LiveRx? || r.LiveTx?) && Justifies(s, q, r) ==> q != Rx(SlotOf(j + RING))
  {
    assert s.rx[SlotOf(j + RING)].address == FreeAddress(s, j + RING);
    WindowSlots(|s.drained|);
  }

  lemma StaleOutsideHand(s: State, j: nat)
    requires Inv(s) && FreeAgrees(s) && Stale(s, j) && s.armed[j] !in Hand(s)
    ensures !NamedOnce(s)
  {
    StalePlace(s, j);
    var q, r := LivePlace(s, s.armed[j]);
    SharedName(s, Rx(SlotOf(j + RING)), q);
  }

  lemma HandIsNamed(s: State)
    requires Inv(s) && HandNamed(s) && !Recycling(s)
    ensures |Hand(s)| == 1 && AddressAt(s, HandPlace(s)) == At(Hand(s)[0])
  {
  }

  lemma StaleAndHand(s: State, j: nat)
    requires Inv(s) && FreeAgrees(s) && Stale(s, j) && HandNamed(s) && !Recycling(s)
    requires s.armed[j] in Hand(s)
    ensures !NamedOnce(s)
  {
    StalePlace(s, j);
    HandIsNamed(s);
    WindowSizes(s);
    if s.pc.RxDetach? {
      NextSlot(|s.drained| - 1);
    }
    WindowSlots(|s.drained|);
    SharedName(s, Rx(SlotOf(j + RING)), HandPlace(s));
  }

  lemma TwoStale(s: State, i: nat, j: nat)
    requires Inv(s) && FreeAgrees(s) && Stale(s, i) && Stale(s, j) && i < j
    ensures !NamedOnce(s)
  {
    if s.armed[i] !in Hand(s) {
      StaleOutsideHand(s, i);
    } else if s.armed[j] !in Hand(s) {
      StaleOutsideHand(s, j);
    } else {
      StalePlace(s, i);
      StalePlace(s, j);
      WindowSizes(s);
      WindowSlots(|s.drained|);
      SharedName(s, Rx(SlotOf(i + RING)), Rx(SlotOf(j + RING)));
    }
  }

  lemma RecyclingIsTwice(s: State)
    requires Inv(s) && FreeAgrees(s) && Recycling(s) && s.reaped < |s.queued| && s.queued[s.reaped] < SPARE
    ensures !NamedOnce(s)
  {
    var p := Tx(SlotOf(s.reaped));
    WindowSizes(s);
    assert s.tx[SlotOf(s.reaped)].address == At(s.queued[s.reaped]);
    if s.pc.DoneOwn? {
      SharedName(s, p, Rx(s.pc.slot));
    } else {
      var q, r := LivePlace(s, s.queued[s.reaped]);
      WindowSlots(s.reaped);
      SharedName(s, p, q);
    }
  }

  // ----- Every state of every run -----

  lemma HandBelow(s: State, b: Buffer)
    requires Inv(s) && b in Hand(s)
    ensures b < SPARE
  {
    CirculatingHas(s, b);
  }

  lemma QueuedBelow(s: State, a: Action)
    requires Inv(s) && Possible(s, a) && forall b :: b in s.queued ==> b < SPARE
    ensures forall b :: b in Do(s, a).queued ==> b < SPARE
  {
    if a.Cpu? && s.pc.EnqueueOwn? {
      HandBelow(s, s.pc.pkt);
    } else {
      assert Do(s, a).queued == s.queued;
    }
  }

  lemma {:induction false} RunQueued(states: seq<State>, actions: seq<Action>, n: nat)
    requires Run(states, actions) && n < |states| && Steady(states, actions, n)
    ensures forall b :: b in states[n].queued ==> b < SPARE
  {
    if n > 0 {
      RunQueued(states, actions, n - 1);
      RunInv(states, actions, n - 1);
      QueuedBelow(states[n - 1], actions[n - 1]);
    }
  }

  lemma OnceIsClean(s: State)
    requires Inv(s) && FreeAgrees(s) && !Clean(s) && forall b :: b in s.queued ==> b < SPARE
    ensures !NamedOnce(s)
  {
    if Recycling(s) {
      assert s.reaped < |s.queued| && s.queued[s.reaped] in s.queued;
      RecyclingIsTwice(s);
    } else if i: nat, j: nat :| Stale(s, i) && Stale(s, j) && i < j {
      TwoStale(s, i, j);
    } else {
      var j: nat :| Stale(s, j) && !(s.armed[j] in Hand(s) && !HandNamed(s));
      if s.armed[j] in Hand(s) {
        StaleAndHand(s, j);
      } else {
        StaleOutsideHand(s, j);
      }
    }
  }

  /** At every point of every run that has not gone astray, no buffer is named twice if and
      only if no buffer is being recycled from the transmit ring and at most one drained
      descriptor has kept its address, that of a buffer in hand which no other descriptor
      names. */
  lemma NamedOnceIffClean(states: seq<State>, actions: seq<Action>, n: nat)
    requires Run(states, actions) && n < |states| && Steady(states, actions, n)
    ensures var s := states[n];
            s.Shaped() && Ordered(s) && RING <= |s.armed| && (NamedOnce(s) <==> Clean(s))
  {
    var s := states[n];
    RunFree(states, actions, n);
    RunQueued(states, actions, n);
    if Clean(s) {
      CleanIsOnce(s);
    } else {
      OnceIsClean(s);
    }
  }

  /** Every frame whose descriptor has not been armed again was answered. */
  ghost predicate FreeAnswered(s: State)
    requires Ordered(s) && RING <= |s.armed|
  {
    forall j :: |s.armed| - RING <= j < |s.drained| ==> s.drained[j].next >= 0
  }

  /** Between handler runs that means that every frame whose descriptor has not been armed again
      was answered. */
  lemma NamedOnceIff(states: seq<State>, actions: seq<Action>, n: nat)
    requires Run(states, actions) && n < |states| && Steady(states, actions, n) && states[n].pc.Idle?
    ensures var s := states[n];
            s.Shaped() && Ordered(s) && RING <= |s.armed| && (NamedOnce(s) <==> FreeAnswered(s))
  {
    var s := states[n];
    NamedOnceIffClean(states, actions, n);
    RunInv(states, actions, n);
    assert forall j: nat :: |s.armed| - RING <= j < |s.drained| ==> (Stale(s, j) <==> s.drained[j].next < 0);
  }
}
