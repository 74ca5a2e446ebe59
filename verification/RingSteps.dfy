/** Every step of the buffer protocol keeps the invariant. */
module RingSteps {
  import opened Words
  import opened DmaRing
  import opened RingInvariant

  ghost predicate SlotsDistinctFrom(first: nat) {
    forall k: nat, l: nat {:trigger SlotOf(k), SlotOf(l)} :: first <= k < l < first + RING ==> SlotOf(k) != SlotOf(l)
  }

  lemma WindowSlots(first: nat)
    ensures SlotsDistinctFrom(first)
  {
  }

  lemma NextSlot(k: nat)
    ensures Increment(SlotOf(k)) == SlotOf(k + 1)
    ensures SlotOf(k + RING) == SlotOf(k)
    ensures (if SlotOf(k) == RING - 1 then 0 else SlotOf(k) + 1) == SlotOf(k + 1)
  {
  }

  /** The space the windows take in their rings. */
  lemma WindowSizes(s: State)
    requires Inv(s)
    ensures |s.armed| - |s.drained| + |s.queued| - ReapedTo(s) + |Hand(s)| == RING
    ensures |s.drained| <= |s.arrived| <= |s.armed| <= |s.drained| + RING
    ensures |s.queued| <= s.reaped + RING
  {
    WindowsDisjoint(s);
  }

  // ----- Conservation: a buffer moves, none appears or disappears -----

  lemma SameBuffers(a: seq<Buffer>, b: seq<Buffer>)
    requires multiset(a) == multiset(b) && AllEight(a)
    ensures AllEight(b)
  {
  }

  /** Moving the first buffer of the receive window into the hand. */
  lemma DrainConserves(armed: seq<Buffer>, r: nat, queued: seq<Buffer>, p: nat)
    requires r < |armed| && p <= |queued|
    requires AllEight(Windows(armed, r, queued, p, []))
    ensures AllEight(Windows(armed, r + 1, queued, p, [armed[r]]))
  {
    var b, a, q := [armed[r]], armed[r + 1..], queued[p..];
    assert Windows(armed, r, queued, p, []) == b + (a + q);
    assert Windows(armed, r + 1, queued, p, b) == (a + q) + b;
    SameBuffers(b + (a + q), (a + q) + b);
  }

  /** Queueing the buffer in hand. */
  lemma QueueConserves(armed: seq<Buffer>, r: nat, queued: seq<Buffer>, p: nat, b: Buffer)
    requires r <= |armed| && p <= |queued|
    requires AllEight(Windows(armed, r, queued, p, [b]))
    ensures AllEight(Windows(armed, r, queued + [b], p, []))
  {
    assert Windows(armed, r, queued + [b], p, []) == Windows(armed, r, queued, p, [b]);
  }

  /** Arming the receive ring with the buffer in hand. */
  lemma RecycleConserves(armed: seq<Buffer>, r: nat, queued: seq<Buffer>, p: nat, b: Buffer)
    requires r <= |armed| && p <= |queued|
    requires AllEight(Windows(armed, r, queued, p, [b]))
    ensures AllEight(Windows(armed + [b], r, queued, p, []))
  {
    var a, q := armed[r..], queued[p..];
    assert Windows(armed, r, queued, p, [b]) == a + (q + [b]);
    assert Windows(armed + [b], r, queued, p, []) == a + ([b] + q);
    assert multiset(a + (q + [b])) == multiset(a) + multiset(q + [b]);
    assert multiset(a + ([b] + q)) == multiset(a) + multiset([b] + q);
    SameBuffers(a + (q + [b]), a + ([b] + q));
  }

  /** Arming the receive ring with the first buffer of the transmit window. */
  lemma ReapConserves(armed: seq<Buffer>, r: nat, queued: seq<Buffer>, p: nat)
    requires r <= |armed| && p < |queued|
    requires AllEight(Windows(armed, r, queued, p, []))
    ensures AllEight(Windows(armed + [queued[p]], r, queued, p + 1, []))
  {
    assert Windows(armed + [queued[p]], r, queued, p + 1, []) == Windows(armed, r, queued, p, []);
  }

  // ----- The receive ring -----

  ghost predicate RxFits(rx: seq<RxDesc>, armed: seq<Buffer>, arrived: seq<Arrival>, r: nat) {
    |rx| == RING && r <= |arrived| <= |armed| <= r + RING && RxRingAgrees(rx, armed, arrived, r)
  }

  lemma RxDrain(rx: seq<RxDesc>, armed: seq<Buffer>, arrived: seq<Arrival>, r: nat)
    requires RxFits(rx, armed, arrived, r) && r < |arrived|
    ensures RxFits(rx, armed, arrived, r + 1)
  {
    NextSlot(r);
    assert !rx[SlotOf(r)].status.own;
  }

  /** Outside the live window a descriptor may change, as long as the CPU keeps it. */
  lemma RxFree(rx: seq<RxDesc>, armed: seq<Buffer>, arrived: seq<Arrival>, r: nat, k: nat, d: RxDesc)
    requires RxFits(rx, armed, arrived, r) && |armed| <= k < r + RING
    requires !d.status.own && d.rer == rx[SlotOf(k)].rer
    ensures RxFits(rx[SlotOf(k) := d], armed, arrived, r)
  {
  }

  lemma RxArm(rx: seq<RxDesc>, armed: seq<Buffer>, arrived: seq<Arrival>, r: nat, b: Buffer, d: RxDesc)
    requires RxFits(rx, armed, arrived, r) && |armed| < r + RING
    requires d.status.own && d.rer == rx[SlotOf(|armed|)].rer && d.address == At(b)
    ensures RxFits(rx[SlotOf(|armed|) := d], armed + [b], arrived, r)
  {
    WindowSlots(r);
  }

  lemma RxComplete(rx: seq<RxDesc>, armed: seq<Buffer>, arrived: seq<Arrival>, r: nat, f: Frame, status: RxStatus)
    requires RxFits(rx, armed, arrived, r) && |arrived| < |armed| && !status.own
    ensures RxFits(rx[SlotOf(|arrived|) := rx[SlotOf(|arrived|)].(status := status)],
                   armed, arrived + [Arrival(f, status)], r)
  {
  }

  // ----- The transmit ring -----

  ghost predicate TxFits(tx: seq<TxDesc>, queued: seq<Buffer>, outgoing: seq<Departure>,
                         p: nat, d: nat, publishing: bool) {
    && |tx| == RING && |queued| == |outgoing| && p <= d <= |queued| <= p + RING
    && TxRingAgrees(tx, queued, outgoing, p, d, publishing)
  }

  lemma TxFree(tx: seq<TxDesc>, queued: seq<Buffer>, outgoing: seq<Departure>,
               p: nat, d: nat, e: TxDesc, publishing: bool)
    requires TxFits(tx, queued, outgoing, p, d, false) && |queued| < p + RING
    requires e.status == tx[SlotOf(|queued|)].status && (publishing || e.address == Null)
    ensures TxFits(tx[SlotOf(|queued|) := e], queued, outgoing, p, d, publishing)
  {
  }

  lemma TxPublish(tx: seq<TxDesc>, queued: seq<Buffer>, outgoing: seq<Departure>,
                  p: nat, d: nat, b: Buffer, o: Departure)
    requires TxFits(tx, queued, outgoing, p, d, true) && |queued| < p + RING
    requires tx[SlotOf(|queued|)].address == At(b) && tx[SlotOf(|queued|)].size == o.size
    ensures var i := SlotOf(|queued|);
            TxFits(tx[i := tx[i].(status := tx[i].status.(own := true))], queued + [b], outgoing + [o], p, d, false)
  {
    WindowSlots(p);
  }

  lemma TxSend(tx: seq<TxDesc>, queued: seq<Buffer>, outgoing: seq<Departure>,
               p: nat, d: nat, publishing: bool, report: nat)
    requires TxFits(tx, queued, outgoing, p, d, publishing) && d < |queued|
    ensures var i := SlotOf(d);
            TxFits(tx[i := tx[i].(status := tx[i].status.(own := false, report := report))],
                   queued, outgoing, p, d + 1, publishing)
  {
  }

  lemma TxReap(tx: seq<TxDesc>, queued: seq<Buffer>, outgoing: seq<Departure>, p: nat, d: nat)
    requires TxFits(tx, queued, outgoing, p, d, false) && p < d
    ensures var i := SlotOf(p); TxFits(tx[i := tx[i].(address := Null)], queued, outgoing, p + 1, d, false)
  {
    WindowSlots(p);
    NextSlot(p);
    assert !tx[SlotOf(p)].status.own;
  }

  // ----- The buffers' contents and the history -----

  lemma ReceivedDrain(memory: seq<Frame>, armed: seq<Buffer>, arrived: seq<Arrival>, r: nat, f: Frame)
    requires |memory| == SPARE + 1 && r < |arrived| <= |armed|
    requires Received(memory, armed, arrived, r) && DistinctFrom(armed, r)
    ensures Received(memory[armed[r] := f], armed, arrived, r + 1)
  {
  }

  lemma ReceivedMore(memory: seq<Frame>, armed: seq<Buffer>, arrived: seq<Arrival>, r: nat, a: Arrival)
    requires |memory| == SPARE + 1 && r <= |arrived| < |armed|
    requires Received(memory, armed, arrived, r) && DistinctFrom(armed, r)
    ensures Received(memory[armed[|arrived|] := a.frame], armed, arrived + [a], r)
  {
  }

  lemma UnsentKept(memory: seq<Frame>, queued: seq<Buffer>, outgoing: seq<Departure>,
                   p: nat, d: nat, b: Buffer, f: Frame)
    requires |memory| == SPARE + 1 && |queued| == |outgoing| && p <= d
    requires Unsent(memory, queued, outgoing, d) && Absent(b, queued, p)
    ensures Unsent(memory[b := f], queued, outgoing, d)
  {
  }

  /** Filling another buffer leaves the pending reply alone. */
  lemma PendingKept(s: State, t: State, b: Buffer)
    requires s.Shaped() && t.Shaped() && b !in Hand(s)
    requires t.pc == s.pc && t.armed == s.armed && t.drained == s.drained
    requires forall c: Buffer :: c != b ==> t.memory[c] == s.memory[c]
    ensures PendingReply(t) == PendingReply(s) && Hand(t) == Hand(s)
  {
  }

  lemma HistoryDrain(arrived: seq<Arrival>, drained: seq<Outcome>, outgoing: seq<Departure>,
                     sent: seq<Departure>, o: Outcome)
    requires HistoryAgrees(arrived, drained, outgoing, [], sent)
    requires |drained| < |arrived| && o.arrival == arrived[|drained|]
    ensures HistoryAgrees(arrived, drained + [o], outgoing,
                          if o.next >= 0 then [Departure(o.reply, o.next)] else [], sent)
  {
  }

  lemma HistoryQueue(arrived: seq<Arrival>, drained: seq<Outcome>, outgoing: seq<Departure>,
                     sent: seq<Departure>, o: Departure)
    requires HistoryAgrees(arrived, drained, outgoing, [o], sent)
    ensures HistoryAgrees(arrived, drained, outgoing + [o], [], sent)
  {
  }

  // ----- Steps -----

  /** A step that moves only the interrupt code keeps the rings and the history. */
  lemma DataKept(s: State, t: State)
    requires Inv(s) && t.rx == s.rx && t.tx == s.tx && t.memory == s.memory
    requires t.armed == s.armed && t.arrived == s.arrived && t.drained == s.drained
    requires t.queued == s.queued && t.outgoing == s.outgoing && t.sent == s.sent && t.reaped == s.reaped
    requires t.pc.EnqueueOwn? == s.pc.EnqueueOwn? && ReapedTo(t) == ReapedTo(s)
    requires Hand(t) == Hand(s) && PendingReply(t) == PendingReply(s)
    ensures t.Shaped() && Ordered(t) && AllEight(Circulating(t)) && RingsAgree(t) && ContentsAgree(t)
  {
  }

  lemma StartInv(s: State, a: Action)
    requires Inv(s) && Possible(s, a) && (a.StartRx? || a.StartTx?)
    ensures Inv(Do(s, a))
  {
    assert Circulating(Do(s, a)) == Circulating(s);
  }

  lemma RxTopInv(s: State)
    requires Inv(s) && s.pc.RxTop?
    ensures Inv(CpuStep(s))
  {
    WindowSizes(s);
    DataKept(s, CpuStep(s));
  }

  lemma RxCheckExitInv(s: State)
    requires Inv(s) && s.pc.RxCheck? && s.rx[s.receiveRd].address.Null?
    ensures Inv(CpuStep(s))
  {
    DataKept(s, CpuStep(s));
  }

  lemma RxCheckTakeInv(s: State)
    requires Inv(s) && s.pc.RxCheck? && s.rx[s.receiveRd].address.At? && |s.drained| < |s.arrived|
    ensures Inv(CpuStep(s))
  {
    NextSlot(|s.drained|);
    DataKept(s, CpuStep(s));
  }

  lemma EnqueueInv(s: State)
    requires Inv(s) && s.pc.Enqueue?
    ensures Inv(CpuStep(s))
  {
    WindowSizes(s);
    NextSlot(|s.queued|);
    DataKept(s, CpuStep(s));
  }

  lemma EnqueueSizeInv(s: State)
    requires Inv(s) && s.pc.EnqueueSize?
    ensures Inv(CpuStep(s))
  {
    WindowSizes(s);
    assert Circulating(CpuStep(s)) == Circulating(s);
    TxFree(s.tx, s.queued, s.outgoing, s.reaped, |s.sent|, s.tx[s.pc.slot].(size := s.pc.len), false);
  }

  lemma EnqueueAddressInv(s: State)
    requires Inv(s) && s.pc.EnqueueAddress?
    ensures Inv(CpuStep(s))
  {
    WindowSizes(s);
    assert Circulating(CpuStep(s)) == Circulating(s);
    TxFree(s.tx, s.queued, s.outgoing, s.reaped, |s.sent|, s.tx[s.pc.slot].(address := At(s.pc.pkt)), true);
  }

  lemma DoneInv(s: State)
    requires Inv(s) && s.pc.Done?
    ensures Inv(CpuStep(s))
  {
    WindowSizes(s);
    NextSlot(|s.armed|);
    DataKept(s, CpuStep(s));
  }

  lemma DoneAddressRings(s: State)
    requires Inv(s) && s.pc.DoneAddress?
    ensures Ordered(CpuStep(s)) && RingsAgree(CpuStep(s))
  {
    WindowSizes(s);
    RxFree(s.rx, s.armed, s.arrived, |s.drained|, |s.armed|, s.rx[s.pc.slot].(address := At(s.pc.pkt)));
  }

  lemma DoneAddressInv(s: State)
    requires Inv(s) && s.pc.DoneAddress?
    ensures Inv(CpuStep(s))
  {
    DoneAddressRings(s);
    assert Circulating(CpuStep(s)) == Circulating(s);
  }

  lemma ReapTopInv(s: State)
    requires Inv(s) && s.pc.ReapTop?
    ensures Inv(CpuStep(s))
  {
    WindowSizes(s);
    DataKept(s, CpuStep(s));
  }

  lemma ReapCheckInv(s: State)
    requires Inv(s) && s.pc.ReapCheck?
    ensures Inv(CpuStep(s))
  {
    WindowSizes(s);
    DataKept(s, CpuStep(s));
  }

  lemma ReapClearRings(s: State)
    requires Inv(s) && s.pc.ReapClear?
    ensures Ordered(CpuStep(s)) && RingsAgree(CpuStep(s))
  {
    WindowSizes(s);
    NextSlot(s.reaped);
    TxReap(s.tx, s.queued, s.outgoing, s.reaped, |s.sent|);
  }

  lemma ReapClearInv(s: State)
    requires Inv(s) && s.pc.ReapClear?
    ensures Inv(CpuStep(s))
  {
    ReapClearRings(s);
    NextSlot(s.reaped);
    assert Circulating(CpuStep(s)) == Circulating(s);
  }

  lemma HandleConserves(s: State, a: Action)
    requires Inv(s) && Possible(s, a) && a.Handle? && Ordered(Do(s, a))
    ensures AllEight(Circulating(Do(s, a)))
  {
    var t, r := Do(s, a), |s.drained|;
    var b := s.armed[r];
    assert s.rx[SlotOf(r)].address == At(b);
    assert Circulating(s) == Windows(s.armed, r, s.queued, s.reaped, []);
    DrainConserves(s.armed, r, s.queued, s.reaped);
    assert Hand(t) == [b];
    assert Circulating(t) == Windows(s.armed, r + 1, s.queued, s.reaped, [b]);
  }

  lemma HandleContents(s: State, a: Action)
    requires Inv(s) && Possible(s, a) && a.Handle? && Ordered(Do(s, a))
    ensures ContentsAgree(Do(s, a))
  {
    var t, r := Do(s, a), |s.drained|;
    var b := s.armed[r];
    WindowsDisjoint(s);
    assert s.rx[SlotOf(r)].address == At(b);
    ReceivedDrain(s.memory, s.armed, s.arrived, r, a.reply);
    UnsentKept(s.memory, s.queued, s.outgoing, s.reaped, |s.sent|, b, a.reply);
    HistoryDrain(s.arrived, s.drained, s.outgoing, s.sent, t.drained[r]);
    assert PendingReply(s) == [];
  }

  lemma HandleRings(s: State, a: Action)
    requires Inv(s) && Possible(s, a) && a.Handle?
    ensures Ordered(Do(s, a)) && RingsAgree(Do(s, a))
  {
    WindowSizes(s);
    RxDrain(s.rx, s.armed, s.arrived, |s.drained|);
  }

  lemma HandleHand(s: State, a: Action)
    requires Inv(s) && Possible(s, a) && a.Handle? && Ordered(Do(s, a))
    ensures |s.queued| - s.reaped + |Hand(Do(s, a))| <= RING
  {
    WindowSizes(s);
  }

  lemma HandleInv(s: State, a: Action)
    requires Inv(s) && Possible(s, a) && a.Handle?
    ensures Inv(Do(s, a))
  {
    var r := |s.drained|;
    HandleRings(s, a);
    HandleConserves(s, a);
    HandleContents(s, a);
    assert s.rx[SlotOf(r)].address == At(s.armed[r]);
    HandleHand(s, a);
  }

  lemma RxDetachConserves(s: State)
    requires Inv(s) && s.pc.RxDetach?
    ensures CpuEnabled(s) && Ordered(CpuStep(s)) && AllEight(Circulating(CpuStep(s)))
  {
    assert Circulating(CpuStep(s)) == Circulating(s);
  }

  lemma RxDetachRings(s: State)
    requires Inv(s) && s.pc.RxDetach?
    ensures CpuEnabled(s) && Ordered(CpuStep(s)) && RingsAgree(CpuStep(s))
  {
    WindowSizes(s);
    NextSlot(|s.drained| - 1);
    RxFree(s.rx, s.armed, s.arrived, |s.drained|, |s.drained| + RING - 1, s.rx[s.pc.slot].(address := Null));
  }

  lemma RxDetachPending(s: State)
    requires Inv(s) && s.pc.RxDetach?
    ensures CpuEnabled(s) && PendingReply(CpuStep(s)) == PendingReply(s) && Hand(CpuStep(s)) == Hand(s)
  {
  }

  lemma RxDetachInv(s: State)
    requires Inv(s) && s.pc.RxDetach?
    ensures CpuEnabled(s) && Inv(CpuStep(s))
  {
    RxDetachConserves(s);
    RxDetachRings(s);
    RxDetachPending(s);
  }

  lemma EnqueueOwnConserves(s: State)
    requires Inv(s) && s.pc.EnqueueOwn? && Ordered(CpuStep(s))
    ensures AllEight(Circulating(CpuStep(s)))
  {
    assert Circulating(s) == Windows(s.armed, |s.drained|, s.queued, s.reaped, [s.pc.pkt]);
    QueueConserves(s.armed, |s.drained|, s.queued, s.reaped, s.pc.pkt);
    assert Circulating(CpuStep(s)) == Windows(s.armed, |s.drained|, s.queued + [s.pc.pkt], s.reaped, []);
  }

  lemma EnqueueOwnRings(s: State)
    requires Inv(s) && s.pc.EnqueueOwn?
    ensures Ordered(CpuStep(s)) && RingsAgree(CpuStep(s))
  {
    WindowSizes(s);
    TxPublish(s.tx, s.queued, s.outgoing, s.reaped, |s.sent|, s.pc.pkt, Departure(s.memory[s.pc.pkt], s.pc.len));
  }

  lemma EnqueueOwnInv(s: State)
    requires Inv(s) && s.pc.EnqueueOwn?
    ensures Inv(CpuStep(s))
  {
    var o := Departure(s.memory[s.pc.pkt], s.pc.len);
    EnqueueOwnRings(s);
    HistoryQueue(s.arrived, s.drained, s.outgoing, s.sent, o);
    EnqueueOwnConserves(s);
  }

  lemma DoneOwnConserves(s: State)
    requires Inv(s) && s.pc.DoneOwn? && Ordered(CpuStep(s))
    ensures AllEight(Circulating(CpuStep(s)))
  {
    var t, r, p, b := CpuStep(s), |s.drained|, s.reaped, s.pc.pkt;
    if s.pc.caller.FromRx? {
      assert Circulating(s) == Windows(s.armed, r, s.queued, p, [b]);
      RecycleConserves(s.armed, r, s.queued, p, b);
      assert Circulating(t) == Windows(s.armed + [b], r, s.queued, p, []);
    } else {
      assert Circulating(s) == Windows(s.armed, r, s.queued, p, []);
      ReapConserves(s.armed, r, s.queued, p);
      assert Circulating(t) == Windows(s.armed + [b], r, s.queued, p + 1, []);
    }
  }

  lemma DoneOwnRings(s: State)
    requires Inv(s) && s.pc.DoneOwn?
    ensures Ordered(CpuStep(s)) && RingsAgree(CpuStep(s))
  {
    WindowSizes(s);
    NextSlot(|s.armed|);
    RxArm(s.rx, s.armed, s.arrived, |s.drained|, s.pc.pkt, s.rx[s.pc.slot].(status := RX_OWNED));
  }

  lemma DoneOwnInv(s: State)
    requires Inv(s) && s.pc.DoneOwn?
    ensures Inv(CpuStep(s))
  {
    DoneOwnRings(s);
    DoneOwnConserves(s);
  }

  lemma PositionOf(i: Slot, r: nat) returns (k: nat)
    ensures r <= k < r + RING && SlotOf(k) == i
  {
    k := r + (i - r) % 8;
    AddMod(i - r, r, 8);
  }

  /** The engines only complete descriptors of their live windows. */
  lemma ReceivePending(s: State)
    requires Inv(s) && s.rx[s.dmaRx].status.own
    ensures |s.arrived| < |s.armed| && s.rx[s.dmaRx].address == At(s.armed[|s.arrived|])
  {
    WindowSizes(s);
    NextSlot(|s.drained|);
    assert s.rx[SlotOf(|s.drained|)].status.own == (|s.arrived| <= |s.drained| < |s.armed|);
    assert |s.arrived| < |s.drained| + RING ==> s.rx[SlotOf(|s.arrived|)].status.own == (|s.arrived| < |s.armed|);
  }

  lemma DmaConserves(s: State, a: Action)
    requires Ordered(s) && AllEight(Circulating(s))
    requires Possible(s, a) && (a.DmaReceive? || a.DmaTransmit?) && Ordered(Do(s, a))
    ensures AllEight(Circulating(Do(s, a))) && Hand(Do(s, a)) == Hand(s)
  {
    assert Hand(Do(s, a)) == Hand(s);
    assert Circulating(Do(s, a)) == Circulating(s);
  }

  lemma DmaReceiveContents(s: State, a: Action)
    requires Inv(s) && Possible(s, a) && a.DmaReceive? && Ordered(Do(s, a))
    ensures ContentsAgree(Do(s, a))
  {
    var t, n := Do(s, a), |s.arrived|;
    var b := s.armed[n];
    WindowsDisjoint(s);
    assert s.rx[SlotOf(n)].address == At(b);
    ReceivedMore(s.memory, s.armed, s.arrived, |s.drained|, Arrival(a.frame, a.status));
    UnsentKept(s.memory, s.queued, s.outgoing, ReapedTo(s), |s.sent|, b, a.frame);
    PendingKept(s, t, b);
  }

  lemma DmaReceiveRings(s: State, a: Action)
    requires Inv(s) && Possible(s, a) && a.DmaReceive?
    ensures Ordered(Do(s, a)) && RingsAgree(Do(s, a))
  {
    WindowSizes(s);
    ReceivePending(s);
    RxComplete(s.rx, s.armed, s.arrived, |s.drained|, a.frame, a.status);
  }

  /** Completing a descriptor in the owned window leaves the interrupt code's own slots alone. */
  lemma DmaReceiveLocals(s: State, a: Action)
    requires Inv(s) && Possible(s, a) && a.DmaReceive? && Ordered(Do(s, a))
    ensures LocalsAgree(Do(s, a))
  {
  }

  lemma DmaReceiveCursors(s: State, a: Action)
    requires CursorsAgree(s) && Possible(s, a) && a.DmaReceive? && Hand(Do(s, a)) == Hand(s)
    requires s.rx[s.dmaRx].rer == (s.dmaRx == RING - 1)
    ensures CursorsAgree(Do(s, a))
  {
  }

  lemma DmaReceiveInv(s: State, a: Action)
    requires Inv(s) && Possible(s, a) && a.DmaReceive?
    ensures Inv(Do(s, a))
  {
    DmaReceiveRings(s, a);
    DmaReceiveContents(s, a);
    DmaReceiveLocals(s, a);
    DmaConserves(s, a);
    DmaReceiveCursors(s, a);
  }

  lemma TransmitPending(s: State)
    requires Inv(s) && s.tx[s.dmaTx].status.own
    ensures |s.sent| < |s.queued| && s.tx[s.dmaTx].address == At(s.queued[|s.sent|])
    ensures s.tx[s.dmaTx].size == s.outgoing[|s.sent|].size
  {
    WindowSizes(s);
    NextSlot(s.reaped);
    assert s.tx[SlotOf(s.reaped)].status.own == (|s.sent| <= s.reaped < |s.queued|);
    assert |s.sent| < s.reaped + RING ==> s.tx[SlotOf(|s.sent|)].status.own == (|s.sent| < |s.queued|);
  }

  lemma DmaTransmitContents(s: State, a: Action)
    requires Inv(s) && Possible(s, a) && a.DmaTransmit? && Ordered(Do(s, a))
    ensures ContentsAgree(Do(s, a))
  {
  }

  lemma DmaTransmitRings(s: State, a: Action)
    requires Inv(s) && Possible(s, a) && a.DmaTransmit?
    ensures Ordered(Do(s, a)) && RingsAgree(Do(s, a))
  {
    WindowSizes(s);
    TransmitPending(s);
    TxSend(s.tx, s.queued, s.outgoing, s.reaped, |s.sent|, s.pc.EnqueueOwn?, a.report);
  }

  lemma DmaTransmitLocals(s: State, a: Action)
    requires Inv(s) && Possible(s, a) && a.DmaTransmit? && Ordered(Do(s, a))
    ensures LocalsAgree(Do(s, a))
  {
  }

  lemma DmaTransmitCursors(s: State, a: Action)
    requires CursorsAgree(s) && Possible(s, a) && a.DmaTransmit? && Hand(Do(s, a)) == Hand(s)
    requires s.tx[s.dmaTx].status.ter == (s.dmaTx == RING - 1)
    ensures CursorsAgree(Do(s, a))
  {
  }

  lemma DmaTransmitInv(s: State, a: Action)
    requires Inv(s) && Possible(s, a) && a.DmaTransmit?
    ensures Inv(Do(s, a))
  {
    DmaTransmitRings(s, a);
    DmaTransmitContents(s, a);
    DmaTransmitLocals(s, a);
    DmaConserves(s, a);
    DmaTransmitCursors(s, a);
  }

  // ----- All steps together -----

  /** Every step that does not stray keeps the invariant. */
  lemma StepInv(s: State, a: Action)
    requires Inv(s) && Possible(s, a) && !Strays(s, a)
    ensures Inv(Do(s, a))
  {
    match a
    case StartRx => StartInv(s, a);
    case StartTx => StartInv(s, a);
    case Handle(_, _) => HandleInv(s, a);
    case DmaReceive(_, _) => DmaReceiveInv(s, a);
    case DmaTransmit(_) => DmaTransmitInv(s, a);
    case Cpu =>
      match s.pc
      case RxTop => RxTopInv(s);
      case RxCheck(_) =>
        if s.rx[s.receiveRd].address.Null? {
          RxCheckExitInv(s);
        } else {
          RxCheckTakeInv(s);
        }
      case RxDetach(_, _) => RxDetachInv(s);
      case Enqueue(_, _) => EnqueueInv(s);
      case EnqueueSize(_, _, _, _) => EnqueueSizeInv(s);
      case EnqueueAddress(_, _, _, _) => EnqueueAddressInv(s);
      case EnqueueOwn(_, _, _, _) => EnqueueOwnInv(s);
      case Done(_, _) => DoneInv(s);
      case DoneAddress(_, _, _) => DoneAddressInv(s);
      case DoneOwn(_, _, _) => DoneOwnInv(s);
      case ReapTop => ReapTopInv(s);
      case ReapCheck => ReapCheckInv(s);
      case ReapClear => ReapClearInv(s);
  }

  /** As long as no step has strayed, every state of every run satisfies the invariant. */
  lemma {:induction false} RunInv(states: seq<State>, actions: seq<Action>, n: nat)
    requires Run(states, actions) && n < |states| && Steady(states, actions, n)
    ensures Inv(states[n])
  {
    if n == 0 {
      var memory :| |memory| == SPARE + 1 && states[0] == Init(memory);
      InitInv(memory);
    } else {
      RunInv(states, actions, n - 1);
      StepInv(states[n - 1], actions[n - 1]);
    }
  }

  lemma StartOfRun(memory: seq<Frame>)
    requires |memory| == SPARE + 1
    ensures Run([Init(memory)], [])
  {
  }

  lemma StepKeepsShape(s: State, a: Action)
    requires Possible(s, a)
    ensures Do(s, a).Shaped()
  {
  }

  lemma RunExtends(states: seq<State>, actions: seq<Action>, a: Action)
    requires Run(states, actions) && Possible(states[|actions|], a)
    ensures Run(states + [Do(states[|actions|], a)], actions + [a])
  {
    var states', actions' := states + [Do(states[|actions|], a)], actions + [a];
    assert states'[0] == states[0];
    forall i | 0 <= i < |actions'|
      ensures Possible(states'[i], actions'[i]) && states'[i + 1] == Do(states'[i], actions'[i])
    {
      if i < |actions| {
        assert states'[i] == states[i] && states'[i + 1] == states[i + 1] && actions'[i] == actions[i];
      }
    }
  }
}
