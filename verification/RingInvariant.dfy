/** What every run of the buffer protocol keeps.

    Ring positions are counted without wrap: position `k` of a ring lives in slot `k % 8`.
    Position `k` of the receive ring belongs to the `k`-th buffer ever handed to the receive
    engine, position `k` of the transmit ring to the `k`-th buffer ever queued. */
module RingInvariant {
  import opened Counting
  import opened DmaRing

  /** The slot of ring position `k`. */
  function SlotOf(k: nat): Slot {
    k % 8
  }

  // ----- The buffers in circulation -----

  /** The buffer the interrupt code holds that neither ring accounts for. */
  function Hand(s: State): seq<Buffer> {
    match s.pc
    case RxDetach(_, _) => if s.drained != [] && |s.drained| <= |s.armed| then [s.armed[|s.drained| - 1]] else []
    case Enqueue(pkt, _) => [pkt]
    case EnqueueSize(_, _, pkt, _) => [pkt]
    case EnqueueAddress(_, _, pkt, _) => [pkt]
    case EnqueueOwn(_, _, pkt, _) => [pkt]
    case Done(pkt, FromRx) => [pkt]
    case DoneAddress(_, pkt, FromRx) => [pkt]
    case DoneOwn(_, pkt, FromRx) => [pkt]
    case _ => []
  }

  /** The first transmit position whose buffer has not moved on to the receive ring. */
  function ReapedTo(s: State): nat {
    s.reaped + (if s.pc.ReapClear? then 1 else 0)
  }

  ghost predicate Ordered(s: State) {
    && |s.drained| <= |s.arrived| <= |s.armed|
    && s.reaped <= ReapedTo(s) <= |s.sent| <= |s.queued| == |s.outgoing|
  }

  /** The receive live window from position `r`, the transmit live window from position `p`,
      and the hand. */
  ghost function Windows(armed: seq<Buffer>, r: nat, queued: seq<Buffer>, p: nat, hand: seq<Buffer>): seq<Buffer>
    requires r <= |armed| && p <= |queued|
  {
    armed[r..] + queued[p..] + hand
  }

  ghost function Circulating(s: State): seq<Buffer>
    requires Ordered(s)
  {
    Windows(s.armed, |s.drained|, s.queued, ReapedTo(s), Hand(s))
  }

  ghost predicate AllEight(bs: seq<Buffer>) {
    forall b: Buffer :: multiset(bs)[b] == (if b < SPARE then 1 else 0)
  }

  // ----- The invariant, part by part -----

  /** The masked cursors, and the engines' own positions, against the unbounded counts. */
  ghost predicate CursorsAgree(s: State) {
    && s.inPool == SPARE
    && s.receiveRd == SlotOf(|s.drained| + (if s.pc.RxHandle? then 1 else 0))
    && s.receiveWr == SlotOf(|s.armed| + (if s.pc.DoneAddress? || s.pc.DoneOwn? then 1 else 0))
    && s.transmitRd == SlotOf(|s.queued| +
         (if s.pc.EnqueueSize? || s.pc.EnqueueAddress? || s.pc.EnqueueOwn? then 1 else 0))
    && s.transmitWr == SlotOf(s.reaped)
    && s.dmaRx == SlotOf(|s.arrived|)
    && s.dmaTx == SlotOf(|s.sent|)
    && |s.queued| - s.reaped + |Hand(s)| <= RING
  }

  /** A receive position is owned by the engine exactly in the window from the next arrival to
      the last armed one; the positions before that hold the undrained frames. */
  ghost predicate RxRingAgrees(rx: seq<RxDesc>, armed: seq<Buffer>, arrived: seq<Arrival>, r: nat)
    requires |rx| == RING && |arrived| <= |armed|
  {
    && (forall i :: 0 <= i < RING ==> rx[i].rer == (i == RING - 1))
    && (forall k: nat {:trigger rx[SlotOf(k)]} :: r <= k < r + RING ==>
          rx[SlotOf(k)].status.own == (|arrived| <= k < |armed|))
    && (forall k: nat {:trigger rx[SlotOf(k)]} :: r <= k < |armed| ==> rx[SlotOf(k)].address == At(armed[k]))
    && (forall k: nat {:trigger rx[SlotOf(k)]} :: r <= k < |arrived| ==> rx[SlotOf(k)].status == arrived[k].status)
  }

  /** The same for the transmit ring; its free positions have no buffer address, unless the
      first of them is about to be published. */
  ghost predicate TxRingAgrees(tx: seq<TxDesc>, queued: seq<Buffer>, outgoing: seq<Departure>,
                               p: nat, d: nat, publishing: bool)
    requires |tx| == RING && |queued| == |outgoing|
  {
    && (forall i :: 0 <= i < RING ==> tx[i].status.ter == (i == RING - 1))
    && (forall k: nat {:trigger tx[SlotOf(k)]} :: p <= k < p + RING ==> tx[SlotOf(k)].status.own == (d <= k < |queued|))
    && (forall k: nat {:trigger tx[SlotOf(k)]} :: p <= k < |queued| ==>
          tx[SlotOf(k)].address == At(queued[k]) && tx[SlotOf(k)].size == outgoing[k].size)
    && (forall k: nat {:trigger tx[SlotOf(k)]} :: |queued| <= k < p + RING && !(publishing && k == |queued|) ==>
          tx[SlotOf(k)].address == Null)
  }

  /** Frames stay in their buffers until they are drained... */
  ghost predicate Received(memory: seq<Frame>, armed: seq<Buffer>, arrived: seq<Arrival>, r: nat)
    requires |memory| == SPARE + 1 && |arrived| <= |armed|
  {
    forall k: nat :: r <= k < |arrived| ==> memory[armed[k]] == arrived[k].frame
  }

  /** ... and replies until they are sent. */
  ghost predicate Unsent(memory: seq<Frame>, queued: seq<Buffer>, outgoing: seq<Departure>, d: nat)
    requires |memory| == SPARE + 1 && |queued| == |outgoing|
  {
    forall k: nat :: d <= k < |queued| ==> memory[queued[k]] == outgoing[k].frame
  }

  /** The replies among the outcomes, in order. */
  function Replies(outcomes: seq<Outcome>): seq<Departure> {
    if outcomes == [] then []
    else
      var o := outcomes[|outcomes| - 1];
      Replies(outcomes[..|outcomes| - 1]) + (if o.next >= 0 then [Departure(o.reply, o.next)] else [])
  }

  /** The reply that the interrupt code is about to queue. */
  function PendingReply(s: State): seq<Departure>
    requires s.Shaped()
  {
    match s.pc
    case RxDetach(_, len) =>
      if s.drained != [] && |s.drained| <= |s.armed| then [Departure(s.memory[s.armed[|s.drained| - 1]], len)] else []
    case Enqueue(pkt, len) => [Departure(s.memory[pkt], len)]
    case EnqueueSize(_, _, pkt, len) => [Departure(s.memory[pkt], len)]
    case EnqueueAddress(_, _, pkt, len) => [Departure(s.memory[pkt], len)]
    case EnqueueOwn(_, _, pkt, len) => [Departure(s.memory[pkt], len)]
    case _ => []
  }

  /** Every frame is drained once, in order of arrival; every reply is queued once, in order
      of its frame, and sent in order of queueing. */
  ghost predicate HistoryAgrees(arrived: seq<Arrival>, drained: seq<Outcome>, outgoing: seq<Departure>,
                                pending: seq<Departure>, sent: seq<Departure>) {
    && |drained| <= |arrived| && |sent| <= |outgoing|
    && (forall k: nat :: k < |drained| ==> drained[k].arrival == arrived[k])
    && outgoing + pending == Replies(drained)
    && sent == outgoing[..|sent|]
  }

  /** What the interrupt code's local variables know. */
  ghost predicate LocalsAgree(s: State)
    requires s.Shaped() && Ordered(s)
  {
    match s.pc
    case RxCheck(status) =>
      || (|s.drained| < |s.arrived| && status == s.rx[s.receiveRd].status)
      || |s.drained| == |s.arrived| == |s.armed|
    case RxHandle(slot, status) =>
      |s.drained| < |s.arrived| && slot == SlotOf(|s.drained|) && status == s.rx[slot].status
    case RxDetach(slot, len) =>
      && s.drained != [] && slot == SlotOf(|s.drained| - 1)
      && s.rx[slot].address == At(s.armed[|s.drained| - 1])
    case EnqueueSize(slot, status, _, _) =>
      slot == SlotOf(|s.queued|) && status == s.tx[slot].status
    case EnqueueAddress(slot, status, _, len) =>
      slot == SlotOf(|s.queued|) && status == s.tx[slot].status && s.tx[slot].size == len
    case EnqueueOwn(slot, status, pkt, len) =>
      && slot == SlotOf(|s.queued|) && status == s.tx[slot].status
      && s.tx[slot].size == len && s.tx[slot].address == At(pkt)
    case Done(pkt, FromTx) =>
      s.reaped < |s.sent| && pkt == s.queued[s.reaped]
    case DoneAddress(slot, pkt, caller) =>
      slot == SlotOf(|s.armed|) && (caller.FromTx? ==> s.reaped < |s.sent| && pkt == s.queued[s.reaped])
    case DoneOwn(slot, pkt, caller) =>
      && slot == SlotOf(|s.armed|) && s.rx[slot].address == At(pkt)
      && (caller.FromTx? ==> s.reaped < |s.sent| && pkt == s.queued[s.reaped])
    case ReapCheck => s.reaped <= |s.sent| && (|s.sent| == s.reaped ==> |s.queued| == s.reaped)
    case _ => true
  }

  ghost predicate RingsAgree(s: State)
    requires s.Shaped() && Ordered(s)
  {
    && RxRingAgrees(s.rx, s.armed, s.arrived, |s.drained|)
    && TxRingAgrees(s.tx, s.queued, s.outgoing, s.reaped, |s.sent|, s.pc.EnqueueOwn?)
  }

  ghost predicate ContentsAgree(s: State)
    requires s.Shaped() && Ordered(s)
  {
    && Received(s.memory, s.armed, s.arrived, |s.drained|)
    && Unsent(s.memory, s.queued, s.outgoing, |s.sent|)
    && HistoryAgrees(s.arrived, s.drained, s.outgoing, PendingReply(s), s.sent)
  }

  ghost predicate Inv(s: State) {
    && s.Shaped() && Ordered(s) && AllEight(Circulating(s))
    && CursorsAgree(s) && RingsAgree(s) && ContentsAgree(s) && LocalsAgree(s)
  }

  // ----- Consequences of conservation -----

  lemma SingleOccurrences<T(!new)>(s: seq<T>)
    requires forall x :: multiset(s)[x] <= 1
    ensures Distinct(s)
  {
    forall i, j | 0 <= i < j < |s| ensures s[i] != s[j] {
      OccursTwice(s, i, j);
    }
  }

  lemma OccursTwice<T>(s: seq<T>, i: nat, j: nat)
    requires i < j < |s|
    ensures s[i] == s[j] ==> multiset(s)[s[i]] >= 2
  {
    var a, b := s[..j], s[j..];
    assert s == a + b;
    assert a[i] in multiset(a) && b[0] in multiset(b);
  }

  lemma ConcatDistinct<T(!new)>(a: seq<T>, b: seq<T>)
    requires Distinct(a + b)
    ensures Distinct(a) && Distinct(b)
    ensures forall x :: x in a ==> x !in b
  {
    var c := a + b;
    forall i, j | 0 <= i < j < |a| ensures a[i] != a[j] {
      assert c[i] != c[j];
    }
    forall i, j | 0 <= i < j < |b| ensures b[i] != b[j] {
      assert c[|a| + i] != c[|a| + j];
    }
    forall x | x in a ensures x !in b {
      var i :| 0 <= i < |a| && a[i] == x;
      forall j | 0 <= j < |b| ensures b[j] != x {
        assert c[i] != c[|a| + j];
      }
    }
  }

  lemma EightInAll(c: seq<Buffer>)
    requires AllEight(c)
    ensures |c| == RING
  {
    var eight: multiset<Buffer> := multiset{0, 1, 2, 3, 4, 5, 6, 7};
    forall b: Buffer ensures multiset(c)[b] == eight[b] {
    }
    assert multiset(c) == eight;
    assert |multiset(c)| == |c|;
  }

  /** The circulating buffers are the first eight, each once. */
  lemma CirculatingDistinct(s: State)
    requires Ordered(s) && AllEight(Circulating(s))
    ensures Distinct(Circulating(s)) && |Circulating(s)| == RING
    ensures forall b :: b in Circulating(s) ==> b < SPARE
  {
    var c := Circulating(s);
    EightInAll(c);
    SingleOccurrences(c);
    forall b | b in c ensures b < SPARE {
      assert b in multiset(c);
    }
  }

  lemma ConcatMembers<T>(a: seq<T>, b: seq<T>, c: seq<T>, x: T)
    ensures x in a + b + c <==> x in a || x in b || x in c
  {
  }

  /** The first eight buffers, and no others, are in a live window or in the hand. */
  lemma CirculatingHas(s: State, b: Buffer)
    requires Ordered(s) && AllEight(Circulating(s))
    ensures b < SPARE <==> b in s.armed[|s.drained|..] || b in s.queued[ReapedTo(s)..] || b in Hand(s)
  {
    var c := Circulating(s);
    assert b in multiset(c) <==> b in c;
    ConcatMembers(s.armed[|s.drained|..], s.queued[ReapedTo(s)..], Hand(s), b);
  }

  ghost predicate DistinctFrom(q: seq<Buffer>, first: nat) {
    forall i, j :: first <= i < j < |q| ==> q[i] != q[j]
  }

  ghost predicate Absent(b: Buffer, q: seq<Buffer>, first: nat) {
    forall i :: first <= i < |q| ==> q[i] != b
  }

  lemma SliceFacts(q: seq<Buffer>, first: nat)
    requires first <= |q|
    ensures Distinct(q[first..]) ==> DistinctFrom(q, first)
    ensures forall b :: b !in q[first..] ==> Absent(b, q, first)
    ensures forall i :: first <= i < |q| ==> q[i] in q[first..]
  {
  }

  /** Window by window: no buffer is in two places. */
  lemma WindowsDisjoint(s: State)
    requires Ordered(s) && AllEight(Circulating(s))
    ensures DistinctFrom(s.armed, |s.drained|) && DistinctFrom(s.queued, ReapedTo(s))
    ensures forall i :: |s.drained| <= i < |s.armed| ==> Absent(s.armed[i], s.queued, ReapedTo(s))
    ensures forall i :: ReapedTo(s) <= i < |s.queued| ==> Absent(s.queued[i], s.armed, |s.drained|)
    ensures forall b :: b in Hand(s) ==> Absent(b, s.armed, |s.drained|) && Absent(b, s.queued, ReapedTo(s))
    ensures |s.armed| - |s.drained| + |s.queued| - ReapedTo(s) + |Hand(s)| == RING
  {
    var a, b, h := s.armed[|s.drained|..], s.queued[ReapedTo(s)..], Hand(s);
    CirculatingDistinct(s);
    ConcatDistinct(a + b, h);
    ConcatDistinct(a, b);
    SliceFacts(s.armed, |s.drained|);
    SliceFacts(s.queued, ReapedTo(s));
  }

  // ----- The initial state -----

  lemma AppendCount(bs: seq<Buffer>, x: Buffer, b: Buffer)
    ensures multiset(bs + [x])[b] == multiset(bs)[b] + (if x == b then 1 else 0)
  {
  }

  lemma {:induction false} CountUpTo(bs: seq<Buffer>, n: nat, b: Buffer)
    requires n <= |bs| && forall i :: 0 <= i < |bs| ==> bs[i] == i
    ensures multiset(bs[..n])[b] == (if b < n then 1 else 0)
  {
    if n > 0 {
      CountUpTo(bs, n - 1, b);
      AppendCount(bs[..n - 1], bs[n - 1], b);
      assert bs[..n - 1] + [bs[n - 1]] == bs[..n];
    }
  }

  lemma FirstEight(bs: seq<Buffer>)
    requires |bs| == RING && forall i :: 0 <= i < RING ==> bs[i] == i
    ensures AllEight(bs)
  {
    forall b: Buffer ensures multiset(bs)[b] == (if b < SPARE then 1 else 0) {
      CountUpTo(bs, |bs|, b);
      assert bs[..|bs|] == bs;
    }
  }

  lemma InitCirculates(s: State, memory: seq<Frame>)
    requires |memory| == SPARE + 1 && s == Init(memory)
    ensures Ordered(s) && AllEight(Circulating(s))
  {
    var all: seq<Buffer> := [0, 1, 2, 3, 4, 5, 6, 7];
    assert s.armed == all && s.queued == [] && Hand(s) == [];
    assert Circulating(s) == all;
    FirstEight(all);
  }

  lemma InitInv(memory: seq<Frame>)
    requires |memory| == SPARE + 1
    ensures Inv(Init(memory))
  {
    var s := Init(memory);
    InitCirculates(s, memory);
    forall k: nat | k < RING ensures SlotOf(k) == k && s.armed[k] == k {
    }
    assert RxRingAgrees(s.rx, s.armed, s.arrived, 0);
    assert TxRingAgrees(s.tx, s.queued, s.outgoing, 0, 0, false);
    assert ContentsAgree(s);
  }
}
