/** The buffer protocol with the frame handler in it: what the firmware sends is the answers to
    what it receives. */
module Service {
  import opened DmaRing
  import opened RingInvariant
  import opened RingSteps
  import opened RingTheorems
  import opened ObservedEngine
  import opened Answers = Replies

  /** A handled frame is left as `PacketRxInterrupt` leaves it; `streams[k]` is what the
      generators deliver for the `k`-th drained frame. */
  ghost predicate Follows(s: State, a: Action, own: Host, streams: seq<Streams>)
    requires own.Valid()
  {
    Possible(s, a) && a.Handle? ==>
      && |s.drained| < |streams|
      && (Acceptable(s.pc.status) ==>
            (a.reply, a.next) == Answer(s.memory[s.rx[s.pc.slot].address.buffer], own, streams[|s.drained|]))
  }

  ghost predicate HandledBy(states: seq<State>, actions: seq<Action>, own: Host, streams: seq<Streams>)
    requires own.Valid() && |actions| < |states|
  {
    forall m :: 0 <= m < |actions| ==> Follows(states[m], actions[m], own, streams)
  }

  lemma HandledExtends(states: seq<State>, actions: seq<Action>, own: Host, streams: seq<Streams>, s: State, a: Action)
    requires own.Valid() && |states| == |actions| + 1 && HandledBy(states, actions, own, streams)
    requires Follows(states[|actions|], a, own, streams)
    ensures HandledBy(states + [s], actions + [a], own, streams)
  {
  }

  lemma MoreStreams(states: seq<State>, actions: seq<Action>, own: Host, streams: seq<Streams>, x: Streams)
    requires own.Valid() && |actions| < |states| && HandledBy(states, actions, own, streams)
    ensures HandledBy(states, actions, own, streams + [x])
  {
    forall m | 0 <= m < |actions| ensures Follows(states[m], actions[m], own, streams + [x]) {
      assert Follows(states[m], actions[m], own, streams);
    }
  }

  /** A run of the observed engine in which frames are handled as `PacketRxInterrupt` does. */
  ghost predicate Lawful(states: seq<State>, actions: seq<Action>, own: Host, streams: seq<Streams>) {
    own.Valid() && Run(states, actions) && Observed(states, actions) && HandledBy(states, actions, own, streams)
  }

  lemma LawfulExtends(states: seq<State>, actions: seq<Action>, own: Host, streams: seq<Streams>, a: Action)
    requires Lawful(states, actions, own, streams)
    requires var s := states[|actions|]; Possible(s, a) && LeavesOne(s, a) && Follows(s, a, own, streams)
    ensures Lawful(states + [Do(states[|actions|], a)], actions + [a], own, streams)
  {
    var s := Do(states[|actions|], a);
    RunExtends(states, actions, a);
    ObservedExtends(states, actions, s, a);
    HandledExtends(states, actions, own, streams, s, a);
  }

  /** The answer to one arrival, if it has one. A frame with an error or in parts has none. */
  function AnswerTo(a: Arrival, own: Host, s: Streams): seq<Departure>
    requires own.Valid()
  {
    var (g, n) := Answer(a.frame, own, s);
    if !a.status.es && a.status.fs && a.status.ls && n >= 0 then [Departure(g, n)] else []
  }

  /** The answers to the arrivals, in order. */
  function AnswersTo(arrivals: seq<Arrival>, own: Host, streams: seq<Streams>): seq<Departure>
    requires own.Valid() && |arrivals| <= |streams|
  {
    if arrivals == [] then []
    else
      var k := |arrivals| - 1;
      AnswersTo(arrivals[..k], own, streams) + AnswerTo(arrivals[k], own, streams[k])
  }

  lemma HandleAnswers(s: State, a: Action, own: Host, streams: seq<Streams>)
    requires own.Valid() && Possible(s, a) && a.Handle? && Follows(s, a, own, streams)
    requires Replies(s.drained) == AnswersTo(Arrivals(s.drained), own, streams)
    ensures Replies(Do(s, a).drained) == AnswersTo(Arrivals(Do(s, a).drained), own, streams)
  {
    var os, os' := s.drained, Do(s, a).drained;
    assert os'[..|os|] == os && Arrivals(os')[..|os|] == Arrivals(os);
  }

  lemma OtherDrained(s: State, a: Action)
    requires Possible(s, a) && !a.Handle?
    ensures Do(s, a).drained == s.drained
  {
  }

  lemma {:induction false} DrainedAnswers(states: seq<State>, actions: seq<Action>, n: nat,
                                         own: Host, streams: seq<Streams>)
    requires own.Valid() && Run(states, actions) && n < |states| && HandledBy(states, actions, own, streams)
    ensures |states[n].drained| <= |streams|
    ensures Replies(states[n].drained) == AnswersTo(Arrivals(states[n].drained), own, streams)
  {
    if n > 0 {
      var s, a := states[n - 1], actions[n - 1];
      DrainedAnswers(states, actions, n - 1, own, streams);
      assert Follows(s, a, own, streams);
      if a.Handle? {
        HandleAnswers(s, a, own, streams);
      } else {
        OtherDrained(s, a);
      }
    }
  }

  /** What became of each drained frame, by the flags of its descriptor: it is answered exactly
      when it came whole and without error and has an answer, which then is what is left in the
      buffer; a frame that the flags refuse stays as it arrived. */
  lemma {:induction false} DrainedOutcome(states: seq<State>, actions: seq<Action>, n: nat,
                                          own: Host, streams: seq<Streams>, k: nat)
    requires own.Valid() && Run(states, actions) && n < |states| && HandledBy(states, actions, own, streams)
    requires k < |states[n].drained|
    ensures k < |streams|
    ensures var o := states[n].drained[k];
            var (status, (g, len)) := (o.arrival.status, Answer(o.arrival.frame, own, streams[k]));
            && (o.next >= 0 <==> !status.es && status.fs && status.ls && len >= 0)
            && (!status.es && status.fs && status.ls ==> o.next == len && o.reply == g)
            && (status.es || !status.fs || !status.ls ==> o.next == -1 && o.reply == o.arrival.frame)
  {
    if n > 0 {
      var s, a := states[n - 1], actions[n - 1];
      assert Follows(s, a, own, streams);
      if !a.Handle? {
        OtherDrained(s, a);
      }
      if k < |s.drained| {
        DrainedOutcome(states, actions, n - 1, own, streams, k);
      }
    }
  }

  /** In every state of a run, what was sent, is queued or about to be queued is the answers to
      the arrivals drained so far, in order. */
  lemma SendsAnswers(states: seq<State>, actions: seq<Action>, n: nat, own: Host, streams: seq<Streams>)
    requires own.Valid() && Run(states, actions) && n < |states| && Steady(states, actions, n)
    requires HandledBy(states, actions, own, streams)
    ensures var s := states[n];
            && s.Shaped() && |s.drained| <= |s.arrived| && |s.drained| <= |streams| && s.sent <= s.outgoing
            && s.outgoing + PendingReply(s) == AnswersTo(s.arrived[..|s.drained|], own, streams)
  {
    ExactlyOnceInOrder(states, actions, n);
    DrainedAnswers(states, actions, n, own, streams);
    assert Arrivals(states[n].drained) == states[n].arrived[..|states[n].drained|];
  }

  /** At rest, exactly the answers to all arrivals have been sent. */
  lemma AllAnswered(states: seq<State>, actions: seq<Action>, n: nat, own: Host, streams: seq<Streams>)
    requires own.Valid() && Run(states, actions) && n < |states| && Steady(states, actions, n)
    requires HandledBy(states, actions, own, streams)
    requires states[n].pc.Idle? && states[n].Shaped()
    requires states[n].rx[states[n].receiveRd].status.own
    requires forall i: Slot :: !states[n].tx[i].status.own
    ensures |states[n].arrived| <= |streams| && states[n].sent == AnswersTo(states[n].arrived, own, streams)
  {
    AllServed(states, actions, n);
    DrainedAnswers(states, actions, n, own, streams);
  }

  // ----- Reply loops -----

  /** Every departure is the answer to one of the arrivals, which came whole and without error. */
  lemma {:induction false} AnswerOf(arrivals: seq<Arrival>, own: Host, streams: seq<Streams>, d: Departure)
      returns (k: nat)
    requires own.Valid() && |arrivals| <= |streams| && d in AnswersTo(arrivals, own, streams)
    ensures k < |arrivals| && 0 <= d.size && (d.frame, d.size) == Answer(arrivals[k].frame, own, streams[k])
    ensures !arrivals[k].status.es && arrivals[k].status.fs && arrivals[k].status.ls
  {
    k := |arrivals| - 1;
    if d in AnswersTo(arrivals[..k], own, streams) {
      k := AnswerOf(arrivals[..k], own, streams, d);
    }
  }

  lemma SentAnswer(states: seq<State>, actions: seq<Action>, n: nat, own: Host, streams: seq<Streams>, d: Departure)
      returns (k: nat)
    requires own.Valid() && Run(states, actions) && n < |states| && Steady(states, actions, n)
    requires HandledBy(states, actions, own, streams) && d in states[n].sent
    ensures k < |states[n].arrived| && k < |streams|
    ensures 0 <= d.size && (d.frame, d.size) == Answer(states[n].arrived[k].frame, own, streams[k])
    ensures var status := states[n].arrived[k].status; !status.es && status.fs && status.ls
  {
    var t := states[n];
    SendsAnswers(states, actions, n, own, streams);
    assert d in t.outgoing + PendingReply(t);
    k := AnswerOf(t.arrived[..|t.drained|], own, streams, d);
  }

  /** If the first `k` bytes of a departure go out, and they are at least 35 or the hardware
      pads them with zeros, then no host that runs this code answers what it has received. */
  lemma NoLoops(states: seq<State>, actions: seq<Action>, n: nat, own: Host, streams: seq<Streams>,
                d: Departure, g: Frame, k: nat, other: Host, s: Streams)
    requires own.Valid() && Run(states, actions) && n < |states| && Steady(states, actions, n)
    requires HandledBy(states, actions, own, streams) && d in states[n].sent && other.Valid()
    requires Carries(g, d.frame, k) && (k >= 35 || Padded(g, k))
    ensures Answer(g, other, s) == (g, PACKET_PROCESSED)
  {
    var j := SentAnswer(states, actions, n, own, streams, d);
    NoReplyToReply(states[n].arrived[j].frame, own, streams[j], g, k, other, s);
  }

  /** Without padding, a departure is certain not to be answered, whatever its receiver's buffer
      held before, if and only if its size is at least 35. */
  lemma LoopFreeIff(states: seq<State>, actions: seq<Action>, n: nat, own: Host, streams: seq<Streams>, d: Departure)
    requires own.Valid() && Run(states, actions) && n < |states| && Steady(states, actions, n)
    requires HandledBy(states, actions, own, streams) && d in states[n].sent
    ensures 0 <= d.size
    ensures (forall g, other: Host :: other.Valid() && Carries(g, d.frame, d.size) ==> KindOf(g, other).Other?)
       <==> d.size >= 35
  {
    var j := SentAnswer(states, actions, n, own, streams, d);
    UnansweredIff(states[n].arrived[j].frame, own, streams[j]);
  }
}
