// What the phone-home protocol keeps about frames: nothing lost, nothing reordered,
// and the only duplicates a peer can see are immediate repeats of a parked frame.
module Delivery {
  import opened Wrappers
  import opened PhoneHome

  // ---- Views of a log ------------------------------------------------------

  // The frames that serialise, in order.
  function Deliverable(log: seq<Emission>): seq<Emission> {
    if log == [] then []
    else
      var last := log[|log| - 1];
      Deliverable(log[..|log| - 1]) + if last.frame.encodes then [last] else []
  }

  // The frames pushed by the worker of one received command, in order.
  function OfInstance(log: seq<Emission>, instance: nat): seq<Emission> {
    if log == [] then []
    else
      var last := log[|log| - 1];
      OfInstance(log[..|log| - 1], instance) + if last.instance == instance then [last] else []
  }

  function Slot(pending: Option<Emission>): seq<Emission> {
    if pending.Some? then [pending.value] else []
  }

  // A log with immediate repeats merged.
  function Collapse(log: seq<Emission>): seq<Emission> {
    if log == [] then []
    else
      var n := |log| - 1;
      if n > 0 && log[n - 1] == log[n] then Collapse(log[..n]) else Collapse(log[..n]) + [log[n]]
  }

  ghost predicate Increasing(log: seq<Emission>) {
    forall i, j | 0 <= i < j < |log| :: log[i].id < log[j].id
  }

  lemma {:induction false} DeliverableConcat(a: seq<Emission>, b: seq<Emission>)
    ensures Deliverable(a + b) == Deliverable(a) + Deliverable(b)
  {
    if b == [] {
      assert a + b == a;
    } else {
      assert (a + b)[..|a + b| - 1] == a + b[..|b| - 1];
      DeliverableConcat(a, b[..|b| - 1]);
    }
  }

  lemma {:induction false} OfInstanceConcat(a: seq<Emission>, b: seq<Emission>, k: nat)
    ensures OfInstance(a + b, k) == OfInstance(a, k) + OfInstance(b, k)
  {
    if b == [] {
      assert a + b == a;
    } else {
      assert (a + b)[..|a + b| - 1] == a + b[..|b| - 1];
      OfInstanceConcat(a, b[..|b| - 1], k);
    }
  }

  lemma {:induction false} FiltersCommute(log: seq<Emission>, k: nat)
    ensures OfInstance(Deliverable(log), k) == Deliverable(OfInstance(log, k))
  {
    if log != [] {
      var n := |log| - 1;
      var last := log[n];
      FiltersCommute(log[..n], k);
      var kept := if last.frame.encodes then [last] else [];
      var mine := if last.instance == k then [last] else [];
      OfInstanceConcat(Deliverable(log[..n]), kept, k);
      DeliverableConcat(OfInstance(log[..n], k), mine);
    }
  }

  lemma {:induction false} DeliverableIncreasing(log: seq<Emission>)
    requires Increasing(log)
    ensures Increasing(Deliverable(log))
    ensures forall m | m in Deliverable(log) :: m in log && m.frame.encodes
  {
    if log != [] { DeliverableIncreasing(log[..|log| - 1]); }
  }

  lemma {:induction false} CollapseLast(log: seq<Emission>)
    requires log != []
    ensures Collapse(log) != [] && Collapse(log)[|Collapse(log)| - 1] == log[|log| - 1]
  {
    var n := |log| - 1;
    if n > 0 && log[n - 1] == log[n] { CollapseLast(log[..n]); }
  }

  lemma CollapseAppend(log: seq<Emission>, m: Emission)
    ensures Collapse(log + [m]) ==
            if log != [] && log[|log| - 1] == m then Collapse(log) else Collapse(log) + [m]
  {
    assert (log + [m])[..|log|] == log;
  }

  // ---- The invariant -------------------------------------------------------

  ghost predicate Conserved(s: State) {
    s.acked + Slot(s.pending) + Deliverable(s.queue) == Deliverable(s.emitted)
  }

  ghost predicate SlotDiscipline(s: State) {
    && (s.mode.Serving? ==> s.pending.None?)
    && (s.mode.Flushing? ==> s.pending.Some?)
    && (s.pending.Some? ==> s.pending.value.frame.encodes)
  }

  ghost predicate WireFollows(s: State) {
    Collapse(s.wire) == s.acked || (s.pending.Some? && Collapse(s.wire) == s.acked + [s.pending.value])
  }

  ghost predicate Numbered(s: State) {
    && (forall i | 0 <= i < |s.emitted| :: s.emitted[i].id == i && s.emitted[i].instance < |s.received|)
    && (forall i | 0 <= i < |s.emitted| ::
          s.emitted[i].frame.jobId == s.received[s.emitted[i].instance].jobId)
  }

  ghost predicate Inv(s: State) {
    Numbered(s) && Conserved(s) && SlotDiscipline(s) && WireFollows(s)
  }

  // A frame about to be sent for the first time is not the last one acknowledged.
  lemma {:induction false} FreshFrame(emitted: seq<Emission>, acked: seq<Emission>, m: Emission, rest: seq<Emission>)
    requires forall i | 0 <= i < |emitted| :: emitted[i].id == i
    requires acked + [m] + rest == Deliverable(emitted)
    ensures acked != [] ==> acked[|acked| - 1] != m
  {
    DeliverableIncreasing(emitted);
    var d := Deliverable(emitted);
    assert d[|acked|] == m;
    assert acked != [] ==> d[|acked| - 1] == acked[|acked| - 1];
  }

  lemma {:induction false} WireAfterSend(acked: seq<Emission>, wire: seq<Emission>, m: Emission)
    requires acked != [] ==> acked[|acked| - 1] != m
    requires Collapse(wire) == acked || Collapse(wire) == acked + [m]
    ensures Collapse(wire + [m]) == acked + [m]
  {
    CollapseAppend(wire, m);
    if wire != [] { CollapseLast(wire); }
  }

  // What stands before a frame that serialises goes to the socket.
  ghost predicate AboutToSend(s: State, m: Emission) {
    && Numbered(s) && m.frame.encodes && s.pending.None? && s.mode != Flushing
    && s.acked + [m] + Deliverable(s.queue) == Deliverable(s.emitted)
    && (Collapse(s.wire) == s.acked || Collapse(s.wire) == s.acked + [m])
  }

  lemma {:induction false} SendKeepsInv(s: State, m: Emission, write: WriteResult)
    requires AboutToSend(s, m)
    ensures Inv(Send(s, m, write))
  {
    FreshFrame(s.emitted, s.acked, m, Deliverable(s.queue));
    WireAfterSend(s.acked, s.wire, m);
    var s' := Send(s, m, write);
    var rest := Deliverable(s.queue);
    assert s'.acked + Slot(s'.pending) + rest == s.acked + [m] + rest;
    assert Conserved(s') && SlotDiscipline(s') && WireFollows(s');
  }

  lemma {:induction false} FlushKeepsInv(s: State, write: WriteResult)
    requires Inv(s) && Enabled(s, Flush(write))
    ensures Inv(Step(s, Flush(write)))
  {
    var m := s.pending.value;
    assert s.acked + Slot(s.pending) + Deliverable(s.queue) == s.acked + [m] + Deliverable(s.queue);
    SendKeepsInv(s.(pending := None, mode := Serving), m, write);
    assert Send(s.(pending := None, mode := Serving), m, write) == Send(s.(pending := None), m, write);
  }

  lemma {:induction false} DeliverablePop(queue: seq<Emission>)
    requires queue != []
    ensures Deliverable(queue) == (if queue[0].frame.encodes then [queue[0]] else []) + Deliverable(queue[1..])
  {
    var m := queue[0];
    assert queue == [m] + queue[1..];
    DeliverableConcat([m], queue[1..]);
    assert [m][..0] == [];
  }

  lemma {:induction false} RecvKeepsInv(s: State, write: WriteResult)
    requires Inv(s) && Enabled(s, Recv(write))
    ensures Inv(Step(s, Recv(write)))
  {
    var m := s.queue[0];
    var rest := Deliverable(s.queue[1..]);
    DeliverablePop(s.queue);
    var popped := s.(queue := s.queue[1..]);
    if m.frame.encodes {
      assert s.acked + Slot(s.pending) + Deliverable(s.queue) == s.acked + [m] + rest;
      SendKeepsInv(popped, m, write);
    } else {
      assert Deliverable(s.queue) == rest;
      assert Send(popped, m, write) == popped;
    }
  }

  lemma PushConserves(front: seq<Emission>, queue: seq<Emission>, emitted: seq<Emission>, m: Emission)
    requires front + Deliverable(queue) == Deliverable(emitted)
    ensures front + Deliverable(queue + [m]) == Deliverable(emitted + [m])
  {
    DeliverableConcat(emitted, [m]);
    DeliverableConcat(queue, [m]);
    assert front + (Deliverable(queue) + Deliverable([m])) == front + Deliverable(queue) + Deliverable([m]);
  }

  lemma {:induction false} PushKeepsInv(s: State, m: Emission)
    requires Inv(s) && m.instance < |s.received|
    requires m.id == |s.emitted| && m.frame.jobId == s.received[m.instance].jobId
    ensures Inv(s.(emitted := s.emitted + [m], queue := s.queue + [m]))
  {
    PushConserves(s.acked + Slot(s.pending), s.queue, s.emitted, m);
  }

  lemma EmitKeepsInv(s: State, e: Event)
    requires Inv(s) && e.Emit? && Enabled(s, e)
    ensures Inv(Step(s, e))
  {
    var frame := OutboundProgress(s.received[e.instance].jobId, e.state, e.encodes);
    PushKeepsInv(s, Emission(|s.emitted|, e.instance, frame));
  }

  // The steps that move no frame.
  predicate Quiet(e: Event) {
    !e.Emit? && !e.Flush? && !e.Recv?
  }

  lemma QuietStepMovesNoFrame(s: State, e: Event)
    requires Quiet(e) && SlotDiscipline(s)
    ensures var s' := Step(s, e);
            && s'.emitted == s.emitted && s'.queue == s.queue && s'.pending == s.pending
            && s'.acked == s.acked && s'.wire == s.wire && s.received <= s'.received
            && SlotDiscipline(s')
  {
  }

  lemma FramesUnmoved(s: State, s': State)
    requires Inv(s) && SlotDiscipline(s')
    requires s'.emitted == s.emitted && s'.queue == s.queue && s'.pending == s.pending
    requires s'.acked == s.acked && s'.wire == s.wire && s.received <= s'.received
    ensures Inv(s')
  {
  }

  // Every step of every component keeps the invariant.
  lemma StepKeepsInv(s: State, e: Event)
    requires Inv(s)
    ensures Inv(Step(s, e))
  {
    if Enabled(s, e) {
      match e
      case Emit(_, _, _) => EmitKeepsInv(s, e);
      case Flush(w) => FlushKeepsInv(s, w);
      case Recv(w) => RecvKeepsInv(s, w);
      case _ =>
        QuietStepMovesNoFrame(s, e);
        FramesUnmoved(s, Step(s, e));
    }
  }

  lemma {:induction false} RunKeepsInv(s: State, events: seq<Event>)
    requires Inv(s)
    ensures Inv(Run(s, events))
  {
    if events != [] {
      RunKeepsInv(s, events[..|events| - 1]);
      StepKeepsInv(Run(s, events[..|events| - 1]), events[|events| - 1]);
    }
  }

  // ---- Theorems over every run ---------------------------------------------

  // No frame that serialises is lost, invented or reordered, whatever connections drop.
  lemma NothingLostNothingReordered(events: seq<Event>)
    ensures var s := Run(INITIAL, events);
            s.acked + Slot(s.pending) + Deliverable(s.queue) == Deliverable(s.emitted)
  {
    RunKeepsInv(INITIAL, events);
  }

  // One slot is enough: it is free whenever the select loop or a write starts, so
  // parking a frame never overwrites one.
  lemma OneSlotSuffices(events: seq<Event>, e: Event)
    ensures var s := Run(INITIAL, events);
            && (s.mode.Serving? ==> s.pending.None?)
            && (s.pending.Some? ==>
                  var next := Step(s, e);
                  next.pending == s.pending ||
                  (next.pending.None? && next.acked == s.acked + [s.pending.value]))
  {
    RunKeepsInv(INITIAL, events);
  }

  // What the peer may have seen, immediate repeats merged, is the acknowledged log or
  // that log and the parked frame: a prefix of the deliverable emissions either way.
  lemma PeerSeesOnlyImmediateRepeats(events: seq<Event>)
    ensures var s := Run(INITIAL, events);
            && (Collapse(s.wire) == s.acked || Collapse(s.wire) == s.acked + Slot(s.pending))
            && Collapse(s.wire) <= Deliverable(s.emitted)
  {
    RunKeepsInv(INITIAL, events);
    var s := Run(INITIAL, events);
    assert s.acked + Slot(s.pending) <= s.acked + Slot(s.pending) + Deliverable(s.queue);
  }

  lemma {:induction false} CollapseMembers(log: seq<Emission>)
    ensures forall m :: m in log <==> m in Collapse(log)
  {
    if log != [] {
      var n := |log| - 1;
      assert log == log[..n] + [log[n]];
      CollapseMembers(log[..n]);
      assert n > 0 ==> log[n - 1] in log[..n];
    }
  }

  lemma {:induction false} CollapseOrder(log: seq<Emission>)
    requires Increasing(Collapse(log))
    ensures forall i, j | 0 <= i < j < |log| :: log[i].id <= log[j].id
  {
    if log != [] {
      var n := |log| - 1;
      var front := Collapse(log[..n]);
      if n > 0 && log[n - 1] == log[n] {
        CollapseOrder(log[..n]);
        assert forall i | 0 <= i < n :: log[..n][i].id <= log[..n][n - 1].id;
      } else {
        assert Collapse(log)[..|front|] == front && Collapse(log)[|front|] == log[n];
        assert Increasing(front);
        CollapseOrder(log[..n]);
        CollapseMembers(log[..n]);
        forall i | 0 <= i < n ensures log[i].id < log[n].id {
          assert log[..n][i] in front;
        }
      }
    }
  }

  // Position by position: the peer never sees an older frame after a newer one, sees
  // every acknowledged frame, and sees nothing but acknowledged frames and the parked one.
  lemma PeerNeverSeesAnOlderFrameAgain(events: seq<Event>)
    ensures var s := Run(INITIAL, events);
            && (forall i, j | 0 <= i < j < |s.wire| :: s.wire[i].id <= s.wire[j].id)
            && (forall m | m in s.acked :: m in s.wire)
            && (forall m | m in s.wire :: m in s.acked + Slot(s.pending))
  {
    RunKeepsInv(INITIAL, events);
    PeerSeesOnlyImmediateRepeats(events);
    var s := Run(INITIAL, events);
    DeliverableIncreasing(s.emitted);
    assert forall i | 0 <= i < |Collapse(s.wire)| :: Collapse(s.wire)[i] == Deliverable(s.emitted)[i];
    CollapseOrder(s.wire);
    CollapseMembers(s.wire);
  }

  // ---- Recovery ------------------------------------------------------------

  // What a healthy stretch of the environment does from `s`: let the back-off pass,
  // connect, and accept every write.
  function Reconnect(s: State): seq<Event> {
    match s.mode
    case Serving => []
    case Flushing => [Flush(Accepted)]
    case Connecting => [Dial(true)] + if s.pending.Some? then [Flush(Accepted)] else []
    case Ended(end) => var settled := Step(s, Settle); [Settle] + Rest(settled)
    case Sleeping(_) => Rest(s)
  }

  function Rest(s: State): seq<Event> {
    if !s.mode.Sleeping? then []
    else
      var wait := if s.mode.until > s.clock then s.mode.until - s.clock else 0.0;
      [Elapse(wait), Wake, Dial(true)] + if s.pending.Some? then [Flush(Accepted)] else []
  }

  function Drain(n: nat): seq<Event> {
    seq(n, _ => Recv(Accepted))
  }

  lemma RestReachesTheLoop(s: State)
    requires Inv(s) && s.mode.Sleeping?
    ensures var s' := Run(s, Rest(s));
            s'.mode.Serving? && s'.emitted == s.emitted && s'.queue == s.queue
  {
    var events := Rest(s);
    var s1 := Step(s, events[0]);
    var s2 := Step(s1, Wake);
    var s3 := Step(s2, Dial(true));
    RunOne(s, events[0]);
    RunOne(s1, Wake);
    RunOne(s2, Dial(true));
    RunConcat(s, [events[0]], [Wake]);
    RunConcat(s, [events[0], Wake], [Dial(true)]);
    assert [events[0]] + [Wake] == [events[0], Wake];
    assert [events[0], Wake] + [Dial(true)] == [events[0], Wake, Dial(true)];
    if s.pending.Some? {
      RunConcat(s, [events[0], Wake, Dial(true)], [Flush(Accepted)]);
      RunOne(s3, Flush(Accepted));
    } else {
      assert events == [events[0], Wake, Dial(true)];
    }
  }

  lemma ReconnectReachesTheLoop(s: State)
    requires Inv(s)
    ensures var s' := Run(s, Reconnect(s));
            s'.mode.Serving? && s'.emitted == s.emitted && s'.queue == s.queue
  {
    match s.mode
    case Serving =>
    case Flushing => RunOne(s, Flush(Accepted));
    case Connecting =>
      RunOne(s, Dial(true));
      if s.pending.Some? {
        RunConcat(s, [Dial(true)], [Flush(Accepted)]);
        RunOne(Step(s, Dial(true)), Flush(Accepted));
      } else {
        assert Reconnect(s) == [Dial(true)];
      }
    case Ended(_) =>
      RunOne(s, Settle);
      StepKeepsInv(s, Settle);
      RestReachesTheLoop(Step(s, Settle));
      RunConcat(s, [Settle], Rest(Step(s, Settle)));
    case Sleeping(_) => RestReachesTheLoop(s);
  }

  lemma {:induction false} DrainEmptiesTheQueue(s: State)
    requires Inv(s) && s.mode.Serving?
    ensures var s' := Run(s, Drain(|s.queue|));
            s'.queue == [] && s'.pending.None? && s'.emitted == s.emitted
    decreases |s.queue|
  {
    var events := Drain(|s.queue|);
    if s.queue != [] {
      var next := Step(s, Recv(Accepted));
      StepKeepsInv(s, Recv(Accepted));
      DrainEmptiesTheQueue(next);
      RunOne(s, Recv(Accepted));
      RunConcat(s, [Recv(Accepted)], Drain(|next.queue|));
      assert events == [Recv(Accepted)] + Drain(|next.queue|);
    }
  }

  // No run gets stuck: however many connections have failed, one back-off and one
  // connection that accepts its writes deliver every frame emitted so far, in order.
  lemma EveryFrameIsStillDeliverable(events: seq<Event>)
    ensures var s := Run(INITIAL, events);
            var ready := Run(s, Reconnect(s));
            Run(ready, Drain(|ready.queue|)).acked == Deliverable(s.emitted)
  {
    RunKeepsInv(INITIAL, events);
    var s := Run(INITIAL, events);
    ReconnectReachesTheLoop(s);
    RunKeepsInv(s, Reconnect(s));
    var ready := Run(s, Reconnect(s));
    DrainEmptiesTheQueue(ready);
    RunKeepsInv(ready, Drain(|ready.queue|));
    var done := Run(ready, Drain(|ready.queue|));
    assert done.acked + Slot(done.pending) + Deliverable(done.queue) == done.acked;
  }
}
