// The phone-home protocol of src/phonehome.rs as a step system.
//
// One state holds what the process keeps (the unbounded progress queue, the one-slot
// `pending`, the reconnect attempt counter, the clock) beside four logs nobody can
// delete from: the commands received, the frames emitted, the frames the socket
// acknowledged and the frames the peer may have seen. One event is one thing that can
// happen at an await point. An event that is not possible in a state leaves it as it
// is, so every event sequence is a run and the theorems quantify over all of them.
module PhoneHome {
  import opened Wrappers
  import opened Authz
  import opened Report

  // ---- Data ----------------------------------------------------------------

  datatype InboundCommand = InboundCommand(
    jobId: string, command: string, params: map<string, string>, role: Role)

  // `encodes` abstracts whether serialising the frame succeeds.
  datatype OutboundProgress = OutboundProgress(jobId: string, state: OpRunState, encodes: bool)

  // One push into the queue. `id` is its position in the emission log, so that two
  // frames with equal text stay apart; `instance` is the position, among the received
  // commands, of the command whose worker pushed it.
  datatype Emission = Emission(id: nat, instance: nat, frame: OutboundProgress)

  datatype Message = Text(parsed: Option<InboundCommand>) | Close(code: Option<nat>) | OtherMessage

  datatype ReadResult = StreamEnded | ReadFailed | Received(message: Message)

  // A failed write says nothing about whether the peer got the frame.
  datatype WriteResult = Accepted | Broken(seen: bool)

  datatype ConnectionEnd = Normal | Superseded | Failed

  datatype Iteration = Iteration(elapsed: real, end: ConnectionEnd, delay: real)

  datatype Mode =
    | Connecting
    | Flushing                     // connected, the parked frame goes first
    | Serving                      // in the select loop
    | Ended(end: ConnectionEnd)    // connect_once has returned
    | Sleeping(until: real)

  datatype State = State(
    received: seq<InboundCommand>,
    emitted: seq<Emission>,
    queue: seq<Emission>,
    pending: Option<Emission>,
    acked: seq<Emission>,
    wire: seq<Emission>,
    mode: Mode,
    attempt: nat,
    clock: real,
    started: real,
    iterations: seq<Iteration>)

  datatype Event =
    | Emit(instance: nat, state: OpRunState, encodes: bool)   // a worker's sink pushes a frame
    | Elapse(seconds: real)                                   // time passes
    | Dial(ok: bool)                                          // the connection attempt resolves
    | Flush(parked: WriteResult)                              // the parked frame is written
    | Read(result: ReadResult)                                // select: the read side
    | Recv(write: WriteResult)                                // select: the queue side
    | Ping(ok: bool)                                          // select: the keepalive
    | Settle                                                  // run_forever looks at the outcome
    | Wake                                                    // the back-off sleep is over

  const CLOSE_SUPERSEDED: nat := 4409
  const RECONNECT_DELAYS_SECS: seq<real> := [1.0, 2.0, 5.0, 10.0, 30.0]
  const SUPERSEDED_DELAY_SECS: real := 300.0
  const HEALTHY_CONNECTION_SECS: real := 60.0

  const INITIAL: State := State([], [], [], None, [], [], Connecting, 0, 0.0, 0.0, [])

  // ---- Steps ---------------------------------------------------------------

  function Delay(attempt: nat): real {
    RECONNECT_DELAYS_SECS[if attempt < |RECONNECT_DELAYS_SECS| - 1 then attempt else |RECONNECT_DELAYS_SECS| - 1]
  }

  // One frame goes to the socket: dropped if it does not serialise, acknowledged if the
  // write succeeds, parked (and the connection over) if it does not.
  function Send(s: State, msg: Emission, write: WriteResult): State {
    if !msg.frame.encodes then s.(mode := Serving)
    else
      match write
      case Accepted => s.(acked := s.acked + [msg], wire := s.wire + [msg], mode := Serving)
      case Broken(seen) =>
        s.(pending := Some(msg), wire := if seen then s.wire + [msg] else s.wire, mode := Ended(Normal))
  }

  function Receive(s: State, result: ReadResult): State {
    match result
    case StreamEnded => s.(mode := Ended(Normal))
    case ReadFailed => s.(mode := Ended(Failed))
    case Received(Text(Some(command))) => s.(received := s.received + [command])
    case Received(Text(None)) => s
    case Received(Close(code)) => if code == Some(CLOSE_SUPERSEDED) then s.(mode := Ended(Superseded)) else s
    case Received(OtherMessage) => s
  }

  // Healthy reset, then the supersede delay (attempt untouched) or the next back-off.
  function BackOff(s: State, end: ConnectionEnd): State {
    var elapsed := s.clock - s.started;
    var attempt := if elapsed >= HEALTHY_CONNECTION_SECS then 0 else s.attempt;
    var delay := if end.Superseded? then SUPERSEDED_DELAY_SECS else Delay(attempt);
    s.(attempt := if end.Superseded? then attempt else attempt + 1,
       mode := Sleeping(s.clock + delay),
       iterations := s.iterations + [Iteration(elapsed, end, delay)])
  }

  predicate Enabled(s: State, e: Event) {
    match e
    case Emit(instance, _, _) => instance < |s.received|
    case Elapse(seconds) => seconds >= 0.0
    case Dial(_) => s.mode.Connecting?
    case Flush(_) => s.mode.Flushing? && s.pending.Some?
    case Read(_) => s.mode.Serving?
    case Recv(_) => s.mode.Serving? && s.queue != []
    case Ping(_) => s.mode.Serving?
    case Settle => s.mode.Ended?
    case Wake => s.mode.Sleeping? && s.clock >= s.mode.until
  }

  function Step(s: State, e: Event): State {
    if !Enabled(s, e) then s
    else
      match e
      case Emit(instance, state, encodes) =>
        var frame := OutboundProgress(s.received[instance].jobId, state, encodes);
        var msg := Emission(|s.emitted|, instance, frame);
        s.(emitted := s.emitted + [msg], queue := s.queue + [msg])
      case Elapse(seconds) => s.(clock := s.clock + seconds)
      case Dial(ok) =>
        s.(mode := if !ok then Ended(Failed) else if s.pending.Some? then Flushing else Serving)
      case Flush(write) => Send(s.(pending := None), s.pending.value, write)
      case Read(result) => Receive(s, result)
      case Recv(write) => Send(s.(queue := s.queue[1..]), s.queue[0], write)
      case Ping(ok) => if ok then s else s.(mode := Ended(Normal))
      case Settle => BackOff(s, s.mode.end)
      case Wake => s.(mode := Connecting, started := s.clock)
  }

  function Run(s: State, events: seq<Event>): State {
    if events == [] then s
    else Step(Run(s, events[..|events| - 1]), events[|events| - 1])
  }

  lemma {:induction false} RunConcat(s: State, first: seq<Event>, second: seq<Event>)
    ensures Run(s, first + second) == Run(Run(s, first), second)
  {
    if second == [] {
      assert first + second == first;
    } else {
      var n := |second| - 1;
      assert (first + second)[..|first + second| - 1] == first + second[..n];
      RunConcat(s, first, second[..n]);
    }
  }

  lemma RunOne(s: State, e: Event)
    ensures Run(s, [e]) == Step(s, e)
  {
    assert [e][..0] == [];
    assert Run(s, []) == s;
  }

  // Only a worker's push touches the emission log, and only reading a command the list of
  // commands, by one at a time.
  lemma StepFrame(s: State, e: Event)
    ensures var s' := Step(s, e);
            && (!e.Emit? ==> s'.emitted == s.emitted)
            && (s'.received == s.received || exists cmd :: s'.received == s.received + [cmd])
  {
  }

  // ---- How connections end -------------------------------------------------

  // The frame a step writes to the socket, if it writes one.
  function Written(s: State, e: Event): Option<Emission> {
    match e
    case Flush(_) => if s.mode.Flushing? then s.pending else None
    case Recv(_) => if s.mode.Serving? && s.queue != [] then Some(s.queue[0]) else None
    case _ => None
  }

  predicate WriteFails(e: Event) {
    (e.Flush? && e.parked.Broken?) || (e.Recv? && e.write.Broken?)
  }

  // What each end means: the takeover close and nothing else, the dial or the read failing,
  // or the stream ending, a frame that serialises or a ping not getting out.
  predicate Supersedes(s: State, e: Event) {
    s.mode.Serving? && e == Read(Received(Close(Some(4409))))
  }

  predicate Fails(s: State, e: Event) {
    (s.mode.Connecting? && e == Dial(false)) || (s.mode.Serving? && e == Read(ReadFailed))
  }

  predicate Drops(s: State, e: Event) {
    || (s.mode.Serving? && (e == Read(StreamEnded) || e == Ping(false)))
    || (Written(s, e).Some? && Written(s, e).value.frame.encodes && WriteFails(e))
  }

  // Over every state and event: which events end a connection, and how; any other read
  // leaves it in the select loop; and only a parsed command is received.
  lemma ConnectionEndsExactly(s: State, e: Event)
    ensures var s' := Step(s, e);
            && (!s.mode.Ended? ==>
                  && (s'.mode == Ended(Superseded) <==> Supersedes(s, e))
                  && (s'.mode == Ended(Failed) <==> Fails(s, e))
                  && (s'.mode == Ended(Normal) <==> Drops(s, e)))
            && (s.mode.Ended? ==> s'.mode == s.mode || e == Settle)
            && (s.mode.Serving? && e.Read? && !s'.mode.Ended? ==> s'.mode == Serving)
            && s'.received == s.received +
                 (if s.mode.Serving? && e.Read? && e.result.Received? && e.result.message.Text?
                     && e.result.message.parsed.Some?
                  then [e.result.message.parsed.value] else [])
  {
  }

  // The events of a run that ended a connection, in order.
  function EndingEvents(s: State, events: seq<Event>): seq<Event> {
    if events == [] then []
    else
      var front := events[..|events| - 1];
      var e := events[|events| - 1];
      var before := Run(s, front);
      EndingEvents(s, front) + if !before.mode.Ended? && Step(before, e).mode.Ended? then [e] else []
  }

  predicate EndsExactlyAs(e: Event, end: ConnectionEnd) {
    && (end == Superseded <==> e == Read(Received(Close(Some(4409)))))
    && (end == Failed <==> e == Dial(false) || e == Read(ReadFailed))
    && (end == Normal <==> e == Read(StreamEnded) || e == Ping(false) || WriteFails(e))
  }

  // Over every run: iteration i ended as its own ending event says, and as nothing else;
  // superseded, that is, exactly if that event was the takeover close.
  lemma {:induction false} IterationsEndAsTheirEvents(events: seq<Event>)
    ensures var s := Run(INITIAL, events);
            var ending := EndingEvents(INITIAL, events);
            && |ending| == |s.iterations| + (if s.mode.Ended? then 1 else 0)
            && (forall i | 0 <= i < |s.iterations| :: EndsExactlyAs(ending[i], s.iterations[i].end))
            && (s.mode.Ended? ==> EndsExactlyAs(ending[|ending| - 1], s.mode.end))
  {
    if events != [] {
      var front, e := events[..|events| - 1], events[|events| - 1];
      var before := Run(INITIAL, front);
      IterationsEndAsTheirEvents(front);
      ConnectionEndsExactly(before, e);
      StepKeepsIterations(before, e);
    }
  }

  lemma StepKeepsIterations(s: State, e: Event)
    ensures var s' := Step(s, e);
            if s.mode.Ended? && e == Settle
            then !s'.mode.Ended? && |s'.iterations| == |s.iterations| + 1
                 && s'.iterations[..|s.iterations|] == s.iterations
                 && s'.iterations[|s.iterations|].end == s.mode.end
            else s'.iterations == s.iterations
  {
  }
}
