// The loops of src/phonehome.rs, proved against the step system.
//
// The environment is a schedule of events: who pushes a frame, how much time passes,
// which select branch is ready and how the socket answers. Every method says exactly
// which part of the schedule it consumed and that the process state is the step
// system's state after that part, so each theorem about runs holds of the code.
module PhoneHomeClient {
  import opened Wrappers
  import opened PhoneHome
  import Delivery
  import Backoff

  // Where the client can be waiting.
  datatype Point = Dialing | Writing | Selecting | Returning(end: ConnectionEnd) | Resting(until: real)

  lemma Extend(s0: State, schedule: seq<Event>, from: nat, at: nat)
    requires from <= at < |schedule|
    ensures Run(s0, schedule[from..at + 1]) == Step(Run(s0, schedule[from..at]), schedule[at])
  {
    assert schedule[from..at + 1][..at - from] == schedule[from..at];
  }

  lemma Joined(s0: State, schedule: seq<Event>, from: nat, now: nat, at: nat)
    requires from <= now <= at <= |schedule|
    ensures Run(Run(s0, schedule[from..now]), schedule[now..at]) == Run(s0, schedule[from..at])
  {
    RunConcat(s0, schedule[from..now], schedule[now..at]);
    assert schedule[from..now] + schedule[now..at] == schedule[from..at];
  }

  class Client {
    var received: seq<InboundCommand>   // one blocking worker per entry
    var emitted: nat                    // frames pushed so far
    var queue: seq<Emission>
    var pending: Option<Emission>
    var attempt: nat
    var clock: real
    var sent: seq<Emission>             // what reached the wire
    ghost var spec: State               // the step system's state, logs included

    ghost predicate Valid()
      reads this
    {
      && received == spec.received
      && emitted == |spec.emitted|
      && queue == spec.queue
      && pending == spec.pending
      && attempt == spec.attempt
      && clock == spec.clock
      && sent == spec.wire
      && Delivery.SlotDiscipline(spec)
    }

    ghost predicate At(point: Point)
      reads this
    {
      match point
      case Dialing => spec.mode.Connecting?
      case Writing => spec.mode.Flushing?
      case Selecting => spec.mode.Serving?
      case Returning(end) => spec.mode == Ended(end)
      case Resting(until) => spec.mode == Sleeping(until)
    }

    constructor ()
      ensures Valid() && spec == INITIAL
    {
      received, emitted, queue, pending := [], 0, [], None;
      attempt, clock, sent := 0, 0.0, [];
      spec := INITIAL;
    }

    // Whether an event resolves the wait at a point; a select branch on the queue is
    // ready only while the queue holds something.
    predicate Resolves(point: Point, e: Event)
      reads this
    {
      match point
      case Dialing => e.Dial?
      case Writing => e.Flush?
      case Selecting => e.Read? || e.Ping? || (e.Recv? && queue != [])
      case Returning(_) => e.Settle?
      case Resting(until) => e.Wake? && clock >= until
    }

    // What happens beside a waiting client: a worker's frame enters the queue, time passes.
    method Meanwhile(point: Point, e: Event)
      requires Valid() && At(point) && !Resolves(point, e)
      modifies this`queue, this`emitted, this`clock, this`spec
      ensures Valid() && At(point) && spec == Step(old(spec), e)
      ensures spec.started == old(spec.started)
    {
      match e {
        case Emit(instance, state, encodes) =>
          if instance < |received| {
            var frame := OutboundProgress(received[instance].jobId, state, encodes);
            queue := queue + [Emission(emitted, instance, frame)];
            emitted := emitted + 1;
          }
        case Elapse(seconds) =>
          if seconds >= 0.0 { clock := clock + seconds; }
        case _ =>
      }
      spec := Step(spec, e);
    }

    // Waits at a point while the workers push frames and time passes. Events that cannot
    // happen here are no events.
    method Await(point: Point, schedule: seq<Event>, from: nat) returns (at: nat)
      requires Valid() && At(point) && from <= |schedule|
      modifies this`queue, this`emitted, this`clock, this`spec
      ensures Valid() && At(point) && from <= at <= |schedule|
      ensures spec == Run(old(spec), schedule[from..at])
      ensures at < |schedule| ==> Resolves(point, schedule[at])
      ensures spec.started == old(spec.started)
    {
      at := from;
      assert schedule[from..from] == [];
      while at < |schedule| && !Resolves(point, schedule[at])
        invariant Valid() && At(point) && from <= at <= |schedule|
        invariant spec == Run(old(spec), schedule[from..at])
        invariant spec.started == old(spec.started)
      {
        Meanwhile(point, schedule[at]);
        Extend(old(spec), schedule, from, at);
        at := at + 1;
      }
    }

    // Sends one frame. The slot is free at every call, so parking overwrites nothing.
    method SendProgress(msg: Emission, write: WriteResult) returns (usable: bool)
      requires pending.None?
      modifies this`pending, this`sent
      ensures usable <==> (msg.frame.encodes ==> write.Accepted?)
      ensures pending == if usable then None else Some(msg)
      ensures sent == old(sent) + if msg.frame.encodes && (usable || write.seen) then [msg] else []
    {
      if !msg.frame.encodes {
        return true;
      }
      match write {
        case Accepted =>
          sent := sent + [msg];
          usable := true;
        case Broken(seen) =>
          if seen { sent := sent + [msg]; }
          pending := Some(msg);
          usable := false;
      }
    }

    // Delivers the frame the previous connection accepted but failed to write.
    method FlushParked(write: WriteResult) returns (usable: bool)
      requires Valid() && At(Writing)
      modifies this`pending, this`sent, this`spec
      ensures Valid() && spec == Step(old(spec), Flush(write))
      ensures if usable then At(Selecting) else spec.mode == Ended(Normal)
      ensures spec.started == old(spec.started)
    {
      var msg := pending.value;
      pending := None;
      usable := SendProgress(msg, write);
      spec := Step(spec, Flush(write));
    }

    // Sends the oldest queued frame.
    method ForwardQueued(write: WriteResult) returns (usable: bool)
      requires Valid() && At(Selecting) && queue != []
      modifies this`queue, this`pending, this`sent, this`spec
      ensures Valid() && spec == Step(old(spec), Recv(write))
      ensures if usable then At(Selecting) else spec.mode == Ended(Normal)
      ensures spec.started == old(spec.started)
    {
      var msg := queue[0];
      queue := queue[1..];
      usable := SendProgress(msg, write);
      spec := Step(spec, Recv(write));
    }

    // Handles what the read side yields; a command gets its own blocking worker.
    method HandleRead(result: ReadResult) returns (end: Option<ConnectionEnd>)
      requires Valid() && At(Selecting)
      modifies this`received, this`spec
      ensures Valid() && spec == Step(old(spec), Read(result))
      ensures if end.None? then At(Selecting) else spec.mode == Ended(end.value)
      ensures end == Some(Superseded) <==> result == Received(Close(Some(4409)))
      ensures end == Some(Failed) <==> result == ReadFailed
      ensures end == Some(Normal) <==> result == StreamEnded
      ensures received == old(received) +
                (if result.Received? && result.message.Text? && result.message.parsed.Some?
                 then [result.message.parsed.value] else [])
      ensures spec.started == old(spec.started)
    {
      spec := Step(spec, Read(result));
      match result {
        case StreamEnded => return Some(Normal);
        case ReadFailed => return Some(Failed);
        case Received(Close(code)) =>
          if code == Some(CLOSE_SUPERSEDED) { return Some(Superseded); }
        case Received(Text(Some(command))) => received := received + [command];
        case Received(Text(None)) =>
        case Received(OtherMessage) =>
      }
      end := None;
    }

    // One turn of the select loop.
    method SelectTurn(e: Event) returns (end: Option<ConnectionEnd>)
      requires Valid() && At(Selecting) && Resolves(Selecting, e)
      modifies this`queue, this`spec, this`pending, this`sent, this`received
      ensures Valid() && spec == Step(old(spec), e)
      ensures if end.None? then At(Selecting) else spec.mode == Ended(end.value)
      ensures spec.started == old(spec.started)
    {
      match e {
        case Read(result) => end := HandleRead(result);
        case Recv(write) =>
          var usable := ForwardQueued(write);
          end := if usable then None else Some(Normal);
        case Ping(ok) =>
          spec := Step(spec, e);
          end := if ok then None else Some(Normal);
      }
    }

    // One connection. Returns how it ended, or None if the schedule ends first.
    method ConnectOnce(schedule: seq<Event>, from: nat) returns (end: Option<ConnectionEnd>, at: nat)
      requires Valid() && At(Dialing) && from <= |schedule|
      modifies this`queue, this`emitted, this`clock, this`spec, this`pending, this`sent, this`received
      ensures Valid() && from <= at <= |schedule| && (from < |schedule| ==> from < at)
      ensures spec == Run(old(spec), schedule[from..at])
      ensures if end.Some? then spec.mode == Ended(end.value) else at == |schedule|
      ensures spec.started == old(spec.started)
    {
      ghost var s0 := spec;
      at := Await(Dialing, schedule, from);
      if at == |schedule| { return None, at; }
      var dialled := schedule[at].ok;
      spec := Step(spec, schedule[at]);
      Extend(s0, schedule, from, at);
      at := at + 1;
      if !dialled { return Some(Failed), at; }

      if pending.Some? {
        at := AwaitFrom(s0, Writing, schedule, from, at);
        if at == |schedule| { return None, at; }
        var usable := FlushParked(schedule[at].parked);
        Extend(s0, schedule, from, at);
        at := at + 1;
        if !usable { return Some(Normal), at; }
      }
      end, at := Serve(s0, schedule, from, at);
    }

    // The select loop of one connection.
    method Serve(ghost s0: State, schedule: seq<Event>, ghost from: nat, now: nat)
      returns (end: Option<ConnectionEnd>, at: nat)
      requires Valid() && At(Selecting) && from <= now <= |schedule|
      requires spec == Run(s0, schedule[from..now])
      modifies this`queue, this`emitted, this`clock, this`spec, this`pending, this`sent, this`received
      ensures Valid() && now <= at <= |schedule|
      ensures spec == Run(s0, schedule[from..at])
      ensures if end.Some? then spec.mode == Ended(end.value) else at == |schedule|
      ensures spec.started == old(spec.started)
    {
      at, end := now, None;
      while end.None?
        invariant Valid() && now <= at <= |schedule|
        invariant spec == Run(s0, schedule[from..at])
        invariant if end.None? then At(Selecting) else spec.mode == Ended(end.value)
        invariant spec.started == old(spec.started)
        decreases |schedule| - at, end.None?
      {
        at := AwaitFrom(s0, Selecting, schedule, from, at);
        if at == |schedule| { return; }
        end := SelectTurn(schedule[at]);
        Extend(s0, schedule, from, at);
        at := at + 1;
      }
    }

    // Await, told relative to an earlier state.
    method AwaitFrom(ghost s0: State, point: Point, schedule: seq<Event>, ghost from: nat, now: nat) returns (at: nat)
      requires Valid() && At(point) && from <= now <= |schedule|
      requires spec == Run(s0, schedule[from..now])
      modifies this`queue, this`emitted, this`clock, this`spec
      ensures Valid() && At(point) && now <= at <= |schedule|
      ensures spec == Run(s0, schedule[from..at])
      ensures at < |schedule| ==> Resolves(point, schedule[at])
      ensures spec.started == old(spec.started)
    {
      at := Await(point, schedule, now);
      Joined(s0, schedule, from, now, at);
    }

    // Looks at how the connection ended: healthy reset, then the delay to sleep.
    method Settled(end: ConnectionEnd, started: real) returns (delay: real)
      requires Valid() && spec.mode == Ended(end) && spec.started == started
      modifies this`attempt, this`spec
      ensures Valid() && spec == Step(old(spec), Settle)
      ensures At(Resting(clock + delay))
    {
      if clock - started >= HEALTHY_CONNECTION_SECS { attempt := 0; }
      if end.Superseded? {
        delay := SUPERSEDED_DELAY_SECS;
      } else {
        var last := |RECONNECT_DELAYS_SECS| - 1;
        delay := RECONNECT_DELAYS_SECS[if attempt < last then attempt else last];
        attempt := attempt + 1;
      }
      spec := Step(spec, Settle);
    }

    // Looks at the outcome of a connection and sleeps the delay it calls for.
    method SettleAndSleep(end: ConnectionEnd, started: real, ghost s0: State,
                          schedule: seq<Event>, ghost from: nat, now: nat) returns (at: nat)
      requires Valid() && from <= now <= |schedule|
      requires spec.mode == Ended(end) && spec.started == started
      requires spec == Run(s0, schedule[from..now])
      modifies this`attempt, this`queue, this`emitted, this`clock, this`spec
      ensures Valid() && now <= at <= |schedule|
      ensures spec == Run(s0, schedule[from..at])
      ensures at < |schedule| ==> At(Dialing) && spec.started == clock
    {
      at := AwaitFrom(s0, Returning(end), schedule, from, now);
      if at == |schedule| { return; }
      var delay := Settled(end, started);
      Extend(s0, schedule, from, at);
      at := Sleep(clock + delay, s0, schedule, from, at + 1);
    }

    // Sleeps until a moment; the next iteration starts when it wakes.
    method Sleep(until: real, ghost s0: State, schedule: seq<Event>, ghost from: nat, now: nat) returns (at: nat)
      requires Valid() && At(Resting(until)) && from <= now <= |schedule|
      requires spec == Run(s0, schedule[from..now])
      modifies this`queue, this`emitted, this`clock, this`spec
      ensures Valid() && now <= at <= |schedule|
      ensures spec == Run(s0, schedule[from..at])
      ensures at < |schedule| ==> At(Dialing) && spec.started == clock
    {
      at := AwaitFrom(s0, Resting(until), schedule, from, now);
      if at == |schedule| { return; }
      spec := Step(spec, schedule[at]);
      Extend(s0, schedule, from, at);
      at := at + 1;
    }

    // One iteration: connect, look at the outcome, sleep.
    method Iterate(schedule: seq<Event>, from: nat) returns (at: nat)
      requires Valid() && At(Dialing) && spec.started == clock && from < |schedule|
      modifies this
      ensures Valid() && from < at <= |schedule|
      ensures spec == Run(old(spec), schedule[from..at])
      ensures at < |schedule| ==> At(Dialing) && spec.started == clock
    {
      ghost var s0 := spec;
      var started := clock;
      var end;
      end, at := ConnectOnce(schedule, from);
      if end.Some? {
        at := SettleAndSleep(end.value, started, s0, schedule, from, at);
      }
    }

    // Connects, serves and backs off until the schedule ends, which is the only way out.
    method RunForever(schedule: seq<Event>)
      requires Valid() && At(Dialing) && spec.started == clock
      modifies this
      ensures Valid() && spec == Run(old(spec), schedule)
    {
      ghost var s0 := spec;
      var at := 0;
      while at < |schedule|
        invariant Valid() && at <= |schedule| && spec == Run(s0, schedule[0..at])
        invariant at < |schedule| ==> At(Dialing) && spec.started == clock
      {
        ghost var now := at;
        at := Iterate(schedule, at);
        Joined(s0, schedule, 0, now, at);
      }
      assert schedule[0..at] == schedule;
    }
  }

  // The theorems, read off a client that was started and ran any schedule.
  method Operate(schedule: seq<Event>) returns (client: Client)
    ensures fresh(client) && client.Valid() && client.spec == Run(INITIAL, schedule)
    ensures client.spec.acked + Delivery.Slot(client.pending) + Delivery.Deliverable(client.queue)
         == Delivery.Deliverable(client.spec.emitted)
    ensures Delivery.Collapse(client.sent) <= Delivery.Deliverable(client.spec.emitted)
    ensures !client.spec.mode.Sleeping? ==>
              var its := client.spec.iterations;
              var kept := Backoff.CountedEnds(its, 0, |its|);
              client.clock >= 300.0 * (|its| - kept) as real + 19.5 * kept as real - 60.0
  {
    client := new Client();
    client.RunForever(schedule);
    Delivery.NothingLostNothingReordered(schedule);
    Delivery.PeerSeesOnlyImmediateRepeats(schedule);
    Backoff.ReconnectRateIsBounded(INITIAL, schedule);
    assert client.spec.iterations[|INITIAL.iterations|..] == client.spec.iterations;
  }
}
