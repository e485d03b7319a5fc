// The whole agent: the phone-home protocol with the blocking workers it spawns, one per
// received command, each running `handle_command` against the registry.
//
// Handlers are arbitrary: a worker that got past the gate may report any states, make any
// shell calls and return anything, at any pace and interleaved with everything else.
module Agent {
  import opened Wrappers
  import opened Authz
  import opened Report
  import opened Registry
  import PhoneHome
  import opened Delivery

  type Outcome = Result<string, CommandError>

  datatype Worker =
    | Spawned
    | Rejected(error: DispatchError)
    | Executing(handler: Handler, reports: seq<OpRunState>)
    | Finished(handler: Handler, reports: seq<OpRunState>, outcome: Outcome)

  datatype Execution = Execution(instance: nat, handler: Handler)

  datatype ShellCall = ShellCall(instance: nat, script: string)

  // Worker k serves the k-th received command.
  datatype State = State(
    net: PhoneHome.State,
    workers: seq<Worker>,
    executions: seq<Execution>,
    shell: seq<ShellCall>)

  datatype Event =
    | Net(step: PhoneHome.Event)
    | Start(worker: nat, encodes: bool)                          // dispatch: look up, gate, call or refuse
    | Report(worker: nat, state: OpRunState, encodes: bool)      // the handler reports progress
    | Call(worker: nat, script: string)                          // the handler runs a script
    | Return(worker: nat, outcome: Outcome, encodes: bool)       // the handler returns

  const INITIAL: State := State(PhoneHome.INITIAL, [], [], [])

  // ---- Error texts ---------------------------------------------------------

  function RoleText(role: Role): string {
    match role
    case Operator => "Operator"
    case Guest => "Guest"
  }

  function CapabilityText(capability: Capability): string {
    match capability
    case VmList => "VmList"
    case VmRead => "VmRead"
    case VmClone => "VmClone"
    case VmUpdate => "VmUpdate"
    case VmPower => "VmPower"
    case VmDelete => "VmDelete"
    case VmProvision => "VmProvision"
    case ConfigGenerate => "ConfigGenerate"
    case VmExecArbitrary => "VmExecArbitrary"
    case Deploy => "Deploy"
  }

  function ErrorText(error: DispatchError): string {
    match error
    case UnknownCommand(command) => "unknown command '" + command + "'"
    case Forbidden(name, role, required) =>
      "role " + RoleText(role) + " lacks capability " + CapabilityText(required) + " required by '" + name + "'"
    case Command(MissingParam(name)) => "missing required parameter '" + name + "'"
    case Command(InvalidParam(param, reason)) => "invalid parameter '" + param + "': " + reason
    case Command(Shell(message)) => "powershell execution failed: " + message
  }

  lemma {:induction false} Quoted(before: string, a: string, b: string, after: string)
    ensures before + a + after == before + b + after <==> a == b
  {
    if before + a + after == before + b + after {
      var x, y := before + a + after, before + b + after;
      assert |a| == |b| && a == x[|before|..|before| + |a|] == y[|before|..|before| + |b|] == b;
    }
  }

  // The first letter of a text tells which error it reports.
  lemma {:induction false} FirstLetterTells(error: DispatchError)
    ensures ErrorText(error) != []
    ensures error.UnknownCommand? <==> ErrorText(error)[0] == 'u'
    ensures error.Forbidden? <==> ErrorText(error)[0] == 'r'
    ensures error.Command? && error.error.MissingParam? <==> ErrorText(error)[0] == 'm'
    ensures error.Command? && error.error.InvalidParam? <==> ErrorText(error)[0] == 'i'
    ensures error.Command? && error.error.Shell? <==> ErrorText(error)[0] == 'p'
  {
  }

  // Of the errors that quote a single text, none can be taken for another.
  lemma {:induction false} ErrorTextTells(a: DispatchError, b: DispatchError)
    requires a.UnknownCommand? || (a.Command? && (a.error.MissingParam? || a.error.Shell?))
    ensures ErrorText(a) == ErrorText(b) <==> a == b
  {
    FirstLetterTells(a);
    FirstLetterTells(b);
    if ErrorText(a) == ErrorText(b) {
      match a
      case UnknownCommand(command) =>
        Quoted("unknown command '", command, b.command, "'");
      case Command(MissingParam(name)) =>
        Quoted("missing required parameter '", name, b.error.name, "'");
      case Command(Shell(message)) =>
        Quoted("powershell execution failed: ", message, b.error.message, []);
        var before := "powershell execution failed: ";
        assert before + message + [] == before + message && before + b.error.message + [] == before + b.error.message;
    }
  }

  // ---- Steps ---------------------------------------------------------------

  function Push(s: State, worker: nat, state: OpRunState, encodes: bool): State {
    s.(net := PhoneHome.Step(s.net, PhoneHome.Emit(worker, state, encodes)))
  }

  function Step(handlers: map<string, Handler>, s: State, e: Event): State {
    match e
    case Net(step) =>
      if step.Emit? then s
      else
        var net := PhoneHome.Step(s.net, step);
        s.(net := net, workers := Grown(s.workers, s.net, net))
    case Start(k, encodes) =>
      if k >= |s.workers| || k >= |s.net.received| || !s.workers[k].Spawned? then s
      else
        var cmd := s.net.received[k];
        (match Lookup(handlers, cmd.command, cmd.role)
         case Ok(handler) =>
           s.(workers := s.workers[k := Executing(handler, [])],
              executions := s.executions + [Execution(k, handler)])
         case Err(error) =>
           Push(s.(workers := s.workers[k := Rejected(error)]), k, Failure(ErrorText(error)), encodes))
    case Report(k, state, encodes) =>
      if k >= |s.workers| || !s.workers[k].Executing? then s
      else
        var w := s.workers[k];
        Push(s.(workers := s.workers[k := Executing(w.handler, w.reports + [state])]), k, state, encodes)
    case Call(k, script) =>
      if k >= |s.workers| || !s.workers[k].Executing? then s
      else s.(shell := s.shell + [ShellCall(k, script)])
    case Return(k, outcome, encodes) =>
      if k >= |s.workers| || !s.workers[k].Executing? then s
      else
        var w := s.workers[k];
        var s' := s.(workers := s.workers[k := Finished(w.handler, w.reports, outcome)]);
        if outcome.Ok? then s' else Push(s', k, Failure(ErrorText(Command(outcome.error))), encodes)
  }

  function Run(handlers: map<string, Handler>, events: seq<Event>): State {
    if events == [] then INITIAL
    else Step(handlers, Run(handlers, events[..|events| - 1]), events[|events| - 1])
  }

  // ---- What a worker has pushed --------------------------------------------

  // The states a worker has put on the queue, from its own point of view.
  function Frames(w: Worker): seq<OpRunState> {
    match w
    case Spawned => []
    case Rejected(error) => [Failure(ErrorText(error))]
    case Executing(_, reports) => reports
    case Finished(_, reports, outcome) =>
      if outcome.Ok? then reports else reports + [Failure(ErrorText(Command(outcome.error)))]
  }

  ghost predicate Carries(log: seq<PhoneHome.Emission>, states: seq<OpRunState>, jobId: string) {
    && |log| == |states|
    && forall i | 0 <= i < |log| :: log[i].frame.state == states[i] && log[i].frame.jobId == jobId
  }

  predicate Ran(w: Worker) {
    w.Executing? || w.Finished?
  }

  // ---- The invariant -------------------------------------------------------

  // One worker: what it pushed is on the emission log, and it got where it is by the gate.
  ghost predicate WorkerInv(handlers: map<string, Handler>, w: Worker, cmd: PhoneHome.InboundCommand,
                            log: seq<PhoneHome.Emission>) {
    && Carries(log, Frames(w), cmd.jobId)
    && (Ran(w) ==> Lookup(handlers, cmd.command, cmd.role) == Ok(w.handler))
    && (w.Rejected? ==> Lookup(handlers, cmd.command, cmd.role) == Err(w.error))
  }

  ghost predicate WorkersInv(handlers: map<string, Handler>, workers: seq<Worker>, net: PhoneHome.State) {
    && |workers| == |net.received|
    && forall k: nat | k < |workers| ::
         WorkerInv(handlers, workers[k], net.received[k], OfInstance(net.emitted, k))
  }

  // The execution and shell traces against the workers.
  ghost predicate Traced(workers: seq<Worker>, executions: seq<Execution>, shell: seq<ShellCall>) {
    && (forall x | x in executions ::
          x.instance < |workers| && Ran(workers[x.instance]) && workers[x.instance].handler == x.handler)
    && (forall i, j | 0 <= i < j < |executions| :: executions[i].instance != executions[j].instance)
    && (forall k: nat | k < |workers| && Ran(workers[k]) :: Execution(k, workers[k].handler) in executions)
    && (forall c | c in shell :: c.instance < |workers| && Ran(workers[c.instance]))
  }

  ghost predicate Inv(handlers: map<string, Handler>, s: State) {
    Delivery.Inv(s.net) && WorkersInv(handlers, s.workers, s.net) && Traced(s.workers, s.executions, s.shell)
  }

  lemma {:induction false} NothingFromTheFuture(log: seq<PhoneHome.Emission>, k: nat)
    requires forall m | m in log :: m.instance < k
    ensures OfInstance(log, k) == []
  {
    if log != [] { NothingFromTheFuture(log[..|log| - 1], k); }
  }

  function Grown(workers: seq<Worker>, net: PhoneHome.State, net': PhoneHome.State): seq<Worker> {
    if |net'.received| > |net.received| then workers + [Spawned] else workers
  }

  lemma {:induction false} NewCommandGetsAWorker(handlers: map<string, Handler>, workers: seq<Worker>,
                              net: PhoneHome.State, net': PhoneHome.State)
    requires Numbered(net) && WorkersInv(handlers, workers, net)
    requires net'.emitted == net.emitted
    requires net'.received == net.received || exists cmd :: net'.received == net.received + [cmd]
    ensures WorkersInv(handlers, Grown(workers, net, net'), net')
  {
    if net'.received != net.received {
      NothingFromTheFuture(net.emitted, |net.received|);
      forall k: nat | k <= |workers|
        ensures WorkerInv(handlers, (workers + [Spawned])[k], net'.received[k], OfInstance(net.emitted, k))
      {
        if k < |workers| {
          assert WorkerInv(handlers, workers[k], net.received[k], OfInstance(net.emitted, k));
        } else {
          assert OfInstance(net.emitted, k) == [] && Frames(Spawned) == [];
        }
      }
    }
  }

  lemma TracedGrows(workers: seq<Worker>, executions: seq<Execution>, shell: seq<ShellCall>)
    requires Traced(workers, executions, shell)
    ensures Traced(workers + [Spawned], executions, shell)
  {
    assert forall k: nat | k < |workers| :: (workers + [Spawned])[k] == workers[k];
  }

  // A worker that moves on without passing the gate again.
  lemma TracedMove(workers: seq<Worker>, executions: seq<Execution>, shell: seq<ShellCall>, k: nat, w: Worker)
    requires Traced(workers, executions, shell) && k < |workers|
    requires Ran(w) <==> Ran(workers[k])
    requires Ran(w) ==> w.handler == workers[k].handler
    ensures Traced(workers[k := w], executions, shell)
  {
    var moved := workers[k := w];
    assert forall j: nat | j < |workers| && j != k :: moved[j] == workers[j];
  }

  // A worker that passes the gate.
  lemma TracedStart(workers: seq<Worker>, executions: seq<Execution>, shell: seq<ShellCall>, k: nat, handler: Handler)
    requires Traced(workers, executions, shell) && k < |workers| && workers[k].Spawned?
    ensures Traced(workers[k := Executing(handler, [])], executions + [Execution(k, handler)], shell)
  {
    var moved := workers[k := Executing(handler, [])];
    assert forall j: nat | j < |workers| && j != k :: moved[j] == workers[j];
    forall i | 0 <= i < |executions| ensures executions[i].instance != k {
      assert executions[i] in executions;
    }
  }

  lemma {:induction false} OfInstanceAppend(log: seq<PhoneHome.Emission>, m: PhoneHome.Emission, k: nat)
    ensures OfInstance(log + [m], k) == OfInstance(log, k) + if m.instance == k then [m] else []
  {
    assert (log + [m])[..|log|] == log;
  }

  lemma {:induction false} EmitAppends(net: PhoneHome.State, k: nat, state: OpRunState, encodes: bool)
      returns (m: PhoneHome.Emission)
    requires k < |net.received|
    ensures var net' := PhoneHome.Step(net, PhoneHome.Emit(k, state, encodes));
            net'.received == net.received && net'.emitted == net.emitted + [m]
    ensures m.instance == k && m.frame.state == state && m.frame.jobId == net.received[k].jobId
  {
    m := PhoneHome.Step(net, PhoneHome.Emit(k, state, encodes)).emitted[|net.emitted|];
  }

  lemma {:induction false} CarriesOneMore(log: seq<PhoneHome.Emission>, states: seq<OpRunState>, jobId: string,
                                         m: PhoneHome.Emission)
    requires Carries(log, states, jobId) && m.frame.jobId == jobId
    ensures Carries(log + [m], states + [m.frame.state], jobId)
  {
  }

  lemma {:induction false} FramesKeepWorkers(handlers: map<string, Handler>, workers: seq<Worker>,
                                            net: PhoneHome.State, net': PhoneHome.State,
                                            k: nat, w: Worker, m: PhoneHome.Emission)
    requires WorkersInv(handlers, workers, net) && k < |workers|
    requires net'.received == net.received && net'.emitted == net.emitted + [m]
    requires m.instance == k && m.frame.jobId == net.received[k].jobId
    requires WorkerInv(handlers, w, net.received[k], OfInstance(net.emitted, k) + [m])
    ensures WorkersInv(handlers, workers[k := w], net')
  {
    forall j: nat | j < |workers|
      ensures WorkerInv(handlers, workers[k := w][j], net'.received[j], OfInstance(net'.emitted, j))
    {
      OfInstanceAppend(net.emitted, m, j);
      if j == k {
        assert OfInstance(net'.emitted, j) == OfInstance(net.emitted, k) + [m];
        assert workers[k := w][j] == w;
      } else {
        assert WorkerInv(handlers, workers[j], net.received[j], OfInstance(net.emitted, j));
        assert OfInstance(net'.emitted, j) == OfInstance(net.emitted, j);
        assert workers[k := w][j] == workers[j];
      }
    }
  }

  // A worker moves on and pushes one frame.
  lemma {:induction false} PushKeepsWorkers(handlers: map<string, Handler>, workers: seq<Worker>, net: PhoneHome.State,
                         k: nat, w: Worker, state: OpRunState, encodes: bool)
    requires WorkersInv(handlers, workers, net) && k < |workers|
    requires Frames(w) == Frames(workers[k]) + [state]
    requires var looked := Lookup(handlers, net.received[k].command, net.received[k].role);
             (Ran(w) ==> looked == Ok(w.handler)) && (w.Rejected? ==> looked == Err(w.error))
    ensures WorkersInv(handlers, workers[k := w], PhoneHome.Step(net, PhoneHome.Emit(k, state, encodes)))
  {
    var m := EmitAppends(net, k, state, encodes);
    assert WorkerInv(handlers, workers[k], net.received[k], OfInstance(net.emitted, k));
    CarriesOneMore(OfInstance(net.emitted, k), Frames(workers[k]), net.received[k].jobId, m);
    FramesKeepWorkers(handlers, workers, net, PhoneHome.Step(net, PhoneHome.Emit(k, state, encodes)), k, w, m);
  }

  // A worker moves on in silence.
  lemma {:induction false} SilentMove(handlers: map<string, Handler>, workers: seq<Worker>,
                                     net: PhoneHome.State, k: nat, w: Worker)
    requires WorkersInv(handlers, workers, net) && k < |workers|
    requires Frames(w) == Frames(workers[k]) && !w.Rejected?
    requires Ran(w) ==> Lookup(handlers, net.received[k].command, net.received[k].role) == Ok(w.handler)
    ensures WorkersInv(handlers, workers[k := w], net)
  {
    assert WorkerInv(handlers, workers[k], net.received[k], OfInstance(net.emitted, k));
  }

  lemma RefusalFrames(error: DispatchError)
    ensures Frames(Rejected(error)) == Frames(Spawned) + [Failure(ErrorText(error))]
  {
  }

  lemma RefusalStep(handlers: map<string, Handler>, s: State, k: nat, encodes: bool, error: DispatchError)
    requires k < |s.workers| && k < |s.net.received| && s.workers[k].Spawned?
    requires Lookup(handlers, s.net.received[k].command, s.net.received[k].role) == Err(error)
    ensures var s' := Step(handlers, s, Start(k, encodes));
            && s'.workers == s.workers[k := Rejected(error)]
            && s'.net == PhoneHome.Step(s.net, PhoneHome.Emit(k, Failure(ErrorText(error)), encodes))
  {
  }

  lemma {:induction false} StartKeepsWorkers(handlers: map<string, Handler>, s: State, k: nat, encodes: bool)
    requires WorkersInv(handlers, s.workers, s.net) && k < |s.workers| && s.workers[k].Spawned?
    ensures var s' := Step(handlers, s, Start(k, encodes)); WorkersInv(handlers, s'.workers, s'.net)
  {
    match Lookup(handlers, s.net.received[k].command, s.net.received[k].role)
    case Ok(handler) => SilentMove(handlers, s.workers, s.net, k, Executing(handler, []));
    case Err(error) =>
      RefusalFrames(error);
      RefusalStep(handlers, s, k, encodes, error);
      PushKeepsWorkers(handlers, s.workers, s.net, k, Rejected(error), Failure(ErrorText(error)), encodes);
  }

  lemma {:induction false} ReturnKeepsWorkers(handlers: map<string, Handler>, s: State, k: nat,
                                             outcome: Outcome, encodes: bool)
    requires WorkersInv(handlers, s.workers, s.net) && k < |s.workers| && s.workers[k].Executing?
    ensures var s' := Step(handlers, s, Return(k, outcome, encodes)); WorkersInv(handlers, s'.workers, s'.net)
  {
    var w := s.workers[k];
    assert WorkerInv(handlers, w, s.net.received[k], OfInstance(s.net.emitted, k));
    var w' := Finished(w.handler, w.reports, outcome);
    match outcome
    case Ok(_) => SilentMove(handlers, s.workers, s.net, k, w');
    case Err(error) =>
      PushKeepsWorkers(handlers, s.workers, s.net, k, w', Failure(ErrorText(Command(error))), encodes);
  }

  lemma {:induction false} WorkersKept(handlers: map<string, Handler>, s: State, e: Event)
    requires Numbered(s.net) && WorkersInv(handlers, s.workers, s.net)
    ensures var s' := Step(handlers, s, e); WorkersInv(handlers, s'.workers, s'.net)
  {
    match e
    case Net(step) =>
      if !step.Emit? {
        PhoneHome.StepFrame(s.net, step);
        NewCommandGetsAWorker(handlers, s.workers, s.net, PhoneHome.Step(s.net, step));
      }
    case Start(k, encodes) =>
      if k < |s.workers| && s.workers[k].Spawned? { StartKeepsWorkers(handlers, s, k, encodes); }
    case Report(k, state, encodes) =>
      if k < |s.workers| && s.workers[k].Executing? {
        var w := s.workers[k];
        assert WorkerInv(handlers, w, s.net.received[k], OfInstance(s.net.emitted, k));
        PushKeepsWorkers(handlers, s.workers, s.net, k, Executing(w.handler, w.reports + [state]), state, encodes);
      }
    case Call(_, _) =>
    case Return(k, outcome, encodes) =>
      if k < |s.workers| && s.workers[k].Executing? { ReturnKeepsWorkers(handlers, s, k, outcome, encodes); }
  }

  lemma {:induction false} TracesKept(handlers: map<string, Handler>, s: State, e: Event)
    requires |s.workers| == |s.net.received| && Traced(s.workers, s.executions, s.shell)
    ensures var s' := Step(handlers, s, e); Traced(s'.workers, s'.executions, s'.shell)
  {
    match e
    case Net(_) => TracedGrows(s.workers, s.executions, s.shell);
    case Start(k, _) =>
      if k < |s.workers| && s.workers[k].Spawned? {
        match Lookup(handlers, s.net.received[k].command, s.net.received[k].role)
        case Ok(handler) => TracedStart(s.workers, s.executions, s.shell, k, handler);
        case Err(error) => TracedMove(s.workers, s.executions, s.shell, k, Rejected(error));
      }
    case Report(k, state, _) =>
      if k < |s.workers| && s.workers[k].Executing? {
        var w := s.workers[k];
        TracedMove(s.workers, s.executions, s.shell, k, Executing(w.handler, w.reports + [state]));
      }
    case Call(_, _) =>
    case Return(k, outcome, _) =>
      if k < |s.workers| && s.workers[k].Executing? {
        var w := s.workers[k];
        TracedMove(s.workers, s.executions, s.shell, k, Finished(w.handler, w.reports, outcome));
      }
  }

  // ---- Refinement ----------------------------------------------------------

  // The protocol events inside one agent step: one or none.
  function Projected(handlers: map<string, Handler>, s: State, e: Event): seq<PhoneHome.Event> {
    match e
    case Net(step) => if step.Emit? then [] else [step]
    case Start(k, encodes) =>
      if k >= |s.workers| || k >= |s.net.received| || !s.workers[k].Spawned? then []
      else
        (match Lookup(handlers, s.net.received[k].command, s.net.received[k].role)
         case Ok(_) => []
         case Err(error) => [PhoneHome.Emit(k, Failure(ErrorText(error)), encodes)])
    case Report(k, state, encodes) =>
      if k >= |s.workers| || !s.workers[k].Executing? then [] else [PhoneHome.Emit(k, state, encodes)]
    case Call(_, _) => []
    case Return(k, outcome, encodes) =>
      if k >= |s.workers| || !s.workers[k].Executing? || outcome.Ok? then []
      else [PhoneHome.Emit(k, Failure(ErrorText(Command(outcome.error))), encodes)]
  }

  function Projection(handlers: map<string, Handler>, events: seq<Event>): seq<PhoneHome.Event> {
    if events == [] then []
    else
      var front := events[..|events| - 1];
      Projection(handlers, front) + Projected(handlers, Run(handlers, front), events[|events| - 1])
  }

  lemma StepProjects(handlers: map<string, Handler>, s: State, e: Event)
    ensures var trace := Projected(handlers, s, e);
            Step(handlers, s, e).net == if trace == [] then s.net else PhoneHome.Step(s.net, trace[0])
    ensures |Projected(handlers, s, e)| <= 1
  {
  }

  // Every run of the agent is, seen from the network, a run of the phone-home protocol,
  // so the ordering, slot and back-off theorems hold of the whole agent.
  lemma {:induction false} AgentRefinesProtocol(handlers: map<string, Handler>, events: seq<Event>)
    ensures Run(handlers, events).net == PhoneHome.Run(PhoneHome.INITIAL, Projection(handlers, events))
  {
    if events != [] {
      var front := events[..|events| - 1];
      var s := Run(handlers, front);
      var trace := Projected(handlers, s, events[|events| - 1]);
      AgentRefinesProtocol(handlers, front);
      StepProjects(handlers, s, events[|events| - 1]);
      PhoneHome.RunConcat(PhoneHome.INITIAL, Projection(handlers, front), trace);
      if trace != [] {
        assert trace == [trace[0]];
        PhoneHome.RunOne(s.net, trace[0]);
      }
    }
  }

  lemma {:induction false} RunKeepsAgentInv(handlers: map<string, Handler>, events: seq<Event>)
    ensures Inv(handlers, Run(handlers, events))
  {
    AgentRefinesProtocol(handlers, events);
    Delivery.RunKeepsInv(PhoneHome.INITIAL, Projection(handlers, events));
    if events != [] {
      RunKeepsAgentInv(handlers, events[..|events| - 1]);
      var s := Run(handlers, events[..|events| - 1]);
      var e := events[|events| - 1];
      WorkersKept(handlers, s, e);
      TracesKept(handlers, s, e);
    }
  }

  // ---- The life of one command ---------------------------------------------

  // The contract, as far as it binds a worker by now.
  predicate Honours(w: Worker) {
    match w
    case Spawned => true
    case Rejected(_) => true
    case Executing(_, reports) =>
      RunningThenTerminal(reports) || forall state | state in reports :: state.status == Running
    case Finished(_, reports, outcome) => ReportsDoneIffOk(reports, outcome.Ok?)
  }

  // Running frames, and at most a last terminal one.
  ghost predicate Shaped(log: seq<PhoneHome.Emission>) {
    && (forall i | 0 <= i < |log| - 1 :: log[i].frame.state.status == Running)
    && (log != [] ==> log[|log| - 1].frame.state.status == Running || Terminal(log[|log| - 1].frame.state))
  }

  // What the contract buys, exactly: a finished worker pushed running states and one
  // terminal state, `done` if and only if it returned Ok.
  lemma ContractIsExact(handler: Handler, reports: seq<OpRunState>, outcome: Outcome)
    ensures var frames := Frames(Finished(handler, reports, outcome));
            ReportsDoneIffOk(reports, outcome.Ok?)
            <==> RunningThenTerminal(frames) && (frames[|frames| - 1].status == Done <==> outcome.Ok?)
  {
    var frames := Frames(Finished(handler, reports, outcome));
    if outcome.Err? {
      assert forall i | 0 <= i < |reports| :: frames[i] == reports[i];
    } else if reports != [] {
      var front := reports[..|reports| - 1];
      assert forall i | 0 <= i < |front| :: front[i] == reports[i] && front[i] in front;
    }
  }

  ghost predicate AllRunning(log: seq<PhoneHome.Emission>) {
    forall i | 0 <= i < |log| :: log[i].frame.state.status == Running
  }

  lemma {:induction false} DeliverableRunning(log: seq<PhoneHome.Emission>)
    requires AllRunning(log)
    ensures AllRunning(Deliverable(log))
  {
    if log != [] { DeliverableRunning(log[..|log| - 1]); }
  }

  lemma {:induction false} DeliverableShaped(log: seq<PhoneHome.Emission>)
    requires Shaped(log)
    ensures Shaped(Deliverable(log))
    ensures log != [] && Terminal(log[|log| - 1].frame.state) ==>
              var sent := Deliverable(log);
              log[|log| - 1].frame.encodes <==> sent != [] && Terminal(sent[|sent| - 1].frame.state)
  {
    if log != [] { DeliverableRunning(log[..|log| - 1]); }
  }

  lemma {:induction false} AcknowledgedOfInstance(s: State, k: nat)
    requires Delivery.Inv(s.net)
    ensures OfInstance(s.net.acked, k) <= Deliverable(OfInstance(s.net.emitted, k))
    ensures s.net.pending.None? && s.net.queue == [] ==>
              OfInstance(s.net.acked, k) == Deliverable(OfInstance(s.net.emitted, k))
  {
    var rest := Slot(s.net.pending) + Deliverable(s.net.queue);
    assert s.net.acked + rest == Deliverable(s.net.emitted);
    OfInstanceConcat(s.net.acked, rest, k);
    FiltersCommute(s.net.emitted, k);
  }

  // Every command, over every run: the acknowledged frames are a prefix of what its
  // worker pushed (less frames that do not serialise), under its own job id; while the
  // handler keeps to the contract they are running frames and at most a last terminal one.
  lemma {:induction false} CommandFramesInOrder(handlers: map<string, Handler>, events: seq<Event>, k: nat)
    ensures var s := Run(handlers, events);
            k < |s.workers| ==>
              && k < |s.net.received|
              && Carries(OfInstance(s.net.emitted, k), Frames(s.workers[k]), s.net.received[k].jobId)
              && OfInstance(s.net.acked, k) <= Deliverable(OfInstance(s.net.emitted, k))
              && (Honours(s.workers[k]) ==> Shaped(OfInstance(s.net.acked, k)))
  {
    RunKeepsAgentInv(handlers, events);
    var s := Run(handlers, events);
    if k < |s.workers| {
      AcknowledgedOfInstance(s, k);
      if Honours(s.workers[k]) {
        HonouredShaped(s, k, s.net.received[k].jobId);
        PrefixShaped(OfInstance(s.net.acked, k), OfInstance(s.net.emitted, k));
      }
    }
  }

  lemma {:induction false} PrefixShaped(acked: seq<PhoneHome.Emission>, log: seq<PhoneHome.Emission>)
    requires Shaped(log) && acked <= Deliverable(log)
    ensures Shaped(acked)
  {
    DeliverableShaped(log);
    assert forall i | 0 <= i < |acked| :: acked[i] == Deliverable(log)[i];
  }

  lemma {:induction false} HonouredFrames(w: Worker)
    requires Honours(w)
    ensures var frames := Frames(w);
            && (RunningThenTerminal(frames) || forall i | 0 <= i < |frames| :: frames[i].status == Running)
            && (w.Finished? || w.Rejected? ==> RunningThenTerminal(frames))
  {
    if w.Finished? { ContractIsExact(w.handler, w.reports, w.outcome); }
    if w.Executing? {
      assert forall i | 0 <= i < |w.reports| :: w.reports[i] in w.reports;
    }
  }

  lemma {:induction false} HonouredShaped(s: State, k: nat, jobId: string)
    requires k < |s.workers| && Honours(s.workers[k])
    requires Carries(OfInstance(s.net.emitted, k), Frames(s.workers[k]), jobId)
    ensures Shaped(OfInstance(s.net.emitted, k))
    ensures s.workers[k].Finished? || s.workers[k].Rejected? ==>
              var log := OfInstance(s.net.emitted, k);
              log != [] && Terminal(log[|log| - 1].frame.state)
  {
    HonouredFrames(s.workers[k]);
  }

  // Once the worker is through and the queue and the slot are empty, the acknowledged
  // frames of the command are running frames closed by exactly one terminal frame (unless
  // that frame does not serialise), no matter how many sockets carried them.
  lemma {:induction false} ExactlyOneTerminalFrame(handlers: map<string, Handler>, events: seq<Event>, k: nat)
    ensures var s := Run(handlers, events);
            (&& k < |s.workers| && (s.workers[k].Finished? || s.workers[k].Rejected?)
             && Honours(s.workers[k])
             && s.net.pending.None? && s.net.queue == [])
            ==> var log := OfInstance(s.net.emitted, k);
                var acked := OfInstance(s.net.acked, k);
                && log != [] && Shaped(acked)
                && (log[|log| - 1].frame.encodes
                    <==> acked != [] && Terminal(acked[|acked| - 1].frame.state))
  {
    RunKeepsAgentInv(handlers, events);
    var s := Run(handlers, events);
    HonouredIsClosed(handlers, s, k);
  }

  lemma {:induction false} HonouredIsClosed(handlers: map<string, Handler>, s: State, k: nat)
    requires Inv(handlers, s)
    ensures (&& k < |s.workers| && (s.workers[k].Finished? || s.workers[k].Rejected?)
             && Honours(s.workers[k])
             && s.net.pending.None? && s.net.queue == [])
            ==> var log := OfInstance(s.net.emitted, k);
                var acked := OfInstance(s.net.acked, k);
                && log != [] && Shaped(acked)
                && (log[|log| - 1].frame.encodes
                    <==> acked != [] && Terminal(acked[|acked| - 1].frame.state))
  {
    if k < |s.workers| && (s.workers[k].Finished? || s.workers[k].Rejected?) && Honours(s.workers[k]) {
      assert WorkerInv(handlers, s.workers[k], s.net.received[k], OfInstance(s.net.emitted, k));
      HonouredShaped(s, k, s.net.received[k].jobId);
      DrainedIsClosed(s, k);
    }
  }

  lemma {:induction false} DrainedIsClosed(s: State, k: nat)
    requires Delivery.Inv(s.net) && Shaped(OfInstance(s.net.emitted, k))
    requires var log := OfInstance(s.net.emitted, k); log != [] && Terminal(log[|log| - 1].frame.state)
    ensures s.net.pending.None? && s.net.queue == [] ==>
              var log := OfInstance(s.net.emitted, k);
              var acked := OfInstance(s.net.acked, k);
              && Shaped(acked)
              && (log[|log| - 1].frame.encodes
                  <==> acked != [] && Terminal(acked[|acked| - 1].frame.state))
  {
    AcknowledgedOfInstance(s, k);
    DeliverableShaped(OfInstance(s.net.emitted, k));
  }

  // ---- Recovery ------------------------------------------------------------

  // Network events that neither bring commands nor push frames.
  predicate Delivering(e: PhoneHome.Event) {
    !e.Emit? && !e.Read?
  }

  function Lifted(steps: seq<PhoneHome.Event>): (events: seq<Event>)
    ensures |events| == |steps|
    ensures forall i | 0 <= i < |steps| :: events[i] == Net(steps[i])
  {
    seq(|steps|, i requires 0 <= i < |steps| => Net(steps[i]))
  }

  lemma DeliveringStep(handlers: map<string, Handler>, s: State, step: PhoneHome.Event)
    requires Delivering(step)
    ensures Step(handlers, s, Net(step)) == s.(net := PhoneHome.Step(s.net, step))
    ensures PhoneHome.Step(s.net, step).received == s.net.received
  {
  }

  // Such events move the network alone.
  lemma {:induction false} LiftedRun(handlers: map<string, Handler>, events: seq<Event>, steps: seq<PhoneHome.Event>)
    requires forall i | 0 <= i < |steps| :: Delivering(steps[i])
    ensures var s := Run(handlers, events);
            Run(handlers, events + Lifted(steps)) == s.(net := PhoneHome.Run(s.net, steps))
    decreases |steps|
  {
    if steps == [] {
      assert events + Lifted(steps) == events;
    } else {
      var n := |steps| - 1;
      var front := events + Lifted(steps[..n]);
      assert events + Lifted(steps) == front + [Net(steps[n])];
      assert (front + [Net(steps[n])])[..|front|] == front;
      LiftedRun(handlers, events, steps[..n]);
      DeliveringStep(handlers, Run(handlers, front), steps[n]);
    }
  }

  // One back-off, one connection, and the whole queue.
  function Recovery(net: PhoneHome.State): seq<PhoneHome.Event> {
    Reconnect(net) + Drain(|PhoneHome.Run(net, Reconnect(net)).queue|)
  }

  lemma RecoveryDelivers(net: PhoneHome.State)
    ensures forall i | 0 <= i < |Recovery(net)| :: Delivering(Recovery(net)[i])
  {
    assert forall i | 0 <= i < |Reconnect(net)| :: Delivering(Reconnect(net)[i]);
  }

  lemma {:induction false} RecoveryEmptiesTheNet(net: PhoneHome.State)
    requires Delivery.Inv(net)
    ensures var net' := PhoneHome.Run(net, Recovery(net));
            && Delivery.Inv(net') && net'.emitted == net.emitted
            && net'.queue == [] && net'.pending.None? && net'.acked == Deliverable(net.emitted)
  {
    ReconnectReachesTheLoop(net);
    Delivery.RunKeepsInv(net, Reconnect(net));
    var ready := PhoneHome.Run(net, Reconnect(net));
    DrainEmptiesTheQueue(ready);
    PhoneHome.RunConcat(net, Reconnect(net), Drain(|ready.queue|));
    Delivery.RunKeepsInv(net, Recovery(net));
    var net' := PhoneHome.Run(net, Recovery(net));
    assert net'.acked + Slot(net'.pending) + Deliverable(net'.queue) == net'.acked;
  }

  // From every run of the agent, however many connections have failed: one back-off and one
  // connection that accepts its writes acknowledge all that was pushed, and with it the one
  // terminal frame of every command whose handler has returned and keeps to the contract.
  lemma {:induction false} EveryCommandIsStillClosed(handlers: map<string, Handler>, events: seq<Event>, k: nat)
    ensures var s := Run(handlers, events);
            var s' := Run(handlers, events + Lifted(Recovery(s.net)));
            && s'.workers == s.workers && s'.net.acked == Deliverable(s.net.emitted)
            && (k < |s.workers| && (s.workers[k].Finished? || s.workers[k].Rejected?) && Honours(s.workers[k]) ==>
                  var log := OfInstance(s.net.emitted, k);
                  var acked := OfInstance(s'.net.acked, k);
                  && log != [] && Shaped(acked)
                  && (log[|log| - 1].frame.encodes
                      <==> acked != [] && Terminal(acked[|acked| - 1].frame.state)))
  {
    RunKeepsAgentInv(handlers, events);
    var s := Run(handlers, events);
    RecoveryDelivers(s.net);
    LiftedRun(handlers, events, Recovery(s.net));
    RecoveryEmptiesTheNet(s.net);
    ExactlyOneTerminalFrame(handlers, events + Lifted(Recovery(s.net)), k);
  }

  // ---- The gate ------------------------------------------------------------

  // Whatever was registered and whatever happens: each handler execution belongs to a
  // received command (one execution each at most), ran the handler last registered under
  // the command's name, and that command's role held its capability. Every shell call is
  // made inside such an execution.
  lemma EveryExecutionIsAuthorised(registrations: seq<Handler>, events: seq<Event>)
    ensures var s := Run(Registered(registrations), events);
            && (forall x | x in s.executions ::
                  && x.instance < |s.net.received|
                  && Has(s.net.received[x.instance].role, x.handler.capability)
                  && exists i: nat :: LastNamed(registrations, i, s.net.received[x.instance].command)
                                      && registrations[i] == x.handler)
            && (forall i, j | 0 <= i < j < |s.executions| :: s.executions[i].instance != s.executions[j].instance)
            && (forall c | c in s.shell :: exists x :: x in s.executions && x.instance == c.instance)
  {
    var handlers := Registered(registrations);
    RunKeepsAgentInv(handlers, events);
    var s := Run(handlers, events);
    forall x | x in s.executions
      ensures && x.instance < |s.net.received|
              && Has(s.net.received[x.instance].role, x.handler.capability)
              && exists i: nat :: LastNamed(registrations, i, s.net.received[x.instance].command)
                                  && registrations[i] == x.handler
    {
      LastRegistrationWins(registrations, s.net.received[x.instance].command);
    }
    forall c | c in s.shell ensures exists x :: x in s.executions && x.instance == c.instance {
      assert Execution(c.instance, s.workers[c.instance].handler) in s.executions;
    }
  }

  // What every worker that was started is doing, told from the registrations: if its
  // command's role holds the capability of the handler last registered under its name, it
  // is executing that handler or has; if not, it was rejected with the refusal that fits.
  lemma {:induction false} StartedWorkersGetWhatIsOwed(registrations: seq<Handler>, events: seq<Event>, k: nat)
    ensures var s := Run(Registered(registrations), events);
            k < |s.workers| && !s.workers[k].Spawned? ==>
              && k < |s.net.received|
              && var cmd, w := s.net.received[k], s.workers[k];
                 && (forall i: nat | LastNamed(registrations, i, cmd.command) ::
                       if Has(cmd.role, registrations[i].capability)
                       then Ran(w) && w.handler == registrations[i]
                       else w == Rejected(Forbidden(cmd.command, cmd.role, registrations[i].capability)))
                 && ((forall i | 0 <= i < |registrations| :: registrations[i].name != cmd.command) ==>
                       w == Rejected(UnknownCommand(cmd.command)))
  {
    RunKeepsAgentInv(Registered(registrations), events);
    var s := Run(Registered(registrations), events);
    if k < |s.workers| && !s.workers[k].Spawned? {
      var cmd := s.net.received[k];
      assert WorkerInv(Registered(registrations), s.workers[k], cmd, OfInstance(s.net.emitted, k));
      LookupIsOwed(registrations, cmd.command, cmd.role, Lookup(Registered(registrations), cmd.command, cmd.role));
    }
  }

  // A start starts: the worker leaves the state it waited in.
  lemma StartIsNotIgnored(handlers: map<string, Handler>, s: State, k: nat, encodes: bool)
    requires k < |s.workers| && k < |s.net.received|
    ensures !Step(handlers, s, Start(k, encodes)).workers[k].Spawned?
  {
  }

  // An unknown or forbidden command runs nothing and calls no shell; what it puts on the
  // queue is nothing at first and then exactly its one error frame.
  lemma RefusedCommandsOnlyReport(handlers: map<string, Handler>, events: seq<Event>, k: nat)
    ensures var s := Run(handlers, events);
            k < |s.net.received| ==>
              var cmd := s.net.received[k];
              var looked := Lookup(handlers, cmd.command, cmd.role);
              var log := OfInstance(s.net.emitted, k);
              looked.Err? ==>
                && (forall x | x in s.executions :: x.instance != k)
                && (forall c | c in s.shell :: c.instance != k)
                && k < |s.workers|
                && (s.workers[k].Spawned? ==> log == [])
                && (!s.workers[k].Spawned? ==> Carries(log, [Failure(ErrorText(looked.error))], cmd.jobId))
  {
    RunKeepsAgentInv(handlers, events);
  }

  // ---- handle_command, run on its own --------------------------------------

  // What a handler would do if it were called.
  datatype Behaviour = Behaviour(reports: seq<OpRunState>, outcome: Outcome)

  function Served(handlers: map<string, Handler>, cmd: PhoneHome.InboundCommand, behaviour: Behaviour): Worker {
    match Lookup(handlers, cmd.command, cmd.role)
    case Ok(handler) => Finished(handler, behaviour.reports, behaviour.outcome)
    case Err(error) => Rejected(error)
  }

  // ---- ... and among everything else ---------------------------------------

  // What one event makes of one worker, whatever else it does.
  function Advance(handlers: map<string, Handler>, cmd: PhoneHome.InboundCommand, k: nat, w: Worker, e: Event): Worker {
    match e
    case Start(j, _) =>
      if j != k || !w.Spawned? then w
      else
        (match Lookup(handlers, cmd.command, cmd.role)
         case Ok(handler) => Executing(handler, [])
         case Err(error) => Rejected(error))
    case Report(j, state, _) =>
      if j != k || !w.Executing? then w else Executing(w.handler, w.reports + [state])
    case Return(j, outcome, _) =>
      if j != k || !w.Executing? then w else Finished(w.handler, w.reports, outcome)
    case _ => w
  }

  lemma StepAdvances(handlers: map<string, Handler>, s: State, e: Event, k: nat)
    requires |s.workers| == |s.net.received| && k < |s.workers|
    ensures var s' := Step(handlers, s, e);
            && k < |s'.workers| && k < |s'.net.received| && s'.net.received[k] == s.net.received[k]
            && s'.workers[k] == Advance(handlers, s.net.received[k], k, s.workers[k], e)
  {
    if e.Net? { PhoneHome.StepFrame(s.net, e.step); }
  }

  function AdvanceAll(handlers: map<string, Handler>, cmd: PhoneHome.InboundCommand, k: nat, w: Worker,
                      events: seq<Event>): Worker {
    if events == [] then w
    else Advance(handlers, cmd, k, AdvanceAll(handlers, cmd, k, w, events[..|events| - 1]), events[|events| - 1])
  }

  lemma {:induction false} RunAdvances(handlers: map<string, Handler>, before: seq<Event>, events: seq<Event>, k: nat)
    requires k < |Run(handlers, before).workers|
    ensures var s, s' := Run(handlers, before), Run(handlers, before + events);
            && k < |s.net.received| && k < |s'.workers| && k < |s'.net.received|
            && s'.net.received[k] == s.net.received[k]
            && s'.workers[k] == AdvanceAll(handlers, s.net.received[k], k, s.workers[k], events)
    decreases |events|
  {
    RunKeepsAgentInv(handlers, before);
    if events == [] {
      assert before + events == before;
    } else {
      var n := |events| - 1;
      var front := before + events[..n];
      assert (before + events)[..|before + events| - 1] == front;
      RunAdvances(handlers, before, events[..n], k);
      RunKeepsAgentInv(handlers, front);
      StepAdvances(handlers, Run(handlers, front), events[n], k);
    }
  }

  // The events of worker k that make a handler's life: its start, its reports, its return.
  predicate IsOwn(e: Event, k: nat) {
    (e.Start? && e.worker == k) || (e.Report? && e.worker == k) || (e.Return? && e.worker == k)
  }

  function Own(events: seq<Event>, k: nat): seq<Event> {
    if events == [] then []
    else
      var e := events[|events| - 1];
      Own(events[..|events| - 1], k) + if IsOwn(e, k) then [e] else []
  }

  lemma {:induction false} OnlyOwnEventsCount(handlers: map<string, Handler>, cmd: PhoneHome.InboundCommand,
                                             k: nat, w: Worker, events: seq<Event>)
    ensures AdvanceAll(handlers, cmd, k, w, events) == AdvanceAll(handlers, cmd, k, w, Own(events, k))
  {
    if events != [] {
      var e, front := events[|events| - 1], events[..|events| - 1];
      OnlyOwnEventsCount(handlers, cmd, k, w, front);
      if Own(events, k) != Own(front, k) {
        assert Own(events, k)[..|Own(events, k)| - 1] == Own(front, k);
      }
    }
  }

  // They are what a behaviour asks for, in order.
  ghost predicate Lives(own: seq<Event>, behaviour: Behaviour) {
    var n := |behaviour.reports|;
    && |own| == n + 2
    && own[0].Start?
    && (forall i | 0 <= i < n :: own[i + 1].Report? && own[i + 1].state == behaviour.reports[i])
    && own[n + 1].Return? && own[n + 1].outcome == behaviour.outcome
  }

  // Where the worker is after its start and some reports.
  function Midway(handlers: map<string, Handler>, cmd: PhoneHome.InboundCommand, reports: seq<OpRunState>): Worker {
    match Lookup(handlers, cmd.command, cmd.role)
    case Ok(handler) => Executing(handler, reports)
    case Err(error) => Rejected(error)
  }

  lemma {:induction false} MidwayThrough(handlers: map<string, Handler>, cmd: PhoneHome.InboundCommand, k: nat,
                                        own: seq<Event>, behaviour: Behaviour, n: nat)
    requires Lives(own, behaviour) && n <= |behaviour.reports|
    requires forall i | 0 <= i < |own| :: IsOwn(own[i], k)
    ensures AdvanceAll(handlers, cmd, k, Spawned, own[..n + 1]) == Midway(handlers, cmd, behaviour.reports[..n])
  {
    assert IsOwn(own[n], k);
    assert own[..n + 1][..n] == own[..n];
    if n == 0 {
      assert AdvanceAll(handlers, cmd, k, Spawned, own[..0]) == Spawned;
    } else {
      MidwayThrough(handlers, cmd, k, own, behaviour, n - 1);
      assert behaviour.reports[..n] == behaviour.reports[..n - 1] + [behaviour.reports[n - 1]];
    }
  }

  lemma {:induction false} OwnAreOwn(events: seq<Event>, k: nat)
    ensures forall i | 0 <= i < |Own(events, k)| :: IsOwn(Own(events, k)[i], k)
  {
    if events != [] { OwnAreOwn(events[..|events| - 1], k); }
  }

  // Among any events of the network and of other workers: a worker that is started, reports
  // as its handler behaves and returns ends up as serving its command on its own would
  // leave it, and what it pushed are the frames of that.
  lemma {:induction false} LifeEndsServed(handlers: map<string, Handler>, before: seq<Event>, events: seq<Event>,
                                         k: nat, behaviour: Behaviour)
    requires k < |Run(handlers, before).workers| && Run(handlers, before).workers[k].Spawned?
    requires Lives(Own(events, k), behaviour)
    ensures var s := Run(handlers, before + events);
            && k < |s.workers| && k < |s.net.received|
            && s.workers[k] == Served(handlers, s.net.received[k], behaviour)
            && Carries(OfInstance(s.net.emitted, k), Frames(s.workers[k]), s.net.received[k].jobId)
  {
    RunAdvances(handlers, before, events, k);
    var cmd := Run(handlers, before).net.received[k];
    var own, n := Own(events, k), |behaviour.reports|;
    OnlyOwnEventsCount(handlers, cmd, k, Spawned, events);
    OwnAreOwn(events, k);
    MidwayThrough(handlers, cmd, k, own, behaviour, n);
    assert IsOwn(own[n + 1], k);
    assert own[..|own| - 1] == own[..n + 1];
    assert behaviour.reports[..n] == behaviour.reports;
    CommandFramesInOrder(handlers, before + events, k);
  }

  // The channel end a command's progress goes to, under one job id.
  class TaggedProgressSink {
    const jobId: string
    var frames: seq<(string, OpRunState)>

    constructor (jobId: string)
      ensures this.jobId == jobId && frames == []
    {
      this.jobId := jobId;
      frames := [];
    }

    method Report(state: OpRunState)
      modifies this
      ensures frames == old(frames) + [(jobId, state)]
    {
      frames := frames + [(jobId, state)];
    }
  }

  // Dispatches one command: the handler's own frames, or its frames and one error frame,
  // or one error frame alone.
  method HandleCommand(registry: CommandRegistry, cmd: PhoneHome.InboundCommand, behaviour: Behaviour)
    returns (sink: TaggedProgressSink)
    requires registry.Valid()
    ensures fresh(sink)
    ensures var states := Frames(Served(registry.handlers, cmd, behaviour));
            && |sink.frames| == |states|
            && forall i | 0 <= i < |states| :: sink.frames[i] == (cmd.jobId, states[i])
    ensures forall i: nat | LastNamed(registry.registrations, i, cmd.command) ::
              |sink.frames| == if !Has(cmd.role, registry.registrations[i].capability) then 1
                               else |behaviour.reports| + if behaviour.outcome.Ok? then 0 else 1
    ensures (forall h | h in registry.registrations :: h.name != cmd.command) ==> |sink.frames| == 1
  {
    sink := new TaggedProgressSink(cmd.jobId);
    var found := registry.Dispatch(cmd.command, cmd.role);
    SomeLastNamed(registry.registrations, cmd.command);
    if found.Err? {
      sink.Report(Failure(ErrorText(found.error)));
      return;
    }
    for i := 0 to |behaviour.reports|
      invariant fresh(sink) && sink.jobId == cmd.jobId && |sink.frames| == i
      invariant forall j | 0 <= j < i :: sink.frames[j] == (cmd.jobId, behaviour.reports[j])
    {
      sink.Report(behaviour.reports[i]);
    }
    if behaviour.outcome.Err? {
      sink.Report(Failure(ErrorText(Command(behaviour.outcome.error))));
    }
  }
}
