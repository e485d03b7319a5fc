// Roles, capabilities and progress states: the plain data of src/authz.rs and src/report.rs.
module Authz {
  datatype Capability =
    | VmList | VmRead | VmClone | VmUpdate | VmPower | VmDelete
    | VmProvision | ConfigGenerate | VmExecArbitrary | Deploy

  datatype Role = Operator | Guest

  // An operator holds everything; a guest only the six lab capabilities.
  predicate Has(role: Role, capability: Capability) {
    match role
    case Operator => true
    case Guest => capability in {VmList, VmRead, VmClone, VmDelete, VmProvision, Deploy}
  }

  // What separates the roles: four capabilities that only operators hold.
  lemma OperatorsHoldMore(role: Role, capability: Capability)
    ensures Has(role, capability) <==>
            role == Operator
            || (capability != VmUpdate && capability != VmPower && capability != ConfigGenerate
                && capability != VmExecArbitrary)
  {
  }
}

module Report {
  import opened Wrappers

  datatype OpStatus = Pending | Running | Done | Error | Cancelled

  datatype OpRunState = OpRunState(
    status: OpStatus,
    percent: Option<real>,
    phase: Option<string>,
    detail: Option<string>,
    result: Option<string>)

  function Failure(detail: string): OpRunState {
    OpRunState(Error, None, None, Some(detail), None)
  }

  function InProgress(phase: string, percent: real): OpRunState {
    OpRunState(Running, Some(percent), Some(phase), None, None)
  }

  function Completed(result: string): OpRunState {
    OpRunState(Done, Some(100.0), None, None, Some(result))
  }

  // What a backend reads off a frame: the three kinds by their status, a result from the
  // done frame alone, a detail from the error frame alone, a phase from running frames.
  lemma FramesSay(phase: string, percent: real, result: string, detail: string)
    ensures var running, done, failed := InProgress(phase, percent), Completed(result), Failure(detail);
            && running.status == Running && done.status == Done && failed.status == Error
            && running.phase == Some(phase) && running.percent == Some(percent)
            && done.result == Some(result) && done.percent == Some(100.0) && failed.detail == Some(detail)
            && running.result == failed.result == None && running.detail == done.detail == None
            && done.phase == failed.phase == None
  {
  }

  // The states after which the backend closes a job.
  predicate Terminal(state: OpRunState) {
    state.status == Done || state.status == Error
  }

  // Any number of running states, then exactly one terminal state.
  predicate RunningThenTerminal(states: seq<OpRunState>) {
    && states != []
    && Terminal(states[|states| - 1])
    && forall i | 0 <= i < |states| - 1 :: states[i].status == Running
  }

  // The contract command handlers follow, over the states one execution reports: running
  // states, and `done` as the last one exactly when the handler returns Ok.
  predicate ReportsDoneIffOk(reports: seq<OpRunState>, ok: bool) {
    var front := if ok && reports != [] then reports[..|reports| - 1] else reports;
    && (ok ==> reports != [] && reports[|reports| - 1].status == Done)
    && forall state | state in front :: state.status == Running
  }
}
