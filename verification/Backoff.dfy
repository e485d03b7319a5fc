// What the phone-home protocol keeps about time: the delay rule, read off the history
// of iterations, and the amortised bound on how fast the agent can reconnect.
module Backoff {
  import opened Wrappers
  import opened PhoneHome

  // ---- The delay rule ------------------------------------------------------

  // Iterations lo..hi that did not end in a supersede.
  function CountedEnds(its: seq<Iteration>, lo: nat, hi: nat): nat
    requires lo <= hi <= |its|
  {
    if lo == hi then 0
    else CountedEnds(its, lo, hi - 1) + if its[hi - 1].end.Superseded? then 0 else 1
  }

  // Counting towards the delay after iteration i starts at r: the last iteration up to i
  // that lived long enough to be healthy, or the first one.
  ghost predicate CountsFrom(its: seq<Iteration>, r: nat, i: nat) {
    && r <= i < |its|
    && (r == 0 || its[r].elapsed >= HEALTHY_CONNECTION_SECS)
    && forall j | r < j <= i :: its[j].elapsed < HEALTHY_CONNECTION_SECS
  }

  // The delay slept after iteration i, as a function of the history alone.
  ghost predicate DelayFollowsHistory(its: seq<Iteration>, i: nat)
    requires i < |its|
  {
    if its[i].end.Superseded? then its[i].delay == SUPERSEDED_DELAY_SECS
    else forall r: nat | CountsFrom(its, r, i) :: its[i].delay == Delay(CountedEnds(its, r, i))
  }

  ghost predicate HistoryInv(s: State) {
    && (s.iterations == [] ==> s.attempt == 0)
    && (forall i | 0 <= i < |s.iterations| :: DelayFollowsHistory(s.iterations, i))
    && (forall r: nat | s.iterations != [] && CountsFrom(s.iterations, r, |s.iterations| - 1) ::
          s.attempt == CountedEnds(s.iterations, r, |s.iterations|))
  }

  lemma {:induction false} CountedEndsPrefix(its: seq<Iteration>, it: Iteration, lo: nat, hi: nat)
    requires lo <= hi <= |its|
    ensures CountedEnds(its + [it], lo, hi) == CountedEnds(its, lo, hi)
  {
    if lo < hi { CountedEndsPrefix(its, it, lo, hi - 1); }
  }

  lemma SettleKeepsHistory(s: State)
    requires HistoryInv(s) && s.mode.Ended?
    ensures HistoryInv(Step(s, Settle))
  {
    var s' := Step(s, Settle);
    var its, its' := s.iterations, s'.iterations;
    var n := |its|;
    var it := its'[n];
    assert its' == its + [it];
    forall r: nat | CountsFrom(its', r, n)
      ensures CountedEnds(its', r, n) == (if it.elapsed >= HEALTHY_CONNECTION_SECS then 0 else s.attempt)
    {
      if r < n {
        assert CountsFrom(its, r, n - 1) by {
          forall j | r < j <= n - 1 ensures its[j].elapsed < HEALTHY_CONNECTION_SECS { assert its'[j] == its[j]; }
        }
        CountedEndsPrefix(its, it, r, n);
      }
    }
    forall i | 0 <= i < n + 1 ensures DelayFollowsHistory(its', i) {
      if i < n {
        assert its'[i] == its[i];
        forall r: nat | CountsFrom(its', r, i)
          ensures CountsFrom(its, r, i) && CountedEnds(its', r, i) == CountedEnds(its, r, i)
        {
          assert forall j | r <= j <= i :: its'[j] == its[j];
          CountedEndsPrefix(its, it, r, i);
        }
        assert DelayFollowsHistory(its, i);
      }
    }
  }

  lemma {:induction false} RunKeepsHistory(events: seq<Event>)
    ensures HistoryInv(Run(INITIAL, events))
  {
    if events != [] {
      var s := Run(INITIAL, events[..|events| - 1]);
      var e := events[|events| - 1];
      RunKeepsHistory(events[..|events| - 1]);
      if e.Settle? && s.mode.Ended? { SettleKeepsHistory(s); }
    }
  }

  // ---- The timeline --------------------------------------------------------

  // The seconds that pass in a run.
  function Passed(events: seq<Event>): real {
    if events == [] then 0.0
    else
      var e := events[|events| - 1];
      Passed(events[..|events| - 1]) + if e.Elapse? && e.seconds >= 0.0 then e.seconds else 0.0
  }

  // When its iterations start, and when they are settled.
  function Starts(events: seq<Event>): seq<real> {
    if events == [] then [0.0]
    else
      var front := events[..|events| - 1];
      Starts(front) +
      if Run(INITIAL, front).mode.Sleeping? && Run(INITIAL, events).mode.Connecting? then [Passed(events)] else []
  }

  function Settlements(events: seq<Event>): seq<real> {
    if events == [] then []
    else
      var front := events[..|events| - 1];
      Settlements(front) +
      if Run(INITIAL, front).mode.Ended? && Run(INITIAL, events).mode.Sleeping? then [Passed(events)] else []
  }

  ghost predicate OnTime(its: seq<Iteration>, starts: seq<real>, settled: seq<real>) {
    && |settled| == |its| <= |starts|
    && (forall i | 0 <= i < |its| :: its[i].elapsed == settled[i] - starts[i])
    && (forall i | 0 <= i < |starts| - 1 :: i < |its| && starts[i + 1] >= settled[i] + its[i].delay)
  }

  // ... and where it stands now.
  ghost predicate ClockRight(s: State, starts: seq<real>, settled: seq<real>, passed: real) {
    var n := |s.iterations|;
    && s.clock == passed && |settled| == n
    && |starts| == n + (if s.mode.Sleeping? then 0 else 1)
    && if s.mode.Sleeping?
       then n > 0 && s.mode.until == settled[n - 1] + s.iterations[n - 1].delay
       else s.started == starts[n]
  }

  lemma {:induction false} SettledOnTime(s: State, starts: seq<real>, settled: seq<real>)
    requires s.mode.Ended? && OnTime(s.iterations, starts, settled) && ClockRight(s, starts, settled, s.clock)
    ensures OnTime(Step(s, Settle).iterations, starts, settled + [s.clock])
    ensures ClockRight(Step(s, Settle), starts, settled + [s.clock], s.clock)
  {
  }

  lemma {:induction false} WokenOnTime(s: State, starts: seq<real>, settled: seq<real>)
    requires s.mode.Sleeping? && s.clock >= s.mode.until
    requires OnTime(s.iterations, starts, settled) && ClockRight(s, starts, settled, s.clock)
    ensures OnTime(s.iterations, starts + [s.clock], settled)
    ensures ClockRight(Step(s, Wake), starts + [s.clock], settled, s.clock)
  {
  }

  lemma {:induction false} OtherwiseOnTime(s: State, e: Event, starts: seq<real>, settled: seq<real>)
    requires !(s.mode.Ended? && e.Settle?) && !(s.mode.Sleeping? && e.Wake? && s.clock >= s.mode.until)
    requires ClockRight(s, starts, settled, s.clock)
    ensures var s' := Step(s, e);
            && s'.iterations == s.iterations && (s'.mode.Sleeping? <==> s.mode.Sleeping?)
            && (s.mode.Ended? ==> s'.mode.Ended?)
            && ClockRight(s', starts, settled, s.clock + if e.Elapse? && e.seconds >= 0.0 then e.seconds else 0.0)
  {
  }

  lemma {:induction false} OneStepOnTime(s: State, e: Event, starts: seq<real>, settled: seq<real>)
    requires Timely(s, starts, settled, s.clock)
    ensures var s' := Step(s, e);
            var starts' := starts + if s.mode.Sleeping? && s'.mode.Connecting? then [s'.clock] else [];
            var settled' := settled + if s.mode.Ended? && s'.mode.Sleeping? then [s'.clock] else [];
            && s'.clock == s.clock + (if e.Elapse? && e.seconds >= 0.0 then e.seconds else 0.0)
            && Timely(s', starts', settled', s'.clock)
  {
    assert starts + [] == starts && settled + [] == settled;
    if s.mode.Ended? && e.Settle? {
      SettledOnTime(s, starts, settled);
    } else if s.mode.Sleeping? && e.Wake? && s.clock >= s.mode.until {
      WokenOnTime(s, starts, settled);
    } else {
      OtherwiseOnTime(s, e, starts, settled);
    }
  }

  ghost predicate Timely(s: State, starts: seq<real>, settled: seq<real>, passed: real) {
    OnTime(s.iterations, starts, settled) && ClockRight(s, starts, settled, passed)
  }

  lemma {:induction false} RunIsTimely(events: seq<Event>)
    ensures Run(INITIAL, events).clock == Passed(events)
    ensures Timely(Run(INITIAL, events), Starts(events), Settlements(events), Run(INITIAL, events).clock)
  {
    if events != [] {
      var front, e := events[..|events| - 1], events[|events| - 1];
      RunIsTimely(front);
      OneStepOnTime(Run(INITIAL, front), e, Starts(front), Settlements(front));
      assert Run(INITIAL, events).clock == Passed(events);
    }
  }

  // Over every run: an iteration's length is the time from its start to its settlement, and
  // the next one starts after no less than the delay.
  lemma IterationsAreTimed(events: seq<Event>)
    ensures var its, starts, settled := Run(INITIAL, events).iterations, Starts(events), Settlements(events);
            && |settled| == |its| <= |starts|
            && (forall i | 0 <= i < |its| :: its[i].elapsed == settled[i] - starts[i])
            && (forall i | 0 <= i < |starts| - 1 :: i < |its| && starts[i + 1] >= settled[i] + its[i].delay)
  {
    RunIsTimely(events);
  }

  // In every run, the delay after a non-superseded end is the k-th entry of the table
  // (its last entry from the fifth on), k counting the non-superseded ends since the last
  // iteration of at least a minute; a supersede costs its own delay and counts for nothing.
  lemma DelayRule(events: seq<Event>, r: nat, i: nat)
    ensures var its := Run(INITIAL, events).iterations;
            CountsFrom(its, r, i) ==>
              its[i].delay ==
                var k := CountedEnds(its, r, i);
                if its[i].end.Superseded? then 300.0
                else if k == 0 then 1.0 else if k == 1 then 2.0 else if k == 2 then 5.0
                else if k == 3 then 10.0 else 30.0
  {
    RunKeepsHistory(events);
    var its := Run(INITIAL, events).iterations;
    if CountsFrom(its, r, i) { assert DelayFollowsHistory(its, i); }
  }

  lemma {:induction false} CountedEndsGrow(its: seq<Iteration>, lo: nat, mid: nat, hi: nat)
    requires lo <= mid <= hi <= |its|
    ensures CountedEnds(its, lo, mid) <= CountedEnds(its, lo, hi)
  {
    if mid < hi { CountedEndsGrow(its, lo, mid, hi - 1); }
  }

  // Between two healthy iterations the back-off delays never fall.
  lemma DelaysNeverFallBetweenResets(events: seq<Event>, i: nat, j: nat)
    ensures var its := Run(INITIAL, events).iterations;
            (&& i <= j < |its|
             && !its[i].end.Superseded? && !its[j].end.Superseded?
             && (forall m | i < m <= j :: its[m].elapsed < HEALTHY_CONNECTION_SECS))
            ==> its[i].delay <= its[j].delay
  {
    var its := Run(INITIAL, events).iterations;
    if && i <= j < |its|
       && !its[i].end.Superseded? && !its[j].end.Superseded?
       && (forall m | i < m <= j :: its[m].elapsed < HEALTHY_CONNECTION_SECS)
    {
      var r := ResetBefore(its, i);
      DelayRule(events, r, i);
      DelayRule(events, r, j);
      CountedEndsGrow(its, r, i, j);
    }
  }

  ghost function ResetBefore(its: seq<Iteration>, i: nat): (r: nat)
    requires i < |its|
    ensures CountsFrom(its, r, i)
  {
    if i == 0 || its[i].elapsed >= HEALTHY_CONNECTION_SECS then i else ResetBefore(its, i - 1)
  }

  // ---- The amortised bound -------------------------------------------------

  // The long-run cost of one back-off: the mean of the first four delays and a healthy
  // minute over four iterations.
  const MEAN_SECS: real := 19.5

  // How far the delays slept since the last reset lag behind that mean.
  function Debt(attempt: nat): real {
    if attempt == 0 then 0.0
    else if attempt > 4 then Debt(4)
    else Debt(attempt - 1) + MEAN_SECS - Delay(attempt - 1)
  }

  function Toll(its: seq<Iteration>): real {
    if its == [] then 0.0
    else Toll(its[..|its| - 1]) + if its[|its| - 1].end.Superseded? then SUPERSEDED_DELAY_SECS else MEAN_SECS
  }

  lemma {:induction false} TollCounts(its: seq<Iteration>)
    ensures var kept := CountedEnds(its, 0, |its|);
            Toll(its) == SUPERSEDED_DELAY_SECS * (|its| - kept) as real + MEAN_SECS * kept as real
  {
    if its != [] {
      var n := |its| - 1;
      TollCounts(its[..n]);
      assert its == its[..n] + [its[n]];
      CountedEndsPrefix(its[..n], its[n], 0, n);
    }
  }

  lemma DebtValues(attempt: nat)
    ensures Debt(0) == 0.0 && Debt(1) == 18.5 && Debt(2) == 36.0 && Debt(3) == 50.5 && Debt(4) == 60.0
    ensures 0.0 <= Debt(attempt) <= 60.0
    ensures attempt >= 4 ==> Debt(attempt) == 60.0
  {
    assert Debt(1) == 18.5;
    assert Debt(2) == 36.0;
    assert Debt(3) == 50.5;
    assert Debt(4) == 60.0;
    assert attempt <= 4 ==> attempt == 0 || attempt == 1 || attempt == 2 || attempt == 3 || attempt == 4;
  }

  // One iteration, however it ends, covers its toll less the debt it adds; the healthy
  // minute is exactly what clears a full debt.
  lemma IterationPays(s: State)
    requires s.mode.Ended?
    ensures var s' := Step(s, Settle);
            var it := s'.iterations[|s.iterations|];
            it.elapsed >= 0.0 ==>
              it.elapsed + it.delay + Debt(s'.attempt)
                >= Debt(s.attempt) + if it.end.Superseded? then SUPERSEDED_DELAY_SECS else MEAN_SECS
  {
    DebtValues(s.attempt);
    DebtValues(s.attempt + 1);
    var owed := s.attempt;
    assert owed < 4 ==> Debt(owed + 1) == Debt(owed) + MEAN_SECS - Delay(owed);
    assert owed >= 4 ==> Delay(owed) == 30.0;
    assert Delay(0) == 1.0;
  }

  // Paid in full: at the start of an iteration (or, while sleeping, at the time the sleep
  // ends) the time since s0 covers the toll of every iteration since s0 less the new debt.
  ghost predicate Paid(s0: State, s: State) {
    && s0.iterations <= s.iterations
    && s.clock >= s.started
    && (if s.mode.Sleeping? then s.mode.until else s.started) - s0.clock
       >= Toll(s.iterations[|s0.iterations|..]) + Debt(s0.attempt) - Debt(s.attempt)
  }

  lemma StepPays(s0: State, s: State, e: Event)
    requires Paid(s0, s)
    ensures Paid(s0, Step(s, e))
  {
    var s' := Step(s, e);
    if e.Settle? && s.mode.Ended? {
      IterationPays(s);
      var n := |s0.iterations|;
      var since, since' := s.iterations[n..], s'.iterations[n..];
      assert since' == since + [s'.iterations[|s.iterations|]];
      assert since'[..|since'| - 1] == since;
    }
  }

  lemma {:induction false} RunPays(s0: State, events: seq<Event>)
    requires !s0.mode.Sleeping? && s0.started == s0.clock
    ensures Paid(s0, Run(s0, events))
  {
    if events == [] {
      assert s0.iterations[|s0.iterations|..] == [];
    } else {
      RunPays(s0, events[..|events| - 1]);
      StepPays(s0, Run(s0, events[..|events| - 1]), events[|events| - 1]);
    }
  }

  // From the start of any iteration, with any attempt counter: once n more iterations are
  // over (their sleeps included), s of them superseded, at least 300 s + 19.5 (n - s) - 60
  // seconds have passed.
  lemma ReconnectRateIsBounded(s0: State, events: seq<Event>)
    requires !s0.mode.Sleeping? && s0.started == s0.clock
    ensures var s := Run(s0, events);
            && s0.iterations <= s.iterations
            && var since := s.iterations[|s0.iterations|..];
               var kept := CountedEnds(since, 0, |since|);
               !s.mode.Sleeping? ==>
                 s.clock - s0.clock >= 300.0 * (|since| - kept) as real + 19.5 * kept as real - 60.0
  {
    RunPays(s0, events);
    var s := Run(s0, events);
    TollCounts(s.iterations[|s0.iterations|..]);
    DebtValues(s0.attempt);
    DebtValues(s.attempt);
  }

  // ---- The bound is tight --------------------------------------------------

  // An iteration that lives `life` seconds, ends by a refused dial and sleeps its delay.
  function Refused(life: real, delay: real): seq<Event> {
    [Elapse(life), Dial(false), Settle, Elapse(delay), Wake]
  }

  function Evicted(): seq<Event> {
    [Dial(true), Read(Received(Close(Some(CLOSE_SUPERSEDED)))), Settle, Elapse(SUPERSEDED_DELAY_SECS), Wake]
  }

  // Four refusals climbing 1, 2, 5, 10, the first after `life` seconds of waiting.
  function Climb(life: real): seq<Event> {
    Refused(life, 1.0) + Refused(0.0, 2.0) + Refused(0.0, 5.0) + Refused(0.0, 10.0)
  }

  // `climbs` further climbs, each opened by a healthy minute, then `evictions` supersedes.
  function Fastest(climbs: nat, evictions: nat): seq<Event> {
    if evictions > 0 then Fastest(climbs, evictions - 1) + Evicted()
    else if climbs > 0 then Fastest(climbs - 1, 0) + Climb(HEALTHY_CONNECTION_SECS)
    else Climb(0.0)
  }

  ghost predicate Fresh(s: State) {
    s.mode.Connecting? && s.started == s.clock && s.pending.None?
  }

  // What a run of iterations changes, as far as time is concerned.
  ghost predicate Advanced(s: State, s': State, seconds: real, kept: nat, evicted: nat) {
    && Fresh(s')
    && s'.clock == s.clock + seconds
    && s.iterations <= s'.iterations
    && |s'.iterations| == |s.iterations| + kept + evicted
    && CountedEnds(s'.iterations, 0, |s'.iterations|) == CountedEnds(s.iterations, 0, |s.iterations|) + kept
  }

  lemma {:induction false} FiveSteps(s: State, a: Event, b: Event, c: Event, d: Event, e: Event)
    ensures Run(s, [a, b, c, d, e]) == Step(Step(Step(Step(Step(s, a), b), c), d), e)
  {
    RunOne(s, a);
    RunConcat(s, [a], [b]);
    RunOne(Run(s, [a]), b);
    RunConcat(s, [a] + [b], [c]);
    RunOne(Run(s, [a] + [b]), c);
    RunConcat(s, [a] + [b] + [c], [d]);
    RunOne(Run(s, [a] + [b] + [c]), d);
    RunConcat(s, [a] + [b] + [c] + [d], [e]);
    RunOne(Run(s, [a] + [b] + [c] + [d]), e);
    assert [a, b, c, d, e] == [a] + [b] + [c] + [d] + [e];
  }

  lemma RefusedRuns(s: State, life: real)
    requires Fresh(s) && life >= 0.0
    ensures var attempt := if life >= HEALTHY_CONNECTION_SECS then 0 else s.attempt;
            var s' := Run(s, Refused(life, Delay(attempt)));
            Advanced(s, s', life + Delay(attempt), 1, 0) && s'.attempt == attempt + 1
  {
    var attempt := if life >= HEALTHY_CONNECTION_SECS then 0 else s.attempt;
    FiveSteps(s, Elapse(life), Dial(false), Settle, Elapse(Delay(attempt)), Wake);
    var s' := Run(s, Refused(life, Delay(attempt)));
    var it := s'.iterations[|s.iterations|];
    assert s'.iterations == s.iterations + [it];
    CountedEndsPrefix(s.iterations, it, 0, |s.iterations|);
  }

  lemma EvictedRuns(s: State)
    requires Fresh(s)
    ensures var s' := Run(s, Evicted());
            Advanced(s, s', SUPERSEDED_DELAY_SECS, 0, 1) && s'.attempt == s.attempt
  {
    var close := Read(Received(Close(Some(CLOSE_SUPERSEDED))));
    FiveSteps(s, Dial(true), close, Settle, Elapse(SUPERSEDED_DELAY_SECS), Wake);
    var s' := Run(s, Evicted());
    var it := s'.iterations[|s.iterations|];
    assert s'.iterations == s.iterations + [it];
    CountedEndsPrefix(s.iterations, it, 0, |s.iterations|);
  }

  lemma OneMoreRefusal(s: State, before: seq<Event>, t: real, kept: nat, life: real, delay: real)
    requires Advanced(s, Run(s, before), t, kept, 0) && life >= 0.0
    requires delay == Delay(if life >= HEALTHY_CONNECTION_SECS then 0 else Run(s, before).attempt)
    ensures var s' := Run(s, before + Refused(life, delay));
            && Advanced(s, s', t + life + delay, kept + 1, 0)
            && s'.attempt == (if life >= HEALTHY_CONNECTION_SECS then 0 else Run(s, before).attempt) + 1
  {
    RefusedRuns(Run(s, before), life);
    RunConcat(s, before, Refused(life, delay));
  }

  lemma ClimbRuns(s: State, life: real)
    requires Fresh(s) && life >= 0.0
    requires s.attempt == 0 || life >= HEALTHY_CONNECTION_SECS
    ensures var s' := Run(s, Climb(life)); Advanced(s, s', life + 18.0, 4, 0)
  {
    var a, b, c, d := Refused(life, 1.0), Refused(0.0, 2.0), Refused(0.0, 5.0), Refused(0.0, 10.0);
    assert Delay(0) == 1.0 && Delay(1) == 2.0 && Delay(2) == 5.0 && Delay(3) == 10.0;
    OneMoreRefusal(s, [], 0.0, 0, life, 1.0);
    assert [] + a == a;
    OneMoreRefusal(s, a, life + 1.0, 1, 0.0, 2.0);
    OneMoreRefusal(s, a + b, life + 3.0, 2, 0.0, 5.0);
    OneMoreRefusal(s, a + b + c, life + 8.0, 3, 0.0, 10.0);
  }

  // None of the three constants can be improved: for all numbers of climbs and supersedes
  // there is a run from start-up that takes exactly 300 s + 19.5 (n - s) - 60 seconds.
  lemma {:induction false} BoundIsAttained(climbs: nat, evictions: nat)
    ensures var s := Run(INITIAL, Fastest(climbs, evictions));
            var kept := 4 * climbs + 4;
            && Fresh(s)
            && |s.iterations| == kept + evictions
            && CountedEnds(s.iterations, 0, |s.iterations|) == kept
            && s.clock == 300.0 * evictions as real + 19.5 * kept as real - 60.0
    decreases climbs, evictions
  {
    if evictions > 0 {
      BoundIsAttained(climbs, evictions - 1);
      EvictedRuns(Run(INITIAL, Fastest(climbs, evictions - 1)));
      RunConcat(INITIAL, Fastest(climbs, evictions - 1), Evicted());
    } else if climbs > 0 {
      BoundIsAttained(climbs - 1, 0);
      ClimbRuns(Run(INITIAL, Fastest(climbs - 1, 0)), HEALTHY_CONNECTION_SECS);
      RunConcat(INITIAL, Fastest(climbs - 1, 0), Climb(HEALTHY_CONNECTION_SECS));
    } else {
      ClimbRuns(INITIAL, 0.0);
    }
  }
}
