/** `src/reliability/gateway.ts`: calls to one server, any number at a time, over its circuit breaker.

    A call is a machine whose steps are its start, the end of each attempt and the end of each sleep.
    The breaker keeps the profile of the first call to the server; each call has its own retries. The
    counters are compared with two independent counts: over the calls so far, and over the events
    that the breaker was told. */
module Gateway {
  import Breaker
  import opened Retry

  datatype Phase = Refused | Unattempted | Attempting | Sleeping | Finished(ok: bool, timedOut: bool)

  /** `outs` are the attempts that ended. */
  datatype Call = Call(retries: int, outs: seq<Attempt>, phase: Phase)

  /** `attempts` counts the runs of the backend function, `trace` are the breaker's events. */
  datatype Gate = Gate(
    totalCalls: nat, successes: nat, failures: nat, timeouts: nat, retried: nat,
    breaker: Breaker.Snapshot, calls: seq<Call>, attempts: nat, trace: seq<Breaker.Timed>, clock: int)

  const FRESH := Gate(0, 0, 0, 0, 0, Breaker.INITIAL, [], 0, [], 0)

  datatype Event =
    | Begin(retries: int, now: int)
    | AttemptEnds(id: nat, out: Attempt, now: int)
    | SleepEnds(id: nat, now: int)
    | GiveUp(id: nat, now: int)
    | Control(e: Breaker.Event, now: int)

  predicate InPhase(s: Gate, id: nat, p: Phase) { id < |s.calls| && s.calls[id].phase == p }

  predicate Allowed(s: Gate, e: Event) {
    && s.clock <= e.now
    && match e
       case Begin(_, _) => true
       case AttemptEnds(id, _, _) => InPhase(s, id, Attempting)
       case SleepEnds(id, _) => InPhase(s, id, Sleeping)
       case GiveUp(id, _) => InPhase(s, id, Unattempted)
       case Control(b, _) => b == Breaker.Reset || b == Breaker.GetState || b == Breaker.GetStats
  }

  function Note(c: Breaker.Config, s: Gate, e: Breaker.Event, now: int): Gate {
    var t := Breaker.Timed(e, now);
    s.(breaker := Breaker.Step(c, s.breaker, t), trace := s.trace + [t], clock := now)
  }

  /** What becomes of a call when one more attempt ends with `out`. */
  function PhaseAfter(retries: int, tried: nat, out: Attempt): Phase {
    match out
    case Done(_) => Finished(true, false)
    case Failed(e) =>
      if !IsRetryable(e) then Finished(false, false)
      else if tried == retries + 1 then Finished(false, e == TimedOut)
      else Sleeping
  }

  /** `phase` replaces the phase of call `id`, and a finished call is counted and told to the breaker. */
  function Settle(c: Breaker.Config, s: Gate, id: nat, call: Call, now: int): Gate
    requires id < |s.calls|
  {
    var s1 := s.(calls := s.calls[id := call], clock := now);
    match call.phase
    case Finished(ok, timedOut) =>
      if ok then Note(c, s1.(successes := s.successes + 1), Breaker.Success, now)
      else
        var s2 := s1.(failures := s.failures + 1, timeouts := s.timeouts + if timedOut then 1 else 0);
        Note(c, s2, Breaker.Failure, now)
    case _ => s1
  }

  function Next(c: Breaker.Config, s: Gate, e: Event): Gate
    requires Allowed(s, e)
  {
    match e
    case Begin(retries, now) =>
      var admitted := Breaker.Admits(c, s.breaker, now);
      var phase := if !admitted then Refused else if retries < 0 then Unattempted else Attempting;
      Note(c, s.(totalCalls := s.totalCalls + 1, calls := s.calls + [Call(retries, [], phase)],
                 attempts := s.attempts + if phase == Attempting then 1 else 0), Breaker.Allow, now)
    case AttemptEnds(id, out, now) =>
      var call := s.calls[id];
      var outs := call.outs + [out];
      Settle(c, s, id, Call(call.retries, outs, PhaseAfter(call.retries, |outs|, out)), now)
    case SleepEnds(id, now) =>
      s.(calls := s.calls[id := s.calls[id].(phase := Attempting)], retried := s.retried + 1,
         attempts := s.attempts + 1, clock := now)
    case GiveUp(id, now) => Settle(c, s, id, s.calls[id].(phase := Finished(false, false)), now)
    case Control(b, now) => Note(c, s, b, now)
  }

  // ----- Counting -------------------------------------------------------------------------------------

  /** What is counted of a call. `NeverTried` are calls admitted with a negative number of retries, for
      which the backend is never asked. */
  datatype Measure = Succeeded | Failing | TimingOut | Rejected | Live | Tries | Again | NeverTried

  function One(b: bool): nat { if b then 1 else 0 }

  function AttemptsOf(c: Call): nat { |c.outs| + One(c.phase == Attempting) }

  function Weight(c: Call, m: Measure): nat {
    match m
    case Succeeded => One(c.phase.Finished? && c.phase.ok)
    case Failing => One(c.phase.Finished? && !c.phase.ok)
    case TimingOut => One(c.phase.Finished? && c.phase.timedOut)
    case Rejected => One(c.phase == Refused)
    case Live => One(c.phase == Attempting || c.phase == Sleeping || c.phase == Unattempted)
    case Tries => AttemptsOf(c)
    case Again => if AttemptsOf(c) == 0 then 0 else AttemptsOf(c) - 1
    case NeverTried => One(c.phase != Refused && c.retries < 0)
  }

  function Total(calls: seq<Call>, m: Measure): nat {
    if calls == [] then 0 else Total(calls[..|calls| - 1], m) + Weight(calls[|calls| - 1], m)
  }

  lemma {:induction false} TotalUpdates(calls: seq<Call>, id: nat, x: Call, m: Measure)
    requires id < |calls|
    ensures Total(calls[id := x], m) == Total(calls, m) - Weight(calls[id], m) + Weight(x, m)
  {
    var n := |calls| - 1;
    if id == n {
      assert calls[id := x][..n] == calls[..n];
    } else {
      assert calls[id := x][..n] == calls[..n][id := x];
      TotalUpdates(calls[..n], id, x, m);
    }
  }

  function Events(trace: seq<Breaker.Timed>, e: Breaker.Event): nat {
    if trace == [] then 0 else Events(trace[..|trace| - 1], e) + One(trace[|trace| - 1].event == e)
  }

  /** The phase of a call is what its retries and its attempts so far make it, and the sequential retry
      loop with the same attempts stops where the call does. */
  ghost predicate CallFine(c: Call) {
    && (c.phase.Refused? || c.phase.Unattempted? ==> c.outs == [])
    && (forall i | 0 <= i < |c.outs| - 1 :: !Final(c.outs[i]))
    && (match c.phase
        case Refused => true
        case Unattempted => c.retries < 0
        case Attempting => |c.outs| <= c.retries && (c.outs == [] || !Final(c.outs[|c.outs| - 1]))
        case Sleeping => 1 <= |c.outs| <= c.retries && !Final(c.outs[|c.outs| - 1])
        case Finished(ok, timedOut) =>
          if c.outs == [] then c.retries < 0 && !ok && !timedOut
          else |c.outs| <= c.retries + 1 && c.phase == PhaseAfter(c.retries, |c.outs|, c.outs[|c.outs| - 1]))
  }

  /** The counters, counted from the calls. */
  ghost predicate CallsCounted(s: Gate) {
    && s.totalCalls == |s.calls|
    && s.successes == Total(s.calls, Succeeded)
    && s.failures == Total(s.calls, Failing)
    && s.timeouts == Total(s.calls, TimingOut)
    && s.attempts == Total(s.calls, Tries)
    && s.retried == Total(s.calls, Again)
  }

  /** And from what the breaker was told. */
  ghost predicate EventsCounted(s: Gate) {
    && s.successes == Events(s.trace, Breaker.Success)
    && s.failures == Events(s.trace, Breaker.Failure)
    && s.totalCalls == Events(s.trace, Breaker.Allow)
  }

  ghost predicate Inv(s: Gate) {
    CallsCounted(s) && EventsCounted(s) && forall i | 0 <= i < |s.calls| :: CallFine(s.calls[i])
  }

  lemma AllUpdate(calls: seq<Call>, id: nat, x: Call)
    requires id < |calls|
    ensures forall m :: Total(calls[id := x], m) == Total(calls, m) - Weight(calls[id], m) + Weight(x, m)
  {
    forall m ensures Total(calls[id := x], m) == Total(calls, m) - Weight(calls[id], m) + Weight(x, m) {
      TotalUpdates(calls, id, x, m);
    }
  }

  lemma SettleCounts(c: Breaker.Config, s: Gate, id: nat, call: Call, now: int)
    requires CallsCounted(s) && id < |s.calls| && Weight(s.calls[id], Live) == 1 && call.phase != Attempting
    requires AttemptsOf(call) == AttemptsOf(s.calls[id])
    requires call.phase.Finished? ==> call.phase.ok ==> !call.phase.timedOut
    ensures CallsCounted(Settle(c, s, id, call, now))
  {
    TotalUpdates(s.calls, id, call, Succeeded);
    TotalUpdates(s.calls, id, call, Failing);
    TotalUpdates(s.calls, id, call, TimingOut);
    TotalUpdates(s.calls, id, call, Tries);
    TotalUpdates(s.calls, id, call, Again);
  }

  lemma SettleKeeps(c: Breaker.Config, s: Gate, id: nat, call: Call, now: int)
    requires Inv(s) && id < |s.calls| && Weight(s.calls[id], Live) == 1 && CallFine(call) && call.phase != Attempting
    requires AttemptsOf(call) == AttemptsOf(s.calls[id])
    ensures Inv(Settle(c, s, id, call, now))
  {
    SettleCounts(c, s, id, call, now);
  }

  lemma AttemptEndsKeeps(c: Breaker.Config, s: Gate, id: nat, out: Attempt, now: int)
    requires Inv(s) && Allowed(s, AttemptEnds(id, out, now))
    ensures Inv(Next(c, s, AttemptEnds(id, out, now)))
  {
    var call := s.calls[id];
    var outs := call.outs + [out];
    assert CallFine(call);
    assert forall i | 0 <= i < |call.outs| :: outs[i] == call.outs[i];
    SettleKeeps(c, s, id, Call(call.retries, outs, PhaseAfter(call.retries, |outs|, out)), now);
  }

  lemma SleepEndsKeeps(c: Breaker.Config, s: Gate, id: nat, now: int)
    requires Inv(s) && Allowed(s, SleepEnds(id, now))
    ensures Inv(Next(c, s, SleepEnds(id, now)))
  {
    assert CallFine(s.calls[id]);
    AllUpdate(s.calls, id, s.calls[id].(phase := Attempting));
  }

  lemma BeginKeeps(c: Breaker.Config, s: Gate, retries: int, now: int)
    requires Inv(s) && Allowed(s, Begin(retries, now))
    ensures Inv(Next(c, s, Begin(retries, now)))
  {
    var calls := Next(c, s, Begin(retries, now)).calls;
    assert calls[..|s.calls|] == s.calls;
    forall i | 0 <= i < |calls| ensures CallFine(calls[i]) {
      if i < |s.calls| { assert CallFine(s.calls[i]); }
    }
  }

  /** Every step keeps the counters equal to what they count. */
  lemma NextKeeps(c: Breaker.Config, s: Gate, e: Event)
    requires Inv(s) && Allowed(s, e)
    ensures Inv(Next(c, s, e))
  {
    match e
    case Begin(retries, now) => BeginKeeps(c, s, retries, now);
    case AttemptEnds(id, out, now) => AttemptEndsKeeps(c, s, id, out, now);
    case SleepEnds(id, now) => SleepEndsKeeps(c, s, id, now);
    case GiveUp(id, now) =>
      assert CallFine(s.calls[id]);
      SettleKeeps(c, s, id, s.calls[id].(phase := Finished(false, false)), now);
    case Control(b, now) =>
  }

  // ----- Runs ---------------------------------------------------------------------------------------------

  ghost predicate IsRun(c: Breaker.Config, run: seq<Event>, states: seq<Gate>) {
    && |states| == |run| + 1 && states[0] == FRESH
    && forall i | 0 <= i < |run| :: Allowed(states[i], run[i]) && states[i + 1] == Next(c, states[i], run[i])
  }

  lemma {:induction false} RunKeeps(c: Breaker.Config, run: seq<Event>, states: seq<Gate>, i: nat)
    requires IsRun(c, run, states) && i <= |run|
    ensures Inv(states[i])
  {
    if i == 0 {
    } else {
      RunKeeps(c, run, states, i - 1);
      NextKeeps(c, states[i - 1], run[i - 1]);
    }
  }

  lemma {:induction false} TotalsAdd(calls: seq<Call>)
    requires forall i | 0 <= i < |calls| :: CallFine(calls[i])
    ensures |calls| == Total(calls, Succeeded) + Total(calls, Failing) + Total(calls, Rejected) + Total(calls, Live)
    ensures Total(calls, TimingOut) <= Total(calls, Failing)
    ensures |calls| + Total(calls, Again) == Total(calls, Tries) + Total(calls, Rejected) + Total(calls, NeverTried)
  {
    if calls == [] {
    } else {
      var last := calls[|calls| - 1];
      assert CallFine(last);
      CallAdds(last);
      TotalsAdd(calls[..|calls| - 1]);
    }
  }

  lemma CallAdds(c: Call)
    requires CallFine(c)
    ensures Weight(c, Succeeded) + Weight(c, Failing) + Weight(c, Rejected) + Weight(c, Live) == 1
    ensures Weight(c, TimingOut) <= Weight(c, Failing)
    ensures 1 + Weight(c, Again) == Weight(c, Tries) + Weight(c, Rejected) + Weight(c, NeverTried)
  {
  }

  /** The calls that finished well, or not. */
  function Ended(calls: seq<Call>, ok: bool): set<nat> {
    set i: nat | i < |calls| && calls[i].phase.Finished? && calls[i].phase.ok == ok
  }

  function TimedOutCalls(calls: seq<Call>): set<nat> {
    set i: nat | i < |calls| && calls[i].phase.Finished? && calls[i].phase.timedOut
  }

  function Weighing(calls: seq<Call>, m: Measure): set<nat> { set i: nat | i < |calls| && Weight(calls[i], m) == 1 }

  lemma {:induction false} WeightCounted(calls: seq<Call>, m: Measure)
    requires m == Succeeded || m == Failing || m == TimingOut
    ensures Total(calls, m) == |Weighing(calls, m)|
  {
    if calls == [] {
    } else {
      var n := |calls| - 1;
      WeightCounted(calls[..n], m);
      WeighingNext(calls, n, m);
    }
  }

  lemma WeighingNext(calls: seq<Call>, n: nat, m: Measure)
    requires |calls| == n + 1
    ensures Weighing(calls, m) == Weighing(calls[..n], m) + if Weight(calls[n], m) == 1 then {n} else {}
  {
  }

  lemma EndedCounted(calls: seq<Call>)
    ensures Total(calls, Succeeded) == |Ended(calls, true)| && Total(calls, Failing) == |Ended(calls, false)|
    ensures Total(calls, TimingOut) == |TimedOutCalls(calls)|
  {
    WeightCounted(calls, Succeeded);
    WeightCounted(calls, Failing);
    WeightCounted(calls, TimingOut);
    assert Weighing(calls, Succeeded) == Ended(calls, true);
    assert Weighing(calls, Failing) == Ended(calls, false);
    assert Weighing(calls, TimingOut) == TimedOutCalls(calls);
  }

  /** A call is refused exactly if the breaker does not admit it when it begins. */
  lemma {:induction false} RefusedExactly(c: Breaker.Config, run: seq<Event>, states: seq<Gate>, j: nat, i: nat)
    requires IsRun(c, run, states) && j < i <= |run| && run[j].Begin?
    ensures var id := |states[j].calls|;
            && id < |states[i].calls| && states[i].calls[id].retries == run[j].retries
            && (states[i].calls[id].phase == Refused <==> !Breaker.Admits(c, states[j].breaker, run[j].now))
  {
    if i == j + 1 {
    } else {
      RefusedExactly(c, run, states, j, i - 1);
    }
  }

  /** In every state of every run: each call is counted once, as a success, a failure, a rejection or one
      in flight; the backend was asked once per admitted call and once per retry, except for calls with a
      negative number of retries; and every finished call gave the breaker one outcome. */
  lemma CountersConserved(c: Breaker.Config, run: seq<Event>, states: seq<Gate>, i: nat)
    requires IsRun(c, run, states) && i <= |run|
    ensures var s := states[i];
            var rejected, live, never := Total(s.calls, Rejected), Total(s.calls, Live), Total(s.calls, NeverTried);
            && s.totalCalls == |s.calls| == s.successes + s.failures + rejected + live
            && s.attempts + never + rejected == s.totalCalls + s.retried
            && (live == 0 ==> s.attempts + never == s.successes + s.failures + s.retried)
            && s.timeouts <= s.failures
            && s.successes == |Ended(s.calls, true)| && s.failures == |Ended(s.calls, false)|
            && s.timeouts == |TimedOutCalls(s.calls)|
            && Events(s.trace, Breaker.Success) == s.successes && Events(s.trace, Breaker.Failure) == s.failures
            && Events(s.trace, Breaker.Allow) == s.totalCalls
  {
    RunKeeps(c, run, states, i);
    TotalsAdd(states[i].calls);
    EndedCounted(states[i].calls);
  }

  /** What `Follows` says with `fn` the attempts of the call. */
  function Script(c: Call): nat -> Attempt {
    i => if 1 <= i <= |c.outs| then c.outs[i - 1] else Failed(Other)
  }

  function ResultOf(c: Call): Result {
    if c.outs == [] then Exhausted(c.retries + 1, NoError)
    else
      match c.outs[|c.outs| - 1]
      case Done(v) => Returned(v)
      case Failed(e) => if e == TimedOut || e == Transient then Exhausted(|c.outs|, LastError(e)) else Thrown(e)
  }

  /** Between other calls a call makes the attempts the sequential retry loop makes: when it finishes, the
      loop run on its attempts stops after the same number with the same result. */
  lemma CallsFollowRetry(c: Breaker.Config, run: seq<Event>, states: seq<Gate>, i: nat, id: nat)
    requires IsRun(c, run, states) && i <= |run| && id < |states[i].calls| && states[i].calls[id].phase.Finished?
    ensures var call := states[i].calls[id];
            && Follows(Script(call), call.retries, |call.outs|, ResultOf(call))
            && (call.phase.ok <==> ResultOf(call).Returned?)
            && (call.phase.timedOut <==> ResultOf(call) == Exhausted(|call.outs|, LastError(TimedOut)))
  {
    RunKeeps(c, run, states, i);
    var call := states[i].calls[id];
    assert CallFine(call);
    forall k | 1 <= k < |call.outs| ensures !Final(Script(call)(k)) { assert !Final(call.outs[k - 1]); }
  }

  // ----- The breaker of a gateway -----------------------------------------------------------------------------

  /** The states of a breaker that sees `trace`. */
  function BreakerStates(c: Breaker.Config, trace: seq<Breaker.Timed>): (states: seq<Breaker.Snapshot>)
    ensures |states| == |trace| + 1
  {
    if trace == [] then [Breaker.INITIAL]
    else
      var before := BreakerStates(c, trace[..|trace| - 1]);
      before + [Breaker.Step(c, before[|trace| - 1], trace[|trace| - 1])]
  }

  ghost predicate BreakerFits(c: Breaker.Config, s: Gate) {
    var states := BreakerStates(c, s.trace);
    && Breaker.IsRun(c, s.trace, states) && s.breaker == states[|s.trace|]
    && forall i | 0 <= i < |s.trace| :: s.trace[i].now <= s.clock
  }

  lemma NoteFits(c: Breaker.Config, s: Gate, e: Breaker.Event, now: int)
    requires BreakerFits(c, s) && s.clock <= now
    ensures BreakerFits(c, Note(c, s, e, now))
  {
    var t, s' := Breaker.Timed(e, now), Note(c, s, e, now);
    assert s'.trace[..|s.trace|] == s.trace;
    Breaker.RunExtends(c, s.trace, BreakerStates(c, s.trace), t);
    assert BreakerStates(c, s'.trace) == BreakerStates(c, s.trace) + [Breaker.Step(c, s.breaker, t)];
  }

  lemma SettleFits(c: Breaker.Config, s: Gate, id: nat, call: Call, now: int)
    requires BreakerFits(c, s) && s.clock <= now && id < |s.calls|
    ensures BreakerFits(c, Settle(c, s, id, call, now))
  {
    var s1 := s.(calls := s.calls[id := call], clock := now);
    match call.phase
    case Finished(ok, timedOut) =>
      if ok {
        NoteFits(c, s1.(successes := s.successes + 1), Breaker.Success, now);
      } else {
        var s2 := s1.(failures := s.failures + 1, timeouts := s.timeouts + if timedOut then 1 else 0);
        NoteFits(c, s2, Breaker.Failure, now);
      }
    case _ =>
  }

  lemma NextFits(c: Breaker.Config, s: Gate, e: Event)
    requires BreakerFits(c, s) && Allowed(s, e)
    ensures BreakerFits(c, Next(c, s, e))
  {
    match e
    case Begin(retries, now) => NoteFits(c, s, Breaker.Allow, now);
    case AttemptEnds(id, out, now) =>
      var call := s.calls[id];
      var outs := call.outs + [out];
      SettleFits(c, s, id, Call(call.retries, outs, PhaseAfter(call.retries, |outs|, out)), now);
    case SleepEnds(id, now) =>
    case GiveUp(id, now) => SettleFits(c, s, id, s.calls[id].(phase := Finished(false, false)), now);
    case Control(b, now) => NoteFits(c, s, b, now);
  }

  /** In every run of the gateway its breaker goes through a run of its own, so everything proved of
      breaker runs holds of it. */
  lemma {:induction false} BreakerRuns(c: Breaker.Config, run: seq<Event>, states: seq<Gate>, i: nat)
    requires IsRun(c, run, states) && i <= |run|
    ensures BreakerFits(c, states[i])
  {
    if i == 0 {
    } else {
      BreakerRuns(c, run, states, i - 1);
      NextFits(c, states[i - 1], run[i - 1]);
    }
  }

  // ----- The program --------------------------------------------------------------------------------------------

  /** The accumulator and the breaker of one server. */
  class ReliabilityGateway {
    const breaker: Breaker.CircuitBreaker
    var totalCalls: nat
    var successes: nat
    var failures: nat
    var timeouts: nat
    var retries: nat
    var calls: seq<Call>
    ghost var attempts: nat
    ghost var trace: seq<Breaker.Timed>
    ghost var clock: int

    ghost function State(): Gate reads this, breaker {
      Gate(totalCalls, successes, failures, timeouts, retries, breaker.Fields(), calls, attempts, trace, clock)
    }

    constructor (config: Breaker.Config)
      ensures State() == FRESH && fresh(breaker) && breaker.config == config
      ensures calls == [] && totalCalls == successes == failures == timeouts == retries == 0
    {
      breaker := new Breaker.CircuitBreaker(config);
      totalCalls, successes, failures, timeouts, retries, calls := 0, 0, 0, 0, 0, [];
      attempts, trace, clock := 0, [], 0;
    }

    /** `call` up to its first await; false where it throws `CircuitOpenError`. */
    method Start(callRetries: int, now: int) returns (admitted: bool)
      requires Allowed(State(), Begin(callRetries, now))
      modifies this, breaker
      ensures State() == Next(breaker.config, old(State()), Begin(callRetries, now))
      ensures admitted == Breaker.Admits(breaker.config, old(breaker.Fields()), now)
      ensures totalCalls == old(totalCalls) + 1 && successes == old(successes) && failures == old(failures)
      ensures calls == old(calls) + [Call(callRetries, [],
                if !admitted then Refused else if callRetries < 0 then Unattempted else Attempting)]
    {
      totalCalls := totalCalls + 1;
      admitted := breaker.AllowCall(now);
      trace, clock := trace + [Breaker.Timed(Breaker.Allow, now)], now;
      if !admitted {
        calls := calls + [Call(callRetries, [], Refused)];
      } else if callRetries < 0 {
        calls := calls + [Call(callRetries, [], Unattempted)];
      } else {
        calls := calls + [Call(callRetries, [], Attempting)];
        attempts := attempts + 1;
      }
    }

    /** An attempt of call `id` ends with `out`. */
    method EndAttempt(id: nat, out: Attempt, now: int)
      requires Allowed(State(), AttemptEnds(id, out, now))
      modifies this, breaker
      ensures State() == Next(breaker.config, old(State()), AttemptEnds(id, out, now))
      ensures var (was, tried) := (old(calls)[id], |old(calls)[id].outs| + 1);
              var again := out.Failed? && (out.error == TimedOut || out.error == Transient) && tried != was.retries + 1;
              var late := out == Failed(TimedOut) && tried == was.retries + 1;
              && calls == old(calls)[id := Call(was.retries, was.outs + [out],
                            if again then Sleeping else Finished(out.Done?, late))]
              && successes == old(successes) + (if out.Done? then 1 else 0)
              && failures == old(failures) + (if out.Failed? && !again then 1 else 0)
              && timeouts == old(timeouts) + (if late then 1 else 0)
    {
      var call := calls[id];
      var tried := |call.outs| + 1;
      if out.Done? {
        calls := calls[id := Call(call.retries, call.outs + [out], Finished(true, false))];
        Succeed(now);
      } else if !IsRetryable(out.error) {
        calls := calls[id := Call(call.retries, call.outs + [out], Finished(false, false))];
        Fail(false, now);
      } else if tried == call.retries + 1 {
        calls := calls[id := Call(call.retries, call.outs + [out], Finished(false, out.error == TimedOut))];
        Fail(out.error == TimedOut, now);
      } else {
        calls := calls[id := Call(call.retries, call.outs + [out], Sleeping)];
        clock := now;
      }
    }

    /** The sleep of call `id` is over: the next attempt begins. */
    method EndSleep(id: nat, now: int)
      requires Allowed(State(), SleepEnds(id, now))
      modifies this
      ensures State() == Next(breaker.config, old(State()), SleepEnds(id, now))
      ensures calls == old(calls)[id := old(calls)[id].(phase := Attempting)] && retries == old(retries) + 1
    {
      calls := calls[id := calls[id].(phase := Attempting)];
      retries := retries + 1;
      attempts, clock := attempts + 1, now;
    }

    /** A call whose retries leave no attempt at all. */
    method EndUnattempted(id: nat, now: int)
      requires Allowed(State(), GiveUp(id, now))
      modifies this, breaker
      ensures State() == Next(breaker.config, old(State()), GiveUp(id, now))
      ensures calls == old(calls)[id := old(calls)[id].(phase := Finished(false, false))]
      ensures failures == old(failures) + 1 && timeouts == old(timeouts)
    {
      calls := calls[id := calls[id].(phase := Finished(false, false))];
      Fail(false, now);
    }

    method Succeed(now: int)
      modifies this`successes, this`trace, this`clock, breaker
      ensures State() == Note(breaker.config, old(State()).(successes := old(successes) + 1), Breaker.Success, now)
    {
      breaker.RecordSuccess(now);
      successes := successes + 1;
      trace, clock := trace + [Breaker.Timed(Breaker.Success, now)], now;
    }

    method Fail(timedOut: bool, now: int)
      modifies this`failures, this`timeouts, this`trace, this`clock, breaker
      ensures State() == Note(breaker.config,
                old(State()).(failures := old(failures) + 1, timeouts := old(timeouts) + if timedOut then 1 else 0),
                Breaker.Failure, now)
    {
      breaker.RecordFailure(now);
      failures := failures + 1;
      if timedOut { timeouts := timeouts + 1; }
      trace, clock := trace + [Breaker.Timed(Breaker.Failure, now)], now;
    }
  }
}
