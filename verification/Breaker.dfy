/** The circuit breaker of `src/reliability/breaker.ts`. Time is in milliseconds and never goes back.

    A step is one call of a method. The window of outcomes is pruned as the program does it, record
    by record from the old end; `History` is everything remembered since the window was last
    emptied, and `WindowRefinesHistory` says that pruning loses nothing that counts. An episode is
    one stay in the half-open state. */
module Breaker {
  import opened Sublists

  datatype State = Closed | Open | HalfOpen
  datatype Record = Record(ts: int, success: bool)
  datatype LastTrip = Never | At(ts: int)

  datatype Config = Config(threshold: real, windowMs: int, minCalls: int, halfOpenIntervalMs: int)

  /** The four fields of the breaker. */
  datatype Snapshot = Snapshot(state: State, window: seq<Record>, lastTrip: LastTrip, probeInFlight: bool)

  datatype Event = Allow | Success | Failure | Reset | GetState | GetStats
  datatype Timed = Timed(event: Event, now: int)

  const INITIAL := Snapshot(Closed, [], Never, false)

  /** The records among the first `n` that are not older than `cutoff`. */
  function PruneTo(window: seq<Record>, cutoff: int, n: nat): seq<Record>
    requires n <= |window|
  {
    if n == 0 then []
    else PruneTo(window, cutoff, n - 1) + (if window[n - 1].ts >= cutoff then [window[n - 1]] else [])
  }

  function Prune(window: seq<Record>, cutoff: int): seq<Record> { PruneTo(window, cutoff, |window|) }

  function FailuresTo(window: seq<Record>, n: nat): (f: nat)
    requires n <= |window|
    ensures f <= n
  {
    if n == 0 then 0 else FailuresTo(window, n - 1) + (if window[n - 1].success then 0 else 1)
  }

  function Failures(window: seq<Record>): nat { FailuresTo(window, |window|) }

  /** The positions of the records of one kind among the first `n`. */
  function Places(window: seq<Record>, n: nat, success: bool): set<nat>
    requires n <= |window|
  {
    set i: nat | i < n && window[i].success == success
  }

  lemma {:induction false} FailuresCounted(window: seq<Record>, n: nat)
    requires n <= |window|
    ensures FailuresTo(window, n) == |Places(window, n, false)|
    ensures |Places(window, n, false)| + |Places(window, n, true)| == n
  {
    if n == 0 {
    } else {
      FailuresCounted(window, n - 1);
      var now := window[n - 1].success;
      assert Places(window, n, now) == Places(window, n - 1, now) + {n - 1};
      assert Places(window, n, !now) == Places(window, n - 1, !now);
    }
  }

  /** The positions of the records from the cutoff on among the first `n`. */
  function Recent(window: seq<Record>, n: nat, cutoff: int): set<nat>
    requires n <= |window|
  {
    set i: nat | i < n && window[i].ts >= cutoff
  }

  /** Pruning keeps exactly those, in order. */
  lemma {:induction false} PruneKeeps(window: seq<Record>, cutoff: int, n: nat)
    requires n <= |window|
    ensures PruneTo(window, cutoff, n) == Pick(window[..n], Recent(window, n, cutoff))
  {
    if n == 0 {
    } else {
      PruneKeeps(window, cutoff, n - 1);
      PickNext(window[..n - 1], window[n - 1], Recent(window, n - 1, cutoff), Recent(window, n, cutoff));
      assert window[..n] == window[..n - 1] + [window[n - 1]];
    }
  }

  predicate Trips(c: Config, window: seq<Record>) {
    |window| >= c.minCalls && |window| > 0 && Failures(window) as real / |window| as real > c.threshold
  }

  /** Whether a breaker asked at `now` leaves the open state. */
  predicate Elapsed(c: Config, s: Snapshot, now: int) {
    s.state == Open && s.lastTrip.At? && now - s.lastTrip.ts >= c.halfOpenIntervalMs
  }

  function Wake(c: Config, s: Snapshot, now: int): Snapshot {
    if Elapsed(c, s, now) then s.(state := HalfOpen, probeInFlight := false) else s
  }

  /** The window after an event. */
  function NextWindow(c: Config, s: Snapshot, e: Timed): seq<Record> {
    var pruned := Prune(s.window, e.now - c.windowMs);
    match e.event
    case Success => if s.state == HalfOpen then [] else pruned + [Record(e.now, true)]
    case Failure => pruned + [Record(e.now, false)]
    case GetStats => pruned
    case Reset => []
    case _ => s.window
  }

  function Step(c: Config, s: Snapshot, e: Timed): Snapshot {
    var window := NextWindow(c, s, e);
    match e.event
    case Allow =>
      var w := Wake(c, s, e.now);
      if w.state == HalfOpen then w.(probeInFlight := true) else w
    case Success =>
      if s.state == HalfOpen then Snapshot(Closed, window, s.lastTrip, false) else s.(window := window)
    case Failure =>
      var opens := s.state == HalfOpen || (s.state == Closed && Trips(c, window));
      Snapshot(if opens then Open else s.state, window, if opens then At(e.now) else s.lastTrip,
               s.probeInFlight && s.state != HalfOpen)
    case Reset => INITIAL
    case GetState => Wake(c, s, e.now)
    case GetStats => Wake(c, s.(window := window), e.now)
  }

  /** Whether a call asking at `now` is let through. */
  predicate Admits(c: Config, s: Snapshot, now: int) {
    var w := Wake(c, s, now);
    w.state == Closed || (w.state == HalfOpen && !w.probeInFlight)
  }

  // ----- The program -------------------------------------------------------------------------

  class CircuitBreaker {
    const config: Config
    var state: State
    var window: seq<Record>
    var lastTrip: LastTrip
    var probeInFlight: bool

    ghost function Fields(): Snapshot reads this {
      Snapshot(state, window, lastTrip, probeInFlight)
    }

    constructor (config: Config)
      ensures this.config == config && Fields() == INITIAL
      ensures state == Closed && window == [] && lastTrip == Never && !probeInFlight
    {
      this.config := config;
      state, window, lastTrip, probeInFlight := Closed, [], Never, false;
    }

    method GetCircuitState(now: int) returns (s: State)
      modifies this
      ensures Fields() == Step(config, old(Fields()), Timed(GetState, now)) && s == state
      ensures s == if old(state) == Open && old(lastTrip).At? && now - old(lastTrip).ts >= config.halfOpenIntervalMs
                   then HalfOpen else old(state)
    {
      MaybeTransitionToHalfOpen(now);
      s := state;
    }

    /** Returns false where the source throws `CircuitOpenError`. */
    method AllowCall(now: int) returns (allowed: bool)
      modifies this
      ensures Fields() == Step(config, old(Fields()), Timed(Allow, now))
      ensures allowed == Admits(config, old(Fields()), now)
      ensures allowed <==>
                || old(state) == Closed || (old(state) == HalfOpen && !old(probeInFlight))
                || (old(state) == Open && old(lastTrip).At? && now - old(lastTrip).ts >= config.halfOpenIntervalMs)
      ensures window == old(window) && lastTrip == old(lastTrip)
      ensures allowed && old(state) != Closed ==> state == HalfOpen && probeInFlight
      ensures !allowed || old(state) == Closed ==> state == old(state) && probeInFlight == old(probeInFlight)
    {
      MaybeTransitionToHalfOpen(now);
      if state == Open { return false; }
      if state == HalfOpen {
        if probeInFlight { return false; }
        probeInFlight := true;
      }
      allowed := true;
    }

    method RecordSuccess(now: int)
      modifies this
      ensures Fields() == Step(config, old(Fields()), Timed(Success, now))
      ensures old(state) == HalfOpen ==> state == Closed && window == [] && !probeInFlight
      ensures old(state) != HalfOpen ==>
                && state == old(state) && probeInFlight == old(probeInFlight)
                && window == Prune(old(window), now - config.windowMs) + [Record(now, true)]
      ensures lastTrip == old(lastTrip)
    {
      PruneWindow(now);
      window := window + [Record(now, true)];
      if state == HalfOpen {
        probeInFlight := false;
        state := Closed;
        window := [];
      }
    }

    method RecordFailure(now: int)
      modifies this
      ensures Fields() == Step(config, old(Fields()), Timed(Failure, now))
      ensures window == Prune(old(window), now - config.windowMs) + [Record(now, false)]
      ensures state == Open <==>
                || old(state) == Open || old(state) == HalfOpen
                || (|window| >= config.minCalls
                    && |Places(window, |window|, false)| as real / |window| as real > config.threshold)
      ensures state != Open ==> state == old(state)
      ensures lastTrip == if state == Open && old(state) != Open then At(now) else old(lastTrip)
      ensures probeInFlight == (old(probeInFlight) && old(state) != HalfOpen)
    {
      PruneWindow(now);
      window := window + [Record(now, false)];
      if state == HalfOpen {
        probeInFlight := false;
        state := Open;
        lastTrip := At(now);
        return;
      }
      if state == Closed { MaybeTrip(now); }
    }

    method ResetCircuit()
      modifies this
      ensures Fields() == INITIAL
      ensures state == Closed && window == [] && lastTrip == Never && !probeInFlight
    {
      state, window, lastTrip, probeInFlight := Closed, [], Never, false;
    }

    method GetStatistics(now: int) returns (s: State, total: nat, successes: nat, failures: nat)
      modifies this
      ensures Fields() == Step(config, old(Fields()), Timed(GetStats, now))
      ensures s == state && total == |window|
      ensures successes == |Places(window, |window|, true)| && failures == |Places(window, |window|, false)|
    {
      PruneWindow(now);
      failures := CountFailures();
      successes := |window| - failures;
      FailuresCounted(window, |window|);
      MaybeTransitionToHalfOpen(now);
      s, total := state, |window|;
    }

    method PruneWindow(now: int)
      modifies this`window
      ensures window == Prune(old(window), now - config.windowMs)
      ensures window == Pick(old(window), Recent(old(window), |old(window)|, now - config.windowMs))
    {
      var cutoff := now - config.windowMs;
      var kept: seq<Record> := [];
      for i := 0 to |window|
        invariant window == old(window) && kept == PruneTo(window, cutoff, i)
      {
        if window[i].ts >= cutoff { kept := kept + [window[i]]; }
      }
      PruneKeeps(window, cutoff, |window|);
      assert window[..|window|] == window;
      window := kept;
    }

    method CountFailures() returns (n: nat)
      ensures n == Failures(window) == |Places(window, |window|, false)|
    {
      n := 0;
      for i := 0 to |window|
        invariant n == FailuresTo(window, i)
      {
        if !window[i].success { n := n + 1; }
      }
      FailuresCounted(window, |window|);
    }

    method MaybeTrip(now: int)
      requires window != []
      modifies this`state, this`lastTrip
      ensures state == (if Trips(config, window) then Open else old(state))
      ensures lastTrip == (if Trips(config, window) then At(now) else old(lastTrip))
      ensures Trips(config, window) <==>
                && |window| >= config.minCalls
                && |Places(window, |window|, false)| as real / |window| as real > config.threshold
    {
      FailuresCounted(window, |window|);
      if |window| < config.minCalls { return; }
      var failures := CountFailures();
      var ratio := failures as real / |window| as real;
      if ratio > config.threshold {
        state := Open;
        lastTrip := At(now);
      }
    }

    method MaybeTransitionToHalfOpen(now: int)
      modifies this`state, this`probeInFlight
      ensures Fields() == Wake(config, old(Fields()), now)
    {
      if state == Open && lastTrip.At? {
        var elapsed := now - lastTrip.ts;
        if elapsed >= config.halfOpenIntervalMs {
          state := HalfOpen;
          probeInFlight := false;
        }
      }
    }
  }

  // ----- Runs --------------------------------------------------------------------------------

  /** `states[i]` is the breaker before event `i`, from a new breaker on. */
  ghost predicate IsRun(c: Config, run: seq<Timed>, states: seq<Snapshot>) {
    && |states| == |run| + 1
    && states[0] == INITIAL
    && (forall i | 0 <= i < |run| :: IsStep(c, run, states, i))
    && (forall i, j | 0 <= i <= j < |run| :: run[i].now <= run[j].now)
  }

  ghost predicate IsStep(c: Config, run: seq<Timed>, states: seq<Snapshot>, i: nat)
    requires i < |run| && i + 1 < |states|
  {
    states[i + 1] == Step(c, states[i], run[i])
  }

  lemma RunExtends(c: Config, run: seq<Timed>, states: seq<Snapshot>, e: Timed)
    requires IsRun(c, run, states) && forall i | 0 <= i < |run| :: run[i].now <= e.now
    ensures IsRun(c, run + [e], states + [Step(c, states[|run|], e)])
  {
    var run', states' := run + [e], states + [Step(c, states[|run|], e)];
    forall i | 0 <= i < |run'| ensures IsStep(c, run', states', i) {
      if i < |run| { assert IsStep(c, run, states, i); }
    }
  }

  ghost predicate AdmittedAt(c: Config, run: seq<Timed>, states: seq<Snapshot>, i: nat)
    requires IsRun(c, run, states) && i < |run|
  {
    run[i].event == Allow && Admits(c, states[i], run[i].now)
  }

  /** Every outcome of the first `i` events recorded since the window was last emptied, that is,
      since the last close from half-open or the last reset. */
  ghost function History(c: Config, run: seq<Timed>, states: seq<Snapshot>, i: nat): seq<Record>
    requires IsRun(c, run, states) && i <= |run|
  {
    if i == 0 then [] else Remembered(states[i - 1].state, History(c, run, states, i - 1), run[i - 1])
  }

  function Remembered(state: State, history: seq<Record>, e: Timed): seq<Record> {
    match e.event
    case Reset => []
    case Success => if state == HalfOpen then [] else history + [Record(e.now, true)]
    case Failure => history + [Record(e.now, false)]
    case _ => history
  }

  lemma {:induction false} PruneSame(a: seq<Record>, b: seq<Record>, cutoff: int, n: nat)
    requires n <= |a| && n <= |b| && forall k | 0 <= k < n :: a[k] == b[k]
    ensures PruneTo(a, cutoff, n) == PruneTo(b, cutoff, n)
  {
    if n == 0 {
    } else {
      PruneSame(a, b, cutoff, n - 1);
    }
  }

  lemma PrunePush(window: seq<Record>, r: Record, cutoff: int)
    ensures Prune(window + [r], cutoff) == Prune(window, cutoff) + (if r.ts >= cutoff then [r] else [])
  {
    PruneSame(window, window + [r], cutoff, |window|);
  }

  lemma {:induction false} PruneToTwice(window: seq<Record>, cutoff: int, cutoff': int, n: nat)
    requires cutoff <= cutoff' && n <= |window|
    ensures Prune(PruneTo(window, cutoff, n), cutoff') == PruneTo(window, cutoff', n)
  {
    if n == 0 {
    } else {
      PruneToTwice(window, cutoff, cutoff', n - 1);
      var older := PruneTo(window, cutoff, n - 1);
      PrunePush(older, window[n - 1], cutoff');
      assert older + [] == older && PruneTo(window, cutoff', n - 1) + [] == PruneTo(window, cutoff', n - 1);
    }
  }

  lemma PruneTwice(window: seq<Record>, cutoff: int, cutoff': int)
    requires cutoff <= cutoff'
    ensures Prune(Prune(window, cutoff), cutoff') == Prune(window, cutoff')
  {
    PruneToTwice(window, cutoff, cutoff', |window|);
  }

  lemma WindowPush(c: Config, window: seq<Record>, history: seq<Record>, r: Record, cutoff: int)
    requires r.ts - c.windowMs <= cutoff && Prune(window, cutoff) == Prune(history, cutoff)
    ensures Prune(Prune(window, r.ts - c.windowMs) + [r], cutoff) == Prune(history + [r], cutoff)
  {
    var pruned := Prune(window, r.ts - c.windowMs);
    PruneTwice(window, r.ts - c.windowMs, cutoff);
    assert Prune(pruned, cutoff) == Prune(history, cutoff);
    PrunePush(pruned, r, cutoff);
    PrunePush(history, r, cutoff);
  }

  ghost predicate AgreeFrom(window: seq<Record>, history: seq<Record>, cutoff: int) {
    Prune(window, cutoff) == Prune(history, cutoff)
  }

  lemma WindowStep(c: Config, s: Snapshot, history: seq<Record>, e: Timed, cutoff: int)
    requires e.now - c.windowMs <= cutoff && AgreeFrom(s.window, history, cutoff)
    ensures AgreeFrom(Step(c, s, e).window, Remembered(s.state, history, e), cutoff)
  {
    match e.event
    case Success => if s.state != HalfOpen { WindowPush(c, s.window, history, Record(e.now, true), cutoff); }
    case Failure => WindowPush(c, s.window, history, Record(e.now, false), cutoff);
    case GetStats => PruneTwice(s.window, e.now - c.windowMs, cutoff);
    case _ =>
  }

  /** For every cutoff that a later event can use, the pruned window and the full history agree. */
  lemma {:induction false} WindowAgrees(c: Config, run: seq<Timed>, states: seq<Snapshot>, i: nat, cutoff: int)
    requires IsRun(c, run, states) && i <= |run| && (i > 0 ==> cutoff >= run[i - 1].now - c.windowMs)
    ensures AgreeFrom(states[i].window, History(c, run, states, i), cutoff)
  {
    if i == 0 {
    } else {
      assert IsStep(c, run, states, i - 1);
      WindowAgrees(c, run, states, i - 1, cutoff);
      WindowStep(c, states[i - 1], History(c, run, states, i - 1), run[i - 1], cutoff);
    }
  }

  lemma OutcomeWindow(c: Config, s: Snapshot, history: seq<Record>, e: Timed)
    requires c.windowMs >= 0 && (e.event == Success || e.event == Failure)
    requires AgreeFrom(s.window, history, e.now - c.windowMs)
    ensures Step(c, s, e).window == Prune(Remembered(s.state, history, e), e.now - c.windowMs)
  {
    PrunePush(history, Record(e.now, e.event == Success), e.now - c.windowMs);
  }

  /** After every recorded outcome the incrementally pruned window is the full history since it was
      last emptied, cut at `now - windowMs`. */
  lemma WindowRefinesHistory(c: Config, run: seq<Timed>, states: seq<Snapshot>, i: nat)
    requires IsRun(c, run, states) && c.windowMs >= 0
    requires i < |run| && (run[i].event == Success || run[i].event == Failure)
    ensures states[i + 1].window == Prune(History(c, run, states, i + 1), run[i].now - c.windowMs)
  {
    var history, e := History(c, run, states, i), run[i];
    assert IsStep(c, run, states, i);
    WindowAgrees(c, run, states, i, e.now - c.windowMs);
    OutcomeWindow(c, states[i], history, e);
  }

  /** A probe is in flight only when half-open, and an open breaker knows when it tripped. */
  lemma {:induction false} FieldsAgree(c: Config, run: seq<Timed>, states: seq<Snapshot>, i: nat)
    requires IsRun(c, run, states) && i <= |run|
    ensures states[i].probeInFlight ==> states[i].state == HalfOpen
    ensures states[i].state == Open ==> states[i].lastTrip.At?
  {
    if i == 0 {
    } else {
      FieldsAgree(c, run, states, i - 1);
      assert IsStep(c, run, states, i - 1);
    }
  }

  /** Event `k` empties the window: a reset, or a success that ends the half-open state. */
  ghost predicate Empties(run: seq<Timed>, states: seq<Snapshot>, k: nat)
    requires k < |run| && k < |states|
  {
    run[k].event == Reset || (run[k].event == Success && states[k].state == HalfOpen)
  }

  /** The events before `i` with an outcome, `Success` or `Failure`, from time `cutoff` on, with no emptying of the
      window since. */
  ghost function Outcomes(run: seq<Timed>, states: seq<Snapshot>, i: nat, cutoff: int, outcome: Event): set<nat>
    requires i <= |run| && i <= |states|
  {
    set k: nat | k < i && run[k].event == outcome && run[k].now >= cutoff && Remains(run, states, i, k)
  }

  /** No event from `k` up to, not including, `i` empties the window. */
  ghost predicate Remains(run: seq<Timed>, states: seq<Snapshot>, i: nat, k: nat)
    requires i <= |run| && i <= |states|
  {
    forall m | k <= m < i :: !Empties(run, states, m)
  }

  lemma RemainsNext(run: seq<Timed>, states: seq<Snapshot>, i: nat, k: nat)
    requires i < |run| && i < |states| && k <= i
    ensures Remains(run, states, i + 1, k) <==> Remains(run, states, i, k) && !Empties(run, states, i)
  {
  }

  lemma FailuresPush(window: seq<Record>, more: seq<Record>)
    requires |more| <= 1
    ensures Failures(window + more) == Failures(window) + (if more != [] && !more[0].success then 1 else 0)
  {
    FailuresSame(window, window + more, |window|);
    if more == [] { assert window + more == window; }
  }

  lemma {:induction false} FailuresSame(a: seq<Record>, b: seq<Record>, n: nat)
    requires n <= |a| && n <= |b| && forall k | 0 <= k < n :: a[k] == b[k]
    ensures FailuresTo(a, n) == FailuresTo(b, n)
  {
    if n == 0 {
    } else {
      FailuresSame(a, b, n - 1);
    }
  }

  lemma OutcomesNext(run: seq<Timed>, states: seq<Snapshot>, i: nat, cutoff: int, outcome: Event)
    requires i < |run| && i < |states| && (outcome == Success || outcome == Failure)
    ensures |Outcomes(run, states, i + 1, cutoff, outcome)|
         == if Empties(run, states, i) then 0
            else
              |Outcomes(run, states, i, cutoff, outcome)|
              + (if run[i].event == outcome && run[i].now >= cutoff then 1 else 0)
  {
    var before, after := Outcomes(run, states, i, cutoff, outcome), Outcomes(run, states, i + 1, cutoff, outcome);
    forall k: nat | k <= i { RemainsNext(run, states, i, k); }
    assert Remains(run, states, i, i);
    if Empties(run, states, i) {
      assert after == {};
    } else {
      assert after == before + if run[i].event == outcome && run[i].now >= cutoff then {i} else {};
    }
  }

  ghost predicate Tallied(h: seq<Record>, cutoff: int, failed: nat, passed: nat) {
    Failures(Prune(h, cutoff)) == failed && |Prune(h, cutoff)| == failed + passed
  }

  lemma TalliedNext(h: seq<Record>, cutoff: int, failed: nat, passed: nat, now: int, success: bool)
    requires Tallied(h, cutoff, failed, passed)
    ensures var more := if now >= cutoff then 1 else 0;
            Tallied(h + [Record(now, success)], cutoff, if success then failed else failed + more,
                    if success then passed + more else passed)
  {
    var r := Record(now, success);
    PrunePush(h, r, cutoff);
    FailuresPush(Prune(h, cutoff), if r.ts >= cutoff then [r] else []);
  }

  /** The pruned history has one record for every outcome that counts. */
  lemma {:induction false} HistoryCounts(c: Config, run: seq<Timed>, states: seq<Snapshot>, i: nat, cutoff: int)
    requires IsRun(c, run, states) && i <= |run|
    ensures Tallied(History(c, run, states, i), cutoff,
                    |Outcomes(run, states, i, cutoff, Failure)|, |Outcomes(run, states, i, cutoff, Success)|)
  {
    if i == 0 {
      assert Outcomes(run, states, 0, cutoff, Failure) == {} == Outcomes(run, states, 0, cutoff, Success);
    } else {
      HistoryCounts(c, run, states, i - 1, cutoff);
      OutcomesNext(run, states, i - 1, cutoff, Failure);
      OutcomesNext(run, states, i - 1, cutoff, Success);
      var e, h := run[i - 1], History(c, run, states, i - 1);
      if !Empties(run, states, i - 1) && (e.event == Success || e.event == Failure) {
        TalliedNext(h, cutoff, |Outcomes(run, states, i - 1, cutoff, Failure)|,
                    |Outcomes(run, states, i - 1, cutoff, Success)|, e.now, e.event == Success);
      }
    }
  }

  lemma FailureOpens(c: Config, s: Snapshot, now: int, h: seq<Record>, failed: nat, passed: nat)
    requires s.state == Closed && Tallied(h, now - c.windowMs, failed, passed)
    requires Step(c, s, Timed(Failure, now)).window == Prune(h, now - c.windowMs)
    ensures Step(c, s, Timed(Failure, now)).state == Open <==>
              failed + passed >= c.minCalls && failed + passed > 0
              && failed as real / (failed + passed) as real > c.threshold
  {
  }

  /** A closed breaker opens at event `i` exactly when the event is a failure and, of the outcomes
      recorded since the last close or reset and no older than `windowMs`, there are at least
      `minCalls` and the part that failed exceeds the threshold. */
  lemma TripsExactly(c: Config, run: seq<Timed>, states: seq<Snapshot>, i: nat)
    requires IsRun(c, run, states) && c.windowMs >= 0 && i < |run| && states[i].state == Closed
    ensures var cutoff := run[i].now - c.windowMs;
            var failed := |Outcomes(run, states, i + 1, cutoff, Failure)|;
            var all := failed + |Outcomes(run, states, i + 1, cutoff, Success)|;
            states[i + 1].state == Open <==>
              run[i].event == Failure && all >= c.minCalls && all > 0 && failed as real / all as real > c.threshold
  {
    assert IsStep(c, run, states, i);
    if run[i].event == Failure {
      var cutoff := run[i].now - c.windowMs;
      WindowRefinesHistory(c, run, states, i);
      HistoryCounts(c, run, states, i + 1, cutoff);
      FailureOpens(c, states[i], run[i].now, History(c, run, states, i + 1),
                   |Outcomes(run, states, i + 1, cutoff, Failure)|, |Outcomes(run, states, i + 1, cutoff, Success)|);
    }
  }

  lemma {:induction false} ProbeStays(c: Config, run: seq<Timed>, states: seq<Snapshot>, i: nat, j: nat)
    requires IsRun(c, run, states) && i < j <= |run| && AdmittedAt(c, run, states, i)
    requires forall k | i < k <= j :: states[k].state == HalfOpen
    ensures states[j].probeInFlight
  {
    assert IsStep(c, run, states, j - 1);
    if j == i + 1 {
    } else {
      ProbeStays(c, run, states, i, j - 1);
    }
  }

  /** At most one call is admitted per half-open episode, whatever late outcomes of older calls
      arrive: between two admissions while half-open the breaker has left that state. */
  lemma OneProbePerEpisode(c: Config, run: seq<Timed>, states: seq<Snapshot>, i: nat, j: nat)
    requires IsRun(c, run, states) && i < j < |run|
    requires AdmittedAt(c, run, states, i) && AdmittedAt(c, run, states, j)
    ensures exists k | i < k <= j :: states[k].state != HalfOpen
  {
    if forall k | i < k <= j :: states[k].state == HalfOpen {
      ProbeStays(c, run, states, i, j);
    }
  }

  lemma OpenStays(c: Config, s: Snapshot, e: Timed, tripped: int)
    requires s.state == Open && s.lastTrip == At(tripped)
    requires e.event != Reset && e.now - tripped < c.halfOpenIntervalMs
    ensures Step(c, s, e).state == Open && Step(c, s, e).lastTrip == At(tripped)
  {
  }

  lemma {:induction false} StaysOpen(c: Config, run: seq<Timed>, states: seq<Snapshot>, i: nat, j: nat)
    requires IsRun(c, run, states) && i < j <= |run| && states[i].state != Open && states[i + 1].state == Open
    requires forall k | i < k < j :: run[k].event != Reset && run[k].now - run[i].now < c.halfOpenIntervalMs
    ensures states[j].state == Open && states[j].lastTrip == At(run[i].now)
  {
    assert IsStep(c, run, states, j - 1);
    if j == i + 1 {
    } else {
      StaysOpen(c, run, states, i, j - 1);
      OpenStays(c, states[j - 1], run[j - 1], run[i].now);
    }
  }

  /** After a trip at event `i`, and without a reset, no call is admitted for `halfOpenIntervalMs`;
      the first call asking after that time is. */
  lemma ShutForInterval(c: Config, run: seq<Timed>, states: seq<Snapshot>, i: nat, j: nat)
    requires IsRun(c, run, states) && i < j < |run| && run[j].event == Allow
    requires states[i].state != Open && states[i + 1].state == Open
    requires forall k | i < k < j :: run[k].event != Reset && run[k].now - run[i].now < c.halfOpenIntervalMs
    ensures AdmittedAt(c, run, states, j) <==> run[j].now - run[i].now >= c.halfOpenIntervalMs
  {
    StaysOpen(c, run, states, i, j);
  }
}
