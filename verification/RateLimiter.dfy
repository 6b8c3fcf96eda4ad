/** The token bucket of `src/utils/rate-limiter.ts`. Time is in milliseconds and never goes back;
    rates and token counts are real numbers. */
module RateLimiter {

  datatype Mode = QueueMode | RejectMode

  datatype Config = Config(requestsPerSecond: real, maxTokens: real, mode: Mode) {
    predicate Sane() { requestsPerSecond >= 0.0 && maxTokens >= 0.0 }
  }

  /** A request in the queue; `id` stands for its timeout handle. */
  datatype Waiting = Waiting(id: nat, enqueuedAt: int)

  const MAX_QUEUE := 100

  datatype Snapshot = Snapshot(
    tokens: real, lastRefill: int, queue: seq<Waiting>, nextId: nat, timerOn: bool,
    totalRequests: nat, totalWaited: nat, totalRejected: nat)

  /** `Tick` is the 50 ms timer, `Timeout(id)` the queue timeout of one request. */
  datatype Event = Acquire | Release | Tick | Timeout(id: nat) | Destroy
  datatype Timed = Timed(event: Event, now: int)

  datatype Answer = Granted | Rejected | Queued(id: nat)

  /** The tokens that `ms` milliseconds are worth, a millisecond at a time. */
  function Accrued(c: Config, ms: int): real
    decreases if ms < 0 then -ms else ms
  {
    if ms == 0 then 0.0
    else if ms > 0 then Accrued(c, ms - 1) + c.requestsPerSecond / 1000.0
    else Accrued(c, ms + 1) - c.requestsPerSecond / 1000.0
  }

  /** The same as a product, as the program computes it. */
  function Worth(c: Config, ms: int): real { (ms as real / 1000.0) * c.requestsPerSecond }

  lemma {:induction false} AccruedIsProduct(c: Config, ms: int)
    ensures Accrued(c, ms) == Worth(c, ms)
    decreases if ms < 0 then -ms else ms
  {
    if ms == 0 {
    } else {
      var before := if ms > 0 then ms - 1 else ms + 1;
      AccruedIsProduct(c, before);
      OneMore(before as real / 1000.0, c.requestsPerSecond);
    }
  }

  lemma OneMore(x: real, r: real)
    ensures (x + 1.0 / 1000.0) * r == x * r + r / 1000.0 && (x - 1.0 / 1000.0) * r == x * r - r / 1000.0
  {
  }

  /** A second is worth as many tokens as the rate says. */
  lemma ASecond(c: Config)
    ensures Worth(c, 1000) == c.requestsPerSecond && Accrued(c, 1000) == c.requestsPerSecond
  {
    AccruedIsProduct(c, 1000);
  }

  function Min(a: real, b: real): real { if a <= b then a else b }

  function Refill(c: Config, s: Snapshot, now: int): Snapshot {
    var add := Accrued(c, now - s.lastRefill);
    if add >= 1.0 then s.(tokens := Min(s.tokens + add.Floor as real, c.maxTokens), lastRefill := now) else s
  }

  /** How many queued requests a bucket can serve at once. */
  function Servable(s: Snapshot): (k: nat)
    ensures k <= |s.queue| && (k as real <= s.tokens || k == 0)
    ensures k == |s.queue| || s.tokens < k as real + 1.0
  {
    if s.tokens < 1.0 then 0
    else if s.tokens.Floor <= |s.queue| then s.tokens.Floor else |s.queue|
  }

  predicate Holds(queue: seq<Waiting>, id: nat) {
    exists k | 0 <= k < |queue| :: queue[k].id == id
  }

  function Without(queue: seq<Waiting>, id: nat): seq<Waiting> {
    if queue == [] then []
    else if queue[0].id == id then queue[1..]
    else [queue[0]] + Without(queue[1..], id)
  }

  function Ask(c: Config, s: Snapshot, now: int): Answer {
    var r := Refill(c, s, now);
    if r.tokens >= 1.0 then Granted
    else if c.mode == RejectMode || |r.queue| >= MAX_QUEUE then Rejected
    else Queued(s.nextId)
  }

  function Step(c: Config, s: Snapshot, e: Timed): Snapshot {
    match e.event
    case Acquire =>
      var r := Refill(c, s, e.now).(totalRequests := s.totalRequests + 1);
      (match Ask(c, s, e.now)
       case Granted => r.(tokens := r.tokens - 1.0)
       case Rejected => r.(totalRejected := r.totalRejected + 1)
       case Queued(id) => r.(queue := r.queue + [Waiting(id, e.now)], nextId := id + 1))
    case Release => s.(tokens := Min(s.tokens + 1.0, c.maxTokens))
    case Tick =>
      var r := Refill(c, s, e.now);
      var k := Servable(r);
      r.(tokens := r.tokens - k as real, queue := r.queue[k..], totalWaited := r.totalWaited + k)
    case Timeout(id) => s.(queue := Without(s.queue, id), totalRejected := s.totalRejected + 1)
    case Destroy => s.(queue := [], timerOn := false)
  }

  /** Tokens handed out by an event. */
  function Grants(c: Config, s: Snapshot, e: Timed): nat {
    match e.event
    case Acquire => if Ask(c, s, e.now) == Granted then 1 else 0
    case Tick => Servable(Refill(c, s, e.now))
    case _ => 0
  }

  // ----- The program -------------------------------------------------------------------------

  class Limiter {
    const config: Config
    var tokens: real
    var lastRefill: int
    var queue: seq<Waiting>
    var nextId: nat
    var timerOn: bool
    var totalRequests: nat
    var totalWaited: nat
    var totalRejected: nat

    ghost function Fields(): Snapshot reads this {
      Snapshot(tokens, lastRefill, queue, nextId, timerOn, totalRequests, totalWaited, totalRejected)
    }

    constructor (config: Config, now: int)
      ensures this.config == config && Fields() == Initial(config, now)
      ensures tokens == config.maxTokens && lastRefill == now && queue == [] && timerOn
      ensures totalRequests == totalWaited == totalRejected == 0
    {
      this.config := config;
      tokens, lastRefill, queue, nextId, timerOn := config.maxTokens, now, [], 0, true;
      totalRequests, totalWaited, totalRejected := 0, 0, 0;
    }

    method AcquireToken(now: int) returns (answer: Answer)
      modifies this
      ensures Fields() == Step(config, old(Fields()), Timed(Acquire, now))
      ensures answer == Ask(config, old(Fields()), now)
      ensures var filled := Refill(config, old(Fields()), now).tokens;
              && (answer == Granted <==> filled >= 1.0)
              && (answer == Rejected <==> filled < 1.0 && (config.mode == RejectMode || |old(queue)| >= 100))
              && tokens == if answer == Granted then filled - 1.0 else filled
      ensures queue == if answer.Queued? then old(queue) + [Waiting(answer.id, now)] else old(queue)
      ensures totalRequests == old(totalRequests) + 1 && totalWaited == old(totalWaited)
      ensures totalRejected == old(totalRejected) + if answer == Rejected then 1 else 0
    {
      totalRequests := totalRequests + 1;
      var got := TryAcquire(now);
      if got { return Granted; }
      if config.mode == RejectMode {
        totalRejected := totalRejected + 1;
        return Rejected;
      }
      answer := Enqueue(now);
    }

    method ReleaseToken(now: int)
      modifies this
      ensures Fields() == Step(config, old(Fields()), Timed(Release, now))
      ensures tokens == if old(tokens) + 1.0 <= config.maxTokens then old(tokens) + 1.0 else config.maxTokens
    {
      tokens := Min(tokens + 1.0, config.maxTokens);
    }

    method DestroyAll(now: int) returns (rejected: seq<Waiting>)
      modifies this
      ensures Fields() == Step(config, old(Fields()), Timed(Destroy, now)) && rejected == old(queue)
      ensures queue == [] && !timerOn
    {
      timerOn := false;
      rejected := queue;
      queue := [];
    }

    method TryAcquire(now: int) returns (got: bool)
      modifies this`tokens, this`lastRefill
      ensures var r := Refill(config, old(Fields()), now);
              got == (r.tokens >= 1.0) && Fields() == (if got then r.(tokens := r.tokens - 1.0) else r)
    {
      RefillTokens(now);
      if tokens >= 1.0 {
        tokens := tokens - 1.0;
        return true;
      }
      got := false;
    }

    method Enqueue(now: int) returns (answer: Answer)
      modifies this`queue, this`nextId, this`totalRejected
      ensures |old(queue)| >= MAX_QUEUE ==>
                answer == Rejected && Fields() == old(Fields()).(totalRejected := old(totalRejected) + 1)
      ensures |old(queue)| < MAX_QUEUE ==>
                && answer == Queued(old(nextId))
                && Fields() == old(Fields()).(
                     queue := old(queue) + [Waiting(old(nextId), now)], nextId := old(nextId) + 1)
    {
      if |queue| >= MAX_QUEUE {
        totalRejected := totalRejected + 1;
        return Rejected;
      }
      answer := Queued(nextId);
      queue := queue + [Waiting(nextId, now)];
      nextId := nextId + 1;
    }

    /** The queue timeout of request `id`, which fires only while the request is queued. */
    method OnTimeout(id: nat, now: int)
      requires Holds(queue, id)
      modifies this
      ensures Fields() == Step(config, old(Fields()), Timed(Timeout(id), now))
      ensures exists i ::
                && 0 <= i < |old(queue)| && old(queue)[i].id == id && (forall k | 0 <= k < i :: old(queue)[k].id != id)
                && queue == old(queue)[..i] + old(queue)[i + 1..]
      ensures totalRejected == old(totalRejected) + 1 && tokens == old(tokens)
    {
      var index := 0;
      while index < |queue| && queue[index].id != id
        invariant index <= |queue| && forall k | 0 <= k < index :: queue[k].id != id
      {
        index := index + 1;
      }
      if index < |queue| {
        WithoutAt(queue, id, index);
        queue := queue[..index] + queue[index + 1..];
      }
      totalRejected := totalRejected + 1;
    }

    method TokensFor(elapsed: int) returns (add: real)
      ensures add == Accrued(config, elapsed) == Worth(config, elapsed)
    {
      AccruedIsProduct(config, elapsed);
      add := Worth(config, elapsed);
    }

    method RefillTokens(now: int)
      modifies this`tokens, this`lastRefill
      ensures Fields() == Refill(config, old(Fields()), now)
      ensures var add := Worth(config, now - old(lastRefill));
              if add >= 1.0 then
                var sum := old(tokens) + add.Floor as real;
                tokens == (if sum <= config.maxTokens then sum else config.maxTokens) && lastRefill == now
              else tokens == old(tokens) && lastRefill == old(lastRefill)
    {
      var elapsed := now - lastRefill;
      var tokensToAdd := TokensFor(elapsed);
      if tokensToAdd >= 1.0 {
        tokens := Min(tokens + tokensToAdd.Floor as real, config.maxTokens);
        lastRefill := now;
      }
    }

    /** The timer callback; returns the requests resolved, oldest first. */
    method ProcessQueue(now: int) returns (resolved: seq<Waiting>)
      modifies this
      ensures Fields() == Step(config, old(Fields()), Timed(Tick, now))
      ensures resolved == old(queue)[..Servable(Refill(config, old(Fields()), now))]
      ensures resolved + queue == old(queue) && totalWaited == old(totalWaited) + |resolved|
      ensures tokens == Refill(config, old(Fields()), now).tokens - |resolved| as real
      ensures (resolved != [] ==> tokens >= 0.0) && (queue != [] ==> tokens < 1.0)
    {
      RefillTokens(now);
      ghost var r := Fields();
      resolved := [];
      while |queue| > 0 && tokens >= 1.0
        invariant |resolved| <= |r.queue| && resolved == r.queue[..|resolved|] && queue == r.queue[|resolved|..]
        invariant tokens == r.tokens - |resolved| as real
        invariant |resolved| == 0 || tokens >= 0.0
        invariant Fields() == r.(tokens := tokens, queue := queue, totalWaited := r.totalWaited + |resolved|)
        decreases |queue|
      {
        resolved := resolved + [queue[0]];
        queue := queue[1..];
        tokens := tokens - 1.0;
        totalWaited := totalWaited + 1;
      }
      ServableIs(r, |resolved|);
    }
  }

  lemma ServableIs(s: Snapshot, k: nat)
    requires k <= |s.queue| && (k == 0 || k as real <= s.tokens) && (k == |s.queue| || s.tokens < k as real + 1.0)
    ensures Servable(s) == k
  {
  }

  function Initial(c: Config, now: int): Snapshot {
    Snapshot(c.maxTokens, now, [], 0, true, 0, 0, 0)
  }

  lemma {:induction false} WithoutAt(queue: seq<Waiting>, id: nat, index: nat)
    requires index < |queue| && queue[index].id == id && forall k | 0 <= k < index :: queue[k].id != id
    ensures Without(queue, id) == queue[..index] + queue[index + 1..]
  {
    if index == 0 {
    } else {
      WithoutAt(queue[1..], id, index - 1);
    }
  }

  // ----- Runs --------------------------------------------------------------------------------

  ghost predicate Enabled(s: Snapshot, e: Event) {
    match e
    case Tick => s.timerOn
    case Timeout(id) => Holds(s.queue, id)
    case _ => true
  }

  /** `states[i]` is the limiter before event `i`; it was built at time `t0`. */
  ghost predicate IsRun(c: Config, t0: int, run: seq<Timed>, states: seq<Snapshot>) {
    && c.Sane()
    && |states| == |run| + 1
    && states[0] == Initial(c, t0)
    && (forall i | 0 <= i < |run| :: Enabled(states[i], run[i].event) && states[i + 1] == Step(c, states[i], run[i]))
    && (forall i | 0 <= i < |run| :: t0 <= run[i].now)
    && (forall i, j | 0 <= i <= j < |run| :: run[i].now <= run[j].now)
  }

  /** Tokens handed out by the events from `i` up to, not including, `j`. */
  ghost function Spent(c: Config, run: seq<Timed>, states: seq<Snapshot>, i: nat, j: nat): nat
    requires i <= j <= |run| && |states| == |run| + 1
  {
    if j == i then 0 else Spent(c, run, states, i, j - 1) + Grants(c, states[j - 1], run[j - 1])
  }

  lemma {:induction false} AccruedAdds(c: Config, a: int, b: int)
    ensures Accrued(c, a) + Accrued(c, b) == Accrued(c, a + b)
    decreases if b < 0 then -b else b
  {
    if b > 0 { AccruedAdds(c, a, b - 1); } else if b < 0 { AccruedAdds(c, a, b + 1); }
  }

  lemma {:induction false} AccruedMonotone(c: Config, a: int, b: int)
    requires c.Sane() && a <= b
    ensures Accrued(c, a) <= Accrued(c, b)
    decreases b - a
  {
    if a == b {
    } else {
      AccruedMonotone(c, a, b - 1);
    }
  }

  /** Tokens are in `[0, maxTokens]`, and the last refill was between `t0` and `t`. */
  ghost predicate InBounds(c: Config, s: Snapshot, t0: int, t: int) {
    0.0 <= s.tokens <= c.maxTokens && t0 <= s.lastRefill <= t
  }

  lemma RefillBounded(c: Config, s: Snapshot, t0: int, now: int)
    requires c.Sane() && InBounds(c, s, t0, now)
    ensures InBounds(c, Refill(c, s, now), t0, now)
  {
  }

  lemma StepBounded(c: Config, s: Snapshot, e: Timed, t0: int)
    requires c.Sane() && InBounds(c, s, t0, e.now)
    ensures InBounds(c, Step(c, s, e), t0, e.now)
  {
    RefillBounded(c, s, t0, e.now);
  }

  lemma {:induction false} TokensBounded(c: Config, t0: int, run: seq<Timed>, states: seq<Snapshot>, i: nat)
    requires IsRun(c, t0, run, states) && i <= |run|
    ensures InBounds(c, states[i], t0, if i == 0 then t0 else run[i - 1].now)
  {
    if i == 0 {
    } else {
      TokensBounded(c, t0, run, states, i - 1);
      StepBounded(c, states[i - 1], run[i - 1], t0);
    }
  }

  /** A refill adds at most what accrued since the last one, and moves the clock of the bucket only
      when it adds something. */
  lemma RefillCredit(c: Config, s: Snapshot, now: int)
    requires c.Sane() && s.tokens <= c.maxTokens && s.lastRefill <= now
    ensures var r := Refill(c, s, now);
            && s.lastRefill <= r.lastRefill <= now
            && r.tokens <= s.tokens + Accrued(c, r.lastRefill - s.lastRefill)
            && Accrued(c, now - r.lastRefill) < 1.0
            && r.tokens <= c.maxTokens && r.queue == s.queue
  {
    assert Accrued(c, 0) == 0.0;
  }

  /** An event other than a release hands tokens out of the bucket one for one. */
  lemma GrantsLeaveBucket(c: Config, s: Snapshot, e: Timed)
    requires e.event != Release
    ensures var s' := Step(c, s, e);
            if e.event == Acquire || e.event == Tick then
              var r := Refill(c, s, e.now);
              s'.tokens + Grants(c, s, e) as real == r.tokens && s'.lastRefill == r.lastRefill
            else s'.tokens == s.tokens && s'.lastRefill == s.lastRefill && Grants(c, s, e) == 0
  {
  }

  lemma GrantsNoCredit(c: Config, s: Snapshot, e: Timed)
    requires c.Sane() && e.event != Release && s.tokens <= c.maxTokens && s.lastRefill <= e.now
    ensures var s' := Step(c, s, e);
            && s'.tokens + Grants(c, s, e) as real <= s.tokens + Accrued(c, s'.lastRefill - s.lastRefill)
            && (e.event == Acquire || e.event == Tick ==>
                  s'.tokens + Grants(c, s, e) as real <= c.maxTokens && Accrued(c, e.now - s'.lastRefill) < 1.0)
  {
    GrantsLeaveBucket(c, s, e);
    RefillCredit(c, s, e.now);
    assert Accrued(c, 0) == 0.0;
  }

  /** Bucket and grants together are at most what was there at `t0` and accrued up to the last refill. */
  ghost predicate WithinBudget(c: Config, t0: int, s: Snapshot, spent: nat) {
    s.tokens + spent as real <= c.maxTokens + Accrued(c, s.lastRefill - t0)
  }

  /** Once the bucket was looked at: since `anchor`, bucket and grants together grew no faster than tokens
      accrue, and less than one token had accrued between `anchor` and the begin `s` of the interval. */
  ghost predicate Anchored(c: Config, b: Snapshot, spent: nat, s: int, started: bool, anchor: int) {
    if started then Accrued(c, s - anchor) < 1.0 && WithinBudget(c, anchor, b, spent) else spent == 0
  }

  lemma SpendStep(c: Config, b: Snapshot, e: Timed, spent: nat, s: int, started: bool, anchor: int)
    returns (started': bool, anchor': int)
    requires c.Sane() && e.event != Release && b.tokens <= c.maxTokens && b.lastRefill <= e.now && s <= e.now
    requires Anchored(c, b, spent, s, started, anchor)
    ensures Anchored(c, Step(c, b, e), spent + Grants(c, b, e), s, started', anchor')
  {
    started', anchor' := started, anchor;
    var s' := Step(c, b, e);
    GrantsNoCredit(c, b, e);
    if started {
      AccruedAdds(c, b.lastRefill - anchor, s'.lastRefill - b.lastRefill);
    } else if e.event == Acquire || e.event == Tick {
      started', anchor' := true, s'.lastRefill;
      AccruedMonotone(c, s - anchor', e.now - anchor');
      assert Accrued(c, 0) == 0.0;
    } else {
      GrantsLeaveBucket(c, b, e);
    }
  }

  lemma {:induction false} Spend(c: Config, t0: int, run: seq<Timed>, states: seq<Snapshot>, i: nat, j: nat, s: int)
    returns (started: bool, anchor: int)
    requires IsRun(c, t0, run, states) && i <= j <= |run|
    requires forall k | i <= k < j :: run[k].event != Release && s <= run[k].now
    ensures Anchored(c, states[j], Spent(c, run, states, i, j), s, started, anchor)
  {
    started, anchor := false, 0;
    if j == i {
    } else {
      started, anchor := Spend(c, t0, run, states, i, j - 1, s);
      TokensBounded(c, t0, run, states, j - 1);
      var spent := Spent(c, run, states, i, j - 1);
      started, anchor := SpendStep(c, states[j - 1], run[j - 1], spent, s, started, anchor);
    }
  }

  lemma SpentInInterval(c: Config, t0: int, run: seq<Timed>, states: seq<Snapshot>, i: nat, j: nat, s: int, t: int)
    requires IsRun(c, t0, run, states) && i <= j <= |run| && s <= t
    requires forall k | i <= k < j :: run[k].event != Release && s <= run[k].now <= t
    ensures Spent(c, run, states, i, j) as real < c.maxTokens + 1.0 + Accrued(c, t - s)
  {
    AccruedMonotone(c, 0, t - s);
    if j > i {
      var started, anchor := Spend(c, t0, run, states, i, j, s);
      TokensBounded(c, t0, run, states, j);
      if started { BudgetSpent(c, anchor, states[j], Spent(c, run, states, i, j), t); }
      AccruedAdds(c, t - s, s - anchor);
    }
  }

  /** The rate bound: in every run, without releases, the grants in any interval `[s, t]` are fewer
      than `maxTokens + 1 + (t - s) * rps / 1000`. */
  lemma GrantsBounded(c: Config, t0: int, run: seq<Timed>, states: seq<Snapshot>, i: nat, j: nat, s: int, t: int)
    requires IsRun(c, t0, run, states) && i <= j <= |run| && s <= t
    requires forall k | i <= k < j :: run[k].event != Release && s <= run[k].now <= t
    ensures Spent(c, run, states, i, j) as real < c.maxTokens + 1.0 + Worth(c, t - s)
  {
    SpentInInterval(c, t0, run, states, i, j, s, t);
    AccruedIsProduct(c, t - s);
  }

  lemma BudgetStep(c: Config, t0: int, s: Snapshot, e: Timed, spent: nat)
    requires c.Sane() && e.event != Release && s.tokens <= c.maxTokens && s.lastRefill <= e.now
    requires WithinBudget(c, t0, s, spent)
    ensures WithinBudget(c, t0, Step(c, s, e), spent + Grants(c, s, e))
  {
    GrantsNoCredit(c, s, e);
    AccruedAdds(c, s.lastRefill - t0, Step(c, s, e).lastRefill - s.lastRefill);
  }

  lemma {:induction false} BudgetKept(c: Config, t0: int, run: seq<Timed>, states: seq<Snapshot>, j: nat)
    requires IsRun(c, t0, run, states) && j <= |run|
    requires forall k | 0 <= k < j :: run[k].event != Release
    ensures WithinBudget(c, t0, states[j], Spent(c, run, states, 0, j))
  {
    if j == 0 {
      assert Accrued(c, 0) == 0.0;
    } else {
      BudgetKept(c, t0, run, states, j - 1);
      TokensBounded(c, t0, run, states, j - 1);
      BudgetStep(c, t0, states[j - 1], run[j - 1], Spent(c, run, states, 0, j - 1));
    }
  }

  lemma BudgetSpent(c: Config, t0: int, s: Snapshot, spent: nat, t: int)
    requires c.Sane() && WithinBudget(c, t0, s, spent) && 0.0 <= s.tokens && s.lastRefill <= t
    ensures spent as real <= c.maxTokens + Accrued(c, t - t0)
  {
    AccruedMonotone(c, s.lastRefill - t0, t - t0);
  }

  /** From construction on the bound is one token sharper. */
  lemma GrantsBoundedFromStart(c: Config, t0: int, run: seq<Timed>, states: seq<Snapshot>, j: nat)
    requires IsRun(c, t0, run, states) && 0 < j <= |run|
    requires forall k | 0 <= k < j :: run[k].event != Release
    ensures Spent(c, run, states, 0, j) as real <= c.maxTokens + Accrued(c, run[j - 1].now - t0)
  {
    TokensBounded(c, t0, run, states, j);
    BudgetKept(c, t0, run, states, j);
    BudgetSpent(c, t0, states[j], Spent(c, run, states, 0, j), run[j - 1].now);
  }

  /** Whether a refill at `now` would overflow the bucket. */
  predicate Capped(c: Config, s: Snapshot, now: int) {
    Accrued(c, now - s.lastRefill) >= 1.0 && s.tokens + Accrued(c, now - s.lastRefill).Floor as real > c.maxTokens
  }

  lemma RefillHalf(c: Config, s: Snapshot, now: int)
    requires c.Sane() && s.lastRefill <= now && !Capped(c, s, now)
    ensures var r := Refill(c, s, now);
            2.0 * (r.tokens - s.tokens) >= Accrued(c, r.lastRefill - s.lastRefill) && s.lastRefill <= r.lastRefill
  {
  }

  lemma StepCreditsHalf(c: Config, s: Snapshot, e: Timed)
    requires c.Sane() && e.event != Release && s.lastRefill <= e.now && !Capped(c, s, e.now)
    ensures var s' := Step(c, s, e);
            && 2.0 * (s'.tokens + Grants(c, s, e) as real - s.tokens) >= Accrued(c, s'.lastRefill - s.lastRefill)
            && s.lastRefill <= s'.lastRefill
  {
    GrantsLeaveBucket(c, s, e);
    RefillHalf(c, s, e.now);
  }

  lemma HalvesAdd(c: Config, a: int, b: int, p: real, q: real)
    requires 2.0 * p >= Accrued(c, a) && 2.0 * q >= Accrued(c, b)
    ensures 2.0 * (p + q) >= Accrued(c, a + b)
  {
    AccruedAdds(c, a, b);
  }

  /** Event `k` credits at least half of what accrues up to the refill it makes, if any. */
  ghost predicate CreditsHalf(c: Config, run: seq<Timed>, states: seq<Snapshot>, k: nat)
    requires k < |run| && |states| == |run| + 1
  {
    2.0 * (states[k + 1].tokens + Grants(c, states[k], run[k]) as real - states[k].tokens)
      >= Accrued(c, states[k + 1].lastRefill - states[k].lastRefill)
  }

  lemma {:induction false} HalvesSum(c: Config, run: seq<Timed>, states: seq<Snapshot>, i: nat, j: nat)
    requires i <= j <= |run| && |states| == |run| + 1
    requires forall k | i <= k < j :: CreditsHalf(c, run, states, k)
    ensures 2.0 * (states[j].tokens + Spent(c, run, states, i, j) as real - states[i].tokens)
         >= Accrued(c, states[j].lastRefill - states[i].lastRefill)
  {
    if j == i {
    } else {
      HalvesSum(c, run, states, i, j - 1);
      assert CreditsHalf(c, run, states, j - 1);
      var spent, more := Spent(c, run, states, i, j - 1), Grants(c, states[j - 1], run[j - 1]);
      HalvesAdd(c, states[j - 1].lastRefill - states[i].lastRefill, states[j].lastRefill - states[j - 1].lastRefill,
                states[j - 1].tokens + spent as real - states[i].tokens,
                states[j].tokens + more as real - states[j - 1].tokens);
      assert Spent(c, run, states, i, j) == spent + more;
    }
  }

  /** Event `k` is no release and does not overflow the bucket. */
  ghost predicate Uncapped(c: Config, run: seq<Timed>, states: seq<Snapshot>, k: nat)
    requires k < |run| && k < |states|
  {
    run[k].event != Release && !Capped(c, states[k], run[k].now)
  }

  /** In spite of the floor and of the dropped remainder, as long as no refill overflows the bucket
      at least half of what accrued is credited. */
  lemma HalfIsCredited(c: Config, t0: int, run: seq<Timed>, states: seq<Snapshot>, i: nat, j: nat)
    requires IsRun(c, t0, run, states) && i <= j <= |run|
    requires forall k | i <= k < j :: Uncapped(c, run, states, k)
    ensures 2.0 * (states[j].tokens + Spent(c, run, states, i, j) as real - states[i].tokens)
         >= Accrued(c, states[j].lastRefill - states[i].lastRefill)
  {
    forall k | i <= k < j ensures CreditsHalf(c, run, states, k) {
      assert Uncapped(c, run, states, k);
      TokensBounded(c, t0, run, states, k);
      StepCreditsHalf(c, states[k], run[k]);
    }
    HalvesSum(c, run, states, i, j);
  }

  /** Requests thrown out by `destroy` before event `i`, which counts them nowhere. */
  ghost function Dropped(run: seq<Timed>, states: seq<Snapshot>, i: nat): nat
    requires i <= |run| && |states| == |run| + 1
  {
    if i == 0 then 0
    else Dropped(run, states, i - 1) + DroppedBy(states[i - 1], run[i - 1])
  }

  /** Requests taken from the queue before event `i`. */
  ghost function Dequeued(c: Config, run: seq<Timed>, states: seq<Snapshot>, i: nat): nat
    requires i <= |run| && |states| == |run| + 1
  {
    if i == 0 then 0
    else
      Dequeued(c, run, states, i - 1)
      + (if run[i - 1].event == Tick then Grants(c, states[i - 1], run[i - 1]) else 0)
  }

  lemma {:induction false} WaitedIsDequeued(c: Config, t0: int, run: seq<Timed>, states: seq<Snapshot>, i: nat)
    requires IsRun(c, t0, run, states) && i <= |run|
    ensures states[i].totalWaited == Dequeued(c, run, states, i)
  {
    if i == 0 {
    } else {
      WaitedIsDequeued(c, t0, run, states, i - 1);
    }
  }

  lemma {:induction false} WithoutLength(queue: seq<Waiting>, id: nat)
    requires Holds(queue, id)
    ensures |Without(queue, id)| == |queue| - 1
  {
    if queue[0].id == id {
    } else {
      var k :| 0 <= k < |queue| && queue[k].id == id;
      assert queue[1..][k - 1].id == id;
      WithoutLength(queue[1..], id);
    }
  }

  function DroppedBy(s: Snapshot, e: Timed): nat { if e.event == Destroy then |s.queue| else 0 }

  lemma StepConserves(c: Config, s: Snapshot, e: Timed)
    requires Enabled(s, e.event) && |s.queue| <= MAX_QUEUE
    ensures var s' := Step(c, s, e);
            && s'.totalRequests - s'.totalRejected - |s'.queue|
            == s.totalRequests - s.totalRejected - |s.queue| + Grants(c, s, e) + DroppedBy(s, e)
            && |s'.queue| <= MAX_QUEUE
  {
    if e.event.Timeout? { WithoutLength(s.queue, e.event.id); }
  }

  /** Every request is accounted for exactly once: granted (at once or from the queue), rejected, still
      queued, or dropped by `destroy`; and never more than 100 wait. */
  lemma {:induction false} RequestsConserved(c: Config, t0: int, run: seq<Timed>, states: seq<Snapshot>, i: nat)
    requires IsRun(c, t0, run, states) && i <= |run|
    ensures states[i].totalRequests
         == Spent(c, run, states, 0, i) + states[i].totalRejected + |states[i].queue| + Dropped(run, states, i)
    ensures |states[i].queue| <= MAX_QUEUE
  {
    if i == 0 {
    } else {
      RequestsConserved(c, t0, run, states, i - 1);
      StepConserves(c, states[i - 1], run[i - 1]);
    }
  }

  /** Every request waits behind those that arrived before it. */
  predicate InOrder(queue: seq<Waiting>, nextId: nat) {
    && (forall k, l | 0 <= k < l < |queue| :: queue[k].id < queue[l].id)
    && (forall k | 0 <= k < |queue| :: queue[k].id < nextId)
  }

  lemma {:induction false} WithoutKeepsOrder(queue: seq<Waiting>, nextId: nat, id: nat)
    requires InOrder(queue, nextId)
    ensures InOrder(Without(queue, id), nextId) && forall w | w in Without(queue, id) :: w in queue
  {
    if queue == [] || queue[0].id == id {
    } else {
      WithoutKeepsOrder(queue[1..], nextId, id);
      var rest := Without(queue[1..], id);
      forall l | 0 <= l < |rest| ensures queue[0].id < rest[l].id { assert rest[l] in queue[1..]; }
    }
  }

  lemma AppendKeepsOrder(queue: seq<Waiting>, nextId: nat, now: int)
    requires InOrder(queue, nextId)
    ensures InOrder(queue + [Waiting(nextId, now)], nextId + 1)
  {
  }

  lemma DropKeepsOrder(queue: seq<Waiting>, nextId: nat, k: nat)
    requires k <= |queue| && InOrder(queue, nextId)
    ensures InOrder(queue[k..], nextId)
  {
  }

  lemma StepKeepsOrder(c: Config, s: Snapshot, e: Timed)
    requires InOrder(s.queue, s.nextId)
    ensures var s' := Step(c, s, e); InOrder(s'.queue, s'.nextId)
  {
    match e.event
    case Acquire => AppendKeepsOrder(s.queue, s.nextId, e.now);
    case Tick => DropKeepsOrder(s.queue, s.nextId, Servable(Refill(c, s, e.now)));
    case Timeout(id) => WithoutKeepsOrder(s.queue, s.nextId, id);
    case _ =>
  }

  /** The queue is first in, first out: it is ordered by arrival, and what a tick resolves is older
      than everything it leaves and everything still to come. */
  lemma {:induction false} QueueInOrder(c: Config, t0: int, run: seq<Timed>, states: seq<Snapshot>, i: nat)
    requires IsRun(c, t0, run, states) && i <= |run|
    ensures InOrder(states[i].queue, states[i].nextId)
  {
    if i == 0 {
    } else {
      QueueInOrder(c, t0, run, states, i - 1);
      StepKeepsOrder(c, states[i - 1], run[i - 1]);
    }
  }
}
