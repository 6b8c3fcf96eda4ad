/** `src/observability/anomaly.ts`: running statistics (Welford's recurrence) and the outlier flag.

    Numbers are reals. The square root is a parameter: all that is used of it is its defining
    property, so the flag can be stated without division or roots. The detector keeps such
    statistics for every bucket and metric; its methods are proved to keep them equal to the batch
    formulas over the samples of the bucket. */
module Anomaly {
  import opened Sublists

  datatype Stats = Stats(n: nat, mean: real, m2: real)

  const NO_STATS := Stats(0, 0.0, 0.0)

  function Update(s: Stats, value: real): Stats {
    var n := s.n + 1;
    var delta := value - s.mean;
    var mean := s.mean + delta / n as real;
    Stats(n, mean, s.m2 + delta * (value - mean))
  }

  /** The statistics after the samples `xs`, one at a time. */
  function After(xs: seq<real>): Stats {
    if xs == [] then NO_STATS else Update(After(xs[..|xs| - 1]), xs[|xs| - 1])
  }

  // ----- The batch formulas ----------------------------------------------------------------------

  function Sum(xs: seq<real>): real {
    if xs == [] then 0.0 else Sum(xs[..|xs| - 1]) + xs[|xs| - 1]
  }

  function Square(x: real): real { x * x }

  /** The sum of squared deviations of `xs` from `c`. */
  function Spread(xs: seq<real>, c: real): real {
    if xs == [] then 0.0 else Spread(xs[..|xs| - 1], c) + Square(xs[|xs| - 1] - c)
  }

  function Mean(xs: seq<real>): real {
    if xs == [] then 0.0 else Sum(xs) / |xs| as real
  }

  function Batch(xs: seq<real>): Stats {
    Stats(|xs|, Mean(xs), Spread(xs, Mean(xs)))
  }

  lemma Distributes(a: real, b: real, c: real)
    ensures a * (b + c) == a * b + a * c
  {
  }

  /** How a sum of squared deviations over `n` samples with sum `sum` moves with its centre. */
  function Shift(sum: real, n: real, c: real, e: real): real {
    n * (e * e) - 2.0 * e * (sum - n * c)
  }

  lemma ShiftAdds(sum: real, n: real, x: real, c: real, e: real)
    ensures Shift(sum + x, n + 1.0, c, e) == Shift(sum, n, c, e) + Shift(x, 1.0, c, e)
  {
    Distributes(c, n, 1.0);
    Distributes(e * e, n, 1.0);
    Distributes(2.0 * e, sum - n * c, x - c);
  }

  lemma SquareShifts(x: real, c: real, e: real)
    ensures Square(x - (c + e)) == Square(x - c) + Shift(x, 1.0, c, e)
  {
    var y := x - c;
    assert (y - e) * (y - e) == y * y - 2.0 * e * y + e * e;
  }

  lemma {:induction false} SpreadShifts(xs: seq<real>, c: real, e: real)
    ensures Spread(xs, c + e) == Spread(xs, c) + Shift(Sum(xs), |xs| as real, c, e)
  {
    if xs == [] {
    } else {
      var ys, x := xs[..|xs| - 1], xs[|xs| - 1];
      SpreadShifts(ys, c, e);
      SquareShifts(x, c, e);
      ShiftAdds(Sum(ys), |ys| as real, x, c, e);
    }
  }

  lemma {:induction false} SpreadNonNegative(xs: seq<real>, c: real)
    ensures Spread(xs, c) >= 0.0
  {
    if xs == [] {
    } else {
      SpreadNonNegative(xs[..|xs| - 1], c);
      assert forall d :: Square(d) >= 0.0;
    }
  }

  lemma StepArithmetic(k: real, mean: real, value: real, e: real)
    requires (k + 1.0) * e == value - mean
    ensures value - (mean + e) == k * e
    ensures (value - mean) * (k * e) == k * (e * e) + Square(k * e)
    ensures (k + 1.0) * (mean + e) == k * mean + value
  {
    var f := k * e;
    Distributes(e, k, 1.0);
    Distributes(f, f, e);
    Distributes(k + 1.0, mean, e);
    assert e * (k * e) == k * (e * e);
  }

  /** One step moves the mean by `e` and adds to `m2` what moving the centre and the new sample add. */
  lemma UpdateEffect(s: Stats, sum: real, value: real) returns (e: real)
    requires s.n as real * s.mean == sum
    ensures var s' := Update(s, value);
            && s'.mean == s.mean + e
            && s'.n as real * s'.mean == sum + value
            && s'.m2 == s.m2 + Shift(sum, s.n as real, s.mean, e) + Square(value - s'.mean)
  {
    var k := s.n as real;
    e := (value - s.mean) / (k + 1.0);
    StepArithmetic(k, s.mean, value, e);
    assert Shift(sum, k, s.mean, e) == k * (e * e);
  }

  lemma MeanIs(xs: seq<real>, mean: real)
    requires |xs| as real * mean == Sum(xs) && (xs == [] ==> mean == 0.0)
    ensures Mean(xs) == mean
  {
  }

  /** The batch statistics of `ys` and one more sample, put together from parts. */
  lemma FitsIsBatch(ys: seq<real>, x: real, s': Stats)
    requires Fits(ys, x, s')
    ensures s' == Batch(ys + [x])
  {
    var xs := ys + [x];
    assert xs[..|xs| - 1] == ys;
    MeanIs(xs, s'.mean);
  }

  lemma BatchMean(xs: seq<real>)
    ensures |xs| as real * Mean(xs) == Sum(xs)
  {
  }

  /** The parts of the statistics after one more sample, seen from the samples. */
  ghost predicate Fits(ys: seq<real>, x: real, s': Stats) {
    && s'.n == |ys| + 1 && s'.n as real * s'.mean == Sum(ys) + x
    && s'.m2 == Spread(ys, s'.mean) + Square(x - s'.mean)
  }

  lemma UpdateFits(ys: seq<real>, x: real)
    ensures Fits(ys, x, Update(Batch(ys), x))
  {
    BatchMean(ys);
    var e := UpdateEffect(Batch(ys), Sum(ys), x);
    SpreadShifts(ys, Mean(ys), e);
  }

  lemma UpdateIsBatch(ys: seq<real>, x: real)
    ensures Update(Batch(ys), x) == Batch(ys + [x])
  {
    UpdateFits(ys, x);
    FitsIsBatch(ys, x, Update(Batch(ys), x));
  }

  /** Welford's recurrence computes the batch formulas. */
  lemma {:induction false} WelfordIsBatch(xs: seq<real>)
    ensures After(xs) == Batch(xs)
  {
    if xs == [] {
    } else {
      var ys, x := xs[..|xs| - 1], xs[|xs| - 1];
      WelfordIsBatch(ys);
      UpdateIsBatch(ys, x);
      assert ys + [x] == xs;
    }
  }

  /** The count times the mean is the sum, and `m2` the sum of squared deviations from the mean. */
  ghost predicate SumsUp(s: Stats, xs: seq<real>) {
    && s.n == |xs| && s.n as real * s.mean == Sum(xs)
    && s.m2 == Spread(xs, s.mean) >= 0.0
  }

  lemma BatchSums(xs: seq<real>)
    ensures SumsUp(Batch(xs), xs)
  {
    BatchMean(xs);
    SpreadNonNegative(xs, Mean(xs));
  }

  /** The recurrence keeps the sum and the spread around the final mean. */
  lemma WelfordSums(xs: seq<real>)
    ensures SumsUp(After(xs), xs)
  {
    WelfordIsBatch(xs);
    BatchSums(xs);
  }

  // ----- Order -----------------------------------------------------------------------------------

  lemma SpreadSnoc(xs: seq<real>, x: real, c: real)
    ensures Spread(xs + [x], c) == Spread(xs, c) + Square(x - c)
  {
    assert (xs + [x])[..|xs|] == xs;
  }

  lemma {:induction false} SpreadRemove(xs: seq<real>, j: nat, c: real)
    requires j < |xs|
    ensures Spread(xs, c) == Spread(xs[..j] + xs[j + 1..], c) + Square(xs[j] - c)
  {
    var ys, x := xs[..|xs| - 1], xs[|xs| - 1];
    assert xs == ys + [x];
    SpreadSnoc(ys, x, c);
    if j == |ys| {
      assert xs[..j] + xs[j + 1..] == ys;
    } else {
      var less := ys[..j] + ys[j + 1..];
      SpreadRemove(ys, j, c);
      SpreadSnoc(less, x, c);
      assert xs[..j] + xs[j + 1..] == less + [x];
    }
  }

  lemma WithoutAt(xs: seq<real>, j: nat)
    requires j < |xs|
    ensures multiset(xs[..j] + xs[j + 1..]) == multiset(xs) - multiset{xs[j]}
  {
    assert xs == xs[..j] + ([xs[j]] + xs[j + 1..]);
  }

  /** The last of `xs` occurs in any rearrangement `ys`, and without it they are still rearrangements. */
  lemma RemoveLast(xs: seq<real>, ys: seq<real>) returns (j: nat)
    requires multiset(xs) == multiset(ys) && xs != []
    ensures j < |ys| && ys[j] == xs[|xs| - 1]
    ensures multiset(xs[..|xs| - 1]) == multiset(ys[..j] + ys[j + 1..])
  {
    var n := |xs| - 1;
    assert xs[n] in multiset(xs);
    j :| j < |ys| && ys[j] == xs[n];
    WithoutAt(xs, n);
    WithoutAt(ys, j);
    assert xs[..n] + xs[n + 1..] == xs[..n];
  }

  lemma {:induction false} SpreadPermutes(xs: seq<real>, ys: seq<real>, c: real)
    requires multiset(xs) == multiset(ys)
    ensures |xs| == |ys| && Spread(xs, c) == Spread(ys, c)
  {
    assert |xs| == |multiset(xs)| == |ys|;
    if xs == [] {
    } else {
      var j := RemoveLast(xs, ys);
      SpreadPermutes(xs[..|xs| - 1], ys[..j] + ys[j + 1..], c);
      SpreadRemove(ys, j, c);
    }
  }

  /** The running statistics do not depend on the order of the samples. */
  lemma OrderDoesNotMatter(xs: seq<real>, ys: seq<real>)
    requires multiset(xs) == multiset(ys)
    ensures After(xs) == After(ys)
  {
    WelfordIsBatch(xs);
    WelfordIsBatch(ys);
    SpreadPermutes(xs, ys, 0.0);
    SpreadPermutes(xs, ys, 1.0);
    SpreadShifts(xs, 0.0, 1.0);
    SpreadShifts(ys, 0.0, 1.0);
    SpreadPermutes(xs, ys, Mean(xs));
  }

  // ----- The flag --------------------------------------------------------------------------------

  datatype Config = Config(enabled: bool, threshold: real, minSamples: int, maxHistory: int)

  datatype Metric = Latency | ResultSize

  datatype Event = Event(
    server: string, tool: string, metric: Metric, value: real,
    mean: real, stdDev: real, zScore: real, time: int)

  ghost predicate IsSquareRoot(sqrt: real -> real) {
    forall x | x >= 0.0 :: sqrt(x) >= 0.0 && Square(sqrt(x)) == x
  }

  function Abs(x: real): real { if x < 0.0 then -x else x }

  function StdDev(sqrt: real -> real, s: Stats): real {
    if s.n < 2 then 0.0 else sqrt(s.m2 / (s.n - 1) as real)
  }

  /** The event for `value` against the statistics before it, if it is flagged. */
  function Alarm(
    c: Config, sqrt: real -> real, s: Stats, server: string, tool: string, m: Metric, value: real, time: int)
    : seq<Event>
  {
    var sd := StdDev(sqrt, s);
    if s.n >= c.minSamples && sd > 0.0 then
      var z := Abs((value - s.mean) / sd);
      if z > c.threshold then [Event(server, tool, m, value, s.mean, sd, z, time)] else []
    else []
  }

  lemma SquaresOrder(a: real, b: real)
    requires a >= 0.0 && b >= 0.0
    ensures a > b <==> Square(a) > Square(b)
  {
    if a > b {
      assert Square(a) > a * b;
      assert a * b >= Square(b);
    } else {
      assert Square(a) <= a * b;
      assert a * b <= Square(b);
    }
  }

  lemma QuotientAbove(d: real, sd: real, threshold: real)
    requires sd > 0.0 && threshold >= 0.0
    ensures Abs(d / sd) > threshold <==> Square(d) > Square(threshold * sd)
  {
    var q := d / sd;
    assert d == q * sd;
    assert Abs(d) == Abs(q) * sd;
    assert Abs(q) > threshold <==> Abs(q) * sd > threshold * sd;
    SquaresOrder(Abs(d), threshold * sd);
  }

  /** `value` lies outside `xs`: what the flag means, without roots and divisions. */
  predicate Outlier(c: Config, xs: seq<real>, value: real) {
    Outlying(c, Batch(xs), value)
  }

  predicate Outlying(c: Config, s: Stats, value: real) {
    && s.n >= c.minSamples && s.n >= 2 && s.m2 > 0.0
    && (c.threshold < 0.0 || Square(value - s.mean) * (s.n - 1) as real > Square(c.threshold) * s.m2)
  }

  lemma SquareOfProduct(a: real, b: real)
    ensures Square(a * b) == Square(a) * Square(b)
  {
    var ab := a * b;
    assert ab * ab == a * (b * ab) && b * ab == a * (b * b) && a * (a * (b * b)) == (a * a) * (b * b);
  }

  lemma ScaleOrder(a: real, b: real, k: real)
    requires k > 0.0
    ensures a > b <==> a * k > b * k
  {
  }

  lemma DeviationPositive(sd: real, m2: real, k: real)
    requires sd >= 0.0 && k > 0.0 && Square(sd) * k == m2
    ensures sd > 0.0 <==> m2 > 0.0
  {
    SquaresOrder(sd, 0.0);
    ScaleOrder(Square(sd), 0.0, k);
  }

  lemma AboveThreshold(d: real, m2: real, k: real, sd: real, threshold: real)
    requires k > 0.0 && sd > 0.0 && Square(sd) * k == m2 && threshold >= 0.0
    ensures Abs(d / sd) > threshold <==> Square(d) * k > Square(threshold) * m2
  {
    QuotientAbove(d, sd, threshold);
    SquareOfProduct(threshold, sd);
    var a, t, v := Square(d), Square(threshold), Square(sd);
    ScaleOrder(a, t * v, k);
    assert (t * v) * k == t * (v * k);
  }

  lemma StdDevIs(sqrt: real -> real, s: Stats)
    requires IsSquareRoot(sqrt) && s.n >= 2 && s.m2 >= 0.0
    ensures StdDev(sqrt, s) >= 0.0 && Square(StdDev(sqrt, s)) * (s.n - 1) as real == s.m2
  {
    var v := s.m2 / (s.n - 1) as real;
    assert v >= 0.0 && v * (s.n - 1) as real == s.m2;
  }

  /** The flag without roots and divisions. */
  lemma AlarmExactly(
    c: Config, sqrt: real -> real, s: Stats, server: string, tool: string, m: Metric, value: real, time: int)
    requires IsSquareRoot(sqrt) && s.m2 >= 0.0
    ensures Alarm(c, sqrt, s, server, tool, m, value, time) != [] <==> Outlying(c, s, value)
  {
    if s.n >= 2 {
      var k, sd := (s.n - 1) as real, StdDev(sqrt, s);
      StdDevIs(sqrt, s);
      DeviationPositive(sd, s.m2, k);
      if sd > 0.0 && c.threshold >= 0.0 { AboveThreshold(value - s.mean, s.m2, k, sd, c.threshold); }
    }
  }

  /** A sample is flagged exactly when its squared distance from the mean of the samples before it
      exceeds the threshold squared times their sample variance. */
  lemma FlaggedExactly(
    c: Config, sqrt: real -> real, xs: seq<real>, server: string, tool: string, m: Metric, value: real, time: int)
    requires IsSquareRoot(sqrt)
    ensures Alarm(c, sqrt, After(xs), server, tool, m, value, time) != [] <==> Outlier(c, xs, value)
  {
    WelfordIsBatch(xs);
    BatchSums(xs);
    AlarmExactly(c, sqrt, Batch(xs), server, tool, m, value, time);
  }

  /** What an event says: the mean and the deviation of the samples before, and how many deviations the
      value lies from that mean. */
  ghost predicate Reports(e: Event, threshold: real, s: Stats, m: Metric, value: real) {
    && e.metric == m && e.value == value && e.mean == s.mean
    && e.stdDev > 0.0 && Square(e.stdDev) * (s.n - 1) as real == s.m2
    && e.zScore * e.stdDev == Abs(value - s.mean) && e.zScore > threshold
  }

  lemma QuotientTimes(d: real, sd: real)
    requires sd > 0.0
    ensures Abs(d / sd) * sd == Abs(d)
  {
    var q := d / sd;
    assert q * sd == d;
  }

  lemma AlarmReports(
    c: Config, sqrt: real -> real, s: Stats, server: string, tool: string, m: Metric, value: real, time: int)
    requires IsSquareRoot(sqrt) && s.m2 >= 0.0 && Alarm(c, sqrt, s, server, tool, m, value, time) != []
    ensures var es := Alarm(c, sqrt, s, server, tool, m, value, time);
            && |es| == 1 && Reports(es[0], c.threshold, s, m, value)
            && es[0].server == server && es[0].tool == tool && es[0].time == time
  {
    StdDevIs(sqrt, s);
    QuotientTimes(value - s.mean, StdDev(sqrt, s));
  }

  lemma EventReports(
    c: Config, sqrt: real -> real, xs: seq<real>, server: string, tool: string, m: Metric, value: real, time: int)
    requires IsSquareRoot(sqrt) && Outlier(c, xs, value)
    ensures var es := Alarm(c, sqrt, After(xs), server, tool, m, value, time);
            && |es| == 1 && Reports(es[0], c.threshold, Batch(xs), m, value)
            && es[0].server == server && es[0].tool == tool && es[0].time == time
  {
    FlaggedExactly(c, sqrt, xs, server, tool, m, value, time);
    WelfordIsBatch(xs);
    SpreadNonNegative(xs, Mean(xs));
    AlarmReports(c, sqrt, Batch(xs), server, tool, m, value, time);
  }

  // ----- The detector ----------------------------------------------------------------------------

  datatype Sample = Sample(server: string, tool: string, latency: real, size: real, time: int)

  function BucketKey(server: string, tool: string): string { server + "::" + tool }

  /** Some tools of the two servers have one key. */
  ghost predicate ShareBucket(server: string, server': string) {
    exists tool, tool' :: BucketKey(server, tool) == BucketKey(server', tool')
  }

  lemma KeyPrefix(server: string, tool: string)
    ensures server + "::" <= BucketKey(server, tool) && BucketKey(server, tool)[|server| + 2..] == tool
  {
  }

  lemma ExtensionShares(server: string, server': string)
    requires server + "::" <= server' + "::"
    ensures ShareBucket(server, server')
  {
    var tool := (server' + "::")[|server| + 2..];
    assert server' + "::" == server + "::" + tool;
    assert BucketKey(server, tool) == BucketKey(server', "");
  }

  /** Tools of two servers can share a bucket exactly when one server name, followed by the separator, begins
      with the other; so different names without a colon never do. */
  lemma BucketsShareExactly(server: string, server': string)
    ensures ShareBucket(server, server') <==> server + "::" <= server' + "::" || server' + "::" <= server + "::"
    ensures ':' !in server && ':' !in server' && server != server' ==> !ShareBucket(server, server')
  {
    var a, b := server + "::", server' + "::";
    if tool, tool' :| BucketKey(server, tool) == BucketKey(server', tool') {
      KeyPrefix(server, tool);
      KeyPrefix(server', tool');
      assert if |a| <= |b| then a <= b else b <= a;
    }
    if a <= b { ExtensionShares(server, server'); }
    if b <= a {
      ExtensionShares(server', server);
      var tool', tool :| BucketKey(server', tool') == BucketKey(server, tool);
      assert BucketKey(server, tool) == BucketKey(server', tool');
    }
    if ':' !in server && ':' !in server' && (a <= b || b <= a) {
      if a <= b { NamesCompared(server, server'); } else { NamesCompared(server', server); }
    }
  }

  lemma NamesCompared(server: string, server': string)
    requires ':' !in server' && server + "::" <= server' + "::"
    ensures server == server'
  {
    var b := server' + "::";
    assert b[|server|] == ':';
    assert forall i | 0 <= i < |server'| :: b[i] == server'[i];
    assert |server| >= |server'|;
    assert server == b[..|server|];
  }

  /** Tools of one server never share a bucket. */
  lemma ToolsSeparate(server: string, tool: string, tool': string)
    ensures BucketKey(server, tool) == BucketKey(server, tool') <==> tool == tool'
  {
    KeyPrefix(server, tool);
    KeyPrefix(server, tool');
  }

  function ValueOf(x: Sample, m: Metric): real { if m.Latency? then x.latency else x.size }

  ghost predicate NoSamples(h: seq<Sample>, key: string) {
    forall m :: Values(h, key, m) == []
  }

  function KeyOf(x: Sample): string { BucketKey(x.server, x.tool) }

  /** The samples of one bucket and metric, oldest first. */
  function Values(h: seq<Sample>, key: string, m: Metric): seq<real> {
    if h == [] then []
    else
      var x := h[|h| - 1];
      Values(h[..|h| - 1], key, m) + (if KeyOf(x) == key then [ValueOf(x, m)] else [])
  }

  function BucketAt(h: seq<Sample>, key: string): set<nat> {
    set i: nat | i < |h| && h[i].server + "::" + h[i].tool == key
  }

  /** That is, the values of the samples with that key, all of them and in order. */
  lemma {:induction false} ValuesAre(h: seq<Sample>, key: string, m: Metric)
    ensures var own := Pick(h, BucketAt(h, key));
            && |Values(h, key, m)| == |own|
            && forall j | 0 <= j < |own| ::
                 Values(h, key, m)[j] == match m { case Latency => own[j].latency case ResultSize => own[j].size }
  {
    if h == [] {
    } else {
      var front, x := h[..|h| - 1], h[|h| - 1];
      assert h == front + [x];
      ValuesAre(front, key, m);
      PickNext(front, x, BucketAt(front, key), BucketAt(h, key));
    }
  }

  /** The flag of sample `x` after `h` for one metric, by the batch formulas. */
  function AlarmFor(c: Config, sqrt: real -> real, h: seq<Sample>, x: Sample, m: Metric): seq<Event> {
    Alarm(c, sqrt, Batch(Values(h, KeyOf(x), m)), x.server, x.tool, m, ValueOf(x, m), x.time)
  }

  /** What is recorded of one metric of a sample: one event exactly if its value is an outlier of the samples before
      it in its bucket, and that event reports it. */
  lemma AlarmForIs(c: Config, sqrt: real -> real, h: seq<Sample>, x: Sample, m: Metric)
    requires IsSquareRoot(sqrt)
    ensures var (es, before) := (AlarmFor(c, sqrt, h, x, m), Values(h, x.server + "::" + x.tool, m));
            var value := if m.Latency? then x.latency else x.size;
            && |es| <= 1 && (|es| == 1 <==> Outlier(c, before, value))
            && (|es| == 1 ==> Reports(es[0], c.threshold, Batch(before), m, value)
                              && es[0].server == x.server && es[0].tool == x.tool && es[0].time == x.time)
  {
    var before, value := Values(h, KeyOf(x), m), ValueOf(x, m);
    FlaggedExactly(c, sqrt, before, x.server, x.tool, m, value, x.time);
    WelfordIsBatch(before);
    if Outlier(c, before, value) { EventReports(c, sqrt, before, x.server, x.tool, m, value, x.time); }
  }

  lemma RetainedThrough(es: seq<Event>, more: seq<Event>, limit: int)
    ensures Retained(Retained(es, limit) + more, limit) == Retained(es + more, limit)
  {
    if 0 < limit < |es| {
      assert (es[|es| - limit..] + more)[|more|..] == (es + more)[|es| + |more| - limit..];
    }
  }

  /** `kept` are the latest of `es`, at most `limit`. */
  predicate Latest(kept: seq<Event>, es: seq<Event>, limit: int) {
    kept == if limit <= 0 then [] else if |es| <= limit then es else es[|es| - limit..]
  }

  lemma RecordedLatest(c: Config, sqrt: real -> real, h: seq<Sample>, x: Sample, kept: seq<Event>)
    requires kept == Retained(Alarms(c, sqrt, h), c.maxHistory)
    ensures Latest(Retained(Alarms(c, sqrt, h + [x]), c.maxHistory),
                   kept + (AlarmFor(c, sqrt, h, x, Latency) + AlarmFor(c, sqrt, h, x, ResultSize)), c.maxHistory)
  {
    var all, a, b := Alarms(c, sqrt, h), AlarmFor(c, sqrt, h, x, Latency), AlarmFor(c, sqrt, h, x, ResultSize);
    AlarmsGrow(c, sqrt, h, x);
    RetainedThrough(all, a + b, c.maxHistory);
    assert all + (a + b) == all + a + b;
  }

  /** Every event of the history `h`, in order. */
  function Alarms(c: Config, sqrt: real -> real, h: seq<Sample>): seq<Event> {
    if h == [] then []
    else
      var before, x := h[..|h| - 1], h[|h| - 1];
      Alarms(c, sqrt, before) + AlarmFor(c, sqrt, before, x, Latency) + AlarmFor(c, sqrt, before, x, ResultSize)
  }

  function Retained(es: seq<Event>, limit: int): seq<Event> {
    if limit <= 0 then [] else if |es| <= limit then es else es[|es| - limit..]
  }

  lemma UpdateBatch(h: seq<Sample>, x: Sample, key: string, m: Metric)
    ensures Batch(Values(h + [x], key, m)) ==
            if KeyOf(x) == key then Update(Batch(Values(h, key, m)), ValueOf(x, m)) else Batch(Values(h, key, m))
  {
    assert (h + [x])[..|h|] == h;
    UpdateIsBatch(Values(h, key, m), ValueOf(x, m));
    assert Values(h, key, m) + [] == Values(h, key, m);
  }

  lemma OtherBucket(h: seq<Sample>, x: Sample, key: string)
    requires KeyOf(x) != key
    ensures forall m :: Values(h + [x], key, m) == Values(h, key, m)
  {
    assert (h + [x])[..|h|] == h;
  }

  lemma AlarmsGrow(c: Config, sqrt: real -> real, h: seq<Sample>, x: Sample)
    ensures Alarms(c, sqrt, h + [x])
         == Alarms(c, sqrt, h) + AlarmFor(c, sqrt, h, x, Latency) + AlarmFor(c, sqrt, h, x, ResultSize)
  {
    assert (h + [x])[..|h|] == h;
  }

  class RunningStats {
    ghost const key: string
    ghost const metric: Metric
    var n: nat
    var mean: real
    var m2: real

    ghost function State(): Stats reads this { Stats(n, mean, m2) }

    constructor (ghost key: string, ghost metric: Metric)
      ensures State() == NO_STATS && this.key == key && this.metric == metric
    {
      n, mean, m2 := 0, 0.0, 0.0;
      this.key, this.metric := key, metric;
    }

    method UpdateStats(value: real)
      modifies this
      ensures State() == Update(old(State()), value)
    {
      n := n + 1;
      var delta := value - mean;
      mean := mean + delta / n as real;
      var delta2 := value - mean;
      m2 := m2 + delta * delta2;
    }
  }

  datatype BucketStats = BucketStats(latency: RunningStats, resultSize: RunningStats)

  class AnomalyDetector {
    const config: Config
    const sqrt: real -> real
    var stats: map<string, BucketStats>
    var anomalies: seq<Event>
    ghost var history: seq<Sample>
    ghost var repr: set<RunningStats>

    ghost predicate BucketFine(key: string)
      requires key in stats
      reads this`stats, this`history, this`repr, repr
    {
      var b := stats[key];
      && b.latency in repr && b.latency.key == key && b.latency.metric == Latency
      && b.latency.State() == Batch(Values(history, key, Latency))
      && b.resultSize in repr && b.resultSize.key == key && b.resultSize.metric == ResultSize
      && b.resultSize.State() == Batch(Values(history, key, ResultSize))
    }

    /** Every bucket holds the batch statistics of its samples, and the events kept are the latest. */
    ghost predicate Valid()
      reads this, repr
    {
      && IsSquareRoot(sqrt)
      && (forall key | key in stats :: BucketFine(key))
      && (forall key | key !in stats :: NoSamples(history, key))
      && anomalies == Retained(Alarms(config, sqrt, history), config.maxHistory)
    }

    constructor (config: Config, sqrt: real -> real)
      requires IsSquareRoot(sqrt)
      ensures Valid() && history == [] && this.config == config && this.sqrt == sqrt
    {
      this.config, this.sqrt := config, sqrt;
      stats, anomalies, history, repr := map[], [], [], {};
    }

    method GetOrCreateBucket(server: string, tool: string) returns (b: BucketStats)
      requires Valid()
      modifies this
      ensures Valid() && history == old(history) && fresh(repr - old(repr)) && old(repr) <= repr
      ensures BucketKey(server, tool) in stats && b == stats[BucketKey(server, tool)]
    {
      var key := BucketKey(server, tool);
      if key !in stats {
        var latency := new RunningStats(key, Latency);
        var resultSize := new RunningStats(key, ResultSize);
        stats := stats[key := BucketStats(latency, resultSize)];
        repr := repr + {latency, resultSize};
        assert Batch([]) == NO_STATS;
      }
      b := stats[key];
    }

    method CheckAndRecord(
      server: string, tool: string, m: Metric, value: real, entry: RunningStats, now: int, ghost all: seq<Event>)
      requires anomalies == Retained(all, config.maxHistory)
      modifies this`anomalies
      ensures anomalies
           == Retained(all + Alarm(config, sqrt, entry.State(), server, tool, m, value, now), config.maxHistory)
    {
      var sd := if entry.n < 2 then 0.0 else sqrt(entry.m2 / (entry.n - 1) as real);
      if entry.n >= config.minSamples && sd > 0.0 {
        var zScore := Abs((value - entry.mean) / sd);
        if zScore > config.threshold {
          anomalies := anomalies + [Event(server, tool, m, value, entry.mean, sd, zScore, now)];
          if |anomalies| > config.maxHistory { anomalies := anomalies[1..]; }
        }
      }
    }

    /** Both metrics of `x` are compared with the samples before it. */
    method Judge(x: Sample, b: BucketStats)
      requires KeyOf(x) in stats && b == stats[KeyOf(x)] && BucketFine(KeyOf(x))
      requires anomalies == Retained(Alarms(config, sqrt, history), config.maxHistory)
      modifies this`anomalies
      ensures anomalies == Retained(Alarms(config, sqrt, history + [x]), config.maxHistory)
      ensures Latest(anomalies, old(anomalies) + (AlarmFor(config, sqrt, history, x, Latency)
                                                  + AlarmFor(config, sqrt, history, x, ResultSize)), config.maxHistory)
    {
      RecordedLatest(config, sqrt, history, x, anomalies);
      ghost var all := Alarms(config, sqrt, history);
      CheckAndRecord(x.server, x.tool, Latency, x.latency, b.latency, x.time, all);
      all := all + AlarmFor(config, sqrt, history, x, Latency);
      CheckAndRecord(x.server, x.tool, ResultSize, x.size, b.resultSize, x.time, all);
      AlarmsGrow(config, sqrt, history, x);
    }

    /** Both metrics of `x` join the statistics of its bucket. */
    method Learn(x: Sample)
      requires KeyOf(x) in stats && forall key | key in stats :: BucketFine(key)
      modifies repr, this`history
      ensures history == old(history) + [x]
      ensures forall key | key in stats :: BucketFine(key)
    {
      var b := stats[KeyOf(x)];
      assert BucketFine(KeyOf(x));
      ghost var before := history;
      b.latency.UpdateStats(x.latency);
      b.resultSize.UpdateStats(x.size);
      history := history + [x];
      forall key | key in stats ensures BucketFine(key) {
        UpdateBatch(before, x, key, Latency);
        UpdateBatch(before, x, key, ResultSize);
        assert old(BucketFine(key));
      }
    }

    /** A sample joins its bucket after it was judged against the samples before it. */
    method Record(x: Sample)
      requires Valid()
      modifies this, repr
      ensures Valid() && fresh(repr - old(repr))
      ensures history == if config.enabled then old(history) + [x] else old(history)
      ensures !config.enabled ==> anomalies == old(anomalies)
      ensures config.enabled ==>
                Latest(anomalies, old(anomalies) + (AlarmFor(config, sqrt, old(history), x, Latency)
                                                    + AlarmFor(config, sqrt, old(history), x, ResultSize)),
                       config.maxHistory)
    {
      if !config.enabled { return; }
      var b := GetOrCreateBucket(x.server, x.tool);
      ghost var before := history;
      Judge(x, b);
      Learn(x);
      forall key | key !in stats ensures NoSamples(history, key) {
        assert NoSamples(before, key);
        OtherBucket(before, x, key);
      }
    }

    method Reset()
      requires Valid()
      modifies this
      ensures Valid() && history == [] && anomalies == []
    {
      stats, anomalies, history := map[], [], [];
    }
  }
}
