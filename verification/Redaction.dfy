/** What a call of `tokenize` does, told without the functions that compute it: which text replaces
    which, leaf by leaf and matcher by matcher, and how the tokens are numbered. */
module Redaction {
  import opened Json
  import opened Sublists
  import opened Tokenize

  /** A hit, in the order in which the matchers meet it. */
  datatype Find = Find(tag: Text, literal: Text)

  function Joined(ts: seq<Text>): Text {
    if ts == [] then [] else Joined(ts[..|ts| - 1]) + ts[|ts| - 1]
  }

  function Gather(logs: seq<seq<Find>>): seq<Find> {
    if logs == [] then [] else Gather(logs[..|logs| - 1]) + logs[|logs| - 1]
  }

  function Hits(tag: Text, segs: seq<Segment>): seq<Find> {
    if segs == [] then []
    else
      var last := segs[|segs| - 1];
      Hits(tag, segs[..|segs| - 1]) + (if last.Hit? then [Find(tag, last.text)] else [])
  }

  // ----- The relation ---------------------------------------------------------------------------

  /** Plain segments stay and every hit becomes a token that stands for it. */
  ghost predicate Replaced(segs: seq<Segment>, outs: seq<Text>, reverseMap: map<Text, Text>) {
    && |outs| == |segs|
    && forall i | 0 <= i < |segs| ::
         if segs[i].Hit? then outs[i] in reverseMap && reverseMap[outs[i]] == segs[i].text
         else outs[i] == segs[i].text
  }

  ghost predicate PassOf(m: Matcher, t: Text, t': Text, reverseMap: map<Text, Text>) {
    exists outs :: Replaced(m.find(t), outs, reverseMap) && t' == Joined(outs)
  }

  /** Each matcher works on what the one before it left. */
  ghost predicate Passes(ms: seq<Matcher>, texts: seq<Text>, reverseMap: map<Text, Text>) {
    |texts| == |ms| + 1 && forall k | 0 <= k < |ms| :: PassOf(ms[k], texts[k], texts[k + 1], reverseMap)
  }

  /** The hits of the first `i` matchers. */
  function Met(ms: seq<Matcher>, texts: seq<Text>, i: nat): seq<Find>
    requires i <= |ms| && i <= |texts|
  {
    if i == 0 then [] else Met(ms, texts, i - 1) + Hits(ms[i - 1].tag, ms[i - 1].find(texts[i - 1]))
  }

  ghost predicate LeafRedacted(s: Text, r: Text, ms: seq<Matcher>, reverseMap: map<Text, Text>, log: seq<Find>) {
    exists texts ::
      Passes(ms, texts, reverseMap) && texts[0] == s && texts[|ms|] == r && log == Met(ms, texts, |ms|)
  }

  /** The positions of the members that are kept. */
  function KeptAt(os: seq<Member>): set<nat> { set i: nat | i < |os| && os[i].key != PROTO }

  /** `r` is `v` with its leaves redacted, in the same shape except for `__proto__` members, and `log` are the hits
      in the order of the walk, those under `__proto__` included. */
  ghost predicate RedactedAs(v: Value, r: Value, ms: seq<Matcher>, reverseMap: map<Text, Text>, log: seq<Find>)
    decreases v
  {
    match v
    case String(s) => r.String? && LeafRedacted(s, r.s, ms, reverseMap, log)
    case Array(items) =>
      && r.Array? && |r.items| == |items|
      && exists logs: seq<seq<Find>> :: |logs| == |items| && log == Gather(logs) &&
           forall i | 0 <= i < |items| :: RedactedAs(items[i], r.items[i], ms, reverseMap, logs[i])
    case Object(os) =>
      && r.Object?
      && exists rs: seq<Member>, logs: seq<seq<Find>> ::
           && |rs| == |logs| == |os| && log == Gather(logs) && r.members == Pick(rs, KeptAt(os))
           && forall i | 0 <= i < |os| ::
                rs[i].key == os[i].key && RedactedAs(os[i].value, rs[i].value, ms, reverseMap, logs[i])
    case _ => r == v && log == []
  }

  // ----- The numbering ------------------------------------------------------------------------------

  ghost predicate IsFirst(log: seq<Find>, i: nat)
    requires i < |log|
  {
    forall j | 0 <= j < i :: log[j].literal != log[i].literal
  }

  /** The literals first met before position `n` by a matcher of label `tag`. */
  ghost function FirstMet(log: seq<Find>, tag: Text, n: nat): set<nat>
    requires n <= |log|
  {
    set j: nat | j < n && log[j].tag == tag && IsFirst(log, j)
  }

  ghost function TokenAt(log: seq<Find>, i: nat): Text
    requires i < |log|
  {
    Token(log[i].tag, |FirstMet(log, log[i].tag, i)| + 1)
  }

  ghost predicate TokenFits(log: seq<Find>, i: nat, reverseMap: map<Text, Text>)
    requires i < |log|
  {
    IsFirst(log, i) ==> TokenAt(log, i) in reverseMap && reverseMap[TokenAt(log, i)] == log[i].literal
  }

  ghost predicate TokenComesFrom(log: seq<Find>, i: nat, t: Text) {
    i < |log| && IsFirst(log, i) && t == TokenAt(log, i)
  }

  /** Every literal met has one token: the label of the matcher that met it first, and a number one higher than
      the literals that label met first before it. There are no other tokens. */
  ghost predicate NumberedBy(log: seq<Find>, reverseMap: map<Text, Text>) {
    && (forall i | 0 <= i < |log| :: TokenFits(log, i, reverseMap))
    && (forall t | t in reverseMap :: exists i: nat :: TokenComesFrom(log, i, t))
  }

  // ----- The tables that a log builds up --------------------------------------------------------------

  function Assigned(tb: Tables, log: seq<Find>): Tables {
    if log == [] then tb
    else
      var last := log[|log| - 1];
      Assign(Assigned(tb, log[..|log| - 1]), last.tag, last.literal)
  }

  lemma {:induction false} AssignedThrough(tb: Tables, a: seq<Find>, b: seq<Find>)
    ensures Assigned(tb, a + b) == Assigned(Assigned(tb, a), b)
  {
    if b == [] {
      assert a + b == a;
    } else {
      assert (a + b)[..|a + b| - 1] == a + b[..|b| - 1];
      AssignedThrough(tb, a, b[..|b| - 1]);
    }
  }

  lemma AssignedOne(tb: Tables, f: Find)
    ensures Assigned(tb, [f]) == Assign(tb, f.tag, f.literal)
  {
    assert [f][..0] == [];
    assert Assigned(tb, []) == tb;
  }

  lemma {:induction false} HitsAssigned(tb: Tables, tag: Text, segs: seq<Segment>)
    ensures Assigned(tb, Hits(tag, segs)) == AssignHits(tb, tag, segs)
  {
    if segs == [] {
    } else {
      var front, last := segs[..|segs| - 1], segs[|segs| - 1];
      HitsAssigned(tb, tag, front);
      if last.Hit? {
        AssignedThrough(tb, Hits(tag, front), [Find(tag, last.text)]);
        AssignedOne(AssignHits(tb, tag, front), Find(tag, last.text));
      } else {
        assert Hits(tag, segs) == Hits(tag, front);
      }
    }
  }

  // ----- Tokens given so far are kept -------------------------------------------------------------------

  lemma {:induction false} HitsHold(segs: seq<Segment>, tag: Text, tb: Tables, n: nat)
    requires n <= |segs|
    ensures var tb' := AssignHits(tb, tag, segs[..n]);
            HitsDone(segs[..n], tag, tb, tb', ReplaceHits(segs[..n], tb'.seen))
  {
    if n == 0 {
      assert segs[..0] == [];
    } else {
      HitsHold(segs, tag, tb, n - 1);
      var before := AssignHits(tb, tag, segs[..n - 1]);
      HitsNext(segs, tag, n - 1, tb, before, ReplaceHits(segs[..n - 1], before.seen));
    }
  }

  lemma {:induction false} PassesHold(s: Text, ms: seq<Matcher>, i: nat, tb: Tables)
    requires i <= |ms|
    ensures var tb' := AssignPasses(tb, s, ms, i); PassesDone(s, ms, i, tb, tb', Redact(s, ms, i, tb'.seen))
  {
    if i == 0 {
    } else {
      PassesHold(s, ms, i - 1, tb);
      var before := AssignPasses(tb, s, ms, i - 1);
      var text := Redact(s, ms, i - 1, before.seen);
      var segs := ms[i - 1].find(text);
      HitsHold(segs, ms[i - 1].tag, before, |segs|);
      assert segs[..|segs|] == segs;
      var after := AssignHits(before, ms[i - 1].tag, segs);
      PassesNext(s, ms, i - 1, tb, before, after, text, ReplaceHits(segs, after.seen));
    }
  }

  lemma {:induction false} ValueHolds(v: Value, ms: seq<Matcher>, tb: Tables)
    ensures var tb' := AssignValue(tb, v, ms); ValueDone(v, ms, tb, tb', RedactValue(v, ms, tb'.seen))
    decreases v, 0
  {
    match v
    case String(s) => PassesHold(s, ms, |ms|, tb);
    case Array(items) => ItemsHold(items, ms, tb);
    case Object(os) => MembersHold(os, ms, tb);
    case _ =>
  }

  lemma {:induction false} ItemsHold(items: seq<Value>, ms: seq<Matcher>, tb: Tables)
    ensures var tb' := AssignItems(tb, items, ms); ItemsDone(items, ms, tb, tb', RedactItems(items, ms, tb'.seen))
    decreases items, 1
  {
    if items == [] {
    } else {
      var n := |items| - 1;
      var before := AssignItems(tb, items[..n], ms);
      var after := AssignValue(before, items[n], ms);
      ItemsHold(items[..n], ms, tb);
      ValueHolds(items[n], ms, before);
      ItemsNext(items, n, ms, tb, before, after, RedactItems(items[..n], ms, before.seen),
                RedactValue(items[n], ms, after.seen));
      assert items[..n + 1] == items;
    }
  }

  lemma {:induction false} MembersHold(os: seq<Member>, ms: seq<Matcher>, tb: Tables)
    ensures var tb' := AssignMembers(tb, os, ms); MembersDone(os, ms, tb, tb', RedactMembers(os, ms, tb'.seen))
    decreases os, 1
  {
    if os == [] {
    } else {
      var n := |os| - 1;
      var before := AssignMembers(tb, os[..n], ms);
      var after := AssignValue(before, os[n].value, ms);
      MembersHold(os[..n], ms, tb);
      ValueHolds(os[n].value, ms, before);
      MembersNext(os, n, ms, tb, before, after, RedactMembers(os[..n], ms, before.seen),
                  RedactValue(os[n].value, ms, after.seen));
      assert os[..n + 1] == os;
    }
  }

  // ----- The log of a value, given the final table --------------------------------------------------------

  function LeafLog(s: Text, ms: seq<Matcher>, i: nat, seen: map<Text, Text>): seq<Find>
    requires i <= |ms|
  {
    if i == 0 then []
    else LeafLog(s, ms, i - 1, seen) + Hits(ms[i - 1].tag, ms[i - 1].find(Redact(s, ms, i - 1, seen)))
  }

  function LogOf(v: Value, ms: seq<Matcher>, seen: map<Text, Text>): seq<Find>
    decreases v, 0
  {
    match v
    case String(s) => LeafLog(s, ms, |ms|, seen)
    case Array(items) => ItemsLog(items, ms, seen)
    case Object(os) => MembersLog(os, ms, seen)
    case _ => []
  }

  function ItemsLog(items: seq<Value>, ms: seq<Matcher>, seen: map<Text, Text>): seq<Find>
    decreases items, 1
  {
    if items == [] then []
    else ItemsLog(items[..|items| - 1], ms, seen) + LogOf(items[|items| - 1], ms, seen)
  }

  function MembersLog(os: seq<Member>, ms: seq<Matcher>, seen: map<Text, Text>): seq<Find>
    decreases os, 1
  {
    if os == [] then []
    else MembersLog(os[..|os| - 1], ms, seen) + LogOf(os[|os| - 1].value, ms, seen)
  }

  lemma LeafSettled(s: Text, ms: seq<Matcher>, i: nat, tb: Tables, seen: map<Text, Text>)
    requires 0 < i <= |ms| && Extends(AssignPasses(tb, s, ms, i).seen, seen)
    ensures var before := AssignPasses(tb, s, ms, i - 1);
            Extends(before.seen, seen) && Redact(s, ms, i - 1, before.seen) == Redact(s, ms, i - 1, seen)
  {
    var before := AssignPasses(tb, s, ms, i - 1);
    var segs := ms[i - 1].find(Redact(s, ms, i - 1, before.seen));
    PassesHold(s, ms, i - 1, tb);
    HitsHold(segs, ms[i - 1].tag, before, |segs|);
    assert segs[..|segs|] == segs;
    ExtendsThrough(before.seen, AssignPasses(tb, s, ms, i).seen, seen);
    RedactStable(s, ms, i - 1, before.seen, seen);
  }

  /** The running tables are those that the log builds up. */
  lemma {:induction false} LeafAssigned(s: Text, ms: seq<Matcher>, i: nat, tb: Tables, seen: map<Text, Text>)
    requires i <= |ms| && Extends(AssignPasses(tb, s, ms, i).seen, seen)
    ensures Assigned(tb, LeafLog(s, ms, i, seen)) == AssignPasses(tb, s, ms, i)
  {
    if i == 0 {
    } else {
      var before := AssignPasses(tb, s, ms, i - 1);
      var segs := ms[i - 1].find(Redact(s, ms, i - 1, before.seen));
      LeafSettled(s, ms, i, tb, seen);
      LeafAssigned(s, ms, i - 1, tb, seen);
      HitsAssigned(before, ms[i - 1].tag, segs);
      AssignedThrough(tb, LeafLog(s, ms, i - 1, seen), Hits(ms[i - 1].tag, segs));
    }
  }

  lemma {:induction false} ValueAssigned(v: Value, ms: seq<Matcher>, tb: Tables, seen: map<Text, Text>)
    requires Extends(AssignValue(tb, v, ms).seen, seen)
    ensures Assigned(tb, LogOf(v, ms, seen)) == AssignValue(tb, v, ms)
    decreases v, 0
  {
    match v
    case String(s) => LeafAssigned(s, ms, |ms|, tb, seen);
    case Array(items) => ItemsAssigned(items, ms, tb, seen);
    case Object(os) => MembersAssigned(os, ms, tb, seen);
    case _ =>
  }

  lemma {:induction false} ItemsAssigned(items: seq<Value>, ms: seq<Matcher>, tb: Tables, seen: map<Text, Text>)
    requires Extends(AssignItems(tb, items, ms).seen, seen)
    ensures Assigned(tb, ItemsLog(items, ms, seen)) == AssignItems(tb, items, ms)
    decreases items, 1
  {
    if items == [] {
    } else {
      var front, last := items[..|items| - 1], items[|items| - 1];
      var before := AssignItems(tb, front, ms);
      ValueHolds(last, ms, before);
      ExtendsThrough(before.seen, AssignItems(tb, items, ms).seen, seen);
      ItemsAssigned(front, ms, tb, seen);
      ValueAssigned(last, ms, before, seen);
      AssignedThrough(tb, ItemsLog(front, ms, seen), LogOf(last, ms, seen));
    }
  }

  lemma {:induction false} MembersAssigned(os: seq<Member>, ms: seq<Matcher>, tb: Tables, seen: map<Text, Text>)
    requires Extends(AssignMembers(tb, os, ms).seen, seen)
    ensures Assigned(tb, MembersLog(os, ms, seen)) == AssignMembers(tb, os, ms)
    decreases os, 1
  {
    if os == [] {
    } else {
      var front, last := os[..|os| - 1], os[|os| - 1].value;
      var before := AssignMembers(tb, front, ms);
      ValueHolds(last, ms, before);
      ExtendsThrough(before.seen, AssignMembers(tb, os, ms).seen, seen);
      MembersAssigned(front, ms, tb, seen);
      ValueAssigned(last, ms, before, seen);
      AssignedThrough(tb, MembersLog(front, ms, seen), LogOf(last, ms, seen));
    }
  }

  // ----- The numbering of a log -------------------------------------------------------------------------------

  ghost predicate MetBefore(log: seq<Find>, n: nat, l: Text)
    requires n <= |log|
  {
    exists j: nat :: j < n && log[j].literal == l
  }

  ghost predicate Given(log: seq<Find>, n: nat, t: Text) {
    exists i: nat :: i < n && TokenComesFrom(log, i, t)
  }

  /** The tables after the first `n` hits. */
  ghost predicate Built(log: seq<Find>, n: nat, tb: Tables)
    requires n <= |log|
  {
    && (forall l :: l in tb.seen <==> MetBefore(log, n, l))
    && (forall tag :: CountOf(tb, tag) == |FirstMet(log, tag, n)|)
    && (forall i: nat | i < n :: TokenFits(log, i, tb.reverseMap))
    && (forall t | t in tb.reverseMap :: Given(log, n, t))
  }

  function CountOf(tb: Tables, tag: Text): nat { if tag in tb.counters then tb.counters[tag] else 0 }

  lemma FirstMetNext(log: seq<Find>, tag: Text, n: nat)
    requires n < |log|
    ensures FirstMet(log, tag, n) <= FirstMet(log, tag, n + 1)
    ensures |FirstMet(log, tag, n + 1)|
         == |FirstMet(log, tag, n)| + if log[n].tag == tag && IsFirst(log, n) then 1 else 0
  {
    assert FirstMet(log, tag, n + 1)
        == FirstMet(log, tag, n) + if log[n].tag == tag && IsFirst(log, n) then {n} else {};
  }

  lemma {:induction false} FirstMetGrows(log: seq<Find>, tag: Text, i: nat, n: nat)
    requires i < n <= |log| && log[i].tag == tag && IsFirst(log, i)
    ensures |FirstMet(log, tag, i)| < |FirstMet(log, tag, n)|
  {
    FirstMetNext(log, tag, n - 1);
    if i == n - 1 {
    } else {
      FirstMetGrows(log, tag, i, n - 1);
    }
  }

  /** Tokens of different first hits differ. */
  lemma TokensDiffer(log: seq<Find>, i: nat, n: nat)
    requires i < n < |log| && IsFirst(log, i)
    ensures TokenAt(log, i) != TokenAt(log, n)
  {
    if TokenAt(log, i) == TokenAt(log, n) {
      TokenInjective(log[i].tag, |FirstMet(log, log[i].tag, i)| + 1, log[n].tag, |FirstMet(log, log[n].tag, n)| + 1);
      FirstMetGrows(log, log[i].tag, i, n);
    }
  }

  lemma MetNext(log: seq<Find>, n: nat, l: Text)
    requires n < |log|
    ensures MetBefore(log, n + 1, l) <==> MetBefore(log, n, l) || log[n].literal == l
    ensures MetBefore(log, n, log[n].literal) <==> !IsFirst(log, n)
  {
    if MetBefore(log, n, l) {
      var j: nat :| j < n && log[j].literal == l;
      assert j < n + 1;
    }
  }

  lemma NewToken(log: seq<Find>, n: nat, tb: Tables)
    requires n < |log| && Built(log, n, tb) && IsFirst(log, n)
    ensures Token(log[n].tag, CountOf(tb, log[n].tag) + 1) == TokenAt(log, n)
    ensures log[n].literal !in tb.seen
  {
    assert CountOf(tb, log[n].tag) == |FirstMet(log, log[n].tag, n)|;
    MetNext(log, n, log[n].literal);
  }

  lemma TokensNext(log: seq<Find>, n: nat, tb: Tables, i: nat)
    requires n < |log| && Built(log, n, tb) && i <= n
    ensures TokenFits(log, i, Assign(tb, log[n].tag, log[n].literal).reverseMap)
  {
    if i < n { assert TokenFits(log, i, tb.reverseMap); }
    if IsFirst(log, n) {
      NewToken(log, n, tb);
      if i < n && IsFirst(log, i) { TokensDiffer(log, i, n); }
    } else {
      MetNext(log, n, log[n].literal);
    }
  }

  lemma GivenNext(log: seq<Find>, n: nat, tb: Tables, t: Text)
    requires n < |log| && Built(log, n, tb) && t in Assign(tb, log[n].tag, log[n].literal).reverseMap
    ensures Given(log, n + 1, t)
  {
    if t in tb.reverseMap {
      var i: nat :| i < n && TokenComesFrom(log, i, t);
      assert i < n + 1;
    } else {
      MetNext(log, n, log[n].literal);
      NewToken(log, n, tb);
      assert TokenComesFrom(log, n, t);
    }
  }

  lemma CountNext(log: seq<Find>, n: nat, tb: Tables, tag: Text)
    requires n < |log| && Built(log, n, tb)
    ensures CountOf(Assign(tb, log[n].tag, log[n].literal), tag) == |FirstMet(log, tag, n + 1)|
  {
    assert CountOf(tb, tag) == |FirstMet(log, tag, n)|;
    FirstMetNext(log, tag, n);
    MetNext(log, n, log[n].literal);
  }

  lemma BuiltNext(log: seq<Find>, n: nat, tb: Tables)
    requires n < |log| && Built(log, n, tb)
    ensures Built(log, n + 1, Assign(tb, log[n].tag, log[n].literal))
  {
    var tb' := Assign(tb, log[n].tag, log[n].literal);
    forall l ensures l in tb'.seen <==> MetBefore(log, n + 1, l) { MetNext(log, n, l); }
    forall tag ensures CountOf(tb', tag) == |FirstMet(log, tag, n + 1)| { CountNext(log, n, tb, tag); }
    forall i: nat | i < n + 1 ensures TokenFits(log, i, tb'.reverseMap) { TokensNext(log, n, tb, i); }
    forall t | t in tb'.reverseMap ensures Given(log, n + 1, t) { GivenNext(log, n, tb, t); }
  }

  lemma BuiltNothing(log: seq<Find>)
    ensures Built(log, 0, NO_TABLES)
  {
    forall tag ensures |FirstMet(log, tag, 0)| == 0 { assert FirstMet(log, tag, 0) == {}; }
  }

  lemma {:induction false} BuiltUp(log: seq<Find>, n: nat)
    requires n <= |log|
    ensures Built(log, n, Assigned(NO_TABLES, log[..n]))
  {
    if n == 0 {
      assert log[..0] == [];
      BuiltNothing(log);
    } else {
      BuiltUp(log, n - 1);
      BuiltNext(log, n - 1, Assigned(NO_TABLES, log[..n - 1]));
      assert log[..n][..n - 1] == log[..n - 1] && log[..n][n - 1] == log[n - 1];
    }
  }

  // ----- The relation holds -------------------------------------------------------------------------------------

  /** Every token of the table stands for its literal. */
  ghost predicate Backed(seen: map<Text, Text>, reverseMap: map<Text, Text>) {
    forall l | l in seen :: seen[l] in reverseMap && reverseMap[seen[l]] == l
  }

  function OutOf(seg: Segment, seen: map<Text, Text>): Text {
    if seg.Hit? && seg.text in seen then seen[seg.text] else seg.text
  }

  function Outs(segs: seq<Segment>, seen: map<Text, Text>): (outs: seq<Text>)
    ensures |outs| == |segs| && forall i | 0 <= i < |segs| :: outs[i] == OutOf(segs[i], seen)
  {
    seq(|segs|, i requires 0 <= i < |segs| => OutOf(segs[i], seen))
  }

  lemma {:induction false} OutsJoined(segs: seq<Segment>, seen: map<Text, Text>)
    ensures Joined(Outs(segs, seen)) == ReplaceHits(segs, seen)
  {
    if segs == [] {
    } else {
      OutsJoined(segs[..|segs| - 1], seen);
      assert Outs(segs, seen)[..|segs| - 1] == Outs(segs[..|segs| - 1], seen);
    }
  }

  lemma HitsReplaced(segs: seq<Segment>, seen: map<Text, Text>, reverseMap: map<Text, Text>)
    requires Backed(seen, reverseMap) && HitTexts(segs) <= seen.Keys
    ensures Replaced(segs, Outs(segs, seen), reverseMap)
  {
    forall i | 0 <= i < |segs| && segs[i].Hit? ensures segs[i].text in seen { assert segs[i].text in HitTexts(segs); }
  }

  function Texts(s: Text, ms: seq<Matcher>, i: nat, seen: map<Text, Text>): (texts: seq<Text>)
    requires i <= |ms|
    ensures |texts| == i + 1
  {
    if i == 0 then [s] else Texts(s, ms, i - 1, seen) + [Redact(s, ms, i, seen)]
  }

  lemma {:induction false} TextsAre(s: Text, ms: seq<Matcher>, i: nat, seen: map<Text, Text>, k: nat)
    requires k <= i <= |ms|
    ensures Texts(s, ms, i, seen)[k] == Redact(s, ms, k, seen)
  {
    if k == i {
    } else {
      TextsAre(s, ms, i - 1, seen, k);
    }
  }

  lemma {:induction false} LiteralsGrow(s: Text, ms: seq<Matcher>, k: nat, i: nat, seen: map<Text, Text>)
    requires k < i <= |ms|
    ensures HitTexts(ms[k].find(Redact(s, ms, k, seen))) <= Literals(s, ms, i, seen)
  {
    if k == i - 1 {
    } else {
      LiteralsGrow(s, ms, k, i - 1, seen);
    }
  }

  lemma {:induction false} MetIs(s: Text, ms: seq<Matcher>, i: nat, seen: map<Text, Text>)
    requires i <= |ms|
    ensures Met(ms, Texts(s, ms, |ms|, seen), i) == LeafLog(s, ms, i, seen)
  {
    if i == 0 {
    } else {
      MetIs(s, ms, i - 1, seen);
      TextsAre(s, ms, |ms|, seen, i - 1);
    }
  }

  lemma LeafIsRedacted(s: Text, ms: seq<Matcher>, seen: map<Text, Text>, reverseMap: map<Text, Text>)
    requires Backed(seen, reverseMap) && Literals(s, ms, |ms|, seen) <= seen.Keys
    ensures LeafRedacted(s, Redact(s, ms, |ms|, seen), ms, reverseMap, LeafLog(s, ms, |ms|, seen))
  {
    var texts := Texts(s, ms, |ms|, seen);
    forall k | 0 <= k < |ms| ensures PassOf(ms[k], texts[k], texts[k + 1], reverseMap) {
      TextsAre(s, ms, |ms|, seen, k);
      TextsAre(s, ms, |ms|, seen, k + 1);
      LiteralsGrow(s, ms, k, |ms|, seen);
      HitsReplaced(ms[k].find(texts[k]), seen, reverseMap);
      OutsJoined(ms[k].find(texts[k]), seen);
      assert Replaced(ms[k].find(texts[k]), Outs(ms[k].find(texts[k]), seen), reverseMap);
    }
    TextsAre(s, ms, |ms|, seen, 0);
    TextsAre(s, ms, |ms|, seen, |ms|);
    MetIs(s, ms, |ms|, seen);
  }

  lemma {:induction false} ItemsAt(items: seq<Value>, ms: seq<Matcher>, seen: map<Text, Text>, i: nat)
    requires i < |items|
    ensures |RedactItems(items, ms, seen)| == |items|
    ensures RedactItems(items, ms, seen)[i] == RedactValue(items[i], ms, seen)
    ensures ValueLiterals(items[i], ms, seen) <= ItemsLiterals(items, ms, seen)
  {
    var n := |items| - 1;
    if i < n {
      ItemsAt(items[..n], ms, seen, i);
    } else if n > 0 {
      ItemsAt(items[..n], ms, seen, 0);
    }
  }

  lemma {:induction false} MembersLiteralsAt(os: seq<Member>, ms: seq<Matcher>, seen: map<Text, Text>, i: nat)
    requires i < |os|
    ensures ValueLiterals(os[i].value, ms, seen) <= MembersLiterals(os, ms, seen)
  {
    if i == |os| - 1 {
    } else {
      MembersLiteralsAt(os[..|os| - 1], ms, seen, i);
    }
  }

  function ItemLogs(items: seq<Value>, ms: seq<Matcher>, seen: map<Text, Text>): (logs: seq<seq<Find>>)
    ensures |logs| == |items|
  {
    seq(|items|, i requires 0 <= i < |items| => LogOf(items[i], ms, seen))
  }

  lemma {:induction false} ItemLogsGather(items: seq<Value>, ms: seq<Matcher>, seen: map<Text, Text>)
    ensures Gather(ItemLogs(items, ms, seen)) == ItemsLog(items, ms, seen)
  {
    if items == [] {
    } else {
      var n := |items| - 1;
      ItemLogsGather(items[..n], ms, seen);
      assert ItemLogs(items, ms, seen)[..n] == ItemLogs(items[..n], ms, seen);
    }
  }

  function Values(os: seq<Member>): (vs: seq<Value>)
    ensures |vs| == |os|
  {
    seq(|os|, i requires 0 <= i < |os| => os[i].value)
  }

  lemma {:induction false} MembersLogIs(os: seq<Member>, ms: seq<Matcher>, seen: map<Text, Text>)
    ensures MembersLog(os, ms, seen) == ItemsLog(Values(os), ms, seen)
  {
    if os == [] {
    } else {
      MembersLogIs(os[..|os| - 1], ms, seen);
      assert Values(os)[..|os| - 1] == Values(os[..|os| - 1]);
    }
  }

  function AllMembers(os: seq<Member>, ms: seq<Matcher>, seen: map<Text, Text>): (rs: seq<Member>)
    ensures |rs| == |os|
  {
    seq(|os|, i requires 0 <= i < |os| => Member(os[i].key, RedactValue(os[i].value, ms, seen)))
  }

  lemma {:induction false} MembersPicked(os: seq<Member>, ms: seq<Matcher>, seen: map<Text, Text>)
    ensures RedactMembers(os, ms, seen) == Pick(AllMembers(os, ms, seen), KeptAt(os))
  {
    if os == [] {
    } else {
      var n := |os| - 1;
      var front := AllMembers(os[..n], ms, seen);
      MembersPicked(os[..n], ms, seen);
      assert AllMembers(os, ms, seen) == front + [AllMembers(os, ms, seen)[n]];
      PickNext(front, AllMembers(os, ms, seen)[n], KeptAt(os[..n]), KeptAt(os));
    }
  }

  lemma {:induction false} ValueIsRedacted(
    v: Value, ms: seq<Matcher>, seen: map<Text, Text>, reverseMap: map<Text, Text>)
    requires Backed(seen, reverseMap) && ValueLiterals(v, ms, seen) <= seen.Keys
    ensures RedactedAs(v, RedactValue(v, ms, seen), ms, reverseMap, LogOf(v, ms, seen))
    decreases v
  {
    match v
    case String(s) => LeafIsRedacted(s, ms, seen, reverseMap);
    case Array(items) =>
      var logs := ItemLogs(items, ms, seen);
      ItemLogsGather(items, ms, seen);
      if items != [] { ItemsAt(items, ms, seen, 0); }
      forall i | 0 <= i < |items|
        ensures RedactedAs(items[i], RedactItems(items, ms, seen)[i], ms, reverseMap, logs[i])
      {
        ItemsAt(items, ms, seen, i);
        ValueIsRedacted(items[i], ms, seen, reverseMap);
      }
    case Object(os) =>
      var rs, logs := AllMembers(os, ms, seen), ItemLogs(Values(os), ms, seen);
      ItemLogsGather(Values(os), ms, seen);
      MembersLogIs(os, ms, seen);
      MembersPicked(os, ms, seen);
      forall i | 0 <= i < |os|
        ensures rs[i].key == os[i].key && RedactedAs(os[i].value, rs[i].value, ms, reverseMap, logs[i])
      {
        MembersLiteralsAt(os, ms, seen, i);
        ValueIsRedacted(os[i].value, ms, seen, reverseMap);
      }
    case _ =>
  }

  /** What `tokenize` returns for `v` with matchers `ms`: every leaf goes through the matchers in order, each
      replacing its hits by tokens that the reverse map turns back and leaving everything else, the rest of the
      value keeps its shape, and the tokens are numbered in the order in which their literals are met. */
  lemma RedactionIs(v: Value, ms: seq<Matcher>, redacted: Value, reverseMap: map<Text, Text>) returns (log: seq<Find>)
    requires IsRedaction(v, ms, redacted, reverseMap)
    ensures RedactedAs(v, redacted, ms, reverseMap, log) && NumberedBy(log, reverseMap)
  {
    var tb := TablesOf(v, ms);
    log := LogOf(v, ms, tb.seen);
    forall l | l in tb.seen ensures tb.seen[l] in reverseMap && reverseMap[tb.seen[l]] == l { assert Entry(tb, l); }
    ValueIsRedacted(v, ms, tb.seen, reverseMap);
    ValueAssigned(v, ms, NO_TABLES, tb.seen);
    BuiltUp(log, |log|);
    assert log[..|log|] == log;
    forall t | t in reverseMap ensures exists i: nat :: TokenComesFrom(log, i, t) {
      assert Given(log, |log|, t);
      var i: nat :| i < |log| && TokenComesFrom(log, i, t);
    }
  }
}
