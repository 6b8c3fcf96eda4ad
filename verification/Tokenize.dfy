/** `src/utils/tokenize.ts`: replacing sensitive literals by tokens such as `[EMAIL_1]`, with a
    reverse map that undoes it. A matcher is a label and a function that cuts a text into plain
    segments and hits (matches that also passed the secondary validator). */
module Tokenize {
  import opened Json
  import opened Sublists

  const EMAIL: Text := [69, 77, 65, 73, 76]
  const PHONE: Text := [80, 72, 79, 78, 69]
  const SSN: Text := [83, 83, 78]
  const CC: Text := [67, 67]
  const IBAN: Text := [73, 66, 65, 78]
  const IPV4: Text := [73, 80, 86, 52]
  const IPV6: Text := [73, 80, 86, 54]
  const UNDERSCORE: CodeUnit := 95

  datatype Segment = Plain(text: Text) | Hit(text: Text)
  datatype Matcher = Matcher(tag: Text, find: Text -> seq<Segment>)

  predicate IsLabel(t: Text) {
    t == EMAIL || t == PHONE || t == SSN || t == CC || t == IBAN || t == IPV4 || t == IPV6
  }

  function Decimal(n: nat): (t: Text)
    ensures t != [] && forall i | 0 <= i < |t| :: IsDigit(t[i])
  {
    if n < 10 then [48 + n as CodeUnit] else Decimal(n / 10) + [48 + (n % 10) as CodeUnit]
  }

  function Token(tag: Text, n: nat): Text {
    [OPEN_BRACKET] + (tag + [UNDERSCORE] + Decimal(n) + [CLOSE_BRACKET])
  }

  // ----- Texts with tokens -------------------------------------------------------------

  /** Position of the first `]`, or the length. */
  function Close(s: Text): (i: nat)
    ensures i <= |s| && (i < |s| ==> s[i] == CLOSE_BRACKET)
    ensures forall j | 0 <= j < i :: s[j] != CLOSE_BRACKET
  {
    if s == [] || s[0] == CLOSE_BRACKET then 0 else 1 + Close(s[1..])
  }

  ghost const TOKENS: iset<Text> := iset t | exists tag, n: nat :: IsLabel(tag) && t == Token(tag, n)

  ghost function KeysOf(m: map<Text, Text>): iset<Text> {
    iset t | t in m
  }

  /** `s` begins with a bracketed group that belongs to `ok`. */
  ghost predicate Starts(s: Text, ok: iset<Text>) {
    s != [] && s[0] == OPEN_BRACKET && Close(s) < |s| && s[..Close(s) + 1] in ok
  }

  /** Every token in the text that is a key of `reverseMap` replaced by its literal. */
  function Restore(s: Text, reverseMap: map<Text, Text>): Text
    decreases |s|
  {
    if s == [] then []
    else if s[0] == OPEN_BRACKET && Close(s) < |s| && s[..Close(s) + 1] in reverseMap then
      reverseMap[s[..Close(s) + 1]] + Restore(s[Close(s) + 1..], reverseMap)
    else [s[0]] + Restore(s[1..], reverseMap)
  }

  predicate NoBrackets(s: Text) {
    forall i | 0 <= i < |s| :: s[i] != OPEN_BRACKET && s[i] != CLOSE_BRACKET
  }

  predicate NoOpen(s: Text) {
    forall i | 0 <= i < |s| :: s[i] != OPEN_BRACKET
  }

  function Flatten(segs: seq<Segment>): Text {
    if segs == [] then [] else Flatten(segs[..|segs| - 1]) + segs[|segs| - 1].text
  }

  /** No group of `ok` begins before position `p` of `w` and ends at it or behind it. */
  ghost predicate Uncut(w: Text, p: nat, ok: iset<Text>)
    requires p <= |w|
  {
    forall q | 0 <= q < p :: UncutAt(w, p, ok, q)
  }

  ghost predicate UncutAt(w: Text, p: nat, ok: iset<Text>, q: nat)
    requires q < p <= |w|
  {
    Starts(w[q..], ok) ==> q + Close(w[q..]) < p
  }

  /** What is asked of segment `i` of a text `s`. */
  ghost predicate SafeHit(s: Text, segs: seq<Segment>, i: nat, ok: iset<Text>)
    requires i < |segs|
  {
    segs[i].Hit? ==>
      && segs[i].text != [] && NoBrackets(segs[i].text)
      && |Flatten(segs[..i])| <= |s| && Uncut(s, |Flatten(segs[..i])|, ok)
  }

  /** What is asked of the built-in patterns: no hit is empty or contains a bracket, and no hit
      lies inside a token. */
  ghost predicate TokenSafe(m: Matcher) {
    IsLabel(m.tag) && forall s :: SafeOn(m, s)
  }

  ghost predicate SafeOn(m: Matcher, s: Text) {
    Flatten(m.find(s)) == s && forall i | 0 <= i < |m.find(s)| :: SafeHit(s, m.find(s), i, TOKENS)
  }

  ghost predicate AllSafe(ms: seq<Matcher>) {
    forall k | 0 <= k < |ms| :: TokenSafe(ms[k])
  }

  // ----- What redaction computes, given the table of literals seen ------------------------

  function ReplaceHits(segs: seq<Segment>, seen: map<Text, Text>): Text {
    if segs == [] then []
    else
      var t := segs[|segs| - 1].text;
      ReplaceHits(segs[..|segs| - 1], seen) + (if segs[|segs| - 1].Hit? && t in seen then seen[t] else t)
  }

  function HitTexts(segs: seq<Segment>): set<Text> {
    set i | 0 <= i < |segs| && segs[i].Hit? :: segs[i].text
  }

  /** The text after the first `i` matchers. */
  function Redact(s: Text, ms: seq<Matcher>, i: nat, seen: map<Text, Text>): Text
    requires i <= |ms|
  {
    if i == 0 then s else ReplaceHits(ms[i - 1].find(Redact(s, ms, i - 1, seen)), seen)
  }

  /** The literals hit by the first `i` matchers. */
  function Literals(s: Text, ms: seq<Matcher>, i: nat, seen: map<Text, Text>): set<Text>
    requires i <= |ms|
  {
    if i == 0 then {}
    else Literals(s, ms, i - 1, seen) + HitTexts(ms[i - 1].find(Redact(s, ms, i - 1, seen)))
  }

  /** Strings redacted, members called `__proto__` lost, everything else as it was. */
  function RedactValue(v: Value, ms: seq<Matcher>, seen: map<Text, Text>): Value
    decreases v, 0
  {
    match v
    case String(s) => String(Redact(s, ms, |ms|, seen))
    case Array(items) => Array(RedactItems(items, ms, seen))
    case Object(os) => Object(RedactMembers(os, ms, seen))
    case _ => v
  }

  function RedactItems(items: seq<Value>, ms: seq<Matcher>, seen: map<Text, Text>): seq<Value>
    decreases items, 1
  {
    if items == [] then []
    else RedactItems(items[..|items| - 1], ms, seen) + [RedactValue(items[|items| - 1], ms, seen)]
  }

  function RedactMembers(os: seq<Member>, ms: seq<Matcher>, seen: map<Text, Text>): seq<Member>
    decreases os, 1
  {
    if os == [] then []
    else
      var o := os[|os| - 1];
      RedactMembers(os[..|os| - 1], ms, seen)
      + (if o.key == PROTO then [] else [Member(o.key, RedactValue(o.value, ms, seen))])
  }

  function ValueLiterals(v: Value, ms: seq<Matcher>, seen: map<Text, Text>): set<Text>
    decreases v, 0
  {
    match v
    case String(s) => Literals(s, ms, |ms|, seen)
    case Array(items) => ItemsLiterals(items, ms, seen)
    case Object(os) => MembersLiterals(os, ms, seen)
    case _ => {}
  }

  function ItemsLiterals(items: seq<Value>, ms: seq<Matcher>, seen: map<Text, Text>): set<Text>
    decreases items, 1
  {
    if items == [] then {}
    else ItemsLiterals(items[..|items| - 1], ms, seen) + ValueLiterals(items[|items| - 1], ms, seen)
  }

  function MembersLiterals(os: seq<Member>, ms: seq<Matcher>, seen: map<Text, Text>): set<Text>
    decreases os, 1
  {
    if os == [] then {}
    else MembersLiterals(os[..|os| - 1], ms, seen) + ValueLiterals(os[|os| - 1].value, ms, seen)
  }

  /** Every string leaf restored. */
  function RestoreValue(v: Value, reverseMap: map<Text, Text>): Value {
    match v
    case String(s) => String(Restore(s, reverseMap))
    case Array(items) => Array(seq(|items|, i requires 0 <= i < |items| => RestoreValue(items[i], reverseMap)))
    case Object(os) =>
      Object(seq(|os|, i requires 0 <= i < |os| => Member(os[i].key, RestoreValue(os[i].value, reverseMap))))
    case _ => v
  }

  /** Some string leaf of `v` contains a group of `ok`. */
  ghost predicate HasToken(v: Value, ok: iset<Text>) {
    match v
    case String(s) => Contains(s, ok)
    case Array(items) => exists i | 0 <= i < |items| :: HasToken(items[i], ok)
    case Object(os) => exists i | 0 <= i < |os| :: HasToken(os[i].value, ok)
    case _ => false
  }

  ghost predicate Contains(s: Text, ok: iset<Text>) {
    exists q | 0 <= q < |s| :: Starts(s[q..], ok)
  }

  /** The local tables of one call of `tokenize`. */
  datatype Tables = Tables(counters: map<Text, nat>, seen: map<Text, Text>, reverseMap: map<Text, Text>)

  /** What the tables say about one text, be it a literal, a token or a label. */
  ghost predicate Entry(tb: Tables, x: Text) {
    && (x in tb.seen ==> tb.seen[x] in tb.reverseMap && tb.reverseMap[tb.seen[x]] == x)
    && (x in tb.reverseMap ==> tb.reverseMap[x] in tb.seen && tb.seen[tb.reverseMap[x]] == x)
    && (x in tb.reverseMap <==> Issued(tb.counters, x))
    && (x in tb.counters ==> IsLabel(x))
  }

  /** The table and the reverse map are inverse to each other, and the tokens of each label are
      numbered from 1 without gaps. */
  ghost predicate Consistent(tb: Tables) {
    forall x :: Entry(tb, x)
  }

  // ----- The tables that the hits build up -----------------------------------------------------

  const NO_TABLES := Tables(map[], map[], map[])

  /** A literal that has no token yet gets the next one of the label. */
  function Assign(tb: Tables, tag: Text, literal: Text): Tables {
    if literal in tb.seen then tb
    else
      var n := (if tag in tb.counters then tb.counters[tag] else 0) + 1;
      Tables(tb.counters[tag := n], tb.seen[literal := Token(tag, n)], tb.reverseMap[Token(tag, n) := literal])
  }

  function AssignHits(tb: Tables, tag: Text, segs: seq<Segment>): Tables {
    if segs == [] then tb
    else
      var before, last := AssignHits(tb, tag, segs[..|segs| - 1]), segs[|segs| - 1];
      if last.Hit? then Assign(before, tag, last.text) else before
  }

  function AssignPasses(tb: Tables, s: Text, ms: seq<Matcher>, i: nat): Tables
    requires i <= |ms|
  {
    if i == 0 then tb
    else
      var before := AssignPasses(tb, s, ms, i - 1);
      AssignHits(before, ms[i - 1].tag, ms[i - 1].find(Redact(s, ms, i - 1, before.seen)))
  }

  function AssignValue(tb: Tables, v: Value, ms: seq<Matcher>): Tables
    decreases v, 0
  {
    match v
    case String(s) => AssignPasses(tb, s, ms, |ms|)
    case Array(items) => AssignItems(tb, items, ms)
    case Object(os) => AssignMembers(tb, os, ms)
    case _ => tb
  }

  function AssignItems(tb: Tables, items: seq<Value>, ms: seq<Matcher>): Tables
    decreases items, 1
  {
    if items == [] then tb
    else AssignValue(AssignItems(tb, items[..|items| - 1], ms), items[|items| - 1], ms)
  }

  function AssignMembers(tb: Tables, os: seq<Member>, ms: seq<Matcher>): Tables
    decreases os, 1
  {
    if os == [] then tb
    else AssignValue(AssignMembers(tb, os[..|os| - 1], ms), os[|os| - 1].value, ms)
  }

  /** The tables of a call, as a function of its input. */
  function TablesOf(v: Value, ms: seq<Matcher>): Tables { AssignValue(NO_TABLES, v, ms) }

  ghost predicate Issued(counters: map<Text, nat>, t: Text) {
    exists tag, n: nat :: tag in counters && 1 <= n <= counters[tag] && t == Token(tag, n)
  }

  ghost predicate Extends(m: map<Text, Text>, m': map<Text, Text>) {
    m.Keys <= m'.Keys && forall k | k in m :: m'[k] == m[k]
  }

  lemma ExtendsThrough(a: map<Text, Text>, b: map<Text, Text>, c: map<Text, Text>)
    requires Extends(a, b) && Extends(b, c)
    ensures Extends(a, c)
  {
  }

  // ----- Lemmas on tokens -----------------------------------------------------------------

  lemma {:induction false} DecimalInjective(m: nat, n: nat)
    requires Decimal(m) == Decimal(n)
    ensures m == n
  {
    var a, b := Decimal(m), Decimal(n);
    if m < 10 || n < 10 {
      assert |Decimal(m)| == 1 <==> m < 10;
      assert |Decimal(n)| == 1 <==> n < 10;
      assert a[0] == b[0];
    } else {
      assert a[..|a| - 1] == Decimal(m / 10) && b[..|b| - 1] == Decimal(n / 10);
      assert a[|a| - 1] == b[|b| - 1];
      DecimalInjective(m / 10, n / 10);
    }
  }

  /** The number that a row of decimal digits stands for. */
  function NumberOf(t: Text): nat
    requires forall i | 0 <= i < |t| :: IsDigit(t[i])
  {
    if t == [] then 0
    else
      assert IsDigit(t[|t| - 1]);
      10 * NumberOf(t[..|t| - 1]) + (t[|t| - 1] - 48) as nat
  }

  lemma {:induction false} DecimalIs(n: nat)
    ensures NumberOf(Decimal(n)) == n && (Decimal(n)[0] == 48 ==> n == 0)
  {
    if n < 10 {
      assert Decimal(n)[..0] == [];
    } else {
      DecimalIs(n / 10);
      assert Decimal(n)[..|Decimal(n)| - 1] == Decimal(n / 10);
    }
  }

  /** The token `[EMAIL_1]`, letter by letter. */
  lemma TokenText()
    ensures Token(EMAIL, 1) == [91, 69, 77, 65, 73, 76, 95, 49, 93]
  {
    assert Decimal(1) == [49];
  }

  lemma TokenDigits(tag: Text, n: nat)
    ensures var t, d := Token(tag, n), Decimal(n);
            && t[|t| - 2 - |d|] == UNDERSCORE
            && t[|t| - 1 - |d|..|t| - 1] == d
            && t[1..|t| - 2 - |d|] == tag
            && forall i | |t| - 1 - |d| <= i < |t| - 1 :: IsDigit(t[i])
  {
    var t, d := Token(tag, n), Decimal(n);
    assert forall i | 0 <= i < |d| :: t[|t| - 1 - |d| + i] == d[i];
  }

  /** The underscore of a token is the last one, so label and number can be read back. */
  lemma TokenInjective(tag: Text, m: nat, tag': Text, n: nat)
    requires Token(tag, m) == Token(tag', n)
    ensures tag == tag' && m == n
  {
    TokenDigits(tag, m);
    TokenDigits(tag', n);
    assert |Decimal(m)| == |Decimal(n)|;
    DecimalInjective(m, n);
  }

  lemma LabelPlain(tag: Text)
    requires IsLabel(tag)
    ensures NoBrackets(tag)
  {
  }

  lemma TokenIsGroup(tag: Text, n: nat)
    requires IsLabel(tag)
    ensures Token(tag, n)[0] == OPEN_BRACKET && Close(Token(tag, n)) == |Token(tag, n)| - 1
    ensures forall i | 1 <= i < |Token(tag, n)| :: Token(tag, n)[i] != OPEN_BRACKET
  {
    var t, d := Token(tag, n), Decimal(n);
    LabelPlain(tag);
    forall i | 0 < i < |t| - 1 ensures t[i] != CLOSE_BRACKET && t[i] != OPEN_BRACKET {
      if i <= |tag| {
        assert t[i] == tag[i - 1];
      } else if i == |tag| + 1 {
        assert t[i] == UNDERSCORE;
      } else {
        assert t[i] == d[i - |tag| - 2];
      }
    }
    assert t[|t| - 1] == CLOSE_BRACKET;
  }

  /** Numbering a new literal keeps everything consistent; its token is new. */
  lemma FreshToken(tb: Tables, tag: Text, n: nat, literal: Text)
    requires Consistent(tb) && IsLabel(tag) && literal !in tb.seen
    requires n == (if tag in tb.counters then tb.counters[tag] else 0) + 1
    ensures var t := Token(tag, n);
            && t !in tb.reverseMap
            && Consistent(Tables(tb.counters[tag := n], tb.seen[literal := t], tb.reverseMap[t := literal]))
  {
    var t := Token(tag, n);
    var tb' := Tables(tb.counters[tag := n], tb.seen[literal := t], tb.reverseMap[t := literal]);
    assert Entry(tb, t);
    if Issued(tb.counters, t) {
      var tag', k: nat :| tag' in tb.counters && 1 <= k <= tb.counters[tag'] && t == Token(tag', k);
      TokenInjective(tag, n, tag', k);
    }
    forall x ensures Entry(tb', x) {
      assert Entry(tb, x);
      if x in tb.reverseMap { assert Entry(tb, tb.reverseMap[x]); }
      if x in tb.seen { assert Entry(tb, tb.seen[x]); }
      IssuedOneMore(tb.counters, tag, n, x);
    }
  }

  lemma IssuedOneMore(counters: map<Text, nat>, tag: Text, n: nat, x: Text)
    requires n == (if tag in counters then counters[tag] else 0) + 1
    ensures Issued(counters[tag := n], x) <==> x == Token(tag, n) || Issued(counters, x)
  {
    var counters' := counters[tag := n];
    if Issued(counters', x) {
      var tag', k: nat :| tag' in counters' && 1 <= k <= counters'[tag'] && x == Token(tag', k);
      assert (tag' == tag && k == n) || (tag' in counters && k <= counters[tag']);
    }
    if Issued(counters, x) {
      var tag', k: nat :| tag' in counters && 1 <= k <= counters[tag'] && x == Token(tag', k);
      assert tag' in counters' && k <= counters'[tag'];
    }
    assert tag in counters' && 1 <= n <= counters'[tag];
  }

  // ----- Lemmas on restoring ----------------------------------------------------------------

  lemma GroupEnds(a: Text, b: Text)
    requires Close(a) < |a|
    ensures var i := Close(a) + 1;
            Close(a + b) == Close(a) && (a + b)[..i] == a[..i] && (a + b)[i..] == a[i..] + b
  {
    var i := Close(a);
    assert (a + b)[i] == a[i] && forall j | 0 <= j < i :: (a + b)[j] == a[j];
    assert Close(a + b) == i;
    assert (a + b)[..i + 1] == a[..i + 1];
    assert (a + b)[i + 1..] == a[i + 1..] + b;
  }

  lemma Associate(a: Text, b: Text, c: Text)
    ensures a + (b + c) == a + b + c
  {
  }

  /** A token has no bracket inside. */
  lemma InnerFree(s: Text, ok: iset<Text>)
    requires ok <= TOKENS && Starts(s, ok)
    ensures forall k | 1 <= k <= Close(s) :: s[k] != OPEN_BRACKET
  {
    var t := s[..Close(s) + 1];
    var tag, n: nat :| IsLabel(tag) && t == Token(tag, n);
    TokenIsGroup(tag, n);
    assert forall k | 1 <= k <= Close(s) :: s[k] == t[k];
  }

  lemma Shifted(w: Text, i: nat, q: nat)
    requires i <= |w| && q <= |w| - i
    ensures w[i..][q..] == w[i + q..]
  {
  }

  lemma UncutRest(w: Text, i: nat, p: nat, ok: iset<Text>)
    requires i <= p <= |w| && Uncut(w, p, ok)
    ensures Uncut(w[i..], p - i, ok)
  {
    var rest, r := w[i..], p - i;
    forall q | 0 <= q < r ensures UncutAt(rest, r, ok, q) {
      Shifted(w, i, q);
      assert UncutAt(w, p, ok, i + q);
    }
  }

  lemma StartsLonger(a: Text, b: Text, ok: iset<Text>)
    requires Starts(a, ok)
    ensures Starts(a + b, ok) && Close(a + b) == Close(a)
  {
    GroupEnds(a, b);
  }

  lemma GroupInside(a: Text, b: Text)
    requires Close(a + b) < |a|
    ensures var i := Close(a + b) + 1;
            Close(a) == Close(a + b) && (a + b)[..i] == a[..i] && (a + b)[i..] == a[i..] + b
  {
    assert forall j | 0 <= j <= Close(a + b) :: (a + b)[j] == a[j];
    GroupEnds(a, b);
  }

  lemma CutAfterGroup(a: Text, b: Text, reverseMap: map<Text, Text>)
    requires Starts(a + b, KeysOf(reverseMap)) && Close(a + b) < |a|
    requires var i := Close(a + b) + 1;
             Restore(a[i..] + b, reverseMap) == Restore(a[i..], reverseMap) + Restore(b, reverseMap)
    ensures Restore(a + b, reverseMap) == Restore(a, reverseMap) + Restore(b, reverseMap)
  {
    var i := Close(a + b) + 1;
    GroupInside(a, b);
    assert a[0] == (a + b)[0];
    Associate(reverseMap[a[..i]], Restore(a[i..], reverseMap), Restore(b, reverseMap));
  }

  lemma CutAfterUnit(a: Text, b: Text, reverseMap: map<Text, Text>)
    requires a != [] && !Starts(a + b, KeysOf(reverseMap))
    requires Restore(a[1..] + b, reverseMap) == Restore(a[1..], reverseMap) + Restore(b, reverseMap)
    ensures Restore(a + b, reverseMap) == Restore(a, reverseMap) + Restore(b, reverseMap)
  {
    if Starts(a, KeysOf(reverseMap)) { StartsLonger(a, b, KeysOf(reverseMap)); }
    assert (a + b)[1..] == a[1..] + b && a[0] == (a + b)[0];
    Associate([a[0]], Restore(a[1..], reverseMap), Restore(b, reverseMap));
  }

  lemma Drop(a: Text, b: Text, i: nat)
    requires i <= |a|
    ensures (a + b)[i..] == a[i..] + b && |a[i..]| == |a| - i
  {
  }

  lemma UncutFirst(a: Text, b: Text, ok: iset<Text>) returns (i: nat)
    requires a != [] && Uncut(a + b, |a|, ok)
    ensures i == (if Starts(a + b, ok) then Close(a + b) + 1 else 1) && 0 < i <= |a|
    ensures Uncut(a[i..] + b, |a[i..]|, ok)
  {
    var w := a + b;
    i := if Starts(w, ok) then Close(w) + 1 else 1;
    assert w[0..] == w && UncutAt(w, |a|, ok, 0);
    UncutRest(w, i, |a|, ok);
    Drop(a, b, i);
  }

  /** Where no key is cut, both sides can be restored on their own. */
  lemma {:induction false} RestoreCut(a: Text, b: Text, reverseMap: map<Text, Text>)
    requires Uncut(a + b, |a|, KeysOf(reverseMap))
    ensures Restore(a + b, reverseMap) == Restore(a, reverseMap) + Restore(b, reverseMap)
    decreases |a|
  {
    var w, ok := a + b, KeysOf(reverseMap);
    if a == [] {
      assert w == b;
    } else {
      var i := UncutFirst(a, b, ok);
      RestoreCut(a[i..], b, reverseMap);
      if Starts(w, ok) { CutAfterGroup(a, b, reverseMap); } else { CutAfterUnit(a, b, reverseMap); }
    }
  }

  /** Text without `[` stays as it is, whatever follows. */
  lemma {:induction false} RestorePlain(s: Text, x: Text, reverseMap: map<Text, Text>)
    requires NoOpen(s)
    ensures Restore(s + x, reverseMap) == s + Restore(x, reverseMap)
  {
    if s == [] {
      assert s + x == x;
    } else {
      assert (s + x)[1..] == s[1..] + x;
      RestorePlain(s[1..], x, reverseMap);
      assert s == [s[0]] + s[1..];
      Associate([s[0]], s[1..], Restore(x, reverseMap));
    }
  }

  lemma KeysAreTokens(tb: Tables)
    requires Consistent(tb)
    ensures KeysOf(tb.reverseMap) <= TOKENS
  {
    forall t | t in tb.reverseMap ensures t in TOKENS {
      assert Entry(tb, t);
      var tag, n: nat :| tag in tb.counters && 1 <= n <= tb.counters[tag] && t == Token(tag, n);
      assert Entry(tb, tag);
    }
  }

  /** A token put back at the head of a text gives its literal. */
  lemma RestoreToken(tb: Tables, literal: Text, x: Text)
    requires Consistent(tb) && literal in tb.seen
    ensures tb.seen[literal] in TOKENS
    ensures Restore(tb.seen[literal] + x, tb.reverseMap) == literal + Restore(x, tb.reverseMap)
  {
    var t := tb.seen[literal];
    assert Entry(tb, literal) && Entry(tb, t);
    var tag, n: nat :| tag in tb.counters && 1 <= n <= tb.counters[tag] && t == Token(tag, n);
    assert Entry(tb, tag);
    TokenIsGroup(tag, n);
    GroupEnds(t, x);
    assert t[..|t|] == t && t[|t|..] == [] && [] + x == x;
  }

  lemma UncutBeforeToken(a: Text, t: Text, x: Text, ok: iset<Text>)
    requires ok <= TOKENS && t in TOKENS
    ensures Uncut(a + (t + x), |a|, ok)
  {
    var w := a + (t + x);
    var tag, n: nat :| IsLabel(tag) && t == Token(tag, n);
    TokenIsGroup(tag, n);
    forall q | 0 <= q < |a| ensures UncutAt(w, |a|, ok, q) {
      assert w[q..][|a| - q] == OPEN_BRACKET;
      if Starts(w[q..], ok) { InnerFree(w[q..], ok); }
    }
  }

  lemma UncutPrefix(a: Text, b: Text, p: nat, ok: iset<Text>)
    requires p <= |a| && Uncut(a + b, p, ok)
    ensures Uncut(a, p, ok)
  {
    forall q | 0 <= q < p ensures UncutAt(a, p, ok, q) {
      assert (a + b)[q..] == a[q..] + b;
      assert UncutAt(a + b, p, ok, q);
      if Starts(a[q..], ok) { StartsLonger(a[q..], b, ok); }
    }
  }

  lemma UncutFewer(w: Text, p: nat, ok: iset<Text>, all: iset<Text>)
    requires p <= |w| && ok <= all && Uncut(w, p, all)
    ensures Uncut(w, p, ok)
  {
    forall q | 0 <= q < p ensures UncutAt(w, p, ok, q) { assert UncutAt(w, p, all, q); }
  }

  /** The hits of `segs` are safe in the text `w` that begins with them. */
  ghost predicate SafeIn(w: Text, segs: seq<Segment>, ok: iset<Text>) {
    forall i | 0 <= i < |segs| :: SafeHit(w, segs, i, ok)
  }

  lemma SafeFront(w: Text, segs: seq<Segment>, ok: iset<Text>)
    requires segs != [] && SafeIn(w, segs, ok)
    ensures SafeIn(w, segs[..|segs| - 1], ok)
  {
    var front := segs[..|segs| - 1];
    forall i | 0 <= i < |front| ensures SafeHit(w, front, i, ok) {
      assert SafeHit(w, segs, i, ok) && front[..i] == segs[..i];
    }
  }

  lemma {:induction false} FlattenGrows(segs: seq<Segment>, i: nat)
    requires i <= |segs|
    ensures |Flatten(segs[..i])| <= |Flatten(segs)|
  {
    if i < |segs| {
      assert segs[..|segs| - 1][..i] == segs[..i];
      FlattenGrows(segs[..|segs| - 1], i);
    } else {
      assert segs[..i] == segs;
    }
  }

  lemma SafePrefix(w: Text, segs: seq<Segment>, x: Text, ok: iset<Text>)
    requires w == Flatten(segs) + x && SafeIn(w, segs, ok)
    ensures SafeIn(Flatten(segs), segs, ok)
  {
    forall i | 0 <= i < |segs| ensures SafeHit(Flatten(segs), segs, i, ok) {
      assert SafeHit(w, segs, i, ok);
      FlattenGrows(segs, i);
      if segs[i].Hit? { UncutPrefix(Flatten(segs), x, |Flatten(segs[..i])|, ok); }
    }
  }

  /** The text around a hit: before it, the hit or its token, and what follows. */
  lemma HitRestores(a: Text, r: Text, hit: Text, x: Text, tb: Tables)
    requires Consistent(tb) && hit in tb.seen && NoOpen(hit)
    requires Uncut(a + (hit + x), |a|, KeysOf(tb.reverseMap))
    requires Restore(a, tb.reverseMap) == Restore(r, tb.reverseMap)
    ensures Restore(a + (hit + x), tb.reverseMap) == Restore(r + (tb.seen[hit] + x), tb.reverseMap)
  {
    RestoreCut(a, hit + x, tb.reverseMap);
    RestorePlain(hit, x, tb.reverseMap);
    RestoreToken(tb, hit, x);
    KeysAreTokens(tb);
    UncutBeforeToken(r, tb.seen[hit], x, KeysOf(tb.reverseMap));
    RestoreCut(r, tb.seen[hit] + x, tb.reverseMap);
  }

  /** One matcher's replacements can be undone: with its hits replaced a text restores to what it restored
      to before, whatever brackets and tokens it has. */
  lemma {:induction false} PassRestores(segs: seq<Segment>, x: Text, tb: Tables)
    requires Consistent(tb) && HitTexts(segs) <= tb.seen.Keys
    requires SafeIn(Flatten(segs) + x, segs, KeysOf(tb.reverseMap))
    ensures Restore(ReplaceHits(segs, tb.seen) + x, tb.reverseMap) == Restore(Flatten(segs) + x, tb.reverseMap)
    decreases |segs|
  {
    if segs == [] {
    } else {
      var n, ok := |segs| - 1, KeysOf(tb.reverseMap);
      var front, last := segs[..n], segs[n].text;
      var a, r := Flatten(front), ReplaceHits(front, tb.seen);
      var w := Flatten(segs) + x;
      assert w == a + (last + x);
      assert segs[n].Hit? ==> last in HitTexts(segs);
      assert HitTexts(front) <= HitTexts(segs);
      SafeFront(w, segs, ok);
      if segs[n].Hit? {
        assert SafeHit(w, segs, n, ok);
        SafePrefix(w, front, last + x, ok);
        assert a + [] == a && r + [] == r;
        PassRestores(front, [], tb);
        HitRestores(a, r, last, x, tb);
        assert ReplaceHits(segs, tb.seen) + x == r + (tb.seen[last] + x);
      } else {
        PassRestores(front, last + x, tb);
        assert ReplaceHits(segs, tb.seen) + x == r + (last + x);
      }
    }
  }

  /** After any number of matchers a leaf restores to what it would restore to untouched. */
  lemma {:induction false} RedactRestores(s: Text, ms: seq<Matcher>, i: nat, tb: Tables)
    requires i <= |ms| && AllSafe(ms)
    requires Consistent(tb) && Literals(s, ms, i, tb.seen) <= tb.seen.Keys
    ensures Restore(Redact(s, ms, i, tb.seen), tb.reverseMap) == Restore(s, tb.reverseMap)
  {
    if i == 0 {
    } else {
      RedactRestores(s, ms, i - 1, tb);
      var t, m := Redact(s, ms, i - 1, tb.seen), ms[i - 1];
      MatcherSafe(m, t, tb);
      assert t + [] == t && ReplaceHits(m.find(t), tb.seen) + [] == ReplaceHits(m.find(t), tb.seen);
      PassRestores(m.find(t), [], tb);
    }
  }

  lemma MatcherSafe(m: Matcher, t: Text, tb: Tables)
    requires TokenSafe(m) && Consistent(tb)
    ensures Flatten(m.find(t)) == t && SafeIn(t + [], m.find(t), KeysOf(tb.reverseMap))
  {
    KeysAreTokens(tb);
    assert t + [] == t && SafeOn(m, t);
    var segs := m.find(t);
    forall i | 0 <= i < |segs| ensures SafeHit(t, segs, i, KeysOf(tb.reverseMap)) {
      assert SafeHit(t, segs, i, TOKENS);
      if segs[i].Hit? { UncutFewer(t, |Flatten(segs[..i])|, KeysOf(tb.reverseMap), TOKENS); }
    }
  }

  // ----- When a text restores to itself ---------------------------------------------------------

  function Opens(s: Text): nat {
    if s == [] then 0 else (if s[0] == OPEN_BRACKET then 1 else 0) + Opens(s[1..])
  }

  lemma {:induction false} OpensAdd(a: Text, b: Text)
    ensures Opens(a + b) == Opens(a) + Opens(b)
  {
    if a == [] {
      assert a + b == b;
    } else {
      assert (a + b)[1..] == a[1..] + b;
      OpensAdd(a[1..], b);
    }
  }

  lemma {:induction false} OpensNone(s: Text)
    requires NoOpen(s)
    ensures Opens(s) == 0
  {
    if s == [] {
    } else {
      OpensNone(s[1..]);
    }
  }

  lemma ContainsRest(s: Text, ok: iset<Text>)
    requires s != []
    ensures Contains(s, ok) <==> Starts(s, ok) || Contains(s[1..], ok)
  {
    assert s[0..] == s;
    if Contains(s, ok) {
      var q :| 0 <= q < |s| && Starts(s[q..], ok);
      if q > 0 { Shifted(s, 1, q - 1); }
    }
    if Contains(s[1..], ok) {
      var q :| 0 <= q < |s[1..]| && Starts(s[1..][q..], ok);
      Shifted(s, 1, q);
    }
  }

  /** Restoring takes away a `[` for every token it finds. */
  lemma {:induction false} RestoreOpens(s: Text, reverseMap: map<Text, Text>)
    requires forall t | t in reverseMap :: NoOpen(reverseMap[t])
    ensures Opens(Restore(s, reverseMap)) <= Opens(s)
    ensures Contains(s, KeysOf(reverseMap)) ==> Opens(Restore(s, reverseMap)) < Opens(s)
    ensures !Contains(s, KeysOf(reverseMap)) ==> Restore(s, reverseMap) == s
    decreases |s|
  {
    if s == [] {
    } else {
      ContainsRest(s, KeysOf(reverseMap));
      if Starts(s, KeysOf(reverseMap)) {
        var i := Close(s) + 1;
        var group, rest := s[..i], s[i..];
        assert s == group + rest;
        RestoreOpens(rest, reverseMap);
        OpensAdd(group, rest);
        OpensAdd(reverseMap[group], Restore(rest, reverseMap));
        OpensNone(reverseMap[group]);
      } else {
        RestoreOpens(s[1..], reverseMap);
        OpensAdd([s[0]], Restore(s[1..], reverseMap));
        assert s == [s[0]] + s[1..];
      }
    }
  }

  // ----- Lemmas on values ---------------------------------------------------------------------

  /** Tokens given later do not change what was redacted before. */
  lemma {:induction false} RedactStable(
    s: Text, ms: seq<Matcher>, i: nat, seen: map<Text, Text>, seen': map<Text, Text>)
    requires i <= |ms| && Literals(s, ms, i, seen) <= seen.Keys && Extends(seen, seen')
    ensures Redact(s, ms, i, seen') == Redact(s, ms, i, seen) && Literals(s, ms, i, seen') == Literals(s, ms, i, seen)
  {
    if i == 0 {
    } else {
      RedactStable(s, ms, i - 1, seen, seen');
      ReplaceStable(ms[i - 1].find(Redact(s, ms, i - 1, seen)), seen, seen');
    }
  }

  lemma RedactOneMore(s: Text, ms: seq<Matcher>, i: nat, seen: map<Text, Text>, seen': map<Text, Text>)
    requires i < |ms| && Literals(s, ms, i, seen) <= seen.Keys && Extends(seen, seen')
    ensures Redact(s, ms, i + 1, seen') == ReplaceHits(ms[i].find(Redact(s, ms, i, seen)), seen')
    ensures Literals(s, ms, i + 1, seen') == Literals(s, ms, i, seen) + HitTexts(ms[i].find(Redact(s, ms, i, seen)))
  {
    RedactStable(s, ms, i, seen, seen');
  }

  /** What `i` passes over `s` do: from tables `tb0` they lead to `tb`, which adds the literals hit, and
      they leave `text`. */
  ghost predicate PassesDone(s: Text, ms: seq<Matcher>, i: nat, tb0: Tables, tb: Tables, text: Text)
    requires i <= |ms|
  {
    && Extends(tb0.seen, tb.seen) && text == Redact(s, ms, i, tb.seen)
    && tb.seen.Keys == tb0.seen.Keys + Literals(s, ms, i, tb.seen)
    && tb == AssignPasses(tb0, s, ms, i)
  }

  lemma PassesNext(s: Text, ms: seq<Matcher>, i: nat, tb0: Tables, tb: Tables, tb': Tables, text: Text, text': Text)
    requires i < |ms| && PassesDone(s, ms, i, tb0, tb, text)
    requires HitsDone(ms[i].find(text), ms[i].tag, tb, tb', text')
    ensures PassesDone(s, ms, i + 1, tb0, tb', text')
  {
    RedactOneMore(s, ms, i, tb.seen, tb'.seen);
    ExtendsThrough(tb0.seen, tb.seen, tb'.seen);
  }

  /** What the callback does for the hits of `segs`. */
  ghost predicate HitsDone(segs: seq<Segment>, tag: Text, tb0: Tables, tb: Tables, out: Text) {
    && Extends(tb0.seen, tb.seen) && out == ReplaceHits(segs, tb.seen)
    && tb.seen.Keys == tb0.seen.Keys + HitTexts(segs)
    && tb == AssignHits(tb0, tag, segs)
  }

  lemma HitsNext(segs: seq<Segment>, tag: Text, j: nat, tb0: Tables, tb: Tables, out: Text)
    requires j < |segs| && HitsDone(segs[..j], tag, tb0, tb, out)
    ensures var (t, hit) := (segs[j].text, segs[j].Hit?);
            var tb' := if hit then Assign(tb, tag, t) else tb;
            (hit ==> t in tb'.seen) && HitsDone(segs[..j + 1], tag, tb0, tb', out + (if hit then tb'.seen[t] else t))
  {
    assert segs[..j + 1][..j] == segs[..j];
    var tb' := if segs[j].Hit? then Assign(tb, tag, segs[j].text) else tb;
    ReplaceOneMore(segs, j, tb.seen, tb'.seen);
    ExtendsThrough(tb0.seen, tb.seen, tb'.seen);
  }

  lemma {:induction false} ReplaceStable(segs: seq<Segment>, seen: map<Text, Text>, seen': map<Text, Text>)
    requires HitTexts(segs) <= seen.Keys && Extends(seen, seen')
    ensures ReplaceHits(segs, seen') == ReplaceHits(segs, seen)
  {
    if segs == [] {
    } else {
      var n := |segs| - 1;
      assert segs[n].Hit? ==> segs[n].text in HitTexts(segs);
      assert HitTexts(segs[..n]) <= HitTexts(segs);
      ReplaceStable(segs[..n], seen, seen');
    }
  }

  lemma ReplaceOneMore(segs: seq<Segment>, j: nat, seen: map<Text, Text>, seen': map<Text, Text>)
    requires j < |segs| && HitTexts(segs[..j]) <= seen.Keys && Extends(seen, seen')
    ensures HitTexts(segs[..j + 1]) == HitTexts(segs[..j]) + (if segs[j].Hit? then {segs[j].text} else {})
    ensures var t := segs[j].text;
            ReplaceHits(segs[..j + 1], seen')
            == ReplaceHits(segs[..j], seen) + (if segs[j].Hit? && t in seen' then seen'[t] else t)
  {
    var next := segs[..j + 1];
    assert next[..j] == segs[..j] && next[j] == segs[j];
    ReplaceStable(segs[..j], seen, seen');
  }

  lemma {:induction false} ValueStable(v: Value, ms: seq<Matcher>, seen: map<Text, Text>, seen': map<Text, Text>)
    requires ValueLiterals(v, ms, seen) <= seen.Keys && Extends(seen, seen')
    ensures RedactValue(v, ms, seen') == RedactValue(v, ms, seen)
    ensures ValueLiterals(v, ms, seen') == ValueLiterals(v, ms, seen)
    decreases v, 0
  {
    match v
    case String(s) => RedactStable(s, ms, |ms|, seen, seen');
    case Array(items) => ItemsStable(items, ms, seen, seen');
    case Object(os) => MembersStable(os, ms, seen, seen');
    case _ =>
  }

  lemma {:induction false} ItemsStable(
    items: seq<Value>, ms: seq<Matcher>, seen: map<Text, Text>, seen': map<Text, Text>)
    requires ItemsLiterals(items, ms, seen) <= seen.Keys && Extends(seen, seen')
    ensures RedactItems(items, ms, seen') == RedactItems(items, ms, seen)
    ensures ItemsLiterals(items, ms, seen') == ItemsLiterals(items, ms, seen)
    decreases items, 1
  {
    if items == [] {
    } else {
      ItemsStable(items[..|items| - 1], ms, seen, seen');
      ValueStable(items[|items| - 1], ms, seen, seen');
    }
  }

  lemma {:induction false} MembersStable(
    os: seq<Member>, ms: seq<Matcher>, seen: map<Text, Text>, seen': map<Text, Text>)
    requires MembersLiterals(os, ms, seen) <= seen.Keys && Extends(seen, seen')
    ensures RedactMembers(os, ms, seen') == RedactMembers(os, ms, seen)
    ensures MembersLiterals(os, ms, seen') == MembersLiterals(os, ms, seen)
    decreases os, 1
  {
    if os == [] {
    } else {
      MembersStable(os[..|os| - 1], ms, seen, seen');
      ValueStable(os[|os| - 1].value, ms, seen, seen');
    }
  }

  /** What walking `v` does. */
  ghost predicate ValueDone(v: Value, ms: seq<Matcher>, tb0: Tables, tb: Tables, r: Value) {
    && Extends(tb0.seen, tb.seen) && r == RedactValue(v, ms, tb.seen)
    && tb.seen.Keys == tb0.seen.Keys + ValueLiterals(v, ms, tb.seen)
    && tb == AssignValue(tb0, v, ms)
  }

  ghost predicate ItemsDone(items: seq<Value>, ms: seq<Matcher>, tb0: Tables, tb: Tables, out: seq<Value>) {
    && Extends(tb0.seen, tb.seen) && out == RedactItems(items, ms, tb.seen)
    && tb.seen.Keys == tb0.seen.Keys + ItemsLiterals(items, ms, tb.seen)
    && tb == AssignItems(tb0, items, ms)
  }

  ghost predicate MembersDone(os: seq<Member>, ms: seq<Matcher>, tb0: Tables, tb: Tables, out: seq<Member>) {
    && Extends(tb0.seen, tb.seen) && out == RedactMembers(os, ms, tb.seen)
    && tb.seen.Keys == tb0.seen.Keys + MembersLiterals(os, ms, tb.seen)
    && tb == AssignMembers(tb0, os, ms)
  }

  lemma ItemsNext(
    items: seq<Value>, i: nat, ms: seq<Matcher>, tb0: Tables, tb: Tables, tb': Tables, out: seq<Value>, item: Value)
    requires i < |items| && ItemsDone(items[..i], ms, tb0, tb, out) && ValueDone(items[i], ms, tb, tb', item)
    ensures ItemsDone(items[..i + 1], ms, tb0, tb', out + [item])
  {
    assert items[..i + 1][..i] == items[..i];
    ItemsStable(items[..i], ms, tb.seen, tb'.seen);
    ExtendsThrough(tb0.seen, tb.seen, tb'.seen);
  }

  lemma MembersNext(
    os: seq<Member>, i: nat, ms: seq<Matcher>, tb0: Tables, tb: Tables, tb': Tables, out: seq<Member>, item: Value)
    requires i < |os| && MembersDone(os[..i], ms, tb0, tb, out) && ValueDone(os[i].value, ms, tb, tb', item)
    ensures var next := if os[i].key == PROTO then out else out + [Member(os[i].key, item)];
            MembersDone(os[..i + 1], ms, tb0, tb', next)
  {
    assert os[..i + 1][..i] == os[..i];
    MembersStable(os[..i], ms, tb.seen, tb'.seen);
    ExtendsThrough(tb0.seen, tb.seen, tb'.seen);
  }

  /** The redacted value restores to what the value would restore to untouched, `__proto__` aside. */
  lemma {:induction false} ValueRestores(v: Value, ms: seq<Matcher>, tb: Tables)
    requires AllSafe(ms)
    requires Consistent(tb) && ValueLiterals(v, ms, tb.seen) <= tb.seen.Keys
    ensures RestoreValue(RedactValue(v, ms, tb.seen), tb.reverseMap) == RestoreValue(WithoutProto(v), tb.reverseMap)
    decreases v, 0
  {
    match v
    case String(s) => RedactRestores(s, ms, |ms|, tb);
    case Array(items) => ItemsRestore(items, ms, tb);
    case Object(os) => MembersRestore(os, ms, tb);
    case _ =>
  }

  lemma RestoreOneMore(items: seq<Value>, item: Value, reverseMap: map<Text, Text>)
    ensures RestoreValue(Array(items + [item]), reverseMap)
         == Array(RestoreValue(Array(items), reverseMap).items + [RestoreValue(item, reverseMap)])
  {
  }

  lemma {:induction false} ItemsRestore(items: seq<Value>, ms: seq<Matcher>, tb: Tables)
    requires ItemsLiterals(items, ms, tb.seen) <= tb.seen.Keys
    requires AllSafe(ms) && Consistent(tb)
    ensures RestoreValue(Array(RedactItems(items, ms, tb.seen)), tb.reverseMap)
         == RestoreValue(WithoutProto(Array(items)), tb.reverseMap)
    decreases items, 1
  {
    if items == [] {
    } else {
      var n := |items| - 1;
      ItemsRestore(items[..n], ms, tb);
      ValueRestores(items[n], ms, tb);
      RestoreOneMore(RedactItems(items[..n], ms, tb.seen), RedactValue(items[n], ms, tb.seen), tb.reverseMap);
      RestoreOneMore(WithoutProto(Array(items[..n])).items, WithoutProto(items[n]), tb.reverseMap);
      assert WithoutProto(Array(items)).items == WithoutProto(Array(items[..n])).items + [WithoutProto(items[n])];
    }
  }

  lemma RestoreMemberMore(os: seq<Member>, o: Member, reverseMap: map<Text, Text>)
    ensures RestoreValue(Object(os + [o]), reverseMap)
         == Object(RestoreValue(Object(os), reverseMap).members + [Member(o.key, RestoreValue(o.value, reverseMap))])
  {
  }

  lemma {:induction false} MembersRestore(os: seq<Member>, ms: seq<Matcher>, tb: Tables)
    requires MembersLiterals(os, ms, tb.seen) <= tb.seen.Keys
    requires AllSafe(ms) && Consistent(tb)
    ensures RestoreValue(Object(RedactMembers(os, ms, tb.seen)), tb.reverseMap)
         == RestoreValue(Object(MembersWithoutProto(os)), tb.reverseMap)
    decreases os, 1
  {
    if os == [] {
    } else {
      var front, o := os[..|os| - 1], os[|os| - 1];
      MembersRestore(front, ms, tb);
      ValueRestores(o.value, ms, tb);
      var a, b := RedactMembers(front, ms, tb.seen), MembersWithoutProto(front);
      RestoreMemberMore(a, Member(o.key, RedactValue(o.value, ms, tb.seen)), tb.reverseMap);
      RestoreMemberMore(b, Member(o.key, WithoutProto(o.value)), tb.reverseMap);
      assert a + [] == a && b + [] == b;
    }
  }

  /** A value restores to itself exactly when no leaf contains a token of the reverse map. */
  lemma {:induction false} RestoresToItself(v: Value, reverseMap: map<Text, Text>)
    requires forall t | t in reverseMap :: NoOpen(reverseMap[t])
    ensures RestoreValue(v, reverseMap) == v <==> !HasToken(v, KeysOf(reverseMap))
  {
    match v
    case String(s) => RestoreOpens(s, reverseMap);
    case Array(items) =>
      forall i | 0 <= i < |items|
        ensures RestoreValue(items[i], reverseMap) == items[i] <==> !HasToken(items[i], KeysOf(reverseMap))
      {
        RestoresToItself(items[i], reverseMap);
      }
      ItemsSame(items, reverseMap);
    case Object(os) =>
      forall i | 0 <= i < |os|
        ensures RestoreValue(os[i].value, reverseMap) == os[i].value <==> !HasToken(os[i].value, KeysOf(reverseMap))
      {
        RestoresToItself(os[i].value, reverseMap);
      }
      MembersSame(os, reverseMap);
    case _ =>
  }

  lemma ItemsSame(items: seq<Value>, reverseMap: map<Text, Text>)
    ensures RestoreValue(Array(items), reverseMap) == Array(items)
       <==> forall i | 0 <= i < |items| :: RestoreValue(items[i], reverseMap) == items[i]
  {
    var w := RestoreValue(Array(items), reverseMap);
    assert forall i | 0 <= i < |items| :: w.items[i] == RestoreValue(items[i], reverseMap);
    assert w == Array(items) <==> w.items == items;
  }

  lemma MembersSame(os: seq<Member>, reverseMap: map<Text, Text>)
    ensures RestoreValue(Object(os), reverseMap) == Object(os)
       <==> forall i | 0 <= i < |os| :: RestoreValue(os[i].value, reverseMap) == os[i].value
  {
    var w := RestoreValue(Object(os), reverseMap);
    assert forall i | 0 <= i < |os| :: w.members[i] == Member(os[i].key, RestoreValue(os[i].value, reverseMap));
    assert w == Object(os) <==> w.members == os;
    if forall i | 0 <= i < |os| :: RestoreValue(os[i].value, reverseMap) == os[i].value {
      assert forall i | 0 <= i < |os| :: w.members[i] == os[i];
    }
  }

  lemma {:induction false} RestoreKeepsKeys(v: Value, reverseMap: map<Text, Text>, k: Text)
    ensures HasKey(RestoreValue(v, reverseMap), k) <==> HasKey(v, k)
  {
    var w := RestoreValue(v, reverseMap);
    match v
    case Array(items) =>
      forall i | 0 <= i < |items| ensures HasKey(w.items[i], k) <==> HasKey(items[i], k) {
        RestoreKeepsKeys(items[i], reverseMap, k);
      }
    case Object(os) =>
      forall i | 0 <= i < |os|
        ensures w.members[i].key == os[i].key && (HasKey(w.members[i].value, k) <==> HasKey(os[i].value, k))
      {
        RestoreKeepsKeys(os[i].value, reverseMap, k);
      }
    case _ =>
  }

  lemma {:induction false} ProtoIsGone(v: Value)
    ensures !HasKey(WithoutProto(v), PROTO)
    decreases v, 0
  {
    match v
    case Array(items) =>
      forall i | 0 <= i < |items| ensures !HasKey(WithoutProto(items[i]), PROTO) { ProtoIsGone(items[i]); }
    case Object(os) => ProtoIsGoneFrom(os);
    case _ =>
  }

  lemma {:induction false} ProtoIsGoneFrom(os: seq<Member>)
    ensures forall i | 0 <= i < |MembersWithoutProto(os)| ::
              MembersWithoutProto(os)[i].key != PROTO && !HasKey(MembersWithoutProto(os)[i].value, PROTO)
    decreases os, 1
  {
    if os == [] {
    } else {
      ProtoIsGoneFrom(os[..|os| - 1]);
      ProtoIsGone(os[|os| - 1].value);
    }
  }

  // ----- Literals have no brackets --------------------------------------------------------------------

  ghost predicate AllPlain(literals: set<Text>) {
    forall l | l in literals :: NoOpen(l)
  }

  lemma HitsPlain(m: Matcher, t: Text)
    requires TokenSafe(m)
    ensures AllPlain(HitTexts(m.find(t)))
  {
    var segs := m.find(t);
    assert SafeOn(m, t);
    forall l | l in HitTexts(segs) ensures NoOpen(l) {
      var j :| 0 <= j < |segs| && segs[j].Hit? && segs[j].text == l;
      assert SafeHit(t, segs, j, TOKENS);
    }
  }

  lemma {:induction false} LiteralsPlain(s: Text, ms: seq<Matcher>, i: nat, seen: map<Text, Text>)
    requires i <= |ms| && AllSafe(ms)
    ensures AllPlain(Literals(s, ms, i, seen))
  {
    if i == 0 {
    } else {
      LiteralsPlain(s, ms, i - 1, seen);
      HitsPlain(ms[i - 1], Redact(s, ms, i - 1, seen));
    }
  }

  lemma {:induction false} ValueLiteralsPlain(v: Value, ms: seq<Matcher>, seen: map<Text, Text>)
    requires AllSafe(ms)
    ensures AllPlain(ValueLiterals(v, ms, seen))
    decreases v, 0
  {
    match v
    case String(s) => LiteralsPlain(s, ms, |ms|, seen);
    case Array(items) => ItemsLiteralsPlain(items, ms, seen);
    case Object(os) => MembersLiteralsPlain(os, ms, seen);
    case _ =>
  }

  lemma {:induction false} ItemsLiteralsPlain(items: seq<Value>, ms: seq<Matcher>, seen: map<Text, Text>)
    requires AllSafe(ms)
    ensures AllPlain(ItemsLiterals(items, ms, seen))
    decreases items, 1
  {
    if items == [] {
    } else {
      ItemsLiteralsPlain(items[..|items| - 1], ms, seen);
      ValueLiteralsPlain(items[|items| - 1], ms, seen);
    }
  }

  lemma {:induction false} MembersLiteralsPlain(os: seq<Member>, ms: seq<Matcher>, seen: map<Text, Text>)
    requires AllSafe(ms)
    ensures AllPlain(MembersLiterals(os, ms, seen))
    decreases os, 1
  {
    if os == [] {
    } else {
      MembersLiteralsPlain(os[..|os| - 1], ms, seen);
      ValueLiteralsPlain(os[|os| - 1].value, ms, seen);
    }
  }

  // ----- The round trip -----------------------------------------------------------------------------------

  /** What a call of `tokenize` with matchers `ms` returns for `v`: the tables that its hits build up
      decide every replacement in every leaf and pass, they hold the literals hit and no other, and
      the reverse map is the inverse of the table of tokens. */
  ghost predicate IsRedaction(v: Value, ms: seq<Matcher>, redacted: Value, reverseMap: map<Text, Text>) {
    var tb := TablesOf(v, ms);
    && Consistent(tb) && tb.seen.Keys == ValueLiterals(v, ms, tb.seen)
    && redacted == RedactValue(v, ms, tb.seen) && reverseMap == tb.reverseMap
  }

  lemma RedactionLiterals(v: Value, ms: seq<Matcher>, redacted: Value, reverseMap: map<Text, Text>)
    requires AllSafe(ms)
    requires IsRedaction(v, ms, redacted, reverseMap)
    ensures forall t | t in reverseMap :: NoOpen(reverseMap[t])
  {
    var tb := TablesOf(v, ms);
    ValueLiteralsPlain(v, ms, tb.seen);
    forall t | t in reverseMap ensures NoOpen(reverseMap[t]) { assert Entry(tb, t); }
  }

  /** Round trip: putting the literals back in the redacted value gives the value, if and only if it has no
      `__proto__` key and no leaf contains a token that was issued; a `__proto__` member is lost, and a
      forged token becomes the literal of the true one. No literal has two tokens. */
  lemma RoundTrip(v: Value, ms: seq<Matcher>, redacted: Value, reverseMap: map<Text, Text>)
    requires AllSafe(ms)
    requires IsRedaction(v, ms, redacted, reverseMap)
    ensures RestoreValue(redacted, reverseMap) == RestoreValue(WithoutProto(v), reverseMap)
    ensures RestoreValue(redacted, reverseMap) == WithoutProto(v) <==> !HasToken(WithoutProto(v), KeysOf(reverseMap))
    ensures RestoreValue(redacted, reverseMap) == v <==> !HasKey(v, PROTO) && !HasToken(v, KeysOf(reverseMap))
    ensures forall t, t' | t in reverseMap && t' in reverseMap && reverseMap[t] == reverseMap[t'] :: t == t'
  {
    var tb, w := TablesOf(v, ms), WithoutProto(v);
    ValueRestores(v, ms, tb);
    RedactionLiterals(v, ms, redacted, reverseMap);
    RestoresToItself(w, reverseMap);
    WithoutProtoSame(v);
    ProtoIsGone(v);
    RestoreKeepsKeys(w, reverseMap, PROTO);
    forall t, t' | t in reverseMap && t' in reverseMap && reverseMap[t] == reverseMap[t'] ensures t == t' {
      assert Entry(tb, t) && Entry(tb, t');
    }
  }

  lemma {:induction false} FewerTokens(v: Value, ok: iset<Text>, all: iset<Text>)
    requires ok <= all && HasToken(v, ok)
    ensures HasToken(v, all)
  {
    match v
    case String(s) =>
      var q :| 0 <= q < |s| && Starts(s[q..], ok);
      assert Starts(s[q..], all);
    case Array(items) =>
      var i :| 0 <= i < |items| && HasToken(items[i], ok);
      FewerTokens(items[i], ok, all);
    case Object(os) =>
      var i :| 0 <= i < |os| && HasToken(os[i].value, ok);
      FewerTokens(os[i].value, ok, all);
    case _ =>
  }

  /** What a caller can see beforehand: a value with no text in the shape of a token (in particular one
      without `[`) and no `__proto__` key makes the round trip, whatever is redacted. */
  lemma RoundTripWithoutTokens(v: Value, ms: seq<Matcher>, redacted: Value, reverseMap: map<Text, Text>)
    requires !HasToken(v, TOKENS) && !HasKey(v, PROTO) && AllSafe(ms)
    requires IsRedaction(v, ms, redacted, reverseMap)
    ensures RestoreValue(redacted, reverseMap) == v
  {
    RoundTrip(v, ms, redacted, reverseMap);
    KeysAreTokens(TablesOf(v, ms));
    if HasToken(v, KeysOf(reverseMap)) { FewerTokens(v, KeysOf(reverseMap), TOKENS); }
  }

  /** The literals whose token has label `tag`: those that a matcher of that label hit first. */
  ghost function Under(seen: map<Text, Text>, tag: Text): set<Text> {
    set l | l in seen && exists n: nat :: seen[l] == Token(tag, n)
  }

  /** The first `n` of them in the order of their numbers. */
  ghost function FirstUnder(tb: Tables, tag: Text, n: nat): set<Text>
    requires forall k | 1 <= k <= n :: Token(tag, k) in tb.reverseMap
  {
    if n == 0 then {} else FirstUnder(tb, tag, n - 1) + {tb.reverseMap[Token(tag, n)]}
  }

  ghost predicate Numbered(tb: Tables, tag: Text, n: nat, l: Text) {
    exists k: nat :: 1 <= k <= n && Token(tag, k) in tb.reverseMap && tb.reverseMap[Token(tag, k)] == l
  }

  lemma {:induction false} FirstUnderAre(tb: Tables, tag: Text, n: nat, l: Text)
    requires forall k | 1 <= k <= n :: Token(tag, k) in tb.reverseMap
    ensures l in FirstUnder(tb, tag, n) <==> Numbered(tb, tag, n, l)
  {
    if n == 0 {
    } else {
      FirstUnderAre(tb, tag, n - 1, l);
      assert tb.reverseMap[Token(tag, n)] == l ==> Numbered(tb, tag, n, l);
      if Numbered(tb, tag, n - 1, l) {
        var k: nat :| 1 <= k <= n - 1 && Token(tag, k) in tb.reverseMap && tb.reverseMap[Token(tag, k)] == l;
        assert 1 <= k <= n;
      }
    }
  }

  lemma NotNumberedBefore(tb: Tables, tag: Text, n: nat)
    requires Consistent(tb) && n > 0 && Token(tag, n) in tb.reverseMap
    ensures !Numbered(tb, tag, n - 1, tb.reverseMap[Token(tag, n)])
  {
    forall k: nat | 1 <= k <= n - 1 && Token(tag, k) in tb.reverseMap
      ensures tb.reverseMap[Token(tag, k)] != tb.reverseMap[Token(tag, n)]
    {
      assert Entry(tb, Token(tag, n)) && Entry(tb, Token(tag, k));
      if Token(tag, k) == Token(tag, n) { TokenInjective(tag, k, tag, n); }
    }
  }

  lemma {:induction false} FirstUnderCounts(tb: Tables, tag: Text, n: nat)
    requires Consistent(tb) && forall k | 1 <= k <= n :: Token(tag, k) in tb.reverseMap
    ensures |FirstUnder(tb, tag, n)| == n
  {
    if n == 0 {
    } else {
      FirstUnderCounts(tb, tag, n - 1);
      FirstUnderAre(tb, tag, n - 1, tb.reverseMap[Token(tag, n)]);
      NotNumberedBefore(tb, tag, n);
    }
  }

  lemma CountIsUnder(tb: Tables, tag: Text)
    requires Consistent(tb)
    ensures |Under(tb.seen, tag)| == if tag in tb.counters then tb.counters[tag] else 0
  {
    var n := if tag in tb.counters then tb.counters[tag] else 0;
    forall k: nat | 1 <= k <= n ensures Token(tag, k) in tb.reverseMap { assert Entry(tb, Token(tag, k)); }
    FirstUnderCounts(tb, tag, n);
    forall l ensures l in Under(tb.seen, tag) <==> l in FirstUnder(tb, tag, n) {
      FirstUnderAre(tb, tag, n, l);
      UnderIsNumbered(tb, tag, n, l);
    }
    assert Under(tb.seen, tag) == FirstUnder(tb, tag, n);
  }

  lemma UnderIsNumbered(tb: Tables, tag: Text, n: nat, l: Text)
    requires Consistent(tb) && n == (if tag in tb.counters then tb.counters[tag] else 0)
    ensures l in Under(tb.seen, tag) <==> Numbered(tb, tag, n, l)
  {
    if l in Under(tb.seen, tag) {
      var k: nat :| tb.seen[l] == Token(tag, k);
      assert Entry(tb, l) && Entry(tb, Token(tag, k));
      var tag', m: nat :| tag' in tb.counters && 1 <= m <= tb.counters[tag'] && Token(tag, k) == Token(tag', m);
      TokenInjective(tag, k, tag', m);
      assert 1 <= k <= n;
    }
    if Numbered(tb, tag, n, l) {
      var k: nat :| 1 <= k <= n && Token(tag, k) in tb.reverseMap && tb.reverseMap[Token(tag, k)] == l;
      assert Entry(tb, Token(tag, k));
    }
  }

  /** Which tokens are issued: under each label they are numbered from one to the number of distinct
      literals it was the first to hit. */
  lemma IssuedExactly(v: Value, ms: seq<Matcher>, redacted: Value, reverseMap: map<Text, Text>, t: Text)
    requires IsRedaction(v, ms, redacted, reverseMap)
    ensures t in reverseMap <==>
            exists tag, n: nat :: 1 <= n <= |Under(TablesOf(v, ms).seen, tag)| && t == Token(tag, n)
  {
    var tb := TablesOf(v, ms);
    assert Entry(tb, t);
    if t in reverseMap {
      var tag, n: nat :| tag in tb.counters && 1 <= n <= tb.counters[tag] && t == Token(tag, n);
      CountIsUnder(tb, tag);
    }
    if tag, n: nat :| 1 <= n <= |Under(tb.seen, tag)| && t == Token(tag, n) {
      CountIsUnder(tb, tag);
      assert Issued(tb.counters, t);
    }
  }

  // A matcher for the one literal `a@b`, and a value that holds it beside the text of its token.
  const LITERAL: Text := [97, 64, 98]
  const FIRST: Text := Token(EMAIL, 1)
  const EXACT := Matcher(EMAIL, (s: Text) => if s == LITERAL then [Hit(s)] else [Plain(s)])
  const FORGED := Array([String(LITERAL), String(FIRST)])

  lemma ExactIsSafe()
    ensures TokenSafe(EXACT)
  {
    forall s: Text ensures SafeOn(EXACT, s) {
      var segs := EXACT.find(s);
      assert segs[..0] == [] && Flatten([]) == [];
      assert SafeHit(s, segs, 0, TOKENS);
    }
  }

  lemma RedactExact(seen: map<Text, Text>, s: Text)
    requires seen == map[LITERAL := FIRST] && (s == LITERAL || s == FIRST)
    ensures Redact(s, [EXACT], 1, seen) == FIRST
    ensures Literals(s, [EXACT], 1, seen) == if s == LITERAL then {LITERAL} else {}
  {
    var segs := EXACT.find(s);
    assert FIRST[0] == OPEN_BRACKET && LITERAL[0] != OPEN_BRACKET;
    assert Redact(s, [EXACT], 0, seen) == s && Literals(s, [EXACT], 0, seen) == {};
    assert segs[..0] == [] && ReplaceHits([], seen) == [];
    assert ReplaceHits(segs, seen) == FIRST;
    assert HitTexts(segs) == if s == LITERAL then {LITERAL} else {};
  }

  const FORGED_TABLES := Tables(map[EMAIL := 1], map[LITERAL := FIRST], map[FIRST := LITERAL])
  const REDACTED := Array([String(FIRST), String(FIRST)])

  lemma ForgedTablesFit()
    ensures Consistent(FORGED_TABLES)
  {
    forall x ensures Entry(FORGED_TABLES, x) { IssuedOneMore(map[], EMAIL, 1, x); }
  }

  lemma ForgedRedacts()
    ensures RedactValue(FORGED, [EXACT], FORGED_TABLES.seen) == REDACTED
    ensures ValueLiterals(FORGED, [EXACT], FORGED_TABLES.seen) == {LITERAL}
  {
    var seen, ms, one, two := FORGED_TABLES.seen, [EXACT], [String(LITERAL)], [String(LITERAL), String(FIRST)];
    RedactExact(seen, LITERAL);
    RedactExact(seen, FIRST);
    assert RedactValue(String(LITERAL), ms, seen) == String(FIRST) == RedactValue(String(FIRST), ms, seen);
    assert ValueLiterals(String(LITERAL), ms, seen) == {LITERAL} && ValueLiterals(String(FIRST), ms, seen) == {};
    assert two[..1] == one && one[..0] == [];
    assert RedactItems([], ms, seen) == [] && ItemsLiterals([], ms, seen) == {};
    assert RedactItems(one, ms, seen) == [String(FIRST)] && ItemsLiterals(one, ms, seen) == {LITERAL};
    assert RedactItems(two, ms, seen) == REDACTED.items && ItemsLiterals(two, ms, seen) == {LITERAL};
  }

  lemma AssignExact(tb: Tables, s: Text)
    ensures s == LITERAL ==> AssignValue(tb, String(s), [EXACT]) == Assign(tb, EMAIL, LITERAL)
    ensures s != LITERAL ==> AssignValue(tb, String(s), [EXACT]) == tb
  {
    var segs, ms := EXACT.find(s), [EXACT];
    assert AssignPasses(tb, s, ms, 0) == tb && Redact(s, ms, 0, tb.seen) == s;
    assert segs[..0] == [] && AssignHits(tb, EMAIL, []) == tb;
    assert AssignPasses(tb, s, ms, 1) == AssignHits(tb, EMAIL, segs);
  }

  lemma ForgedTables()
    ensures TablesOf(FORGED, [EXACT]) == FORGED_TABLES
  {
    var ms, one, two := [EXACT], [String(LITERAL)], [String(LITERAL), String(FIRST)];
    assert FIRST[0] == OPEN_BRACKET && LITERAL[0] != OPEN_BRACKET;
    AssignExact(NO_TABLES, LITERAL);
    AssignExact(FORGED_TABLES, FIRST);
    assert Assign(NO_TABLES, EMAIL, LITERAL) == FORGED_TABLES;
    assert one[..0] == [] && AssignItems(NO_TABLES, [], ms) == NO_TABLES;
    assert AssignItems(NO_TABLES, one, ms) == FORGED_TABLES;
    assert two[..1] == one;
    assert AssignItems(NO_TABLES, two, ms) == FORGED_TABLES;
  }

  lemma ForgedDiffers(reverseMap: map<Text, Text>)
    ensures RestoreValue(REDACTED, reverseMap) != FORGED
  {
    var back := RestoreValue(REDACTED, reverseMap);
    assert back.items[0] == back.items[1];
    assert LITERAL[0] != FIRST[0];
  }

  /** A leaf that already reads like a token is mistaken for one when the literals are put back. */
  lemma ForgedTokenCollides()
    ensures TokenSafe(EXACT) && IsRedaction(FORGED, [EXACT], REDACTED, FORGED_TABLES.reverseMap)
    ensures RestoreValue(REDACTED, FORGED_TABLES.reverseMap) != FORGED
  {
    ExactIsSafe();
    ForgedTablesFit();
    ForgedRedacts();
    ForgedTables();
    ForgedDiffers(FORGED_TABLES.reverseMap);
  }

  // ----- The program ----------------------------------------------------------------------------

  /** The state shared by the inner functions of one `tokenize` call. */
  class Tokenizer {
    const specs: seq<Matcher>
    var counters: map<Text, nat>
    var seen: map<Text, Text>
    var reverseMap: map<Text, Text>

    ghost function Table(): Tables reads this { Tables(counters, seen, reverseMap) }

    ghost predicate Valid() reads this {
      && Consistent(Table())
      && forall k | 0 <= k < |specs| :: IsLabel(specs[k].tag)
    }

    constructor (specs: seq<Matcher>)
      requires forall k | 0 <= k < |specs| :: IsLabel(specs[k].tag)
      ensures Valid() && this.specs == specs && Table() == NO_TABLES
    {
      this.specs := specs;
      counters, seen, reverseMap := map[], map[], map[];
    }

    method NextToken(tag: Text) returns (t: Text)
      modifies this`counters
      ensures counters == old(counters)[tag := (if tag in old(counters) then old(counters)[tag] else 0) + 1]
      ensures t == Token(tag, counters[tag])
    {
      counters := counters[tag := (if tag in counters then counters[tag] else 0) + 1];
      t := Token(tag, counters[tag]);
    }

    /** The replacement callback for one hit. */
    method TokenFor(tag: Text, literal: Text) returns (t: Text)
      requires Valid() && IsLabel(tag)
      modifies this
      ensures Valid() && Extends(old(seen), seen)
      ensures seen.Keys == old(seen.Keys) + {literal} && t == seen[literal]
      ensures Table() == Assign(old(Table()), tag, literal)
    {
      if literal !in seen {
        ghost var n := (if tag in counters then counters[tag] else 0) + 1;
        FreshToken(Tables(counters, seen, reverseMap), tag, n, literal);
        t := NextToken(tag);
        seen := seen[literal := t];
        reverseMap := reverseMap[t := literal];
      }
      t := seen[literal];
    }

    /** `result.replace(spec.pattern, callback)`. */
    method Replace(spec: Matcher, text: Text) returns (out: Text)
      requires Valid() && IsLabel(spec.tag)
      modifies this
      ensures Valid() && HitsDone(spec.find(text), spec.tag, old(Table()), Table(), out)
    {
      var segs := spec.find(text);
      out := [];
      for j := 0 to |segs|
        invariant Valid() && HitsDone(segs[..j], spec.tag, old(Table()), Table(), out)
      {
        HitsNext(segs, spec.tag, j, old(Table()), Table(), out);
        var t := segs[j].text;
        if segs[j].Hit? { t := TokenFor(spec.tag, t); }
        out := out + t;
      }
      assert segs[..|segs|] == segs;
    }

    method RedactString(input: Text) returns (result: Text)
      requires Valid()
      modifies this
      ensures Valid() && PassesDone(input, specs, |specs|, old(Table()), Table(), result)
    {
      result := input;
      for i := 0 to |specs|
        invariant Valid() && PassesDone(input, specs, i, old(Table()), Table(), result)
      {
        ghost var tb, text := Table(), result;
        result := Replace(specs[i], result);
        PassesNext(input, specs, i, old(Table()), tb, Table(), text, result);
      }
    }

    method Walk(node: Value) returns (r: Value)
      requires Valid()
      modifies this
      ensures Valid() && ValueDone(node, specs, old(Table()), Table(), r)
      decreases node
    {
      match node
      case String(s) =>
        var redacted := RedactString(s);
        r := String(redacted);
      case Array(items) =>
        var out: seq<Value> := [];
        for i := 0 to |items|
          invariant Valid() && ItemsDone(items[..i], specs, old(Table()), Table(), out)
        {
          ghost var tb := Table();
          var item := Walk(items[i]);
          ItemsNext(items, i, specs, old(Table()), tb, Table(), out, item);
          out := out + [item];
        }
        assert items[..|items|] == items;
        r := Array(out);
      case Object(os) =>
        var out: seq<Member> := [];
        for i := 0 to |os|
          invariant Valid() && MembersDone(os[..i], specs, old(Table()), Table(), out)
        {
          ghost var tb := Table();
          var item := Walk(os[i].value);
          MembersNext(os, i, specs, old(Table()), tb, Table(), out, item);
          if os[i].key != PROTO { out := out + [Member(os[i].key, item)]; }
        }
        assert os[..|os|] == os;
        r := Object(out);
      case _ => r := node;
    }
  }

  /** The matchers that `names` select; unknown names are skipped. */
  function Active(names: seq<Text>, builtin: map<Text, Matcher>): seq<Matcher> {
    if names == [] then []
    else
      var last := names[|names| - 1];
      Active(names[..|names| - 1], builtin) + (if last in builtin then [builtin[last]] else [])
  }

  /** The positions of the known names. */
  function Known(names: seq<Text>, builtin: map<Text, Matcher>): set<nat> {
    set i: nat | i < |names| && names[i] in builtin
  }

  /** `ms` are the matchers of the known names, in the order of the names. */
  ghost predicate Selected(names: seq<Text>, builtin: map<Text, Matcher>, ms: seq<Matcher>) {
    var at := Positions(Known(names, builtin), |names|);
    && |ms| == |at|
    && forall j | 0 <= j < |at| :: at[j] < |names| && names[at[j]] in builtin && ms[j] == builtin[names[at[j]]]
  }

  lemma {:induction false} ActiveSelected(names: seq<Text>, builtin: map<Text, Matcher>)
    ensures Selected(names, builtin, Active(names, builtin))
  {
    if names == [] {
    } else {
      var n := |names| - 1;
      ActiveSelected(names[..n], builtin);
      PositionsSame(Known(names[..n], builtin), Known(names, builtin), n);
    }
  }

  lemma NoneSelected(names: seq<Text>, builtin: map<Text, Matcher>)
    ensures Active(names, builtin) == [] <==> Known(names, builtin) == {}
  {
    ActiveSelected(names, builtin);
    PositionsAscend(Known(names, builtin), |names|);
    forall k | k in Known(names, builtin) ensures Positions(Known(names, builtin), |names|) != [] {
      PositionsListed(Known(names, builtin), |names|, k);
    }
    var at := Positions(Known(names, builtin), |names|);
    if at != [] { assert at[0] in Known(names, builtin); }
  }

  lemma SelectedUnique(names: seq<Text>, builtin: map<Text, Matcher>)
    ensures forall ms | Selected(names, builtin, ms) :: ms == Active(names, builtin)
  {
    ActiveSelected(names, builtin);
  }

  method Tokenize(value: Value, names: seq<Text>, builtin: map<Text, Matcher>)
    returns (redacted: Value, reverseMap: map<Text, Text>)
    requires forall k | k in builtin :: IsLabel(builtin[k].tag)
    ensures Selected(names, builtin, Active(names, builtin))
    ensures forall ms | Selected(names, builtin, ms) ::
              if ms == [] then redacted == value && reverseMap == map[]
              else IsRedaction(value, ms, redacted, reverseMap)
    ensures Known(names, builtin) != {} && (forall k | k in builtin :: TokenSafe(builtin[k])) ==>
              (RestoreValue(redacted, reverseMap) == value
               <==> !HasKey(value, PROTO) && !HasToken(value, KeysOf(reverseMap)))
  {
    ghost var safe := forall k | k in builtin :: TokenSafe(builtin[k]);
    var active: seq<Matcher> := [];
    for i := 0 to |names|
      invariant active == Active(names[..i], builtin)
      invariant forall k | 0 <= k < |active| :: IsLabel(active[k].tag) && (safe ==> TokenSafe(active[k]))
    {
      assert names[..i + 1][..i] == names[..i];
      if names[i] in builtin { active := active + [builtin[names[i]]]; }
    }
    assert names[..|names|] == names;
    ActiveSelected(names, builtin);
    SelectedUnique(names, builtin);
    NoneSelected(names, builtin);
    if active == [] { return value, map[]; }
    var tokenizer := new Tokenizer(active);
    redacted := tokenizer.Walk(value);
    reverseMap := tokenizer.reverseMap;
    if safe { RoundTrip(value, active, redacted, reverseMap); }
  }
}
