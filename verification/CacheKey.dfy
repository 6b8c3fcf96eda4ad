/** The cache key text of `src/cache/key.ts`: a canonical form of the call arguments. */
module CacheKey {
  import opened Json
  import opened TextOrder

  /** 4294967294, the largest array index. */
  const MAX_INDEX: Text := [52, 50, 57, 52, 57, 54, 55, 50, 57, 52]

  /** Keys that JavaScript enumerates first, in numeric order. */
  predicate IsIndex(k: Text) {
    && k != []
    && (forall i | 0 <= i < |k| :: IsDigit(k[i]))
    && (k[0] == 48 ==> |k| == 1)
    && (|k| < 10 || (|k| == 10 && !Before(MAX_INDEX, k)))
  }

  /** The order in which the keys of a freshly filled, alphabetically assigned object come out:
      indexes by number (shorter first, as they have no leading zero), then all others. */
  predicate KeyBefore(a: Text, b: Text) {
    if IsIndex(a) != IsIndex(b) then IsIndex(a)
    else if IsIndex(a) && |a| != |b| then |a| < |b|
    else Before(a, b)
  }

  lemma KeyBeforeIsStrictOrder(a: Text, b: Text, c: Text)
    ensures !(KeyBefore(a, b) && KeyBefore(b, a))
    ensures KeyBefore(a, b) && KeyBefore(b, c) ==> KeyBefore(a, c)
    ensures a == b || KeyBefore(a, b) || KeyBefore(b, a)
  {
    BeforeAsymmetric(a, b);
    BeforeTotal(a, b);
    if Before(a, b) && Before(b, c) { BeforeTransitive(a, b, c); }
  }

  function Pow10(n: nat): nat { if n == 0 then 1 else 10 * Pow10(n - 1) }

  predicate AllDigits(t: Text) { forall i | 0 <= i < |t| :: IsDigit(t[i]) }

  /** The number that a row of digits stands for. */
  function NumberOf(t: Text): nat
    requires AllDigits(t)
  {
    if t == [] then 0
    else
      assert IsDigit(t[0]);
      (t[0] - 48) as nat * Pow10(|t| - 1) + NumberOf(t[1..])
  }

  lemma {:induction false} NumberBelow(t: Text)
    requires AllDigits(t)
    ensures NumberOf(t) < Pow10(|t|)
    ensures t != [] ==> NumberOf(t) >= (t[0] - 48) as nat * Pow10(|t| - 1)
  {
    if t == [] {
    } else {
      NumberBelow(t[1..]);
      assert IsDigit(t[0]);
      TimesBound((t[0] - 48) as nat, Pow10(|t| - 1));
    }
  }

  lemma TimesBound(d: nat, p: nat)
    requires d <= 9
    ensures d * p <= 9 * p && (d >= 1 ==> d * p >= p)
  {
  }

  lemma TimesGap(d: nat, e: nat, p: nat)
    requires d < e
    ensures d * p + p <= e * p
  {
    assert e * p == d * p + (e - d) * p;
    TimesOne(e - d, p);
  }

  lemma TimesOne(d: nat, p: nat)
    requires d >= 1
    ensures d * p >= p
  {
    assert d * p == (d - 1) * p + p;
  }

  /** Rows of digits of one length are ordered as their numbers. */
  lemma {:induction false} DigitsOrder(a: Text, b: Text)
    requires AllDigits(a) && AllDigits(b) && |a| == |b|
    ensures Before(a, b) <==> NumberOf(a) < NumberOf(b)
    decreases |a|
  {
    if a == [] {
    } else {
      assert IsDigit(a[0]) && IsDigit(b[0]);
      var p, d, e := Pow10(|a| - 1), (a[0] - 48) as nat, (b[0] - 48) as nat;
      NumberBelow(a[1..]);
      NumberBelow(b[1..]);
      DigitsOrder(a[1..], b[1..]);
      if d < e { TimesGap(d, e, p); }
      if e < d { TimesGap(e, d, p); }
    }
  }

  lemma {:induction false} PowersGrow(m: nat, n: nat)
    requires m <= n
    ensures Pow10(m) <= Pow10(n)
  {
    if m == n {
    } else {
      PowersGrow(m, n - 1);
    }
  }

  lemma LengthOrder(a: Text, b: Text)
    requires AllDigits(a) && AllDigits(b) && |a| < |b| && b[0] != 48
    ensures NumberOf(a) < NumberOf(b)
  {
    NumberBelow(a);
    NumberBelow(b);
    assert IsDigit(b[0]);
    TimesOne((b[0] - 48) as nat, Pow10(|b| - 1));
    PowersGrow(|a|, |b| - 1);
  }

  lemma PowersOfTen()
    ensures Pow10(0) == 1 && Pow10(1) == 10 && Pow10(2) == 100 && Pow10(3) == 1000 && Pow10(4) == 10000
    ensures Pow10(5) == 100000 && Pow10(6) == 1000000 && Pow10(7) == 10000000
    ensures Pow10(8) == 100000000 && Pow10(9) == 1000000000
  {
  }

  /** `sum` is digit `d` at its place `p` and what follows it. */
  lemma NumberStep(t: Text, i: nat, d: nat, p: nat, rest: nat, sum: nat)
    requires AllDigits(t) && i < |t| && (t[i] - 48) as nat == d && Pow10(|t| - 1 - i) == p
    requires NumberOf(t[i + 1..]) == rest && sum == d * p + rest
    ensures NumberOf(t[i..]) == sum
  {
    assert t[i..][1..] == t[i + 1..];
  }

  lemma MaxIndexTail()
    ensures AllDigits(MAX_INDEX) && NumberOf(MAX_INDEX[5..]) == 67294
  {
    var t := MAX_INDEX;
    PowersOfTen();
    assert NumberOf(t[10..]) == 0;
    NumberStep(t, 9, 4, 1, 0, 4);
    NumberStep(t, 8, 9, 10, 4, 94);
    NumberStep(t, 7, 2, 100, 94, 294);
    NumberStep(t, 6, 7, 1000, 294, 7294);
    NumberStep(t, 5, 6, 10000, 7294, 67294);
  }

  lemma MaxIndexIs()
    ensures AllDigits(MAX_INDEX) && NumberOf(MAX_INDEX) == 4294967294
  {
    var t := MAX_INDEX;
    PowersOfTen();
    MaxIndexTail();
    NumberStep(t, 4, 9, 100000, 67294, 967294);
    NumberStep(t, 3, 4, 1000000, 967294, 4967294);
    NumberStep(t, 2, 9, 10000000, 4967294, 94967294);
    NumberStep(t, 1, 2, 100000000, 94967294, 294967294);
    NumberStep(t, 0, 4, 1000000000, 294967294, 4294967294);
    assert t[0..] == t;
  }

  /** Indexes are the numbers up to 4294967294 without leading zeros. */
  lemma IndexIs(k: Text)
    ensures IsIndex(k) <==> k != [] && AllDigits(k) && (k[0] == 48 ==> |k| == 1) && NumberOf(k) <= 4294967294
  {
    MaxIndexIs();
    if k != [] && AllDigits(k) && (k[0] == 48 ==> |k| == 1) {
      if |k| < 10 {
        LengthOrder(k, MAX_INDEX);
      } else if |k| > 10 {
        LengthOrder(MAX_INDEX, k);
      } else {
        DigitsOrder(MAX_INDEX, k);
      }
    }
  }

  /** The order of the keys: indexes first, by number, then the others by code unit. */
  lemma KeyOrderIs(a: Text, b: Text)
    ensures IsIndex(a) && IsIndex(b) ==> (KeyBefore(a, b) <==> NumberOf(a) < NumberOf(b))
    ensures !IsIndex(a) && !IsIndex(b) ==> (KeyBefore(a, b) <==> exists i: nat :: SmallerAt(a, b, i))
    ensures IsIndex(a) != IsIndex(b) ==> (KeyBefore(a, b) <==> IsIndex(a))
  {
    BeforeIs(a, b);
    if IsIndex(a) && IsIndex(b) {
      if |a| == |b| {
        DigitsOrder(a, b);
      } else if |a| < |b| {
        LengthOrder(a, b);
      } else {
        LengthOrder(b, a);
      }
    }
  }

  // ----- Meaning: a value without the order of its keys -----------------------------

  datatype Meaning =
    | MNull
    | MBool(b: bool)
    | MNumber(text: Text)
    | MString(s: Text)
    | MArray(items: seq<Meaning>)
    | MObject(members: map<Text, Meaning>)

  /** The value up to key order at every depth, leaving out the keys in `hidden`. */
  function MeaningOf(v: Value, hidden: set<Text>): Meaning
    decreases v, 0
  {
    match v
    case Null => MNull
    case Bool(b) => MBool(b)
    case Number(t) => MNumber(t)
    case String(s) => MString(s)
    case Array(items) => MArray(seq(|items|, i requires 0 <= i < |items| => MeaningOf(items[i], hidden)))
    case Object(ms) => MObject(MembersMeaning(ms, hidden))
  }

  function MembersMeaning(ms: seq<Member>, hidden: set<Text>): map<Text, Meaning>
    decreases ms, 1
  {
    if ms == [] then map[]
    else
      var rest := MembersMeaning(ms[1..], hidden);
      if ms[0].key in hidden then rest else rest[ms[0].key := MeaningOf(ms[0].value, hidden)]
  }

  lemma {:induction false} MembersMeaningAt(ms: seq<Member>, hidden: set<Text>, k: Text)
    requires DistinctKeys(ms)
    ensures k in MembersMeaning(ms, hidden) <==> k !in hidden && exists i | 0 <= i < |ms| :: ms[i].key == k
    ensures forall i | 0 <= i < |ms| && ms[i].key == k && k !in hidden ::
              MembersMeaning(ms, hidden)[k] == MeaningOf(ms[i].value, hidden)
  {
    if ms == [] {
    } else {
      MembersMeaningAt(ms[1..], hidden, k);
      assert forall i | 0 < i < |ms| :: ms[i] == ms[1..][i - 1];
    }
  }

  // ----- Canonical form --------------------------------------------------------------

  predicate Sorted(ms: seq<Member>) {
    forall i, j | 0 <= i < j < |ms| :: KeyBefore(ms[i].key, ms[j].key)
  }

  function Insert(m: Member, ms: seq<Member>): seq<Member> {
    if ms == [] || KeyBefore(m.key, ms[0].key) then [m] + ms else [ms[0]] + Insert(m, ms[1..])
  }

  function Canonical(v: Value): Value
    decreases v, 0
  {
    match v
    case Array(items) => Array(seq(|items|, i requires 0 <= i < |items| => Canonical(items[i])))
    case Object(ms) => Object(CanonicalMembers(ms))
    case _ => v
  }

  function CanonicalMembers(ms: seq<Member>): seq<Member>
    decreases ms, 1
  {
    if ms == [] then []
    else
      var rest := CanonicalMembers(ms[1..]);
      if ms[0].key == PROTO then rest else Insert(Member(ms[0].key, Canonical(ms[0].value)), rest)
  }

  function StableStringify(v: Value): Text {
    Print(Canonical(v))
  }

  lemma {:induction false} InsertMembers(m: Member, ms: seq<Member>, x: Member)
    ensures x in Insert(m, ms) <==> x == m || x in ms
  {
    if ms == [] || KeyBefore(m.key, ms[0].key) {
    } else {
      InsertMembers(m, ms[1..], x);
      assert ms == [ms[0]] + ms[1..];
    }
  }

  lemma {:induction false} InsertSorted(m: Member, ms: seq<Member>)
    requires Sorted(ms) && forall x | x in ms :: x.key != m.key
    ensures Sorted(Insert(m, ms))
  {
    if ms == [] {
    } else if KeyBefore(m.key, ms[0].key) {
      forall j | 0 < j < |ms| ensures KeyBefore(m.key, ms[j].key) {
        KeyBeforeIsStrictOrder(m.key, ms[0].key, ms[j].key);
      }
    } else {
      KeyBeforeIsStrictOrder(m.key, ms[0].key, m.key);
      assert ms[0] in ms;
      forall x | x in ms[1..] ensures x.key != m.key { assert x in ms; }
      InsertSorted(m, ms[1..]);
      var rest := Insert(m, ms[1..]);
      forall j | 0 <= j < |rest| ensures KeyBefore(ms[0].key, rest[j].key) {
        InsertMembers(m, ms[1..], rest[j]);
      }
    }
  }

  lemma HeadIsMember(ms: seq<Member>)
    requires ms != []
    ensures ms[0] in ms
  {
  }

  /** A sorted object is determined by its set of members. */
  lemma {:induction false} SortedUnique(a: seq<Member>, b: seq<Member>)
    requires Sorted(a) && Sorted(b)
    requires forall m :: m in a <==> m in b
    ensures a == b
  {
    if a == [] {
      if b != [] { HeadIsMember(b); }
    } else {
      assert a[0] in b && b != [];
      assert b[0] in a;
      KeyBeforeIsStrictOrder(a[0].key, b[0].key, a[0].key);
      assert a[0] == b[0];
      forall m ensures m in a[1..] <==> m in b[1..] {
        KeyBeforeIsStrictOrder(a[0].key, m.key, m.key);
        KeyBeforeIsStrictOrder(m.key, m.key, m.key);
        assert m in a <==> m == a[0] || m in a[1..];
        assert m in b <==> m == b[0] || m in b[1..];
      }
      SortedUnique(a[1..], b[1..]);
    }
  }

  /** What the canonical members are: sorted, and the canonical image of every member but `__proto__`. */
  lemma {:induction false} CanonicalMembersShape(ms: seq<Member>)
    requires DistinctKeys(ms)
    ensures Sorted(CanonicalMembers(ms))
    ensures forall x :: x in CanonicalMembers(ms) <==>
              exists i | 0 <= i < |ms| :: ms[i].key != PROTO && x == Member(ms[i].key, Canonical(ms[i].value))
  {
    if ms == [] {
    } else {
      CanonicalMembersShape(ms[1..]);
      var rest := CanonicalMembers(ms[1..]);
      var m := Member(ms[0].key, Canonical(ms[0].value));
      assert forall i | 0 < i < |ms| :: ms[i] == ms[1..][i - 1];
      if ms[0].key != PROTO {
        InsertSorted(m, rest);
        forall x ensures x in Insert(m, rest) <==> x == m || x in rest { InsertMembers(m, rest, x); }
      }
    }
  }

  lemma {:induction false} CanonicalWellFormed(v: Value)
    requires WellFormed(v)
    ensures WellFormed(Canonical(v))
  {
    match v
    case Array(items) =>
      forall i | 0 <= i < |items| ensures WellFormed(Canonical(items[i])) { CanonicalWellFormed(items[i]); }
    case Object(ms) =>
      var cs := CanonicalMembers(ms);
      CanonicalMembersShape(ms);
      forall i | 0 <= i < |cs| ensures WellFormed(cs[i].value) {
        assert cs[i] in cs;
        var k :| 0 <= k < |ms| && cs[i] == Member(ms[k].key, Canonical(ms[k].value));
        CanonicalWellFormed(ms[k].value);
      }
      forall i, j | 0 <= i < j < |cs| ensures cs[i].key != cs[j].key {
        KeyBeforeIsStrictOrder(cs[i].key, cs[j].key, cs[j].key);
      }
    case _ =>
  }

  lemma CanonicalMeaningAt(ms: seq<Member>, hidden: set<Text>, k: Text)
    requires DistinctKeys(ms) && DistinctKeys(CanonicalMembers(ms)) && hidden <= {PROTO}
    requires forall j | 0 <= j < |ms| :: MeaningOf(Canonical(ms[j].value), hidden) == MeaningOf(ms[j].value, {PROTO})
    ensures var a, b := MembersMeaning(CanonicalMembers(ms), hidden), MembersMeaning(ms, {PROTO});
            (k in a <==> k in b) && (k in a && k in b ==> a[k] == b[k])
  {
    var cs := CanonicalMembers(ms);
    CanonicalMembersShape(ms);
    MembersMeaningAt(cs, hidden, k);
    MembersMeaningAt(ms, {PROTO}, k);
    if i :| 0 <= i < |cs| && cs[i].key == k {
      assert cs[i] in cs;
      var j :| 0 <= j < |ms| && ms[j].key != PROTO && cs[i] == Member(ms[j].key, Canonical(ms[j].value));
    }
    if j :| 0 <= j < |ms| && ms[j].key == k && k != PROTO {
      assert Member(k, Canonical(ms[j].value)) in cs;
    }
  }

  /** Canonicalising keeps the meaning, apart from `__proto__` members. */
  lemma {:induction false} CanonicalKeepsMeaning(v: Value, hidden: set<Text>)
    requires WellFormed(v) && hidden <= {PROTO}
    ensures MeaningOf(Canonical(v), hidden) == MeaningOf(v, {PROTO})
    decreases v
  {
    match v
    case Array(items) =>
      forall i | 0 <= i < |items| ensures MeaningOf(Canonical(items[i]), hidden) == MeaningOf(items[i], {PROTO}) {
        CanonicalKeepsMeaning(items[i], hidden);
      }
    case Object(ms) =>
      CanonicalWellFormed(v);
      forall j | 0 <= j < |ms| ensures MeaningOf(Canonical(ms[j].value), hidden) == MeaningOf(ms[j].value, {PROTO}) {
        CanonicalKeepsMeaning(ms[j].value, hidden);
      }
      var a, b := MembersMeaning(CanonicalMembers(ms), hidden), MembersMeaning(ms, {PROTO});
      forall k ensures k in a <==> k in b
        ensures k in a && k in b ==> a[k] == b[k]
      {
        CanonicalMeaningAt(ms, hidden, k);
      }
    case _ =>
  }

  /** Values that mean the same have the same canonical form. */
  lemma {:induction false} MeaningFixesCanonical(v: Value, w: Value)
    requires WellFormed(v) && WellFormed(w)
    requires MeaningOf(v, {PROTO}) == MeaningOf(w, {PROTO})
    ensures Canonical(v) == Canonical(w)
    decreases v
  {
    match v
    case Array(items) =>
      var a, b := MeaningOf(v, {PROTO}).items, MeaningOf(w, {PROTO}).items;
      forall i | 0 <= i < |items| ensures Canonical(items[i]) == Canonical(w.items[i]) {
        assert a[i] == b[i];
        MeaningFixesCanonical(items[i], w.items[i]);
      }
    case Object(ms) =>
      var ns := w.members;
      CanonicalMembersShape(ms);
      CanonicalMembersShape(ns);
      forall x ensures x in CanonicalMembers(ms) <==> x in CanonicalMembers(ns) {
        MembersMeaningAt(ms, {PROTO}, x.key);
        MembersMeaningAt(ns, {PROTO}, x.key);
        forall i, j | 0 <= i < |ms| && 0 <= j < |ns| && ms[i].key == ns[j].key == x.key != PROTO
          ensures Canonical(ms[i].value) == Canonical(ns[j].value)
        {
          MeaningFixesCanonical(ms[i].value, ns[j].value);
        }
      }
      SortedUnique(CanonicalMembers(ms), CanonicalMembers(ns));
    case _ =>
  }

  /** The cache key text is canonical: two argument values get the same text exactly when they
      are equal up to the order of keys, members called `__proto__` not counted. */
  lemma StableStringifyCanonical(v: Value, w: Value)
    requires WellFormed(v) && WellFormed(w)
    ensures StableStringify(v) == StableStringify(w) <==> MeaningOf(v, {PROTO}) == MeaningOf(w, {PROTO})
  {
    CanonicalWellFormed(v);
    CanonicalWellFormed(w);
    PrintInjective(Canonical(v), Canonical(w));
    CanonicalKeepsMeaning(v, {});
    CanonicalKeepsMeaning(w, {});
    if MeaningOf(v, {PROTO}) == MeaningOf(w, {PROTO}) { MeaningFixesCanonical(v, w); }
  }

  lemma CanonicalIdempotent(v: Value)
    requires WellFormed(v)
    ensures Canonical(Canonical(v)) == Canonical(v)
  {
    CanonicalWellFormed(v);
    CanonicalKeepsMeaning(v, {PROTO});
    MeaningFixesCanonical(Canonical(v), v);
  }

  lemma {:induction false} MeaningWithoutProto(v: Value)
    requires WellFormed(v)
    ensures MeaningOf(v, {}) == MeaningOf(v, {PROTO}) <==> !HasKey(v, PROTO)
  {
    var a, b := MeaningOf(v, {}), MeaningOf(v, {PROTO});
    match v
    case Array(items) =>
      forall i | 0 <= i < |items| ensures a.items[i] == b.items[i] <==> !HasKey(items[i], PROTO) {
        MeaningWithoutProto(items[i]);
      }
      assert a == b <==> forall i | 0 <= i < |items| :: a.items[i] == b.items[i];
    case Object(ms) =>
      forall i | 0 <= i < |ms|
        ensures MeaningOf(ms[i].value, {}) == MeaningOf(ms[i].value, {PROTO}) <==> !HasKey(ms[i].value, PROTO)
      {
        MeaningWithoutProto(ms[i].value);
      }
      if a.members == b.members {
        forall i | 0 <= i < |ms| ensures ms[i].key != PROTO && !HasKey(ms[i].value, PROTO) {
          MembersMeaningAt(ms, {}, ms[i].key);
          MembersMeaningAt(ms, {PROTO}, ms[i].key);
        }
      }
      if !HasKey(v, PROTO) {
        forall k ensures k in a.members <==> k in b.members
          ensures k in a.members && k in b.members ==> a.members[k] == b.members[k]
        {
          MembersMeaningAt(ms, {}, k);
          MembersMeaningAt(ms, {PROTO}, k);
        }
        assert a.members == b.members;
      }
    case _ =>
  }

  /** For arguments without a `__proto__` key the text is equal exactly when the arguments are
      equal up to key order; and a value is told apart from its own canonical form exactly when
      it has such a key somewhere. */
  lemma StableStringifyWithoutProto(v: Value, w: Value)
    requires WellFormed(v) && WellFormed(w)
    ensures !HasKey(v, PROTO) && !HasKey(w, PROTO) ==>
              (StableStringify(v) == StableStringify(w) <==> MeaningOf(v, {}) == MeaningOf(w, {}))
    ensures MeaningOf(Canonical(v), {}) == MeaningOf(v, {}) <==> !HasKey(v, PROTO)
  {
    StableStringifyCanonical(v, w);
    MeaningWithoutProto(v);
    MeaningWithoutProto(w);
    CanonicalKeepsMeaning(v, {});
  }

  /** Two different arguments with one cache key: an object with only a `__proto__` member and
      the empty object. */
  lemma ProtoCollision()
    ensures var v, w := Object([Member(PROTO, Null)]), Object([]);
            && WellFormed(v) && WellFormed(w)
            && MeaningOf(v, {}) != MeaningOf(w, {}) && StableStringify(v) == StableStringify(w)
  {
    var v, w := Object([Member(PROTO, Null)]), Object([]);
    assert v.members[0].key == PROTO;
    MeaningWithoutProto(v);
    assert MembersMeaning(v.members[1..], {PROTO}) == map[];
    StableStringifyCanonical(v, w);
  }

  // ----- The key as one string -------------------------------------------------------

  datatype Key = Key(server: Text, tool: Text, argsHash: Text)
  datatype ParsedKey = NoKey | SomeKey(key: Key)

  function KeyToString(k: Key): Text {
    k.server + [COLON] + k.tool + [COLON] + k.argsHash
  }

  function FirstColon(s: Text): (i: nat)
    ensures i <= |s| && (forall j | 0 <= j < i :: s[j] != COLON) && (i < |s| ==> s[i] == COLON)
  {
    if s == [] || s[0] == COLON then 0 else 1 + FirstColon(s[1..])
  }

  /** One past the last colon, 0 if there is none. */
  function AfterLastColon(s: Text): (i: nat)
    ensures i <= |s| && (forall j | i <= j < |s| :: s[j] != COLON) && (i > 0 ==> s[i - 1] == COLON)
  {
    if s == [] then 0
    else if s[|s| - 1] == COLON then |s|
    else
      AfterLastColon(s[..|s| - 1])
  }

  function ParseKey(s: Text): ParsedKey {
    var first := FirstColon(s);
    var last := AfterLastColon(s);
    if first == |s| || last <= first + 1 then NoKey
    else if first == 0 || last - 1 == first + 1 || |s| - last != 64 then NoKey
    else SomeKey(Key(s[..first], s[first + 1..last - 1], s[last..]))
  }

  lemma FirstColonIs(s: Text, i: nat)
    requires i < |s| && s[i] == COLON && forall j | 0 <= j < i :: s[j] != COLON
    ensures FirstColon(s) == i
  {
  }

  lemma AfterLastColonIs(s: Text, i: nat)
    requires 0 < i <= |s| && s[i - 1] == COLON && forall j | i <= j < |s| :: s[j] != COLON
    ensures AfterLastColon(s) == i
  {
  }

  lemma KeyParts(k: Key)
    ensures var s, a, b := KeyToString(k), |k.server|, |k.server| + 1 + |k.tool|;
            && |s| == b + 1 + |k.argsHash| && s[a] == COLON && s[b] == COLON
            && s[..a] == k.server && s[a + 1..b] == k.tool && s[b + 1..] == k.argsHash
  {
  }

  lemma PlainKeyParses(k: Key)
    requires COLON !in k.server && COLON !in k.argsHash
    ensures ParseKey(KeyToString(k))
         == if k.server != [] && k.tool != [] && |k.argsHash| == 64 then SomeKey(k) else NoKey
  {
    KeyParts(k);
    FirstColonIs(KeyToString(k), |k.server|);
    AfterLastColonIs(KeyToString(k), |k.server| + 1 + |k.tool| + 1);
  }

  lemma ParsedPlain(s: Text)
    requires ParseKey(s).SomeKey?
    ensures var k := ParseKey(s).key;
            k.server != [] && COLON !in k.server && k.tool != [] && |k.argsHash| == 64 && COLON !in k.argsHash
  {
    var first, last := FirstColon(s), AfterLastColon(s);
    assert COLON !in s[..first] && COLON !in s[last..];
  }

  /** What parses prints back. */
  lemma ParsedPrints(s: Text)
    ensures ParseKey(s).SomeKey? ==> KeyToString(ParseKey(s).key) == s
  {
    if ParseKey(s).SomeKey? {
      var first, last := FirstColon(s), AfterLastColon(s);
      assert s == s[..first] + [s[first]] + s[first + 1..last - 1] + [s[last - 1]] + s[last..];
    }
  }

  /** A cache key survives the trip through its string exactly when its server part is not empty
      and has no colon, its tool part is not empty (it may have colons), and its hash part is 64
      long without a colon. */
  lemma KeyRoundTrip(k: Key)
    ensures ParseKey(KeyToString(k)) == SomeKey(k) <==>
              k.server != [] && COLON !in k.server && k.tool != [] && |k.argsHash| == 64 && COLON !in k.argsHash
  {
    if COLON !in k.server && COLON !in k.argsHash { PlainKeyParses(k); }
    if ParseKey(KeyToString(k)).SomeKey? { ParsedPlain(KeyToString(k)); }
  }

  // ----- The program -----------------------------------------------------------------

  /** `sorted[k] = value` on a plain object that has no own `k` yet. */
  function Assign(obj: seq<Member>, k: Text, value: Value): seq<Member> {
    if k == PROTO then obj
    else if IsIndex(k) then Insert(Member(k, value), obj)
    else obj + [Member(k, value)]
  }

  function KeysOf(ms: seq<Member>): (ks: seq<Text>)
    ensures |ks| == |ms| && forall i | 0 <= i < |ms| :: ks[i] == ms[i].key
  {
    seq(|ms|, i requires 0 <= i < |ms| => ms[i].key)
  }

  function IndexOf(ms: seq<Member>, k: Text): (i: nat)
    requires exists j | 0 <= j < |ms| :: ms[j].key == k
    ensures i < |ms| && ms[i].key == k
  {
    if ms[0].key == k then 0 else 1 + IndexOf(ms[1..], k)
  }

  /** `x` is the sorted form of a member of `ms` whose key is among `keys`. */
  ghost predicate Wanted(ms: seq<Member>, keys: seq<Text>, x: Member) {
    exists j | 0 <= j < |ms| ::
      ms[j].key in keys && ms[j].key != PROTO && x == Member(ms[j].key, Canonical(ms[j].value))
  }

  /** The sorted object once the members under `keys` are filled in. */
  ghost predicate Filled(sorted: seq<Member>, ms: seq<Member>, keys: seq<Text>) {
    Sorted(sorted) && forall x :: x in sorted <==> Wanted(ms, keys, x)
  }

  lemma EarlierKeys(sorted: seq<Member>, ms: seq<Member>, keys: seq<Text>, i: nat)
    requires Ascending(keys) && i < |keys| && Filled(sorted, ms, keys[..i])
    ensures forall x | x in sorted :: x.key != keys[i] && (IsIndex(keys[i]) || KeyBefore(x.key, keys[i]))
  {
    forall x | x in sorted ensures x.key != keys[i] && (IsIndex(keys[i]) || KeyBefore(x.key, keys[i])) {
      assert Wanted(ms, keys[..i], x);
      BeforeAsymmetric(x.key, keys[i]);
    }
  }

  lemma WantedNext(ms: seq<Member>, keys: seq<Text>, i: nat, at: nat, x: Member)
    requires DistinctKeys(ms) && i < |keys| && at < |ms| && ms[at].key == keys[i]
    ensures Wanted(ms, keys[..i + 1], x) <==>
            Wanted(ms, keys[..i], x) || (keys[i] != PROTO && x == Member(keys[i], Canonical(ms[at].value)))
  {
    assert keys[..i + 1] == keys[..i] + [keys[i]];
  }

  lemma AssignSorted(sorted: seq<Member>, k: Text, value: Value)
    requires Sorted(sorted) && k != PROTO
    requires forall x | x in sorted :: x.key != k && (IsIndex(k) || KeyBefore(x.key, k))
    ensures Sorted(Assign(sorted, k, value))
    ensures forall x :: x in Assign(sorted, k, value) <==> x in sorted || x == Member(k, value)
  {
    if IsIndex(k) {
      InsertSorted(Member(k, value), sorted);
      forall x ensures x in Assign(sorted, k, value) <==> x in sorted || x == Member(k, value) {
        InsertMembers(Member(k, value), sorted, x);
      }
    }
  }

  lemma AssignFills(sorted: seq<Member>, ms: seq<Member>, keys: seq<Text>, i: nat, at: nat)
    requires Ascending(keys) && DistinctKeys(ms) && i < |keys| && at < |ms| && ms[at].key == keys[i]
    requires Filled(sorted, ms, keys[..i])
    ensures Filled(Assign(sorted, keys[i], Canonical(ms[at].value)), ms, keys[..i + 1])
  {
    EarlierKeys(sorted, ms, keys, i);
    if keys[i] != PROTO { AssignSorted(sorted, keys[i], Canonical(ms[at].value)); }
    forall x { WantedNext(ms, keys, i, at, x); }
  }

  /** `sortObjectKeys`: recursion over the value, with a loop that fills the sorted object. */
  method SortObjectKeys(value: Value) returns (r: Value)
    requires WellFormed(value)
    ensures r == Canonical(value)
    decreases value
  {
    match value
    case Array(items) =>
      var out := [];
      for i := 0 to |items|
        invariant |out| == i && forall j | 0 <= j < i :: out[j] == Canonical(items[j])
      {
        var item := SortObjectKeys(items[i]);
        out := out + [item];
      }
      r := Array(out);
    case Object(ms) =>
      var keys := SortKeys(KeysOf(ms));
      SortKeysSorts(KeysOf(ms));
      var sorted: seq<Member> := [];
      for i := 0 to |keys|
        invariant Filled(sorted, ms, keys[..i])
      {
        assert keys[i] in KeysOf(ms);
        var at := IndexOf(ms, keys[i]);
        var item := SortObjectKeys(ms[at].value);
        AssignFills(sorted, ms, keys, i, at);
        sorted := Assign(sorted, keys[i], item);
      }
      AllFilled(sorted, ms, keys);
      r := Object(sorted);
    case _ => r := value;
  }

  lemma AllFilled(sorted: seq<Member>, ms: seq<Member>, keys: seq<Text>)
    requires DistinctKeys(ms) && Filled(sorted, ms, keys[..|keys|]) && forall k :: k in keys <==> k in KeysOf(ms)
    ensures sorted == CanonicalMembers(ms)
  {
    assert keys[..|keys|] == keys;
    CanonicalMembersShape(ms);
    forall j | 0 <= j < |ms| ensures ms[j].key in keys { assert KeysOf(ms)[j] == ms[j].key; }
    SortedUnique(sorted, CanonicalMembers(ms));
  }
}
