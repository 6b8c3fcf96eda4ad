/** `estimateResultTokens` and `trimResultToBudget` of `src/server/mcp-server.ts`. The estimate is
    taken over exact rationals: 3.8 characters to a token. Prefixes of a prefix that fits also fit,
    so both searches find the largest one that does. */
module ResultBudget {
  import opened Json

  /** `Math.ceil(JSON.stringify(value).length / 3.8)`. */
  function EstimateResultTokens(v: Value): nat { (10 * |Print(v)| + 37) / 38 }

  predicate Fits(v: Value, maxTokens: int) { EstimateResultTokens(v) <= maxTokens }

  /** Rounding up is right: a value fits exactly if its text has at most 3.8 characters for every token. */
  lemma FitsIs(v: Value, maxTokens: int)
    ensures Fits(v, maxTokens) <==> 10 * |Print(v)| <= 38 * maxTokens
  {
  }

  function Size(v: Value): nat
    requires v.Array? || v.Object?
  {
    if v.Array? then |v.items| else |v.members|
  }

  /** The first `k` items or members of `v`. */
  function Prefix(v: Value, k: nat): Value
    requires (v.Array? || v.Object?) && k <= Size(v)
  {
    if v.Array? then Array(v.items[..k]) else Object(v.members[..k])
  }

  // ----- Longer prefixes print longer ------------------------------------------------------------------

  lemma {:induction false} EscapeGrows(s: Text, x: Text, y: Text)
    ensures |Escape(s, x)| - |x| == |Escape(s, y)| - |y| >= 0
    decreases |s|
  {
    if s == [] {
    } else {
      EscapeGrows(s[ChunkLength(s)..], x, y);
    }
  }

  lemma QuoteGrows(s: Text, x: Text, y: Text)
    ensures |Quote(s, x)| - |x| == |Quote(s, y)| - |y| >= 0
  {
    EscapeGrows(s, [QUOTE] + x, [QUOTE] + y);
  }

  /** What is written for a value does not depend on what follows it. */
  lemma {:induction false} WriteGrows(v: Value, x: Text, y: Text)
    ensures |Write(v, x)| - |x| == |Write(v, y)| - |y| >= 0
    decreases v, 0
  {
    match v
    case String(s) => QuoteGrows(s, x, y);
    case Array(items) => ItemsGrow(items, true, x, y);
    case Object(ms) => MembersGrow(ms, true, x, y);
    case _ =>
  }

  lemma {:induction false} ItemsGrow(items: seq<Value>, first: bool, x: Text, y: Text)
    ensures |WriteItems(items, first, x)| - |x| == |WriteItems(items, first, y)| - |y| >= 1
    decreases items, 1
  {
    if items == [] {
    } else {
      ItemsGrow(items[1..], false, x, y);
      WriteGrows(items[0], WriteItems(items[1..], false, x), WriteItems(items[1..], false, y));
    }
  }

  lemma {:induction false} MemberGrows(o: Member, x: Text, y: Text)
    ensures |Quote(o.key, [COLON] + Write(o.value, x))| - |x| == |Quote(o.key, [COLON] + Write(o.value, y))| - |y| >= 0
    decreases o, 0
  {
    WriteGrows(o.value, x, y);
    QuoteGrows(o.key, [COLON] + Write(o.value, x), [COLON] + Write(o.value, y));
  }

  lemma {:induction false} MembersGrow(ms: seq<Member>, first: bool, x: Text, y: Text)
    ensures |WriteMembers(ms, first, x)| - |x| == |WriteMembers(ms, first, y)| - |y| >= 1
    decreases ms, 1
  {
    if ms == [] {
    } else {
      MembersGrow(ms[1..], false, x, y);
      MemberGrows(ms[0], WriteMembers(ms[1..], false, x), WriteMembers(ms[1..], false, y));
    }
  }

  lemma {:induction false} ItemsMonotone(items: seq<Value>, k: nat, m: nat, first: bool)
    requires k <= m <= |items|
    ensures |WriteItems(items[..k], first, [])| <= |WriteItems(items[..m], first, [])|
    decreases k
  {
    if k == 0 {
      ItemsGrow(items[..m], first, [], []);
    } else {
      assert items[..k][1..] == items[1..][..k - 1] && items[..m][1..] == items[1..][..m - 1];
      ItemsMonotone(items[1..], k - 1, m - 1, false);
      WriteGrows(items[0], WriteItems(items[1..][..k - 1], false, []), WriteItems(items[1..][..m - 1], false, []));
    }
  }

  lemma {:induction false} MembersMonotone(ms: seq<Member>, k: nat, m: nat, first: bool)
    requires k <= m <= |ms|
    ensures |WriteMembers(ms[..k], first, [])| <= |WriteMembers(ms[..m], first, [])|
    decreases k
  {
    if k == 0 {
      MembersGrow(ms[..m], first, [], []);
    } else {
      assert ms[..k][1..] == ms[1..][..k - 1] && ms[..m][1..] == ms[1..][..m - 1];
      MembersMonotone(ms[1..], k - 1, m - 1, false);
      MemberGrows(ms[0], WriteMembers(ms[1..][..k - 1], false, []), WriteMembers(ms[1..][..m - 1], false, []));
    }
  }

  /** If a prefix fits, so does every shorter one. */
  lemma FitsMonotone(v: Value, k: nat, m: nat, maxTokens: int)
    requires (v.Array? || v.Object?) && k <= m <= Size(v) && Fits(Prefix(v, m), maxTokens)
    ensures Fits(Prefix(v, k), maxTokens)
  {
    if v.Array? { ItemsMonotone(v.items, k, m, true); } else { MembersMonotone(v.members, k, m, true); }
    EstimateMonotone(|Print(Prefix(v, k))|, |Print(Prefix(v, m))|);
  }

  lemma EstimateMonotone(a: nat, b: nat)
    requires a <= b
    ensures (10 * a + 37) / 38 <= (10 * b + 37) / 38
  {
  }

  /** `n` is the largest number of items or members whose prefix fits, zero if none does. */
  ghost predicate LargestFitting(v: Value, maxTokens: int, n: nat)
    requires v.Array? || v.Object?
  {
    && n <= Size(v) && (n > 0 ==> Fits(Prefix(v, n), maxTokens))
    && forall k | n < k <= Size(v) :: !Fits(Prefix(v, k), maxTokens)
  }

  lemma LargestUnique(v: Value, maxTokens: int, n: nat, m: nat)
    requires (v.Array? || v.Object?) && LargestFitting(v, maxTokens, n) && LargestFitting(v, maxTokens, m)
    ensures n == m
  {
  }

  lemma EmptyFits(v: Value, maxTokens: int)
    requires v.Array? || v.Object?
    ensures Fits(Prefix(v, 0), maxTokens) <==> maxTokens >= 1
  {
    assert |Print(Prefix(v, 0))| == 2;
  }

  /** What is returned fits the budget exactly when the budget is at least one token. */
  lemma ResultFitsExactly(v: Value, maxTokens: int, n: nat)
    requires (v.Array? || v.Object?) && LargestFitting(v, maxTokens, n)
    ensures Fits(Prefix(v, n), maxTokens) <==> maxTokens >= 1
  {
    EmptyFits(v, maxTokens);
    if n > 0 { FitsMonotone(v, 0, n, maxTokens); }
  }

  // ----- Clipped texts ----------------------------------------------------------------------------------

  /** The text `…[trimmed]`. */
  const SUFFIX: Text := [0x2026, 91, 116, 114, 105, 109, 109, 101, 100, 93]

  /** `Math.floor(maxTokens * 3.8)`. */
  function MaxChars(maxTokens: int): int { 19 * maxTokens / 5 }

  /** It is the largest number of characters that 3.8 for every token allow. */
  lemma CharsAre(maxTokens: int)
    ensures forall n :: n <= MaxChars(maxTokens) <==> 10 * n <= 38 * maxTokens
  {
  }

  /** `slice(0, end)`; a negative end counts from the back. */
  function SliceTo(s: Text, end: int): Text {
    if end >= |s| then s else if end >= 0 then s[..end] else if |s| + end >= 0 then s[..|s| + end] else []
  }

  /** `text` are the first `n` characters of `source`, as many as the budget allows, and the suffix. */
  predicate ClippedAt(source: Text, n: nat, maxTokens: int, text: Text) {
    && n < |source| && 10 * n <= 38 * maxTokens < 10 * (n + 1)
    && text == source[..n] + [0x2026, 91, 116, 114, 105, 109, 109, 101, 100, 93]
  }

  lemma ClipIs(source: Text, maxTokens: nat)
    requires |source| > MaxChars(maxTokens)
    ensures MaxChars(maxTokens) >= 0
    ensures ClippedAt(source, MaxChars(maxTokens), maxTokens, SliceTo(source, MaxChars(maxTokens)) + SUFFIX)
  {
    CharsAre(maxTokens);
  }

  lemma {:induction false} EscapeLong(s: Text, x: Text)
    ensures |Escape(s, x)| >= |s| + |x|
    decreases |s|
  {
    if s == [] {
    } else {
      EscapeLong(s[ChunkLength(s)..], x);
    }
  }

  /** A text cut at the budget never fits it: the suffix and the quotes are too much. */
  lemma ClippedNeverFits(s: Text, maxTokens: int)
    requires |s| > MaxChars(maxTokens)
    ensures !Fits(String(SliceTo(s, MaxChars(maxTokens)) + SUFFIX), maxTokens)
  {
    var x := SliceTo(s, MaxChars(maxTokens)) + SUFFIX;
    EscapeLong(x, [QUOTE] + []);
    assert |Print(String(x))| >= |x| + 2;
  }

  // ----- The program ------------------------------------------------------------------------------------

  datatype Trim = Whole | Trimmed(result: Value, trimmedTo: nat) | Clipped(text: Text)

  /** What the caller gets for `v`. */
  function ResultOf(v: Value, t: Trim): Value {
    match t
    case Whole => v
    case Trimmed(result, _) => result
    case Clipped(text) => String(text)
  }

  /** `trimResultToBudget`: nothing is cut that fits, and of arrays and objects as little as possible. What
      does not fit is brought to fit exactly for arrays and objects and a budget of at least one token. */
  method TrimResultToBudget(v: Value, maxTokens: int) returns (t: Trim)
    ensures t == Whole <==> 10 * |Print(v)| <= 38 * maxTokens || (v.String? && 10 * |v.s| <= 38 * maxTokens)
    ensures t.Trimmed? <==> (v.Array? || v.Object?) && !Fits(v, maxTokens)
    ensures t.Trimmed? ==> LargestFitting(v, maxTokens, t.trimmedTo) && t.result == Prefix(v, t.trimmedTo)
    ensures t.Trimmed? ==> t.trimmedTo < Size(v) || Size(v) == 0
    ensures t.Clipped? ==> t.text == SliceTo(if v.String? then v.s else Print(v), MaxChars(maxTokens)) + SUFFIX
    ensures t.Clipped? && maxTokens >= 0 ==>
              var source := if v.String? then v.s else Print(v);
              exists n :: ClippedAt(source, n, maxTokens, t.text)
    ensures Fits(ResultOf(v, t), maxTokens) <==> Fits(v, maxTokens) || ((v.Array? || v.Object?) && maxTokens >= 1)
  {
    FitsIs(v, maxTokens);
    CharsAre(maxTokens);
    if Fits(v, maxTokens) { return Whole; }
    match v
    case Array(items) =>
      var n := LongestArrayPrefix(v, maxTokens);
      ResultFitsExactly(v, maxTokens, n);
      assert items[..|items|] == items;
      t := Trimmed(Array(items[..n]), n);
    case Object(ms) =>
      var n := LongestObjectPrefix(v, maxTokens);
      ResultFitsExactly(v, maxTokens, n);
      assert ms[..|ms|] == ms;
      t := Trimmed(Object(ms[..n]), n);
    case String(s) =>
      if |s| <= MaxChars(maxTokens) { return Whole; }
      ClippedNeverFits(s, maxTokens);
      if maxTokens >= 0 { ClipIs(s, maxTokens); }
      t := Clipped(SliceTo(s, MaxChars(maxTokens)) + SUFFIX);
    case _ =>
      ClippedNeverFits(Print(v), maxTokens);
      if maxTokens >= 0 { ClipIs(Print(v), maxTokens); }
      t := Clipped(SliceTo(Print(v), MaxChars(maxTokens)) + SUFFIX);
  }

  /** Binary search. */
  method LongestArrayPrefix(v: Value, maxTokens: int) returns (lo: nat)
    requires v.Array?
    ensures LargestFitting(v, maxTokens, lo)
  {
    lo := 0;
    var hi := |v.items|;
    while lo < hi
      invariant lo <= hi <= |v.items|
      invariant lo > 0 ==> Fits(Prefix(v, lo), maxTokens)
      invariant forall k | hi < k <= Size(v) :: !Fits(Prefix(v, k), maxTokens)
    {
      var mid := (lo + hi + 1) / 2;
      if Fits(Array(v.items[..mid]), maxTokens) {
        lo := mid;
      } else {
        forall k | mid <= k <= Size(v) ensures !Fits(Prefix(v, k), maxTokens) {
          if Fits(Prefix(v, k), maxTokens) { FitsMonotone(v, mid, k, maxTokens); }
        }
        hi := mid - 1;
      }
    }
  }

  /** Keys are dropped from the end. */
  method LongestObjectPrefix(v: Value, maxTokens: int) returns (kept: nat)
    requires v.Object?
    ensures LargestFitting(v, maxTokens, kept)
  {
    kept := |v.members|;
    while kept > 0
      invariant kept <= |v.members|
      invariant forall k | kept < k <= Size(v) :: !Fits(Prefix(v, k), maxTokens)
    {
      if Fits(Object(v.members[..kept]), maxTokens) { return; }
      kept := kept - 1;
    }
  }
}
