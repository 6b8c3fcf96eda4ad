/** The default order of `Array.prototype.sort` on strings: by UTF-16 code unit.

    The order is total, so sorting a list of distinct keys has one possible outcome
    (`AscendingUnique`): an ascending list is determined by the set of its members. That is
    what lets sorted keys stand for an unordered set of keys in `CacheKey` and a listing for
    the live keys in `SharedKV`. The sort itself is an insertion sort; only its outcome
    matters. */
module TextOrder {
  import opened Json

  predicate Before(a: Text, b: Text) {
    if b == [] then false
    else if a == [] then true
    else if a[0] != b[0] then a[0] < b[0]
    else Before(a[1..], b[1..])
  }

  /** `a` and `b` agree before position `i`, and there `a` ends or has the smaller code unit. */
  predicate SmallerAt(a: Text, b: Text, i: nat) {
    i <= |a| && i < |b| && a[..i] == b[..i] && (i < |a| ==> a[i] < b[i])
  }

  lemma SameFirst(a: Text, b: Text, i: nat)
    requires 0 < i <= |a| && i <= |b| && a[..i] == b[..i]
    ensures a[0] == b[0]
  {
    assert a[..i][0] == b[..i][0];
  }

  /** The order by the first difference. */
  lemma {:induction false} BeforeIs(a: Text, b: Text)
    ensures Before(a, b) <==> exists i: nat :: SmallerAt(a, b, i)
  {
    if b == [] {
    } else if a == [] || a[0] < b[0] {
      assert SmallerAt(a, b, 0);
    } else if a[0] != b[0] {
      forall i: nat ensures !SmallerAt(a, b, i) {
        if 0 < i <= |a| && i < |b| && a[..i] == b[..i] { SameFirst(a, b, i); }
      }
    } else {
      BeforeIs(a[1..], b[1..]);
      if i: nat :| SmallerAt(a[1..], b[1..], i) {
        assert a[..i + 1] == [a[0]] + a[1..][..i] && b[..i + 1] == [b[0]] + b[1..][..i];
        assert SmallerAt(a, b, i + 1);
      }
      if i: nat :| SmallerAt(a, b, i) {
        assert a[1..][..i - 1] == a[..i][1..] && b[1..][..i - 1] == b[..i][1..];
        assert SmallerAt(a[1..], b[1..], i - 1);
      }
    }
  }

  lemma {:induction false} BeforeAsymmetric(a: Text, b: Text)
    ensures !(Before(a, b) && Before(b, a))
    decreases |a|
  {
    if a == [] || b == [] {
    } else {
      BeforeAsymmetric(a[1..], b[1..]);
    }
  }

  lemma {:induction false} BeforeTransitive(a: Text, b: Text, c: Text)
    requires Before(a, b) && Before(b, c)
    ensures Before(a, c)
    decreases |a|
  {
    if a == [] || a[0] != b[0] || b[0] != c[0] {
    } else {
      BeforeTransitive(a[1..], b[1..], c[1..]);
    }
  }

  lemma {:induction false} BeforeTotal(a: Text, b: Text)
    ensures a == b || Before(a, b) || Before(b, a)
    decreases |a|
  {
    if a == [] || b == [] || a[0] != b[0] {
    } else {
      BeforeTotal(a[1..], b[1..]);
      assert a == [a[0]] + a[1..] && b == [b[0]] + b[1..];
    }
  }

  predicate Ascending(ts: seq<Text>) {
    forall i, j | 0 <= i < j < |ts| :: Before(ts[i], ts[j])
  }

  predicate Distinct(ts: seq<Text>) {
    forall i, j | 0 <= i < j < |ts| :: ts[i] != ts[j]
  }

  function InsertKey(t: Text, ts: seq<Text>): seq<Text> {
    if ts == [] || Before(t, ts[0]) then [t] + ts else [ts[0]] + InsertKey(t, ts[1..])
  }

  /** `keys.sort()`. */
  function SortKeys(ts: seq<Text>): seq<Text> {
    if ts == [] then [] else InsertKey(ts[0], SortKeys(ts[1..]))
  }

  lemma {:induction false} InsertKeyMembers(t: Text, ts: seq<Text>, x: Text)
    ensures x in InsertKey(t, ts) <==> x == t || x in ts
  {
    if ts == [] || Before(t, ts[0]) {
    } else {
      InsertKeyMembers(t, ts[1..], x);
      assert ts == [ts[0]] + ts[1..];
    }
  }

  lemma {:induction false} InsertKeyAscending(t: Text, ts: seq<Text>)
    requires Ascending(ts) && t !in ts
    ensures Ascending(InsertKey(t, ts))
  {
    if ts == [] {
    } else if Before(t, ts[0]) {
      forall j | 0 < j < |ts| ensures Before(t, ts[j]) { BeforeTransitive(t, ts[0], ts[j]); }
    } else {
      InsertKeyAscending(t, ts[1..]);
      BeforeTotal(t, ts[0]);
      var rest := InsertKey(t, ts[1..]);
      forall j | 0 <= j < |rest| ensures Before(ts[0], rest[j]) {
        InsertKeyMembers(t, ts[1..], rest[j]);
      }
    }
  }

  /** Sorting distinct keys keeps exactly those keys and puts them in ascending order. */
  lemma {:induction false} SortKeysSorts(ts: seq<Text>)
    requires Distinct(ts)
    ensures Ascending(SortKeys(ts))
    ensures forall x :: x in SortKeys(ts) <==> x in ts
  {
    if ts == [] {
    } else {
      SortKeysSorts(ts[1..]);
      InsertKeyAscending(ts[0], SortKeys(ts[1..]));
      forall x ensures x in SortKeys(ts) <==> x in ts {
        InsertKeyMembers(ts[0], SortKeys(ts[1..]), x);
        assert ts == [ts[0]] + ts[1..];
      }
    }
  }

  lemma NotInTail(ts: seq<Text>)
    requires Ascending(ts) && ts != []
    ensures ts[0] !in ts[1..] && Ascending(ts[1..])
  {
    BeforeAsymmetric(ts[0], ts[0]);
  }

  lemma SameHead(a: seq<Text>, b: seq<Text>)
    requires Ascending(a) && Ascending(b) && a != [] && b != []
    requires forall x :: x in a <==> x in b
    ensures a[0] == b[0]
  {
    assert a[0] in b && b[0] in a;
    BeforeAsymmetric(a[0], b[0]);
  }

  /** Ascending lists are determined by their members. */
  lemma {:induction false} AscendingUnique(a: seq<Text>, b: seq<Text>)
    requires Ascending(a) && Ascending(b) && forall x :: x in a <==> x in b
    ensures a == b
  {
    assert b == [] || b[0] in b;
    if a == [] {
    } else {
      assert a[0] in b;
      SameHead(a, b);
      NotInTail(a);
      NotInTail(b);
      assert a == [a[0]] + a[1..] && b == [b[0]] + b[1..];
      forall x ensures x in a[1..] <==> x in b[1..] {
        assert x in a <==> x == a[0] || x in a[1..];
        assert x in b <==> x == b[0] || x in b[1..];
      }
      AscendingUnique(a[1..], b[1..]);
    }
  }
}
