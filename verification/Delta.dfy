/** `src/cache/delta.ts`: what changed between two results, and whether the change can be undone.

    The operator `in` also sees the names every object inherits; these are a parameter. */
module Delta {
  import opened Json
  import opened Sublists

  predicate DeepEqual(a: Value, b: Value) { a == b || Print(a) == Print(b) }

  /** Equality by printing is equality of the values, the order of keys included. */
  lemma DeepEqualIsEqual(a: Value, b: Value)
    requires WellFormed(a) && WellFormed(b)
    ensures DeepEqual(a, b) <==> a == b
  {
    PrintInjective(a, b);
  }

  // ----- Arrays ----------------------------------------------------------------------------------------

  predicate Occurs(xs: seq<Value>, x: Value) {
    exists i | 0 <= i < |xs| :: DeepEqual(xs[i], x)
  }

  /** The items of `xs`, in order and with repetitions, that do not occur in `ys`. */
  function Missing(xs: seq<Value>, ys: seq<Value>): seq<Value> {
    if xs == [] then []
    else
      var x := xs[|xs| - 1];
      Missing(xs[..|xs| - 1], ys) + (if Occurs(ys, x) then [] else [x])
  }

  /** The positions of the items of `xs` that are not items of `ys`. */
  ghost function MissingAt(xs: seq<Value>, ys: seq<Value>): set<nat> { set i: nat | i < |xs| && xs[i] !in ys }

  /** They keep their order and their repetitions. */
  lemma {:induction false} MissingPicked(xs: seq<Value>, ys: seq<Value>)
    requires AllWellFormed(xs) && AllWellFormed(ys)
    ensures Missing(xs, ys) == Pick(xs, MissingAt(xs, ys))
  {
    if xs == [] {
    } else {
      var front, x := xs[..|xs| - 1], xs[|xs| - 1];
      assert WellFormed(x) && xs == front + [x];
      MissingPicked(front, ys);
      OccursIsMember(ys, x);
      PickNext(front, x, MissingAt(front, ys), MissingAt(xs, ys));
    }
  }

  predicate AllWellFormed(xs: seq<Value>) {
    forall i | 0 <= i < |xs| :: WellFormed(xs[i])
  }

  lemma OccursIsMember(xs: seq<Value>, x: Value)
    requires AllWellFormed(xs) && WellFormed(x)
    ensures Occurs(xs, x) <==> x in xs
  {
    forall i | 0 <= i < |xs| ensures DeepEqual(xs[i], x) <==> xs[i] == x { DeepEqualIsEqual(xs[i], x); }
  }

  lemma {:induction false} MissingAre(xs: seq<Value>, ys: seq<Value>, v: Value)
    requires AllWellFormed(xs) && AllWellFormed(ys)
    ensures v in Missing(xs, ys) <==> v in xs && v !in ys
  {
    if xs == [] {
    } else {
      var x := xs[|xs| - 1];
      assert WellFormed(x);
      MissingAre(xs[..|xs| - 1], ys, v);
      OccursIsMember(ys, x);
      assert v in xs <==> v in xs[..|xs| - 1] || v == x;
    }
  }

  function Items(xs: seq<Value>): set<Value> { set x | x in xs }

  /** The delta of two arrays: what is added was not there before, what is removed is not there now,
      and applying it to the previous items gives exactly the current ones. */
  lemma ArrayDeltaReconstructs(prev: seq<Value>, curr: seq<Value>)
    requires AllWellFormed(prev) && AllWellFormed(curr)
    ensures var added, removed := Missing(curr, prev), Missing(prev, curr);
            && Items(added) !! Items(prev) && Items(removed) !! Items(curr)
            && Items(removed) <= Items(prev)
            && (Items(prev) - Items(removed)) + Items(added) == Items(curr)
            && (Items(curr) - Items(added)) + Items(removed) == Items(prev)
            && (added == [] == removed <==> Items(prev) == Items(curr))
  {
    var added, removed := Missing(curr, prev), Missing(prev, curr);
    forall v ensures v in added <==> v in curr && v !in prev { MissingAre(curr, prev, v); }
    forall v ensures v in removed <==> v in prev && v !in curr { MissingAre(prev, curr, v); }
    forall v ensures v in Items(prev) <==> v in prev {}
    if added == [] == removed {
      assert forall v :: v !in added && v !in removed;
      assert forall v :: v in Items(prev) <==> v in Items(curr);
    }
    Empty(added);
    Empty(removed);
  }

  lemma Empty(xs: seq<Value>)
    ensures xs == [] <==> Items(xs) == {}
  {
    if xs != [] { assert xs[0] in Items(xs); }
  }

  // ----- Objects ---------------------------------------------------------------------------------------

  /** What a key of an object gives: its own value, what every object inherits, or nothing. */
  datatype Slot = Own(value: Value) | Inherited | Absent

  function Last(ms: seq<Member>, k: Text): Slot {
    if ms == [] then Absent
    else if ms[|ms| - 1].key == k then Own(ms[|ms| - 1].value)
    else Last(ms[..|ms| - 1], k)
  }

  function Look(inherited: set<Text>, ms: seq<Member>, k: Text): Slot {
    var own := Last(ms, k);
    if own == Absent && k in inherited then Inherited else own
  }

  const EMPTY_OBJECT := Object([])

  /** `JSON.stringify` of a slot; an inherited function has no text, the inherited prototype prints `{}`. */
  function SlotText(k: Text, s: Slot): Text {
    match s
    case Own(v) => Print(v)
    case Inherited => if k == PROTO then Print(EMPTY_OBJECT) else []
    case Absent => []
  }

  datatype Entry = Entry(key: Text, slot: Slot)
  datatype Change = Change(key: Text, before: Slot, after: Slot)
  datatype Diff = Diff(added: seq<Entry>, removed: seq<Entry>, modified: seq<Change>)

  const NO_DIFF := Diff([], [], [])

  /** How one key compares. */
  datatype Kind = Same | IsAdded(now: Slot) | IsRemoved(was: Slot) | IsModified(before: Slot, after: Slot)

  function KindOf(inherited: set<Text>, prev: seq<Member>, curr: seq<Member>, k: Text): Kind {
    var p, c := Look(inherited, prev, k), Look(inherited, curr, k);
    if p == Absent && c != Absent then IsAdded(c)
    else if p != Absent && c == Absent then IsRemoved(p)
    else if SlotText(k, p) != SlotText(k, c) then IsModified(p, c)
    else Same
  }

  function AddKey(d: Diff, k: Text, kind: Kind): Diff {
    match kind
    case Same => d
    case IsAdded(s) => d.(added := d.added + [Entry(k, s)])
    case IsRemoved(s) => d.(removed := d.removed + [Entry(k, s)])
    case IsModified(p, c) => d.(modified := d.modified + [Change(k, p, c)])
  }

  function DiffKeys(inherited: set<Text>, prev: seq<Member>, curr: seq<Member>, keys: seq<Text>): Diff {
    if keys == [] then NO_DIFF
    else
      var k := keys[|keys| - 1];
      AddKey(DiffKeys(inherited, prev, curr, keys[..|keys| - 1]), k, KindOf(inherited, prev, curr, k))
  }

  function Keys(ms: seq<Member>): seq<Text> {
    if ms == [] then [] else Keys(ms[..|ms| - 1]) + [ms[|ms| - 1].key]
  }

  function InsertNew(keys: seq<Text>, more: seq<Text>): seq<Text> {
    if more == [] then keys
    else
      var before, k := InsertNew(keys, more[..|more| - 1]), more[|more| - 1];
      if k in before then before else before + [k]
  }

  /** The keys of both objects, each once, in the order of first occurrence. */
  function AllKeys(prev: seq<Member>, curr: seq<Member>): seq<Text> {
    InsertNew(InsertNew([], Keys(prev)), Keys(curr))
  }

  function EntryAt(es: seq<Entry>, k: Text): Slot {
    if es == [] then Absent
    else if es[|es| - 1].key == k then es[|es| - 1].slot
    else EntryAt(es[..|es| - 1], k)
  }

  function ChangeAt(cs: seq<Change>, k: Text): Slot {
    if cs == [] then Absent
    else if cs[|cs| - 1].key == k then cs[|cs| - 1].after
    else ChangeAt(cs[..|cs| - 1], k)
  }

  function ChangedFrom(cs: seq<Change>, k: Text): Slot {
    if cs == [] then Absent
    else if cs[|cs| - 1].key == k then cs[|cs| - 1].before
    else ChangedFrom(cs[..|cs| - 1], k)
  }

  /** What a client gets for `k` when it takes `d` back. */
  function UndoneAt(d: Diff, after: Slot, k: Text): Slot {
    if ChangedFrom(d.modified, k) != Absent then ChangedFrom(d.modified, k)
    else if EntryAt(d.removed, k) != Absent then EntryAt(d.removed, k)
    else if EntryAt(d.added, k) != Absent then Absent
    else after
  }

  /** What a client gets for `k` when it applies `d` to the object it knows. */
  function AppliedAt(d: Diff, before: Slot, k: Text): Slot {
    if ChangeAt(d.modified, k) != Absent then ChangeAt(d.modified, k)
    else if EntryAt(d.added, k) != Absent then EntryAt(d.added, k)
    else if EntryAt(d.removed, k) != Absent then Absent
    else before
  }

  lemma {:induction false} LastIsOwn(ms: seq<Member>, k: Text)
    ensures Last(ms, k) == Absent <==> k !in Keys(ms)
    ensures Last(ms, k) != Inherited
  {
    if ms == [] {
    } else {
      LastIsOwn(ms[..|ms| - 1], k);
    }
  }

  lemma {:induction false} InsertNewAre(keys: seq<Text>, more: seq<Text>, k: Text)
    ensures k in InsertNew(keys, more) <==> k in keys || k in more
  {
    if more == [] {
    } else {
      InsertNewAre(keys, more[..|more| - 1], k);
      InsertNewAre(keys, more[..|more| - 1], more[|more| - 1]);
      assert k in more <==> k in more[..|more| - 1] || k == more[|more| - 1];
    }
  }

  /** `d` holds `k` in its list for `kind` and in no other. */
  ghost predicate Holds(d: Diff, k: Text, kind: Kind) {
    && EntryAt(d.added, k) == (if kind.IsAdded? then kind.now else Absent)
    && EntryAt(d.removed, k) == (if kind.IsRemoved? then kind.was else Absent)
    && ChangeAt(d.modified, k) == (if kind.IsModified? then kind.after else Absent)
    && ChangedFrom(d.modified, k) == (if kind.IsModified? then kind.before else Absent)
  }

  lemma EntrySnoc(es: seq<Entry>, e: Entry, x: Text)
    ensures EntryAt(es + [e], x) == if e.key == x then e.slot else EntryAt(es, x)
  {
    assert (es + [e])[..|es|] == es;
  }

  lemma ChangeSnoc(cs: seq<Change>, c: Change, x: Text)
    ensures ChangeAt(cs + [c], x) == if c.key == x then c.after else ChangeAt(cs, x)
    ensures ChangedFrom(cs + [c], x) == if c.key == x then c.before else ChangedFrom(cs, x)
  {
    assert (cs + [c])[..|cs|] == cs;
  }

  lemma AddHolds(d: Diff, k: Text, kind: Kind, x: Text, was: Kind)
    requires Holds(d, x, was) && (x == k ==> was == kind || was == Same)
    ensures Holds(AddKey(d, k, kind), x, if x == k then kind else was)
  {
    match kind
    case Same =>
    case IsAdded(s) => EntrySnoc(d.added, Entry(k, s), x);
    case IsRemoved(s) => EntrySnoc(d.removed, Entry(k, s), x);
    case IsModified(p, c) => ChangeSnoc(d.modified, Change(k, p, c), x);
  }

  lemma {:induction false} DiffHolds(
    inherited: set<Text>, prev: seq<Member>, curr: seq<Member>, keys: seq<Text>, x: Text)
    ensures var kind := if x in keys then KindOf(inherited, prev, curr, x) else Same;
            Holds(DiffKeys(inherited, prev, curr, keys), x, kind)
  {
    if keys == [] {
    } else {
      var before, k := keys[..|keys| - 1], keys[|keys| - 1];
      DiffHolds(inherited, prev, curr, before, x);
      var was := if x in before then KindOf(inherited, prev, curr, x) else Same;
      AddHolds(DiffKeys(inherited, prev, curr, before), k, KindOf(inherited, prev, curr, k), x, was);
      assert x in keys <==> x in before || x == k;
    }
  }

  // ----- When the delta is enough ------------------------------------------------------------------------

  /** The failing family: an inherited name that only the previous object has, or an empty object under
      `__proto__` that only the current one has. */
  predicate Lossy(inherited: set<Text>, prev: seq<Member>, curr: seq<Member>, k: Text) {
    && k in inherited
    && if k in Keys(prev) then k !in Keys(curr) else k == PROTO && Last(curr, k) == Own(EMPTY_OBJECT)
  }

  lemma {:induction false} LastWellFormed(ms: seq<Member>, k: Text)
    requires forall i | 0 <= i < |ms| :: WellFormed(ms[i].value)
    ensures Last(ms, k).Own? ==> WellFormed(Last(ms, k).value)
  {
    if ms == [] {
    } else {
      LastWellFormed(ms[..|ms| - 1], k);
    }
  }

  lemma SlotTextExactly(k: Text, p: Slot, c: Slot)
    requires p.Own? ==> WellFormed(p.value)
    requires c.Own? ==> WellFormed(c.value)
    requires p != Absent && c != Absent && (p.Own? || c.Own?)
    ensures SlotText(k, p) == SlotText(k, c) <==>
            if p.Own? && c.Own? then p == c else k == PROTO && (p == Own(EMPTY_OBJECT) || c == Own(EMPTY_OBJECT))
  {
    assert WellFormed(EMPTY_OBJECT);
    if p.Own? {
      WriteStarts(p.value, []);
      PrintInjective(p.value, if c.Own? then c.value else EMPTY_OBJECT);
    } else {
      WriteStarts(c.value, []);
      PrintInjective(c.value, EMPTY_OBJECT);
    }
  }

  /** What a client that applies the delta has for `k`. */
  function Applied(inherited: set<Text>, prev: seq<Member>, curr: seq<Member>, k: Text): Slot {
    AppliedAt(DiffKeys(inherited, prev, curr, AllKeys(prev, curr)), Last(prev, k), k)
  }

  function Undone(inherited: set<Text>, prev: seq<Member>, curr: seq<Member>, k: Text): Slot {
    UndoneAt(DiffKeys(inherited, prev, curr, AllKeys(prev, curr)), Last(curr, k), k)
  }

  /** For one key: the way forward fails exactly if it is lossy, the way back exactly if it is lossy with
      the two objects exchanged. */
  lemma AppliedExactly(inherited: set<Text>, prev: seq<Member>, curr: seq<Member>, k: Text)
    requires WellFormed(Object(prev)) && WellFormed(Object(curr))
    ensures Applied(inherited, prev, curr, k) == Last(curr, k) <==> !Lossy(inherited, prev, curr, k)
    ensures Undone(inherited, prev, curr, k) == Last(prev, k) <==> !Lossy(inherited, curr, prev, k)
  {
    LastIsOwn(prev, k);
    LastIsOwn(curr, k);
    LastWellFormed(prev, k);
    LastWellFormed(curr, k);
    InsertNewAre([], Keys(prev), k);
    InsertNewAre(InsertNew([], Keys(prev)), Keys(curr), k);
    DiffHolds(inherited, prev, curr, AllKeys(prev, curr), k);
    var p, c := Look(inherited, prev, k), Look(inherited, curr, k);
    if p != Absent && c != Absent && (p.Own? || c.Own?) { SlotTextExactly(k, p, c); }
  }

  /** Whether the operator `in` finds `k`. */
  predicate Has(inherited: set<Text>, ms: seq<Member>, k: Text) { k in Keys(ms) || k in inherited }

  /** Two slots that print alike: nothing for both, equal own values, or the empty object for the inherited
      prototype. */
  predicate PrintAlike(k: Text, p: Slot, c: Slot) {
    p == c || (k == PROTO && (p == Inherited || p == Own(EMPTY_OBJECT)) && (c == Inherited || c == Own(EMPTY_OBJECT)))
  }

  lemma AllKeysAre(prev: seq<Member>, curr: seq<Member>, k: Text)
    ensures k in AllKeys(prev, curr) <==> k in Keys(prev) || k in Keys(curr)
  {
    InsertNewAre([], Keys(prev), k);
    InsertNewAre(InsertNew([], Keys(prev)), Keys(curr), k);
  }

  /** Which list names a key of either object, without the functions that sort them: `added` exactly those that only
      the current object has, `removed` exactly those that only the previous one has, with their values; `modified`
      exactly those that both have with a value that prints differently, with the value before and after. */
  lemma ListsExactly(inherited: set<Text>, prev: seq<Member>, curr: seq<Member>, k: Text)
    requires WellFormed(Object(prev)) && WellFormed(Object(curr)) && (k in Keys(prev) || k in Keys(curr))
    ensures var d := DiffKeys(inherited, prev, curr, AllKeys(prev, curr));
            var (before, now) := (Look(inherited, prev, k), Look(inherited, curr, k));
            && EntryAt(d.added, k) == (if !Has(inherited, prev, k) then now else Absent)
            && EntryAt(d.removed, k) == (if !Has(inherited, curr, k) then before else Absent)
            && var changed := Has(inherited, prev, k) && Has(inherited, curr, k) && !PrintAlike(k, before, now);
               ChangeAt(d.modified, k) == (if changed then now else Absent)
               && ChangedFrom(d.modified, k) == (if changed then before else Absent)
  {
    LastIsOwn(prev, k);
    LastIsOwn(curr, k);
    LastWellFormed(prev, k);
    LastWellFormed(curr, k);
    AllKeysAre(prev, curr, k);
    DiffHolds(inherited, prev, curr, AllKeys(prev, curr), k);
    var p, c := Look(inherited, prev, k), Look(inherited, curr, k);
    if p != Absent && c != Absent { SlotTextExactly(k, p, c); }
  }

  function EntryKeys(es: seq<Entry>): seq<Text> {
    if es == [] then [] else EntryKeys(es[..|es| - 1]) + [es[|es| - 1].key]
  }

  function ChangeKeys(cs: seq<Change>): seq<Text> {
    if cs == [] then [] else ChangeKeys(cs[..|cs| - 1]) + [cs[|cs| - 1].key]
  }

  function AddedAt(inherited: set<Text>, prev: seq<Member>, curr: seq<Member>, keys: seq<Text>): set<nat> {
    set i: nat | i < |keys| && KindOf(inherited, prev, curr, keys[i]).IsAdded?
  }

  function RemovedAt(inherited: set<Text>, prev: seq<Member>, curr: seq<Member>, keys: seq<Text>): set<nat> {
    set i: nat | i < |keys| && KindOf(inherited, prev, curr, keys[i]).IsRemoved?
  }

  function ModifiedAt(inherited: set<Text>, prev: seq<Member>, curr: seq<Member>, keys: seq<Text>): set<nat> {
    set i: nat | i < |keys| && KindOf(inherited, prev, curr, keys[i]).IsModified?
  }

  lemma AddKeyNames(d: Diff, k: Text, kind: Kind)
    ensures var d' := AddKey(d, k, kind);
            && EntryKeys(d'.added) == EntryKeys(d.added) + (if kind.IsAdded? then [k] else [])
            && EntryKeys(d'.removed) == EntryKeys(d.removed) + (if kind.IsRemoved? then [k] else [])
            && ChangeKeys(d'.modified) == ChangeKeys(d.modified) + (if kind.IsModified? then [k] else [])
  {
  }

  /** The lists name their keys in the order of `keys`, each as often as it is there. */
  lemma {:induction false} ListsInOrder(inherited: set<Text>, prev: seq<Member>, curr: seq<Member>, keys: seq<Text>)
    ensures var d := DiffKeys(inherited, prev, curr, keys);
            && EntryKeys(d.added) == Pick(keys, AddedAt(inherited, prev, curr, keys))
            && EntryKeys(d.removed) == Pick(keys, RemovedAt(inherited, prev, curr, keys))
            && ChangeKeys(d.modified) == Pick(keys, ModifiedAt(inherited, prev, curr, keys))
  {
    if keys == [] {
    } else {
      var front, k := keys[..|keys| - 1], keys[|keys| - 1];
      assert keys == front + [k];
      ListsInOrder(inherited, prev, curr, front);
      AddKeyNames(DiffKeys(inherited, prev, curr, front), k, KindOf(inherited, prev, curr, k));
      PickNext(front, k, AddedAt(inherited, prev, curr, front), AddedAt(inherited, prev, curr, keys));
      PickNext(front, k, RemovedAt(inherited, prev, curr, front), RemovedAt(inherited, prev, curr, keys));
      PickNext(front, k, ModifiedAt(inherited, prev, curr, front), ModifiedAt(inherited, prev, curr, keys));
    }
  }

  predicate DistinctTexts(ts: seq<Text>) { forall i, j | 0 <= i < j < |ts| :: ts[i] != ts[j] }

  function NewAt(keys: seq<Text>, more: seq<Text>): set<nat> { set i: nat | i < |more| && more[i] !in keys }

  lemma {:induction false} InsertNewIs(keys: seq<Text>, more: seq<Text>)
    requires DistinctTexts(more)
    ensures InsertNew(keys, more) == keys + Pick(more, NewAt(keys, more))
  {
    if more == [] {
    } else {
      var front, k := more[..|more| - 1], more[|more| - 1];
      assert more == front + [k];
      InsertNewIs(keys, front);
      InsertNewAre(keys, front, k);
      PickNext(front, k, NewAt(keys, front), NewAt(keys, more));
      assert k !in front;
    }
  }

  lemma {:induction false} KeysDistinct(ms: seq<Member>)
    requires DistinctKeys(ms)
    ensures |Keys(ms)| == |ms| && (forall i | 0 <= i < |ms| :: Keys(ms)[i] == ms[i].key) && DistinctTexts(Keys(ms))
  {
    if ms == [] {
    } else {
      KeysDistinct(ms[..|ms| - 1]);
    }
  }

  lemma {:induction false} PickEvery(ts: seq<Text>, of: set<nat>)
    requires forall i: nat | i < |ts| :: i in of
    ensures Pick(ts, of) == ts
  {
    if ts == [] {
    } else {
      PickEvery(ts[..|ts| - 1], of);
      assert |ts| - 1 in of;
    }
  }

  /** The keys that are compared: those of the previous object in its order, then the new ones of the current object
      in its order; each once. */
  lemma AllKeysOrder(prev: seq<Member>, curr: seq<Member>)
    requires DistinctKeys(prev) && DistinctKeys(curr)
    ensures AllKeys(prev, curr) == Keys(prev) + Pick(Keys(curr), NewAt(Keys(prev), Keys(curr)))
    ensures DistinctTexts(Keys(prev)) && DistinctTexts(Keys(curr))
  {
    KeysDistinct(prev);
    KeysDistinct(curr);
    InsertNewIs([], Keys(prev));
    PickEvery(Keys(prev), NewAt([], Keys(prev)));
    assert [] + Keys(prev) == Keys(prev);
    InsertNewIs(Keys(prev), Keys(curr));
  }

  /** Applied to the previous object, the delta gives every key and value of the current one and nothing
      else, if and only if no key is lossy; taken back from the current object it gives the previous one
      under the same condition with the objects exchanged. */
  lemma ObjectDeltaReconstructsExactly(inherited: set<Text>, prev: seq<Member>, curr: seq<Member>)
    requires WellFormed(Object(prev)) && WellFormed(Object(curr))
    ensures (forall k :: Applied(inherited, prev, curr, k) == Last(curr, k))
       <==> (forall k :: !Lossy(inherited, prev, curr, k))
    ensures (forall k :: Undone(inherited, prev, curr, k) == Last(prev, k))
       <==> (forall k :: !Lossy(inherited, curr, prev, k))
  {
    forall k ensures Applied(inherited, prev, curr, k) == Last(curr, k) <==> !Lossy(inherited, prev, curr, k) {
      AppliedExactly(inherited, prev, curr, k);
    }
    forall k ensures Undone(inherited, prev, curr, k) == Last(prev, k) <==> !Lossy(inherited, curr, prev, k) {
      AppliedExactly(inherited, prev, curr, k);
    }
  }

  /** Removing an inherited name such as `toString` is not reported as a removal. */
  lemma RemovedNameStays(inherited: set<Text>, name: Text, v: Value)
    requires name in inherited && WellFormed(v)
    ensures Applied(inherited, [Member(name, v)], [], name) != Absent
  {
    var prev: seq<Member> := [Member(name, v)];
    assert WellFormed(Object(prev));
    assert Last(prev, name) == Own(v);
    LastIsOwn(prev, name);
    AppliedExactly(inherited, prev, [], name);
  }

  /** Adding an empty object under `__proto__` is not reported at all. */
  lemma EmptyProtoIsLost(inherited: set<Text>)
    requires PROTO in inherited
    ensures Applied(inherited, [], [Member(PROTO, EMPTY_OBJECT)], PROTO) != Own(EMPTY_OBJECT)
  {
    var curr := [Member(PROTO, EMPTY_OBJECT)];
    assert WellFormed(EMPTY_OBJECT) && WellFormed(Object(curr));
    assert Last(curr, PROTO) == Own(EMPTY_OBJECT);
    AppliedExactly(inherited, [], curr, PROTO);
  }

  // ----- The program -----------------------------------------------------------------------------------------

  datatype Delta =
    | Unchanged
    | Full(current: Value)
    | ArrayDiff(added: seq<Value>, removed: seq<Value>)
    | ObjectDiff(diff: Diff)

  const UNCHANGED: Text := [117, 110, 99, 104, 97, 110, 103, 101, 100]
  const ADDED: Text := [97, 100, 100, 101, 100]
  const REMOVED: Text := [114, 101, 109, 111, 118, 101, 100]
  const MODIFIED: Text := [109, 111, 100, 105, 102, 105, 101, 100]
  const FULL: Text := [102, 117, 108, 108]
  const BEFORE: Text := [98, 101, 102, 111, 114, 101]
  const AFTER: Text := [97, 102, 116, 101, 114]

  /** The object `{ [key]: slot }` as it is printed: an inherited function leaves no member. */
  function SlotJson(k: Text, s: Slot): Value {
    match s
    case Own(v) => Object([Member(k, v)])
    case Inherited => if k == PROTO then Object([Member(k, EMPTY_OBJECT)]) else EMPTY_OBJECT
    case Absent => EMPTY_OBJECT
  }

  function EntriesJson(es: seq<Entry>): seq<Value> {
    seq(|es|, i requires 0 <= i < |es| => SlotJson(es[i].key, es[i].slot))
  }

  function ChangesJson(cs: seq<Change>): seq<Value> {
    seq(|cs|, i requires 0 <= i < |cs| =>
      Object([Member(BEFORE, SlotJson(cs[i].key, cs[i].before)), Member(AFTER, SlotJson(cs[i].key, cs[i].after))]))
  }

  /** A list of the delta, absent when it is empty. */
  function ListJson(name: Text, items: seq<Value>): seq<Member> {
    if items == [] then [] else [Member(name, Array(items))]
  }

  function DeltaJson(d: Delta): Value {
    match d
    case ArrayDiff(added, removed) =>
      Object([Member(UNCHANGED, Bool(false))] + ListJson(ADDED, added) + ListJson(REMOVED, removed))
    case ObjectDiff(diff) =>
      Object([Member(UNCHANGED, Bool(false))] + ListJson(ADDED, EntriesJson(diff.added))
             + ListJson(REMOVED, EntriesJson(diff.removed)) + ListJson(MODIFIED, ChangesJson(diff.modified)))
    case Unchanged => Object([Member(UNCHANGED, Bool(true))])
    case Full(v) => Object([Member(UNCHANGED, Bool(false)), Member(FULL, v)])
  }

  /** `Buffer.byteLength`: a surrogate is half of a pair of four bytes, as printing escapes lone ones. */
  function Bytes(t: Text): nat {
    if t == [] then 0
    else
      var u := t[|t| - 1];
      Bytes(t[..|t| - 1])
      + (if u < 0x80 then 1 else if u < 0x800 || IsHighSurrogate(u) || IsLowSurrogate(u) then 2 else 3)
  }

  /** The code units from `low` on, surrogates counted or not. */
  function UnitsFrom(t: Text, low: CodeUnit, surrogates: bool): set<nat> {
    set i: nat | i < |t| && t[i] >= low && (surrogates || !(0xD800 <= t[i] <= 0xDFFF))
  }

  lemma UnitsNext(t: Text, u: CodeUnit, low: CodeUnit, surrogates: bool)
    ensures |UnitsFrom(t + [u], low, surrogates)|
         == |UnitsFrom(t, low, surrogates)| + if u >= low && (surrogates || !(0xD800 <= u <= 0xDFFF)) then 1 else 0
  {
    assert UnitsFrom(t + [u], low, surrogates)
        == UnitsFrom(t, low, surrogates)
           + if u >= low && (surrogates || !(0xD800 <= u <= 0xDFFF)) then {|t|} else {};
  }

  /** One byte for every code unit, one more from U+0080 on, and another from U+0800 on except for surrogates, two of
      which make four bytes. */
  lemma {:induction false} BytesAre(t: Text)
    ensures Bytes(t) == |t| + |UnitsFrom(t, 0x80, true)| + |UnitsFrom(t, 0x800, false)|
  {
    if t == [] {
    } else {
      var front, u := t[..|t| - 1], t[|t| - 1];
      assert t == front + [u];
      BytesAre(front);
      UnitsNext(front, u, 0x80, true);
      UnitsNext(front, u, 0x800, false);
    }
  }

  predicate ShouldReturnFull(d: Delta, curr: Value) { Bytes(Print(DeltaJson(d))) > Bytes(Print(curr)) }

  function ShorterOf(d: Delta, curr: Value): Delta { if ShouldReturnFull(d, curr) then Full(curr) else d }

  function DeltaOf(inherited: set<Text>, prev: Value, curr: Value): Delta {
    if DeepEqual(prev, curr) then Unchanged
    else if prev.Array? && curr.Array? then
      ShorterOf(ArrayDiff(Missing(curr.items, prev.items), Missing(prev.items, curr.items)), curr)
    else if prev.Object? && curr.Object? then
      ShorterOf(ObjectDiff(DiffKeys(inherited, prev.members, curr.members, AllKeys(prev.members, curr.members))), curr)
    else Full(curr)
  }

  /** Whether the result of `d`, seen by a client that holds `prev`, is `curr` (for arrays: the set of its
      items, for objects: its keys and values). */
  ghost predicate Tells(d: Delta, prev: Value, curr: Value) {
    match d
    case Unchanged => curr == prev
    case Full(v) => curr == v
    case ArrayDiff(added, removed) =>
      prev.Array? && curr.Array? && Items(curr.items) == (Items(prev.items) - Items(removed)) + Items(added)
    case ObjectDiff(diff) =>
      prev.Object? && curr.Object? && forall k :: AppliedAt(diff, Last(prev.members, k), k) == Last(curr.members, k)
  }

  /** A delta always tells the current value, except an object delta with a lossy key; it says `unchanged`
      exactly when nothing changed; and no list of changes is longer than the value itself. */
  lemma DeltaTellsExactly(inherited: set<Text>, prev: Value, curr: Value)
    requires WellFormed(prev) && WellFormed(curr)
    ensures var d := DeltaOf(inherited, prev, curr);
            && (d == Unchanged <==> prev == curr)
            && (d.Full? ==> d.current == curr)
            && (prev != curr && prev.Array? && curr.Array? ==>
                  var changes := ArrayDiff(Missing(curr.items, prev.items), Missing(prev.items, curr.items));
                  d == if Bytes(Print(DeltaJson(changes))) > Bytes(Print(curr)) then Full(curr) else changes)
            && (prev != curr && prev.Object? && curr.Object? ==>
                  var changes := ObjectDiff(DiffKeys(inherited, prev.members, curr.members,
                                                     AllKeys(prev.members, curr.members)));
                  d == if Bytes(Print(DeltaJson(changes))) > Bytes(Print(curr)) then Full(curr) else changes)
            && (prev != curr && !(prev.Array? && curr.Array?) && !(prev.Object? && curr.Object?) ==> d == Full(curr))
            && (d.ArrayDiff? || d.ObjectDiff? ==> Bytes(Print(DeltaJson(d))) <= Bytes(Print(curr)))
            && (Tells(d, prev, curr)
                <==> !d.ObjectDiff? || forall k :: !Lossy(inherited, prev.members, curr.members, k))
  {
    var d := DeltaOf(inherited, prev, curr);
    DeepEqualIsEqual(prev, curr);
    if d.ArrayDiff? {
      ArrayDeltaReconstructs(prev.items, curr.items);
    } else if d.ObjectDiff? {
      ObjectDeltaReconstructsExactly(inherited, prev.members, curr.members);
      assert forall k ::
          Applied(inherited, prev.members, curr.members, k) == AppliedAt(d.diff, Last(prev.members, k), k);
    }
  }

  method ArrayDelta(prev: seq<Value>, curr: seq<Value>) returns (d: Delta)
    ensures d == ShorterOf(ArrayDiff(Missing(curr, prev), Missing(prev, curr)), Array(curr))
  {
    var added, removed := [], [];
    for i := 0 to |curr|
      invariant added == Missing(curr[..i], prev)
    {
      assert curr[..i + 1][..i] == curr[..i];
      if !Occurs(prev, curr[i]) { added := added + [curr[i]]; }
    }
    for i := 0 to |prev|
      invariant removed == Missing(prev[..i], curr)
    {
      assert prev[..i + 1][..i] == prev[..i];
      if !Occurs(curr, prev[i]) { removed := removed + [prev[i]]; }
    }
    assert curr[..|curr|] == curr && prev[..|prev|] == prev;
    d := ArrayDiff(added, removed);
    if ShouldReturnFull(d, Array(curr)) { d := Full(Array(curr)); }
  }

  lemma DiffNext(inherited: set<Text>, prev: seq<Member>, curr: seq<Member>, keys: seq<Text>, i: nat)
    requires i < |keys|
    ensures DiffKeys(inherited, prev, curr, keys[..i + 1])
         == AddKey(DiffKeys(inherited, prev, curr, keys[..i]), keys[i], KindOf(inherited, prev, curr, keys[i]))
  {
    assert keys[..i + 1][..i] == keys[..i];
  }

  method ObjectDelta(inherited: set<Text>, prev: seq<Member>, curr: seq<Member>) returns (d: Delta)
    ensures d == ShorterOf(ObjectDiff(DiffKeys(inherited, prev, curr, AllKeys(prev, curr))), Object(curr))
  {
    var allKeys := AllKeys(prev, curr);
    var added, removed, modified := [], [], [];
    for i := 0 to |allKeys|
      invariant Diff(added, removed, modified) == DiffKeys(inherited, prev, curr, allKeys[..i])
    {
      var key := allKeys[i];
      DiffNext(inherited, prev, curr, allKeys, i);
      var p, c := Look(inherited, prev, key), Look(inherited, curr, key);
      if p == Absent && c != Absent {
        added := added + [Entry(key, c)];
      } else if p != Absent && c == Absent {
        removed := removed + [Entry(key, p)];
      } else if SlotText(key, p) != SlotText(key, c) {
        modified := modified + [Change(key, p, c)];
      }
    }
    assert allKeys[..|allKeys|] == allKeys;
    d := ObjectDiff(Diff(added, removed, modified));
    if ShouldReturnFull(d, Object(curr)) { d := Full(Object(curr)); }
  }

  method ComputeDelta(inherited: set<Text>, prev: Value, curr: Value) returns (d: Delta)
    ensures d == DeltaOf(inherited, prev, curr)
  {
    if DeepEqual(prev, curr) { return Unchanged; }
    if prev.Array? && curr.Array? {
      d := ArrayDelta(prev.items, curr.items);
      return;
    }
    if prev.Object? && curr.Object? {
      d := ObjectDelta(inherited, prev.members, curr.members);
      return;
    }
    d := Full(curr);
  }
}
