/** The two-tier cache of `src/cache/cache.ts`, `src/cache/lru.ts` and `src/cache/disk.ts`. `get` and
    `set` are atomic. The memory tier can lose any entry at any time (size-based eviction,
    invalidation), and so can the disk tier (rotation, invalidation); reading or writing a disk entry
    can also fail. The disk tier is keyed by the hash of the arguments alone. */
module Cache {

  type Hash = string
  type Content = string

  /** `name` is `server:tool`. */
  datatype Key = Key(name: string, hash: Hash)

  datatype Entry = Entry(value: Content, storedAt: int, ttl: int)

  datatype Result = Miss | Hit(value: Content, storedAt: int, fromDisk: bool, staleness: int, needsRevalidation: bool)

  /** `running` counts the refreshes in flight. */
  datatype Tiers = Tiers(
    mem: map<Key, Entry>, disk: map<Hash, Entry>, ttls: map<Key, int>,
    revalidating: set<Key>, running: multiset<Key>, misses: nat, clock: int)

  const COLD := Tiers(map[], map[], map[], {}, multiset{}, 0, 0)

  datatype Event =
    | Get(key: Key, now: int, readable: bool)
    | Set(key: Key, value: Content, ttl: int, now: int, written: bool)
    | Evict(key: Key)
    | Drop(hash: Hash)
    | Clear
    | RefreshStart(key: Key)
    | RefreshEnd(key: Key)

  function Max(a: int, b: int): int { if a < b then b else a }

  predicate Expired(e: Entry, now: int) { e.ttl > 0 && now - e.storedAt > e.ttl }

  function TtlOf(s: Tiers, key: Key): int { if key in s.ttls then s.ttls[key] else 0 }

  function Found(e: Entry, now: int, fromDisk: bool, flagged: bool): Result {
    Hit(e.value, e.storedAt, fromDisk, now - e.storedAt, flagged)
  }

  /** The memory entry for a disk entry: its clock starts again, with what is left of the ttl. */
  function Promoted(e: Entry, now: int, ttl: int): Entry {
    Entry(e.value, now, if ttl > 0 then Max(1, ttl - (now - e.storedAt)) else 0)
  }

  function Promote(s: Tiers, key: Key, e: Entry, ttl: int): Tiers {
    s.(mem := s.mem[key := e], ttls := s.ttls[key := ttl])
  }

  function DiskTtl(s: Tiers, key: Key, e: Entry): int { if e.ttl > 0 then e.ttl else TtlOf(s, key) }

  function FromDisk(swr: bool, s: Tiers, key: Key, now: int, readable: bool): (Tiers, Result) {
    if key.hash in s.disk && readable then
      var e := s.disk[key.hash];
      var ttl := DiskTtl(s, key, e);
      if !(ttl > 0 && now - e.storedAt > ttl) then
        (Promote(s, key, Promoted(e, now, ttl), ttl), Found(e, now, true, false))
      else if swr then
        (Promote(s, key, Entry(e.value, now, Max(1, ttl)), ttl), Found(e, now, true, key !in s.revalidating))
      else (s.(disk := s.disk - {key.hash}, misses := s.misses + 1), Miss)
    else (s.(misses := s.misses + 1), Miss)
  }

  function Lookup(swr: bool, s: Tiers, key: Key, now: int, readable: bool): (Tiers, Result) {
    var s0 := s.(clock := now);
    var gone := s0.(mem := s.mem - {key});
    if key in s.mem && !Expired(s.mem[key], now) then
      var e, ttl := s.mem[key], TtlOf(s, key);
      if !(ttl > 0 && now - e.storedAt > ttl) then (s0, Found(e, now, false, false))
      else if swr then (s0, Found(e, now, false, key !in s.revalidating))
      else FromDisk(swr, gone, key, now, readable)
    else FromDisk(swr, gone, key, now, readable)
  }

  function Store(s: Tiers, key: Key, value: Content, ttl: int, now: int, written: bool): Tiers {
    var s0 := s.(clock := now);
    if ttl == 0 then s0
    else
      var e := Entry(value, now, ttl);
      s0.(mem := s.mem[key := e], ttls := s.ttls[key := ttl], disk := if written then s.disk[key.hash := e] else s.disk)
  }

  predicate Allowed(s: Tiers, e: Event) {
    match e
    case Get(_, now, _) => s.clock <= now
    case Set(_, _, _, now, _) => s.clock <= now
    case RefreshEnd(key) => key in s.running
    case _ => true
  }

  function Next(swr: bool, s: Tiers, e: Event): Tiers {
    match e
    case Get(key, now, readable) => Lookup(swr, s, key, now, readable).0
    case Set(key, value, ttl, now, written) => Store(s, key, value, ttl, now, written)
    case Evict(key) => s.(mem := s.mem - {key})
    case Drop(hash) => s.(disk := s.disk - {hash})
    case Clear => s.(mem := map[], disk := map[], ttls := map[], misses := 0)
    case RefreshStart(key) =>
      if key in s.revalidating then s
      else s.(revalidating := s.revalidating + {key}, running := s.running + multiset{key})
    case RefreshEnd(key) => s.(revalidating := s.revalidating - {key}, running := s.running - multiset{key})
  }

  // ----- Invariant -----------------------------------------------------------------------------------

  /** A memory entry lives no longer than the map of ttls says, and for ever only if that does. */
  ghost predicate TtlFine(s: Tiers, key: Key) {
    key in s.mem ==>
      && key in s.ttls && s.mem[key].storedAt <= s.clock
      && (if s.mem[key].ttl > 0 then s.mem[key].ttl <= s.ttls[key] else s.ttls[key] <= 0)
  }

  ghost predicate Inv(s: Tiers) {
    && (forall key :: TtlFine(s, key))
    && (forall h | h in s.disk :: s.disk[h].storedAt <= s.clock)
    && (forall key :: s.running[key] == if key in s.revalidating then 1 else 0)
  }

  lemma FromDiskKeeps(swr: bool, s: Tiers, key: Key, now: int, readable: bool)
    requires Inv(s) && s.clock == now
    ensures Inv(FromDisk(swr, s, key, now, readable).0)
  {
    var s' := FromDisk(swr, s, key, now, readable).0;
    forall k ensures TtlFine(s', k) { assert TtlFine(s, k); }
  }

  lemma FewerKeeps(s: Tiers, s': Tiers)
    requires Inv(s) && s' == s.(mem := s'.mem, disk := s'.disk, clock := s'.clock, misses := s'.misses)
    requires s.clock <= s'.clock
    requires forall k | k in s'.mem :: k in s.mem && s'.mem[k] == s.mem[k]
    requires forall h | h in s'.disk :: h in s.disk && s'.disk[h] == s.disk[h]
    ensures Inv(s')
  {
    forall k ensures TtlFine(s', k) { assert TtlFine(s, k); }
  }

  lemma GetKeeps(swr: bool, s: Tiers, key: Key, now: int, readable: bool)
    requires Inv(s) && s.clock <= now
    ensures Inv(Lookup(swr, s, key, now, readable).0)
  {
    FewerKeeps(s, s.(clock := now));
    FewerKeeps(s, s.(clock := now, mem := s.mem - {key}));
    FromDiskKeeps(swr, s.(clock := now, mem := s.mem - {key}), key, now, readable);
  }

  lemma StoreKeeps(s: Tiers, key: Key, value: Content, ttl: int, now: int, written: bool)
    requires Inv(s) && s.clock <= now
    ensures Inv(Store(s, key, value, ttl, now, written))
  {
    var s' := Store(s, key, value, ttl, now, written);
    forall k ensures TtlFine(s', k) { assert TtlFine(s, k); }
  }

  lemma NextKeeps(swr: bool, s: Tiers, e: Event)
    requires Inv(s) && Allowed(s, e)
    ensures Inv(Next(swr, s, e))
  {
    var s' := Next(swr, s, e);
    match e
    case Get(key, now, readable) => GetKeeps(swr, s, key, now, readable);
    case Set(key, value, ttl, now, written) => StoreKeeps(s, key, value, ttl, now, written);
    case Evict(_) => FewerKeeps(s, s');
    case Drop(_) => FewerKeeps(s, s');
    case _ => forall k ensures TtlFine(s', k) { assert TtlFine(s, k); }
  }

  /** What the memory tier returns is never stale by the map of ttls: the branches that handle a stale
      memory hit are never taken. */
  lemma MemoryHitNeverStale(s: Tiers, key: Key, now: int)
    requires Inv(s) && key in s.mem && !Expired(s.mem[key], now)
    ensures !(TtlOf(s, key) > 0 && now - s.mem[key].storedAt > TtlOf(s, key))
  {
    assert TtlFine(s, key);
  }

  // ----- Runs ----------------------------------------------------------------------------------------

  ghost predicate IsRun(swr: bool, run: seq<Event>, states: seq<Tiers>) {
    && |states| == |run| + 1 && states[0] == COLD
    && forall i | 0 <= i < |run| :: IsStep(swr, run, states, i)
  }

  ghost predicate IsStep(swr: bool, run: seq<Event>, states: seq<Tiers>, i: nat)
    requires i < |run| && i + 1 < |states|
  {
    Allowed(states[i], run[i]) && states[i + 1] == Next(swr, states[i], run[i])
  }

  lemma {:induction false} RunKeeps(swr: bool, run: seq<Event>, states: seq<Tiers>, i: nat)
    requires IsRun(swr, run, states) && i <= |run|
    ensures Inv(states[i])
  {
    if i == 0 {
      forall k ensures TtlFine(COLD, k) {}
    } else {
      RunKeeps(swr, run, states, i - 1);
      assert IsStep(swr, run, states, i - 1);
      NextKeeps(swr, states[i - 1], run[i - 1]);
    }
  }

  /** At most one refresh of a key is in flight. */
  lemma AtMostOneRefresh(swr: bool, run: seq<Event>, states: seq<Tiers>, i: nat, key: Key)
    requires IsRun(swr, run, states) && i <= |run|
    ensures states[i].running[key] <= 1
  {
    RunKeeps(swr, run, states, i);
  }

  // ----- Where values come from -----------------------------------------------------------------------

  /** `run[j]` stored `value` for the arguments of `key`, and no later completed store on `key` before `i`. */
  ghost predicate StoredBy(run: seq<Event>, j: nat, i: nat, key: Key, value: Content) {
    && j < i <= |run| && run[j].Set? && run[j].ttl != 0
    && run[j].key.hash == key.hash && run[j].value == value
    && forall m | j < m < i && run[m].Set? && run[m].key == key && run[m].ttl != 0 :: !run[m].written
  }

  ghost predicate DiskFrom(run: seq<Event>, j: nat, i: nat, hash: Hash, e: Entry) {
    && j < i <= |run| && run[j].Set? && run[j].ttl != 0 && run[j].key.hash == hash
    && e == Entry(run[j].value, run[j].now, run[j].ttl)
    && forall m | j < m < i && run[m].Set? && run[m].key.hash == hash && run[m].ttl != 0 :: !run[m].written
  }

  /** The last completed store for `hash` before event `i`. */
  ghost function DiskBirth(run: seq<Event>, i: nat, hash: Hash): nat
    requires i <= |run|
  {
    if i == 0 then 0
    else if Completes(run[i - 1], hash) then i - 1
    else DiskBirth(run, i - 1, hash)
  }

  predicate Completes(e: Event, hash: Hash) {
    e.Set? && e.key.hash == hash && e.ttl != 0 && e.written
  }

  ghost predicate DiskOrigin(run: seq<Event>, i: nat, hash: Hash, disk: map<Hash, Entry>)
    requires i <= |run|
  {
    hash in disk ==> DiskFrom(run, DiskBirth(run, i, hash), i, hash, disk[hash])
  }

  /** What the disk tier has for a hash is what the last completed store with that hash put there. */
  lemma {:induction false} DiskOrigins(swr: bool, run: seq<Event>, states: seq<Tiers>, i: nat, hash: Hash)
    requires IsRun(swr, run, states) && i <= |run|
    ensures DiskOrigin(run, i, hash, states[i].disk)
  {
    if i == 0 {
    } else {
      DiskOrigins(swr, run, states, i - 1, hash);
      assert IsStep(swr, run, states, i - 1);
      DiskStep(swr, states[i - 1], run[i - 1], hash);
    }
  }

  lemma DiskStep(swr: bool, s: Tiers, e: Event, hash: Hash)
    ensures var disk' := Next(swr, s, e).disk;
            if Completes(e, hash) then hash in disk' && disk'[hash] == Entry(e.value, e.now, e.ttl)
            else hash in disk' ==> hash in s.disk && disk'[hash] == s.disk[hash]
  {
  }

  predicate Live(s: Tiers, key: Key, now: int) { key in s.mem && !Expired(s.mem[key], now) }

  /** A disk entry that is not too old at `now`. */
  predicate Usable(s: Tiers, key: Key, now: int) {
    && key.hash in s.disk
    && var ttl := DiskTtl(s, key, s.disk[key.hash]);
       !(ttl > 0 && now - s.disk[key.hash].storedAt > ttl)
  }

  /** Where a value comes from: the store that brought it, and whether it was too old when it was last read
      from disk. */
  datatype Birth = Birth(at: nat, revived: bool)

  /** The origin of what the memory tier has for `key` before event `i`: the last store, or the disk entry
      that a lookup promoted since. */
  ghost function MemBirth(run: seq<Event>, states: seq<Tiers>, i: nat, key: Key): Birth
    requires i <= |run| && i <= |states|
  {
    if i == 0 then Birth(0, false)
    else
      var e, s := run[i - 1], states[i - 1];
      if e.Set? && e.key == key && e.ttl != 0 then Birth(i - 1, false)
      else if e.Get? && e.key == key && !Live(s, key, e.now) then
        Birth(DiskBirth(run, i - 1, key.hash), !Usable(s, key, e.now))
      else MemBirth(run, states, i - 1, key)
  }

  /** A memory entry outlives its ttl by more than a millisecond only if it was revived, which takes
      stale-while-revalidate; and then it was too old from the start. */
  ghost predicate MemFrom(swr: bool, run: seq<Event>, b: Birth, i: nat, key: Key, e: Entry) {
    && StoredBy(run, b.at, i, key, e.value) && run[b.at].now <= e.storedAt && (b.revived ==> swr)
    && var end := run[b.at].now + run[b.at].ttl;
       run[b.at].ttl > 0 ==> if b.revived then e.storedAt > end else e.ttl > 0 && e.storedAt + e.ttl <= end + 1
  }

  ghost predicate MemOrigin(swr: bool, run: seq<Event>, states: seq<Tiers>, i: nat, key: Key)
    requires i <= |run| && i < |states|
  {
    key in states[i].mem ==> MemFrom(swr, run, MemBirth(run, states, i, key), i, key, states[i].mem[key])
  }

  /** What a step leaves in memory under `key`, unless it stores there or looks there in vain. */
  lemma MemStep(swr: bool, s: Tiers, e: Event, key: Key)
    requires Inv(s) && !(e.Set? && e.key == key && e.ttl != 0)
    requires !(e.Get? && e.key == key && !Live(s, key, e.now))
    ensures var mem' := Next(swr, s, e).mem; key in mem' ==> key in s.mem && mem'[key] == s.mem[key]
  {
    assert TtlFine(s, key);
  }

  /** What a lookup that finds nothing in memory leaves there: the disk entry, its life shortened if it is
      not too old. */
  ghost predicate PromotedAs(swr: bool, s: Tiers, key: Key, now: int, m: Entry) {
    && key.hash in s.disk && (!Usable(s, key, now) ==> swr)
    && var e := s.disk[key.hash];
       && m.value == e.value && m.storedAt == now
       && (e.ttl > 0 && Usable(s, key, now) ==> m.ttl > 0 && now + m.ttl <= e.storedAt + e.ttl + 1)
       && (e.ttl > 0 && !Usable(s, key, now) ==> now > e.storedAt + e.ttl)
  }

  lemma PromoteStep(swr: bool, s: Tiers, key: Key, now: int, readable: bool)
    requires Inv(s) && !Live(s, key, now)
    ensures var mem' := Lookup(swr, s, key, now, readable).0.mem;
            key in mem' ==> PromotedAs(swr, s, key, now, mem'[key])
  {
  }

  lemma PromotedFrom(swr: bool, run: seq<Event>, i: nat, s: Tiers, key: Key)
    requires i < |run| && run[i].Get? && run[i].key == key && s.clock <= run[i].now && Inv(s)
    requires !Live(s, key, run[i].now) && key in Next(swr, s, run[i]).mem && DiskOrigin(run, i, key.hash, s.disk)
    ensures var b := Birth(DiskBirth(run, i, key.hash), !Usable(s, key, run[i].now));
            MemFrom(swr, run, b, i + 1, key, Next(swr, s, run[i]).mem[key])
  {
    PromoteStep(swr, s, key, run[i].now, run[i].readable);
  }

  lemma StillFrom(swr: bool, run: seq<Event>, b: Birth, i: nat, key: Key, m: Entry)
    requires i < |run| && MemFrom(swr, run, b, i, key, m) && !(run[i].Set? && run[i].key == key && run[i].ttl != 0)
    ensures MemFrom(swr, run, b, i + 1, key, m)
  {
  }

  lemma StoredFrom(swr: bool, run: seq<Event>, i: nat, key: Key)
    requires i < |run| && run[i].Set? && run[i].key == key && run[i].ttl != 0
    ensures MemFrom(swr, run, Birth(i, false), i + 1, key, Entry(run[i].value, run[i].now, run[i].ttl))
  {
  }

  lemma OriginStep(swr: bool, run: seq<Event>, states: seq<Tiers>, i: nat, key: Key)
    requires i < |run| && i + 1 < |states| && Inv(states[i]) && IsStep(swr, run, states, i)
    requires MemOrigin(swr, run, states, i, key) && DiskOrigin(run, i, key.hash, states[i].disk)
    ensures MemOrigin(swr, run, states, i + 1, key)
  {
    var e, s := run[i], states[i];
    if e.Set? && e.key == key && e.ttl != 0 {
      StoredFrom(swr, run, i, key);
    } else if key in states[i + 1].mem && e.Get? && e.key == key && !Live(s, key, e.now) {
      PromotedFrom(swr, run, i, s, key);
    } else if key in states[i + 1].mem {
      MemStep(swr, s, e, key);
      StillFrom(swr, run, MemBirth(run, states, i, key), i, key, s.mem[key]);
    }
  }

  lemma {:induction false} MemOrigins(swr: bool, run: seq<Event>, states: seq<Tiers>, i: nat, key: Key)
    requires IsRun(swr, run, states) && i <= |run|
    ensures MemOrigin(swr, run, states, i, key)
  {
    if i == 0 {
    } else {
      RunKeeps(swr, run, states, i - 1);
      MemOrigins(swr, run, states, i - 1, key);
      DiskOrigins(swr, run, states, i - 1, key.hash);
      assert IsStep(swr, run, states, i - 1);
      OriginStep(swr, run, states, i - 1, key);
    }
  }

  // ----- How old an answer can be ---------------------------------------------------------------------

  /** The origin of the answer to lookup `i`. */
  ghost function AnswerBirth(run: seq<Event>, states: seq<Tiers>, i: nat): Birth
    requires i < |run| && i < |states| && run[i].Get?
  {
    var key, now := run[i].key, run[i].now;
    if Live(states[i], key, now) then MemBirth(run, states, i, key)
    else Birth(DiskBirth(run, i, key.hash), !Usable(states[i], key, now))
  }

  function AnswerAt(swr: bool, s: Tiers, e: Event): Result
    requires e.Get?
  {
    Lookup(swr, s, e.key, e.now, e.readable).1
  }

  lemma AnswerIs(swr: bool, s: Tiers, e: Event)
    requires Inv(s) && e.Get? && AnswerAt(swr, s, e).Hit?
    ensures var r, live := AnswerAt(swr, s, e), Live(s, e.key, e.now);
            && r.fromDisk == !live && (!live ==> e.key.hash in s.disk && (!Usable(s, e.key, e.now) ==> swr))
            && var from := if live then s.mem[e.key] else s.disk[e.key.hash];
               r == Found(from, e.now, !live, !live && !Usable(s, e.key, e.now) && e.key !in s.revalidating)
  {
    assert TtlFine(s, e.key);
  }

  /** Which answers are older than their ttl, in every run and mode. An answer was stored by the event it
      originates from. It is older than its ttl if it was too old when it was last read from disk, and at
      most a millisecond older if it was not; its age is not overstated, and exact from disk. It is
      flagged exactly if it was read from disk too old just now and no refresh of its key is in flight. So a
      late answer without a flag comes from memory, where an earlier lookup put an entry that was too old
      already and that was not stored since, or from disk during a refresh. */
  lemma LateExactly(swr: bool, run: seq<Event>, states: seq<Tiers>, i: nat)
    requires IsRun(swr, run, states) && i < |run| && run[i].Get?
    ensures var (key, now) := (run[i].key, run[i].now);
            var (r, b) := (AnswerAt(swr, states[i], run[i]), AnswerBirth(run, states, i));
            r.Hit? ==>
              && StoredBy(run, b.at, i, key, r.value) && (b.revived ==> swr)
              && (run[b.at].ttl > 0 ==> var age := now - run[b.at].now;
                                        if b.revived then age > run[b.at].ttl else age <= run[b.at].ttl + 1)
              && r.staleness == now - r.storedAt
              && (if r.fromDisk then r.storedAt == run[b.at].now else r.storedAt >= run[b.at].now)
              && (r.fromDisk <==> !Live(states[i], key, now))
              && (r.needsRevalidation <==> r.fromDisk && b.revived && key !in states[i].revalidating)
  {
    if AnswerAt(swr, states[i], run[i]).Hit? {
      RunKeeps(swr, run, states, i);
      assert TtlFine(states[i], run[i].key) && IsStep(swr, run, states, i);
      AnswerIs(swr, states[i], run[i]);
      MemOrigins(swr, run, states, i, run[i].key);
      DiskOrigins(swr, run, states, i, run[i].key.hash);
    }
  }

  // ----- When there is an answer -------------------------------------------------------------------------

  /** The ttl that counts for the disk entry of `key`: its own, or if that is not positive the one last noted. */
  function TtlThatCounts(s: Tiers, key: Key): int
    requires key.hash in s.disk
  {
    if s.disk[key.hash].ttl > 0 then s.disk[key.hash].ttl else if key in s.ttls then s.ttls[key] else 0
  }

  predicate InTime(storedAt: int, ttl: int, now: int) { ttl <= 0 || now - storedAt <= ttl }

  /** A lookup has an answer exactly if the memory entry of its key is in time, or the disk entry of its hash can be
      read and is in time or may be served late; and it is the memory entry if that is in time. */
  lemma HitExactly(swr: bool, run: seq<Event>, states: seq<Tiers>, i: nat)
    requires IsRun(swr, run, states) && i < |run| && run[i].Get?
    ensures var (s, key, now, r) := (states[i], run[i].key, run[i].now, AnswerAt(swr, states[i], run[i]));
            var inMemory := key in s.mem && InTime(s.mem[key].storedAt, s.mem[key].ttl, now);
            var onDisk := key.hash in s.disk && run[i].readable
                          && (swr || InTime(s.disk[key.hash].storedAt, TtlThatCounts(s, key), now));
            && (r.Hit? <==> inMemory || onDisk)
            && (inMemory ==> r == Hit(s.mem[key].value, s.mem[key].storedAt, false, now - s.mem[key].storedAt, false))
            && (!inMemory && onDisk ==>
                  && r.value == s.disk[key.hash].value && r.storedAt == s.disk[key.hash].storedAt
                  && r.fromDisk && r.staleness == now - r.storedAt)
  {
    RunKeeps(swr, run, states, i);
    assert TtlFine(states[i], run[i].key) && IsStep(swr, run, states, i);
  }

  /** An answer from disk stays in memory with what is left of its ttl, at least a millisecond; one that was served
      late stays for a whole ttl. */
  lemma DiskHitStays(swr: bool, run: seq<Event>, states: seq<Tiers>, i: nat)
    requires IsRun(swr, run, states) && i < |run| && run[i].Get?
    ensures var (s, s', key, now, r) :=
              (states[i], states[i + 1], run[i].key, run[i].now, AnswerAt(swr, states[i], run[i]));
            r.Hit? && r.fromDisk ==>
              && key.hash in s.disk && key in s'.mem && s'.mem[key].value == r.value && s'.mem[key].storedAt == now
              && var ttl := TtlThatCounts(s, key);
                 s'.mem[key].ttl == if ttl <= 0 then (if InTime(r.storedAt, ttl, now) then 0 else 1)
                                    else if !InTime(r.storedAt, ttl, now) then ttl
                                    else if r.staleness < ttl then ttl - r.staleness else 1
  {
    assert IsStep(swr, run, states, i);
  }

  /** Event `e` can change what the disk tier has for `hash`. */
  predicate TouchesDisk(e: Event, hash: Hash) {
    e == Drop(hash) || e == Clear || (e.Set? && e.key.hash == hash && e.ttl != 0 && e.written)
  }

  /** No event between `j` and `i` does. */
  ghost predicate Undisturbed(run: seq<Event>, j: nat, i: nat, hash: Hash)
    requires i <= |run|
  {
    forall m | j < m < i :: !TouchesDisk(run[m], hash)
  }

  ghost predicate OnDisk(s: Tiers, hash: Hash, e: Entry) { hash in s.disk && s.disk[hash] == e }

  /** A completed store stays on disk until the entry is dropped, cleared or stored over, or looked up when it is too
      old and may not be served late. */
  lemma {:induction false} StoreStays(swr: bool, run: seq<Event>, states: seq<Tiers>, j: nat, i: nat)
    requires IsRun(swr, run, states) && j < i <= |run|
    requires run[j].Set? && run[j].ttl > 0 && run[j].written && Undisturbed(run, j, i, run[j].key.hash)
    requires swr || states[i].clock - run[j].now <= run[j].ttl
    ensures OnDisk(states[i], run[j].key.hash, Entry(run[j].value, run[j].now, run[j].ttl))
  {
    assert IsStep(swr, run, states, i - 1);
    if i == j + 1 {
      StoreWrites(swr, states[j], run[j]);
    } else {
      ClockGoesOn(swr, states[i - 1], run[i - 1]);
      StoreStays(swr, run, states, j, i - 1);
      EntryStays(swr, states[i - 1], run[i - 1], run[j].key.hash, Entry(run[j].value, run[j].now, run[j].ttl));
    }
  }

  lemma StoreWrites(swr: bool, s: Tiers, e: Event)
    requires e.Set? && e.ttl > 0 && e.written
    ensures OnDisk(Next(swr, s, e), e.key.hash, Entry(e.value, e.now, e.ttl))
    ensures MemoryHolds(Next(swr, s, e), e.key, e.value)
  {
  }

  lemma ClockGoesOn(swr: bool, s: Tiers, e: Event)
    requires Allowed(s, e)
    ensures s.clock <= Next(swr, s, e).clock
  {
  }

  lemma EntryStays(swr: bool, s: Tiers, e: Event, hash: Hash, entry: Entry)
    requires Allowed(s, e) && !TouchesDisk(e, hash) && OnDisk(s, hash, entry) && entry.ttl > 0
    requires swr || Next(swr, s, e).clock - entry.storedAt <= entry.ttl
    ensures OnDisk(Next(swr, s, e), hash, entry)
  {
  }

  /** The memory entry, if there is one, has value `v`. */
  ghost predicate MemoryHolds(s: Tiers, key: Key, v: Content) { key in s.mem ==> s.mem[key].value == v }

  /** No event between `j` and `i` stores other arguments of the same hash, drops or clears. */
  ghost predicate NotReplaced(run: seq<Event>, j: nat, i: nat, hash: Hash)
    requires i <= |run|
  {
    forall m | j < m < i ::
      !(run[m].Set? && run[m].key.hash == hash && run[m].ttl != 0) && run[m] != Drop(hash) && run[m] != Clear
  }

  lemma {:induction false} MemoryAgrees(swr: bool, run: seq<Event>, states: seq<Tiers>, j: nat, i: nat)
    requires IsRun(swr, run, states) && j < i <= |run|
    requires run[j].Set? && run[j].ttl > 0 && run[j].written && NotReplaced(run, j, i, run[j].key.hash)
    requires swr || states[i].clock - run[j].now <= run[j].ttl
    ensures MemoryHolds(states[i], run[j].key, run[j].value)
  {
    assert IsStep(swr, run, states, i - 1);
    if i == j + 1 {
      StoreWrites(swr, states[j], run[j]);
    } else {
      ClockGoesOn(swr, states[i - 1], run[i - 1]);
      MemoryAgrees(swr, run, states, j, i - 1);
      assert Undisturbed(run, j, i - 1, run[j].key.hash);
      StoreStays(swr, run, states, j, i - 1);
      ValueStays(swr, states[i - 1], run[i - 1], run[j].key, Entry(run[j].value, run[j].now, run[j].ttl));
    }
  }

  lemma ValueStays(swr: bool, s: Tiers, e: Event, key: Key, entry: Entry)
    requires MemoryHolds(s, key, entry.value) && OnDisk(s, key.hash, entry)
    requires !(e.Set? && e.key.hash == key.hash && e.ttl != 0)
    ensures MemoryHolds(Next(swr, s, e), key, entry.value)
  {
  }

  /** What was stored is found: after a completed store, a lookup that can read the disk answers with its value as
      long as the ttl lasts, and with stale-while-revalidate ever after, whatever was evicted from memory and
      whichever lookups failed to read, unless the entry was dropped, cleared or stored over. */
  lemma StoredIsFound(swr: bool, run: seq<Event>, states: seq<Tiers>, j: nat, i: nat)
    requires IsRun(swr, run, states) && j < i < |run|
    requires run[j].Set? && run[j].ttl > 0 && run[j].written
    requires run[i].Get? && run[i].key == run[j].key && run[i].readable
    requires NotReplaced(run, j, i, run[j].key.hash)
    requires swr || run[i].now - run[j].now <= run[j].ttl
    ensures var r := AnswerAt(swr, states[i], run[i]); r.Hit? && r.value == run[j].value
  {
    assert Undisturbed(run, j, i, run[j].key.hash) && IsStep(swr, run, states, i);
    MemoryAgrees(swr, run, states, j, i);
    StoreStays(swr, run, states, j, i);
    HitExactly(swr, run, states, i);
  }

  /** What `r` returns for `key` at event `i` was stored at most its ttl and a millisecond before, by a call
      with the same arguments, and no store on `key` since then reached the disk (one that failed to can be
      forgotten with its memory entry). Its age is not overstated, and exact if it comes from disk. */
  ghost predicate FreshFrom(run: seq<Event>, j: nat, i: nat, key: Key, r: Result, now: int)
    requires r.Hit?
  {
    && StoredBy(run, j, i, key, r.value) && (run[j].ttl > 0 ==> now - run[j].now <= run[j].ttl + 1)
    && r.staleness == now - r.storedAt && (if r.fromDisk then r.storedAt == run[j].now else r.storedAt >= run[j].now)
  }

  ghost predicate Fresh(swr: bool, run: seq<Event>, states: seq<Tiers>, i: nat)
    requires i < |run| && i < |states|
  {
    run[i].Get? ==>
      var r := AnswerAt(swr, states[i], run[i]);
      r.Hit? && !r.needsRevalidation ==> exists j :: FreshFrom(run, j, i, run[i].key, r, run[i].now)
  }

  lemma FreshWithoutRevalidation(run: seq<Event>, states: seq<Tiers>, i: nat)
    requires IsRun(false, run, states) && i < |run|
    ensures Fresh(false, run, states, i)
    ensures run[i].Get? ==> var r := AnswerAt(false, states[i], run[i]); r.Hit? ==> !r.needsRevalidation
  {
    if run[i].Get? {
      var r := AnswerAt(false, states[i], run[i]);
      LateExactly(false, run, states, i);
      if r.Hit? { assert FreshFrom(run, AnswerBirth(run, states, i).at, i, run[i].key, r, run[i].now); }
    }
  }

  // A value with a ttl of 10 that is lost from memory, then asked for twice at time `late`.
  const K := Key("s:t", "h")

  function LateRun(late: int): seq<Event> {
    [Set(K, "v", 10, 0, true), Evict(K), Get(K, late, true), Get(K, late, true)]
  }

  function LateStates(late: int): seq<Tiers> {
    var e := Entry("v", 0, 10);
    var s1 := COLD.(mem := map[K := e], disk := map["h" := e], ttls := map[K := 10]);
    var s2 := s1.(mem := map[]);
    var s3 := s2.(mem := map[K := Entry("v", late, 10)], clock := late);
    [COLD, s1, s2, s3, s3]
  }

  /** With stale-while-revalidate the promoted entry starts a new life: the second answer is reported as
      fresh however late it is. */
  lemma LateAnswer(late: int)
    requires late > 11
    ensures IsRun(true, LateRun(late), LateStates(late))
    ensures Lookup(true, LateStates(late)[3], K, late, true).1 == Hit("v", late, false, 0, false)
    ensures !Fresh(true, LateRun(late), LateStates(late), 3)
  {
    var run, states := LateRun(late), LateStates(late);
    assert Next(true, states[0], run[0]) == states[1];
    assert Next(true, states[1], run[1]) == states[2];
    assert Next(true, states[2], run[2]) == states[3] by { assert states[2].mem - {K} == map[]; }
    assert Next(true, states[3], run[3]) == states[4];
    assert forall i | 0 <= i < |run| :: IsStep(true, run, states, i);
    assert forall j: nat | j < 3 && run[j].Set? :: j == 0;
  }

  /** Every answer that is not flagged is fresh, in every run, exactly when stale-while-revalidate is off. */
  lemma FreshExactly(swr: bool)
    ensures (forall run, states, i: nat | IsRun(swr, run, states) && i < |run| :: Fresh(swr, run, states, i)) <==> !swr
  {
    if swr {
      LateAnswer(12);
    } else {
      forall run, states, i: nat | IsRun(swr, run, states) && i < |run| ensures Fresh(swr, run, states, i) {
        FreshWithoutRevalidation(run, states, i);
      }
    }
  }

  // ----- The program ---------------------------------------------------------------------------------

  datatype Read = Nothing | Some(entry: Entry)

  class MemoryLru {
    var cache: map<Key, Entry>

    constructor ()
      ensures cache == map[]
    {
      cache := map[];
    }

    /** An expired entry is deleted when it is asked for. */
    method Get(key: Key, now: int) returns (hit: Read)
      modifies this
      ensures hit == if key in old(cache) && !Expired(old(cache)[key], now) then Some(old(cache)[key]) else Nothing
      ensures cache == if hit == Nothing then old(cache) - {key} else old(cache)
    {
      if key !in cache { return Nothing; }
      var entry := cache[key];
      if entry.ttl > 0 && now - entry.storedAt > entry.ttl {
        cache := cache - {key};
        return Nothing;
      }
      hit := Some(entry);
    }

    method Set(key: Key, value: Content, ttl: int, now: int)
      modifies this
      ensures cache == old(cache)[key := Entry(value, now, ttl)]
    {
      cache := cache[key := Entry(value, now, ttl)];
    }

    method Delete(key: Key)
      modifies this
      ensures cache == old(cache) - {key}
    {
      cache := cache - {key};
    }
  }

  class DiskCache {
    var files: map<Hash, Entry>

    constructor ()
      ensures files == map[]
    {
      files := map[];
    }

    /** Returns an entry whatever its age. */
    method Get(hash: Hash, readable: bool) returns (hit: Read)
      ensures hit.Some? <==> hash in files && readable
      ensures hit.Some? ==> hit.entry == files[hash]
    {
      hit := if hash in files && readable then Some(files[hash]) else Nothing;
    }

    method Set(hash: Hash, entry: Entry, written: bool)
      modifies this
      ensures files == if written then old(files)[hash := entry] else old(files)
    {
      if written { files := files[hash := entry]; }
    }

    method Delete(hash: Hash)
      modifies this
      ensures files == old(files) - {hash}
    {
      files := files - {hash};
    }
  }

  class CacheLayer {
    const staleWhileRevalidate: bool
    const lru: MemoryLru
    const disk: DiskCache
    var ttlMap: map<Key, int>
    var revalidating: set<Key>
    var diskMisses: nat
    ghost var running: multiset<Key>
    ghost var clock: int

    ghost function State(): Tiers reads this, lru, disk {
      Tiers(lru.cache, disk.files, ttlMap, revalidating, running, diskMisses, clock)
    }

    constructor (staleWhileRevalidate: bool)
      ensures State() == COLD && fresh(lru) && fresh(disk) && this.staleWhileRevalidate == staleWhileRevalidate
    {
      this.staleWhileRevalidate := staleWhileRevalidate;
      lru := new MemoryLru();
      disk := new DiskCache();
      ttlMap, revalidating, diskMisses, running, clock := map[], {}, 0, multiset{}, 0;
    }

    method Get(key: Key, now: int, readable: bool) returns (r: Result)
      modifies this, lru, disk
      ensures (State(), r) == Lookup(staleWhileRevalidate, old(State()), key, now, readable)
    {
      clock := now;
      var memHit := lru.Get(key, now);
      if memHit.Some? {
        var ttlMs := if key in ttlMap then ttlMap[key] else 0;
        var isStale := ttlMs > 0 && now - memHit.entry.storedAt > ttlMs;
        if !isStale { return Found(memHit.entry, now, false, false); }
        if staleWhileRevalidate { return Found(memHit.entry, now, false, key !in revalidating); }
        lru.Delete(key);
      }
      r := GetFromDisk(key, now, readable);
    }

    /** The part of `get` after the memory tier. */
    method GetFromDisk(key: Key, now: int, readable: bool) returns (r: Result)
      modifies this, lru, disk
      ensures (State(), r) == FromDisk(staleWhileRevalidate, old(State()), key, now, readable)
      ensures r.Hit? <==>
                && key.hash in old(disk.files) && readable
                && (staleWhileRevalidate
                    || InTime(old(disk.files)[key.hash].storedAt, TtlThatCounts(old(State()), key), now))
      ensures r.Hit? ==> r.value == old(disk.files)[key.hash].value
      ensures r.Hit? ==> key in lru.cache && lru.cache[key].value == r.value
      ensures diskMisses == old(diskMisses) + if r.Hit? then 0 else 1
      ensures disk.files == if !r.Hit? && readable then old(disk.files) - {key.hash} else old(disk.files)
    {
      var diskHit := disk.Get(key.hash, readable);
      if diskHit.Some? {
        var entry := diskHit.entry;
        var entryTtl := if entry.ttl > 0 then entry.ttl else if key in ttlMap then ttlMap[key] else 0;
        var staleness := now - entry.storedAt;
        if !(entryTtl > 0 && staleness > entryTtl) {
          lru.Set(key, entry.value, if entryTtl > 0 then Max(1, entryTtl - staleness) else 0, now);
          ttlMap := ttlMap[key := entryTtl];
          return Found(entry, now, true, false);
        }
        if staleWhileRevalidate {
          lru.Set(key, entry.value, Max(1, entryTtl), now);
          ttlMap := ttlMap[key := entryTtl];
          return Found(entry, now, true, key !in revalidating);
        }
        disk.Delete(key.hash);
      }
      diskMisses := diskMisses + 1;
      r := Miss;
    }

    method Set(key: Key, value: Content, ttlMs: int, now: int, written: bool)
      modifies this, lru, disk
      ensures State() == Store(old(State()), key, value, ttlMs, now, written)
      ensures ttlMs == 0 ==> lru.cache == old(lru.cache) && ttlMap == old(ttlMap) && disk.files == old(disk.files)
      ensures ttlMs != 0 ==>
                && lru.cache == old(lru.cache)[key := Entry(value, now, ttlMs)]
                && ttlMap == old(ttlMap)[key := ttlMs]
                && disk.files
                == if written then old(disk.files)[key.hash := Entry(value, now, ttlMs)] else old(disk.files)
    {
      clock := now;
      if ttlMs == 0 { return; }
      lru.Set(key, value, ttlMs, now);
      ttlMap := ttlMap[key := ttlMs];
      disk.Set(key.hash, Entry(value, now, ttlMs), written);
    }

    /** `refreshInBackground` up to its await; false when a refresh is in flight. */
    method StartRefresh(key: Key) returns (started: bool)
      modifies this
      ensures State() == Next(staleWhileRevalidate, old(State()), RefreshStart(key))
      ensures started <==> key !in old(revalidating)
      ensures revalidating == old(revalidating) + {key}
    {
      if key in revalidating { return false; }
      revalidating := revalidating + {key};
      running := running + multiset{key};
      started := true;
    }

    /** The end of a refresh, after its `set` or its failure. */
    method EndRefresh(key: Key)
      requires Allowed(State(), RefreshEnd(key))
      modifies this
      ensures State() == Next(staleWhileRevalidate, old(State()), RefreshEnd(key))
      ensures revalidating == old(revalidating) - {key}
    {
      revalidating := revalidating - {key};
      running := running - multiset{key};
    }
  }
}
