/** The key-value store with expiry of `src/daemon/shared-kv.ts`.

    Expired entries disappear lazily, by a sweep, or when a snapshot is written or read. None of this
    shows: the store answers like a plain map in which nothing is ever cleaned up. Writing the snapshot
    either succeeds or leaves the old one; which of the two, and the time of every operation, is chosen
    by the events of a run. */
module SharedKV {
  import opened Json
  import opened TextOrder

  /** `expires` is the last millisecond an entry is alive. */
  datatype Expiry = Never | At(time: int)
  datatype Entry = Entry(value: Value, expires: Expiry)
  datatype Answer = Nothing | Found(value: Value)

  type Store = map<Text, Entry>

  predicate Expired(e: Entry, now: int) { e.expires.At? && now > e.expires.time }

  function Lookup(m: Store, k: Text, now: int): Answer {
    if k in m && !Expired(m[k], now) then Found(m[k].value) else Nothing
  }

  predicate StartsWith(k: Text, prefix: Text) { |prefix| <= |k| && k[..|prefix|] == prefix }

  /** `keys` is the sorted list of the keys of `m` alive at `now` that start with `prefix`. */
  ghost predicate IsListing(keys: seq<Text>, m: Store, prefix: Text, now: int) {
    Ascending(keys) && forall k :: k in keys <==> Lookup(m, k, now) != Nothing && StartsWith(k, prefix)
  }

  /** A missing prefix is the empty one. */
  datatype Event =
    | Get(key: Text, now: int)
    | Set(key: Text, value: Value, ttl: int, now: int)
    | Delete(key: Text)
    | Clear(prefix: Text)
    | Sweep(now: int, writable: bool)
    | Flush(now: int, writable: bool)
    | Shutdown(now: int, writable: bool)
    | Reload(now: int)

  datatype Kv = Kv(store: Store, file: Store, dirty: bool, clock: int)

  function Alive(m: Store, now: int): Store {
    map k | k in m && !Expired(m[k], now) :: m[k]
  }

  function Without(m: Store, prefix: Text): Store {
    map k | k in m && !StartsWith(k, prefix) :: m[k]
  }

  /** What a snapshot of `m` holds: assigning to `__proto__` adds no property. */
  function Snapshot(m: Store, now: int): Store { Alive(m, now) - {PROTO} }

  function Lifetime(ttl: int, now: int): Expiry { if ttl > 0 then At(now + ttl) else Never }

  predicate HasExpired(m: Store, now: int) { exists k :: k in m && Expired(m[k], now) }

  function EvictAll(s: Kv, now: int): Kv {
    s.(store := Alive(s.store, now), dirty := s.dirty || HasExpired(s.store, now), clock := now)
  }

  function WriteFile(s: Kv, now: int, writable: bool): Kv {
    if writable then s.(file := Snapshot(s.store, now), dirty := false, clock := now) else s.(clock := now)
  }

  function Next(s: Kv, e: Event): Kv {
    match e
    case Get(k, now) =>
      if k in s.store && Expired(s.store[k], now) then s.(store := s.store - {k}, dirty := true, clock := now)
      else s.(clock := now)
    case Set(k, v, ttl, now) => s.(store := s.store[k := Entry(v, Lifetime(ttl, now))], dirty := true, clock := now)
    case Delete(k) => if k in s.store then s.(store := s.store - {k}, dirty := true) else s
    case Clear(prefix) => s.(store := Without(s.store, prefix), dirty := true)
    case Sweep(now, writable) =>
      var s' := EvictAll(s, now);
      if s'.dirty then WriteFile(s', now, writable) else s'
    case Flush(now, writable) => WriteFile(s, now, writable)
    case Shutdown(now, writable) => WriteFile(EvictAll(s, now), now, writable)
    case Reload(now) => s.(store := Alive(s.file, now), dirty := false, clock := now)
  }

  function Time(s: Kv, e: Event): int {
    match e
    case Get(_, now) => now
    case Set(_, _, _, now) => now
    case Delete(_) => s.clock
    case Clear(_) => s.clock
    case Sweep(now, _) => now
    case Flush(now, _) => now
    case Shutdown(now, _) => now
    case Reload(now) => now
  }

  // ----- The plain store -----------------------------------------------------------------------------

  /** Nothing is ever cleaned up, and a written snapshot is a copy of everything but `__proto__`. */
  datatype Plain = Plain(entries: Store, saved: Store)

  function NextPlain(p: Plain, e: Event): Plain {
    match e
    case Get(_, _) => p
    case Set(k, v, ttl, now) => p.(entries := p.entries[k := Entry(v, Lifetime(ttl, now))])
    case Delete(k) => p.(entries := p.entries - {k})
    case Clear(prefix) => p.(entries := Without(p.entries, prefix))
    case Sweep(_, writable) => Save(p, writable)
    case Flush(_, writable) => Save(p, writable)
    case Shutdown(_, writable) => Save(p, writable)
    case Reload(_) => p.(entries := p.saved)
  }

  function Save(p: Plain, writable: bool): Plain {
    if writable then p.(saved := p.entries - {PROTO}) else p
  }

  /** `a` and `b` answer alike from `now` on. */
  ghost predicate Alike(a: Store, b: Store, now: int) {
    forall k, t | t >= now :: Lookup(a, k, t) == Lookup(b, k, t)
  }

  /** The store refines the plain one, and unless it is dirty its snapshot is up to date. */
  ghost predicate Refines(s: Kv, p: Plain) {
    && Alike(s.store, p.entries, s.clock)
    && Alike(s.file, p.saved, s.clock)
    && (!s.dirty ==> Alike(s.file, s.store - {PROTO}, s.clock))
    && PROTO !in s.file && PROTO !in p.saved
  }

  lemma CleanUp(a: Store, now: int)
    ensures Alike(Alive(a, now), a, now) && Alike(Alive(a, now) - {PROTO}, a - {PROTO}, now)
    ensures !HasExpired(a, now) ==> Alive(a, now) == a
  {
  }

  lemma AlikeThrough(a: Store, b: Store, c: Store, now: int)
    requires Alike(a, b, now) && Alike(b, c, now)
    ensures Alike(a, c, now)
  {
    forall k, t | t >= now ensures Lookup(a, k, t) == Lookup(c, k, t) { assert Lookup(a, k, t) == Lookup(b, k, t); }
  }

  lemma AlikeRemove(a: Store, b: Store, k: Text, now: int)
    requires Alike(a, b, now)
    ensures Alike(a - {k}, b - {k}, now)
  {
    forall x, t | t >= now ensures Lookup(a - {k}, x, t) == Lookup(b - {k}, x, t) {
      assert Lookup(a, x, t) == Lookup(b, x, t);
    }
  }

  lemma AlikePut(a: Store, b: Store, k: Text, e: Entry, now: int)
    requires Alike(a, b, now)
    ensures Alike(a[k := e], b[k := e], now)
  {
    var a', b' := a[k := e], b[k := e];
    forall x, t | t >= now ensures Lookup(a', x, t) == Lookup(b', x, t) { assert Lookup(a, x, t) == Lookup(b, x, t); }
  }

  lemma AlikeWithout(a: Store, b: Store, prefix: Text, now: int)
    requires Alike(a, b, now)
    ensures Alike(Without(a, prefix), Without(b, prefix), now)
  {
    forall x, t | t >= now ensures Lookup(Without(a, prefix), x, t) == Lookup(Without(b, prefix), x, t) {
      assert Lookup(a, x, t) == Lookup(b, x, t);
    }
  }

  /** Time passing and cleaning up keep the refinement. */
  lemma EvictKeeps(s: Kv, p: Plain, now: int)
    requires Refines(s, p) && s.clock <= now
    ensures Refines(EvictAll(s, now), p)
  {
    CleanUp(s.store, now);
    AlikeThrough(Alive(s.store, now), s.store, p.entries, now);
  }

  lemma WriteKeeps(s: Kv, p: Plain, now: int, writable: bool)
    requires Refines(s, p) && s.clock <= now
    ensures Refines(WriteFile(s, now, writable), Save(p, writable))
  {
    CleanUp(s.store, now);
    AlikeRemove(s.store, p.entries, PROTO, s.clock);
    AlikeThrough(Snapshot(s.store, now), s.store - {PROTO}, p.entries - {PROTO}, now);
  }

  /** A sweep that finds nothing to do would have written what is there already. */
  lemma CleanNeedsNoWrite(s: Kv, p: Plain)
    requires Refines(s, p) && !s.dirty
    ensures Refines(s, Save(p, true))
  {
    AlikeRemove(s.store, p.entries, PROTO, s.clock);
    AlikeThrough(s.file, s.store - {PROTO}, p.entries - {PROTO}, s.clock);
  }

  lemma ReloadKeeps(s: Kv, p: Plain, now: int)
    requires Refines(s, p) && s.clock <= now
    ensures Refines(Next(s, Reload(now)), NextPlain(p, Reload(now)))
  {
    CleanUp(s.file, now);
    AlikeThrough(Alive(s.file, now), s.file, p.saved, now);
    assert Alive(s.file, now) - {PROTO} == Alive(s.file, now);
  }

  lemma GetKeeps(s: Kv, p: Plain, k: Text, now: int)
    requires Refines(s, p) && s.clock <= now
    ensures Refines(Next(s, Get(k, now)), p)
  {
    var s' := Next(s, Get(k, now));
    assert Alike(s'.store, s.store, now);
    AlikeThrough(s'.store, s.store, p.entries, now);
  }

  /** Every step keeps the refinement. */
  lemma NextKeeps(s: Kv, p: Plain, e: Event)
    requires Refines(s, p) && s.clock <= Time(s, e)
    ensures Refines(Next(s, e), NextPlain(p, e))
  {
    match e
    case Get(k, now) => GetKeeps(s, p, k, now);
    case Sweep(now, writable) =>
      var s' := EvictAll(s, now);
      EvictKeeps(s, p, now);
      if s'.dirty { WriteKeeps(s', p, now, writable); } else if writable { CleanNeedsNoWrite(s', p); }
    case Flush(now, writable) => WriteKeeps(s, p, now, writable);
    case Shutdown(now, writable) =>
      EvictKeeps(s, p, now);
      WriteKeeps(EvictAll(s, now), p, now, writable);
    case Reload(now) => ReloadKeeps(s, p, now);
    case Set(k, v, ttl, now) => AlikePut(s.store, p.entries, k, Entry(v, Lifetime(ttl, now)), now);
    case Delete(k) => AlikeRemove(s.store, p.entries, k, s.clock);
    case Clear(prefix) => AlikeWithout(s.store, p.entries, prefix, s.clock);
  }

  // ----- Runs ------------------------------------------------------------------------------------------

  /** A store starts from the snapshot `file`. */
  function Start(file: Store, now: int): Kv { Kv(Alive(file, now), file, false, now) }

  ghost predicate IsRun(file: Store, now: int, run: seq<Event>, states: seq<Kv>, plains: seq<Plain>) {
    && |states| == |plains| == |run| + 1
    && states[0] == Start(file, now) && plains[0] == Plain(file, file)
    && forall i | 0 <= i < |run| ::
         && states[i].clock <= Time(states[i], run[i])
         && states[i + 1] == Next(states[i], run[i]) && plains[i + 1] == NextPlain(plains[i], run[i])
  }

  lemma {:induction false} RunRefines(
    file: Store, now: int, run: seq<Event>, states: seq<Kv>, plains: seq<Plain>, i: nat)
    requires IsRun(file, now, run, states, plains) && i <= |run| && PROTO !in file
    ensures Refines(states[i], plains[i])
  {
    if i == 0 {
      CleanUp(file, now);
      assert Alive(file, now) - {PROTO} == Alive(file, now);
    } else {
      RunRefines(file, now, run, states, plains, i - 1);
      NextKeeps(states[i - 1], plains[i - 1], run[i - 1]);
    }
  }

  /** At every point of every run, and for every later time, `get` and `list` answer as the plain store
      does: no lazy deletion, sweep, flush or expired snapshot entry shows. */
  lemma AnswersLikePlain(file: Store, now: int, run: seq<Event>, states: seq<Kv>, plains: seq<Plain>, i: nat, t: int)
    requires IsRun(file, now, run, states, plains) && i <= |run| && PROTO !in file && t >= states[i].clock
    ensures forall k :: Lookup(states[i].store, k, t) == Lookup(plains[i].entries, k, t)
    ensures forall keys, prefix ::
              IsListing(keys, states[i].store, prefix, t) <==> IsListing(keys, plains[i].entries, prefix, t)
  {
    RunRefines(file, now, run, states, plains, i);
  }

  /** Event `e` decides what is known of `k`: a store, a deletion, a clearing of a prefix, or loading again. */
  predicate Decides(e: Event, k: Text) {
    || (e.Set? && e.key == k) || e == Delete(k) || (e.Clear? && e.prefix <= k) || e.Reload?
  }

  ghost predicate NothingDecides(run: seq<Event>, j: nat, i: nat, k: Text)
    requires i <= |run|
  {
    forall m | j < m < i :: !Decides(run[m], k)
  }

  lemma DecidedStep(s: Kv, e: Event, k: Text, t: int)
    requires s.clock <= Time(s, e) && t >= Next(s, e).clock && !e.Reload?
    ensures s.clock <= Next(s, e).clock
    ensures !Decides(e, k) ==> Lookup(Next(s, e).store, k, t) == Lookup(s.store, k, t)
    ensures e.Set? && e.key == k ==>
              Lookup(Next(s, e).store, k, t) == if e.ttl > 0 && t > e.now + e.ttl then Nothing else Found(e.value)
    ensures e == Delete(k) || (e.Clear? && e.prefix <= k) ==> Lookup(Next(s, e).store, k, t) == Nothing
  {
  }

  /** What `get` answers, in terms of the last event that decides on the key: the value of a store until its time is
      over, nothing after a deletion or a clearing. A time to live that is not positive is for ever. */
  lemma {:induction false} LastDecides(
    file: Store, now: int, run: seq<Event>, states: seq<Kv>, plains: seq<Plain>, j: nat, i: nat, k: Text, t: int)
    requires IsRun(file, now, run, states, plains) && j < i <= |run| && t >= states[i].clock
    requires Decides(run[j], k) && !run[j].Reload? && NothingDecides(run, j, i, k)
    ensures Lookup(states[i].store, k, t)
         == if run[j].Set? && !(run[j].ttl > 0 && t > run[j].now + run[j].ttl) then Found(run[j].value) else Nothing
  {
    DecidedStep(states[i - 1], run[i - 1], k, t);
    if i == j + 1 {
    } else {
      LastDecides(file, now, run, states, plains, j, i - 1, k, t);
    }
  }

  lemma ListingUnique(a: seq<Text>, b: seq<Text>, m: Store, prefix: Text, now: int)
    requires IsListing(a, m, prefix, now) && IsListing(b, m, prefix, now)
    ensures a == b
  {
    AscendingUnique(a, b);
  }

  /** Unless it is dirty, a store that is lost and loaded again answers as before, now and later, for every
      key but `__proto__`, which no snapshot keeps. */
  lemma CleanStoreSurvives(file: Store, now: int, run: seq<Event>, states: seq<Kv>, plains: seq<Plain>, i: nat, t: int)
    requires IsRun(file, now, run, states, plains) && i <= |run| && PROTO !in file
    requires !states[i].dirty && t >= states[i].clock
    ensures forall k, later | later >= t ::
              Lookup(Next(states[i], Reload(t)).store, k, later)
              == if k == PROTO then Nothing else Lookup(states[i].store, k, later)
  {
    RunRefines(file, now, run, states, plains, i);
    var s := states[i];
    forall k, later | later >= t
      ensures Lookup(Next(s, Reload(t)).store, k, later) == if k == PROTO then Nothing else Lookup(s.store, k, later)
    {
      assert Lookup(s.file, k, later) == Lookup(s.store - {PROTO}, k, later);
    }
  }

  /** A store that is flushed or shut down, lost and loaded again answers as it did before the flush, for
      every key but `__proto__`: exactly the entries still alive are restored. */
  lemma FlushedStoreSurvives(
    file: Store, now: int, run: seq<Event>, states: seq<Kv>, plains: seq<Plain>, i: nat, t: int)
    requires IsRun(file, now, run, states, plains) && i < |run| && PROTO !in file
    requires ((run[i].Flush? || run[i].Shutdown?) && run[i].writable) && t >= run[i].now
    ensures forall k, later | later >= t ::
              Lookup(Next(states[i + 1], Reload(t)).store, k, later)
              == if k == PROTO then Nothing else Lookup(states[i].store, k, later)
  {
    CleanStoreSurvives(file, now, run, states, plains, i + 1, t);
    CleanUp(states[i].store, run[i].now);
    forall k, later | later >= t ensures Lookup(states[i + 1].store, k, later) == Lookup(states[i].store, k, later) {
      assert Lookup(Alive(states[i].store, run[i].now), k, later) == Lookup(states[i].store, k, later);
    }
  }

  // ----- The program -------------------------------------------------------------------------------------

  class KVStore {
    var store: Store
    var dirty: bool
    var file: Store
    ghost var clock: int

    ghost function State(): Kv reads this { Kv(store, file, dirty, clock) }

    /** A new process finds the snapshot `file`. */
    constructor (file: Store, now: int)
      ensures State() == Start(file, now) && this.file == file && !dirty
      ensures forall k :: k in store <==> k in file && !(file[k].expires.At? && now > file[k].expires.time)
      ensures forall k | k in store :: store[k] == file[k]
    {
      store, dirty, this.file, clock := map[], false, file, now;
      new;
      LoadFromDisk(now);
    }

    method Get(key: Text, now: int) returns (a: Answer)
      modifies this
      ensures State() == Next(old(State()), Event.Get(key, now)) && a == Lookup(old(store), key, now)
      ensures var gone := key in old(store) && old(store)[key].expires.At? && now > old(store)[key].expires.time;
              && a == (if key in old(store) && !gone then Found(old(store)[key].value) else Nothing)
              && store == (if gone then old(store) - {key} else old(store)) && dirty == (old(dirty) || gone)
    {
      clock := now;
      if key !in store { return Nothing; }
      var entry := store[key];
      if entry.expires.At? && now > entry.expires.time {
        store := store - {key};
        dirty := true;
        return Nothing;
      }
      a := Found(entry.value);
    }

    method Set(key: Text, value: Value, ttl: int, now: int)
      modifies this
      ensures State() == Next(old(State()), Event.Set(key, value, ttl, now))
      ensures store == old(store)[key := Entry(value, if ttl > 0 then At(now + ttl) else Never)] && dirty
    {
      clock := now;
      var expires := Never;
      if ttl > 0 { expires := At(now + ttl); }
      store := store[key := Entry(value, expires)];
      dirty := true;
    }

    method DeleteKey(key: Text)
      modifies this
      ensures State() == Next(old(State()), Delete(key))
      ensures store == old(store) - {key} && dirty == (old(dirty) || key in old(store))
    {
      if key in store {
        store := store - {key};
        dirty := true;
      }
    }

    method List(prefix: Text, now: int) returns (keys: seq<Text>)
      ensures IsListing(keys, store, prefix, now)
      ensures forall k :: k in keys <==>
                k in store && !(store[k].expires.At? && now > store[k].expires.time) && prefix <= k
    {
      var found: seq<Text> := [];
      var rest := store.Keys;
      while rest != {}
        invariant rest <= store.Keys && Distinct(found)
        invariant forall k :: k in found <==> k !in rest && Lookup(store, k, now) != Nothing && StartsWith(k, prefix)
        decreases rest
      {
        var k :| k in rest;
        rest := rest - {k};
        var entry := store[k];
        if entry.expires.At? && now > entry.expires.time { continue; }
        if StartsWith(k, prefix) { found := found + [k]; }
      }
      SortKeysSorts(found);
      keys := SortKeys(found);
    }

    method ClearKeys(prefix: Text)
      modifies this
      ensures State() == Next(old(State()), Clear(prefix))
      ensures store == (map k | k in old(store) && !(prefix <= k) :: old(store)[k]) && dirty
    {
      ghost var s := store;
      var rest := store.Keys;
      while rest != {}
        invariant rest <= s.Keys && store == map k | k in s && (k in rest || !StartsWith(k, prefix)) :: s[k]
        invariant dirty == old(dirty) && file == old(file) && clock == old(clock)
        decreases rest
      {
        var k :| k in rest;
        rest := rest - {k};
        if StartsWith(k, prefix) { store := store - {k}; }
      }
      dirty := true;
    }

    method EvictExpired(now: int)
      modifies this
      ensures State() == EvictAll(old(State()), now)
      ensures forall k :: k in store <==>
                k in old(store) && !(old(store)[k].expires.At? && now > old(store)[k].expires.time)
      ensures forall k | k in store :: store[k] == old(store)[k]
      ensures dirty == (old(dirty) || store != old(store))
    {
      clock := now;
      ghost var s := store;
      var rest := store.Keys;
      while rest != {}
        invariant rest <= s.Keys && store == map k | k in s && (k in rest || !Expired(s[k], now)) :: s[k]
        invariant dirty == (old(dirty) || exists k :: k in s && k !in rest && Expired(s[k], now))
        invariant file == old(file) && clock == now
        decreases rest
      {
        var k :| k in rest;
        rest := rest - {k};
        if store[k].expires.At? && now > store[k].expires.time {
          store := store - {k};
          dirty := true;
          assert k in s && k !in rest && Expired(s[k], now);
        }
      }
    }

    method FlushToDisk(now: int, writable: bool)
      modifies this
      ensures State() == WriteFile(old(State()), now, writable)
      ensures store == old(store) && dirty == (old(dirty) && !writable)
      ensures !writable ==> file == old(file)
      ensures writable ==> forall k :: k in file <==>
                k in store && k != PROTO && !(store[k].expires.At? && now > store[k].expires.time)
      ensures writable ==> forall k | k in file :: file[k] == store[k]
    {
      clock := now;
      var entries: Store := map[];
      var rest := store.Keys;
      while rest != {}
        invariant rest <= store.Keys
        invariant entries == map k | k in store && k !in rest && k != PROTO && !Expired(store[k], now) :: store[k]
        decreases rest
      {
        var k :| k in rest;
        rest := rest - {k};
        if store[k].expires.At? && now > store[k].expires.time { continue; }
        if k != PROTO { entries := entries[k := store[k]]; }
      }
      if writable {
        file := entries;
        dirty := false;
      }
    }

    /** The timer of the sweep. */
    method SweepExpired(now: int, writable: bool)
      modifies this
      ensures State() == Next(old(State()), Sweep(now, writable))
    {
      EvictExpired(now);
      if dirty { FlushToDisk(now, writable); }
    }

    method ShutDown(now: int, writable: bool)
      modifies this
      ensures State() == Next(old(State()), Shutdown(now, writable))
    {
      EvictExpired(now);
      FlushToDisk(now, writable);
    }

    /** `loadFromDisk` in the constructor of a new process. */
    method LoadFromDisk(now: int)
      modifies this
      ensures State() == Next(old(State()), Reload(now))
      ensures file == old(file) && !dirty
      ensures forall k :: k in store <==> k in file && !(file[k].expires.At? && now > file[k].expires.time)
      ensures forall k | k in store :: store[k] == file[k]
    {
      clock := now;
      store, dirty := map[], false;
      var rest := file.Keys;
      while rest != {}
        invariant rest <= file.Keys && file == old(file) && !dirty && clock == now
        invariant store == map k | k in file && k !in rest && !Expired(file[k], now) :: file[k]
        decreases rest
      {
        var k :| k in rest;
        rest := rest - {k};
        if file[k].expires.At? && now > file[k].expires.time { continue; }
        store := store[k := file[k]];
      }
    }
  }
}
