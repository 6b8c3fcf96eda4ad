/** Lock handling of `src/daemon/server.ts`: per-client handle maps over the shared lock.

    The continuation of `acquire` and the statement that stores the handle run in one step, as no
    other event handler can run between them. A client's map outlives its socket: a call that is
    still waiting when the client goes away stores its handle there. */
module DaemonServer {
  import opened SharedLock

  type Client = nat

  datatype Daemon = Daemon(
    locks: Locks, handles: map<Client, map<Key, nat>>, connected: set<Client>,
    owner: seq<Client>  // the client whose request became ticket i
  )

  const IDLE := Daemon(EMPTY, map[], {}, [])

  /** `Close` goes through the client's handles in the order of `order`. */
  datatype Call =
    | Connect(c: Client)
    | AcquireRpc(c: Client, key: Key)
    | Granted(id: nat)
    | TimedOutRpc(id: nat)
    | ReleaseRpc(c: Client, key: Key)
    | Close(c: Client, order: seq<Key>)

  predicate Lists(order: seq<Key>, h: map<Key, nat>) {
    && (forall i | 0 <= i < |order| :: order[i] in h)
    && (forall k | k in h :: k in order)
    && (forall i, j | 0 <= i < j < |order| :: order[i] != order[j])
  }

  predicate Allowed(d: Daemon, e: Call) {
    match e
    case Connect(c) => c !in d.handles
    case AcquireRpc(c, _) => c in d.connected
    case Granted(id) => Enabled(d.locks, Grant(id))
    case TimedOutRpc(id) => Enabled(d.locks, Timeout(id))
    case ReleaseRpc(c, _) => c in d.connected
    case Close(c, order) => c in d.connected && c in d.handles && Lists(order, d.handles[c])
  }

  /** A lock step if it is possible. */
  function Try(s: Locks, e: Event): Locks {
    if WellLinked(s) && Enabled(s, e) then Step(s, e) else s
  }

  function ReleaseAll(s: Locks, h: map<Key, nat>, order: seq<Key>, n: nat): Locks
    requires n <= |order|
  {
    if n == 0 then s
    else
      var s' := ReleaseAll(s, h, order, n - 1);
      if order[n - 1] in h then Try(s', Release(h[order[n - 1]])) else s'
  }

  function HandlesOf(d: Daemon, c: Client): map<Key, nat> {
    if c in d.handles then d.handles[c] else map[]
  }

  function Next(d: Daemon, e: Call): Daemon {
    match e
    case Connect(c) => d.(handles := d.handles[c := map[]], connected := d.connected + {c})
    case AcquireRpc(c, key) =>
      if key in HandlesOf(d, c) then d
      else d.(locks := Try(d.locks, Acquire(key)), owner := d.owner + [c])
    case Granted(id) =>
      if id < |d.owner| && id < |d.locks.tickets| then
        var c, key := d.owner[id], d.locks.tickets[id].key;
        d.(locks := Try(d.locks, Grant(id)), handles := d.handles[c := HandlesOf(d, c)[key := id]])
      else d
    case TimedOutRpc(id) => d.(locks := Try(d.locks, Timeout(id)))
    case ReleaseRpc(c, key) =>
      var h := HandlesOf(d, c);
      if key in h then d.(handles := d.handles[c := h - {key}], locks := Try(d.locks, Release(h[key]))) else d
    case Close(c, order) =>
      d.(locks := ReleaseAll(d.locks, HandlesOf(d, c), order, |order|),
         handles := d.handles[c := map[]], connected := d.connected - {c})
  }

  // ----- Invariant ---------------------------------------------------------------------------

  /** An entry of a handle map is an unreleased handle of that client for that key. */
  ghost predicate EntryFine(d: Daemon, c: Client, k: Key)
    requires |d.owner| == |d.locks.tickets|
  {
    k in HandlesOf(d, c) ==>
      var id := HandlesOf(d, c)[k];
      id < |d.owner| && d.locks.tickets[id].key == k && d.locks.tickets[id].status == Holding && d.owner[id] == c
  }

  /** A handle that is not released is in the map of its client. */
  ghost predicate HolderFine(d: Daemon, id: nat)
    requires id < |d.owner| == |d.locks.tickets|
  {
    d.locks.tickets[id].status == Holding ==>
      var h := HandlesOf(d, d.owner[id]);
      d.locks.tickets[id].key in h && h[d.locks.tickets[id].key] == id
  }

  ghost predicate Exact(d: Daemon) {
    && Inv(d.locks)
    && |d.owner| == |d.locks.tickets|
    && d.connected <= d.handles.Keys
    && (forall c, k :: EntryFine(d, c, k))
    && (forall id | 0 <= id < |d.owner| :: HolderFine(d, id) && d.owner[id] in d.handles)
  }

  /** Every handle of `h` is unreleased and stored under its key. */
  ghost predicate AllHeld(s: Locks, h: map<Key, nat>) {
    forall k | k in h :: h[k] < |s.tickets| && s.tickets[h[k]].status == Holding && s.tickets[h[k]].key == k
  }

  lemma {:induction false} ReleaseAllEffect(s: Locks, h: map<Key, nat>, order: seq<Key>, n: nat)
    requires Inv(s) && n <= |order| && AllHeld(s, h)
    ensures var s' := ReleaseAll(s, h, order, n);
            && Inv(s') && |s'.tickets| == |s.tickets|
            && forall i | 0 <= i < |s.tickets| ::
                 s'.tickets[i] == (if exists m | 0 <= m < n :: order[m] in h && h[order[m]] == i
                                   then s.tickets[i].(status := Released) else s.tickets[i])
  {
    if n == 0 {
    } else {
      ReleaseAllEffect(s, h, order, n - 1);
      var s1 := ReleaseAll(s, h, order, n - 1);
      if order[n - 1] in h {
        var id := h[order[n - 1]];
        assert s1.tickets[id].status == Holding || s1.tickets[id].status == Released;
        StepKeeps(s1, Release(id));
      }
    }
  }

  lemma ReleaseAllNext(s: Locks, h: map<Key, nat>, order: seq<Key>, n: nat)
    requires Inv(s) && n < |order| && AllHeld(s, h) && order[n] in h
    ensures var s' := ReleaseAll(s, h, order, n);
            && WellLinked(s') && Enabled(s', Release(h[order[n]]))
            && ReleaseAll(s, h, order, n + 1) == Step(s', Release(h[order[n]]))
  {
    ReleaseAllEffect(s, h, order, n);
  }

  lemma HandlesHeld(d: Daemon, c: Client)
    requires Exact(d)
    ensures AllHeld(d.locks, HandlesOf(d, c))
  {
    forall k | k in HandlesOf(d, c)
      ensures var id := HandlesOf(d, c)[k];
              id < |d.owner| && d.locks.tickets[id].status == Holding && d.locks.tickets[id].key == k
    {
      assert EntryFine(d, c, k);
    }
  }

  lemma AcquireRpcKeeps(d: Daemon, c: Client, key: Key)
    requires Exact(d) && Allowed(d, AcquireRpc(c, key))
    ensures Exact(Next(d, AcquireRpc(c, key)))
  {
    var d' := Next(d, AcquireRpc(c, key));
    if key !in HandlesOf(d, c) {
      StepKeeps(d.locks, Acquire(key));
      forall c', k ensures EntryFine(d', c', k) { assert EntryFine(d, c', k); }
      forall id | 0 <= id < |d'.owner| ensures HolderFine(d', id) && d'.owner[id] in d'.handles {
        if id < |d.owner| { assert HolderFine(d, id); }
      }
    }
  }

  /** The check for a handle comes before the await, yet storing the handle never overwrites one:
      mutual exclusion leaves no entry for the key in the client's map. */
  lemma NeverOverwrites(d: Daemon, id: nat)
    requires Exact(d) && Allowed(d, Granted(id))
    ensures d.locks.tickets[id].key !in HandlesOf(d, d.owner[id])
  {
    var k, c := d.locks.tickets[id].key, d.owner[id];
    if k in HandlesOf(d, c) {
      assert EntryFine(d, c, k);
      var s' := Step(d.locks, Grant(id));
      StepKeeps(d.locks, Grant(id));
      AtMostOneHolder(s', id, HandlesOf(d, c)[k]);
    }
  }

  lemma GrantedKeeps(d: Daemon, id: nat)
    requires Exact(d) && Allowed(d, Granted(id))
    ensures Exact(Next(d, Granted(id)))
  {
    var d' := Next(d, Granted(id));
    NeverOverwrites(d, id);
    StepKeeps(d.locks, Grant(id));
    assert HolderFine(d, id) && d.owner[id] in d.handles;
    forall c, k ensures EntryFine(d', c, k) { assert EntryFine(d, c, k); }
    forall i | 0 <= i < |d'.owner| ensures HolderFine(d', i) && d'.owner[i] in d'.handles { assert HolderFine(d, i); }
  }

  lemma TimedOutKeeps(d: Daemon, id: nat)
    requires Exact(d) && Allowed(d, TimedOutRpc(id))
    ensures Exact(Next(d, TimedOutRpc(id)))
  {
    var d' := Next(d, TimedOutRpc(id));
    StepKeeps(d.locks, Timeout(id));
    forall c, k ensures EntryFine(d', c, k) { assert EntryFine(d, c, k); }
    forall i | 0 <= i < |d'.owner| ensures HolderFine(d', i) && d'.owner[i] in d'.handles { assert HolderFine(d, i); }
  }

  lemma ReleaseRpcKeeps(d: Daemon, c: Client, key: Key)
    requires Exact(d) && Allowed(d, ReleaseRpc(c, key))
    ensures Exact(Next(d, ReleaseRpc(c, key)))
  {
    var d', h := Next(d, ReleaseRpc(c, key)), HandlesOf(d, c);
    if key in h {
      assert EntryFine(d, c, key);
      StepKeeps(d.locks, Release(h[key]));
      forall c', k ensures EntryFine(d', c', k) {
        assert EntryFine(d, c', k);
      }
      forall i | 0 <= i < |d'.owner| ensures HolderFine(d', i) && d'.owner[i] in d'.handles { assert HolderFine(d, i); }
    }
  }

  /** Closing a client releases exactly the handles it holds. */
  lemma CloseEffect(d: Daemon, c: Client, order: seq<Key>)
    requires Exact(d) && Allowed(d, Close(c, order))
    ensures var (s, s') := (d.locks, Next(d, Close(c, order)).locks);
            && Inv(s') && |s'.tickets| == |s.tickets|
            && forall i | 0 <= i < |s.tickets| ::
                 s'.tickets[i] == (if s.tickets[i].status == Holding && d.owner[i] == c
                                   then s.tickets[i].(status := Released) else s.tickets[i])
  {
    var h, s, s' := HandlesOf(d, c), d.locks, Next(d, Close(c, order)).locks;
    HandlesHeld(d, c);
    ReleaseAllEffect(s, h, order, |order|);
    forall i | 0 <= i < |s.tickets|
      ensures s.tickets[i].status == Holding && d.owner[i] == c
          <==> exists m | 0 <= m < |order| :: order[m] in h && h[order[m]] == i
    {
      assert HolderFine(d, i);
      if s.tickets[i].status == Holding && d.owner[i] == c { assert s.tickets[i].key in order; }
      if m: nat :| m < |order| && h[order[m]] == i { assert EntryFine(d, c, order[m]); }
    }
  }

  lemma CloseKeeps(d: Daemon, c: Client, order: seq<Key>)
    requires Exact(d) && Allowed(d, Close(c, order))
    ensures Exact(Next(d, Close(c, order)))
  {
    var d' := Next(d, Close(c, order));
    CloseEffect(d, c, order);
    forall c', k ensures EntryFine(d', c', k) { assert EntryFine(d, c', k); }
    forall i | 0 <= i < |d'.owner| ensures HolderFine(d', i) && d'.owner[i] in d'.handles { assert HolderFine(d, i); }
  }

  lemma ConnectKeeps(d: Daemon, c: Client)
    requires Exact(d) && Allowed(d, Connect(c))
    ensures Exact(Next(d, Connect(c)))
  {
    var d' := Next(d, Connect(c));
    forall c', k ensures EntryFine(d', c', k) { assert EntryFine(d, c', k); }
    forall i | 0 <= i < |d'.owner| ensures HolderFine(d', i) && d'.owner[i] in d'.handles { assert HolderFine(d, i); }
  }

  /** Every step keeps the handle maps exact. */
  lemma NextKeeps(d: Daemon, e: Call)
    requires Exact(d) && Allowed(d, e)
    ensures Exact(Next(d, e))
  {
    match e
    case Connect(c) => ConnectKeeps(d, c);
    case AcquireRpc(c, key) => AcquireRpcKeeps(d, c, key);
    case Granted(id) => GrantedKeeps(d, id);
    case TimedOutRpc(id) => TimedOutKeeps(d, id);
    case ReleaseRpc(c, key) => ReleaseRpcKeeps(d, c, key);
    case Close(c, order) => CloseKeeps(d, c, order);
  }

  /** `states[i]` is the daemon before event `i`, starting from `d`. */
  ghost predicate RunFrom(d: Daemon, run: seq<Call>, states: seq<Daemon>) {
    && |states| == |run| + 1 && states[0] == d
    && forall i | 0 <= i < |run| :: Allowed(states[i], run[i]) && states[i + 1] == Next(states[i], run[i])
  }

  ghost predicate IsRun(run: seq<Call>, states: seq<Daemon>) { RunFrom(IDLE, run, states) }

  lemma {:induction false} RunFromKeeps(d: Daemon, run: seq<Call>, states: seq<Daemon>, i: nat)
    requires Exact(d) && RunFrom(d, run, states) && i <= |run|
    ensures Exact(states[i])
  {
    if i == 0 {
    } else {
      RunFromKeeps(d, run, states, i - 1);
      NextKeeps(states[i - 1], run[i - 1]);
    }
  }

  lemma RunKeeps(run: seq<Call>, states: seq<Daemon>, i: nat)
    requires IsRun(run, states) && i <= |run|
    ensures Exact(states[i])
  {
    RunFromKeeps(IDLE, run, states, i);
  }

  /** In every run and over all clients: an unreleased handle is in exactly one client's map, namely
      that of the client that asked, under its key; and whatever a map holds is unreleased. */
  lemma HandleMapsExact(run: seq<Call>, states: seq<Daemon>, i: nat, id: nat, c: Client, k: Key)
    requires IsRun(run, states) && i <= |run| && id < |states[i].locks.tickets|
    ensures |states[i].owner| == |states[i].locks.tickets|
    ensures var t := states[i].locks.tickets[id];
            k in HandlesOf(states[i], c) && HandlesOf(states[i], c)[k] == id
            <==> t.status == Holding && t.key == k && states[i].owner[id] == c
  {
    RunKeeps(run, states, i);
    assert EntryFine(states[i], c, k) && HolderFine(states[i], id);
  }

  /** No key is held by two clients. */
  lemma OneClientPerKey(run: seq<Call>, states: seq<Daemon>, i: nat, c: Client, c': Client, k: Key)
    requires IsRun(run, states) && i <= |run|
    requires k in HandlesOf(states[i], c) && k in HandlesOf(states[i], c')
    ensures c == c'
  {
    RunKeeps(run, states, i);
    var d := states[i];
    assert EntryFine(d, c, k) && EntryFine(d, c', k);
    AtMostOneHolder(d.locks, HandlesOf(d, c)[k], HandlesOf(d, c')[k]);
  }

  // ----- Requests that block a key -----------------------------------------------------------------

  /** A request that nobody can release any more: it timed out, or its client is gone. */
  ghost predicate Stuck(d: Daemon, id: nat)
    requires id < |d.owner| == |d.locks.tickets|
  {
    d.locks.tickets[id].status == TimedOut || (d.locks.tickets[id].status != Released && d.owner[id] !in d.connected)
  }

  /** No earlier request for the key of request `id` is stuck. */
  ghost predicate NoStuckBefore(d: Daemon, id: nat)
    requires id < |d.owner| == |d.locks.tickets|
  {
    forall p | 0 <= p < id && d.locks.tickets[p].key == d.locks.tickets[id].key :: !Stuck(d, p)
  }

  /** What a step leaves of request `id`: its client and key, a final status, and being stuck. */
  ghost predicate Stays(d: Daemon, d': Daemon, id: nat)
    requires id < |d.owner| == |d.locks.tickets|
  {
    && id < |d'.owner| == |d'.locks.tickets|
    && d'.owner[id] == d.owner[id] && d'.locks.tickets[id].key == d.locks.tickets[id].key
    && var (was, now) := (d.locks.tickets[id].status, d'.locks.tickets[id].status);
       && (was == TimedOut || was == Released ==> now == was)
       && (Stuck(d, id) ==> Stuck(d', id) && (was == Holding ==> now == Holding))
  }

  lemma NextStays(d: Daemon, e: Call, id: nat)
    requires Exact(d) && Allowed(d, e) && id < |d.owner|
    ensures Stays(d, Next(d, e), id)
  {
    assert HolderFine(d, id) && d.owner[id] in d.handles;
    if e.Close? { CloseEffect(d, e.c, e.order); }
    if e.ReleaseRpc? && e.key in HandlesOf(d, e.c) { assert EntryFine(d, e.c, e.key); }
  }

  lemma {:induction false} RunStays(d: Daemon, run: seq<Call>, states: seq<Daemon>, n: nat, id: nat)
    requires Exact(d) && RunFrom(d, run, states) && n <= |run| && id < |d.owner|
    ensures Stays(d, states[n], id)
  {
    if n == 0 {
    } else {
      RunStays(d, run, states, n - 1, id);
      RunFromKeeps(d, run, states, n - 1);
      NextStays(states[n - 1], run[n - 1], id);
    }
  }

  /** A stuck request blocks its key for good: in every continuation it stays stuck, and no later request
      for the key, made before or after, is ever granted. */
  lemma StuckBlocks(d: Daemon, run: seq<Call>, states: seq<Daemon>, n: nat, p: nat, i: nat)
    requires Exact(d) && RunFrom(d, run, states) && n <= |run|
    requires p < |d.owner| && Stuck(d, p)
    requires p < i < |states[n].locks.tickets| && states[n].locks.tickets[i].key == d.locks.tickets[p].key
    ensures p < |states[n].owner| == |states[n].locks.tickets| && Stuck(states[n], p)
    ensures states[n].locks.tickets[i].status != Holding && states[n].locks.tickets[i].status != Released
  {
    RunStays(d, run, states, n, p);
    RunFromKeeps(d, run, states, n);
    if states[n].locks.tickets[i].status == Holding || states[n].locks.tickets[i].status == Released {
      InOrder(states[n].locks, p, i);
    }
  }

  lemma OldestIsGrantable(d: Daemon, i: nat) returns (j: nat)
    requires Exact(d) && i < |d.owner| && d.locks.tickets[i].status == Waiting
    ensures j <= i && d.locks.tickets[j].key == d.locks.tickets[i].key && d.locks.tickets[j].status != Released
    ensures AllReleased(d.locks.tickets, 0, j, d.locks.tickets[i].key)
    ensures d.locks.tickets[j].status == Waiting ==> Allowed(d, Granted(j))
  {
    j := Oldest(d.locks.tickets, i, d.locks.tickets[i].key);
    if d.locks.tickets[j].status == Waiting { GrantableExactly(d.locks, j); }
  }

  lemma GrantStep(d: Daemon, i: nat, j: nat)
    requires Exact(d) && Allowed(d, Granted(j)) && j < i < |d.owner|
    requires d.locks.tickets[i].status == Waiting && NoStuckBefore(d, i)
    ensures var (d', k) := (Next(d, Granted(j)), d.locks.tickets[i].key);
            && Exact(d') && d'.owner == d.owner && d'.connected == d.connected
            && d'.locks.tickets == d.locks.tickets[j := d.locks.tickets[j].(status := Holding)]
            && NoStuckBefore(d', i) && Unreleased(d'.locks.tickets, i, k) == Unreleased(d.locks.tickets, i, k)
  {
    NextKeeps(d, Granted(j));
    var d' := Next(d, Granted(j));
    UnreleasedSame(d.locks.tickets, d'.locks.tickets, i, d.locks.tickets[i].key);
    forall p | 0 <= p < i && d'.locks.tickets[p].key == d'.locks.tickets[i].key ensures !Stuck(d', p) {
      assert !Stuck(d, p);
    }
  }

  lemma ReleaseStep(d: Daemon, i: nat, j: nat)
    requires Exact(d) && j < i < |d.owner| && d.locks.tickets[j].key == d.locks.tickets[i].key
    requires d.locks.tickets[j].status == Holding && d.locks.tickets[i].status == Waiting && NoStuckBefore(d, i)
    ensures var (e, k) := (ReleaseRpc(d.owner[j], d.locks.tickets[j].key), d.locks.tickets[i].key);
            var d' := Next(d, e);
            && Allowed(d, e) && Exact(d') && d'.owner == d.owner && d'.connected == d.connected
            && d'.locks.tickets == d.locks.tickets[j := d.locks.tickets[j].(status := Released)]
            && NoStuckBefore(d', i) && Unreleased(d'.locks.tickets, i, k) < Unreleased(d.locks.tickets, i, k)
  {
    var e := ReleaseRpc(d.owner[j], d.locks.tickets[j].key);
    assert HolderFine(d, j) && !Stuck(d, j);
    NextKeeps(d, e);
    var d' := Next(d, e);
    UnreleasedLess(d.locks.tickets, j, i);
    forall p | 0 <= p < i && d'.locks.tickets[p].key == d'.locks.tickets[i].key ensures !Stuck(d', p) {
      assert !Stuck(d, p);
    }
  }

  ghost predicate HoldsAt(d: Daemon, i: nat) {
    i < |d.locks.tickets| && d.locks.tickets[i].status == Holding
  }

  lemma RunsJoin(d: Daemon, run: seq<Call>, states: seq<Daemon>, run': seq<Call>, states': seq<Daemon>)
    requires RunFrom(d, run, states) && RunFrom(states[|run|], run', states')
    ensures RunFrom(d, run + run', states + states'[1..])
  {
    var both := states + states'[1..];
    assert forall i | |run| <= i < |both| :: both[i] == states'[i - |run|];
  }

  /** Request `j`, the oldest unreleased one before `i`, is granted, unless it holds the key, and released. */
  lemma OldestPassesBy(d: Daemon, i: nat, j: nat) returns (run: seq<Call>, states: seq<Daemon>)
    requires Exact(d) && j < i < |d.owner| && d.locks.tickets[j].key == d.locks.tickets[i].key
    requires d.locks.tickets[i].status == Waiting && NoStuckBefore(d, i) && d.locks.tickets[j].status != Released
    requires d.locks.tickets[j].status == Waiting ==> Allowed(d, Granted(j))
    ensures RunFrom(d, run, states)
    ensures var (d', k) := (states[|run|], d.locks.tickets[i].key);
            && Exact(d') && |d'.owner| == |d.owner| && d'.locks.tickets[i] == d.locks.tickets[i]
            && NoStuckBefore(d', i) && Unreleased(d'.locks.tickets, i, k) < Unreleased(d.locks.tickets, i, k)
  {
    var e := ReleaseRpc(d.owner[j], d.locks.tickets[j].key);
    assert !Stuck(d, j);
    if d.locks.tickets[j].status == Waiting {
      var d1 := Next(d, Granted(j));
      GrantStep(d, i, j);
      ReleaseStep(d1, i, j);
      run, states := [Granted(j), e], [d, d1, Next(d1, e)];
    } else {
      ReleaseStep(d, i, j);
      run, states := [e], [d, Next(d, e)];
    }
  }

  /** Without a stuck request before it a waiting request can come to hold its key: each client ahead of it
      need only release. */
  lemma {:induction false} CanHold(d: Daemon, i: nat) returns (run: seq<Call>, states: seq<Daemon>)
    requires Exact(d) && i < |d.owner| && d.locks.tickets[i].status == Waiting && NoStuckBefore(d, i)
    ensures RunFrom(d, run, states) && HoldsAt(states[|run|], i)
    decreases Unreleased(d.locks.tickets, i, d.locks.tickets[i].key)
  {
    var j := OldestIsGrantable(d, i);
    if j == i {
      run, states := [Granted(i)], [d, Next(d, Granted(i))];
    } else {
      var run0, states0 := OldestPassesBy(d, i, j);
      var run1, states1 := CanHold(states0[|run0|], i);
      RunsJoin(d, run0, states0, run1, states1);
      run, states := run0 + run1, states0 + states1[1..];
    }
  }

  /** A waiting request has a continuation in which it holds its key exactly when no earlier request for
      the key is stuck. */
  lemma HoldsEventuallyExactly(d: Daemon, i: nat)
    requires Exact(d) && i < |d.owner| && d.locks.tickets[i].status == Waiting
    ensures NoStuckBefore(d, i) <==>
              exists run: seq<Call>, states: seq<Daemon> ::
                RunFrom(d, run, states) && HoldsAt(states[|run|], i)
  {
    if NoStuckBefore(d, i) {
      var run, states := CanHold(d, i);
    } else {
      var p :| 0 <= p < i && d.locks.tickets[p].key == d.locks.tickets[i].key && Stuck(d, p);
      forall run: seq<Call>, states: seq<Daemon> | RunFrom(d, run, states)
        ensures !HoldsAt(states[|run|], i)
      {
        RunStays(d, run, states, |run|, i);
        StuckBlocks(d, run, states, |run|, p, i);
      }
    }
  }

  // ----- Clients that went away ------------------------------------------------------------------

  lemma GoneAsksNot(d: Daemon, e: Call, c: Client)
    requires Exact(d) && Allowed(d, e) && c in d.handles && c !in d.connected
    ensures var d' := Next(d, e);
            && c in d'.handles && c !in d'.connected && |d.owner| <= |d'.owner|
            && forall id | 0 <= id < |d'.owner| ::
                 if id < |d.owner| then d'.owner[id] == d.owner[id] else d'.owner[id] != c
  {
  }

  /** A client that is gone stays gone and makes no further request. */
  lemma {:induction false} GoneAsksNothing(d: Daemon, run: seq<Call>, states: seq<Daemon>, n: nat, c: Client)
    requires Exact(d) && RunFrom(d, run, states) && n <= |run| && c in d.handles && c !in d.connected
    ensures c in states[n].handles && c !in states[n].connected && |d.owner| <= |states[n].owner|
    ensures forall id | |d.owner| <= id < |states[n].owner| :: states[n].owner[id] != c
  {
    if n == 0 {
    } else {
      GoneAsksNothing(d, run, states, n - 1, c);
      RunFromKeeps(d, run, states, n - 1);
      GoneAsksNot(states[n - 1], run[n - 1], c);
    }
  }

  /** Request `i` of client `c` waits and no stuck request is before it. */
  ghost predicate Hopeful(d: Daemon, c: Client, i: nat)
    requires |d.owner| == |d.locks.tickets|
  {
    i < |d.owner| && d.owner[i] == c && d.locks.tickets[i].status == Waiting && NoStuckBefore(d, i)
  }

  ghost predicate HoldsLater(d: Daemon, c: Client, run: seq<Call>, states: seq<Daemon>) {
    RunFrom(d, run, states) && exists k :: k in HandlesOf(states[|run|], c)
  }

  lemma HeldIsStored(d: Daemon, run: seq<Call>, states: seq<Daemon>, i: nat)
    requires Exact(d) && RunFrom(d, run, states) && i < |d.owner|
    requires i < |states[|run|].locks.tickets| && states[|run|].locks.tickets[i].status == Holding
    ensures d.locks.tickets[i].key in HandlesOf(states[|run|], d.owner[i])
  {
    RunFromKeeps(d, run, states, |run|);
    RunStays(d, run, states, |run|, i);
    assert HolderFine(states[|run|], i);
  }

  lemma StoredWasWaiting(d: Daemon, c: Client, run: seq<Call>, states: seq<Daemon>, k: Key)
    requires Exact(d) && RunFrom(d, run, states) && k in HandlesOf(states[|run|], c)
    requires c in d.handles && c !in d.connected && HandlesOf(d, c) == map[]
    ensures exists i: nat :: Hopeful(d, c, i)
  {
    RunFromKeeps(d, run, states, |run|);
    assert EntryFine(states[|run|], c, k);
    GoneAsksNothing(d, run, states, |run|, c);
    var i := HandlesOf(states[|run|], c)[k];
    RunStays(d, run, states, |run|, i);
    assert HolderFine(d, i);
    HoldsEventuallyExactly(d, i);
    assert Hopeful(d, c, i);
  }

  /** A client that is gone and holds nothing can come to hold a lock exactly when one of its waiting
      requests has no stuck request before it. */
  lemma GoneHoldsExactly(d: Daemon, c: Client)
    requires Exact(d) && c in d.handles && c !in d.connected && HandlesOf(d, c) == map[]
    ensures (exists run, states :: HoldsLater(d, c, run, states)) <==>
            exists i: nat :: Hopeful(d, c, i)
  {
    if i: nat :| Hopeful(d, c, i) {
      var run, states := CanHold(d, i);
      HeldIsStored(d, run, states, i);
      assert HoldsLater(d, c, run, states);
    }
    if run, states :| HoldsLater(d, c, run, states) {
      var k :| k in HandlesOf(states[|run|], c);
      StoredWasWaiting(d, c, run, states, k);
    }
  }

  /** A closed client holds nothing in any continuation exactly when each of its waiting requests, if it
      has any, comes after a stuck one. */
  lemma GoneForGood(d: Daemon, c: Client, order: seq<Key>)
    requires Exact(d) && Allowed(d, Close(c, order))
    ensures var d' := Next(d, Close(c, order));
            && Exact(d')
            && ((forall run, states | RunFrom(d', run, states) :: HandlesOf(states[|run|], c) == map[])
                <==> forall i: nat :: !Hopeful(d', c, i))
  {
    var d' := Next(d, Close(c, order));
    CloseKeeps(d, c, order);
    GoneHoldsExactly(d', c);
    forall run, states | RunFrom(d', run, states)
      ensures HandlesOf(states[|run|], c) == map[] <==> !HoldsLater(d', c, run, states)
    {
      assert HandlesOf(states[|run|], c) != map[] ==> exists k :: k in HandlesOf(states[|run|], c);
    }
  }

  /** What a client that is gone holds it keeps for good, and nobody else is ever granted the key. */
  lemma GoneKeeps(d: Daemon, run: seq<Call>, states: seq<Daemon>, n: nat, c: Client, k: Key)
    requires Exact(d) && RunFrom(d, run, states) && n <= |run|
    requires c in d.handles && c !in d.connected && k in HandlesOf(d, c)
    ensures k in HandlesOf(states[n], c) && HandlesOf(states[n], c)[k] == HandlesOf(d, c)[k]
    ensures var (ts, id) := (states[n].locks.tickets, HandlesOf(d, c)[k]);
            forall i | 0 <= i < |ts| && ts[i].key == k && i != id :: ts[i].status != Holding
  {
    var id := HandlesOf(d, c)[k];
    assert EntryFine(d, c, k);
    RunStays(d, run, states, n, id);
    RunFromKeeps(d, run, states, n);
    assert HolderFine(states[n], id);
    forall i: nat | i < |states[n].locks.tickets| && states[n].locks.tickets[i].key == k && i != id
      ensures states[n].locks.tickets[i].status != Holding
    {
      if states[n].locks.tickets[i].status == Holding { AtMostOneHolder(states[n].locks, i, id); }
    }
  }

  // Client 2 leaves while it waits for the key "k" of client 1.
  const WAITING_1 := Ticket("k", 0, Resolved, Waiting)
  const HOLDING_1 := Ticket("k", 0, Resolved, Holding)
  const WAITING_2 := Ticket("k", 0, Of(0), Waiting)
  const D1 := Daemon(EMPTY, map[1 := map[]], {1}, [])
  const D2 := Daemon(EMPTY, map[1 := map[], 2 := map[]], {1, 2}, [])
  const D3 := Daemon(Locks(map["k" := 0], [Cell(Of(0), 1)], [WAITING_1]), map[1 := map[], 2 := map[]], {1, 2}, [1])
  const ONE_HOLDS: map<Client, map<Key, nat>> := map[1 := map["k" := 0], 2 := map[]]
  const D4 := Daemon(Locks(map["k" := 0], [Cell(Of(0), 1)], [HOLDING_1]), ONE_HOLDS, {1, 2}, [1])
  const D5 := Daemon(Locks(map["k" := 0], [Cell(Of(1), 2)], [HOLDING_1, WAITING_2]), ONE_HOLDS, {1, 2}, [1, 2])
  const D6 := D5.(connected := {1})

  lemma ClientOneHolds()
    ensures Next(IDLE, Connect(1)) == D1 && Next(D1, Connect(2)) == D2
    ensures Next(D2, AcquireRpc(1, "k")) == D3
    ensures Enabled(D3.locks, Grant(0)) && Next(D3, Granted(0)) == D4
  {
  }

  lemma ClientTwoWaits()
    ensures Next(D4, AcquireRpc(2, "k")) == D5
    ensures Next(D5, Close(2, [])) == D6
  {
  }

  lemma ClientTwoLeaves() returns (run: seq<Call>, states: seq<Daemon>)
    ensures IsRun(run, states) && states[|run|] == D6
  {
    ClientOneHolds();
    ClientTwoWaits();
    run := [Connect(1), Connect(2), AcquireRpc(1, "k"), Granted(0), AcquireRpc(2, "k"), Close(2, [])];
    states := [IDLE, D1, D2, D3, D4, D5, D6];
  }

  /** A run after which a closed client holds a lock; by `GoneKeeps` it does so for good. */
  lemma DeadClientHolds() returns (run: seq<Call>, states: seq<Daemon>)
    ensures IsRun(run, states) && 2 in states[|run|].handles && 2 !in states[|run|].connected
    ensures "k" in HandlesOf(states[|run|], 2)
  {
    var run0, states0 := ClientTwoLeaves();
    RunKeeps(run0, states0, |run0|);
    var run1, states1 := CanHold(D6, 1);
    HeldIsStored(D6, run1, states1, 1);
    GoneAsksNothing(D6, run1, states1, |run1|, 2);
    RunsJoin(IDLE, run0, states0, run1, states1);
    run, states := run0 + run1, states0 + states1[1..];
  }

  // ----- The program -------------------------------------------------------------------------------

  datatype Answer = AlreadyHolds | Waits(id: nat)

  class Server {
    const lock: Mutexes
    var handles: map<Client, map<Key, nat>>
    var connected: set<Client>
    var owner: seq<Client>

    ghost function State(): Daemon reads this, lock {
      Daemon(lock.State(), handles, connected, owner)
    }

    ghost predicate Valid() reads this, lock {
      Exact(State())
    }

    constructor ()
      ensures Valid() && State() == IDLE && fresh(lock)
      ensures handles == map[] && connected == {} && owner == [] && lock.tickets == []
    {
      lock := new Mutexes();
      handles, connected, owner := map[], {}, [];
    }

    method HandleConnection(c: Client)
      requires Valid() && Allowed(State(), Connect(c))
      modifies this
      ensures State() == Next(old(State()), Connect(c)) && Valid()
      ensures handles == old(handles)[c := map[]] && connected == old(connected) + {c} && owner == old(owner)
    {
      NextKeeps(State(), Connect(c));
      handles := handles[c := map[]];
      connected := connected + {c};
    }

    /** `lock.acquire` up to its await. */
    method DispatchAcquire(c: Client, key: Key) returns (a: Answer)
      requires Valid() && Allowed(State(), AcquireRpc(c, key))
      modifies this, lock
      ensures State() == Next(old(State()), AcquireRpc(c, key)) && Valid()
      ensures a == AlreadyHolds <==> key in HandlesOf(old(State()), c)
      ensures handles == old(handles) && connected == old(connected)
      ensures a == AlreadyHolds ==> owner == old(owner) && lock.State() == old(lock.State())
      ensures a.Waits? ==>
                && a.id == |old(owner)| && owner == old(owner) + [c] && |lock.tickets| == a.id + 1
                && lock.tickets[..a.id] == old(lock.tickets)
                && lock.tickets[a.id].key == key && lock.tickets[a.id].status == Waiting
    {
      NextKeeps(State(), AcquireRpc(c, key));
      if key in handles[c] { return AlreadyHolds; }
      var id := lock.AcquireKey(key);
      owner := owner + [c];
      a := Waits(id);
    }

    /** The rest of `lock.acquire` once the lock is granted. */
    method StoreHandle(id: nat)
      requires Valid() && Allowed(State(), Granted(id))
      modifies this, lock
      ensures State() == Next(old(State()), Granted(id)) && Valid()
      ensures lock.tickets == old(lock.tickets)[id := old(lock.tickets)[id].(status := Holding)]
      ensures owner[id] in old(handles)
      ensures var c, k := owner[id], old(lock.tickets)[id].key;
              var own: map<Key, nat> := old(handles)[c][k := id];
              handles == old(handles)[c := own]
      ensures owner == old(owner) && connected == old(connected)
    {
      NextKeeps(State(), Granted(id));
      lock.Proceed(id);
      handles := handles[owner[id] := handles[owner[id]][lock.tickets[id].key := id]];
    }

    method DispatchRelease(c: Client, key: Key) returns (released: bool)
      requires Valid() && Allowed(State(), ReleaseRpc(c, key))
      modifies this, lock
      ensures State() == Next(old(State()), ReleaseRpc(c, key)) && Valid()
      ensures released <==> c in old(handles) && key in old(handles)[c]
      ensures !released ==> State() == old(State())
      ensures released ==> handles == old(handles)[c := old(handles)[c] - {key}]
      ensures released ==> old(handles)[c][key] < |old(lock.tickets)|
      ensures released ==>
                var id := old(handles)[c][key];
                lock.tickets == old(lock.tickets)[id := old(lock.tickets)[id].(status := Released)]
      ensures owner == old(owner) && connected == old(connected)
    {
      NextKeeps(State(), ReleaseRpc(c, key));
      released := key in handles[c];
      if released {
        assert EntryFine(State(), c, key);
        var id := handles[c][key];
        handles := handles[c := handles[c] - {key}];
        lock.ReleaseHandle(id);
      }
    }

    /** The `close` handler. */
    method OnClose(c: Client, order: seq<Key>)
      requires Valid() && Allowed(State(), Close(c, order))
      modifies this, lock
      ensures State() == Next(old(State()), Close(c, order)) && Valid()
      ensures handles == old(handles)[c := map[]] && connected == old(connected) - {c} && owner == old(owner)
      ensures |lock.tickets| == |old(lock.tickets)| == |owner|
      ensures forall i | 0 <= i < |lock.tickets| ::
                var was := old(lock.tickets)[i];
                lock.tickets[i] == if was.status == Holding && owner[i] == c then was.(status := Released) else was
    {
      NextKeeps(State(), Close(c, order));
      CloseEffect(State(), c, order);
      HandlesHeld(State(), c);
      ReleaseHandles(handles[c], order);
      handles := handles[c := map[]];
      connected := connected - {c};
    }

    /** Its loop over the client's handles. */
    method ReleaseHandles(h: map<Key, nat>, order: seq<Key>)
      requires lock.Valid() && AllHeld(lock.State(), h) && forall k | k in order :: k in h
      modifies lock
      ensures lock.Valid() && lock.State() == ReleaseAll(old(lock.State()), h, order, |order|)
    {
      ghost var s := lock.State();
      for i := 0 to |order|
        invariant lock.Valid() && lock.State() == ReleaseAll(s, h, order, i)
      {
        ReleaseAllNext(s, h, order, i);
        lock.ReleaseHandle(h[order[i]]);
      }
    }
  }
}
