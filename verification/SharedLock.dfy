/** The promise-chain mutex of `src/daemon/shared-lock.ts`. A call of `acquire` is a ticket; its
    number also names the promise its holder resolves on release. The steps are the part of
    `acquire` before its await, the continuation after it, the timer, and `release`. */
module SharedLock {

  type Key = string

  datatype Status = Waiting | Holding | TimedOut | Released

  /** A promise: resolved from the start, or the one a ticket resolves. */
  datatype Promise = Resolved | Of(ticket: nat)

  datatype Cell = Cell(chain: Promise, waiters: int)
  datatype Ticket = Ticket(key: Key, cell: nat, prev: Promise, status: Status)

  /** References to `MutexState` objects are indexes into `cells`, so that a ticket can keep one
      after its key has been deleted and created anew. */
  datatype Locks = Locks(table: map<Key, nat>, cells: seq<Cell>, tickets: seq<Ticket>)

  const EMPTY := Locks(map[], [], [])

  datatype Event = Acquire(key: Key) | Grant(id: nat) | Timeout(id: nat) | Release(id: nat)

  predicate IsResolved(s: Locks, p: Promise) {
    p == Resolved || (p.ticket < |s.tickets| && s.tickets[p.ticket].status == Released)
  }

  predicate Enabled(s: Locks, e: Event) {
    match e
    case Acquire(_) => true
    case Grant(id) => id < |s.tickets| && s.tickets[id].status == Waiting && IsResolved(s, s.tickets[id].prev)
    case Timeout(id) => id < |s.tickets| && s.tickets[id].status == Waiting
    case Release(id) => id < |s.tickets| && (s.tickets[id].status == Holding || s.tickets[id].status == Released)
  }

  function SetStatus(ts: seq<Ticket>, id: nat, status: Status): seq<Ticket>
    requires id < |ts|
  {
    ts[id := ts[id].(status := status)]
  }

  /** References are never dangling. */
  predicate WellLinked(s: Locks) {
    && (forall k | k in s.table :: s.table[k] < |s.cells|)
    && (forall i | 0 <= i < |s.tickets| :: s.tickets[i].cell < |s.cells|)
  }

  function Step(s: Locks, e: Event): (s': Locks)
    requires WellLinked(s) && Enabled(s, e)
  {
    match e
    case Acquire(key) =>
      var c := if key in s.table then s.table[key] else |s.cells|;
      var cells := if key in s.table then s.cells else s.cells + [Cell(Resolved, 0)];
      var id := |s.tickets|;
      Locks(s.table[key := c],
            cells[c := Cell(Of(id), cells[c].waiters + 1)],
            s.tickets + [Ticket(key, c, cells[c].chain, Waiting)])
    case Grant(id) => s.(tickets := SetStatus(s.tickets, id, Holding))
    case Timeout(id) => s.(tickets := SetStatus(s.tickets, id, TimedOut))
    case Release(id) =>
      if s.tickets[id].status == Released then s
      else
        var t := s.tickets[id];
        var left := s.cells[t.cell].waiters - 1;
        Locks(if left == 0 then s.table - {t.key} else s.table,
              s.cells[t.cell := s.cells[t.cell].(waiters := left)],
              SetStatus(s.tickets, id, Released))
  }

  // ----- Invariant ---------------------------------------------------------------------------

  /** Tickets among the first `n` on `k` that have not released. */
  function Unreleased(ts: seq<Ticket>, n: nat, k: Key): nat
    requires n <= |ts|
  {
    if n == 0 then 0
    else Unreleased(ts, n - 1, k) + (if ts[n - 1].key == k && ts[n - 1].status != Released then 1 else 0)
  }

  /** The tickets on `k` among the first `n` that have not released. */
  function UnreleasedAt(ts: seq<Ticket>, n: nat, k: Key): set<nat>
    requires n <= |ts|
  {
    set i: nat | i < n && ts[i].key == k && ts[i].status != Released
  }

  lemma {:induction false} UnreleasedCounted(ts: seq<Ticket>, n: nat, k: Key)
    requires n <= |ts|
    ensures Unreleased(ts, n, k) == |UnreleasedAt(ts, n, k)|
  {
    if n == 0 {
    } else {
      UnreleasedCounted(ts, n - 1, k);
      assert UnreleasedAt(ts, n, k) == UnreleasedAt(ts, n - 1, k)
          + if ts[n - 1].key == k && ts[n - 1].status != Released then {n - 1} else {};
    }
  }

  /** Every ticket on `k` from `lo` up to, not including, `hi` has released. */
  ghost predicate AllReleased(ts: seq<Ticket>, lo: nat, hi: nat, k: Key)
    requires hi <= |ts|
  {
    forall j | lo <= j < hi && ts[j].key == k :: ts[j].status == Released
  }

  ghost predicate NoneOn(ts: seq<Ticket>, lo: nat, hi: nat, k: Key)
    requires hi <= |ts|
  {
    forall j | lo <= j < hi :: ts[j].key != k
  }

  /** `p` is the promise of the last ticket on `k` before ticket `i`, or nobody before `i` is left. */
  ghost predicate Follows(ts: seq<Ticket>, p: Promise, i: nat, k: Key)
    requires i <= |ts|
  {
    match p
    case Resolved => AllReleased(ts, 0, i, k)
    case Of(q) => q < i && ts[q].key == k && NoneOn(ts, q + 1, i, k)
  }

  ghost predicate TicketFine(s: Locks, i: nat)
    requires i < |s.tickets|
  {
    var t := s.tickets[i];
    && Follows(s.tickets, t.prev, i, t.key)
    && (t.status != Released ==> t.key in s.table && s.table[t.key] == t.cell)
    && (t.status == Holding || t.status == Released ==> IsResolved(s, t.prev))
  }

  ghost predicate KeyFine(s: Locks, k: Key)
    requires WellLinked(s)
  {
    var n := Unreleased(s.tickets, |s.tickets|, k);
    if k in s.table then
      var cell := s.cells[s.table[k]];
      cell.waiters == n > 0 && cell.chain.Of? && Follows(s.tickets, cell.chain, |s.tickets|, k)
    else n == 0
  }

  ghost predicate Inv(s: Locks) {
    && WellLinked(s)
    && (forall i | 0 <= i < |s.tickets| :: TicketFine(s, i))
    && (forall k :: KeyFine(s, k))
    && (forall k, k' | k in s.table && k' in s.table && k != k' :: s.table[k] != s.table[k'])
  }

  lemma {:induction false} UnreleasedZero(ts: seq<Ticket>, n: nat, k: Key)
    requires n <= |ts|
    ensures Unreleased(ts, n, k) == 0 <==> AllReleased(ts, 0, n, k)
  {
    if n == 0 {
    } else {
      UnreleasedZero(ts, n - 1, k);
    }
  }

  lemma {:induction false} UnreleasedSame(ts: seq<Ticket>, us: seq<Ticket>, n: nat, k: Key)
    requires n <= |ts| && n <= |us|
    requires forall j | 0 <= j < n ::
               ts[j].key == us[j].key && (ts[j].key == k ==> (ts[j].status == Released <==> us[j].status == Released))
    ensures Unreleased(ts, n, k) == Unreleased(us, n, k)
  {
    if n == 0 {
    } else {
      UnreleasedSame(ts, us, n - 1, k);
    }
  }

  lemma {:induction false} UnreleasedLess(ts: seq<Ticket>, id: nat, n: nat)
    requires id < n <= |ts| && ts[id].status != Released
    ensures Unreleased(SetStatus(ts, id, Released), n, ts[id].key) == Unreleased(ts, n, ts[id].key) - 1
  {
    var us := SetStatus(ts, id, Released);
    if n - 1 == id { UnreleasedSame(ts, us, id, ts[id].key); } else { UnreleasedLess(ts, id, n - 1); }
  }

  // ----- Every step keeps it -------------------------------------------------------------------

  lemma AcquireKeepsTicket(s: Locks, key: Key, i: nat)
    requires Inv(s) && i <= |s.tickets|
    ensures TicketFine(Step(s, Acquire(key)), i)
  {
    assert KeyFine(s, key);
    UnreleasedZero(s.tickets, |s.tickets|, key);
    if i < |s.tickets| { assert TicketFine(s, i); }
  }

  lemma AcquireKeepsKey(s: Locks, key: Key, k: Key)
    requires Inv(s)
    ensures WellLinked(Step(s, Acquire(key))) && KeyFine(Step(s, Acquire(key)), k)
  {
    assert KeyFine(s, key) && KeyFine(s, k);
    UnreleasedSame(s.tickets, Step(s, Acquire(key)).tickets, |s.tickets|, k);
  }

  lemma AcquireKeeps(s: Locks, key: Key)
    requires Inv(s)
    ensures Inv(Step(s, Acquire(key)))
  {
    var s', n := Step(s, Acquire(key)), |s.tickets|;
    assert KeyFine(s, key);
    forall i | 0 <= i <= n ensures TicketFine(s', i) { AcquireKeepsTicket(s, key, i); }
    forall k ensures KeyFine(s', k) { AcquireKeepsKey(s, key, k); }
  }

  lemma MarkKeeps(s: Locks, id: nat, e: Event)
    requires Inv(s) && Enabled(s, e) && (e == Grant(id) || e == Timeout(id))
    ensures Inv(Step(s, e))
  {
    var s' := Step(s, e);
    forall i | 0 <= i < |s.tickets| ensures TicketFine(s', i) { assert TicketFine(s, i); }
    forall k ensures KeyFine(s', k) {
      assert KeyFine(s, k);
      UnreleasedSame(s.tickets, s'.tickets, |s.tickets|, k);
    }
  }

  lemma ReleaseKeepsKey(s: Locks, id: nat, k: Key)
    requires Inv(s) && Enabled(s, Release(id)) && s.tickets[id].status != Released
    ensures WellLinked(Step(s, Release(id))) && KeyFine(Step(s, Release(id)), k)
  {
    var s', t, n := Step(s, Release(id)), s.tickets[id], |s.tickets|;
    assert TicketFine(s, id) && KeyFine(s, t.key) && KeyFine(s, k);
    if k == t.key { UnreleasedLess(s.tickets, id, n); } else { UnreleasedSame(s.tickets, s'.tickets, n, k); }
  }

  lemma ReleaseKeepsTicket(s: Locks, id: nat, i: nat)
    requires Inv(s) && Enabled(s, Release(id)) && s.tickets[id].status != Released && i < |s.tickets|
    ensures TicketFine(Step(s, Release(id)), i)
  {
    var s', t, n := Step(s, Release(id)), s.tickets[id], |s.tickets|;
    assert TicketFine(s, id) && TicketFine(s, i) && KeyFine(s, t.key);
    UnreleasedLess(s.tickets, id, n);
    UnreleasedZero(s'.tickets, n, t.key);
  }

  lemma ReleaseKeeps(s: Locks, id: nat)
    requires Inv(s) && Enabled(s, Release(id))
    ensures Inv(Step(s, Release(id)))
  {
    var s' := Step(s, Release(id));
    if s.tickets[id].status != Released {
      forall i | 0 <= i < |s.tickets| ensures TicketFine(s', i) { ReleaseKeepsTicket(s, id, i); }
      forall k ensures KeyFine(s', k) { ReleaseKeepsKey(s, id, k); }
    }
  }

  /** The invariant holds in every reachable state, whatever the interleaving. */
  lemma StepKeeps(s: Locks, e: Event)
    requires Inv(s) && Enabled(s, e)
    ensures Inv(Step(s, e))
  {
    match e
    case Acquire(key) => AcquireKeeps(s, key);
    case Grant(id) => MarkKeeps(s, id, e);
    case Timeout(id) => MarkKeeps(s, id, e);
    case Release(id) => ReleaseKeeps(s, id);
  }

  // ----- What it means ---------------------------------------------------------------------------

  /** Grants follow the order of the calls: when a ticket holds or has held its key, every earlier
      ticket on the key has released. */
  lemma {:induction false} InOrder(s: Locks, i: nat, j: nat)
    requires Inv(s) && i < j < |s.tickets| && s.tickets[i].key == s.tickets[j].key
    requires s.tickets[j].status == Holding || s.tickets[j].status == Released
    ensures s.tickets[i].status == Released
    decreases j
  {
    assert TicketFine(s, j);
    var p := s.tickets[j].prev;
    if p == Resolved || p.ticket <= i {
    } else {
      InOrder(s, i, p.ticket);
    }
  }

  /** Mutual exclusion: at most one unreleased handle per key. */
  lemma AtMostOneHolder(s: Locks, i: nat, j: nat)
    requires Inv(s) && i < |s.tickets| && j < |s.tickets| && s.tickets[i].key == s.tickets[j].key
    requires s.tickets[i].status == Holding && s.tickets[j].status == Holding
    ensures i == j
  {
    if i < j { InOrder(s, i, j); } else if j < i { InOrder(s, j, i); }
  }

  /** A waiting ticket can be granted exactly when every earlier ticket on its key has released; so
      without timeouts the oldest waiter can be as soon as nobody holds the key. */
  lemma GrantableExactly(s: Locks, i: nat)
    requires Inv(s) && i < |s.tickets| && s.tickets[i].status == Waiting
    ensures Enabled(s, Grant(i)) <==> AllReleased(s.tickets, 0, i, s.tickets[i].key)
  {
    assert TicketFine(s, i);
    var p := s.tickets[i].prev;
    if Enabled(s, Grant(i)) && p.Of? {
      forall j | 0 <= j < i && s.tickets[j].key == s.tickets[i].key ensures s.tickets[j].status == Released {
        if j < p.ticket { InOrder(s, j, p.ticket); }
      }
    }
  }

  /** A key has an entry exactly while some call of `acquire` on it has not released, and the entry
      counts those calls, timed-out ones included. */
  lemma EntryExactly(s: Locks, k: Key)
    requires Inv(s)
    ensures k in s.table
       <==> exists i | 0 <= i < |s.tickets| :: s.tickets[i].key == k && s.tickets[i].status != Released
    ensures k in s.table ==> s.cells[s.table[k]].waiters == |UnreleasedAt(s.tickets, |s.tickets|, k)|
  {
    UnreleasedCounted(s.tickets, |s.tickets|, k);
    assert KeyFine(s, k);
    UnreleasedZero(s.tickets, |s.tickets|, k);
  }

  // ----- Runs ------------------------------------------------------------------------------------

  /** `states[i]` is the state before event `i`, starting from `s`. */
  ghost predicate Path(s: Locks, run: seq<Event>, states: seq<Locks>) {
    && |states| == |run| + 1 && states[0] == s
    && forall i | 0 <= i < |run| ::
         WellLinked(states[i]) && Enabled(states[i], run[i]) && states[i + 1] == Step(states[i], run[i])
  }

  lemma {:induction false} PathKeeps(s: Locks, run: seq<Event>, states: seq<Locks>, i: nat)
    requires Inv(s) && Path(s, run, states) && i <= |run|
    ensures Inv(states[i])
  {
    if i == 0 {
    } else {
      PathKeeps(s, run, states, i - 1);
      StepKeeps(states[i - 1], run[i - 1]);
    }
  }

  /** Tickets keep their number and key, and a ticket that timed out or released stays so. */
  lemma {:induction false} TicketsStay(s: Locks, run: seq<Event>, states: seq<Locks>, i: nat, t: nat)
    requires Path(s, run, states) && i <= |run| && t < |s.tickets|
    ensures |s.tickets| <= |states[i].tickets| && states[i].tickets[t].key == s.tickets[t].key
    ensures s.tickets[t].status == TimedOut || s.tickets[t].status == Released ==>
              states[i].tickets[t].status == s.tickets[t].status
  {
    if i == 0 {
    } else {
      TicketsStay(s, run, states, i - 1, t);
    }
  }

  /** Every state that event sequences can reach from no locks at all keeps the invariant, so the
      lemmas above speak about all of them; here for mutual exclusion. */
  lemma MutualExclusion(run: seq<Event>, states: seq<Locks>, n: nat, i: nat, j: nat)
    requires Path(EMPTY, run, states) && n <= |run|
    requires i < |states[n].tickets| && j < |states[n].tickets| && states[n].tickets[i].key == states[n].tickets[j].key
    requires states[n].tickets[i].status == Holding && states[n].tickets[j].status == Holding
    ensures i == j
  {
    PathKeeps(EMPTY, run, states, n);
    AtMostOneHolder(states[n], i, j);
  }

  /** No ticket on the key before ticket `i` has timed out. */
  ghost predicate NoTimeoutBefore(s: Locks, i: nat)
    requires i < |s.tickets|
  {
    forall p | 0 <= p < i && s.tickets[p].key == s.tickets[i].key :: s.tickets[p].status != TimedOut
  }

  /** A timeout blocks its key for good: no later call on the key is ever granted. */
  lemma TimeoutBlocks(s: Locks, run: seq<Event>, states: seq<Locks>, n: nat, p: nat, i: nat)
    requires Inv(s) && Path(s, run, states) && n <= |run|
    requires p < |s.tickets| && s.tickets[p].status == TimedOut
    requires p < i < |states[n].tickets| && states[n].tickets[i].key == s.tickets[p].key
    ensures states[n].tickets[i].status != Holding && states[n].tickets[i].status != Released
  {
    PathKeeps(s, run, states, n);
    TicketsStay(s, run, states, n, p);
    if states[n].tickets[i].status == Holding || states[n].tickets[i].status == Released { InOrder(states[n], p, i); }
  }

  lemma {:induction false} Oldest(ts: seq<Ticket>, i: nat, k: Key) returns (j: nat)
    requires i <= |ts|
    ensures j <= i && AllReleased(ts, 0, j, k)
    ensures j < i ==> ts[j].key == k && ts[j].status != Released
  {
    j := 0;
    while j < i && !(ts[j].key == k && ts[j].status != Released)
      invariant j <= i && AllReleased(ts, 0, j, k)
    {
      j := j + 1;
    }
  }

  lemma PathsJoin(s: Locks, run: seq<Event>, states: seq<Locks>, run': seq<Event>, states': seq<Locks>)
    requires Path(s, run, states) && Path(states[|run|], run', states')
    ensures Path(s, run + run', states + states'[1..])
  {
    var both := states + states'[1..];
    assert forall i | |run| <= i < |both| :: both[i] == states'[i - |run|];
  }

  /** The oldest call that has not released can be granted, unless it holds the key already, and release. */
  lemma OldestPasses(s: Locks, j: nat) returns (run: seq<Event>, states: seq<Locks>)
    requires Inv(s) && j < |s.tickets| && AllReleased(s.tickets, 0, j, s.tickets[j].key)
    requires s.tickets[j].status == Waiting || s.tickets[j].status == Holding
    ensures Path(s, run, states) && states[|run|].tickets == SetStatus(s.tickets, j, Released)
  {
    if s.tickets[j].status == Holding {
      run, states := [Release(j)], [s, Step(s, Release(j))];
    } else {
      GrantableExactly(s, j);
      var s1 := Step(s, Grant(j));
      run, states := [Grant(j), Release(j)], [s, s1, Step(s1, Release(j))];
    }
  }

  /** Without a timeout before it, a waiting ticket can be granted: each holder ahead of it need
      only release. */
  lemma {:induction false} CanBeGranted(s: Locks, i: nat) returns (run: seq<Event>, states: seq<Locks>)
    requires Inv(s) && i < |s.tickets| && s.tickets[i].status == Waiting && NoTimeoutBefore(s, i)
    ensures Path(s, run, states) && i < |states[|run|].tickets| && states[|run|].tickets[i].status == Holding
    decreases Unreleased(s.tickets, i, s.tickets[i].key)
  {
    var j := Oldest(s.tickets, i, s.tickets[i].key);
    if j == i {
      GrantableExactly(s, i);
      run, states := [Grant(i)], [s, Step(s, Grant(i))];
    } else {
      var run0, states0 := OldestPasses(s, j);
      PathKeeps(s, run0, states0, |run0|);
      UnreleasedLess(s.tickets, j, i);
      var run1, states1 := CanBeGranted(states0[|run0|], i);
      PathsJoin(s, run0, states0, run1, states1);
      run, states := run0 + run1, states0 + states1[1..];
    }
  }

  /** Whether `acquire` can still succeed is decided by timeouts alone: a waiting ticket has a
      continuation in which it is granted exactly when no earlier ticket on its key timed out. */
  lemma GrantableEventuallyExactly(s: Locks, i: nat)
    requires Inv(s) && i < |s.tickets| && s.tickets[i].status == Waiting
    ensures NoTimeoutBefore(s, i) <==>
              exists run: seq<Event>, states: seq<Locks> ::
                Path(s, run, states) && i < |states[|run|].tickets| && states[|run|].tickets[i].status == Holding
  {
    if NoTimeoutBefore(s, i) {
      var run, states := CanBeGranted(s, i);
    } else {
      var p :| 0 <= p < i && s.tickets[p].key == s.tickets[i].key && s.tickets[p].status == TimedOut;
      forall run: seq<Event>, states: seq<Locks> | Path(s, run, states) && i < |states[|run|].tickets|
        ensures states[|run|].tickets[i].status != Holding
      {
        TicketsStay(s, run, states, |run|, i);
        TimeoutBlocks(s, run, states, |run|, p, i);
      }
    }
  }

  // ----- The program -------------------------------------------------------------------------------

  class Mutexes {
    var table: map<Key, nat>
    var cells: seq<Cell>
    var tickets: seq<Ticket>

    ghost function State(): Locks reads this {
      Locks(table, cells, tickets)
    }

    ghost predicate Valid() reads this {
      Inv(State())
    }

    constructor ()
      ensures Valid() && State() == EMPTY
      ensures table == map[] && tickets == []
    {
      table, cells, tickets := map[], [], [];
    }

    /** `acquire` up to its await. */
    method AcquireKey(key: Key) returns (id: nat)
      requires Valid()
      modifies this
      ensures State() == Step(old(State()), Acquire(key)) && Valid() && id == |old(tickets)|
      ensures |tickets| == id + 1 && tickets[..id] == old(tickets)
      ensures tickets[id].key == key && tickets[id].status == Waiting
      ensures tickets[id].prev == if key in old(table) then old(cells)[old(table)[key]].chain else Resolved
      ensures key in table && table == old(table)[key := table[key]] && cells[table[key]].chain == Of(id)
      ensures cells[table[key]].waiters == 1 + if key in old(table) then old(cells)[old(table)[key]].waiters else 0
    {
      StepKeeps(State(), Acquire(key));
      var current: nat;
      if key in table {
        current := table[key];
      } else {
        current := |cells|;
        cells := cells + [Cell(Resolved, 0)];
      }
      cells := cells[current := cells[current].(waiters := cells[current].waiters + 1)];
      table := table[key := current];
      id := |tickets|;
      var previousChain := cells[current].chain;
      cells := cells[current := cells[current].(chain := Of(id))];
      tickets := tickets + [Ticket(key, current, previousChain, Waiting)];
    }

    /** The continuation of `acquire` once the promise it awaits is resolved: it returns its handle. */
    method Proceed(id: nat)
      requires Valid() && Enabled(State(), Grant(id))
      modifies this
      ensures Valid() && State() == Step(old(State()), Grant(id))
      ensures tickets == old(tickets)[id := old(tickets)[id].(status := Holding)]
      ensures table == old(table) && cells == old(cells)
    {
      StepKeeps(State(), Grant(id));
      tickets := SetStatus(tickets, id, Holding);
    }

    /** The timer of `waitWithTimeout`: the call throws, nothing else changes. */
    method Expire(id: nat)
      requires Valid() && Enabled(State(), Timeout(id))
      modifies this
      ensures Valid() && State() == Step(old(State()), Timeout(id))
      ensures tickets == old(tickets)[id := old(tickets)[id].(status := TimedOut)]
      ensures table == old(table) && cells == old(cells)
    {
      StepKeeps(State(), Timeout(id));
      tickets := SetStatus(tickets, id, TimedOut);
    }

    /** `release` of the handle of ticket `id`. */
    method ReleaseHandle(id: nat)
      requires Valid() && Enabled(State(), Release(id))
      modifies this
      ensures Valid() && State() == Step(old(State()), Release(id))
      ensures tickets == old(tickets)[id := old(tickets)[id].(status := Released)]
      ensures old(tickets)[id].status == Released ==> table == old(table) && cells == old(cells)
      ensures var t := old(tickets)[id];
              t.status != Released ==>
                && cells == old(cells)[t.cell := old(cells)[t.cell].(waiters := old(cells)[t.cell].waiters - 1)]
                && table == if old(cells)[t.cell].waiters == 1 then old(table) - {t.key} else old(table)
    {
      StepKeeps(State(), Release(id));
      if tickets[id].status == Released { return; }
      var t := tickets[id];
      cells := cells[t.cell := cells[t.cell].(waiters := cells[t.cell].waiters - 1)];
      if cells[t.cell].waiters == 0 { table := table - {t.key}; }
      tickets := SetStatus(tickets, id, Released);
    }

    method Waiters(key: Key) returns (n: int)
      requires Valid()
      ensures n == |UnreleasedAt(tickets, |tickets|, key)|
    {
      UnreleasedCounted(tickets, |tickets|, key);
      assert KeyFine(State(), key);
      if key in table { n := cells[table[key]].waiters; } else { n := 0; }
    }

    method HasActiveLocks() returns (b: bool)
      requires Valid()
      ensures b <==> exists i | 0 <= i < |tickets| :: tickets[i].status != Released
    {
      b := |table| > 0;
      if b {
        var k :| k in table;
        EntryExactly(State(), k);
      } else {
        forall i | 0 <= i < |tickets| ensures tickets[i].status == Released {
          EntryExactly(State(), tickets[i].key);
          assert table == map[];
        }
      }
    }
  }
}
