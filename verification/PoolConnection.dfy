/** One pooled connection of `src/bridge/pool.ts`: calls, the lines of the backend, and closing.

    Writing to the transport and closing are steps of their own: the model has no transport that calls
    back while it is being written to. What a line parses to is a parameter. A promise keeps the first
    outcome it gets. */
module PoolConnection {
  import opened Framing

  /** `JSON.parse` of a line. Identifiers that are not natural numbers match no call. */
  datatype Message = Malformed | NullMessage | NoId | ForeignId | Response(id: nat, failed: bool, body: string)

  datatype Write = Sent | Refused | Threw
  datatype Closing = Unexpected | Internal
  datatype Reason = Backend(message: string) | WriteFailed | WriteThrew | Closed(closing: Closing)
  datatype Outcome = Resolved(body: string) | Rejected(reason: Reason)
  datatype Fate = Open | Settled(outcome: Outcome)

  datatype Conn = Conn(pending: set<nat>, nextId: nat, closed: bool, settled: map<nat, Outcome>)

  const NEW := Conn({}, 1, false, map[])

  datatype Event = Call(write: Write) | Line(line: string) | Close(closing: Closing)

  function Settle(settled: map<nat, Outcome>, id: nat, o: Outcome): map<nat, Outcome> {
    if id in settled then settled else settled[id := o]
  }

  function Answer(failed: bool, body: string): Outcome {
    if failed then Rejected(Backend(body)) else Resolved(body)
  }

  function Place(s: Conn, w: Write): Conn {
    if s.closed then s
    else
      var s' := s.(nextId := s.nextId + 1);
      match w
      case Sent => s'.(pending := s.pending + {s.nextId})
      case Refused => s'.(settled := Settle(s.settled, s.nextId, Rejected(WriteFailed)))
      case Threw => s'.(pending := s.pending + {s.nextId}, settled := Settle(s.settled, s.nextId, Rejected(WriteThrew)))
  }

  function Receive(s: Conn, m: Message): Conn {
    if m.Response? && m.id in s.pending then
      s.(pending := s.pending - {m.id}, settled := Settle(s.settled, m.id, Answer(m.failed, m.body)))
    else s
  }

  function RejectAll(s: Conn, ids: set<nat>, o: Outcome): map<nat, Outcome> {
    s.settled + map id | id in ids && id !in s.settled :: o
  }

  lemma RejectNext(s: Conn, ids: set<nat>, id: nat, o: Outcome)
    ensures RejectAll(s, ids + {id}, o) == Settle(RejectAll(s, ids, o), id, o)
  {
  }

  function Shut(s: Conn, c: Closing): Conn {
    if s.closed then s
    else s.(closed := true, pending := {}, settled := RejectAll(s, s.pending, Rejected(Closed(c))))
  }

  function Next(parse: string -> Message, s: Conn, e: Event): Conn {
    match e
    case Call(w) => Place(s, w)
    case Line(l) => Receive(s, parse(l))
    case Close(c) => Shut(s, c)
  }

  // ----- Runs --------------------------------------------------------------------------------------

  ghost predicate IsRun(parse: string -> Message, run: seq<Event>, states: seq<Conn>) {
    && |states| == |run| + 1 && states[0] == NEW
    && forall i | 0 <= i < |run| :: states[i + 1] == Next(parse, states[i], run[i])
  }

  /** Every issued call is waiting or settled, and both only if its write threw; nothing waits on a
      closed connection. */
  ghost predicate Accounted(s: Conn) {
    && s.nextId >= 1
    && (forall id :: 1 <= id < s.nextId <==> id in s.pending || id in s.settled)
    && (forall id | id in s.pending && id in s.settled :: s.settled[id] == Rejected(WriteThrew))
    && (s.closed ==> s.pending == {})
  }

  lemma {:induction false} AlwaysAccounted(parse: string -> Message, run: seq<Event>, states: seq<Conn>, n: nat)
    requires IsRun(parse, run, states) && n <= |run|
    ensures Accounted(states[n])
  {
    if n == 0 {
    } else {
      AlwaysAccounted(parse, run, states, n - 1);
    }
  }

  /** An outcome is final. */
  lemma {:induction false} OutcomeIsFinal(
    parse: string -> Message, run: seq<Event>, states: seq<Conn>, m: nat, n: nat, id: nat)
    requires IsRun(parse, run, states) && m <= n <= |run| && id in states[m].settled
    ensures id in states[n].settled && states[n].settled[id] == states[m].settled[id]
  {
    if m == n {
    } else {
      OutcomeIsFinal(parse, run, states, m, n - 1, id);
    }
  }

  /** A closed connection has no waiting call, never gets one and issues no identifier. */
  lemma {:induction false} ClosedForGood(parse: string -> Message, run: seq<Event>, states: seq<Conn>, m: nat, n: nat)
    requires IsRun(parse, run, states) && m <= n <= |run| && states[m].closed
    ensures states[n] == states[m] && states[n].pending == {}
  {
    AlwaysAccounted(parse, run, states, m);
    if m == n {
    } else {
      ClosedForGood(parse, run, states, m, n - 1);
    }
  }

  // ----- What decides a call -------------------------------------------------------------------------

  /** What one event decides about a waiting call. */
  function Decides(parse: string -> Message, e: Event, id: nat): Fate {
    match e
    case Call(_) => Open
    case Line(l) =>
      var m := parse(l);
      if m.Response? && m.id == id then Settled(Answer(m.failed, m.body)) else Open
    case Close(c) => Settled(Rejected(Closed(c)))
  }

  /** The first decision on `id` among the events from `i` up to, not including, `n`. */
  function Verdict(parse: string -> Message, run: seq<Event>, i: nat, n: nat, id: nat): Fate
    requires n <= |run|
  {
    if n <= i then Open
    else
      var before := Verdict(parse, run, i, n - 1, id);
      if before != Open then before else Decides(parse, run[n - 1], id)
  }

  function FateOf(s: Conn, id: nat): Fate {
    if id in s.settled then Settled(s.settled[id]) else Open
  }

  /** A call that was sent is settled by the first response that carries its identifier or by closing,
      whichever comes first, and by nothing else: later responses change nothing. */
  lemma {:induction false} FirstDecides(parse: string -> Message, run: seq<Event>, states: seq<Conn>, j: nat, n: nat)
    requires IsRun(parse, run, states) && j < n <= |run|
    requires run[j] == Call(Sent) && !states[j].closed
    ensures var id := states[j].nextId;
            && FateOf(states[n], id) == Verdict(parse, run, j + 1, n, id)
            && (id in states[n].pending <==> FateOf(states[n], id) == Open)
            && id < states[n].nextId
  {
    AlwaysAccounted(parse, run, states, n - 1);
    if n == j + 1 {
    } else {
      FirstDecides(parse, run, states, j, n - 1);
    }
  }

  /** A response with the identifier of the call, or a close. */
  predicate IsDecisive(parse: string -> Message, e: Event, id: nat) {
    e.Close? || (e.Line? && parse(e.line).Response? && parse(e.line).id == id)
  }

  /** The first decisive event: an error response rejects the call with its message, any other response resolves
      it with its result, a close rejects it; and before that the call waits. */
  lemma {:induction false} DecidedBy(
    parse: string -> Message, run: seq<Event>, states: seq<Conn>, j: nat, k: nat, n: nat)
    requires IsRun(parse, run, states) && j < n <= |run|
    requires run[j] == Call(Sent) && !states[j].closed
    requires j < k && forall i | j < i < k && i < n :: !IsDecisive(parse, run[i], states[j].nextId)
    requires k < n ==> IsDecisive(parse, run[k], states[j].nextId)
    ensures var (id, s) := (states[j].nextId, states[n]);
            if k < n then
              && id in s.settled && id !in s.pending
              && s.settled[id] == match run[k]
                                  case Close(c) => Rejected(Closed(c))
                                  case Line(l) =>
                                    if parse(l).failed then Rejected(Backend(parse(l).body))
                                    else Resolved(parse(l).body)
                                  case Call(_) => Rejected(WriteFailed)
            else id in s.pending && id !in s.settled
    decreases n
  {
    AlwaysAccounted(parse, run, states, n - 1);
    FirstDecides(parse, run, states, j, n);
    if n == j + 1 {
    } else {
      DecidedBy(parse, run, states, j, k, n - 1);
      FirstDecides(parse, run, states, j, n - 1);
      if k < n - 1 { OutcomeIsFinal(parse, run, states, n - 1, n, states[j].nextId); }
    }
  }

  /** A call whose write failed is rejected for that, whatever arrives later. */
  lemma FailedWriteDecides(parse: string -> Message, run: seq<Event>, states: seq<Conn>, j: nat, n: nat, w: Write)
    requires IsRun(parse, run, states) && j < n <= |run|
    requires run[j] == Call(w) && w != Sent && !states[j].closed
    ensures FateOf(states[n], states[j].nextId) == Settled(Rejected(if w == Refused then WriteFailed else WriteThrew))
  {
    AlwaysAccounted(parse, run, states, j);
    OutcomeIsFinal(parse, run, states, j + 1, n, states[j].nextId);
  }

  /** When a call is in the map of waiting calls: from its write, unless that was refused, up to the first
      response with its identifier or the first close. */
  lemma {:induction false} PendingExactly(
    parse: string -> Message, run: seq<Event>, states: seq<Conn>, j: nat, n: nat, w: Write)
    requires IsRun(parse, run, states) && j < n <= |run|
    requires run[j] == Call(w) && !states[j].closed
    ensures var id := states[j].nextId;
            && (id in states[n].pending <==> w != Refused && Verdict(parse, run, j + 1, n, id) == Open)
            && id < states[n].nextId
  {
    AlwaysAccounted(parse, run, states, n - 1);
    if n == j + 1 {
    } else {
      PendingExactly(parse, run, states, j, n - 1, w);
    }
  }

  /** A call is in exactly one of the two maps, waiting or settled, except while its write threw and neither a
      response with its identifier nor a close has come since: then it is in both, and rejected. */
  lemma ExactlyOneUnlessThrown(parse: string -> Message, run: seq<Event>, states: seq<Conn>, j: nat, n: nat, w: Write)
    requires IsRun(parse, run, states) && j < n <= |run|
    requires run[j] == Call(w) && !states[j].closed
    ensures var (id, s) := (states[j].nextId, states[n]);
            && (id in s.pending || id in s.settled)
            && (id in s.pending && id in s.settled <==> w == Threw && Verdict(parse, run, j + 1, n, id) == Open)
            && (w == Threw ==> id in s.settled && s.settled[id] == Rejected(WriteThrew))
  {
    PendingExactly(parse, run, states, j, n, w);
    AlwaysAccounted(parse, run, states, n);
    if w == Sent {
      FirstDecides(parse, run, states, j, n);
    } else {
      FailedWriteDecides(parse, run, states, j, n, w);
    }
  }

  // ----- The program ---------------------------------------------------------------------------------

  function Lines(parse: string -> Message, s: Conn, ls: seq<string>): Conn {
    if ls == [] then s else Next(parse, Lines(parse, s, ls[..|ls| - 1]), Line(ls[|ls| - 1]))
  }

  /** Handling `null` throws. */
  function Throwing(parse: string -> Message): string -> bool {
    l => parse(l).NullMessage?
  }

  lemma ConsumeNext(throws: string -> bool, s: string)
    requires IndexOf(s) >= 0
    ensures var i := IndexOf(s);
            var line := Trim(s[..i]);
            var here := if line == "" then [] else [line];
            Consume(throws, s) ==
              if line != "" && throws(line) then Reader(here + [], s[i + 1..])
              else Reader(here + Consume(throws, s[i + 1..]).delivered, Consume(throws, s[i + 1..]).buffer)
  {
    CleanOne(s[..IndexOf(s)]);
  }

  /** `done` and what `r` still delivers make up `all`. */
  ghost predicate Ahead(all: Reader, done: seq<string>, r: Reader) {
    all == Reader(done + r.delivered, r.buffer)
  }

  lemma Regather(all: Reader, done: seq<string>, here: seq<string>, r: Reader)
    requires Ahead(all, done, Reader(here + r.delivered, r.buffer))
    ensures Ahead(all, done + here, r)
  {
    assert done + (here + r.delivered) == (done + here) + r.delivered;
  }

  lemma OneLine(throws: string -> bool, all: Reader, done: seq<string>, s: string)
    requires IndexOf(s) >= 0 && Ahead(all, done, Consume(throws, s))
    ensures var line, rest := Trim(s[..IndexOf(s)]), s[IndexOf(s) + 1..];
            && (line == "" ==> Ahead(all, done, Consume(throws, rest)))
            && (line != "" && throws(line) ==> all == Reader(done + [line], rest))
            && (line != "" && !throws(line) ==> Ahead(all, done + [line], Consume(throws, rest)))
  {
    ConsumeNext(throws, s);
    var line, rest := Trim(s[..IndexOf(s)]), s[IndexOf(s) + 1..];
    if line == "" {
      Regather(all, done, [], Consume(throws, rest));
      assert done + [] == done;
    } else if throws(line) {
      Regather(all, done, [line], Reader([], rest));
      assert done + [line] + [] == done + [line];
    } else {
      Regather(all, done, [line], Consume(throws, rest));
    }
  }

  ghost predicate NoNull(parse: string -> Message, lines: seq<string>) {
    forall j | 0 <= j < |lines| :: !parse(lines[j]).NullMessage?
  }

  /** The loop has handled `done`, which brought the connection from `s0` to `s`, and `buffer` is left; `all` is what
      it will have done in the end. */
  ghost predicate Handling(
    parse: string -> Message, s0: Conn, s: Conn, all: Reader, done: seq<string>, buffer: string)
  {
    Ahead(all, done, Consume(Throwing(parse), buffer)) && s == Lines(parse, s0, done) && NoNull(parse, done)
  }

  lemma LineHandled(parse: string -> Message, s0: Conn, s: Conn, all: Reader, done: seq<string>, buffer: string)
    requires IndexOf(buffer) >= 0 && Handling(parse, s0, s, all, done, buffer)
    ensures var line, rest := Trim(buffer[..IndexOf(buffer)]), buffer[IndexOf(buffer) + 1..];
            var s' := Next(parse, s, Line(line));
            if line == "" then Handling(parse, s0, s, all, done, rest)
            else if parse(line).NullMessage? then
              s' == s && all == Reader(done + [line], rest) && s == Lines(parse, s0, all.delivered)
            else Handling(parse, s0, s', all, done + [line], rest)
  {
    var line := Trim(buffer[..IndexOf(buffer)]);
    OneLine(Throwing(parse), all, done, buffer);
    assert (done + [line])[..|done|] == done;
  }

  lemma AllHandled(parse: string -> Message, s0: Conn, s: Conn, all: Reader, done: seq<string>, buffer: string)
    requires IndexOf(buffer) == -1 && Handling(parse, s0, s, all, done, buffer)
    ensures all == Reader(done, buffer) && NEWLINE !in buffer
    ensures s == Lines(parse, s0, all.delivered) && (all.delivered != [] ==> !parse(Last(all.delivered)).NullMessage?)
  {
    assert done + [] == done;
    IndexIsFirst(buffer);
  }

  class InternalConnection {
    const parse: string -> Message
    var pending: set<nat>
    var nextRequestId: nat
    var lineBuffer: string
    var closed: bool
    ghost var settled: map<nat, Outcome>

    ghost function State(): Conn reads this {
      Conn(pending, nextRequestId, closed, settled)
    }

    constructor (parse: string -> Message)
      ensures State() == NEW && lineBuffer == "" && this.parse == parse
      ensures pending == {} && nextRequestId == 1 && !closed
    {
      this.parse := parse;
      pending, nextRequestId, lineBuffer, closed, settled := {}, 1, "", false, map[];
    }

    /** `_rpcCall`; `write` is what the transport answers. */
    method RpcCall(write: Write) returns (issued: bool)
      requires Accounted(State())
      modifies this
      ensures State() == Next(parse, old(State()), Call(write)) && lineBuffer == old(lineBuffer)
      ensures !old(closed) ==>
                && nextRequestId == old(nextRequestId) + 1
                && pending == old(pending) + (if write == Refused then {} else {old(nextRequestId)})
                && FateOf(State(), old(nextRequestId))
                == match write
                   case Sent => Open
                   case Refused => Settled(Rejected(WriteFailed))
                   case Threw => Settled(Rejected(WriteThrew))
      ensures issued == !old(closed)
    {
      if closed { return false; }
      var id := nextRequestId;
      nextRequestId := nextRequestId + 1;
      pending := pending + {id};
      if write == Refused {
        pending := pending - {id};
        settled := Settle(settled, id, Rejected(WriteFailed));
      } else if write == Threw {
        settled := Settle(settled, id, Rejected(WriteThrew));
      }
      issued := true;
    }

    /** The part of `_handleLine` for a message with an identifier. */
    method SettleCall(msg: Message)
      requires msg.Response?
      modifies this
      ensures State() == Receive(old(State()), msg) && lineBuffer == old(lineBuffer)
      ensures pending == old(pending) - {msg.id}
      ensures msg.id in old(pending) && msg.id !in old(settled) ==>
                settled == old(settled)[msg.id :=
                  if msg.failed then Rejected(Backend(msg.body)) else Resolved(msg.body)]
      ensures msg.id !in old(pending) || msg.id in old(settled) ==> settled == old(settled)
    {
      if msg.id in pending {
        pending := pending - {msg.id};
        settled := Settle(settled, msg.id, Answer(msg.failed, msg.body));
      }
    }

    /** `_handleLine`; `threw` tells whether it left by an exception. */
    method HandleLine(raw: string) returns (threw: bool)
      modifies this
      ensures var r := Consume(Throwing(parse), old(lineBuffer) + raw);
              && lineBuffer == r.buffer && State() == Lines(parse, old(State()), r.delivered)
              && (threw <==> r.delivered != [] && parse(Last(r.delivered)).NullMessage?)
              && (!threw ==> NEWLINE !in lineBuffer)
    {
      lineBuffer := lineBuffer + raw;
      ghost var all, done := Consume(Throwing(parse), lineBuffer), [];
      while IndexOf(lineBuffer) != -1
        invariant Handling(parse, old(State()), State(), all, done, lineBuffer)
        decreases |lineBuffer|
      {
        LineHandled(parse, old(State()), State(), all, done, lineBuffer);
        var nl := IndexOf(lineBuffer);
        var line := Trim(lineBuffer[..nl]);
        lineBuffer := lineBuffer[nl + 1..];
        if line == "" { continue; }
        done := done + [line];
        var msg := parse(line);
        if msg.Malformed? { continue; }
        if msg.NullMessage? { return true; }
        if msg.Response? { SettleCall(msg); }
      }
      AllHandled(parse, old(State()), State(), all, done, lineBuffer);
      threw := false;
    }

    /** `_handleClose` and `_closeInternal`: both reject the waiting calls one by one. */
    method CloseConnection(c: Closing)
      modifies this
      ensures State() == Next(parse, old(State()), Close(c)) && lineBuffer == old(lineBuffer)
      ensures closed && (!old(closed) ==> pending == {})
      ensures forall id :: id in settled <==> id in old(settled) || (!old(closed) && id in old(pending))
      ensures forall id | id in settled ::
                settled[id] == if id in old(settled) then old(settled)[id] else Rejected(Closed(c))
    {
      if closed { return; }
      closed := true;
      var rest := pending;
      ghost var s := old(State());
      assert settled == RejectAll(s, pending - rest, Rejected(Closed(c)));
      while rest != {}
        invariant rest <= pending == s.pending && closed && nextRequestId == s.nextId && lineBuffer == old(lineBuffer)
        invariant settled == RejectAll(s, pending - rest, Rejected(Closed(c)))
        decreases rest
      {
        var id :| id in rest;
        RejectNext(s, pending - rest, id, Rejected(Closed(c)));
        assert pending - (rest - {id}) == (pending - rest) + {id};
        settled := Settle(settled, id, Rejected(Closed(c)));
        rest := rest - {id};
      }
      assert pending - {} == pending;
      pending := {};
    }
  }
}
