/** Newline framing of a character stream that arrives in chunks: the `split`/`pop` reader of
    `src/daemon/client.ts` and the `indexOf` loop of `src/bridge/pool.ts`.

    A handler in the loop of the pool can throw (the JSON value `null` has no `id`); what was not yet
    consumed then stays in the buffer until the next chunk. The client catches such errors. */
module Framing {
  import opened Sublists

  const NEWLINE := '\n'

  /** What `trim` removes: white space and line terminators. */
  predicate IsSpace(c: char) {
    || '\t' <= c <= '\r' || c == ' ' || c == '\U{A0}' || c == '\U{1680}'
    || '\U{2000}' <= c <= '\U{200A}' || c == '\U{2028}' || c == '\U{2029}'
    || c == '\U{202F}' || c == '\U{205F}' || c == '\U{3000}' || c == '\U{FEFF}'
  }

  /** The characters of white space and the line terminators of ECMA-262, sections 12.2 and 12.3, one by one. */
  lemma SpacesAre(c: char)
    ensures IsSpace(c) <==>
              c as int in {9, 10, 11, 12, 13, 32, 0xA0, 0x1680, 0x2000, 0x2001, 0x2002, 0x2003, 0x2004, 0x2005, 0x2006,
                           0x2007, 0x2008, 0x2009, 0x200A, 0x2028, 0x2029, 0x202F, 0x205F, 0x3000, 0xFEFF}
  {
  }

  function FirstKept(s: string, i: nat): (r: nat)
    requires i <= |s|
    ensures i <= r <= |s|
    decreases |s| - i
  {
    if i < |s| && IsSpace(s[i]) then FirstKept(s, i + 1) else i
  }

  function AfterKept(s: string, lo: nat, j: nat): (r: nat)
    requires lo <= j <= |s|
    ensures lo <= r <= j
  {
    if lo < j && IsSpace(s[j - 1]) then AfterKept(s, lo, j - 1) else j
  }

  function Trim(s: string): string {
    var lo := FirstKept(s, 0);
    s[lo..AfterKept(s, lo, |s|)]
  }

  predicate AllSpace(s: string) { forall i | 0 <= i < |s| :: IsSpace(s[i]) }

  /** `line` is `piece` without the white space around it. */
  ghost predicate IsTrimmed(piece: string, line: string) {
    && (exists a, b :: piece == a + line + b && AllSpace(a) && AllSpace(b))
    && (line != "" ==> !IsSpace(line[0]) && !IsSpace(line[|line| - 1]))
  }

  lemma {:induction false} KeptIsFirst(s: string, i: nat)
    requires i <= |s|
    ensures AllSpace(s[i..FirstKept(s, i)]) && (FirstKept(s, i) < |s| ==> !IsSpace(s[FirstKept(s, i)]))
    decreases |s| - i
  {
    var r := FirstKept(s, i);
    if i == |s| || !IsSpace(s[i]) {
    } else {
      KeptIsFirst(s, i + 1);
      assert s[i..r] == [s[i]] + s[i + 1..r];
    }
  }

  lemma {:induction false} KeptIsLast(s: string, lo: nat, j: nat)
    requires lo <= j <= |s|
    ensures var r := AfterKept(s, lo, j); AllSpace(s[r..j]) && (r > lo ==> !IsSpace(s[r - 1]))
  {
    var r := AfterKept(s, lo, j);
    if lo == j || !IsSpace(s[j - 1]) {
    } else {
      KeptIsLast(s, lo, j - 1);
      assert s[r..j] == s[r..j - 1] + [s[j - 1]];
    }
  }

  /** `Trim` takes away white space on both sides and nothing else. */
  lemma TrimIs(s: string)
    ensures IsTrimmed(s, Trim(s))
    ensures Trim(s) == "" <==> AllSpace(s)
  {
    var lo := FirstKept(s, 0);
    var hi := AfterKept(s, lo, |s|);
    KeptIsFirst(s, 0);
    KeptIsLast(s, lo, |s|);
    assert s[0..lo] == s[..lo] && s[hi..|s|] == s[hi..];
    CutTrims(s, lo, hi);
  }

  lemma CutTrims(s: string, lo: nat, hi: nat)
    requires lo <= hi <= |s| && AllSpace(s[..lo]) && AllSpace(s[hi..])
    requires lo < |s| ==> !IsSpace(s[lo])
    requires lo < hi ==> !IsSpace(s[hi - 1])
    ensures IsTrimmed(s, s[lo..hi]) && (s[lo..hi] == "" <==> AllSpace(s))
  {
    assert s == s[..lo] + s[lo..hi] + s[hi..];
    if lo == hi {
      assert s == s[..lo] + s[hi..];
    }
  }

  /** There is only one such line. */
  lemma TrimmedUnique(piece: string, line: string, other: string)
    requires IsTrimmed(piece, line) && IsTrimmed(piece, other)
    ensures line == other
  {
    var a, b :| piece == a + line + b && AllSpace(a) && AllSpace(b);
    var c, d :| piece == c + other + d && AllSpace(c) && AllSpace(d);
    if line != "" {
      assert piece[|a|] == line[0] && piece[|a| + |line| - 1] == line[|line| - 1];
    }
    if other != "" {
      assert piece[|c|] == other[0] && piece[|c| + |other| - 1] == other[|other| - 1];
    }
    SpaceEnds(piece, a, line, b);
    SpaceEnds(piece, c, other, d);
    if line != "" && other != "" {
      assert |a| == |c| && |b| == |d|;
      assert line == piece[|a|..|piece| - |b|] == other;
    }
  }

  lemma SpaceEnds(piece: string, a: string, line: string, b: string)
    requires piece == a + line + b && AllSpace(a) && AllSpace(b)
    ensures forall i | 0 <= i < |a| || |a| + |line| <= i < |piece| :: IsSpace(piece[i])
  {
  }

  function Find(s: string, i: nat): (r: int)
    requires i <= |s|
    ensures r == -1 || (i <= r < |s| && s[r] == NEWLINE)
    decreases |s| - i
  {
    if i == |s| then -1 else if s[i] == NEWLINE then i else Find(s, i + 1)
  }

  /** `indexOf('\n')`. */
  function IndexOf(s: string): (i: int)
    ensures i == -1 || (0 <= i < |s| && s[i] == NEWLINE)
  {
    Find(s, 0)
  }

  lemma {:induction false} FindIs(s: string, i: nat, n: nat)
    requires i <= n <= |s| && NEWLINE !in s[i..n] && (n < |s| ==> s[n] == NEWLINE)
    ensures Find(s, i) == if n < |s| then n else -1
    decreases n - i
  {
    if i == n {
    } else {
      assert s[i] == s[i..n][0] && s[i..n][1..] == s[i + 1..n];
      FindIs(s, i + 1, n);
    }
  }

  lemma {:induction false} FindIsFirst(s: string, i: nat)
    requires i <= |s|
    ensures NEWLINE !in s[i..if Find(s, i) == -1 then |s| else Find(s, i)]
    decreases |s| - i
  {
    if i == |s| || s[i] == NEWLINE {
    } else {
      var n := if Find(s, i) == -1 then |s| else Find(s, i);
      FindIsFirst(s, i + 1);
      assert s[i..n] == [s[i]] + s[i + 1..n];
    }
  }

  lemma IndexIsFirst(s: string)
    ensures IndexOf(s) == -1 <==> NEWLINE !in s
    ensures IndexOf(s) >= 0 ==> NEWLINE !in s[..IndexOf(s)]
  {
    FindIsFirst(s, 0);
    assert s[0..|s|] == s;
  }

  /** `split('\n')`. */
  function Split(s: string): (ls: seq<string>)
    ensures |ls| > 0
  {
    var i := IndexOf(s);
    if i == -1 then [s] else [s[..i]] + Split(s[i + 1..])
  }

  lemma SplitAt(piece: string, rest: string)
    requires NEWLINE !in piece
    ensures Split(piece + [NEWLINE] + rest) == [piece] + Split(rest)
  {
    var s := piece + [NEWLINE] + rest;
    assert s[0..|piece|] == piece;
    FindIs(s, 0, |piece|);
    assert s[..|piece|] == piece && s[|piece| + 1..] == rest;
  }

  function Join(ls: seq<string>): string {
    if ls == [] then "" else if |ls| == 1 then ls[0] else ls[0] + [NEWLINE] + Join(ls[1..])
  }

  function Init(ls: seq<string>): seq<string>
    requires |ls| > 0
  {
    ls[..|ls| - 1]
  }

  function Last(ls: seq<string>): string
    requires |ls| > 0
  {
    ls[|ls| - 1]
  }

  function Clean(ls: seq<string>): seq<string> {
    if ls == [] then []
    else Clean(Init(ls)) + (if Trim(Last(ls)) == "" then [] else [Trim(Last(ls))])
  }

  function Flatten(chunks: seq<string>): string {
    if chunks == [] then "" else Flatten(chunks[..|chunks| - 1]) + chunks[|chunks| - 1]
  }

  /** Pieces without newlines. */
  ghost predicate Pieces(ls: seq<string>) {
    forall i | 0 <= i < |ls| :: NEWLINE !in ls[i]
  }

  lemma PiecesCons(piece: string, ls: seq<string>)
    requires NEWLINE !in piece
    ensures Pieces([piece] + ls) <==> Pieces(ls)
  {
    if Pieces([piece] + ls) {
      forall i | 0 <= i < |ls| ensures NEWLINE !in ls[i] { assert ls[i] == ([piece] + ls)[i + 1]; }
    }
  }

  lemma Cut(s: string)
    requires IndexOf(s) >= 0
    ensures s == s[..IndexOf(s)] + [NEWLINE] + s[IndexOf(s) + 1..]
  {
  }

  lemma JoinCons(piece: string, ls: seq<string>)
    requires |ls| > 0
    ensures Join([piece] + ls) == piece + [NEWLINE] + Join(ls)
  {
    assert ([piece] + ls)[1..] == ls;
  }

  /** The first piece of a text with a newline, and what follows it. */
  lemma CutFirst(s: string) returns (piece: string, rest: string)
    requires NEWLINE in s
    ensures NEWLINE !in piece && s == piece + [NEWLINE] + rest
  {
    IndexIsFirst(s);
    piece, rest := s[..IndexOf(s)], s[IndexOf(s) + 1..];
    Cut(s);
  }

  lemma SplitNothing(s: string)
    requires NEWLINE !in s
    ensures Split(s) == [s]
  {
    IndexIsFirst(s);
  }

  ghost predicate IsCut(s: string) {
    Join(Split(s)) == s && Pieces(Split(s))
  }

  lemma CutsAt(piece: string, rest: string)
    requires NEWLINE !in piece && IsCut(rest)
    ensures IsCut(piece + [NEWLINE] + rest)
  {
    SplitAt(piece, rest);
    PiecesCons(piece, Split(rest));
    JoinCons(piece, Split(rest));
  }

  /** `Split` cuts `s` at its newlines, losing and adding nothing. */
  lemma {:induction false} SplitCuts(s: string)
    ensures IsCut(s)
    decreases |s|
  {
    if NEWLINE !in s {
      SplitNothing(s);
    } else {
      var piece, rest := CutFirst(s);
      SplitCuts(rest);
      CutsAt(piece, rest);
    }
  }

  /** It is the only way to do so. */
  lemma {:induction false} SplitUnique(ls: seq<string>)
    requires |ls| > 0 && Pieces(ls)
    ensures Split(Join(ls)) == ls
  {
    if |ls| == 1 {
      IndexIsFirst(ls[0]);
    } else {
      assert ls == [ls[0]] + ls[1..];
      PiecesCons(ls[0], ls[1..]);
      SplitUnique(ls[1..]);
      SplitAt(ls[0], Join(ls[1..]));
    }
  }

  lemma Regroup(front: seq<string>, r: seq<string>, t: seq<string>)
    requires |r| > 0
    ensures front + (Init(r) + t) == Init(front + r) + t && Last(front + r) == Last(r)
  {
  }

  /** What follows `a` only continues its last piece. */
  lemma {:induction false} SplitAppend(a: string, b: string)
    ensures Split(a + b) == Init(Split(a)) + Split(Last(Split(a)) + b)
    decreases |a|
  {
    if NEWLINE !in a {
      SplitNothing(a);
    } else {
      var piece, rest := CutFirst(a);
      assert a + b == piece + [NEWLINE] + (rest + b);
      SplitAt(piece, rest);
      SplitAt(piece, rest + b);
      SplitAppend(rest, b);
      Regroup([piece], Split(rest), Split(Last(Split(rest)) + b));
    }
  }

  lemma CleanOne(piece: string)
    ensures Clean([piece]) == if Trim(piece) == "" then [] else [Trim(piece)]
  {
    assert Init([piece]) == [];
    assert Clean([]) == [];
  }

  lemma {:induction false} CleanAppend(a: seq<string>, b: seq<string>)
    ensures Clean(a + b) == Clean(a) + Clean(b)
  {
    if b == [] {
      assert a + b == a;
    } else {
      assert Init(a + b) == a + Init(b);
      CleanAppend(a, Init(b));
    }
  }

  /** The positions of the pieces that are not all white space. */
  function Filled(pieces: seq<string>): set<nat> { set i: nat | i < |pieces| && !AllSpace(pieces[i]) }

  /** `lines` are those pieces, in order, each without the white space around it. */
  ghost predicate Delivered(pieces: seq<string>, lines: seq<string>) {
    var kept := Pick(pieces, Filled(pieces));
    |lines| == |kept| && forall j | 0 <= j < |lines| :: IsTrimmed(kept[j], lines[j])
  }

  lemma {:induction false} CleanDelivers(ls: seq<string>)
    ensures Delivered(ls, Clean(ls))
  {
    if ls == [] {
    } else {
      CleanDelivers(Init(ls));
      PickNext(Init(ls), Last(ls), Filled(Init(ls)), Filled(ls));
      assert ls == Init(ls) + [Last(ls)];
      TrimIs(Last(ls));
    }
  }

  lemma {:induction false} CleanHarmless(throws: string -> bool, ls: seq<string>)
    requires forall j | 0 <= j < |ls| :: !Stops(throws, ls[j])
    ensures forall j | 0 <= j < |Clean(ls)| :: !throws(Clean(ls)[j])
  {
    if ls == [] {
    } else {
      CleanHarmless(throws, Init(ls));
      assert !Stops(throws, Last(ls));
    }
  }

  // ----- The client -------------------------------------------------------------------------------

  /** The lines delivered so far and the buffer. */
  datatype Reader = Reader(delivered: seq<string>, buffer: string)

  const FRESH := Reader([], "")

  function ClientStep(r: Reader, chunk: string): Reader {
    var ls := Split(r.buffer + chunk);
    Reader(r.delivered + Clean(Init(ls)), Last(ls))
  }

  function ClientRun(chunks: seq<string>): Reader {
    if chunks == [] then FRESH else ClientStep(ClientRun(chunks[..|chunks| - 1]), chunks[|chunks| - 1])
  }

  /** The complete lines of the stream, trimmed and without the empty ones, and what follows them. */
  function Whole(stream: string): Reader {
    Reader(Clean(Init(Split(stream))), Last(Split(stream)))
  }

  /** However the stream is cut into chunks, the client delivers the lines of the whole stream. */
  lemma {:induction false} ClientReadsWhole(chunks: seq<string>)
    ensures ClientRun(chunks) == Whole(Flatten(chunks)) && NEWLINE !in ClientRun(chunks).buffer
  {
    if chunks == [] {
    } else {
      var before, chunk := chunks[..|chunks| - 1], chunks[|chunks| - 1];
      ClientReadsWhole(before);
      StepReads(Flatten(before), chunk);
    }
    SplitCuts(Flatten(chunks));
  }

  /** What the client delivers of a stream, without naming how: of its pieces between newlines the complete
      ones that are not all white space, trimmed; the last piece stays in the buffer. */
  lemma ClientDelivers(chunks: seq<string>, pieces: seq<string>)
    requires pieces != [] && Pieces(pieces) && Join(pieces) == Flatten(chunks)
    ensures Delivered(Init(pieces), ClientRun(chunks).delivered) && ClientRun(chunks).buffer == Last(pieces)
  {
    ClientReadsWhole(chunks);
    SplitUnique(pieces);
    CleanDelivers(Init(pieces));
  }

  lemma StepReads(stream: string, chunk: string)
    ensures ClientStep(Whole(stream), chunk) == Whole(stream + chunk)
  {
    var a, b := Init(Split(stream)), Split(Last(Split(stream)) + chunk);
    SplitAppend(stream, chunk);
    assert Init(a + b) == a + Init(b);
    CleanAppend(a, Init(b));
  }

  // ----- The pool ---------------------------------------------------------------------------------

  /** `throws` are the lines whose handling throws. */
  predicate Stops(throws: string -> bool, piece: string) {
    Trim(piece) != "" && throws(Trim(piece))
  }

  /** The loop over `s`: the lines handled, the last of which may have thrown, and what is left. */
  function Consume(throws: string -> bool, s: string): Reader {
    var i := IndexOf(s);
    if i == -1 then Reader([], s)
    else if Stops(throws, s[..i]) then Reader(Clean([s[..i]]), s[i + 1..])
    else var r := Consume(throws, s[i + 1..]); r.(delivered := Clean([s[..i]]) + r.delivered)
  }

  function PoolStep(throws: string -> bool, r: Reader, chunk: string): Reader {
    var c := Consume(throws, r.buffer + chunk);
    Reader(r.delivered + c.delivered, c.buffer)
  }

  function PoolRun(throws: string -> bool, chunks: seq<string>): Reader {
    if chunks == [] then FRESH else PoolStep(throws, PoolRun(throws, chunks[..|chunks| - 1]), chunks[|chunks| - 1])
  }

  /** The first `k` pieces of `s` were consumed, the rest is in the buffer. */
  predicate Consumed(s: string, k: nat, r: Reader) {
    k < |Split(s)| && r.delivered == Clean(Split(s)[..k]) && r.buffer == Join(Split(s)[k..])
  }

  lemma ConsumedNext(piece: string, rest: string, k: nat, r: Reader)
    requires NEWLINE !in piece && Consumed(rest, k, r)
    ensures Consumed(piece + [NEWLINE] + rest, k + 1, r.(delivered := Clean([piece]) + r.delivered))
  {
    var ls := Split(rest);
    SplitAt(piece, rest);
    assert ([piece] + ls)[..k + 1] == [piece] + ls[..k] && ([piece] + ls)[k + 1..] == ls[k..];
    CleanAppend([piece], ls[..k]);
  }

  lemma ConsumedNothing(s: string)
    ensures Consumed(s, 0, Reader([], s))
  {
    SplitCuts(s);
    assert Split(s)[0..] == Split(s);
  }

  /** The loop stops at the first piece that makes the handler throw, or has no complete one left. */
  ghost predicate StopsAt(throws: string -> bool, ls: seq<string>, k: nat)
    requires k < |ls|
  {
    && (k + 1 < |ls| ==> k > 0 && Stops(throws, ls[k - 1]))
    && forall j | 0 <= j < k - 1 :: !Stops(throws, ls[j])
  }

  lemma StopsLater(throws: string -> bool, piece: string, rest: string, k: nat)
    requires NEWLINE !in piece && !Stops(throws, piece) && k < |Split(rest)| && StopsAt(throws, Split(rest), k)
    ensures k + 1 < |Split(piece + [NEWLINE] + rest)| && StopsAt(throws, Split(piece + [NEWLINE] + rest), k + 1)
  {
    SplitAt(piece, rest);
  }

  lemma {:induction false} ConsumeCuts(throws: string -> bool, s: string) returns (k: nat)
    ensures Consumed(s, k, Consume(throws, s)) && StopsAt(throws, Split(s), k)
  {
    IndexIsFirst(s);
    var i := IndexOf(s);
    if i == -1 {
      k := 0;
      ConsumedNothing(s);
    } else {
      var piece, rest := s[..i], s[i + 1..];
      Cut(s);
      if Stops(throws, piece) {
        k := 1;
        ConsumedNothing(rest);
        ConsumedNext(piece, rest, 0, Reader([], rest));
      } else {
        var k' := ConsumeCuts(throws, rest);
        k := k' + 1;
        ConsumedNext(piece, rest, k', Consume(throws, rest));
        StopsLater(throws, piece, rest, k');
      }
    }
  }

  /** Every one of `lines` but the last is handled without an exception. */
  ghost predicate HarmlessBefore(throws: string -> bool, lines: seq<string>) {
    forall j | 0 <= j < |lines| - 1 :: !throws(lines[j])
  }

  lemma LastThrows(throws: string -> bool, ls: seq<string>, k: nat)
    requires k < |ls| && StopsAt(throws, ls, k)
    ensures HarmlessBefore(throws, Clean(ls[..k]))
    ensures k + 1 < |ls| ==> Clean(ls[..k]) != [] && throws(Last(Clean(ls[..k])))
  {
    if k > 0 {
      var front, lines := Clean(ls[..k - 1]), Clean(ls[..k]);
      assert Init(ls[..k]) == ls[..k - 1] && Last(ls[..k]) == ls[k - 1];
      CleanHarmless(throws, ls[..k - 1]);
      assert |front| <= |lines| <= |front| + 1 && forall j | 0 <= j < |front| :: lines[j] == front[j];
    }
  }

  /** The pieces before the `k`th are handled, those that are not all white space and trimmed; the rest stays in
      the buffer; and unless only the last piece is left, the last line handled throws, and none before it. */
  ghost predicate HandledTo(throws: string -> bool, pieces: seq<string>, k: nat, r: Reader) {
    && k < |pieces| && Delivered(pieces[..k], r.delivered) && r.buffer == Join(pieces[k..])
    && (k + 1 < |pieces| ==> r.delivered != [] && throws(Last(r.delivered)))
    && HarmlessBefore(throws, r.delivered)
  }

  lemma ConsumeHandles(throws: string -> bool, s: string) returns (k: nat)
    ensures HandledTo(throws, Split(s), k, Consume(throws, s))
  {
    k := ConsumeCuts(throws, s);
    CleanDelivers(Split(s)[..k]);
    LastThrows(throws, Split(s), k);
  }

  /** What the loop of the pool does with a text, without naming how. */
  lemma ConsumeIs(throws: string -> bool, s: string, pieces: seq<string>) returns (k: nat)
    requires pieces != [] && Pieces(pieces) && Join(pieces) == s
    ensures HandledTo(throws, pieces, k, Consume(throws, s))
  {
    SplitUnique(pieces);
    k := ConsumeHandles(throws, s);
  }

  lemma JoinNewline(ls: seq<string>)
    requires |ls| > 1
    ensures NEWLINE in Join(ls)
  {
    assert Join(ls)[|ls[0]|] == NEWLINE;
  }

  /** No complete line of the stream but the last makes the handler throw. */
  predicate Harmless(throws: string -> bool, stream: string) {
    forall j | 0 <= j < |Split(stream)| - 2 :: !Stops(throws, Split(stream)[j])
  }

  /** A chunk leaves a complete line in the buffer exactly when handling throws on a line that is not
      the last complete one. */
  lemma LeavesLinesExactly(throws: string -> bool, s: string)
    ensures NEWLINE in Consume(throws, s).buffer <==> !Harmless(throws, s)
  {
    var k := ConsumeCuts(throws, s);
    SplitCuts(s);
    if k + 1 < |Split(s)| {
      JoinNewline(Split(s)[k..]);
      assert k - 1 < |Split(s)| - 2;
    } else {
      assert Split(s)[k..] == [Last(Split(s))];
    }
  }

  /** With buffer and chunks together nothing is lost, repeated or reordered, whatever throws. */
  lemma {:induction false} PoolConserves(throws: string -> bool, chunks: seq<string>) returns (k: nat)
    ensures Consumed(Flatten(chunks), k, PoolRun(throws, chunks))
  {
    if chunks == [] {
      k := 0;
      assert Split("") == [""];
    } else {
      var before, chunk := chunks[..|chunks| - 1], chunks[|chunks| - 1];
      var k0 := PoolConserves(throws, before);
      var ls, r := Split(Flatten(before)), PoolRun(throws, before);
      SplitRest(Flatten(before), k0, chunk);
      var k1 := ConsumeCuts(throws, r.buffer + chunk);
      k := k0 + k1;
      var all, rest := Split(Flatten(chunks)), Split(r.buffer + chunk);
      assert all == ls[..k0] + rest;
      assert all[..k] == ls[..k0] + rest[..k1] && all[k..] == rest[k1..];
      CleanAppend(ls[..k0], rest[..k1]);
    }
  }

  lemma RegroupAt(ls: seq<string>, k: nat, t: seq<string>)
    requires k < |ls|
    ensures Init(ls) + t == ls[..k] + (Init(ls[k..]) + t) && Last(ls[k..]) == Last(ls)
  {
    assert ls == ls[..k] + ls[k..];
    Regroup(ls[..k], ls[k..], t);
  }

  /** The same for all chunks: nothing is lost, repeated or reordered. */
  lemma PoolDelivers(throws: string -> bool, chunks: seq<string>, pieces: seq<string>) returns (k: nat)
    requires pieces != [] && Pieces(pieces) && Join(pieces) == Flatten(chunks)
    ensures k < |pieces|
    ensures Delivered(pieces[..k], PoolRun(throws, chunks).delivered)
    ensures PoolRun(throws, chunks).buffer == Join(pieces[k..])
  {
    SplitUnique(pieces);
    k := PoolConserves(throws, chunks);
    CleanDelivers(pieces[..k]);
  }

  lemma SplitRest(s: string, k: nat, chunk: string)
    requires k < |Split(s)|
    ensures Split(s + chunk) == Split(s)[..k] + Split(Join(Split(s)[k..]) + chunk)
  {
    var ls := Split(s);
    var back := ls[k..];
    var t := Split(Last(back) + chunk);
    RegroupAt(ls, k, t);
    assert Split(s + chunk) == Init(ls) + t by { SplitAppend(s, chunk); }
    assert Split(Join(back)) == back by { SplitCuts(s); SplitUnique(back); }
    assert Split(Join(back) + chunk) == Init(back) + t by { SplitAppend(Join(back), chunk); }
  }

  lemma HarmlessPrefix(throws: string -> bool, a: string, b: string)
    requires Harmless(throws, a + b)
    ensures Harmless(throws, a)
  {
    SplitAppend(a, b);
    forall j | 0 <= j < |Split(a)| - 2 ensures !Stops(throws, Split(a)[j]) {
      assert Split(a)[j] == Split(a + b)[j];
    }
  }

  lemma {:induction false} HarmlessReadsWhole(throws: string -> bool, chunks: seq<string>)
    requires Harmless(throws, Flatten(chunks))
    ensures PoolRun(throws, chunks) == Whole(Flatten(chunks))
  {
    if chunks == [] {
    } else {
      var before, chunk := chunks[..|chunks| - 1], chunks[|chunks| - 1];
      HarmlessPrefix(throws, Flatten(before), chunk);
      HarmlessReadsWhole(throws, before);
      ConsumeHarmless(throws, Flatten(before), chunk);
      StepReads(Flatten(before), chunk);
    }
  }

  lemma BackHarmless(throws: string -> bool, front: seq<string>, back: seq<string>)
    requires forall j | 0 <= j < |front + back| - 2 :: !Stops(throws, (front + back)[j])
    ensures forall j | 0 <= j < |back| - 2 :: !Stops(throws, back[j])
  {
    forall j | 0 <= j < |back| - 2 ensures !Stops(throws, back[j]) {
      assert back[j] == (front + back)[|front| + j];
    }
  }

  lemma HarmlessRest(throws: string -> bool, a: string, b: string)
    requires Harmless(throws, a + b)
    ensures Harmless(throws, Last(Split(a)) + b)
  {
    SplitAppend(a, b);
    BackHarmless(throws, Init(Split(a)), Split(Last(Split(a)) + b));
  }

  lemma ConsumeAll(throws: string -> bool, s: string)
    requires Harmless(throws, s)
    ensures Consume(throws, s) == Whole(s)
  {
    var k := ConsumeCuts(throws, s);
    var ls := Split(s);
    assert k == |ls| - 1;
    assert ls[k..] == [Last(ls)];
  }

  lemma ConsumeHarmless(throws: string -> bool, stream: string, chunk: string)
    requires Harmless(throws, stream + chunk)
    ensures PoolStep(throws, Whole(stream), chunk) == ClientStep(Whole(stream), chunk)
  {
    HarmlessRest(throws, stream, chunk);
    ConsumeAll(throws, Last(Split(stream)) + chunk);
  }

  lemma OneChunk(throws: string -> bool, stream: string)
    requires !Harmless(throws, stream)
    ensures Flatten([stream]) == stream && PoolRun(throws, [stream]) != ClientRun([stream])
  {
    OneChunkStep(throws, stream);
    LeavesLinesExactly(throws, stream);
    ClientReadsWhole([stream]);
  }

  lemma OneChunkStep(throws: string -> bool, stream: string)
    ensures Flatten([stream]) == stream && PoolRun(throws, [stream]).buffer == Consume(throws, stream).buffer
  {
    var chunks := [stream];
    assert chunks[..|chunks| - 1] == [] && FRESH.buffer + stream == stream;
    assert PoolRun(throws, chunks) == PoolStep(throws, FRESH, stream);
  }

  /** The two readers agree on every way to cut a stream into chunks, if and only if no complete line
      before its last one makes the handler throw. */
  lemma ReadersAgreeExactly(throws: string -> bool, stream: string)
    ensures (forall chunks | Flatten(chunks) == stream :: PoolRun(throws, chunks) == ClientRun(chunks))
       <==> Harmless(throws, stream)
  {
    if Harmless(throws, stream) {
      forall chunks | Flatten(chunks) == stream ensures PoolRun(throws, chunks) == ClientRun(chunks) {
        HarmlessReadsWhole(throws, chunks);
        ClientReadsWhole(chunks);
      }
    } else {
      OneChunk(throws, stream);
      assert PoolRun(throws, [stream]) != ClientRun([stream]);
    }
  }

  // ----- The program --------------------------------------------------------------------------------

  lemma SplitDelivers(s: string)
    ensures forall pieces | pieces != [] && Pieces(pieces) && Join(pieces) == s ::
              Delivered(Init(pieces), Clean(Init(Split(s)))) && Last(Split(s)) == Last(pieces)
  {
    CleanDelivers(Init(Split(s)));
    forall pieces | pieces != [] && Pieces(pieces) && Join(pieces) == s ensures pieces == Split(s) {
      SplitUnique(pieces);
    }
  }

  class ClientFramer {
    var buffer: string

    constructor ()
      ensures buffer == FRESH.buffer
    {
      buffer := "";
    }

    /** `onData`, up to what is done with each line. */
    method OnData(chunk: string) returns (delivered: seq<string>)
      modifies this
      ensures Reader(delivered, buffer) == ClientStep(Reader([], old(buffer)), chunk)
      ensures forall pieces | pieces != [] && Pieces(pieces) && Join(pieces) == old(buffer) + chunk ::
                Delivered(Init(pieces), delivered) && buffer == Last(pieces)
    {
      ghost var s := buffer + chunk;
      var lines := Split(buffer + chunk);
      buffer := lines[|lines| - 1];
      lines := lines[..|lines| - 1];
      delivered := [];
      for i := 0 to |lines|
        invariant delivered == Clean(lines[..i])
      {
        assert Init(lines[..i + 1]) == lines[..i];
        var trimmed := Trim(lines[i]);
        if trimmed == "" { continue; }
        delivered := delivered + [trimmed];
      }
      assert lines[..|lines|] == lines;
      SplitDelivers(s);
    }
  }
}
