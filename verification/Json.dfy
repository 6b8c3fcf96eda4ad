/** JSON values as the proxy sees them, and the text `JSON.stringify` gives for them.

    A JavaScript string is a sequence of UTF-16 code units, so `Text` is too. A number is
    carried by the decimal text JavaScript prints for it: two finite doubles other than the
    two zeros are equal exactly when those texts are. An object is its own properties in
    enumeration order; no key occurs twice.

    The text escapes quotes, backslashes, control characters and unpaired surrogates. The main
    lemma is `PrintInjective`: the text determines the value, so that texts can stand for
    values as cache keys and in comparisons. */
module Json {

  newtype CodeUnit = u: int | 0 <= u < 0x10000
  type Text = seq<CodeUnit>

  const QUOTE: CodeUnit := 34
  const BACKSLASH: CodeUnit := 92
  const COMMA: CodeUnit := 44
  const COLON: CodeUnit := 58
  const OPEN_BRACKET: CodeUnit := 91
  const CLOSE_BRACKET: CodeUnit := 93
  const OPEN_BRACE: CodeUnit := 123
  const CLOSE_BRACE: CodeUnit := 125

  datatype Value =
    | Null
    | Bool(b: bool)
    | Number(text: Text)
    | String(s: Text)
    | Array(items: seq<Value>)
    | Object(members: seq<Member>)

  datatype Member = Member(key: Text, value: Value)

  predicate IsDigit(u: CodeUnit) { 48 <= u <= 57 }

  /** Digits, '+', '-', '.', 'e': the alphabet of a printed number, which starts with a digit or '-'. */
  predicate IsNumberText(t: Text) {
    && t != []
    && (IsDigit(t[0]) || t[0] == 45)
    && forall i | 0 <= i < |t| :: IsDigit(t[i]) || t[i] == 43 || t[i] == 45 || t[i] == 46 || t[i] == 101
  }

  predicate DistinctKeys(ms: seq<Member>) {
    forall i, j | 0 <= i < j < |ms| :: ms[i].key != ms[j].key
  }

  /** The values JavaScript can hold: real number texts and no repeated key, at every depth. */
  predicate WellFormed(v: Value) {
    match v
    case Number(t) => IsNumberText(t)
    case Array(items) => forall i | 0 <= i < |items| :: WellFormed(items[i])
    case Object(ms) => DistinctKeys(ms) && forall i | 0 <= i < |ms| :: WellFormed(ms[i].value)
    case _ => true
  }

  /** The text `__proto__`. Assigning to this key of a plain object sets its prototype and
      adds no property. */
  const PROTO: Text := [95, 95, 112, 114, 111, 116, 111, 95, 95]

  /** Whether `k` is a key of some object inside `v`. */
  predicate HasKey(v: Value, k: Text) {
    match v
    case Array(items) => exists i | 0 <= i < |items| :: HasKey(items[i], k)
    case Object(ms) => exists i | 0 <= i < |ms| :: ms[i].key == k || HasKey(ms[i].value, k)
    case _ => false
  }

  /** The value without its `__proto__` members. */
  function WithoutProto(v: Value): Value
    decreases v, 0
  {
    match v
    case Array(items) => Array(seq(|items|, i requires 0 <= i < |items| => WithoutProto(items[i])))
    case Object(ms) => Object(MembersWithoutProto(ms))
    case _ => v
  }

  function MembersWithoutProto(ms: seq<Member>): seq<Member>
    decreases ms, 1
  {
    if ms == [] then []
    else
      var m := ms[|ms| - 1];
      MembersWithoutProto(ms[..|ms| - 1]) + (if m.key == PROTO then [] else [Member(m.key, WithoutProto(m.value))])
  }

  lemma {:induction false} WithoutProtoSame(v: Value)
    ensures WithoutProto(v) == v <==> !HasKey(v, PROTO)
    decreases v, 0
  {
    match v
    case Array(items) =>
      forall i | 0 <= i < |items| ensures WithoutProto(items[i]) == items[i] <==> !HasKey(items[i], PROTO) {
        WithoutProtoSame(items[i]);
      }
      var w := WithoutProto(v);
      assert w == v <==> forall i | 0 <= i < |items| :: w.items[i] == items[i];
    case Object(ms) => MembersWithoutProtoSame(ms);
    case _ =>
  }

  lemma SameSnoc(a: seq<Member>, x: Member, b: seq<Member>, y: Member)
    ensures a + [x] == b + [y] <==> a == b && x == y
  {
    if a + [x] == b + [y] {
      assert |a| == |b| && a == (a + [x])[..|a|] && b == (b + [y])[..|b|];
      assert x == (a + [x])[|a|];
    }
  }

  ghost predicate ProtoFree(ms: seq<Member>) {
    forall i | 0 <= i < |ms| :: ms[i].key != PROTO && !HasKey(ms[i].value, PROTO)
  }

  lemma ProtoFreeSnoc(ms: seq<Member>)
    requires ms != []
    ensures var n := |ms| - 1;
            && ms == ms[..n] + [ms[n]]
            && (ProtoFree(ms) <==> ProtoFree(ms[..n]) && ms[n].key != PROTO && !HasKey(ms[n].value, PROTO))
  {
    var front, last := ms[..|ms| - 1], ms[|ms| - 1];
    if ProtoFree(front) && last.key != PROTO && !HasKey(last.value, PROTO) {
      forall i | 0 <= i < |ms| ensures ms[i].key != PROTO && !HasKey(ms[i].value, PROTO) {
        if i < |front| { assert front[i] == ms[i]; }
      }
    }
  }

  lemma {:induction false} MembersWithoutProtoSame(ms: seq<Member>)
    ensures |MembersWithoutProto(ms)| <= |ms|
    ensures MembersWithoutProto(ms) == ms <==> ProtoFree(ms)
    decreases ms, 1
  {
    if ms == [] {
    } else {
      var n := |ms| - 1;
      var kept := MembersWithoutProto(ms[..n]);
      MembersWithoutProtoSame(ms[..n]);
      WithoutProtoSame(ms[n].value);
      if ms[n].key == PROTO {
        assert MembersWithoutProto(ms) == kept && !ProtoFree(ms);
      } else {
        ProtoFreeSnoc(ms);
        SameSnoc(kept, Member(ms[n].key, WithoutProto(ms[n].value)), ms[..n], ms[n]);
      }
    }
  }

  // ----- Strings -------------------------------------------------------------------

  predicate IsHighSurrogate(u: CodeUnit) { 0xD800 <= u <= 0xDBFF }
  predicate IsLowSurrogate(u: CodeUnit) { 0xDC00 <= u <= 0xDFFF }

  function HexDigit(d: CodeUnit): CodeUnit
    requires d < 16
  {
    if d < 10 then 48 + d else 87 + d
  }

  function UnicodeEscape(u: CodeUnit): Text {
    var hi := u / 256;
    var lo := u % 256;
    [BACKSLASH, 117, HexDigit(hi / 16), HexDigit(hi % 16), HexDigit(lo / 16), HexDigit(lo % 16)]
  }

  /** How one code unit that is not half of a surrogate pair is written. */
  function EscapeUnit(u: CodeUnit): Text {
    if u == QUOTE || u == BACKSLASH then [BACKSLASH, u]
    else if u == 8 then [BACKSLASH, 98]
    else if u == 9 then [BACKSLASH, 116]
    else if u == 10 then [BACKSLASH, 110]
    else if u == 12 then [BACKSLASH, 102]
    else if u == 13 then [BACKSLASH, 114]
    else if u < 32 || IsHighSurrogate(u) || IsLowSurrogate(u) then UnicodeEscape(u)
    else [u]
  }

  predicate StartsWithPair(s: Text) {
    |s| >= 2 && IsHighSurrogate(s[0]) && IsLowSurrogate(s[1])
  }

  function ChunkLength(s: Text): (n: nat)
    requires s != []
    ensures 1 <= n <= |s|
  {
    if StartsWithPair(s) then 2 else 1
  }

  function Chunk(s: Text): (t: Text)
    requires s != []
    ensures t != [] && t[0] != QUOTE
  {
    if StartsWithPair(s) then s[..2] else EscapeUnit(s[0])
  }

  // Every writer below takes the text that follows, so that no text is built by appending.

  function Escape(s: Text, rest: Text): Text {
    if s == [] then rest else Chunk(s) + Escape(s[ChunkLength(s)..], rest)
  }

  function Quote(s: Text, rest: Text): Text {
    [QUOTE] + Escape(s, [QUOTE] + rest)
  }

  // ----- Values --------------------------------------------------------------------

  const NULL: Text := [110, 117, 108, 108]
  const TRUE: Text := [116, 114, 117, 101]
  const FALSE: Text := [102, 97, 108, 115, 101]

  /** The text of `v` followed by `rest`. */
  function Write(v: Value, rest: Text): Text
    decreases v, 0
  {
    match v
    case Null => NULL + rest
    case Bool(b) => (if b then TRUE else FALSE) + rest
    case Number(t) => t + rest
    case String(s) => Quote(s, rest)
    case Array(items) => [OPEN_BRACKET] + WriteItems(items, true, rest)
    case Object(ms) => [OPEN_BRACE] + WriteMembers(ms, true, rest)
  }

  function WriteItems(items: seq<Value>, first: bool, rest: Text): Text
    decreases items, 1
  {
    if items == [] then [CLOSE_BRACKET] + rest
    else
      var body := Write(items[0], WriteItems(items[1..], false, rest));
      if first then body else [COMMA] + body
  }

  function WriteMembers(ms: seq<Member>, first: bool, rest: Text): Text
    decreases ms, 1
  {
    if ms == [] then [CLOSE_BRACE] + rest
    else
      var body := Quote(ms[0].key, [COLON] + Write(ms[0].value, WriteMembers(ms[1..], false, rest)));
      if first then body else [COMMA] + body
  }

  /** `JSON.stringify(v)`. */
  function Print(v: Value): Text {
    Write(v, [])
  }

  // ----- Printing is unambiguous ---------------------------------------------------

  lemma UnicodeEscapeInjective(u: CodeUnit, w: CodeUnit)
    requires UnicodeEscape(u) == UnicodeEscape(w)
    ensures u == w
  {
    var a, b := UnicodeEscape(u), UnicodeEscape(w);
    assert a[2] == b[2] && a[3] == b[3] && a[4] == b[4] && a[5] == b[5];
    var hi, lo, hi', lo' := u / 256, u % 256, w / 256, w % 256;
    assert hi / 16 == hi' / 16 && hi % 16 == hi' % 16;
    assert lo / 16 == lo' / 16 && lo % 16 == lo' % 16;
    assert hi == hi' && lo == lo';
  }

  lemma Cancel(p: Text, x: Text, q: Text, y: Text)
    requires p + x == q + y && |p| == |q|
    ensures p == q && x == y
  {
    assert p == (p + x)[..|p|] && x == (p + x)[|p|..];
    assert q == (q + y)[..|q|] && y == (q + y)[|q|..];
  }

  lemma ChunkMark(s: Text)
    requires s != []
    ensures Chunk(s)[0] == BACKSLASH ==> Chunk(s) == EscapeUnit(s[0]) && ChunkLength(s) == 1
    ensures Chunk(s)[0] != BACKSLASH ==> Chunk(s) == s[..ChunkLength(s)]
    ensures Chunk(s)[0] != BACKSLASH ==> (IsHighSurrogate(Chunk(s)[0]) <==> ChunkLength(s) == 2)
  {
  }

  /** Which escape follows a backslash is told by the next code unit. */
  lemma EscapeUnitDecodes(u: CodeUnit, w: CodeUnit, x: Text, y: Text)
    requires EscapeUnit(u)[0] == BACKSLASH == EscapeUnit(w)[0]
    requires EscapeUnit(u) + x == EscapeUnit(w) + y
    ensures u == w && x == y
  {
    assert (EscapeUnit(u) + x)[1] == (EscapeUnit(w) + y)[1];
    Cancel(EscapeUnit(u), x, EscapeUnit(w), y);
    if EscapeUnit(u)[1] == 117 { UnicodeEscapeInjective(u, w); }
  }

  /** The chunks form a prefix code: equal texts starting with a chunk start with the same chunk. */
  lemma ChunkDecodes(s: Text, t: Text, x: Text, y: Text)
    requires s != [] && t != []
    requires Chunk(s) + x == Chunk(t) + y
    ensures ChunkLength(s) == ChunkLength(t) && s[..ChunkLength(s)] == t[..ChunkLength(t)] && x == y
  {
    assert (Chunk(s) + x)[0] == (Chunk(t) + y)[0];
    ChunkMark(s);
    ChunkMark(t);
    if Chunk(s)[0] == BACKSLASH {
      EscapeUnitDecodes(s[0], t[0], x, y);
    } else {
      Cancel(Chunk(s), x, Chunk(t), y);
    }
  }

  lemma {:induction false} EscapeDecodes(s: Text, t: Text, x: Text, y: Text)
    requires Escape(s, [QUOTE] + x) == Escape(t, [QUOTE] + y)
    ensures s == t && x == y
    decreases |s|
  {
    assert Escape(s, [QUOTE] + x)[0] == Escape(t, [QUOTE] + y)[0];
    if s == [] {
      assert t == [];
      Cancel([QUOTE], x, [QUOTE], y);
    } else {
      var s', t' := s[ChunkLength(s)..], t[ChunkLength(t)..];
      ChunkDecodes(s, t, Escape(s', [QUOTE] + x), Escape(t', [QUOTE] + y));
      EscapeDecodes(s', t', x, y);
      assert s == s[..ChunkLength(s)] + s' && t == t[..ChunkLength(t)] + t';
    }
  }

  lemma QuoteDecodes(s: Text, t: Text, x: Text, y: Text)
    requires Quote(s, x) == Quote(t, y)
    ensures s == t && x == y
  {
    Cancel([QUOTE], Escape(s, [QUOTE] + x), [QUOTE], Escape(t, [QUOTE] + y));
    EscapeDecodes(s, t, x, y);
  }

  /** What may follow a value inside a document. */
  predicate Stops(x: Text) {
    x == [] || x[0] == COMMA || x[0] == CLOSE_BRACKET || x[0] == CLOSE_BRACE
  }

  lemma Overhang(s: Text, t: Text, x: Text, y: Text)
    requires s + x == t + y && |s| < |t|
    ensures x != [] && x[0] == t[|s|]
  {
    assert (s + x)[|s|] == (t + y)[|s|];
  }

  lemma NumberIsDelimited(s: Text, t: Text, x: Text, y: Text)
    requires IsNumberText(t) && Stops(x) && s + x == t + y
    ensures |s| >= |t|
  {
    if |s| < |t| { Overhang(s, t, x, y); }
  }

  /** The first code unit of a printed value tells which kind of value it is. */
  function Mark(v: Value): CodeUnit
    requires WellFormed(v)
  {
    match v
    case Null => 110
    case Bool(b) => if b then 116 else 102
    case Number(t) => t[0]
    case String(_) => QUOTE
    case Array(_) => OPEN_BRACKET
    case Object(_) => OPEN_BRACE
  }

  lemma WriteStarts(v: Value, x: Text)
    requires WellFormed(v)
    ensures Write(v, x) != [] && Write(v, x)[0] == Mark(v)
  {
  }

  lemma ItemsStart(vs: seq<Value>, first: bool, x: Text)
    requires forall i | 0 <= i < |vs| :: WellFormed(vs[i])
    ensures WriteItems(vs, first, x) != []
    ensures WriteItems(vs, first, x)[0] == CLOSE_BRACKET <==> vs == []
    ensures !first ==> Stops(WriteItems(vs, first, x))
  {
    if vs != [] { WriteStarts(vs[0], WriteItems(vs[1..], false, x)); }
  }

  /** JSON text is unambiguous: a printed value, followed by what may follow a value, can be
      read back in one way only. */
  lemma {:induction false} WriteDecodes(v: Value, w: Value, x: Text, y: Text)
    requires WellFormed(v) && WellFormed(w) && Stops(x) && Stops(y)
    requires Write(v, x) == Write(w, y)
    ensures v == w && x == y
    decreases v, 0
  {
    WriteStarts(v, x);
    WriteStarts(w, y);
    match v {
      case Null => Cancel(NULL, x, NULL, y);
      case Bool(p) => Cancel(if p then TRUE else FALSE, x, if p then TRUE else FALSE, y);
      case Number(t) =>
        NumberIsDelimited(t, w.text, x, y);
        NumberIsDelimited(w.text, t, y, x);
        Cancel(t, x, w.text, y);
      case String(s) => QuoteDecodes(s, w.s, x, y);
      case Array(items) =>
        Cancel([OPEN_BRACKET], WriteItems(items, true, x), [OPEN_BRACKET], WriteItems(w.items, true, y));
        ItemsDecode(items, w.items, true, x, y);
      case Object(ms) =>
        Cancel([OPEN_BRACE], WriteMembers(ms, true, x), [OPEN_BRACE], WriteMembers(w.members, true, y));
        MembersDecode(ms, w.members, true, x, y);
    }
  }

  lemma {:induction false} ItemsDecode(vs: seq<Value>, ws: seq<Value>, first: bool, x: Text, y: Text)
    requires forall i | 0 <= i < |vs| :: WellFormed(vs[i])
    requires forall i | 0 <= i < |ws| :: WellFormed(ws[i])
    requires WriteItems(vs, first, x) == WriteItems(ws, first, y)
    ensures vs == ws && x == y
    decreases vs, 1
  {
    ItemsStart(vs, first, x);
    ItemsStart(ws, first, y);
    if vs == [] {
      Cancel([CLOSE_BRACKET], x, [CLOSE_BRACKET], y);
    } else {
      var x', y' := WriteItems(vs[1..], false, x), WriteItems(ws[1..], false, y);
      ItemsStart(vs[1..], false, x);
      ItemsStart(ws[1..], false, y);
      if !first { Cancel([COMMA], Write(vs[0], x'), [COMMA], Write(ws[0], y')); }
      WriteDecodes(vs[0], ws[0], x', y');
      ItemsDecode(vs[1..], ws[1..], false, x, y);
      assert vs == [vs[0]] + vs[1..] && ws == [ws[0]] + ws[1..];
    }
  }

  lemma {:induction false} MembersDecode(vs: seq<Member>, ws: seq<Member>, first: bool, x: Text, y: Text)
    requires forall i | 0 <= i < |vs| :: WellFormed(vs[i].value)
    requires forall i | 0 <= i < |ws| :: WellFormed(ws[i].value)
    requires WriteMembers(vs, first, x) == WriteMembers(ws, first, y)
    ensures vs == ws && x == y
    decreases vs, 1
  {
    assert WriteMembers(vs, first, x)[0] == WriteMembers(ws, first, y)[0];
    if vs == [] {
      assert ws == [];
      Cancel([CLOSE_BRACE], x, [CLOSE_BRACE], y);
    } else {
      var x', y' := WriteMembers(vs[1..], false, x), WriteMembers(ws[1..], false, y);
      var p, q := Write(vs[0].value, x'), Write(ws[0].value, y');
      if !first { Cancel([COMMA], Quote(vs[0].key, [COLON] + p), [COMMA], Quote(ws[0].key, [COLON] + q)); }
      QuoteDecodes(vs[0].key, ws[0].key, [COLON] + p, [COLON] + q);
      Cancel([COLON], p, [COLON], q);
      assert Stops(x') && Stops(y');
      WriteDecodes(vs[0].value, ws[0].value, x', y');
      MembersDecode(vs[1..], ws[1..], false, x, y);
      assert vs == [vs[0]] + vs[1..] && ws == [ws[0]] + ws[1..];
    }
  }

  /** Two values print the same text exactly when they are the same value, key order included. */
  lemma PrintInjective(v: Value, w: Value)
    requires WellFormed(v) && WellFormed(w)
    ensures Print(v) == Print(w) <==> v == w
  {
    if Print(v) == Print(w) {
      WriteDecodes(v, w, [], []);
    }
  }
}
