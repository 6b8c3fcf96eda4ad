/** The tool catalog of `src/registry/registry.ts` and a subscriber that folds its change events.

    A refresh has no await, so it is one step. Schemas are carried by their JSON text, which is what the
    refresh compares. A refresh takes the keys of its server in the order of the catalog, a parameter. */
module Registry {

  type Key = string

  const SLASH := '/'

  function KeyOf(server: string, name: string): Key { server + [SLASH] + name }

  /** The metadata `annotate` may set. */
  const ALLOWED: set<string> := {"cost", "cacheable", "cacheTtl", "reliability", "routing", "redact", "examples"}

  /** What a backend reports. */
  datatype Raw = Raw(name: string, description: string, schema: string, output: string)

  datatype Tool = Tool(
    server: string, name: string, description: string, schema: string, output: string, meta: map<string, string>)

  type Catalog = map<Key, Tool>

  datatype Event =
    | Added(server: string, tool: string, after: Tool)
    | Updated(server: string, tool: string, after: Tool)
    | Removed(server: string, tool: string)

  /** What a subscriber keeps of a tool. */
  datatype View = View(description: string, schema: string)

  type Mirror = map<Key, View>

  function ViewOf(t: Tool): View { View(t.description, t.schema) }

  /** A subscriber folds one event. */
  function Apply(m: Mirror, e: Event): Mirror {
    match e
    case Added(s, n, t) => m[KeyOf(s, n) := ViewOf(t)]
    case Updated(s, n, t) => m[KeyOf(s, n) := ViewOf(t)]
    case Removed(s, n) => m - {KeyOf(s, n)}
  }

  function Fold(m: Mirror, es: seq<Event>): Mirror {
    if es == [] then m else Apply(Fold(m, es[..|es| - 1]), es[|es| - 1])
  }

  function Views(c: Catalog): Mirror { map k | k in c :: ViewOf(c[k]) }

  predicate Owned(k: Key, server: string) {
    |server| < |k| && k[..|server|] == server && k[|server|] == SLASH
  }

  function Define(c: Catalog, server: string, raw: Raw): Tool {
    var k := KeyOf(server, raw.name);
    Tool(server, raw.name, raw.description, raw.schema, raw.output, if k in c then c[k].meta else map[])
  }

  /** The tools to have after a refresh; of two with the same name the last counts. */
  function Incoming(c: Catalog, server: string, raws: seq<Raw>): Catalog {
    if raws == [] then map[]
    else
      var raw := raws[|raws| - 1];
      Incoming(c, server, raws[..|raws| - 1])[KeyOf(server, raw.name) := Define(c, server, raw)]
  }

  /** The keys of `Incoming` in the order of their first occurrence. */
  function IncomingKeys(server: string, raws: seq<Raw>): seq<Key> {
    if raws == [] then []
    else
      var before, k := IncomingKeys(server, raws[..|raws| - 1]), KeyOf(server, raws[|raws| - 1].name);
      if k in before then before else before + [k]
  }

  datatype Step = Step(catalog: Catalog, events: seq<Event>)

  function RemoveOne(s: Step, server: string, incoming: Catalog, k: Key): Step {
    if k in incoming || k !in s.catalog then s
    else Step(s.catalog - {k}, s.events + [Removed(server, s.catalog[k].name)])
  }

  function RemoveAll(c: Catalog, server: string, incoming: Catalog, order: seq<Key>): Step {
    if order == [] then Step(c, [])
    else RemoveOne(RemoveAll(c, server, incoming, order[..|order| - 1]), server, incoming, order[|order| - 1])
  }

  function InstallOne(s: Step, server: string, incoming: Catalog, k: Key): Step {
    if k !in incoming then s
    else
      var t := incoming[k];
      var catalog := s.catalog[k := t];
      if k !in s.catalog then Step(catalog, s.events + [Added(server, t.name, t)])
      else if s.catalog[k].description != t.description || s.catalog[k].schema != t.schema then
        Step(catalog, s.events + [Updated(server, t.name, t)])
      else Step(catalog, s.events)
  }

  function InstallAll(s: Step, server: string, incoming: Catalog, keys: seq<Key>): Step {
    if keys == [] then s
    else InstallOne(InstallAll(s, server, incoming, keys[..|keys| - 1]), server, incoming, keys[|keys| - 1])
  }

  /** The new catalog and the events of a refresh. */
  function Refresh(c: Catalog, server: string, raws: seq<Raw>, order: seq<Key>): Step {
    var incoming := Incoming(c, server, raws);
    InstallAll(RemoveAll(c, server, incoming, order), server, incoming, IncomingKeys(server, raws))
  }

  function Annotate(c: Catalog, server: string, name: string, fields: map<string, string>): Catalog {
    var k := KeyOf(server, name);
    if k !in c then c
    else c[k := c[k].(meta := c[k].meta + map f | f in fields && f in ALLOWED :: fields[f])]
  }

  // ----- What a refresh does -----------------------------------------------------------------------------

  ghost predicate CatalogFine(c: Catalog) {
    forall k | k in c :: k == KeyOf(c[k].server, c[k].name)
  }

  /** `order` lists the keys that begin with the server's name and a slash. */
  ghost predicate ListsOwned(order: seq<Key>, c: Catalog, server: string) {
    forall k :: k in order <==> k in c && Owned(k, server)
  }

  /** What the incoming catalog has under one key. */
  lemma {:induction false} IncomingAt(c: Catalog, server: string, raws: seq<Raw>, k: Key)
    ensures var incoming := Incoming(c, server, raws);
            && (k in incoming ==>
                  && Owned(k, server) && k == KeyOf(server, incoming[k].name) && incoming[k].server == server
                  && incoming[k].meta == (if k in c then c[k].meta else map[]))
            && (k in IncomingKeys(server, raws) <==> k in incoming)
            && (k in incoming <==> exists i | 0 <= i < |raws| :: k == KeyOf(server, raws[i].name))
  {
    if raws == [] {
    } else {
      var before, raw := raws[..|raws| - 1], raws[|raws| - 1];
      IncomingAt(c, server, before, k);
      IncomingAt(c, server, before, KeyOf(server, raw.name));
      assert KeyOf(server, raw.name)[..|server|] == server;
      assert raws == before + [raw];
    }
  }

  lemma IncomingFine(c: Catalog, server: string, raws: seq<Raw>)
    ensures var incoming := Incoming(c, server, raws);
            && (forall k | k in incoming ::
                  && Owned(k, server) && k == KeyOf(server, incoming[k].name) && incoming[k].server == server
                  && incoming[k].meta == (if k in c then c[k].meta else map[]))
            && (forall k :: k in IncomingKeys(server, raws) <==> k in incoming)
            && (forall k :: k in incoming <==> exists i | 0 <= i < |raws| :: k == KeyOf(server, raws[i].name))
  {
    forall k { IncomingAt(c, server, raws, k); }
  }

  /** Which keys of `order` are gone after the first pass. */
  ghost predicate Dropped(order: seq<Key>, incoming: Catalog, k: Key) { k in order && k !in incoming }

  lemma {:induction false} RemoveAllEffect(c: Catalog, server: string, incoming: Catalog, order: seq<Key>)
    ensures var c' := RemoveAll(c, server, incoming, order).catalog;
            forall k :: (k in c' <==> k in c && !Dropped(order, incoming, k)) && (k in c' ==> c'[k] == c[k])
  {
    if order == [] {
    } else {
      RemoveAllEffect(c, server, incoming, order[..|order| - 1]);
      assert order == order[..|order| - 1] + [order[|order| - 1]];
    }
  }

  lemma {:induction false} InstallAllAt(s: Step, server: string, incoming: Catalog, keys: seq<Key>, k: Key)
    requires forall x | x in keys :: x in incoming
    ensures var c' := InstallAll(s, server, incoming, keys).catalog;
            && (k in c' <==> k in s.catalog || k in keys)
            && (k in c' ==> c'[k] == if k in keys then incoming[k] else s.catalog[k])
  {
    if keys == [] {
    } else {
      InstallAllAt(s, server, incoming, keys[..|keys| - 1], k);
      assert keys == keys[..|keys| - 1] + [keys[|keys| - 1]];
    }
  }

  lemma InstallAllEffect(s: Step, server: string, incoming: Catalog, keys: seq<Key>)
    requires forall k | k in keys :: k in incoming
    ensures var c' := InstallAll(s, server, incoming, keys).catalog;
            forall k ::
              && (k in c' <==> k in s.catalog || k in keys)
              && (k in c' ==> c'[k] == if k in keys then incoming[k] else s.catalog[k])
  {
    forall k { InstallAllAt(s, server, incoming, keys, k); }
  }

  /** After a refresh the catalog holds what the backend reports and, of the rest, what is not owned by
      the server. */
  lemma RefreshCatalog(c: Catalog, server: string, raws: seq<Raw>, order: seq<Key>)
    requires ListsOwned(order, c, server)
    ensures var (c', incoming) := (Refresh(c, server, raws, order).catalog, Incoming(c, server, raws));
            forall k ::
              && (k in c' <==> k in incoming || (k in c && !Owned(k, server)))
              && (k in c' ==> c'[k] == if k in incoming then incoming[k] else c[k])
  {
    var incoming := Incoming(c, server, raws);
    IncomingFine(c, server, raws);
    RemoveAllEffect(c, server, incoming, order);
    InstallAllEffect(RemoveAll(c, server, incoming, order), server, incoming, IncomingKeys(server, raws));
  }

  /** The server's keys are those of the backend's list, and tools that stay keep their annotations. */
  lemma KeysMatchBackend(c: Catalog, server: string, raws: seq<Raw>, order: seq<Key>, k: Key)
    requires ListsOwned(order, c, server) && Owned(k, server)
    ensures var c' := Refresh(c, server, raws, order).catalog;
            && (k in c' <==> exists i | 0 <= i < |raws| :: k == KeyOf(server, raws[i].name))
            && (k in c' ==> c'[k].meta == if k in c then c[k].meta else map[])
  {
    RefreshCatalog(c, server, raws, order);
    IncomingFine(c, server, raws);
  }

  lemma {:induction false} IncomingLast(c: Catalog, server: string, raws: seq<Raw>, i: nat)
    requires i < |raws| && forall j | i < j < |raws| :: raws[j].name != raws[i].name
    ensures var k, incoming := KeyOf(server, raws[i].name), Incoming(c, server, raws);
            k in incoming && incoming[k] == Define(c, server, raws[i])
  {
    if i == |raws| - 1 {
    } else {
      var last := raws[|raws| - 1];
      IncomingLast(c, server, raws[..|raws| - 1], i);
      KeysDiffer(server, last.name, raws[i].name);
    }
  }

  lemma KeysDiffer(server: string, a: string, b: string)
    ensures KeyOf(server, a) == KeyOf(server, b) <==> a == b
  {
    assert KeyOf(server, a)[|server| + 1..] == a && KeyOf(server, b)[|server| + 1..] == b;
  }

  /** The last report of a name is what the catalog holds. */
  lemma LastReportCounts(c: Catalog, server: string, raws: seq<Raw>, order: seq<Key>, i: nat)
    requires ListsOwned(order, c, server)
    requires i < |raws| && forall j | i < j < |raws| :: raws[j].name != raws[i].name
    ensures var k, c' := KeyOf(server, raws[i].name), Refresh(c, server, raws, order).catalog;
            && k in c' && c'[k].server == server && c'[k].name == raws[i].name
            && c'[k].description == raws[i].description && c'[k].schema == raws[i].schema
            && c'[k].output == raws[i].output && c'[k].meta == if k in c then c[k].meta else map[]
  {
    RefreshCatalog(c, server, raws, order);
    IncomingLast(c, server, raws, i);
  }

  /** A refresh leaves the tools of all other servers alone exactly when none of their keys begins with the
      server's name and a slash. */
  lemma OthersUntouchedExactly(c: Catalog, server: string, raws: seq<Raw>, order: seq<Key>)
    requires ListsOwned(order, c, server)
    ensures var c' := Refresh(c, server, raws, order).catalog;
            (forall k | k in c && c[k].server != server :: k in c' && c'[k] == c[k])
            <==> (forall k | k in c && c[k].server != server :: !Owned(k, server))
  {
    RefreshCatalog(c, server, raws, order);
    IncomingFine(c, server, raws);
    var c' := Refresh(c, server, raws, order).catalog;
    forall k | k in c && c[k].server != server
      ensures k in c' && c'[k] == c[k] <==> !Owned(k, server)
    {
      if Owned(k, server) && k in c' { assert c'[k].server == server; }
    }
  }

  // ----- The mirror ---------------------------------------------------------------------------------------

  /** A subscriber that held `m` before the step holds the catalog after it. */
  ghost predicate Mirrored(m: Mirror, s: Step) { Fold(m, s.events) == Views(s.catalog) }

  lemma FoldOne(m: Mirror, es: seq<Event>, e: Event)
    ensures Fold(m, es + [e]) == Apply(Fold(m, es), e)
  {
    assert (es + [e])[..|es|] == es;
  }

  lemma RemoveOneMirrored(m: Mirror, s: Step, server: string, incoming: Catalog, k: Key)
    requires Mirrored(m, s) && (k in s.catalog ==> k == KeyOf(server, s.catalog[k].name))
    ensures Mirrored(m, RemoveOne(s, server, incoming, k))
  {
    if k in s.catalog && k !in incoming {
      FoldOne(m, s.events, Removed(server, s.catalog[k].name));
      assert Views(s.catalog - {k}) == Views(s.catalog) - {k};
    }
  }

  lemma {:induction false} RemoveAllMirrored(c: Catalog, server: string, incoming: Catalog, order: seq<Key>)
    requires forall k | k in order && k in c :: k == KeyOf(server, c[k].name)
    ensures Mirrored(Views(c), RemoveAll(c, server, incoming, order))
  {
    if order == [] {
    } else {
      var before := order[..|order| - 1];
      RemoveAllMirrored(c, server, incoming, before);
      RemoveAllEffect(c, server, incoming, before);
      RemoveOneMirrored(Views(c), RemoveAll(c, server, incoming, before), server, incoming, order[|order| - 1]);
    }
  }

  lemma InstallOneMirrored(m: Mirror, s: Step, server: string, incoming: Catalog, k: Key)
    requires Mirrored(m, s) && (k in incoming ==> k == KeyOf(server, incoming[k].name))
    ensures Mirrored(m, InstallOne(s, server, incoming, k))
  {
    if k in incoming {
      var t := incoming[k];
      FoldOne(m, s.events, Added(server, t.name, t));
      FoldOne(m, s.events, Updated(server, t.name, t));
      assert Views(s.catalog[k := t]) == Views(s.catalog)[k := ViewOf(t)];
      assert k in s.catalog && ViewOf(s.catalog[k]) == ViewOf(t) ==> Views(s.catalog[k := t]) == Views(s.catalog);
    }
  }

  lemma {:induction false} InstallAllMirrored(m: Mirror, s: Step, server: string, incoming: Catalog, keys: seq<Key>)
    requires Mirrored(m, s) && forall k | k in incoming :: k == KeyOf(server, incoming[k].name)
    ensures Mirrored(m, InstallAll(s, server, incoming, keys))
  {
    if keys == [] {
    } else {
      InstallAllMirrored(m, s, server, incoming, keys[..|keys| - 1]);
      InstallOneMirrored(m, InstallAll(s, server, incoming, keys[..|keys| - 1]), server, incoming, keys[|keys| - 1]);
    }
  }

  /** A refresh keeps the mirror exact if every key it drops is one of its own server's. */
  lemma RefreshMirrored(c: Catalog, server: string, raws: seq<Raw>, order: seq<Key>)
    requires CatalogFine(c) && ListsOwned(order, c, server)
    requires forall k | k in c && c[k].server != server :: !Owned(k, server)
    ensures Mirrored(Views(c), Refresh(c, server, raws, order))
  {
    var incoming := Incoming(c, server, raws);
    IncomingFine(c, server, raws);
    RemoveAllMirrored(c, server, incoming, order);
    InstallAllMirrored(Views(c), RemoveAll(c, server, incoming, order), server, incoming, IncomingKeys(server, raws));
  }

  // ----- Events are changes ----------------------------------------------------------------------------------

  /** The event tells a change of `c`: a new key, a key with another description or schema, or a key that
      is no longer reported. */
  ghost predicate TellsChange(c: Catalog, server: string, incoming: Catalog, e: Event) {
    match e
    case Added(s, n, t) => var k := KeyOf(server, n); s == server && k !in c && k in incoming && t == incoming[k]
    case Updated(s, n, t) =>
      var k := KeyOf(server, n);
      s == server && k in c && k in incoming && t == incoming[k]
      && (t.description != c[k].description || t.schema != c[k].schema)
    case Removed(s, n) => s == server && exists k :: k in c && Owned(k, server) && k !in incoming && c[k].name == n
  }

  ghost predicate AllTell(c: Catalog, server: string, incoming: Catalog, es: seq<Event>) {
    forall i | 0 <= i < |es| :: TellsChange(c, server, incoming, es[i])
  }

  lemma {:induction false} RemovalsTell(c: Catalog, server: string, incoming: Catalog, order: seq<Key>)
    requires forall k | k in order :: Owned(k, server)
    ensures AllTell(c, server, incoming, RemoveAll(c, server, incoming, order).events)
  {
    if order == [] {
    } else {
      RemovalsTell(c, server, incoming, order[..|order| - 1]);
      RemoveAllEffect(c, server, incoming, order[..|order| - 1]);
    }
  }

  predicate Distinct(keys: seq<Key>) {
    forall i, j | 0 <= i < j < |keys| :: keys[i] != keys[j]
  }

  lemma {:induction false} IncomingKeysDistinct(server: string, raws: seq<Raw>)
    ensures Distinct(IncomingKeys(server, raws))
  {
    if raws == [] {
    } else {
      IncomingKeysDistinct(server, raws[..|raws| - 1]);
    }
  }

  lemma {:induction false} InstallsTell(c: Catalog, s: Step, server: string, incoming: Catalog, keys: seq<Key>)
    requires AllTell(c, server, incoming, s.events) && Distinct(keys)
    requires forall k | k in keys :: k in incoming && k == KeyOf(server, incoming[k].name)
    requires forall k | k in keys :: (k in s.catalog <==> k in c) && (k in c ==> s.catalog[k] == c[k])
    ensures AllTell(c, server, incoming, InstallAll(s, server, incoming, keys).events)
  {
    if keys == [] {
    } else {
      var before := keys[..|keys| - 1];
      InstallsTell(c, s, server, incoming, before);
      InstallAllEffect(s, server, incoming, before);
      assert keys[|keys| - 1] in keys && keys[|keys| - 1] !in before;
    }
  }

  /** A refresh announces nothing that did not change: every event tells a change of the catalog. */
  lemma EventsTellChanges(c: Catalog, server: string, raws: seq<Raw>, order: seq<Key>)
    requires ListsOwned(order, c, server)
    ensures AllTell(c, server, Incoming(c, server, raws), Refresh(c, server, raws, order).events)
  {
    var incoming := Incoming(c, server, raws);
    IncomingFine(c, server, raws);
    IncomingKeysDistinct(server, raws);
    RemovalsTell(c, server, incoming, order);
    RemoveAllEffect(c, server, incoming, order);
    InstallsTell(c, RemoveAll(c, server, incoming, order), server, incoming, IncomingKeys(server, raws));
  }

  /** The keys with a change: owned and no longer reported, newly reported, or reported with another description or
      schema. */
  ghost function Gone(c: Catalog, order: seq<Key>, incoming: Catalog): set<Key> {
    set k | k in order && k in c && k !in incoming
  }

  ghost predicate IsAnnounced(c: Catalog, incoming: Catalog, k: Key)
    requires k in incoming
  {
    k in c ==> incoming[k].description != c[k].description || incoming[k].schema != c[k].schema
  }

  ghost function Announced(c: Catalog, keys: seq<Key>, incoming: Catalog): set<Key> {
    set k | k in keys && k in incoming && IsAnnounced(c, incoming, k)
  }

  lemma GoneNext(c: Catalog, order: seq<Key>, incoming: Catalog, k: Key)
    ensures |Gone(c, order + [k], incoming)|
         == |Gone(c, order, incoming)| + if k !in order && k in c && k !in incoming then 1 else 0
  {
    var before, after := Gone(c, order, incoming), Gone(c, order + [k], incoming);
    if k !in order && k in c && k !in incoming {
      assert after == before + {k} && k !in before;
    } else {
      assert after == before;
    }
  }

  lemma AnnouncedNext(c: Catalog, keys: seq<Key>, incoming: Catalog, k: Key)
    requires k !in keys && k in incoming
    ensures |Announced(c, keys + [k], incoming)|
         == |Announced(c, keys, incoming)| + if IsAnnounced(c, incoming, k) then 1 else 0
  {
    assert Announced(c, keys + [k], incoming)
        == Announced(c, keys, incoming) + if IsAnnounced(c, incoming, k) then {k} else {};
  }

  lemma {:induction false} RemovalsCounted(c: Catalog, server: string, incoming: Catalog, order: seq<Key>)
    ensures |RemoveAll(c, server, incoming, order).events| == |Gone(c, order, incoming)|
  {
    if order == [] {
    } else {
      var front, k := order[..|order| - 1], order[|order| - 1];
      RemovalsCounted(c, server, incoming, front);
      RemoveAllEffect(c, server, incoming, front);
      GoneNext(c, front, incoming, k);
      assert order == front + [k];
    }
  }

  lemma InstallOneCounted(s: Step, server: string, incoming: Catalog, k: Key)
    requires k in incoming
    ensures |InstallOne(s, server, incoming, k).events|
         == |s.events| + if IsAnnounced(s.catalog, incoming, k) then 1 else 0
  {
  }

  lemma {:induction false} InstallsCounted(c: Catalog, s: Step, server: string, incoming: Catalog, keys: seq<Key>)
    requires Distinct(keys) && forall k | k in keys :: k in incoming
    requires forall k | k in keys :: (k in s.catalog <==> k in c) && (k in c ==> s.catalog[k] == c[k])
    ensures |InstallAll(s, server, incoming, keys).events| == |s.events| + |Announced(c, keys, incoming)|
  {
    if keys == [] {
    } else {
      var front, k := keys[..|keys| - 1], keys[|keys| - 1];
      var before := InstallAll(s, server, incoming, front);
      InstallsCounted(c, s, server, incoming, front);
      InstallAllAt(s, server, incoming, front, k);
      assert k in keys && k !in front;
      InstallOneCounted(before, server, incoming, k);
      assert IsAnnounced(before.catalog, incoming, k) <==> IsAnnounced(c, incoming, k);
      AnnouncedNext(c, front, incoming, k);
      assert keys == front + [k];
    }
  }

  /** And it announces every change once: there are as many events as keys with a change. */
  lemma EventsCounted(c: Catalog, server: string, raws: seq<Raw>, order: seq<Key>)
    requires ListsOwned(order, c, server)
    ensures var incoming := Incoming(c, server, raws);
            |Refresh(c, server, raws, order).events|
            == |Gone(c, order, incoming)| + |Announced(c, IncomingKeys(server, raws), incoming)|
  {
    var incoming := Incoming(c, server, raws);
    IncomingFine(c, server, raws);
    IncomingKeysDistinct(server, raws);
    RemovalsCounted(c, server, incoming, order);
    RemoveAllEffect(c, server, incoming, order);
    InstallsCounted(c, RemoveAll(c, server, incoming, order), server, incoming, IncomingKeys(server, raws));
  }

  // ----- Runs -----------------------------------------------------------------------------------------------

  datatype Action =
    | RefreshServer(server: string, raws: seq<Raw>, order: seq<Key>)
    | AnnotateTool(server: string, name: string, fields: map<string, string>)

  function Next(c: Catalog, a: Action): Step {
    match a
    case RefreshServer(server, raws, order) => Refresh(c, server, raws, order)
    case AnnotateTool(server, name, fields) => Step(Annotate(c, server, name, fields), [])
  }

  /** A run over the servers `servers`, and a subscriber that was there from the start. */
  ghost predicate IsRun(servers: set<string>, run: seq<Action>, catalogs: seq<Catalog>, mirrors: seq<Mirror>) {
    && |catalogs| == |mirrors| == |run| + 1 && catalogs[0] == map[] && mirrors[0] == map[]
    && forall i | 0 <= i < |run| ::
         && (run[i].RefreshServer? ==> run[i].server in servers && ListsOwned(run[i].order, catalogs[i], run[i].server))
         && catalogs[i + 1] == Next(catalogs[i], run[i]).catalog
         && mirrors[i + 1] == Fold(mirrors[i], Next(catalogs[i], run[i]).events)
  }

  /** No name is another one followed by a slash and more. In particular: no name has a slash. */
  predicate Separate(servers: set<string>) {
    forall s, s' | s in servers && s' in servers :: !Owned(s', s)
  }

  /** A key owned by two servers makes one of them the other, or its extension. */
  lemma OwnedByTwo(server: string, other: string, name: string)
    requires Owned(KeyOf(other, name), server)
    ensures server == other || Owned(other, server) || Owned(server, other)
  {
    var k := KeyOf(other, name);
    assert k[..|other|] == other && k[|other|] == SLASH;
    if |server| < |other| {
      assert other[..|server|] == k[..|server|];
    } else if |other| < |server| {
      assert server[..|other|] == k[..|other|];
    }
  }

  lemma SeparateKeys(servers: set<string>, server: string, other: string, name: string)
    requires Separate(servers) && server in servers && other in servers && server != other
    ensures !Owned(KeyOf(other, name), server)
  {
    if Owned(KeyOf(other, name), server) { OwnedByTwo(server, other, name); }
  }

  ghost predicate ServersIn(c: Catalog, servers: set<string>) {
    forall k | k in c :: c[k].server in servers
  }

  lemma AnnotateKeeps(c: Catalog, server: string, name: string, fields: map<string, string>)
    ensures Views(Annotate(c, server, name, fields)) == Views(c)
    ensures CatalogFine(c) ==> CatalogFine(Annotate(c, server, name, fields))
  {
  }

  lemma {:induction false} RunMirrored(
    servers: set<string>, run: seq<Action>, catalogs: seq<Catalog>, mirrors: seq<Mirror>, i: nat)
    requires Separate(servers) && IsRun(servers, run, catalogs, mirrors) && i <= |run|
    ensures CatalogFine(catalogs[i]) && ServersIn(catalogs[i], servers) && mirrors[i] == Views(catalogs[i])
  {
    if i == 0 {
    } else {
      var c, a := catalogs[i - 1], run[i - 1];
      RunMirrored(servers, run, catalogs, mirrors, i - 1);
      match a
      case RefreshServer(server, raws, order) =>
        forall k | k in c && c[k].server != server ensures !Owned(k, server) {
          SeparateKeys(servers, server, c[k].server, c[k].name);
        }
        RefreshMirrored(c, server, raws, order);
        RefreshCatalog(c, server, raws, order);
        IncomingFine(c, server, raws);
      case AnnotateTool(server, name, fields) =>
        AnnotateKeeps(c, server, name, fields);
    }
  }

  // Two servers, one named like the other with a slash and more: refreshing the shorter one drops the
  // tool of the longer one, with an event that names a key nobody has.
  const TOOL := Raw("t", "", "{}", "")

  function BadRun(short: string, long: string): seq<Action> {
    [RefreshServer(long, [TOOL], []), RefreshServer(short, [], [KeyOf(long, "t")])]
  }

  lemma DroppedUnseen(short: string, long: string)
    requires Owned(long, short)
    ensures var c1 := Next(map[], BadRun(short, long)[0]);
            var c2 := Next(c1.catalog, BadRun(short, long)[1]);
            && c1.catalog == map[KeyOf(long, "t") := Define(map[], long, TOOL)]
            && c1.events == [Added(long, "t", Define(map[], long, TOOL))]
            && c2.catalog == map[] && c2.events == [Removed(short, "t")]
  {
    var k := KeyOf(long, "t");
    assert [TOOL][..0] == [] && [k][..0] == [];
    assert Incoming(map[], long, []) == map[] && IncomingKeys(long, []) == [];
    assert Incoming(map[], long, [TOOL]) == map[k := Define(map[], long, TOOL)];
    assert IncomingKeys(long, [TOOL]) == [k];
    var c1 := Next(map[], BadRun(short, long)[0]);
    assert InstallAll(Step(map[], []), long, Incoming(map[], long, [TOOL]), []) == Step(map[], []);
    assert RemoveAll(c1.catalog, short, map[], []) == Step(c1.catalog, []);
    assert RemoveAll(c1.catalog, short, map[], [k]) == Step(map[], [Removed(short, "t")]);
  }

  lemma BadRunBreaks(servers: set<string>, short: string, long: string)
    returns (catalogs: seq<Catalog>, mirrors: seq<Mirror>)
    requires short in servers && long in servers && Owned(long, short)
    ensures IsRun(servers, BadRun(short, long), catalogs, mirrors) && mirrors[2] != Views(catalogs[2])
  {
    var run, k := BadRun(short, long), KeyOf(long, "t");
    DroppedUnseen(short, long);
    var c1, c2 := Next(map[], run[0]), Next(Next(map[], run[0]).catalog, run[1]);
    assert forall i | 0 <= i <= |short| :: k[i] == long[i];
    assert Owned(k, short);
    FoldOne(map[], [], c1.events[0]);
    var m1 := Fold(map[], c1.events);
    assert m1 == map[k := View("", "{}")];
    FoldOne(m1, [], c2.events[0]);
    assert |KeyOf(short, "t")| < |k|;
    catalogs, mirrors := [map[], c1.catalog, c2.catalog], [map[], m1, Fold(m1, c2.events)];
    assert k in mirrors[2];
  }

  /** `m` has the keys, descriptions and schemas of `c`. */
  ghost predicate Mirrors(m: Mirror, c: Catalog) {
    forall k :: (k in m <==> k in c) && (k in c ==> m[k].description == c[k].description && m[k].schema == c[k].schema)
  }

  lemma MirrorsViews(m: Mirror, c: Catalog)
    ensures Mirrors(m, c) <==> m == Views(c)
  {
    if Mirrors(m, c) {
      forall k | k in c ensures m[k] == Views(c)[k] {}
      assert m.Keys == Views(c).Keys;
    }
  }

  /** In every run over `servers` the subscriber holds exactly the keys, descriptions and schemas of the
      catalog, if and only if no server is named like another with a slash and more. */
  lemma MirrorExactly(servers: set<string>)
    ensures (forall run, catalogs, mirrors, i: nat | IsRun(servers, run, catalogs, mirrors) && i <= |run| ::
               Mirrors(mirrors[i], catalogs[i]))
            <==> Separate(servers)
  {
    if Separate(servers) {
      forall run, catalogs, mirrors, i: nat | IsRun(servers, run, catalogs, mirrors) && i <= |run|
        ensures Mirrors(mirrors[i], catalogs[i])
      {
        MirrorsViews(mirrors[i], catalogs[i]);
        RunMirrored(servers, run, catalogs, mirrors, i);
      }
    } else {
      var short, long :| short in servers && long in servers && Owned(long, short);
      var catalogs, mirrors := BadRunBreaks(servers, short, long);
      MirrorsViews(mirrors[2], catalogs[2]);
      assert |BadRun(short, long)| == 2;
    }
  }

  /** With such names a refresh leaves the tools of other servers as they were, in every run. */
  lemma OthersUntouched(
    servers: set<string>, run: seq<Action>, catalogs: seq<Catalog>, mirrors: seq<Mirror>, i: nat, k: Key)
    requires Separate(servers) && IsRun(servers, run, catalogs, mirrors) && i < |run| && run[i].RefreshServer?
    requires k in catalogs[i] && catalogs[i][k].server != run[i].server
    ensures k in catalogs[i + 1] && catalogs[i + 1][k] == catalogs[i][k]
  {
    var c, server := catalogs[i], run[i].server;
    RunMirrored(servers, run, catalogs, mirrors, i);
    forall k | k in c && c[k].server != server ensures !Owned(k, server) {
      SeparateKeys(servers, server, c[k].server, c[k].name);
    }
    OthersUntouchedExactly(c, server, run[i].raws, run[i].order);
  }

  // ----- The program ------------------------------------------------------------------------------------------

  class ToolRegistry {
    var catalog: Catalog
    var emitted: seq<Event>

    constructor ()
      ensures catalog == map[] && emitted == []
    {
      catalog, emitted := map[], [];
    }

    /** `currentKeys` are the keys of the server in the order of the catalog. */
    method RefreshTools(server: string, raws: seq<Raw>, currentKeys: seq<Key>)
      requires ListsOwned(currentKeys, catalog, server)
      modifies this
      ensures catalog == Refresh(old(catalog), server, raws, currentKeys).catalog
      ensures emitted == old(emitted) + Refresh(old(catalog), server, raws, currentKeys).events
    {
      var incoming, keys := Collect(server, raws);
      IncomingFine(catalog, server, raws);
      RemoveMissing(server, incoming, currentKeys);
      Install(server, incoming, keys, RemoveAll(old(catalog), server, incoming, currentKeys), old(emitted));
    }

    /** The first pass: tools that are no longer reported. */
    method RemoveMissing(server: string, incoming: Catalog, currentKeys: seq<Key>)
      modifies this
      ensures var s := RemoveAll(old(catalog), server, incoming, currentKeys);
              catalog == s.catalog && emitted == old(emitted) + s.events
    {
      ghost var s := Step(catalog, []);
      for i := 0 to |currentKeys|
        invariant s == RemoveAll(old(catalog), server, incoming, currentKeys[..i])
        invariant catalog == s.catalog && emitted == old(emitted) + s.events
      {
        var key := currentKeys[i];
        assert currentKeys[..i + 1][..i] == currentKeys[..i];
        s := RemoveOne(s, server, incoming, key);
        if key !in incoming && key in catalog {
          var before := catalog[key];
          catalog := catalog - {key};
          emitted := emitted + [Removed(server, before.name)];
        }
      }
      assert currentKeys[..|currentKeys|] == currentKeys;
    }

    /** The second pass: tools that are new or changed. */
    method Install(server: string, incoming: Catalog, keys: seq<Key>, ghost from: Step, ghost base: seq<Event>)
      requires forall k | k in keys :: k in incoming
      requires catalog == from.catalog && emitted == base + from.events
      modifies this
      ensures var s := InstallAll(from, server, incoming, keys);
              catalog == s.catalog && emitted == base + s.events
    {
      ghost var s := from;
      for i := 0 to |keys|
        invariant s == InstallAll(from, server, incoming, keys[..i])
        invariant catalog == s.catalog && emitted == base + s.events
      {
        var key := keys[i];
        assert keys[..i + 1][..i] == keys[..i];
        s := InstallOne(s, server, incoming, key);
        var def := incoming[key];
        if key !in catalog {
          emitted := emitted + [Added(server, def.name, def)];
        } else if catalog[key].description != def.description || catalog[key].schema != def.schema {
          emitted := emitted + [Updated(server, def.name, def)];
        }
        catalog := catalog[key := def];
      }
      assert keys[..|keys|] == keys;
    }

    method Collect(server: string, raws: seq<Raw>) returns (incoming: Catalog, keys: seq<Key>)
      ensures incoming == Incoming(catalog, server, raws) && keys == IncomingKeys(server, raws)
    {
      incoming, keys := map[], [];
      for i := 0 to |raws|
        invariant incoming == Incoming(catalog, server, raws[..i]) && keys == IncomingKeys(server, raws[..i])
      {
        assert raws[..i + 1][..i] == raws[..i];
        var raw := raws[i];
        var key := KeyOf(server, raw.name);
        var def := Tool(server, raw.name, raw.description, raw.schema, raw.output, map[]);
        if key in catalog { def := def.(meta := catalog[key].meta); }
        incoming := incoming[key := def];
        if key !in keys { keys := keys + [key]; }
      }
      assert raws[..|raws|] == raws;
    }

    method SetAnnotations(server: string, name: string, fields: map<string, string>)
      modifies this`catalog
      ensures catalog == Annotate(old(catalog), server, name, fields)
      ensures var key := server + "/" + name;
              if key !in old(catalog) then catalog == old(catalog)
              else
                key in catalog && catalog == old(catalog)[key := old(catalog)[key].(meta := catalog[key].meta)]
                && forall f :: (f in catalog[key].meta
                                <==> f in old(catalog)[key].meta || (f in fields && f in ALLOWED))
                            && (f in catalog[key].meta ==>
                                  catalog[key].meta[f]
                                  == if f in fields && f in ALLOWED then fields[f] else old(catalog)[key].meta[f])
    {
      var key := KeyOf(server, name);
      if key !in catalog { return; }
      var existing := catalog[key];
      var chosen := map f | f in fields && f in ALLOWED :: fields[f];
      catalog := catalog[key := existing.(meta := existing.meta + chosen)];
    }
  }
}
