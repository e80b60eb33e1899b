/**
  Resolution of type identifiers over the dependencies of schemas
  (`ident_cache.rs`): a recursive search with a shared set of visited schemas,
  and an iterator over everything a schema can see. Both follow one order, the
  depth-first order of the dependency graph, which may be cyclic.
 */
module IdentCache {
  import opened Wrappers
  import opened Meta

  datatype Dependency = Include(id: SchemaId) | Import(id: SchemaId) | Override(id: SchemaId) | Redefine(id: SchemaId)

  datatype TypeKey = TypeKey(type_: IdentType, name: string)

  /** `types` lists a hash set: without repetition, in whatever order. */
  datatype SchemaEntry = SchemaEntry(ns: NamespaceId, schema: SchemaId, types: seq<TypeKey>, dependencies: seq<Dependency>) {
    predicate Matches(ident: TypeIdent) {
      && (ident.ns == UNKNOWN || ident.ns == ns)
      && (ident.schema == UNKNOWN || ident.schema == schema)
      && TypeKey(ident.type_, ident.name.text) in types
    }

    function MakeIdent(ident: TypeIdent): TypeIdent {
      ident.(ns := if ident.ns == UNKNOWN then ns else ident.ns,
             schema := if ident.schema == UNKNOWN then schema else ident.schema)
    }
  }

  /** The entry holds the identifier: namespace and schema are its own, kind and name are listed. */
  predicate Holds(e: SchemaEntry, id: TypeIdent) {
    id.ns == e.ns && id.schema == e.schema && exists k | 0 <= k < |e.types| :: e.types[k].type_ == id.type_ && e.types[k].name == id.name.text
  }

  /** The identifier is what was asked for: kind and name, and namespace and schema where they were given. */
  predicate Fits(ident: TypeIdent, id: TypeIdent) {
    && id.type_ == ident.type_ && id.name == ident.name
    && (ident.ns != UNKNOWN ==> id.ns == ident.ns) && (ident.schema != UNKNOWN ==> id.schema == ident.schema)
  }

  /** An entry matches exactly if it holds an identifier that fits, and that one is made. */
  lemma MatchesIff(e: SchemaEntry, ident: TypeIdent)
    ensures e.Matches(ident) <==> exists id :: Holds(e, id) && Fits(ident, id)
    ensures e.Matches(ident) ==> forall id :: Holds(e, id) && Fits(ident, id) <==> id == e.MakeIdent(ident)
  {
    var key := TypeKey(ident.type_, ident.name.text);
    assert key in e.types <==> exists k | 0 <= k < |e.types| :: e.types[k].type_ == ident.type_ && e.types[k].name == ident.name.text by {
      if k :| 0 <= k < |e.types| && e.types[k].type_ == ident.type_ && e.types[k].name == ident.name.text {
        assert e.types[k] == key;
      }
    }
    if e.Matches(ident) {
      assert Holds(e, e.MakeIdent(ident)) && Fits(ident, e.MakeIdent(ident));
    }
  }

  type Schemas = map<SchemaId, SchemaEntry>

  function Dependencies(e: SchemaEntry): seq<SchemaId> {
    seq(|e.dependencies|, i requires 0 <= i < |e.dependencies| => e.dependencies[i].id)
  }

  /** The dependencies of an entry, in order, whatever their kind. */
  lemma DependenciesAreIds(e: SchemaEntry)
    ensures |Dependencies(e)| == |e.dependencies|
    ensures forall i | 0 <= i < |e.dependencies| :: Dependencies(e)[i] == e.dependencies[i].id
  {
  }

  // ---------- Depth-first order

  datatype Visit = Visit(order: seq<SchemaId>, visited: set<SchemaId>)

  /** Visits `todo` and everything below it, depth first, except what is visited already. */
  function VisitAll(schemas: Schemas, visited: set<SchemaId>, todo: seq<SchemaId>): (r: Visit)
    ensures visited <= r.visited
    decreases schemas.Keys - visited, |todo|
  {
    if todo == [] then Visit([], visited)
    else
      var d := todo[0];
      if d in visited then VisitAll(schemas, visited, todo[1..])
      else if d !in schemas then
        assert schemas.Keys - (visited + {d}) == schemas.Keys - visited;
        VisitAll(schemas, visited + {d}, todo[1..])
      else
        assert d in schemas.Keys - visited;
        var inner := VisitAll(schemas, visited + {d}, Dependencies(schemas[d]));
        var rest := VisitAll(schemas, inner.visited, todo[1..]);
        Visit([d] + inner.order + rest.order, rest.visited)
  }

  lemma {:induction false} VisitAppend(schemas: Schemas, visited: set<SchemaId>, a: seq<SchemaId>, b: seq<SchemaId>)
    ensures var first := VisitAll(schemas, visited, a);
            var second := VisitAll(schemas, first.visited, b);
            VisitAll(schemas, visited, a + b) == Visit(first.order + second.order, second.visited)
    decreases schemas.Keys - visited, |a|
  {
    if a == [] {
      assert a + b == b;
    } else {
      var d := a[0];
      assert (a + b)[1..] == a[1..] + b;
      if d in visited {
        VisitAppend(schemas, visited, a[1..], b);
      } else if d !in schemas {
        assert schemas.Keys - (visited + {d}) == schemas.Keys - visited;
        VisitAppend(schemas, visited + {d}, a[1..], b);
      } else {
        var inner := VisitAll(schemas, visited + {d}, Dependencies(schemas[d]));
        assert d in schemas.Keys - visited;
        VisitAppend(schemas, inner.visited, a[1..], b);
        var rest := VisitAll(schemas, inner.visited, a[1..]);
        var second := VisitAll(schemas, rest.visited, b);
        assert [d] + inner.order + (rest.order + second.order) == [d] + inner.order + rest.order + second.order;
      }
    }
  }

  /** Every known schema in `set_` has all its dependencies there. */
  ghost predicate Closed(schemas: Schemas, set_: set<SchemaId>) {
    forall x, y | x in set_ && x in schemas && y in Dependencies(schemas[x]) :: y in set_
  }

  /** All dependencies of the newly visited schemas are visited, too. */
  ghost predicate ClosedSince(schemas: Schemas, before: set<SchemaId>, after: set<SchemaId>) {
    forall x, y | x in after && x !in before && x in schemas && y in Dependencies(schemas[x]) :: y in after
  }

  lemma {:induction false} VisitCovers(schemas: Schemas, visited: set<SchemaId>, todo: seq<SchemaId>)
    ensures var r := VisitAll(schemas, visited, todo);
            && (forall d | d in todo :: d in r.visited)
            && ClosedSince(schemas, visited, r.visited)
            && (forall x :: x in r.order <==> x in r.visited && x !in visited && x in schemas)
    decreases schemas.Keys - visited, |todo|
  {
    if todo != [] {
      var d := todo[0];
      if d in visited {
        VisitCovers(schemas, visited, todo[1..]);
      } else if d !in schemas {
        assert schemas.Keys - (visited + {d}) == schemas.Keys - visited;
        VisitCovers(schemas, visited + {d}, todo[1..]);
      } else {
        assert d in schemas.Keys - visited;
        var inner := VisitAll(schemas, visited + {d}, Dependencies(schemas[d]));
        VisitCovers(schemas, visited + {d}, Dependencies(schemas[d]));
        VisitCovers(schemas, inner.visited, todo[1..]);
      }
    }
  }

  // ---------- Reachability

  /** `path` leads along dependencies of known schemas. */
  ghost predicate IsPath(schemas: Schemas, path: seq<SchemaId>) {
    path != [] && forall i | 0 <= i < |path| - 1 :: path[i] in schemas && path[i + 1] in Dependencies(schemas[path[i]])
  }

  ghost predicate Reaches(schemas: Schemas, a: SchemaId, b: SchemaId) {
    exists path :: IsPath(schemas, path) && path[0] == a && path[|path| - 1] == b
  }

  lemma ReachesStep(schemas: Schemas, a: SchemaId, b: SchemaId, c: SchemaId)
    requires Reaches(schemas, b, c) && a in schemas && b in Dependencies(schemas[a])
    ensures Reaches(schemas, a, c)
  {
    var path :| IsPath(schemas, path) && path[0] == b && path[|path| - 1] == c;
    var longer := [a] + path;
    forall i | 0 <= i < |longer| - 1
      ensures longer[i] in schemas && longer[i + 1] in Dependencies(schemas[longer[i]])
    {
      if i > 0 {
        assert longer[i] == path[i - 1] && longer[i + 1] == path[i];
      }
    }
    assert IsPath(schemas, longer);
  }

  lemma ReachesSelf(schemas: Schemas, a: SchemaId)
    ensures Reaches(schemas, a, a)
  {
    assert IsPath(schemas, [a]);
  }

  /** A closed set contains everything reachable from its members. */
  lemma {:induction false} ClosedPath(schemas: Schemas, set_: set<SchemaId>, path: seq<SchemaId>, k: nat)
    requires Closed(schemas, set_) && IsPath(schemas, path) && path[0] in set_ && k < |path|
    ensures path[k] in set_
    decreases k
  {
    if k > 0 {
      ClosedPath(schemas, set_, path, k - 1);
    }
  }

  lemma ClosedReaches(schemas: Schemas, set_: set<SchemaId>, a: SchemaId, b: SchemaId)
    requires Closed(schemas, set_) && a in set_ && Reaches(schemas, a, b)
    ensures b in set_
  {
    var path :| IsPath(schemas, path) && path[0] == a && path[|path| - 1] == b;
    ClosedPath(schemas, set_, path, |path| - 1);
  }

  /** Only reachable schemas are visited. */
  lemma {:induction false} VisitSound(schemas: Schemas, visited: set<SchemaId>, todo: seq<SchemaId>, x: SchemaId)
    requires var r := VisitAll(schemas, visited, todo); x in r.visited && x !in visited
    ensures exists d | d in todo :: Reaches(schemas, d, x)
    decreases schemas.Keys - visited, |todo|
  {
    var d := todo[0];
    if d in visited {
      VisitSound(schemas, visited, todo[1..], x);
    } else {
      if x == d {
        ReachesSelf(schemas, d);
      } else if d !in schemas {
        assert schemas.Keys - (visited + {d}) == schemas.Keys - visited;
        VisitSound(schemas, visited + {d}, todo[1..], x);
      } else {
        assert d in schemas.Keys - visited;
        var inner := VisitAll(schemas, visited + {d}, Dependencies(schemas[d]));
        if x in inner.visited {
          VisitSound(schemas, visited + {d}, Dependencies(schemas[d]), x);
          var y :| y in Dependencies(schemas[d]) && Reaches(schemas, y, x);
          ReachesStep(schemas, d, y, x);
        } else {
          VisitSound(schemas, inner.visited, todo[1..], x);
        }
      }
    }
  }

  /** From scratch, the visit finds exactly the reachable known schemas. */
  lemma VisitIsReachability(schemas: Schemas, todo: seq<SchemaId>, x: SchemaId)
    ensures x in VisitAll(schemas, {}, todo).order <==> x in schemas && exists d | d in todo :: Reaches(schemas, d, x)
  {
    var r := VisitAll(schemas, {}, todo);
    VisitCovers(schemas, {}, todo);
    if x in r.order {
      VisitSound(schemas, {}, todo, x);
    }
    if x in schemas && exists d | d in todo :: Reaches(schemas, d, x) {
      var d :| d in todo && Reaches(schemas, d, x);
      ClosedReaches(schemas, r.visited, d, x);
    }
  }

  // ---------- What comes first

  /** `path` leads from `a` to `b` around the schemas in `visited`. */
  ghost predicate PathAround(schemas: Schemas, visited: set<SchemaId>, path: seq<SchemaId>, a: SchemaId, b: SchemaId) {
    IsPath(schemas, path) && path[0] == a && path[|path| - 1] == b && forall i | 0 <= i < |path| :: path[i] !in visited
  }

  ghost predicate ReachesAround(schemas: Schemas, visited: set<SchemaId>, a: SchemaId, b: SchemaId) {
    exists path :: PathAround(schemas, visited, path, a, b)
  }

  lemma AroundSelf(schemas: Schemas, visited: set<SchemaId>, a: SchemaId)
    requires a !in visited
    ensures ReachesAround(schemas, visited, a, a)
  {
    assert PathAround(schemas, visited, [a], a, a);
  }

  lemma AroundStep(schemas: Schemas, visited: set<SchemaId>, more: set<SchemaId>, a: SchemaId, b: SchemaId, c: SchemaId)
    requires ReachesAround(schemas, more, b, c) && visited <= more
    requires a in schemas && a !in visited && b in Dependencies(schemas[a])
    ensures ReachesAround(schemas, visited, a, c)
  {
    var path :| PathAround(schemas, more, path, b, c);
    var longer := [a] + path;
    forall i | 0 <= i < |longer| - 1
      ensures longer[i] in schemas && longer[i + 1] in Dependencies(schemas[longer[i]])
    {
      if i > 0 {
        assert longer[i] == path[i - 1] && longer[i + 1] == path[i];
      }
    }
    assert PathAround(schemas, visited, longer, a, c);
  }

  lemma AroundLess(schemas: Schemas, visited: set<SchemaId>, more: set<SchemaId>, a: SchemaId, b: SchemaId)
    requires ReachesAround(schemas, more, a, b) && visited <= more
    ensures ReachesAround(schemas, visited, a, b)
  {
    var path :| PathAround(schemas, more, path, a, b);
    assert PathAround(schemas, visited, path, a, b);
  }

  /** What is newly visited is reached around what was visited before. */
  lemma {:induction false} VisitedAround(schemas: Schemas, visited: set<SchemaId>, todo: seq<SchemaId>, x: SchemaId)
    requires x in VisitAll(schemas, visited, todo).visited && x !in visited
    ensures exists d | d in todo :: ReachesAround(schemas, visited, d, x)
    decreases schemas.Keys - visited, |todo|
  {
    var d := todo[0];
    if d in visited {
      VisitedAround(schemas, visited, todo[1..], x);
    } else if x == d {
      AroundSelf(schemas, visited, d);
    } else if d !in schemas {
      assert schemas.Keys - (visited + {d}) == schemas.Keys - visited;
      VisitedAround(schemas, visited + {d}, todo[1..], x);
      var y :| y in todo[1..] && ReachesAround(schemas, visited + {d}, y, x);
      AroundLess(schemas, visited, visited + {d}, y, x);
    } else {
      assert d in schemas.Keys - visited;
      var inner := VisitAll(schemas, visited + {d}, Dependencies(schemas[d]));
      if x in inner.visited {
        VisitedAround(schemas, visited + {d}, Dependencies(schemas[d]), x);
        var y :| y in Dependencies(schemas[d]) && ReachesAround(schemas, visited + {d}, y, x);
        AroundStep(schemas, visited, visited + {d}, d, y, x);
      } else {
        VisitedAround(schemas, inner.visited, todo[1..], x);
        var y :| y in todo[1..] && ReachesAround(schemas, inner.visited, y, x);
        AroundLess(schemas, visited, inner.visited, y, x);
      }
    }
  }

  /** A path around the schemas visited before stays among those visited after. */
  lemma {:induction false} AroundCovered(
    schemas: Schemas, visited: set<SchemaId>, todo: seq<SchemaId>, path: seq<SchemaId>, b: SchemaId, k: nat)
    requires path != [] && path[0] in todo && PathAround(schemas, visited, path, path[0], b) && k < |path|
    ensures path[k] in VisitAll(schemas, visited, todo).visited
    decreases k
  {
    VisitCovers(schemas, visited, todo);
    if k > 0 {
      AroundCovered(schemas, visited, todo, path, b, k - 1);
    }
  }

  /** The visit lists exactly the known schemas reached around what was visited before. */
  lemma VisitIff(schemas: Schemas, visited: set<SchemaId>, todo: seq<SchemaId>, x: SchemaId)
    ensures x in VisitAll(schemas, visited, todo).order <==>
              x in schemas && exists d | d in todo :: ReachesAround(schemas, visited, d, x)
  {
    VisitCovers(schemas, visited, todo);
    if x in VisitAll(schemas, visited, todo).order {
      VisitedAround(schemas, visited, todo, x);
    }
    if x in schemas && exists d | d in todo :: ReachesAround(schemas, visited, d, x) {
      var d :| d in todo && ReachesAround(schemas, visited, d, x);
      var path :| PathAround(schemas, visited, path, d, x);
      AroundCovered(schemas, visited, todo, path, x, |path| - 1);
    }
  }

  /** A schema comes before everything below it. */
  lemma SelfFirst(schemas: Schemas, visited: set<SchemaId>, d: SchemaId)
    requires d in schemas && d !in visited
    ensures VisitAll(schemas, visited, [d]).order == [d] + VisitAll(schemas, visited + {d}, Dependencies(schemas[d])).order
  {
    assert [d][1..] == [];
    var inner := VisitAll(schemas, visited + {d}, Dependencies(schemas[d]));
    assert [d] + inner.order + [] == [d] + inner.order;
  }

  /** What is reached from the first `i` dependencies comes before all that is not. */
  lemma EarlierFirst(schemas: Schemas, visited: set<SchemaId>, todo: seq<SchemaId>, i: nat, j: nat, k: nat)
    requires i <= |todo| && j < |VisitAll(schemas, visited, todo).order| && k < |VisitAll(schemas, visited, todo).order|
    requires var order := VisitAll(schemas, visited, todo).order;
             && (exists d | d in todo[..i] :: ReachesAround(schemas, visited, d, order[j]))
             && !(exists d | d in todo[..i] :: ReachesAround(schemas, visited, d, order[k]))
    ensures j < k
  {
    var order := VisitAll(schemas, visited, todo).order;
    var first := VisitAll(schemas, visited, todo[..i]);
    VisitAppend(schemas, visited, todo[..i], todo[i..]);
    assert todo[..i] + todo[i..] == todo;
    var second := VisitAll(schemas, first.visited, todo[i..]);
    VisitCovers(schemas, visited, todo);
    assert order[j] in order;
    VisitIff(schemas, visited, todo[..i], order[j]);
    VisitIff(schemas, visited, todo[..i], order[k]);
    VisitCovers(schemas, first.visited, todo[i..]);
    VisitCovers(schemas, visited, todo[..i]);
    if j >= |first.order| {
      assert order[j] == second.order[j - |first.order|];
      assert order[j] in second.order;
    }
    if k < |first.order| {
      assert order[k] == first.order[k];
      assert order[k] in first.order;
    }
  }

  // ---------- Search

  /** The first schema of an order that has a matching type. */
  function FirstMatch(schemas: Schemas, order: seq<SchemaId>, ident: TypeIdent): Option<SchemaEntry> {
    if order == [] then None
    else if order[0] in schemas && schemas[order[0]].Matches(ident) then Some(schemas[order[0]])
    else FirstMatch(schemas, order[1..], ident)
  }

  lemma {:induction false} FirstMatchAppend(schemas: Schemas, a: seq<SchemaId>, b: seq<SchemaId>, ident: TypeIdent)
    ensures FirstMatch(schemas, a + b, ident) ==
              if FirstMatch(schemas, a, ident).Some? then FirstMatch(schemas, a, ident) else FirstMatch(schemas, b, ident)
    decreases |a|
  {
    if a == [] {
      assert a + b == b;
    } else {
      assert (a + b)[1..] == a[1..] + b;
      FirstMatchAppend(schemas, a[1..], b, ident);
    }
  }

  lemma {:induction false} FirstMatchFound(schemas: Schemas, order: seq<SchemaId>, ident: TypeIdent)
    ensures FirstMatch(schemas, order, ident).Some? <==>
              exists x | x in order :: x in schemas && schemas[x].Matches(ident)
    ensures FirstMatch(schemas, order, ident).Some? ==>
              exists x | x in order :: x in schemas && schemas[x].Matches(ident) && FirstMatch(schemas, order, ident) == Some(schemas[x])
    decreases |order|
  {
    if order != [] {
      FirstMatchFound(schemas, order[1..], ident);
      assert order == [order[0]] + order[1..];
    }
  }

  /** A schema in which the identifier can be found, starting from `start`. */
  ghost predicate FoundFrom(schemas: Schemas, start: SchemaId, ident: TypeIdent, entry: SchemaEntry) {
    exists x :: x in schemas && schemas[x] == entry && entry.Matches(ident) && Reaches(schemas, start, x)
  }

  /** Nothing visited matches, and everything below it is visited. */
  ghost predicate Exhausted(schemas: Schemas, visited: set<SchemaId>, ident: TypeIdent) {
    Closed(schemas, visited) && forall x | x in visited && x in schemas :: !schemas[x].Matches(ident)
  }

  lemma ExhaustedNowhere(schemas: Schemas, visited: set<SchemaId>, ident: TypeIdent, start: SchemaId)
    requires Exhausted(schemas, visited, ident) && start in visited
    ensures forall entry :: !FoundFrom(schemas, start, ident, entry)
  {
    forall entry
      ensures !FoundFrom(schemas, start, ident, entry)
    {
      if FoundFrom(schemas, start, ident, entry) {
        var x :| x in schemas && schemas[x] == entry && entry.Matches(ident) && Reaches(schemas, start, x);
        ClosedReaches(schemas, visited, start, x);
      }
    }
  }

  /** A search among the unvisited schemas is complete although the visited set is shared. */
  lemma SearchComplete(schemas: Schemas, visited: set<SchemaId>, start: SchemaId, ident: TypeIdent)
    requires Exhausted(schemas, visited, ident)
    ensures var r := VisitAll(schemas, visited, [start]);
            var found := FirstMatch(schemas, r.order, ident);
            && (found.None? ==> Exhausted(schemas, r.visited, ident) && start in r.visited && visited <= r.visited)
            && (found.Some? ==> FoundFrom(schemas, start, ident, found.value))
            && ((exists entry :: FoundFrom(schemas, start, ident, entry)) ==> found.Some?)
  {
    var r := VisitAll(schemas, visited, [start]);
    VisitCovers(schemas, visited, [start]);
    FirstMatchFound(schemas, r.order, ident);
    var found := FirstMatch(schemas, r.order, ident);
    assert start in [start];
    if found.Some? {
      var x :| x in r.order && x in schemas && schemas[x].Matches(ident) && found == Some(schemas[x]);
      VisitSound(schemas, visited, [start], x);
    } else {
      ExhaustedNowhere(schemas, r.visited, ident, start);
    }
  }

  // ---------- The cache

  /** The key of an entry: a known schema, or the namespace of identifiers without one. */
  datatype Slot = Known(schema: SchemaId) | Unknown(ns: NamespaceId)

  datatype ResolveError = UnknownIdent(ident: TypeIdent) | AmbiguousIdent(ident: TypeIdent)

  class IdentCache {
    var schemas: Schemas
    var unknownSchema: map<NamespaceId, SchemaEntry>
    var namespaces: map<NamespaceId, set<SchemaId>>
    var globalNamespaces: seq<NamespaceId>

    /** Entries know the schema they are kept for, and list no type twice. */
    ghost predicate Valid()
      reads this
    {
      && (forall s | s in schemas :: schemas[s].schema == s && Listing(schemas[s].types))
      && (forall n | n in unknownSchema :: unknownSchema[n].schema == UNKNOWN && Listing(unknownSchema[n].types))
    }

    constructor ()
      ensures Valid() && schemas == map[] && unknownSchema == map[] && namespaces == map[] && globalNamespaces == []
    {
      schemas, unknownSchema, namespaces, globalNamespaces := map[], map[], map[], [];
    }

    method Insert(ident: TypeIdent)
      requires Valid()
      modifies this
      ensures Valid() && namespaces == old(namespaces) && globalNamespaces == old(globalNamespaces)
      ensures schemas == if ident.schema == UNKNOWN then old(schemas)
                         else old(schemas)[ident.schema := AddType(EntryFor(old(schemas), ident.schema, ident), KeyOf(ident))]
      ensures unknownSchema == if ident.schema != UNKNOWN then old(unknownSchema)
                               else old(unknownSchema)[ident.ns := AddType(EntryFor(old(unknownSchema), ident.ns, ident), KeyOf(ident))]
    {
      if ident.schema == UNKNOWN {
        unknownSchema := unknownSchema[ident.ns := AddType(EntryFor(unknownSchema, ident.ns, ident), KeyOf(ident))];
      } else {
        schemas := schemas[ident.schema := AddType(EntryFor(schemas, ident.schema, ident), KeyOf(ident))];
      }
    }

    method AddSchema(ns: NamespaceId, schema: SchemaId)
      requires Valid()
      modifies this
      ensures Valid() && unknownSchema == old(unknownSchema) && globalNamespaces == old(globalNamespaces)
      ensures schema in old(schemas) ==> schemas == old(schemas)
      ensures schema !in old(schemas) ==> schemas == old(schemas)[schema := SchemaEntry(ns, schema, [], [])]
      ensures namespaces == old(namespaces)[ns := (if ns in old(namespaces) then old(namespaces)[ns] else {}) + {schema}]
    {
      if schema !in schemas {
        schemas := schemas[schema := SchemaEntry(ns, schema, [], [])];
      }
      namespaces := namespaces[ns := (if ns in namespaces then namespaces[ns] else {}) + {schema}];
    }

    method AddDependency(schema: SchemaId, dependency: Dependency) returns (added: bool)
      requires Valid()
      modifies this`schemas
      ensures Valid()
      ensures added <==> schema in old(schemas) && dependency !in old(schemas)[schema].dependencies
      ensures schemas == if added then
                           old(schemas)[schema := old(schemas)[schema].(dependencies := old(schemas)[schema].dependencies + [dependency])]
                         else old(schemas)
    {
      added := false;
      if schema in schemas {
        var entry := schemas[schema];
        if dependency !in entry.dependencies {
          schemas := schemas[schema := entry.(dependencies := entry.dependencies + [dependency])];
          added := true;
        }
      }
    }

    method AddGlobalNamespace(ns: NamespaceId)
      requires Valid()
      modifies this
      ensures Valid() && schemas == old(schemas) && unknownSchema == old(unknownSchema)
      ensures globalNamespaces == old(globalNamespaces) + [ns]
      ensures namespaces == if ns in old(namespaces) then old(namespaces) else old(namespaces)[ns := {}]
    {
      if ns !in namespaces {
        namespaces := namespaces[ns := {}];
      }
      globalNamespaces := globalNamespaces + [ns];
    }

    /** `search_in_schema`: the first match in depth-first order; without one, everything below is visited. */
    method SearchInSchema(visited: set<SchemaId>, schema: SchemaId, ident: TypeIdent)
      returns (found: Option<SchemaEntry>, visited': set<SchemaId>)
      ensures found == FirstMatch(schemas, VisitAll(schemas, visited, [schema]).order, ident)
      ensures found.None? ==> visited' == VisitAll(schemas, visited, [schema]).visited
      decreases schemas.Keys - visited
    {
      visited' := visited;
      assert [schema][1..] == [];
      if schema in visited {
        return None, visited';
      }
      visited' := visited' + {schema};
      if schema !in schemas {
        return None, visited';
      }
      var entry := schemas[schema];
      var deps := Dependencies(entry);
      var inner := VisitAll(schemas, visited + {schema}, deps);
      assert [schema] + inner.order + [] == [schema] + inner.order;
      assert ([schema] + inner.order)[1..] == inner.order;
      if entry.Matches(ident) {
        return Some(entry), visited';
      }
      for i := 0 to |deps|
        invariant VisitAll(schemas, visited + {schema}, deps[..i]).visited == visited'
        invariant FirstMatch(schemas, VisitAll(schemas, visited + {schema}, deps[..i]).order, ident) == None
      {
        assert schema in schemas.Keys - visited;
        found, visited' := SearchInSchema(visited', deps[i], ident);
        NextDependency(schemas, visited + {schema}, deps, i, ident);
        if found.Some? {
          return;
        }
      }
      assert deps[..|deps|] == deps;
      return None, visited';
    }

    /**
      `resolve_for_schema`: finds the identifier exactly if it is somewhere
      reachable from the schema or from a global namespace, or among the
      identifiers of unknown schemas.
     */
    method ResolveForSchema(schema: SchemaId, ident: TypeIdent) returns (r: Result<TypeIdent, ResolveError>)
      ensures r.Ok? ==> exists entry :: Candidate(schema, ident, entry) && r.value == entry.MakeIdent(ident)
      ensures r.Err? ==> r.error == UnknownIdent(ident) && NoCandidate(schema, ident)
      ensures (exists entry :: FoundFrom(schemas, schema, ident, entry)) ==>
                var first := FirstMatch(schemas, VisitAll(schemas, {}, [schema]).order, ident);
                first.Some? && r == Ok(first.value.MakeIdent(ident))
      ensures r.Ok? ==> Fits(ident, r.value) && exists entry :: InReach(schema, entry) && Holds(entry, r.value)
      ensures r.Err? <==> NothingFits(schema, ident)
    {
      FailsIff(schema, ident);
      var visited: set<SchemaId> := {};
      SearchComplete(schemas, visited, schema, ident);
      var found;
      found, visited := SearchInSchema(visited, schema, ident);
      if found.Some? {
        assert Candidate(schema, ident, found.value);
        CandidateHolds(schema, ident, found.value);
        return Ok(found.value.MakeIdent(ident));
      }
      for n := 0 to |globalNamespaces|
        invariant Exhausted(schemas, visited, ident) && schema in visited
        invariant forall m, x | 0 <= m < n && globalNamespaces[m] in namespaces && x in namespaces[globalNamespaces[m]] :: x in visited
      {
        var ns := globalNamespaces[n];
        var rest := if ns in namespaces then namespaces[ns] else {};
        while rest != {}
          invariant Exhausted(schemas, visited, ident) && schema in visited
          invariant ns in namespaces ==> rest <= namespaces[ns] && forall x | x in namespaces[ns] && x !in rest :: x in visited
          invariant ns !in namespaces ==> rest == {}
          invariant forall m, x | 0 <= m < n && globalNamespaces[m] in namespaces && x in namespaces[globalNamespaces[m]] :: x in visited
          decreases rest
        {
          var s :| s in rest;
          SearchComplete(schemas, visited, s, ident);
          ExhaustedNowhere(schemas, visited, ident, schema);
          found, visited := SearchInSchema(visited, s, ident);
          if found.Some? {
            assert GlobalStart(s);
            assert Candidate(schema, ident, found.value);
            CandidateHolds(schema, ident, found.value);
            return Ok(found.value.MakeIdent(ident));
          }
          rest := rest - {s};
        }
      }
      ExhaustedNowhere(schemas, visited, ident, schema);
      forall s | GlobalStart(s)
        ensures forall entry :: !FoundFrom(schemas, s, ident, entry)
      {
        ExhaustedNowhere(schemas, visited, ident, s);
      }
      var unknown := unknownSchema.Keys;
      while unknown != {}
        invariant unknown <= unknownSchema.Keys
        invariant forall n | n in unknownSchema && n !in unknown :: !unknownSchema[n].Matches(ident)
        decreases unknown
      {
        var n :| n in unknown;
        if unknownSchema[n].Matches(ident) {
          assert Candidate(schema, ident, unknownSchema[n]);
          CandidateHolds(schema, ident, unknownSchema[n]);
          return Ok(unknownSchema[n].MakeIdent(ident));
        }
        unknown := unknown - {n};
      }
      assert NoCandidate(schema, ident);
      return Err(UnknownIdent(ident));
    }

    /** The known schemas a global request is about. */
    ghost predicate InScope(ident: TypeIdent, s: SchemaId)
      reads this
    {
      if ident.schema != UNKNOWN then s == ident.schema
      else ident.ns == UNKNOWN || (ident.ns in namespaces && s in namespaces[ident.ns])
    }

    /** The entries that answer a global request. */
    ghost predicate Answers(ident: TypeIdent, slot: Slot)
      reads this
    {
      match slot
      case Known(s) => s in schemas && InScope(ident, s) && schemas[s].Matches(ident)
      case Unknown(n) => ident.schema == UNKNOWN && n in unknownSchema && unknownSchema[n].Matches(ident)
    }

    ghost function EntryAt(slot: Slot): SchemaEntry
      requires match slot case Known(s) => s in schemas case Unknown(n) => n in unknownSchema
      reads this
    {
      match slot
      case Known(s) => schemas[s]
      case Unknown(n) => unknownSchema[n]
    }

    /** Every schema is listed under the namespace of its entry, as `add_schema` lists it. */
    ghost predicate Registered()
      reads this
    {
      forall s | s in schemas :: schemas[s].ns in namespaces && s in namespaces[schemas[s].ns]
    }

    /** Then the entries that answer are just those that hold an identifier as it was asked for. */
    lemma AnswersIff(ident: TypeIdent, slot: Slot)
      requires Valid() && Registered()
      ensures Answers(ident, slot) <==>
                && (match slot case Known(s) => s in schemas case Unknown(n) => n in unknownSchema)
                && exists id :: Holds(EntryAt(slot), id) && Fits(ident, id)
    {
      if match slot case Known(s) => s in schemas case Unknown(n) => n in unknownSchema {
        MatchesIff(EntryAt(slot), ident);
      }
    }

    /** `resolve`: succeeds exactly if one single entry answers. */
    method Resolve(ident: TypeIdent) returns (r: Result<TypeIdent, ResolveError>)
      ensures r.Ok? ==> exists slot :: Answers(ident, slot) && r.value == EntryAt(slot).MakeIdent(ident)
                                       && forall other :: Answers(ident, other) ==> other == slot
      ensures r == Err(UnknownIdent(ident)) <==> forall slot :: !Answers(ident, slot)
      ensures r == Err(AmbiguousIdent(ident)) <==> exists a, b :: a != b && Answers(ident, a) && Answers(ident, b)
      ensures r.Err? ==> r.error == UnknownIdent(ident) || r.error == AmbiguousIdent(ident)
      ensures r.Ok? ==> Fits(ident, r.value) && exists slot :: Answers(ident, slot) && Holds(EntryAt(slot), r.value)
    {
      AllAnswersHold(ident);
      var todo := if ident.schema != UNKNOWN then {ident.schema}
                  else if ident.ns == UNKNOWN then schemas.Keys
                  else if ident.ns in namespaces then namespaces[ident.ns] else {};
      ghost var done: set<SchemaId> := {};
      var ret: Option<TypeIdent> := None;
      ghost var first: Slot := Known(0);
      while todo != {}
        invariant forall s :: InScope(ident, s) && s in schemas ==> s in todo || s in done
        invariant forall s :: s in todo ==> InScope(ident, s) && s !in done
        invariant ret.None? ==> forall s | s in done :: !Answers(ident, Known(s))
        invariant ret.Some? ==> Answers(ident, first) && ret.value == EntryAt(first).MakeIdent(ident)
        invariant ret.Some? ==> first.Known? && first.schema in done && forall s | s in done && Answers(ident, Known(s)) :: first == Known(s)
        decreases todo
      {
        var s :| s in todo;
        if s in schemas && schemas[s].Matches(ident) {
          assert Answers(ident, Known(s));
          if ret.Some? {
            return Err(AmbiguousIdent(ident));
          }
          ret, first := Some(schemas[s].MakeIdent(ident)), Known(s);
        }
        todo, done := todo - {s}, done + {s};
      }
      assert ret.None? ==> forall s :: !Answers(ident, Known(s));
      assert ret.Some? ==> forall s :: Answers(ident, Known(s)) ==> first == Known(s);
      if ident.schema == UNKNOWN {
        var rest := unknownSchema.Keys;
        while rest != {}
          invariant rest <= unknownSchema.Keys
          invariant forall s :: Answers(ident, Known(s)) ==> ret.Some? && first == Known(s)
          invariant forall n | n in unknownSchema && n !in rest :: Answers(ident, Unknown(n)) ==> ret.Some? && first == Unknown(n)
          invariant ret.Some? ==> Answers(ident, first) && ret.value == EntryAt(first).MakeIdent(ident)
          invariant ret.Some? && first.Unknown? ==> first.ns !in rest
          decreases rest
        {
          var n :| n in rest;
          if unknownSchema[n].Matches(ident) {
            assert Answers(ident, Unknown(n));
            if ret.Some? {
              assert first != Unknown(n);
              return Err(AmbiguousIdent(ident));
            }
            ret, first := Some(unknownSchema[n].MakeIdent(ident)), Unknown(n);
          }
          rest := rest - {n};
        }
      }
      return if ret.Some? then Ok(ret.value) else Err(UnknownIdent(ident));
    }

    /** A schema that is searched for the sake of a global namespace. */
    ghost predicate GlobalStart(s: SchemaId)
      reads this
    {
      exists n | 0 <= n < |globalNamespaces| :: globalNamespaces[n] in namespaces && s in namespaces[globalNamespaces[n]]
    }

    /** An entry that is searched in the context of `schema`. */
    ghost predicate InReach(schema: SchemaId, entry: SchemaEntry)
      reads this
    {
      || (exists x :: x in schemas && schemas[x] == entry && Reaches(schemas, schema, x))
      || (exists s, x :: GlobalStart(s) && x in schemas && schemas[x] == entry && Reaches(schemas, s, x))
      || (exists n :: n in unknownSchema && unknownSchema[n] == entry)
    }

    /** No identifier that is held in reach fits. */
    ghost predicate NothingFits(schema: SchemaId, ident: TypeIdent)
      reads this
    {
      forall entry, id | InReach(schema, entry) && Holds(entry, id) :: !Fits(ident, id)
    }

    ghost predicate NoCandidate(schema: SchemaId, ident: TypeIdent)
      reads this
    {
      forall entry :: !Candidate(schema, ident, entry)
    }

    lemma CandidateHolds(schema: SchemaId, ident: TypeIdent, entry: SchemaEntry)
      requires Candidate(schema, ident, entry)
      ensures InReach(schema, entry) && Holds(entry, entry.MakeIdent(ident)) && Fits(ident, entry.MakeIdent(ident))
    {
      MatchesIff(entry, ident);
    }

    /** No entry answers exactly if no identifier that is held in reach fits. */
    lemma FailsIff(schema: SchemaId, ident: TypeIdent)
      ensures NoCandidate(schema, ident) <==> NothingFits(schema, ident)
    {
      forall entry: SchemaEntry
        ensures Candidate(schema, ident, entry) <==> InReach(schema, entry) && entry.Matches(ident)
      {
      }
      forall entry: SchemaEntry
        ensures entry.Matches(ident) <==> exists id :: Holds(entry, id) && Fits(ident, id)
      {
        MatchesIff(entry, ident);
      }
    }

    lemma AllAnswersHold(ident: TypeIdent)
      ensures forall slot | Answers(ident, slot) ::
                Holds(EntryAt(slot), EntryAt(slot).MakeIdent(ident)) && Fits(ident, EntryAt(slot).MakeIdent(ident))
    {
      forall slot | Answers(ident, slot)
        ensures Holds(EntryAt(slot), EntryAt(slot).MakeIdent(ident)) && Fits(ident, EntryAt(slot).MakeIdent(ident))
      {
        MatchesIff(EntryAt(slot), ident);
      }
    }

    /** An entry that may answer a request made in the context of `schema`. */
    ghost predicate Candidate(schema: SchemaId, ident: TypeIdent, entry: SchemaEntry)
      reads this
    {
      || FoundFrom(schemas, schema, ident, entry)
      || (exists s :: GlobalStart(s) && FoundFrom(schemas, s, ident, entry))
      || (exists n :: n in unknownSchema && unknownSchema[n] == entry && entry.Matches(ident))
    }
  }

  ghost predicate Listing<T(!new)>(s: seq<T>) {
    forall i, j | 0 <= i < j < |s| :: s[i] != s[j]
  }

  function KeyOf(ident: TypeIdent): TypeKey {
    TypeKey(ident.type_, ident.name.text)
  }

  /** The entry a new identifier goes to; a new one if there is none yet. */
  function EntryFor(entries: map<nat, SchemaEntry>, at: nat, ident: TypeIdent): SchemaEntry {
    if at in entries then entries[at] else SchemaEntry(ident.ns, ident.schema, [], [])
  }

  function AddType(e: SchemaEntry, key: TypeKey): (r: SchemaEntry)
    ensures forall k :: k in r.types <==> k in e.types || k == key
    ensures Listing(e.types) ==> Listing(r.types)
    ensures r.(types := []) == e.(types := [])
  {
    if key in e.types then e else e.(types := e.types + [key])
  }

  /** An inserted identifier is held from then on, under the namespace and schema of the entry, and nothing else is. */
  lemma InsertedIsHeld(entries: map<nat, SchemaEntry>, at: nat, ident: TypeIdent, id: TypeIdent)
    ensures var e := AddType(EntryFor(entries, at, ident), KeyOf(ident));
            && (Holds(e, id) <==>
                  || (at in entries && Holds(entries[at], id))
                  || (id.ns == e.ns && id.schema == e.schema && id.type_ == ident.type_ && id.name.text == ident.name.text))
            && (if at in entries then e.ns == entries[at].ns && e.schema == entries[at].schema && e.dependencies == entries[at].dependencies
                else e.ns == ident.ns && e.schema == ident.schema && e.dependencies == [])
  {
    var before := EntryFor(entries, at, ident);
    var e := AddType(before, KeyOf(ident));
    HoldsKey(before, id);
    HoldsKey(e, id);
  }

  lemma HoldsKey(e: SchemaEntry, id: TypeIdent)
    ensures Holds(e, id) <==> id.ns == e.ns && id.schema == e.schema && TypeKey(id.type_, id.name.text) in e.types
  {
    if k :| 0 <= k < |e.types| && e.types[k].type_ == id.type_ && e.types[k].name == id.name.text {
      assert e.types[k] == TypeKey(id.type_, id.name.text);
    }
  }

  /** One more dependency of a schema. */
  lemma NextDependency(schemas: Schemas, visited: set<SchemaId>, deps: seq<SchemaId>, i: nat, ident: TypeIdent)
    requires i < |deps|
    requires FirstMatch(schemas, VisitAll(schemas, visited, deps[..i]).order, ident) == None
    ensures var before := VisitAll(schemas, visited, deps[..i]);
            var step := VisitAll(schemas, before.visited, [deps[i]]);
            var after := VisitAll(schemas, visited, deps[..i + 1]);
            && after.visited == step.visited
            && FirstMatch(schemas, after.order, ident) == FirstMatch(schemas, step.order, ident)
            && (FirstMatch(schemas, step.order, ident).Some? ==>
                  FirstMatch(schemas, VisitAll(schemas, visited, deps).order, ident) == FirstMatch(schemas, step.order, ident))
  {
    var before := VisitAll(schemas, visited, deps[..i]);
    var step := VisitAll(schemas, before.visited, [deps[i]]);
    VisitAppend(schemas, visited, deps[..i], [deps[i]]);
    assert deps[..i] + [deps[i]] == deps[..i + 1];
    FirstMatchAppend(schemas, before.order, step.order, ident);
    VisitAppend(schemas, visited, deps[..i + 1], deps[i + 1..]);
    assert deps[..i + 1] + deps[i + 1..] == deps;
    var after := VisitAll(schemas, visited, deps[..i + 1]);
    FirstMatchAppend(schemas, after.order, VisitAll(schemas, after.visited, deps[i + 1..]).order, ident);
  }

  // ---------- The iterator over a schema set

  /** A type key together with the schema it is attributed to. */
  datatype Item = Item(ns: NamespaceId, schema: SchemaId, key: TypeKey)

  function ItemsOf(ns: NamespaceId, schema: SchemaId, keys: seq<TypeKey>): seq<Item> {
    if keys == [] then [] else [Item(ns, schema, keys[0])] + ItemsOf(ns, schema, keys[1..])
  }

  /** All types of the schemas of an order. */
  function ItemsIn(schemas: Schemas, order: seq<SchemaId>): seq<Item> {
    if order == [] then []
    else if order[0] !in schemas then ItemsIn(schemas, order[1..])
    else
      var e := schemas[order[0]];
      ItemsOf(e.ns, e.schema, e.types) + ItemsIn(schemas, order[1..])
  }

  /** The items whose key was not emitted before. */
  function Fresh(emitted: set<TypeKey>, items: seq<Item>): seq<Item>
    decreases |items|
  {
    if items == [] then []
    else if items[0].key in emitted then Fresh(emitted, items[1..])
    else [items[0]] + Fresh(emitted + {items[0].key}, items[1..])
  }

  lemma {:induction false} FreshAppend(emitted: set<TypeKey>, a: seq<Item>, b: seq<Item>)
    requires forall x | x in a :: x.key in emitted
    ensures Fresh(emitted, a + b) == Fresh(emitted, b)
    decreases |a|
  {
    if a == [] {
      assert a + b == b;
    } else {
      assert (a + b)[1..] == a[1..] + b;
      FreshAppend(emitted, a[1..], b);
    }
  }

  /** The schemas an explicit stack of dependency iterators will still visit, the innermost iterator first. */
  function VisitStack(schemas: Schemas, visited: set<SchemaId>, stack: seq<seq<SchemaId>>): seq<SchemaId>
    decreases |stack|
  {
    if stack == [] then []
    else
      var r := VisitAll(schemas, visited, stack[|stack| - 1]);
      r.order + VisitStack(schemas, r.visited, stack[..|stack| - 1])
  }

  /** The dependencies left on the stack, and the iterators themselves. */
  function StackSize(stack: seq<seq<SchemaId>>): nat {
    if stack == [] then 0 else StackSize(stack[..|stack| - 1]) + |stack[|stack| - 1]| + 1
  }

  class SchemaSetIter {
    const schemas: Schemas
    var visited: set<SchemaId>
    var emitted: set<TypeKey>
    var typesIter: Option<(NamespaceId, SchemaId, seq<TypeKey>)>
    var dependenciesIter: seq<seq<SchemaId>>

    /** The items the iterator has not looked at yet. */
    ghost function Remaining(): seq<Item>
      reads this
    {
      (if typesIter.None? then [] else ItemsOf(typesIter.value.0, typesIter.value.1, typesIter.value.2))
      + ItemsIn(schemas, VisitStack(schemas, visited, dependenciesIter))
    }

    constructor (schemas: Schemas, schema: SchemaId)
      ensures this.schemas == schemas && emitted == {}
      ensures Remaining() == SchemaSet(schemas, schema)
    {
      this.schemas := schemas;
      visited, emitted := {}, {};
      if schema in schemas {
        typesIter := Some((schemas[schema].ns, schemas[schema].schema, schemas[schema].types));
        dependenciesIter := [Dependencies(schemas[schema])];
      } else {
        typesIter, dependenciesIter := None, [];
      }
      new;
      if schema in schemas {
        var r := VisitAll(schemas, {}, Dependencies(schemas[schema]));
        assert dependenciesIter[..0] == [];
        assert VisitStack(schemas, {}, dependenciesIter) == r.order + [] == r.order;
        FirstItems(schemas, schema, r.order);
      }
    }

    /** Advances the innermost dependency iterator. */
    method Descend()
      requires typesIter.None? && dependenciesIter != []
      modifies this
      ensures emitted == old(emitted) && Remaining() == old(Remaining())
      ensures || schemas.Keys - visited < schemas.Keys - old(visited)
              || (schemas.Keys - visited == schemas.Keys - old(visited) && typesIter.None?
                  && StackSize(dependenciesIter) < StackSize(old(dependenciesIter)))
    {
      var last := |dependenciesIter| - 1;
      var todo := dependenciesIter[last];
      if todo == [] {
        dependenciesIter := dependenciesIter[..last];
        assert [] + VisitStack(schemas, visited, dependenciesIter) == VisitStack(schemas, visited, dependenciesIter);
      } else {
        var dep := todo[0];
        dependenciesIter := dependenciesIter[last := todo[1..]];
        assert dependenciesIter[..last] == old(dependenciesIter)[..last];
        if dep !in visited {
          visited := visited + {dep};
          if dep in schemas {
            var entry := schemas[dep];
            ghost var outer := dependenciesIter;
            typesIter := Some((entry.ns, entry.schema, entry.types));
            dependenciesIter := dependenciesIter + [Dependencies(entry)];
            assert dependenciesIter[..|dependenciesIter| - 1] == outer;
            assert [dep] + todo[1..] == todo;
            assert old(dependenciesIter) == outer[..last] + [[dep] + todo[1..]];
            assert outer == outer[..last] + [todo[1..]];
            Entered(schemas, old(visited), outer[..last], dep, todo[1..]);
            FirstItems(schemas, dep, VisitStack(schemas, visited, dependenciesIter));
            assert dep in schemas.Keys - old(visited);
          } else {
            assert schemas.Keys - visited == schemas.Keys - old(visited);
          }
        }
      }
    }

    /** Advances the iterator over the types of one schema; None when it is at its end, or the key is known. */
    method TakeType() returns (r: Option<TypeIdent>)
      requires typesIter.Some?
      modifies this`typesIter, this`emitted
      ensures r.None? ==> Fresh(emitted, Remaining()) == Fresh(old(emitted), old(Remaining()))
      ensures r.None? ==> TypesLeft(typesIter) < TypesLeft(old(typesIter))
      ensures r.Some? ==> Fresh(old(emitted), old(Remaining())) != []
      ensures r.Some? ==> var items := Fresh(old(emitted), old(Remaining()));
                          r.value == IdentOf(items[0]) && Fresh(emitted, Remaining()) == items[1..]
    {
      var (ns, schema, keys) := typesIter.value;
      ghost var rest := ItemsIn(schemas, VisitStack(schemas, visited, dependenciesIter));
      if keys == [] {
        typesIter := None;
        assert [] + rest == rest;
        return None;
      }
      var item := Item(ns, schema, keys[0]);
      typesIter := Some((ns, schema, keys[1..]));
      FirstKey(ns, schema, keys, rest);
      if item.key in emitted {
        return None;
      }
      emitted := emitted + {item.key};
      return Some(IdentOf(item));
    }

    /** `next`: the next type whose key was not emitted yet. */
    method Next() returns (r: Option<TypeIdent>)
      modifies this
      ensures r.None? ==> Fresh(old(emitted), old(Remaining())) == [] && Fresh(emitted, Remaining()) == []
      ensures r.Some? ==> Fresh(old(emitted), old(Remaining())) != []
      ensures r.Some? ==> var items := Fresh(old(emitted), old(Remaining()));
                          r.value == IdentOf(items[0]) && Fresh(emitted, Remaining()) == items[1..]
    {
      while true
        invariant Fresh(emitted, Remaining()) == Fresh(old(emitted), old(Remaining()))
        decreases schemas.Keys - visited, StackSize(dependenciesIter), TypesLeft(typesIter)
      {
        if typesIter.Some? {
          r := TakeType();
          if r.Some? {
            return;
          }
        } else if dependenciesIter != [] {
          Descend();
        } else {
          return None;
        }
      }
    }
  }

  function IdentsOf(items: seq<Item>): seq<TypeIdent> {
    if items == [] then [] else [IdentOf(items[0])] + IdentsOf(items[1..])
  }

  /** Running the iterator to its end: every key visible from the schema once, under its first owner. */
  method CollectSet(schemas: Schemas, schema: SchemaId) returns (idents: seq<TypeIdent>)
    ensures idents == IdentsOf(Fresh({}, SchemaSet(schemas, schema)))
  {
    var iter := new SchemaSetIter(schemas, schema);
    idents := [];
    ghost var left := Fresh(iter.emitted, iter.Remaining());
    var next := iter.Next();
    while next.Some?
      invariant next.Some? ==> left != [] && next.value == IdentOf(left[0])
      invariant next.Some? ==> Fresh(iter.emitted, iter.Remaining()) == left[1..]
      invariant next.None? ==> left == []
      invariant idents + IdentsOf(left) == IdentsOf(Fresh({}, SchemaSet(schemas, schema)))
      decreases |left|
    {
      MoveFirst(idents, next.value, IdentsOf(left[1..]));
      idents := idents + [next.value];
      left := left[1..];
      next := iter.Next();
    }
  }

  lemma MoveFirst<T>(a: seq<T>, x: T, b: seq<T>)
    ensures a + ([x] + b) == a + [x] + b
  {
  }

  lemma FirstKey(ns: NamespaceId, schema: SchemaId, keys: seq<TypeKey>, rest: seq<Item>)
    requires keys != []
    ensures var items := ItemsOf(ns, schema, keys) + rest;
            items[0] == Item(ns, schema, keys[0]) && items[1..] == ItemsOf(ns, schema, keys[1..]) + rest
  {
    ConsAppend(Item(ns, schema, keys[0]), ItemsOf(ns, schema, keys[1..]), rest);
  }

  lemma ConsAppend<T>(x: T, a: seq<T>, b: seq<T>)
    ensures [x] + a + b == [x] + (a + b)
    ensures ([x] + a + b)[0] == x && ([x] + a + b)[1..] == a + b
  {
  }

  function TypesLeft(types: Option<(NamespaceId, SchemaId, seq<TypeKey>)>): nat {
    if types.None? then 0 else 1 + |types.value.2|
  }

  /** The identifier an item is emitted as. */
  function IdentOf(x: Item): TypeIdent {
    TypeIdent(x.ns, x.schema, Named(x.key.name), x.key.type_)
  }

  /** Everything visible from a schema: its own types, then those below it in depth-first order. */
  ghost function SchemaSet(schemas: Schemas, schema: SchemaId): seq<Item> {
    if schema !in schemas then []
    else ItemsIn(schemas, [schema] + VisitAll(schemas, {}, Dependencies(schemas[schema])).order)
  }

  lemma FirstItems(schemas: Schemas, s: SchemaId, order: seq<SchemaId>)
    requires s in schemas
    ensures ItemsIn(schemas, [s] + order) == ItemsOf(schemas[s].ns, schemas[s].schema, schemas[s].types) + ItemsIn(schemas, order)
  {
    assert ([s] + order)[1..] == order;
  }

  /** Entering a dependency visits it first, then its dependencies from the top of the stack. */
  lemma Entered(schemas: Schemas, visited: set<SchemaId>, outer: seq<seq<SchemaId>>, dep: SchemaId, rest: seq<SchemaId>)
    requires dep !in visited && dep in schemas
    ensures VisitStack(schemas, visited, outer + [[dep] + rest])
         == [dep] + VisitStack(schemas, visited + {dep}, outer + [rest] + [Dependencies(schemas[dep])])
  {
    var deps := Dependencies(schemas[dep]);
    var inner := VisitAll(schemas, visited + {dep}, deps);
    var after := VisitAll(schemas, inner.visited, rest);
    var last := VisitStack(schemas, after.visited, outer);
    VisitFirst(schemas, visited, dep, rest);
    OnTop(schemas, visited, outer, [dep] + rest);
    OnTop(schemas, visited + {dep}, outer + [rest], deps);
    OnTop(schemas, inner.visited, outer, rest);
    FourParts([dep], inner.order, after.order, last);
  }

  lemma FourParts<T>(a: seq<T>, b: seq<T>, c: seq<T>, d: seq<T>)
    ensures a + b + c + d == a + (b + (c + d))
  {
  }

  lemma VisitFirst(schemas: Schemas, visited: set<SchemaId>, dep: SchemaId, rest: seq<SchemaId>)
    requires dep !in visited && dep in schemas
    ensures var inner := VisitAll(schemas, visited + {dep}, Dependencies(schemas[dep]));
            var after := VisitAll(schemas, inner.visited, rest);
            VisitAll(schemas, visited, [dep] + rest) == Visit([dep] + inner.order + after.order, after.visited)
  {
    assert ([dep] + rest)[1..] == rest;
  }

  lemma OnTop(schemas: Schemas, visited: set<SchemaId>, stack: seq<seq<SchemaId>>, todo: seq<SchemaId>)
    ensures var r := VisitAll(schemas, visited, todo);
            VisitStack(schemas, visited, stack + [todo]) == r.order + VisitStack(schemas, r.visited, stack)
  {
    assert (stack + [todo])[..|stack|] == stack;
  }

  // ---------- What the iterator emits

  /** The first schema of an order that has a type with the key. */
  function FirstOwner(schemas: Schemas, order: seq<SchemaId>, key: TypeKey): Option<SchemaEntry> {
    if order == [] then None
    else if order[0] in schemas && key in schemas[order[0]].types then Some(schemas[order[0]])
    else FirstOwner(schemas, order[1..], key)
  }

  /** A key is emitted once, as its first occurrence among the items. */
  ghost predicate IsFirst(items: seq<Item>, x: Item) {
    exists i | 0 <= i < |items| :: items[i] == x && forall j | 0 <= j < i :: items[j].key != x.key
  }

  lemma FirstOfTail(items: seq<Item>, x: Item)
    requires items != []
    ensures IsFirst(items, x) <==> x == items[0] || (x.key != items[0].key && IsFirst(items[1..], x))
  {
    if IsFirst(items, x) {
      var i :| 0 <= i < |items| && items[i] == x && forall j | 0 <= j < i :: items[j].key != x.key;
      if i > 0 {
        assert items[1..][i - 1] == x;
        assert forall j | 0 <= j < i - 1 :: items[1..][j] == items[j + 1];
        assert items[0].key != x.key;
      }
    }
    if x.key != items[0].key && IsFirst(items[1..], x) {
      var i :| 0 <= i < |items| - 1 && items[1..][i] == x && forall j | 0 <= j < i :: items[1..][j].key != x.key;
      assert items[i + 1] == x;
      forall j | 0 <= j < i + 1
        ensures items[j].key != x.key
      {
        if j > 0 {
          assert items[1..][j - 1] == items[j];
        }
      }
    }
    if x == items[0] {
      assert items[0] == x;
    }
  }

  lemma {:induction false} FreshItems(emitted: set<TypeKey>, items: seq<Item>, x: Item)
    ensures x in Fresh(emitted, items) <==> x.key !in emitted && IsFirst(items, x)
    decreases |items|
  {
    if items != [] {
      FirstOfTail(items, x);
      if items[0].key in emitted {
        FreshItems(emitted, items[1..], x);
      } else {
        FreshItems(emitted + {items[0].key}, items[1..], x);
      }
    }
  }

  ghost predicate DistinctKeys(items: seq<Item>) {
    forall i, j | 0 <= i < j < |items| :: items[i].key != items[j].key
  }

  lemma DistinctKeysCons(x: Item, items: seq<Item>)
    requires DistinctKeys(items) && forall i | 0 <= i < |items| :: items[i].key != x.key
    ensures DistinctKeys([x] + items)
  {
  }

  lemma {:induction false} FreshDistinct(emitted: set<TypeKey>, items: seq<Item>)
    ensures DistinctKeys(Fresh(emitted, items))
    decreases |items|
  {
    if items != [] {
      var x := items[0];
      if x.key in emitted {
        FreshDistinct(emitted, items[1..]);
      } else {
        var rest := Fresh(emitted + {x.key}, items[1..]);
        FreshDistinct(emitted + {x.key}, items[1..]);
        forall i | 0 <= i < |rest|
          ensures rest[i].key != x.key
        {
          assert rest[i] in rest;
          FreshItems(emitted + {x.key}, items[1..], rest[i]);
        }
        DistinctKeysCons(x, rest);
      }
    }
  }

  lemma {:induction false} BlockItems(ns: NamespaceId, schema: SchemaId, keys: seq<TypeKey>)
    ensures var items := ItemsOf(ns, schema, keys);
            |items| == |keys| && forall i | 0 <= i < |keys| :: items[i] == Item(ns, schema, keys[i])
    decreases |keys|
  {
    if keys != [] {
      BlockItems(ns, schema, keys[1..]);
    }
  }

  /** The first item with a key comes from the first schema that has the key. */
  lemma {:induction false} FirstItemOwner(schemas: Schemas, order: seq<SchemaId>, x: Item)
    ensures IsFirst(ItemsIn(schemas, order), x) <==>
              match FirstOwner(schemas, order, x.key)
              case Some(e) => x.ns == e.ns && x.schema == e.schema
              case None => false
    decreases |order|
  {
    if order != [] {
      FirstItemOwner(schemas, order[1..], x);
      if order[0] in schemas {
        var e := schemas[order[0]];
        BlockItems(e.ns, e.schema, e.types);
        FirstInAppend(ItemsOf(e.ns, e.schema, e.types), ItemsIn(schemas, order[1..]), x);
        FirstInBlock(e.ns, e.schema, e.types, x);
      }
    }
  }

  lemma {:induction false} FirstInAppend(a: seq<Item>, b: seq<Item>, x: Item)
    ensures IsFirst(a + b, x) <==> IsFirst(a, x) || ((forall i | 0 <= i < |a| :: a[i].key != x.key) && IsFirst(b, x))
    decreases |a|
  {
    if a == [] {
      assert a + b == b;
    } else {
      assert (a + b)[1..] == a[1..] + b;
      FirstOfTail(a + b, x);
      FirstOfTail(a, x);
      FirstInAppend(a[1..], b, x);
      KeyAbsent(a, x.key);
    }
  }

  lemma KeyAbsent(items: seq<Item>, key: TypeKey)
    requires items != []
    ensures (forall i | 0 <= i < |items| :: items[i].key != key) <==>
              items[0].key != key && forall i | 0 <= i < |items[1..]| :: items[1..][i].key != key
  {
    if items[0].key != key && forall i | 0 <= i < |items[1..]| :: items[1..][i].key != key {
      forall i | 0 <= i < |items|
        ensures items[i].key != key
      {
        if i > 0 {
          assert items[i] == items[1..][i - 1];
        }
      }
    }
  }

  lemma {:induction false} FirstInBlock(ns: NamespaceId, schema: SchemaId, keys: seq<TypeKey>, x: Item)
    ensures IsFirst(ItemsOf(ns, schema, keys), x) <==> x.key in keys && x.ns == ns && x.schema == schema
    decreases |keys|
  {
    if keys != [] {
      var items := ItemsOf(ns, schema, keys);
      assert items[1..] == ItemsOf(ns, schema, keys[1..]);
      FirstOfTail(items, x);
      FirstInBlock(ns, schema, keys[1..], x);
    }
  }

  /** An identifier that leaves namespace and schema open. */
  function OpenIdent(key: TypeKey): TypeIdent {
    TypeIdent(UNKNOWN, UNKNOWN, Named(key.name), key.type_)
  }

  lemma {:induction false} OwnerIsMatch(schemas: Schemas, order: seq<SchemaId>, key: TypeKey)
    ensures FirstOwner(schemas, order, key) == FirstMatch(schemas, order, OpenIdent(key))
    decreases |order|
  {
    if order != [] {
      OwnerIsMatch(schemas, order[1..], key);
    }
  }

  /** The order in which the iterator meets the schemas. */
  function IterOrder(schemas: Schemas, root: SchemaId): seq<SchemaId>
    requires root in schemas
  {
    [root] + VisitAll(schemas, {}, Dependencies(schemas[root])).order
  }

  /**
    The iterator emits every type of every reachable known schema exactly once,
    attributed to the first schema that has it; the dependency graph may be
    cyclic.
   */
  lemma EmittedOnce(schemas: Schemas, root: SchemaId, x: Item)
    requires root in schemas
    ensures var out := Fresh({}, SchemaSet(schemas, root));
            && DistinctKeys(out)
            && (x in out <==> match FirstOwner(schemas, IterOrder(schemas, root), x.key)
                              case Some(e) => x.ns == e.ns && x.schema == e.schema
                              case None => false)
    ensures (exists y :: y in Fresh({}, SchemaSet(schemas, root)) && y.key == x.key) <==>
              exists s :: s in schemas && Reaches(schemas, root, s) && x.key in schemas[s].types
  {
    var order := IterOrder(schemas, root);
    var items := SchemaSet(schemas, root);
    FreshDistinct({}, items);
    FreshItems({}, items, x);
    FirstItemOwner(schemas, order, x);
    var owner := FirstOwner(schemas, order, x.key);
    OwnerIsMatch(schemas, order, x.key);
    FirstMatchFound(schemas, order, OpenIdent(x.key));
    forall y: Item | y.key == x.key
      ensures y in Fresh({}, items) <==> owner.Some? && y.ns == owner.value.ns && y.schema == owner.value.schema
    {
      FreshItems({}, items, y);
      FirstItemOwner(schemas, order, y);
    }
    if owner.Some? {
      assert Item(owner.value.ns, owner.value.schema, x.key) in Fresh({}, items);
    }
    forall s
      ensures s in order <==> s in schemas && Reaches(schemas, root, s)
    {
      IterReaches(schemas, root, s);
    }
  }

  lemma {:induction false} InIdents(items: seq<Item>, id: TypeIdent)
    ensures id in IdentsOf(items) <==> exists x :: x in items && IdentOf(x) == id
    decreases |items|
  {
    if items != [] {
      InIdents(items[1..], id);
      assert items == [items[0]] + items[1..];
    }
  }

  lemma {:induction false} OwnerHasKey(schemas: Schemas, order: seq<SchemaId>, key: TypeKey)
    ensures FirstOwner(schemas, order, key).Some? ==> key in FirstOwner(schemas, order, key).value.types
    decreases |order|
  {
    if order != [] {
      OwnerHasKey(schemas, order[1..], key);
    }
  }

  /** An identifier is collected exactly if the first schema that has its kind and name holds it. */
  lemma CollectedIff(schemas: Schemas, root: SchemaId, id: TypeIdent)
    requires root in schemas
    ensures id in IdentsOf(Fresh({}, SchemaSet(schemas, root))) <==>
              id.name.Named? && match FirstOwner(schemas, IterOrder(schemas, root), TypeKey(id.type_, id.name.text))
                                case Some(e) => Holds(e, id)
                                case None => false
  {
    var out := Fresh({}, SchemaSet(schemas, root));
    var key := TypeKey(id.type_, id.name.text);
    var x := Item(id.ns, id.schema, key);
    InIdents(out, id);
    EmittedOnce(schemas, root, x);
    OwnerHasKey(schemas, IterOrder(schemas, root), key);
    var owner := FirstOwner(schemas, IterOrder(schemas, root), key);
    if owner.Some? {
      HoldsKey(owner.value, id);
    }
    assert forall y | IdentOf(y) == id :: y == x;
    if id.name.Named? {
      assert IdentOf(x) == id;
    }
  }

  lemma IterReaches(schemas: Schemas, root: SchemaId, s: SchemaId)
    requires root in schemas
    ensures s in IterOrder(schemas, root) <==> s in schemas && Reaches(schemas, root, s)
  {
    var deps := Dependencies(schemas[root]);
    VisitIsReachability(schemas, deps, s);
    ReachesSelf(schemas, root);
    if d :| d in deps && Reaches(schemas, d, s) {
      ReachesStep(schemas, root, d, s);
    }
    if s != root && Reaches(schemas, root, s) {
      var path :| IsPath(schemas, path) && path[0] == root && path[|path| - 1] == s;
      var tail := path[1..];
      assert IsPath(schemas, tail) by {
        forall i | 0 <= i < |tail| - 1
          ensures tail[i] in schemas && tail[i + 1] in Dependencies(schemas[tail[i]])
        {
          assert tail[i] == path[i + 1] && tail[i + 1] == path[i + 2];
        }
      }
      assert path[1] in deps && Reaches(schemas, path[1], s);
    }
  }

  /** Marking a schema that is not met as visited changes nothing. */
  lemma {:induction false} VisitIgnores(schemas: Schemas, visited: set<SchemaId>, todo: seq<SchemaId>, r: SchemaId)
    requires r !in VisitAll(schemas, visited, todo).visited
    ensures VisitAll(schemas, visited + {r}, todo)
         == Visit(VisitAll(schemas, visited, todo).order, VisitAll(schemas, visited, todo).visited + {r})
    decreases schemas.Keys - visited, |todo|
  {
    if todo != [] {
      var d := todo[0];
      if d in visited {
        VisitIgnores(schemas, visited, todo[1..], r);
      } else if d !in schemas {
        assert schemas.Keys - (visited + {d}) == schemas.Keys - visited;
        assert visited + {d} + {r} == visited + {r} + {d};
        VisitIgnores(schemas, visited + {d}, todo[1..], r);
      } else {
        assert d in schemas.Keys - visited;
        assert visited + {d} + {r} == visited + {r} + {d};
        var inner := VisitAll(schemas, visited + {d}, Dependencies(schemas[d]));
        VisitIgnores(schemas, visited + {d}, Dependencies(schemas[d]), r);
        VisitIgnores(schemas, inner.visited, todo[1..], r);
      }
    }
  }

  /**
    Off dependency cycles the iterator agrees with the search: the schema a key
    is attributed to is the one the search finds first.
   */
  lemma IteratorAgreesWithSearch(schemas: Schemas, root: SchemaId, key: TypeKey)
    requires root in schemas
    requires forall d | d in Dependencies(schemas[root]) :: !Reaches(schemas, d, root)
    ensures FirstOwner(schemas, IterOrder(schemas, root), key)
         == FirstMatch(schemas, VisitAll(schemas, {}, [root]).order, OpenIdent(key))
  {
    var deps := Dependencies(schemas[root]);
    var r := VisitAll(schemas, {}, deps);
    if root in r.visited {
      VisitSound(schemas, {}, deps, root);
    }
    VisitIgnores(schemas, {}, deps, root);
    assert {} + {root} == {root};
    assert [root][1..] == [];
    assert [root] + r.order + [] == [root] + r.order;
    OwnerIsMatch(schemas, IterOrder(schemas, root), key);
  }

  /**
    On a cycle the two orders differ: the iterator meets the root again below
    its first dependency, and goes on with the root's other dependencies there.
   */
  lemma IteratorDiffersOnCycle(key: TypeKey)
    ensures var schemas: Schemas := map[1 := SchemaEntry(1, 1, [], [Include(2), Include(3)]),
                                        2 := SchemaEntry(1, 2, [], [Include(1), Include(4)]),
                                        3 := SchemaEntry(1, 3, [key], []),
                                        4 := SchemaEntry(1, 4, [key], [])];
            && FirstOwner(schemas, IterOrder(schemas, 1), key) == Some(schemas[3])
            && FirstMatch(schemas, VisitAll(schemas, {}, [1]).order, OpenIdent(key)) == Some(schemas[4])
  {
    var schemas: Schemas := map[1 := SchemaEntry(1, 1, [], [Include(2), Include(3)]),
                                2 := SchemaEntry(1, 2, [], [Include(1), Include(4)]),
                                3 := SchemaEntry(1, 3, [key], []),
                                4 := SchemaEntry(1, 4, [key], [])];
    assert Dependencies(schemas[1]) == [2, 3] && Dependencies(schemas[2]) == [1, 4];
    SearchOrderOnCycle(schemas);
    IterOrderOnCycle(schemas);
    FirstFour(schemas, 1, 2, 4, 3, key);
    OwnerIsMatch(schemas, [2, 1, 3, 4], key);
    FirstFour(schemas, 2, 1, 3, 4, key);
    assert [1, 2, 1, 3, 4][1..] == [2, 1, 3, 4];
  }

  lemma VisitLeaf(schemas: Schemas, visited: set<SchemaId>, d: SchemaId)
    requires d in schemas && d !in visited && Dependencies(schemas[d]) == []
    ensures VisitAll(schemas, visited, [d]) == Visit([d], visited + {d})
  {
    VisitFirst(schemas, visited, d, []);
    assert [d] + [] == [d] && [d] + [] + [] == [d];
  }

  lemma FirstFour(schemas: Schemas, a: SchemaId, b: SchemaId, c: SchemaId, d: SchemaId, key: TypeKey)
    requires a in schemas && b in schemas && c in schemas
    requires key !in schemas[a].types && key !in schemas[b].types && key in schemas[c].types
    ensures FirstMatch(schemas, [a, b, c, d], OpenIdent(key)) == Some(schemas[c])
  {
    assert [a, b, c, d][1..] == [b, c, d] && [b, c, d][1..] == [c, d];
    assert FirstMatch(schemas, [b, c, d], OpenIdent(key)) == Some(schemas[c]);
  }

  lemma SearchOrderOnCycle(schemas: Schemas)
    requires schemas.Keys == {1, 2, 3, 4}
    requires Dependencies(schemas[1]) == [2, 3] && Dependencies(schemas[2]) == [1, 4]
    requires Dependencies(schemas[3]) == [] && Dependencies(schemas[4]) == []
    ensures VisitAll(schemas, {}, [1]).order == [1, 2, 4, 3]
  {
    assert [1, 4][1..] == [4];
    VisitLeaf(schemas, {1, 2}, 4);
    assert VisitAll(schemas, {1, 2}, [1, 4]) == Visit([4], {1, 2, 4});
    VisitLeaf(schemas, {1, 2, 4}, 3);
    VisitFirst(schemas, {1}, 2, [3]);
    assert {1} + {2} == {1, 2} && [2] + [3] == [2, 3];
    assert VisitAll(schemas, {1}, [2, 3]).order == [2] + [4] + [3];
    VisitFirst(schemas, {}, 1, []);
    assert {} + {1} == {1} && [1] + [] == [1];
  }

  lemma IterOrderOnCycle(schemas: Schemas)
    requires schemas.Keys == {1, 2, 3, 4}
    requires Dependencies(schemas[1]) == [2, 3] && Dependencies(schemas[2]) == [1, 4]
    requires Dependencies(schemas[3]) == [] && Dependencies(schemas[4]) == []
    ensures IterOrder(schemas, 1) == [1, 2, 1, 3, 4]
  {
    assert [2, 3][1..] == [3];
    VisitLeaf(schemas, {1, 2}, 3);
    assert VisitAll(schemas, {1, 2}, [2, 3]) == Visit([3], {1, 2, 3});
    VisitLeaf(schemas, {1, 2, 3}, 4);
    VisitFirst(schemas, {2}, 1, [4]);
    assert {2} + {1} == {1, 2} && [1] + [4] == [1, 4];
    assert {1, 2, 3} + {4} == {1, 2, 3, 4};
    assert VisitAll(schemas, {2}, [1, 4]) == Visit([1] + [3] + [4], {1, 2, 3, 4});
    assert [3][1..] == [];
    assert VisitAll(schemas, {1, 2, 3, 4}, [3]) == Visit([], {1, 2, 3, 4});
    VisitFirst(schemas, {}, 2, [3]);
    assert {} + {2} == {2} && [2] + [3] == [2, 3];
  }
}
