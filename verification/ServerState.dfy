/**
 What the server holds for one namespace, as the client sees it: the current version of each
 schema, and for each version the files it was compiled from, which never change.
 */
module ServerState {
  import opened Descriptors
  import F = FileIndex
  import L = FileLookup
  import T = TypeIndex
  import FR = FileRegistry
  import TR = TypeRegistry
  import opened SchemaTypes
  import opened Aggregate
  import opened Snapshot
  import opened NameIndex

  type World = (Id, nat) -> F.Plain
  type Versions = map<Id, nat>

  // ---------------------------------------------------------------------------
  // All files of a namespace
  // ---------------------------------------------------------------------------

  /** Distinct schemas share no file path. */
  ghost predicate Apart(w: World, vs: Versions) {
    forall i, j, p :: i in vs && j in vs && p in w(i, vs[i]) && p in w(j, vs[j]) ==> i == j
  }

  ghost predicate Holds(w: World, vs: Versions, i: Id, p: string) {
    i in vs && p in w(i, vs[i])
  }

  function AllPaths(w: World, vs: Versions): set<string> {
    set i, p | i in vs && p in w(i, vs[i]) :: p
  }

  ghost function Holder(w: World, vs: Versions, p: string): (i: Id)
    requires p in AllPaths(w, vs)
    ensures Holds(w, vs, i, p)
  {
    var i :| i in vs && p in w(i, vs[i]);
    i
  }

  /** The path-to-file map of the whole namespace. */
  ghost function Union(w: World, vs: Versions): F.Plain {
    map p | p in AllPaths(w, vs) :: w(Holder(w, vs, p), vs[Holder(w, vs, p)])[p]
  }

  /** No path, name, package or extension number is claimed twice in the namespace. */
  ghost predicate CleanState(w: World, vs: Versions) {
    Apart(w, vs) && Clean(Union(w, vs))
  }

  lemma UnionAt(w: World, vs: Versions, i: Id, p: string)
    requires Apart(w, vs) && Holds(w, vs, i, p)
    ensures p in Union(w, vs) && Union(w, vs)[p] == w(i, vs[i])[p]
  {
    assert p in AllPaths(w, vs);
    assert Holder(w, vs, p) == i;
  }

  lemma UnionFrom(w: World, vs: Versions, p: string) returns (i: Id)
    requires p in Union(w, vs)
    ensures Holds(w, vs, i, p) && Union(w, vs)[p] == w(i, vs[i])[p]
  {
    i := Holder(w, vs, p);
  }

  lemma SchemaWithin(w: World, vs: Versions, i: Id)
    requires Apart(w, vs) && i in vs
    ensures Within(w(i, vs[i]), Union(w, vs))
  {
    forall p | p in w(i, vs[i]) ensures p in Union(w, vs) && w(i, vs[i])[p] == Union(w, vs)[p] { UnionAt(w, vs, i, p); }
  }

  lemma UnionDrop(w: World, vs: Versions, i: Id)
    requires Apart(w, vs) && i in vs
    ensures Apart(w, vs - {i})
    ensures Union(w, vs - {i}) == Union(w, vs) - w(i, vs[i]).Keys
  {
    var less := vs - {i};
    forall p ensures p in Union(w, less) <==> p in Union(w, vs) && p !in w(i, vs[i]) {
      if p in Union(w, less) {
        var j := UnionFrom(w, less, p);
        UnionAt(w, vs, j, p);
      }
      if p in Union(w, vs) && p !in w(i, vs[i]) {
        var j := UnionFrom(w, vs, p);
        UnionAt(w, less, j, p);
      }
    }
    forall p | p in Union(w, less) ensures Union(w, less)[p] == Union(w, vs)[p] {
      var j := UnionFrom(w, less, p);
      UnionAt(w, vs, j, p);
    }
  }

  lemma UnionPut(w: World, vs: Versions, i: Id, v: nat)
    requires i !in vs && Apart(w, vs[i := v])
    ensures Apart(w, vs)
    ensures Union(w, vs[i := v]) == Union(w, vs) + w(i, v)
    ensures Union(w, vs).Keys !! w(i, v).Keys
  {
    PutThenDropVersion(vs, i, v);
    UnionDrop(w, vs[i := v], i);
    SchemaWithin(w, vs[i := v], i);
    SplitSum(Union(w, vs[i := v]), w(i, v));
  }

  lemma PutThenDropVersion(vs: Versions, i: Id, v: nat)
    requires i !in vs
    ensures vs[i := v] - {i} == vs
  {
  }

  lemma SplitSum(m: F.Plain, c: F.Plain)
    requires Within(c, m)
    ensures m == m - c.Keys + c && (m - c.Keys).Keys !! c.Keys
  {
  }

  lemma CleanDrop(w: World, vs: Versions, i: Id)
    requires CleanState(w, vs) && i in vs
    ensures CleanState(w, vs - {i})
  {
    UnionDrop(w, vs, i);
    CleanWithin(Union(w, vs - {i}), Union(w, vs));
  }

  // ---------------------------------------------------------------------------
  // Snapshots of that state
  // ---------------------------------------------------------------------------

  /** The snapshot is what compiling that version yields. */
  ghost predicate Genuine(w: World, ss: SchemaSnapshot) {
    // Written as a match so that the verifier keeps the predicate whole where it is promised.
    match ss
    case SchemaSnapshot(id, version, _, _, _) => WellBuilt(ss) && Contribution(ss) == w(id, version)
  }

  function VersionsOf(schemas: Schemas): Versions {
    map i | i in schemas :: schemas[i].version
  }

  ghost predicate Filed(schemas: Schemas) {
    forall i :: i in schemas ==> schemas[i].schemaID == i
  }

  ghost predicate Tracks(w: World, schemas: Schemas) {
    Filed(schemas) && forall i :: i in schemas ==> Genuine(w, schemas[i])
  }

  /** Taking one schema out of the aggregate of a clean state. */
  lemma RemoveOne(a: Agg, w: World, vs: Versions, ss: SchemaSnapshot)
    requires CleanState(w, vs) && AggIs(a, Union(w, vs))
    requires Genuine(w, ss) && ss.schemaID in vs && vs[ss.schemaID] == ss.version
    ensures RemovePrint(a, ss.fingerprint).1
    ensures AggIs(RemovePrint(a, ss.fingerprint).0, Union(w, vs - {ss.schemaID}))
  {
    SchemaWithin(w, vs, ss.schemaID);
    RemoveSubtracts(a, Union(w, vs), Contribution(ss), ss.fingerprint);
    UnionDrop(w, vs, ss.schemaID);
  }

  /** Folding one schema into the aggregate of a state that stays clean with it. */
  lemma ApplyOne(a: Agg, w: World, vs: Versions, ss: SchemaSnapshot, order: seq<File>)
    requires ss.schemaID !in vs && CleanState(w, vs[ss.schemaID := ss.version]) && AggIs(a, Union(w, vs))
    requires Genuine(w, ss) && Enumerates(order, Contribution(ss))
    ensures ApplyFiles(a, order).1
    ensures AggIs(ApplyFiles(a, order).0, Union(w, vs[ss.schemaID := ss.version]))
  {
    UnionPut(w, vs, ss.schemaID, ss.version);
    ApplyAdds(a, Union(w, vs), order, Contribution(ss));
  }

  /** ... and no part of it is refused on the way. */
  lemma ApplyPart(a: Agg, w: World, vs: Versions, ss: SchemaSnapshot, order: seq<File>, some: F.Plain)
    requires ss.schemaID !in vs && CleanState(w, vs[ss.schemaID := ss.version]) && AggIs(a, Union(w, vs))
    requires Genuine(w, ss) && Enumerates(order, some) && Within(some, Contribution(ss))
    ensures ApplyFiles(a, order).1
  {
    UnionPut(w, vs, ss.schemaID, ss.version);
    PartOfSum(Union(w, vs), Contribution(ss), some);
    CleanWithin(Union(w, vs) + some, Union(w, vs) + Contribution(ss));
    ApplyAdds(a, Union(w, vs), order, some);
  }

  lemma PartOfSum(m: F.Plain, c: F.Plain, some: F.Plain)
    requires m.Keys !! c.Keys && Within(some, c)
    ensures m.Keys !! some.Keys && Within(m + some, m + c)
  {
  }

  // ---------------------------------------------------------------------------
  // Lookups through the name index
  // ---------------------------------------------------------------------------

  /** A name that a schema owns is declared in one of its files. */
  lemma OwnedName(w: World, schemas: Schemas, i: Id, n: FullName) returns (p: string, d: Descriptor)
    requires Tracks(w, schemas) && Apart(w, VersionsOf(schemas)) && Owns(schemas, i, n)
    ensures p in Contribution(schemas[i]) && Holds(w, VersionsOf(schemas), i, p)
    ensures p in Union(w, VersionsOf(schemas)) && Union(w, VersionsOf(schemas))[p] == Contribution(schemas[i])[p]
    ensures d in Decls(Contribution(schemas[i])[p]) && IsIndexed(d) && d.full == n
  {
    var c := Contribution(schemas[i]);
    p :| p in c && n in IndexedNames(c[p]);
    IndexedNamesExact(c[p], n);
    d :| d in Decls(c[p]) && IsIndexed(d) && d.full == n;
    UnionAt(w, VersionsOf(schemas), i, p);
  }

  /** FindMessageByName and FindExtensionByName: the owner of the name answers, else the aggregate. */
  function FastType(schemas: Schemas, index: Index, types: T.Types, above: seq<T.Types>, n: FullName,
                    k: T.Kinds): TR.Found {
    if n in index && index[n] in schemas then TR.FindKind([schemas[index[n]].types] + above, n, k)
    else TR.FindKind([types] + above, n, k)
  }

  function FastDescriptor(schemas: Schemas, index: Index, files: F.Files, above: seq<F.Files>,
                          n: FullName): Option<Descriptor> {
    if n in index && index[n] in schemas then FR.FindInLevels([schemas[index[n]].files] + above, n)
    else FR.FindInLevels([files] + above, n)
  }

  /** The aggregate and the owner of a name hold the same type under it, or both none. */
  lemma OwnerKnowsType(w: World, schemas: Schemas, a: Agg, i: Id, n: FullName)
    requires Tracks(w, schemas) && CleanState(w, VersionsOf(schemas)) && AggIs(a, Union(w, VersionsOf(schemas)))
    requires Owns(schemas, i, n)
    ensures n in a.types.typesByName <==> n in schemas[i].types.typesByName
    ensures n in a.types.typesByName ==> a.types.typesByName[n] == schemas[i].types.typesByName[n]
  {
    var u, c := Union(w, VersionsOf(schemas)), Contribution(schemas[i]);
    var p, d := OwnedName(w, schemas, i, n);
    if n in a.types.typesByName {
      TypeHere(a.types, u, n, p, d);
    }
    if n in schemas[i].types.typesByName {
      TypeHere(schemas[i].types, c, n, p, d);
    }
    if T.IsType(d) {
      TypeThere(a.types, u, p, d);
      TypeThere(schemas[i].types, c, p, d);
    }
  }

  /** A type found under the name of a declaration is that declaration. */
  lemma TypeHere(s: T.Types, m: F.Plain, n: FullName, p: string, d: Descriptor)
    requires TypesAre(s, TypesIn(m)) && Clean(m) && n in s.typesByName
    requires p in m && d in Decls(m[p]) && d.full == n
    ensures s.typesByName[n] == d && T.IsType(d)
  {
    var e := s.typesByName[n];
    assert Knows(s, e);
    var q := TypesInDeclared(m, e);
    NamesUnique(m, p, d, q, e);
  }

  lemma TypeThere(s: T.Types, m: F.Plain, p: string, d: Descriptor)
    requires TypesAre(s, TypesIn(m)) && p in m && d in Decls(m[p]) && T.IsType(d)
    ensures d.full in s.typesByName && s.typesByName[d.full] == d
  {
    FileTypesMembers(m[p], d);
    assert d in TypesIn(m);
    assert Knows(s, d);
  }

  /** On a clean state the fast path by name gives the answer of the aggregate, for every name and kind. */
  lemma FastTypeAgrees(w: World, schemas: Schemas, index: Index, a: Agg, above: seq<T.Types>, n: FullName, k: T.Kinds)
    requires Tracks(w, schemas) && CleanState(w, VersionsOf(schemas)) && AggIs(a, Union(w, VersionsOf(schemas)))
    requires Indexes(index, schemas)
    ensures FastType(schemas, index, a.types, above, n, k) == TR.FindKind([a.types] + above, n, k)
  {
    if n in index {
      assert Points(index, n, index[n]);
      OwnerKnowsType(w, schemas, a, index[n], n);
      SameHead(a.types, schemas[index[n]].types, above, n, k);
    }
  }

  lemma SameHead(a: T.Types, b: T.Types, above: seq<T.Types>, n: FullName, k: T.Kinds)
    requires n in a.typesByName <==> n in b.typesByName
    requires n in a.typesByName ==> a.typesByName[n] == b.typesByName[n]
    ensures TR.FindKind([a] + above, n, k) == TR.FindKind([b] + above, n, k)
  {
    assert ([a] + above)[1..] == above;
    assert ([b] + above)[1..] == above;
  }

  lemma OwnerFindsDescriptor(w: World, schemas: Schemas, a: Agg, i: Id, n: FullName)
    requires Tracks(w, schemas) && CleanState(w, VersionsOf(schemas)) && AggIs(a, Union(w, VersionsOf(schemas)))
    requires Owns(schemas, i, n)
    ensures L.FindLocal(a.files.descsByName, n) == L.FindLocal(schemas[i].files.descsByName, n)
    ensures L.FindLocal(a.files.descsByName, n).Some?
  {
    var p, d := OwnedName(w, schemas, i, n);
    FindsDeclared(a.files, Union(w, VersionsOf(schemas)), p, d);
    FindsDeclared(schemas[i].files, Contribution(schemas[i]), p, d);
  }

  lemma FindsDeclared(s: F.Files, m: F.Plain, p: string, d: Descriptor)
    requires F.Represents(s, m) && Clean(m) && p in m && d in Decls(m[p])
    ensures L.FindLocal(s.descsByName, d.full) == Some(d)
  {
    L.FindComplete(s.descsByName, m, p, d);
  }

  lemma FastDescriptorAgrees(w: World, schemas: Schemas, index: Index, a: Agg, above: seq<F.Files>, n: FullName)
    requires Tracks(w, schemas) && CleanState(w, VersionsOf(schemas)) && AggIs(a, Union(w, VersionsOf(schemas)))
    requires Indexes(index, schemas)
    ensures FastDescriptor(schemas, index, a.files, above, n) == FR.FindInLevels([a.files] + above, n)
  {
    if n in index {
      assert Points(index, n, index[n]);
      OwnerFindsDescriptor(w, schemas, a, index[n], n);
    }
  }
}
