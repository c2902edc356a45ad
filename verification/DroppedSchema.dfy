/**
 Schemas that collide where the name index does not look, followed through the resolver: populate
 with all of them, then drop one.
 */
module DroppedSchema {
  import opened Descriptors
  import F = FileIndex
  import B = SchemaBuild
  import opened SchemaTypes
  import opened Aggregate
  import opened Snapshot
  import opened NameIndex
  import opened ServerState
  import opened Refresh
  import opened Resolver
  import C = Collisions

  // ---------------------------------------------------------------------------
  // Which files a fold has visited
  // ---------------------------------------------------------------------------

  ghost predicate Contributes(ss: SchemaSnapshot, f: File) {
    f.path in Contribution(ss) && Contribution(ss)[f.path] == f
  }

  ghost predicate FromAny(list: seq<SchemaSnapshot>, f: File) {
    exists ss :: ss in list && Contributes(ss, f)
  }

  lemma {:induction false} CoversMembers(files: seq<File>, list: seq<SchemaSnapshot>, k: nat, f: File)
    requires k <= |list| && Covers(files, list[..k])
    ensures f in files <==> FromAny(list[..k], f)
    decreases k
  {
    if k == 0 {
      CoversNothing(map[], list, files);
    } else {
      var i := CoversSplit(files, list, k);
      CoversMembers(files[..i], list, k - 1, f);
      assert list[..k] == list[..k - 1] + [list[k - 1]];
      assert f in files <==> f in files[..i] || f in files[i..];
      assert FromAny(list[..k], f) <==> FromAny(list[..k - 1], f) || Contributes(list[k - 1], f);
    }
  }

  /** Whether it went through or not, a fold visits files of the listed schemas only. */
  lemma VisitedFrom(a: Agg, list: seq<SchemaSnapshot>, files: seq<File>, a': Agg, ok: bool, f: File)
    requires AppliesBy(a, list, files, a', ok) && f in files
    ensures FromAny(list, f)
  {
    assert list[..|list|] == list;
    if ok {
      CoversMembers(files, list, |list|, f);
    } else {
      var j, k := PartSplit(files, list);
      CoversMembers(files[..k], list, j, f);
      var some :| Enumerates(files[k..], some) && Within(some, Contribution(list[j]));
      if f in files[k..] { assert list[j] in list && Contributes(list[j], f); }
    }
  }

  // ---------------------------------------------------------------------------
  // Populate
  // ---------------------------------------------------------------------------

  lemma PlanOf(w: World, st: State, next: Schemas, a: Agg, ok: bool)
    returns (removed: seq<SchemaSnapshot>, outdated: seq<SchemaSnapshot>, apply: seq<SchemaSnapshot>)
    requires PatchedTo(w, st, next, a, ok)
    ensures Planned(w, SchemasOf(st), next, removed, outdated, apply)
    ensures Patched(st.agg, removed, outdated, apply, a, ok)
  {
    removed, outdated, apply :|
      Planned(w, SchemasOf(st), next, removed, outdated, apply) && Patched(st.agg, removed, outdated, apply, a, ok);
  }

  lemma NothingBefore(next: Schemas, removed: seq<SchemaSnapshot>, outdated: seq<SchemaSnapshot>,
                      apply: seq<SchemaSnapshot>)
    requires DiffIs(map[], next, apply, outdated) && GoneAre(map[], next, removed)
    ensures removed == [] && outdated == [] && forall ss :: ss in apply <==> In(next, ss)
  {
    if removed != [] { FirstOf(removed); }
    if outdated != [] { FirstOf(outdated); }
  }

  lemma FirstOf(list: seq<SchemaSnapshot>)
    requires list != []
    ensures list[0] in list
  {
  }

  lemma OnlyApplied(b: Agg, apply: seq<SchemaSnapshot>, a: Agg, ok: bool) returns (visited: seq<File>)
    requires Patched(b, [], [], apply, a, ok)
    ensures AppliesBy(b, apply, visited, a, ok)
  {
    assert RemovePrints(b, []) == (b, true);
    visited :| AppliesBy(b, apply, visited, a, ok);
  }

  /** A first patch is a fold of all schemas over the blank aggregate. */
  lemma FirstFold(w: World, next: Schemas, a: Agg, ok: bool) returns (apply: seq<SchemaSnapshot>, visited: seq<File>)
    requires PatchedTo(w, Start, next, a, ok)
    ensures Tracks(w, next) && (forall ss :: ss in apply <==> In(next, ss)) && AppliesBy(Blank, apply, visited, a, ok)
  {
    var removed, outdated, list := PlanOf(w, Start, next, a, ok);
    NothingBefore(next, removed, outdated, list);
    apply := list;
    visited := OnlyApplied(Blank, apply, a, ok);
  }

  /** Some schema of the state has the file. */
  ghost predicate InState(w: World, vs: Versions, f: File) {
    exists i :: Holds(w, vs, i, f.path) && w(i, vs[i])[f.path] == f
  }

  lemma StateFiles(w: World, next: Schemas, apply: seq<SchemaSnapshot>, f: File)
    requires Tracks(w, next) && forall ss :: ss in apply <==> In(next, ss)
    ensures FromAny(apply, f) <==> InState(w, VersionsOf(next), f)
  {
    var vs := VersionsOf(next);
    if ss :| ss in apply && Contributes(ss, f) {
      assert Genuine(w, ss);
      assert Holds(w, vs, ss.schemaID, f.path);
    }
    if i :| Holds(w, vs, i, f.path) && w(i, vs[i])[f.path] == f {
      assert Genuine(w, next[i]);
      assert next[i] in apply && Contributes(next[i], f);
    }
  }

  lemma SplitState(w: World, vs: Versions, x: Id, f: File)
    requires x in vs && Apart(w, vs - {x})
    ensures var (g, s) := (w(x, vs[x]), Union(w, vs - {x}));
            InState(w, vs, f) <==> (f.path in g && g[f.path] == f) || (f.path in s && s[f.path] == f)
  {
    var rest := vs - {x};
    if i :| Holds(w, vs, i, f.path) && w(i, vs[i])[f.path] == f {
      if i != x { UnionAt(w, rest, i, f.path); }
    }
    if f.path in w(x, vs[x]) && w(x, vs[x])[f.path] == f { assert Holds(w, vs, x, f.path); }
    if f.path in Union(w, rest) && Union(w, rest)[f.path] == f {
      var i := UnionFrom(w, rest, f.path);
      assert Holds(w, vs, i, f.path);
    }
  }

  lemma NameFromOther(w: World, vs: Versions, x: Id, n: FullName) returns (i: Id)
    requires n in PlainNames(Union(w, vs - {x}))
    ensures i in vs && i != x && n in PlainNames(w(i, vs[i]))
  {
    var s := Union(w, vs - {x});
    var p :| p in s && n in IndexedNames(s[p]);
    i := UnionFrom(w, vs - {x}, p);
  }

  lemma OthersApart(w: World, vs: Versions, x: Id)
    requires x in vs && ExportsApart(w, vs)
    ensures C.IndexedApart(w(x, vs[x]), Union(w, vs - {x}))
  {
    forall n | n in PlainNames(Union(w, vs - {x})) ensures n !in PlainNames(w(x, vs[x])) {
      var i := NameFromOther(w, vs, x, n);
    }
  }

  lemma Visited(w: World, next: Schemas, apply: seq<SchemaSnapshot>, order: seq<File>, f: File)
    requires Tracks(w, next) && (forall ss :: ss in apply <==> In(next, ss)) && Covers(order, apply)
    ensures f in order <==> InState(w, VersionsOf(next), f)
  {
    assert apply[..|apply|] == apply;
    CoversMembers(order, apply, |apply|, f);
    StateFiles(w, next, apply, f);
  }

  lemma VisitedJoint(w: World, vs: Versions, order: seq<File>, x: Id)
    requires (forall f: File :: f in order <==> InState(w, vs, f)) && x in vs && Apart(w, vs - {x})
    ensures C.Joint(order, w(x, vs[x]), Union(w, vs - {x}))
  {
    var (g, s) := (w(x, vs[x]), Union(w, vs - {x}));
    forall f: File ensures f in order <==> (f.path in g && g[f.path] == f) || (f.path in s && s[f.path] == f) {
      SplitState(w, vs, x, f);
    }
  }

  /** After the first refresh the aggregate is built from the files of one schema and of all the others. */
  lemma PopulatedIsBuilt(w: World, vs: Versions, st: State, x: Id) returns (order: seq<File>)
    requires TookOver(w, vs, Start, st) && ExportsApart(w, vs) && x in vs && CleanState(w, vs - {x})
    ensures C.Built(st.agg, order, w(x, vs[x]), Union(w, vs - {x}))
  {
    var apply, visited := FirstFold(w, SchemasOf(st), st.agg, true);
    order := visited;
    forall f: File ensures f in order <==> InState(w, vs, f) { Visited(w, SchemasOf(st), apply, order, f); }
    VisitedJoint(w, vs, order, x);
    OthersApart(w, vs, x);
    assert Genuine(w, SchemasOf(st)[x]);
  }

  // ---------------------------------------------------------------------------
  // Drop
  // ---------------------------------------------------------------------------

  lemma OnlyGone(cur: Schemas, next: Schemas, removed: seq<SchemaSnapshot>, x: Id)
    requires ServerState.Filed(cur) && GoneAre(cur, next, removed) && x in cur && next.Keys == cur.Keys - {x}
    ensures removed == [cur[x]]
  {
    assert cur[x] in removed;
    forall i | 0 <= i < |removed| ensures removed[i] == cur[x] { assert removed[i] in removed; }
    if 1 < |removed| { TwoDiffer(removed); }
  }

  lemma TwoDiffer(list: seq<SchemaSnapshot>)
    requires Distinct(list) && 1 < |list|
    ensures list[0] != list[1]
  {
  }

  lemma NothingNew(cur: Schemas, next: Schemas, x: Id, apply: seq<SchemaSnapshot>, outdated: seq<SchemaSnapshot>)
    requires ServerState.Filed(cur) && DiffIs(cur, next, apply, outdated) && VersionsOf(next) == VersionsOf(cur) - {x}
    ensures outdated == [] && apply == []
  {
    forall ss | In(next, ss) ensures Kept(VersionsOf(cur), ss.schemaID, ss.version) {
      assert VersionsOf(next)[ss.schemaID] == ss.version;
    }
    forall ss | In(cur, ss) && ss.schemaID in next ensures next[ss.schemaID].version == ss.version {
      assert VersionsOf(next)[ss.schemaID] == next[ss.schemaID].version;
    }
    if outdated != [] { FirstOf(outdated); }
    if apply != [] { FirstOf(apply); }
  }

  lemma KeysLeft(cur: Schemas, next: Schemas, x: Id)
    requires VersionsOf(next) == VersionsOf(cur) - {x}
    ensures next.Keys == cur.Keys - {x}
  {
    assert VersionsOf(next).Keys == next.Keys && VersionsOf(cur).Keys == cur.Keys;
  }

  lemma DropLists(cur: Schemas, next: Schemas, x: Id, removed: seq<SchemaSnapshot>,
                  outdated: seq<SchemaSnapshot>, apply: seq<SchemaSnapshot>)
    requires ServerState.Filed(cur) && x in cur && VersionsOf(next) == VersionsOf(cur) - {x}
    requires DiffIs(cur, next, apply, outdated) && GoneAre(cur, next, removed)
    ensures removed == [cur[x]] && outdated == [] && apply == []
  {
    KeysLeft(cur, next, x);
    OnlyGone(cur, next, removed, x);
    NothingNew(cur, next, x, apply, outdated);
  }

  lemma DropPlan(w: World, st: State, next: Schemas, x: Id, a: Agg, ok: bool)
    requires Tracks(w, SchemasOf(st)) && x in SchemasOf(st) && VersionsOf(next) == Have(st) - {x}
    requires PatchedTo(w, st, next, a, ok)
    ensures Patched(st.agg, [SchemasOf(st)[x]], [], [], a, ok)
  {
    var removed, outdated, apply := PlanOf(w, st, next, a, ok);
    DropLists(SchemasOf(st), next, x, removed, outdated, apply);
  }

  /** A refresh whose only difference is that a schema is gone removes its fingerprint and does nothing else. */
  lemma DropPatch(b: Agg, ss: SchemaSnapshot, a: Agg, ok: bool)
    requires Patched(b, [ss], [], [], a, ok) && RemovePrint(b, ss.fingerprint).1
    ensures ok && a == RemovePrint(b, ss.fingerprint).0
  {
    var r := RemovePrint(b, ss.fingerprint).0;
    assert RemovePrints(b, [ss]) == (r, true);
    assert RemovePrints(r, []) == (r, true);
    var visited :| AppliesBy(r, [], visited, a, ok);
  }

  /**
   Populate with any state, then refresh to the same state without schema `x`: the refresh goes
   through, and the aggregate has every path, extension number and top-level name of the schemas that
   stay, as a rebuild has, exactly when `x` shares none of them.
   */
  lemma DropRun(w: World, first: Answer, second: Answer, st: State, o: Outcome, st': State, x: Id)
    requires Refreshes(w, first, false, Start, Refreshed, st) && Refreshes(w, second, false, st, o, st')
    requires x in Have(st) && second.infos.Some? && Wanted(second.infos.value) == Have(st) - {x}
    requires CleanState(w, Have(st) - {x})
    ensures o == Refreshed
    ensures var rest := Have(st) - {x};
            C.Keeps(st'.agg, Union(w, rest)) <==> !C.Share(w(x, Have(st)[x]), Union(w, rest))
  {
    var vs := Have(st);
    var (g, s) := (w(x, vs[x]), Union(w, vs - {x}));
    var order := PopulatedIsBuilt(w, vs, st, x);
    var ss := SchemasOf(st)[x];
    assert Genuine(w, ss);
    C.DropKeepsExactly(st.agg, order, g, s, ss.fingerprint);
    Dropped(w, second, st, o, st', x);
  }

  lemma Dropped(w: World, answer: Answer, st: State, o: Outcome, st': State, x: Id)
    requires Tracks(w, SchemasOf(st)) && ExportsApart(w, Have(st)) && x in Have(st)
    requires Refreshes(w, answer, false, st, o, st') && answer.infos.Some?
    requires Wanted(answer.infos.value) == Have(st) - {x}
    requires RemovePrint(st.agg, SchemasOf(st)[x].fingerprint).1
    ensures o == Refreshed && st'.agg == RemovePrint(st.agg, SchemasOf(st)[x].fingerprint).0
  {
    var want := Wanted(answer.infos.value);
    assert x !in want;
    if o == Refreshed {
      DropPlan(w, st, SchemasOf(st'), x, st'.agg, true);
      DropPatch(st.agg, SchemasOf(st)[x], st'.agg, true);
    } else if o == AggregateFailed {
      var next :| VersionsOf(next) == want && PatchedTo(w, st, next, st'.agg, false);
      DropPlan(w, st, next, x, st'.agg, false);
      DropPatch(st.agg, SchemasOf(st)[x], st'.agg, false);
    }
  }

  /** A rebuild from the schemas that stay always has all of theirs. */
  lemma RebuildKeeps(w: World, vs: Versions, fs: seq<File>)
    requires CleanState(w, vs) && Enumerates(fs, Union(w, vs))
    ensures ApplyFiles(Blank, fs).1 && C.Keeps(ApplyFiles(Blank, fs).0, Union(w, vs))
  {
    BlankIs();
    FromNothing(Union(w, vs));
    ApplyAdds(Blank, map[], fs, Union(w, vs));
    C.AggKeeps(ApplyFiles(Blank, fs).0, Union(w, vs));
  }

  // ---------------------------------------------------------------------------
  // Pairs of schemas in the root package
  // ---------------------------------------------------------------------------

  ghost predicate RootStays(s: F.Files) {
    F.IsPackage(s.descsByName, []) && forall p :: p in s.fileDescs ==> [] !in s.fileDescs[p].names
  }

  lemma LeaveRoot(descs: map<FullName, F.Entry>, pkg: FullName, path: string, prune: bool)
    requires F.IsPackage(descs, [])
    ensures F.IsPackage(F.LeavePackage(descs, pkg, path, prune), [])
  {
    F.CleanupEffect(F.LeavePackage(descs, pkg, path, false), pkg);
  }

  lemma InsertRoot(s: F.Files, f: File)
    requires RootStays(s) && f.pkg == []
    ensures F.Insert(s, f).1 == F.Done && RootStays(F.Insert(s, f).0)
  {
    forall d | d in TopLevel(f) ensures d.full != [] { TopLevelDeclared(f, d); }
    F.NamesOfMembers(TopLevel(f), []);
    F.PutAllAt(s.descsByName[[] := F.Package(s.descsByName[[]].files + [f])], TopLevel(f), []);
  }

  lemma UpdateRoot(s: F.Files, f: File)
    requires RootStays(s) && f.pkg == []
    ensures F.Update(s, f).1 == F.Done && RootStays(F.Update(s, f).0)
  {
    if f.path in s.fileDescs {
      var prev := s.fileDescs[f.path];
      var descs := s.descsByName - (F.NameSet(prev.names) - F.NameSet(F.NamesOf(TopLevel(f))));
      LeaveRoot(descs, prev.pkg, f.path, prev.pkg != f.pkg);
      InsertRoot(F.Displace(s, f), f);
    } else {
      InsertRoot(s, f);
    }
  }

  /** Files in the root package always go in, whatever paths, numbers and names they share. */
  lemma {:induction false} RootFilesApply(a: Agg, fs: seq<File>)
    requires RootStays(a.files) && forall f :: f in fs ==> f.pkg == []
    ensures ApplyFiles(a, fs).1
    decreases fs
  {
    if fs != [] {
      assert fs[0] in fs;
      UpdateRoot(a.files, fs[0]);
      RootFilesApply(ApplyFile(a, fs[0]).0, fs[1..]);
    }
  }

  ghost predicate InRoot(c: F.Plain) {
    forall p :: p in c ==> c[p].pkg == []
  }

  /** Two schemas that compile and that the name index lets pass, all in the root package. */
  ghost predicate Pair(g: F.Plain, s: F.Plain) {
    && Clean(g) && Clean(s) && C.IndexedApart(g, s)
    && B.Compilable(g) && B.Compilable(s) && InRoot(g) && InRoot(s)
  }

  function Hosting(g: F.Plain, s: F.Plain): World {
    (i, v) => if i == "x" then g else s
  }

  const Both := Answer(Some([Info("x", Some(1)), Info("y", Some(1))]), (i, v) => true)
  const Rest := Answer(Some([Info("y", Some(1))]), (i, v) => true)

  lemma WantedLists()
    ensures Wanted(Both.infos.value) == map["x" := 1, "y" := 1] && Wanted(Rest.infos.value) == map["y" := 1]
  {
    var infos := Both.infos.value;
    assert infos[..1] == [Info("x", Some(1))] && infos[..1][..0] == [];
    assert Rest.infos.value[..0] == [];
  }

  lemma OneSchema(w: World, i: Id, v: nat)
    ensures Apart(w, map[i := v]) && Union(w, map[i := v]) == w(i, v)
  {
    var vs: Versions := map[i := v];
    forall p | p in w(i, v) ensures p in Union(w, vs) { UnionAt(w, vs, i, p); }
    forall p | p in Union(w, vs) ensures p in w(i, v) && Union(w, vs)[p] == w(i, v)[p] { var j := UnionFrom(w, vs, p); }
  }

  lemma PairServed(g: F.Plain, s: F.Plain)
    requires Pair(g, s)
    ensures WellFormed(Hosting(g, s), Both) && WellFormed(Hosting(g, s), Rest)
    ensures CanFetch(Hosting(g, s), Both.up, map[], map["x" := 1, "y" := 1])
  {
  }

  lemma PairPasses(g: F.Plain, s: F.Plain)
    requires C.IndexedApart(g, s)
    ensures ExportsApart(Hosting(g, s), map["x" := 1, "y" := 1])
  {
    var (x, y) := (PlainNames(g), PlainNames(s));
    assert x !! y;
  }

  /** The first fetch of such a pair always goes through. */
  lemma PairPopulates(g: F.Plain, s: F.Plain, o: Outcome, st: State)
    requires Pair(g, s) && Refreshes(Hosting(g, s), Both, false, Start, o, st)
    ensures o == Refreshed && Have(st) == map["x" := 1, "y" := 1]
  {
    PairServed(g, s);
    PairPasses(g, s);
    WantedLists();
    if o == AggregateFailed { PairNotRefused(g, s, st); }
  }

  lemma PairNotRefused(g: F.Plain, s: F.Plain, st: State)
    requires Pair(g, s)
    ensures !BrokeOff(Hosting(g, s), map["x" := 1, "y" := 1], Start, st)
  {
    var w := Hosting(g, s);
    forall next | VersionsOf(next) == map["x" := 1, "y" := 1] ensures !PatchedTo(w, Start, next, st.agg, false) {
      if PatchedTo(w, Start, next, st.agg, false) { FoldGoesThrough(g, s, next, st.agg); }
    }
  }

  lemma FoldGoesThrough(g: F.Plain, s: F.Plain, next: Schemas, a: Agg)
    requires Pair(g, s) && VersionsOf(next) == map["x" := 1, "y" := 1]
    ensures !PatchedTo(Hosting(g, s), Start, next, a, false)
  {
    var w := Hosting(g, s);
    if PatchedTo(w, Start, next, a, false) {
      var apply, visited := FirstFold(w, next, a, false);
      forall f | f in visited ensures f.pkg == [] {
        VisitedFrom(Blank, apply, visited, a, false, f);
        StateFiles(w, next, apply, f);
      }
      RootFilesApply(Blank, visited);
    }
  }

  lemma SecondStays(g: F.Plain, s: F.Plain, vs: Versions)
    requires Pair(g, s) && vs == map["x" := 1, "y" := 1] - {"x"}
    ensures CleanState(Hosting(g, s), vs) && Union(Hosting(g, s), vs) == s && Wanted(Rest.infos.value) == vs
  {
    assert vs == map["y" := 1];
    WantedLists();
    OneSchema(Hosting(g, s), "y", 1);
  }

  /** Populate with the pair, then drop the first: the second is left whole exactly when they share nothing. */
  lemma PairRun(g: F.Plain, s: F.Plain, o: Outcome, st: State, o': Outcome, st': State)
    requires Pair(g, s)
    requires Refreshes(Hosting(g, s), Both, false, Start, o, st) && Refreshes(Hosting(g, s), Rest, false, st, o', st')
    ensures o == o' == Refreshed && (C.Keeps(st'.agg, s) <==> !C.Share(g, s))
  {
    PairPopulates(g, s, o, st);
    SecondStays(g, s, Have(st) - {"x"});
    PairDrop(g, s, st, o', st');
  }

  lemma PairDrop(g: F.Plain, s: F.Plain, st: State, o: Outcome, st': State)
    requires Have(st) == map["x" := 1, "y" := 1] && Rest.infos.Some? && Wanted(Rest.infos.value) == Have(st) - {"x"}
    requires CleanState(Hosting(g, s), Have(st) - {"x"}) && Union(Hosting(g, s), Have(st) - {"x"}) == s
    requires Refreshes(Hosting(g, s), Both, false, Start, Refreshed, st)
    requires Refreshes(Hosting(g, s), Rest, false, st, o, st')
    ensures o == Refreshed && (C.Keeps(st'.agg, s) <==> !C.Share(g, s))
  {
    DropRun(Hosting(g, s), Both, Rest, st, o, st', "x");
  }

  /** A new resolver populates with the pair and then refreshes to the second schema alone. */
  method RunPair(g: F.Plain, s: F.Plain)
    returns (r: Resolver, ghost o: Outcome, ghost st: State, ghost o': Outcome)
    requires Pair(g, s)
    ensures fresh(r) && fresh(r.nsFiles) && fresh(r.nsTypes) && r.Ready() && !r.fromCache
    ensures Refreshes(Hosting(g, s), Both, false, Start, o, st)
    ensures Refreshes(Hosting(g, s), Rest, false, st, o', r.Value()) && Tracks(Hosting(g, s), SchemasOf(r.Value()))
  {
    PairServed(g, s);
    r := new Resolver(false, null, null);
    o := r.Populate(Hosting(g, s), Both);
    st := r.Value();
    StartSynced(Hosting(g, s));
    StillTracks(Hosting(g, s), Both, Start, o, st);
    o' := r.Refresh(Hosting(g, s), Rest);
    StillTracks(Hosting(g, s), Rest, st, o', r.Value());
  }

  method PopulateThenDrop(g: F.Plain, s: F.Plain) returns (r: Resolver)
    requires Pair(g, s)
    ensures fresh(r) && r.Ready() && (C.Keeps(r.Value().agg, s) <==> !C.Share(g, s))
  {
    ghost var o, st, o';
    r, o, st, o' := RunPair(g, s);
    PairRun(g, s, o, st, o', r.Value());
  }

  // ---------------------------------------------------------------------------
  // One pair of each kind
  // ---------------------------------------------------------------------------

  const Plainest := File("a.proto", [], [], [], [], [])
  const OneNumber := File("a.proto", [], [], [], [Extension("first", 100, ["Options"])], [])
  const SameNumber := File("b.proto", [], [], [], [Extension("second", 100, ["Options"])], [])
  const OneValue := File("a.proto", [], [], [Enum("Color", [EnumValue("NONE", 0)])], [], [])
  const SameValue := File("b.proto", [], [], [Enum("Shape", [EnumValue("NONE", 0)])], [], [])

  function Sole(f: File): F.Plain {
    map[f.path := f]
  }

  /** A file of the root package with at most one type is a clean schema of its own. */
  lemma SoleFile(f: File)
    requires f.pkg == [] && UniqueNames(f) && |FileTypes(f)| <= 1
    ensures Clean(Sole(f)) && B.Compilable(Sole(f)) && InRoot(Sole(f))
    ensures PlainNames(Sole(f)) == F.NameSet(IndexedNames(f))
  {
    SoleNames(f);
    SoleClashFree(f);
    var c := Sole(f);
    forall d | d in TypesIn(c) ensures d in FileTypes(f) { }
  }

  lemma SoleNames(f: File)
    ensures PlainNames(Sole(f)) == F.NameSet(IndexedNames(f))
  {
    var c := Sole(f);
    forall n ensures n in PlainNames(c) <==> n in IndexedNames(f) {
      if n in IndexedNames(f) { assert n in IndexedNames(c[f.path]); }
    }
  }

  lemma SoleClashFree(f: File)
    requires f.pkg == [] && UniqueNames(f)
    ensures F.ClashFree(Sole(f))
  {
    var c := Sole(f);
    forall p, d | F.Offers(c, p, d) ensures p == f.path && d in Decls(f) && |d.full| == 1 { TopLevelDeclared(f, d); }
  }

  lemma ExtensionOnly(path: string, x: Extension)
    ensures var f, d := File(path, [], [], [], [x], []), ExtensionD([x.name], x);
            FileTypes(f) == [d] && IndexedNames(f) == [[x.name]] && Decls(f) == {d}
  {
    var f, d := File(path, [], [], [], [x], []), ExtensionD([x.name], x);
    assert [] + [x.name] == [x.name];
    assert ExtensionTypes([], [x]) == [d] + ExtensionTypes([], []);
    assert Fulls([d]) == [d.full] + Fulls([]);
    assert ExtensionDecls([], [x]) == {d};
  }

  lemma EnumOnly(path: string, e: Enum, v: EnumValue)
    requires e.values == [v]
    ensures var f, d := File(path, [], [], [e], [], []), EnumD([e.name], e);
            && FileTypes(f) == [d] && IndexedNames(f) == [[e.name]] && Decls(f) == {d, ValueD([v.name], v)}
            && ValueD([v.name], v) in TopLevel(f)
  {
    var f, d := File(path, [], [], [e], [], []), EnumD([e.name], e);
    assert [] + [e.name] == [e.name] && [] + [v.name] == [v.name];
    assert EnumTypes([], [e]) == [d] + EnumTypes([], []);
    assert Fulls([d]) == [d.full] + Fulls([]);
    assert EnumDecls([], e) == {d, ValueD([v.name], v)};
    assert ValuesDown([], [v]) == [ValueD([v.name], v)] + ValuesDown([], []);
  }

  /** The same path in both: one of the two files is served, and it goes with either schema. */
  lemma SharedPath()
    ensures Pair(Sole(Plainest), Sole(Plainest)) && C.SharePath(Sole(Plainest), Sole(Plainest))
  {
    assert Decls(Plainest) == {} && FileTypes(Plainest) == [] && IndexedNames(Plainest) == [];
    SoleFile(Plainest);
    assert Plainest.path in Sole(Plainest);
  }

  lemma ExtensionSole(path: string, x: Extension)
    ensures var c := Sole(File(path, [], [], [], [x], []));
            && Clean(c) && B.Compilable(c) && InRoot(c) && PlainNames(c) == {[x.name]}
            && ExtensionD([x.name], x) in TypesIn(c)
  {
    ExtensionOnly(path, x);
    var f := File(path, [], [], [], [x], []);
    SoleFile(f);
    assert ExtensionD([x.name], x) in FileTypes(Sole(f)[path]);
  }

  lemma TwoExtensions(x: Extension, y: Extension, c: F.Plain, c': F.Plain)
    requires x.name != y.name && x.extendee == y.extendee && x.number == y.number
    requires c == Sole(File("a.proto", [], [], [], [x], [])) && c' == Sole(File("b.proto", [], [], [], [y], []))
    ensures Pair(c, c') && C.ShareSlot(c, c')
  {
    ExtensionSole("a.proto", x);
    ExtensionSole("b.proto", y);
    assert [x.name][0] != [y.name][0];
    assert SameSlot(ExtensionD([x.name], x), ExtensionD([y.name], y));
  }

  /** The same extension number under two names. */
  lemma SharedNumber()
    ensures Pair(Sole(OneNumber), Sole(SameNumber)) && C.ShareSlot(Sole(OneNumber), Sole(SameNumber))
  {
    assert "first" != "second";
    TwoExtensions(Extension("first", 100, ["Options"]), Extension("second", 100, ["Options"]),
                  Sole(OneNumber), Sole(SameNumber));
  }

  lemma EnumSole(path: string, e: Enum, v: EnumValue)
    requires e.values == [v] && e.name != v.name
    ensures var c := Sole(File(path, [], [], [e], [], []));
            && Clean(c) && B.Compilable(c) && InRoot(c) && PlainNames(c) == {[e.name]}
            && F.Offers(c, path, ValueD([v.name], v))
  {
    EnumOnly(path, e, v);
    SoleFile(File(path, [], [], [e], [], []));
  }

  lemma TwoEnums(e: Enum, e': Enum, v: EnumValue, c: F.Plain, c': F.Plain)
    requires e.values == e'.values == [v] && e.name != v.name && e'.name != v.name && e.name != e'.name
    requires c == Sole(File("a.proto", [], [], [e], [], [])) && c' == Sole(File("b.proto", [], [], [e'], [], []))
    ensures Pair(c, c') && C.ShareName(c, c')
  {
    EnumSole("a.proto", e, v);
    EnumSole("b.proto", e', v);
    assert [e.name][0] != [e'.name][0];
  }

  /** The same enum value in two enums of one package. */
  lemma SharedValue()
    ensures Pair(Sole(OneValue), Sole(SameValue)) && C.ShareName(Sole(OneValue), Sole(SameValue))
  {
    var v := EnumValue("NONE", 0);
    assert "Color" != "NONE" && "Shape" != "NONE" && "Color" != "Shape";
    TwoEnums(Enum("Color", [v]), Enum("Shape", [v]), v, Sole(OneValue), Sole(SameValue));
  }

  /** Each kind of collision, carried out: the schema that stays loses a path, a number or a name. */
  method LosesOneOfEach() returns (path: Resolver, number: Resolver, value: Resolver)
    ensures fresh(path) && !C.Keeps(path.Value().agg, Sole(Plainest))
    ensures fresh(number) && !C.Keeps(number.Value().agg, Sole(SameNumber))
    ensures fresh(value) && !C.Keeps(value.Value().agg, Sole(SameValue))
  {
    SharedPath();
    path := PopulateThenDrop(Sole(Plainest), Sole(Plainest));
    SharedNumber();
    number := PopulateThenDrop(Sole(OneNumber), Sole(SameNumber));
    SharedValue();
    value := PopulateThenDrop(Sole(OneValue), Sole(SameValue));
  }
}
