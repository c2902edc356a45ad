/**
 The diff of a refresh: which schemas are kept, fetched and dropped, and what dropping and applying
 them one after the other does to the aggregate.
 */
module Refresh {
  import opened Descriptors
  import F = FileIndex
  import FR = FileRegistry
  import TR = TypeRegistry
  import B = SchemaBuild
  import opened Aggregate
  import opened Snapshot
  import opened NameIndex
  import opened ServerState

  /** One entry of the list of schemas; a schema without a current version is skipped. */
  datatype Info = Info(id: Id, current: Option<nat>)

  /** The server delivers this version when asked, rather than failing. */
  type Reachable = (Id, nat) -> bool

  ghost predicate Served(w: World, up: Reachable) {
    forall i, v :: up(i, v) ==> B.Linked(w(i, v))
  }

  function Wanted(infos: seq<Info>): Versions {
    if infos == [] then map[] else
      var r, last := Wanted(infos[..|infos| - 1]), infos[|infos| - 1];
      if last.current.Some? then r[last.id := last.current.value] else r
  }

  ghost predicate IdsOnce(infos: seq<Info>) {
    forall i, j :: 0 <= i < j < |infos| ==> infos[i].id != infos[j].id
  }

  predicate Kept(have: Versions, i: Id, v: nat) {
    i in have && have[i] == v
  }

  ghost predicate Fetchable(w: World, up: Reachable, i: Id, v: nat) {
    up(i, v) && B.Compilable(w(i, v))
  }

  /** Every wanted version that the client does not have yet can be fetched and compiled. */
  ghost predicate CanFetch(w: World, up: Reachable, have: Versions, want: Versions) {
    forall i :: i in want && !Kept(have, i, want[i]) ==> Fetchable(w, up, i, want[i])
  }

  // ---------------------------------------------------------------------------
  // The diff
  // ---------------------------------------------------------------------------

  predicate In(m: Schemas, ss: SchemaSnapshot) {
    ss.schemaID in m && m[ss.schemaID] == ss
  }

  ghost predicate Distinct(list: seq<SchemaSnapshot>) {
    forall i, j :: 0 <= i < j < |list| ==> list[i].schemaID != list[j].schemaID
  }

  /** The new schemas, those to apply, and the outdated ones they replace. */
  ghost predicate DiffIs(cur: Schemas, next: Schemas, apply: seq<SchemaSnapshot>, outdated: seq<SchemaSnapshot>) {
    && Filed(next)
    && (forall i :: i in next && Kept(VersionsOf(cur), i, next[i].version) ==> next[i] == cur[i])
    && ApplyIs(cur, next, apply) && OutdatedIs(cur, next, outdated)
  }

  ghost predicate ApplyIs(cur: Schemas, next: Schemas, apply: seq<SchemaSnapshot>) {
    Distinct(apply) && forall ss :: ss in apply <==> In(next, ss) && !Kept(VersionsOf(cur), ss.schemaID, ss.version)
  }

  ghost predicate OutdatedIs(cur: Schemas, next: Schemas, outdated: seq<SchemaSnapshot>) {
    && Distinct(outdated)
    && (forall ss :: ss in outdated <==> In(cur, ss) && ss.schemaID in next && next[ss.schemaID].version != ss.version)
  }

  lemma {:induction false} WantedFrom(infos: seq<Info>, i: Id) returns (k: nat)
    requires i in Wanted(infos)
    ensures k < |infos| && infos[k].id == i && infos[k].current == Some(Wanted(infos)[i])
    decreases |infos|
  {
    var last := infos[|infos| - 1];
    if last.id == i && last.current.Some? {
      k := |infos| - 1;
    } else {
      k := WantedFrom(infos[..|infos| - 1], i);
    }
  }

  lemma {:induction false} WantedAt(infos: seq<Info>, k: nat)
    requires IdsOnce(infos) && k < |infos| && infos[k].current.Some?
    ensures infos[k].id in Wanted(infos) && Wanted(infos)[infos[k].id] == infos[k].current.value
    decreases |infos|
  {
    if k < |infos| - 1 {
      WantedAt(infos[..|infos| - 1], k);
    }
  }

  lemma WantedNew(infos: seq<Info>, k: nat)
    requires IdsOnce(infos) && k < |infos|
    ensures infos[k].id !in Wanted(infos[..k])
    ensures infos[..k + 1][..k] == infos[..k]
  {
    if infos[k].id in Wanted(infos[..k]) {
      var j := WantedFrom(infos[..k], infos[k].id);
    }
  }

  lemma DiffKeeps(cur: Schemas, next: Schemas, apply: seq<SchemaSnapshot>, outdated: seq<SchemaSnapshot>, i: Id)
    requires Filed(cur) && DiffIs(cur, next, apply, outdated) && i !in next && i in cur
    ensures DiffIs(cur, next[i := cur[i]], apply, outdated)
  {
    var next' := next[i := cur[i]];
    forall ss ensures ss in apply <==> In(next', ss) && !Kept(VersionsOf(cur), ss.schemaID, ss.version) { }
    forall ss
      ensures ss in outdated <==> In(cur, ss) && ss.schemaID in next' && next'[ss.schemaID].version != ss.version
    {
    }
  }

  lemma DiffFetches(cur: Schemas, next: Schemas, apply: seq<SchemaSnapshot>, outdated: seq<SchemaSnapshot>,
                    fetched: SchemaSnapshot)
    requires Filed(cur) && DiffIs(cur, next, apply, outdated) && fetched.schemaID !in next
    requires !Kept(VersionsOf(cur), fetched.schemaID, fetched.version)
    ensures var i := fetched.schemaID;
            DiffIs(cur, next[i := fetched], apply + [fetched], if i in cur then outdated + [cur[i]] else outdated)
  {
    ApplyMore(cur, next, apply, fetched);
    OutdatedMore(cur, next, outdated, fetched);
  }

  lemma ApplyMore(cur: Schemas, next: Schemas, apply: seq<SchemaSnapshot>, fetched: SchemaSnapshot)
    requires ApplyIs(cur, next, apply) && fetched.schemaID !in next
    requires !Kept(VersionsOf(cur), fetched.schemaID, fetched.version)
    ensures ApplyIs(cur, next[fetched.schemaID := fetched], apply + [fetched])
  {
    var i := fetched.schemaID;
    var next' := next[i := fetched];
    forall ss
      ensures ss in apply + [fetched] <==> In(next', ss) && !Kept(VersionsOf(cur), ss.schemaID, ss.version)
    {
    }
    forall k | 0 <= k < |apply| ensures apply[k].schemaID != i { assert apply[k] in apply; }
  }

  lemma OutdatedMore(cur: Schemas, next: Schemas, outdated: seq<SchemaSnapshot>, fetched: SchemaSnapshot)
    requires Filed(cur) && OutdatedIs(cur, next, outdated) && fetched.schemaID !in next
    requires !Kept(VersionsOf(cur), fetched.schemaID, fetched.version)
    ensures var i := fetched.schemaID;
            OutdatedIs(cur, next[i := fetched], if i in cur then outdated + [cur[i]] else outdated)
  {
    var i := fetched.schemaID;
    var outdated' := if i in cur then outdated + [cur[i]] else outdated;
    var next' := next[i := fetched];
    forall ss
      ensures ss in outdated' <==> In(cur, ss) && ss.schemaID in next' && next'[ss.schemaID].version != ss.version
    {
    }
    forall k | 0 <= k < |outdated| ensures outdated[k].schemaID != i { assert outdated[k] in outdated; }
  }

  lemma VersionsPut(next: Schemas, i: Id, ss: SchemaSnapshot)
    ensures VersionsOf(next[i := ss]) == VersionsOf(next)[i := ss.version]
  {
  }

  lemma FetchesMore(w: World, up: Reachable, have: Versions, infos: seq<Info>, k: nat)
    requires IdsOnce(infos) && k < |infos| && CanFetch(w, up, have, Wanted(infos[..k]))
    requires infos[k].current.Some? ==>
               Kept(have, infos[k].id, infos[k].current.value) || Fetchable(w, up, infos[k].id, infos[k].current.value)
    ensures CanFetch(w, up, have, Wanted(infos[..k + 1]))
  {
    WantedNew(infos, k);
  }

  lemma FetchFails(w: World, up: Reachable, have: Versions, infos: seq<Info>, k: nat)
    requires IdsOnce(infos) && k < |infos| && infos[k].current.Some?
    requires !Kept(have, infos[k].id, infos[k].current.value) && !Fetchable(w, up, infos[k].id, infos[k].current.value)
    ensures !CanFetch(w, up, have, Wanted(infos))
  {
    WantedAt(infos, k);
  }

  /** GetDescriptor and compilation. */
  method FetchSchema(w: World, up: Reachable, id: Id, version: nat,
                     parentFiles: FR.NamespacedFiles?, parentTypes: TR.NamespacedTypes?)
    returns (r: Option<SchemaSnapshot>)
    requires Served(w, up)
    requires parentFiles != null ==> parentFiles.Rooted()
    requires parentTypes != null ==> parentTypes.Rooted()
    ensures r.Some? <==> Fetchable(w, up, id, version)
    ensures r.Some? ==> Genuine(w, r.value) && r.value.schemaID == id && r.value.version == version
  {
    if !up(id, version) { return None; }
    r := B.CompileSchema(id, version, w(id, version), parentFiles, parentTypes);
  }

  /** The first `k` entries of the list have been dealt with. */
  ghost predicate DiffUpTo(w: World, up: Reachable, cur: Schemas, infos: seq<Info>, k: nat,
                           next: Schemas, apply: seq<SchemaSnapshot>, outdated: seq<SchemaSnapshot>)
  {
    && k <= |infos| && VersionsOf(next) == Wanted(infos[..k])
    && CanFetch(w, up, VersionsOf(cur), Wanted(infos[..k]))
    && DiffIs(cur, next, apply, outdated) && AllGenuine(w, apply)
  }

  lemma SkipInfo(w: World, up: Reachable, cur: Schemas, infos: seq<Info>, k: nat,
                 next: Schemas, apply: seq<SchemaSnapshot>, outdated: seq<SchemaSnapshot>)
    requires IdsOnce(infos) && k < |infos| && DiffUpTo(w, up, cur, infos, k, next, apply, outdated)
    requires infos[k].current.None?
    ensures DiffUpTo(w, up, cur, infos, k + 1, next, apply, outdated)
  {
    WantedNew(infos, k);
  }

  lemma KeepInfo(w: World, up: Reachable, cur: Schemas, infos: seq<Info>, k: nat,
                 next: Schemas, apply: seq<SchemaSnapshot>, outdated: seq<SchemaSnapshot>)
    requires IdsOnce(infos) && k < |infos| && DiffUpTo(w, up, cur, infos, k, next, apply, outdated) && Filed(cur)
    requires infos[k].current.Some? && Kept(VersionsOf(cur), infos[k].id, infos[k].current.value)
    ensures DiffUpTo(w, up, cur, infos, k + 1, next[infos[k].id := cur[infos[k].id]], apply, outdated)
  {
    WantedNew(infos, k);
    assert infos[k].id !in VersionsOf(next);
    FetchesMore(w, up, VersionsOf(cur), infos, k);
    DiffKeeps(cur, next, apply, outdated, infos[k].id);
    VersionsPut(next, infos[k].id, cur[infos[k].id]);
  }

  lemma FetchInfo(w: World, up: Reachable, cur: Schemas, infos: seq<Info>, k: nat,
                  next: Schemas, apply: seq<SchemaSnapshot>, outdated: seq<SchemaSnapshot>, fetched: SchemaSnapshot)
    requires IdsOnce(infos) && k < |infos| && DiffUpTo(w, up, cur, infos, k, next, apply, outdated) && Filed(cur)
    requires infos[k].current.Some? && !Kept(VersionsOf(cur), infos[k].id, infos[k].current.value)
    requires Fetchable(w, up, infos[k].id, infos[k].current.value) && Genuine(w, fetched)
    requires fetched.schemaID == infos[k].id && fetched.version == infos[k].current.value
    ensures var i := infos[k].id;
            DiffUpTo(w, up, cur, infos, k + 1, next[i := fetched], apply + [fetched],
                     if i in cur then outdated + [cur[i]] else outdated)
  {
    WantedNew(infos, k);
    assert infos[k].id !in VersionsOf(next);
    FetchesMore(w, up, VersionsOf(cur), infos, k);
    DiffFetches(cur, next, apply, outdated, fetched);
    VersionsPut(next, infos[k].id, fetched);
    GenuineMore(w, apply, fetched);
  }

  lemma GenuineMore(w: World, list: seq<SchemaSnapshot>, ss: SchemaSnapshot)
    requires AllGenuine(w, list) && Genuine(w, ss)
    ensures AllGenuine(w, list + [ss])
  {
    forall x | x in list + [ss] ensures Genuine(w, x) { }
  }

  lemma DiffStart(w: World, up: Reachable, cur: Schemas, infos: seq<Info>)
    ensures DiffUpTo(w, up, cur, infos, 0, map[], [], []) && infos[..|infos|] == infos
  {
    assert VersionsOf(map[]) == map[];
  }

  /** Walks the list, keeps what has not changed and fetches the rest; the first failure ends it. */
  method Diff(w: World, up: Reachable, cur: Schemas, infos: seq<Info>,
              parentFiles: FR.NamespacedFiles?, parentTypes: TR.NamespacedTypes?)
    returns (ok: bool, next: Schemas, apply: seq<SchemaSnapshot>, outdated: seq<SchemaSnapshot>)
    requires Served(w, up) && Filed(cur) && IdsOnce(infos)
    requires parentFiles != null ==> parentFiles.Rooted()
    requires parentTypes != null ==> parentTypes.Rooted()
    ensures ok <==> CanFetch(w, up, VersionsOf(cur), Wanted(infos))
    ensures ok ==> VersionsOf(next) == Wanted(infos) && DiffIs(cur, next, apply, outdated) && AllGenuine(w, apply)
  {
    next, apply, outdated := map[], [], [];
    DiffStart(w, up, cur, infos);
    for k := 0 to |infos|
      invariant DiffUpTo(w, up, cur, infos, k, next, apply, outdated)
    {
      if infos[k].current.None? {
        SkipInfo(w, up, cur, infos, k, next, apply, outdated);
        continue;
      }
      var id, version := infos[k].id, infos[k].current.value;
      if id in cur && cur[id].version == version {
        KeepInfo(w, up, cur, infos, k, next, apply, outdated);
        next := next[id := cur[id]];
        continue;
      }
      var r := FetchSchema(w, up, id, version, parentFiles, parentTypes);
      if r.None? {
        FetchFails(w, up, VersionsOf(cur), infos, k);
        return false, next, apply, outdated;
      }
      FetchInfo(w, up, cur, infos, k, next, apply, outdated, r.value);
      if id in cur {
        outdated := outdated + [cur[id]];
      }
      next, apply := next[id := r.value], apply + [r.value];
    }
    ok := true;
  }

  ghost predicate GoneAre(cur: Schemas, next: Schemas, removed: seq<SchemaSnapshot>) {
    Distinct(removed) && forall ss :: ss in removed <==> In(cur, ss) && ss.schemaID !in next
  }

  /** The schemas that are no longer on the server. */
  method Gone(cur: Schemas, next: Schemas) returns (removed: seq<SchemaSnapshot>)
    requires Filed(cur)
    ensures GoneAre(cur, next, removed)
  {
    removed := [];
    var todo := cur.Keys;
    while todo != {}
      invariant todo <= cur.Keys && Distinct(removed)
      invariant forall ss :: ss in removed <==> In(cur, ss) && ss.schemaID !in todo && ss.schemaID !in next
      decreases todo
    {
      var i :| i in todo;
      if i !in next {
        forall k | 0 <= k < |removed| ensures removed[k].schemaID != i { assert removed[k] in removed; }
        removed := removed + [cur[i]];
      }
      todo := todo - {i};
    }
  }

  // ---------------------------------------------------------------------------
  // Dropping and applying many schemas
  // ---------------------------------------------------------------------------

  function Ids(list: seq<SchemaSnapshot>): set<Id> {
    set ss | ss in list :: ss.schemaID
  }

  ghost predicate AllGenuine(w: World, list: seq<SchemaSnapshot>) {
    forall ss :: ss in list ==> Genuine(w, ss)
  }

  /** The listed schemas are in `vs` at their version. */
  ghost predicate AllIn(vs: Versions, list: seq<SchemaSnapshot>) {
    forall ss :: ss in list ==> ss.schemaID in vs && vs[ss.schemaID] == ss.version
  }

  ghost predicate InStep(a: Agg, w: World, vs: Versions) {
    // Written as a match so that the verifier keeps the predicate whole where it is promised.
    match a
    case Agg(_, _) => CleanState(w, vs) && AggIs(a, Union(w, vs))
  }

  /** Unregisters the fingerprints of the listed schemas and stops at the first failure. */
  function RemovePrints(a: Agg, list: seq<SchemaSnapshot>): (Agg, bool)
    decreases list
  {
    if list == [] then (a, true) else
      var r := RemovePrint(a, list[0].fingerprint);
      if r.1 then RemovePrints(r.0, list[1..]) else r
  }

  /** Takes the listed schemas out of the aggregate, one by one. */
  method RemoveSchemas(files: FR.NamespacedFiles, types: TR.NamespacedTypes, list: seq<SchemaSnapshot>)
    returns (ok: bool)
    requires !files.readOnly && !types.readOnly
    modifies files, types
    ensures (AggOf(files, types), ok) == RemovePrints(old(AggOf(files, types)), list)
  {
    for k := 0 to |list|
      invariant RemovePrints(AggOf(files, types), list[k..]) == RemovePrints(old(AggOf(files, types)), list)
    {
      assert list[k..][1..] == list[k + 1..];
      ok := RemoveFromAggregate(files, types, list[k]);
      if !ok { return; }
    }
    ok := true;
  }

  /** From the aggregate of a clean state, removing listed schemas succeeds and leaves the aggregate of the rest. */
  lemma {:induction false} RemovesInStep(a: Agg, w: World, vs: Versions, list: seq<SchemaSnapshot>)
    requires Distinct(list) && AllGenuine(w, list) && AllIn(vs, list) && InStep(a, w, vs)
    ensures RemovePrints(a, list).1 && InStep(RemovePrints(a, list).0, w, vs - Ids(list))
    decreases list
  {
    if list == [] {
      NoIds(vs);
    } else {
      var ss, rest := list[0], list[1..];
      IdsNext(vs, list);
      RemoveOne(a, w, vs, ss);
      CleanDrop(w, vs, ss.schemaID);
      TailGenuine(w, list);
      RemovesInStep(RemovePrint(a, ss.fingerprint).0, w, vs - {ss.schemaID}, rest);
    }
  }

  lemma TailGenuine(w: World, list: seq<SchemaSnapshot>)
    requires AllGenuine(w, list) && list != []
    ensures Genuine(w, list[0]) && AllGenuine(w, list[1..])
  {
    assert list[0] in list;
    forall ss | ss in list[1..] ensures Genuine(w, ss) { assert ss in list; }
  }

  lemma IdsNext(vs: Versions, list: seq<SchemaSnapshot>)
    requires list != [] && Distinct(list) && AllIn(vs, list)
    ensures list[0].schemaID in vs && vs[list[0].schemaID] == list[0].version
    ensures Distinct(list[1..]) && AllIn(vs - {list[0].schemaID}, list[1..])
    ensures vs - {list[0].schemaID} - Ids(list[1..]) == vs - Ids(list)
  {
    assert list[0] in list;
    assert list == [list[0]] + list[1..];
    assert Ids(list) == {list[0].schemaID} + Ids(list[1..]);
    forall ss | ss in list[1..] ensures ss.schemaID != list[0].schemaID {
      var i :| 0 <= i < |list[1..]| && list[1..][i] == ss;
      assert list[i + 1] == ss;
    }
  }

  lemma NoIds(vs: Versions)
    ensures vs - Ids([]) == vs
  {
    assert Ids([]) == {};
  }

  function Plus(vs: Versions, list: seq<SchemaSnapshot>): Versions {
    if list == [] then vs else
      var last := list[|list| - 1];
      Plus(vs, list[..|list| - 1])[last.schemaID := last.version]
  }

  lemma {:induction false} PlusAt(vs: Versions, list: seq<SchemaSnapshot>, i: Id)
    requires Distinct(list)
    ensures i in Plus(vs, list) <==> i in vs || i in Ids(list)
    ensures i in vs && i !in Ids(list) ==> Plus(vs, list)[i] == vs[i]
    ensures forall ss :: ss in list && ss.schemaID == i ==> i in Plus(vs, list) && Plus(vs, list)[i] == ss.version
    decreases |list|
  {
    if list != [] {
      var init, last := list[..|list| - 1], list[|list| - 1];
      PlusAt(vs, init, i);
      assert list == init + [last];
      assert Ids(list) == Ids(init) + {last.schemaID};
    }
  }

  /** `vs` is part of `all`, at the same versions. */
  ghost predicate Part(vs: Versions, all: Versions) {
    forall i :: i in vs ==> i in all && vs[i] == all[i]
  }

  lemma SameKeys(vs: Versions, all: Versions)
    requires Part(vs, all) && all.Keys - vs.Keys == {}
    ensures vs == all
  {
    assert forall i :: i in all ==> i in vs.Keys || i in all.Keys - vs.Keys;
  }

  lemma {:induction false} CleanPart(w: World, vs: Versions, all: Versions, rest: set<Id>)
    requires CleanState(w, all) && Part(vs, all) && rest == all.Keys - vs.Keys
    ensures CleanState(w, vs)
    decreases rest
  {
    if rest == {} {
      SameKeys(vs, all);
    } else {
      var i :| i in rest;
      CleanDrop(w, all, i);
      assert (all - {i}).Keys == all.Keys - {i};
      CleanPart(w, vs, all - {i}, rest - {i});
    }
  }

  ghost predicate CanApply(w: World, vs: Versions, list: seq<SchemaSnapshot>) {
    Distinct(list) && AllGenuine(w, list) && vs.Keys !! Ids(list) && CleanState(w, Plus(vs, list))
  }

  /** The files of the listed schemas, schema by schema, each schema in some order of its files. */
  ghost predicate Covers(files: seq<File>, list: seq<SchemaSnapshot>)
    decreases list
  {
    if list == [] then files == [] else
      exists k :: 0 <= k <= |files| && Covers(files[..k], list[..|list| - 1]) &&
                  Enumerates(files[k..], Contribution(list[|list| - 1]))
  }

  /** As far as a fold over the listed schemas got: whole schemas, then some files of the next one. */
  ghost predicate CoversPart(files: seq<File>, list: seq<SchemaSnapshot>) {
    exists j, k :: 0 <= j < |list| && 0 <= k <= |files| && CoversUpTo(files, list, j, k)
  }

  ghost predicate CoversUpTo(files: seq<File>, list: seq<SchemaSnapshot>, j: nat, k: nat)
    requires j < |list| && k <= |files|
  {
    Covers(files[..k], list[..j]) && Snapshot.Part(files[k..], Contribution(list[j]))
  }

  /** Folding the listed schemas into the aggregate, with `files` in the order in which they were visited. */
  ghost predicate AppliesBy(a: Agg, list: seq<SchemaSnapshot>, files: seq<File>, a': Agg, ok: bool) {
    (a', ok) == ApplyFiles(a, files) && if ok then Covers(files, list) else CoversPart(files, list)
  }

  lemma {:induction false} ApplyFilesConcat(a: Agg, xs: seq<File>, ys: seq<File>)
    ensures ApplyFiles(a, xs + ys) ==
            if ApplyFiles(a, xs).1 then ApplyFiles(ApplyFiles(a, xs).0, ys) else ApplyFiles(a, xs)
    decreases xs
  {
    if xs == [] {
      assert xs + ys == ys;
    } else {
      assert (xs + ys)[1..] == xs[1..] + ys;
      if ApplyFile(a, xs[0]).1 { ApplyFilesConcat(ApplyFile(a, xs[0]).0, xs[1..], ys); }
    }
  }

  lemma CoversNext(files: seq<File>, order: seq<File>, list: seq<SchemaSnapshot>, k: nat)
    requires k < |list| && Covers(files, list[..k]) && Enumerates(order, Contribution(list[k]))
    ensures Covers(files + order, list[..k + 1])
  {
    var all, next := files + order, list[..k + 1];
    assert all[..|files|] == files && all[|files|..] == order;
    assert next[..|next| - 1] == list[..k] && next[|next| - 1] == list[k];
  }

  lemma CoversUntil(files: seq<File>, order: seq<File>, list: seq<SchemaSnapshot>, k: nat)
    requires k < |list| && Covers(files, list[..k]) && Snapshot.Part(order, Contribution(list[k]))
    ensures CoversPart(files + order, list)
  {
    var all := files + order;
    assert all[..|files|] == files && all[|files|..] == order;
    assert CoversUpTo(all, list, k, |files|);
  }

  /** Folding the first `k` schemas into the aggregate of a state that stays clean with all of them. */
  lemma {:induction false} CoveredInStep(a: Agg, w: World, vs: Versions, list: seq<SchemaSnapshot>, k: nat,
                                         files: seq<File>)
    requires k <= |list| && CanApply(w, vs, list) && InStep(a, w, vs) && Covers(files, list[..k])
    ensures ApplyFiles(a, files).1 && InStep(ApplyFiles(a, files).0, w, Plus(vs, list[..k]))
    decreases k
  {
    if k == 0 {
      CoversNothing(vs, list, files);
    } else {
      var i := CoversSplit(files, list, k);
      CoveredInStep(a, w, vs, list, k - 1, files[..i]);
      CoveredOneMore(a, w, vs, list, k - 1, files, i);
    }
  }

  lemma CoveredOneMore(a: Agg, w: World, vs: Versions, list: seq<SchemaSnapshot>, k: nat, files: seq<File>, i: nat)
    requires k < |list| && i <= |files| && CanApply(w, vs, list) && Enumerates(files[i..], Contribution(list[k]))
    requires ApplyFiles(a, files[..i]).1 && InStep(ApplyFiles(a, files[..i]).0, w, Plus(vs, list[..k]))
    ensures ApplyFiles(a, files).1 && InStep(ApplyFiles(a, files).0, w, Plus(vs, list[..k + 1]))
  {
    ApplyNext(ApplyFiles(a, files[..i]).0, w, vs, list, k, files[i..]);
    ApplyFilesSplit(a, files, i);
  }

  lemma ApplyFilesSplit(a: Agg, files: seq<File>, i: nat)
    requires i <= |files| && ApplyFiles(a, files[..i]).1
    ensures ApplyFiles(a, files) == ApplyFiles(ApplyFiles(a, files[..i]).0, files[i..])
  {
    ApplyFilesConcat(a, files[..i], files[i..]);
    assert files == files[..i] + files[i..];
  }

  lemma CoversNothing(vs: Versions, list: seq<SchemaSnapshot>, files: seq<File>)
    requires Covers(files, list[..0])
    ensures files == [] && Plus(vs, list[..0]) == vs
  {
    assert list[..0] == [];
  }

  lemma CoversSplit(files: seq<File>, list: seq<SchemaSnapshot>, k: nat) returns (i: nat)
    requires 0 < k <= |list| && Covers(files, list[..k])
    ensures i <= |files| && files == files[..i] + files[i..]
    ensures Covers(files[..i], list[..k - 1]) && Enumerates(files[i..], Contribution(list[k - 1]))
  {
    var prev := list[..k];
    assert prev[..|prev| - 1] == list[..k - 1] && prev[|prev| - 1] == list[k - 1];
    var n :| 0 <= n <= |files| && Covers(files[..n], prev[..|prev| - 1]) &&
      Enumerates(files[n..], Contribution(prev[|prev| - 1]));
    i := n;
  }

  /** ... never fails, and ends with the aggregate of the larger state. */
  lemma AppliesInStep(a: Agg, w: World, vs: Versions, list: seq<SchemaSnapshot>, files: seq<File>, a': Agg, ok: bool)
    requires CanApply(w, vs, list) && InStep(a, w, vs) && AppliesBy(a, list, files, a', ok)
    ensures ok && InStep(a', w, Plus(vs, list))
  {
    if ok {
      AllInStep(a, w, vs, list, files);
    } else {
      PartNotRefused(a, w, vs, list, files);
    }
  }

  lemma AllInStep(a: Agg, w: World, vs: Versions, list: seq<SchemaSnapshot>, files: seq<File>)
    requires CanApply(w, vs, list) && InStep(a, w, vs) && Covers(files, list)
    ensures ApplyFiles(a, files).1 && InStep(ApplyFiles(a, files).0, w, Plus(vs, list))
  {
    assert list[..|list|] == list;
    CoveredInStep(a, w, vs, list, |list|, files);
  }

  lemma PartNotRefused(a: Agg, w: World, vs: Versions, list: seq<SchemaSnapshot>, files: seq<File>)
    requires CanApply(w, vs, list) && InStep(a, w, vs) && CoversPart(files, list)
    ensures ApplyFiles(a, files).1
  {
    var j, k := PartSplit(files, list);
    CoveredInStep(a, w, vs, list, j, files[..k]);
    ApplyFilesConcat(a, files[..k], files[k..]);
    NothingRefused(ApplyFiles(a, files[..k]).0, w, vs, list, j, files[k..]);
  }

  lemma PartSplit(files: seq<File>, list: seq<SchemaSnapshot>) returns (j: nat, k: nat)
    requires CoversPart(files, list)
    ensures j < |list| && k <= |files| && files == files[..k] + files[k..]
    ensures Covers(files[..k], list[..j]) && Snapshot.Part(files[k..], Contribution(list[j]))
  {
    var i, n :| 0 <= i < |list| && 0 <= n <= |files| && CoversUpTo(files, list, i, n);
    j, k := i, n;
  }

  lemma ApplyNext(a: Agg, w: World, vs: Versions, list: seq<SchemaSnapshot>, k: nat, order: seq<File>)
    requires k < |list| && CanApply(w, vs, list) && InStep(a, w, Plus(vs, list[..k]))
    requires Enumerates(order, Contribution(list[k]))
    ensures ApplyFiles(a, order).1 && InStep(ApplyFiles(a, order).0, w, Plus(vs, list[..k + 1]))
  {
    PlusNext(vs, list, k);
    CleanPart(w, Plus(vs, list[..k + 1]), Plus(vs, list), Plus(vs, list).Keys - Plus(vs, list[..k + 1]).Keys);
    ApplyOne(a, w, Plus(vs, list[..k]), list[k], order);
  }

  lemma NothingRefused(a: Agg, w: World, vs: Versions, list: seq<SchemaSnapshot>, k: nat, order: seq<File>)
    requires k < |list| && CanApply(w, vs, list) && InStep(a, w, Plus(vs, list[..k]))
    requires Snapshot.Part(order, Contribution(list[k]))
    ensures ApplyFiles(a, order).1
  {
    var some :| Enumerates(order, some) && Within(some, Contribution(list[k]));
    PlusNext(vs, list, k);
    CleanPart(w, Plus(vs, list[..k + 1]), Plus(vs, list), Plus(vs, list).Keys - Plus(vs, list[..k + 1]).Keys);
    ApplyPart(a, w, Plus(vs, list[..k]), list[k], order, some);
  }

  lemma PlusNext(vs: Versions, list: seq<SchemaSnapshot>, k: nat)
    requires k < |list| && Distinct(list) && vs.Keys !! Ids(list)
    ensures list[k] in list && list[k].schemaID !in Plus(vs, list[..k])
    ensures Plus(vs, list[..k + 1]) == Plus(vs, list[..k])[list[k].schemaID := list[k].version]
    ensures Part(Plus(vs, list[..k + 1]), Plus(vs, list))
  {
    assert list[..k + 1][..k] == list[..k];
    assert list[k].schemaID in Ids(list);
    PlusAt(vs, list[..k], list[k].schemaID);
    assert list[k].schemaID !in Ids(list[..k]);
    forall i | i in Plus(vs, list[..k + 1])
      ensures i in Plus(vs, list) && Plus(vs, list[..k + 1])[i] == Plus(vs, list)[i]
    {
      PlusAt(vs, list[..k + 1], i);
      PlusAt(vs, list, i);
      if i in Ids(list[..k + 1]) {
        var ss :| ss in list[..k + 1] && ss.schemaID == i;
        assert ss in list;
      } else {
        assert i in vs;
      }
    }
  }

  ghost predicate AllKeyed(list: seq<SchemaSnapshot>) {
    forall ss :: ss in list ==> FR.PathsKeyed(ss.files)
  }

  lemma GenuineKeyed(w: World, list: seq<SchemaSnapshot>)
    requires AllGenuine(w, list)
    ensures AllKeyed(list)
  {
    forall ss | ss in list ensures FR.PathsKeyed(ss.files) {
      assert Genuine(w, ss);
      KeyedFiles(ss.files, Contribution(ss));
    }
  }

  lemma KeyedFiles(s: F.Files, m: F.Plain)
    requires F.Represents(s, m)
    ensures FR.PathsKeyed(s)
  {
  }

  /** Folds the listed schemas into the aggregate, one by one. */
  method ApplySchemas(files: FR.NamespacedFiles, types: TR.NamespacedTypes, list: seq<SchemaSnapshot>)
    returns (ok: bool, ghost visited: seq<File>)
    requires !files.readOnly && !types.readOnly && AllKeyed(list)
    modifies files, types
    ensures AppliesBy(old(AggOf(files, types)), list, visited, AggOf(files, types), ok)
  {
    visited := [];
    AppliesNothing(AggOf(files, types), list);
    for k := 0 to |list|
      invariant AppliesBy(old(AggOf(files, types)), list[..k], visited, AggOf(files, types), true)
    {
      ghost var before := AggOf(files, types);
      ghost var order;
      assert list[k] in list;
      ok, order := ApplyToAggregate(files, types, list[k]);
      AppliesNext(old(AggOf(files, types)), list, k, visited, before, order, AggOf(files, types), ok);
      visited := visited + order;
      if !ok { return; }
    }
    ok := true;
  }

  lemma AppliesNothing(a: Agg, list: seq<SchemaSnapshot>)
    ensures AppliesBy(a, list[..0], [], a, true) && list[..|list|] == list
  {
  }

  lemma AppliesNext(a: Agg, list: seq<SchemaSnapshot>, k: nat, visited: seq<File>, b: Agg, order: seq<File>, c: Agg,
                    ok: bool)
    requires k < |list| && AppliesBy(a, list[..k], visited, b, true) && (c, ok) == ApplyFiles(b, order)
    requires if ok then Enumerates(order, Contribution(list[k])) else Snapshot.Part(order, Contribution(list[k]))
    ensures AppliesBy(a, if ok then list[..k + 1] else list, visited + order, c, ok)
  {
    ApplyFilesConcat(a, visited, order);
    if ok { CoversNext(visited, order, list, k); } else { CoversUntil(visited, order, list, k); }
  }

  // ---------------------------------------------------------------------------
  // The whole diff
  // ---------------------------------------------------------------------------

  /** Dropping what is gone or outdated and adding what is new turns the old versions into the new ones. */
  lemma DiffLeads(cur: Schemas, next: Schemas, removed: seq<SchemaSnapshot>,
                  outdated: seq<SchemaSnapshot>, apply: seq<SchemaSnapshot>)
    requires Filed(cur) && DiffIs(cur, next, apply, outdated) && GoneAre(cur, next, removed)
    ensures AllIn(VersionsOf(cur), removed)
    ensures AllIn(VersionsOf(cur) - Ids(removed), outdated)
    ensures (VersionsOf(cur) - Ids(removed) - Ids(outdated)).Keys !! Ids(apply)
    ensures Plus(VersionsOf(cur) - Ids(removed) - Ids(outdated), apply) == VersionsOf(next)
  {
    forall i ensures i in Ids(removed) <==> i in cur && i !in next { DroppedIds(cur, next, removed, i); }
    forall i ensures i in Ids(outdated) <==> i in cur && i in next && cur[i].version != next[i].version {
      OutdatedIds(cur, next, apply, outdated, i);
    }
    forall i ensures i in Ids(apply) <==> i in next && !Kept(VersionsOf(cur), i, next[i].version) {
      AppliedIds(cur, next, apply, outdated, i);
    }
    var base := VersionsOf(cur) - Ids(removed) - Ids(outdated);
    forall i
      ensures i in Plus(base, apply) <==> i in next
      ensures i in next ==> Plus(base, apply)[i] == next[i].version
    {
      PlusAt(base, apply, i);
      assert i in Ids(apply) ==> next[i] in apply;
    }
  }

  lemma DroppedIds(cur: Schemas, next: Schemas, removed: seq<SchemaSnapshot>, i: Id)
    requires Filed(cur) && GoneAre(cur, next, removed)
    ensures i in Ids(removed) <==> i in cur && i !in next
  {
    if i in cur && i !in next { assert cur[i] in removed; }
  }

  lemma OutdatedIds(cur: Schemas, next: Schemas, apply: seq<SchemaSnapshot>, outdated: seq<SchemaSnapshot>, i: Id)
    requires Filed(cur) && DiffIs(cur, next, apply, outdated)
    ensures i in Ids(outdated) <==> i in cur && i in next && cur[i].version != next[i].version
  {
    if i in cur && i in next && cur[i].version != next[i].version { assert cur[i] in outdated; }
  }

  lemma AppliedIds(cur: Schemas, next: Schemas, apply: seq<SchemaSnapshot>, outdated: seq<SchemaSnapshot>, i: Id)
    requires DiffIs(cur, next, apply, outdated)
    ensures i in Ids(apply) <==> i in next && !Kept(VersionsOf(cur), i, next[i].version)
  {
    if i in next && !Kept(VersionsOf(cur), i, next[i].version) { assert next[i] in apply; }
  }

  lemma DiffGenuine(w: World, cur: Schemas, next: Schemas, removed: seq<SchemaSnapshot>,
                    outdated: seq<SchemaSnapshot>, apply: seq<SchemaSnapshot>)
    requires Tracks(w, cur) && DiffIs(cur, next, apply, outdated) && GoneAre(cur, next, removed) && AllGenuine(w, apply)
    ensures AllGenuine(w, removed) && AllGenuine(w, outdated) && Tracks(w, next)
  {
    forall ss | ss in removed || ss in outdated ensures Genuine(w, ss) { assert Genuine(w, cur[ss.schemaID]); }
    forall i | i in next ensures Genuine(w, next[i]) {
      if !Kept(VersionsOf(cur), i, next[i].version) { assert next[i] in apply; } else { assert Genuine(w, cur[i]); }
    }
  }

  /** Removing what is gone and what is outdated, then applying what is new, up to the first failure. */
  ghost predicate Patched(a: Agg, removed: seq<SchemaSnapshot>, outdated: seq<SchemaSnapshot>,
                          apply: seq<SchemaSnapshot>, a': Agg, ok: bool)
  {
    var r := RemovePrints(a, removed);
    if !r.1 then a' == r.0 && !ok else
      var t := RemovePrints(r.0, outdated);
      if !t.1 then a' == t.0 && !ok else Applied(t.0, apply, a', ok)
  }

  ghost predicate Applied(a: Agg, apply: seq<SchemaSnapshot>, a': Agg, ok: bool) {
    exists visited :: AppliesBy(a, apply, visited, a', ok)
  }

  /** The lists lead from the current schemas to the next ones, all genuine. */
  ghost predicate Planned(w: World, cur: Schemas, next: Schemas, removed: seq<SchemaSnapshot>,
                          outdated: seq<SchemaSnapshot>, apply: seq<SchemaSnapshot>)
  {
    DiffIs(cur, next, apply, outdated) && GoneAre(cur, next, removed) && AllGenuine(w, apply) && Tracks(w, next)
  }

  /** Between clean states the patch never fails, and the aggregate goes from the one to the other. */
  lemma PatchedInStep(w: World, cur: Schemas, next: Schemas, removed: seq<SchemaSnapshot>,
                      outdated: seq<SchemaSnapshot>, apply: seq<SchemaSnapshot>, a: Agg, a': Agg, ok: bool)
    requires Tracks(w, cur) && Planned(w, cur, next, removed, outdated, apply)
    requires InStep(a, w, VersionsOf(cur)) && CleanState(w, VersionsOf(next))
    requires Patched(a, removed, outdated, apply, a', ok)
    ensures ok && InStep(a', w, VersionsOf(next))
  {
    var vs := VersionsOf(cur);
    DiffLeads(cur, next, removed, outdated, apply);
    DiffGenuine(w, cur, next, removed, outdated, apply);
    RemovesInStep(a, w, vs, removed);
    var r := RemovePrints(a, removed).0;
    RemovesInStep(r, w, vs - Ids(removed), outdated);
    var t := RemovePrints(r, outdated).0;
    var visited :| AppliesBy(t, apply, visited, a', ok);
    AppliesInStep(t, w, vs - Ids(removed) - Ids(outdated), apply, visited, a', ok);
  }

  /** Names apart, said of the server state. */
  ghost predicate ExportsApart(w: World, vs: Versions) {
    forall i, j, n :: i in vs && j in vs && n in PlainNames(w(i, vs[i])) && n in PlainNames(w(j, vs[j])) ==> i == j
  }

  lemma SameExports(w: World, schemas: Schemas)
    requires Tracks(w, schemas)
    ensures NamesApart(schemas) <==> ExportsApart(w, VersionsOf(schemas))
  {
    var vs := VersionsOf(schemas);
    forall i | i in schemas ensures SchemaNames(schemas[i]) == PlainNames(w(i, vs[i])) { ExportsOf(w, schemas, i); }
    ApartAlike(w, schemas);
  }

  lemma ExportsOf(w: World, schemas: Schemas, i: Id)
    requires Tracks(w, schemas) && i in schemas
    ensures SchemaNames(schemas[i]) == PlainNames(w(i, VersionsOf(schemas)[i]))
  {
    assert Genuine(w, schemas[i]);
  }

  lemma ApartAlike(w: World, schemas: Schemas)
    requires forall i :: i in schemas ==> SchemaNames(schemas[i]) == PlainNames(w(i, VersionsOf(schemas)[i]))
    ensures NamesApart(schemas) <==> ExportsApart(w, VersionsOf(schemas))
  {
  }

  /** A clean state has no name collisions to report. */
  lemma CleanExportsApart(w: World, vs: Versions)
    requires CleanState(w, vs)
    ensures ExportsApart(w, vs)
  {
    forall i, j, n | i in vs && j in vs && n in PlainNames(w(i, vs[i])) && n in PlainNames(w(j, vs[j])) ensures i == j {
      var p, d := ExportedName(w, vs, i, n);
      var q, e := ExportedName(w, vs, j, n);
      NamesUnique(Union(w, vs), p, d, q, e);
    }
  }

  lemma ExportedName(w: World, vs: Versions, i: Id, n: FullName) returns (p: string, d: Descriptor)
    requires Apart(w, vs) && i in vs && n in PlainNames(w(i, vs[i]))
    ensures ServerState.Holds(w, vs, i, p) && p in Union(w, vs) && d in Decls(Union(w, vs)[p]) && d.full == n
  {
    var c := w(i, vs[i]);
    p :| p in c && n in IndexedNames(c[p]);
    IndexedNamesExact(c[p], n);
    d :| d in Decls(c[p]) && IsIndexed(d) && d.full == n;
    UnionAt(w, vs, i, p);
  }

  /** An aggregate in step with a clean state is what a rebuild from scratch yields, in whatever order. */
  lemma RebuildAgrees(a: Agg, w: World, vs: Versions, fs: seq<File>)
    requires InStep(a, w, vs) && Enumerates(fs, Union(w, vs))
    ensures ApplyFiles(Blank, fs).1 && SameAgg(a, ApplyFiles(Blank, fs).0)
  {
    BlankIs();
    FromNothing(Union(w, vs));
    ApplyAdds(Blank, map[], fs, Union(w, vs));
    SameMapSameAgg(a, ApplyFiles(Blank, fs).0, Union(w, vs));
  }

  lemma FromNothing(m: F.Plain)
    ensures map[] + m == m
  {
  }

  lemma NothingInStep(w: World)
    ensures InStep(Blank, w, map[])
  {
    BlankIs();
    assert Union(w, map[]) == map[];
  }
}
