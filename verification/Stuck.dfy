/**
 A client whose aggregate has lost a path of a schema it still tracks.  Every refresh that would take
 that schema out or replace it fails on the missing path, and goes on failing.
 */
module Stuck {
  import opened Descriptors
  import F = FileIndex
  import opened Aggregate
  import opened Snapshot
  import opened NameIndex
  import opened ServerState
  import opened Refresh
  import opened Resolver
  import C = Collisions
  import opened DroppedSchema

  /** The snapshot has the schema with that path, and the aggregate does not have the path. */
  ghost predicate Lacks(st: State, y: Id, p: string) {
    y in SchemasOf(st) && p in Contribution(SchemasOf(st)[y]) && p !in st.agg.files.fileDescs
  }

  // ---------------------------------------------------------------------------
  // Removing never brings a path back
  // ---------------------------------------------------------------------------

  lemma {:induction false} StaysAway(s: F.Files, paths: seq<string>, p: string)
    requires p !in s.fileDescs
    ensures p !in UnregisterFiles(s, paths).0.fileDescs
    ensures p in paths ==> !UnregisterFiles(s, paths).1
    decreases paths
  {
    if paths != [] {
      assert paths == [paths[0]] + paths[1..];
      if paths[0] in s.fileDescs { StaysAway(F.Unregister(s, paths[0]).0, paths[1..], p); }
    }
  }

  lemma {:induction false} GoesAway(s: F.Files, paths: seq<string>, p: string)
    requires UnregisterFiles(s, paths).1 && p in paths
    ensures p !in UnregisterFiles(s, paths).0.fileDescs
    decreases paths
  {
    var s' := F.Unregister(s, paths[0]).0;
    assert paths == [paths[0]] + paths[1..];
    if p == paths[0] { StaysAway(s', paths[1..], p); } else { GoesAway(s', paths[1..], p); }
  }

  lemma PrintStaysAway(a: Agg, fp: Fingerprint, p: string)
    requires p !in a.files.fileDescs
    ensures p !in RemovePrint(a, fp).0.files.fileDescs
    ensures p in fp.filePaths ==> !RemovePrint(a, fp).1
  {
    StaysAway(a.files, fp.filePaths, p);
  }

  lemma PrintGoesAway(a: Agg, fp: Fingerprint, p: string)
    requires RemovePrint(a, fp).1 && p in fp.filePaths
    ensures p !in RemovePrint(a, fp).0.files.fileDescs
  {
    GoesAway(a.files, fp.filePaths, p);
  }

  lemma {:induction false} ListStaysAway(a: Agg, list: seq<SchemaSnapshot>, p: string)
    requires p !in a.files.fileDescs
    ensures p !in RemovePrints(a, list).0.files.fileDescs
    ensures (exists ss :: ss in list && p in ss.fingerprint.filePaths) ==> !RemovePrints(a, list).1
    decreases list
  {
    if list != [] {
      assert list == [list[0]] + list[1..];
      PrintStaysAway(a, list[0].fingerprint, p);
      var r := RemovePrint(a, list[0].fingerprint);
      if r.1 { ListStaysAway(r.0, list[1..], p); }
    }
  }

  lemma {:induction false} ListGoesAway(a: Agg, list: seq<SchemaSnapshot>, ss: SchemaSnapshot, p: string)
    requires RemovePrints(a, list).1 && ss in list && p in ss.fingerprint.filePaths
    ensures p !in RemovePrints(a, list).0.files.fileDescs
    decreases list
  {
    assert list == [list[0]] + list[1..];
    var r := RemovePrint(a, list[0].fingerprint).0;
    if ss == list[0] {
      PrintGoesAway(a, ss.fingerprint, p);
      ListStaysAway(r, list[1..], p);
    } else {
      ListGoesAway(r, list[1..], ss, p);
    }
  }

  // ---------------------------------------------------------------------------
  // A refresh that does not keep the schema
  // ---------------------------------------------------------------------------

  lemma InPrint(w: World, ss: SchemaSnapshot, p: string)
    requires Genuine(w, ss) && p in Contribution(ss)
    ensures p in ss.fingerprint.filePaths
  {
    assert p in PathSet(ss.fingerprint.filePaths);
  }

  /** What is not kept is listed for removal, as gone or as outdated. */
  lemma ListedForRemoval(cur: Schemas, next: Schemas, removed: seq<SchemaSnapshot>, outdated: seq<SchemaSnapshot>,
                         apply: seq<SchemaSnapshot>, y: Id)
    requires ServerState.Filed(cur) && DiffIs(cur, next, apply, outdated) && GoneAre(cur, next, removed)
    requires y in cur && !(y in next && next[y].version == cur[y].version)
    ensures cur[y] in removed || cur[y] in outdated
  {
    assert In(cur, cur[y]);
  }

  lemma PatchBreaksOff(b: Agg, removed: seq<SchemaSnapshot>, outdated: seq<SchemaSnapshot>, apply: seq<SchemaSnapshot>,
                       a: Agg, ok: bool, ss: SchemaSnapshot, p: string)
    requires Patched(b, removed, outdated, apply, a, ok) && p !in b.files.fileDescs
    requires (ss in removed || ss in outdated) && p in ss.fingerprint.filePaths
    ensures !ok && p !in a.files.fileDescs
  {
    ListStaysAway(b, removed, p);
    if RemovePrints(b, removed).1 { ListStaysAway(RemovePrints(b, removed).0, outdated, p); }
  }

  lemma PatchToBreaksOff(w: World, st: State, next: Schemas, y: Id, p: string, a: Agg, ok: bool)
    requires Tracks(w, SchemasOf(st)) && Lacks(st, y, p) && PatchedTo(w, st, next, a, ok)
    requires !(y in next && next[y].version == SchemasOf(st)[y].version)
    ensures !ok && p !in a.files.fileDescs
  {
    var cur := SchemasOf(st);
    var removed, outdated, apply := PlanOf(w, st, next, a, ok);
    ListedForRemoval(cur, next, removed, outdated, apply, y);
    InPrint(w, cur[y], p);
    PatchBreaksOff(st.agg, removed, outdated, apply, a, ok, cur[y], p);
  }

  /** The list, if it arrives, does not keep the schema at the version the client has. */
  ghost predicate Drops(st: State, answer: Answer, y: Id) {
    answer.infos.Some? ==> y in Have(st) && !Kept(Wanted(answer.infos.value), y, Have(st)[y])
  }

  /** Such a refresh fails, on the aggregate if all else is well, and leaves the client as it was in this respect. */
  lemma RefusedOnce(w: World, answer: Answer, st: State, o: Outcome, st': State, y: Id, p: string)
    requires Tracks(w, SchemasOf(st)) && Lacks(st, y, p) && Drops(st, answer, y)
    requires Refreshes(w, answer, false, st, o, st')
    ensures o in {ListFailed, FetchFailed, NameCollision, AggregateFailed}
    ensures Usable(w, Have(st), answer) ==> o == AggregateFailed
    ensures st'.snapshot == st.snapshot && Lacks(st', y, p)
  {
    if answer.infos.Some? {
      var want := Wanted(answer.infos.value);
      if o == Refreshed {
        NotKept(SchemasOf(st'), want, y, Have(st)[y]);
        PatchToBreaksOff(w, st, SchemasOf(st'), y, p, st'.agg, true);
      } else if o == AggregateFailed {
        var next :| VersionsOf(next) == want && PatchedTo(w, st, next, st'.agg, false);
        NotKept(next, want, y, Have(st)[y]);
        PatchToBreaksOff(w, st, next, y, p, st'.agg, false);
      }
    }
  }

  lemma NotKept(next: Schemas, want: Versions, y: Id, v: nat)
    requires VersionsOf(next) == want && !Kept(want, y, v)
    ensures !(y in next && next[y].version == v)
  {
    if y in next { assert y in want && want[y] == next[y].version; }
  }

  /** The refresh failed, and on the aggregate if the answer was usable. */
  ghost predicate Refused(w: World, have: Versions, answer: Answer, o: Outcome) {
    && o in {ListFailed, FetchFailed, NameCollision, AggregateFailed}
    && (Usable(w, have, answer) ==> o == AggregateFailed)
  }

  ghost predicate AllDrop(st: State, answers: seq<Answer>, y: Id) {
    forall k :: 0 <= k < |answers| ==> Drops(st, answers[k], y)
  }

  /** One refresh from a state with the snapshot of `st0` and the same gap. */
  lemma StuckStep(w: World, answer: Answer, st0: State, st: State, o: Outcome, st': State, y: Id, p: string)
    requires Tracks(w, SchemasOf(st0)) && Drops(st0, answer, y) && Unmoved(st0, st, y, p)
    requires Refreshes(w, answer, false, st, o, st')
    ensures Refused(w, Have(st0), answer, o) && Unmoved(st0, st', y, p)
  {
    DropsAlike(st0, st, answer, y);
    RefusedOnce(w, answer, st, o, st', y, p);
  }

  /** Still the snapshot of `st0`, and still the gap. */
  ghost predicate Unmoved(st0: State, st: State, y: Id, p: string) {
    // Written as a match so that the verifier keeps the predicate whole where it is promised.
    match st
    case State(snapshot, _) => snapshot == st0.snapshot && Lacks(st, y, p)
  }

  lemma DropsAlike(st: State, st': State, answer: Answer, y: Id)
    requires Drops(st, answer, y) && st'.snapshot == st.snapshot
    ensures Drops(st', answer, y) && Have(st') == Have(st)
  {
  }

  lemma LastDrops(st: State, answers: seq<Answer>, y: Id)
    requires AllDrop(st, answers, y) && answers != []
    ensures AllDrop(st, answers[..|answers| - 1], y) && Drops(st, answers[|answers| - 1], y)
  {
  }

  /**
   Once a path of a tracked schema is missing, no run of refreshes that all drop or replace the schema
   ever gets past the aggregate: its last refresh, and so each one, fails and keeps the old snapshot.
   */
  lemma {:induction false} StuckRun(w: World, answers: seq<Answer>, outcomes: seq<Outcome>, states: seq<State>,
                                    y: Id, p: string)
    requires IsRun(w, answers, outcomes, states) && Tracks(w, SchemasOf(states[0])) && Lacks(states[0], y, p)
    requires AllDrop(states[0], answers, y)
    ensures Unmoved(states[0], states[|answers|], y, p)
    ensures answers != [] ==> Refused(w, Have(states[0]), answers[|answers| - 1], outcomes[|answers| - 1])
    decreases |answers|
  {
    if answers != [] {
      var n := |answers| - 1;
      RunShrinks(w, answers, outcomes, states);
      LastDrops(states[0], answers, y);
      StuckRun(w, answers[..n], outcomes[..n], states[..n + 1], y, p);
      StuckStep(w, answers[n], states[0], states[n], outcomes[n], states[n + 1], y, p);
    }
  }

  // ---------------------------------------------------------------------------
  // How a path gets lost
  // ---------------------------------------------------------------------------

  ghost predicate Avoids(fs: seq<File>, p: string) {
    forall f :: f in fs ==> f.path != p
  }

  lemma {:induction false} ApplyAvoids(a: Agg, fs: seq<File>, p: string)
    requires p !in a.files.fileDescs && Avoids(fs, p)
    ensures p !in ApplyFiles(a, fs).0.files.fileDescs
    decreases fs
  {
    if fs != [] {
      assert fs[0] in fs;
      var r := ApplyFile(a, fs[0]);
      assert p !in r.0.files.fileDescs;
      if r.1 { ApplyAvoids(r.0, fs[1..], p); }
    }
  }

  /** No schema that the refresh fetches has the path. */
  ghost predicate NotFetched(w: World, have: Versions, want: Versions, p: string) {
    forall i :: i in want && !Kept(have, i, want[i]) ==> p !in w(i, want[i])
  }

  lemma FetchedAvoids(w: World, cur: Schemas, next: Schemas, apply: seq<SchemaSnapshot>, b: Agg, visited: seq<File>,
                      a: Agg, ok: bool, p: string)
    requires ApplyIs(cur, next, apply) && AllGenuine(w, apply) && AppliesBy(b, apply, visited, a, ok)
    requires NotFetched(w, VersionsOf(cur), VersionsOf(next), p)
    ensures Avoids(visited, p)
  {
    forall f | f in visited ensures f.path != p {
      VisitedFrom(b, apply, visited, a, ok, f);
      var ss :| ss in apply && Contributes(ss, f);
      assert Genuine(w, ss);
      assert VersionsOf(next)[ss.schemaID] == ss.version;
    }
  }

  lemma PatchTakes(w: World, st: State, next: Schemas, a: Agg, x: Id, p: string)
    requires Tracks(w, SchemasOf(st)) && PatchedTo(w, st, next, a, true)
    requires x in SchemasOf(st) && p in Contribution(SchemasOf(st)[x])
    requires !(x in next && next[x].version == SchemasOf(st)[x].version)
    requires NotFetched(w, Have(st), VersionsOf(next), p)
    ensures p !in a.files.fileDescs
  {
    var cur := SchemasOf(st);
    var removed, outdated, apply := PlanOf(w, st, next, a, true);
    ListedForRemoval(cur, next, removed, outdated, apply, x);
    InPrint(w, cur[x], p);
    var r := RemovePrints(st.agg, removed);
    var t := RemovePrints(r.0, outdated);
    if cur[x] in removed {
      ListGoesAway(st.agg, removed, cur[x], p);
      ListStaysAway(r.0, outdated, p);
    } else {
      ListGoesAway(r.0, outdated, cur[x], p);
    }
    var visited :| AppliesBy(t.0, apply, visited, a, true);
    FetchedAvoids(w, cur, next, apply, t.0, visited, a, true, p);
    ApplyAvoids(t.0, visited, p);
  }

  /**
   A refresh that drops or replaces a schema takes its paths away, also from a schema that stays,
   unless something it fetches has them.
   */
  lemma SharedPathTaken(w: World, answer: Answer, st: State, st': State, x: Id, y: Id, p: string)
    requires Tracks(w, SchemasOf(st)) && Refreshes(w, answer, false, st, Refreshed, st')
    requires x in Have(st) && !Kept(Have(st'), x, Have(st)[x]) && y in Have(st')
    requires p in w(x, Have(st)[x]) && p in w(y, Have(st')[y])
    requires NotFetched(w, Have(st), Have(st'), p)
    ensures Lacks(st', y, p)
  {
    assert Genuine(w, SchemasOf(st)[x]) && Genuine(w, SchemasOf(st')[y]);
    NotKept(SchemasOf(st'), Have(st'), x, Have(st)[x]);
    PatchTakes(w, st, SchemasOf(st'), st'.agg, x, p);
  }

  // ---------------------------------------------------------------------------
  // Populate, drop, replace
  // ---------------------------------------------------------------------------

  const Replaced := Answer(Some([Info("y", Some(2))]), (i, v) => true)

  lemma ReplacedWanted()
    ensures Wanted(Replaced.infos.value) == map["y" := 2]
  {
    assert Replaced.infos.value[..0] == [];
  }

  lemma ReplacementUsable(g: F.Plain, s: F.Plain, have: Versions)
    requires Pair(g, s)
    ensures WellFormed(Hosting(g, s), Replaced) && Usable(Hosting(g, s), have, Replaced)
  {
    ReplacedWanted();
  }

  /** For every pair that shares a path: after the drop of the one, the next version of the other never arrives. */
  lemma PairStuck(g: F.Plain, s: F.Plain, o: Outcome, st: State, o': Outcome, st': State, o'': Outcome, st'': State)
    requires Pair(g, s) && C.SharePath(g, s)
    requires Refreshes(Hosting(g, s), Both, false, Start, o, st) && Refreshes(Hosting(g, s), Rest, false, st, o', st')
    requires Refreshes(Hosting(g, s), Replaced, false, st', o'', st'')
    ensures o == o' == Refreshed && o'' == AggregateFailed
    ensures st''.snapshot == st'.snapshot && Have(st'') == map["y" := 1]
  {
    PairRun(g, s, o, st, o', st');
    PairPopulates(g, s, o, st);
    var p :| p in g && p in s;
    PairLacks(g, s, st, st', p);
    ReplacedWanted();
    ReplacementUsable(g, s, Have(st'));
    RefusedOnce(Hosting(g, s), Replaced, st', o'', st'', "y", p);
  }

  lemma PairLacks(g: F.Plain, s: F.Plain, st: State, st': State, p: string)
    requires Pair(g, s) && p in g && p in s && Have(st) == map["x" := 1, "y" := 1]
    requires Refreshes(Hosting(g, s), Both, false, Start, Refreshed, st)
    requires Refreshes(Hosting(g, s), Rest, false, st, Refreshed, st')
    ensures Lacks(st', "y", p) && Have(st') == map["y" := 1] && Tracks(Hosting(g, s), SchemasOf(st'))
  {
    var w := Hosting(g, s);
    WantedLists();
    TookVersions(w, Both, Start, st);
    TookVersions(w, Rest, st, st');
    NothingFetched(w, Have(st), Have(st'), p);
    SharedPathTaken(w, Rest, st, st', "x", "y", p);
  }

  lemma TookVersions(w: World, answer: Answer, st: State, st': State)
    requires Refreshes(w, answer, false, st, Refreshed, st')
    ensures answer.infos.Some? && Have(st') == Wanted(answer.infos.value) && Tracks(w, SchemasOf(st'))
  {
  }

  lemma NothingFetched(w: World, have: Versions, want: Versions, p: string)
    requires forall i :: i in want ==> i in have && have[i] == want[i]
    ensures NotFetched(w, have, want, p)
  {
  }

  /** The concrete run: two schemas share "a.proto"; populate, drop the one, then a new version of the other. */
  method DropThenReplace() returns (r: Resolver, o: Outcome)
    ensures fresh(r) && o == AggregateFailed && Have(r.Value()) == map["y" := 1]
  {
    var c := Sole(Plainest);
    SharedPath();
    ghost var o1, st, o2;
    r, o1, st, o2 := RunPair(c, c);
    ghost var st' := r.Value();
    ReplacementUsable(c, c, Have(st'));
    o := r.Refresh(Hosting(c, c), Replaced);
    PairStuck(c, c, o1, st, o2, st', o, r.Value());
  }
}
