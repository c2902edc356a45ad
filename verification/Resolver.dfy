/**
 The client resolver: it polls the server, patches its aggregate by the difference and swaps in the
 new snapshot, and answers lookups through the name index or the aggregate.
 */
module Resolver {
  import opened Descriptors
  import F = FileIndex
  import L = FileLookup
  import T = TypeIndex
  import FR = FileRegistry
  import TR = TypeRegistry
  import opened Aggregate
  import opened Snapshot
  import opened NameIndex
  import opened ServerState
  import opened Refresh

  datatype NsSnapshot = NsSnapshot(schemas: Schemas, nameIndex: Index)

  /** What a resolver holds: its snapshot, none before the first fetch, and its aggregate. */
  datatype State = State(snapshot: Option<NsSnapshot>, agg: Agg)

  const Start := State(None, Blank)

  function SchemasOf(st: State): Schemas {
    if st.snapshot.Some? then st.snapshot.value.schemas else map[]
  }

  function Have(st: State): Versions {
    VersionsOf(SchemasOf(st))
  }

  /** What the server answers during one refresh: the list, or none on failure, and what can be fetched. */
  datatype Answer = Answer(infos: Option<seq<Info>>, up: Reachable)

  ghost predicate WellFormed(w: World, answer: Answer) {
    Served(w, answer.up) && (answer.infos.Some? ==> IdsOnce(answer.infos.value))
  }

  datatype Outcome = Refreshed | Unchanged | Stale | ListFailed | FetchFailed | NameCollision | AggregateFailed

  // ---------------------------------------------------------------------------
  // One refresh
  // ---------------------------------------------------------------------------

  /** The aggregate was patched from the current schemas to the next ones, in some order of removals and files. */
  ghost predicate PatchedTo(w: World, st: State, next: Schemas, a: Agg, ok: bool) {
    exists removed, outdated, apply ::
      Planned(w, SchemasOf(st), next, removed, outdated, apply) && Patched(st.agg, removed, outdated, apply, a, ok)
  }

  /** The new snapshot holds the wanted versions with their index, and the aggregate was patched to them. */
  ghost predicate TookOver(w: World, want: Versions, st: State, st': State) {
    && st'.snapshot.Some? && Tracks(w, SchemasOf(st')) && Have(st') == want
    && Indexes(st'.snapshot.value.nameIndex, SchemasOf(st'))
    && PatchedTo(w, st, SchemasOf(st'), st'.agg, true)
  }

  /** The patch was refused halfway: the snapshot is the former one, the aggregate what the patch left. */
  ghost predicate BrokeOff(w: World, want: Versions, st: State, st': State) {
    st'.snapshot == st.snapshot && exists next :: VersionsOf(next) == want && PatchedTo(w, st, next, st'.agg, false)
  }

  /** Every way a refresh can end, given the list of schemas. */
  ghost predicate RefreshesTo(w: World, up: Reachable, want: Versions, st: State, o: Outcome, st': State) {
    match o
    case FetchFailed => !CanFetch(w, up, Have(st), want) && st' == st
    case Unchanged => CanFetch(w, up, Have(st), want) && st.snapshot.Some? && Have(st) == want && st' == st
    case NameCollision => CanFetch(w, up, Have(st), want) && !ExportsApart(w, want) && st' == st
    case Refreshed => CanFetch(w, up, Have(st), want) && ExportsApart(w, want) && TookOver(w, want, st, st')
    case AggregateFailed => CanFetch(w, up, Have(st), want) && ExportsApart(w, want) && BrokeOff(w, want, st, st')
    case Stale => false
    case ListFailed => false
  }

  ghost predicate Refreshes(w: World, answer: Answer, fromCache: bool, st: State, o: Outcome, st': State) {
    match answer
    case Answer(infos, up) =>
      if fromCache then o == Stale && st' == st else
      if infos.None? then o == ListFailed && st' == st else
        RefreshesTo(w, up, Wanted(infos.value), st, o, st')
  }

  class Resolver {
    const fromCache: bool
    const nsFiles: FR.NamespacedFiles
    const nsTypes: TR.NamespacedTypes
    var snapshot: Option<NsSnapshot>

    ghost predicate Ready() {
      !nsFiles.readOnly && !nsTypes.readOnly && nsFiles.Rooted() && nsTypes.Rooted()
    }

    function Value(): State
      reads this, nsFiles, nsTypes
    {
      State(snapshot, AggOf(nsFiles, nsTypes))
    }

    constructor (fromCache: bool, parentFiles: FR.NamespacedFiles?, parentTypes: TR.NamespacedTypes?)
      requires parentFiles != null ==> parentFiles.Rooted()
      requires parentTypes != null ==> parentTypes.Rooted()
      ensures this.fromCache == fromCache && Ready() && Value() == Start
      ensures fresh(nsFiles) && fresh(nsTypes) && nsFiles.parent == parentFiles && nsTypes.parent == parentTypes
    {
      this.fromCache := fromCache;
      nsFiles := new FR.NamespacedFiles(parentFiles);
      nsTypes := new TR.NamespacedTypes(parentTypes);
      snapshot := None;
    }

    /** Lists what to remove and what to apply, fetching what is missing. */
    method Plan(w: World, up: Reachable, cur: Schemas, infos: seq<Info>)
      returns (ok: bool, next: Schemas, removed: seq<SchemaSnapshot>, outdated: seq<SchemaSnapshot>,
               apply: seq<SchemaSnapshot>)
      requires Ready() && Served(w, up) && IdsOnce(infos) && Tracks(w, cur)
      ensures ok <==> CanFetch(w, up, VersionsOf(cur), Wanted(infos))
      ensures ok ==> Planned(w, cur, next, removed, outdated, apply) && VersionsOf(next) == Wanted(infos)
      ensures ok ==> (NamesApart(next) <==> ExportsApart(w, Wanted(infos)))
      ensures ok && removed == [] && outdated == [] && apply == [] ==> VersionsOf(cur) == Wanted(infos)
    {
      removed := [];
      ok, next, apply, outdated := Diff(w, up, cur, infos, nsFiles.parent, nsTypes.parent);
      if !ok { return; }
      removed := Gone(cur, next);
      DiffGenuine(w, cur, next, removed, outdated, apply);
      SameExports(w, next);
      if removed == [] && outdated == [] && apply == [] {
        NoDifference(cur, next, removed, outdated, apply);
      }
    }

    /** Removes what is gone or outdated, then applies what is new. */
    method Patch(removed: seq<SchemaSnapshot>, outdated: seq<SchemaSnapshot>, apply: seq<SchemaSnapshot>)
      returns (ok: bool)
      requires Ready() && AllKeyed(apply)
      modifies nsFiles, nsTypes
      ensures Patched(old(Value()).agg, removed, outdated, apply, Value().agg, ok)
    {
      ok := RemoveSchemas(nsFiles, nsTypes, removed);
      if !ok { return; }
      ok := RemoveSchemas(nsFiles, nsTypes, outdated);
      if !ok { return; }
      ghost var visited;
      ok, visited := ApplySchemas(nsFiles, nsTypes, apply);
    }

    /** The refresh once the list is there. */
    method RefreshTo(w: World, up: Reachable, infos: seq<Info>) returns (o: Outcome)
      requires Ready() && Served(w, up) && IdsOnce(infos) && Tracks(w, SchemasOf(Value()))
      modifies this, nsFiles, nsTypes
      ensures RefreshesTo(w, up, Wanted(infos), old(Value()), o, Value())
    {
      var cur := SchemasOf(Value());
      var ok, next, removed, outdated, apply := Plan(w, up, cur, infos);
      if !ok { return FetchFailed; }
      if apply == [] && outdated == [] && removed == [] && snapshot.Some? { return Unchanged; }
      var apart, index := BuildNameIndex(next);
      if !apart { return NameCollision; }
      GenuineKeyed(w, apply);
      ok := Patch(removed, outdated, apply);
      PatchedBy(w, old(Value()), next, removed, outdated, apply, Value().agg, ok);
      if !ok { return AggregateFailed; }
      snapshot := Some(NsSnapshot(next, index));
      return Refreshed;
    }

    method Refresh(w: World, answer: Answer) returns (o: Outcome)
      requires Ready() && WellFormed(w, answer) && Tracks(w, SchemasOf(Value()))
      modifies this, nsFiles, nsTypes
      ensures Refreshes(w, answer, fromCache, old(Value()), o, Value())
    {
      if fromCache { return Stale; }
      if answer.infos.None? { return ListFailed; }
      o := RefreshTo(w, answer.up, answer.infos.value);
    }

    /** The eager first fetch of a new resolver: every schema, then the index, then the aggregate. */
    method Populate(w: World, answer: Answer) returns (o: Outcome)
      requires Ready() && WellFormed(w, answer) && Value() == Start
      modifies this, nsFiles, nsTypes
      ensures Refreshes(w, answer, false, Start, o, Value())
    {
      if answer.infos.None? { return ListFailed; }
      var ok, next, apply, outdated := Diff(w, answer.up, map[], answer.infos.value, nsFiles.parent, nsTypes.parent);
      if !ok { return FetchFailed; }
      FirstDiff(w, next, outdated, apply);
      GenuineKeyed(w, apply);
      SameExports(w, next);
      var apart, index := BuildNameIndex(next);
      if !apart { return NameCollision; }
      ghost var visited;
      ok, visited := ApplySchemas(nsFiles, nsTypes, apply);
      FirstPatch(w, next, apply, Value().agg, ok);
      if !ok { return AggregateFailed; }
      snapshot := Some(NsSnapshot(next, index));
      return Refreshed;
    }

    /** The polling loop: each tick refreshes, and failures are survived. */
    method RefreshLoop(w: World, answers: seq<Answer>) returns (ghost outcomes: seq<Outcome>, ghost states: seq<State>)
      requires Ready() && !fromCache && Tracks(w, SchemasOf(Value()))
      requires forall k :: 0 <= k < |answers| ==> WellFormed(w, answers[k])
      modifies this, nsFiles, nsTypes
      ensures IsRun(w, answers, outcomes, states) && states[0] == old(Value()) && states[|answers|] == Value()
    {
      outcomes, states := [], [Value()];
      for k := 0 to |answers|
        invariant IsRun(w, answers[..k], outcomes, states)
        invariant states[0] == old(Value()) && states[k] == Value() && Tracks(w, SchemasOf(Value()))
      {
        ghost var st := Value();
        var o := Refresh(w, answers[k]);
        StillTracks(w, answers[k], st, o, Value());
        RunGrows(w, answers, k, outcomes, states, o, Value());
        outcomes, states := outcomes + [o], states + [Value()];
      }
      assert answers[..|answers|] == answers;
    }

    ghost function TypesAbove(): seq<T.Types>
      requires nsTypes.Rooted()
      reads if nsTypes.parent == null then {} else nsTypes.parent.Chain()
    {
      if nsTypes.parent == null then [] else nsTypes.parent.Levels()
    }

    ghost function FilesAbove(): seq<F.Files>
      requires nsFiles.Rooted()
      reads if nsFiles.parent == null then {} else nsFiles.parent.Chain()
    {
      if nsFiles.parent == null then [] else nsFiles.parent.Levels()
    }

    /** FindMessageByName and FindExtensionByName: the schema that owns the name answers, else the aggregate. */
    method FindTypeByName(name: FullName, k: T.Kinds) returns (r: TR.Found)
      requires Ready()
      ensures r == TypeFor(snapshot, nsTypes.Value(), TypesAbove(), name, k)
    {
      if snapshot.Some? {
        var s := snapshot.value;
        if name in s.nameIndex && s.nameIndex[name] in s.schemas {
          var types := s.schemas[s.nameIndex[name]].types;
          assert ([types] + TypesAbove())[1..] == TypesAbove();
          if name in types.typesByName {
            return if T.OfKind(types.typesByName[name], k) then TR.Type(types.typesByName[name]) else TR.WrongType;
          }
          assert TR.FindKind([types] + TypesAbove(), name, k) == TR.FindKind(TypesAbove(), name, k);
          if nsTypes.parent == null { return TR.Missing; }
          r := nsTypes.parent.FindByName(name, k);
          return;
        }
      }
      r := nsTypes.FindByName(name, k);
    }

    method FindDescriptorByName(name: FullName) returns (r: Option<Descriptor>)
      requires Ready()
      ensures r == DescriptorFor(snapshot, nsFiles.Value(), FilesAbove(), name)
    {
      if snapshot.Some? {
        var s := snapshot.value;
        if name in s.nameIndex && s.nameIndex[name] in s.schemas {
          var files := s.schemas[s.nameIndex[name]].files;
          assert ([files] + FilesAbove())[1..] == FilesAbove();
          r := L.FindLocal(files.descsByName, name);
          assert r == None ==> FR.FindInLevels([files] + FilesAbove(), name) == FR.FindInLevels(FilesAbove(), name);
          if r == None && nsFiles.parent != null {
            r := nsFiles.parent.FindDescriptorByName(name);
          }
          return;
        }
      }
      r := nsFiles.FindDescriptorByName(name);
    }
  }

  /** The lookup through the name index; without a snapshot the aggregate answers. */
  function TypeFor(snapshot: Option<NsSnapshot>, types: T.Types, above: seq<T.Types>, n: FullName,
                   k: T.Kinds): TR.Found {
    match snapshot
    case None => TR.FindKind([types] + above, n, k)
    case Some(s) => FastType(s.schemas, s.nameIndex, types, above, n, k)
  }

  function DescriptorFor(snapshot: Option<NsSnapshot>, files: F.Files, above: seq<F.Files>,
                         n: FullName): Option<Descriptor> {
    match snapshot
    case None => FR.FindInLevels([files] + above, n)
    case Some(s) => FastDescriptor(s.schemas, s.nameIndex, files, above, n)
  }

  lemma FirstDiff(w: World, next: Schemas, outdated: seq<SchemaSnapshot>, apply: seq<SchemaSnapshot>)
    requires DiffIs(map[], next, apply, outdated) && AllGenuine(w, apply)
    ensures Planned(w, map[], next, [], [], apply)
  {
    assert OutdatedIs(map[], next, []) && GoneAre(map[], next, []);
    DiffGenuine(w, map[], next, [], outdated, apply);
  }

  /** A first fetch removes nothing. */
  lemma FirstPatch(w: World, next: Schemas, apply: seq<SchemaSnapshot>, a: Agg, ok: bool)
    requires Planned(w, map[], next, [], [], apply) && Applied(Blank, apply, a, ok)
    ensures PatchedTo(w, Start, next, a, ok)
  {
    NothingToRemove(Blank, apply, a, ok);
    PatchedBy(w, Start, next, [], [], apply, a, ok);
  }

  lemma NothingToRemove(b: Agg, apply: seq<SchemaSnapshot>, a: Agg, ok: bool)
    requires Applied(b, apply, a, ok)
    ensures Patched(b, [], [], apply, a, ok)
  {
    assert RemovePrints(b, []) == (b, true);
  }

  lemma PatchedBy(w: World, st: State, next: Schemas, removed: seq<SchemaSnapshot>,
                  outdated: seq<SchemaSnapshot>, apply: seq<SchemaSnapshot>, a: Agg, ok: bool)
    requires Planned(w, SchemasOf(st), next, removed, outdated, apply)
    requires Patched(st.agg, removed, outdated, apply, a, ok)
    ensures PatchedTo(w, st, next, a, ok)
  {
  }

  // ---------------------------------------------------------------------------
  // Runs
  // ---------------------------------------------------------------------------

  /** The answer can be taken over: all of it arrives and no two schemas export a name. */
  ghost predicate Usable(w: World, have: Versions, answer: Answer) {
    && answer.infos.Some?
    && CanFetch(w, answer.up, have, Wanted(answer.infos.value))
    && ExportsApart(w, Wanted(answer.infos.value))
  }

  /** The versions the client should have after the answer. */
  ghost function Follow(w: World, have: Versions, answer: Answer): Versions {
    if Usable(w, have, answer) then Wanted(answer.infos.value) else have
  }

  ghost function FollowAll(w: World, have: Versions, answers: seq<Answer>): Versions {
    if answers == [] then have else
      Follow(w, FollowAll(w, have, answers[..|answers| - 1]), answers[|answers| - 1])
  }

  /** Whatever is taken over is clean. */
  ghost predicate Tidy(w: World, have: Versions, answer: Answer) {
    Usable(w, have, answer) ==> CleanState(w, Wanted(answer.infos.value))
  }

  ghost predicate TidyRun(w: World, have: Versions, answers: seq<Answer>) {
    answers == [] || (
      var init := answers[..|answers| - 1];
      TidyRun(w, have, init) && Tidy(w, FollowAll(w, have, init), answers[|answers| - 1]))
  }

  /** Snapshot, index and aggregate all describe one clean server state. */
  ghost predicate Synced(w: World, st: State) {
    // Written as a match so that the verifier keeps the predicate whole where it is promised.
    match st
    case State(s, a) =>
      && Tracks(w, SchemasOf(st)) && InStep(a, w, Have(st))
      && (s.Some? ==> Indexes(s.value.nameIndex, s.value.schemas))
  }

  lemma StartSynced(w: World)
    ensures Synced(w, Start)
  {
    assert Have(Start) == map[];
    NothingInStep(w);
  }

  lemma StillTracks(w: World, answer: Answer, st: State, o: Outcome, st': State)
    requires Tracks(w, SchemasOf(st)) && Refreshes(w, answer, false, st, o, st')
    ensures Tracks(w, SchemasOf(st'))
  {
  }

  /**
   A refresh either fails and changes nothing, or leaves snapshot, index and aggregate in step with
   the state it took over; the aggregate never fails halfway.
   */
  lemma RefreshKeepsStep(w: World, answer: Answer, st: State, o: Outcome, st': State)
    requires Synced(w, st) && Tidy(w, Have(st), answer) && Refreshes(w, answer, false, st, o, st')
    ensures o != AggregateFailed && Synced(w, st') && Have(st') == Follow(w, Have(st), answer)
    ensures o != Refreshed ==> st' == st
    ensures Usable(w, Have(st), answer) ==> o == Refreshed || o == Unchanged
  {
    if answer.infos.Some? { ListKeepsStep(w, answer.up, Wanted(answer.infos.value), st, o, st'); }
  }

  lemma ListKeepsStep(w: World, up: Reachable, want: Versions, st: State, o: Outcome, st': State)
    requires Synced(w, st) && RefreshesTo(w, up, want, st, o, st')
    requires CanFetch(w, up, Have(st), want) && ExportsApart(w, want) ==> CleanState(w, want)
    ensures o != AggregateFailed && Synced(w, st')
    ensures Have(st') == if CanFetch(w, up, Have(st), want) && ExportsApart(w, want) then want else Have(st)
    ensures o != Refreshed ==> st' == st
    ensures CanFetch(w, up, Have(st), want) && ExportsApart(w, want) ==> o == Refreshed || o == Unchanged
  {
    if o == Refreshed { TakenOver(w, up, want, st, st'); } else { NotTakenOver(w, up, want, st, o, st'); }
  }

  /** A clean server state that arrives whole is always taken over. */
  lemma CleanStateFollowed(w: World, answer: Answer, st: State, o: Outcome, st': State)
    requires Synced(w, st) && Refreshes(w, answer, false, st, o, st') && answer.infos.Some?
    requires CleanState(w, Wanted(answer.infos.value)) && CanFetch(w, answer.up, Have(st), Wanted(answer.infos.value))
    ensures (o == Refreshed || o == Unchanged) && Synced(w, st') && Have(st') == Wanted(answer.infos.value)
  {
    CleanExportsApart(w, Wanted(answer.infos.value));
    RefreshKeepsStep(w, answer, st, o, st');
  }

  lemma TakenOver(w: World, up: Reachable, want: Versions, st: State, st': State)
    requires Synced(w, st) && RefreshesTo(w, up, want, st, Refreshed, st')
    requires CanFetch(w, up, Have(st), want) && ExportsApart(w, want) ==> CleanState(w, want)
    ensures CanFetch(w, up, Have(st), want) && ExportsApart(w, want)
    ensures Synced(w, st') && Have(st') == want
  {
    TookOverSynced(w, want, st, st');
  }

  lemma NotTakenOver(w: World, up: Reachable, want: Versions, st: State, o: Outcome, st': State)
    requires Synced(w, st) && RefreshesTo(w, up, want, st, o, st') && o != Refreshed
    requires CanFetch(w, up, Have(st), want) && ExportsApart(w, want) ==> CleanState(w, want)
    ensures o != AggregateFailed && st' == st
    ensures CanFetch(w, up, Have(st), want) && ExportsApart(w, want) ==> o == Unchanged && Have(st) == want
  {
    if o == AggregateFailed {
      var next :| VersionsOf(next) == want && PatchedTo(w, st, next, st'.agg, false);
      PatchedToInStep(w, st, next, st'.agg, false);
    }
  }

  lemma TookOverSynced(w: World, want: Versions, st: State, st': State)
    requires Synced(w, st) && CleanState(w, want) && TookOver(w, want, st, st')
    ensures Synced(w, st') && Have(st') == want
  {
    PatchedToInStep(w, st, SchemasOf(st'), st'.agg, true);
  }

  lemma PatchedToInStep(w: World, st: State, next: Schemas, a: Agg, ok: bool)
    requires Synced(w, st) && CleanState(w, VersionsOf(next)) && PatchedTo(w, st, next, a, ok)
    ensures ok && InStep(a, w, VersionsOf(next))
  {
    var removed, outdated, apply :|
      Planned(w, SchemasOf(st), next, removed, outdated, apply) && Patched(st.agg, removed, outdated, apply, a, ok);
    PatchedInStep(w, SchemasOf(st), next, removed, outdated, apply, st.agg, a, ok);
  }

  ghost predicate IsRun(w: World, answers: seq<Answer>, outcomes: seq<Outcome>, states: seq<State>) {
    && |outcomes| == |answers| && |states| == |answers| + 1
    && forall k :: 0 <= k < |answers| ==> Tick(w, answers, outcomes, states, k)
  }

  ghost predicate Tick(w: World, answers: seq<Answer>, outcomes: seq<Outcome>, states: seq<State>, k: nat)
    requires k < |answers| == |outcomes| && |states| == |answers| + 1
  {
    Refreshes(w, answers[k], false, states[k], outcomes[k], states[k + 1])
  }

  lemma RunGrows(w: World, answers: seq<Answer>, n: nat, outcomes: seq<Outcome>, states: seq<State>, o: Outcome,
                 st: State)
    requires n < |answers| && IsRun(w, answers[..n], outcomes, states)
    requires Refreshes(w, answers[n], false, states[n], o, st)
    ensures IsRun(w, answers[..n + 1], outcomes + [o], states + [st])
  {
    var (asked, ends, steps) := (answers[..n + 1], outcomes + [o], states + [st]);
    forall k: nat | k < n + 1 ensures Tick(w, asked, ends, steps, k) {
      if k < n { assert Tick(w, answers[..n], outcomes, states, k); }
    }
  }

  lemma RunShrinks(w: World, answers: seq<Answer>, outcomes: seq<Outcome>, states: seq<State>)
    requires IsRun(w, answers, outcomes, states) && answers != []
    ensures var n := |answers| - 1;
            && IsRun(w, answers[..n], outcomes[..n], states[..n + 1])
            && Refreshes(w, answers[n], false, states[n], outcomes[n], states[n + 1])
  {
    var n := |answers| - 1;
    var (before, ends, steps) := (answers[..n], outcomes[..n], states[..n + 1]);
    forall k: nat | k < n ensures Tick(w, before, ends, steps, k) {
      assert Tick(w, answers, outcomes, states, k);
    }
    assert Tick(w, answers, outcomes, states, n);
  }

  /**
   After any number of refreshes, with any failures in between, the client is in step with the last
   state it took over.
   */
  lemma {:induction false} RunKeepsStep(w: World, answers: seq<Answer>, outcomes: seq<Outcome>, states: seq<State>)
    requires IsRun(w, answers, outcomes, states) && Synced(w, states[0]) && TidyRun(w, Have(states[0]), answers)
    ensures Synced(w, states[|answers|]) && Have(states[|answers|]) == FollowAll(w, Have(states[0]), answers)
    decreases |answers|
  {
    if answers != [] {
      var n := |answers| - 1;
      RunShrinks(w, answers, outcomes, states);
      RunKeepsStep(w, answers[..n], outcomes[..n], states[..n + 1]);
      RefreshKeepsStep(w, answers[n], states[n], outcomes[n], states[n + 1]);
    }
  }

  /**
   The incremental aggregate after any such run cannot be told apart from one rebuilt from scratch
   out of the files of the state it follows, in whatever order the rebuild meets them.
   */
  lemma RunEqualsRebuild(w: World, answers: seq<Answer>, outcomes: seq<Outcome>, states: seq<State>, fs: seq<File>)
    requires IsRun(w, answers, outcomes, states) && states[0] == Start && TidyRun(w, map[], answers)
    requires Enumerates(fs, Union(w, FollowAll(w, map[], answers)))
    ensures ApplyFiles(Blank, fs).1 && SameAgg(states[|answers|].agg, ApplyFiles(Blank, fs).0)
  {
    StartSynced(w);
    assert Have(Start) == map[];
    RunKeepsStep(w, answers, outcomes, states);
    RebuildAgrees(states[|answers|].agg, w, FollowAll(w, map[], answers), fs);
  }

  /** Once in step, lookups by name give the answers of the aggregate, with the same registries above. */
  lemma LookupsAgree(w: World, st: State, typesAbove: seq<T.Types>, filesAbove: seq<F.Files>, n: FullName, k: T.Kinds)
    requires Synced(w, st)
    ensures TypeFor(st.snapshot, st.agg.types, typesAbove, n, k) == TR.FindKind([st.agg.types] + typesAbove, n, k)
    ensures DescriptorFor(st.snapshot, st.agg.files, filesAbove, n) == FR.FindInLevels([st.agg.files] + filesAbove, n)
  {
    if st.snapshot.Some? {
      var s := st.snapshot.value;
      FastTypeAgrees(w, s.schemas, s.nameIndex, st.agg, typesAbove, n, k);
      FastDescriptorAgrees(w, s.schemas, s.nameIndex, st.agg, filesAbove, n);
    }
  }

  lemma NoDifference(cur: Schemas, next: Schemas, removed: seq<SchemaSnapshot>,
                     outdated: seq<SchemaSnapshot>, apply: seq<SchemaSnapshot>)
    requires Filed(cur) && DiffIs(cur, next, apply, outdated) && GoneAre(cur, next, removed)
    requires removed == [] && outdated == [] && apply == []
    ensures VersionsOf(next) == VersionsOf(cur)
  {
    DiffLeads(cur, next, removed, outdated, apply);
    assert Ids([]) == {};
    assert VersionsOf(cur) - {} - {} == VersionsOf(cur);
  }
}
