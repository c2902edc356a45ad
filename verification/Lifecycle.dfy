/**
 The registry as a state machine over two copies of its state: the rows of the store and the
 namespaces in memory.  Each operation is one atomic step; failing store calls are part of the
 steps.
 */
module Lifecycle {
  import opened Descriptors
  import C = Compat
  import H = Hierarchy
  import F = Fingerprint

  type Id = H.Id
  datatype Key = Key(ns: Id, schema: Id)

  /** A compiled descriptor set; the protobuf library admits only well-formed ones. */
  type Tree = t: C.Tree | C.WellFormed(t) witness []

  // ---------------------------------------------------------------------------
  // The store
  // ---------------------------------------------------------------------------

  /** A pin on the file of another schema that was visible to the compilation. */
  datatype Dep = Dep(ns: Id, schema: Id, filename: string, version: nat)

  datatype Version = Version(tree: Tree, files: seq<F.FileHash>, deps: set<Dep>)
  datatype Row = Row(current: Option<nat>, staged: Option<nat>)

  /** Version `v` of a schema is entry `v - 1` of its list: numbers start at 1 and rise by one. */
  datatype Store = Store(parents: H.Parents, rows: map<Key, Row>, versions: map<Key, seq<Version>>)

  function RowOf(s: Store, k: Key): Row {
    if k in s.rows then s.rows[k] else Row(None, None)
  }

  function VersionsOf(s: Store, k: Key): seq<Version> {
    if k in s.versions then s.versions[k] else []
  }

  predicate HasVersion(s: Store, k: Key, v: nat) {
    1 <= v <= |VersionsOf(s, k)|
  }

  function VersionAt(s: Store, k: Key, v: nat): Version
    requires HasVersion(s, k, v)
  {
    VersionsOf(s, k)[v - 1]
  }

  // ---------------------------------------------------------------------------
  // Memory
  // ---------------------------------------------------------------------------

  datatype Snap = Snap(version: nat, tree: Tree)
  datatype Slot = Slot(current: Option<Snap>, staged: Option<Snap>)
  const NoSlot := Slot(None, None)

  datatype Memory = Memory(parents: H.Parents, spaces: map<Id, map<Id, Slot>>)

  function SlotOf(m: Memory, k: Key): Slot {
    if k.ns in m.spaces && k.schema in m.spaces[k.ns] then m.spaces[k.ns][k.schema] else NoSlot
  }

  function GetOrCreate(m: Memory, ns: Id): Memory {
    if ns in m.spaces then m else m.(spaces := m.spaces[ns := map[]])
  }

  function PutSlot(m: Memory, k: Key, slot: Slot): Memory {
    var m := GetOrCreate(m, k.ns);
    m.(spaces := m.spaces[k.ns := m.spaces[k.ns][k.schema := slot]])
  }

  /** Store, memory, and the versions that Promote made current, in order, for each schema. */
  datatype State = State(store: Store, mem: Memory, log: map<Key, seq<nat>>)

  const Fresh := State(Store(map[], map[], map[]), Memory(map[], map[]), map[])

  function LogOf(st: State, k: Key): seq<nat> {
    if k in st.log then st.log[k] else []
  }

  // ---------------------------------------------------------------------------
  // Publishing
  // ---------------------------------------------------------------------------

  datatype Error = NoSources | ShadowsWellKnown | CompileFailed | StoreFailed | NotFound
                 | NoCurrent | Incompatible | AlreadyExists | ParentCycle | UnknownParent
  datatype Result = Published(version: nat) | NoChange | Done | Failed(error: Error)

  /** Where a call to the store fails, if it does. */
  datatype Fault = NoFault | BeforeWrite | BeforeStage

  function EnsureNamespaceAndSchema(st: State, k: Key): State {
    var s := st.store;
    var parents := if k.ns in s.parents then s.parents else s.parents[k.ns := None];
    var rows := if k in s.rows then s.rows else s.rows[k := Row(None, None)];
    st.(store := s.(parents := parents, rows := rows), mem := GetOrCreate(st.mem, k.ns))
  }

  /** What the compiler can import from the other schemas of the namespace, staged before current. */
  ghost function NamespaceDeps(s: Store, k: Key): set<Dep> {
    set j, f | j in s.rows && j.ns == k.ns && j != k && Proposed(s, j).Some? &&
               HasVersion(s, j, Proposed(s, j).value) &&
               f in VersionAt(s, j, Proposed(s, j).value).files ::
      Dep(j.ns, j.schema, f.filename, Proposed(s, j).value)
  }

  /** What it can import from the ancestors: always their current versions. */
  ghost function TierDeps(s: Store, ancestors: seq<Id>): set<Dep> {
    set j, f | j in s.rows && j.ns in ancestors && s.rows[j].current.Some? &&
               HasVersion(s, j, s.rows[j].current.value) &&
               f in VersionAt(s, j, s.rows[j].current.value).files ::
      Dep(j.ns, j.schema, f.filename, s.rows[j].current.value)
  }

  function Ancestors(m: Memory, ns: Id): seq<Id> {
    var chain := H.Chain(m.parents, ns);
    if |chain| <= 1 then [] else chain[1..]
  }

  ghost function Deps(st: State, k: Key): set<Dep> {
    NamespaceDeps(st.store, k) + TierDeps(st.store, Ancestors(st.mem, k.ns))
  }

  function Proposed(s: Store, k: Key): Option<nat> {
    var r := RowOf(s, k);
    if r.staged.Some? then r.staged else r.current
  }

  /** The fingerprint equals that of the staged, or else the current, version. */
  predicate Unchanged(s: Store, k: Key, files: seq<F.FileHash>) {
    var v := Proposed(s, k);
    v.Some? && HasVersion(s, k, v.value) &&
    F.Text(F.Sort(VersionAt(s, k, v.value).files)) == F.Text(F.Sort(files))
  }

  function PutVersion(s: Store, k: Key, v: Version): Store {
    s.(versions := s.versions[k := VersionsOf(s, k) + [v]])
  }

  function Stage(st: State, k: Key, snap: Snap): State {
    st.(store := st.store.(rows := st.store.rows[k := RowOf(st.store, k).(staged := Some(snap.version))]),
        mem := PutSlot(st.mem, k, SlotOf(st.mem, k).(staged := Some(snap))))
  }

  /**
   publishInternal.  `shadows` says whether a source has the name of a standard import, `compiled`
   is what the compiler and the check against ancestor names yield, `always` is set by Rebase.
   */
  ghost function Publish(st: State, k: Key, files: seq<F.FileHash>, force: bool, shadows: bool,
                         compiled: Option<Tree>, always: bool, fault: Fault): (State, Result)
  {
    if files == [] then (st, Failed(NoSources)) else
    if !force && shadows then (st, Failed(ShadowsWellKnown)) else
      var s1 := EnsureNamespaceAndSchema(st, k);
      if compiled.None? then (s1, Failed(CompileFailed)) else
      if !always && Unchanged(s1.store, k, files) then (s1, NoChange) else
      if fault == BeforeWrite then (s1, Failed(StoreFailed)) else
        var v := |VersionsOf(s1.store, k)| + 1;
        var s2 := s1.(store := PutVersion(s1.store, k, Version(compiled.value, files, Deps(s1, k))));
        if fault == BeforeStage then (s2, Failed(StoreFailed)) else
          (Stage(s2, k, Snap(v, compiled.value)), Published(v))
  }

  function FilesAt(s: Store, k: Key, v: nat): seq<F.FileHash> {
    if HasVersion(s, k, v) then VersionAt(s, k, v).files else []
  }

  ghost function Rebase(st: State, k: Key, shadows: bool, compiled: Option<Tree>, fault: Fault): (State, Result) {
    if k.ns !in st.mem.spaces then (st, Failed(NotFound)) else
    if SlotOf(st.mem, k).current.None? then (st, Failed(NoCurrent)) else
      var files := FilesAt(st.store, k, SlotOf(st.mem, k).current.value.version);
      Publish(st, k, files, false, shadows, compiled, true, fault)
  }

  // ---------------------------------------------------------------------------
  // Promoting, discarding, rolling back
  // ---------------------------------------------------------------------------

  function TreeOf(s: Option<Snap>): Option<C.Tree> {
    if s.None? then None else Some(s.value.tree)
  }

  /** A staged version no newer than the current one is a rollback and is not checked again. */
  predicate MayPromote(slot: Slot) {
    slot.staged.None? ||
    (slot.current.Some? && slot.staged.value.version <= slot.current.value.version) ||
    C.Passes(TreeOf(slot.current), slot.staged.value.tree)
  }

  function PromoteRow(r: Row): Row {
    if r.staged.Some? then Row(r.staged, None) else r
  }

  function PromoteSlot(s: Slot): Slot {
    if s.staged.Some? then Slot(s.staged, None) else s
  }

  function PromoteAll(st: State, ns: Id): State
    requires ns in st.mem.spaces
  {
    var s := st.store;
    State(s.(rows := map k | k in s.rows :: if k.ns == ns then PromoteRow(s.rows[k]) else s.rows[k]),
          st.mem.(spaces := st.mem.spaces[ns := map x | x in st.mem.spaces[ns] :: PromoteSlot(st.mem.spaces[ns][x])]),
          map k | k in st.log.Keys + s.rows.Keys ::
            LogOf(st, k) + if k in s.rows && k.ns == ns && s.rows[k].staged.Some? then [s.rows[k].staged.value] else [])
  }

  function Promote(st: State, ns: Id, fault: Fault): (State, Result) {
    if ns !in st.mem.spaces then (st, Failed(NotFound)) else
    if exists x :: x in st.mem.spaces[ns] && !MayPromote(st.mem.spaces[ns][x]) then (st, Failed(Incompatible)) else
    if fault != NoFault then (st, Failed(StoreFailed)) else (PromoteAll(st, ns), Done)
  }

  function DiscardStaging(st: State, ns: Id, fault: Fault): (State, Result) {
    if fault != NoFault then (st, Failed(StoreFailed)) else
      var s := st.store;
      var mem := if ns !in st.mem.spaces then st.mem else
        st.mem.(spaces := st.mem.spaces[ns := map x | x in st.mem.spaces[ns] :: st.mem.spaces[ns][x].(staged := None)]);
      (st.(store := s.(rows := map k | k in s.rows :: if k.ns == ns then s.rows[k].(staged := None) else s.rows[k]),
           mem := mem), Done)
  }

  function Rollback(st: State, k: Key, v: nat, force: bool, fault: Fault): (State, Result) {
    if !HasVersion(st.store, k, v) then (st, Failed(NotFound)) else
      var tree := VersionAt(st.store, k, v).tree;
      if !force && !C.Passes(TreeOf(SlotOf(st.mem, k).current), tree) then (st, Failed(Incompatible)) else
      if fault != NoFault then (st, Failed(StoreFailed)) else
        (Stage(st, k, Snap(v, tree)), Done)
  }

  // ---------------------------------------------------------------------------
  // The hierarchy and the restart
  // ---------------------------------------------------------------------------

  function SetNamespaceParent(st: State, x: Id, parent: Option<Id>, fault: Fault): (State, Result) {
    if fault != NoFault then (st, Failed(StoreFailed)) else
      var (g, o) := H.SetParent(st.store.parents, x, parent);
      match o
      case NamespaceNotFound => (st, Failed(NotFound))
      case ParentCycle => (st, Failed(ParentCycle))
      case Ok =>
        var m := GetOrCreate(st.mem, x);
        var m := if parent.None? then m else GetOrCreate(m, parent.value);
        (st.(store := st.store.(parents := g), mem := m.(parents := m.parents[x := parent])), Done)
  }

  function CreateNamespace(st: State, x: Id, parent: Option<Id>, fault: Fault): (State, Result) {
    if fault == BeforeWrite then (st, Failed(StoreFailed)) else
    if x in st.store.parents then (st, Failed(AlreadyExists)) else
      var s1 := st.(store := st.store.(parents := st.store.parents[x := None]), mem := GetOrCreate(st.mem, x));
      if parent.None? then (s1, Done) else SetNamespaceParent(s1, x, parent, fault)
  }

  function SnapOf(s: Store, k: Key, v: Option<nat>): Option<Snap> {
    if v.Some? && HasVersion(s, k, v.value) then Some(Snap(v.value, VersionAt(s, k, v.value).tree)) else None
  }

  /** The slots that Restore loads for one namespace: current versions, nothing staged. */
  function RestoredSpace(s: Store, ns: Id): map<Id, Slot> {
    map k | k in s.rows && k.ns == ns && SnapOf(s, k, s.rows[k].current).Some? ::
      k.schema := Slot(SnapOf(s, k, s.rows[k].current), None)
  }

  function RestoredNames(s: Store): set<Id> {
    s.parents.Keys + (set k | k in s.rows && SnapOf(s, k, s.rows[k].current).Some? :: k.ns)
  }

  function Restore(st: State): (State, Result) {
    var s := st.store;
    if !H.Closed(s.parents) then (st, Failed(UnknownParent)) else
      (st.(mem := Memory(s.parents, map ns | ns in RestoredNames(s) :: RestoredSpace(s, ns))), Done)
  }

  // ---------------------------------------------------------------------------
  // Runs
  // ---------------------------------------------------------------------------

  datatype Op =
    | PublishOp(key: Key, files: seq<F.FileHash>, force: bool, shadows: bool, compiled: Option<Tree>, fault: Fault)
    | RebaseOp(key: Key, shadows: bool, compiled: Option<Tree>, fault: Fault)
    | PromoteOp(ns: Id, fault: Fault)
    | DiscardOp(ns: Id, fault: Fault)
    | RollbackOp(key: Key, version: nat, force: bool, fault: Fault)
    | SetParentOp(ns: Id, parent: Option<Id>, fault: Fault)
    | CreateOp(ns: Id, parent: Option<Id>, fault: Fault)
    | RestoreOp

  ghost function Step(st: State, op: Op): (State, Result) {
    match op
    case PublishOp(k, files, force, shadows, compiled, fault) =>
      Publish(st, k, files, force, shadows, compiled, false, fault)
    case RebaseOp(k, shadows, compiled, fault) => Rebase(st, k, shadows, compiled, fault)
    case PromoteOp(ns, fault) => Promote(st, ns, fault)
    case DiscardOp(ns, fault) => DiscardStaging(st, ns, fault)
    case RollbackOp(k, v, force, fault) => Rollback(st, k, v, force, fault)
    case SetParentOp(x, p, fault) => SetNamespaceParent(st, x, p, fault)
    case CreateOp(x, p, fault) => CreateNamespace(st, x, p, fault)
    case RestoreOp => Restore(st)
  }

  ghost function Run(st: State, ops: seq<Op>): State {
    if ops == [] then st else Step(Run(st, ops[..|ops| - 1]), ops[|ops| - 1]).0
  }

  // ---------------------------------------------------------------------------
  // Store and memory agree
  // ---------------------------------------------------------------------------

  predicate RowValid(s: Store, k: Key) {
    var r := RowOf(s, k);
    (r.current.Some? ==> HasVersion(s, k, r.current.value)) && (r.staged.Some? ==> HasVersion(s, k, r.staged.value))
  }

  function StoredSlot(s: Store, k: Key): Slot {
    Slot(SnapOf(s, k, RowOf(s, k).current), SnapOf(s, k, RowOf(s, k).staged))
  }

  ghost predicate AgreeAt(st: State, k: Key) {
    RowValid(st.store, k) && SlotOf(st.mem, k) == StoredSlot(st.store, k)
  }

  ghost predicate ParentsAgree(st: State) {
    forall x :: H.ParentOf(st.mem.parents, x) == H.ParentOf(st.store.parents, x)
  }

  ghost predicate Agree(st: State) {
    (forall k :: AgreeAt(st, k)) && ParentsAgree(st)
  }

  /** What the rows of the store stage. */
  ghost predicate NothingStaged(s: Store) {
    forall k :: k in s.rows ==> s.rows[k].staged.None?
  }

  lemma EnsureAgrees(st: State, k: Key)
    requires Agree(st)
    ensures Agree(EnsureNamespaceAndSchema(st, k))
    ensures forall j :: RowOf(EnsureNamespaceAndSchema(st, k).store, j) == RowOf(st.store, j)
    ensures EnsureNamespaceAndSchema(st, k).store.versions == st.store.versions
  {
    var st' := EnsureNamespaceAndSchema(st, k);
    forall j ensures AgreeAt(st', j) { assert AgreeAt(st, j); }
  }

  lemma PutVersionAgrees(st: State, k: Key, v: Version)
    requires Agree(st)
    ensures Agree(st.(store := PutVersion(st.store, k, v)))
  {
    var st' := st.(store := PutVersion(st.store, k, v));
    forall j ensures AgreeAt(st', j) {
      assert AgreeAt(st, j);
      assert forall w: nat :: HasVersion(st.store, j, w) ==>
        HasVersion(st'.store, j, w) && VersionAt(st'.store, j, w) == VersionAt(st.store, j, w);
    }
  }

  lemma StageAgrees(st: State, k: Key, snap: Snap)
    requires Agree(st) && HasVersion(st.store, k, snap.version)
    requires VersionAt(st.store, k, snap.version).tree == snap.tree
    ensures Agree(Stage(st, k, snap))
  {
    forall j ensures AgreeAt(Stage(st, k, snap), j) {
      assert AgreeAt(st, j) && AgreeAt(st, k);
      StageAgreesAt(st, k, snap, j);
    }
  }

  lemma StageAgreesAt(st: State, k: Key, snap: Snap, j: Key)
    requires AgreeAt(st, j) && AgreeAt(st, k)
    requires HasVersion(st.store, k, snap.version) && VersionAt(st.store, k, snap.version).tree == snap.tree
    ensures AgreeAt(Stage(st, k, snap), j)
  {
  }

  lemma PublishAgrees(st: State, k: Key, files: seq<F.FileHash>, force: bool, shadows: bool,
                      compiled: Option<Tree>, always: bool, fault: Fault)
    requires Agree(st)
    ensures Agree(Publish(st, k, files, force, shadows, compiled, always, fault).0)
  {
    var s1 := EnsureNamespaceAndSchema(st, k);
    EnsureAgrees(st, k);
    if compiled.Some? {
      var ver := Version(compiled.value, files, Deps(s1, k));
      var s2 := s1.(store := PutVersion(s1.store, k, ver));
      PutVersionAgrees(s1, k, ver);
      var v := |VersionsOf(s1.store, k)| + 1;
      assert VersionAt(s2.store, k, v) == ver;
      StageAgrees(s2, k, Snap(v, compiled.value));
    }
  }

  lemma PromoteAgrees(st: State, ns: Id)
    requires Agree(st) && ns in st.mem.spaces
    ensures Agree(PromoteAll(st, ns))
  {
    forall k ensures AgreeAt(PromoteAll(st, ns), k) { PromoteAgreesAt(st, ns, k); }
  }

  lemma PromoteAgreesAt(st: State, ns: Id, k: Key)
    requires AgreeAt(st, k) && ns in st.mem.spaces
    ensures AgreeAt(PromoteAll(st, ns), k)
  {
    PromotedRow(st, ns, k);
    PromotedSlot(st, ns, k);
  }

  lemma PromotedRow(st: State, ns: Id, k: Key)
    requires ns in st.mem.spaces
    ensures PromoteAll(st, ns).store.versions == st.store.versions
    ensures RowOf(PromoteAll(st, ns).store, k) ==
            if k.ns == ns then PromoteRow(RowOf(st.store, k)) else RowOf(st.store, k)
  {
  }

  lemma PromotedSlot(st: State, ns: Id, k: Key)
    requires ns in st.mem.spaces
    ensures SlotOf(PromoteAll(st, ns).mem, k) ==
            if k.ns == ns then PromoteSlot(SlotOf(st.mem, k)) else SlotOf(st.mem, k)
  {
  }

  lemma DiscardAgrees(st: State, ns: Id, fault: Fault)
    requires Agree(st)
    ensures Agree(DiscardStaging(st, ns, fault).0)
  {
    var st' := DiscardStaging(st, ns, fault).0;
    forall k ensures AgreeAt(st', k) { assert AgreeAt(st, k); }
  }

  lemma SetParentAgreesAt(st: State, x: Id, parent: Option<Id>, fault: Fault, k: Key)
    requires Agree(st)
    ensures AgreeAt(SetNamespaceParent(st, x, parent, fault).0, k)
  {
    assert AgreeAt(st, k);
  }

  lemma SetParentAgrees(st: State, x: Id, parent: Option<Id>, fault: Fault)
    requires Agree(st)
    ensures Agree(SetNamespaceParent(st, x, parent, fault).0)
  {
    var st' := SetNamespaceParent(st, x, parent, fault).0;
    forall k ensures AgreeAt(st', k) { SetParentAgreesAt(st, x, parent, fault, k); }
    forall y ensures H.ParentOf(st'.mem.parents, y) == H.ParentOf(st'.store.parents, y) {
      assert H.ParentOf(st.mem.parents, y) == H.ParentOf(st.store.parents, y);
    }
  }

  lemma CreateAgrees(st: State, x: Id, parent: Option<Id>, fault: Fault)
    requires Agree(st)
    ensures Agree(CreateNamespace(st, x, parent, fault).0)
  {
    if fault != BeforeWrite && x !in st.store.parents {
      var s1 := st.(store := st.store.(parents := st.store.parents[x := None]), mem := GetOrCreate(st.mem, x));
      forall k ensures AgreeAt(s1, k) { assert AgreeAt(st, k); }
      SetParentAgrees(s1, x, parent, fault);
    }
  }

  lemma RestoredSlot(st: State, k: Key)
    requires H.Closed(st.store.parents)
    ensures SlotOf(Restore(st).0.mem, k) == StoredSlot(st.store, k).(staged := None)
  {
    var m := Restore(st).0.mem;
    if k in st.store.rows && SnapOf(st.store, k, st.store.rows[k].current).Some? {
      assert k.ns in m.spaces;
      assert k.schema in RestoredSpace(st.store, k.ns);
    }
  }

  /**
   A restart rebuilds the memory from the store.  The result agrees with the store exactly when
   nothing was staged: staged versions are not loaded.
   */
  lemma RestoreExact(st: State)
    requires (forall k :: RowValid(st.store, k)) && H.Closed(st.store.parents)
    ensures Agree(Restore(st).0) <==> NothingStaged(st.store)
    ensures Restore(st).0.store == st.store
  {
    var st' := Restore(st).0;
    forall k ensures SlotOf(st'.mem, k) == StoredSlot(st.store, k).(staged := None) { RestoredSlot(st, k); }
    if NothingStaged(st.store) {
      forall k ensures AgreeAt(st', k) { assert RowValid(st.store, k); }
    } else {
      var k :| k in st.store.rows && st.store.rows[k].staged.Some?;
      assert RowValid(st.store, k);
      assert !AgreeAt(st', k);
    }
  }

  /** A restart is refused exactly for a parent that is no namespace; else it loads what is current, and that alone. */
  lemma RestoreLoads(st: State)
    ensures var (st', o) := Restore(st);
            && (o == Done <==> H.Closed(st.store.parents)) && (o != Done ==> st' == st)
            && st'.store == st.store && st'.log == st.log
            && (o == Done ==> st'.mem.parents == st.store.parents)
            && (o == Done ==> forall k :: SlotOf(st'.mem, k) == StoredSlot(st.store, k).(staged := None))
  {
    if H.Closed(st.store.parents) {
      var st' := Restore(st).0;
      forall k ensures SlotOf(st'.mem, k) == StoredSlot(st.store, k).(staged := None) { RestoredSlot(st, k); }
    }
  }

  // ---------------------------------------------------------------------------
  // Every version that becomes current is compatible with all earlier ones
  // ---------------------------------------------------------------------------

  ghost predicate CompatibleVersions(s: Store, k: Key, v: nat, w: nat) {
    HasVersion(s, k, v) && HasVersion(s, k, w) && C.Compatible(VersionAt(s, k, v).tree, VersionAt(s, k, w).tree)
  }

  /** Later entries of the log are compatible with all earlier ones. */
  ghost predicate LogCompatible(s: Store, k: Key, log: seq<nat>) {
    forall i, j :: 0 <= i < j < |log| ==> CompatibleVersions(s, k, log[i], log[j])
  }

  /**
   The log ends with the current version, it is compatible throughout, and a staged version that
   Promote will not check again has been checked against the version that is still current.
   */
  ghost predicate SafeAt(st: State, k: Key) {
    var r, log := RowOf(st.store, k), LogOf(st, k);
    && LogCompatible(st.store, k, log)
    && (if log == [] then r.current.None? else r.current == Some(log[|log| - 1]))
    && (r.current.Some? && r.staged.Some? && r.staged.value <= r.current.value ==>
          CompatibleVersions(st.store, k, r.current.value, r.staged.value))
  }

  ghost predicate Safe(st: State) {
    forall k :: SafeAt(st, k)
  }

  /** The versions on record never change; the list only grows. */
  ghost predicate VersionsGrow(s: Store, t: Store) {
    forall k, v :: HasVersion(s, k, v) ==> HasVersion(t, k, v) && VersionAt(t, k, v) == VersionAt(s, k, v)
  }

  lemma SafeAfterGrowth(st: State, st': State, k: Key)
    requires SafeAt(st, k) && VersionsGrow(st.store, st'.store)
    requires LogOf(st', k) == LogOf(st, k) && RowOf(st'.store, k).current == RowOf(st.store, k).current
    requires RowOf(st'.store, k).staged == RowOf(st.store, k).staged || RowOf(st'.store, k).staged.None?
    ensures SafeAt(st', k)
  {
  }

  lemma PutVersionGrows(s: Store, k: Key, v: Version)
    ensures VersionsGrow(s, PutVersion(s, k, v))
  {
  }

  /** Publish touches one row, and there only what is staged: a version newer than all on record. */
  lemma PublishShape(st: State, k: Key, files: seq<F.FileHash>, force: bool, shadows: bool,
                     compiled: Option<Tree>, always: bool, fault: Fault)
    ensures StagesOnly(st, Publish(st, k, files, force, shadows, compiled, always, fault).0, k)
  {
    EnsureShape(st, k);
    PublishEnds(st, k, files, force, shadows, compiled, always, fault);
    if compiled.Some? { WrittenShape(st, k, files, compiled.value); }
  }

  lemma RebaseShape(st: State, k: Key, shadows: bool, compiled: Option<Tree>, fault: Fault)
    ensures StagesOnly(st, Rebase(st, k, shadows, compiled, fault).0, k)
  {
    if k.ns in st.mem.spaces && SlotOf(st.mem, k).current.Some? {
      var files := FilesAt(st.store, k, SlotOf(st.mem, k).current.value.version);
      PublishShape(st, k, files, false, shadows, compiled, true, fault);
    }
  }

  /** The first write of Publish: the version. */
  ghost function Wrote(st: State, k: Key, files: seq<F.FileHash>, tree: Tree): State {
    var s1 := EnsureNamespaceAndSchema(st, k);
    s1.(store := PutVersion(s1.store, k, Version(tree, files, Deps(s1, k))))
  }

  /** The second one: what is staged. */
  ghost function WroteAndStaged(st: State, k: Key, files: seq<F.FileHash>, tree: Tree): State {
    Stage(Wrote(st, k, files, tree), k, Snap(|VersionsOf(EnsureNamespaceAndSchema(st, k).store, k)| + 1, tree))
  }

  lemma PublishEnds(st: State, k: Key, files: seq<F.FileHash>, force: bool, shadows: bool,
                    compiled: Option<Tree>, always: bool, fault: Fault)
    ensures var st' := Publish(st, k, files, force, shadows, compiled, always, fault).0;
            || st' == st || st' == EnsureNamespaceAndSchema(st, k)
            || (compiled.Some? && st' == Wrote(st, k, files, compiled.value))
            || (compiled.Some? && st' == WroteAndStaged(st, k, files, compiled.value))
  {
  }

  /** Versions are only added, and of all rows at most the staged column of `k` changes, to a fresh number. */
  ghost predicate StagesOnly(st: State, st': State, k: Key) {
    && st'.log == st.log
    && VersionsGrow(st.store, st'.store)
    && (forall j :: j != k ==> RowOf(st'.store, j) == RowOf(st.store, j))
    && RowOf(st'.store, k).current == RowOf(st.store, k).current
    && (RowOf(st'.store, k).staged == RowOf(st.store, k).staged ||
        RowOf(st'.store, k).staged == Some(|VersionsOf(st.store, k)| + 1))
  }

  lemma WrittenShape(st: State, k: Key, files: seq<F.FileHash>, tree: Tree)
    ensures StagesOnly(st, Wrote(st, k, files, tree), k) && SlotsStageOnly(st, Wrote(st, k, files, tree), k)
    ensures var st' := WroteAndStaged(st, k, files, tree);
            StagesOnly(st, st', k) && SlotsStageOnly(st, st', k)
  {
    var s1 := EnsureNamespaceAndSchema(st, k);
    EnsureShape(st, k);
    WroteShape(st, k, files, tree);
    StagedShape(st, Wrote(st, k, files, tree), k, Snap(|VersionsOf(s1.store, k)| + 1, tree));
  }

  /** Versions are only added, and no row or slot changes. */
  ghost predicate AddsOnly(st: State, st': State) {
    && st'.log == st.log
    && VersionsGrow(st.store, st'.store)
    && (forall j :: RowOf(st'.store, j) == RowOf(st.store, j) && SlotOf(st'.mem, j) == SlotOf(st.mem, j))
  }

  lemma WroteShape(st: State, k: Key, files: seq<F.FileHash>, tree: Tree)
    ensures AddsOnly(st, Wrote(st, k, files, tree))
  {
    var s1 := EnsureNamespaceAndSchema(st, k);
    EnsureShape(st, k);
    var v := Version(tree, files, Deps(s1, k));
    PutVersionGrows(s1.store, k, v);
    GrowTwice(st.store, s1.store, PutVersion(s1.store, k, v));
  }

  lemma StagedShape(st: State, s2: State, k: Key, snap: Snap)
    requires AddsOnly(st, s2) && snap.version == |VersionsOf(st.store, k)| + 1
    ensures StagesOnly(st, Stage(s2, k, snap), k) && SlotsStageOnly(st, Stage(s2, k, snap), k)
  {
    StageShape(s2, k, snap);
  }

  /** Of all slots at most the staged half of `k` changes. */
  ghost predicate SlotsStageOnly(st: State, st': State, k: Key) {
    && (forall j :: SlotOf(st'.mem, j).current == SlotOf(st.mem, j).current)
    && (forall j :: j != k ==> SlotOf(st'.mem, j) == SlotOf(st.mem, j))
  }

  /** Afterwards namespace and schema exist; a reader of rows and slots sees no change, nor does a second call. */
  lemma EnsureShape(st: State, k: Key)
    ensures var s1 := EnsureNamespaceAndSchema(st, k);
            && k in s1.store.rows && k.ns in s1.store.parents && k.ns in s1.mem.spaces
            && s1.log == st.log && s1.store.versions == st.store.versions && VersionsGrow(st.store, s1.store)
            && (forall j :: RowOf(s1.store, j) == RowOf(st.store, j) && SlotOf(s1.mem, j) == SlotOf(st.mem, j))
            && (forall x :: H.ParentOf(s1.store.parents, x) == H.ParentOf(st.store.parents, x))
            && EnsureNamespaceAndSchema(s1, k) == s1
  {
  }

  /** Row and slot of the schema stage the same version and keep what is current; no other row or slot changes. */
  lemma StageShape(st: State, k: Key, snap: Snap)
    ensures var st' := Stage(st, k, snap);
            && st'.log == st.log && st'.store.versions == st.store.versions
            && RowOf(st'.store, k) == Row(RowOf(st.store, k).current, Some(snap.version))
            && SlotOf(st'.mem, k) == Slot(SlotOf(st.mem, k).current, Some(snap))
            && (forall j :: j != k ==>
                RowOf(st'.store, j) == RowOf(st.store, j) && SlotOf(st'.mem, j) == SlotOf(st.mem, j))
  {
  }

  lemma GrowTwice(r: Store, s: Store, t: Store)
    requires VersionsGrow(r, s) && VersionsGrow(s, t)
    ensures VersionsGrow(r, t)
  {
  }

  lemma PublishSafe(st: State, k: Key, files: seq<F.FileHash>, force: bool, shadows: bool,
                    compiled: Option<Tree>, always: bool, fault: Fault)
    requires Agree(st) && Safe(st)
    ensures Safe(Publish(st, k, files, force, shadows, compiled, always, fault).0)
  {
    PublishShape(st, k, files, force, shadows, compiled, always, fault);
    FreshStagedSafe(st, Publish(st, k, files, force, shadows, compiled, always, fault).0, k);
  }

  /** A fresh version number is above the current one, so Promote will check it. */
  lemma FreshStagedSafe(st: State, st': State, k: Key)
    requires Agree(st) && Safe(st) && st'.log == st.log && VersionsGrow(st.store, st'.store)
    requires forall j :: j != k ==> RowOf(st'.store, j) == RowOf(st.store, j)
    requires RowOf(st'.store, k).current == RowOf(st.store, k).current
    requires RowOf(st'.store, k).staged == RowOf(st.store, k).staged ||
             RowOf(st'.store, k).staged == Some(|VersionsOf(st.store, k)| + 1)
    ensures Safe(st')
  {
    forall j ensures SafeAt(st', j) {
      assert SafeAt(st, j) && AgreeAt(st, j);
      assert LogCompatible(st'.store, j, LogOf(st', j)) by { GrownLog(st.store, st'.store, j, LogOf(st, j)); }
    }
  }

  lemma GrownLog(s: Store, t: Store, k: Key, log: seq<nat>)
    requires VersionsGrow(s, t) && LogCompatible(s, k, log)
    ensures LogCompatible(t, k, log)
  {
    forall i, j | 0 <= i < j < |log| ensures CompatibleVersions(t, k, log[i], log[j]) {
      assert CompatibleVersions(s, k, log[i], log[j]);
    }
  }

  lemma PassesMeansCompatible(slot: Slot)
    requires slot.current.Some? && slot.staged.Some?
    requires C.Passes(TreeOf(slot.current), slot.staged.value.tree)
    ensures C.Compatible(slot.current.value.tree, slot.staged.value.tree)
  {
    C.CheckExact(slot.current.value.tree, slot.staged.value.tree);
  }

  /** What Promote makes current is compatible with what was current. */
  lemma PromotedIsCompatible(st: State, k: Key)
    requires AgreeAt(st, k) && SafeAt(st, k) && MayPromote(SlotOf(st.mem, k))
    requires RowOf(st.store, k).current.Some? && RowOf(st.store, k).staged.Some?
    ensures CompatibleVersions(st.store, k, RowOf(st.store, k).current.value, RowOf(st.store, k).staged.value)
  {
    var slot := SlotOf(st.mem, k);
    if slot.staged.value.version > slot.current.value.version {
      PassesMeansCompatible(slot);
    }
  }

  lemma LogExtends(s: Store, k: Key, log: seq<nat>, v: nat)
    requires LogCompatible(s, k, log)
    requires log != [] ==> CompatibleVersions(s, k, log[|log| - 1], v)
    ensures LogCompatible(s, k, log + [v])
  {
    var log' := log + [v];
    forall i, j | 0 <= i < j < |log'| ensures CompatibleVersions(s, k, log'[i], log'[j]) {
      if j == |log| && i < |log| - 1 {
        var last := log[|log| - 1];
        assert CompatibleVersions(s, k, log[i], last);
        C.CompatibleTransitive(VersionAt(s, k, log[i]).tree, VersionAt(s, k, last).tree, VersionAt(s, k, v).tree);
      }
    }
  }

  lemma PromoteSafe(st: State, ns: Id)
    requires Agree(st) && Safe(st) && ns in st.mem.spaces
    requires forall x :: x in st.mem.spaces[ns] ==> MayPromote(st.mem.spaces[ns][x])
    ensures Safe(PromoteAll(st, ns))
  {
    var st' := PromoteAll(st, ns);
    forall k ensures SafeAt(st', k) {
      assert SafeAt(st, k) && AgreeAt(st, k);
      var r, log := RowOf(st.store, k), LogOf(st, k);
      if k in st.store.rows && k.ns == ns && r.staged.Some? {
        assert MayPromote(SlotOf(st.mem, k));
        if r.current.Some? { PromotedIsCompatible(st, k); }
        LogExtends(st.store, k, log, r.staged.value);
        assert LogOf(st', k) == log + [r.staged.value];
        assert LogCompatible(st'.store, k, LogOf(st', k)) by { GrownLog(st.store, st'.store, k, LogOf(st', k)); }
      } else {
        assert LogOf(st', k) == log;
        SafeAfterGrowth(st, st', k);
      }
    }
  }

  lemma RollbackSafeHere(st: State, k: Key, v: nat, fault: Fault)
    requires AgreeAt(st, k) && SafeAt(st, k) && Rollback(st, k, v, false, fault).1 == Done
    ensures SafeAt(Rollback(st, k, v, false, fault).0, k)
  {
    var st' := Rollback(st, k, v, false, fault).0;
    GrownLog(st.store, st'.store, k, LogOf(st, k));
    if RowOf(st.store, k).current.Some? {
      PassesMeansCompatible(Slot(SlotOf(st.mem, k).current, Some(Snap(v, VersionAt(st.store, k, v).tree))));
    }
  }

  lemma RollbackSafe(st: State, k: Key, v: nat, fault: Fault)
    requires Agree(st) && Safe(st)
    ensures Safe(Rollback(st, k, v, false, fault).0)
  {
    var (st', o) := Rollback(st, k, v, false, fault);
    if o == Done {
      forall j ensures SafeAt(st', j) {
        assert SafeAt(st, j);
        if j == k {
          RollbackSafeHere(st, k, v, fault);
        } else {
          SafeAfterGrowth(st, st', j);
        }
      }
    }
  }

  /** The operations whose safety is promised: no forced rollback, and a restart only with nothing staged. */
  ghost predicate Admitted(st: State, op: Op) {
    && (op.RollbackOp? ==> !op.force)
    && (op.RestoreOp? ==> NothingStaged(st.store))
  }

  ghost predicate AdmittedRun(st: State, ops: seq<Op>) {
    ops == [] || (AdmittedRun(st, ops[..|ops| - 1]) && Admitted(Run(st, ops[..|ops| - 1]), ops[|ops| - 1]))
  }

  lemma RestoreKeeps(st: State)
    requires Agree(st) && Safe(st) && NothingStaged(st.store)
    ensures Agree(Restore(st).0) && Safe(Restore(st).0)
  {
    var st' := Restore(st).0;
    if H.Closed(st.store.parents) {
      forall k ensures RowValid(st.store, k) { assert AgreeAt(st, k); }
      RestoreExact(st);
    }
    forall k ensures SafeAt(st', k) { assert SafeAt(st, k); }
  }

  // ---------------------------------------------------------------------------
  // What discarding, re-parenting and creating mean for a caller
  // ---------------------------------------------------------------------------

  /** The namespace has nothing staged any more, what is current stays, and no other namespace changes. */
  lemma DiscardClears(st: State, ns: Id, fault: Fault)
    ensures var (st', o) := DiscardStaging(st, ns, fault);
            if fault != NoFault then o != Done && st' == st else
              && o == Done && st'.log == st.log && st'.store.versions == st.store.versions
              && st'.store.parents == st.store.parents && st'.mem.parents == st.mem.parents
              && (forall k: Key :: k.ns == ns ==> RowOf(st'.store, k) == Row(RowOf(st.store, k).current, None))
              && (forall k: Key :: k.ns == ns ==> SlotOf(st'.mem, k) == Slot(SlotOf(st.mem, k).current, None))
              && (forall k: Key :: k.ns != ns ==> RowOf(st'.store, k) == RowOf(st.store, k))
              && (forall k: Key :: k.ns != ns ==> SlotOf(st'.mem, k) == SlotOf(st.mem, k))
  {
  }

  /** Discarding undoes a publish or a rebase: where nothing was staged, rows and slots are as before. */
  lemma DiscardUndoesPublish(st: State, k: Key, files: seq<F.FileHash>, force: bool, shadows: bool,
                             compiled: Option<Tree>, always: bool, fault: Fault)
    requires Agree(st) && forall j: Key :: j.ns == k.ns ==> RowOf(st.store, j).staged.None?
    ensures var st1 := Publish(st, k, files, force, shadows, compiled, always, fault).0;
            var st2 := DiscardStaging(st1, k.ns, NoFault).0;
            && (forall j :: RowOf(st2.store, j) == RowOf(st.store, j) && SlotOf(st2.mem, j) == SlotOf(st.mem, j))
            && st2.log == st.log && VersionsGrow(st.store, st2.store)
  {
    var st1 := Publish(st, k, files, force, shadows, compiled, always, fault).0;
    PublishShape(st, k, files, force, shadows, compiled, always, fault);
    PublishSlots(st, k, files, force, shadows, compiled, always, fault);
    DiscardClears(st1, k.ns, NoFault);
    forall j ensures SlotOf(st.mem, j).staged == SnapOf(st.store, j, RowOf(st.store, j).staged) {
      assert AgreeAt(st, j);
    }
  }

  /** Publish keeps every current slot, and every slot of another schema. */
  lemma PublishSlots(st: State, k: Key, files: seq<F.FileHash>, force: bool, shadows: bool,
                     compiled: Option<Tree>, always: bool, fault: Fault)
    ensures SlotsStageOnly(st, Publish(st, k, files, force, shadows, compiled, always, fault).0, k)
  {
    EnsureShape(st, k);
    PublishEnds(st, k, files, force, shadows, compiled, always, fault);
    if compiled.Some? { WrittenShape(st, k, files, compiled.value); }
  }

  /** Parent column and memory pointer of the namespace, and of no other. */
  ghost predicate ParentsBecome(st: State, st': State, x: Id, parent: Option<Id>) {
    forall y ::
      && H.ParentOf(st'.store.parents, y) == (if y == x then parent else H.ParentOf(st.store.parents, y))
      && H.ParentOf(st'.mem.parents, y) == H.ParentOf(st'.store.parents, y)
  }

  /** Schemas do not notice a change of the hierarchy. */
  ghost predicate SchemasKept(st: State, st': State) {
    && st'.store.rows == st.store.rows && st'.store.versions == st.store.versions && st'.log == st.log
    && forall k :: SlotOf(st'.mem, k) == SlotOf(st.mem, k)
  }

  ghost predicate MayReparent(g: H.Parents, x: Id, parent: Option<Id>) {
    && x in g
    && (parent.Some? ==> parent.value in g && !H.ReachesWithin(g, parent.value, x, H.MAX_DEPTH))
  }

  /**
   Re-parenting is done exactly when both namespaces exist and the walk over 64 ancestors of the
   new parent does not meet the namespace.  Then column and pointer change together; else nothing does.
   */
  lemma ReparentExact(st: State, x: Id, parent: Option<Id>, fault: Fault)
    requires ParentsAgree(st) && H.Closed(st.store.parents)
    ensures var (st', o) := SetNamespaceParent(st, x, parent, fault);
            && (o == Done <==> fault == NoFault && MayReparent(st.store.parents, x, parent))
            && (o == Done ==> ParentsBecome(st, st', x, parent) && SchemasKept(st, st') && H.Closed(st'.store.parents))
            && (o != Done ==> st' == st)
  {
    ReparentAllowed(st.store.parents, x, parent);
    if fault == NoFault && MayReparent(st.store.parents, x, parent) { Reparented(st, x, parent); }
  }

  lemma ReparentAllowed(g: H.Parents, x: Id, parent: Option<Id>)
    requires H.Closed(g)
    ensures H.SetParent(g, x, parent).1 == H.Ok <==> MayReparent(g, x, parent)
    ensures H.SetParent(g, x, parent) == if MayReparent(g, x, parent) then (g[x := parent], H.Ok)
                                         else (g, H.SetParent(g, x, parent).1)
  {
    if parent.Some? && parent.value in g {
      H.RowsAreAncestors(g, parent.value, H.MAX_DEPTH, x);
      assert H.Ancestor(g, parent.value, 0) == parent;
    }
  }

  lemma Reparented(st: State, x: Id, parent: Option<Id>)
    requires ParentsAgree(st) && H.Closed(st.store.parents) && MayReparent(st.store.parents, x, parent)
    ensures var st' := SetNamespaceParent(st, x, parent, NoFault).0;
            ParentsBecome(st, st', x, parent) && SchemasKept(st, st') && H.Closed(st'.store.parents)
  {
    ReparentAllowed(st.store.parents, x, parent);
    forall y ensures H.ParentOf(st.mem.parents, y) == H.ParentOf(st.store.parents, y) { }
  }

  /**
   A name that is taken, or a failed first write, changes nothing.  Otherwise the namespace exists
   afterwards, with its parent exactly when that is another namespace and can be written; when it
   cannot, the namespace stays behind without a parent.
   */
  lemma CreateExact(st: State, x: Id, parent: Option<Id>, fault: Fault)
    requires ParentsAgree(st) && H.Closed(st.store.parents)
    ensures var (st', o) := CreateNamespace(st, x, parent, fault);
            if x in st.store.parents || fault == BeforeWrite then o != Done && st' == st else
              && x in st'.store.parents && x in st'.mem.spaces && SchemasKept(st, st') && H.Closed(st'.store.parents)
              && (o == Done <==> parent.None? || (fault == NoFault && parent.value in st.store.parents))
              && ParentsBecome(st, st', x, if o == Done then parent else None)
  {
    if x !in st.store.parents && fault != BeforeWrite {
      var s1 := st.(store := st.store.(parents := st.store.parents[x := None]), mem := GetOrCreate(st.mem, x));
      CreatedAlone(st, x, s1);
      if parent.Some? {
        ReparentExact(s1, x, parent, fault);
        NewMayReparent(st.store.parents, x, parent.value);
      }
    }
  }

  lemma CreatedAlone(st: State, x: Id, s1: State)
    requires ParentsAgree(st) && H.Closed(st.store.parents) && x !in st.store.parents
    requires s1 == st.(store := st.store.(parents := st.store.parents[x := None]), mem := GetOrCreate(st.mem, x))
    ensures ParentsAgree(s1) && H.Closed(s1.store.parents) && SchemasKept(st, s1) && ParentsBecome(st, s1, x, None)
  {
    assert H.ParentOf(st.mem.parents, x) == None;
    forall y ensures H.ParentOf(s1.mem.parents, y) == H.ParentOf(s1.store.parents, y) {
      assert H.ParentOf(st.mem.parents, y) == H.ParentOf(st.store.parents, y);
    }
  }

  /** A namespace that was just created is no ancestor of an older one, but it is one of itself. */
  lemma NewMayReparent(g: H.Parents, x: Id, p: Id)
    requires H.Closed(g) && x !in g
    ensures MayReparent(g[x := None], x, Some(p)) <==> p in g
  {
    assert H.Ancestor(g[x := None], x, 0) == Some(x);
    if p in g { H.NewIsNoAncestor(g, x, p, H.MAX_DEPTH); }
  }

  lemma OtherOpsSafe(st: State, st': State)
    requires Safe(st) && st'.log == st.log && st'.store.versions == st.store.versions
    requires forall k :: RowOf(st'.store, k).current == RowOf(st.store, k).current
    requires forall k :: RowOf(st'.store, k).staged == RowOf(st.store, k).staged || RowOf(st'.store, k).staged.None?
    ensures Safe(st')
  {
    forall k ensures SafeAt(st', k) {
      assert SafeAt(st, k);
      SafeAfterGrowth(st, st', k);
    }
  }

  /** Store and memory agree, the logs are compatible and every parent is a namespace. */
  ghost predicate Healthy(st: State) {
    Agree(st) && Safe(st) && H.Closed(st.store.parents)
  }

  lemma StepKeeps(st: State, op: Op)
    requires Healthy(st) && Admitted(st, op)
    ensures Healthy(Step(st, op).0)
  {
    StepKeepsClosed(st, op);
    StepKeepsSafe(st, op);
  }

  lemma StepKeepsClosed(st: State, op: Op)
    requires H.Closed(st.store.parents)
    ensures H.Closed(Step(st, op).0.store.parents)
  {
    match op
    case PublishOp(k, files, force, shadows, compiled, fault) =>
      PublishClosed(st, k, files, force, shadows, compiled, false, fault);
    case RebaseOp(k, shadows, compiled, fault) =>
      RebaseClosed(st, k, shadows, compiled, fault);
    case SetParentOp(x, p, fault) => ReparentClosed(st, x, p, fault);
    case CreateOp(x, p, fault) => CreateClosed(st, x, p, fault);
    case _ => assert Step(st, op).0.store.parents == st.store.parents;
  }

  lemma ReparentClosed(st: State, x: Id, p: Option<Id>, fault: Fault)
    requires H.Closed(st.store.parents)
    ensures H.Closed(SetNamespaceParent(st, x, p, fault).0.store.parents)
  {
  }

  lemma CreateClosed(st: State, x: Id, p: Option<Id>, fault: Fault)
    requires H.Closed(st.store.parents)
    ensures H.Closed(CreateNamespace(st, x, p, fault).0.store.parents)
  {
    if x !in st.store.parents && p.Some? {
      ReparentClosed(CreateNamespace(st, x, None, fault).0, x, p, fault);
    }
  }

  lemma PublishClosed(st: State, k: Key, files: seq<F.FileHash>, force: bool, shadows: bool,
                      compiled: Option<Tree>, always: bool, fault: Fault)
    requires H.Closed(st.store.parents)
    ensures H.Closed(Publish(st, k, files, force, shadows, compiled, always, fault).0.store.parents)
  {
    PublishParents(st, k, files, force, shadows, compiled, always, fault);
  }

  lemma RebaseClosed(st: State, k: Key, shadows: bool, compiled: Option<Tree>, fault: Fault)
    requires H.Closed(st.store.parents)
    ensures H.Closed(Rebase(st, k, shadows, compiled, fault).0.store.parents)
  {
    if k.ns in st.mem.spaces && SlotOf(st.mem, k).current.Some? {
      var files := FilesAt(st.store, k, SlotOf(st.mem, k).current.value.version);
      PublishClosed(st, k, files, false, shadows, compiled, true, fault);
    }
  }

  lemma PublishParents(st: State, k: Key, files: seq<F.FileHash>, force: bool, shadows: bool,
                       compiled: Option<Tree>, always: bool, fault: Fault)
    ensures var g := Publish(st, k, files, force, shadows, compiled, always, fault).0.store.parents;
            g == st.store.parents || g == EnsureNamespaceAndSchema(st, k).store.parents
  {
  }

  lemma StepKeepsSafe(st: State, op: Op)
    requires Agree(st) && Safe(st) && Admitted(st, op)
    ensures Agree(Step(st, op).0) && Safe(Step(st, op).0)
  {
    match op
    case PublishOp(k, files, force, shadows, compiled, fault) =>
      PublishKeeps(st, k, files, force, shadows, compiled, false, fault);
    case RebaseOp(k, shadows, compiled, fault) => RebaseKeeps(st, k, shadows, compiled, fault);
    case PromoteOp(ns, fault) => PromoteKeeps(st, ns, fault);
    case DiscardOp(ns, fault) => DiscardKeeps(st, ns, fault);
    case RollbackOp(k, v, _, fault) => RollbackKeeps(st, k, v, fault);
    case SetParentOp(x, p, fault) => ReparentKeeps(st, x, p, fault);
    case CreateOp(x, p, fault) => CreateKeeps(st, x, p, fault);
    case RestoreOp => RestoreKeeps(st);
  }

  lemma PublishKeeps(st: State, k: Key, files: seq<F.FileHash>, force: bool, shadows: bool,
                     compiled: Option<Tree>, always: bool, fault: Fault)
    requires Agree(st) && Safe(st)
    ensures var st' := Publish(st, k, files, force, shadows, compiled, always, fault).0;
            Agree(st') && Safe(st')
  {
    PublishAgrees(st, k, files, force, shadows, compiled, always, fault);
    PublishSafe(st, k, files, force, shadows, compiled, always, fault);
  }

  lemma RebaseKeeps(st: State, k: Key, shadows: bool, compiled: Option<Tree>, fault: Fault)
    requires Agree(st) && Safe(st)
    ensures Agree(Rebase(st, k, shadows, compiled, fault).0) && Safe(Rebase(st, k, shadows, compiled, fault).0)
  {
    if k.ns in st.mem.spaces && SlotOf(st.mem, k).current.Some? {
      var files := FilesAt(st.store, k, SlotOf(st.mem, k).current.value.version);
      PublishKeeps(st, k, files, false, shadows, compiled, true, fault);
    }
  }

  lemma PromoteKeeps(st: State, ns: Id, fault: Fault)
    requires Agree(st) && Safe(st)
    ensures Agree(Promote(st, ns, fault).0) && Safe(Promote(st, ns, fault).0)
  {
    if Promote(st, ns, fault).1 == Done {
      PromoteAgrees(st, ns);
      PromoteSafe(st, ns);
    }
  }

  lemma DiscardKeeps(st: State, ns: Id, fault: Fault)
    requires Agree(st) && Safe(st)
    ensures Agree(DiscardStaging(st, ns, fault).0) && Safe(DiscardStaging(st, ns, fault).0)
  {
    DiscardAgrees(st, ns, fault);
    OtherOpsSafe(st, DiscardStaging(st, ns, fault).0);
  }

  lemma ReparentKeeps(st: State, x: Id, p: Option<Id>, fault: Fault)
    requires Agree(st) && Safe(st)
    ensures Agree(SetNamespaceParent(st, x, p, fault).0) && Safe(SetNamespaceParent(st, x, p, fault).0)
  {
    SetParentAgrees(st, x, p, fault);
    OtherOpsSafe(st, SetNamespaceParent(st, x, p, fault).0);
  }

  lemma CreateKeeps(st: State, x: Id, p: Option<Id>, fault: Fault)
    requires Agree(st) && Safe(st)
    ensures Agree(CreateNamespace(st, x, p, fault).0) && Safe(CreateNamespace(st, x, p, fault).0)
  {
    CreateAgrees(st, x, p, fault);
    OtherOpsSafe(st, CreateNamespace(st, x, p, fault).0);
  }

  lemma RollbackKeeps(st: State, k: Key, v: nat, fault: Fault)
    requires Agree(st) && Safe(st)
    ensures Agree(Rollback(st, k, v, false, fault).0) && Safe(Rollback(st, k, v, false, fault).0)
  {
    RollbackSafe(st, k, v, fault);
    if Rollback(st, k, v, false, fault).1 == Done {
      StageAgrees(st, k, Snap(v, VersionAt(st.store, k, v).tree));
    }
  }

  /** Over every admitted run from a healthy state, store and memory agree and the logs stay compatible. */
  lemma {:induction false} RunKeeps(st: State, ops: seq<Op>)
    requires Healthy(st) && AdmittedRun(st, ops)
    ensures Healthy(Run(st, ops))
    decreases |ops|
  {
    if ops != [] {
      RunKeeps(st, ops[..|ops| - 1]);
      StepKeeps(Run(st, ops[..|ops| - 1]), ops[|ops| - 1]);
    }
  }

  /** A log that starts with the versions that are current now. */
  function CurrentOnly(s: Store): map<Key, seq<nat>> {
    map k | k in s.rows && s.rows[k].current.Some? :: [s.rows[k].current.value]
  }

  /** How a process starts on a store that has a past: memory from Restore, the log from now on. */
  function Boot(s: Store): State {
    Restore(State(s, Memory(map[], map[]), CurrentOnly(s))).0
  }

  /**
   A valid store with nothing staged boots into a healthy state, whatever its past was: forced
   rollbacks, and current versions that broke compatibility, included.
   */
  lemma BootHealthy(s: Store)
    requires (forall k :: RowValid(s, k)) && H.Closed(s.parents) && NothingStaged(s)
    ensures Healthy(Boot(s)) && Boot(s).store == s
  {
    var st := State(s, Memory(map[], map[]), CurrentOnly(s));
    RestoreExact(st);
    forall k ensures SafeAt(Boot(s), k) { assert RowValid(s, k); }
  }

  /** The empty registry is such a start. */
  lemma FreshHealthy()
    ensures Boot(Fresh.store) == Fresh && Healthy(Fresh)
  {
    BootHealthy(Fresh.store);
    assert CurrentOnly(Fresh.store) == map[];
  }

  /**
   In every run of Publish, Rebase, Promote, DiscardStaging, unforced Rollback, re-parenting,
   namespace creation and restarts with nothing staged, failing store calls included, from any
   healthy state: each version that became current is backward compatible with every version that
   was current before it.
   */
  lemma CurrentVersionsCompatible(st: State, ops: seq<Op>, k: Key, i: nat, j: nat)
    requires Healthy(st) && AdmittedRun(st, ops) && i < j < |LogOf(Run(st, ops), k)|
    ensures var st' := Run(st, ops);
            CompatibleVersions(st'.store, k, LogOf(st', k)[i], LogOf(st', k)[j])
  {
    RunKeeps(st, ops);
    assert SafeAt(Run(st, ops), k);
  }

  /** For a process that started on a store with a past, the version then current counts as the first. */
  lemma CurrentSinceBoot(s: Store, ops: seq<Op>, k: Key)
    requires (forall j :: RowValid(s, j)) && H.Closed(s.parents) && NothingStaged(s) && AdmittedRun(Boot(s), ops)
    requires RowOf(s, k).current.Some?
    ensures var st := Run(Boot(s), ops);
            RowOf(st.store, k).current.Some? &&
            (RowOf(st.store, k).current == RowOf(s, k).current ||
             CompatibleVersions(st.store, k, RowOf(s, k).current.value, RowOf(st.store, k).current.value))
  {
    BootHealthy(s);
    RunKeeps(Boot(s), ops);
    LogKeepsStart(Boot(s), ops, k);
    var st := Run(Boot(s), ops);
    assert SafeAt(st, k);
    assert LogOf(Boot(s), k) == [RowOf(s, k).current.value];
    assert LogOf(st, k)[0] == LogOf(Boot(s), k)[0];
  }

  /** The log only grows. */
  lemma {:induction false} LogKeepsStart(st: State, ops: seq<Op>, k: Key)
    ensures LogOf(st, k) <= LogOf(Run(st, ops), k)
    decreases |ops|
  {
    if ops != [] {
      LogKeepsStart(st, ops[..|ops| - 1], k);
      LogGrows(Run(st, ops[..|ops| - 1]), ops[|ops| - 1], k);
    }
  }

  lemma LogGrows(st: State, op: Op, k: Key)
    ensures LogOf(st, k) <= LogOf(Step(st, op).0, k)
  {
    match op
    case PublishOp(j, files, force, shadows, compiled, fault) =>
      PublishShape(st, j, files, force, shadows, compiled, false, fault);
    case RebaseOp(j, shadows, compiled, fault) =>
      if j.ns in st.mem.spaces && SlotOf(st.mem, j).current.Some? {
        var files := FilesAt(st.store, j, SlotOf(st.mem, j).current.value.version);
        PublishShape(st, j, files, false, shadows, compiled, true, fault);
      }
    case PromoteOp(_, _) =>
    case _ =>
  }

  // ---------------------------------------------------------------------------
  // Promotion is all or nothing, one namespace at a time
  // ---------------------------------------------------------------------------

  /** Promote moves every staged version of the namespace to current, or changes nothing at all. */
  lemma PromoteAtomic(st: State, ns: Id, fault: Fault)
    requires Agree(st)
    ensures var (st', o) := Promote(st, ns, fault);
            if o != Done then st' == st else
              && (forall k: Key :: k.ns != ns ==>
                  RowOf(st'.store, k) == RowOf(st.store, k) && SlotOf(st'.mem, k) == SlotOf(st.mem, k))
              && (forall k: Key :: k.ns == ns ==> RowOf(st'.store, k) == Row(Proposed(st.store, k), None))
              && (forall k: Key :: k.ns == ns ==> SlotOf(st'.mem, k) == Slot(ProposedSnap(st.mem, k), None))
  {
    var (st', o) := Promote(st, ns, fault);
    if o == Done {
      forall k: Key | k.ns == ns
        ensures RowOf(st'.store, k) == Row(Proposed(st.store, k), None)
        ensures SlotOf(st'.mem, k) == Slot(ProposedSnap(st.mem, k), None)
      {
        assert AgreeAt(st, k);
      }
    }
  }

  /** Every staged version that is newer than the current one, if there is one, is compatible with it. */
  ghost predicate StagedCompatible(slots: map<Id, Slot>) {
    forall x :: x in slots && slots[x].staged.Some? && slots[x].current.Some? &&
                slots[x].staged.value.version > slots[x].current.value.version ==>
      C.Compatible(slots[x].current.value.tree, slots[x].staged.value.tree)
  }

  lemma MayPromoteExactly(slot: Slot)
    ensures MayPromote(slot) <==>
            (slot.staged.Some? && slot.current.Some? && slot.staged.value.version > slot.current.value.version ==>
              C.Compatible(slot.current.value.tree, slot.staged.value.tree))
  {
    if slot.staged.Some? && slot.current.Some? {
      C.CheckExact(slot.current.value.tree, slot.staged.value.tree);
    }
  }

  /** When Promote goes through, however many schemas are staged, and why it fails otherwise. */
  lemma PromoteExact(st: State, ns: Id, fault: Fault)
    ensures var o := Promote(st, ns, fault).1;
            && (o == Done <==> ns in st.mem.spaces && fault == NoFault && StagedCompatible(st.mem.spaces[ns]))
            && (o == Failed(NotFound) <==> ns !in st.mem.spaces)
            && (o == Failed(Incompatible) <==> ns in st.mem.spaces && !StagedCompatible(st.mem.spaces[ns]))
  {
    if ns in st.mem.spaces {
      forall x | x in st.mem.spaces[ns] { MayPromoteExactly(st.mem.spaces[ns][x]); }
    }
  }

  /**
   When Rollback goes through: the version is on record, no store call fails, and it is forced, or
   nothing is current, or the version is compatible with the current one.
   */
  lemma RollbackExact(st: State, k: Key, v: nat, force: bool, fault: Fault)
    ensures var o := Rollback(st, k, v, force, fault).1;
            var current := SlotOf(st.mem, k).current;
            && (o == Failed(NotFound) <==> !HasVersion(st.store, k, v))
            && (o == Done <==> HasVersion(st.store, k, v) && fault == NoFault &&
                               (force || current.None? ||
                                C.Compatible(current.value.tree, VersionAt(st.store, k, v).tree)))
  {
    var current := SlotOf(st.mem, k).current;
    if HasVersion(st.store, k, v) && current.Some? {
      C.CheckExact(current.value.tree, VersionAt(st.store, k, v).tree);
    }
  }

  /** ProposedView: staged where there is one, current otherwise. */
  function ProposedSnap(m: Memory, k: Key): Option<Snap> {
    if SlotOf(m, k).staged.Some? then SlotOf(m, k).staged else SlotOf(m, k).current
  }

  /** The proposed view in memory is the proposed state the store loads. */
  lemma ProposedAgrees(st: State, ops: seq<Op>, k: Key)
    requires Healthy(st) && AdmittedRun(st, ops)
    ensures var st' := Run(st, ops);
            ProposedSnap(st'.mem, k) == SnapOf(st'.store, k, Proposed(st'.store, k))
  {
    RunKeeps(st, ops);
    assert AgreeAt(Run(st, ops), k);
  }

  // ---------------------------------------------------------------------------
  // A restart with something staged
  // ---------------------------------------------------------------------------

  /**
   After a restart Promote checks nothing, for no staged version is in memory, and yet the store
   promotes every staged row: whatever was staged becomes current in the store, compatible or
   not, while the memory keeps serving the former version.
   */
  lemma RestartSkipsTheCheck(st: State, k: Key)
    requires Agree(st) && H.Closed(st.store.parents) && k.ns in st.store.parents
    requires k in st.store.rows && st.store.rows[k].staged.Some?
    ensures var st1 := Restore(st).0;
            var (st2, o) := Promote(st1, k.ns, NoFault);
            && o == Done
            && RowOf(st2.store, k).current == RowOf(st.store, k).staged
            && SlotOf(st2.mem, k).current == SlotOf(st.mem, k).current
  {
    var st1 := Restore(st).0;
    forall x | x in st1.mem.spaces[k.ns] ensures st1.mem.spaces[k.ns][x].staged.None? {
      assert AgreeAt(st, Key(k.ns, x));
      RestoredSlot(st, Key(k.ns, x));
    }
    assert AgreeAt(st, k);
    RestoredSlot(st, k);
  }
}
