/**
 Per-import pins and rebasing: a published version pins the current versions of everything its
 ancestors offered, and the rebase status compares those pins with what is current now.
 */
module Pins {
  import opened Descriptors
  import opened Lifecycle
  import H = Hierarchy
  import F = Fingerprint

  datatype PinStatus = PinStatus(dep: Dep, now: nat)

  /** The version that is current now, 0 if there is none. */
  function CurrentNumber(s: Store, k: Key): nat {
    var c := RowOf(s, k).current;
    if c.Some? then c.value else 0
  }

  function PinsAt(s: Store, k: Key, v: nat): set<Dep> {
    if HasVersion(s, k, v) then set d | d in VersionAt(s, k, v).deps && d.ns != k.ns else {}
  }

  /** RebaseAvailable of GetRebaseStatus: some pin is behind. */
  ghost predicate RebaseAvailable(s: Store, k: Key, v: nat) {
    exists d :: d in PinsAt(s, k, v) && CurrentNumber(s, Key(d.ns, d.schema)) > d.version
  }

  /** RebaseAvailable of a schema, read from the version that is current in memory. */
  ghost predicate Available(st: State, k: Key) {
    var cur := SlotOf(st.mem, k).current;
    cur.Some? && RebaseAvailable(st.store, k, cur.value.version)
  }

  datatype RebaseStatus = NoNamespace | NoCurrentVersion | Status(pins: set<PinStatus>, available: bool)

  /** One entry per cross-namespace pin of the current version, and whether any of them is behind. */
  method GetRebaseStatus(st: State, k: Key) returns (r: RebaseStatus)
    ensures r.NoNamespace? <==> k.ns !in st.mem.spaces
    ensures r.NoCurrentVersion? <==> k.ns in st.mem.spaces && SlotOf(st.mem, k).current.None?
    ensures r.Status? ==> (r.available <==> Available(st, k))
    ensures r.Status? ==>
              r.pins == set d | d in PinsAt(st.store, k, SlotOf(st.mem, k).current.value.version) ::
                          PinStatus(d, CurrentNumber(st.store, Key(d.ns, d.schema)))
  {
    if k.ns !in st.mem.spaces { return NoNamespace; }
    var cur := SlotOf(st.mem, k).current;
    if cur.None? { return NoCurrentVersion; }
    var pins, available := ComparePins(st.store, k, cur.value.version);
    return Status(pins, available);
  }

  method ComparePins(s: Store, k: Key, v: nat) returns (statuses: set<PinStatus>, available: bool)
    ensures statuses == set d | d in PinsAt(s, k, v) :: PinStatus(d, CurrentNumber(s, Key(d.ns, d.schema)))
    ensures available <==> RebaseAvailable(s, k, v)
  {
    statuses, available := {}, false;
    ghost var done := {};
    var deps := if HasVersion(s, k, v) then VersionAt(s, k, v).deps else {};
    while deps != {}
      invariant PinsAt(s, k, v) == done + set d | d in deps && d.ns != k.ns
      invariant statuses == set d | d in done :: PinStatus(d, CurrentNumber(s, Key(d.ns, d.schema)))
      invariant available <==> exists d :: d in done && CurrentNumber(s, Key(d.ns, d.schema)) > d.version
      decreases deps
    {
      var d :| d in deps;
      deps := deps - {d};
      if d.ns == k.ns { continue; }
      var now := CurrentNumber(s, Key(d.ns, d.schema));
      if now > d.version { available := true; }
      statuses := statuses + {PinStatus(d, now)};
      done := done + {d};
    }
  }

  /** Every cross-namespace pin of version `v` is the version that is current. */
  ghost predicate PinsCurrent(s: Store, k: Key, v: nat) {
    forall d :: d in PinsAt(s, k, v) ==> RowOf(s, Key(d.ns, d.schema)).current == Some(d.version)
  }

  lemma CurrentPinsNeedNoRebase(s: Store, k: Key, v: nat)
    requires PinsCurrent(s, k, v)
    ensures !RebaseAvailable(s, k, v)
  {
  }

  lemma TierDepsAreCurrent(s: Store, ancestors: seq<Id>, d: Dep)
    requires d in TierDeps(s, ancestors)
    ensures d.ns in ancestors && RowOf(s, Key(d.ns, d.schema)).current == Some(d.version)
  {
  }

  /** The version of the schema has a file of that name. */
  ghost predicate HasFile(s: Store, k: Key, v: nat, name: string) {
    HasVersion(s, k, v) && exists f :: f in VersionAt(s, k, v).files && f.filename == name
  }

  ghost predicate Above(g: H.Parents, x: Id, y: Id) {
    exists i :: 0 < i < H.MAX_DEPTH && H.Ancestor(g, x, i) == Some(y)
  }

  /** A file of what is current in an ancestor, which is at most 63 levels up. */
  ghost predicate Inherited(st: State, k: Key, d: Dep) {
    && Above(st.mem.parents, k.ns, d.ns)
    && RowOf(st.store, Key(d.ns, d.schema)).current == Some(d.version)
    && HasFile(st.store, Key(d.ns, d.schema), d.version, d.filename)
  }

  /** A file of what another schema of the namespace has staged, or else has current. */
  ghost predicate Neighbouring(s: Store, k: Key, d: Dep) {
    var r := RowOf(s, Key(d.ns, d.schema));
    && d.ns == k.ns && d.schema != k.schema
    && (r.staged == Some(d.version) || (r.staged.None? && r.current == Some(d.version)))
    && HasFile(s, Key(d.ns, d.schema), d.version, d.filename)
  }

  lemma NamespaceDepsExact(s: Store, k: Key, d: Dep)
    ensures d in NamespaceDeps(s, k) <==> Neighbouring(s, k, d)
  {
    if Neighbouring(s, k, d) {
      var j := Key(d.ns, d.schema);
      var f :| f in VersionAt(s, j, d.version).files && f.filename == d.filename;
      assert j in s.rows && Proposed(s, j) == Some(d.version);
    }
  }

  lemma TierDepsExact(s: Store, ancestors: seq<Id>, d: Dep)
    ensures d in TierDeps(s, ancestors) <==>
            d.ns in ancestors && RowOf(s, Key(d.ns, d.schema)).current == Some(d.version) &&
            HasFile(s, Key(d.ns, d.schema), d.version, d.filename)
  {
    var j := Key(d.ns, d.schema);
    if d.ns in ancestors && RowOf(s, j).current == Some(d.version) && HasFile(s, j, d.version, d.filename) {
      var f :| f in VersionAt(s, j, d.version).files && f.filename == d.filename;
      assert j in s.rows;
    }
  }

  lemma AncestorsExact(m: Memory, ns: Id, y: Id)
    ensures y in Ancestors(m, ns) <==>
            y != ns && Above(m.parents, ns, y)
  {
    var chain := H.Chain(m.parents, ns);
    H.ChainExact(m.parents, ns);
    H.ChainMembers(m.parents, ns, y);
    assert H.Ancestor(m.parents, ns, 0) == Some(ns);
    if y != ns && y in chain {
      var i :| 0 <= i < |chain| && chain[i] == y;
      assert chain[1..][i - 1] == y;
    }
    if y in Ancestors(m, ns) {
      var i :| 0 <= i < |chain[1..]| && chain[1..][i] == y;
      assert chain[i + 1] == y && H.Ancestor(m.parents, ns, i + 1) == Some(y);
      assert chain[0] != chain[i + 1];
    }
  }

  lemma DepsExact(st: State, k: Key, d: Dep)
    ensures d in Deps(st, k) <==> Neighbouring(st.store, k, d) || (d.ns != k.ns && Inherited(st, k, d))
  {
    NamespaceDepsExact(st.store, k, d);
    TierDepsExact(st.store, Ancestors(st.mem, k.ns), d);
    AncestorsExact(st.mem, k.ns, d.ns);
  }

  /**
   What a published version records: every file that the other schemas of the namespace propose, every
   file that is current in an ancestor, and nothing else.
   */
  lemma PublishPinsExact(st: State, k: Key, files: seq<F.FileHash>, force: bool, shadows: bool,
                         compiled: Option<Tree>, always: bool, fault: Fault, d: Dep)
    requires Publish(st, k, files, force, shadows, compiled, always, fault).1.Published?
    ensures var (st', o) := Publish(st, k, files, force, shadows, compiled, always, fault);
            && HasVersion(st'.store, k, o.version)
            && (d in VersionAt(st'.store, k, o.version).deps <==>
                Neighbouring(st.store, k, d) || (d.ns != k.ns && Inherited(st, k, d)))
  {
    var s1 := EnsureNamespaceAndSchema(st, k);
    var (st', o) := Publish(st, k, files, force, shadows, compiled, always, fault);
    assert VersionAt(st'.store, k, o.version).deps == Deps(s1, k);
    DepsExact(s1, k, d);
    SameOffers(st, s1, k, d);
  }

  /** The outcomes of a Publish, each with its exact condition. */
  lemma PublishExact(st: State, k: Key, files: seq<F.FileHash>, force: bool, shadows: bool,
                     compiled: Option<Tree>, always: bool, fault: Fault)
    ensures var o := Publish(st, k, files, force, shadows, compiled, always, fault).1;
            var compiles := files != [] && (force || !shadows) && compiled.Some?;
            var writes := compiles && (always || !Unchanged(st.store, k, files));
            && (o == Failed(NoSources) <==> files == [])
            && (o == Failed(ShadowsWellKnown) <==> files != [] && shadows && !force)
            && (o == Failed(CompileFailed) <==> files != [] && (force || !shadows) && compiled.None?)
            && (o == NoChange <==> compiles && !writes)
            && (o == Failed(StoreFailed) <==> writes && fault != NoFault)
            && (o == Published(|VersionsOf(st.store, k)| + 1) <==> writes && fault == NoFault)
  {
    EnsureShape(st, k);
    assert Unchanged(EnsureNamespaceAndSchema(st, k).store, k, files) == Unchanged(st.store, k, files);
  }

  /** What a Publish that goes through records and stages. */
  lemma PublishRecords(st: State, k: Key, files: seq<F.FileHash>, force: bool, shadows: bool,
                       compiled: Option<Tree>, always: bool, fault: Fault)
    requires Publish(st, k, files, force, shadows, compiled, always, fault).1.Published?
    ensures var (st', o) := Publish(st, k, files, force, shadows, compiled, always, fault);
            var v := |VersionsOf(st.store, k)| + 1;
            && compiled.Some? && o == Published(v) && |VersionsOf(st'.store, k)| == v
            && (forall w :: HasVersion(st.store, k, w) ==> VersionAt(st'.store, k, w) == VersionAt(st.store, k, w))
            && VersionAt(st'.store, k, v).tree == compiled.value && VersionAt(st'.store, k, v).files == files
            && RowOf(st'.store, k).staged == Some(v)
            && SlotOf(st'.mem, k).staged == Some(Snap(v, compiled.value))
  {
    EnsureShape(st, k);
  }

  /** Rebase is refused without the namespace or a current version; else it publishes the current files again. */
  lemma RebaseExact(st: State, k: Key, shadows: bool, compiled: Option<Tree>, fault: Fault)
    ensures var (st', o) := Rebase(st, k, shadows, compiled, fault);
            var current := SlotOf(st.mem, k).current;
            && (o == Failed(NotFound) <==> k.ns !in st.mem.spaces)
            && (o == Failed(NoCurrent) <==> k.ns in st.mem.spaces && current.None?)
            && (o != Failed(NotFound) && o != Failed(NoCurrent) ==>
                current.Some? && o != NoChange &&
                (o.Published? ==> (
                  && HasVersion(st'.store, k, o.version)
                  && VersionAt(st'.store, k, o.version).files == FilesAt(st.store, k, current.value.version))))
  {
    if k.ns in st.mem.spaces && SlotOf(st.mem, k).current.Some? {
      var files := FilesAt(st.store, k, SlotOf(st.mem, k).current.value.version);
      PublishExact(st, k, files, false, shadows, compiled, true, fault);
      if Publish(st, k, files, false, shadows, compiled, true, fault).1.Published? {
        PublishRecords(st, k, files, false, shadows, compiled, true, fault);
      }
    }
  }

  lemma SameOffers(st: State, s1: State, k: Key, d: Dep)
    requires s1 == EnsureNamespaceAndSchema(st, k)
    ensures Neighbouring(s1.store, k, d) <==> Neighbouring(st.store, k, d)
    ensures Inherited(s1, k, d) <==> Inherited(st, k, d)
  {
    EnsureShape(st, k);
  }

  /** A freshly published or rebased version pins nothing but what is current. */
  lemma PublishPinsCurrent(st: State, k: Key, files: seq<F.FileHash>, force: bool, shadows: bool,
                           compiled: Option<Tree>, always: bool, fault: Fault)
    requires Publish(st, k, files, force, shadows, compiled, always, fault).1.Published?
    ensures var (st', o) := Publish(st, k, files, force, shadows, compiled, always, fault);
            HasVersion(st'.store, k, o.version) && PinsCurrent(st'.store, k, o.version)
  {
    var (st', o) := Publish(st, k, files, force, shadows, compiled, always, fault);
    var s1 := EnsureNamespaceAndSchema(st, k);
    assert VersionAt(st'.store, k, o.version).deps == Deps(s1, k);
    forall d | d in PinsAt(st'.store, k, o.version)
      ensures RowOf(st'.store, Key(d.ns, d.schema)).current == Some(d.version)
    {
      assert d !in NamespaceDeps(s1.store, k);
      TierDepsAreCurrent(s1.store, Ancestors(s1.mem, k.ns), d);
    }
  }

  /** The pins of `v` reach into this namespace. */
  ghost predicate PinsInto(s: Store, k: Key, v: nat, ns: Id) {
    exists d :: d in PinsAt(s, k, v) && d.ns == ns
  }

  /** No step but Promote changes what is current. */
  lemma CurrentMovesOnlyByPromote(st: State, op: Op, j: Key)
    requires !(op.PromoteOp? && op.ns == j.ns)
    ensures RowOf(Step(st, op).0.store, j).current == RowOf(st.store, j).current
  {
    match op
    case PublishOp(k, files, force, shadows, compiled, fault) =>
      PublishShape(st, k, files, force, shadows, compiled, false, fault);
    case RebaseOp(k, shadows, compiled, fault) => RebaseShape(st, k, shadows, compiled, fault);
    case PromoteOp(_, _) =>
    case DiscardOp(_, _) =>
    case RollbackOp(_, _, _, _) =>
    case SetParentOp(_, _, _) =>
    case CreateOp(_, _, _) =>
    case RestoreOp =>
  }

  /** Versions on record are never rewritten. */
  lemma StepGrows(st: State, op: Op)
    ensures VersionsGrow(st.store, Step(st, op).0.store)
  {
    match op
    case PublishOp(k, files, force, shadows, compiled, fault) =>
      PublishShape(st, k, files, force, shadows, compiled, false, fault);
    case RebaseOp(k, shadows, compiled, fault) => RebaseShape(st, k, shadows, compiled, fault);
    case _ => assert Step(st, op).0.store.versions == st.store.versions;
  }

  lemma SamePins(s: Store, t: Store, k: Key, v: nat)
    requires VersionsGrow(s, t) && HasVersion(s, k, v)
    ensures PinsAt(t, k, v) == PinsAt(s, k, v)
  {
  }

  /** The run promotes none of the namespaces that version `v` pins. */
  ghost predicate QuietRun(st: State, k: Key, v: nat, ops: seq<Op>) {
    forall i :: 0 <= i < |ops| && ops[i].PromoteOp? ==> !PinsInto(st.store, k, v, ops[i].ns)
  }

  lemma {:induction false} QuietRunKeepsPins(st: State, k: Key, v: nat, ops: seq<Op>)
    requires HasVersion(st.store, k, v) && PinsCurrent(st.store, k, v) && QuietRun(st, k, v, ops)
    ensures var st' := Run(st, ops);
            HasVersion(st'.store, k, v) && PinsAt(st'.store, k, v) == PinsAt(st.store, k, v) &&
              PinsCurrent(st'.store, k, v)
    decreases ops
  {
    if ops != [] {
      var before, last := ops[..|ops| - 1], ops[|ops| - 1];
      assert QuietRun(st, k, v, before) by {
        forall i | 0 <= i < |before| && before[i].PromoteOp? ensures !PinsInto(st.store, k, v, before[i].ns) {
          assert before[i] == ops[i];
        }
      }
      QuietRunKeepsPins(st, k, v, before);
      var mid := Run(st, before);
      StepGrows(mid, last);
      SamePins(mid.store, Step(mid, last).0.store, k, v);
      forall d | d in PinsAt(st.store, k, v)
        ensures RowOf(Step(mid, last).0.store, Key(d.ns, d.schema)).current == Some(d.version)
      {
        if last.PromoteOp? {
          assert !PinsInto(st.store, k, v, ops[|ops| - 1].ns);
        }
        CurrentMovesOnlyByPromote(mid, last, Key(d.ns, d.schema));
      }
    }
  }

  /**
   After a successful Rebase, through every run that promotes none of the pinned namespaces, with
   any re-parenting in between: in whatever state the rebased version is current, every
   cross-namespace pin is the ancestor's current version and no rebase is available.
   */
  lemma RebasedIsUpToDate(st: State, k: Key, shadows: bool, compiled: Option<Tree>, fault: Fault, ops: seq<Op>, v: nat)
    requires Rebase(st, k, shadows, compiled, fault).1 == Published(v)
    requires QuietRun(Rebase(st, k, shadows, compiled, fault).0, k, v, ops)
    ensures var st' := Run(Rebase(st, k, shadows, compiled, fault).0, ops);
            && PinsCurrent(st'.store, k, v)
            && (SlotOf(st'.mem, k).current.Some? && SlotOf(st'.mem, k).current.value.version == v ==>
                !Available(st', k))
  {
    var files := FilesAt(st.store, k, SlotOf(st.mem, k).current.value.version);
    PublishPinsCurrent(st, k, files, false, shadows, compiled, true, fault);
    QuietRunKeepsPins(Rebase(st, k, shadows, compiled, fault).0, k, v, ops);
    CurrentPinsNeedNoRebase(Run(Rebase(st, k, shadows, compiled, fault).0, ops).store, k, v);
  }

  /** A Promote that follows the Rebase makes the rebased version current, and then no rebase is available. */
  lemma RebaseThenPromote(st: State, k: Key, shadows: bool, compiled: Option<Tree>, fault: Fault, v: nat)
    requires Agree(st) && Rebase(st, k, shadows, compiled, fault).1 == Published(v)
    requires Promote(Rebase(st, k, shadows, compiled, fault).0, k.ns, NoFault).1 == Done
    ensures var st' := Promote(Rebase(st, k, shadows, compiled, fault).0, k.ns, NoFault).0;
            && RowOf(st'.store, k).current == Some(v)
            && SlotOf(st'.mem, k).current.Some? && SlotOf(st'.mem, k).current.value.version == v
            && !Available(st', k)
  {
    var mid, op := Rebase(st, k, shadows, compiled, fault).0, PromoteOp(k.ns, NoFault);
    var files := FilesAt(st.store, k, SlotOf(st.mem, k).current.value.version);
    PublishAgrees(st, k, files, false, shadows, compiled, true, fault);
    PublishStages(st, k, files, false, shadows, compiled, true, fault);
    assert AgreeAt(mid, k);
    assert [op][..0] == [];
    assert Run(mid, [op]) == Promote(mid, k.ns, NoFault).0;
    RebasedIsUpToDate(st, k, shadows, compiled, fault, [op], v);
  }

  lemma PublishStages(st: State, k: Key, files: seq<F.FileHash>, force: bool, shadows: bool,
                      compiled: Option<Tree>, always: bool, fault: Fault)
    requires Publish(st, k, files, force, shadows, compiled, always, fault).1.Published?
    ensures var (st', o) := Publish(st, k, files, force, shadows, compiled, always, fault);
            RowOf(st'.store, k).staged == Some(o.version) && k in st'.store.rows
  {
  }

  // ---------------------------------------------------------------------------
  // When a rebase becomes available
  // ---------------------------------------------------------------------------

  /** What is current in memory changes only by a Promote of the namespace. */
  lemma CurrentSlotMovesOnlyByPromote(st: State, op: Op, k: Key)
    requires Agree(st) && !(op.PromoteOp? && op.ns == k.ns)
    ensures SlotOf(Step(st, op).0.mem, k).current == SlotOf(st.mem, k).current
  {
    match op
    case PublishOp(j, files, force, shadows, compiled, fault) =>
      PublishSlots(st, j, files, force, shadows, compiled, false, fault);
    case RebaseOp(j, shadows, compiled, fault) =>
      if j.ns in st.mem.spaces && SlotOf(st.mem, j).current.Some? {
        var files := FilesAt(st.store, j, SlotOf(st.mem, j).current.value.version);
        PublishSlots(st, j, files, false, shadows, compiled, true, fault);
      }
    case PromoteOp(_, _) =>
    case DiscardOp(ns, fault) => DiscardClears(st, ns, fault);
    case RollbackOp(j, v, force, fault) =>
      if Rollback(st, j, v, force, fault).1 == Done { StageShape(st, j, Snap(v, VersionAt(st.store, j, v).tree)); }
    case SetParentOp(x, p, fault) => SlotsKept(st, x, p, fault, k);
    case CreateOp(x, p, fault) => SlotsKept(st, x, p, fault, k);
    case RestoreOp =>
      assert AgreeAt(st, k);
      RestoreKeepsCurrent(st, k);
  }

  lemma SlotsKept(st: State, x: Id, parent: Option<Id>, fault: Fault, k: Key)
    ensures SlotOf(SetNamespaceParent(st, x, parent, fault).0.mem, k) == SlotOf(st.mem, k)
    ensures SlotOf(CreateNamespace(st, x, parent, fault).0.mem, k) == SlotOf(st.mem, k)
  {
  }

  lemma RestoreKeepsCurrent(st: State, k: Key)
    requires AgreeAt(st, k)
    ensures SlotOf(Restore(st).0.mem, k).current == SlotOf(st.mem, k).current
  {
    if H.Closed(st.store.parents) { RestoredSlot(st, k); }
  }

  /** A pinned schema of namespace `ns` has something staged that is above its pin. */
  ghost predicate StagedAbovePin(s: Store, k: Key, v: nat, ns: Id) {
    exists d :: d in PinsAt(s, k, v) && d.ns == ns && StagedAbove(s, d)
  }

  predicate StagedAbove(s: Store, d: Dep) {
    var staged := RowOf(s, Key(d.ns, d.schema)).staged;
    staged.Some? && staged.value > d.version
  }

  /**
   The steps that make a rebase available: a Promote of the schema's own namespace that makes a
   staged version current whose pins are behind already, or a Promote of a pinned namespace that
   lifts a pinned schema above its pin.
   */
  ghost predicate Outdates(st: State, op: Op, k: Key) {
    && op.PromoteOp? && Promote(st, op.ns, op.fault).1 == Done
    && if op.ns == k.ns then
         RowOf(st.store, k).staged.Some? && RebaseAvailable(st.store, k, RowOf(st.store, k).staged.value)
       else
         RowOf(st.store, k).current.Some? && StagedAbovePin(st.store, k, RowOf(st.store, k).current.value, op.ns)
  }

  /** From a state in which none is available, a step makes a rebase available exactly if it outdates the schema. */
  lemma RebaseAvailableExactly(st: State, op: Op, k: Key)
    requires Agree(st) && !Available(st, k)
    ensures Available(Step(st, op).0, k) <==> Outdates(st, op, k)
  {
    assert AgreeAt(st, k);
    StepGrows(st, op);
    if op.PromoteOp? && Promote(st, op.ns, op.fault).1 == Done {
      if op.ns == k.ns {
        OwnPromote(st, op.ns, op.fault, k);
      } else {
        CurrentSlotMovesOnlyByPromote(st, op, k);
        PinnedPromote(st, op.ns, op.fault, k);
      }
    } else {
      StillUnavailable(st, op, k);
    }
  }

  lemma StillUnavailable(st: State, op: Op, k: Key)
    requires Agree(st) && !Available(st, k)
    requires op.PromoteOp? ==> Promote(st, op.ns, op.fault).1 != Done
    ensures !Available(Step(st, op).0, k)
  {
    var st' := Step(st, op).0;
    if !op.PromoteOp? {
      assert AgreeAt(st, k);
      CurrentSlotMovesOnlyByPromote(st, op, k);
      var cur := SlotOf(st.mem, k).current;
      if cur.Some? {
        StepGrows(st, op);
        SamePins(st.store, st'.store, k, cur.value.version);
        forall d | d in PinsAt(st.store, k, cur.value.version)
          ensures CurrentNumber(st'.store, Key(d.ns, d.schema)) <= d.version
        {
          CurrentMovesOnlyByPromote(st, op, Key(d.ns, d.schema));
        }
      }
    }
  }

  /** Promoting the schema's own namespace moves no pinned row. */
  lemma OwnPromote(st: State, ns: Id, fault: Fault, k: Key)
    requires Agree(st) && !Available(st, k) && ns == k.ns && Promote(st, ns, fault).1 == Done
    ensures Available(Promote(st, ns, fault).0, k) <==>
            RowOf(st.store, k).staged.Some? && RebaseAvailable(st.store, k, RowOf(st.store, k).staged.value)
  {
    var st' := Promote(st, ns, fault).0;
    PromoteAtomic(st, ns, fault);
    assert AgreeAt(st, k);
    PromoteAgrees(st, ns);
    assert AgreeAt(st', k);
    forall v ensures RebaseAvailable(st'.store, k, v) <==> RebaseAvailable(st.store, k, v) {
      SameStatus(st.store, st'.store, k, v);
    }
  }

  lemma SameStatus(s: Store, t: Store, k: Key, v: nat)
    requires t.versions == s.versions && forall j: Key :: j.ns != k.ns ==> RowOf(t, j) == RowOf(s, j)
    ensures RebaseAvailable(t, k, v) <==> RebaseAvailable(s, k, v)
  {
    assert PinsAt(t, k, v) == PinsAt(s, k, v);
  }

  lemma PinnedPromote(st: State, ns: Id, fault: Fault, k: Key)
    requires Agree(st) && !Available(st, k) && ns != k.ns && Promote(st, ns, fault).1 == Done
    requires SlotOf(Promote(st, ns, fault).0.mem, k).current == SlotOf(st.mem, k).current
    ensures Available(Promote(st, ns, fault).0, k) <==>
            RowOf(st.store, k).current.Some? && StagedAbovePin(st.store, k, RowOf(st.store, k).current.value, ns)
  {
    var st' := Promote(st, ns, fault).0;
    PromoteAtomic(st, ns, fault);
    assert AgreeAt(st, k);
    var cur := RowOf(st.store, k).current;
    if cur.Some? {
      assert PinsAt(st'.store, k, cur.value) == PinsAt(st.store, k, cur.value);
      forall d | d in PinsAt(st.store, k, cur.value)
        ensures CurrentNumber(st'.store, Key(d.ns, d.schema)) > d.version <==> d.ns == ns && StagedAbove(st.store, d)
      {
        assert CurrentNumber(st.store, Key(d.ns, d.schema)) <= d.version;
      }
    }
  }

  /**
   Promoting a rollback can make a rebase available without any ancestor moving: whenever the
   version rolled back to has a pin that is behind and the version before had none.
   */
  lemma RollbackOutdates(st: State, k: Key, fault: Fault)
    requires Agree(st) && !Available(st, k) && Promote(st, k.ns, fault).1 == Done
    requires var r := RowOf(st.store, k);
             r.current.Some? && r.staged.Some? && r.staged.value < r.current.value &&
             RebaseAvailable(st.store, k, r.staged.value)
    ensures var st' := Promote(st, k.ns, fault).0;
            Available(st', k) && forall j: Key :: j.ns != k.ns ==> RowOf(st'.store, j) == RowOf(st.store, j)
  {
    OwnPromote(st, k.ns, fault, k);
    PromoteAtomic(st, k.ns, fault);
  }

  // ---------------------------------------------------------------------------
  // The no-change shortcut
  // ---------------------------------------------------------------------------

  ghost predicate CleanFiles(files: seq<F.FileHash>) {
    F.Valid(files) && forall f :: f in files ==> F.Clean(f.filename)
  }

  /**
   For clean filenames a Publish that compiles reports NoChange exactly when it submits the files
   and hashes of the staged version, or of the current version if nothing is staged.
   */
  lemma NoChangeExact(st: State, k: Key, files: seq<F.FileHash>, force: bool, tree: Tree, fault: Fault)
    requires files != [] && CleanFiles(files)
    requires Proposed(st.store, k).Some? ==>
             HasVersion(st.store, k, Proposed(st.store, k).value) &&
             CleanFiles(VersionAt(st.store, k, Proposed(st.store, k).value).files)
    ensures Publish(st, k, files, force, false, Some(tree), false, fault).1 == NoChange <==>
            Proposed(st.store, k).Some? &&
            F.SameFiles(VersionAt(st.store, k, Proposed(st.store, k).value).files, files)
  {
    var s1 := EnsureNamespaceAndSchema(st, k);
    assert Proposed(s1.store, k) == Proposed(st.store, k);
    if Proposed(st.store, k).Some? {
      var stored := VersionAt(st.store, k, Proposed(st.store, k).value).files;
      assert VersionAt(s1.store, k, Proposed(st.store, k).value).files == stored;
      F.TextExact(stored, files);
    }
  }

  ghost predicate NoNewlines(files: seq<F.FileHash>) {
    F.Valid(files) && forall f :: f in files ==> '\n' !in f.filename
  }

  lemma NoNewlinesClean(files: seq<F.FileHash>)
    requires NoNewlines(files)
    ensures CleanFiles(files)
  {
    forall f | f in files ensures F.Clean(f.filename) { F.NoNewlineIsClean(f.filename); }
  }

  /** In particular whenever no filename holds a newline, which a caller can see. */
  lemma NoChangeWithoutNewlines(st: State, k: Key, files: seq<F.FileHash>, force: bool, tree: Tree, fault: Fault)
    requires files != [] && NoNewlines(files)
    requires Proposed(st.store, k).Some? ==>
             HasVersion(st.store, k, Proposed(st.store, k).value) &&
             NoNewlines(VersionAt(st.store, k, Proposed(st.store, k).value).files)
    ensures Publish(st, k, files, force, false, Some(tree), false, fault).1 == NoChange <==>
            Proposed(st.store, k).Some? &&
            F.SameFiles(VersionAt(st.store, k, Proposed(st.store, k).value).files, files)
  {
    NoNewlinesClean(files);
    if Proposed(st.store, k).Some? { NoNewlinesClean(VersionAt(st.store, k, Proposed(st.store, k).value).files); }
    NoChangeExact(st, k, files, force, tree, fault);
  }
}
