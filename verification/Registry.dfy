/**
 The registry object: each method changes store rows and in-memory slots step by step, as the
 source does, and is proved to take the step of module Lifecycle.
 */
module RegistryObject {
  import opened Descriptors
  import L = Lifecycle
  import C = Compat
  import H = Hierarchy
  import F = Fingerprint

  class Registry {
    var store: L.Store
    var mem: L.Memory
    /** The versions that Promote reported, schema by schema. */
    var log: map<L.Key, seq<nat>>

    function Value(): L.State
      reads this
    {
      L.State(store, mem, log)
    }

    constructor ()
      ensures Value() == L.Fresh
    {
      store := L.Store(map[], map[], map[]);
      mem := L.Memory(map[], map[]);
      log := map[];
    }

    // -------------------------------------------------------------------------
    // Gathering what the compiler may import
    // -------------------------------------------------------------------------

    method FileDeps(k: L.Key, v: nat, files: seq<F.FileHash>) returns (deps: set<L.Dep>)
      ensures deps == set f | f in files :: L.Dep(k.ns, k.schema, f.filename, v)
    {
      deps := {};
      var i := 0;
      while i < |files|
        invariant 0 <= i <= |files|
        invariant deps == set f | f in files[..i] :: L.Dep(k.ns, k.schema, f.filename, v)
      {
        assert files[..i + 1] == files[..i] + [files[i]];
        deps := deps + {L.Dep(k.ns, k.schema, files[i].filename, v)};
        i := i + 1;
      }
      assert files[..i] == files;
    }

    method GatherDeps(k: L.Key) returns (deps: set<L.Dep>)
      ensures deps == L.NamespaceDeps(store, k)
    {
      deps := {};
      var keys := store.rows.Keys;
      while keys != {}
        invariant keys <= store.rows.Keys
        invariant forall d :: d in deps <==> d in L.NamespaceDeps(store, k) && L.Key(d.ns, d.schema) !in keys
        decreases keys
      {
        var j :| j in keys;
        var v := L.Proposed(store, j);
        if j.ns == k.ns && j != k && v.Some? && L.HasVersion(store, j, v.value) {
          var more := FileDeps(j, v.value, L.VersionAt(store, j, v.value).files);
          deps := deps + more;
        }
        keys := keys - {j};
      }
    }

    method GatherTier(ns: L.Id) returns (deps: set<L.Dep>)
      ensures deps == L.TierDeps(store, [ns])
    {
      deps := {};
      var keys := store.rows.Keys;
      while keys != {}
        invariant keys <= store.rows.Keys
        invariant forall d :: d in deps <==> d in L.TierDeps(store, [ns]) && L.Key(d.ns, d.schema) !in keys
        decreases keys
      {
        var j :| j in keys;
        var v := store.rows[j].current;
        if j.ns == ns && v.Some? && L.HasVersion(store, j, v.value) {
          var more := FileDeps(j, v.value, L.VersionAt(store, j, v.value).files);
          deps := deps + more;
        }
        keys := keys - {j};
      }
    }

    method GatherChainTiers(ns: L.Id) returns (deps: set<L.Dep>)
      ensures deps == L.TierDeps(store, L.Ancestors(mem, ns))
    {
      var chain := H.WalkChain(mem.parents, ns);
      deps := {};
      if |chain| <= 1 { return; }
      var ancestors := chain[1..];
      var i := 0;
      while i < |ancestors|
        invariant 0 <= i <= |ancestors|
        invariant deps == L.TierDeps(store, ancestors[..i])
      {
        assert ancestors[..i + 1] == ancestors[..i] + [ancestors[i]];
        var tier := GatherTier(ancestors[i]);
        deps := deps + tier;
        i := i + 1;
      }
      assert ancestors[..i] == ancestors;
    }

    // -------------------------------------------------------------------------
    // Operations
    // -------------------------------------------------------------------------

    method EnsureNamespaceAndSchema(k: L.Key)
      modifies this
      ensures Value() == L.EnsureNamespaceAndSchema(old(Value()), k)
    {
      if k.ns !in store.parents {
        store := store.(parents := store.parents[k.ns := None]);
      }
      if k !in store.rows {
        store := store.(rows := store.rows[k := L.Row(None, None)]);
      }
      mem := L.GetOrCreate(mem, k.ns);
    }

    method SetStaged(k: L.Key, snap: L.Snap)
      modifies this
      ensures Value() == L.Stage(old(Value()), k, snap)
    {
      store := store.(rows := store.rows[k := L.RowOf(store, k).(staged := Some(snap.version))]);
      mem := L.PutSlot(mem, k, L.SlotOf(mem, k).(staged := Some(snap)));
    }

    method Publish(k: L.Key, files: seq<F.FileHash>, force: bool, shadows: bool, compiled: Option<L.Tree>,
                   always: bool, fault: L.Fault) returns (r: L.Result)
      modifies this
      ensures (Value(), r) == L.Publish(old(Value()), k, files, force, shadows, compiled, always, fault)
    {
      if files == [] { return L.Failed(L.NoSources); }
      if !force && shadows { return L.Failed(L.ShadowsWellKnown); }
      EnsureNamespaceAndSchema(k);
      var deps := GatherDeps(k);
      var tiers := GatherChainTiers(k.ns);
      var next := |L.VersionsOf(store, k)| + 1;
      if compiled.None? { return L.Failed(L.CompileFailed); }
      if !always {
        var same := IsUnchanged(k, files);
        if same { return L.NoChange; }
      }
      if fault == L.BeforeWrite { return L.Failed(L.StoreFailed); }
      store := L.PutVersion(store, k, L.Version(compiled.value, files, deps + tiers));
      if fault == L.BeforeStage { return L.Failed(L.StoreFailed); }
      SetStaged(k, L.Snap(next, compiled.value));
      return L.Published(next);
    }

    /** Compares fingerprints with the staged version first, then the current one. */
    method IsUnchanged(k: L.Key, files: seq<F.FileHash>) returns (b: bool)
      ensures b <==> L.Unchanged(store, k, files)
    {
      var v := L.RowOf(store, k).staged;
      if v.None? { v := L.RowOf(store, k).current; }
      if v.None? || !L.HasVersion(store, k, v.value) { return false; }
      var stored := F.ComputeText(L.VersionAt(store, k, v.value).files);
      var submitted := F.ComputeText(files);
      return stored == submitted;
    }

    method Rebase(k: L.Key, shadows: bool, compiled: Option<L.Tree>, fault: L.Fault) returns (r: L.Result)
      modifies this
      ensures (Value(), r) == L.Rebase(old(Value()), k, shadows, compiled, fault)
    {
      if k.ns !in mem.spaces { return L.Failed(L.NotFound); }
      var cur := L.SlotOf(mem, k).current;
      if cur.None? { return L.Failed(L.NoCurrent); }
      var files := L.FilesAt(store, k, cur.value.version);
      r := Publish(k, files, false, shadows, compiled, true, fault);
    }

    /** Checks every staged schema first, then moves rows and slots. */
    method Promote(ns: L.Id, fault: L.Fault) returns (r: L.Result)
      modifies this
      ensures (Value(), r) == L.Promote(old(Value()), ns, fault)
    {
      if ns !in mem.spaces { return L.Failed(L.NotFound); }
      var slots := mem.spaces[ns];
      var ids := slots.Keys;
      while ids != {}
        invariant ids <= slots.Keys && Value() == old(Value())
        invariant forall x :: x in slots.Keys - ids ==> L.MayPromote(slots[x])
        decreases ids
      {
        var x :| x in ids;
        ids := ids - {x};
        var slot := slots[x];
        if slot.staged.None? { continue; }
        if slot.current.Some? && slot.staged.value.version <= slot.current.value.version { continue; }
        var result := C.Check(L.TreeOf(slot.current), slot.staged.value.tree);
        if result.violations != [] {
          assert !L.MayPromote(slots[x]);
          return L.Failed(L.Incompatible);
        }
      }
      if fault != L.NoFault { return L.Failed(L.StoreFailed); }
      log := map k | k in log.Keys + store.rows.Keys ::
        L.LogOf(Value(), k) +
        if k in store.rows && k.ns == ns && store.rows[k].staged.Some? then [store.rows[k].staged.value] else [];
      store := store.(rows :=
        map k | k in store.rows :: if k.ns == ns then L.PromoteRow(store.rows[k]) else store.rows[k]);
      PromoteSlots(ns);
      return L.Done;
    }

    /** The loop over the slots of a namespace that swaps staged into current. */
    method PromoteSlots(ns: L.Id)
      requires ns in mem.spaces
      modifies this`mem
      ensures mem == old(mem).(spaces := old(mem).spaces[ns := map x | x in old(mem).spaces[ns] ::
                                                                 L.PromoteSlot(old(mem).spaces[ns][x])])
    {
      ghost var before := mem.spaces[ns];
      var ids := mem.spaces[ns].Keys;
      while ids != {}
        invariant ids <= before.Keys
        invariant ns in mem.spaces && mem.spaces[ns].Keys == before.Keys
        invariant mem == old(mem).(spaces := old(mem).spaces[ns := mem.spaces[ns]])
        invariant forall x :: x in before ==>
          mem.spaces[ns][x] == if x in ids then before[x] else L.PromoteSlot(before[x])
        decreases ids
      {
        var x :| x in ids;
        var slot := mem.spaces[ns][x];
        if slot.staged.Some? {
          mem := mem.(spaces := mem.spaces[ns := mem.spaces[ns][x := L.Slot(slot.staged, None)]]);
        }
        ids := ids - {x};
      }
      assert mem.spaces[ns] == map x | x in before :: L.PromoteSlot(before[x]);
    }

    method DiscardStaging(ns: L.Id, fault: L.Fault) returns (r: L.Result)
      modifies this
      ensures (Value(), r) == L.DiscardStaging(old(Value()), ns, fault)
    {
      if fault != L.NoFault { return L.Failed(L.StoreFailed); }
      store := store.(rows := map k | k in store.rows ::
        if k.ns == ns then store.rows[k].(staged := None) else store.rows[k]);
      if ns in mem.spaces {
        DiscardSlots(ns);
      }
      return L.Done;
    }

    /** The loop over the slots of a namespace that clears what is staged. */
    method DiscardSlots(ns: L.Id)
      requires ns in mem.spaces
      modifies this`mem
      ensures mem == old(mem).(spaces := old(mem).spaces[ns := map x | x in old(mem).spaces[ns] ::
                                                                 old(mem).spaces[ns][x].(staged := None)])
    {
      ghost var before := mem.spaces[ns];
      var ids := mem.spaces[ns].Keys;
      while ids != {}
        invariant ids <= before.Keys
        invariant ns in mem.spaces && mem.spaces[ns].Keys == before.Keys
        invariant mem == old(mem).(spaces := old(mem).spaces[ns := mem.spaces[ns]])
        invariant forall x :: x in before ==>
          mem.spaces[ns][x] == if x in ids then before[x] else before[x].(staged := None)
        decreases ids
      {
        var x :| x in ids;
        mem := mem.(spaces := mem.spaces[ns := mem.spaces[ns][x := mem.spaces[ns][x].(staged := None)]]);
        ids := ids - {x};
      }
      assert mem.spaces[ns] == map x | x in before :: before[x].(staged := None);
    }

    method Rollback(k: L.Key, v: nat, force: bool, fault: L.Fault) returns (r: L.Result)
      modifies this
      ensures (Value(), r) == L.Rollback(old(Value()), k, v, force, fault)
    {
      if !L.HasVersion(store, k, v) { return L.Failed(L.NotFound); }
      var tree := L.VersionAt(store, k, v).tree;
      if !force {
        var current := L.SlotOf(mem, k).current;
        if current.Some? {
          var result := C.Check(L.TreeOf(current), tree);
          if result.violations != [] { return L.Failed(L.Incompatible); }
        }
      }
      if fault != L.NoFault { return L.Failed(L.StoreFailed); }
      SetStaged(k, L.Snap(v, tree));
      return L.Done;
    }

    method SetNamespaceParent(x: L.Id, parent: Option<L.Id>, fault: L.Fault) returns (r: L.Result)
      modifies this
      ensures (Value(), r) == L.SetNamespaceParent(old(Value()), x, parent, fault)
    {
      if fault != L.NoFault { return L.Failed(L.StoreFailed); }
      var (g, o) := H.SetParent(store.parents, x, parent);
      match o
      case NamespaceNotFound => return L.Failed(L.NotFound);
      case ParentCycle => return L.Failed(L.ParentCycle);
      case Ok =>
        store := store.(parents := g);
        mem := L.GetOrCreate(mem, x);
        if parent.Some? {
          mem := L.GetOrCreate(mem, parent.value);
        }
        mem := mem.(parents := mem.parents[x := parent]);
        return L.Done;
    }

    method CreateNamespace(x: L.Id, parent: Option<L.Id>, fault: L.Fault) returns (r: L.Result)
      modifies this
      ensures (Value(), r) == L.CreateNamespace(old(Value()), x, parent, fault)
    {
      if fault == L.BeforeWrite { return L.Failed(L.StoreFailed); }
      if x in store.parents { return L.Failed(L.AlreadyExists); }
      store := store.(parents := store.parents[x := None]);
      mem := L.GetOrCreate(mem, x);
      if parent.None? { return L.Done; }
      r := SetNamespaceParent(x, parent, fault);
    }

    /** Two passes: namespaces with their parents first, then the current versions. */
    method Restore() returns (r: L.Result)
      modifies this
      ensures (Value(), r) == L.Restore(old(Value()))
    {
      if !H.Closed(store.parents) { return L.Failed(L.UnknownParent); }
      mem := L.Memory(store.parents, map ns | ns in store.parents :: map[]);
      LoadCurrent();
      return L.Done;
    }

    method LoadCurrent()
      requires H.Closed(store.parents)
      requires mem == L.Memory(store.parents, map ns | ns in store.parents :: map[])
      modifies this`mem
      ensures mem == L.Restore(L.State(store, mem, log)).0.mem
    {
      var keys := Loadable(store);
      while keys != {}
        invariant keys <= Loadable(store) && Loaded(mem, store, Loadable(store) - keys)
        decreases keys
      {
        var k :| k in keys;
        LoadOne(mem, store, Loadable(store) - keys, k);
        mem := L.PutSlot(mem, k, L.Slot(L.SnapOf(store, k, store.rows[k].current), None));
        assert Loadable(store) - keys + {k} == Loadable(store) - (keys - {k});
        keys := keys - {k};
      }
      assert Loadable(store) - keys == Loadable(store);
      AllLoaded(mem, store, log);
    }
  }

  function Loadable(s: L.Store): set<L.Key> {
    set k | k in s.rows && L.SnapOf(s, k, s.rows[k].current).Some?
  }

  /** The memory after the schemas `done` were loaded. */
  ghost predicate Loaded(m: L.Memory, s: L.Store, done: set<L.Key>) {
    && done <= Loadable(s)
    && m.parents == s.parents
    && (forall ns :: ns in m.spaces <==> ns in s.parents || exists k :: k in done && k.ns == ns)
    && (forall ns :: ns in m.spaces ==> LoadedSpace(m.spaces[ns], s, done, ns))
  }

  ghost predicate LoadedSpace(space: map<L.Id, L.Slot>, s: L.Store, done: set<L.Key>, ns: L.Id)
    requires done <= Loadable(s)
  {
    && (forall x :: x in space <==> L.Key(ns, x) in done)
    && (forall x :: x in space ==> space[x] == L.Slot(L.SnapOf(s, L.Key(ns, x), s.rows[L.Key(ns, x)].current), None))
  }

  lemma LoadOne(m: L.Memory, s: L.Store, done: set<L.Key>, k: L.Key)
    requires Loaded(m, s, done) && k in Loadable(s)
    ensures Loaded(L.PutSlot(m, k, L.Slot(L.SnapOf(s, k, s.rows[k].current), None)), s, done + {k})
  {
    var m' := L.PutSlot(m, k, L.Slot(L.SnapOf(s, k, s.rows[k].current), None));
    forall ns | ns in m'.spaces ensures LoadedSpace(m'.spaces[ns], s, done + {k}, ns) {
      if ns in m.spaces {
        assert LoadedSpace(m.spaces[ns], s, done, ns);
      }
      LoadOneSpace(if ns in m.spaces then m.spaces[ns] else map[], s, done, k, ns);
    }
  }

  lemma LoadOneSpace(space: map<L.Id, L.Slot>, s: L.Store, done: set<L.Key>, k: L.Key, ns: L.Id)
    requires done <= Loadable(s) && k in Loadable(s) && LoadedSpace(space, s, done, ns)
    ensures ns != k.ns ==> LoadedSpace(space, s, done + {k}, ns)
    ensures ns == k.ns ==>
              LoadedSpace(space[k.schema := L.Slot(L.SnapOf(s, k, s.rows[k].current), None)], s, done + {k}, ns)
  {
  }

  lemma AllLoaded(m: L.Memory, s: L.Store, log: map<L.Key, seq<nat>>)
    requires Loaded(m, s, Loadable(s)) && H.Closed(s.parents)
    ensures m == L.Restore(L.State(s, m, log)).0.mem
  {
    forall ns | ns in m.spaces ensures m.spaces[ns] == L.RestoredSpace(s, ns) { SpaceLoaded(m.spaces[ns], s, ns); }
    NamesLoaded(m, s);
  }

  lemma NamesLoaded(m: L.Memory, s: L.Store)
    requires Loaded(m, s, Loadable(s))
    ensures m.spaces.Keys == L.RestoredNames(s)
  {
    forall ns ensures ns in m.spaces <==> ns in L.RestoredNames(s) { }
  }

  lemma SpaceLoaded(space: map<L.Id, L.Slot>, s: L.Store, ns: L.Id)
    requires LoadedSpace(space, s, Loadable(s), ns)
    ensures space == L.RestoredSpace(s, ns)
  {
    var r := L.RestoredSpace(s, ns);
    forall x ensures x in space <==> x in r {
      if L.Key(ns, x) in Loadable(s) {
        assert L.Key(ns, x).schema in r;
      }
    }
  }
}
