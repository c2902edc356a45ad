/**
 Histories of a NamespacedFiles registry: UpdateFile against UnregisterFile followed by
 RegisterFile, the exact reach of RegisterFile's conflict checks, and what every run of
 the operations keeps.
 */
module FileHistory {
  import opened Descriptors
  import opened FileIndex

  // ---------------------------------------------------------------------------
  // Updating is removing and inserting
  // ---------------------------------------------------------------------------

  ghost predicate AgreeAt(a: map<FullName, Entry>, b: map<FullName, Entry>, n: FullName) {
    (n in a <==> n in b) && (n in a ==> a[n] == b[n])
  }

  lemma {:induction false} PutAllAgree(a: map<FullName, Entry>, b: map<FullName, Entry>, ds: seq<Descriptor>)
    requires forall n :: !NameIn(ds, n) ==> AgreeAt(a, b, n)
    ensures PutAll(a, ds) == PutAll(b, ds)
    decreases ds
  {
    if ds == [] {
      forall n ensures AgreeAt(a, b, n) { assert !NameIn(ds, n); }
      assert a.Keys == b.Keys by { forall n ensures n in a.Keys <==> n in b.Keys { assert AgreeAt(a, b, n); } }
      forall n | n in a ensures a[n] == b[n] { assert AgreeAt(a, b, n); }
    } else {
      var a', b' := a[ds[0].full := Declared(ds[0])], b[ds[0].full := Declared(ds[0])];
      assert ds == [ds[0]] + ds[1..];
      forall n | !NameIn(ds[1..], n) ensures AgreeAt(a', b', n) {
        if n != ds[0].full {
          assert !NameIn(ds, n);
          assert AgreeAt(a, b, n);
        }
      }
      PutAllAgree(a', b', ds[1..]);
    }
  }

  /** Names recorded for a file sit right below its package, so they are no prefixes of it. */
  lemma RecordedNames(g: File, n: FullName)
    requires n in RecordOf(g).names
    ensures |n| == |g.pkg| + 1 && g.pkg <= n && NameIn(TopLevel(g), n)
  {
    NamesOfMembers(TopLevel(g), n);
    var d :| d in TopLevel(g) && d.full == n;
    TopLevelDeclared(g, d);
  }

  /** After their package chains are made complete, both ways differ at most at names the new file provides. */
  lemma DisplaceAgrees(s: Files, f: File, g: File, n: FullName)
    requires f.path in s.fileDescs && s.fileDescs[f.path] == RecordOf(g)
    requires !NameIn(TopLevel(f), n)
    ensures AgreeAt(EnsurePackages(Displace(s, f).descsByName, f.pkg),
                    EnsurePackages(Remove(s, f.path).descsByName, f.pkg), n)
  {
    var kept := NameSet(NamesOf(TopLevel(f)));
    var all := NameSet(RecordOf(g).names);
    NamesOfMembers(TopLevel(f), n);
    var u, r := Displace(s, f).descsByName, Remove(s, f.path).descsByName;
    EnsurePackagesAt(u, f.pkg, n);
    EnsurePackagesAt(r, f.pkg, n);
    if g.pkg == f.pkg {
      var before := LeavePackage(s.descsByName - all, f.pkg, f.path, false);
      CleanupEffect(before, f.pkg);
      if f.pkg in all { RecordedNames(g, f.pkg); }
      assert AgreeAt(u, before, n);
    } else {
      forall k | k in all ensures k !in kept {
        if k in kept {
          RecordedNames(g, k);
          RecordedNames(f, k);
        }
      }
      assert all - kept == all;
    }
  }

  /**
   UpdateFile on a registered path gives the very state that UnregisterFile followed by the
   insertion gives, in every state whose record of that path is the record of some file.
   */
  lemma UpdateReplaces(s: Files, f: File, g: File)
    requires f.path in s.fileDescs && s.fileDescs[f.path] == RecordOf(g)
    ensures Update(s, f).1 == Insert(Remove(s, f.path), f).1
    ensures Update(s, f).1 == Done ==> Update(s, f) == Insert(Remove(s, f.path), f)
  {
    var a := EnsurePackages(Displace(s, f).descsByName, f.pkg);
    var b := EnsurePackages(Remove(s, f.path).descsByName, f.pkg);
    forall n | !NameIn(TopLevel(f), n) ensures AgreeAt(a, b, n) { DisplaceAgrees(s, f, g, n); }
    if NameIn(TopLevel(f), f.pkg) {
      var d :| d in TopLevel(f) && d.full == f.pkg;
      NamesLongerThanPackage(f, d);
    }
    if f.pkg in a && a[f.pkg].Package? {
      var node := Package(a[f.pkg].files + [f]);
      forall n | !NameIn(TopLevel(f), n) ensures AgreeAt(a[f.pkg := node], b[f.pkg := node], n) {
        assert AgreeAt(a, b, n);
      }
      PutAllAgree(a[f.pkg := node], b[f.pkg := node], TopLevel(f));
    }
  }

  // ---------------------------------------------------------------------------
  // The reach of RegisterFile's conflict checks
  // ---------------------------------------------------------------------------

  /** Every prefix of a registered package has a package node. */
  ghost predicate ChainsComplete(descs: map<FullName, Entry>, m: Plain) {
    forall p, n :: p in m && n <= m[p].pkg ==> IsPackage(descs, n)
  }

  lemma ChecksImplyFits(s: Files, m: Plain, f: File)
    requires NamesMatch(s.descsByName, m) && ChainsComplete(s.descsByName, m) && NamesOnce(TopLevel(f))
    requires PackageFree(s.descsByName, f.pkg) && NamesFree(s.descsByName, TopLevel(f))
    ensures Fits(m, f)
  {
    var d := s.descsByName;
    PackageFreePrefixes(d, f.pkg);
    forall x, e | x in TopLevel(f) && Declares(m, e) ensures x.full != e.full { assert Named(d, e); }
    forall x, p | x in TopLevel(f) && p in m ensures !(x.full <= m[p].pkg) {
      assert x.full <= m[p].pkg ==> IsPackage(d, x.full);
    }
    forall e | Declares(m, e) ensures !(e.full <= f.pkg) {
      assert Named(d, e);
      var p :| Offers(m, p, e);
      NamesLongerThanPackage(m[p], e);
    }
  }

  /**
   While the package chains are complete, RegisterFile accepts a file exactly when its path is
   new and it clashes with no registered file; otherwise it changes nothing.
   */
  lemma RegisterExact(s: Files, m: Plain, f: File)
    requires Represents(s, m) && ClashFree(m) && NamesOnce(TopLevel(f))
    requires ChainsComplete(s.descsByName, m)
    ensures Register(s, f).1 == Done <==> f.path !in m && ClashFree(m[f.path := f])
    ensures Register(s, f).1 != Done ==> Register(s, f).0 == s
  {
    var d := s.descsByName;
    if f.path in m {
      assert s.filesByPath[f.path] == [m[f.path]];
    } else {
      FitsExactly(m, f);
      if PackageFree(d, f.pkg) && NamesFree(d, TopLevel(f)) {
        ChecksImplyFits(s, m, f);
        InsertTables(s, f);
      } else if Fits(m, f) {
        FitsPassesChecks(s, m, f);
      }
    }
  }

  /** The nodes of `name` and of its prefixes of length at least `i` hold no files. */
  ghost predicate EmptyFrom(descs: map<FullName, Entry>, name: FullName, i: nat) {
    forall j :: i <= j <= |name| ==> name[..j] in descs && descs[name[..j]] == Package([])
  }

  /** The pruned nodes are the prefixes from which the chain down to `name` holds only file-less nodes. */
  lemma {:induction false} CleanupAt(descs: map<FullName, Entry>, name: FullName, n: FullName)
    ensures n in CleanupPackageChain(descs, name) <==>
            n in descs && !(n != [] && n <= name && EmptyFrom(descs, name, |n|))
    decreases |name|
  {
    assert name[..|name|] == name;
    if name != [] && name in descs && descs[name] == Package([]) {
      var up := Parent(name);
      CleanupAt(descs - {name}, up, n);
      if n != name && n <= name {
        assert n <= up;
        forall j | |n| <= j <= |up| ensures name[..j] == up[..j] && name[..j] != name { }
        assert EmptyFrom(descs - {name}, up, |n|) <==> EmptyFrom(descs, name, |n|);
      }
    }
  }

  ghost predicate NoFilesIn(m: Plain, n: FullName) {
    forall p :: p in m ==> m[p].pkg != n
  }

  /** Some package other than that of `path` shares a prefix with it, and below that prefix no file is left. */
  ghost predicate Orphans(m: Plain, path: string)
    requires path in m
  {
    var pkg, rest := m[path].pkg, m - {path};
    exists q, i :: q in rest && 0 < i <= |pkg| && pkg[..i] <= rest[q].pkg && EmptiedFrom(rest, pkg, i)
  }

  lemma HoldsEmpty(files: seq<File>, m: Plain, n: FullName)
    requires Holds(files, m, n) && Keyed(m)
    ensures files == [] <==> NoFilesIn(m, n)
  {
    if files != [] {
      assert files[0] in files;
    }
    if p :| p in m && m[p].pkg == n {
      assert m[p] in files;
    }
  }

  ghost predicate EmptiedFrom(m: Plain, pkg: FullName, i: nat) {
    forall j :: i <= j <= |pkg| ==> NoFilesIn(m, pkg[..j])
  }

  /** The package nodes that the pruning deletes. */
  lemma PruneAt(d: map<FullName, Entry>, m: Plain, pkg: FullName, n: FullName)
    requires Keyed(m) && PackagesMatch(d, m)
    requires forall i :: 0 <= i <= |pkg| ==> IsPackage(d, pkg[..i])
    requires IsPackage(d, n)
    ensures IsPackage(CleanupPackageChain(d, pkg), n) <==> !(n != [] && n <= pkg && EmptiedFrom(m, pkg, |n|))
  {
    forall i | 0 <= i <= |pkg| ensures d[pkg[..i]].files == [] <==> NoFilesIn(m, pkg[..i]) {
      assert IsPackage(d, pkg[..i]);
      HoldsEmpty(d[pkg[..i]].files, m, pkg[..i]);
    }
    if n <= pkg {
      assert EmptyFrom(d, pkg, |n|) <==> EmptiedFrom(m, pkg, |n|);
    }
    CleanupAt(d, pkg, n);
    CleanupEffect(d, pkg);
  }

  lemma PruneKeepsChains(d: map<FullName, Entry>, m: Plain, pkg: FullName)
    requires Keyed(m) && PackagesMatch(d, m) && ChainsComplete(d, m)
    requires forall i :: 0 <= i <= |pkg| ==> IsPackage(d, pkg[..i])
    ensures ChainsComplete(CleanupPackageChain(d, pkg), m) <==>
            !(exists q, i :: q in m && 0 < i <= |pkg| && pkg[..i] <= m[q].pkg && EmptiedFrom(m, pkg, i))
  {
    var r := CleanupPackageChain(d, pkg);
    if q, i :| q in m && 0 < i <= |pkg| && pkg[..i] <= m[q].pkg && EmptiedFrom(m, pkg, i) {
      PruneAt(d, m, pkg, pkg[..i]);
      assert !IsPackage(r, pkg[..i]);
    } else {
      forall q, n | q in m && n <= m[q].pkg ensures IsPackage(r, n) {
        PruneAt(d, m, pkg, n);
        if n <= pkg { assert n == pkg[..|n|]; }
      }
    }
  }

  /**
   UnregisterFile keeps the package chains complete exactly when it orphans no sub-package.
   The pruning looks only at the files of a node, so it deletes nodes that other packages need.
   */
  lemma UnregisterKeepsChains(s: Files, m: Plain, path: string)
    requires Represents(s, m) && ClashFree(m) && path in m && ChainsComplete(s.descsByName, m)
    ensures ChainsComplete(Remove(s, path).descsByName, m - {path}) <==> !Orphans(m, path)
  {
    var f := m[path];
    WithdrawMatches(s.descsByName, m, path);
    RemoveWithdraws(s, m, path);
    ChainsRestrict(Withdraw(s.descsByName, NameSet(NamesOf(TopLevel(f))), f.pkg, path), s.descsByName, m, path);
    PruneKeepsChains(Withdraw(s.descsByName, NameSet(NamesOf(TopLevel(f))), f.pkg, path), m - {path}, f.pkg);
  }

  lemma ChainsRestrict(d': map<FullName, Entry>, d: map<FullName, Entry>, m: Plain, path: string)
    requires ChainsComplete(d, m) && path in m && forall n :: IsPackage(d', n) <==> IsPackage(d, n)
    ensures ChainsComplete(d', m - {path})
    ensures var pkg := m[path].pkg; forall i :: 0 <= i <= |pkg| ==> IsPackage(d', pkg[..i])
  {
    var pkg := m[path].pkg;
    forall i | 0 <= i <= |pkg| ensures IsPackage(d', pkg[..i]) { assert pkg[..i] <= m[path].pkg; }
  }

  /** RegisterFile itself never breaks the chains. */
  lemma RegisterKeepsChains(s: Files, m: Plain, f: File)
    requires IndexMatches(s.descsByName, m) && f.path !in m && Fits(m, f) && ChainsComplete(s.descsByName, m)
    ensures ChainsComplete(Insert(s, f).0.descsByName, m[f.path := f])
  {
    var d', m' := Insert(s, f).0.descsByName, m[f.path := f];
    forall p, n | p in m' && n <= m'[p].pkg ensures IsPackage(d', n) {
      assert p in m ==> n <= m[p].pkg ==> IsPackage(s.descsByName, n);
      InsertKeepsPackage(s, m, f, n);
    }
  }

  // ---------------------------------------------------------------------------
  // Histories
  // ---------------------------------------------------------------------------

  datatype Op = RegisterOp(file: File) | UpdateOp(file: File) | UnregisterOp(path: string)

  function Step(s: Files, op: Op): (Files, Outcome) {
    match op
    case RegisterOp(f) => Register(s, f)
    case UpdateOp(f) => Update(s, f)
    case UnregisterOp(p) => Unregister(s, p)
  }

  function Run(s: Files, ops: seq<Op>): Files
    decreases ops
  {
    if ops == [] then s else Run(Step(s, ops[0]).0, ops[1..])
  }

  function PlainStep(m: Plain, op: Op): Plain {
    match op
    case RegisterOp(f) => if f.path in m then m else m[f.path := f]
    case UpdateOp(f) => m[f.path := f]
    case UnregisterOp(p) => m - {p}
  }

  function PlainRun(m: Plain, ops: seq<Op>): Plain
    decreases ops
  {
    if ops == [] then m else PlainRun(PlainStep(m, ops[0]), ops[1..])
  }

  /** The plain map is clash-free after every operation. */
  ghost predicate ClashFreeHistory(m: Plain, ops: seq<Op>)
    decreases ops
  {
    ClashFree(m) && (ops == [] || ClashFreeHistory(PlainStep(m, ops[0]), ops[1..]))
  }

  function PlainOutcome(m: Plain, op: Op): Outcome {
    match op
    case RegisterOp(f) => if f.path in m then PathTaken else Done
    case UpdateOp(f) => Done
    case UnregisterOp(p) => if p in m then Done else NotFound
  }

  lemma ClashFreeSubmap(m: Plain, p: string)
    requires ClashFree(m)
    ensures ClashFree(m - {p})
  {
    var m' := m - {p};
    forall q, d | Offers(m', q, d) ensures Offers(m, q, d) { }
  }

  lemma ReplacementFits(m: Plain, f: File)
    requires ClashFree(m) && ClashFree(m[f.path := f])
    ensures var rest := m - {f.path}; ClashFree(rest) && Fits(rest, f) && rest[f.path := f] == m[f.path := f]
  {
    var rest := m - {f.path};
    ClashFreeSubmap(m, f.path);
    assert rest[f.path := f] == m[f.path := f];
    FitsExactly(rest, f);
  }

  /** On clash-free maps UpdateFile is UnregisterFile followed by RegisterFile, with equal states. */
  lemma UpdateIsUnregisterThenRegister(s: Files, m: Plain, f: File)
    requires Represents(s, m) && ClashFree(m) && ClashFree(m[f.path := f]) && f.path in m
    ensures f.path in s.fileDescs && Unregister(s, f.path) == (Remove(s, f.path), Done)
    ensures Register(Remove(s, f.path), f) == Update(s, f) && Update(s, f).1 == Done
    ensures Represents(Update(s, f).0, m[f.path := f])
  {
    RemoveRepresents(s, m, f.path);
    ReplacementFits(m, f);
    RegisterRepresents(Remove(s, f.path), m - {f.path}, f);
    UpdateReplaces(s, f, m[f.path]);
  }

  lemma RegisterStep(s: Files, m: Plain, f: File)
    requires Represents(s, m) && ClashFree(m) && ClashFree(PlainStep(m, RegisterOp(f)))
    ensures Register(s, f).1 == PlainOutcome(m, RegisterOp(f))
    ensures Represents(Register(s, f).0, PlainStep(m, RegisterOp(f)))
  {
    if f.path in m {
      assert s.filesByPath[f.path] == [m[f.path]];
    } else {
      FitsExactly(m, f);
      RegisterRepresents(s, m, f);
    }
  }

  lemma UpdateStep(s: Files, m: Plain, f: File)
    requires Represents(s, m) && ClashFree(m) && ClashFree(m[f.path := f])
    ensures Update(s, f).1 == Done && Represents(Update(s, f).0, m[f.path := f])
  {
    if f.path in m {
      UpdateIsUnregisterThenRegister(s, m, f);
    } else {
      FitsExactly(m, f);
      RegisterRepresents(s, m, f);
    }
  }

  lemma UnregisterStep(s: Files, m: Plain, p: string)
    requires Represents(s, m) && ClashFree(m)
    ensures p in m ==> Unregister(s, p) == (Remove(s, p), Done) && Represents(Remove(s, p), m - {p})
    ensures p !in m ==> Unregister(s, p) == (s, NotFound) && m - {p} == m
  {
    if p in m {
      RemoveRepresents(s, m, p);
    } else {
      NothingToDrop(m, p);
    }
  }

  lemma NothingToDrop(m: Plain, p: string)
    requires p !in m
    ensures m - {p} == m
  {
  }

  /** One operation on the registry is the same operation on the plain map. */
  lemma StepRepresents(s: Files, m: Plain, op: Op)
    requires Represents(s, m) && ClashFree(m) && ClashFree(PlainStep(m, op))
    ensures Step(s, op).1 == PlainOutcome(m, op)
    ensures Represents(Step(s, op).0, PlainStep(m, op))
  {
    match op
    case RegisterOp(f) => RegisterStep(s, m, f);
    case UpdateOp(f) => UpdateStep(s, m, f);
    case UnregisterOp(p) => UnregisterStep(s, m, p);
  }

  /** After every clash-free history all indexes are those of the plain map. */
  lemma {:induction false} HistoryRepresents(s: Files, m: Plain, ops: seq<Op>)
    requires Represents(s, m) && ClashFreeHistory(m, ops)
    ensures Represents(Run(s, ops), PlainRun(m, ops)) && ClashFree(PlainRun(m, ops))
    decreases ops
  {
    if ops != [] {
      StepRepresents(s, m, ops[0]);
      HistoryRepresents(Step(s, ops[0]).0, PlainStep(m, ops[0]), ops[1..]);
    }
  }

  // ---------------------------------------------------------------------------
  // Every history, clashing or not
  // ---------------------------------------------------------------------------

  /** Every named entry of the index is a top-level descriptor of a registered file. */
  ghost predicate NamesSound(descs: map<FullName, Entry>, m: Plain) {
    forall n :: n in descs && descs[n].Declared? ==> descs[n].desc.full == n && Declares(m, descs[n].desc)
  }

  ghost predicate Sound(s: Files, m: Plain) {
    TablesMatch(s.filesByPath, s.fileDescs, s.numFiles, m) && NamesSound(s.descsByName, m)
  }

  lemma InsertSound(s: Files, m: Plain, f: File)
    requires Sound(s, m) && f.path !in m && Insert(s, f).1 == Done
    ensures Sound(Insert(s, f).0, m[f.path := f])
  {
    TablesGrow(s.filesByPath, s.fileDescs, s.numFiles, m, f);
    var r := Insert(s, f).0.descsByName;
    forall n | n in r && r[n].Declared? ensures r[n].desc.full == n && Declares(m[f.path := f], r[n].desc) {
      InsertedEntry(s, m, f, n);
    }
  }

  lemma InsertedEntry(s: Files, m: Plain, f: File, n: FullName)
    requires Sound(s, m) && f.path !in m && Insert(s, f).1 == Done
    requires var r := Insert(s, f).0.descsByName; n in r && r[n].Declared?
    ensures var r := Insert(s, f).0.descsByName;
            r[n].desc.full == n && Declares(m[f.path := f], r[n].desc)
  {
    var d1 := EnsurePackages(s.descsByName, f.pkg);
    var d2 := d1[f.pkg := Package(d1[f.pkg].files + [f])];
    EnsurePackagesAt(s.descsByName, f.pkg, n);
    PutAllAt(d2, TopLevel(f), n);
    DeclaresGrows(m, f, PutAll(d2, TopLevel(f))[n].desc);
  }

  lemma RemoveKeepsEntries(s: Files, path: string, n: FullName)
    requires path in s.fileDescs
    ensures var r := Remove(s, path).descsByName;
            n in r && r[n].Declared? ==>
              n in s.descsByName && r[n] == s.descsByName[n] && n !in s.fileDescs[path].names
  {
    var rec := s.fileDescs[path];
    CleanupEffect(LeavePackage(s.descsByName - NameSet(rec.names), rec.pkg, path, false), rec.pkg);
  }

  lemma RemoveSound(s: Files, m: Plain, path: string)
    requires Sound(s, m) && path in m
    ensures Sound(Remove(s, path), m - {path})
  {
    TablesShrink(s.filesByPath, s.fileDescs, s.numFiles, m, path);
    var r := Remove(s, path).descsByName;
    forall n | n in r && r[n].Declared? ensures r[n].desc.full == n && Declares(m - {path}, r[n].desc) {
      RemoveKeepsEntries(s, path, n);
      NamesOfMembers(TopLevel(m[path]), n);
      var p :| Offers(m, p, r[n].desc);
      assert Offers(m - {path}, p, r[n].desc);
    }
  }

  lemma PutAgain(m: Plain, f: File)
    ensures (m - {f.path})[f.path := f] == m[f.path := f]
  {
  }

  lemma UpdateSound(s: Files, m: Plain, f: File)
    requires Sound(s, m) && Update(s, f).1 == Done
    ensures Sound(Update(s, f).0, m[f.path := f])
  {
    if f.path in m {
      UpdateReplaces(s, f, m[f.path]);
      RemoveSound(s, m, f.path);
      InsertSound(Remove(s, f.path), m - {f.path}, f);
      PutAgain(m, f);
    } else {
      InsertSound(s, m, f);
    }
  }

  /**
   A panicking update has already dropped the former file from the tables, but kept the names that the
   new file provides too.  This one is left to no file.
   */
  ghost predicate LeavesBehind(s: Files, m: Plain, f: File, n: FullName) {
    && f.path in m && n in NamesOf(TopLevel(m[f.path])) && n in NamesOf(TopLevel(f))
    && n in s.descsByName && s.descsByName[n].Declared? && !Declares(m - {f.path}, s.descsByName[n].desc)
  }

  ghost predicate Strands(s: Files, m: Plain, op: Op) {
    op.UpdateOp? && Step(s, op).1 == Panicked && exists n :: LeavesBehind(s, m, op.file, n)
  }

  lemma DisplacedEntry(s: Files, f: File, n: FullName)
    requires f.path in s.fileDescs
    ensures var (r, gone) := (Displace(s, f).descsByName, s.fileDescs[f.path].names);
            && (n in r && r[n].Declared? <==>
                n in s.descsByName && s.descsByName[n].Declared? && !(n in gone && n !in NamesOf(TopLevel(f))))
            && (n in r && r[n].Declared? ==> r[n] == s.descsByName[n])
  {
    var prev := s.fileDescs[f.path];
    var descs := s.descsByName - (NameSet(prev.names) - NameSet(NamesOf(TopLevel(f))));
    CleanupEffect(LeavePackage(descs, prev.pkg, f.path, false), prev.pkg);
  }

  /**
   An update outside the root package panics exactly when a descriptor has the name of the new package,
   unless it is one that the replaced file declared and the new one does not.
   */
  lemma UpdatePanicsExactly(s: Files, f: File)
    requires f.pkg != []
    ensures Update(s, f).1 in {Done, Panicked}
    ensures Update(s, f).1 == Panicked <==>
            && f.pkg in s.descsByName && s.descsByName[f.pkg].Declared?
            && !(f.path in s.fileDescs && f.pkg in s.fileDescs[f.path].names && f.pkg !in NamesOf(TopLevel(f)))
  {
    var s' := if f.path in s.fileDescs then Displace(s, f) else s;
    if f.path in s.fileDescs { DisplacedEntry(s, f, f.pkg); }
    EnsurePackagesAt(s'.descsByName, f.pkg, f.pkg);
  }

  lemma PanickedInsert(s: Files, m: Plain, f: File)
    requires Insert(s, f).1 == Panicked
    ensures Sound(Insert(s, f).0, m) <==> Sound(s, m)
  {
    forall n ensures var r := EnsurePackages(s.descsByName, f.pkg);
                     (n in r && r[n].Declared? <==> n in s.descsByName && s.descsByName[n].Declared?)
                     && (n in s.descsByName ==> n in r && r[n] == s.descsByName[n])
    {
      EnsurePackagesAt(s.descsByName, f.pkg, n);
    }
  }

  lemma DisplacedSound(s: Files, m: Plain, f: File)
    requires Sound(s, m) && f.path in m
    ensures Sound(Displace(s, f), m - {f.path}) <==> !exists n :: LeavesBehind(s, m, f, n)
  {
    TablesShrink(s.filesByPath, s.fileDescs, s.numFiles, m, f.path);
    DisplacedNames(s, m, f);
  }

  lemma DisplacedNames(s: Files, m: Plain, f: File)
    requires Sound(s, m) && f.path in m
    ensures NamesSound(Displace(s, f).descsByName, m - {f.path}) <==> !exists n :: LeavesBehind(s, m, f, n)
  {
    var r := Displace(s, f).descsByName;
    forall n ensures n in r && r[n].Declared? && !Declares(m - {f.path}, r[n].desc) <==> LeavesBehind(s, m, f, n) {
      DisplacedBehind(s, m, f, n);
    }
    forall n | n in r && r[n].Declared? ensures r[n].desc.full == n { DisplacedEntry(s, f, n); }
  }

  lemma DisplacedBehind(s: Files, m: Plain, f: File, n: FullName)
    requires Sound(s, m) && f.path in m
    ensures var r := Displace(s, f).descsByName;
            n in r && r[n].Declared? && !Declares(m - {f.path}, r[n].desc) <==> LeavesBehind(s, m, f, n)
  {
    var r := Displace(s, f).descsByName;
    DisplacedEntry(s, f, n);
    if n in r && r[n].Declared? { OwnEntry(m, f.path, r[n].desc); }
  }

  /** A descriptor that no other file declares is among the names of the file. */
  lemma OwnEntry(m: Plain, p: string, d: Descriptor)
    requires Declares(m, d) && p in m
    ensures Declares(m - {p}, d) || d.full in NamesOf(TopLevel(m[p]))
  {
    var q :| Offers(m, q, d);
    if q == p { NamesOfMembers(TopLevel(m[p]), d.full); } else { assert Offers(m - {p}, q, d); }
  }

  /** The files of the tables after an operation: an update that panics loses the former file. */
  function SoundStep(s: Files, m: Plain, op: Op): Plain {
    match Step(s, op).1
    case Done => PlainStep(m, op)
    case Panicked => if op.UpdateOp? then m - {op.file.path} else m
    case _ => m
  }

  /** An operation keeps the index sound exactly when it leaves no name behind in a panic. */
  lemma StepSound(s: Files, m: Plain, op: Op)
    requires Sound(s, m)
    ensures Sound(Step(s, op).0, SoundStep(s, m, op)) <==> !Strands(s, m, op)
  {
    match op
    case RegisterOp(f) => RegisterSound(s, m, f);
    case UpdateOp(f) => UpdateStepSound(s, m, f);
    case UnregisterOp(p) => UnregisterSound(s, m, p);
  }

  lemma UpdateStepSound(s: Files, m: Plain, f: File)
    requires Sound(s, m)
    ensures Sound(Step(s, UpdateOp(f)).0, SoundStep(s, m, UpdateOp(f))) <==> !Strands(s, m, UpdateOp(f))
  {
    UpdateEnds(s, m, f);
    if Update(s, f).1 == Panicked { PanickedUpdate(s, m, f); } else { UpdateSound(s, m, f); }
  }

  lemma UpdateEnds(s: Files, m: Plain, f: File)
    ensures Update(s, f).1 in {Done, Panicked} && Step(s, UpdateOp(f)) == Update(s, f)
    ensures SoundStep(s, m, UpdateOp(f)) == if Update(s, f).1 == Done then m[f.path := f] else m - {f.path}
    ensures Strands(s, m, UpdateOp(f)) <==> Update(s, f).1 == Panicked && exists n :: LeavesBehind(s, m, f, n)
  {
  }

  lemma UnregisterSound(s: Files, m: Plain, p: string)
    requires Sound(s, m)
    ensures Sound(Step(s, UnregisterOp(p)).0, SoundStep(s, m, UnregisterOp(p)))
  {
    if p in m { RemoveSound(s, m, p); }
  }

  lemma RegisterSound(s: Files, m: Plain, f: File)
    requires Sound(s, m)
    ensures Sound(Step(s, RegisterOp(f)).0, SoundStep(s, m, RegisterOp(f)))
  {
    RegisterInserts(s, m, f);
    if Register(s, f) == Insert(s, f) { InsertOutcomeSound(s, m, f); }
  }

  lemma RegisterInserts(s: Files, m: Plain, f: File)
    requires Sound(s, m)
    ensures Register(s, f) == Insert(s, f) || (Register(s, f).0 == s && Register(s, f).1 !in {Done, Panicked})
    ensures Register(s, f).1 in {Done, Panicked} ==> f.path !in m
  {
  }

  lemma InsertOutcomeSound(s: Files, m: Plain, f: File)
    requires Sound(s, m) && f.path !in m
    ensures Sound(Insert(s, f).0, if Insert(s, f).1 == Done then m[f.path := f] else m)
  {
    if Insert(s, f).1 == Done { InsertSound(s, m, f); } else { PanickedInsert(s, m, f); }
  }

  lemma PanickedUpdate(s: Files, m: Plain, f: File)
    requires Sound(s, m) && Update(s, f).1 == Panicked
    ensures Sound(Update(s, f).0, m - {f.path}) <==> !exists n :: LeavesBehind(s, m, f, n)
  {
    if f.path in m {
      PanickedInsert(Displace(s, f), m - {f.path}, f);
      DisplacedSound(s, m, f);
    } else {
      assert m - {f.path} == m;
      PanickedInsert(s, m, f);
    }
  }

  ghost predicate NothingStranded(s: Files, m: Plain, ops: seq<Op>)
    decreases ops
  {
    ops == [] || (!Strands(s, m, ops[0]) && NothingStranded(Step(s, ops[0]).0, SoundStep(s, m, ops[0]), ops[1..]))
  }

  /** The files that the tables hold after a history. */
  function TableRun(s: Files, m: Plain, ops: seq<Op>): Plain
    decreases ops
  {
    if ops == [] then m else TableRun(Step(s, ops[0]).0, SoundStep(s, m, ops[0]), ops[1..])
  }

  /** After a history without such a name, panics or not, the index has only descriptors of registered files. */
  lemma {:induction false} HistorySound(s: Files, m: Plain, ops: seq<Op>)
    requires Sound(s, m) && NothingStranded(s, m, ops)
    ensures Sound(Run(s, ops), TableRun(s, m, ops))
    decreases ops
  {
    if ops != [] {
      StepSound(s, m, ops[0]);
      HistorySound(Step(s, ops[0]).0, SoundStep(s, m, ops[0]), ops[1..]);
    }
  }

  /** The index is sound before, between and after the operations. */
  ghost predicate AlwaysSound(s: Files, m: Plain, ops: seq<Op>)
    decreases ops
  {
    Sound(s, m) && (ops == [] || AlwaysSound(Step(s, ops[0]).0, SoundStep(s, m, ops[0]), ops[1..]))
  }

  /** So it stays sound throughout a history exactly when no panic leaves a name behind. */
  lemma {:induction false} SoundExactly(s: Files, m: Plain, ops: seq<Op>)
    requires Sound(s, m)
    ensures AlwaysSound(s, m, ops) <==> NothingStranded(s, m, ops)
    decreases ops
  {
    if ops != [] {
      StepSound(s, m, ops[0]);
      if !Strands(s, m, ops[0]) { SoundExactly(Step(s, ops[0]).0, SoundStep(s, m, ops[0]), ops[1..]); }
    }
  }

  ghost predicate NoPanic(s: Files, ops: seq<Op>)
    decreases ops
  {
    ops == [] || (Step(s, ops[0]).1 != Panicked && NoPanic(Step(s, ops[0]).0, ops[1..]))
  }

  /** In particular every history that does not panic. */
  lemma {:induction false} NoPanicNothingStranded(s: Files, m: Plain, ops: seq<Op>)
    requires NoPanic(s, ops)
    ensures NothingStranded(s, m, ops)
    decreases ops
  {
    if ops != [] { NoPanicNothingStranded(Step(s, ops[0]).0, SoundStep(s, m, ops[0]), ops[1..]); }
  }

  // ---------------------------------------------------------------------------
  // A clash that RegisterFile lets through
  // ---------------------------------------------------------------------------

  const InA := File("a.proto", ["a"], [], [], [], [])
  const InAB := File("ab.proto", ["a", "b"], [], [], [], [])
  const NamedA := File("root.proto", [], [Message("a", [], [], [], [], [])], [], [], [])

  const WithAB := Files(map[[] := Package([]), ["a", "b"] := Package([InAB]), ["a"] := Package([])],
                        map["ab.proto" := [InAB]], map["ab.proto" := RecordOf(InAB)], 1)
  const WithBoth := Files(WithAB.descsByName[["a"] := Package([InA])], WithAB.filesByPath["a.proto" := [InA]],
                          WithAB.fileDescs["a.proto" := RecordOf(InA)], 2)

  lemma RegisterAB()
    ensures Register(Empty, InAB) == (WithAB, Done)
  {
    var d0, d1 := Empty.descsByName, WithAB.descsByName;
    var none: FullName := [];
    assert Parent(["a", "b"]) == ["a"] && Parent(["a"]) == none;
    assert TopLevel(InAB) == [];
    assert PackageFree(d0, ["a"]);
    assert EnsurePackages(d0[["a", "b"] := Package([])], ["a"]) == d1[["a", "b"] := Package([])];
    assert [] + [InAB] == [InAB];
    assert d1[["a", "b"] := Package([])][["a", "b"] := Package([InAB])] == d1;
  }

  lemma RegisterBoth()
    ensures Register(WithAB, InA) == (WithBoth, Done)
  {
    var none: FullName := [];
    assert Parent(["a"]) == none && TopLevel(InA) == [];
    assert PackageFree(WithAB.descsByName, ["a"]) && EnsurePackages(WithAB.descsByName, ["a"]) == WithAB.descsByName;
    assert [] + [InA] == [InA];
  }

  lemma UnregisterA()
    ensures Unregister(WithBoth, "a.proto").0.descsByName == map[[] := Package([]), ["a", "b"] := Package([InAB])]
    ensures "root.proto" !in Unregister(WithBoth, "a.proto").0.filesByPath
  {
    var none: FullName := [];
    assert Parent(["a"]) == none && TopLevel(InA) == [] && RecordOf(InA).names == [];
    var d := WithBoth.descsByName;
    assert d - NameSet([]) == d;
    assert RemoveFileByPath([InA], "a.proto") == [];
    var left := d[["a"] := Package([])];
    assert CleanupPackageChain(left - {["a"]}, none) == left - {["a"]};
  }

  lemma NamedADeclares()
    ensures TopLevel(NamedA) == [MessageD(["a"], Message("a", [], [], [], [], []))]
  {
    assert [] + ["a"] == ["a"];
  }

  lemma RejectedWhileNodeExists()
    ensures Register(Run(Empty, [RegisterOp(InAB)]), NamedA).1 == NameConflict
  {
    RegisterAB();
    NamedADeclares();
    assert Run(Empty, [RegisterOp(InAB)]) == WithAB;
    assert TopLevel(NamedA)[0] in TopLevel(NamedA);
  }

  lemma PrunedRun()
    ensures Run(Empty, [RegisterOp(InAB), RegisterOp(InA), UnregisterOp("a.proto")]) ==
            Unregister(WithBoth, "a.proto").0
  {
    RegisterAB();
    RegisterBoth();
    var ops := [RegisterOp(InAB), RegisterOp(InA), UnregisterOp("a.proto")];
    var s3 := Unregister(WithBoth, "a.proto").0;
    assert ops[1..][1..][1..] == [];
    assert Run(Empty, ops) == Run(WithAB, ops[1..]) == Run(WithBoth, ops[1..][1..]);
    assert Run(WithBoth, ops[1..][1..]) == Run(s3, ops[1..][1..][1..]) == s3;
  }

  lemma AcceptedOncePruned()
    ensures Register(Run(Empty, [RegisterOp(InAB), RegisterOp(InA), UnregisterOp("a.proto")]), NamedA).1 == Done
  {
    PrunedRun();
    UnregisterA();
    NamedADeclares();
    InsertTables(Unregister(WithBoth, "a.proto").0, NamedA);
  }

  /**
   The message `a` clashes with the package `a.b`.  RegisterFile rejects it while the node of
   package `a` exists and accepts it after the last file of `a` itself was unregistered.
   */
  lemma PrunedParentLetsClashIn()
    ensures Register(Run(Empty, [RegisterOp(InAB)]), NamedA).1 == NameConflict
    ensures Register(Run(Empty, [RegisterOp(InAB), RegisterOp(InA), UnregisterOp("a.proto")]), NamedA).1 == Done
    ensures !ClashFree(map["ab.proto" := InAB, "root.proto" := NamedA])
  {
    RejectedWhileNodeExists();
    AcceptedOncePruned();
    NamedADeclares();
    var m := map["ab.proto" := InAB, "root.proto" := NamedA];
    assert Offers(m, "root.proto", TopLevel(NamedA)[0]) && ["a"] <= m["ab.proto"].pkg;
  }
}
