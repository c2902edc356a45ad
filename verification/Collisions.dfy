/**
 Two schemas in one aggregate that claim the same path, extension number or top-level name.  The
 name index looks at the names of types and services only, so that such pairs reach the aggregate;
 this module says exactly what is left of the one when the other is dropped.
 */
module Collisions {
  import opened Descriptors
  import F = FileIndex
  import T = TypeIndex
  import opened SchemaTypes
  import opened Aggregate
  import opened NameIndex

  ghost predicate SharePath(g: F.Plain, s: F.Plain) {
    exists p :: p in g && p in s
  }

  ghost predicate ShareSlot(g: F.Plain, s: F.Plain) {
    exists d, e :: d in TypesIn(g) && e in TypesIn(s) && SameSlot(d, e)
  }

  ghost predicate ShareName(g: F.Plain, s: F.Plain) {
    exists p, q, d, e :: F.Offers(g, p, d) && F.Offers(s, q, e) && d.full == e.full
  }

  /** A file path, an extension number or the name of a top-level descriptor is claimed by both. */
  ghost predicate Share(g: F.Plain, s: F.Plain) {
    SharePath(g, s) || ShareSlot(g, s) || ShareName(g, s)
  }

  ghost predicate KeepsPaths(a: Agg, s: F.Plain) {
    forall p :: p in s ==> p in a.files.filesByPath && a.files.filesByPath[p] == [s[p]]
  }

  ghost predicate KeepsSlots(a: Agg, s: F.Plain) {
    forall d :: d in TypesIn(s) && d.ExtensionD? ==> T.Slotted(a.types.extensionsByMessage, d)
  }

  ghost predicate KeepsNames(a: Agg, s: F.Plain) {
    forall p, d :: F.Offers(s, p, d) ==> F.Named(a.files.descsByName, d)
  }

  /** Every path leads to its file in `s`, every extension number and every top-level name to its descriptor. */
  ghost predicate Keeps(a: Agg, s: F.Plain) {
    KeepsPaths(a, s) && KeepsSlots(a, s) && KeepsNames(a, s)
  }

  /** The aggregate of `s` alone, and so any rebuild, keeps all of `s`. */
  lemma AggKeeps(a: Agg, s: F.Plain)
    requires AggIs(a, s)
    ensures Keeps(a, s)
  {
    forall d | d in TypesIn(s) && d.ExtensionD? ensures T.Slotted(a.types.extensionsByMessage, d) {
      assert Knows(a.types, d);
    }
    forall p, d | F.Offers(s, p, d) ensures F.Named(a.files.descsByName, d) { assert F.Declares(s, d); }
  }

  // ---------------------------------------------------------------------------
  // What applying leaves
  // ---------------------------------------------------------------------------

  lemma {:induction false} UpdateAllKnows(s: T.Types, ds: seq<TypeDesc>, d: TypeDesc)
    requires (Knows(s, d) || d in ds) && forall e :: e in ds && e.full == d.full ==> e == d
    ensures Knows(UpdateAll(s, ds), d)
    decreases ds
  {
    if ds != [] {
      assert ds == [ds[0]] + ds[1..];
      UpdateAllKnows(T.Update(s, ds[0]), ds[1..], d);
    }
  }

  lemma UpdateSlot(s: T.Types, e: TypeDesc, d: TypeDesc)
    requires d.ExtensionD? && (T.Slotted(s.extensionsByMessage, d) || e == d) && (SameSlot(e, d) ==> e == d)
    ensures T.Slotted(T.Update(s, e).extensionsByMessage, d)
  {
  }

  lemma {:induction false} UpdateAllSlot(s: T.Types, ds: seq<TypeDesc>, d: TypeDesc)
    requires d.ExtensionD? && (T.Slotted(s.extensionsByMessage, d) || d in ds)
    requires forall e :: e in ds && SameSlot(e, d) ==> e == d
    ensures T.Slotted(UpdateAll(s, ds).extensionsByMessage, d)
    decreases ds
  {
    if ds != [] {
      assert ds == [ds[0]] + ds[1..];
      assert ds[0] in ds;
      if T.Slotted(s.extensionsByMessage, d) || ds[0] == d { UpdateSlot(s, ds[0], d); }
      UpdateAllSlot(T.Update(s, ds[0]), ds[1..], d);
    }
  }

  ghost predicate Brings(fs: seq<File>, d: TypeDesc) {
    exists f :: f in fs && d in FileTypes(f)
  }

  lemma BringsSplit(fs: seq<File>, d: TypeDesc)
    requires fs != []
    ensures Brings(fs, d) <==> d in FileTypes(fs[0]) || Brings(fs[1..], d)
  {
    assert fs == [fs[0]] + fs[1..];
    if d in FileTypes(fs[0]) { assert fs[0] in fs; }
    if f :| f in fs[1..] && d in FileTypes(f) { assert f in fs; }
  }

  lemma {:induction false} ApplyFilesKnows(a: Agg, fs: seq<File>, d: TypeDesc)
    requires ApplyFiles(a, fs).1 && (Knows(a.types, d) || Brings(fs, d))
    requires forall e: TypeDesc :: Brings(fs, e) && e.full == d.full ==> e == d
    ensures Knows(ApplyFiles(a, fs).0.types, d)
    decreases fs
  {
    if fs != [] {
      forall e: TypeDesc ensures Brings(fs, e) <==> e in FileTypes(fs[0]) || Brings(fs[1..], e) { BringsSplit(fs, e); }
      if Knows(a.types, d) || d in FileTypes(fs[0]) { UpdateAllKnows(a.types, FileTypes(fs[0]), d); }
      ApplyFilesKnows(ApplyFile(a, fs[0]).0, fs[1..], d);
    }
  }

  lemma {:induction false} ApplyFilesSlot(a: Agg, fs: seq<File>, d: TypeDesc)
    requires ApplyFiles(a, fs).1 && d.ExtensionD? && (T.Slotted(a.types.extensionsByMessage, d) || Brings(fs, d))
    requires forall e: TypeDesc :: Brings(fs, e) && SameSlot(e, d) ==> e == d
    ensures T.Slotted(ApplyFiles(a, fs).0.types.extensionsByMessage, d)
    decreases fs
  {
    if fs != [] {
      forall e: TypeDesc ensures Brings(fs, e) <==> e in FileTypes(fs[0]) || Brings(fs[1..], e) { BringsSplit(fs, e); }
      if T.Slotted(a.types.extensionsByMessage, d) || d in FileTypes(fs[0]) {
        UpdateAllSlot(a.types, FileTypes(fs[0]), d);
      }
      ApplyFilesSlot(ApplyFile(a, fs[0]).0, fs[1..], d);
    }
  }

  /** The tables by path hold the file. */
  ghost predicate Filed(s: F.Files, f: File) {
    && f.path in s.filesByPath && s.filesByPath[f.path] == [f]
    && f.path in s.fileDescs && s.fileDescs[f.path] == F.RecordOf(f)
  }

  ghost predicate OnePerPath(fs: seq<File>) {
    forall f, h :: f in fs && h in fs && f.path == h.path ==> f == h
  }

  lemma UpdateFiled(s: F.Files, h: File, f: File)
    requires F.Update(s, h).1 == F.Done && (Filed(s, f) || h == f) && (h.path == f.path ==> h == f)
    ensures Filed(F.Update(s, h).0, f)
  {
  }

  lemma {:induction false} ApplyFilesFiled(a: Agg, fs: seq<File>, f: File)
    requires ApplyFiles(a, fs).1 && (Filed(a.files, f) || f in fs)
    requires forall h :: h in fs && h.path == f.path ==> h == f
    ensures Filed(ApplyFiles(a, fs).0.files, f)
    decreases fs
  {
    if fs != [] {
      assert fs == [fs[0]] + fs[1..];
      assert fs[0] in fs;
      if Filed(a.files, f) || fs[0] == f { UpdateFiled(a.files, fs[0], f); }
      ApplyFilesFiled(ApplyFile(a, fs[0]).0, fs[1..], f);
    }
  }

  lemma {:induction false} ApplyFilesRecord(a: Agg, fs: seq<File>, p: string)
    requires ApplyFiles(a, fs).1 && (p in a.files.fileDescs || exists f :: f in fs && f.path == p)
    ensures p in ApplyFiles(a, fs).0.files.fileDescs
    decreases fs
  {
    if fs != [] {
      assert fs == [fs[0]] + fs[1..];
      ApplyFilesRecord(ApplyFile(a, fs[0]).0, fs[1..], p);
    }
  }

  /** Upserting a file over itself takes no name away. */
  lemma DisplaceSame(s: F.Files, f: File, d: Descriptor)
    requires f.path in s.fileDescs && s.fileDescs[f.path] == F.RecordOf(f) && F.Named(s.descsByName, d)
    ensures F.Named(F.Displace(s, f).descsByName, d)
  {
  }

  lemma InsertNamed(s: F.Files, f: File, d: Descriptor)
    requires F.Insert(s, f).1 == F.Done && (F.Named(s.descsByName, d) || d in TopLevel(f))
    requires forall e :: e in TopLevel(f) && e.full == d.full ==> e == d
    ensures F.Named(F.Insert(s, f).0.descsByName, d)
  {
    F.EnsurePackagesAt(s.descsByName, f.pkg, d.full);
    var descs := F.EnsurePackages(s.descsByName, f.pkg);
    F.PutAllAt(descs[f.pkg := F.Package(descs[f.pkg].files + [f])], TopLevel(f), d.full);
  }

  lemma {:induction false} ApplyFilesNamed(a: Agg, fs: seq<File>, d: Descriptor)
    requires ApplyFiles(a, fs).1 && OnePerPath(fs)
    requires forall f :: f in fs && f.path in a.files.fileDescs ==> a.files.fileDescs[f.path] == F.RecordOf(f)
    requires F.Named(a.files.descsByName, d) || exists f :: f in fs && d in TopLevel(f)
    requires forall f, e :: f in fs && e in TopLevel(f) && e.full == d.full ==> e == d
    ensures F.Named(ApplyFiles(a, fs).0.files.descsByName, d)
    decreases fs
  {
    if fs != [] {
      var f, s := fs[0], a.files;
      assert fs == [f] + fs[1..];
      assert f in fs;
      if F.Named(s.descsByName, d) && f.path in s.fileDescs { DisplaceSame(s, f, d); }
      if F.Named(s.descsByName, d) || d in TopLevel(f) {
        InsertNamed(if f.path in s.fileDescs then F.Displace(s, f) else s, f, d);
      }
      ApplyFilesNamed(ApplyFile(a, f).0, fs[1..], d);
    }
  }

  // ---------------------------------------------------------------------------
  // What removing takes
  // ---------------------------------------------------------------------------

  lemma {:induction false} UnregisterFilesTables(s: F.Files, paths: seq<string>)
    requires PathsOnce(paths) && forall p :: p in paths ==> p in s.fileDescs
    ensures var r := UnregisterFiles(s, paths);
            && r.1 && r.0.filesByPath == s.filesByPath - PathSet(paths)
            && r.0.fileDescs == s.fileDescs - PathSet(paths)
    decreases paths
  {
    if paths != [] {
      OtherPaths(paths);
      assert paths[0] in paths;
      UnregisterFilesTables(F.Unregister(s, paths[0]).0, paths[1..]);
    }
  }

  lemma OtherPaths(paths: seq<string>)
    requires PathsOnce(paths) && paths != []
    ensures PathsOnce(paths[1..]) && paths[0] !in paths[1..] && PathSet(paths) == {paths[0]} + PathSet(paths[1..])
  {
    assert paths == [paths[0]] + paths[1..];
    forall i | 0 <= i < |paths[1..]| ensures paths[1..][i] != paths[0] { assert paths[i + 1] == paths[1..][i]; }
  }

  lemma RemoveNamed(s: F.Files, path: string, d: Descriptor)
    requires path in s.fileDescs
    ensures F.Named(F.Remove(s, path).descsByName, d) <==>
            F.Named(s.descsByName, d) && d.full !in s.fileDescs[path].names
  {
    var rec := s.fileDescs[path];
    F.CleanupEffect(F.LeavePackage(s.descsByName - F.NameSet(rec.names), rec.pkg, path, false), rec.pkg);
  }

  lemma {:induction false} UnregisterFilesNamed(s: F.Files, paths: seq<string>, d: Descriptor)
    requires PathsOnce(paths) && forall p :: p in paths ==> p in s.fileDescs
    ensures F.Named(UnregisterFiles(s, paths).0.descsByName, d) <==>
            F.Named(s.descsByName, d) && forall p :: p in paths ==> d.full !in s.fileDescs[p].names
    decreases paths
  {
    if paths != [] {
      OtherPaths(paths);
      assert paths == [paths[0]] + paths[1..];
      RemoveNamed(s, paths[0], d);
      UnregisterFilesNamed(F.Unregister(s, paths[0]).0, paths[1..], d);
    }
  }

  ghost predicate HasKind(s: T.Types, n: FullName, k: T.Kinds) {
    n in s.typesByName && T.OfKind(s.typesByName[n], k)
  }

  ghost predicate AllOfKind(s: T.Types, names: seq<FullName>, k: T.Kinds) {
    Once(names) && forall n :: n in names ==> HasKind(s, n, k)
  }

  lemma OtherNames(s: T.Types, names: seq<FullName>, k: T.Kinds)
    requires AllOfKind(s, names, k) && names != []
    ensures T.Unregister(s, names[0], k).1 == T.Done
    ensures AllOfKind(T.Unregister(s, names[0], k).0, names[1..], k)
    ensures names[0] !in names[1..] && F.NameSet(names) == {names[0]} + F.NameSet(names[1..])
  {
    assert names == [names[0]] + names[1..];
    assert HasKind(s, names[0], k);
    forall i | 0 <= i < |names[1..]| ensures names[1..][i] != names[0] { assert names[i + 1] == names[1..][i]; }
    forall n | n in names[1..] ensures HasKind(T.Unregister(s, names[0], k).0, n, k) { assert HasKind(s, n, k); }
  }

  lemma {:induction false} UnregisterAllNames(s: T.Types, names: seq<FullName>, k: T.Kinds)
    requires AllOfKind(s, names, k)
    ensures UnregisterAll(s, names, k).1
    ensures UnregisterAll(s, names, k).0.typesByName == s.typesByName - F.NameSet(names)
    decreases names
  {
    if names != [] {
      OtherNames(s, names, k);
      UnregisterAllNames(T.Unregister(s, names[0], k).0, names[1..], k);
    }
  }

  /** Some of the names belongs to an extension with the number of `d`. */
  ghost predicate SlotIn(s: T.Types, names: seq<FullName>, d: Descriptor) {
    exists n :: n in names && n in s.typesByName && SameSlot(s.typesByName[n], d)
  }

  lemma {:induction false} UnregisterAllSlot(s: T.Types, names: seq<FullName>, k: T.Kinds, d: Descriptor)
    requires AllOfKind(s, names, k) && d.ExtensionD?
    ensures T.Slotted(UnregisterAll(s, names, k).0.extensionsByMessage, d) <==>
            T.Slotted(s.extensionsByMessage, d) && !SlotIn(s, names, d)
    decreases names
  {
    if names != [] {
      OtherNames(s, names, k);
      UnregisterSlot(s, names[0], k, d);
      var s' := T.Unregister(s, names[0], k).0;
      UnregisterAllSlot(s', names[1..], k, d);
      SlotInSplit(s, names, s', d);
    }
  }

  lemma SlotInSplit(s: T.Types, names: seq<FullName>, s': T.Types, d: Descriptor)
    requires names != [] && names[0] !in names[1..] && names[0] in s.typesByName
    requires s'.typesByName == s.typesByName - {names[0]}
    ensures SlotIn(s, names, d) <==> SameSlot(s.typesByName[names[0]], d) || SlotIn(s', names[1..], d)
  {
    assert names == [names[0]] + names[1..];
    assert names[0] in names;
    if n :| n in names && n in s.typesByName && SameSlot(s.typesByName[n], d) {
      assert n == names[0] || (n in names[1..] && n in s'.typesByName);
    }
    if n :| n in names[1..] && n in s'.typesByName && SameSlot(s'.typesByName[n], d) { assert n in names; }
  }

  lemma UnregisterSlot(s: T.Types, n: FullName, k: T.Kinds, d: Descriptor)
    requires HasKind(s, n, k) && d.ExtensionD?
    ensures T.Slotted(T.Unregister(s, n, k).0.extensionsByMessage, d) <==>
            T.Slotted(s.extensionsByMessage, d) && !SameSlot(s.typesByName[n], d)
  {
    if s.typesByName[n].ExtensionD? { DropSlotted(s.extensionsByMessage, s.typesByName[n].extension, d); }
  }

  lemma DropSlotted(exts: map<FullName, map<int, Descriptor>>, x: Extension, d: Descriptor)
    requires d.ExtensionD?
    ensures T.Slotted(T.DropSlot(exts, x), d) <==>
            T.Slotted(exts, d) && !(x.extendee == d.extension.extendee && x.number == d.extension.number)
  {
    if x.extendee in exts {
      var inner := exts[x.extendee] - {x.number};
      var i := d.extension.number;
      assert i in inner <==> i in exts[x.extendee] && i != x.number;
      assert i in inner ==> i in inner.Keys;
    }
  }

  // ---------------------------------------------------------------------------
  // When removing succeeds
  // ---------------------------------------------------------------------------

  lemma {:induction false} UnregisterFilesExact(s: F.Files, paths: seq<string>)
    requires PathsOnce(paths)
    ensures UnregisterFiles(s, paths).1 <==> forall p :: p in paths ==> p in s.fileDescs
    decreases paths
  {
    if paths != [] {
      OtherPaths(paths);
      assert paths == [paths[0]] + paths[1..];
      assert paths[0] in paths;
      if paths[0] in s.fileDescs { UnregisterFilesExact(F.Unregister(s, paths[0]).0, paths[1..]); }
    }
  }

  lemma {:induction false} UnregisterAllExact(s: T.Types, names: seq<FullName>, k: T.Kinds)
    requires Once(names)
    ensures UnregisterAll(s, names, k).1 <==> AllOfKind(s, names, k)
    decreases names
  {
    if AllOfKind(s, names, k) {
      UnregisterAllNames(s, names, k);
    } else {
      var s', rest := T.Unregister(s, names[0], k).0, names[1..];
      assert names == [names[0]] + rest;
      if HasKind(s, names[0], k) {
        var n :| n in names && !HasKind(s, n, k);
        assert n in rest && !HasKind(s', n, k);
        UnregisterAllExact(s', rest, k);
      }
    }
  }

  /** Every name of every list is registered with its kind. */
  ghost predicate AllTyped(s: T.Types, fp: Fingerprint) {
    forall k: T.Kinds, n :: n in PrintNames(fp, k) ==> HasKind(s, n, k)
  }

  ghost predicate ListsOnce(fp: Fingerprint) {
    PathsOnce(fp.filePaths) && forall k: T.Kinds :: Once(PrintNames(fp, k))
  }

  /** Dropping the names of one kind takes nothing from the others. */
  lemma OtherKindsStay(s: T.Types, names: seq<FullName>, k: T.Kinds, n: FullName, j: T.Kinds)
    requires AllOfKind(s, names, k) && j != k
    ensures HasKind(UnregisterAll(s, names, k).0, n, j) <==> HasKind(s, n, j)
  {
    UnregisterAllNames(s, names, k);
    if n in names { assert HasKind(s, n, k); }
  }

  lemma KindsStay(s: T.Types, names: seq<FullName>, k: T.Kinds, others: seq<FullName>, j: T.Kinds)
    requires AllOfKind(s, names, k) && j != k
    ensures AllOfKind(UnregisterAll(s, names, k).0, others, j) <==> AllOfKind(s, others, j)
  {
    forall n ensures HasKind(UnregisterAll(s, names, k).0, n, j) <==> HasKind(s, n, j) {
      OtherKindsStay(s, names, k, n, j);
    }
  }

  /** Unregistering a fingerprint succeeds exactly when every path and every name of it is registered. */
  lemma RemovePrintExact(a: Agg, fp: Fingerprint)
    requires ListsOnce(fp)
    ensures RemovePrint(a, fp).1 <==>
            (forall p :: p in fp.filePaths ==> p in a.files.fileDescs) && AllTyped(a.types, fp)
  {
    UnregisterFilesExact(a.files, fp.filePaths);
    RemoveTypesExact(a.types, fp);
  }

  /** With path `i` the first that is missing, the paths before it are gone and nothing else is touched. */
  lemma RemovePrintStops(a: Agg, fp: Fingerprint, i: nat)
    requires PathsOnce(fp.filePaths) && i < |fp.filePaths| && fp.filePaths[i] !in a.files.fileDescs
    requires forall j :: 0 <= j < i ==> fp.filePaths[j] in a.files.fileDescs
    ensures RemovePrint(a, fp) == (Agg(UnregisterFiles(a.files, fp.filePaths[..i]).0, a.types), false)
    ensures UnregisterFiles(a.files, fp.filePaths[..i]).0.fileDescs == a.files.fileDescs - PathSet(fp.filePaths[..i])
  {
    UnregisterFilesStops(a.files, fp.filePaths, i);
    UnregisterFilesTables(a.files, fp.filePaths[..i]);
  }

  lemma {:induction false} UnregisterFilesStops(s: F.Files, paths: seq<string>, i: nat)
    requires PathsOnce(paths) && i < |paths| && paths[i] !in s.fileDescs
    requires forall j :: 0 <= j < i ==> paths[j] in s.fileDescs
    ensures UnregisterFiles(s, paths) == (UnregisterFiles(s, paths[..i]).0, false)
    decreases i
  {
    if i > 0 {
      var rest := paths[1..];
      OtherPaths(paths);
      assert paths[0] in s.fileDescs;
      assert paths[..i][1..] == rest[..i - 1] && rest[i - 1] == paths[i];
      UnregisterFilesStops(F.Unregister(s, paths[0]).0, rest, i - 1);
    }
  }

  lemma RemoveTypesExact(s: T.Types, fp: Fingerprint)
    requires ListsOnce(fp)
    ensures var t1 := UnregisterAll(s, fp.messages, T.Messages);
            var t2 := UnregisterAll(t1.0, fp.enums, T.Enums);
            (t1.1 && t2.1 && UnregisterAll(t2.0, fp.extensions, T.Extensions).1) <==> AllTyped(s, fp)
  {
    assert Once(PrintNames(fp, T.Messages)) && Once(PrintNames(fp, T.Enums)) && Once(PrintNames(fp, T.Extensions));
    AllTypedByKind(s, fp);
    UnregisterAllExact(s, fp.messages, T.Messages);
    if AllOfKind(s, fp.messages, T.Messages) {
      var t1 := UnregisterAll(s, fp.messages, T.Messages).0;
      KindsStay(s, fp.messages, T.Messages, fp.enums, T.Enums);
      KindsStay(s, fp.messages, T.Messages, fp.extensions, T.Extensions);
      UnregisterAllExact(t1, fp.enums, T.Enums);
      if AllOfKind(t1, fp.enums, T.Enums) {
        KindsStay(t1, fp.enums, T.Enums, fp.extensions, T.Extensions);
        UnregisterAllExact(UnregisterAll(t1, fp.enums, T.Enums).0, fp.extensions, T.Extensions);
      }
    }
  }

  lemma AllTypedByKind(s: T.Types, fp: Fingerprint)
    requires ListsOnce(fp)
    ensures AllTyped(s, fp) <==> AllOfKind(s, fp.messages, T.Messages) && AllOfKind(s, fp.enums, T.Enums) &&
                                 AllOfKind(s, fp.extensions, T.Extensions)
  {
    assert Once(PrintNames(fp, T.Messages)) && Once(PrintNames(fp, T.Enums)) && Once(PrintNames(fp, T.Extensions));
    if AllTyped(s, fp) {
      assert forall n :: n in PrintNames(fp, T.Messages) ==> HasKind(s, n, T.Messages);
      assert forall n :: n in PrintNames(fp, T.Enums) ==> HasKind(s, n, T.Enums);
      assert forall n :: n in PrintNames(fp, T.Extensions) ==> HasKind(s, n, T.Extensions);
    }
    forall k: T.Kinds, n | n in PrintNames(fp, k) && AllOfKind(s, fp.messages, T.Messages) &&
                           AllOfKind(s, fp.enums, T.Enums) && AllOfKind(s, fp.extensions, T.Extensions)
      ensures HasKind(s, n, k)
    {
      match k
      case Messages =>
      case Enums =>
      case Extensions =>
    }
  }

  // ---------------------------------------------------------------------------
  // Dropping a schema
  // ---------------------------------------------------------------------------

  /** All of the types `ds` of the kinds in `ks` are known. */
  ghost predicate KnowsKinds(s: T.Types, ds: set<TypeDesc>, ks: set<T.Kinds>) {
    forall d :: d in ds && KindOf(d) in ks ==> Knows(s, d)
  }

  lemma DropKind(s: T.Types, ds: set<TypeDesc>, ks: set<T.Kinds>, names: seq<FullName>, k: T.Kinds, x: TypeDesc)
    requires Coherent(ds) && NamesExact(names, ds, k) && k in ks && KnowsKinds(s, ds, ks) && x.ExtensionD?
    ensures UnregisterAll(s, names, k).1 && KnowsKinds(UnregisterAll(s, names, k).0, ds, ks - {k})
    ensures T.Slotted(UnregisterAll(s, names, k).0.extensionsByMessage, x) <==>
            T.Slotted(s.extensionsByMessage, x) && forall d :: d in ds && KindOf(d) == k ==> !SameSlot(d, x)
  {
    forall n | n in names ensures HasKind(s, n, k) { var d := NamedBy(s, ds, ks, names, k, n); }
    assert AllOfKind(s, names, k);
    UnregisterAllNames(s, names, k);
    UnregisterAllSlot(s, names, k, x);
    forall d | d in ds && KindOf(d) in ks - {k} ensures Knows(UnregisterAll(s, names, k).0, d) {
      if d.full in names { var e := NamedBy(s, ds, ks, names, k, d.full); }
    }
    SlotsOfKind(s, ds, ks, names, k, x);
  }

  lemma NamedBy(s: T.Types, ds: set<TypeDesc>, ks: set<T.Kinds>, names: seq<FullName>, k: T.Kinds, n: FullName)
    returns (d: TypeDesc)
    requires NamesExact(names, ds, k) && k in ks && KnowsKinds(s, ds, ks) && n in names
    ensures d in ds && KindOf(d) == k && d.full == n && HasKind(s, n, k) && s.typesByName[n] == d
  {
    assert HasName(ds, k, n);
    d :| d in ds && T.OfKind(d, k) && d.full == n;
    assert Knows(s, d);
  }

  lemma SlotsOfKind(s: T.Types, ds: set<TypeDesc>, ks: set<T.Kinds>, names: seq<FullName>, k: T.Kinds, x: TypeDesc)
    requires NamesExact(names, ds, k) && k in ks && KnowsKinds(s, ds, ks)
    ensures SlotIn(s, names, x) <==> exists d :: d in ds && KindOf(d) == k && SameSlot(d, x)
  {
    if n :| n in names && n in s.typesByName && SameSlot(s.typesByName[n], x) {
      var d := NamedBy(s, ds, ks, names, k, n);
    }
    if d :| d in ds && KindOf(d) == k && SameSlot(d, x) {
      assert HasName(ds, k, d.full);
      assert Knows(s, d);
    }
  }

  ghost predicate Withdraws(s: T.Types, ds: set<TypeDesc>, x: TypeDesc, s': T.Types)
    requires x.ExtensionD?
  {
    T.Slotted(s'.extensionsByMessage, x) <==>
    T.Slotted(s.extensionsByMessage, x) && forall d :: d in ds ==> !SameSlot(d, x)
  }

  /** The fingerprint finds all types of the dropped schema and takes exactly their numbers. */
  lemma DropTypes(s: T.Types, ds: set<TypeDesc>, fp: Fingerprint, x: TypeDesc)
    requires Coherent(ds) && (forall k: T.Kinds :: NamesExact(PrintNames(fp, k), ds, k))
    requires (forall d :: d in ds ==> Knows(s, d)) && x.ExtensionD?
    ensures var t1 := UnregisterAll(s, fp.messages, T.Messages);
            var t2 := UnregisterAll(t1.0, fp.enums, T.Enums);
            var t3 := UnregisterAll(t2.0, fp.extensions, T.Extensions);
            t1.1 && t2.1 && t3.1 && Withdraws(s, ds, x, t3.0)
  {
    var ks := {T.Messages, T.Enums, T.Extensions};
    assert NamesExact(PrintNames(fp, T.Messages), ds, T.Messages);
    DropKind(s, ds, ks, fp.messages, T.Messages, x);
    var t1 := UnregisterAll(s, fp.messages, T.Messages).0;
    assert NamesExact(PrintNames(fp, T.Enums), ds, T.Enums);
    DropKind(t1, ds, ks - {T.Messages}, fp.enums, T.Enums, x);
    var t2 := UnregisterAll(t1, fp.enums, T.Enums).0;
    assert NamesExact(PrintNames(fp, T.Extensions), ds, T.Extensions);
    DropKind(t2, ds, ks - {T.Messages} - {T.Enums}, fp.extensions, T.Extensions, x);
  }

  /** The files of both schemas, in any order and as often as they come. */
  ghost predicate Joint(order: seq<File>, g: F.Plain, s: F.Plain) {
    forall f: File :: f in order <==> (f.path in g && g[f.path] == f) || (f.path in s && s[f.path] == f)
  }

  /** What the name index asks of two schemas before they reach the aggregate. */
  ghost predicate IndexedApart(g: F.Plain, s: F.Plain) {
    PlainNames(g) !! PlainNames(s)
  }

  lemma BringsEither(order: seq<File>, g: F.Plain, s: F.Plain, d: TypeDesc)
    requires F.Keyed(g) && F.Keyed(s) && Joint(order, g, s)
    ensures Brings(order, d) <==> d in TypesIn(g) || d in TypesIn(s)
  {
    if f :| f in order && d in FileTypes(f) {
      assert f.path in g && g[f.path] == f ==> d in TypesIn(g);
    }
    if p :| p in g && d in FileTypes(g[p]) { assert g[p] in order; }
    if p :| p in s && d in FileTypes(s[p]) { assert s[p] in order; }
  }

  lemma TypeIndexed(m: F.Plain, d: TypeDesc)
    requires d in TypesIn(m)
    ensures d.full in PlainNames(m)
  {
    var p :| p in m && d in FileTypes(m[p]);
    FullsMembers(FileTypes(m[p]), d.full);
    assert d.full in IndexedNames(m[p]);
  }

  /** Both schemas are clean and pass the index, and the aggregate was built from their files. */
  ghost predicate Built(a: Agg, order: seq<File>, g: F.Plain, s: F.Plain) {
    Clean(g) && Clean(s) && IndexedApart(g, s) && Joint(order, g, s) && ApplyFiles(Blank, order) == (a, true)
  }

  lemma NamesApartHere(g: F.Plain, s: F.Plain, d: TypeDesc, e: TypeDesc)
    requires IndexedApart(g, s) && d in TypesIn(g) && e in TypesIn(s)
    ensures d.full != e.full
  {
    TypeIndexed(g, d);
    TypeIndexed(s, e);
    var (x, y) := (PlainNames(g), PlainNames(s));
    assert x !! y;
  }

  lemma SameNameSameType(g: F.Plain, s: F.Plain, d: TypeDesc, e: TypeDesc)
    requires Coherent(TypesIn(g)) && IndexedApart(g, s) && d in TypesIn(g) && (e in TypesIn(g) || e in TypesIn(s))
    requires d.full == e.full
    ensures d == e
  {
    if e in TypesIn(s) { NamesApartHere(g, s, d, e); }
  }

  lemma BuiltKnows(a: Agg, order: seq<File>, g: F.Plain, s: F.Plain, d: TypeDesc)
    requires Built(a, order, g, s) && d in TypesIn(g)
    ensures Knows(a.types, d)
  {
    BringsEither(order, g, s, d);
    CleanCoherent(g);
    forall e: TypeDesc | Brings(order, e) && e.full == d.full ensures e == d {
      BringsEither(order, g, s, e);
      SameNameSameType(g, s, d, e);
    }
    ApplyFilesKnows(Blank, order, d);
  }

  lemma BuiltRecords(a: Agg, order: seq<File>, g: F.Plain, s: F.Plain, p: string)
    requires Built(a, order, g, s) && p in g
    ensures p in a.files.fileDescs
    ensures p !in s ==> a.files.fileDescs[p] == F.RecordOf(g[p])
  {
    assert g[p] in order;
    ApplyFilesRecord(Blank, order, p);
    if p !in s { ApplyFilesFiled(Blank, order, g[p]); }
  }

  /** What the fingerprint of `g` takes out of an aggregate built from both. */
  lemma DropEffect(a: Agg, order: seq<File>, g: F.Plain, s: F.Plain, fp: Fingerprint)
    requires Built(a, order, g, s) && PrintIs(fp, g)
    ensures UnregisterFiles(a.files, fp.filePaths).1
    ensures RemovePrint(a, fp).1 && RemovePrint(a, fp).0.files == UnregisterFiles(a.files, fp.filePaths).0
    ensures RemovePrint(a, fp).0.files.filesByPath == a.files.filesByPath - g.Keys
    ensures forall x: TypeDesc :: x.ExtensionD? ==> Withdraws(a.types, TypesIn(g), x, RemovePrint(a, fp).0.types)
  {
    forall p | p in fp.filePaths ensures p in a.files.fileDescs {
      assert p in PathSet(fp.filePaths);
      BuiltRecords(a, order, g, s, p);
    }
    UnregisterFilesTables(a.files, fp.filePaths);
    CleanCoherent(g);
    forall d | d in TypesIn(g) ensures Knows(a.types, d) { BuiltKnows(a, order, g, s, d); }
    forall x: TypeDesc | x.ExtensionD? ensures Withdraws(a.types, TypesIn(g), x, RemovePrint(a, fp).0.types) {
      DropTypes(a.types, TypesIn(g), fp, x);
    }
    DropTypes(a.types, TypesIn(g), fp, OneExtension);
  }

  const OneExtension: TypeDesc := ExtensionD([], Extension("", 0, []))

  // ---------------------------------------------------------------------------
  // Exactly what is lost
  // ---------------------------------------------------------------------------

  lemma SharedPathLost(a: Agg, order: seq<File>, g: F.Plain, s: F.Plain, fp: Fingerprint)
    requires Built(a, order, g, s) && PrintIs(fp, g) && SharePath(g, s)
    ensures !KeepsPaths(RemovePrint(a, fp).0, s)
  {
    DropEffect(a, order, g, s, fp);
    var p :| p in g && p in s;
    assert p !in RemovePrint(a, fp).0.files.filesByPath;
  }

  lemma SharedSlotLost(a: Agg, order: seq<File>, g: F.Plain, s: F.Plain, fp: Fingerprint)
    requires Built(a, order, g, s) && PrintIs(fp, g) && ShareSlot(g, s)
    ensures !KeepsSlots(RemovePrint(a, fp).0, s)
  {
    DropEffect(a, order, g, s, fp);
    var d, e :| d in TypesIn(g) && e in TypesIn(s) && SameSlot(d, e);
    assert Withdraws(a.types, TypesIn(g), e, RemovePrint(a, fp).0.types);
  }

  lemma SharedNameLost(a: Agg, order: seq<File>, g: F.Plain, s: F.Plain, fp: Fingerprint)
    requires Built(a, order, g, s) && PrintIs(fp, g) && ShareName(g, s) && !SharePath(g, s)
    ensures !KeepsNames(RemovePrint(a, fp).0, s)
  {
    var p, q, d, e :| F.Offers(g, p, d) && F.Offers(s, q, e) && d.full == e.full;
    NameTaken(a, order, g, s, fp, p, d, e);
  }

  lemma NameTaken(a: Agg, order: seq<File>, g: F.Plain, s: F.Plain, fp: Fingerprint,
                  p: string, d: Descriptor, e: Descriptor)
    requires Built(a, order, g, s) && PrintIs(fp, g) && F.Offers(g, p, d) && p !in s && d.full == e.full
    ensures !F.Named(RemovePrint(a, fp).0.files.descsByName, e)
  {
    DropEffect(a, order, g, s, fp);
    forall r | r in fp.filePaths ensures r in a.files.fileDescs {
      assert r in PathSet(fp.filePaths);
      BuiltRecords(a, order, g, s, r);
    }
    UnregisterFilesNamed(a.files, fp.filePaths, e);
    BuiltRecords(a, order, g, s, p);
    F.NamesOfMembers(TopLevel(g[p]), d.full);
    assert p in PathSet(fp.filePaths);
  }

  lemma PathKept(a: Agg, order: seq<File>, g: F.Plain, s: F.Plain, fp: Fingerprint, p: string)
    requires Built(a, order, g, s) && PrintIs(fp, g) && p in s && p !in g
    ensures var r := RemovePrint(a, fp).0.files.filesByPath;
            p in r && r[p] == [s[p]]
  {
    DropEffect(a, order, g, s, fp);
    assert s[p] in order;
    ApplyFilesFiled(Blank, order, s[p]);
  }

  lemma SlotKept(a: Agg, order: seq<File>, g: F.Plain, s: F.Plain, fp: Fingerprint, d: TypeDesc)
    requires Built(a, order, g, s) && PrintIs(fp, g) && !ShareSlot(g, s) && d in TypesIn(s) && d.ExtensionD?
    ensures T.Slotted(RemovePrint(a, fp).0.types.extensionsByMessage, d)
  {
    BringsEither(order, g, s, d);
    forall e: TypeDesc | Brings(order, e) && SameSlot(e, d) ensures e == d {
      BringsEither(order, g, s, e);
    }
    ApplyFilesSlot(Blank, order, d);
    DropEffect(a, order, g, s, fp);
    assert Withdraws(a.types, TypesIn(g), d, RemovePrint(a, fp).0.types);
  }

  lemma BuiltNamed(a: Agg, order: seq<File>, g: F.Plain, s: F.Plain, p: string, d: Descriptor)
    requires Built(a, order, g, s) && !SharePath(g, s) && !ShareName(g, s) && F.Offers(s, p, d)
    ensures F.Named(a.files.descsByName, d)
  {
    assert s[p] in order;
    assert OnePerPath(order);
    forall f, e | f in order && e in TopLevel(f) && e.full == d.full ensures e == d {
      if f.path in g && g[f.path] == f { assert F.Offers(g, f.path, e); } else { assert F.Offers(s, f.path, e); }
    }
    ApplyFilesNamed(Blank, order, d);
  }

  lemma NameKept(a: Agg, order: seq<File>, g: F.Plain, s: F.Plain, fp: Fingerprint, p: string, d: Descriptor)
    requires Built(a, order, g, s) && PrintIs(fp, g) && !SharePath(g, s) && !ShareName(g, s) && F.Offers(s, p, d)
    ensures F.Named(RemovePrint(a, fp).0.files.descsByName, d)
  {
    BuiltNamed(a, order, g, s, p, d);
    forall r | r in fp.filePaths ensures r in a.files.fileDescs && d.full !in a.files.fileDescs[r].names {
      assert r in PathSet(fp.filePaths);
      BuiltRecords(a, order, g, s, r);
      F.NamesOfMembers(TopLevel(g[r]), d.full);
      if e :| e in TopLevel(g[r]) && e.full == d.full { assert F.Offers(g, r, e); }
    }
    UnregisterFilesNamed(a.files, fp.filePaths, d);
    DropEffect(a, order, g, s, fp);
  }

  /**
   In an aggregate built from the files of both, in any order, dropping `g` never fails, and it leaves
   every path, extension number and top-level name of `s` in place exactly when they share none.
   */
  lemma DropKeepsExactly(a: Agg, order: seq<File>, g: F.Plain, s: F.Plain, fp: Fingerprint)
    requires Built(a, order, g, s) && PrintIs(fp, g)
    ensures RemovePrint(a, fp).1 && (Keeps(RemovePrint(a, fp).0, s) <==> !Share(g, s))
  {
    DropEffect(a, order, g, s, fp);
    if SharePath(g, s) {
      SharedPathLost(a, order, g, s, fp);
    } else if ShareSlot(g, s) {
      SharedSlotLost(a, order, g, s, fp);
    } else if ShareName(g, s) {
      SharedNameLost(a, order, g, s, fp);
    } else {
      NothingLost(a, order, g, s, fp);
    }
  }

  lemma NothingLost(a: Agg, order: seq<File>, g: F.Plain, s: F.Plain, fp: Fingerprint)
    requires Built(a, order, g, s) && PrintIs(fp, g) && !Share(g, s)
    ensures Keeps(RemovePrint(a, fp).0, s)
  {
    var r := RemovePrint(a, fp).0;
    forall p | p in s ensures p in r.files.filesByPath && r.files.filesByPath[p] == [s[p]] {
      PathKept(a, order, g, s, fp, p);
    }
    forall d | d in TypesIn(s) && d.ExtensionD? ensures T.Slotted(r.types.extensionsByMessage, d) {
      SlotKept(a, order, g, s, fp, d);
    }
    forall p, d | F.Offers(s, p, d) ensures F.Named(r.files.descsByName, d) {
      NameKept(a, order, g, s, fp, p, d);
    }
  }
}
