/**
 The state of a NamespacedFiles registry as a value, the effect of each operation on
 it, and the invariant that ties its redundant indexes to one plain path-to-file map.
 */
module FileIndex {
  import opened Descriptors

  datatype Entry = Package(files: seq<File>) | Declared(desc: Descriptor)
  datatype FileRecord = FileRecord(pkg: FullName, names: seq<FullName>)

  datatype Files = Files(
    descsByName: map<FullName, Entry>,
    filesByPath: map<string, seq<File>>,
    fileDescs: map<string, FileRecord>,
    numFiles: int)

  const Empty := Files(map[[] := Package([])], map[], map[], 0)

  datatype Outcome = Done | PathTaken | PackageConflict | NameConflict | NotFound | Panicked | ReadOnly

  // ---------------------------------------------------------------------------
  // Effects
  // ---------------------------------------------------------------------------

  function NamesOf(ds: seq<Descriptor>): seq<FullName> {
    seq(|ds|, i requires 0 <= i < |ds| => ds[i].full)
  }

  function NameSet(names: seq<FullName>): set<FullName> {
    set n | n in names
  }

  function RecordOf(f: File): FileRecord {
    FileRecord(f.pkg, NamesOf(TopLevel(f)))
  }

  /** Creates the package nodes that are missing on the way from `name` up to the root. */
  function EnsurePackages(descs: map<FullName, Entry>, name: FullName): map<FullName, Entry>
    decreases |name|
  {
    if name == [] then descs else
      EnsurePackages(if name in descs then descs else descs[name := Package([])], Parent(name))
  }

  function PutAll(descs: map<FullName, Entry>, ds: seq<Descriptor>): map<FullName, Entry>
    decreases ds
  {
    if ds == [] then descs else PutAll(descs[ds[0].full := Declared(ds[0])], ds[1..])
  }

  function RemoveFileByPath(files: seq<File>, path: string): seq<File> {
    if files == [] then [] else
    if files[0].path == path then files[1..] else [files[0]] + RemoveFileByPath(files[1..], path)
  }

  /** Deletes the package nodes without files from `name` upwards, up to the first other node. */
  function CleanupPackageChain(descs: map<FullName, Entry>, name: FullName): map<FullName, Entry>
    decreases |name|
  {
    if name == [] || name !in descs || !descs[name].Package? || descs[name].files != [] then descs else
      CleanupPackageChain(descs - {name}, Parent(name))
  }

  /** Takes the file out of the node of its package; with `prune`, empty nodes go too. */
  function LeavePackage(descs: map<FullName, Entry>, pkg: FullName, path: string, prune: bool)
    : map<FullName, Entry>
  {
    if pkg in descs && descs[pkg].Package? then
      var left := descs[pkg := Package(RemoveFileByPath(descs[pkg].files, path))];
      if prune then CleanupPackageChain(left, pkg) else left
    else descs
  }

  /** Adding a file panics when a descriptor already has the name of its package. */
  function Insert(s: Files, f: File): (Files, Outcome) {
    var descs := EnsurePackages(s.descsByName, f.pkg);
    if f.pkg !in descs || !descs[f.pkg].Package? then (s.(descsByName := descs), Panicked) else
      var descs := descs[f.pkg := Package(descs[f.pkg].files + [f])];
      (Files(PutAll(descs, TopLevel(f)), s.filesByPath[f.path := [f]],
             s.fileDescs[f.path := RecordOf(f)], s.numFiles + 1), Done)
  }

  predicate PackageFree(descs: map<FullName, Entry>, name: FullName)
    decreases |name|
  {
    name == [] || ((name !in descs || descs[name].Package?) && PackageFree(descs, Parent(name)))
  }

  predicate NamesFree(descs: map<FullName, Entry>, ds: seq<Descriptor>) {
    forall d :: d in ds ==> d.full !in descs
  }

  function Register(s: Files, f: File): (Files, Outcome) {
    if f.path in s.filesByPath && s.filesByPath[f.path] != [] then (s, PathTaken) else
    if !PackageFree(s.descsByName, f.pkg) then (s, PackageConflict) else
    if !NamesFree(s.descsByName, TopLevel(f)) then (s, NameConflict) else
      Insert(s, f)
  }

  /** The part of UnregisterFile after the lookup. */
  function Remove(s: Files, path: string): Files
    requires path in s.fileDescs
  {
    var prev := s.fileDescs[path];
    var descs := s.descsByName - NameSet(prev.names);
    Files(LeavePackage(descs, prev.pkg, path, true), s.filesByPath - {path}, s.fileDescs - {path}, s.numFiles - 1)
  }

  function Unregister(s: Files, path: string): (Files, Outcome) {
    if path !in s.fileDescs then (s, NotFound) else (Remove(s, path), Done)
  }

  /** UpdateFile before it inserts the new file: drops what the new file does not provide. */
  function Displace(s: Files, f: File): Files
    requires f.path in s.fileDescs
  {
    var prev := s.fileDescs[f.path];
    var descs := s.descsByName - (NameSet(prev.names) - NameSet(NamesOf(TopLevel(f))));
    Files(LeavePackage(descs, prev.pkg, f.path, prev.pkg != f.pkg),
          s.filesByPath - {f.path}, s.fileDescs - {f.path}, s.numFiles - 1)
  }

  function Update(s: Files, f: File): (Files, Outcome) {
    Insert(if f.path in s.fileDescs then Displace(s, f) else s, f)
  }

  // ---------------------------------------------------------------------------
  // The plain map behind the indexes
  // ---------------------------------------------------------------------------

  type Plain = map<string, File>

  ghost predicate Keyed(m: Plain) {
    forall p :: p in m ==> m[p].path == p
  }

  ghost predicate Offers(m: Plain, p: string, d: Descriptor) {
    p in m && d in TopLevel(m[p])
  }

  ghost predicate Declares(m: Plain, d: Descriptor) {
    exists p :: Offers(m, p, d)
  }

  /** No two top-level descriptors share a name. */
  ghost predicate NamesDistinct(m: Plain) {
    forall p, q, d, e :: Offers(m, p, d) && Offers(m, q, e) && d.full == e.full ==> p == q && d == e
  }

  /** No top-level descriptor has the name of a package or of a parent of a package. */
  ghost predicate PackagesDistinct(m: Plain) {
    forall p, q, d :: Offers(m, p, d) && q in m ==> !(d.full <= m[q].pkg)
  }

  ghost predicate ClashFree(m: Plain) {
    Keyed(m) && NamesDistinct(m) && PackagesDistinct(m)
  }

  ghost predicate IsPackage(descs: map<FullName, Entry>, n: FullName) {
    n in descs && descs[n].Package?
  }

  ghost predicate NoDuplicates(files: seq<File>) {
    forall i, j :: 0 <= i < j < |files| ==> files[i].path != files[j].path
  }

  ghost predicate Named(descs: map<FullName, Entry>, d: Descriptor) {
    d.full in descs && descs[d.full] == Declared(d)
  }

  /** The named entries are exactly the top-level descriptors of the files. */
  ghost predicate NamesMatch(descs: map<FullName, Entry>, m: Plain) {
    && (forall n :: n in descs && descs[n].Declared? ==> descs[n].desc.full == n)
    && (forall d :: Named(descs, d) <==> Declares(m, d))
  }

  ghost predicate Holds(files: seq<File>, m: Plain, n: FullName) {
    && NoDuplicates(files)
    && (forall f :: f in files <==> f.path in m && m[f.path] == f && f.pkg == n)
  }

  /** Every package node lists exactly the files of its package, and every such package has a node. */
  ghost predicate PackagesMatch(descs: map<FullName, Entry>, m: Plain) {
    && IsPackage(descs, [])
    && (forall p :: p in m ==> IsPackage(descs, m[p].pkg))
    && (forall n :: IsPackage(descs, n) ==> Holds(descs[n].files, m, n))
  }

  ghost predicate HasChild(descs: map<FullName, Entry>, n: FullName) {
    exists x: Name :: IsPackage(descs, n + [x])
  }

  /** A package node without files has a package node right below it. */
  ghost predicate Supported(descs: map<FullName, Entry>) {
    forall n :: IsPackage(descs, n) && n != [] && descs[n].files == [] ==> HasChild(descs, n)
  }

  /** The tables by path hold exactly the files of the map, and the counter counts them. */
  ghost predicate TablesMatch(byPath: map<string, seq<File>>, records: map<string, FileRecord>, count: int, m: Plain) {
    && Keyed(m)
    && byPath.Keys == m.Keys
    && (forall p :: p in m ==> byPath[p] == [m[p]])
    && records.Keys == m.Keys
    && (forall p :: p in m ==> records[p] == RecordOf(m[p]))
    && count == |m|
  }

  ghost predicate IndexMatches(descs: map<FullName, Entry>, m: Plain) {
    NamesMatch(descs, m) && PackagesMatch(descs, m) && Supported(descs)
  }

  /** The registry state that belongs to the plain map `m`. */
  ghost predicate Represents(s: Files, m: Plain) {
    TablesMatch(s.filesByPath, s.fileDescs, s.numFiles, m) && IndexMatches(s.descsByName, m)
  }

  lemma EmptyRepresents()
    ensures Represents(Empty, map[])
  {
  }

  // ---------------------------------------------------------------------------
  // Facts about the effects
  // ---------------------------------------------------------------------------

  lemma NamesOfMembers(ds: seq<Descriptor>, n: FullName)
    ensures n in NamesOf(ds) <==> exists d :: d in ds && d.full == n
  {
    if n in NamesOf(ds) {
      var i :| 0 <= i < |ds| && NamesOf(ds)[i] == n;
      assert ds[i] in ds;
    }
    if d :| d in ds && d.full == n {
      var i :| 0 <= i < |ds| && ds[i] == d;
      assert NamesOf(ds)[i] == n;
    }
  }

  lemma {:induction false} EnsurePackagesAt(descs: map<FullName, Entry>, name: FullName, n: FullName)
    ensures var r := EnsurePackages(descs, name);
            && (n in r <==> n in descs || (n != [] && n <= name))
            && (n in r ==> r[n] == if n in descs then descs[n] else Package([]))
    decreases |name|
  {
    if name != [] {
      EnsurePackagesAt(if name in descs then descs else descs[name := Package([])], Parent(name), n);
      assert n <= name <==> n == name || n <= Parent(name);
    }
  }

  ghost predicate NameIn(ds: seq<Descriptor>, n: FullName) {
    exists d :: d in ds && d.full == n
  }

  lemma {:induction false} PutAllAt(descs: map<FullName, Entry>, ds: seq<Descriptor>, n: FullName)
    ensures var r := PutAll(descs, ds);
            && (n in r <==> n in descs || NameIn(ds, n))
            && (n in r && NameIn(ds, n) ==> exists d :: d in ds && d.full == n && r[n] == Declared(d))
            && (n in r && !NameIn(ds, n) ==> r[n] == descs[n])
    decreases ds
  {
    if ds != [] {
      PutAllAt(descs[ds[0].full := Declared(ds[0])], ds[1..], n);
      assert ds == [ds[0]] + ds[1..];
      assert NameIn(ds, n) <==> ds[0].full == n || NameIn(ds[1..], n);
    }
  }

  lemma RemoveFileByPathEffect(files: seq<File>, path: string)
    requires NoDuplicates(files)
    ensures var r := RemoveFileByPath(files, path);
            NoDuplicates(r) && forall f :: f in r <==> f in files && f.path != path
  {
    if files != [] {
      assert files == [files[0]] + files[1..];
      if files[0].path == path {
        assert forall f :: f in files[1..] ==> f.path != path;
      } else {
        RemoveFileByPathEffect(files[1..], path);
      }
    }
  }

  /** Cleanup removes a contiguous run of file-less package nodes, and stops below a node that is not one. */
  lemma {:induction false} CleanupEffect(descs: map<FullName, Entry>, name: FullName)
    ensures var r := CleanupPackageChain(descs, name);
            && r.Keys <= descs.Keys
            && (forall n :: n in r ==> r[n] == descs[n])
            && (forall n :: n in descs && n !in r ==> n != [] && n <= name && descs[n] == Package([]))
    ensures var r := CleanupPackageChain(descs, name);
            forall n :: n in descs && n !in r && IsPackage(r, Parent(n)) ==> Parent(n) == [] || r[Parent(n)].files != []
    ensures name != [] && name in descs && descs[name] == Package([]) ==> name !in CleanupPackageChain(descs, name)
    decreases |name|
  {
    if name == [] || name !in descs || !descs[name].Package? || descs[name].files != [] {
    } else {
      var r := CleanupPackageChain(descs, name);
      CleanupEffect(descs - {name}, Parent(name));
      assert r == CleanupPackageChain(descs - {name}, Parent(name));
      forall n | n in descs && n !in r && IsPackage(r, Parent(n))
        ensures Parent(n) == [] || r[Parent(n)].files != []
      {
        if n == name && Parent(n) != [] {
          assert Parent(n) in descs - {name};
        }
      }
    }
  }

  // ---------------------------------------------------------------------------
  // Inserting
  // ---------------------------------------------------------------------------

  ghost predicate NamesOnce(ds: seq<Descriptor>) {
    forall d, e :: d in ds && e in ds && d.full == e.full ==> d == e
  }

  lemma {:induction false} PackageFreePrefixes(descs: map<FullName, Entry>, name: FullName)
    ensures PackageFree(descs, name) <==> forall n :: n in descs && n != [] && n <= name ==> descs[n].Package?
    decreases |name|
  {
    if name != [] {
      PackageFreePrefixes(descs, Parent(name));
      forall n | n in descs && n <= name && n != name ensures n <= Parent(name) { }
      forall n | n in descs && n <= Parent(name) ensures n <= name { }
    }
  }

  /** One name in the index after a file went in. */
  lemma InsertAt(s: Files, f: File, n: FullName)
    requires PackageFree(s.descsByName, f.pkg) && IsPackage(s.descsByName, [])
    ensures Insert(s, f).1 == Done
    ensures var (d, d') := (s.descsByName, Insert(s, f).0.descsByName);
            && (n in d' <==> n in d || n <= f.pkg || NameIn(TopLevel(f), n))
            && (NameIn(TopLevel(f), n) ==> exists x :: x in TopLevel(f) && x.full == n && d'[n] == Declared(x))
            && (n in d' && !NameIn(TopLevel(f), n) ==>
                  d'[n] == if n == f.pkg then Package((if n in d then d[n].files else []) + [f])
                           else if n in d then d[n] else Package([]))
  {
    var d1 := EnsurePackages(s.descsByName, f.pkg);
    EnsurePackagesAt(s.descsByName, f.pkg, n);
    EnsurePackagesAt(s.descsByName, f.pkg, f.pkg);
    PackageFreePrefixes(s.descsByName, f.pkg);
    PutAllAt(d1[f.pkg := Package(d1[f.pkg].files + [f])], TopLevel(f), n);
  }

  lemma DeclaresGrows(m: Plain, f: File, d: Descriptor)
    requires f.path !in m
    ensures Declares(m[f.path := f], d) <==> Declares(m, d) || d in TopLevel(f)
  {
    var m' := m[f.path := f];
    if Declares(m, d) {
      var p :| Offers(m, p, d);
      assert Offers(m', p, d);
    }
    if d in TopLevel(f) {
      assert Offers(m', f.path, d);
    }
    if Declares(m', d) {
      var p :| Offers(m', p, d);
      assert p == f.path || Offers(m, p, d);
    }
  }

  /** What clash-freedom says about one new file: its names are new, and name no package. */
  ghost predicate Fits(m: Plain, f: File) {
    && NamesOnce(TopLevel(f))
    && (forall d, e :: d in TopLevel(f) && Declares(m, e) ==> d.full != e.full)
    && (forall d, p :: d in TopLevel(f) && p in m ==> !(d.full <= m[p].pkg))
    && (forall e :: Declares(m, e) ==> !(e.full <= f.pkg))
  }

  lemma NamesLongerThanPackage(f: File, d: Descriptor)
    requires d in TopLevel(f)
    ensures !(d.full <= f.pkg) && d.full != []
  {
    TopLevelDeclared(f, d);
  }

  /** A clash-free map stays clash-free exactly when the new file fits. */
  lemma FitsExactly(m: Plain, f: File)
    requires f.path !in m && ClashFree(m)
    ensures ClashFree(m[f.path := f]) <==> Fits(m, f)
  {
    if ClashFree(m[f.path := f]) { ClashFreeFits(m, f); }
    if Fits(m, f) { FitsClashFree(m, f); }
  }

  lemma ClashFreeFits(m: Plain, f: File)
    requires f.path !in m && ClashFree(m) && ClashFree(m[f.path := f])
    ensures Fits(m, f)
  {
    var m' := m[f.path := f];
    forall d ensures d in TopLevel(f) <==> Offers(m', f.path, d) { }
    forall e | Declares(m, e) ensures exists p :: p != f.path && Offers(m', p, e) {
      var p :| Offers(m, p, e);
      assert Offers(m', p, e);
    }
    forall d, e | d in TopLevel(f) && Declares(m, e) ensures d.full != e.full { }
    forall d, p | d in TopLevel(f) && p in m ensures !(d.full <= m[p].pkg) { assert m'[p] == m[p]; }
    forall e | Declares(m, e) ensures !(e.full <= f.pkg) { assert m'[f.path] == f; }
  }

  lemma FitsClashFree(m: Plain, f: File)
    requires f.path !in m && ClashFree(m) && Fits(m, f)
    ensures ClashFree(m[f.path := f])
  {
    var m' := m[f.path := f];
    forall p, d | p != f.path ensures Offers(m, p, d) <==> Offers(m', p, d) { }
    forall p, q, d, e | Offers(m', p, d) && Offers(m', q, e) && d.full == e.full ensures p == q && d == e {
      if p != f.path { assert Declares(m, d); }
      if q != f.path { assert Declares(m, e); }
    }
    forall p, q, d | Offers(m', p, d) && q in m' ensures !(d.full <= m'[q].pkg) {
      if p == f.path { NamesLongerThanPackage(f, d); } else { assert Declares(m, d); }
    }
  }

  /** A package node other than the root leads to a registered file. */
  lemma {:induction false} PackageLeadsToFile(descs: map<FullName, Entry>, m: Plain, n: FullName, rest: set<FullName>)
    returns (p: string)
    requires PackagesMatch(descs, m) && Supported(descs)
    requires IsPackage(descs, n) && n != []
    requires forall k :: k in descs && |k| >= |n| ==> k in rest
    ensures p in m && n <= m[p].pkg
    decreases rest
  {
    if descs[n].files != [] {
      assert descs[n].files[0] in descs[n].files;
      p := descs[n].files[0].path;
    } else {
      assert HasChild(descs, n);
      var x: Name :| IsPackage(descs, n + [x]);
      p := PackageLeadsToFile(descs, m, n + [x], rest - {n});
    }
  }

  /** A file that fits the plain map passes both conflict checks. */
  lemma FitsPassesChecks(s: Files, m: Plain, f: File)
    requires IndexMatches(s.descsByName, m) && Fits(m, f)
    ensures PackageFree(s.descsByName, f.pkg)
    ensures NamesFree(s.descsByName, TopLevel(f))
  {
    var d := s.descsByName;
    PackageFreePrefixes(d, f.pkg);
    forall n | n in d && n != [] && n <= f.pkg ensures d[n].Package? {
      if d[n].Declared? {
        assert Named(d, d[n].desc);
      }
    }
    forall x | x in TopLevel(f) ensures x.full !in d {
      NamesLongerThanPackage(f, x);
      if x.full in d {
        if d[x.full].Declared? {
          assert Named(d, d[x.full].desc);
        } else {
          var p := PackageLeadsToFile(d, m, x.full, d.Keys);
        }
      }
    }
  }

  lemma HoldsGrows(files: seq<File>, m: Plain, n: FullName, f: File)
    requires Holds(files, m, n) && f.path !in m && Keyed(m)
    ensures Holds(if n == f.pkg then files + [f] else files, m[f.path := f], n)
  {
    var m' := m[f.path := f];
    if n == f.pkg {
      var r := files + [f];
      forall g: File ensures g in r <==> g.path in m' && m'[g.path] == g && g.pkg == n { }
      forall i, j | 0 <= i < j < |r| ensures r[i].path != r[j].path {
        assert r[i] in files;
      }
    } else {
      forall g: File ensures g in files <==> g.path in m' && m'[g.path] == g && g.pkg == n { }
    }
  }

  lemma InsertNames(s: Files, m: Plain, f: File)
    requires IndexMatches(s.descsByName, m) && f.path !in m && Fits(m, f)
    ensures NamesMatch(Insert(s, f).0.descsByName, m[f.path := f])
  {
    var d, d', m' := s.descsByName, Insert(s, f).0.descsByName, m[f.path := f];
    FitsPassesChecks(s, m, f);
    forall n | n in d' && d'[n].Declared? ensures d'[n].desc.full == n { InsertAt(s, f, n); }
    forall x ensures Named(d', x) <==> Declares(m', x) {
      InsertAt(s, f, x.full);
      DeclaresGrows(m, f, x);
      if x in TopLevel(f) {
        NamesLongerThanPackage(f, x);
        assert NameIn(TopLevel(f), x.full);
      }
      assert Named(d, x) <==> Declares(m, x);
    }
  }

  lemma InsertPackages(s: Files, m: Plain, f: File)
    requires IndexMatches(s.descsByName, m) && f.path !in m && Keyed(m) && Fits(m, f)
    ensures PackagesMatch(Insert(s, f).0.descsByName, m[f.path := f])
  {
    var d, d', m' := s.descsByName, Insert(s, f).0.descsByName, m[f.path := f];
    FitsPassesChecks(s, m, f);
    forall n | IsPackage(d, n) || n <= f.pkg ensures IsPackage(d', n) { InsertKeepsPackage(s, m, f, n); }
    forall n | IsPackage(d', n) ensures Holds(d'[n].files, m', n) {
      InsertAt(s, f, n);
      if IsPackage(d, n) {
        HoldsGrows(d[n].files, m, n, f);
      } else {
        forall p | p in m ensures m[p].pkg != n { assert IsPackage(d, m[p].pkg); }
        assert Holds([], m, n);
        HoldsGrows([], m, n, f);
      }
    }
  }

  lemma InsertKeepsPackage(s: Files, m: Plain, f: File, n: FullName)
    requires IndexMatches(s.descsByName, m) && f.path !in m && Fits(m, f)
    requires IsPackage(s.descsByName, n) || n <= f.pkg
    ensures IsPackage(Insert(s, f).0.descsByName, n)
  {
    FitsPassesChecks(s, m, f);
    PackageFreePrefixes(s.descsByName, f.pkg);
    InsertAt(s, f, n);
    if x :| x in TopLevel(f) && x.full == n { NamesLongerThanPackage(f, x); }
  }

  lemma InsertSupported(s: Files, m: Plain, f: File)
    requires IndexMatches(s.descsByName, m) && f.path !in m && Fits(m, f)
    ensures Supported(Insert(s, f).0.descsByName)
  {
    var d, d' := s.descsByName, Insert(s, f).0.descsByName;
    FitsPassesChecks(s, m, f);
    forall n | IsPackage(d', n) && n != [] && d'[n].files == [] ensures HasChild(d', n) {
      InsertAt(s, f, n);
      if IsPackage(d, n) {
        assert HasChild(d, n);
        var x: Name :| IsPackage(d, n + [x]);
        InsertKeepsPackage(s, m, f, n + [x]);
      } else {
        assert n <= f.pkg && n != f.pkg;
        assert n + [f.pkg[|n|]] <= f.pkg;
        InsertKeepsPackage(s, m, f, n + [f.pkg[|n|]]);
      }
    }
  }

  lemma InsertIndex(s: Files, m: Plain, f: File)
    requires IndexMatches(s.descsByName, m) && f.path !in m && Keyed(m) && Fits(m, f)
    ensures IndexMatches(Insert(s, f).0.descsByName, m[f.path := f])
  {
    InsertNames(s, m, f);
    InsertPackages(s, m, f);
    InsertSupported(s, m, f);
  }

  lemma InsertTables(s: Files, f: File)
    requires PackageFree(s.descsByName, f.pkg) && IsPackage(s.descsByName, [])
    ensures Insert(s, f).1 == Done
    ensures Insert(s, f).0.filesByPath == s.filesByPath[f.path := [f]]
    ensures Insert(s, f).0.fileDescs == s.fileDescs[f.path := RecordOf(f)]
    ensures Insert(s, f).0.numFiles == s.numFiles + 1
  {
    InsertAt(s, f, f.pkg);
  }

  /** RegisterFile accepts a file that fits, and the indexes become those of the larger map. */
  lemma RegisterRepresents(s: Files, m: Plain, f: File)
    requires Represents(s, m) && f.path !in m && Fits(m, f)
    ensures Register(s, f) == Insert(s, f) && Register(s, f).1 == Done
    ensures Represents(Register(s, f).0, m[f.path := f])
  {
    FitsPassesChecks(s, m, f);
    InsertTables(s, f);
    InsertIndex(s, m, f);
    TablesGrow(s.filesByPath, s.fileDescs, s.numFiles, m, f);
  }

  lemma TablesGrow(byPath: map<string, seq<File>>, records: map<string, FileRecord>, count: int, m: Plain, f: File)
    requires TablesMatch(byPath, records, count, m) && f.path !in m
    ensures TablesMatch(byPath[f.path := [f]], records[f.path := RecordOf(f)], count + 1, m[f.path := f])
  {
  }

  lemma TablesShrink(byPath: map<string, seq<File>>, records: map<string, FileRecord>, count: int, m: Plain, p: string)
    requires TablesMatch(byPath, records, count, m) && p in m
    ensures TablesMatch(byPath - {p}, records - {p}, count - 1, m - {p})
  {
    assert (m - {p}).Keys == m.Keys - {p};
  }

  // ---------------------------------------------------------------------------
  // Removing
  // ---------------------------------------------------------------------------

  lemma DeclaresShrinks(m: Plain, path: string, d: Descriptor)
    requires path in m && NamesDistinct(m)
    ensures Declares(m - {path}, d) <==> Declares(m, d) && d !in TopLevel(m[path])
  {
    var m' := m - {path};
    if Declares(m, d) {
      var p :| Offers(m, p, d);
      if d in TopLevel(m[path]) {
        assert Offers(m, path, d);
        forall q ensures !Offers(m', q, d) { if Offers(m', q, d) { assert Offers(m, q, d); } }
      } else {
        assert Offers(m', p, d);
      }
    }
    if Declares(m', d) {
      var p :| Offers(m', p, d);
      assert Offers(m, p, d);
    }
  }

  lemma HoldsShrinks(files: seq<File>, m: Plain, n: FullName, path: string)
    requires Holds(files, m, n) && path in m && Keyed(m)
    ensures Holds(RemoveFileByPath(files, path), m - {path}, n)
    ensures m[path].pkg != n ==> Holds(files, m - {path}, n)
  {
    RemoveFileByPathEffect(files, path);
    var m' := m - {path};
    forall g: File ensures g in RemoveFileByPath(files, path) <==> g.path in m' && m'[g.path] == g && g.pkg == n { }
    if m[path].pkg != n {
      forall g: File ensures g in files <==> g.path in m' && m'[g.path] == g && g.pkg == n { }
    }
  }

  /** The index without the names of a file and without the file in its package node, nodes not yet pruned. */
  function Withdraw(descs: map<FullName, Entry>, names: set<FullName>, pkg: FullName, path: string)
    : map<FullName, Entry>
  {
    LeavePackage(descs - names, pkg, path, false)
  }

  /** The recorded names of a registered file are entries of the index, and no other file has them. */
  lemma OwnNames(descs: map<FullName, Entry>, m: Plain, path: string, n: FullName)
    requires NamesMatch(descs, m) && NamesDistinct(m) && path in m
    ensures n in NamesOf(TopLevel(m[path])) ==>
              n in descs && descs[n].Declared? && descs[n].desc in TopLevel(m[path])
    ensures n in descs && descs[n].Declared? && descs[n].desc in TopLevel(m[path]) ==>
              n in NamesOf(TopLevel(m[path]))
  {
    NamesOfMembers(TopLevel(m[path]), n);
    if n in NamesOf(TopLevel(m[path])) {
      var d :| d in TopLevel(m[path]) && d.full == n;
      assert Offers(m, path, d);
      assert Named(descs, d);
    }
  }

  lemma WithdrawNames(descs: map<FullName, Entry>, m: Plain, path: string, x: Descriptor)
    requires NamesMatch(descs, m) && PackagesMatch(descs, m) && NamesDistinct(m) && path in m
    ensures var f := m[path];
            Named(Withdraw(descs, NameSet(NamesOf(TopLevel(f))), f.pkg, path), x) <==> Declares(m - {path}, x)
  {
    OwnNames(descs, m, path, x.full);
    DeclaresShrinks(m, path, x);
    assert Named(descs, x) <==> Declares(m, x);
    assert IsPackage(descs, m[path].pkg);
    OwnNames(descs, m, path, m[path].pkg);
  }

  /** Withdrawing keeps every package node, and only the node of the file changes. */
  lemma WithdrawPackages(descs: map<FullName, Entry>, m: Plain, path: string, n: FullName)
    requires NamesMatch(descs, m) && PackagesMatch(descs, m) && NamesDistinct(m) && Keyed(m) && path in m
    ensures var f := m[path];
            var d' := Withdraw(descs, NameSet(NamesOf(TopLevel(f))), f.pkg, path);
            && (IsPackage(d', n) <==> IsPackage(descs, n))
            && (IsPackage(d', n) && n != f.pkg ==> d'[n].files == descs[n].files)
            && (IsPackage(d', n) ==> Holds(d'[n].files, m - {path}, n))
  {
    OwnNames(descs, m, path, n);
    assert IsPackage(descs, m[path].pkg);
    OwnNames(descs, m, path, m[path].pkg);
    if IsPackage(descs, n) {
      HoldsShrinks(descs[n].files, m, n, path);
    }
  }

  /** The withdrawn index describes the smaller map, except that the package node may lack support. */
  lemma WithdrawMatches(descs: map<FullName, Entry>, m: Plain, path: string)
    requires IndexMatches(descs, m) && ClashFree(m) && path in m
    ensures var f := m[path];
            var d' := Withdraw(descs, NameSet(NamesOf(TopLevel(f))), f.pkg, path);
            && NamesMatch(d', m - {path}) && PackagesMatch(d', m - {path})
            && (forall n :: IsPackage(d', n) <==> IsPackage(descs, n))
            && (forall n :: IsPackage(d', n) && n != [] && n != f.pkg && d'[n].files == [] ==> HasChild(d', n))
  {
    var f := m[path];
    var d' := Withdraw(descs, NameSet(NamesOf(TopLevel(f))), f.pkg, path);
    forall x ensures Named(d', x) <==> Declares(m - {path}, x) { WithdrawNames(descs, m, path, x); }
    forall n ensures IsPackage(d', n) <==> IsPackage(descs, n) { WithdrawPackages(descs, m, path, n); }
    forall n | IsPackage(d', n) ensures Holds(d'[n].files, m - {path}, n) { WithdrawPackages(descs, m, path, n); }
    forall n | IsPackage(d', n) && n != [] && n != f.pkg && d'[n].files == [] ensures HasChild(d', n) {
      WithdrawPackages(descs, m, path, n);
      var x: Name :| IsPackage(descs, n + [x]);
      assert IsPackage(d', n + [x]);
    }
  }

  /** Pruning the chain of a package whose node may lack support restores the support of every node. */
  lemma PruneMatches(descs: map<FullName, Entry>, m: Plain, pkg: FullName)
    requires Keyed(m) && NamesMatch(descs, m) && PackagesMatch(descs, m)
    requires forall n :: IsPackage(descs, n) && n != [] && n != pkg && descs[n].files == [] ==> HasChild(descs, n)
    ensures IndexMatches(CleanupPackageChain(descs, pkg), m)
  {
    var r := CleanupPackageChain(descs, pkg);
    CleanupEffect(descs, pkg);
    forall x ensures Named(r, x) <==> Named(descs, x) { }
    forall p | p in m ensures IsPackage(r, m[p].pkg) {
      assert IsPackage(descs, m[p].pkg);
      assert m[p] in descs[m[p].pkg].files;
    }
    forall n | IsPackage(r, n) && n != [] && r[n].files == [] ensures HasChild(r, n) {
      assert n != pkg;
      var x: Name :| IsPackage(descs, n + [x]);
      assert Parent(n + [x]) == n;
      assert IsPackage(r, n + [x]);
    }
  }

  lemma RemoveWithdraws(s: Files, m: Plain, path: string)
    requires IndexMatches(s.descsByName, m) && ClashFree(m) && path in m
    requires path in s.fileDescs && s.fileDescs[path] == RecordOf(m[path])
    ensures var f := m[path];
            Remove(s, path).descsByName ==
            CleanupPackageChain(Withdraw(s.descsByName, NameSet(NamesOf(TopLevel(f))), f.pkg, path), f.pkg)
  {
    WithdrawPackages(s.descsByName, m, path, m[path].pkg);
  }

  lemma RemoveIndex(s: Files, m: Plain, path: string)
    requires IndexMatches(s.descsByName, m) && ClashFree(m) && path in m
    requires path in s.fileDescs && s.fileDescs[path] == RecordOf(m[path])
    ensures IndexMatches(Remove(s, path).descsByName, m - {path})
  {
    var f := m[path];
    var d' := Withdraw(s.descsByName, NameSet(NamesOf(TopLevel(f))), f.pkg, path);
    WithdrawMatches(s.descsByName, m, path);
    PruneMatches(d', m - {path}, f.pkg);
    RemoveWithdraws(s, m, path);
  }

  /** UnregisterFile leaves the indexes of the map without the file. */
  lemma RemoveRepresents(s: Files, m: Plain, path: string)
    requires Represents(s, m) && ClashFree(m) && path in m
    ensures Represents(Remove(s, path), m - {path})
  {
    RemoveIndex(s, m, path);
    TablesShrink(s.filesByPath, s.fileDescs, s.numFiles, m, path);
  }
}
