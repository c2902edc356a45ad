/**
 The NamespacedFiles registry as the source has it: an object whose maps its methods update in
 place, with lookups that fall back to the parent registry.  Every method is proved against the
 value-level operation of modules FileIndex and FileLookup.
 */
module FileRegistry {
  import opened Descriptors
  import opened FileIndex
  import opened FileLookup

  // ---------------------------------------------------------------------------
  // Hierarchical lookup, on the states of a registry and its ancestors, nearest first
  // ---------------------------------------------------------------------------

  function FindInLevels(levels: seq<Files>, name: FullName): Option<Descriptor> {
    if levels == [] then None else
      var d := FindLocal(levels[0].descsByName, name);
      if d.Some? then d else FindInLevels(levels[1..], name)
  }

  /** Several files under one path are an error; no file sends the question to the parent. */
  datatype PathAnswer = NoFile | OneFile(file: File) | ManyFiles

  function FilesAt(s: Files, path: string): PathAnswer {
    if path !in s.filesByPath || s.filesByPath[path] == [] then NoFile else
    if |s.filesByPath[path]| == 1 then OneFile(s.filesByPath[path][0]) else ManyFiles
  }

  function FileInLevels(levels: seq<Files>, path: string): PathAnswer {
    if levels == [] then NoFile else
      var a := FilesAt(levels[0], path);
      if a.NoFile? then FileInLevels(levels[1..], path) else a
  }

  ghost predicate HasPath(s: Files, path: string) {
    path in s.filesByPath && s.filesByPath[path] != []
  }

  /** Level `i` is the first with a file at the path. */
  ghost predicate FirstAt(levels: seq<Files>, path: string, i: nat)
    requires i < |levels|
  {
    HasPath(levels[i], path) && forall j :: 0 <= j < i ==> !HasPath(levels[j], path)
  }

  ghost predicate PathAnswered(levels: seq<Files>, path: string, a: PathAnswer) {
    match a
    case NoFile => forall i :: 0 <= i < |levels| ==> !HasPath(levels[i], path)
    case OneFile(f) => exists i :: 0 <= i < |levels| && FirstAt(levels, path, i) && levels[i].filesByPath[path] == [f]
    case ManyFiles => exists i :: 0 <= i < |levels| && FirstAt(levels, path, i) && |levels[i].filesByPath[path]| > 1
  }

  /** The nearest level with a file at the path answers, and nothing else does. */
  lemma {:induction false} FileInLevelsExact(levels: seq<Files>, path: string, a: PathAnswer)
    ensures FileInLevels(levels, path) == a <==> PathAnswered(levels, path, a)
    decreases levels
  {
    if levels != [] {
      if HasPath(levels[0], path) {
        assert FirstAt(levels, path, 0);
        var fs := levels[0].filesByPath[path];
        assert |fs| == 1 ==> fs == [fs[0]];
      } else {
        FileInLevelsExact(levels[1..], path, a);
        PathAnsweredAbove(levels, path, a);
      }
    }
  }

  lemma PathAnsweredAbove(levels: seq<Files>, path: string, a: PathAnswer)
    requires levels != [] && !HasPath(levels[0], path)
    ensures PathAnswered(levels, path, a) <==> PathAnswered(levels[1..], path, a)
  {
    var above := levels[1..];
    assert forall i :: 0 <= i < |above| ==> above[i] == levels[i + 1];
    forall i: nat | i < |above| ensures FirstAt(above, path, i) <==> FirstAt(levels, path, i + 1) {
      if FirstAt(above, path, i) {
        forall j | 0 <= j < i + 1 ensures !HasPath(levels[j], path) {
          if j > 0 { assert !HasPath(above[j - 1], path); }
        }
      }
    }
    if a.NoFile? {
      forall i | 0 <= i < |levels| && PathAnswered(above, path, a) ensures !HasPath(levels[i], path) {
        if i > 0 { assert !HasPath(above[i - 1], path); }
      }
    } else if PathAnswered(levels, path, a) {
      var i :| 0 <= i < |levels| && FirstAt(levels, path, i) &&
        (if a.OneFile? then levels[i].filesByPath[path] == [a.file] else |levels[i].filesByPath[path]| > 1);
      assert i > 0 && FirstAt(above, path, i - 1);
    }
  }

  ghost predicate PathsKeyed(s: Files) {
    forall p :: p in s.filesByPath ==> |s.filesByPath[p]| == 1 && s.filesByPath[p][0].path == p
  }

  ghost predicate AllKeyed(levels: seq<Files>) {
    levels == [] || (PathsKeyed(levels[0]) && AllKeyed(levels[1..]))
  }

  lemma KeyedParts(s: Files, above: seq<Files>)
    requires AllKeyed([s] + above)
    ensures PathsKeyed(s) && AllKeyed(above)
  {
    assert ([s] + above)[1..] == above;
  }

  ghost predicate Knows(m: Plain, name: FullName) {
    exists d :: DeclaredIn(m, d) && d.full == name
  }

  ghost predicate LevelsRepresent(levels: seq<Files>, ms: seq<Plain>) {
    && |levels| == |ms|
    && (forall i :: 0 <= i < |ms| ==> LevelIs(levels[i], ms[i]))
  }

  ghost predicate LevelIs(level: Files, m: Plain) {
    // Written as a match so that the verifier keeps the predicate whole where it is promised.
    match level
    case Files(_, _, _, _) => Represents(level, m) && ClashFree(m) && AllUnique(m)
  }

  lemma LevelFinds(level: Files, m: Plain, name: FullName, d: Descriptor)
    requires LevelIs(level, m)
    ensures FindLocal(level.descsByName, name).Some? <==> Knows(m, name)
    ensures FindLocal(level.descsByName, name) == Some(d) <==> DeclaredIn(m, d) && d.full == name
  {
    var first := FindLocal(level.descsByName, name);
    if first.Some? { FindExact(level, m, name, first.value); }
    FindExact(level, m, name, d);
    if e :| DeclaredIn(m, e) && e.full == name { FindExact(level, m, name, e); }
  }

  /** Level `i` declares `d` under the name, and no nearer level declares anything under it. */
  ghost predicate AnswersAt(ms: seq<Plain>, name: FullName, d: Descriptor, i: nat)
    requires i < |ms|
  {
    DeclaredIn(ms[i], d) && d.full == name && forall j :: 0 <= j < i ==> !Knows(ms[j], name)
  }

  /** The nearest level that declares the name answers; a child shadows its ancestors. */
  lemma {:induction false} LevelsExact(levels: seq<Files>, ms: seq<Plain>, name: FullName, d: Descriptor)
    requires LevelsRepresent(levels, ms)
    ensures FindInLevels(levels, name) == Some(d) <==>
            exists i :: 0 <= i < |ms| && AnswersAt(ms, name, d, i)
    decreases ms
  {
    if levels != [] {
      assert LevelIs(levels[0], ms[0]);
      LevelFinds(levels[0], ms[0], name, d);
      forall i | 0 <= i < |ms[1..]| ensures LevelIs(levels[1..][i], ms[1..][i]) {
        assert levels[1..][i] == levels[i + 1] && ms[1..][i] == ms[i + 1];
      }
      LevelsExact(levels[1..], ms[1..], name, d);
      LevelsShift(ms, name, d);
    }
  }

  lemma LevelsShift(ms: seq<Plain>, name: FullName, d: Descriptor)
    requires ms != []
    ensures (exists i :: 0 <= i < |ms| && AnswersAt(ms, name, d, i)) <==>
            AnswersAt(ms, name, d, 0) ||
            (!Knows(ms[0], name) && exists i :: 0 <= i < |ms[1..]| && AnswersAt(ms[1..], name, d, i))
  {
    if i :| 0 <= i < |ms| && AnswersAt(ms, name, d, i) {
      if i > 0 {
        forall j | 0 <= j < i - 1 ensures !Knows(ms[1..][j], name) { assert ms[1..][j] == ms[j + 1]; }
        assert AnswersAt(ms[1..], name, d, i - 1);
      }
    }
    if !Knows(ms[0], name) {
      if i :| 0 <= i < |ms[1..]| && AnswersAt(ms[1..], name, d, i) {
        forall j | 0 <= j < i + 1 ensures !Knows(ms[j], name) { if j > 0 { assert ms[1..][j - 1] == ms[j]; } }
        assert AnswersAt(ms, name, d, i + 1);
      }
    }
  }

  // ---------------------------------------------------------------------------
  // The walk over the top-level descriptors
  // ---------------------------------------------------------------------------

  method RangeValues(scope: FullName, xs: seq<EnumValue>) returns (ds: seq<Descriptor>)
    ensures ds == ValuesDown(scope, xs)
  {
    ds := [];
    var i := |xs|;
    assert xs[..i] == xs;
    while i > 0
      invariant 0 <= i <= |xs|
      invariant ds + ValuesDown(scope, xs[..i]) == ValuesDown(scope, xs)
    {
      i := i - 1;
      assert xs[..i + 1][..i] == xs[..i];
      ds := ds + [ValueD(scope + [xs[i].name], xs[i])];
    }
  }

  lemma Regroup(a: seq<Descriptor>, b: seq<Descriptor>, c: seq<Descriptor>, d: seq<Descriptor>)
    ensures a + b + c + d == a + (b + c + d)
  {
  }

  method RangeEnums(scope: FullName, xs: seq<Enum>) returns (ds: seq<Descriptor>)
    ensures ds == EnumsDown(scope, xs)
  {
    ds := [];
    var i := |xs|;
    assert xs[..i] == xs;
    while i > 0
      invariant 0 <= i <= |xs|
      invariant ds + EnumsDown(scope, xs[..i]) == EnumsDown(scope, xs)
    {
      i := i - 1;
      assert xs[..i + 1][..i] == xs[..i];
      var values := RangeValues(scope, xs[i].values);
      Regroup(ds, [EnumD(scope + [xs[i].name], xs[i])], values, EnumsDown(scope, xs[..i]));
      ds := ds + [EnumD(scope + [xs[i].name], xs[i])] + values;
    }
  }

  method RangeMessages(scope: FullName, xs: seq<Message>) returns (ds: seq<Descriptor>)
    ensures ds == MessagesDown(scope, xs)
  {
    ds := [];
    var i := |xs|;
    assert xs[..i] == xs;
    while i > 0
      invariant 0 <= i <= |xs|
      invariant ds + MessagesDown(scope, xs[..i]) == MessagesDown(scope, xs)
    {
      i := i - 1;
      assert xs[..i + 1][..i] == xs[..i];
      ds := ds + [MessageD(scope + [xs[i].name], xs[i])];
    }
  }

  method RangeExtensions(scope: FullName, xs: seq<Extension>) returns (ds: seq<Descriptor>)
    ensures ds == ExtensionsDown(scope, xs)
  {
    ds := [];
    var i := |xs|;
    assert xs[..i] == xs;
    while i > 0
      invariant 0 <= i <= |xs|
      invariant ds + ExtensionsDown(scope, xs[..i]) == ExtensionsDown(scope, xs)
    {
      i := i - 1;
      assert xs[..i + 1][..i] == xs[..i];
      ds := ds + [ExtensionD(scope + [xs[i].name], xs[i])];
    }
  }

  method RangeServices(scope: FullName, xs: seq<Service>) returns (ds: seq<Descriptor>)
    ensures ds == ServicesDown(scope, xs)
  {
    ds := [];
    var i := |xs|;
    assert xs[..i] == xs;
    while i > 0
      invariant 0 <= i <= |xs|
      invariant ds + ServicesDown(scope, xs[..i]) == ServicesDown(scope, xs)
    {
      i := i - 1;
      assert xs[..i + 1][..i] == xs[..i];
      ds := ds + [ServiceD(scope + [xs[i].name], xs[i])];
    }
  }

  /** Visits enums with their values, then messages, extensions and services, each list from its end. */
  method RangeTopLevelDescriptors(f: File) returns (ds: seq<Descriptor>)
    ensures ds == TopLevel(f)
  {
    var es := RangeEnums(f.pkg, f.enums);
    var ms := RangeMessages(f.pkg, f.messages);
    var xs := RangeExtensions(f.pkg, f.extensions);
    var ss := RangeServices(f.pkg, f.services);
    ds := es + ms + xs + ss;
  }

  // ---------------------------------------------------------------------------
  // The registry object
  // ---------------------------------------------------------------------------

  /** The list without its first file of that path. */
  method CutFile(files: seq<File>, path: string) returns (left: seq<File>)
    ensures left == RemoveFileByPath(files, path)
  {
    var i := 0;
    while i < |files| && files[i].path != path
      invariant 0 <= i <= |files|
      invariant RemoveFileByPath(files, path) == files[..i] + RemoveFileByPath(files[i..], path)
    {
      assert files[i..][1..] == files[i + 1..];
      i := i + 1;
    }
    if i == |files| { return files; }
    assert files[i..][1..] == files[i + 1..];
    return files[..i] + files[i + 1..];
  }

  class NamespacedFiles {
    const parent: NamespacedFiles?
    /** Set for the wrapper around protobuf's global registry. */
    const readOnly: bool
    ghost const height: nat

    var descsByName: map<FullName, Entry>
    var filesByPath: map<string, seq<File>>
    var fileDescs: map<string, FileRecord>
    var numFiles: int

    /** Parents exist before their children, so the parent chain ends. */
    ghost predicate Rooted()
      decreases height
    {
      parent != null ==> parent.height < height && parent.Rooted()
    }

    ghost function Chain(): set<NamespacedFiles>
      requires Rooted()
      decreases height
    {
      {this} + if parent == null then {} else parent.Chain()
    }

    function Value(): Files
      reads this
    {
      Files(descsByName, filesByPath, fileDescs, numFiles)
    }

    ghost function Levels(): seq<Files>
      requires Rooted()
      reads Chain()
      decreases height
    {
      [Value()] + if parent == null then [] else parent.Levels()
    }

    constructor (parent: NamespacedFiles?)
      requires parent != null ==> parent.Rooted()
      ensures Rooted() && this.parent == parent && !readOnly && Value() == Empty
    {
      this.parent := parent;
      readOnly := false;
      height := if parent == null then 0 else parent.height + 1;
      descsByName := map[[] := Package([])];
      filesByPath := map[];
      fileDescs := map[];
      numFiles := 0;
    }

    constructor OverGlobal(global: Files)
      ensures Rooted() && parent == null && readOnly && Value() == global
    {
      parent := null;
      readOnly := true;
      height := 0;
      descsByName := global.descsByName;
      filesByPath := global.filesByPath;
      fileDescs := global.fileDescs;
      numFiles := global.numFiles;
    }

    method PackageConflicts(pkg: FullName) returns (conflict: bool)
      ensures conflict <==> !PackageFree(descsByName, pkg)
    {
      var name := pkg;
      while name != []
        invariant PackageFree(descsByName, name) <==> PackageFree(descsByName, pkg)
        decreases |name|
      {
        if name in descsByName && !descsByName[name].Package? { return true; }
        name := Parent(name);
      }
      return false;
    }

    method RegisterFile(f: File) returns (o: Outcome)
      modifies this
      ensures readOnly ==> o == ReadOnly && Value() == old(Value())
      ensures !readOnly ==> (Value(), o) == Register(old(Value()), f)
    {
      if readOnly { return ReadOnly; }
      if f.path in filesByPath && filesByPath[f.path] != [] { return PathTaken; }
      var conflict := PackageConflicts(f.pkg);
      if conflict { return PackageConflict; }
      var ds := RangeTopLevelDescriptors(f);
      var i := 0;
      while i < |ds|
        invariant 0 <= i <= |ds|
        invariant NamesFree(descsByName, ds[..i])
      {
        if ds[i].full in descsByName {
          assert ds[i] in ds;
          return NameConflict;
        }
        i := i + 1;
      }
      assert ds[..i] == ds;
      o := InsertFileLocked(f);
    }

    method UpdateFile(f: File) returns (o: Outcome)
      modifies this
      ensures readOnly ==> o == ReadOnly && Value() == old(Value())
      ensures !readOnly ==> (Value(), o) == Update(old(Value()), f)
    {
      if readOnly { return ReadOnly; }
      if f.path in fileDescs {
        DisplaceFile(f);
      }
      o := InsertFileLocked(f);
    }

    /** The first half of UpdateFile on a registered path. */
    method DisplaceFile(f: File)
      requires f.path in fileDescs
      modifies this
      ensures Value() == Displace(old(Value()), f)
    {
      var prev := fileDescs[f.path];
      var ds := RangeTopLevelDescriptors(f);
      var newNames := NameSet(NamesOf(ds));
      var i := 0;
      while i < |prev.names|
        invariant 0 <= i <= |prev.names|
        invariant descsByName == old(descsByName) - (NameSet(prev.names[..i]) - newNames)
        invariant filesByPath == old(filesByPath) && fileDescs == old(fileDescs) && numFiles == old(numFiles)
      {
        var name := prev.names[i];
        if name !in newNames {
          descsByName := descsByName - {name};
        }
        assert prev.names[..i + 1] == prev.names[..i] + [name];
        i := i + 1;
      }
      assert prev.names[..i] == prev.names;
      RemoveFromPackage(prev.pkg, f.path, prev.pkg != f.pkg);
      filesByPath := filesByPath - {f.path};
      fileDescs := fileDescs - {f.path};
      numFiles := numFiles - 1;
    }

    method UnregisterFile(path: string) returns (o: Outcome)
      modifies this
      ensures readOnly ==> o == ReadOnly && Value() == old(Value())
      ensures !readOnly ==> (Value(), o) == Unregister(old(Value()), path)
    {
      if readOnly { return ReadOnly; }
      if path !in fileDescs { return NotFound; }
      var prev := fileDescs[path];
      var i := 0;
      while i < |prev.names|
        invariant 0 <= i <= |prev.names|
        invariant descsByName == old(descsByName) - NameSet(prev.names[..i])
        invariant filesByPath == old(filesByPath) && fileDescs == old(fileDescs) && numFiles == old(numFiles)
      {
        descsByName := descsByName - {prev.names[i]};
        assert prev.names[..i + 1] == prev.names[..i] + [prev.names[i]];
        i := i + 1;
      }
      assert prev.names[..i] == prev.names;
      RemoveFromPackage(prev.pkg, path, true);
      filesByPath := filesByPath - {path};
      fileDescs := fileDescs - {path};
      numFiles := numFiles - 1;
      return Done;
    }

    method RemoveFromPackage(pkg: FullName, path: string, prune: bool)
      modifies this`descsByName
      ensures descsByName == LeavePackage(old(descsByName), pkg, path, prune)
    {
      if pkg in descsByName && descsByName[pkg].Package? {
        var files := CutFile(descsByName[pkg].files, path);
        descsByName := descsByName[pkg := Package(files)];
        if prune {
          CleanupPackages(pkg);
        }
      }
    }

    method CleanupPackages(pkg: FullName)
      modifies this`descsByName
      ensures descsByName == CleanupPackageChain(old(descsByName), pkg)
    {
      var name := pkg;
      while name != []
        invariant CleanupPackageChain(descsByName, name) == CleanupPackageChain(old(descsByName), pkg)
        decreases |name|
      {
        if name !in descsByName || !descsByName[name].Package? || descsByName[name].files != [] { return; }
        descsByName := descsByName - {name};
        name := Parent(name);
      }
    }

    method CreatePackages(pkg: FullName)
      modifies this`descsByName
      ensures descsByName == EnsurePackages(old(descsByName), pkg)
    {
      var name := pkg;
      while name != []
        invariant EnsurePackages(descsByName, name) == EnsurePackages(old(descsByName), pkg)
        decreases |name|
      {
        if name !in descsByName {
          descsByName := descsByName[name := Package([])];
        }
        name := Parent(name);
      }
    }

    method EnterNames(ds: seq<Descriptor>) returns (names: seq<FullName>)
      modifies this`descsByName
      ensures descsByName == PutAll(old(descsByName), ds) && names == NamesOf(ds)
    {
      names := [];
      for i := 0 to |ds|
        invariant PutAll(descsByName, ds[i..]) == PutAll(old(descsByName), ds)
        invariant names == NamesOf(ds[..i])
      {
        assert ds[i..][1..] == ds[i + 1..];
        descsByName := descsByName[ds[i].full := Declared(ds[i])];
        names := names + [ds[i].full];
      }
      assert ds[..|ds|] == ds;
    }

    method InsertFileLocked(f: File) returns (o: Outcome)
      modifies this
      ensures (Value(), o) == Insert(old(Value()), f)
    {
      CreatePackages(f.pkg);
      if f.pkg !in descsByName || !descsByName[f.pkg].Package? { return Panicked; }
      descsByName := descsByName[f.pkg := Package(descsByName[f.pkg].files + [f])];
      var ds := RangeTopLevelDescriptors(f);
      var names := EnterNames(ds);
      filesByPath := filesByPath[f.path := [f]];
      fileDescs := fileDescs[f.path := FileRecord(f.pkg, names)];
      numFiles := numFiles + 1;
      return Done;
    }

    /** The nearest registry on the parent chain that finds the name answers. */
    method FindDescriptorByName(name: FullName) returns (d: Option<Descriptor>)
      requires Rooted()
      ensures d == FindInLevels(Levels(), name)
      decreases height
    {
      var i := |name|;
      d := None;
      while i > 0
        invariant 0 <= i <= |name|
        invariant FindLocal(descsByName, name) == FindFrom(descsByName, name, i)
        invariant d == None
      {
        if name[..i] in descsByName {
          d := AtPrefix(descsByName[name[..i]], name, i);
          break;
        }
        i := i - 1;
      }
      assert d == FindLocal(descsByName, name);
      if d == None && parent != null {
        d := parent.FindDescriptorByName(name);
      }
    }

    method FindFileByPath(path: string) returns (a: PathAnswer)
      requires Rooted()
      ensures a == FileInLevels(Levels(), path)
      decreases height
    {
      a := NoFile;
      if path in filesByPath {
        var fds := filesByPath[path];
        if |fds| == 1 { return OneFile(fds[0]); }
        if |fds| > 1 { return ManyFiles; }
      }
      if parent != null {
        a := parent.FindFileByPath(path);
      }
    }

    /** Every visible path once, with the file that FindFileByPath gives for it, until the callback stops the range. */
    method RangeFilesAll(seen: set<string>, goesOn: File -> bool) returns (out: seq<File>, cont: bool)
      requires Rooted() && AllKeyed(Levels())
      ensures Visits(out, Levels(), seen, goesOn, cont)
      decreases height
    {
      KeyedParts(Value(), if parent == null then [] else parent.Levels());
      out, cont := [], true;
      var rest := filesByPath.Keys - seen;
      while rest != {}
        invariant rest <= filesByPath.Keys - seen && VisitsLocal(out, Value(), seen, rest, goesOn)
        decreases rest
      {
        var p :| p in rest;
        var f := filesByPath[p][0];
        assert f.path == p && filesByPath[p] == [f];
        out := out + [f];
        rest := rest - {p};
        if !goesOn(f) {
          cont := false;
          VisitsStopped(Value(), if parent == null then [] else parent.Levels(), seen, goesOn, out);
          return;
        }
      }
      var more := [];
      if parent != null {
        more, cont := parent.RangeFilesAll(seen + filesByPath.Keys, goesOn);
      }
      VisitsOn(Value(), if parent == null then [] else parent.Levels(), seen, goesOn, out, more, cont);
      out := out + more;
    }
  }

  /** All files of the registry were visited but those of the paths `rest`, and none stopped the range. */
  ghost predicate VisitsLocal(out: seq<File>, s: Files, seen: set<string>, rest: set<string>, goesOn: File -> bool) {
    && NoDuplicates(out) && (forall f :: f in out ==> goesOn(f))
    && (forall f :: f in out <==> f.path in s.filesByPath.Keys - seen - rest && s.filesByPath[f.path] == [f])
  }

  ghost predicate Visible(levels: seq<Files>, seen: set<string>, f: File) {
    f.path !in seen && FileInLevels(levels, f.path) == OneFile(f)
  }

  /**
   What a range visited: visible files, no path twice.  It went on after each of them; when it was
   not stopped it visited all there are, else the last one stopped it.
   */
  ghost predicate Visits(out: seq<File>, levels: seq<Files>, seen: set<string>, goesOn: File -> bool, cont: bool) {
    && NoDuplicates(out) && (forall f :: f in out ==> Visible(levels, seen, f))
    && (forall i :: 0 <= i < |out| - 1 ==> goesOn(out[i]))
    && (cont ==> forall f :: Visible(levels, seen, f) ==> f in out && goesOn(f))
    && (!cont ==> out != [] && !goesOn(out[|out| - 1]))
  }

  /** A file of the nearest registry hides the path from the others. */
  lemma NearestHides(s: Files, above: seq<Files>, seen: set<string>, f: File)
    requires PathsKeyed(s)
    ensures Visible([s] + above, seen, f) <==>
            (f.path in s.filesByPath.Keys - seen && s.filesByPath[f.path] == [f]) ||
            Visible(above, seen + s.filesByPath.Keys, f)
  {
    assert ([s] + above)[1..] == above;
  }

  lemma VisitsStopped(s: Files, above: seq<Files>, seen: set<string>, goesOn: File -> bool, out: seq<File>)
    requires PathsKeyed(s) && NoDuplicates(out) && out != []
    requires forall f :: f in out ==> f.path in s.filesByPath.Keys - seen && s.filesByPath[f.path] == [f]
    requires (forall i :: 0 <= i < |out| - 1 ==> goesOn(out[i])) && !goesOn(out[|out| - 1])
    ensures Visits(out, [s] + above, seen, goesOn, false)
  {
    forall f | f in out ensures Visible([s] + above, seen, f) { NearestHides(s, above, seen, f); }
  }

  lemma VisitsOn(s: Files, above: seq<Files>, seen: set<string>, goesOn: File -> bool,
                 local: seq<File>, more: seq<File>, cont: bool)
    requires PathsKeyed(s) && VisitsLocal(local, s, seen, {}, goesOn)
    requires Visits(more, above, seen + s.filesByPath.Keys, goesOn, cont)
    ensures Visits(local + more, [s] + above, seen, goesOn, cont)
  {
    var out := local + more;
    forall f ensures Visible([s] + above, seen, f) <==> f in local || Visible(above, seen + s.filesByPath.Keys, f) {
      NearestHides(s, above, seen, f);
    }
    forall i, j | 0 <= i < j < |out| ensures out[i].path != out[j].path {
      if i < |local| <= j {
        assert local[i] in local && more[j - |local|] in more;
      }
    }
    forall i | 0 <= i < |out| - 1 ensures goesOn(out[i]) {
      if i < |local| { assert local[i] in local; }
    }
    assert !cont ==> out[|out| - 1] == more[|more| - 1];
  }
}
