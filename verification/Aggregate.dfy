/**
 The namespace-wide aggregate of the client: one file registry and one type registry that schemas
 are folded into and taken out of again.  The plain meaning of an aggregate is a path-to-file map.
 */
module Aggregate {
  import opened Descriptors
  import F = FileIndex
  import L = FileLookup
  import H = FileHistory
  import T = TypeIndex
  import opened SchemaTypes

  datatype Agg = Agg(files: F.Files, types: T.Types)

  const Blank := Agg(F.Empty, T.NoTypes)

  /** The identifiers a schema contributes, captured when it is compiled. */
  datatype Fingerprint = Fingerprint(
    filePaths: seq<string>,
    messages: seq<FullName>,
    enums: seq<FullName>,
    extensions: seq<FullName>)

  function PrintNames(fp: Fingerprint, k: T.Kinds): seq<FullName> {
    match k
    case Messages => fp.messages
    case Enums => fp.enums
    case Extensions => fp.extensions
  }

  // ---------------------------------------------------------------------------
  // Effects
  // ---------------------------------------------------------------------------

  /** UpdateFile, then the types of the file; a file that does not go in stops the fold. */
  function ApplyFile(a: Agg, f: File): (Agg, bool) {
    var (files, o) := F.Update(a.files, f);
    if o != F.Done then (Agg(files, a.types), false) else (Agg(files, UpdateAll(a.types, FileTypes(f))), true)
  }

  function ApplyFiles(a: Agg, fs: seq<File>): (Agg, bool)
    decreases fs
  {
    if fs == [] then (a, true) else
      var (a', ok) := ApplyFile(a, fs[0]);
      if !ok then (a', false) else ApplyFiles(a', fs[1..])
  }

  function UnregisterFiles(s: F.Files, paths: seq<string>): (F.Files, bool)
    decreases paths
  {
    if paths == [] then (s, true) else
      var (s', o) := F.Unregister(s, paths[0]);
      if o != F.Done then (s', false) else UnregisterFiles(s', paths[1..])
  }

  /** Files first, then messages, enums and extensions; the first failure ends it. */
  function RemovePrint(a: Agg, fp: Fingerprint): (Agg, bool) {
    var (files, ok0) := UnregisterFiles(a.files, fp.filePaths);
    if !ok0 then (Agg(files, a.types), false) else
      var (t1, ok1) := UnregisterAll(a.types, fp.messages, T.Messages);
      if !ok1 then (Agg(files, t1), false) else
        var (t2, ok2) := UnregisterAll(t1, fp.enums, T.Enums);
        if !ok2 then (Agg(files, t2), false) else
          var (t3, ok3) := UnregisterAll(t2, fp.extensions, T.Extensions);
          (Agg(files, t3), ok3)
  }

  // ---------------------------------------------------------------------------
  // The plain map behind the aggregate
  // ---------------------------------------------------------------------------

  function TypesIn(m: F.Plain): set<TypeDesc> {
    set p, d | p in m && d in FileTypes(m[p]) :: d
  }

  ghost predicate SlotsDistinct(m: F.Plain) {
    forall d, e :: d in TypesIn(m) && e in TypesIn(m) && SameSlot(d, e) ==> d == e
  }

  /** No name, package or extension number is claimed twice. */
  ghost predicate Clean(m: F.Plain) {
    F.ClashFree(m) && L.AllUnique(m) && SlotsDistinct(m)
  }

  ghost predicate AggIs(a: Agg, m: F.Plain) {
    // Written as a match so that the verifier keeps the predicate whole where it is promised.
    match a
    case Agg(files, types) => F.Represents(files, m) && TypesAre(types, TypesIn(m))
  }

  lemma BlankIs()
    ensures AggIs(Blank, map[]) && Clean(map[])
  {
    F.EmptyRepresents();
    assert TypesIn(map[]) == {};
  }

  ghost predicate Within(m: F.Plain, n: F.Plain) {
    forall p :: p in m ==> p in n && m[p] == n[p]
  }

  lemma CleanWithin(m: F.Plain, n: F.Plain)
    requires Clean(n) && Within(m, n)
    ensures Clean(m)
  {
    forall p, d | F.Offers(m, p, d) ensures F.Offers(n, p, d) { }
    assert TypesIn(m) <= TypesIn(n);
  }

  /** Full names are unique across the files of a clash-free map, at any depth. */
  lemma NamesUnique(m: F.Plain, p: string, d: Descriptor, q: string, e: Descriptor)
    requires F.ClashFree(m) && L.AllUnique(m)
    requires p in m && q in m && d in Decls(m[p]) && e in Decls(m[q]) && d.full == e.full
    ensures p == q && d == e
  {
    var t := TopLevelOwner(m[p], d);
    var u := TopLevelOwner(m[q], e);
    assert F.Offers(m, p, t) && F.Offers(m, q, u);
    TopLevelDeclared(m[p], t);
    TopLevelDeclared(m[q], u);
    OneOwner(m, p, t, q, u, d.full);
  }

  lemma OneOwner(m: F.Plain, p: string, t: Descriptor, q: string, u: Descriptor, n: FullName)
    requires F.ClashFree(m) && F.Offers(m, p, t) && F.Offers(m, q, u)
    requires t.full <= n && u.full <= n
    requires |t.full| == |m[p].pkg| + 1 && |u.full| == |m[q].pkg| + 1 && m[p].pkg <= t.full && m[q].pkg <= u.full
    ensures p == q
  {
    var a, b := m[p].pkg, m[q].pkg;
    assert |t.full| < |u.full| ==> t.full <= b;
    assert |u.full| < |t.full| ==> u.full <= a;
    assert |t.full| == |u.full| ==> t.full == u.full;
  }

  lemma TypesInDeclared(m: F.Plain, d: TypeDesc) returns (p: string)
    requires d in TypesIn(m)
    ensures p in m && d in Decls(m[p])
  {
    p :| p in m && d in FileTypes(m[p]);
    FileTypesMembers(m[p], d);
  }

  lemma CleanCoherent(m: F.Plain)
    requires Clean(m)
    ensures Coherent(TypesIn(m))
  {
    forall d, e | d in TypesIn(m) && e in TypesIn(m) && d.full == e.full ensures d == e {
      var p := TypesInDeclared(m, d);
      var q := TypesInDeclared(m, e);
      NamesUnique(m, p, d, q, e);
    }
  }

  // ---------------------------------------------------------------------------
  // Applying
  // ---------------------------------------------------------------------------

  lemma ApplyFileAdds(a: Agg, m: F.Plain, f: File)
    requires AggIs(a, m) && f.path !in m && Clean(m[f.path := f])
    ensures ApplyFile(a, f).1 && AggIs(ApplyFile(a, f).0, m[f.path := f])
  {
    UpdateFileAdds(a.files, m, f);
    UpdateTypesAdds(a.types, m, f);
  }

  lemma UpdateFileAdds(s: F.Files, m: F.Plain, f: File)
    requires F.Represents(s, m) && f.path !in m && F.ClashFree(m[f.path := f])
    ensures F.Update(s, f).1 == F.Done && F.Represents(F.Update(s, f).0, m[f.path := f])
  {
    ClashFreeBefore(m, f);
    H.UpdateStep(s, m, f);
  }

  lemma ClashFreeBefore(m: F.Plain, f: File)
    requires f.path !in m && F.ClashFree(m[f.path := f])
    ensures F.ClashFree(m)
  {
    H.ClashFreeSubmap(m[f.path := f], f.path);
    assert m[f.path := f] - {f.path} == m;
  }

  lemma UpdateTypesAdds(s: T.Types, m: F.Plain, f: File)
    requires TypesAre(s, TypesIn(m)) && f.path !in m && Clean(m[f.path := f])
    ensures TypesAre(UpdateAll(s, FileTypes(f)), TypesIn(m[f.path := f]))
  {
    CleanCoherent(m[f.path := f]);
    TypesGrow(m, f);
    UpdateAllAdds(s, TypesIn(m), FileTypes(f));
  }

  lemma TypesGrow(m: F.Plain, f: File)
    requires f.path !in m
    ensures TypesIn(m[f.path := f]) == TypesIn(m) + Listed(FileTypes(f))
  {
    var m' := m[f.path := f];
    forall d: TypeDesc ensures d in TypesIn(m') <==> d in TypesIn(m) || d in FileTypes(f) {
      if d in FileTypes(f) { assert d in FileTypes(m'[f.path]); }
      if p :| p in m && d in FileTypes(m[p]) { assert d in FileTypes(m'[p]); }
    }
  }

  /** `fs` is some order of the files of `c`. */
  ghost predicate Enumerates(fs: seq<File>, c: F.Plain) {
    F.Keyed(c) && F.NoDuplicates(fs) && forall f: File :: f in fs <==> f.path in c && c[f.path] == f
  }

  lemma EnumeratesTail(fs: seq<File>, c: F.Plain)
    requires Enumerates(fs, c) && fs != []
    ensures Enumerates(fs[1..], c - {fs[0].path}) && fs[0].path in c && c[fs[0].path] == fs[0]
  {
    assert fs == [fs[0]] + fs[1..];
    assert fs[0] in fs;
    forall f: File ensures f in fs[1..] <==> f.path in c - {fs[0].path} && c[f.path] == f {
      if f in fs[1..] {
        var i :| 0 <= i < |fs[1..]| && fs[1..][i] == f;
        assert fs[i + 1] == f;
      }
    }
  }

  lemma EnumeratesNone(m: F.Plain, c: F.Plain)
    requires Enumerates([], c)
    ensures m + c == m
  {
    assert forall p :: p in c ==> c[p] in [];
  }

  /** In whatever order its files come, a schema with fresh contributions goes in whole. */
  lemma {:induction false} ApplyAdds(a: Agg, m: F.Plain, fs: seq<File>, c: F.Plain)
    requires AggIs(a, m) && Enumerates(fs, c) && m.Keys !! c.Keys && Clean(m + c)
    ensures ApplyFiles(a, fs).1 && AggIs(ApplyFiles(a, fs).0, m + c)
    decreases fs
  {
    if fs == [] {
      EnumeratesNone(m, c);
    } else {
      var f := fs[0];
      EnumeratesTail(fs, c);
      MoveOne(m, c, f);
      CleanWithin(m[f.path := f], m + c);
      ApplyFileAdds(a, m, f);
      ApplyAdds(ApplyFile(a, f).0, m[f.path := f], fs[1..], c - {f.path});
    }
  }

  lemma MoveOne(m: F.Plain, c: F.Plain, f: File)
    requires m.Keys !! c.Keys && f.path in c && c[f.path] == f
    ensures m[f.path := f] + (c - {f.path}) == m + c
    ensures m[f.path := f].Keys !! (c - {f.path}).Keys
    ensures Within(m[f.path := f], m + c) && f.path !in m
  {
  }

  // ---------------------------------------------------------------------------
  // Removing
  // ---------------------------------------------------------------------------

  ghost predicate PathsOnce(paths: seq<string>) {
    forall i, j :: 0 <= i < j < |paths| ==> paths[i] != paths[j]
  }

  function PathSet(paths: seq<string>): set<string> {
    set p | p in paths
  }

  lemma {:induction false} UnregisterFilesDrops(s: F.Files, m: F.Plain, paths: seq<string>)
    requires F.Represents(s, m) && F.ClashFree(m) && PathsOnce(paths) && PathSet(paths) <= m.Keys
    ensures UnregisterFiles(s, paths).1 && F.Represents(UnregisterFiles(s, paths).0, m - PathSet(paths))
    decreases paths
  {
    if paths == [] {
      NoPaths(m);
    } else {
      PathsSplit(m, paths);
      UnregisterFileDrops(s, m, paths[0]);
      UnregisterFilesDrops(F.Unregister(s, paths[0]).0, m - {paths[0]}, paths[1..]);
    }
  }

  lemma UnregisterFileDrops(s: F.Files, m: F.Plain, p: string)
    requires F.Represents(s, m) && F.ClashFree(m) && p in m
    ensures F.Unregister(s, p).1 == F.Done
    ensures F.Represents(F.Unregister(s, p).0, m - {p}) && F.ClashFree(m - {p})
  {
    H.UnregisterStep(s, m, p);
    H.ClashFreeSubmap(m, p);
  }

  lemma NoPaths(m: F.Plain)
    ensures m - PathSet([]) == m
  {
  }

  lemma PathsSplit(m: F.Plain, paths: seq<string>)
    requires PathsOnce(paths) && PathSet(paths) <= m.Keys && paths != []
    ensures paths[0] in m && PathsOnce(paths[1..]) && PathSet(paths[1..]) <= (m - {paths[0]}).Keys
    ensures m - {paths[0]} - PathSet(paths[1..]) == m - PathSet(paths)
  {
    var p := paths[0];
    assert paths == [p] + paths[1..];
    assert PathSet(paths) == {p} + PathSet(paths[1..]);
    forall q | q in PathSet(paths[1..]) ensures q != p {
      var i :| 0 <= i < |paths[1..]| && paths[1..][i] == q;
      assert paths[i + 1] == q;
    }
  }

  ghost predicate NamesExact(names: seq<FullName>, ds: set<TypeDesc>, k: T.Kinds) {
    Once(names) && forall n :: n in names <==> HasName(ds, k, n)
  }

  /** The fingerprint lists each path and each type name of `c` once, and nothing else. */
  ghost predicate PrintIs(fp: Fingerprint, c: F.Plain) {
    && PathsOnce(fp.filePaths) && PathSet(fp.filePaths) == c.Keys
    && (forall k: T.Kinds :: NamesExact(PrintNames(fp, k), TypesIn(c), k))
  }

  /** The types that are not among the types of `some` of the kinds in `ks`. */
  function Less(all: set<TypeDesc>, some: set<TypeDesc>, ks: set<T.Kinds>): set<TypeDesc> {
    set d | d in all && !(d in some && KindOf(d) in ks)
  }

  lemma RemoveKind(s: T.Types, all: set<TypeDesc>, some: set<TypeDesc>, ks: set<T.Kinds>, fp: Fingerprint, k: T.Kinds)
    requires Coherent(all) && some <= all && k !in ks && NamesExact(PrintNames(fp, k), some, k)
    requires TypesAre(s, Less(all, some, ks))
    ensures UnregisterAll(s, PrintNames(fp, k), k).1
    ensures TypesAre(UnregisterAll(s, PrintNames(fp, k), k).0, Less(all, some, ks + {k}))
  {
    LessKind(all, some, ks, PrintNames(fp, k), k);
    UnregisterAllDrops(s, Less(all, some, ks), PrintNames(fp, k), k);
  }

  /** Dropping one more kind by its names. */
  lemma LessKind(all: set<TypeDesc>, some: set<TypeDesc>, ks: set<T.Kinds>, names: seq<FullName>, k: T.Kinds)
    requires Coherent(all) && some <= all && k !in ks && NamesExact(names, some, k)
    ensures forall n :: n in names ==> HasName(Less(all, some, ks), k, n)
    ensures Without(Less(all, some, ks), names, k) == Less(all, some, ks + {k})
  {
    var now := Less(all, some, ks);
    forall n | n in names ensures HasName(now, k, n) {
      var d :| d in some && T.OfKind(d, k) && d.full == n;
      assert d in now;
    }
    forall d | d in now ensures T.OfKind(d, k) && d.full in names <==> d in some && KindOf(d) == k {
      if d in some && KindOf(d) == k { assert HasName(some, k, d.full); }
    }
  }

  lemma RemoveTypes(s: T.Types, all: set<TypeDesc>, some: set<TypeDesc>, fp: Fingerprint)
    requires Coherent(all) && some <= all && TypesAre(s, all)
    requires forall k: T.Kinds :: NamesExact(PrintNames(fp, k), some, k)
    ensures var t1 := UnregisterAll(s, fp.messages, T.Messages);
            var t2 := UnregisterAll(t1.0, fp.enums, T.Enums);
            var t3 := UnregisterAll(t2.0, fp.extensions, T.Extensions);
            t1.1 && t2.1 && t3.1 && TypesAre(t3.0, all - some)
  {
    LessEnds(all, some);
    RemoveKind(s, all, some, {}, fp, T.Messages);
    var t1 := UnregisterAll(s, fp.messages, T.Messages).0;
    RemoveKind(t1, all, some, {} + {T.Messages}, fp, T.Enums);
    var t2 := UnregisterAll(t1, fp.enums, T.Enums).0;
    RemoveKind(t2, all, some, {} + {T.Messages} + {T.Enums}, fp, T.Extensions);
  }

  lemma LessEnds(all: set<TypeDesc>, some: set<TypeDesc>)
    ensures Less(all, some, {}) == all
    ensures Less(all, some, {} + {T.Messages} + {T.Enums} + {T.Extensions}) == all - some
  {
  }

  lemma TypesShrink(m: F.Plain, c: F.Plain)
    requires Clean(m) && Within(c, m)
    ensures TypesIn(c) <= TypesIn(m) && TypesIn(m - c.Keys) == TypesIn(m) - TypesIn(c)
  {
    TypesSplit(m, c);
    forall d | d in TypesIn(m - c.Keys) && d in TypesIn(c) ensures false { TypesApart(m, c, d); }
  }

  lemma TypesSplit(m: F.Plain, c: F.Plain)
    requires Within(c, m)
    ensures TypesIn(m) == TypesIn(c) + TypesIn(m - c.Keys)
  {
    var r := m - c.Keys;
    forall d: TypeDesc ensures d in TypesIn(m) <==> d in TypesIn(c) || d in TypesIn(r) {
      if p :| p in m && d in FileTypes(m[p]) { assert if p in c then d in FileTypes(c[p]) else d in FileTypes(r[p]); }
      if p :| p in c && d in FileTypes(c[p]) { assert d in FileTypes(m[p]); }
      if p :| p in r && d in FileTypes(r[p]) { assert d in FileTypes(m[p]); }
    }
  }

  lemma TypesApart(m: F.Plain, c: F.Plain, d: TypeDesc)
    requires Clean(m) && Within(c, m) && d in TypesIn(c)
    ensures d !in TypesIn(m - c.Keys)
  {
    var q := TypesInDeclared(c, d);
    forall p | p in m - c.Keys ensures d !in FileTypes(m[p]) {
      FileTypesMembers(m[p], d);
      if d in Decls(m[p]) { NamesUnique(m, p, d, q, d); }
    }
  }

  /** Taking a schema out by its fingerprint leaves the aggregate of the remaining files. */
  lemma RemoveSubtracts(a: Agg, m: F.Plain, c: F.Plain, fp: Fingerprint)
    requires AggIs(a, m) && Clean(m) && Within(c, m) && PrintIs(fp, c)
    ensures RemovePrint(a, fp).1 && AggIs(RemovePrint(a, fp).0, m - c.Keys)
  {
    UnregisterFilesDrops(a.files, m, fp.filePaths);
    CleanCoherent(m);
    TypesShrink(m, c);
    RemoveTypes(a.types, TypesIn(m), TypesIn(c), fp);
  }

  /** Two aggregates a client cannot tell apart. */
  ghost predicate SameAgg(a: Agg, b: Agg) {
    L.SameView(a.files, b.files) && a.types == b.types
  }

  lemma SameMapSameAgg(a: Agg, b: Agg, m: F.Plain)
    requires AggIs(a, m) && AggIs(b, m) && Clean(m)
    ensures SameAgg(a, b)
  {
    L.SameMapSameView(a.files, b.files, m);
    TypesDetermined(a.types, b.types, TypesIn(m));
  }

  lemma AddThenSubtract(m: F.Plain, c: F.Plain)
    requires m.Keys !! c.Keys
    ensures m + c - c.Keys == m && Within(c, m + c) && Within(m, m + c)
  {
  }

  /** Removing a schema right after applying it restores the aggregate, if its contributions were fresh. */
  lemma RemoveUndoesApply(a: Agg, m: F.Plain, fs: seq<File>, c: F.Plain, fp: Fingerprint)
    requires AggIs(a, m) && Enumerates(fs, c) && m.Keys !! c.Keys && Clean(m + c) && PrintIs(fp, c)
    ensures ApplyFiles(a, fs).1 && RemovePrint(ApplyFiles(a, fs).0, fp).1
    ensures SameAgg(RemovePrint(ApplyFiles(a, fs).0, fp).0, a)
  {
    ApplyAdds(a, m, fs, c);
    AddThenSubtract(m, c);
    RemoveSubtracts(ApplyFiles(a, fs).0, m + c, c, fp);
    CleanWithin(m, m + c);
    SameMapSameAgg(RemovePrint(ApplyFiles(a, fs).0, fp).0, a, m);
  }

  // ---------------------------------------------------------------------------
  // The fingerprint
  // ---------------------------------------------------------------------------

  function AllTypes(fs: seq<File>): seq<TypeDesc> {
    if fs == [] then [] else AllTypes(fs[..|fs| - 1]) + FileTypes(fs[|fs| - 1])
  }

  function Paths(fs: seq<File>): seq<string> {
    seq(|fs|, i requires 0 <= i < |fs| => fs[i].path)
  }

  /** What collecting the files one after the other yields. */
  function PrintOf(fs: seq<File>): Fingerprint {
    var ds := AllTypes(fs);
    Fingerprint(Paths(fs), KindNames(ds, T.Messages), KindNames(ds, T.Enums), KindNames(ds, T.Extensions))
  }

  lemma {:induction false} AllTypesMembers(fs: seq<File>, d: TypeDesc)
    ensures d in AllTypes(fs) <==> exists f :: f in fs && d in FileTypes(f)
  {
    if fs != [] {
      AllTypesMembers(fs[..|fs| - 1], d);
      assert fs == fs[..|fs| - 1] + [fs[|fs| - 1]];
    }
  }

  lemma AllTypesOf(fs: seq<File>, c: F.Plain)
    requires Enumerates(fs, c)
    ensures Listed(AllTypes(fs)) == TypesIn(c)
  {
    forall d: TypeDesc ensures d in AllTypes(fs) <==> d in TypesIn(c) {
      AllTypesMembers(fs, d);
      if f :| f in fs && d in FileTypes(f) { assert c[f.path] == f; }
      if p :| p in c && d in FileTypes(c[p]) { assert c[p] in fs; }
    }
  }

  /** The fingerprint lists exactly the identifiers that applying the schema registers. */
  lemma PrintExact(fs: seq<File>, c: F.Plain)
    requires Enumerates(fs, c) && NamesOnce(AllTypes(fs))
    ensures PrintIs(PrintOf(fs), c)
  {
    PathsExact(fs, c);
    AllTypesOf(fs, c);
    forall k: T.Kinds ensures NamesExact(PrintNames(PrintOf(fs), k), TypesIn(c), k) {
      PrintNamesOf(fs, k);
      KindNamesExact(AllTypes(fs), k);
    }
  }

  lemma PrintNamesOf(fs: seq<File>, k: T.Kinds)
    ensures PrintNames(PrintOf(fs), k) == KindNames(AllTypes(fs), k)
  {
  }

  lemma PathsExact(fs: seq<File>, c: F.Plain)
    requires Enumerates(fs, c)
    ensures PathsOnce(Paths(fs)) && PathSet(Paths(fs)) == c.Keys
  {
    forall p ensures p in PathSet(Paths(fs)) <==> p in c {
      if i :| 0 <= i < |fs| && Paths(fs)[i] == p { assert fs[i] in fs; }
      if p in c {
        assert c[p] in fs;
        var i :| 0 <= i < |fs| && fs[i] == c[p];
        assert Paths(fs)[i] == p;
      }
    }
  }

  lemma KindNamesExact(ds: seq<TypeDesc>, k: T.Kinds)
    requires NamesOnce(ds)
    ensures NamesExact(KindNames(ds, k), Listed(ds), k)
  {
    KindNamesOnce(ds, k);
    forall n ensures n in KindNames(ds, k) <==> HasName(Listed(ds), k, n) { KindNamesMembers(ds, k, n); }
  }
}
