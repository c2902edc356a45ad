/**
 Schema snapshots: compiling a schema into its own registries and fingerprint, and folding it
 into the aggregate registries or taking it out of them, in place.
 */
module Snapshot {
  import opened Descriptors
  import F = FileIndex
  import T = TypeIndex
  import opened SchemaTypes
  import opened Aggregate
  import FR = FileRegistry
  import TR = TypeRegistry

  type Id = string

  /** One schema at one version; the registries never change once built, so they are values. */
  datatype SchemaSnapshot = SchemaSnapshot(
    schemaID: Id,
    version: nat,
    files: F.Files,
    types: T.Types,
    fingerprint: Fingerprint)

  function FilesOf(s: F.Files): F.Plain {
    map p | p in s.filesByPath && s.filesByPath[p] != [] :: s.filesByPath[p][0]
  }

  function Contribution(ss: SchemaSnapshot): F.Plain {
    FilesOf(ss.files)
  }

  lemma RepresentedFiles(s: F.Files, m: F.Plain)
    requires F.Represents(s, m)
    ensures FilesOf(s) == m
  {
  }

  /** Registries and fingerprint all describe the files of the schema. */
  ghost predicate WellBuilt(ss: SchemaSnapshot) {
    && AggIs(Agg(ss.files, ss.types), Contribution(ss))
    && Clean(Contribution(ss))
    && PrintIs(ss.fingerprint, Contribution(ss))
  }

  // ---------------------------------------------------------------------------
  // Upserting the types of a file
  // ---------------------------------------------------------------------------

  lemma {:induction false} UpdateAllConcat(s: T.Types, a: seq<TypeDesc>, b: seq<TypeDesc>)
    ensures UpdateAll(s, a + b) == UpdateAll(UpdateAll(s, a), b)
    decreases a
  {
    if a == [] {
      assert a + b == b;
    } else {
      assert (a + b)[1..] == a[1..] + b;
      UpdateAllConcat(T.Update(s, a[0]), a[1..], b);
    }
  }

  method UpdateEnums(types: TR.NamespacedTypes, scope: FullName, es: seq<Enum>)
    requires !types.readOnly
    modifies types
    ensures types.Value() == UpdateAll(old(types.Value()), EnumTypes(scope, es))
  {
    for i := 0 to |es|
      invariant UpdateAll(types.Value(), EnumTypes(scope, es[i..])) ==
                UpdateAll(old(types.Value()), EnumTypes(scope, es))
    {
      assert es[i..][1..] == es[i + 1..];
      var _ := types.UpdateEnum(EnumD(scope + [es[i].name], es[i]));
    }
  }

  method UpdateExtensions(types: TR.NamespacedTypes, scope: FullName, xs: seq<Extension>)
    requires !types.readOnly
    modifies types
    ensures types.Value() == UpdateAll(old(types.Value()), ExtensionTypes(scope, xs))
  {
    for i := 0 to |xs|
      invariant UpdateAll(types.Value(), ExtensionTypes(scope, xs[i..])) ==
                UpdateAll(old(types.Value()), ExtensionTypes(scope, xs))
    {
      assert xs[i..][1..] == xs[i + 1..];
      var _ := types.UpdateExtension(ExtensionD(scope + [xs[i].name], xs[i]));
    }
  }

  method UpdateMessages(types: TR.NamespacedTypes, scope: FullName, ms: seq<Message>)
    requires !types.readOnly
    modifies types
    ensures types.Value() == UpdateAll(old(types.Value()), MessagesTypes(scope, ms))
    decreases ms, 0
  {
    for i := 0 to |ms|
      invariant UpdateAll(types.Value(), MessagesTypes(scope, ms[i..])) ==
                UpdateAll(old(types.Value()), MessagesTypes(scope, ms))
    {
      assert ms[i..][1..] == ms[i + 1..];
      ghost var v := types.Value();
      RegisterMessageTypesUpdate(types, scope + [ms[i].name], ms[i]);
      UpdateAllConcat(v, MessageTypes(scope + [ms[i].name], ms[i]), MessagesTypes(scope, ms[i + 1..]));
    }
  }

  method RegisterMessageTypesUpdate(types: TR.NamespacedTypes, full: FullName, m: Message)
    requires !types.readOnly
    modifies types
    ensures types.Value() == UpdateAll(old(types.Value()), MessageTypes(full, m))
    decreases m, 1
  {
    ghost var v := types.Value();
    var _ := types.UpdateMessage(MessageD(full, m));
    UpdateMessages(types, full, m.messages);
    UpdateEnums(types, full, m.enums);
    UpdateExtensions(types, full, m.extensions);
    UpdateInTurn(v, [MessageD(full, m)], MessagesTypes(full, m.messages), EnumTypes(full, m.enums),
                 ExtensionTypes(full, m.extensions));
  }

  lemma UpdateInTurn(v: T.Types, a: seq<TypeDesc>, b: seq<TypeDesc>, c: seq<TypeDesc>, d: seq<TypeDesc>)
    ensures UpdateAll(v, a + b + c + d) == UpdateAll(UpdateAll(UpdateAll(UpdateAll(v, a), b), c), d)
  {
    UpdateAllConcat(v, a + b + c, d);
    UpdateAllConcat(v, a + b, c);
    UpdateAllConcat(v, a, b);
  }

  method RegisterFileTypesUpdate(types: TR.NamespacedTypes, f: File)
    requires !types.readOnly
    modifies types
    ensures types.Value() == UpdateAll(old(types.Value()), FileTypes(f))
  {
    ghost var v := types.Value();
    UpdateMessages(types, f.pkg, f.messages);
    UpdateEnums(types, f.pkg, f.enums);
    UpdateExtensions(types, f.pkg, f.extensions);
    UpdateInTurn(v, [], MessagesTypes(f.pkg, f.messages), EnumTypes(f.pkg, f.enums),
                 ExtensionTypes(f.pkg, f.extensions));
    assert [] + MessagesTypes(f.pkg, f.messages) == MessagesTypes(f.pkg, f.messages);
  }

  // ---------------------------------------------------------------------------
  // Folding a schema into the aggregate, and taking it out
  // ---------------------------------------------------------------------------

  function AggOf(files: FR.NamespacedFiles, types: TR.NamespacedTypes): Agg
    reads files, types
  {
    Agg(files.Value(), types.Value())
  }

  lemma {:induction false} ApplyFilesLast(a: Agg, fs: seq<File>, f: File)
    requires ApplyFiles(a, fs).1
    ensures ApplyFiles(a, fs + [f]) == ApplyFile(ApplyFiles(a, fs).0, f)
    decreases fs
  {
    if fs == [] {
      assert fs + [f] == [f];
    } else {
      assert (fs + [f])[1..] == fs[1..] + [f];
      ApplyFilesLast(ApplyFile(a, fs[0]).0, fs[1..], f);
    }
  }

  /** Upserts the files and types of a schema, file by file in whatever order the map yields them. */
  method ApplyToAggregate(files: FR.NamespacedFiles, types: TR.NamespacedTypes, ss: SchemaSnapshot)
    returns (ok: bool, ghost order: seq<File>)
    requires !files.readOnly && !types.readOnly && FR.PathsKeyed(ss.files)
    modifies files, types
    ensures (AggOf(files, types), ok) == ApplyFiles(old(AggOf(files, types)), order)
    ensures ok ==> Enumerates(order, Contribution(ss))
    ensures !ok ==> Part(order, Contribution(ss))
  {
    order := [];
    var todo := ss.files.filesByPath.Keys;
    assert Enumerates(order, Contribution(ss) - todo);
    while todo != {}
      invariant todo <= ss.files.filesByPath.Keys
      invariant (AggOf(files, types), true) == ApplyFiles(old(AggOf(files, types)), order)
      invariant Enumerates(order, Contribution(ss) - todo)
      decreases todo
    {
      var p :| p in todo;
      var f := ss.files.filesByPath[p][0];
      var o := files.UpdateFile(f);
      ApplyFilesLast(old(AggOf(files, types)), order, f);
      EnumeratesOneMore(order, Contribution(ss), todo, f);
      PartWithin(Contribution(ss), todo - {p});
      order := order + [f];
      if o != F.Done { return false, order; }
      RegisterFileTypesUpdate(types, f);
      todo := todo - {p};
    }
    PartWithin(Contribution(ss), {});
    ok := true;
  }

  /** The files are some of those of `c`, each once. */
  ghost predicate Part(fs: seq<File>, c: F.Plain) {
    exists some :: Enumerates(fs, some) && Within(some, c)
  }

  lemma PartWithin(c: F.Plain, todo: set<string>)
    ensures Within(c - todo, c) && c - {} == c
  {
  }

  lemma EnumeratesOneMore(fs: seq<File>, c: F.Plain, todo: set<string>, f: File)
    requires F.Keyed(c) && Enumerates(fs, c - todo) && f.path in todo && f.path in c && c[f.path] == f
    ensures Enumerates(fs + [f], c - (todo - {f.path}))
  {
    forall g: File ensures g in fs + [f] <==> g.path in c - (todo - {f.path}) && c[g.path] == g { }
    forall i | 0 <= i < |fs| ensures fs[i].path != f.path { assert fs[i] in fs; }
  }

  method UnregisterPaths(files: FR.NamespacedFiles, paths: seq<string>) returns (ok: bool)
    requires !files.readOnly
    modifies files
    ensures (files.Value(), ok) == UnregisterFiles(old(files.Value()), paths)
  {
    for i := 0 to |paths|
      invariant UnregisterFiles(files.Value(), paths[i..]) == UnregisterFiles(old(files.Value()), paths)
    {
      assert paths[i..][1..] == paths[i + 1..];
      var o := files.UnregisterFile(paths[i]);
      if o != F.Done { return false; }
    }
    return true;
  }

  method UnregisterNames(types: TR.NamespacedTypes, names: seq<FullName>, k: T.Kinds) returns (ok: bool)
    requires !types.readOnly
    modifies types
    ensures (types.Value(), ok) == UnregisterAll(old(types.Value()), names, k)
  {
    for i := 0 to |names|
      invariant UnregisterAll(types.Value(), names[i..], k) == UnregisterAll(old(types.Value()), names, k)
    {
      assert names[i..][1..] == names[i + 1..];
      var o;
      match k {
        case Messages => o := types.UnregisterMessage(names[i]);
        case Enums => o := types.UnregisterEnum(names[i]);
        case Extensions => o := types.UnregisterExtension(names[i]);
      }
      if o != T.Done { return false; }
    }
    return true;
  }

  /** Unregisters exactly what the fingerprint lists. */
  method RemoveFromAggregate(files: FR.NamespacedFiles, types: TR.NamespacedTypes, ss: SchemaSnapshot)
    returns (ok: bool)
    requires !files.readOnly && !types.readOnly
    modifies files, types
    ensures (AggOf(files, types), ok) == RemovePrint(old(AggOf(files, types)), ss.fingerprint)
  {
    ok := UnregisterPaths(files, ss.fingerprint.filePaths);
    if !ok { return; }
    ok := UnregisterNames(types, ss.fingerprint.messages, T.Messages);
    if !ok { return; }
    ok := UnregisterNames(types, ss.fingerprint.enums, T.Enums);
    if !ok { return; }
    ok := UnregisterNames(types, ss.fingerprint.extensions, T.Extensions);
  }
}
