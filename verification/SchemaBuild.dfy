/**
 Compiling a schema: its files go into a fresh pair of registries and its fingerprint is
 collected on the way.
 */
module SchemaBuild {
  import opened Descriptors
  import F = FileIndex
  import L = FileLookup
  import H = FileHistory
  import T = TypeIndex
  import opened SchemaTypes
  import opened Aggregate
  import opened Snapshot
  import FR = FileRegistry
  import TR = TypeRegistry

  // ---------------------------------------------------------------------------
  // Registering the types of a file
  // ---------------------------------------------------------------------------

  function AndThen(r: (T.Types, bool), ds: seq<TypeDesc>): (T.Types, bool) {
    if r.1 then RegisterAll(r.0, ds) else r
  }

  lemma {:induction false} RegisterAllConcat(s: T.Types, a: seq<TypeDesc>, b: seq<TypeDesc>)
    ensures RegisterAll(s, a + b) == AndThen(RegisterAll(s, a), b)
    decreases a
  {
    if a == [] {
      assert a + b == b;
    } else {
      assert (a + b)[1..] == a[1..] + b;
      RegisterAllConcat(T.Register(s, a[0]).0, a[1..], b);
    }
  }

  method RegisterEnums(types: TR.NamespacedTypes, scope: FullName, es: seq<Enum>) returns (ok: bool)
    requires !types.readOnly
    modifies types
    ensures (types.Value(), ok) == RegisterAll(old(types.Value()), EnumTypes(scope, es))
  {
    for i := 0 to |es|
      invariant RegisterAll(types.Value(), EnumTypes(scope, es[i..])) ==
                RegisterAll(old(types.Value()), EnumTypes(scope, es))
    {
      assert es[i..][1..] == es[i + 1..];
      var o := types.RegisterEnum(EnumD(scope + [es[i].name], es[i]));
      if o != T.Done { return false; }
    }
    return true;
  }

  method RegisterExtensions(types: TR.NamespacedTypes, scope: FullName, xs: seq<Extension>) returns (ok: bool)
    requires !types.readOnly
    modifies types
    ensures (types.Value(), ok) == RegisterAll(old(types.Value()), ExtensionTypes(scope, xs))
  {
    for i := 0 to |xs|
      invariant RegisterAll(types.Value(), ExtensionTypes(scope, xs[i..])) ==
                RegisterAll(old(types.Value()), ExtensionTypes(scope, xs))
    {
      assert xs[i..][1..] == xs[i + 1..];
      var o := types.RegisterExtension(ExtensionD(scope + [xs[i].name], xs[i]));
      if o != T.Done { return false; }
    }
    return true;
  }

  method RegisterMessages(types: TR.NamespacedTypes, scope: FullName, ms: seq<Message>) returns (ok: bool)
    requires !types.readOnly
    modifies types
    ensures (types.Value(), ok) == RegisterAll(old(types.Value()), MessagesTypes(scope, ms))
    decreases ms, 0
  {
    for i := 0 to |ms|
      invariant RegisterAll(types.Value(), MessagesTypes(scope, ms[i..])) ==
                RegisterAll(old(types.Value()), MessagesTypes(scope, ms))
    {
      assert ms[i..][1..] == ms[i + 1..];
      RegisterAllConcat(types.Value(), MessageTypes(scope + [ms[i].name], ms[i]), MessagesTypes(scope, ms[i + 1..]));
      ok := RegisterMessageTypes(types, scope + [ms[i].name], ms[i]);
      if !ok { return false; }
    }
    return true;
  }

  method RegisterMessageTypes(types: TR.NamespacedTypes, full: FullName, m: Message) returns (ok: bool)
    requires !types.readOnly
    modifies types
    ensures (types.Value(), ok) == RegisterAll(old(types.Value()), MessageTypes(full, m))
    decreases m, 1
  {
    RegisterInTurn(types.Value(), [MessageD(full, m)], MessagesTypes(full, m.messages), EnumTypes(full, m.enums),
                   ExtensionTypes(full, m.extensions));
    var o := types.RegisterMessage(MessageD(full, m));
    if o != T.Done { return false; }
    ok := RegisterMessages(types, full, m.messages);
    if !ok { return; }
    ok := RegisterEnums(types, full, m.enums);
    if !ok { return; }
    ok := RegisterExtensions(types, full, m.extensions);
  }

  lemma RegisterInTurn(v: T.Types, a: seq<TypeDesc>, b: seq<TypeDesc>, c: seq<TypeDesc>, d: seq<TypeDesc>)
    ensures RegisterAll(v, a + b + c + d) == AndThen(AndThen(AndThen(RegisterAll(v, a), b), c), d)
  {
    RegisterAllConcat(v, a + b + c, d);
    RegisterAllConcat(v, a + b, c);
    RegisterAllConcat(v, a, b);
  }

  /** Stops at the first type whose name or number is taken. */
  method RegisterFileTypes(types: TR.NamespacedTypes, f: File) returns (ok: bool)
    requires !types.readOnly
    modifies types
    ensures (types.Value(), ok) == RegisterAll(old(types.Value()), FileTypes(f))
  {
    RegisterInTurn(types.Value(), [], MessagesTypes(f.pkg, f.messages), EnumTypes(f.pkg, f.enums),
                   ExtensionTypes(f.pkg, f.extensions));
    assert [] + MessagesTypes(f.pkg, f.messages) == MessagesTypes(f.pkg, f.messages);
    ok := RegisterMessages(types, f.pkg, f.messages);
    if !ok { return; }
    ok := RegisterEnums(types, f.pkg, f.enums);
    if !ok { return; }
    ok := RegisterExtensions(types, f.pkg, f.extensions);
  }

  // ---------------------------------------------------------------------------
  // Collecting the fingerprint
  // ---------------------------------------------------------------------------

  function Extend(fp: Fingerprint, ds: seq<TypeDesc>): Fingerprint {
    fp.(messages := fp.messages + KindNames(ds, T.Messages),
        enums := fp.enums + KindNames(ds, T.Enums),
        extensions := fp.extensions + KindNames(ds, T.Extensions))
  }

  lemma ExtendTwice(fp: Fingerprint, a: seq<TypeDesc>, b: seq<TypeDesc>)
    ensures Extend(Extend(fp, a), b) == Extend(fp, a + b)
  {
    AppendTwice(fp.messages, a, b, T.Messages);
    AppendTwice(fp.enums, a, b, T.Enums);
    AppendTwice(fp.extensions, a, b, T.Extensions);
  }

  lemma AppendTwice(names: seq<FullName>, a: seq<TypeDesc>, b: seq<TypeDesc>, k: T.Kinds)
    ensures names + KindNames(a, k) + KindNames(b, k) == names + KindNames(a + b, k)
  {
    KindNamesConcat(a, b, k);
  }

  lemma Regroup(a: seq<TypeDesc>, b: seq<TypeDesc>, c: seq<TypeDesc>)
    ensures a + (b + c) == a + b + c
  {
  }

  lemma ExtendOne(fp: Fingerprint, d: TypeDesc)
    ensures Extend(fp, [d]) == fp.(messages := fp.messages + if d.MessageD? then [d.full] else [],
                                   enums := fp.enums + if d.EnumD? then [d.full] else [],
                                   extensions := fp.extensions + if d.ExtensionD? then [d.full] else [])
  {
    assert forall k: T.Kinds :: KindNames([d], k) == if T.OfKind(d, k) then [d.full] else [];
  }

  method CollectEnums(fp0: Fingerprint, scope: FullName, es: seq<Enum>) returns (fp: Fingerprint)
    ensures fp == Extend(fp0, EnumTypes(scope, es))
  {
    fp := fp0;
    for i := 0 to |es|
      invariant Extend(fp, EnumTypes(scope, es[i..])) == Extend(fp0, EnumTypes(scope, es))
    {
      assert es[i..][1..] == es[i + 1..];
      var d: TypeDesc := EnumD(scope + [es[i].name], es[i]);
      ExtendOne(fp, d);
      ExtendTwice(fp, [d], EnumTypes(scope, es[i + 1..]));
      fp := fp.(enums := fp.enums + [scope + [es[i].name]]);
    }
  }

  method CollectExtensions(fp0: Fingerprint, scope: FullName, xs: seq<Extension>) returns (fp: Fingerprint)
    ensures fp == Extend(fp0, ExtensionTypes(scope, xs))
  {
    fp := fp0;
    for i := 0 to |xs|
      invariant Extend(fp, ExtensionTypes(scope, xs[i..])) == Extend(fp0, ExtensionTypes(scope, xs))
    {
      assert xs[i..][1..] == xs[i + 1..];
      var d: TypeDesc := ExtensionD(scope + [xs[i].name], xs[i]);
      ExtendOne(fp, d);
      ExtendTwice(fp, [d], ExtensionTypes(scope, xs[i + 1..]));
      fp := fp.(extensions := fp.extensions + [scope + [xs[i].name]]);
    }
  }

  /** The part that the walk over a file and the walk over a message have in common. */
  method CollectLeaves(fp0: Fingerprint, scope: FullName, es: seq<Enum>, xs: seq<Extension>) returns (fp: Fingerprint)
    ensures fp == Extend(fp0, EnumTypes(scope, es) + ExtensionTypes(scope, xs))
  {
    fp := CollectEnums(fp0, scope, es);
    fp := CollectExtensions(fp, scope, xs);
    ExtendTwice(fp0, EnumTypes(scope, es), ExtensionTypes(scope, xs));
  }

  method CollectMessages(fp0: Fingerprint, scope: FullName, ms: seq<Message>) returns (fp: Fingerprint)
    ensures fp == Extend(fp0, MessagesTypes(scope, ms))
    decreases ms, 0
  {
    fp := fp0;
    for i := 0 to |ms|
      invariant Extend(fp, MessagesTypes(scope, ms[i..])) == Extend(fp0, MessagesTypes(scope, ms))
    {
      assert ms[i..][1..] == ms[i + 1..];
      ExtendTwice(fp, MessageTypes(scope + [ms[i].name], ms[i]), MessagesTypes(scope, ms[i + 1..]));
      fp := CollectMessage(fp, scope + [ms[i].name], ms[i]);
    }
  }

  method CollectMessage(fp0: Fingerprint, full: FullName, m: Message) returns (fp: Fingerprint)
    ensures fp == Extend(fp0, MessageTypes(full, m))
    decreases m, 1
  {
    fp := fp0.(messages := fp0.messages + [full]);
    var d: TypeDesc := MessageD(full, m);
    ExtendOne(fp0, d);
    fp := CollectMessages(fp, full, m.messages);
    ExtendTwice(fp0, [d], MessagesTypes(full, m.messages));
    fp := CollectLeaves(fp, full, m.enums, m.extensions);
    ExtendTwice(fp0, [d] + MessagesTypes(full, m.messages),
                EnumTypes(full, m.enums) + ExtensionTypes(full, m.extensions));
    Regroup([d] + MessagesTypes(full, m.messages), EnumTypes(full, m.enums), ExtensionTypes(full, m.extensions));
  }

  /** Adds the path and, per kind, the names of the types of a file. */
  method Collect(fp0: Fingerprint, f: File) returns (fp: Fingerprint)
    ensures fp == Extend(fp0.(filePaths := fp0.filePaths + [f.path]), FileTypes(f))
  {
    var fp1 := fp0.(filePaths := fp0.filePaths + [f.path]);
    fp := CollectMessages(fp1, f.pkg, f.messages);
    fp := CollectLeaves(fp, f.pkg, f.enums, f.extensions);
    ExtendTwice(fp1, MessagesTypes(f.pkg, f.messages), EnumTypes(f.pkg, f.enums) + ExtensionTypes(f.pkg, f.extensions));
    Regroup(MessagesTypes(f.pkg, f.messages), EnumTypes(f.pkg, f.enums), ExtensionTypes(f.pkg, f.extensions));
  }

  lemma PrintOfLast(fs: seq<File>, f: File)
    ensures PrintOf(fs + [f]) ==
            Extend(PrintOf(fs).(filePaths := PrintOf(fs).filePaths + [f.path]), FileTypes(f))
    ensures AllTypes(fs + [f]) == AllTypes(fs) + FileTypes(f)
  {
    assert (fs + [f])[..|fs|] == fs;
    KindNamesConcat(AllTypes(fs), FileTypes(f), T.Messages);
    KindNamesConcat(AllTypes(fs), FileTypes(f), T.Enums);
    KindNamesConcat(AllTypes(fs), FileTypes(f), T.Extensions);
    assert Paths(fs + [f]) == Paths(fs) + [f.path];
  }

  // ---------------------------------------------------------------------------
  // Compiling
  // ---------------------------------------------------------------------------

  /** The files `fs` of `done` are in, and each listed every type once. */
  ghost predicate Built(a: Agg, fs: seq<File>, done: F.Plain) {
    && AggIs(a, done) && Enumerates(fs, done) && NamesOnce(AllTypes(fs)) && Coherent(TypesIn(done))
  }

  /** What the descriptor library guarantees of the files it hands out together. */
  ghost predicate Linked(compiled: F.Plain) {
    F.ClashFree(compiled) && L.AllUnique(compiled)
  }

  lemma LinkedWithin(m: F.Plain, n: F.Plain)
    requires Linked(n) && Within(m, n)
    ensures Linked(m)
  {
    forall p, d | F.Offers(m, p, d) ensures F.Offers(n, p, d) { }
  }

  lemma RegisterFileAdds(s: F.Files, m: F.Plain, f: File)
    requires F.Represents(s, m) && f.path !in m && Linked(m[f.path := f])
    ensures F.Register(s, f).1 == F.Done && F.Represents(F.Register(s, f).0, m[f.path := f])
  {
    H.ClashFreeSubmap(m[f.path := f], f.path);
    PutThenDrop(m, f);
    H.RegisterStep(s, m, f);
  }

  lemma PutThenDrop(m: F.Plain, f: File)
    requires f.path !in m
    ensures m[f.path := f] - {f.path} == m
  {
  }

  lemma FileNamesNew(m: F.Plain, f: File)
    requires f.path !in m && Linked(m[f.path := f])
    ensures NamesNew(TypesIn(m), FileTypes(f))
  {
    var m' := m[f.path := f];
    forall d, e | d in TypesIn(m) && e in FileTypes(f) ensures d.full != e.full {
      var p := TypesInDeclared(m, d);
      FileTypesMembers(f, e);
      if d.full == e.full { NamesUnique(m', p, d, f.path, e); }
    }
  }

  lemma NamesOnceConcat(a: seq<TypeDesc>, b: seq<TypeDesc>)
    requires NamesOnce(a) && NamesOnce(b) && NamesNew(Listed(a), b)
    ensures NamesOnce(a + b)
  {
    var c := a + b;
    forall i, j | 0 <= i < j < |c| ensures c[i].full != c[j].full {
      if i < |a| <= j { assert a[i] in Listed(a) && b[j - |a|] in b; }
    }
  }

  /** The types of one more file go in exactly when the file lists each once and takes no number twice. */
  lemma TypesOfFile(s: T.Types, m: F.Plain, f: File)
    requires TypesAre(s, TypesIn(m)) && Coherent(TypesIn(m)) && f.path !in m && Linked(m[f.path := f])
    ensures RegisterAll(s, FileTypes(f)).1 <==> NamesOnce(FileTypes(f)) && Coherent(TypesIn(m[f.path := f]))
    ensures RegisterAll(s, FileTypes(f)).1 ==> TypesAre(RegisterAll(s, FileTypes(f)).0, TypesIn(m[f.path := f]))
  {
    RegisterAllExact(s, TypesIn(m), FileTypes(f));
    FileNamesNew(m, f);
    TypesGrow(m, f);
  }

  lemma BuildStep(a: Agg, fs: seq<File>, m: F.Plain, f: File)
    requires Built(a, fs, m) && f.path !in m && Linked(m[f.path := f])
    requires RegisterAll(a.types, FileTypes(f)).1
    ensures Built(Agg(F.Register(a.files, f).0, RegisterAll(a.types, FileTypes(f)).0), fs + [f], m[f.path := f])
    ensures NamesOnce(FileTypes(f))
  {
    RegisterFileAdds(a.files, m, f);
    TypesOfFile(a.types, m, f);
    EnumeratesPut(fs, m, f);
    PrintOfLast(fs, f);
    AllTypesOf(fs, m);
    FileNamesNew(m, f);
    NamesOnceConcat(AllTypes(fs), FileTypes(f));
  }

  lemma EnumeratesPut(fs: seq<File>, m: F.Plain, f: File)
    requires Enumerates(fs, m) && f.path !in m
    ensures Enumerates(fs + [f], m[f.path := f])
  {
    forall g: File ensures g in fs + [f] <==> g.path in m[f.path := f] && m[f.path := f][g.path] == g { }
    forall i | 0 <= i < |fs| ensures fs[i].path != f.path { assert fs[i] in fs; }
  }

  /** A schema compiles exactly when its files list each type once and share no extension number. */
  ghost predicate Compilable(compiled: F.Plain) {
    (forall p :: p in compiled ==> NamesOnce(FileTypes(compiled[p]))) && SlotsDistinct(compiled)
  }

  function BuildOne(a: Agg, f: File): (Agg, bool) {
    var (s, o) := F.Register(a.files, f);
    if o != F.Done then (Agg(s, a.types), false) else
      var (t, ok) := RegisterAll(a.types, FileTypes(f));
      (Agg(s, t), ok)
  }

  function BuildAll(fs: seq<File>): (Agg, bool) {
    if fs == [] then (Blank, true) else
      var r := BuildAll(fs[..|fs| - 1]);
      if r.1 then BuildOne(r.0, fs[|fs| - 1]) else r
  }

  lemma BuildOneExact(a: Agg, fs: seq<File>, m: F.Plain, f: File)
    requires Built(a, fs, m) && f.path !in m && Linked(m[f.path := f])
    ensures BuildOne(a, f).1 ==> Built(BuildOne(a, f).0, fs + [f], m[f.path := f]) && NamesOnce(FileTypes(f))
    ensures !BuildOne(a, f).1 ==> !Compilable(m[f.path := f])
  {
    RegisterFileAdds(a.files, m, f);
    if RegisterAll(a.types, FileTypes(f)).1 {
      BuildStep(a, fs, m, f);
    } else {
      TypesOfFile(a.types, m, f);
      Uncompilable(m, f);
    }
  }

  lemma Uncompilable(m: F.Plain, f: File)
    requires Linked(m[f.path := f]) && !(NamesOnce(FileTypes(f)) && Coherent(TypesIn(m[f.path := f])))
    ensures !Compilable(m[f.path := f])
  {
    assert f.path in m[f.path := f];
    if SlotsDistinct(m[f.path := f]) {
      CleanCoherent(m[f.path := f]);
    }
  }

  ghost predicate TypesOnce(m: F.Plain) {
    forall p :: p in m ==> NamesOnce(FileTypes(m[p]))
  }

  lemma {:induction false} BuildAllExact(fs: seq<File>, m: F.Plain)
    requires Enumerates(fs, m) && Linked(m)
    ensures BuildAll(fs).1 ==> Built(BuildAll(fs).0, fs, m) && TypesOnce(m)
    ensures !BuildAll(fs).1 ==> !Compilable(m)
    decreases |fs|
  {
    if fs == [] {
      NothingBuilt(m);
    } else {
      var init, f := fs[..|fs| - 1], fs[|fs| - 1];
      LastFile(fs, m);
      BuildAllExact(init, m - {f.path});
      BuildMore(init, f);
      if BuildAll(init).1 {
        BuildOneExact(BuildAll(init).0, init, m - {f.path}, f);
        TypesOnceMore(m - {f.path}, f);
      } else {
        UncompilablePart(m, f.path);
      }
    }
  }

  lemma TypesOnceMore(m: F.Plain, f: File)
    requires TypesOnce(m)
    ensures NamesOnce(FileTypes(f)) ==> TypesOnce(m[f.path := f])
  {
  }

  lemma UncompilablePart(m: F.Plain, p: string)
    requires !Compilable(m - {p})
    ensures !Compilable(m)
  {
    if Compilable(m) { CompilableWithin(m - {p}, m); }
  }

  lemma NothingBuilt(m: F.Plain)
    requires Enumerates([], m)
    ensures Built(Blank, [], m) && TypesOnce(m)
  {
    EnumeratesNone(map[], m);
    assert m == map[] + m;
    BlankIs();
    assert TypesIn(m) == {};
  }

  lemma LastFile(fs: seq<File>, m: F.Plain)
    requires Enumerates(fs, m) && Linked(m) && fs != []
    ensures var f := fs[|fs| - 1];
            && f.path in m && m[f.path] == f && (m - {f.path})[f.path := f] == m
            && fs[..|fs| - 1] + [f] == fs && Enumerates(fs[..|fs| - 1], m - {f.path}) && Linked(m - {f.path})
  {
    var init, f := fs[..|fs| - 1], fs[|fs| - 1];
    assert f in fs;
    LinkedWithin(m - {f.path}, m);
    forall g: File ensures g in init <==> g.path in m - {f.path} && m[g.path] == g {
      if g in init {
        var i :| 0 <= i < |init| && init[i] == g;
        assert fs[i] == g;
        assert g in fs;
      }
      if g in fs && g != f {
        var i :| 0 <= i < |fs| && fs[i] == g;
        assert init[i] == g;
      }
    }
  }

  lemma CompilableWithin(m: F.Plain, n: F.Plain)
    requires Compilable(n) && Within(m, n)
    ensures Compilable(m)
  {
    assert TypesIn(m) <= TypesIn(n);
  }

  /** In whatever order the files come, the schema compiles exactly when it can. */
  lemma CompiledExact(fs: seq<File>, compiled: F.Plain, id: Id, version: nat)
    requires Enumerates(fs, compiled) && Linked(compiled)
    ensures BuildAll(fs).1 <==> Compilable(compiled)
    ensures var a := BuildAll(fs).0;
            var ss := SchemaSnapshot(id, version, a.files, a.types, PrintOf(fs));
            BuildAll(fs).1 ==> WellBuilt(ss) && Contribution(ss) == compiled
  {
    BuildAllExact(fs, compiled);
    if BuildAll(fs).1 {
      FinishedBuild(BuildAll(fs).0, fs, compiled, id, version);
    }
  }

  lemma FinishedBuild(a: Agg, fs: seq<File>, m: F.Plain, id: Id, version: nat)
    requires Built(a, fs, m) && Linked(m)
    ensures var ss := SchemaSnapshot(id, version, a.files, a.types, PrintOf(fs));
            WellBuilt(ss) && Contribution(ss) == m
    ensures SlotsDistinct(m)
  {
    RepresentedFiles(a.files, m);
    PrintExact(fs, m);
  }

  /** A file that stops the build of some files stops the build of all of them. */
  lemma StopsBuild(fs: seq<File>, compiled: F.Plain)
    requires Part(fs, compiled) && Linked(compiled) && !BuildAll(fs).1
    ensures !Compilable(compiled)
  {
    var done :| Enumerates(fs, done) && Within(done, compiled);
    LinkedWithin(done, compiled);
    BuildAllExact(fs, done);
    if Compilable(compiled) { CompilableWithin(done, compiled); }
  }

  lemma BuildMore(fs: seq<File>, f: File)
    ensures BuildAll(fs + [f]) == if BuildAll(fs).1 then BuildOne(BuildAll(fs).0, f) else BuildAll(fs)
  {
    assert (fs + [f])[..|fs|] == fs;
  }

  /** The registries inherit the parents of the resolver; lookups in them fall back there. */
  method CompileSchema(id: Id, version: nat, compiled: F.Plain,
                       parentFiles: FR.NamespacedFiles?, parentTypes: TR.NamespacedTypes?)
    returns (r: Option<SchemaSnapshot>)
    requires Linked(compiled)
    requires parentFiles != null ==> parentFiles.Rooted()
    requires parentTypes != null ==> parentTypes.Rooted()
    ensures r.Some? <==> Compilable(compiled)
    ensures r.Some? ==> WellBuilt(r.value) && Contribution(r.value) == compiled
    ensures r.Some? ==> r.value.schemaID == id && r.value.version == version
  {
    ghost var order;
    r, order := BuildSchema(id, version, compiled, parentFiles, parentTypes);
    if r.Some? {
      CompiledExact(order, compiled, id, version);
    } else {
      StopsBuild(order, compiled);
    }
  }

  method BuildSchema(id: Id, version: nat, compiled: F.Plain,
                     parentFiles: FR.NamespacedFiles?, parentTypes: TR.NamespacedTypes?)
    returns (r: Option<SchemaSnapshot>, ghost order: seq<File>)
    requires F.Keyed(compiled)
    requires parentFiles != null ==> parentFiles.Rooted()
    requires parentTypes != null ==> parentTypes.Rooted()
    ensures r.Some? <==> BuildAll(order).1
    ensures r.Some? ==> Enumerates(order, compiled)
    ensures r.None? ==> Part(order, compiled)
    ensures var a := BuildAll(order).0;
            r.Some? ==> r.value == SchemaSnapshot(id, version, a.files, a.types, PrintOf(order))
  {
    var files := new FR.NamespacedFiles(parentFiles);
    var types := new TR.NamespacedTypes(parentTypes);
    var fp := Fingerprint([], [], [], []);
    order := [];
    var todo := compiled.Keys;
    assert Enumerates(order, compiled - todo);
    while todo != {}
      invariant todo <= compiled.Keys && Enumerates(order, compiled - todo)
      invariant BuildAll(order) == (AggOf(files, types), true) && fp == PrintOf(order)
      invariant fresh(files) && fresh(types) && !files.readOnly && !types.readOnly
      decreases todo
    {
      var p :| p in todo;
      var f := compiled[p];
      BuildMore(order, f);
      PrintOfLast(order, f);
      EnumeratesOneMore(order, compiled, todo, f);
      PartWithin(compiled, todo - {p});
      order := order + [f];
      todo := todo - {p};
      var o := files.RegisterFile(f);
      if o != F.Done { return None, order; }
      var ok := RegisterFileTypes(types, f);
      if !ok { return None, order; }
      fp := Collect(fp, f);
    }
    PartWithin(compiled, {});
    return Some(SchemaSnapshot(id, version, files.Value(), types.Value(), fp)), order;
  }
}
