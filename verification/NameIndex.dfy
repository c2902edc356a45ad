/**
 The name index of a namespace snapshot: which schema owns a full name.  Two schemas that export
 the same name make building it fail.
 */
module NameIndex {
  import opened Descriptors
  import F = FileIndex
  import T = TypeIndex
  import opened SchemaTypes
  import opened Snapshot

  type Schemas = map<Id, SchemaSnapshot>
  type Index = map<FullName, Id>

  /** The index records these; enum values, fields and oneofs are not in it. */
  predicate IsIndexed(d: Descriptor) {
    T.IsType(d) || d.ServiceD? || d.MethodD?
  }

  // ---------------------------------------------------------------------------
  // The names of a file
  // ---------------------------------------------------------------------------

  function Fulls(ds: seq<TypeDesc>): seq<FullName> {
    if ds == [] then [] else [ds[0].full] + Fulls(ds[1..])
  }

  function MethodNames(full: FullName, rs: seq<Rpc>): seq<FullName> {
    if rs == [] then [] else [full + [rs[0].name]] + MethodNames(full, rs[1..])
  }

  function ServiceNames(scope: FullName, ss: seq<Service>): seq<FullName> {
    if ss == [] then [] else
      [scope + [ss[0].name]] + MethodNames(scope + [ss[0].name], ss[0].methods) + ServiceNames(scope, ss[1..])
  }

  function IndexedNames(f: File): seq<FullName> {
    Fulls(FileTypes(f)) + ServiceNames(f.pkg, f.services)
  }

  ghost predicate Declared(ds: set<Descriptor>, n: FullName) {
    exists d :: d in ds && IsIndexed(d) && d.full == n
  }

  lemma {:induction false} FullsMembers(ds: seq<TypeDesc>, n: FullName)
    ensures n in Fulls(ds) <==> exists d :: d in ds && d.full == n
    decreases ds
  {
    if ds != [] {
      FullsMembers(ds[1..], n);
      assert ds == [ds[0]] + ds[1..];
    }
  }

  lemma {:induction false} MethodNamesMembers(full: FullName, rs: seq<Rpc>, n: FullName)
    ensures n in MethodNames(full, rs) <==> exists r :: r in rs && full + [r.name] == n
    decreases rs
  {
    if rs != [] {
      MethodNamesMembers(full, rs[1..], n);
      assert rs == [rs[0]] + rs[1..];
    }
  }

  lemma OneServiceNames(scope: FullName, s: Service, n: FullName)
    ensures n in [scope + [s.name]] + MethodNames(scope + [s.name], s.methods) <==> Declared(ServiceDecls(scope, s), n)
  {
    var ds := ServiceDecls(scope, s);
    MethodNamesMembers(scope + [s.name], s.methods, n);
    if n == scope + [s.name] {
      assert ServiceD(n, s) in ds;
    }
    if r :| r in s.methods && scope + [s.name] + [r.name] == n {
      assert scope + [s.name] + [r.name] == scope + [s.name, r.name];
      assert MethodD(scope + [s.name, r.name], r) in ds;
    }
    if d :| d in ds && d.full == n && d.MethodD? {
      var r :| r in s.methods && d == MethodD(scope + [s.name, r.name], r);
      assert scope + [s.name] + [r.name] == scope + [s.name, r.name];
    }
  }

  lemma {:induction false} ServiceNamesMembers(scope: FullName, ss: seq<Service>, n: FullName)
    ensures n in ServiceNames(scope, ss) <==> Declared(ServicesDecls(scope, ss), n)
    decreases ss
  {
    if ss != [] {
      ServiceNamesMembers(scope, ss[1..], n);
      OneServiceNames(scope, ss[0], n);
      assert ss == [ss[0]] + ss[1..];
      assert ServicesDecls(scope, ss) == ServiceDecls(scope, ss[0]) + ServicesDecls(scope, ss[1..]);
    }
  }

  lemma KindsOfDecls(f: File, d: Descriptor)
    requires d in Decls(f) && IsIndexed(d) && !T.IsType(d)
    ensures d in ServicesDecls(f.pkg, f.services)
  {
    if d in MessagesDecls(f.pkg, f.messages) { NoServiceInside(f.pkg, f.messages, d); }
  }

  lemma {:induction false} NoServiceInside(scope: FullName, ms: seq<Message>, d: Descriptor)
    requires d in MessagesDecls(scope, ms)
    ensures !d.ServiceD? && !d.MethodD?
    decreases ms
  {
    var m := MessagesDeclsCases(scope, ms, d);
    if d in MessagesDecls(scope + [m.name], m.messages) {
      NoServiceInside(scope + [m.name], m.messages, d);
    }
  }

  /** The walk records exactly the names of messages, enums, extensions, services and methods, at any depth. */
  lemma IndexedNamesExact(f: File, n: FullName)
    ensures n in IndexedNames(f) <==> Declared(Decls(f), n)
  {
    FullsMembers(FileTypes(f), n);
    ServiceNamesMembers(f.pkg, f.services, n);
    if d :| d in FileTypes(f) && d.full == n { FileTypesMembers(f, d); }
    if d :| d in Decls(f) && IsIndexed(d) && d.full == n {
      FileTypesMembers(f, d);
      if !T.IsType(d) { KindsOfDecls(f, d); }
    }
  }

  // ---------------------------------------------------------------------------
  // Building the index
  // ---------------------------------------------------------------------------

  function PlainNames(c: F.Plain): set<FullName> {
    set p, n | p in c && n in IndexedNames(c[p]) :: n
  }

  function SchemaNames(ss: SchemaSnapshot): set<FullName> {
    PlainNames(Contribution(ss))
  }

  /** No name is exported by two schemas. */
  ghost predicate NamesApart(schemas: Schemas) {
    forall i, j, n :: i in schemas && j in schemas && n in SchemaNames(schemas[i]) && n in SchemaNames(schemas[j]) ==>
      i == j
  }

  ghost predicate Owns(schemas: Schemas, i: Id, n: FullName) {
    i in schemas && n in SchemaNames(schemas[i])
  }

  ghost predicate Points(index: Index, n: FullName, i: Id) {
    n in index && index[n] == i
  }

  ghost predicate Indexes(index: Index, schemas: Schemas) {
    forall n, i :: Points(index, n, i) <==> Owns(schemas, i, n)
  }

  /** What recording `names` for schema `id` does: the first owner keeps a name. */
  ghost predicate Recorded(index: Index, clashes: set<FullName>, id: Id, names: set<FullName>,
                           index': Index, clashes': set<FullName>)
  {
    && index'.Keys == index.Keys + names
    && (forall n :: n in index' ==> index'[n] == if n in index then index[n] else id)
    && (forall n :: n in clashes' <==> n in clashes || (n in names && n in index && index[n] != id))
  }

  lemma RecordedTwice(i0: Index, c0: set<FullName>, id: Id, a: set<FullName>, i1: Index, c1: set<FullName>,
                      b: set<FullName>, i2: Index, c2: set<FullName>)
    requires Recorded(i0, c0, id, a, i1, c1) && Recorded(i1, c1, id, b, i2, c2)
    ensures Recorded(i0, c0, id, a + b, i2, c2)
  {
  }

  method RecordNames(i0: Index, c0: set<FullName>, id: Id, names: seq<FullName>)
    returns (index: Index, clashes: set<FullName>)
    ensures Recorded(i0, c0, id, F.NameSet(names), index, clashes)
  {
    index, clashes := i0, c0;
    for k := 0 to |names|
      invariant Recorded(i0, c0, id, F.NameSet(names[..k]), index, clashes)
    {
      var n := names[k];
      assert names[..k + 1] == names[..k] + [n];
      if n in index {
        if index[n] != id {
          clashes := clashes + {n};
        }
      } else {
        index := index[n := id];
      }
    }
    assert names[..|names|] == names;
  }

  method RecordSchema(i0: Index, c0: set<FullName>, id: Id, ss: SchemaSnapshot)
    returns (index: Index, clashes: set<FullName>)
    ensures Recorded(i0, c0, id, SchemaNames(ss), index, clashes)
  {
    index, clashes := i0, c0;
    var c := Contribution(ss);
    var todo := c.Keys;
    assert PlainNames(c - todo) == {};
    while todo != {}
      invariant todo <= c.Keys && Recorded(i0, c0, id, PlainNames(c - todo), index, clashes)
      decreases todo
    {
      var p :| p in todo;
      ghost var i1, c1 := index, clashes;
      var names := IndexedNames(c[p]);
      index, clashes := RecordNames(index, clashes, id, names);
      RecordedTwice(i0, c0, id, PlainNames(c - todo), i1, c1, F.NameSet(names), index, clashes);
      NamesOfOneMore(c, todo, p);
      todo := todo - {p};
    }
    PartWithin(c, {});
  }

  lemma NamesOfOneMore(c: F.Plain, todo: set<string>, p: string)
    requires p in todo && p in c
    ensures PlainNames(c - (todo - {p})) == PlainNames(c - todo) + F.NameSet(IndexedNames(c[p]))
  {
    var more := c - (todo - {p});
    forall n ensures n in PlainNames(more) <==> n in PlainNames(c - todo) || n in IndexedNames(c[p]) {
      if q :| q in more && n in IndexedNames(more[q]) { assert q != p ==> (c - todo)[q] == more[q]; }
      if n in IndexedNames(c[p]) { assert n in IndexedNames(more[p]); }
      if q :| q in c - todo && n in IndexedNames((c - todo)[q]) { assert n in IndexedNames(more[q]); }
    }
  }

  /** Building succeeds exactly when no two schemas export a name, and then points each name at its owner. */
  method BuildNameIndex(schemas: Schemas) returns (ok: bool, index: Index)
    ensures ok <==> NamesApart(schemas)
    ensures ok ==> Indexes(index, schemas)
  {
    index := map[];
    var clashes := {};
    var todo := schemas.Keys;
    while todo != {}
      invariant todo <= schemas.Keys && Progress(index, clashes, schemas - todo)
      decreases todo
    {
      var id :| id in todo;
      ghost var i0, c0 := index, clashes;
      index, clashes := RecordSchema(index, clashes, id, schemas[id]);
      ProgressStep(i0, c0, schemas, todo, id, index, clashes);
      todo := todo - {id};
    }
    assert schemas - {} == schemas;
    ok := clashes == {};
    ProgressDone(index, clashes, schemas);
  }

  ghost predicate Shared(schemas: Schemas, n: FullName) {
    exists i, j :: i != j && Owns(schemas, i, n) && Owns(schemas, j, n)
  }

  ghost predicate Progress(index: Index, clashes: set<FullName>, done: Schemas) {
    && (forall n :: n in index ==> Owns(done, index[n], n))
    && (forall n, i :: Owns(done, i, n) ==> n in index)
    && (forall n :: n in clashes <==> Shared(done, n))
  }

  lemma ProgressStep(i0: Index, c0: set<FullName>, schemas: Schemas, todo: set<Id>, id: Id, i1: Index,
                     c1: set<FullName>)
    requires id in todo && id in schemas && Progress(i0, c0, schemas - todo)
    requires Recorded(i0, c0, id, SchemaNames(schemas[id]), i1, c1)
    ensures Progress(i1, c1, schemas - (todo - {id}))
  {
    var was, now := schemas - todo, schemas - (todo - {id});
    forall i, n ensures Owns(now, i, n) <==> Owns(was, i, n) || (i == id && n in SchemaNames(schemas[id])) { }
    forall n ensures n in c1 <==> Shared(now, n) { ClashStep(i0, c0, was, now, id, schemas[id], i1, c1, n); }
  }

  lemma ClashStep(i0: Index, c0: set<FullName>, was: Schemas, now: Schemas, id: Id, ss: SchemaSnapshot,
                  i1: Index, c1: set<FullName>, n: FullName)
    requires id !in was && Progress(i0, c0, was) && Recorded(i0, c0, id, SchemaNames(ss), i1, c1)
    requires forall i, k :: Owns(now, i, k) <==> Owns(was, i, k) || (i == id && k in SchemaNames(ss))
    ensures n in c1 <==> Shared(now, n)
  {
    assert n in c1 <==> n in c0 || (n in SchemaNames(ss) && n in i0 && i0[n] != id);
    SharedStep(was, now, id, SchemaNames(ss), n);
    if n in i0 { assert Owns(was, i0[n], n); }
  }

  /** A name is shared now if it was before, or if the added schema and an earlier one have it. */
  lemma SharedStep(was: Schemas, now: Schemas, id: Id, names: set<FullName>, n: FullName)
    requires id !in was
    requires forall i, k :: Owns(now, i, k) <==> Owns(was, i, k) || (i == id && k in names)
    ensures Shared(now, n) <==> Shared(was, n) || (n in names && exists i :: Owns(was, i, n))
  {
    if Shared(was, n) {
      var i, j :| i != j && Owns(was, i, n) && Owns(was, j, n);
      assert Owns(now, i, n) && Owns(now, j, n);
    }
    if n in names {
      if i :| Owns(was, i, n) { assert Owns(now, i, n) && Owns(now, id, n); }
    }
    if Shared(now, n) {
      var i, j :| i != j && Owns(now, i, n) && Owns(now, j, n);
      if i != id && j != id { assert Owns(was, i, n) && Owns(was, j, n); }
    }
  }

  lemma ProgressDone(index: Index, clashes: set<FullName>, schemas: Schemas)
    requires Progress(index, clashes, schemas)
    ensures clashes == {} <==> NamesApart(schemas)
    ensures clashes == {} ==> Indexes(index, schemas)
  {
    if clashes == {} {
      forall i, j, n | Owns(schemas, i, n) && Owns(schemas, j, n) ensures i == j {
        if i != j { assert Shared(schemas, n); }
      }
      forall n, i ensures Points(index, n, i) <==> Owns(schemas, i, n) { }
      assert NamesApart(schemas) by {
        forall i, j, n | i in schemas && j in schemas && n in SchemaNames(schemas[i]) && n in SchemaNames(schemas[j])
          ensures i == j
        {
          assert Owns(schemas, i, n) && Owns(schemas, j, n);
        }
      }
    } else {
      var n :| n in clashes;
      assert Shared(schemas, n);
    }
  }
}
