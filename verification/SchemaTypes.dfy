/**
 The runtime types of a file in the order the client walks them, and the effect of registering or
 withdrawing many of them at once.
 */
module SchemaTypes {
  import opened Descriptors
  import T = TypeIndex

  type TypeDesc = d: Descriptor | T.IsType(d) witness OneEnum

  const OneEnum := EnumD([], Enum("", []))

  // ---------------------------------------------------------------------------
  // The walk over a file
  // ---------------------------------------------------------------------------

  function EnumTypes(scope: FullName, es: seq<Enum>): seq<TypeDesc> {
    if es == [] then [] else [EnumD(scope + [es[0].name], es[0])] + EnumTypes(scope, es[1..])
  }

  function ExtensionTypes(scope: FullName, xs: seq<Extension>): seq<TypeDesc> {
    if xs == [] then [] else [ExtensionD(scope + [xs[0].name], xs[0])] + ExtensionTypes(scope, xs[1..])
  }

  function MessageTypes(full: FullName, m: Message): seq<TypeDesc>
    decreases m, 1
  {
    [MessageD(full, m)] + MessagesTypes(full, m.messages) + EnumTypes(full, m.enums) +
      ExtensionTypes(full, m.extensions)
  }

  function MessagesTypes(scope: FullName, ms: seq<Message>): seq<TypeDesc>
    decreases ms, 0
  {
    if ms == [] then [] else MessageTypes(scope + [ms[0].name], ms[0]) + MessagesTypes(scope, ms[1..])
  }

  function FileTypes(f: File): seq<TypeDesc> {
    MessagesTypes(f.pkg, f.messages) + EnumTypes(f.pkg, f.enums) + ExtensionTypes(f.pkg, f.extensions)
  }

  lemma EnumTypesMembers(scope: FullName, es: seq<Enum>, d: Descriptor)
    ensures d in EnumTypes(scope, es) <==> d in EnumsDecls(scope, es) && T.IsType(d)
  {
    if es != [] {
      EnumTypesMembers(scope, es[1..], d);
      assert es == [es[0]] + es[1..];
      assert d in EnumsDecls(scope, es) <==> d in EnumDecls(scope, es[0]) || d in EnumsDecls(scope, es[1..]);
    }
  }

  lemma ExtensionTypesMembers(scope: FullName, xs: seq<Extension>, d: Descriptor)
    ensures d in ExtensionTypes(scope, xs) <==> d in ExtensionDecls(scope, xs)
  {
    if xs != [] {
      ExtensionTypesMembers(scope, xs[1..], d);
      assert xs == [xs[0]] + xs[1..];
    }
  }

  lemma {:induction false} MessageTypesMembers(full: FullName, m: Message, d: Descriptor)
    ensures d in MessageTypes(full, m) <==> d == MessageD(full, m) || (d in BodyDecls(full, m) && T.IsType(d))
    decreases m, 1
  {
    MessagesTypesMembers(full, m.messages, d);
    EnumTypesMembers(full, m.enums, d);
    ExtensionTypesMembers(full, m.extensions, d);
  }

  lemma {:induction false} MessagesTypesMembers(scope: FullName, ms: seq<Message>, d: Descriptor)
    ensures d in MessagesTypes(scope, ms) <==> d in MessagesDecls(scope, ms) && T.IsType(d)
    decreases ms, 0
  {
    if ms != [] {
      MessageTypesMembers(scope + [ms[0].name], ms[0], d);
      MessagesTypesMembers(scope, ms[1..], d);
    }
  }

  /** The walk meets exactly the messages, enums and extensions the file declares, at any depth. */
  lemma FileTypesMembers(f: File, d: Descriptor)
    ensures d in FileTypes(f) <==> d in Decls(f) && T.IsType(d)
  {
    MessagesTypesMembers(f.pkg, f.messages, d);
    EnumTypesMembers(f.pkg, f.enums, d);
    ExtensionTypesMembers(f.pkg, f.extensions, d);
  }

  // ---------------------------------------------------------------------------
  // Type tables as sets
  // ---------------------------------------------------------------------------

  ghost predicate SameSlot(d: Descriptor, e: Descriptor) {
    d.ExtensionD? && e.ExtensionD? && d.extension.extendee == e.extension.extendee &&
      d.extension.number == e.extension.number
  }

  /** One descriptor per name and one extension per number. */
  ghost predicate Coherent(ds: set<TypeDesc>) {
    forall d, e :: d in ds && e in ds && (d.full == e.full || SameSlot(d, e)) ==> d == e
  }

  ghost predicate Knows(s: T.Types, d: Descriptor) {
    d.full in s.typesByName && s.typesByName[d.full] == d
  }

  /** The registry holds exactly the types `ds`. */
  ghost predicate TypesAre(s: T.Types, ds: set<TypeDesc>) {
    T.Consistent(s) && forall d: Descriptor :: Knows(s, d) <==> d in ds
  }

  lemma TypesDetermined(a: T.Types, b: T.Types, ds: set<TypeDesc>)
    requires TypesAre(a, ds) && TypesAre(b, ds)
    ensures a == b
  {
    forall n | n in a.typesByName ensures n in b.typesByName && a.typesByName[n] == b.typesByName[n] {
      assert Knows(a, a.typesByName[n]);
      assert Knows(b, a.typesByName[n]);
    }
    forall n | n in b.typesByName ensures n in a.typesByName {
      assert Knows(b, b.typesByName[n]);
      assert Knows(a, b.typesByName[n]);
    }
    assert a.typesByName == b.typesByName;
    T.ConsistentDetermined(a, b);
  }

  /** In a coherent table nothing stands in the way of an update. */
  lemma CoherentUpsertable(s: T.Types, ds: set<TypeDesc>, d: TypeDesc)
    requires TypesAre(s, ds) && Coherent(ds + {d})
    ensures T.Upsertable(s, d)
    ensures d.full in s.typesByName ==> d in ds
  {
    if d.full in s.typesByName {
      assert Knows(s, s.typesByName[d.full]);
    }
    if d.ExtensionD? && T.SlotTaken(s.extensionsByMessage, d.extension) {
      var x := d.extension;
      var e := s.extensionsByMessage[x.extendee][x.number];
      assert T.SlotSound(s.typesByName, s.extensionsByMessage, x.extendee, x.number);
      assert Knows(s, e) && SameSlot(d, e);
    }
  }

  lemma AddType(s: T.Types, ds: set<TypeDesc>, d: TypeDesc)
    requires TypesAre(s, ds) && Coherent(ds + {d})
    ensures TypesAre(T.Update(s, d), ds + {d})
  {
    CoherentUpsertable(s, ds, d);
    T.UpdateExact(s, d);
    var s' := T.Update(s, d);
    forall e: Descriptor ensures Knows(s', e) <==> e in ds + {d} {
      assert Knows(s, e) <==> e in ds;
    }
  }

  function KindOf(d: TypeDesc): T.Kinds {
    if d.MessageD? then T.Messages else if d.EnumD? then T.Enums else T.Extensions
  }

  lemma DropType(s: T.Types, ds: set<TypeDesc>, d: TypeDesc)
    requires TypesAre(s, ds) && d in ds
    ensures T.Unregister(s, d.full, KindOf(d)).1 == T.Done
    ensures TypesAre(T.Unregister(s, d.full, KindOf(d)).0, ds - {d})
  {
    assert Knows(s, d);
    T.UnregisterConsistent(s, d.full, KindOf(d));
    var s' := T.Unregister(s, d.full, KindOf(d)).0;
    forall e: Descriptor ensures Knows(s', e) <==> e in ds - {d} {
      assert Knows(s, e) <==> e in ds;
    }
  }

  // ---------------------------------------------------------------------------
  // Many at once
  // ---------------------------------------------------------------------------

  function Listed(ds: seq<TypeDesc>): set<TypeDesc> {
    set d | d in ds
  }

  /** registerFileTypesUpdate: every type is upserted. */
  function UpdateAll(s: T.Types, ds: seq<TypeDesc>): T.Types
    decreases ds
  {
    if ds == [] then s else UpdateAll(T.Update(s, ds[0]), ds[1..])
  }

  lemma {:induction false} UpdateAllAdds(s: T.Types, known: set<TypeDesc>, ds: seq<TypeDesc>)
    requires TypesAre(s, known) && Coherent(known + Listed(ds))
    ensures TypesAre(UpdateAll(s, ds), known + Listed(ds))
    decreases ds
  {
    if ds == [] {
      assert known + Listed(ds) == known;
    } else {
      AddType(s, known, ds[0]);
      assert ds == [ds[0]] + ds[1..];
      assert known + {ds[0]} + Listed(ds[1..]) == known + Listed(ds);
      UpdateAllAdds(T.Update(s, ds[0]), known + {ds[0]}, ds[1..]);
    }
  }

  /** registerFileTypes: stops at the first name or number that is taken. */
  function RegisterAll(s: T.Types, ds: seq<TypeDesc>): (T.Types, bool)
    decreases ds
  {
    if ds == [] then (s, true) else
      var (s', o) := T.Register(s, ds[0]);
      if o != T.Done then (s', false) else RegisterAll(s', ds[1..])
  }

  ghost predicate NamesOnce(ds: seq<TypeDesc>) {
    forall i, j :: 0 <= i < j < |ds| ==> ds[i].full != ds[j].full
  }

  ghost predicate NamesNew(known: set<TypeDesc>, ds: seq<TypeDesc>) {
    forall d, e :: d in known && e in ds ==> d.full != e.full
  }

  /** Registering succeeds exactly for new names, each once, and free numbers. */
  lemma {:induction false} RegisterAllExact(s: T.Types, known: set<TypeDesc>, ds: seq<TypeDesc>)
    requires TypesAre(s, known) && Coherent(known)
    ensures RegisterAll(s, ds).1 <==> NamesOnce(ds) && NamesNew(known, ds) && Coherent(known + Listed(ds))
    ensures RegisterAll(s, ds).1 ==> TypesAre(RegisterAll(s, ds).0, known + Listed(ds))
    decreases ds
  {
    if ds == [] {
      assert known + Listed(ds) == known;
    } else {
      var d, rest := ds[0], ds[1..];
      RegisterOneExact(s, known, d);
      assert ds == [d] + rest;
      assert known + {d} + Listed(rest) == known + Listed(ds);
      if T.Register(s, d).1 == T.Done {
        RegisterAllExact(T.Register(s, d).0, known + {d}, rest);
        NamesSplit(known, ds);
      } else {
        assert d in ds;
        assert known + {d} <= known + Listed(ds);
      }
    }
  }

  lemma NamesSplit(known: set<TypeDesc>, ds: seq<TypeDesc>)
    requires ds != [] && forall d :: d in known ==> d.full != ds[0].full
    ensures NamesOnce(ds) && NamesNew(known, ds) <==> NamesOnce(ds[1..]) && NamesNew(known + {ds[0]}, ds[1..])
  {
    var d, rest := ds[0], ds[1..];
    assert ds == [d] + rest;
    if NamesOnce(ds) && NamesNew(known, ds) {
      forall i, j | 0 <= i < j < |rest| ensures rest[i].full != rest[j].full {
        assert ds[i + 1] == rest[i] && ds[j + 1] == rest[j];
      }
      forall a, e | a in known + {d} && e in rest ensures a.full != e.full {
        var i :| 0 <= i < |rest| && rest[i] == e;
        assert ds[i + 1] == e && e in ds;
      }
    }
    if NamesOnce(rest) && NamesNew(known + {d}, rest) {
      forall i, j | 0 <= i < j < |ds| ensures ds[i].full != ds[j].full {
        if i == 0 { assert ds[j] in rest; } else { assert ds[i] == rest[i - 1] && ds[j] == rest[j - 1]; }
      }
      forall a, e | a in known && e in ds ensures a.full != e.full { }
    }
  }

  lemma RegisterOneExact(s: T.Types, known: set<TypeDesc>, d: TypeDesc)
    requires TypesAre(s, known) && Coherent(known)
    ensures T.Register(s, d).1 == T.Done <==> (forall e :: e in known ==> e.full != d.full) && Coherent(known + {d})
    ensures T.Register(s, d).1 == T.Done ==> TypesAre(T.Register(s, d).0, known + {d})
  {
    T.RegisterConsistent(s, d);
    if d.full in s.typesByName {
      assert Knows(s, s.typesByName[d.full]);
    } else {
      forall e | e in known ensures e.full != d.full { assert Knows(s, e); }
      if Coherent(known + {d}) {
        AddType(s, known, d);
        CoherentUpsertable(s, known, d);
      } else {
        var e :| e in known && SameSlot(e, d);
        assert Knows(s, e);
        assert T.Slotted(s.extensionsByMessage, e);
      }
    }
  }

  /** The names of one kind, in order: one of the lists of the fingerprint. */
  function KindNames(ds: seq<TypeDesc>, k: T.Kinds): seq<FullName> {
    if ds == [] then [] else
      (if T.OfKind(ds[0], k) then [ds[0].full] else []) + KindNames(ds[1..], k)
  }

  lemma {:induction false} KindNamesConcat(a: seq<TypeDesc>, b: seq<TypeDesc>, k: T.Kinds)
    ensures KindNames(a + b, k) == KindNames(a, k) + KindNames(b, k)
    decreases a
  {
    if a == [] {
      assert a + b == b;
    } else {
      assert (a + b)[1..] == a[1..] + b;
      KindNamesConcat(a[1..], b, k);
    }
  }

  ghost predicate HasName(ds: set<TypeDesc>, k: T.Kinds, n: FullName) {
    exists d :: d in ds && T.OfKind(d, k) && d.full == n
  }

  ghost predicate Once(names: seq<FullName>) {
    forall i, j :: 0 <= i < j < |names| ==> names[i] != names[j]
  }

  lemma {:induction false} KindNamesMembers(ds: seq<TypeDesc>, k: T.Kinds, n: FullName)
    ensures n in KindNames(ds, k) <==> HasName(Listed(ds), k, n)
    decreases ds
  {
    if ds != [] {
      KindNamesMembers(ds[1..], k, n);
      assert ds == [ds[0]] + ds[1..];
      assert Listed(ds) == {ds[0]} + Listed(ds[1..]);
    }
  }

  lemma {:induction false} KindNamesOnce(ds: seq<TypeDesc>, k: T.Kinds)
    requires NamesOnce(ds)
    ensures Once(KindNames(ds, k))
    decreases ds
  {
    if ds != [] {
      KindNamesOnce(ds[1..], k);
      if T.OfKind(ds[0], k) {
        KindNamesMembers(ds[1..], k, ds[0].full);
        forall d | d in Listed(ds[1..]) ensures d.full != ds[0].full {
          var i :| 0 <= i < |ds[1..]| && ds[1..][i] == d;
          assert ds[i + 1] == d;
        }
      }
    }
  }

  /** One loop of removeFromAggregate: stops at the first name that is not registered with that kind. */
  function UnregisterAll(s: T.Types, names: seq<FullName>, k: T.Kinds): (T.Types, bool)
    decreases names
  {
    if names == [] then (s, true) else
      var (s', o) := T.Unregister(s, names[0], k);
      if o != T.Done then (s', false) else UnregisterAll(s', names[1..], k)
  }

  function Without(ds: set<TypeDesc>, names: seq<FullName>, k: T.Kinds): set<TypeDesc> {
    set d | d in ds && !(T.OfKind(d, k) && d.full in names)
  }

  lemma {:induction false} UnregisterAllDrops(s: T.Types, known: set<TypeDesc>, names: seq<FullName>, k: T.Kinds)
    requires TypesAre(s, known) && Coherent(known) && Once(names)
    requires forall n :: n in names ==> HasName(known, k, n)
    ensures UnregisterAll(s, names, k).1
    ensures TypesAre(UnregisterAll(s, names, k).0, Without(known, names, k))
    decreases names
  {
    if names == [] {
      assert Without(known, names, k) == known;
    } else {
      var d := FirstName(known, names, k);
      DropType(s, known, d);
      UnregisterAllDrops(T.Unregister(s, d.full, k).0, known - {d}, names[1..], k);
    }
  }

  /** The type that the first name stands for; the other names stand for the rest. */
  lemma FirstName(known: set<TypeDesc>, names: seq<FullName>, k: T.Kinds) returns (d: TypeDesc)
    requires Coherent(known) && Once(names) && names != [] && forall n :: n in names ==> HasName(known, k, n)
    ensures d in known && KindOf(d) == k && d.full == names[0]
    ensures Coherent(known - {d}) && Once(names[1..]) && forall n :: n in names[1..] ==> HasName(known - {d}, k, n)
    ensures Without(known - {d}, names[1..], k) == Without(known, names, k)
  {
    assert names[0] in names;
    d :| d in known && T.OfKind(d, k) && d.full == names[0];
    assert names == [names[0]] + names[1..];
    forall n | n in names[1..] ensures HasName(known - {d}, k, n) {
      var i :| 0 <= i < |names[1..]| && names[1..][i] == n;
      assert names[i + 1] == n;
      assert n in names;
      var e :| e in known && T.OfKind(e, k) && e.full == n;
      assert e in known - {d};
    }
  }
}
