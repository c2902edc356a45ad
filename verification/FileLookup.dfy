/**
 Looking a full name up in one NamespacedFiles registry: the search by longest registered
 prefix against "some registered file declares it, at any depth".
 */
module FileLookup {
  import opened Descriptors
  import opened FileIndex
  import opened FileHistory

  // ---------------------------------------------------------------------------
  // The search
  // ---------------------------------------------------------------------------

  function EnumByName(es: seq<Enum>, x: Name): Option<Enum> {
    if es == [] then None else if es[0].name == x then Some(es[0]) else EnumByName(es[1..], x)
  }

  function ValueByName(vs: seq<EnumValue>, x: Name): Option<EnumValue> {
    if vs == [] then None else if vs[0].name == x then Some(vs[0]) else ValueByName(vs[1..], x)
  }

  /** The values of the enums, the last enum first. */
  function ValueInEnums(es: seq<Enum>, x: Name): Option<EnumValue> {
    if es == [] then None else
      var last := ValueByName(es[|es| - 1].values, x);
      if last.Some? then last else ValueInEnums(es[..|es| - 1], x)
  }

  function ExtensionByName(xs: seq<Extension>, x: Name): Option<Extension> {
    if xs == [] then None else if xs[0].name == x then Some(xs[0]) else ExtensionByName(xs[1..], x)
  }

  function FieldByName(fs: seq<Field>, x: Name): Option<Field> {
    if fs == [] then None else if fs[0].name == x then Some(fs[0]) else FieldByName(fs[1..], x)
  }

  function MessageByName(ms: seq<Message>, x: Name): (r: Option<Message>)
    ensures r.Some? ==> r.value in ms && r.value.name == x
  {
    if ms == [] then None else if ms[0].name == x then Some(ms[0]) else MessageByName(ms[1..], x)
  }

  function RpcByName(rs: seq<Rpc>, x: Name): (r: Option<Rpc>)
    ensures r.Some? ==> r.value in rs && r.value.name == x
  {
    if rs == [] then None else if rs[0].name == x then Some(rs[0]) else RpcByName(rs[1..], x)
  }

  lemma EnumByNameExact(es: seq<Enum>, x: Name)
    ensures var r := EnumByName(es, x); r.Some? ==> r.value in es && r.value.name == x
    ensures EnumByName(es, x).None? <==> forall e :: e in es ==> e.name != x
  {
  }

  lemma ValueByNameExact(vs: seq<EnumValue>, x: Name)
    ensures var r := ValueByName(vs, x); r.Some? ==> r.value in vs && r.value.name == x
    ensures ValueByName(vs, x).None? <==> forall v :: v in vs ==> v.name != x
  {
  }

  lemma ValueInEnumsExact(es: seq<Enum>, x: Name)
    ensures var r := ValueInEnums(es, x); r.Some? ==> r.value.name == x && exists e :: e in es && r.value in e.values
    ensures ValueInEnums(es, x).None? <==> forall e, v :: e in es && v in e.values ==> v.name != x
  {
    if es != [] {
      ValueByNameExact(es[|es| - 1].values, x);
      ValueInEnumsExact(es[..|es| - 1], x);
      assert es == es[..|es| - 1] + [es[|es| - 1]];
    }
  }

  lemma ExtensionByNameExact(xs: seq<Extension>, x: Name)
    ensures var r := ExtensionByName(xs, x); r.Some? ==> r.value in xs && r.value.name == x
    ensures ExtensionByName(xs, x).None? <==> forall e :: e in xs ==> e.name != x
  {
  }

  lemma FieldByNameExact(fs: seq<Field>, x: Name)
    ensures var r := FieldByName(fs, x); r.Some? ==> r.value in fs && r.value.name == x
    ensures FieldByName(fs, x).None? <==> forall f :: f in fs ==> f.name != x
  {
  }

  lemma MessageByNameComplete(ms: seq<Message>, x: Name)
    ensures MessageByName(ms, x).None? <==> forall m :: m in ms ==> m.name != x
  {
  }

  lemma RpcByNameComplete(rs: seq<Rpc>, x: Name)
    ensures RpcByName(rs, x).None? <==> forall r :: r in rs ==> r.name != x
  {
  }

  /** What the body of `m` itself declares under the name `x`, in the order the source looks. */
  function InBody(full: FullName, m: Message, x: Name): Option<Descriptor> {
    var e, v := EnumByName(m.enums, x), ValueInEnums(m.enums, x);
    var xd, f := ExtensionByName(m.extensions, x), FieldByName(m.fields, x);
    if e.Some? then Some(EnumD(full + [x], e.value)) else
    if v.Some? then Some(ValueD(full + [x], v.value)) else
    if xd.Some? then Some(ExtensionD(full + [x], xd.value)) else
    if f.Some? then Some(FieldD(full + [x], f.value)) else
    if x in m.oneofs then Some(OneofD(full + [x])) else None
  }

  function InMessage(full: FullName, m: Message, suffix: seq<Name>): Option<Descriptor>
    decreases m
  {
    if suffix == [] then None else
      var x, rest := suffix[0], suffix[1..];
      var here := if rest == [] then InBody(full, m, x) else None;
      if here.Some? then here else
        var n := MessageByName(m.messages, x);
        if n.None? then None else
        if rest == [] then Some(MessageD(full + [x], n.value)) else InMessage(full + [x], n.value, rest)
  }

  function IfNamed(d: Option<Descriptor>, name: FullName): Option<Descriptor> {
    if d.Some? && d.value.full == name then d else None
  }

  /** The answer when the prefix of length `i` is registered. */
  function AtPrefix(entry: Entry, name: FullName, i: nat): Option<Descriptor>
    requires i <= |name|
  {
    if entry.Package? then None else
      var d := entry.desc;
      if d.full == name then Some(d) else
        match d
        case MessageD(full, m) => IfNamed(InMessage(full, m, name[i..]), name)
        case ServiceD(full, s) =>
          var r := if i < |name| then RpcByName(s.methods, name[i]) else None;
          if r.None? then None else IfNamed(Some(MethodD(full + [r.value.name], r.value)), name)
        case _ => None
  }

  function FindFrom(descs: map<FullName, Entry>, name: FullName, i: nat): Option<Descriptor>
    requires i <= |name|
  {
    if i == 0 then None else
    if name[..i] in descs then AtPrefix(descs[name[..i]], name, i) else FindFrom(descs, name, i - 1)
  }

  /** The local part of FindDescriptorByName. */
  function FindLocal(descs: map<FullName, Entry>, name: FullName): Option<Descriptor> {
    FindFrom(descs, name, |name|)
  }

  // ---------------------------------------------------------------------------
  // What the search inside a message finds
  // ---------------------------------------------------------------------------

  lemma InBodySound(full: FullName, m: Message, x: Name)
    requires InBody(full, m, x).Some?
    ensures var d := InBody(full, m, x).value; d in BodyDecls(full, m) && d.full == full + [x]
  {
    var d, e, v := InBody(full, m, x).value, EnumByName(m.enums, x), ValueInEnums(m.enums, x);
    EnumByNameExact(m.enums, x);
    ValueInEnumsExact(m.enums, x);
    ExtensionByNameExact(m.extensions, x);
    FieldByNameExact(m.fields, x);
    if e.Some? {
      assert d in EnumDecls(full, e.value);
    } else if v.Some? {
      var e :| e in m.enums && v.value in e.values;
      assert d in EnumDecls(full, e);
    }
  }

  lemma InBodyComplete(full: FullName, m: Message, x: Name, d: Descriptor)
    requires d in EnumsDecls(full, m.enums) + ExtensionDecls(full, m.extensions) + FieldDecls(full, m)
    requires d.full == full + [x]
    ensures InBody(full, m, x).Some?
  {
    assert d.full[|full|] == x;
    EnumByNameExact(m.enums, x);
    ValueInEnumsExact(m.enums, x);
    ExtensionByNameExact(m.extensions, x);
    FieldByNameExact(m.fields, x);
    if d in EnumsDecls(full, m.enums) {
      var e :| e in m.enums && d in EnumDecls(full, e);
      if d != EnumD(full + [e.name], e) {
        var v :| v in e.values && d == ValueD(full + [v.name], v);
      }
    } else if d in ExtensionDecls(full, m.extensions) {
      var xd :| xd in m.extensions && d == ExtensionD(full + [xd.name], xd);
    } else if d.FieldD? {
      var f :| f in m.fields && d == FieldD(full + [f.name], f);
    } else {
      var o :| o in m.oneofs && d == OneofD(full + [o]);
    }
  }

  lemma NestedInBody(full: FullName, m: Message, n: Message)
    requires n in m.messages
    ensures MessageD(full + [n.name], n) in BodyDecls(full, m)
    ensures BodyDecls(full + [n.name], n) <= BodyDecls(full, m)
  {
    MessagesDeclsHead(full, m.messages, n);
  }

  lemma InMessageHere(full: FullName, m: Message, x: Name)
    requires InMessage(full, m, [x]).Some?
    ensures var d := InMessage(full, m, [x]).value; d in BodyDecls(full, m) && d.full == full + [x]
  {
    if InBody(full, m, x).Some? {
      InBodySound(full, m, x);
    } else {
      NestedInBody(full, m, MessageByName(m.messages, x).value);
    }
  }

  /** A suffix of two or more components is looked up in the nested message its head names. */
  lemma InMessageBelow(full: FullName, m: Message, suffix: seq<Name>)
    requires |suffix| > 1
    ensures var n := MessageByName(m.messages, suffix[0]);
            InMessage(full, m, suffix) == if n.None? then None else InMessage(full + [suffix[0]], n.value, suffix[1..])
  {
  }

  /** Whatever the search in a message returns is declared in its body. */
  lemma {:induction false} InMessageSound(full: FullName, m: Message, suffix: seq<Name>, d: Descriptor)
    requires InMessage(full, m, suffix) == Some(d)
    ensures d in BodyDecls(full, m)
    decreases m
  {
    if |suffix| == 1 {
      InMessageHere(full, m, suffix[0]);
      assert suffix == [suffix[0]];
    } else {
      InMessageBelow(full, m, suffix);
      var n := MessageByName(m.messages, suffix[0]).value;
      NestedInBody(full, m, n);
      InMessageSound(full + [suffix[0]], n, suffix[1..], d);
    }
  }

  lemma InBodyNamed(full: FullName, m: Message, x: Name)
    ensures InBody(full, m, x).Some? ==> InBody(full, m, x).value.full == full + [x]
  {
  }

  /** ... under the searched name. */
  lemma {:induction false} InMessageNamed(full: FullName, m: Message, suffix: seq<Name>, d: Descriptor)
    requires InMessage(full, m, suffix) == Some(d)
    ensures d.full == full + suffix
    decreases m
  {
    if |suffix| == 1 {
      InBodyNamed(full, m, suffix[0]);
      assert suffix == [suffix[0]];
    } else {
      InMessageBelow(full, m, suffix);
      InMessageNamed(full + [suffix[0]], MessageByName(m.messages, suffix[0]).value, suffix[1..], d);
      assert full + [suffix[0]] + suffix[1..] == full + suffix;
    }
  }

  ghost predicate UniqueIn(ds: set<Descriptor>) {
    forall d, e :: d in ds && e in ds && d.full == e.full ==> d == e
  }

  /** The nested message on the way to a declaration is the one the search picks. */
  lemma NestedOnTheWay(full: FullName, m: Message, d: Descriptor) returns (n: Message)
    requires d in MessagesDecls(full, m.messages) && UniqueIn(BodyDecls(full, m))
    ensures full < d.full && MessageByName(m.messages, d.full[|full|]) == Some(n) && n in m.messages
    ensures d == MessageD(full + [n.name], n) || d in BodyDecls(full + [n.name], n)
  {
    n := MessagesDeclsCases(full, m.messages, d);
    if d != MessageD(full + [n.name], n) {
      BodyDeclsExtend(full + [n.name], n, d);
    }
    assert d.full[|full|] == n.name;
    MessageByNameComplete(m.messages, n.name);
    var found := MessageByName(m.messages, n.name).value;
    NestedInBody(full, m, n);
    NestedInBody(full, m, found);
    assert MessageD(full + [n.name], found) == MessageD(full + [n.name], n);
  }

  lemma UniqueNested(full: FullName, m: Message, n: Message)
    requires n in m.messages && UniqueIn(BodyDecls(full, m))
    ensures UniqueIn(BodyDecls(full + [n.name], n))
  {
    NestedInBody(full, m, n);
  }

  lemma InMessageFindsDirect(full: FullName, m: Message, d: Descriptor)
    requires d in BodyDecls(full, m) && d !in MessagesDecls(full, m.messages)
    ensures |d.full| == |full| + 1 && full <= d.full && InMessage(full, m, [d.full[|full|]]).Some?
  {
    assert d.full == full + [d.full[|full|]];
    InBodyComplete(full, m, d.full[|full|], d);
  }

  /** With unique names every declaration in the body is found. */
  lemma {:induction false} InMessageComplete(full: FullName, m: Message, d: Descriptor)
    requires d in BodyDecls(full, m) && UniqueIn(BodyDecls(full, m))
    ensures full < d.full && InMessage(full, m, d.full[|full|..]).Some?
    decreases m
  {
    if d in MessagesDecls(full, m.messages) {
      InMessageFindsNested(full, m, d);
    } else {
      InMessageFindsDirect(full, m, d);
      assert d.full[|full|..] == [d.full[|full|]];
    }
  }

  lemma {:induction false} InMessageFindsNested(full: FullName, m: Message, d: Descriptor)
    requires d in MessagesDecls(full, m.messages) && UniqueIn(BodyDecls(full, m))
    ensures full < d.full && InMessage(full, m, d.full[|full|..]).Some?
    decreases m, 0
  {
    var n := NestedOnTheWay(full, m, d);
    var suffix := d.full[|full|..];
    if d in BodyDecls(full + [n.name], n) {
      UniqueNested(full, m, n);
      InMessageComplete(full + [n.name], n, d);
      assert d.full[|full + [n.name]|..] == suffix[1..];
      InMessageBelow(full, m, suffix);
    } else {
      assert suffix == [n.name];
    }
  }

  lemma {:induction false} UniqueInBody(f: File, t: Descriptor)
    requires UniqueNames(f) && t in TopLevel(f) && t.MessageD?
    ensures UniqueIn(BodyDecls(t.full, t.message))
  {
    MessagesDownMembers(f.pkg, f.messages, t);
    EnumsDownMembers(f.pkg, f.enums, t);
    ExtensionsDownMembers(f.pkg, f.extensions, t);
    ServicesDownMembers(f.pkg, f.services, t);
    var m :| m in f.messages && t == MessageD(f.pkg + [m.name], m);
    MessagesDeclsHead(f.pkg, f.messages, m);
  }

  // ---------------------------------------------------------------------------
  // The main results
  // ---------------------------------------------------------------------------

  /** Some file of the map declares `d`, at whatever depth. */
  ghost predicate DeclaredIn(m: Plain, d: Descriptor) {
    exists p :: p in m && d in Decls(m[p])
  }

  lemma BodyDeclared(f: File, t: Descriptor, d: Descriptor)
    requires t in TopLevel(f)
    requires (t.MessageD? && d in BodyDecls(t.full, t.message)) ||
             (t.ServiceD? && exists r :: r in t.service.methods && d == MethodD(t.full + [r.name], r))
    ensures d in Decls(f)
  {
    MessagesDownMembers(f.pkg, f.messages, t);
    EnumsDownMembers(f.pkg, f.enums, t);
    ExtensionsDownMembers(f.pkg, f.extensions, t);
    ServicesDownMembers(f.pkg, f.services, t);
    if t.MessageD? {
      var m :| m in f.messages && t == MessageD(f.pkg + [m.name], m);
      MessagesDeclsHead(f.pkg, f.messages, m);
    } else {
      var s :| s in f.services && t == ServiceD(f.pkg + [s.name], s);
      var r :| r in s.methods && d == MethodD(t.full + [r.name], r);
      assert f.pkg + [s.name, r.name] == t.full + [r.name];
      assert d in ServiceDecls(f.pkg, s);
    }
  }

  lemma {:induction false} FindFromSound(descs: map<FullName, Entry>, m: Plain, name: FullName, i: nat)
    requires NamesSound(descs, m) && i <= |name|
    ensures var r := FindFrom(descs, name, i); r.Some? ==> r.value.full == name && DeclaredIn(m, r.value)
    decreases i
  {
    if i != 0 {
      if name[..i] !in descs {
        FindFromSound(descs, m, name, i - 1);
      } else if AtPrefix(descs[name[..i]], name, i).Some? {
        var t, d := descs[name[..i]].desc, AtPrefix(descs[name[..i]], name, i).value;
        var p :| Offers(m, p, t);
        TopLevelDeclared(m[p], t);
        if d != t {
          if t.MessageD? {
            InMessageSound(t.full, t.message, name[i..], d);
          }
          BodyDeclared(m[p], t, d);
        }
        assert p in m && d in Decls(m[p]);
      }
    }
  }

  /**
   After every history that leaves no name behind in a panic, clashes or not, whatever
   FindDescriptorByName returns from the local registry has the requested name and is declared by a
   registered file.
   */
  lemma FindSound(ops: seq<Op>, name: FullName)
    requires NothingStranded(Empty, map[], ops)
    ensures var r := FindLocal(Run(Empty, ops).descsByName, name);
            r.Some? ==> r.value.full == name && DeclaredIn(TableRun(Empty, map[], ops), r.value)
    ensures Run(Empty, ops).filesByPath.Keys == TableRun(Empty, map[], ops).Keys
  {
    HistorySound(Empty, map[], ops);
    FindFromSound(Run(Empty, ops).descsByName, TableRun(Empty, map[], ops), name, |name|);
  }

  lemma {:induction false} FindSkips(descs: map<FullName, Entry>, name: FullName, i: nat, j: nat)
    requires i <= j <= |name| && forall k :: i < k <= j ==> name[..k] !in descs
    ensures FindFrom(descs, name, j) == FindFrom(descs, name, i)
    decreases j
  {
    if i < j {
      FindSkips(descs, name, i, j - 1);
    }
  }

  /** Below a top-level descriptor nothing else is registered. */
  lemma NothingBelow(descs: map<FullName, Entry>, m: Plain, t: Descriptor, n: FullName)
    requires IndexMatches(descs, m) && ClashFree(m) && Declares(m, t) && t.full < n
    ensures n !in descs
  {
    var p :| Offers(m, p, t);
    if n in descs {
      if descs[n].Package? {
        var q := PackageLeadsToFile(descs, m, n, descs.Keys);
      } else {
        assert Named(descs, descs[n].desc);
        var q :| Offers(m, q, descs[n].desc);
        TopLevelDeclared(m[q], descs[n].desc);
      }
    }
  }

  lemma FoundInMessage(f: File, t: Descriptor, d: Descriptor)
    requires UniqueNames(f) && t in TopLevel(f) && t.MessageD? && d in BodyDecls(t.full, t.message)
    ensures t.full < d.full && AtPrefix(Declared(t), d.full, |t.full|) == Some(d)
  {
    UniqueInBody(f, t);
    InMessageFinds(t.full, t.message, d);
  }

  /** With unique names, the search for the name of a declaration in the body finds that declaration. */
  lemma InMessageFinds(full: FullName, m: Message, d: Descriptor)
    requires d in BodyDecls(full, m) && UniqueIn(BodyDecls(full, m))
    ensures full < d.full && InMessage(full, m, d.full[|full|..]) == Some(d)
  {
    InMessageComplete(full, m, d);
    var e := InMessageAnswers(full, m, d.full[|full|..]);
    assert full + d.full[|full|..] == d.full;
  }

  lemma InMessageAnswers(full: FullName, m: Message, suffix: seq<Name>) returns (e: Descriptor)
    requires InMessage(full, m, suffix).Some?
    ensures InMessage(full, m, suffix) == Some(e) && e in BodyDecls(full, m) && e.full == full + suffix
  {
    e := InMessage(full, m, suffix).value;
    InMessageSound(full, m, suffix, e);
    InMessageNamed(full, m, suffix, e);
  }

  lemma FoundInService(f: File, t: Descriptor, r: Rpc)
    requires UniqueNames(f) && t in TopLevel(f) && t.ServiceD? && r in t.service.methods
    ensures var d := MethodD(t.full + [r.name], r); AtPrefix(Declared(t), d.full, |t.full|) == Some(d)
  {
    RpcByNameComplete(t.service.methods, r.name);
    var found := RpcByName(t.service.methods, r.name).value;
    BodyDeclared(f, t, MethodD(t.full + [found.name], found));
    BodyDeclared(f, t, MethodD(t.full + [r.name], r));
    assert (t.full + [r.name])[|t.full|] == r.name;
  }

  /** At its top-level owner the search finds the declaration. */
  lemma FoundAtOwner(f: File, t: Descriptor, d: Descriptor)
    requires UniqueNames(f) && t in TopLevel(f) && t.full <= d.full
    requires d == t || (t.MessageD? && d in BodyDecls(t.full, t.message)) ||
             (t.ServiceD? && exists r :: r in t.service.methods && d == MethodD(t.full + [r.name], r))
    ensures AtPrefix(Declared(t), d.full, |t.full|) == Some(d)
  {
    if d != t {
      if t.MessageD? {
        FoundInMessage(f, t, d);
      } else {
        var r :| r in t.service.methods && d == MethodD(t.full + [r.name], r);
        FoundInService(f, t, r);
      }
    }
  }

  ghost predicate AllUnique(m: Plain) {
    forall p :: p in m ==> UniqueNames(m[p])
  }

  lemma NamesMatchSound(descs: map<FullName, Entry>, m: Plain)
    requires NamesMatch(descs, m)
    ensures NamesSound(descs, m)
  {
    forall n | n in descs && descs[n].Declared? ensures descs[n].desc.full == n && Declares(m, descs[n].desc) {
      assert Named(descs, descs[n].desc);
    }
  }

  /** The search for a name under a top-level descriptor stops at that descriptor. */
  lemma SearchReaches(descs: map<FullName, Entry>, m: Plain, t: Descriptor, name: FullName)
    requires IndexMatches(descs, m) && ClashFree(m) && Declares(m, t) && t.full <= name && t.full != []
    ensures FindLocal(descs, name) == AtPrefix(Declared(t), name, |t.full|)
  {
    assert Named(descs, t);
    forall k | |t.full| < k <= |name| ensures name[..k] !in descs { NothingBelow(descs, m, t, name[..k]); }
    FindSkips(descs, name, |t.full|, |name|);
    assert name[..|t.full|] == t.full;
  }

  lemma FindComplete(descs: map<FullName, Entry>, m: Plain, p: string, d: Descriptor)
    requires IndexMatches(descs, m) && ClashFree(m) && AllUnique(m)
    requires p in m && d in Decls(m[p])
    ensures FindLocal(descs, d.full) == Some(d)
  {
    var t := TopLevelOwner(m[p], d);
    assert Offers(m, p, t);
    NamesLongerThanPackage(m[p], t);
    SearchReaches(descs, m, t, d.full);
    FoundAtOwner(m[p], t, d);
  }

  /**
   On clash-free files the local lookup of a name returns `d` exactly when some registered file
   declares `d` under that name, at any depth.
   */
  lemma FindExact(s: Files, m: Plain, name: FullName, d: Descriptor)
    requires Represents(s, m) && ClashFree(m) && AllUnique(m)
    ensures FindLocal(s.descsByName, name) == Some(d) <==> DeclaredIn(m, d) && d.full == name
  {
    if FindLocal(s.descsByName, name) == Some(d) {
      NamesMatchSound(s.descsByName, m);
      FindFromSound(s.descsByName, m, name, |name|);
    }
    if DeclaredIn(m, d) && d.full == name {
      var p :| p in m && d in Decls(m[p]);
      FindComplete(s.descsByName, m, p, d);
    }
  }

  // ---------------------------------------------------------------------------
  // What a reader of the registry can see
  // ---------------------------------------------------------------------------

  function FilesInPackage(s: Files, n: FullName): seq<File> {
    if n in s.descsByName && s.descsByName[n].Package? then s.descsByName[n].files else []
  }

  /** Equal answers to every read: names, paths, counts and packages (whose order is not promised). */
  ghost predicate SameView(a: Files, b: Files) {
    && a.filesByPath == b.filesByPath
    && a.numFiles == b.numFiles
    && (forall n :: FindLocal(a.descsByName, n) == FindLocal(b.descsByName, n))
    && (forall n :: SamePackageView(a, b, n))
  }

  ghost predicate SamePackageView(a: Files, b: Files, n: FullName) {
    && |FilesInPackage(a, n)| == |FilesInPackage(b, n)|
    && (forall f :: f in FilesInPackage(a, n) <==> f in FilesInPackage(b, n))
  }

  lemma PackageFiles(s: Files, m: Plain, n: FullName)
    requires Represents(s, m)
    ensures Holds(FilesInPackage(s, n), m, n)
  {
    if !IsPackage(s.descsByName, n) {
      forall p | p in m ensures m[p].pkg != n { assert IsPackage(s.descsByName, m[p].pkg); }
    }
  }

  function AsSet(files: seq<File>): set<File> {
    set f | f in files
  }

  lemma {:induction false} NoDuplicatesCard(files: seq<File>)
    requires NoDuplicates(files)
    ensures |AsSet(files)| == |files|
  {
    if files != [] {
      NoDuplicatesCard(files[1..]);
      assert files == [files[0]] + files[1..];
      assert AsSet(files) == {files[0]} + AsSet(files[1..]);
      assert files[0] !in files[1..] by {
        forall i | 0 <= i < |files[1..]| ensures files[1..][i] != files[0] { assert files[1..][i] == files[i + 1]; }
      }
    }
  }

  lemma SameHolders(xs: seq<File>, ys: seq<File>, m: Plain, n: FullName)
    requires Holds(xs, m, n) && Holds(ys, m, n)
    ensures |xs| == |ys| && forall f :: f in xs <==> f in ys
  {
    NoDuplicatesCard(xs);
    NoDuplicatesCard(ys);
    assert AsSet(xs) == AsSet(ys);
  }

  lemma SamePackage(a: Files, b: Files, m: Plain, n: FullName)
    requires Represents(a, m) && Represents(b, m)
    ensures |FilesInPackage(a, n)| == |FilesInPackage(b, n)|
    ensures forall f :: f in FilesInPackage(a, n) <==> f in FilesInPackage(b, n)
  {
    PackageFiles(a, m, n);
    PackageFiles(b, m, n);
    SameHolders(FilesInPackage(a, n), FilesInPackage(b, n), m, n);
  }

  lemma SameTables(a: Files, b: Files, m: Plain)
    requires TablesMatch(a.filesByPath, a.fileDescs, a.numFiles, m)
    requires TablesMatch(b.filesByPath, b.fileDescs, b.numFiles, m)
    ensures a.filesByPath == b.filesByPath && a.numFiles == b.numFiles
  {
  }

  /** Two states of one clash-free map answer every read alike, whatever history produced them. */
  lemma SameMapSameView(a: Files, b: Files, m: Plain)
    requires Represents(a, m) && Represents(b, m) && ClashFree(m) && AllUnique(m)
    ensures SameView(a, b)
  {
    SameTables(a, b, m);
    forall n ensures FindLocal(a.descsByName, n) == FindLocal(b.descsByName, n) { SameFind(a, b, m, n); }
    forall n ensures SamePackageView(a, b, n) { SamePackage(a, b, m, n); }
  }

  lemma SameFind(a: Files, b: Files, m: Plain, n: FullName)
    requires Represents(a, m) && Represents(b, m) && ClashFree(m) && AllUnique(m)
    ensures FindLocal(a.descsByName, n) == FindLocal(b.descsByName, n)
  {
    var ra, rb := FindLocal(a.descsByName, n), FindLocal(b.descsByName, n);
    if ra.Some? {
      FindExact(a, m, n, ra.value);
      FindExact(b, m, n, ra.value);
    }
    if rb.Some? {
      FindExact(a, m, n, rb.value);
      FindExact(b, m, n, rb.value);
    }
  }
}
