/**
 What the compatibility checker makes of files that move to another package.  The checker finds files
 by path and elements by their names inside the file, but it compares references to types by full
 name, and the full names of the types in a file that moves change with its package.
 */
module PackageMove {
  import opened Descriptors
  import opened Compat

  /** The full names of the messages and enums a file declares, at any depth. */
  function OwnTypes(f: File): set<FullName> {
    set d | d in Decls(f) && (d.MessageD? || d.EnumD?) :: d.full
  }

  /** The new full names of the types that move. */
  type Renaming = map<FullName, FullName>

  function Renamed(v: Renaming, n: FullName): FullName {
    if n in v then v[n] else n
  }

  function MoveField(v: Renaming, f: Field): Field {
    if f.kind.ScalarKind? then f else f.(typeName := Renamed(v, f.typeName))
  }

  function MoveFields(v: Renaming, fs: seq<Field>): seq<Field> {
    seq(|fs|, i requires 0 <= i < |fs| => MoveField(v, fs[i]))
  }

  function MoveExtensions(v: Renaming, xs: seq<Extension>): seq<Extension> {
    seq(|xs|, i requires 0 <= i < |xs| => xs[i].(extendee := Renamed(v, xs[i].extendee)))
  }

  function MoveMessage(v: Renaming, m: Message): Message
    decreases m, 1
  {
    m.(fields := MoveFields(v, m.fields), messages := MoveMessages(v, m.messages),
       extensions := MoveExtensions(v, m.extensions))
  }

  function MoveMessages(v: Renaming, ms: seq<Message>): seq<Message>
    decreases ms, 0
  {
    if ms == [] then [] else [MoveMessage(v, ms[0])] + MoveMessages(v, ms[1..])
  }

  function MoveRpc(v: Renaming, r: Rpc): Rpc {
    Rpc(r.name, Renamed(v, r.input), Renamed(v, r.output))
  }

  function MoveService(v: Renaming, s: Service): Service {
    Service(s.name, seq(|s.methods|, i requires 0 <= i < |s.methods| => MoveRpc(v, s.methods[i])))
  }

  function MoveServices(v: Renaming, ss: seq<Service>): seq<Service> {
    seq(|ss|, i requires 0 <= i < |ss| => MoveService(v, ss[i]))
  }

  /** The packages that files move to, by path; a file without an entry stays. */
  type Packages = map<string, FullName>

  function NewPackage(to: Packages, f: File): FullName {
    if f.path in to then to[f.path] else f.pkg
  }

  predicate Leaves(to: Packages, f: File) {
    NewPackage(to, f) != f.pkg
  }

  /** The types of all files that leave their package. */
  function MovedTypes(t: Tree, to: Packages): set<FullName> {
    set f, n | f in t && Leaves(to, f) && n in OwnTypes(f) :: n
  }

  ghost function Owner(t: Tree, to: Packages, n: FullName): (f: File)
    requires n in MovedTypes(t, to)
    ensures f in t && Leaves(to, f) && n in OwnTypes(f)
  {
    var f :| f in t && Leaves(to, f) && n in OwnTypes(f);
    f
  }

  function Rehomed(from: FullName, to: FullName, n: FullName): FullName {
    if from <= n then to + n[|from|..] else n
  }

  ghost function RenamingOf(t: Tree, to: Packages): Renaming {
    map n | n in MovedTypes(t, to) :: Rehomed(Owner(t, to, n).pkg, NewPackage(to, Owner(t, to, n)), n)
  }

  function MoveFile(v: Renaming, pkg: FullName, f: File): File {
    File(f.path, pkg, MoveMessages(v, f.messages), f.enums, MoveExtensions(v, f.extensions),
         MoveServices(v, f.services))
  }

  /** Every file in its new package, with all references to the types that move following them. */
  ghost function MoveTree(t: Tree, to: Packages): Tree {
    seq(|t|, i requires 0 <= i < |t| => MoveFile(RenamingOf(t, to), NewPackage(to, t[i]), t[i]))
  }

  // ---------------------------------------------------------------------------
  // References to the types that move
  // ---------------------------------------------------------------------------

  predicate FieldRefers(types: set<FullName>, f: Field) {
    (f.kind.MessageKind? || f.kind.EnumKind?) && f.typeName in types
  }

  ghost predicate MessageRefers(types: set<FullName>, m: Message) {
    (exists f :: f in m.fields && FieldRefers(types, f)) || exists n :: n in m.messages && MessageRefers(types, n)
  }

  ghost predicate ServiceRefers(types: set<FullName>, s: Service) {
    exists r :: r in s.methods && (r.input in types || r.output in types)
  }

  /** Some message or enum field, or some method, of the file has one of these types. */
  ghost predicate Refers(types: set<FullName>, f: File) {
    (exists m :: m in f.messages && MessageRefers(types, m)) ||
    (exists s :: s in f.services && ServiceRefers(types, s))
  }

  // ---------------------------------------------------------------------------
  // The lists of a moved file
  // ---------------------------------------------------------------------------

  lemma {:induction false} MoveMessagesMembers(v: Renaming, ms: seq<Message>, x: Message)
    ensures x in MoveMessages(v, ms) <==> exists m :: m in ms && x == MoveMessage(v, m)
    decreases ms
  {
    if ms != [] {
      MoveMessagesMembers(v, ms[1..], x);
      assert ms == [ms[0]] + ms[1..];
      if x in MoveMessages(v, ms) {
        if x == MoveMessage(v, ms[0]) {
          assert ms[0] in ms;
        } else {
          var m :| m in ms[1..] && x == MoveMessage(v, m);
          assert m in ms;
        }
      }
      if m :| m in ms && x == MoveMessage(v, m) {
        assert m == ms[0] || m in ms[1..];
      }
    }
  }

  lemma MoveFieldsMembers(v: Renaming, fs: seq<Field>, x: Field)
    ensures x in MoveFields(v, fs) <==> exists f :: f in fs && x == MoveField(v, f)
  {
    if f :| f in fs && x == MoveField(v, f) {
      var i :| 0 <= i < |fs| && fs[i] == f;
      assert MoveFields(v, fs)[i] == x;
    }
    if x in MoveFields(v, fs) {
      var i :| 0 <= i < |fs| && MoveFields(v, fs)[i] == x;
      assert fs[i] in fs;
    }
  }

  lemma MoveMethodsMembers(v: Renaming, s: Service, x: Rpc)
    ensures x in MoveService(v, s).methods <==> exists r :: r in s.methods && x == MoveRpc(v, r)
  {
    if r :| r in s.methods && x == MoveRpc(v, r) {
      var i :| 0 <= i < |s.methods| && s.methods[i] == r;
      assert MoveService(v, s).methods[i] == x;
    }
    if x in MoveService(v, s).methods {
      var i :| 0 <= i < |s.methods| && MoveService(v, s).methods[i] == x;
      assert s.methods[i] in s.methods;
    }
  }

  lemma MoveServicesMembers(v: Renaming, ss: seq<Service>, x: Service)
    ensures x in MoveServices(v, ss) <==> exists s :: s in ss && x == MoveService(v, s)
  {
    if s :| s in ss && x == MoveService(v, s) {
      var i :| 0 <= i < |ss| && ss[i] == s;
      assert MoveServices(v, ss)[i] == x;
    }
    if x in MoveServices(v, ss) {
      var i :| 0 <= i < |ss| && MoveServices(v, ss)[i] == x;
      assert ss[i] in ss;
    }
  }

  // ---------------------------------------------------------------------------
  // A moved file is well-formed
  // ---------------------------------------------------------------------------

  lemma MovedFields(v: Renaming, fs: seq<Field>)
    requires WellFormedFields(fs)
    ensures WellFormedFields(MoveFields(v, fs))
  {
    forall x, y | x in MoveFields(v, fs) && y in MoveFields(v, fs) && x.number == y.number ensures x == y {
      MoveFieldsMembers(v, fs, x);
      MoveFieldsMembers(v, fs, y);
    }
  }

  lemma MovedNames(v: Renaming, ms: seq<Message>)
    requires NamesApart(ms)
    ensures NamesApart(MoveMessages(v, ms))
  {
    forall x, y | x in MoveMessages(v, ms) && y in MoveMessages(v, ms) && x.name == y.name ensures x == y {
      MoveMessagesMembers(v, ms, x);
      MoveMessagesMembers(v, ms, y);
    }
  }

  lemma {:induction false} MovedMessage(v: Renaming, m: Message)
    requires WellFormedMessage(m)
    ensures WellFormedMessage(MoveMessage(v, m))
    decreases m
  {
    MovedFields(v, m.fields);
    MovedNames(v, m.messages);
    forall x | x in MoveMessages(v, m.messages) ensures WellFormedMessage(x) {
      MoveMessagesMembers(v, m.messages, x);
      var n :| n in m.messages && x == MoveMessage(v, n);
      MovedMessage(v, n);
    }
  }

  lemma MovedMessages(v: Renaming, ms: seq<Message>)
    requires WellFormedMessages(ms)
    ensures WellFormedMessages(MoveMessages(v, ms))
  {
    MovedNames(v, ms);
    forall x | x in MoveMessages(v, ms) ensures WellFormedMessage(x) {
      MoveMessagesMembers(v, ms, x);
      var m :| m in ms && x == MoveMessage(v, m);
      MovedMessage(v, m);
    }
  }

  lemma MovedServices(v: Renaming, ss: seq<Service>)
    requires WellFormedServices(ss)
    ensures WellFormedServices(MoveServices(v, ss))
  {
    forall x, y | x in MoveServices(v, ss) && y in MoveServices(v, ss) && x.name == y.name ensures x == y {
      MoveServicesMembers(v, ss, x);
      MoveServicesMembers(v, ss, y);
    }
    forall x, r, q | x in MoveServices(v, ss) && r in x.methods && q in x.methods && r.name == q.name ensures r == q {
      MoveServicesMembers(v, ss, x);
      var s :| s in ss && x == MoveService(v, s);
      MoveMethodsMembers(v, s, r);
      MoveMethodsMembers(v, s, q);
    }
  }

  lemma MoveTreeMembers(t: Tree, to: Packages, x: File)
    ensures x in MoveTree(t, to) <==> exists f :: f in t && x == MoveFile(RenamingOf(t, to), NewPackage(to, f), f)
  {
    var v := RenamingOf(t, to);
    if f :| f in t && x == MoveFile(v, NewPackage(to, f), f) {
      var i :| 0 <= i < |t| && t[i] == f;
      assert MoveTree(t, to)[i] == x;
    }
    if x in MoveTree(t, to) {
      var i :| 0 <= i < |t| && MoveTree(t, to)[i] == x;
      assert t[i] in t;
    }
  }

  lemma MovedTree(t: Tree, to: Packages)
    requires WellFormed(t)
    ensures WellFormed(MoveTree(t, to))
  {
    var v, t' := RenamingOf(t, to), MoveTree(t, to);
    forall x, y | x in t' && y in t' && x.path == y.path ensures x == y {
      MoveTreeMembers(t, to, x);
      MoveTreeMembers(t, to, y);
    }
    forall x | x in t'
      ensures WellFormedMessages(x.messages) && WellFormedEnums(x.enums) && WellFormedServices(x.services)
    {
      MoveTreeMembers(t, to, x);
      var f :| f in t && x == MoveFile(v, NewPackage(to, f), f);
      MovedMessages(v, f.messages);
      MovedServices(v, f.services);
    }
  }

  // ---------------------------------------------------------------------------
  // Without such references the move goes unnoticed
  // ---------------------------------------------------------------------------

  lemma {:induction false} UnreferringMessage(v: Renaming, m: Message, x: MessageFact)
    requires !MessageRefers(v.Keys, m) && MessageStates(m, x)
    ensures MessageStates(MoveMessage(v, m), x)
    decreases x
  {
    match x
    case MessageHere =>
    case HasField(_, _, _, _, _) =>
      var f :| f in m.fields && FieldFact(f) == x;
      assert !FieldRefers(v.Keys, f);
      assert FieldFact(MoveField(v, f)) == x;
      MoveFieldsMembers(v, m.fields, MoveField(v, f));
    case HasOneof(_) =>
    case OfEnum(_, _) =>
    case OfMessage(name, y) =>
      var n :| n in m.messages && n.name == name && MessageStates(n, y);
      assert !MessageRefers(v.Keys, n);
      UnreferringMessage(v, n, y);
      MoveMessagesMembers(v, m.messages, MoveMessage(v, n));
  }

  lemma UnreferringFile(v: Renaming, pkg: FullName, f: File, x: Fact)
    requires !Refers(v.Keys, f) && FileStates(f, x)
    ensures FileStates(MoveFile(v, pkg, f), x)
  {
    match x
    case FileHere(_) =>
    case TopMessage(_, name, y) =>
      var m :| m in f.messages && m.name == name && MessageStates(m, y);
      UnreferringMessage(v, m, y);
      MoveMessagesMembers(v, f.messages, MoveMessage(v, m));
    case TopEnum(_, _, _) =>
    case TopService(_, name, y) =>
      var s :| s in f.services && s.name == name && ServiceStates(s, y);
      assert !ServiceRefers(v.Keys, s);
      MoveServicesMembers(v, f.services, MoveService(v, s));
      if y.HasMethod? {
        MoveMethodsMembers(v, s, Rpc(y.name, y.input, y.output));
        assert MoveRpc(v, Rpc(y.name, y.input, y.output)) == Rpc(y.name, y.input, y.output);
      }
  }

  // ---------------------------------------------------------------------------
  // Such a reference is reported
  // ---------------------------------------------------------------------------

  /** Every type that moves gets another name. */
  ghost predicate Renames(v: Renaming) {
    forall n :: n in v ==> v[n] != n
  }

  lemma MoveRenames(t: Tree, to: Packages)
    ensures Renames(RenamingOf(t, to))
  {
    forall n | n in MovedTypes(t, to) ensures RenamingOf(t, to)[n] != n {
      var f := Owner(t, to, n);
      OwnTypesInPackage(f, n);
      OtherPrefix(f.pkg, NewPackage(to, f), n);
    }
  }

  lemma OwnTypesInPackage(f: File, n: FullName)
    requires n in OwnTypes(f)
    ensures f.pkg <= n
  {
    var d :| d in Decls(f) && (d.MessageD? || d.EnumD?) && d.full == n;
    var t := TopLevelOwner(f, d);
    TopLevelDeclared(f, t);
  }

  lemma OtherPrefix(pkg: FullName, to: FullName, n: FullName)
    requires pkg <= n && to != pkg
    ensures to + n[|pkg|..] != n
  {
    assert n == pkg + n[|pkg|..];
    if |to| == |pkg| {
      assert (to + n[|pkg|..])[..|to|] == to && (pkg + n[|pkg|..])[..|pkg|] == pkg;
    }
  }

  /** A fact about the message that the moved message does not state. */
  lemma {:induction false} ReferringMessage(v: Renaming, m: Message) returns (x: MessageFact)
    requires Renames(v) && WellFormedMessage(m) && MessageRefers(v.Keys, m)
    ensures MessageStates(m, x) && !MessageStates(MoveMessage(v, m), x)
    decreases m
  {
    if f :| f in m.fields && FieldRefers(v.Keys, f) {
      x := FieldFact(f);
      forall g | g in MoveFields(v, m.fields) ensures FieldFact(g) != x {
        MoveFieldsMembers(v, m.fields, g);
      }
    } else {
      var n :| n in m.messages && MessageRefers(v.Keys, n);
      var y := ReferringMessage(v, n);
      x := OfMessage(n.name, y);
      forall k | k in MoveMessages(v, m.messages) && k.name == n.name ensures !MessageStates(k, y) {
        MoveMessagesMembers(v, m.messages, k);
      }
    }
  }

  lemma ReferringService(v: Renaming, s: Service) returns (y: ServiceFact)
    requires Renames(v) && MethodsApart(s.methods) && ServiceRefers(v.Keys, s)
    ensures ServiceStates(s, y) && !ServiceStates(MoveService(v, s), y)
  {
    var r :| r in s.methods && (r.input in v.Keys || r.output in v.Keys);
    assert Rpc(r.name, r.input, r.output) == r;
    y := HasMethod(r.name, r.input, r.output);
    MoveMethodsMembers(v, s, r);
  }

  lemma ReferringFile(v: Renaming, pkg: FullName, f: File) returns (x: Fact)
    requires Renames(v) && WellFormedMessages(f.messages) && WellFormedServices(f.services) && Refers(v.Keys, f)
    ensures FileStates(f, x) && !FileStates(MoveFile(v, pkg, f), x)
  {
    if m :| m in f.messages && MessageRefers(v.Keys, m) {
      var y := ReferringMessage(v, m);
      x := TopMessage(f.path, m.name, y);
      forall k | k in MoveMessages(v, f.messages) && k.name == m.name ensures !MessageStates(k, y) {
        MoveMessagesMembers(v, f.messages, k);
      }
    } else {
      var s :| s in f.services && ServiceRefers(v.Keys, s);
      var y := ReferringService(v, s);
      x := TopService(f.path, s.name, y);
      forall k | k in MoveServices(v, f.services) && k.name == s.name ensures !ServiceStates(k, y) {
        MoveServicesMembers(v, f.services, k);
      }
    }
  }

  /**
   Moving files of a snapshot to other packages passes the check exactly when no message or enum field
   and no method of any file of the snapshot has a type that moves.
   */
  lemma MovePassesExactly(t: Tree, to: Packages)
    requires WellFormed(t)
    ensures Passes(Some(t), MoveTree(t, to)) <==> forall g :: g in t ==> !Refers(MovedTypes(t, to), g)
  {
    MovedTree(t, to);
    CheckExact(t, MoveTree(t, to));
    if forall g :: g in t ==> !Refers(MovedTypes(t, to), g) {
      forall x | TreeStates(t, x) ensures TreeStates(MoveTree(t, to), x) { FactStays(t, to, x); }
    } else {
      var g :| g in t && Refers(MovedTypes(t, to), g);
      FactLost(t, to, g);
    }
  }

  lemma FactStays(t: Tree, to: Packages, x: Fact)
    requires TreeStates(t, x) && forall g :: g in t ==> !Refers(MovedTypes(t, to), g)
    ensures TreeStates(MoveTree(t, to), x)
  {
    var v := RenamingOf(t, to);
    assert v.Keys == MovedTypes(t, to);
    var g :| g in t && FileStates(g, x);
    UnreferringFile(v, NewPackage(to, g), g, x);
    MoveTreeMembers(t, to, MoveFile(v, NewPackage(to, g), g));
  }

  lemma FactLost(t: Tree, to: Packages, g: File)
    requires WellFormed(t) && g in t && Refers(MovedTypes(t, to), g)
    ensures !Compatible(t, MoveTree(t, to))
  {
    var v := RenamingOf(t, to);
    assert v.Keys == MovedTypes(t, to);
    MoveRenames(t, to);
    var x := ReferringFile(v, NewPackage(to, g), g);
    assert TreeStates(t, x);
    forall y | y in MoveTree(t, to) ensures !FileStates(y, x) {
      MoveTreeMembers(t, to, y);
      var f :| f in t && y == MoveFile(v, NewPackage(to, f), f);
      assert FileStates(y, x) ==> f == g;
    }
    assert !TreeStates(MoveTree(t, to), x);
  }

  /** One file moves: nothing in the snapshot, the file included, may refer to a type it declares. */
  lemma OneMovePassesExactly(t: Tree, f: File, pkg: FullName)
    requires WellFormed(t) && f in t && pkg != f.pkg
    ensures Passes(Some(t), MoveTree(t, map[f.path := pkg])) <==> forall g :: g in t ==> !Refers(OwnTypes(f), g)
  {
    var to: Packages := map[f.path := pkg];
    assert forall h :: h in t && Leaves(to, h) ==> h == f;
    assert MovedTypes(t, to) == OwnTypes(f);
    MovePassesExactly(t, to);
  }

  // ---------------------------------------------------------------------------
  // One of each
  // ---------------------------------------------------------------------------

  const B := Message("B", [], [], [], [], [])
  const A := Message("A", [Field("b", 1, MessageKind, Optional, ["x", "B"])], [], [], [], [])
  const Alone := File("a.proto", ["x"], [B], [], [], [])
  const Together := File("a.proto", ["x"], [A, B], [], [], [])
  const User := File("b.proto", ["z"], [A], [], [], [])
  const Away: Packages := map["a.proto" := ["y"]]

  /**
   A file with one plain message moves unnoticed; with a second message that refers to the first, or
   with another file of the snapshot that does, it does not.
   */
  lemma MovesBothWays()
    ensures Passes(Some([Alone]), MoveTree([Alone], Away))
    ensures !Passes(Some([Together]), MoveTree([Together], Away))
    ensures !Passes(Some([Alone, User]), MoveTree([Alone, User], Away))
  {
    AloneUnreferring();
    OneMovePassesExactly([Alone], Alone, ["y"]);
    TogetherRefers();
    OneMovePassesExactly([Together], Together, ["y"]);
    UserRefers();
    OneMovePassesExactly([Alone, User], Alone, ["y"]);
  }

  lemma ExamplesWellFormed()
    ensures WellFormedMessages([A]) && WellFormedMessages([B]) && WellFormedMessages([A, B])
  {
    assert WellFormedFields(A.fields);
    assert WellFormedMessage(A) && WellFormedMessage(B);
  }

  lemma Referring(types: set<FullName>, f: File)
    requires A in f.messages && ["x", "B"] in types
    ensures Refers(types, f)
  {
    assert A.fields[0] in A.fields && FieldRefers(types, A.fields[0]);
    assert MessageRefers(types, A);
  }

  lemma OwnsB(f: File)
    requires f.pkg == ["x"] && B in f.messages
    ensures ["x", "B"] in OwnTypes(f)
  {
    MessagesDeclsHead(["x"], f.messages, B);
    assert ["x"] + ["B"] == ["x", "B"];
    assert MessageD(["x", "B"], B) in Decls(f);
  }

  lemma AloneUnreferring()
    ensures WellFormed([Alone]) && !Refers(OwnTypes(Alone), Alone)
  {
    ExamplesWellFormed();
    assert !MessageRefers(OwnTypes(Alone), B);
  }

  lemma TogetherRefers()
    ensures WellFormed([Together]) && Together in [Together] && Refers(OwnTypes(Together), Together)
  {
    ExamplesWellFormed();
    OwnsB(Together);
    Referring(OwnTypes(Together), Together);
  }

  lemma UserRefers()
    ensures WellFormed([Alone, User]) && User in [Alone, User] && Refers(OwnTypes(Alone), User)
  {
    ExamplesWellFormed();
    OwnsB(Alone);
    Referring(OwnTypes(Alone), User);
  }
}
