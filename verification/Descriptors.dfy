/**
 Protobuf descriptors as plain trees.

 A full name such as "acme.v1.Config" is the sequence of its components, so the
 parent of a name is the name without its last component and the empty package is
 the empty sequence.  Module Names relates this to the dotted strings of the source.
 */
module Descriptors {

  datatype Option<+T> = None | Some(value: T)

  type Name = string
  type FullName = seq<Name>

  datatype EnumValue = EnumValue(name: Name, number: int)
  datatype Enum = Enum(name: Name, values: seq<EnumValue>)

  datatype Kind = MessageKind | EnumKind | GroupKind | ScalarKind(tag: nat)
  datatype Cardinality = Optional | Required | Repeated
  datatype Field = Field(name: Name, number: int, kind: Kind, cardinality: Cardinality, typeName: FullName)

  datatype Extension = Extension(name: Name, number: int, extendee: FullName)

  datatype Message = Message(
    name: Name,
    fields: seq<Field>,
    oneofs: seq<Name>,
    messages: seq<Message>,
    enums: seq<Enum>,
    extensions: seq<Extension>)

  datatype Rpc = Rpc(name: Name, input: FullName, output: FullName)
  datatype Service = Service(name: Name, methods: seq<Rpc>)

  datatype File = File(
    path: string,
    pkg: FullName,
    messages: seq<Message>,
    enums: seq<Enum>,
    extensions: seq<Extension>,
    services: seq<Service>)

  /** A declaration together with the full name it has in its file. */
  datatype Descriptor =
    | EnumD(full: FullName, enum: Enum)
    | ValueD(full: FullName, value: EnumValue)
    | MessageD(full: FullName, message: Message)
    | ExtensionD(full: FullName, extension: Extension)
    | ServiceD(full: FullName, service: Service)
    | MethodD(full: FullName, rpc: Rpc)
    | FieldD(full: FullName, field: Field)
    | OneofD(full: FullName)

  function Parent(n: FullName): FullName {
    if n == [] then [] else n[..|n| - 1]
  }

  // ---------------------------------------------------------------------------
  // Everything a file declares, at any depth
  // ---------------------------------------------------------------------------

  /** The values of an enum are siblings of the enum: they take the scope of the enum. */
  function EnumDecls(scope: FullName, e: Enum): set<Descriptor> {
    {EnumD(scope + [e.name], e)} + (set v | v in e.values :: ValueD(scope + [v.name], v))
  }

  function EnumsDecls(scope: FullName, es: seq<Enum>): set<Descriptor> {
    set e, d | e in es && d in EnumDecls(scope, e) :: d
  }

  function ExtensionDecls(scope: FullName, xs: seq<Extension>): set<Descriptor> {
    set x | x in xs :: ExtensionD(scope + [x.name], x)
  }

  function FieldDecls(scope: FullName, m: Message): set<Descriptor> {
    (set f | f in m.fields :: FieldD(scope + [f.name], f)) + (set o | o in m.oneofs :: OneofD(scope + [o]))
  }

  /** What is declared inside the body of message `m`, whose full name is `full`. */
  function BodyDecls(full: FullName, m: Message): set<Descriptor>
    decreases m, 1
  {
    EnumsDecls(full, m.enums) + ExtensionDecls(full, m.extensions) + FieldDecls(full, m) +
    MessagesDecls(full, m.messages)
  }

  function MessagesDecls(scope: FullName, ms: seq<Message>): set<Descriptor>
    decreases ms, 0
  {
    if ms == [] then {} else
      {MessageD(scope + [ms[0].name], ms[0])} + BodyDecls(scope + [ms[0].name], ms[0]) +
      MessagesDecls(scope, ms[1..])
  }

  function ServiceDecls(scope: FullName, s: Service): set<Descriptor> {
    {ServiceD(scope + [s.name], s)} + (set r | r in s.methods :: MethodD(scope + [s.name, r.name], r))
  }

  function ServicesDecls(scope: FullName, ss: seq<Service>): set<Descriptor> {
    set s, d | s in ss && d in ServiceDecls(scope, s) :: d
  }

  function Decls(f: File): set<Descriptor> {
    MessagesDecls(f.pkg, f.messages) + EnumsDecls(f.pkg, f.enums) +
    ExtensionDecls(f.pkg, f.extensions) + ServicesDecls(f.pkg, f.services)
  }

  /** Full names are unique within a file; the protobuf library rejects a file that breaks this. */
  ghost predicate UniqueNames(f: File) {
    forall d, e :: d in Decls(f) && e in Decls(f) && d.full == e.full ==> d == e
  }

  // ---------------------------------------------------------------------------
  // The top-level descriptors, in the order the registry visits them
  // ---------------------------------------------------------------------------

  function ValuesDown(scope: FullName, vs: seq<EnumValue>): seq<Descriptor> {
    if vs == [] then [] else
      [ValueD(scope + [vs[|vs| - 1].name], vs[|vs| - 1])] + ValuesDown(scope, vs[..|vs| - 1])
  }

  function EnumsDown(scope: FullName, es: seq<Enum>): seq<Descriptor> {
    if es == [] then [] else
      var e := es[|es| - 1];
      [EnumD(scope + [e.name], e)] + ValuesDown(scope, e.values) + EnumsDown(scope, es[..|es| - 1])
  }

  function MessagesDown(scope: FullName, ms: seq<Message>): seq<Descriptor> {
    if ms == [] then [] else
      [MessageD(scope + [ms[|ms| - 1].name], ms[|ms| - 1])] + MessagesDown(scope, ms[..|ms| - 1])
  }

  function ExtensionsDown(scope: FullName, xs: seq<Extension>): seq<Descriptor> {
    if xs == [] then [] else
      [ExtensionD(scope + [xs[|xs| - 1].name], xs[|xs| - 1])] + ExtensionsDown(scope, xs[..|xs| - 1])
  }

  function ServicesDown(scope: FullName, ss: seq<Service>): seq<Descriptor> {
    if ss == [] then [] else
      [ServiceD(scope + [ss[|ss| - 1].name], ss[|ss| - 1])] + ServicesDown(scope, ss[..|ss| - 1])
  }

  function TopLevel(f: File): seq<Descriptor> {
    EnumsDown(f.pkg, f.enums) + MessagesDown(f.pkg, f.messages) +
    ExtensionsDown(f.pkg, f.extensions) + ServicesDown(f.pkg, f.services)
  }

  lemma ValuesDownMembers(scope: FullName, vs: seq<EnumValue>, d: Descriptor)
    ensures d in ValuesDown(scope, vs) <==> exists v :: v in vs && d == ValueD(scope + [v.name], v)
  {
    if vs != [] {
      ValuesDownMembers(scope, vs[..|vs| - 1], d);
      assert vs == vs[..|vs| - 1] + [vs[|vs| - 1]];
    }
  }

  lemma EnumsDownMembers(scope: FullName, es: seq<Enum>, d: Descriptor)
    ensures d in EnumsDown(scope, es) <==> d in EnumsDecls(scope, es)
  {
    if es != [] {
      var last := es[|es| - 1];
      EnumsDownMembers(scope, es[..|es| - 1], d);
      ValuesDownMembers(scope, last.values, d);
      assert es == es[..|es| - 1] + [last];
      assert d in EnumsDecls(scope, es) <==> d in EnumDecls(scope, last) || d in EnumsDecls(scope, es[..|es| - 1]);
    }
  }

  lemma MessagesDownMembers(scope: FullName, ms: seq<Message>, d: Descriptor)
    ensures d in MessagesDown(scope, ms) <==> exists m :: m in ms && d == MessageD(scope + [m.name], m)
  {
    if ms != [] {
      MessagesDownMembers(scope, ms[..|ms| - 1], d);
      assert ms == ms[..|ms| - 1] + [ms[|ms| - 1]];
    }
  }

  lemma ExtensionsDownMembers(scope: FullName, xs: seq<Extension>, d: Descriptor)
    ensures d in ExtensionsDown(scope, xs) <==> d in ExtensionDecls(scope, xs)
  {
    if xs != [] {
      ExtensionsDownMembers(scope, xs[..|xs| - 1], d);
      assert xs == xs[..|xs| - 1] + [xs[|xs| - 1]];
    }
  }

  lemma ServicesDownMembers(scope: FullName, ss: seq<Service>, d: Descriptor)
    ensures d in ServicesDown(scope, ss) <==> exists s :: s in ss && d == ServiceD(scope + [s.name], s)
  {
    if ss != [] {
      ServicesDownMembers(scope, ss[..|ss| - 1], d);
      assert ss == ss[..|ss| - 1] + [ss[|ss| - 1]];
    }
  }

  lemma MessagesDeclsHead(scope: FullName, ms: seq<Message>, m: Message)
    requires m in ms
    ensures MessageD(scope + [m.name], m) in MessagesDecls(scope, ms)
    ensures BodyDecls(scope + [m.name], m) <= MessagesDecls(scope, ms)
  {
    if ms[0] != m {
      MessagesDeclsHead(scope, ms[1..], m);
    }
  }

  /** What a message list declares is a listed message or sits in the body of one. */
  lemma {:induction false} MessagesDeclsCases(scope: FullName, ms: seq<Message>, d: Descriptor) returns (m: Message)
    requires d in MessagesDecls(scope, ms)
    ensures m in ms
    ensures d == MessageD(scope + [m.name], m) || d in BodyDecls(scope + [m.name], m)
  {
    if d == MessageD(scope + [ms[0].name], ms[0]) || d in BodyDecls(scope + [ms[0].name], ms[0]) {
      m := ms[0];
    } else {
      m := MessagesDeclsCases(scope, ms[1..], d);
    }
  }

  /** A top-level descriptor is declared by its file and sits directly in the package. */
  lemma TopLevelDeclared(f: File, d: Descriptor)
    requires d in TopLevel(f)
    ensures d in Decls(f)
    ensures |d.full| == |f.pkg| + 1 && f.pkg <= d.full
    ensures !d.MethodD? && !d.FieldD? && !d.OneofD?
  {
    EnumsDownMembers(f.pkg, f.enums, d);
    MessagesDownMembers(f.pkg, f.messages, d);
    ExtensionsDownMembers(f.pkg, f.extensions, d);
    ServicesDownMembers(f.pkg, f.services, d);
    if d in MessagesDown(f.pkg, f.messages) {
      var m :| m in f.messages && d == MessageD(f.pkg + [m.name], m);
      MessagesDeclsHead(f.pkg, f.messages, m);
    } else if d in ServicesDown(f.pkg, f.services) {
      var s :| s in f.services && d == ServiceD(f.pkg + [s.name], s);
      assert d in ServiceDecls(f.pkg, s);
    }
  }

  /** Full names only grow inside a body. */
  lemma {:induction false} BodyDeclsExtend(full: FullName, m: Message, d: Descriptor)
    requires d in BodyDecls(full, m)
    ensures full < d.full
    decreases m
  {
    if d in MessagesDecls(full, m.messages) {
      var n := MessagesDeclsCases(full, m.messages, d);
      if d in BodyDecls(full + [n.name], n) {
        BodyDeclsExtend(full + [n.name], n, d);
      }
    }
  }

  /** The top-level descriptor that `d` belongs to. */
  lemma {:induction false} TopLevelOwner(f: File, d: Descriptor) returns (t: Descriptor)
    requires d in Decls(f)
    ensures t in TopLevel(f)
    ensures d == t || (t.MessageD? && d in BodyDecls(t.full, t.message)) ||
            (t.ServiceD? && exists r :: r in t.service.methods && d == MethodD(t.full + [r.name], r))
    ensures t.full <= d.full
    ensures d != t ==> t.full < d.full
  {
    if d in MessagesDecls(f.pkg, f.messages) {
      var m := MessagesDeclsCases(f.pkg, f.messages, d);
      t := MessageD(f.pkg + [m.name], m);
      MessagesDownMembers(f.pkg, f.messages, t);
      if d != t {
        BodyDeclsExtend(t.full, m, d);
      }
    } else if d in EnumsDecls(f.pkg, f.enums) {
      t := d;
      EnumsDownMembers(f.pkg, f.enums, t);
    } else if d in ExtensionDecls(f.pkg, f.extensions) {
      t := d;
      ExtensionsDownMembers(f.pkg, f.extensions, t);
    } else {
      var s :| s in f.services && d in ServiceDecls(f.pkg, s);
      t := ServiceD(f.pkg + [s.name], s);
      ServicesDownMembers(f.pkg, f.services, t);
      if d != t {
        var r :| r in s.methods && d == MethodD(f.pkg + [s.name, r.name], r);
        assert f.pkg + [s.name, r.name] == t.full + [r.name];
      }
    }
  }
}
