/**
 The backward-compatibility checker and what its silence means: every fact that the old
 descriptor tree states is a fact of the new one.
 */
module Compat {
  import opened Descriptors
  import opened FileLookup

  datatype Rule =
    | FileNoDelete | MessageNoDelete | OneofNoDelete | EnumNoDelete | EnumValueNoDelete
    | FieldNoDelete | FieldSameType | FieldSameName | FieldSameCardinality
    | FieldSameMessageType | FieldSameEnumType
    | ServiceNoDelete | MethodNoDelete | MethodSameInputType | MethodSameOutputType

  datatype Violation = Violation(file: string, path: FullName, rule: Rule)

  /** The files of a snapshot, in the order the snapshot lists them. */
  type Tree = seq<File>

  // ---------------------------------------------------------------------------
  // The violations, in the order the checker reports them
  // ---------------------------------------------------------------------------

  function FieldByNumber(fs: seq<Field>, number: int): (r: Option<Field>)
    ensures r.Some? ==> r.value in fs && r.value.number == number
    ensures r.None? ==> forall f :: f in fs ==> f.number != number
  {
    if fs == [] then None else if fs[0].number == number then Some(fs[0]) else FieldByNumber(fs[1..], number)
  }

  predicate HasNumber(vs: seq<EnumValue>, number: int) {
    exists v :: v in vs && v.number == number
  }

  function ServiceByName(ss: seq<Service>, x: Name): (r: Option<Service>)
    ensures r.Some? ==> r.value in ss && r.value.name == x
    ensures r.None? ==> forall s :: s in ss ==> s.name != x
  {
    if ss == [] then None else if ss[0].name == x then Some(ss[0]) else ServiceByName(ss[1..], x)
  }

  function FileByPath(t: Tree, path: string): (r: Option<File>)
    ensures r.Some? ==> r.value in t && r.value.path == path
    ensures r.None? ==> forall f :: f in t ==> f.path != path
  {
    if t == [] then None else if t[0].path == path then Some(t[0]) else FileByPath(t[1..], path)
  }

  type Violations = seq<Violation>

  function Add(acc: Violations, broken: bool, v: Violation): Violations {
    if broken then acc + [v] else acc
  }

  function FieldReport(acc: Violations, file: string, owner: FullName, f: Field, fs: seq<Field>): Violations {
    var n := FieldByNumber(fs, f.number);
    var at := owner + [f.name];
    if n.None? then acc + [Violation(file, at, FieldNoDelete)] else
      var g := n.value;
      var a := Add(acc, f.kind != g.kind, Violation(file, at, FieldSameType));
      var a := Add(a, f.name != g.name, Violation(file, at, FieldSameName));
      var a := Add(a, f.cardinality != g.cardinality, Violation(file, at, FieldSameCardinality));
      var a := Add(a, f.kind.MessageKind? && g.kind.MessageKind? && f.typeName != g.typeName,
                   Violation(file, at, FieldSameMessageType));
      Add(a, f.kind.EnumKind? && g.kind.EnumKind? && f.typeName != g.typeName,
          Violation(file, at, FieldSameEnumType))
  }

  function FieldsReport(acc: Violations, file: string, owner: FullName, fs: seq<Field>, gs: seq<Field>): Violations
    decreases fs
  {
    if fs == [] then acc else
      FieldReport(FieldsReport(acc, file, owner, fs[..|fs| - 1], gs), file, owner, fs[|fs| - 1], gs)
  }

  function OneofsReport(acc: Violations, file: string, owner: FullName, xs: seq<Name>, ys: seq<Name>): Violations
    decreases xs
  {
    if xs == [] then acc else
      var x := xs[|xs| - 1];
      Add(OneofsReport(acc, file, owner, xs[..|xs| - 1], ys), x !in ys, Violation(file, owner + [x], OneofNoDelete))
  }

  function ValuesReport(acc: Violations, file: string, scope: FullName, vs: seq<EnumValue>,
                        ws: seq<EnumValue>): Violations
    decreases vs
  {
    if vs == [] then acc else
      var v := vs[|vs| - 1];
      Add(ValuesReport(acc, file, scope, vs[..|vs| - 1], ws), !HasNumber(ws, v.number),
          Violation(file, scope + [v.name], EnumValueNoDelete))
  }

  function EnumReport(acc: Violations, file: string, scope: FullName, e: Enum, es: seq<Enum>): Violations {
    var n := EnumByName(es, e.name);
    if n.None? then acc + [Violation(file, scope + [e.name], EnumNoDelete)] else
      ValuesReport(acc, file, scope, e.values, n.value.values)
  }

  function EnumsReport(acc: Violations, file: string, scope: FullName, es: seq<Enum>, ds: seq<Enum>): Violations
    decreases es
  {
    if es == [] then acc else
      EnumReport(EnumsReport(acc, file, scope, es[..|es| - 1], ds), file, scope, es[|es| - 1], ds)
  }

  function MessageReport(acc: Violations, file: string, scope: FullName, m: Message, ns: seq<Message>): Violations
    decreases m, 1
  {
    var n := MessageByName(ns, m.name);
    var full := scope + [m.name];
    if n.None? then acc + [Violation(file, full, MessageNoDelete)] else
      var a := FieldsReport(acc, file, full, m.fields, n.value.fields);
      var a := MessagesReport(a, file, full, m.messages, n.value.messages);
      var a := EnumsReport(a, file, full, m.enums, n.value.enums);
      OneofsReport(a, file, full, m.oneofs, n.value.oneofs)
  }

  function MessagesReport(acc: Violations, file: string, scope: FullName, ms: seq<Message>,
                          ns: seq<Message>): Violations
    decreases ms, 0
  {
    if ms == [] then acc else
      MessageReport(MessagesReport(acc, file, scope, ms[..|ms| - 1], ns), file, scope, ms[|ms| - 1], ns)
  }

  function MethodReport(acc: Violations, file: string, owner: FullName, r: Rpc, rs: seq<Rpc>): Violations {
    var n := RpcByName(rs, r.name);
    var at := owner + [r.name];
    if n.None? then acc + [Violation(file, at, MethodNoDelete)] else
      var a := Add(acc, r.input != n.value.input, Violation(file, at, MethodSameInputType));
      Add(a, r.output != n.value.output, Violation(file, at, MethodSameOutputType))
  }

  function MethodsReport(acc: Violations, file: string, owner: FullName, rs: seq<Rpc>, qs: seq<Rpc>): Violations
    decreases rs
  {
    if rs == [] then acc else
      MethodReport(MethodsReport(acc, file, owner, rs[..|rs| - 1], qs), file, owner, rs[|rs| - 1], qs)
  }

  function ServiceReport(acc: Violations, file: string, scope: FullName, s: Service, ss: seq<Service>): Violations {
    var n := ServiceByName(ss, s.name);
    var full := scope + [s.name];
    if n.None? then acc + [Violation(file, full, ServiceNoDelete)] else
      MethodsReport(acc, file, full, s.methods, n.value.methods)
  }

  function ServicesReport(acc: Violations, file: string, scope: FullName, ss: seq<Service>,
                          ts: seq<Service>): Violations
    decreases ss
  {
    if ss == [] then acc else
      ServiceReport(ServicesReport(acc, file, scope, ss[..|ss| - 1], ts), file, scope, ss[|ss| - 1], ts)
  }

  function FileReport(acc: Violations, f: File, g: File): Violations {
    var a := MessagesReport(acc, f.path, f.pkg, f.messages, g.messages);
    var a := EnumsReport(a, f.path, f.pkg, f.enums, g.enums);
    ServicesReport(a, f.path, f.pkg, f.services, g.services)
  }

  function TreeReport(acc: Violations, o: Tree, n: Tree): Violations
    decreases o
  {
    if o == [] then acc else
      var a, f := TreeReport(acc, o[..|o| - 1], n), o[|o| - 1];
      var g := FileByPath(n, f.path);
      if g.None? then a + [Violation(f.path, [], FileNoDelete)] else FileReport(a, f, g.value)
  }

  /** Check finds nothing; there is nothing to find when there is no old snapshot. */
  predicate Passes(o: Option<Tree>, n: Tree) {
    o.None? || TreeReport([], o.value, n) == []
  }

  // ---------------------------------------------------------------------------
  // The checker, appending to a shared result
  // ---------------------------------------------------------------------------

  class Result {
    var violations: seq<Violation>

    constructor ()
      ensures violations == []
    {
      violations := [];
    }

    method Report(file: string, path: FullName, rule: Rule)
      modifies this
      ensures violations == old(violations) + [Violation(file, path, rule)]
    {
      violations := violations + [Violation(file, path, rule)];
    }

    method CheckField(file: string, owner: FullName, f: Field, fs: seq<Field>)
      modifies this
      ensures violations == FieldReport(old(violations), file, owner, f, fs)
    {
      var n := FieldByNumber(fs, f.number);
      var at := owner + [f.name];
      if n.None? {
        Report(file, at, FieldNoDelete);
        return;
      }
      var g := n.value;
      if f.kind != g.kind { Report(file, at, FieldSameType); }
      if f.name != g.name { Report(file, at, FieldSameName); }
      if f.cardinality != g.cardinality { Report(file, at, FieldSameCardinality); }
      if f.kind.MessageKind? && g.kind.MessageKind? {
        if f.typeName != g.typeName { Report(file, at, FieldSameMessageType); }
      }
      if f.kind.EnumKind? && g.kind.EnumKind? {
        if f.typeName != g.typeName { Report(file, at, FieldSameEnumType); }
      }
    }

    method CheckEnum(file: string, scope: FullName, e: Enum, es: seq<Enum>)
      modifies this
      ensures violations == EnumReport(old(violations), file, scope, e, es)
    {
      var n := EnumByName(es, e.name);
      if n.None? {
        Report(file, scope + [e.name], EnumNoDelete);
        return;
      }
      var i := 0;
      while i < |e.values|
        invariant 0 <= i <= |e.values|
        invariant violations == ValuesReport(old(violations), file, scope, e.values[..i], n.value.values)
      {
        var v := e.values[i];
        if !HasNumber(n.value.values, v.number) { Report(file, scope + [v.name], EnumValueNoDelete); }
        assert e.values[..i + 1][..i] == e.values[..i];
        i := i + 1;
      }
      assert e.values[..i] == e.values;
    }

    method CheckFields(file: string, owner: FullName, fs: seq<Field>, gs: seq<Field>)
      modifies this
      ensures violations == FieldsReport(old(violations), file, owner, fs, gs)
    {
      var i := 0;
      while i < |fs|
        invariant 0 <= i <= |fs|
        invariant violations == FieldsReport(old(violations), file, owner, fs[..i], gs)
      {
        CheckField(file, owner, fs[i], gs);
        assert fs[..i + 1][..i] == fs[..i];
        i := i + 1;
      }
      assert fs[..i] == fs;
    }

    method CheckEnums(file: string, scope: FullName, es: seq<Enum>, ds: seq<Enum>)
      modifies this
      ensures violations == EnumsReport(old(violations), file, scope, es, ds)
    {
      var i := 0;
      while i < |es|
        invariant 0 <= i <= |es|
        invariant violations == EnumsReport(old(violations), file, scope, es[..i], ds)
      {
        CheckEnum(file, scope, es[i], ds);
        assert es[..i + 1][..i] == es[..i];
        i := i + 1;
      }
      assert es[..i] == es;
    }

    method CheckOneofs(file: string, owner: FullName, xs: seq<Name>, ys: seq<Name>)
      modifies this
      ensures violations == OneofsReport(old(violations), file, owner, xs, ys)
    {
      var i := 0;
      while i < |xs|
        invariant 0 <= i <= |xs|
        invariant violations == OneofsReport(old(violations), file, owner, xs[..i], ys)
      {
        if xs[i] !in ys { Report(file, owner + [xs[i]], OneofNoDelete); }
        assert xs[..i + 1][..i] == xs[..i];
        i := i + 1;
      }
      assert xs[..i] == xs;
    }

    method CheckMessages(file: string, scope: FullName, ms: seq<Message>, ns: seq<Message>)
      modifies this
      ensures violations == MessagesReport(old(violations), file, scope, ms, ns)
      decreases ms, 0
    {
      var i := 0;
      while i < |ms|
        invariant 0 <= i <= |ms|
        invariant violations == MessagesReport(old(violations), file, scope, ms[..i], ns)
      {
        CheckMessage(file, scope, ms[i], ns);
        assert ms[..i + 1][..i] == ms[..i];
        i := i + 1;
      }
      assert ms[..i] == ms;
    }

    method CheckMessage(file: string, scope: FullName, m: Message, ns: seq<Message>)
      modifies this
      ensures violations == MessageReport(old(violations), file, scope, m, ns)
      decreases m, 1
    {
      var n := MessageByName(ns, m.name);
      var full := scope + [m.name];
      if n.None? {
        Report(file, full, MessageNoDelete);
        return;
      }
      CheckFields(file, full, m.fields, n.value.fields);
      CheckMessages(file, full, m.messages, n.value.messages);
      CheckEnums(file, full, m.enums, n.value.enums);
      CheckOneofs(file, full, m.oneofs, n.value.oneofs);
    }

    method CheckMethod(file: string, owner: FullName, r: Rpc, rs: seq<Rpc>)
      modifies this
      ensures violations == MethodReport(old(violations), file, owner, r, rs)
    {
      var q := RpcByName(rs, r.name);
      if q.None? {
        Report(file, owner + [r.name], MethodNoDelete);
        return;
      }
      if r.input != q.value.input { Report(file, owner + [r.name], MethodSameInputType); }
      if r.output != q.value.output { Report(file, owner + [r.name], MethodSameOutputType); }
    }

    method CheckService(file: string, scope: FullName, s: Service, ss: seq<Service>)
      modifies this
      ensures violations == ServiceReport(old(violations), file, scope, s, ss)
    {
      var n := ServiceByName(ss, s.name);
      var full := scope + [s.name];
      if n.None? {
        Report(file, full, ServiceNoDelete);
        return;
      }
      var i := 0;
      while i < |s.methods|
        invariant 0 <= i <= |s.methods|
        invariant violations == MethodsReport(old(violations), file, full, s.methods[..i], n.value.methods)
      {
        CheckMethod(file, full, s.methods[i], n.value.methods);
        assert s.methods[..i + 1][..i] == s.methods[..i];
        i := i + 1;
      }
      assert s.methods[..i] == s.methods;
    }

    method CheckServices(file: string, scope: FullName, ss: seq<Service>, ts: seq<Service>)
      modifies this
      ensures violations == ServicesReport(old(violations), file, scope, ss, ts)
    {
      var i := 0;
      while i < |ss|
        invariant 0 <= i <= |ss|
        invariant violations == ServicesReport(old(violations), file, scope, ss[..i], ts)
      {
        CheckService(file, scope, ss[i], ts);
        assert ss[..i + 1][..i] == ss[..i];
        i := i + 1;
      }
      assert ss[..i] == ss;
    }

    method CheckFile(f: File, g: File)
      modifies this
      ensures violations == FileReport(old(violations), f, g)
    {
      CheckMessages(f.path, f.pkg, f.messages, g.messages);
      CheckEnums(f.path, f.pkg, f.enums, g.enums);
      CheckServices(f.path, f.pkg, f.services, g.services);
    }
  }

  method Check(o: Option<Tree>, n: Tree) returns (r: Result)
    ensures fresh(r)
    ensures r.violations == if o.None? then [] else TreeReport([], o.value, n)
  {
    r := new Result();
    if o.None? { return; }
    var i := 0;
    while i < |o.value|
      invariant 0 <= i <= |o.value| && fresh(r)
      invariant r.violations == TreeReport([], o.value[..i], n)
    {
      var f := o.value[i];
      var g := FileByPath(n, f.path);
      assert o.value[..i + 1][..i] == o.value[..i];
      i := i + 1;
      if g.None? {
        r.Report(f.path, [], FileNoDelete);
        continue;
      }
      r.CheckFile(f, g.value);
    }
    assert o.value[..i] == o.value;
  }

  // ---------------------------------------------------------------------------
  // The facts a descriptor tree states
  // ---------------------------------------------------------------------------

  datatype EnumFact = EnumHere | HasValue(number: int)

  datatype MessageFact =
    | MessageHere
    | HasField(number: int, name: Name, kind: Kind, cardinality: Cardinality, refers: FullName)
    | HasOneof(name: Name)
    | OfEnum(name: Name, enumFact: EnumFact)
    | OfMessage(name: Name, fact: MessageFact)

  datatype ServiceFact = ServiceHere | HasMethod(name: Name, input: FullName, output: FullName)

  /** Facts name elements by file path and by names inside the file; packages play no part. */
  datatype Fact =
    | FileHere(path: string)
    | TopMessage(path: string, name: Name, messageFact: MessageFact)
    | TopEnum(path: string, name: Name, enumFact: EnumFact)
    | TopService(path: string, name: Name, serviceFact: ServiceFact)

  /** A field refers to a type only if it is a message or an enum field. */
  function FieldFact(f: Field): MessageFact {
    HasField(f.number, f.name, f.kind, f.cardinality,
             if f.kind.MessageKind? || f.kind.EnumKind? then f.typeName else [])
  }

  ghost predicate EnumStates(e: Enum, x: EnumFact) {
    match x
    case EnumHere => true
    case HasValue(number) => HasNumber(e.values, number)
  }

  ghost predicate SomeEnumStates(es: seq<Enum>, name: Name, x: EnumFact) {
    exists e :: e in es && e.name == name && EnumStates(e, x)
  }

  ghost predicate MessageStates(m: Message, x: MessageFact)
    decreases x, 0
  {
    match x
    case MessageHere => true
    case HasField(_, _, _, _, _) => exists f :: f in m.fields && FieldFact(f) == x
    case HasOneof(o) => o in m.oneofs
    case OfEnum(name, y) => SomeEnumStates(m.enums, name, y)
    case OfMessage(name, y) => SomeMessageStates(m.messages, name, y)
  }

  ghost predicate SomeMessageStates(ms: seq<Message>, name: Name, x: MessageFact)
    decreases x, 1
  {
    exists m :: m in ms && m.name == name && MessageStates(m, x)
  }

  ghost predicate ServiceStates(s: Service, x: ServiceFact) {
    match x
    case ServiceHere => true
    case HasMethod(name, i, o) => Rpc(name, i, o) in s.methods
  }

  ghost predicate SomeServiceStates(ss: seq<Service>, name: Name, x: ServiceFact) {
    exists s :: s in ss && s.name == name && ServiceStates(s, x)
  }

  ghost predicate FileStates(f: File, x: Fact) {
    f.path == x.path &&
    match x
    case FileHere(_) => true
    case TopMessage(_, name, y) => SomeMessageStates(f.messages, name, y)
    case TopEnum(_, name, y) => SomeEnumStates(f.enums, name, y)
    case TopService(_, name, y) => SomeServiceStates(f.services, name, y)
  }

  ghost predicate TreeStates(t: Tree, x: Fact) {
    exists f :: f in t && FileStates(f, x)
  }

  /** Backward compatibility: whatever the old tree states, the new tree states too. */
  ghost predicate Compatible(o: Tree, n: Tree) {
    forall x :: TreeStates(o, x) ==> TreeStates(n, x)
  }

  // ---------------------------------------------------------------------------
  // Well-formed trees: what the protobuf library guarantees of every descriptor
  // ---------------------------------------------------------------------------

  ghost predicate WellFormedFields(fs: seq<Field>) {
    forall f, g :: f in fs && g in fs && f.number == g.number ==> f == g
  }

  ghost predicate WellFormedEnums(es: seq<Enum>) {
    forall e, d :: e in es && d in es && e.name == d.name ==> e == d
  }

  ghost predicate NamesApart(ms: seq<Message>) {
    forall m, n :: m in ms && n in ms && m.name == n.name ==> m == n
  }

  ghost predicate WellFormedMessage(m: Message) {
    && WellFormedFields(m.fields) && WellFormedEnums(m.enums) && NamesApart(m.messages)
    && (forall n :: n in m.messages ==> WellFormedMessage(n))
  }

  ghost predicate WellFormedMessages(ms: seq<Message>) {
    NamesApart(ms) && forall m :: m in ms ==> WellFormedMessage(m)
  }

  ghost predicate WellFormedServices(ss: seq<Service>) {
    && (forall s, t :: s in ss && t in ss && s.name == t.name ==> s == t)
    && (forall s, r, q :: s in ss && r in s.methods && q in s.methods && r.name == q.name ==> r == q)
  }

  ghost predicate WellFormed(t: Tree) {
    && (forall f, g :: f in t && g in t && f.path == g.path ==> f == g)
    && (forall f :: f in t ==>
        WellFormedMessages(f.messages) && WellFormedEnums(f.enums) && WellFormedServices(f.services))
  }

  // ---------------------------------------------------------------------------
  // Silence is inclusion of facts
  // ---------------------------------------------------------------------------

  /** The report only grows, and it stays as it is exactly when `ok`. */
  ghost predicate Grown(acc: Violations, r: Violations, ok: bool) {
    (if ok then r == acc else |r| > |acc|)
  }

  lemma FieldSilent(acc: Violations, file: string, owner: FullName, f: Field, m: Message)
    requires WellFormedFields(m.fields)
    ensures Grown(acc, FieldReport(acc, file, owner, f, m.fields), MessageStates(m, FieldFact(f)))
  {
    var n := FieldByNumber(m.fields, f.number);
    if n.Some? {
      assert FieldFact(n.value) == FieldFact(f) <==> MessageStates(m, FieldFact(f));
    }
  }

  ghost predicate FieldsKept(fs: seq<Field>, n: Message) {
    forall f :: f in fs ==> MessageStates(n, FieldFact(f))
  }

  lemma {:induction false} FieldsSilent(acc: Violations, file: string, owner: FullName, fs: seq<Field>, n: Message)
    requires WellFormedFields(n.fields)
    ensures Grown(acc, FieldsReport(acc, file, owner, fs, n.fields), FieldsKept(fs, n))
    decreases fs
  {
    if fs != [] {
      var last := fs[|fs| - 1];
      FieldsSilent(acc, file, owner, fs[..|fs| - 1], n);
      FieldSilent(FieldsReport(acc, file, owner, fs[..|fs| - 1], n.fields), file, owner, last, n);
      assert fs == fs[..|fs| - 1] + [last];
      assert FieldsKept(fs, n) <==> FieldsKept(fs[..|fs| - 1], n) && MessageStates(n, FieldFact(last));
    }
  }

  lemma {:induction false} OneofsSilent(acc: Violations, file: string, owner: FullName, xs: seq<Name>, ys: seq<Name>)
    ensures Grown(acc, OneofsReport(acc, file, owner, xs, ys), forall x :: x in xs ==> x in ys)
    decreases xs
  {
    if xs != [] {
      OneofsSilent(acc, file, owner, xs[..|xs| - 1], ys);
      assert xs == xs[..|xs| - 1] + [xs[|xs| - 1]];
    }
  }

  lemma {:induction false} ValuesSilent(acc: Violations, file: string, scope: FullName, vs: seq<EnumValue>,
                                        ws: seq<EnumValue>)
    ensures Grown(acc, ValuesReport(acc, file, scope, vs, ws), forall v :: v in vs ==> HasNumber(ws, v.number))
    decreases vs
  {
    if vs != [] {
      ValuesSilent(acc, file, scope, vs[..|vs| - 1], ws);
      assert vs == vs[..|vs| - 1] + [vs[|vs| - 1]];
    }
  }

  ghost predicate EnumKept(e: Enum, ds: seq<Enum>) {
    forall x :: EnumStates(e, x) ==> SomeEnumStates(ds, e.name, x)
  }

  ghost predicate EnumsKept(es: seq<Enum>, ds: seq<Enum>) {
    forall e :: e in es ==> EnumKept(e, ds)
  }

  lemma EnumSilent(acc: Violations, file: string, scope: FullName, e: Enum, ds: seq<Enum>)
    requires WellFormedEnums(ds)
    ensures Grown(acc, EnumReport(acc, file, scope, e, ds), EnumKept(e, ds))
  {
    EnumByNameExact(ds, e.name);
    var n := EnumByName(ds, e.name);
    if n.None? {
      assert EnumStates(e, EnumHere) && !SomeEnumStates(ds, e.name, EnumHere);
    } else {
      ValuesSilent(acc, file, scope, e.values, n.value.values);
      forall x ensures SomeEnumStates(ds, e.name, x) <==> EnumStates(n.value, x) { }
      if EnumKept(e, ds) {
        forall v | v in e.values ensures HasNumber(n.value.values, v.number) {
          assert EnumStates(e, HasValue(v.number));
        }
      } else {
        var x :| EnumStates(e, x) && !SomeEnumStates(ds, e.name, x);
        assert x.HasValue?;
      }
    }
  }

  lemma {:induction false} EnumsSilent(acc: Violations, file: string, scope: FullName, es: seq<Enum>, ds: seq<Enum>)
    requires WellFormedEnums(ds)
    ensures Grown(acc, EnumsReport(acc, file, scope, es, ds), EnumsKept(es, ds))
    decreases es
  {
    if es != [] {
      var last := es[|es| - 1];
      EnumsSilent(acc, file, scope, es[..|es| - 1], ds);
      EnumSilent(EnumsReport(acc, file, scope, es[..|es| - 1], ds), file, scope, last, ds);
      assert es == es[..|es| - 1] + [last];
      assert EnumsKept(es, ds) <==> EnumsKept(es[..|es| - 1], ds) && EnumKept(last, ds);
    }
  }

  ghost predicate MessageKept(m: Message, ns: seq<Message>) {
    forall x :: MessageStates(m, x) ==> SomeMessageStates(ns, m.name, x)
  }

  ghost predicate MessagesKept(ms: seq<Message>, ns: seq<Message>) {
    forall m :: m in ms ==> MessageKept(m, ns)
  }

  ghost predicate AllIncluded(m: Message, n: Message) {
    forall x :: MessageStates(m, x) ==> MessageStates(n, x)
  }

  /** Inclusion of the facts of two messages, member list by member list. */
  lemma IncludedByParts(m: Message, n: Message)
    ensures AllIncluded(m, n) <==>
            FieldsKept(m.fields, n) && MessagesKept(m.messages, n.messages) &&
            EnumsKept(m.enums, n.enums) && forall x :: x in m.oneofs ==> x in n.oneofs
  {
    if AllIncluded(m, n) {
      forall f | f in m.fields ensures MessageStates(n, FieldFact(f)) { assert MessageStates(m, FieldFact(f)); }
      forall k, x | k in m.messages && MessageStates(k, x) ensures SomeMessageStates(n.messages, k.name, x) {
        assert MessageStates(m, OfMessage(k.name, x));
        assert MessageStates(n, OfMessage(k.name, x));
      }
      forall e, x | e in m.enums && EnumStates(e, x) ensures SomeEnumStates(n.enums, e.name, x) {
        assert MessageStates(m, OfEnum(e.name, x));
        assert MessageStates(n, OfEnum(e.name, x));
      }
      forall o | o in m.oneofs ensures o in n.oneofs {
        assert MessageStates(m, HasOneof(o));
        assert MessageStates(n, HasOneof(o));
      }
    }
    if FieldsKept(m.fields, n) && MessagesKept(m.messages, n.messages) && EnumsKept(m.enums, n.enums) &&
       (forall x :: x in m.oneofs ==> x in n.oneofs) {
      forall x | MessageStates(m, x) ensures MessageStates(n, x) { StatesByParts(m, n, x); }
    }
  }

  lemma StatesByParts(m: Message, n: Message, x: MessageFact)
    requires FieldsKept(m.fields, n) && MessagesKept(m.messages, n.messages) && EnumsKept(m.enums, n.enums)
    requires forall o :: o in m.oneofs ==> o in n.oneofs
    requires MessageStates(m, x)
    ensures MessageStates(n, x)
  {
    match x
    case MessageHere =>
    case HasField(_, _, _, _, _) =>
    case HasOneof(_) =>
    case OfEnum(name, y) =>
      var e :| e in m.enums && e.name == name && EnumStates(e, y);
      assert EnumKept(e, n.enums);
    case OfMessage(name, y) =>
      var k :| k in m.messages && k.name == name && MessageStates(k, y);
      assert MessageKept(k, n.messages);
  }

  lemma MessageKeptByName(m: Message, ns: seq<Message>)
    requires NamesApart(ns)
    ensures var n := MessageByName(ns, m.name); MessageKept(m, ns) <==> n.Some? && AllIncluded(m, n.value)
  {
    MessageByNameComplete(ns, m.name);
    var n := MessageByName(ns, m.name);
    if n.None? {
      assert MessageStates(m, MessageHere) && !SomeMessageStates(ns, m.name, MessageHere);
    } else {
      forall x ensures SomeMessageStates(ns, m.name, x) <==> MessageStates(n.value, x) { }
    }
  }

  lemma {:induction false} MessageSilent(acc: Violations, file: string, scope: FullName, m: Message, ns: seq<Message>)
    requires WellFormedMessages(ns)
    ensures Grown(acc, MessageReport(acc, file, scope, m, ns), MessageKept(m, ns))
    decreases m, 1
  {
    MessageKeptByName(m, ns);
    var found := MessageByName(ns, m.name);
    if found.Some? {
      var n, full := found.value, scope + [m.name];
      IncludedByParts(m, n);
      var a := FieldsReport(acc, file, full, m.fields, n.fields);
      FieldsSilent(acc, file, full, m.fields, n);
      var b := MessagesReport(a, file, full, m.messages, n.messages);
      MessagesSilent(a, file, full, m.messages, n.messages);
      var c := EnumsReport(b, file, full, m.enums, n.enums);
      EnumsSilent(b, file, full, m.enums, n.enums);
      OneofsSilent(c, file, full, m.oneofs, n.oneofs);
    }
  }

  lemma {:induction false} MessagesSilent(acc: Violations, file: string, scope: FullName, ms: seq<Message>,
                                          ns: seq<Message>)
    requires WellFormedMessages(ns)
    ensures Grown(acc, MessagesReport(acc, file, scope, ms, ns), MessagesKept(ms, ns))
    decreases ms, 0
  {
    if ms != [] {
      var last := ms[|ms| - 1];
      MessagesSilent(acc, file, scope, ms[..|ms| - 1], ns);
      MessageSilent(MessagesReport(acc, file, scope, ms[..|ms| - 1], ns), file, scope, last, ns);
      assert ms == ms[..|ms| - 1] + [last];
      assert MessagesKept(ms, ns) <==> MessagesKept(ms[..|ms| - 1], ns) && MessageKept(last, ns);
    }
  }

  ghost predicate MethodsApart(rs: seq<Rpc>) {
    forall r, q :: r in rs && q in rs && r.name == q.name ==> r == q
  }

  lemma {:induction false} MethodsSilent(acc: Violations, file: string, owner: FullName, rs: seq<Rpc>, qs: seq<Rpc>)
    requires MethodsApart(qs)
    ensures Grown(acc, MethodsReport(acc, file, owner, rs, qs), forall r :: r in rs ==> r in qs)
    decreases rs
  {
    if rs != [] {
      var last := rs[|rs| - 1];
      MethodsSilent(acc, file, owner, rs[..|rs| - 1], qs);
      MethodKept(qs, last);
      assert rs == rs[..|rs| - 1] + [last];
    }
  }

  lemma MethodKept(qs: seq<Rpc>, r: Rpc)
    requires MethodsApart(qs)
    ensures r in qs <==> RpcByName(qs, r.name) == Some(r)
  {
    RpcByNameComplete(qs, r.name);
  }

  ghost predicate ServiceKept(s: Service, ts: seq<Service>) {
    forall x :: ServiceStates(s, x) ==> SomeServiceStates(ts, s.name, x)
  }

  ghost predicate ServicesKept(ss: seq<Service>, ts: seq<Service>) {
    forall s :: s in ss ==> ServiceKept(s, ts)
  }

  lemma ServiceSilent(acc: Violations, file: string, scope: FullName, s: Service, ts: seq<Service>)
    requires WellFormedServices(ts)
    ensures Grown(acc, ServiceReport(acc, file, scope, s, ts), ServiceKept(s, ts))
  {
    var n := ServiceByName(ts, s.name);
    if n.None? {
      assert ServiceStates(s, ServiceHere) && !SomeServiceStates(ts, s.name, ServiceHere);
    } else {
      MethodsSilent(acc, file, scope + [s.name], s.methods, n.value.methods);
      forall x ensures SomeServiceStates(ts, s.name, x) <==> ServiceStates(n.value, x) { }
      if ServiceKept(s, ts) {
        forall r | r in s.methods ensures r in n.value.methods {
          assert ServiceStates(s, HasMethod(r.name, r.input, r.output));
          assert Rpc(r.name, r.input, r.output) == r;
        }
      } else {
        var x :| ServiceStates(s, x) && !SomeServiceStates(ts, s.name, x);
        assert x.HasMethod?;
      }
    }
  }

  lemma {:induction false} ServicesSilent(acc: Violations, file: string, scope: FullName, ss: seq<Service>,
                                          ts: seq<Service>)
    requires WellFormedServices(ts)
    ensures Grown(acc, ServicesReport(acc, file, scope, ss, ts), ServicesKept(ss, ts))
    decreases ss
  {
    if ss != [] {
      var last := ss[|ss| - 1];
      ServicesSilent(acc, file, scope, ss[..|ss| - 1], ts);
      ServiceSilent(ServicesReport(acc, file, scope, ss[..|ss| - 1], ts), file, scope, last, ts);
      assert ss == ss[..|ss| - 1] + [last];
      assert ServicesKept(ss, ts) <==> ServicesKept(ss[..|ss| - 1], ts) && ServiceKept(last, ts);
    }
  }

  ghost predicate FileKept(f: File, t: Tree) {
    forall x :: FileStates(f, x) ==> TreeStates(t, x)
  }

  lemma FileKeptByParts(f: File, g: File)
    requires f.path == g.path
    ensures (forall x :: FileStates(f, x) ==> FileStates(g, x)) <==>
            MessagesKept(f.messages, g.messages) && EnumsKept(f.enums, g.enums) && ServicesKept(f.services, g.services)
  {
    if forall x :: FileStates(f, x) ==> FileStates(g, x) {
      forall m, x | m in f.messages && MessageStates(m, x) ensures SomeMessageStates(g.messages, m.name, x) {
        assert FileStates(f, TopMessage(f.path, m.name, x));
        assert FileStates(g, TopMessage(f.path, m.name, x));
      }
      forall e, x | e in f.enums && EnumStates(e, x) ensures SomeEnumStates(g.enums, e.name, x) {
        assert FileStates(f, TopEnum(f.path, e.name, x));
        assert FileStates(g, TopEnum(f.path, e.name, x));
      }
      forall s, x | s in f.services && ServiceStates(s, x) ensures SomeServiceStates(g.services, s.name, x) {
        assert FileStates(f, TopService(f.path, s.name, x));
        assert FileStates(g, TopService(f.path, s.name, x));
      }
    }
    if MessagesKept(f.messages, g.messages) && EnumsKept(f.enums, g.enums) && ServicesKept(f.services, g.services) {
      forall x | FileStates(f, x) ensures FileStates(g, x) {
        match x
        case FileHere(_) =>
        case TopMessage(_, name, y) =>
          var m :| m in f.messages && m.name == name && MessageStates(m, y);
          assert MessageKept(m, g.messages);
        case TopEnum(_, name, y) =>
          var e :| e in f.enums && e.name == name && EnumStates(e, y);
          assert EnumKept(e, g.enums);
        case TopService(_, name, y) =>
          var s :| s in f.services && s.name == name && ServiceStates(s, y);
          assert ServiceKept(s, g.services);
      }
    }
  }

  lemma FileSilent(acc: Violations, f: File, t: Tree)
    requires WellFormed(t)
    ensures var g := FileByPath(t, f.path);
            var report := if g.None? then acc + [Violation(f.path, [], FileNoDelete)] else FileReport(acc, f, g.value);
            Grown(acc, report, FileKept(f, t))
  {
    var found := FileByPath(t, f.path);
    if found.None? {
      assert FileStates(f, FileHere(f.path)) && !TreeStates(t, FileHere(f.path));
    } else {
      var g := found.value;
      forall x | FileStates(f, x) ensures TreeStates(t, x) <==> FileStates(g, x) { }
      FileKeptByParts(f, g);
      var a := MessagesReport(acc, f.path, f.pkg, f.messages, g.messages);
      MessagesSilent(acc, f.path, f.pkg, f.messages, g.messages);
      var b := EnumsReport(a, f.path, f.pkg, f.enums, g.enums);
      EnumsSilent(a, f.path, f.pkg, f.enums, g.enums);
      ServicesSilent(b, f.path, f.pkg, f.services, g.services);
    }
  }

  lemma {:induction false} TreeSilent(acc: Violations, o: Tree, n: Tree)
    requires WellFormed(n)
    ensures Grown(acc, TreeReport(acc, o, n), Compatible(o, n))
    decreases o
  {
    if o != [] {
      var init, last := o[..|o| - 1], o[|o| - 1];
      TreeSilent(acc, init, n);
      FileSilent(TreeReport(acc, init, n), last, n);
      assert o == init + [last];
      forall x ensures TreeStates(o, x) <==> TreeStates(init, x) || FileStates(last, x) { }
      assert Compatible(o, n) <==> Compatible(init, n) && FileKept(last, n);
    }
  }

  /** Check reports nothing exactly when every fact of the old tree is a fact of the new one. */
  lemma CheckExact(o: Tree, n: Tree)
    requires WellFormed(n)
    ensures Passes(Some(o), n) <==> Compatible(o, n)
  {
    TreeSilent([], o, n);
  }

  lemma CompatibleReflexive(t: Tree)
    ensures Compatible(t, t)
  {
  }

  lemma CompatibleTransitive(a: Tree, b: Tree, c: Tree)
    requires Compatible(a, b) && Compatible(b, c)
    ensures Compatible(a, c)
  {
  }

  /** So the checker is reflexive and transitive on the trees the protobuf library admits. */
  lemma CheckPreorder(a: Tree, b: Tree, c: Tree)
    requires WellFormed(a) && WellFormed(b) && WellFormed(c)
    ensures Passes(Some(a), a)
    ensures Passes(Some(a), b) && Passes(Some(b), c) ==> Passes(Some(a), c)
  {
    CompatibleReflexive(a);
    CheckExact(a, a);
    if Passes(Some(a), b) && Passes(Some(b), c) {
      CheckExact(a, b);
      CheckExact(b, c);
      CompatibleTransitive(a, b, c);
      CheckExact(a, c);
    }
  }
}
