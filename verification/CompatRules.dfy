/**
 Which violations the compatibility checker reports: for each of its fifteen rules, what the old and
 the new tree look like at the reported position.
 */
module CompatRules {
  import opened Descriptors
  import opened FileLookup
  import opened Compat

  // ---------------------------------------------------------------------------
  // The rules, said of the two trees
  // ---------------------------------------------------------------------------

  /** `m` is the message with these names, outermost first, among or inside the messages `ms`. */
  ghost predicate MessageAt(ms: seq<Message>, names: FullName, m: Message)
    decreases |names|
  {
    names != [] && exists n :: n in ms && AtOrIn(n, names, m)
  }

  ghost predicate AtOrIn(n: Message, names: FullName, m: Message)
    requires names != []
    decreases |names|, 0
  {
    n.name == names[0] && if |names| == 1 then m == n else MessageAt(n.messages, names[1..], m)
  }

  ghost predicate HasMessageAt(ms: seq<Message>, names: FullName) {
    exists m :: MessageAt(ms, names, m)
  }

  /** The message is gone while the message around it, if there is one, is still there. */
  ghost predicate MessageGone(ms: seq<Message>, ns: seq<Message>, names: FullName) {
    && HasMessageAt(ms, names) && !HasMessageAt(ns, names)
    && (|names| > 1 ==> HasMessageAt(ns, names[..|names| - 1]))
  }

  /** Fields are matched by number. */
  ghost predicate FieldBroken(rule: Rule, f: Field, gs: seq<Field>) {
    match rule
    case FieldNoDelete => forall g :: g in gs ==> g.number != f.number
    case FieldSameType => exists g :: g in gs && g.number == f.number && g.kind != f.kind
    case FieldSameName => exists g :: g in gs && g.number == f.number && g.name != f.name
    case FieldSameCardinality => exists g :: g in gs && g.number == f.number && g.cardinality != f.cardinality
    case FieldSameMessageType => f.kind.MessageKind? && exists g ::
      g in gs && g.number == f.number && g.kind.MessageKind? && g.typeName != f.typeName
    case FieldSameEnumType => f.kind.EnumKind? && exists g ::
      g in gs && g.number == f.number && g.kind.EnumKind? && g.typeName != f.typeName
    case _ => false
  }

  /** Enums are matched by name, their values by number; a value has the scope of its enum. */
  ghost predicate EnumsBroken(scope: FullName, es: seq<Enum>, ds: seq<Enum>, path: FullName, rule: Rule) {
    match rule
    case EnumNoDelete => exists e :: e in es && path == scope + [e.name] && forall d :: d in ds ==> d.name != e.name
    case EnumValueNoDelete => exists e, d, v ::
      e in es && d in ds && d.name == e.name && v in e.values && path == scope + [v.name] &&
        !HasNumber(d.values, v.number)
    case _ => false
  }

  /** A field, a oneof or an enum of a message that is in both files. */
  ghost predicate PairBroken(full: FullName, m: Message, n: Message, path: FullName, rule: Rule) {
    || (exists f :: f in m.fields && path == full + [f.name] && FieldBroken(rule, f, n.fields))
    || (rule == OneofNoDelete && exists x :: x in m.oneofs && path == full + [x] && x !in n.oneofs)
    || EnumsBroken(full, m.enums, n.enums, path, rule)
  }

  ghost predicate PairAt(scope: FullName, ms: seq<Message>, ns: seq<Message>, names: FullName, m: Message, n: Message,
                         path: FullName, rule: Rule)
  {
    MessageAt(ms, names, m) && MessageAt(ns, names, n) && PairBroken(scope + names, m, n, path, rule)
  }

  ghost predicate MessagesBroken(scope: FullName, ms: seq<Message>, ns: seq<Message>, path: FullName, rule: Rule) {
    || (rule == MessageNoDelete && exists names :: MessageGone(ms, ns, names) && path == scope + names)
    || (exists names, m, n :: PairAt(scope, ms, ns, names, m, n, path, rule))
  }

  /** Services and methods are matched by name. */
  ghost predicate MethodBroken(rule: Rule, r: Rpc, qs: seq<Rpc>) {
    match rule
    case MethodNoDelete => forall q :: q in qs ==> q.name != r.name
    case MethodSameInputType => exists q :: q in qs && q.name == r.name && q.input != r.input
    case MethodSameOutputType => exists q :: q in qs && q.name == r.name && q.output != r.output
    case _ => false
  }

  ghost predicate ServicesBroken(scope: FullName, ss: seq<Service>, ts: seq<Service>, path: FullName, rule: Rule) {
    || (rule == ServiceNoDelete &&
        exists s :: s in ss && path == scope + [s.name] && forall t :: t in ts ==> t.name != s.name)
    || (exists s, t, r :: s in ss && t in ts && t.name == s.name && r in s.methods &&
                          path == scope + [s.name] + [r.name] && MethodBroken(rule, r, t.methods))
  }

  ghost predicate FileBroken(f: File, g: File, path: FullName, rule: Rule) {
    || MessagesBroken(f.pkg, f.messages, g.messages, path, rule)
    || EnumsBroken(f.pkg, f.enums, g.enums, path, rule)
    || ServicesBroken(f.pkg, f.services, g.services, path, rule)
  }

  /** The violation says how a file of the old tree fares in the new one; files are matched by path. */
  ghost predicate Holds(o: Tree, n: Tree, v: Violation) {
    exists f :: f in o && f.path == v.file && FileFares(f, n, v.path, v.rule)
  }

  ghost predicate FileFares(f: File, n: Tree, path: FullName, rule: Rule) {
    || (rule == FileNoDelete && path == [] && forall g :: g in n ==> g.path != f.path)
    || (exists g :: g in n && g.path == f.path && FileBroken(f, g, path, rule))
  }

  // ---------------------------------------------------------------------------
  // Fields, oneofs and enums
  // ---------------------------------------------------------------------------

  lemma FieldMembers(acc: Violations, file: string, owner: FullName, f: Field, gs: seq<Field>, v: Violation)
    requires WellFormedFields(gs)
    ensures v in FieldReport(acc, file, owner, f, gs) <==>
            v in acc || (v.file == file && v.path == owner + [f.name] && FieldBroken(v.rule, f, gs))
  {
    var n := FieldByNumber(gs, f.number);
    if n.Some? { FieldMatched(v.rule, f, gs, n.value); }
  }

  /** What the rules say once the field of that number is known. */
  lemma FieldMatched(rule: Rule, f: Field, gs: seq<Field>, g: Field)
    requires WellFormedFields(gs) && g in gs && g.number == f.number
    ensures FieldBroken(rule, f, gs) <==>
            || (rule == FieldSameType && g.kind != f.kind)
            || (rule == FieldSameName && g.name != f.name)
            || (rule == FieldSameCardinality && g.cardinality != f.cardinality)
            || (rule == FieldSameMessageType && f.kind.MessageKind? && g.kind.MessageKind? && g.typeName != f.typeName)
            || (rule == FieldSameEnumType && f.kind.EnumKind? && g.kind.EnumKind? && g.typeName != f.typeName)
  {
    assert forall h :: h in gs && h.number == f.number ==> h == g;
  }

  ghost predicate AnyField(owner: FullName, fs: seq<Field>, gs: seq<Field>, path: FullName, rule: Rule) {
    exists f :: f in fs && path == owner + [f.name] && FieldBroken(rule, f, gs)
  }

  lemma {:induction false} FieldsMembers(acc: Violations, file: string, owner: FullName, fs: seq<Field>, gs: seq<Field>,
                                         v: Violation)
    requires WellFormedFields(gs)
    ensures v in FieldsReport(acc, file, owner, fs, gs) <==>
            v in acc || (v.file == file && AnyField(owner, fs, gs, v.path, v.rule))
    decreases fs
  {
    if fs != [] {
      var init, last := fs[..|fs| - 1], fs[|fs| - 1];
      FieldsMembers(acc, file, owner, init, gs, v);
      FieldMembers(FieldsReport(acc, file, owner, init, gs), file, owner, last, gs, v);
      assert fs == init + [last];
    }
  }

  ghost predicate AnyOneof(owner: FullName, xs: seq<Name>, ys: seq<Name>, path: FullName, rule: Rule) {
    rule == OneofNoDelete && exists x :: x in xs && path == owner + [x] && x !in ys
  }

  lemma {:induction false} OneofsMembers(acc: Violations, file: string, owner: FullName, xs: seq<Name>, ys: seq<Name>,
                                         v: Violation)
    ensures v in OneofsReport(acc, file, owner, xs, ys) <==>
            v in acc || (v.file == file && AnyOneof(owner, xs, ys, v.path, v.rule))
    decreases xs
  {
    if xs != [] {
      var init, last := xs[..|xs| - 1], xs[|xs| - 1];
      OneofsMembers(acc, file, owner, init, ys, v);
      assert xs == init + [last];
    }
  }

  ghost predicate AnyValue(scope: FullName, vs: seq<EnumValue>, ws: seq<EnumValue>, path: FullName, rule: Rule) {
    rule == EnumValueNoDelete && exists x :: x in vs && path == scope + [x.name] && !HasNumber(ws, x.number)
  }

  lemma {:induction false} ValuesMembers(acc: Violations, file: string, scope: FullName, vs: seq<EnumValue>,
                                         ws: seq<EnumValue>, v: Violation)
    ensures v in ValuesReport(acc, file, scope, vs, ws) <==>
            v in acc || (v.file == file && AnyValue(scope, vs, ws, v.path, v.rule))
    decreases vs
  {
    if vs != [] {
      var init, last := vs[..|vs| - 1], vs[|vs| - 1];
      ValuesMembers(acc, file, scope, init, ws, v);
      assert vs == init + [last];
    }
  }

  lemma EnumMembers(acc: Violations, file: string, scope: FullName, e: Enum, ds: seq<Enum>, v: Violation)
    requires WellFormedEnums(ds)
    ensures v in EnumReport(acc, file, scope, e, ds) <==>
            v in acc || (v.file == file && EnumsBroken(scope, [e], ds, v.path, v.rule))
  {
    EnumByNameExact(ds, e.name);
    var n := EnumByName(ds, e.name);
    assert e in [e];
    if n.Some? {
      ValuesMembers(acc, file, scope, e.values, n.value.values, v);
      assert forall d :: d in ds && d.name == e.name ==> d == n.value;
    }
  }

  lemma {:induction false} EnumsMembers(acc: Violations, file: string, scope: FullName, es: seq<Enum>, ds: seq<Enum>,
                                        v: Violation)
    requires WellFormedEnums(ds)
    ensures v in EnumsReport(acc, file, scope, es, ds) <==>
            v in acc || (v.file == file && EnumsBroken(scope, es, ds, v.path, v.rule))
    decreases es
  {
    if es != [] {
      var init, last := es[..|es| - 1], es[|es| - 1];
      EnumsMembers(acc, file, scope, init, ds, v);
      EnumMembers(EnumsReport(acc, file, scope, init, ds), file, scope, last, ds, v);
      assert es == init + [last];
      assert EnumsBroken(scope, es, ds, v.path, v.rule) <==>
             EnumsBroken(scope, init, ds, v.path, v.rule) || EnumsBroken(scope, [last], ds, v.path, v.rule);
    }
  }

  // ---------------------------------------------------------------------------
  // Services
  // ---------------------------------------------------------------------------

  ghost predicate AnyMethod(owner: FullName, rs: seq<Rpc>, qs: seq<Rpc>, path: FullName, rule: Rule) {
    exists r :: r in rs && path == owner + [r.name] && MethodBroken(rule, r, qs)
  }

  lemma MethodMembers(acc: Violations, file: string, owner: FullName, r: Rpc, qs: seq<Rpc>, v: Violation)
    requires MethodsApart(qs)
    ensures v in MethodReport(acc, file, owner, r, qs) <==>
            v in acc || (v.file == file && v.path == owner + [r.name] && MethodBroken(v.rule, r, qs))
  {
    RpcByNameComplete(qs, r.name);
    var n := RpcByName(qs, r.name);
    if n.Some? { assert forall q :: q in qs && q.name == r.name ==> q == n.value; }
  }

  lemma {:induction false} MethodsMembers(acc: Violations, file: string, owner: FullName, rs: seq<Rpc>, qs: seq<Rpc>,
                                          v: Violation)
    requires MethodsApart(qs)
    ensures v in MethodsReport(acc, file, owner, rs, qs) <==>
            v in acc || (v.file == file && AnyMethod(owner, rs, qs, v.path, v.rule))
    decreases rs
  {
    if rs != [] {
      var init, last := rs[..|rs| - 1], rs[|rs| - 1];
      MethodsMembers(acc, file, owner, init, qs, v);
      MethodMembers(MethodsReport(acc, file, owner, init, qs), file, owner, last, qs, v);
      assert rs == init + [last];
    }
  }

  lemma ServiceMembers(acc: Violations, file: string, scope: FullName, s: Service, ts: seq<Service>, v: Violation)
    requires WellFormedServices(ts)
    ensures v in ServiceReport(acc, file, scope, s, ts) <==>
            v in acc || (v.file == file && ServicesBroken(scope, [s], ts, v.path, v.rule))
  {
    var n := ServiceByName(ts, s.name);
    assert s in [s];
    if n.Some? {
      MethodsMembers(acc, file, scope + [s.name], s.methods, n.value.methods, v);
      assert forall t :: t in ts && t.name == s.name ==> t == n.value;
    }
  }

  lemma {:induction false} ServicesMembers(acc: Violations, file: string, scope: FullName, ss: seq<Service>,
                                           ts: seq<Service>, v: Violation)
    requires WellFormedServices(ts)
    ensures v in ServicesReport(acc, file, scope, ss, ts) <==>
            v in acc || (v.file == file && ServicesBroken(scope, ss, ts, v.path, v.rule))
    decreases ss
  {
    if ss != [] {
      var init, last := ss[..|ss| - 1], ss[|ss| - 1];
      ServicesMembers(acc, file, scope, init, ts, v);
      ServiceMembers(ServicesReport(acc, file, scope, init, ts), file, scope, last, ts, v);
      assert ss == init + [last];
      assert ServicesBroken(scope, ss, ts, v.path, v.rule) <==>
             ServicesBroken(scope, init, ts, v.path, v.rule) || ServicesBroken(scope, [last], ts, v.path, v.rule);
    }
  }

  // ---------------------------------------------------------------------------
  // Messages, at any depth
  // ---------------------------------------------------------------------------

  /** The names lead to or into a message exactly as they lead to or into the one message of that name. */
  lemma OnlyOne(ns: seq<Message>, n: Message, names: FullName, x: Message)
    requires NamesApart(ns) && n in ns && names != [] && names[0] == n.name
    ensures MessageAt(ns, names, x) <==> AtOrIn(n, names, x)
  {
  }

  lemma NoneOfThatName(ns: seq<Message>, names: FullName, x: Message)
    requires names != [] && forall n :: n in ns ==> n.name != names[0]
    ensures !MessageAt(ns, names, x)
  {
  }

  /** Without a message of that name in the new file, the one violation is its removal. */
  lemma RemovedMessage(scope: FullName, m: Message, ns: seq<Message>, path: FullName, rule: Rule)
    requires forall n :: n in ns ==> n.name != m.name
    ensures MessagesBroken(scope, [m], ns, path, rule) <==> rule == MessageNoDelete && path == scope + [m.name]
  {
    forall names, x | MessageAt([m], names, x) ensures names[0] == m.name { StartsWith(m, names, x); }
    forall names, x | names != [] && names[0] == m.name ensures !MessageAt(ns, names, x) {
      NoneOfThatName(ns, names, x);
    }
    var only := [m.name];
    assert AtOrIn(m, only, m) && MessageAt([m], only, m);
    assert MessageGone([m], ns, only);
    forall names | MessageGone([m], ns, names) ensures names == only {
      var x :| MessageAt([m], names, x);
      StartsWith(m, names, x);
    }
  }

  /** The pairs of messages at or in `m` and its counterpart `n`. */
  lemma PairsBelow(scope: FullName, m: Message, ns: seq<Message>, n: Message, rest: FullName, x: Message, y: Message,
                   path: FullName, rule: Rule)
    requires NamesApart(ns) && n in ns && n.name == m.name
    ensures PairAt(scope, [m], ns, [m.name] + rest, x, y, path, rule) <==>
            if rest == [] then x == m && y == n && PairBroken(scope + [m.name], m, n, path, rule)
            else PairAt(scope + [m.name], m.messages, n.messages, rest, x, y, path, rule)
  {
    var names := [m.name] + rest;
    assert names[1..] == rest && scope + names == scope + [m.name] + rest;
    OnlyOne([m], m, names, x);
    OnlyOne(ns, n, names, y);
    if rest == [] { assert names == [m.name]; }
  }

  lemma HasBelow(ns: seq<Message>, n: Message, rest: FullName)
    requires NamesApart(ns) && n in ns
    ensures HasMessageAt(ns, [n.name] + rest) <==> rest == [] || HasMessageAt(n.messages, rest)
  {
    var names := [n.name] + rest;
    assert names[1..] == rest;
    forall x ensures MessageAt(ns, names, x) <==> AtOrIn(n, names, x) { OnlyOne(ns, n, names, x); }
    if rest == [] {
      assert AtOrIn(n, names, n) && MessageAt(ns, names, n);
    } else {
      forall x ensures MessageAt(ns, names, x) <==> MessageAt(n.messages, rest, x) { }
    }
  }

  lemma GoneBelow(m: Message, ns: seq<Message>, n: Message, rest: FullName)
    requires NamesApart(ns) && n in ns && n.name == m.name
    ensures MessageGone([m], ns, [m.name] + rest) <==> rest != [] && MessageGone(m.messages, n.messages, rest)
  {
    HasBelow([m], m, rest);
    HasBelow(ns, n, rest);
    if rest != [] {
      var names := [m.name] + rest;
      assert names[..|names| - 1] == [m.name] + rest[..|rest| - 1];
      HasBelow(ns, n, rest[..|rest| - 1]);
    }
  }

  lemma StartsWith(m: Message, names: FullName, x: Message)
    requires MessageAt([m], names, x)
    ensures names == [m.name] + names[1..]
  {
    var n :| n in [m] && AtOrIn(n, names, x);
  }

  /** With a counterpart, it is a violation of the pair or of something inside it. */
  lemma KeptMessage(scope: FullName, m: Message, ns: seq<Message>, n: Message, path: FullName, rule: Rule)
    requires NamesApart(ns) && n in ns && n.name == m.name
    ensures MessagesBroken(scope, [m], ns, path, rule) <==>
            PairBroken(scope + [m.name], m, n, path, rule) ||
            MessagesBroken(scope + [m.name], m.messages, n.messages, path, rule)
  {
    if MessagesBroken(scope, [m], ns, path, rule) { BrokenBelow(scope, m, ns, n, path, rule); }
    if PairBroken(scope + [m.name], m, n, path, rule) {
      PairsBelow(scope, m, ns, n, [], m, n, path, rule);
      assert PairAt(scope, [m], ns, [m.name] + [], m, n, path, rule);
    }
    if MessagesBroken(scope + [m.name], m.messages, n.messages, path, rule) {
      BrokenAbove(scope, m, ns, n, path, rule);
    }
  }

  lemma BrokenBelow(scope: FullName, m: Message, ns: seq<Message>, n: Message, path: FullName, rule: Rule)
    requires NamesApart(ns) && n in ns && n.name == m.name && MessagesBroken(scope, [m], ns, path, rule)
    ensures PairBroken(scope + [m.name], m, n, path, rule) ||
            MessagesBroken(scope + [m.name], m.messages, n.messages, path, rule)
  {
    if names, x, y :| PairAt(scope, [m], ns, names, x, y, path, rule) {
      StartsWith(m, names, x);
      PairsBelow(scope, m, ns, n, names[1..], x, y, path, rule);
    } else {
      var names :| MessageGone([m], ns, names) && path == scope + names;
      var x :| MessageAt([m], names, x);
      StartsWith(m, names, x);
      GoneBelow(m, ns, n, names[1..]);
      assert path == scope + [m.name] + names[1..];
    }
  }

  lemma BrokenAbove(scope: FullName, m: Message, ns: seq<Message>, n: Message, path: FullName, rule: Rule)
    requires NamesApart(ns) && n in ns && n.name == m.name
    requires MessagesBroken(scope + [m.name], m.messages, n.messages, path, rule)
    ensures MessagesBroken(scope, [m], ns, path, rule)
  {
    if rest, x, y :| PairAt(scope + [m.name], m.messages, n.messages, rest, x, y, path, rule) {
      PairsBelow(scope, m, ns, n, rest, x, y, path, rule);
      assert PairAt(scope, [m], ns, [m.name] + rest, x, y, path, rule);
    } else {
      var rest :| MessageGone(m.messages, n.messages, rest) && path == scope + [m.name] + rest;
      GoneBelow(m, ns, n, rest);
      assert path == scope + ([m.name] + rest);
    }
  }

  lemma BrokenSplit(scope: FullName, init: seq<Message>, last: Message, ns: seq<Message>, path: FullName, rule: Rule)
    ensures MessagesBroken(scope, init + [last], ns, path, rule) <==>
            MessagesBroken(scope, init, ns, path, rule) || MessagesBroken(scope, [last], ns, path, rule)
  {
    var ms := init + [last];
    forall names, x ensures MessageAt(ms, names, x) <==> MessageAt(init, names, x) || MessageAt([last], names, x) {
      assert forall n :: n in ms <==> n in init || n in [last];
    }
    forall names
      ensures MessageGone(ms, ns, names) <==> MessageGone(init, ns, names) || MessageGone([last], ns, names) {
    }
    forall names, x, y
      ensures PairAt(scope, ms, ns, names, x, y, path, rule) <==>
              PairAt(scope, init, ns, names, x, y, path, rule) || PairAt(scope, [last], ns, names, x, y, path, rule)
    {
    }
  }

  lemma {:induction false} MessageMembers(acc: Violations, file: string, scope: FullName, m: Message, ns: seq<Message>,
                                          v: Violation)
    requires WellFormedMessages(ns)
    ensures v in MessageReport(acc, file, scope, m, ns) <==>
            v in acc || (v.file == file && MessagesBroken(scope, [m], ns, v.path, v.rule))
    decreases m, 1
  {
    MessageByNameComplete(ns, m.name);
    var found := MessageByName(ns, m.name);
    if found.None? {
      RemovedMessage(scope, m, ns, v.path, v.rule);
    } else {
      var n, full := found.value, scope + [m.name];
      assert WellFormedMessage(n);
      KeptMessage(scope, m, ns, n, v.path, v.rule);
      var a := FieldsReport(acc, file, full, m.fields, n.fields);
      FieldsMembers(acc, file, full, m.fields, n.fields, v);
      var b := MessagesReport(a, file, full, m.messages, n.messages);
      MessagesMembers(a, file, full, m.messages, n.messages, v);
      var c := EnumsReport(b, file, full, m.enums, n.enums);
      EnumsMembers(b, file, full, m.enums, n.enums, v);
      OneofsMembers(c, file, full, m.oneofs, n.oneofs, v);
    }
  }

  lemma {:induction false} MessagesMembers(acc: Violations, file: string, scope: FullName, ms: seq<Message>,
                                           ns: seq<Message>, v: Violation)
    requires WellFormedMessages(ns)
    ensures v in MessagesReport(acc, file, scope, ms, ns) <==>
            v in acc || (v.file == file && MessagesBroken(scope, ms, ns, v.path, v.rule))
    decreases ms, 0
  {
    if ms == [] {
      forall names, x ensures !MessageAt([], names, x) { }
    } else {
      var init, last := ms[..|ms| - 1], ms[|ms| - 1];
      MessagesMembers(acc, file, scope, init, ns, v);
      MessageMembers(MessagesReport(acc, file, scope, init, ns), file, scope, last, ns, v);
      assert ms == init + [last];
      BrokenSplit(scope, init, last, ns, v.path, v.rule);
    }
  }

  // ---------------------------------------------------------------------------
  // The whole report
  // ---------------------------------------------------------------------------

  lemma FileMembers(acc: Violations, f: File, g: File, v: Violation)
    requires WellFormedMessages(g.messages) && WellFormedEnums(g.enums) && WellFormedServices(g.services)
    ensures v in FileReport(acc, f, g) <==> v in acc || (v.file == f.path && FileBroken(f, g, v.path, v.rule))
  {
    var a := MessagesReport(acc, f.path, f.pkg, f.messages, g.messages);
    MessagesMembers(acc, f.path, f.pkg, f.messages, g.messages, v);
    var b := EnumsReport(a, f.path, f.pkg, f.enums, g.enums);
    EnumsMembers(a, f.path, f.pkg, f.enums, g.enums, v);
    ServicesMembers(b, f.path, f.pkg, f.services, g.services, v);
  }

  lemma OneFile(f: File, n: Tree, g: File, path: FullName, rule: Rule)
    requires WellFormed(n) && g in n && g.path == f.path
    ensures FileFares(f, n, path, rule) <==> FileBroken(f, g, path, rule)
  {
  }

  /** The checker reports a violation exactly when it holds of the two trees. */
  lemma {:induction false} ReportExact(o: Tree, n: Tree, v: Violation)
    requires WellFormed(n)
    ensures v in TreeReport([], o, n) <==> Holds(o, n, v)
    decreases o
  {
    if o != [] {
      var init, f := o[..|o| - 1], o[|o| - 1];
      ReportExact(init, n, v);
      assert o == init + [f];
      assert Holds(o, n, v) <==> Holds(init, n, v) || (f.path == v.file && FileFares(f, n, v.path, v.rule));
      var found := FileByPath(n, f.path);
      if found.Some? {
        OneFile(f, n, found.value, v.path, v.rule);
        FileMembers(TreeReport([], init, n), f, found.value, v);
      }
    }
  }

  /** Check, said of the two trees. */
  method CheckReports(o: Option<Tree>, n: Tree) returns (r: Result)
    requires WellFormed(n)
    ensures fresh(r) && forall v :: v in r.violations <==> o.Some? && Holds(o.value, n, v)
  {
    r := Check(o, n);
    if o.Some? {
      forall v ensures v in r.violations <==> Holds(o.value, n, v) { ReportExact(o.value, n, v); }
    }
  }
}
