/**
 The state of a NamespacedTypes registry as a value, the effect of each operation on it, and
 the invariant between the by-name table, the by-number extension table and the counters.
 */
module TypeIndex {
  import opened Descriptors

  datatype Types = Types(
    typesByName: map<FullName, Descriptor>,
    extensionsByMessage: map<FullName, map<int, Descriptor>>,
    numEnums: int,
    numMessages: int,
    numExtensions: int)

  const NoTypes := Types(map[], map[], 0, 0, 0)

  datatype Outcome = Done | NameTaken | NumberTaken | NotFound | ReadOnly

  /** The descriptors that have a runtime type. */
  predicate IsType(d: Descriptor) {
    d.MessageD? || d.EnumD? || d.ExtensionD?
  }

  predicate SameKind(d: Descriptor, e: Descriptor) {
    (d.MessageD? && e.MessageD?) || (d.EnumD? && e.EnumD?) || (d.ExtensionD? && e.ExtensionD?)
  }

  // ---------------------------------------------------------------------------
  // Effects
  // ---------------------------------------------------------------------------

  function AddCount(s: Types, d: Descriptor, k: int): Types {
    if d.MessageD? then s.(numMessages := s.numMessages + k)
    else if d.EnumD? then s.(numEnums := s.numEnums + k)
    else s.(numExtensions := s.numExtensions + k)
  }

  predicate SlotTaken(exts: map<FullName, map<int, Descriptor>>, x: Extension) {
    x.extendee in exts && x.number in exts[x.extendee]
  }

  function PutSlot(exts: map<FullName, map<int, Descriptor>>, d: Descriptor): map<FullName, map<int, Descriptor>>
    requires d.ExtensionD?
  {
    var x := d.extension;
    var inner := if x.extendee in exts then exts[x.extendee] else map[];
    exts[x.extendee := inner[x.number := d]]
  }

  function DropSlot(exts: map<FullName, map<int, Descriptor>>, x: Extension): map<FullName, map<int, Descriptor>> {
    if x.extendee !in exts then exts else
      var inner := exts[x.extendee] - {x.number};
      if inner.Keys == {} then exts - {x.extendee} else exts[x.extendee := inner]
  }

  function Put(s: Types, d: Descriptor): Types
    requires IsType(d)
  {
    s.(typesByName := s.typesByName[d.full := d],
       extensionsByMessage := if d.ExtensionD? then PutSlot(s.extensionsByMessage, d) else s.extensionsByMessage)
  }

  /** RegisterMessage, RegisterEnum and RegisterExtension. */
  function Register(s: Types, d: Descriptor): (Types, Outcome)
    requires IsType(d)
  {
    if d.full in s.typesByName then (s, NameTaken) else
    if d.ExtensionD? && SlotTaken(s.extensionsByMessage, d.extension) then (s, NumberTaken) else
      (AddCount(Put(s, d), d, 1), Done)
  }

  /** UpdateMessage, UpdateEnum and UpdateExtension. */
  function Update(s: Types, d: Descriptor): Types
    requires IsType(d)
  {
    if d.full in s.typesByName then Put(s, d) else AddCount(Put(s, d), d, 1)
  }

  datatype Kinds = Messages | Enums | Extensions

  predicate OfKind(d: Descriptor, k: Kinds) {
    match k
    case Messages => d.MessageD?
    case Enums => d.EnumD?
    case Extensions => d.ExtensionD?
  }

  /** UnregisterMessage, UnregisterEnum and UnregisterExtension. */
  function Unregister(s: Types, name: FullName, k: Kinds): (Types, Outcome) {
    if name !in s.typesByName || !OfKind(s.typesByName[name], k) then (s, NotFound) else
      var d := s.typesByName[name];
      var s1 := s.(typesByName := s.typesByName - {name},
                   extensionsByMessage := if d.ExtensionD? then DropSlot(s.extensionsByMessage, d.extension)
                                          else s.extensionsByMessage);
      (AddCount(s1, d, -1), Done)
  }

  // ---------------------------------------------------------------------------
  // The invariant
  // ---------------------------------------------------------------------------

  function NamesOfKind(m: map<FullName, Descriptor>, k: Kinds): set<FullName> {
    set n | n in m && OfKind(m[n], k)
  }

  ghost predicate NamesKeyed(m: map<FullName, Descriptor>) {
    forall n :: n in m ==> IsType(m[n]) && m[n].full == n
  }

  /** The slot holds the descriptor that the by-name table holds under its name, and it extends that slot. */
  ghost predicate SlotSound(m: map<FullName, Descriptor>, exts: map<FullName, map<int, Descriptor>>, t: FullName,
                            i: int)
    requires t in exts && i in exts[t]
  {
    var d := exts[t][i];
    d.ExtensionD? && d.full in m && m[d.full] == d && d.extension.extendee == t && d.extension.number == i
  }

  /** By name and by number are inverse to each other. */
  ghost predicate Inverse(m: map<FullName, Descriptor>, exts: map<FullName, map<int, Descriptor>>) {
    && (forall t :: t in exts ==> exts[t].Keys != {})
    && (forall t, i :: t in exts && i in exts[t] ==> SlotSound(m, exts, t, i))
    && (forall n :: n in m && m[n].ExtensionD? ==> Slotted(exts, m[n]))
  }

  ghost predicate Slotted(exts: map<FullName, map<int, Descriptor>>, d: Descriptor)
    requires d.ExtensionD?
  {
    SlotTaken(exts, d.extension) && exts[d.extension.extendee][d.extension.number] == d
  }

  ghost predicate Counted(s: Types) {
    && s.numMessages == |NamesOfKind(s.typesByName, Messages)|
    && s.numEnums == |NamesOfKind(s.typesByName, Enums)|
    && s.numExtensions == |NamesOfKind(s.typesByName, Extensions)|
  }

  ghost predicate Consistent(s: Types) {
    NamesKeyed(s.typesByName) && Inverse(s.typesByName, s.extensionsByMessage) && Counted(s)
  }

  /** A consistent state is determined by its table of names. */
  lemma ConsistentDetermined(a: Types, b: Types)
    requires Consistent(a) && Consistent(b) && a.typesByName == b.typesByName
    ensures a == b
  {
    var (x, y) := (a.extensionsByMessage, b.extensionsByMessage);
    SlotsIncluded(a.typesByName, x, y);
    SlotsIncluded(a.typesByName, y, x);
    forall t | t in x ensures x[t] == y[t] {
      assert x[t].Keys == y[t].Keys;
      assert forall i :: i in x[t] ==> x[t][i] == y[t][i];
    }
    assert x.Keys == y.Keys;
  }

  lemma Inhabited(inner: map<int, Descriptor>)
    requires inner.Keys != {}
    ensures exists i :: i in inner
  {
    assert (forall i :: i !in inner) ==> inner.Keys == {};
  }

  lemma SlotsIncluded(m: map<FullName, Descriptor>, x: map<FullName, map<int, Descriptor>>,
                      y: map<FullName, map<int, Descriptor>>)
    requires Inverse(m, x) && Inverse(m, y)
    ensures forall t :: t in x ==> t in y && x[t].Keys <= y[t].Keys && forall i :: i in x[t] ==> x[t][i] == y[t][i]
  {
    forall t | t in x ensures t in y && x[t].Keys <= y[t].Keys && forall i :: i in x[t] ==> x[t][i] == y[t][i] {
      forall i | i in x[t] ensures t in y && i in y[t] && x[t][i] == y[t][i] {
        assert SlotSound(m, x, t, i);
        assert Slotted(y, m[x[t][i].full]);
      }
      Inhabited(x[t]);
    }
  }

  // ---------------------------------------------------------------------------
  // What each operation does to the invariant
  // ---------------------------------------------------------------------------

  lemma NewNameCounts(m: map<FullName, Descriptor>, d: Descriptor, k: Kinds)
    requires d.full !in m
    ensures |NamesOfKind(m[d.full := d], k)| == |NamesOfKind(m, k)| + if OfKind(d, k) then 1 else 0
  {
    var m' := m[d.full := d];
    if OfKind(d, k) {
      assert NamesOfKind(m', k) == NamesOfKind(m, k) + {d.full};
    } else {
      assert NamesOfKind(m', k) == NamesOfKind(m, k);
    }
  }

  lemma DroppedNameCounts(m: map<FullName, Descriptor>, n: FullName, k: Kinds)
    requires n in m
    ensures |NamesOfKind(m - {n}, k)| == |NamesOfKind(m, k)| - if OfKind(m[n], k) then 1 else 0
  {
    if OfKind(m[n], k) {
      assert NamesOfKind(m - {n}, k) == NamesOfKind(m, k) - {n};
    } else {
      assert NamesOfKind(m - {n}, k) == NamesOfKind(m, k);
    }
  }

  /** The name is new or keeps its kind, and the extension slot is free or stays with the name. */
  ghost predicate Upsertable(s: Types, d: Descriptor)
    requires IsType(d)
  {
    && (d.full in s.typesByName ==> SameKind(s.typesByName[d.full], d))
    && (d.ExtensionD? && d.full in s.typesByName ==>
          var was := s.typesByName[d.full].extension;
          was.extendee == d.extension.extendee && was.number == d.extension.number)
    && (d.ExtensionD? && SlotTaken(s.extensionsByMessage, d.extension) ==>
          s.extensionsByMessage[d.extension.extendee][d.extension.number].full == d.full)
  }

  lemma PutInverse(m: map<FullName, Descriptor>, exts: map<FullName, map<int, Descriptor>>, d: Descriptor)
    requires d.ExtensionD? && NamesKeyed(m) && Inverse(m, exts)
    requires d.full in m ==> m[d.full].ExtensionD? && m[d.full].extension.extendee == d.extension.extendee &&
                             m[d.full].extension.number == d.extension.number
    requires SlotTaken(exts, d.extension) ==> exts[d.extension.extendee][d.extension.number].full == d.full
    ensures Inverse(m[d.full := d], PutSlot(exts, d))
  {
    var (x, m', exts') := (d.extension, m[d.full := d], PutSlot(exts, d));
    assert x.number in exts'[x.extendee];
    forall t, i | t in exts' && i in exts'[t] ensures SlotSound(m', exts', t, i) {
      if t != x.extendee || i != x.number {
        assert SlotSound(m, exts, t, i);
      }
    }
    forall n | n in m' && m'[n].ExtensionD? ensures Slotted(exts', m'[n]) {
      if n != d.full {
        assert Slotted(exts, m[n]);
        if m[n].extension.extendee == x.extendee && m[n].extension.number == x.number {
          assert false;
        }
      }
    }
  }

  lemma KeepInverse(m: map<FullName, Descriptor>, exts: map<FullName, map<int, Descriptor>>, d: Descriptor)
    requires !d.ExtensionD? && Inverse(m, exts) && (d.full in m ==> !m[d.full].ExtensionD?)
    ensures Inverse(m[d.full := d], exts)
  {
    var m' := m[d.full := d];
    forall t, i | t in exts && i in exts[t] ensures SlotSound(m', exts, t, i) { assert SlotSound(m, exts, t, i); }
  }

  lemma ReplacedKindCounts(m: map<FullName, Descriptor>, d: Descriptor, k: Kinds)
    requires d.full in m && SameKind(m[d.full], d)
    ensures NamesOfKind(m[d.full := d], k) == NamesOfKind(m, k)
  {
  }

  lemma UpsertConsistent(s: Types, d: Descriptor)
    requires Consistent(s) && IsType(d) && Upsertable(s, d)
    ensures Consistent(Update(s, d))
  {
    if d.ExtensionD? {
      PutInverse(s.typesByName, s.extensionsByMessage, d);
    } else {
      KeepInverse(s.typesByName, s.extensionsByMessage, d);
    }
    forall k: Kinds
      ensures |NamesOfKind(s.typesByName[d.full := d], k)| ==
              |NamesOfKind(s.typesByName, k)| + if d.full !in s.typesByName && OfKind(d, k) then 1 else 0
    {
      if d.full in s.typesByName {
        ReplacedKindCounts(s.typesByName, d, k);
      } else {
        NewNameCounts(s.typesByName, d, k);
      }
    }
  }

  lemma ChangedKindMiscounts(s: Types, d: Descriptor)
    requires Consistent(s) && IsType(d) && d.full in s.typesByName && !SameKind(s.typesByName[d.full], d)
    ensures !Counted(Update(s, d))
  {
    NewKindCounts(s.typesByName, d, if d.MessageD? then Messages else if d.EnumD? then Enums else Extensions);
  }

  lemma NewKindCounts(m: map<FullName, Descriptor>, d: Descriptor, k: Kinds)
    requires d.full in m && OfKind(d, k) && !OfKind(m[d.full], k)
    ensures |NamesOfKind(m[d.full := d], k)| == |NamesOfKind(m, k)| + 1
  {
    assert NamesOfKind(m[d.full := d], k) == NamesOfKind(m, k) + {d.full};
  }

  /**
   An update keeps the tables inverse and the counters right exactly when it changes neither the
   kind nor the slot of a registered name and takes no slot of another name.
   */
  lemma UpdateExact(s: Types, d: Descriptor)
    requires Consistent(s) && IsType(d)
    ensures Consistent(Update(s, d)) <==> Upsertable(s, d)
    ensures Update(s, d).typesByName == s.typesByName[d.full := d]
  {
    if Upsertable(s, d) {
      UpsertConsistent(s, d);
    } else if d.full in s.typesByName && !SameKind(s.typesByName[d.full], d) {
      ChangedKindMiscounts(s, d);
    } else {
      SlotMovedOrTaken(s, d);
    }
  }

  lemma SlotMovedOrTaken(s: Types, d: Descriptor)
    requires Consistent(s) && IsType(d) && !Upsertable(s, d)
    requires d.full in s.typesByName ==> SameKind(s.typesByName[d.full], d)
    ensures !Inverse(Update(s, d).typesByName, Update(s, d).extensionsByMessage)
  {
    var s', x := Update(s, d), d.extension;
    if d.full in s.typesByName && (s.typesByName[d.full].extension.extendee != x.extendee ||
                                   s.typesByName[d.full].extension.number != x.number) {
      var was := s.typesByName[d.full].extension;
      assert Slotted(s.extensionsByMessage, s.typesByName[d.full]);
      assert !SlotSound(s'.typesByName, s'.extensionsByMessage, was.extendee, was.number);
    } else {
      var holder := s.extensionsByMessage[x.extendee][x.number];
      assert SlotSound(s.typesByName, s.extensionsByMessage, x.extendee, x.number);
      assert !Slotted(s'.extensionsByMessage, s'.typesByName[holder.full]);
    }
  }

  /** A registration that is accepted is an update of a new name with a free slot. */
  lemma RegisterConsistent(s: Types, d: Descriptor)
    requires Consistent(s) && IsType(d)
    ensures Consistent(Register(s, d).0)
    ensures Register(s, d).1 == Done <==> d.full !in s.typesByName && Upsertable(s, d)
    ensures Register(s, d).1 == Done ==> Register(s, d).0 == Update(s, d)
    ensures Register(s, d).1 != Done ==> Register(s, d).0 == s
  {
    if d.full !in s.typesByName {
      UpdateExact(s, d);
      if d.ExtensionD? && SlotTaken(s.extensionsByMessage, d.extension) {
        assert SlotSound(s.typesByName, s.extensionsByMessage, d.extension.extendee, d.extension.number);
      }
    }
  }

  lemma DropInverse(m: map<FullName, Descriptor>, exts: map<FullName, map<int, Descriptor>>, d: Descriptor)
    requires NamesKeyed(m) && Inverse(m, exts) && d.full in m && m[d.full] == d && d.ExtensionD?
    ensures Inverse(m - {d.full}, DropSlot(exts, d.extension))
  {
    var (x, m', exts') := (d.extension, m - {d.full}, DropSlot(exts, d.extension));
    assert Slotted(exts, d);
    forall t, i | t in exts' && i in exts'[t] ensures SlotSound(m', exts', t, i) {
      assert SlotSound(m, exts, t, i);
    }
    forall n | n in m' && m'[n].ExtensionD? ensures Slotted(exts', m'[n]) {
      assert Slotted(exts, m[n]);
      var y := m[n].extension;
      if y.extendee == x.extendee {
        assert y.number != x.number;
        assert y.number in exts[x.extendee] - {x.number};
      }
    }
  }

  /** Unregistering a name removes its entry from both tables and keeps the invariant. */
  lemma UnregisterConsistent(s: Types, name: FullName, k: Kinds)
    requires Consistent(s)
    ensures Consistent(Unregister(s, name, k).0)
    ensures Unregister(s, name, k).1 == Done <==> name in s.typesByName && OfKind(s.typesByName[name], k)
    ensures Unregister(s, name, k).1 == Done ==> Unregister(s, name, k).0.typesByName == s.typesByName - {name}
    ensures Unregister(s, name, k).1 != Done ==> Unregister(s, name, k).0 == s
  {
    if name in s.typesByName && OfKind(s.typesByName[name], k) {
      var d := s.typesByName[name];
      if d.ExtensionD? {
        DropInverse(s.typesByName, s.extensionsByMessage, d);
      } else {
        forall t, i | t in s.extensionsByMessage && i in s.extensionsByMessage[t]
          ensures SlotSound(s.typesByName - {name}, s.extensionsByMessage, t, i)
        {
          assert SlotSound(s.typesByName, s.extensionsByMessage, t, i);
        }
      }
      forall j: Kinds
        ensures |NamesOfKind(s.typesByName - {name}, j)| ==
                |NamesOfKind(s.typesByName, j)| - if OfKind(d, j) then 1 else 0
      {
        DroppedNameCounts(s.typesByName, name, j);
      }
    }
  }

  // ---------------------------------------------------------------------------
  // Histories
  // ---------------------------------------------------------------------------

  datatype Op = RegisterOp(d: Descriptor) | UpdateOp(d: Descriptor) | UnregisterOp(name: FullName, kind: Kinds)

  function Step(s: Types, op: Op): Types {
    match op
    case RegisterOp(d) => if IsType(d) then Register(s, d).0 else s
    case UpdateOp(d) => if IsType(d) then Update(s, d) else s
    case UnregisterOp(n, k) => Unregister(s, n, k).0
  }

  function Run(s: Types, ops: seq<Op>): Types
    decreases ops
  {
    if ops == [] then s else Run(Step(s, ops[0]), ops[1..])
  }

  /** No update in the history changes a kind or a slot, or takes the slot of another name. */
  ghost predicate SteadyHistory(s: Types, ops: seq<Op>)
    decreases ops
  {
    ops == [] ||
    ((ops[0].UpdateOp? && IsType(ops[0].d) ==> Upsertable(s, ops[0].d)) && SteadyHistory(Step(s, ops[0]), ops[1..]))
  }

  /** Every steady history keeps the by-name and by-number tables inverse and the counters exact. */
  lemma {:induction false} HistoryConsistent(s: Types, ops: seq<Op>)
    requires Consistent(s) && SteadyHistory(s, ops)
    ensures Consistent(Run(s, ops))
    decreases ops
  {
    if ops != [] {
      match ops[0] {
        case RegisterOp(d) => if IsType(d) { RegisterConsistent(s, d); }
        case UpdateOp(d) => if IsType(d) { UpdateExact(s, d); }
        case UnregisterOp(n, k) => UnregisterConsistent(s, n, k);
      }
      HistoryConsistent(Step(s, ops[0]), ops[1..]);
    }
  }

  /** A renumbered extension stays reachable under its former number, with its former descriptor. */
  lemma RenumberLeavesStale(s: Types, d: Descriptor)
    requires Consistent(s) && d.ExtensionD? && d.full in s.typesByName && s.typesByName[d.full].ExtensionD?
    requires var was := s.typesByName[d.full].extension;
             was.extendee == d.extension.extendee && was.number != d.extension.number
    ensures var was := s.typesByName[d.full].extension;
            var exts := Update(s, d).extensionsByMessage;
            SlotTaken(exts, was) && exts[was.extendee][was.number] == s.typesByName[d.full] != d
  {
    assert Slotted(s.extensionsByMessage, s.typesByName[d.full]);
  }
}
