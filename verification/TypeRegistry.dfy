/**
 The NamespacedTypes registry as an object that its methods update in place, with lookups that
 fall back to the parent registry.
 */
module TypeRegistry {
  import opened Descriptors
  import T = TypeIndex

  datatype Found = Type(desc: Descriptor) | WrongType | Missing

  /** A level that knows the name answers, even if only to say that the type is of another kind. */
  function FindKind(levels: seq<T.Types>, name: FullName, k: T.Kinds): Found {
    if levels == [] then Missing else
    if name !in levels[0].typesByName then FindKind(levels[1..], name, k) else
    if T.OfKind(levels[0].typesByName[name], k) then Type(levels[0].typesByName[name]) else WrongType
  }

  function FindNumber(levels: seq<T.Types>, message: FullName, number: int): Option<Descriptor> {
    if levels == [] then None else
    if message in levels[0].extensionsByMessage && number in levels[0].extensionsByMessage[message]
    then Some(levels[0].extensionsByMessage[message][number]) else FindNumber(levels[1..], message, number)
  }

  /** Level `i` is the first that knows the name. */
  ghost predicate FirstWith(levels: seq<T.Types>, name: FullName, i: nat)
    requires i < |levels|
  {
    name in levels[i].typesByName && forall j :: 0 <= j < i ==> name !in levels[j].typesByName
  }

  /** What a lookup by name should give. */
  ghost predicate Answers(levels: seq<T.Types>, name: FullName, k: T.Kinds, r: Found) {
    match r
    case Type(d) => exists i :: 0 <= i < |levels| && FirstWith(levels, name, i) &&
                                levels[i].typesByName[name] == d && T.OfKind(d, k)
    case WrongType => exists i :: 0 <= i < |levels| && FirstWith(levels, name, i) &&
                                  !T.OfKind(levels[i].typesByName[name], k)
    case Missing => forall i :: 0 <= i < |levels| ==> name !in levels[i].typesByName
  }

  /** The nearest level that knows the name answers, with its type or by refusing the kind; nothing else does. */
  lemma {:induction false} FindKindExact(levels: seq<T.Types>, name: FullName, k: T.Kinds, r: Found)
    ensures FindKind(levels, name, k) == r <==> Answers(levels, name, k, r)
    decreases levels
  {
    if levels != [] {
      if name in levels[0].typesByName {
        assert FirstWith(levels, name, 0);
      } else {
        FindKindExact(levels[1..], name, k, r);
        AnswersAbove(levels, name, k, r);
      }
    }
  }

  lemma AnswersAbove(levels: seq<T.Types>, name: FullName, k: T.Kinds, r: Found)
    requires levels != [] && name !in levels[0].typesByName
    ensures Answers(levels, name, k, r) <==> Answers(levels[1..], name, k, r)
  {
    var above := levels[1..];
    assert forall i :: 0 <= i < |above| ==> above[i] == levels[i + 1];
    forall i: nat | i < |above| ensures FirstWith(above, name, i) <==> FirstWith(levels, name, i + 1) {
      if FirstWith(above, name, i) {
        forall j | 0 <= j < i + 1 ensures name !in levels[j].typesByName {
          if j > 0 { assert name !in above[j - 1].typesByName; }
        }
      }
    }
    if r.Missing? {
      forall i | 0 <= i < |levels| && Answers(above, name, k, r) ensures name !in levels[i].typesByName {
        if i > 0 { assert name !in above[i - 1].typesByName; }
      }
    } else if Answers(levels, name, k, r) {
      var i :| 0 <= i < |levels| && FirstWith(levels, name, i) &&
        (if r.Type? then levels[i].typesByName[name] == r.desc && T.OfKind(r.desc, k)
         else !T.OfKind(levels[i].typesByName[name], k));
      assert i > 0 && FirstWith(above, name, i - 1);
    }
  }

  ghost predicate HasSlot(level: T.Types, message: FullName, number: int) {
    message in level.extensionsByMessage && number in level.extensionsByMessage[message]
  }

  /** A lookup by number finds nothing exactly when no level has the number. */
  lemma {:induction false} NumberMissingExactly(levels: seq<T.Types>, message: FullName, number: int)
    ensures FindNumber(levels, message, number) == None <==>
            forall i :: 0 <= i < |levels| ==> !HasSlot(levels[i], message, number)
    decreases levels
  {
    if levels != [] {
      NumberMissingExactly(levels[1..], message, number);
      assert forall i :: 0 <= i < |levels[1..]| ==> levels[1..][i] == levels[i + 1];
      if FindNumber(levels, message, number) == None {
        forall i | 0 <= i < |levels| ensures !HasSlot(levels[i], message, number) {
          if i > 0 { assert !HasSlot(levels[1..][i - 1], message, number); }
        }
      }
    }
  }

  /** Level `i` is the first that has the number, and it holds `d` there and under the name of `d`. */
  ghost predicate AnswersAt(levels: seq<T.Types>, message: FullName, number: int, d: Descriptor, i: nat)
    requires i < |levels|
  {
    && HasSlot(levels[i], message, number) && (forall j :: 0 <= j < i ==> !HasSlot(levels[j], message, number))
    && levels[i].extensionsByMessage[message][number] == d
    && d.full in levels[i].typesByName && levels[i].typesByName[d.full] == d
  }

  /** Looking up by number and by name agree within the level that answers. */
  lemma {:induction false} NumberAgreesWithName(levels: seq<T.Types>, message: FullName, number: int, d: Descriptor)
    returns (i: nat)
    requires forall i :: 0 <= i < |levels| ==> T.Consistent(levels[i])
    requires FindNumber(levels, message, number) == Some(d)
    ensures d.ExtensionD? && d.extension.extendee == message && d.extension.number == number
    ensures i < |levels| && AnswersAt(levels, message, number, d, i)
    decreases levels
  {
    if HasSlot(levels[0], message, number) {
      assert T.SlotSound(levels[0].typesByName, levels[0].extensionsByMessage, message, number);
      i := 0;
    } else {
      var k := NumberAgreesWithName(levels[1..], message, number, d);
      assert forall j :: 0 <= j < |levels[1..]| ==> levels[1..][j] == levels[j + 1];
      i := k + 1;
      forall j | 0 <= j < i ensures !HasSlot(levels[j], message, number) {
        if j > 0 { assert !HasSlot(levels[1..][j - 1], message, number); }
      }
    }
  }

  class NamespacedTypes {
    const parent: NamespacedTypes?
    const readOnly: bool
    ghost const height: nat

    var typesByName: map<FullName, Descriptor>
    var extensionsByMessage: map<FullName, map<int, Descriptor>>
    var numEnums: int
    var numMessages: int
    var numExtensions: int

    ghost predicate Rooted()
      decreases height
    {
      parent != null ==> parent.height < height && parent.Rooted()
    }

    ghost function Chain(): set<NamespacedTypes>
      requires Rooted()
      decreases height
    {
      {this} + if parent == null then {} else parent.Chain()
    }

    function Value(): T.Types
      reads this
    {
      T.Types(typesByName, extensionsByMessage, numEnums, numMessages, numExtensions)
    }

    ghost function Levels(): seq<T.Types>
      requires Rooted()
      reads Chain()
      decreases height
    {
      [Value()] + if parent == null then [] else parent.Levels()
    }

    constructor (parent: NamespacedTypes?)
      requires parent != null ==> parent.Rooted()
      ensures Rooted() && this.parent == parent && !readOnly && Value() == T.NoTypes
    {
      this.parent := parent;
      readOnly := false;
      height := if parent == null then 0 else parent.height + 1;
      typesByName := map[];
      extensionsByMessage := map[];
      numEnums, numMessages, numExtensions := 0, 0, 0;
    }

    method RegisterMessage(d: Descriptor) returns (o: T.Outcome)
      requires d.MessageD?
      modifies this
      ensures readOnly ==> o == T.ReadOnly && Value() == old(Value())
      ensures !readOnly ==> (Value(), o) == T.Register(old(Value()), d)
    {
      if readOnly { return T.ReadOnly; }
      if d.full in typesByName { return T.NameTaken; }
      typesByName := typesByName[d.full := d];
      numMessages := numMessages + 1;
      return T.Done;
    }

    method UpdateMessage(d: Descriptor) returns (o: T.Outcome)
      requires d.MessageD?
      modifies this
      ensures readOnly ==> o == T.ReadOnly && Value() == old(Value())
      ensures !readOnly ==> o == T.Done && Value() == T.Update(old(Value()), d)
    {
      if readOnly { return T.ReadOnly; }
      if d.full !in typesByName {
        numMessages := numMessages + 1;
      }
      typesByName := typesByName[d.full := d];
      return T.Done;
    }

    method UnregisterMessage(name: FullName) returns (o: T.Outcome)
      modifies this
      ensures readOnly ==> o == T.ReadOnly && Value() == old(Value())
      ensures !readOnly ==> (Value(), o) == T.Unregister(old(Value()), name, T.Messages)
    {
      if readOnly { return T.ReadOnly; }
      if name !in typesByName || !typesByName[name].MessageD? { return T.NotFound; }
      typesByName := typesByName - {name};
      numMessages := numMessages - 1;
      return T.Done;
    }

    method RegisterEnum(d: Descriptor) returns (o: T.Outcome)
      requires d.EnumD?
      modifies this
      ensures readOnly ==> o == T.ReadOnly && Value() == old(Value())
      ensures !readOnly ==> (Value(), o) == T.Register(old(Value()), d)
    {
      if readOnly { return T.ReadOnly; }
      if d.full in typesByName { return T.NameTaken; }
      typesByName := typesByName[d.full := d];
      numEnums := numEnums + 1;
      return T.Done;
    }

    method UpdateEnum(d: Descriptor) returns (o: T.Outcome)
      requires d.EnumD?
      modifies this
      ensures readOnly ==> o == T.ReadOnly && Value() == old(Value())
      ensures !readOnly ==> o == T.Done && Value() == T.Update(old(Value()), d)
    {
      if readOnly { return T.ReadOnly; }
      if d.full !in typesByName {
        numEnums := numEnums + 1;
      }
      typesByName := typesByName[d.full := d];
      return T.Done;
    }

    method UnregisterEnum(name: FullName) returns (o: T.Outcome)
      modifies this
      ensures readOnly ==> o == T.ReadOnly && Value() == old(Value())
      ensures !readOnly ==> (Value(), o) == T.Unregister(old(Value()), name, T.Enums)
    {
      if readOnly { return T.ReadOnly; }
      if name !in typesByName || !typesByName[name].EnumD? { return T.NotFound; }
      typesByName := typesByName - {name};
      numEnums := numEnums - 1;
      return T.Done;
    }

    method RegisterExtension(d: Descriptor) returns (o: T.Outcome)
      requires d.ExtensionD?
      modifies this
      ensures readOnly ==> o == T.ReadOnly && Value() == old(Value())
      ensures !readOnly ==> (Value(), o) == T.Register(old(Value()), d)
    {
      if readOnly { return T.ReadOnly; }
      if d.full in typesByName { return T.NameTaken; }
      var message, field := d.extension.extendee, d.extension.number;
      if message in extensionsByMessage && field in extensionsByMessage[message] { return T.NumberTaken; }
      typesByName := typesByName[d.full := d];
      if message !in extensionsByMessage {
        extensionsByMessage := extensionsByMessage[message := map[]];
      }
      extensionsByMessage := extensionsByMessage[message := extensionsByMessage[message][field := d]];
      numExtensions := numExtensions + 1;
      assert extensionsByMessage == T.PutSlot(old(extensionsByMessage), d);
      return T.Done;
    }

    method UpdateExtension(d: Descriptor) returns (o: T.Outcome)
      requires d.ExtensionD?
      modifies this
      ensures readOnly ==> o == T.ReadOnly && Value() == old(Value())
      ensures !readOnly ==> o == T.Done && Value() == T.Update(old(Value()), d)
    {
      if readOnly { return T.ReadOnly; }
      if d.full !in typesByName {
        numExtensions := numExtensions + 1;
      }
      typesByName := typesByName[d.full := d];
      var message, field := d.extension.extendee, d.extension.number;
      if message !in extensionsByMessage {
        extensionsByMessage := extensionsByMessage[message := map[]];
      }
      extensionsByMessage := extensionsByMessage[message := extensionsByMessage[message][field := d]];
      return T.Done;
    }

    method UnregisterExtension(name: FullName) returns (o: T.Outcome)
      modifies this
      ensures readOnly ==> o == T.ReadOnly && Value() == old(Value())
      ensures !readOnly ==> (Value(), o) == T.Unregister(old(Value()), name, T.Extensions)
    {
      if readOnly { return T.ReadOnly; }
      if name !in typesByName || !typesByName[name].ExtensionD? { return T.NotFound; }
      var x := typesByName[name].extension;
      typesByName := typesByName - {name};
      if x.extendee in extensionsByMessage {
        var exts := extensionsByMessage[x.extendee] - {x.number};
        extensionsByMessage := extensionsByMessage[x.extendee := exts];
        if exts.Keys == {} {
          extensionsByMessage := extensionsByMessage - {x.extendee};
        }
      }
      numExtensions := numExtensions - 1;
      assert extensionsByMessage == T.DropSlot(old(extensionsByMessage), x);
      return T.Done;
    }

    /** FindMessageByName, FindEnumByName and FindExtensionByName. */
    method FindByName(name: FullName, k: T.Kinds) returns (r: Found)
      requires Rooted()
      ensures r == FindKind(Levels(), name, k)
      decreases height
    {
      if name in typesByName {
        return if T.OfKind(typesByName[name], k) then Type(typesByName[name]) else WrongType;
      }
      if parent == null { return Missing; }
      r := parent.FindByName(name, k);
    }

    method FindExtensionByNumber(message: FullName, number: int) returns (r: Option<Descriptor>)
      requires Rooted()
      ensures r == FindNumber(Levels(), message, number)
      decreases height
    {
      if message in extensionsByMessage && number in extensionsByMessage[message] {
        return Some(extensionsByMessage[message][number]);
      }
      if parent == null { return None; }
      r := parent.FindExtensionByNumber(message, number);
    }
  }
}
