/**
 An update that panics, with what it leaves behind: the file is gone from the tables by path, while a
 name it declared can still be looked up.
 */
module Stranded {
  import opened Descriptors
  import opened FileIndex
  import opened FileHistory
  import opened FileLookup

  const Inner := Message("A", [], [], [], [], [])
  const Outer := Message("a", [], [], [], [], [])
  const InPackage := File("x.proto", ["a"], [Inner], [], [], [])
  const NamedLikeIt := File("root.proto", [], [Outer], [], [], [])

  const InnerD := MessageD(["a", "A"], Inner)
  const OuterD := MessageD(["a"], Outer)

  const One := Files(map[[] := Package([]), ["a"] := Package([InPackage]), ["a", "A"] := Declared(InnerD)],
                     map["x.proto" := [InPackage]], map["x.proto" := RecordOf(InPackage)], 1)
  const Two := Files(map[[] := Package([NamedLikeIt]), ["a"] := Declared(OuterD), ["a", "A"] := Declared(InnerD)],
                     map["x.proto" := [InPackage], "root.proto" := [NamedLikeIt]],
                     map["x.proto" := RecordOf(InPackage), "root.proto" := RecordOf(NamedLikeIt)], 2)
  const Left := Files(Two.descsByName, map["root.proto" := [NamedLikeIt]],
                      map["root.proto" := RecordOf(NamedLikeIt)], 1)

  lemma Declarations()
    ensures TopLevel(InPackage) == [InnerD] && TopLevel(NamedLikeIt) == [OuterD]
  {
    var none: FullName := [];
    assert ["a"] + ["A"] == ["a", "A"] && none + ["a"] == ["a"];
    assert MessagesDown(["a"], [Inner]) == [InnerD] + MessagesDown(["a"], []);
    assert MessagesDown(none, [Outer]) == [OuterD] + MessagesDown(none, []);
  }

  lemma OnlyOuter()
    ensures Decls(NamedLikeIt) == {OuterD}
  {
    var none: FullName := [];
    assert none + ["a"] == ["a"];
    assert BodyDecls(["a"], Outer) == {};
    assert MessagesDecls(none, [Outer]) == {OuterD};
  }

  lemma FirstRegistered()
    ensures Register(Empty, InPackage) == (One, Done)
  {
    Declarations();
    var d0, none: FullName := Empty.descsByName, [];
    assert Parent(["a"]) == none && PackageFree(d0, none);
    assert EnsurePackages(d0, ["a"]) == d0[["a"] := Package([])];
    assert [] + [InPackage] == [InPackage];
    var d := d0[["a"] := Package([])][["a"] := Package([InPackage])];
    assert PutAll(d, [InnerD]) == PutAll(d[["a", "A"] := Declared(InnerD)], []);
    assert d[["a", "A"] := Declared(InnerD)] == One.descsByName;
  }

  /** UpdateFile checks no conflict, so the message takes the place of the package node. */
  lemma SecondUpdated()
    ensures Update(One, NamedLikeIt) == (Two, Done)
  {
    Declarations();
    assert [] + [NamedLikeIt] == [NamedLikeIt];
    var d := One.descsByName[[] := Package([NamedLikeIt])];
    assert PutAll(d, [OuterD]) == PutAll(d[["a"] := Declared(OuterD)], []);
    assert d[["a"] := Declared(OuterD)] == Two.descsByName;
  }

  lemma ThirdPanics()
    ensures Update(Two, InPackage) == (Left, Panicked)
  {
    Declarations();
    var none: FullName := [];
    assert Parent(["a"]) == none;
    assert NameSet(RecordOf(InPackage).names) - NameSet(NamesOf(TopLevel(InPackage))) == {};
    assert Two.descsByName - {} == Two.descsByName;
    assert Displace(Two, InPackage) == Left;
    assert EnsurePackages(Left.descsByName, ["a"]) == Left.descsByName;
  }

  const History := [RegisterOp(InPackage), UpdateOp(NamedLikeIt), UpdateOp(InPackage)]

  lemma HistoryLeaves()
    ensures Run(Empty, History) == Left
  {
    FirstRegistered();
    SecondUpdated();
    ThirdPanics();
    assert History[1..][1..][1..] == [];
    assert Run(Empty, History) == Run(One, History[1..]) == Run(Two, History[1..][1..]);
    assert Run(Two, History[1..][1..]) == Run(Left, History[1..][1..][1..]) == Left;
  }

  /** The third update strands the name: its file is not registered any more, and the lookup still finds it. */
  lemma NameOutlivesFile()
    ensures FindLocal(Run(Empty, History).descsByName, ["a", "A"]) == Some(InnerD)
    ensures "x.proto" !in Run(Empty, History).filesByPath
    ensures !DeclaredIn(map["root.proto" := NamedLikeIt], InnerD)
    ensures Strands(Two, map["x.proto" := InPackage, "root.proto" := NamedLikeIt], UpdateOp(InPackage))
  {
    HistoryLeaves();
    OnlyOuter();
    assert ["a", "A"][..2] == ["a", "A"];
    InnerStranded();
  }

  lemma InnerStranded()
    ensures Strands(Two, map["x.proto" := InPackage, "root.proto" := NamedLikeIt], UpdateOp(InPackage))
  {
    ThirdPanics();
    Declarations();
    var m := map["x.proto" := InPackage, "root.proto" := NamedLikeIt];
    assert NamesOf([InnerD]) == [["a", "A"]];
    assert LeavesBehind(Two, m, InPackage, ["a", "A"]);
  }
}
