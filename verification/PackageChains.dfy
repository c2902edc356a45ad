/**
 How far RegisterFile's conflict check reaches: it is exact precisely while every prefix of a
 registered package has its node, and the operations that keep it so.
 */
module PackageChains {
  import opened Descriptors
  import opened FileIndex
  import opened FileHistory

  /** RegisterFile accepts the file exactly when its path is new and it clashes with nothing. */
  ghost predicate JudgedRight(s: Files, m: Plain, f: File) {
    Register(s, f).1 == Done <==> f.path !in m && ClashFree(m[f.path := f])
  }

  lemma {:induction false} Longer(paths: set<string>) returns (n: nat)
    ensures forall p :: p in paths ==> |p| < n
    decreases paths
  {
    n := 0;
    if paths != {} {
      var p :| p in paths;
      n := Longer(paths - {p});
      n := if n <= |p| then |p| + 1 else n;
    }
  }

  lemma UnusedPath(m: Plain) returns (p: string)
    ensures p !in m
  {
    var n := Longer(m.Keys);
    p := seq(n, _ => 'x');
  }

  /** A file that declares one message, of the given name. */
  function OneMessage(path: string, n: FullName): File
    requires n != []
  {
    File(path, Parent(n), [Message(n[|n| - 1], [], [], [], [], [])], [], [], [])
  }

  lemma OneMessageDeclares(path: string, n: FullName)
    requires n != []
    ensures TopLevel(OneMessage(path, n)) == [MessageD(n, OneMessage(path, n).messages[0])]
  {
    var f := OneMessage(path, n);
    assert f.pkg + [n[|n| - 1]] == n;
    assert f.messages[..0] == [];
    assert MessagesDown(f.pkg, f.messages) == [MessageD(n, f.messages[0])];
  }

  /** A missing node lets in a file whose message has the name of a package. */
  lemma MissingNodeLetsClashIn(s: Files, m: Plain) returns (f: File)
    requires Represents(s, m) && ClashFree(m) && !ChainsComplete(s.descsByName, m)
    ensures NamesOnce(TopLevel(f)) && f.path !in m
    ensures Register(s, f).1 == Done && !ClashFree(m[f.path := f])
  {
    var q, n := MissingNode(s.descsByName, m);
    var path := UnusedPath(m);
    f := OneMessage(path, n);
    OneMessageDeclares(path, n);
    OneMessageAccepted(s, m, q, n, path);
    OneMessageClashes(m, q, n, path);
  }

  lemma MissingNode(d: map<FullName, Entry>, m: Plain) returns (q: string, n: FullName)
    requires !ChainsComplete(d, m)
    ensures q in m && n <= m[q].pkg && !IsPackage(d, n)
  {
    q, n :| q in m && n <= m[q].pkg && !IsPackage(d, n);
  }

  lemma OneMessageAccepted(s: Files, m: Plain, q: string, n: FullName, path: string)
    requires NamesMatch(s.descsByName, m) && IsPackage(s.descsByName, []) && ClashFree(m)
    requires q in m && n <= m[q].pkg && !IsPackage(s.descsByName, n) && n != [] && path !in s.filesByPath
    ensures Register(s, OneMessage(path, n)).1 == Done
  {
    var d, f := s.descsByName, OneMessage(path, n);
    OneMessageDeclares(path, n);
    NoNameOnTheWay(d, m, q);
    PackageFreePrefixes(d, f.pkg);
    assert n !in d;
    InsertTables(s, f);
  }

  lemma OneMessageClashes(m: Plain, q: string, n: FullName, path: string)
    requires q in m && n <= m[q].pkg && n != [] && path !in m
    ensures !ClashFree(m[path := OneMessage(path, n)])
  {
    var f := OneMessage(path, n);
    OneMessageDeclares(path, n);
    var m', x := m[path := f], MessageD(n, f.messages[0]);
    assert Offers(m', path, x) && m'[q] == m[q];
  }

  /** No registered name is a prefix of a registered package. */
  lemma NoNameOnTheWay(d: map<FullName, Entry>, m: Plain, q: string)
    requires NamesMatch(d, m) && ClashFree(m) && q in m
    ensures forall n :: n in d && n <= m[q].pkg ==> d[n].Package?
  {
    forall n | n in d && n <= m[q].pkg ensures d[n].Package? {
      if d[n].Declared? {
        assert Named(d, d[n].desc);
      }
    }
  }

  /** The check is right about every file exactly when the package chains are complete. */
  lemma RightExactlyWhenComplete(s: Files, m: Plain)
    requires Represents(s, m) && ClashFree(m)
    ensures ChainsComplete(s.descsByName, m) <==> forall f :: NamesOnce(TopLevel(f)) ==> JudgedRight(s, m, f)
  {
    if ChainsComplete(s.descsByName, m) {
      forall f | NamesOnce(TopLevel(f)) ensures JudgedRight(s, m, f) { RegisterExact(s, m, f); }
    } else {
      var f := MissingNodeLetsClashIn(s, m);
      assert !JudgedRight(s, m, f);
    }
  }

  // ---------------------------------------------------------------------------
  // Updates
  // ---------------------------------------------------------------------------

  lemma InsertPackageAt(s: Files, m: Plain, f: File, n: FullName)
    requires IndexMatches(s.descsByName, m) && f.path !in m && Fits(m, f)
    ensures IsPackage(Insert(s, f).0.descsByName, n) <==> IsPackage(s.descsByName, n) || n <= f.pkg
  {
    FitsPassesChecks(s, m, f);
    InsertAt(s, f, n);
    if IsPackage(s.descsByName, n) || n <= f.pkg { InsertKeepsPackage(s, m, f, n); }
  }

  /**
   The node belongs to the package that the file leaves, no file is left below it, and the new
   package does not need it.
   */
  ghost predicate Lost(m: Plain, f: File, n: FullName)
    requires f.path in m
  {
    n != [] && n <= m[f.path].pkg && EmptiedFrom(m - {f.path}, m[f.path].pkg, |n|) && !(n <= f.pkg)
  }

  /** Some other registered package needs a node that is lost. */
  ghost predicate UpdateOrphans(m: Plain, f: File)
    requires f.path in m
  {
    exists q, n :: q in m && q != f.path && n <= m[q].pkg && Lost(m, f, n)
  }

  lemma RemovedPackageAt(s: Files, m: Plain, path: string, n: FullName)
    requires Represents(s, m) && ClashFree(m) && path in m && ChainsComplete(s.descsByName, m)
    requires IsPackage(s.descsByName, n)
    ensures IsPackage(Remove(s, path).descsByName, n) <==>
            !(n != [] && n <= m[path].pkg && EmptiedFrom(m - {path}, m[path].pkg, |n|))
  {
    var f := m[path];
    var d' := Withdraw(s.descsByName, NameSet(NamesOf(TopLevel(f))), f.pkg, path);
    WithdrawMatches(s.descsByName, m, path);
    RemoveWithdraws(s, m, path);
    ChainsRestrict(d', s.descsByName, m, path);
    PruneAt(d', m - {path}, f.pkg, n);
  }

  /** One node after an update of a registered path. */
  lemma UpdatedPackageAt(s: Files, m: Plain, f: File, n: FullName)
    requires Represents(s, m) && ClashFree(m) && ClashFree(m[f.path := f]) && f.path in m
    requires ChainsComplete(s.descsByName, m) && IsPackage(s.descsByName, n)
    ensures IsPackage(Update(s, f).0.descsByName, n) <==> !Lost(m, f, n)
  {
    UpdateIsUnregisterThenRegister(s, m, f);
    RemoveRepresents(s, m, f.path);
    ReplacementFits(m, f);
    RegisterRepresents(Remove(s, f.path), m - {f.path}, f);
    RemovedPackageAt(s, m, f.path, n);
    InsertPackageAt(Remove(s, f.path), m - {f.path}, f, n);
  }

  /** The packages of the new file have their nodes. */
  lemma UpdatedOwnPackage(s: Files, m: Plain, f: File, n: FullName)
    requires Represents(s, m) && ClashFree(m) && ClashFree(m[f.path := f]) && f.path in m && n <= f.pkg
    ensures IsPackage(Update(s, f).0.descsByName, n)
  {
    UpdateIsUnregisterThenRegister(s, m, f);
    RemoveRepresents(s, m, f.path);
    ReplacementFits(m, f);
    RegisterRepresents(Remove(s, f.path), m - {f.path}, f);
    InsertPackageAt(Remove(s, f.path), m - {f.path}, f, n);
  }

  /** UpdateFile on a registered path keeps the chains complete exactly when it orphans no package. */
  lemma UpdateKeepsChains(s: Files, m: Plain, f: File)
    requires Represents(s, m) && ClashFree(m) && ClashFree(m[f.path := f]) && f.path in m
    requires ChainsComplete(s.descsByName, m)
    ensures ChainsComplete(Update(s, f).0.descsByName, m[f.path := f]) <==> !UpdateOrphans(m, f)
  {
    forall q, n ensures NodeAfter(Update(s, f).0.descsByName, m, f, q, n) { UpdatedNode(s, m, f, q, n); }
    ChainsByNodes(Update(s, f).0.descsByName, m, f);
  }

  /** After the update the package of `q` has its node `n`, unless that is lost. */
  ghost predicate NodeAfter(d: map<FullName, Entry>, m: Plain, f: File, q: string, n: FullName)
    requires f.path in m
  {
    && (n <= f.pkg ==> IsPackage(d, n))
    && (q in m && q != f.path && n <= m[q].pkg ==> (IsPackage(d, n) <==> !Lost(m, f, n)))
  }

  lemma UpdatedNode(s: Files, m: Plain, f: File, q: string, n: FullName)
    requires Represents(s, m) && ClashFree(m) && ClashFree(m[f.path := f]) && f.path in m
    requires ChainsComplete(s.descsByName, m)
    ensures NodeAfter(Update(s, f).0.descsByName, m, f, q, n)
  {
    if n <= f.pkg { UpdatedOwnPackage(s, m, f, n); }
    if q in m && n <= m[q].pkg {
      assert IsPackage(s.descsByName, n);
      UpdatedPackageAt(s, m, f, n);
    }
  }

  lemma ChainsByNodes(d: map<FullName, Entry>, m: Plain, f: File)
    requires f.path in m
    requires forall q, n :: NodeAfter(d, m, f, q, n)
    ensures ChainsComplete(d, m[f.path := f]) <==> !UpdateOrphans(m, f)
  {
    var m' := m[f.path := f];
    if UpdateOrphans(m, f) {
      var q, n :| q in m && q != f.path && n <= m[q].pkg && Lost(m, f, n);
      assert NodeAfter(d, m, f, q, n);
      assert q in m' && n <= m'[q].pkg;
    } else {
      forall q, n | q in m' && n <= m'[q].pkg ensures IsPackage(d, n) {
        assert NodeAfter(d, m, f, q, n);
        if q != f.path { assert q in m && n <= m[q].pkg; }
      }
    }
  }

  // ---------------------------------------------------------------------------
  // Histories
  // ---------------------------------------------------------------------------

  /** The operation deletes no node that another registered package needs. */
  ghost predicate OrphansNothing(m: Plain, op: Op) {
    match op
    case RegisterOp(_) => true
    case UpdateOp(f) => f.path in m ==> !UpdateOrphans(m, f)
    case UnregisterOp(p) => p in m ==> !Orphans(m, p)
  }

  ghost predicate UnorphaningHistory(m: Plain, ops: seq<Op>)
    decreases ops
  {
    ops == [] || (OrphansNothing(m, ops[0]) && UnorphaningHistory(PlainStep(m, ops[0]), ops[1..]))
  }

  lemma StepKeepsChains(s: Files, m: Plain, op: Op)
    requires Represents(s, m) && ClashFree(m) && ClashFree(PlainStep(m, op)) && ChainsComplete(s.descsByName, m)
    requires OrphansNothing(m, op)
    ensures ChainsComplete(Step(s, op).0.descsByName, PlainStep(m, op))
  {
    match op
    case RegisterOp(f) => RegisterStepKeepsChains(s, m, f);
    case UpdateOp(f) =>
      if f.path in m {
        UpdateKeepsChains(s, m, f);
      } else {
        FitsExactly(m, f);
        RegisterKeepsChains(s, m, f);
      }
    case UnregisterOp(p) =>
      UnregisterStep(s, m, p);
      if p in m { UnregisterKeepsChains(s, m, p); }
  }

  lemma RegisterStepKeepsChains(s: Files, m: Plain, f: File)
    requires Represents(s, m) && ClashFree(m) && ClashFree(PlainStep(m, RegisterOp(f)))
    requires ChainsComplete(s.descsByName, m)
    ensures ChainsComplete(Register(s, f).0.descsByName, PlainStep(m, RegisterOp(f)))
  {
    if f.path in m {
      assert s.filesByPath[f.path] == [m[f.path]];
    } else {
      FitsExactly(m, f);
      RegisterRepresents(s, m, f);
      RegisterKeepsChains(s, m, f);
    }
  }

  lemma {:induction false} HistoryKeepsChains(s: Files, m: Plain, ops: seq<Op>)
    requires Represents(s, m) && ChainsComplete(s.descsByName, m)
    requires ClashFreeHistory(m, ops) && UnorphaningHistory(m, ops)
    ensures ChainsComplete(Run(s, ops).descsByName, PlainRun(m, ops))
    decreases ops
  {
    if ops != [] {
      StepRepresents(s, m, ops[0]);
      StepKeepsChains(s, m, ops[0]);
      HistoryKeepsChains(Step(s, ops[0]).0, PlainStep(m, ops[0]), ops[1..]);
    }
  }

  /** After every clash-free history that orphans nothing, RegisterFile judges every file rightly. */
  lemma RegisterExactOverHistories(ops: seq<Op>, f: File)
    requires ClashFreeHistory(map[], ops) && UnorphaningHistory(map[], ops) && NamesOnce(TopLevel(f))
    ensures JudgedRight(Run(Empty, ops), PlainRun(map[], ops), f)
  {
    EmptyRepresents();
    HistoryRepresents(Empty, map[], ops);
    HistoryKeepsChains(Empty, map[], ops);
    RegisterExact(Run(Empty, ops), PlainRun(map[], ops), f);
  }
}
