/**
 One story of a registry from its beginning: a child namespace pins a schema of its parent, is
 rebased when the parent moves on, and falls behind again when the rebased version is rolled back.
 */
module RolledBack {
  import opened Descriptors
  import C = Compat
  import F = Fingerprint
  import H = Hierarchy
  import opened Lifecycle
  import opened Pins

  const Base := Key("base", "t")
  const Child := Key("child", "s")

  /** What the two schemas publish: two versions of the one, one source of the other. */
  datatype Plot = Plot(first: seq<F.FileHash>, firstTree: Tree, second: seq<F.FileHash>, secondTree: Tree,
                       child: seq<F.FileHash>, childTree: Tree)

  ghost predicate Sensible(p: Plot) {
    && p.first != [] && p.second != [] && p.child != []
    && F.Text(F.Sort(p.first)) != F.Text(F.Sort(p.second))
    && C.Passes(Some(p.firstTree), p.secondTree)
  }

  // ---------------------------------------------------------------------------
  // What each call does to rows and versions
  // ---------------------------------------------------------------------------

  /** Both namespaces are there, the one below the other, and these are all rows and versions. */
  ghost predicate Is(st: State, b: Row, bs: seq<Version>, c: Row, cs: seq<Version>) {
    && "base" in st.mem.spaces && "child" in st.mem.spaces
    && H.ParentOf(st.mem.parents, "base") == None && H.ParentOf(st.mem.parents, "child") == Some("base")
    && st.store.rows.Keys <= {Base, Child}
    && RowOf(st.store, Base) == b && VersionsOf(st.store, Base) == bs
    && RowOf(st.store, Child) == c && VersionsOf(st.store, Child) == cs
  }

  /** The pins on the files of a version of the base schema. */
  function PinsOn(files: seq<F.FileHash>, v: nat): set<Dep> {
    set f | f in files :: Dep("base", "t", f.filename, v)
  }

  lemma Ancestry(g: H.Parents)
    requires H.ParentOf(g, "base") == None && H.ParentOf(g, "child") == Some("base")
    ensures H.Chain(g, "base") == ["base"] && H.Chain(g, "child") == ["child", "base"]
  {
    assert H.ChainFrom(g, "base", []) == [] + ["base"];
    assert H.ChainFrom(g, "base", ["child"]) == ["child"] + ["base"];
    assert [] + ["child"] == ["child"];
    assert H.ChainFrom(g, "child", []) == H.ChainFrom(g, "base", ["child"]);
  }

  lemma BaseDeps(st: State, b: Row, bs: seq<Version>, c: Row, cs: seq<Version>)
    requires Is(st, b, bs, c, cs)
    ensures Deps(st, Base) == {}
  {
    Ancestry(st.mem.parents);
  }

  lemma ChildDeps(st: State, b: Row, bs: seq<Version>, c: Row, cs: seq<Version>)
    requires Is(st, b, bs, c, cs) && b.current.Some? && 1 <= b.current.value <= |bs|
    ensures Deps(st, Child) == PinsOn(bs[b.current.value - 1].files, b.current.value)
  {
    Ancestry(st.mem.parents);
    assert NamespaceDeps(st.store, Child) == {};
    assert ["child", "base"][1..] == ["base"];
    TierOfBase(st.store, b.current.value);
  }

  lemma TierOfBase(s: Store, v: nat)
    requires s.rows.Keys <= {Base, Child} && RowOf(s, Base).current == Some(v) && HasVersion(s, Base, v)
    ensures TierDeps(s, ["base"]) == PinsOn(VersionAt(s, Base, v).files, v)
  {
    assert Base in s.rows;
    forall d ensures d in TierDeps(s, ["base"]) <==> d in PinsOn(VersionAt(s, Base, v).files, v) {
      if f :| f in VersionAt(s, Base, v).files && d == Dep("base", "t", f.filename, v) {
        assert Base.ns in ["base"];
      }
    }
  }

  /** A Publish that goes through. */
  lemma Publishes(st: State, k: Key, files: seq<F.FileHash>, tree: Tree, always: bool)
    requires files != [] && (always || !Unchanged(st.store, k, files))
    ensures Publish(st, k, files, false, false, Some(tree), always, NoFault) ==
            (WroteAndStaged(st, k, files, tree), Published(|VersionsOf(st.store, k)| + 1))
  {
    EnsureShape(st, k);
    assert Unchanged(EnsureNamespaceAndSchema(st, k).store, k, files) == Unchanged(st.store, k, files);
  }

  lemma StagesBase(st: State, b: Row, bs: seq<Version>, c: Row, cs: seq<Version>, files: seq<F.FileHash>, tree: Tree)
    requires Is(st, b, bs, c, cs)
    ensures Is(WroteAndStaged(st, Base, files, tree), Row(b.current, Some(|bs| + 1)),
               bs + [Version(tree, files, {})], c, cs)
  {
    var s1 := EnsureNamespaceAndSchema(st, Base);
    EnsureShape(st, Base);
    BaseDeps(s1, b, bs, c, cs);
    StageShape(Wrote(st, Base, files, tree), Base, Snap(|bs| + 1, tree));
  }

  lemma StagesChild(st: State, b: Row, bs: seq<Version>, c: Row, cs: seq<Version>, files: seq<F.FileHash>, tree: Tree)
    requires Is(st, b, bs, c, cs) && b.current.Some? && 1 <= b.current.value <= |bs|
    ensures var pins := PinsOn(bs[b.current.value - 1].files, b.current.value);
            Is(WroteAndStaged(st, Child, files, tree), b, bs, Row(c.current, Some(|cs| + 1)),
               cs + [Version(tree, files, pins)])
  {
    var s1 := EnsureNamespaceAndSchema(st, Child);
    EnsureShape(st, Child);
    ChildDeps(s1, b, bs, c, cs);
    StageShape(Wrote(st, Child, files, tree), Child, Snap(|cs| + 1, tree));
  }

  /** The files have the fingerprint of the staged, or else the current, version. */
  predicate Same(vs: seq<Version>, r: Row, files: seq<F.FileHash>) {
    var v := if r.staged.Some? then r.staged else r.current;
    v.Some? && 1 <= v.value <= |vs| && F.Text(F.Sort(vs[v.value - 1].files)) == F.Text(F.Sort(files))
  }

  lemma PublishedBase(st: State, b: Row, bs: seq<Version>, c: Row, cs: seq<Version>, files: seq<F.FileHash>, tree: Tree)
    requires Is(st, b, bs, c, cs) && files != [] && !Same(bs, b, files)
    ensures Is(Step(st, PublishOp(Base, files, false, false, Some(tree), NoFault)).0,
               Row(b.current, Some(|bs| + 1)), bs + [Version(tree, files, {})], c, cs)
  {
    Publishes(st, Base, files, tree, false);
    StagesBase(st, b, bs, c, cs, files, tree);
  }

  lemma PublishedChild(st: State, b: Row, bs: seq<Version>, c: Row, cs: seq<Version>, files: seq<F.FileHash>,
                       tree: Tree)
    requires Is(st, b, bs, c, cs) && files != [] && !Same(cs, c, files)
    requires b.current.Some? && 1 <= b.current.value <= |bs|
    ensures var pins := PinsOn(bs[b.current.value - 1].files, b.current.value);
            Is(Step(st, PublishOp(Child, files, false, false, Some(tree), NoFault)).0,
               b, bs, Row(c.current, Some(|cs| + 1)), cs + [Version(tree, files, pins)])
  {
    Publishes(st, Child, files, tree, false);
    StagesChild(st, b, bs, c, cs, files, tree);
  }

  lemma RebasedChild(st: State, b: Row, bs: seq<Version>, c: Row, cs: seq<Version>, tree: Tree)
    requires Is(st, b, bs, c, cs) && Agree(st)
    requires b.current.Some? && 1 <= b.current.value <= |bs|
    requires c.current.Some? && 1 <= c.current.value <= |cs| && cs[c.current.value - 1].files != []
    ensures var pins := PinsOn(bs[b.current.value - 1].files, b.current.value);
            var files := cs[c.current.value - 1].files;
            Is(Step(st, RebaseOp(Child, false, Some(tree), NoFault)).0,
               b, bs, Row(c.current, Some(|cs| + 1)), cs + [Version(tree, files, pins)])
  {
    assert AgreeAt(st, Child);
    Publishes(st, Child, cs[c.current.value - 1].files, tree, true);
    StagesChild(st, b, bs, c, cs, cs[c.current.value - 1].files, tree);
  }

  function SnapAt(vs: seq<Version>, v: Option<nat>): Option<Snap> {
    if v.Some? && 1 <= v.value <= |vs| then Some(Snap(v.value, vs[v.value - 1].tree)) else None
  }

  function SlotAt(vs: seq<Version>, r: Row): Slot {
    Slot(SnapAt(vs, r.current), SnapAt(vs, r.staged))
  }

  /** Only the schema of the namespace can stand in the way of its Promote. */
  lemma Promotes(st: State, k: Key, r: Row, vs: seq<Version>)
    requires Agree(st) && k.ns in st.mem.spaces && RowOf(st.store, k) == r && VersionsOf(st.store, k) == vs
    requires forall j :: j in st.store.rows && j.ns == k.ns ==> j == k
    requires MayPromote(SlotAt(vs, r))
    ensures Promote(st, k.ns, NoFault) == (PromoteAll(st, k.ns), Done)
  {
    forall x | x in st.mem.spaces[k.ns] ensures MayPromote(st.mem.spaces[k.ns][x]) {
      assert AgreeAt(st, Key(k.ns, x));
    }
  }

  lemma FirstMayGo(v: Version)
    ensures MayPromote(SlotAt([v], Row(None, Some(1))))
  {
  }

  lemma SecondMayGo(v: Version, w: Version)
    requires C.Passes(Some(v.tree), w.tree)
    ensures MayPromote(SlotAt([v, w], Row(Some(1), Some(2))))
  {
  }

  lemma OlderMayGo(v: Version, w: Version)
    ensures MayPromote(SlotAt([v, w], Row(Some(2), Some(1))))
  {
  }

  lemma PromotedBase(st: State, b: Row, bs: seq<Version>, c: Row, cs: seq<Version>)
    requires Is(st, b, bs, c, cs) && Agree(st) && b.staged.Some? && MayPromote(SlotAt(bs, b))
    ensures Is(Step(st, PromoteOp("base", NoFault)).0, Row(b.staged, None), bs, c, cs)
  {
    Promotes(st, Base, b, bs);
  }

  lemma PromotedChild(st: State, b: Row, bs: seq<Version>, c: Row, cs: seq<Version>)
    requires Is(st, b, bs, c, cs) && Agree(st) && c.staged.Some? && MayPromote(SlotAt(cs, c))
    ensures Is(Step(st, PromoteOp("child", NoFault)).0, b, bs, Row(c.staged, None), cs)
  {
    Promotes(st, Child, c, cs);
  }

  lemma RolledBackChild(st: State, b: Row, bs: seq<Version>, c: Row, cs: seq<Version>, v: nat)
    requires Is(st, b, bs, c, cs) && Agree(st) && 1 <= v <= |cs|
    requires C.Passes(TreeOf(SnapAt(cs, c.current)), cs[v - 1].tree)
    ensures Is(Step(st, RollbackOp(Child, v, false, NoFault)).0, b, bs, Row(c.current, Some(v)), cs)
  {
    assert AgreeAt(st, Child);
    StageShape(st, Child, Snap(v, cs[v - 1].tree));
  }

  const Bare := Row(None, None)

  lemma CreatesBase()
    ensures var (st, o) := CreateNamespace(Fresh, "base", None, NoFault);
            o == Done && st.store == Store(map["base" := None], map[], map[]) &&
            st.mem == Memory(map[], map["base" := map[]])
  {
  }

  lemma CreatesChild(st: State)
    requires st.store == Store(map["base" := None], map[], map[]) && st.mem == Memory(map[], map["base" := map[]])
    ensures CreateNamespace(st, "child", Some("base"), NoFault).1 == Done
    ensures Is(CreateNamespace(st, "child", Some("base"), NoFault).0, Bare, [], Bare, [])
  {
    CreateExact(st, "child", Some("base"), NoFault);
  }

  // ---------------------------------------------------------------------------
  // The story
  // ---------------------------------------------------------------------------

  const LENGTH: nat := 12

  function OpAt(p: Plot, n: nat): Op {
    if n == 0 then CreateOp("base", None, NoFault)
    else if n == 1 then CreateOp("child", Some("base"), NoFault)
    else if n == 2 then PublishOp(Base, p.first, false, false, Some(p.firstTree), NoFault)
    else if n == 4 then PublishOp(Child, p.child, false, false, Some(p.childTree), NoFault)
    else if n == 6 then PublishOp(Base, p.second, false, false, Some(p.secondTree), NoFault)
    else if n == 8 then RebaseOp(Child, false, Some(p.childTree), NoFault)
    else if n == 10 then RollbackOp(Child, 1, false, NoFault)
    else PromoteOp(if n == 3 || n == 7 then "base" else "child", NoFault)
  }

  /**
   Create both namespaces; publish and promote the base schema, then the child; publish and promote
   the second version of the base; rebase and promote the child; roll it back to its first version
   and promote that.
   */
  function Story(p: Plot, n: nat): seq<Op> {
    if n == 0 then [] else Story(p, n - 1) + [OpAt(p, n - 1)]
  }

  ghost function After(p: Plot, n: nat): State {
    Run(Fresh, Story(p, n))
  }

  lemma {:induction false} StoryAdmitted(p: Plot, n: nat)
    ensures AdmittedRun(Fresh, Story(p, n))
    decreases n
  {
    if n > 0 {
      StoryAdmitted(p, n - 1);
      assert Story(p, n)[..|Story(p, n)| - 1] == Story(p, n - 1);
    }
  }

  lemma StoryAgrees(p: Plot, n: nat)
    ensures Agree(After(p, n))
  {
    StoryAdmitted(p, n);
    FreshHealthy();
    RunKeeps(Fresh, Story(p, n));
  }

  lemma Continues(p: Plot, n: nat, st: State)
    requires st == After(p, n)
    ensures After(p, n + 1) == Step(st, OpAt(p, n)).0 && Agree(st)
  {
    assert Story(p, n + 1)[..|Story(p, n + 1)| - 1] == Story(p, n);
    StoryAgrees(p, n);
  }

  function Base1(p: Plot): Version { Version(p.firstTree, p.first, {}) }
  function Base2(p: Plot): Version { Version(p.secondTree, p.second, {}) }
  function Child1(p: Plot): Version { Version(p.childTree, p.child, PinsOn(p.first, 1)) }
  function Child2(p: Plot): Version { Version(p.childTree, p.child, PinsOn(p.second, 2)) }

  lemma PromotesBaseAt(p: Plot, n: nat, b: Row, bs: seq<Version>, c: Row, cs: seq<Version>)
    requires OpAt(p, n) == PromoteOp("base", NoFault) && Is(After(p, n), b, bs, c, cs)
    requires b.staged.Some? && MayPromote(SlotAt(bs, b))
    ensures Is(After(p, n + 1), Row(b.staged, None), bs, c, cs)
  {
    var st := After(p, n);
    Continues(p, n, st);
    PromotedBase(st, b, bs, c, cs);
  }

  lemma PromotesChildAt(p: Plot, n: nat, b: Row, bs: seq<Version>, c: Row, cs: seq<Version>)
    requires OpAt(p, n) == PromoteOp("child", NoFault) && Is(After(p, n), b, bs, c, cs)
    requires c.staged.Some? && MayPromote(SlotAt(cs, c))
    ensures Is(After(p, n + 1), b, bs, Row(c.staged, None), cs)
  {
    var st := After(p, n);
    Continues(p, n, st);
    PromotedChild(st, b, bs, c, cs);
  }

  lemma BothCreated(p: Plot)
    ensures Is(After(p, 2), Bare, [], Bare, [])
  {
    Continues(p, 0, Fresh);
    CreatesBase();
    var st := After(p, 1);
    Continues(p, 1, st);
    CreatesChild(st);
  }

  lemma BasePublished(p: Plot)
    requires Sensible(p)
    ensures Is(After(p, 3), Row(None, Some(1)), [Base1(p)], Bare, [])
  {
    BothCreated(p);
    var st := After(p, 2);
    Continues(p, 2, st);
    PublishedBase(st, Bare, [], Bare, [], p.first, p.firstTree);
    assert [] + [Base1(p)] == [Base1(p)];
  }

  lemma BaseLive(p: Plot)
    requires Sensible(p)
    ensures Is(After(p, 4), Row(Some(1), None), [Base1(p)], Bare, [])
  {
    BasePublished(p);
    FirstMayGo(Base1(p));
    PromotesBaseAt(p, 3, Row(None, Some(1)), [Base1(p)], Bare, []);
  }

  lemma ChildPublished(p: Plot)
    requires Sensible(p)
    ensures Is(After(p, 5), Row(Some(1), None), [Base1(p)], Row(None, Some(1)), [Child1(p)])
  {
    BaseLive(p);
    var st := After(p, 4);
    Continues(p, 4, st);
    PublishedChild(st, Row(Some(1), None), [Base1(p)], Bare, [], p.child, p.childTree);
    assert [] + [Child1(p)] == [Child1(p)];
  }

  lemma ChildLive(p: Plot)
    requires Sensible(p)
    ensures Is(After(p, 6), Row(Some(1), None), [Base1(p)], Row(Some(1), None), [Child1(p)])
  {
    ChildPublished(p);
    FirstMayGo(Child1(p));
    PromotesChildAt(p, 5, Row(Some(1), None), [Base1(p)], Row(None, Some(1)), [Child1(p)]);
  }

  lemma BaseMovesOn(p: Plot)
    requires Sensible(p)
    ensures Is(After(p, 7), Row(Some(1), Some(2)), [Base1(p), Base2(p)], Row(Some(1), None), [Child1(p)])
  {
    ChildLive(p);
    var st := After(p, 6);
    Continues(p, 6, st);
    PublishedBase(st, Row(Some(1), None), [Base1(p)], Row(Some(1), None), [Child1(p)], p.second, p.secondTree);
    assert [Base1(p)] + [Base2(p)] == [Base1(p), Base2(p)];
  }

  lemma BaseMoved(p: Plot)
    requires Sensible(p)
    ensures Is(After(p, 8), Row(Some(2), None), [Base1(p), Base2(p)], Row(Some(1), None), [Child1(p)])
  {
    BaseMovesOn(p);
    SecondMayGo(Base1(p), Base2(p));
    PromotesBaseAt(p, 7, Row(Some(1), Some(2)), [Base1(p), Base2(p)], Row(Some(1), None), [Child1(p)]);
  }

  lemma ChildRebases(p: Plot)
    requires Sensible(p)
    ensures Is(After(p, 9), Row(Some(2), None), [Base1(p), Base2(p)], Row(Some(1), Some(2)), [Child1(p), Child2(p)])
  {
    BaseMoved(p);
    var st := After(p, 8);
    Continues(p, 8, st);
    RebasedChild(st, Row(Some(2), None), [Base1(p), Base2(p)], Row(Some(1), None), [Child1(p)], p.childTree);
    assert [Child1(p)] + [Child2(p)] == [Child1(p), Child2(p)];
  }

  lemma ChildRebased(p: Plot)
    requires Sensible(p)
    ensures Is(After(p, 10), Row(Some(2), None), [Base1(p), Base2(p)], Row(Some(2), None), [Child1(p), Child2(p)])
  {
    ChildRebases(p);
    C.CheckPreorder(p.childTree, p.childTree, p.childTree);
    SecondMayGo(Child1(p), Child2(p));
    PromotesChildAt(p, 9, Row(Some(2), None), [Base1(p), Base2(p)], Row(Some(1), Some(2)),
                  [Child1(p), Child2(p)]);
  }

  lemma ChildRollsBack(p: Plot)
    requires Sensible(p)
    ensures Is(After(p, 11), Row(Some(2), None), [Base1(p), Base2(p)], Row(Some(2), Some(1)), [Child1(p), Child2(p)])
  {
    ChildRebased(p);
    var st := After(p, 10);
    Continues(p, 10, st);
    C.CheckPreorder(p.childTree, p.childTree, p.childTree);
    RolledBackChild(st, Row(Some(2), None), [Base1(p), Base2(p)], Row(Some(2), None),
                    [Child1(p), Child2(p)], 1);
  }

  lemma ChildRolledBack(p: Plot)
    requires Sensible(p)
    ensures Is(After(p, 12), Row(Some(2), None), [Base1(p), Base2(p)], Row(Some(1), None), [Child1(p), Child2(p)])
  {
    ChildRollsBack(p);
    OlderMayGo(Child1(p), Child2(p));
    PromotesChildAt(p, 11, Row(Some(2), None), [Base1(p), Base2(p)], Row(Some(2), Some(1)),
                  [Child1(p), Child2(p)]);
  }

  lemma BehindOrNot(st: State, c: Row, p: Plot)
    requires Is(st, Row(Some(2), None), [Base1(p), Base2(p)], c, [Child1(p), Child2(p)]) && Agree(st) && p.first != []
    ensures c.current == Some(1) ==> Available(st, Child)
    ensures c.current == Some(2) ==> !Available(st, Child)
  {
    assert AgreeAt(st, Child);
    if c.current == Some(1) {
      var d := Dep("base", "t", p.first[0].filename, 1);
      assert p.first[0] in p.first;
      assert d in PinsAt(st.store, Child, 1) && CurrentNumber(st.store, Key(d.ns, d.schema)) == 2;
    }
  }

  /**
   Whatever the two schemas publish: no rebase is available before the last Promote, and that Promote,
   which touches the child namespace alone, makes one available.
   */
  lemma StoryFallsBehind(p: Plot)
    requires Sensible(p)
    ensures AdmittedRun(Fresh, Story(p, LENGTH))
    ensures var before, after := Run(Fresh, Story(p, LENGTH - 1)), Run(Fresh, Story(p, LENGTH));
            && !Available(before, Child) && Available(after, Child)
            && RowOf(after.store, Base) == RowOf(before.store, Base)
  {
    StoryAdmitted(p, 12);
    var before, after := After(p, 11), After(p, 12);
    ChildRollsBack(p);
    ChildRolledBack(p);
    StoryAgrees(p, 11);
    StoryAgrees(p, 12);
    BehindOrNot(before, Row(Some(2), Some(1)), p);
    BehindOrNot(after, Row(Some(1), None), p);
  }

  // ---------------------------------------------------------------------------
  // With real files
  // ---------------------------------------------------------------------------

  function Hash(c: char): string { seq(F.HASH_LENGTH, _ => c) }

  const FirstTree: Tree := [File("t.proto", ["base"], [], [], [], [])]
  const SecondTree: Tree := [File("t.proto", ["base"], [Message("T", [], [], [], [], [])], [], [], [])]
  const ChildTree: Tree := [File("s.proto", ["child"], [], [], [], [])]

  /** The second version of the base schema adds a message. */
  const Example := Plot([F.FileHash("t.proto", Hash('1'))], FirstTree, [F.FileHash("t.proto", Hash('2'))], SecondTree,
                        [F.FileHash("s.proto", Hash('3'))], ChildTree)

  lemma SecondPasses()
    ensures C.Passes(Some(FirstTree), SecondTree)
  {
    C.CheckExact(FirstTree, SecondTree);
    forall x | C.TreeStates(FirstTree, x) ensures C.TreeStates(SecondTree, x) {
      assert C.FileStates(SecondTree[0], x);
    }
  }

  lemma OtherHash(name: string, c: char, d: char)
    requires '\n' !in name && F.IsHash(Hash(c)) && F.IsHash(Hash(d)) && c != d
    ensures F.Text(F.Sort([F.FileHash(name, Hash(c))])) != F.Text(F.Sort([F.FileHash(name, Hash(d))]))
  {
    var a, b := [F.FileHash(name, Hash(c))], [F.FileHash(name, Hash(d))];
    F.NoNewlineIsClean(name);
    F.TextExact(a, b);
    assert Hash(c)[0] != Hash(d)[0];
    assert a[0] in a && a[0] !in b;
  }

  lemma ExampleSensible()
    ensures Sensible(Example)
  {
    SecondPasses();
    OtherHash("t.proto", '1', '2');
  }

  lemma RolledBackFallsBehind()
    ensures AdmittedRun(Fresh, Story(Example, LENGTH))
    ensures !Available(Run(Fresh, Story(Example, LENGTH - 1)), Child)
    ensures Available(Run(Fresh, Story(Example, LENGTH)), Child)
  {
    ExampleSensible();
    StoryFallsBehind(Example);
  }
}
