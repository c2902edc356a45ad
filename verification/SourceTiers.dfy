/**
 How the compiler resolves an import: an own tier of sources and same-namespace dependencies, one
 tier per ancestor, nearest first, then the built-in sources.  The first tier with the file wins.
 */
module SourceTiers {
  import opened Descriptors

  type Filename = string
  type Source = string
  type Tier = map<Filename, Source>

  datatype Dep = Dep(filename: Filename, source: Source)

  /** The last listed dependency with that file name. */
  function LastDep(deps: seq<Dep>, f: Filename): Option<Source> {
    if deps == [] then None else
    if deps[|deps| - 1].filename == f then Some(deps[|deps| - 1].source) else LastDep(deps[..|deps| - 1], f)
  }

  function At(tier: Tier, f: Filename): Option<Source> {
    if f in tier then Some(tier[f]) else None
  }

  function OrElse(a: Option<Source>, b: Option<Source>): Option<Source> {
    if a.Some? then a else b
  }

  /** One tier: dependencies overwrite sources of the same name, and later ones overwrite earlier ones. */
  method SourceMap(sources: Tier, deps: seq<Dep>) returns (merged: Tier)
    ensures forall f :: At(merged, f) == OrElse(LastDep(deps, f), At(sources, f))
  {
    merged := sources;
    for i := 0 to |deps|
      invariant forall f :: At(merged, f) == OrElse(LastDep(deps[..i], f), At(sources, f))
    {
      assert deps[..i + 1][..i] == deps[..i];
      merged := merged[deps[i].filename := deps[i].source];
    }
    assert deps[..|deps|] == deps;
  }

  function Resolve(tiers: seq<Tier>, f: Filename): Option<Source> {
    if tiers == [] then None else OrElse(At(tiers[0], f), Resolve(tiers[1..], f))
  }

  lemma {:induction false} ResolveLast(tiers: seq<Tier>, t: Tier, f: Filename)
    ensures Resolve(tiers + [t], f) == OrElse(Resolve(tiers, f), At(t, f))
    decreases tiers
  {
    if tiers == [] {
      assert tiers + [t] == [t];
    } else {
      assert (tiers + [t])[1..] == tiers[1..] + [t];
      ResolveLast(tiers[1..], t, f);
    }
  }

  /** The nearest ancestor whose files have that name. */
  function Nearest(chain: seq<seq<Dep>>, f: Filename): Option<Source> {
    if chain == [] then None else
      OrElse(Nearest(chain[..|chain| - 1], f), LastDep(chain[|chain| - 1], f))
  }

  /** What a file name resolves to, tier by tier. */
  function Found(sources: Tier, deps: seq<Dep>, chain: seq<seq<Dep>>, builtins: seq<Dep>, bundled: Tier, standard: Tier,
                 f: Filename): Option<Source>
  {
    var own := OrElse(LastDep(deps, f), At(sources, f));
    OrElse(own, OrElse(Nearest(chain, f), OrElse(LastDep(builtins, f), OrElse(At(bundled, f), At(standard, f)))))
  }

  // ---------------------------------------------------------------------------
  // Where a file can come from, first to last
  // ---------------------------------------------------------------------------

  datatype Origin = Listed(deps: seq<Dep>) | Mapped(tier: Tier)

  /** In a list the last entry of a name counts. */
  ghost predicate Has(o: Origin, f: Filename, s: Source) {
    match o
    case Listed(deps) => exists i :: 0 <= i < |deps| && deps[i] == Dep(f, s) && LastNamed(deps, f, i)
    case Mapped(tier) => f in tier && tier[f] == s
  }

  ghost predicate LastNamed(deps: seq<Dep>, f: Filename, i: nat) {
    forall j :: i < j < |deps| ==> deps[j].filename != f
  }

  /** The dependencies of the namespace, the submitted sources, each ancestor from the nearest on, and the rest. */
  function Origins(sources: Tier, deps: seq<Dep>, chain: seq<seq<Dep>>, builtins: seq<Dep>, bundled: Tier,
                   standard: Tier): seq<Origin>
  {
    [Listed(deps), Mapped(sources)] + seq(|chain|, i requires 0 <= i < |chain| => Listed(chain[i])) +
    [Listed(builtins), Mapped(bundled), Mapped(standard)]
  }

  /** Some origin has that content for the file, and no origin before it has the file. */
  ghost predicate FirstHas(os: seq<Origin>, f: Filename, s: Source) {
    exists i :: 0 <= i < |os| && Has(os[i], f, s) && NoneBefore(os, f, i)
  }

  ghost predicate NoneBefore(os: seq<Origin>, f: Filename, i: nat)
    requires i <= |os|
  {
    forall j, s :: 0 <= j < i ==> !Has(os[j], f, s)
  }

  function Offer(o: Origin, f: Filename): Option<Source> {
    match o
    case Listed(deps) => LastDep(deps, f)
    case Mapped(tier) => At(tier, f)
  }

  lemma {:induction false} LastDepExact(deps: seq<Dep>, f: Filename, s: Source)
    ensures LastDep(deps, f) == Some(s) <==> Has(Listed(deps), f, s)
    decreases deps
  {
    if deps != [] {
      var init, last := deps[..|deps| - 1], deps[|deps| - 1];
      LastDepExact(init, f, s);
      assert forall i :: 0 <= i < |init| ==> init[i] == deps[i];
      if last.filename == f {
        if Has(Listed(deps), f, s) {
          var i :| 0 <= i < |deps| && deps[i] == Dep(f, s) && LastNamed(deps, f, i);
          assert i == |deps| - 1;
        }
        if last.source == s { assert deps[|deps| - 1] == Dep(f, s) && LastNamed(deps, f, |deps| - 1); }
      } else {
        LastElsewhere(deps, f, s);
      }
    }
  }

  lemma LastElsewhere(deps: seq<Dep>, f: Filename, s: Source)
    requires deps != [] && deps[|deps| - 1].filename != f
    ensures Has(Listed(deps), f, s) <==> Has(Listed(deps[..|deps| - 1]), f, s)
  {
    var init := deps[..|deps| - 1];
    if Has(Listed(deps), f, s) {
      var i :| 0 <= i < |deps| && deps[i] == Dep(f, s) && LastNamed(deps, f, i);
      assert init[i] == Dep(f, s) && LastNamed(init, f, i);
    }
    if Has(Listed(init), f, s) {
      var i :| 0 <= i < |init| && init[i] == Dep(f, s) && LastNamed(init, f, i);
      forall j | i < j < |deps| ensures deps[j].filename != f { if j < |init| { assert init[j] == deps[j]; } }
      assert deps[i] == Dep(f, s) && LastNamed(deps, f, i);
    }
  }

  lemma OfferExact(o: Origin, f: Filename, s: Source)
    ensures Offer(o, f) == Some(s) <==> Has(o, f, s)
  {
    if o.Listed? { LastDepExact(o.deps, f, s); }
  }

  function Pick(os: seq<Origin>, f: Filename): Option<Source> {
    if os == [] then None else OrElse(Offer(os[0], f), Pick(os[1..], f))
  }

  lemma {:induction false} PickExact(os: seq<Origin>, f: Filename, s: Source)
    ensures Pick(os, f) == Some(s) <==> FirstHas(os, f, s)
    decreases os
  {
    if os != [] {
      OfferExact(os[0], f, s);
      PickExact(os[1..], f, s);
      if Offer(os[0], f).Some? { PickedHere(os, f, s); } else { PickedLater(os, f, s); }
    }
  }

  lemma PickedHere(os: seq<Origin>, f: Filename, s: Source)
    requires os != [] && Offer(os[0], f).Some?
    ensures FirstHas(os, f, s) <==> Has(os[0], f, s)
  {
    OfferExact(os[0], f, Offer(os[0], f).value);
    if FirstHas(os, f, s) {
      var i :| 0 <= i < |os| && Has(os[i], f, s) && NoneBefore(os, f, i);
      assert i == 0;
    }
    if Has(os[0], f, s) { assert NoneBefore(os, f, 0); }
  }

  lemma PickedLater(os: seq<Origin>, f: Filename, s: Source)
    requires os != [] && Offer(os[0], f).None?
    ensures FirstHas(os, f, s) <==> FirstHas(os[1..], f, s)
  {
    var rest := os[1..];
    forall t ensures !Has(os[0], f, t) { OfferExact(os[0], f, t); }
    assert forall i :: 0 <= i < |rest| ==> rest[i] == os[i + 1];
    if FirstHas(os, f, s) {
      var i :| 0 <= i < |os| && Has(os[i], f, s) && NoneBefore(os, f, i);
      forall j, t | 0 <= j < i - 1 ensures !Has(rest[j], f, t) { assert !Has(os[j + 1], f, t); }
      assert Has(rest[i - 1], f, s) && NoneBefore(rest, f, i - 1);
    }
    if FirstHas(rest, f, s) {
      var i :| 0 <= i < |rest| && Has(rest[i], f, s) && NoneBefore(rest, f, i);
      forall j, t | 0 <= j < i + 1 ensures !Has(os[j], f, t) { if j > 0 { assert !Has(rest[j - 1], f, t); } }
      assert Has(os[i + 1], f, s) && NoneBefore(os, f, i + 1);
    }
  }

  lemma {:induction false} PickBoth(a: seq<Origin>, b: seq<Origin>, f: Filename)
    ensures Pick(a + b, f) == OrElse(Pick(a, f), Pick(b, f))
    decreases a
  {
    if a == [] {
      assert a + b == b;
    } else {
      assert (a + b)[1..] == a[1..] + b;
      PickBoth(a[1..], b, f);
    }
  }

  lemma {:induction false} PickAncestor(chain: seq<seq<Dep>>, f: Filename)
    ensures Pick(seq(|chain|, i requires 0 <= i < |chain| => Listed(chain[i])), f) == Nearest(chain, f)
    decreases chain
  {
    var os := seq(|chain|, i requires 0 <= i < |chain| => Listed(chain[i]));
    if chain != [] {
      var init := chain[..|chain| - 1];
      var some := seq(|init|, i requires 0 <= i < |init| => Listed(init[i]));
      PickAncestor(init, f);
      assert os == some + [Listed(chain[|chain| - 1])];
      PickBoth(some, [Listed(chain[|chain| - 1])], f);
    }
  }

  lemma FoundExact(sources: Tier, deps: seq<Dep>, chain: seq<seq<Dep>>, builtins: seq<Dep>, bundled: Tier,
                   standard: Tier, f: Filename, s: Source)
    ensures Found(sources, deps, chain, builtins, bundled, standard, f) == Some(s) <==>
            FirstHas(Origins(sources, deps, chain, builtins, bundled, standard), f, s)
  {
    var own, last := [Listed(deps), Mapped(sources)], [Listed(builtins), Mapped(bundled), Mapped(standard)];
    var above := seq(|chain|, i requires 0 <= i < |chain| => Listed(chain[i]));
    PickExact(own + above + last, f, s);
    PickBoth(own + above, last, f);
    PickBoth(own, above, f);
    PickAncestor(chain, f);
    PickTwo(Listed(deps), Mapped(sources), f);
    PickThree(Listed(builtins), Mapped(bundled), Mapped(standard), f);
  }

  lemma PickTwo(a: Origin, b: Origin, f: Filename)
    ensures Pick([a, b], f) == OrElse(Offer(a, f), Offer(b, f))
  {
    assert [a, b][1..] == [b] && [b][1..] == [];
    assert Pick([b], f) == OrElse(Offer(b, f), Pick([], f));
  }

  lemma PickThree(a: Origin, b: Origin, c: Origin, f: Filename)
    ensures Pick([a, b, c], f) == OrElse(Offer(a, f), OrElse(Offer(b, f), Offer(c, f)))
  {
    assert [a, b, c][1..] == [b, c];
    PickTwo(b, c, f);
  }

  // ---------------------------------------------------------------------------
  // Building the chain
  // ---------------------------------------------------------------------------

  method AddTier(tiers: seq<Tier>, t: Tier) returns (r: seq<Tier>)
    ensures r == tiers + [t] && forall f :: Resolve(r, f) == OrElse(Resolve(tiers, f), At(t, f))
  {
    r := tiers + [t];
    forall f ensures Resolve(r, f) == OrElse(Resolve(tiers, f), At(t, f)) { ResolveLast(tiers, t, f); }
  }

  /** A tier of dependencies; none is added for an empty list. */
  method AddDeps(tiers: seq<Tier>, deps: seq<Dep>) returns (r: seq<Tier>)
    ensures forall f :: Resolve(r, f) == OrElse(Resolve(tiers, f), LastDep(deps, f))
  {
    if deps == [] { return tiers; }
    var t := SourceMap(map[], deps);
    r := AddTier(tiers, t);
  }

  /** One tier per ancestor, nearest first. */
  method AddAncestors(tiers: seq<Tier>, chain: seq<seq<Dep>>) returns (r: seq<Tier>)
    ensures forall f :: Resolve(r, f) == OrElse(Resolve(tiers, f), Nearest(chain, f))
  {
    r := tiers;
    for i := 0 to |chain|
      invariant forall f :: Resolve(r, f) == OrElse(Resolve(tiers, f), Nearest(chain[..i], f))
    {
      assert chain[..i + 1][..i] == chain[..i];
      r := AddDeps(r, chain[i]);
    }
    assert chain[..|chain|] == chain;
  }

  /**
   The chain finds same-namespace dependencies, then own sources, then the nearest ancestor, then
   built-ins, then the schemas bundled with the registry, and the standard imports last.
   */
  method BuildChain(sources: Tier, deps: seq<Dep>, chain: seq<seq<Dep>>, builtins: seq<Dep>, bundled: Tier,
                    standard: Tier)
    returns (tiers: seq<Tier>)
    ensures forall f, s :: Resolve(tiers, f) == Some(s) <==>
                           FirstHas(Origins(sources, deps, chain, builtins, bundled, standard), f, s)
    ensures forall f :: Resolve(tiers, f) == Found(sources, deps, chain, builtins, bundled, standard, f)
  {
    var t := SourceMap(sources, deps);
    tiers := AddTier([], t);
    tiers := AddAncestors(tiers, chain);
    tiers := AddDeps(tiers, builtins);
    tiers := AddTier(tiers, bundled);
    tiers := AddTier(tiers, standard);
    forall f, s
      ensures Found(sources, deps, chain, builtins, bundled, standard, f) == Some(s) <==>
              FirstHas(Origins(sources, deps, chain, builtins, bundled, standard), f, s)
    {
      FoundExact(sources, deps, chain, builtins, bundled, standard, f, s);
    }
  }

  /** The last dependency with the name of the file has another content than the submitted source. */
  ghost predicate Overridden(sources: Tier, deps: seq<Dep>, f: Filename)
    requires f in sources
  {
    exists i :: 0 <= i < |deps| && deps[i].filename == f && deps[i].source != sources[f] &&
                forall j :: i < j < |deps| ==> deps[j].filename != f
  }

  lemma {:induction false} OverriddenByLast(sources: Tier, deps: seq<Dep>, f: Filename)
    requires f in sources
    ensures Overridden(sources, deps, f) <==> LastDep(deps, f).Some? && LastDep(deps, f) != Some(sources[f])
    decreases deps
  {
    if deps != [] {
      var init, last := deps[..|deps| - 1], deps[|deps| - 1];
      OverriddenByLast(sources, init, f);
      if last.filename == f {
        assert Overridden(sources, deps, f) <==> last.source != sources[f];
      } else {
        assert forall i :: 0 <= i < |init| ==> deps[i] == init[i];
        assert Overridden(sources, deps, f) <==> Overridden(sources, init, f);
      }
    }
  }

  /**
   In the chain that is built for it, a schema is compiled from its own source of a file exactly when
   no same-namespace dependency overrides it: the dependency, not the submitted source, wins.
   */
  method OwnSourceWinsExactly(sources: Tier, deps: seq<Dep>, chain: seq<seq<Dep>>, builtins: seq<Dep>,
                              bundled: Tier, standard: Tier)
    returns (tiers: seq<Tier>)
    ensures forall f :: f in sources ==> Resolve(tiers, f).Some?
    ensures forall f :: f in sources ==> (Resolve(tiers, f) == Some(sources[f]) <==> !Overridden(sources, deps, f))
  {
    tiers := BuildChain(sources, deps, chain, builtins, bundled, standard);
    forall f | f in sources
      ensures Resolve(tiers, f).Some? && (Resolve(tiers, f) == Some(sources[f]) <==> !Overridden(sources, deps, f))
    {
      OverriddenByLast(sources, deps, f);
    }
  }

  /** One schema submits a file that another schema of its namespace holds with another content. */
  method SubmittedSourceLoses() returns (tiers: seq<Tier>)
    ensures Resolve(tiers, "a.proto") == Some("theirs")
  {
    var deps := [Dep("a.proto", "theirs")];
    tiers := BuildChain(map["a.proto" := "mine"], deps, [], [], map[], map[]);
    assert LastDep(deps, "a.proto") == Some("theirs");
  }

  /** Ancestors never override the namespace itself, and a nearer ancestor overrides a farther one. */
  lemma {:induction false} NearerWins(chain: seq<seq<Dep>>, f: Filename, i: nat)
    requires i < |chain| && LastDep(chain[i], f).Some?
    requires forall j :: 0 <= j < i ==> LastDep(chain[j], f) == None
    ensures Nearest(chain, f) == LastDep(chain[i], f)
    decreases |chain|
  {
    if i < |chain| - 1 {
      NearerWins(chain[..|chain| - 1], f, i);
    } else {
      NothingNearer(chain[..i], f);
    }
  }

  lemma {:induction false} NothingNearer(chain: seq<seq<Dep>>, f: Filename)
    requires forall j :: 0 <= j < |chain| ==> LastDep(chain[j], f) == None
    ensures Nearest(chain, f) == None
    decreases |chain|
  {
    if chain != [] {
      NothingNearer(chain[..|chain| - 1], f);
    }
  }
}
