/**
 The loader that publishes a directory of proto files in dependency order by repeated passes.
 */
module Loader {
  import opened ImportOrder

  datatype ProtoFile = ProtoFile(filename: Path, imports: seq<Path>)
  datatype Attempt = Attempt(filename: Path, accepted: bool)

  function Names(protos: seq<ProtoFile>): set<Path> {
    set p | p in protos :: p.filename
  }

  /** The directory walk yields each relative path once. */
  ghost predicate NamesDistinct(protos: seq<ProtoFile>) {
    forall p, q :: p in protos && q in protos && p.filename == q.filename ==> p == q
  }

  /** `g` is the import graph among the files of the set. */
  ghost predicate IsGraph(g: Imports, protos: seq<ProtoFile>) {
    && g.Keys == Names(protos)
    && (forall p, q :: p in protos ==> (Edge(g, p.filename, q) <==> q in p.imports && q in Names(protos)))
  }

  lemma GraphExists(protos: seq<ProtoFile>) returns (g: Imports)
    requires NamesDistinct(protos)
    ensures IsGraph(g, protos) && Closed(g)
  {
    g := map n | n in Names(protos) :: InSet(Names(protos), FileNamed(protos, n).imports);
    forall p, q | p in protos ensures Edge(g, p.filename, q) <==> q in p.imports && q in Names(protos) {
      assert FileNamed(protos, p.filename) == p;
      InSetMembers(Names(protos), p.imports, q);
    }
    forall n, q | n in g && q in g[n] ensures q in g { InSetMembers(Names(protos), FileNamed(protos, n).imports, q); }
  }

  function InSet(names: set<Path>, imports: seq<Path>): seq<Path> {
    if imports == [] then [] else
      (if imports[0] in names then [imports[0]] else []) + InSet(names, imports[1..])
  }

  lemma InSetMembers(names: set<Path>, imports: seq<Path>, q: Path)
    ensures q in InSet(names, imports) <==> q in imports && q in names
  {
  }

  ghost function FileNamed(protos: seq<ProtoFile>, name: Path): ProtoFile
    requires name in Names(protos)
    ensures FileNamed(protos, name) in protos && FileNamed(protos, name).filename == name
  {
    var p :| p in protos && p.filename == name; p
  }

  function Published(attempts: seq<Attempt>): seq<Path> {
    if attempts == [] then [] else
      var a := attempts[|attempts| - 1];
      Published(attempts[..|attempts| - 1]) + if a.accepted then [a.filename] else []
  }

  /** Every import of the set was published before the file was tried. */
  ghost predicate Ordered(g: Imports, attempts: seq<Attempt>) {
    forall i, q :: 0 <= i < |attempts| && Edge(g, attempts[i].filename, q) ==> q in Published(attempts[..i])
  }

  ghost predicate TriedOnce(attempts: seq<Attempt>) {
    forall i, j :: 0 <= i < j < |attempts| ==> attempts[i].filename != attempts[j].filename
  }

  ghost predicate Rejected(attempts: seq<Attempt>, f: Path) {
    Attempt(f, false) in attempts
  }

  /** The bookkeeping of the passes. */
  ghost predicate LoadInv(g: Imports, attempts: seq<Attempt>, loaded: set<Path>, failed: set<Path>) {
    && TriedOnce(attempts) && Ordered(g, attempts)
    && loaded <= g.Keys && failed <= g.Keys && loaded !! failed
    && (forall f :: f in loaded <==> Attempt(f, true) in attempts)
    && (forall f :: Rejected(attempts, f) ==> f in failed)
    && (forall f :: f in failed ==> Doomed(g, attempts, f))
  }

  /** The file was rejected, or imports a rejected file, directly or through others. */
  ghost predicate Doomed(g: Imports, attempts: seq<Attempt>, f: Path) {
    exists q :: Rejected(attempts, q) && (f == q || Imported(g, f, q))
  }

  /** The verdicts in the list are those of the server at the time. */
  ghost predicate Judged(attempts: seq<Attempt>, accepts: (Path, seq<Path>) -> bool) {
    forall i :: 0 <= i < |attempts| ==>
      attempts[i].accepted == accepts(attempts[i].filename, Published(attempts[..i]))
  }

  /** The file has an import in the set that is not loaded. */
  ghost predicate Blocked(g: Imports, loaded: set<Path>, f: Path) {
    exists q :: Edge(g, f, q) && q !in loaded
  }

  lemma {:induction false} PublishedMembers(attempts: seq<Attempt>, f: Path)
    ensures f in Published(attempts) <==> Attempt(f, true) in attempts
  {
    if attempts != [] {
      PublishedMembers(attempts[..|attempts| - 1], f);
      assert attempts == attempts[..|attempts| - 1] + [attempts[|attempts| - 1]];
    }
  }

  lemma ImportOf(g: Imports, protos: seq<ProtoFile>, p: ProtoFile, q: Path)
    requires IsGraph(g, protos) && p in protos && Edge(g, p.filename, q)
    ensures q in p.imports && q in Names(protos)
  {
  }

  lemma TryKeeps(g: Imports, protos: seq<ProtoFile>, attempts: seq<Attempt>, loaded: set<Path>, failed: set<Path>,
                 p: ProtoFile, ok: bool)
    requires IsGraph(g, protos) && LoadInv(g, attempts, loaded, failed)
    requires p in protos && p.filename !in loaded && p.filename !in failed
    requires forall q :: q in p.imports && q in Names(protos) ==> q in loaded
    ensures LoadInv(g, attempts + [Attempt(p.filename, ok)],
                    if ok then loaded + {p.filename} else loaded, if ok then failed else failed + {p.filename})
  {
    var a := attempts + [Attempt(p.filename, ok)];
    assert a[|attempts|] == Attempt(p.filename, ok);
    assert forall b :: b in a <==> b in attempts || b == Attempt(p.filename, ok);
    forall i, q | 0 <= i < |a| && Edge(g, a[i].filename, q) ensures q in Published(a[..i]) {
      assert a[..i] == attempts[..i];
      if i == |attempts| {
        ImportOf(g, protos, p, q);
        PublishedMembers(attempts, q);
        assert attempts[..i] == attempts;
      }
    }
    forall i | 0 <= i < |attempts| ensures attempts[i].filename != p.filename {
      assert attempts[i] in attempts;
      assert attempts[i] == Attempt(attempts[i].filename, attempts[i].accepted);
    }
    forall f | f in failed ensures Doomed(g, a, f) {
      var q :| Rejected(attempts, q) && (f == q || Imported(g, f, q));
      assert Rejected(a, q);
    }
    assert !ok ==> Rejected(a, p.filename);
  }

  lemma FailKeeps(g: Imports, protos: seq<ProtoFile>, attempts: seq<Attempt>, loaded: set<Path>, failed: set<Path>,
                  p: ProtoFile, q: Path)
    requires IsGraph(g, protos) && LoadInv(g, attempts, loaded, failed)
    requires p in protos && p.filename !in loaded && q in p.imports && q in failed
    ensures LoadInv(g, attempts, loaded, failed + {p.filename})
  {
    var r :| Rejected(attempts, r) && (q == r || Imported(g, q, r));
    ImportedThrough(g, p.filename, q, r);
  }

  /** `q` is the first import of the file that is in the set and not loaded. */
  ghost predicate FirstUnmet(p: ProtoFile, names: set<Path>, loaded: set<Path>, q: Path) {
    exists i :: 0 <= i < |p.imports| && p.imports[i] == q && q in names && q !in loaded &&
      MetBefore(p, names, loaded, i)
  }

  ghost predicate MetBefore(p: ProtoFile, names: set<Path>, loaded: set<Path>, i: nat)
    requires i <= |p.imports|
  {
    forall j :: 0 <= j < i && p.imports[j] in names ==> p.imports[j] in loaded
  }

  lemma OneFirstUnmet(p: ProtoFile, names: set<Path>, loaded: set<Path>, q: Path, r: Path)
    requires FirstUnmet(p, names, loaded, q) && FirstUnmet(p, names, loaded, r)
    ensures q == r
  {
  }

  /** Loading another file keeps it the first, as long as it is not the file loaded. */
  lemma StillFirst(p: ProtoFile, names: set<Path>, loaded: set<Path>, x: Path, q: Path)
    requires FirstUnmet(p, names, loaded, q) && q != x
    ensures FirstUnmet(p, names, loaded + {x}, q)
  {
    var i :| 0 <= i < |p.imports| && p.imports[i] == q && q in names && q !in loaded && MetBefore(p, names, loaded, i);
    assert MetBefore(p, names, loaded + {x}, i);
  }

  /** The scan over the imports of one file, up to the first that is in the set and not loaded. */
  method Ready(p: ProtoFile, names: set<Path>, loaded: set<Path>, failed: set<Path>)
    returns (canPublish: bool, depFailed: bool, culprit: Path)
    ensures canPublish <==> forall q :: q in p.imports && q in names ==> q in loaded
    ensures !canPublish ==> FirstUnmet(p, names, loaded, culprit)
    ensures depFailed <==> !canPublish && culprit in failed
  {
    canPublish, depFailed, culprit := true, false, "";
    var i := 0;
    while i < |p.imports|
      invariant 0 <= i <= |p.imports| && canPublish && !depFailed
      invariant forall j :: 0 <= j < i && p.imports[j] in names ==> p.imports[j] in loaded
    {
      var q := p.imports[i];
      if q !in loaded && q in names {
        assert MetBefore(p, names, loaded, i);
        return false, q in failed, q;
      }
      i := i + 1;
    }
  }

  lemma JudgedExtends(attempts: seq<Attempt>, accepts: (Path, seq<Path>) -> bool, f: Path)
    requires Judged(attempts, accepts)
    ensures Judged(attempts + [Attempt(f, accepts(f, Published(attempts)))], accepts)
  {
    var a := attempts + [Attempt(f, accepts(f, Published(attempts)))];
    forall i | 0 <= i < |a| ensures a[i].accepted == accepts(a[i].filename, Published(a[..i])) {
      assert a[..i] == attempts[..i];
      if i == |attempts| { assert attempts[..i] == attempts; }
    }
  }

  datatype Progress = Progress(attempts: seq<Attempt>, loaded: set<Path>, failed: set<Path>)

  ghost predicate Good(g: Imports, accepts: (Path, seq<Path>) -> bool, s: Progress) {
    LoadInv(g, s.attempts, s.loaded, s.failed) && Judged(s.attempts, accepts)
  }

  ghost predicate Precedes(protos: seq<ProtoFile>, q: Path, i: nat)
    requires i <= |protos|
  {
    exists j :: 0 <= j < i && protos[j].filename == q
  }

  /** The first unmet import of file `i` is failed, and was so before the pass or comes earlier in it. */
  ghost predicate Cause(protos: seq<ProtoFile>, before: set<Path>, s: Progress, i: nat, q: Path)
    requires i < |protos|
  {
    && FirstUnmet(protos[i], Names(protos), s.loaded, q) && q in s.failed
    && (q in before || Precedes(protos, q, i))
  }

  ghost predicate Explained(protos: seq<ProtoFile>, before: set<Path>, s: Progress, f: Path) {
    Rejected(s.attempts, f) ||
    exists i, q :: 0 <= i < |protos| && protos[i].filename == f && Cause(protos, before, s, i, q)
  }

  /** Every failed file was rejected or has such a cause. */
  ghost predicate AllExplained(protos: seq<ProtoFile>, before: set<Path>, s: Progress) {
    forall f :: f in s.failed ==> Explained(protos, before, s, f)
  }

  /** The file is loaded, failed, or has an import in the set that is not loaded. */
  ghost predicate Settled(g: Imports, s: Progress, f: Path) {
    f in s.loaded || f in s.failed || Blocked(g, s.loaded, f)
  }

  /**
   The body of a pass for one file.  `accepts` stands for the server: may the file be published,
   given what was published before?
   */
  method Visit(ghost g: Imports, protos: seq<ProtoFile>, accepts: (Path, seq<Path>) -> bool, p: ProtoFile, s: Progress)
    returns (t: Progress)
    requires IsGraph(g, protos) && p in protos && Good(g, accepts, s)
    ensures Good(g, accepts, t)
    ensures t.loaded == s.loaded || t.loaded == s.loaded + {p.filename}
    ensures s.failed <= t.failed <= s.failed + {p.filename}
    ensures Settled(g, t, p.filename)
    ensures p.filename in s.failed ==> t == s
    ensures forall a :: a in s.attempts ==> a in t.attempts
    ensures t.failed != s.failed ==> NewlyFailed(protos, p, s, t)
    ensures forall q :: FirstUnmet(p, Names(protos), s.loaded, q) && q in s.failed ==> p.filename in t.failed
  {
    if p.filename in s.loaded { LoadedHasNoUnmet(g, protos, s, p); }
    if p.filename in s.loaded || p.filename in s.failed { return s; }
    var canPublish, depFailed, culprit := Ready(p, Names(protos), s.loaded, s.failed);
    forall q | FirstUnmet(p, Names(protos), s.loaded, q) && !canPublish ensures q == culprit {
      OneFirstUnmet(p, Names(protos), s.loaded, q, culprit);
    }
    if depFailed {
      FailKeeps(g, protos, s.attempts, s.loaded, s.failed, p, culprit);
      return s.(failed := s.failed + {p.filename});
    }
    if !canPublish {
      return s;
    }
    var ok := accepts(p.filename, Published(s.attempts));
    TryKeeps(g, protos, s.attempts, s.loaded, s.failed, p, ok);
    JudgedExtends(s.attempts, accepts, p.filename);
    if !ok {
      return Progress(s.attempts + [Attempt(p.filename, false)], s.loaded, s.failed + {p.filename});
    }
    return Progress(s.attempts + [Attempt(p.filename, true)], s.loaded + {p.filename}, s.failed);
  }

  /** The file has just been rejected, or its first unmet import was failed. */
  ghost predicate NewlyFailed(protos: seq<ProtoFile>, p: ProtoFile, s: Progress, t: Progress) {
    && t.loaded == s.loaded
    && (Rejected(t.attempts, p.filename) ||
        exists q :: FirstUnmet(p, Names(protos), s.loaded, q) && q in s.failed)
  }

  /** What a visit does to the explanations of the failures. */
  lemma ExplainedStays(protos: seq<ProtoFile>, before: set<Path>, p: ProtoFile, s: Progress, t: Progress, f: Path)
    requires Explained(protos, before, s, f) && s.loaded !! s.failed && p.filename !in s.failed
    requires t.loaded == s.loaded || t.loaded == s.loaded + {p.filename}
    requires s.failed <= t.failed && forall a :: a in s.attempts ==> a in t.attempts
    ensures Explained(protos, before, t, f)
  {
    if !Rejected(s.attempts, f) {
      var i, q :| 0 <= i < |protos| && protos[i].filename == f && Cause(protos, before, s, i, q);
      if t.loaded != s.loaded { StillFirst(protos[i], Names(protos), s.loaded, p.filename, q); }
      assert Cause(protos, before, t, i, q);
    }
  }

  lemma VisitExplained(protos: seq<ProtoFile>, before: set<Path>, i: nat, s: Progress, t: Progress)
    requires i < |protos| && AllExplained(protos, before, s) && s.loaded !! s.failed
    requires t.loaded == s.loaded || t.loaded == s.loaded + {protos[i].filename}
    requires s.failed <= t.failed <= s.failed + {protos[i].filename}
    requires forall a :: a in s.attempts ==> a in t.attempts
    requires protos[i].filename in s.failed ==> t == s
    requires t.failed != s.failed ==> NewlyFailed(protos, protos[i], s, t)
    requires forall f :: f in s.failed ==> f in before || Precedes(protos, f, i)
    ensures AllExplained(protos, before, t)
  {
    forall f | f in t.failed ensures Explained(protos, before, t, f) {
      if f in s.failed {
        if t != s { ExplainedStays(protos, before, protos[i], s, t, f); }
      } else if !Rejected(t.attempts, f) {
        var q :| FirstUnmet(protos[i], Names(protos), s.loaded, q) && q in s.failed;
        assert Cause(protos, before, t, i, q);
      }
    }
  }

  /** Up to file `i`: every failure is explained, and is one from before the pass or of a file listed so far. */
  ghost predicate Accounted(protos: seq<ProtoFile>, before: set<Path>, s: Progress, i: nat)
    requires i <= |protos|
  {
    // Written as a match so that the verifier keeps the predicate whole where it is promised.
    match s
    case Progress(_, _, failed) =>
      && AllExplained(protos, before, s) && forall f :: f in failed ==> f in before || Precedes(protos, f, i)
  }

  lemma VisitAccounted(protos: seq<ProtoFile>, before: set<Path>, i: nat, s: Progress, t: Progress)
    requires i < |protos| && Accounted(protos, before, s, i) && s.loaded !! s.failed
    requires t.loaded == s.loaded || t.loaded == s.loaded + {protos[i].filename}
    requires s.failed <= t.failed <= s.failed + {protos[i].filename}
    requires forall a :: a in s.attempts ==> a in t.attempts
    requires protos[i].filename in s.failed ==> t == s
    requires t.failed != s.failed ==> NewlyFailed(protos, protos[i], s, t)
    ensures Accounted(protos, before, t, i + 1)
  {
    VisitExplained(protos, before, i, s, t);
    MorePrecede(protos, i, s.failed, t.failed, before);
  }

  /** After file `i` the file is not listed again. */
  ghost predicate OnlyBefore(protos: seq<ProtoFile>, q: Path, i: nat) {
    forall j :: i <= j < |protos| ==> protos[j].filename != q
  }

  /** A pass over file `i` has failed it for its first unmet import, if that was failed by then. */
  ghost predicate SweptAt(protos: seq<ProtoFile>, before: set<Path>, s: Progress, i: nat)
    requires i < |protos|
  {
    forall q :: Due(protos, before, s, i, q) ==> protos[i].filename in s.failed
  }

  ghost predicate Due(protos: seq<ProtoFile>, before: set<Path>, s: Progress, i: nat, q: Path)
    requires i < |protos|
  {
    && FirstUnmet(protos[i], Names(protos), s.loaded, q) && q in s.failed
    && (q in before || OnlyBefore(protos, q, i))
  }

  ghost predicate Swept(protos: seq<ProtoFile>, before: set<Path>, s: Progress, n: nat)
    requires n <= |protos|
  {
    forall i :: 0 <= i < n ==> SweptAt(protos, before, s, i)
  }

  lemma VisitSweeps(protos: seq<ProtoFile>, before: set<Path>, n: nat, s: Progress, t: Progress)
    requires n < |protos| && Swept(protos, before, s, n) && before <= s.failed && t.loaded == s.loaded
    requires s.failed <= t.failed <= s.failed + {protos[n].filename}
    requires forall q :: FirstUnmet(protos[n], Names(protos), s.loaded, q) && q in s.failed ==>
             protos[n].filename in t.failed
    ensures Swept(protos, before, t, n + 1)
  {
    forall i: nat | i < n + 1 ensures SweptAt(protos, before, t, i) {
      forall q | Due(protos, before, t, i, q) ensures protos[i].filename in t.failed {
        if i < n {
          assert SweptAt(protos, before, s, i) && Due(protos, before, s, i, q);
        }
      }
    }
  }

  lemma LoadedHasNoUnmet(g: Imports, protos: seq<ProtoFile>, s: Progress, p: ProtoFile)
    requires IsGraph(g, protos) && LoadInv(g, s.attempts, s.loaded, s.failed) && p in protos && p.filename in s.loaded
    ensures forall q :: !FirstUnmet(p, Names(protos), s.loaded, q)
  {
    forall q | q in p.imports && q in Names(protos) ensures q in s.loaded { LoadedImport(g, s, p.filename, q); }
  }

  ghost predicate AllSettled(g: Imports, protos: seq<ProtoFile>, s: Progress) {
    forall p :: p in protos ==> Settled(g, s, p.filename)
  }

  lemma SettledStay(g: Imports, protos: seq<ProtoFile>, i: nat, s: Progress, t: Progress)
    requires i < |protos| && AllSettled(g, protos[..i], s) && Settled(g, t, protos[i].filename)
    requires s.loaded == t.loaded && s.failed <= t.failed
    ensures AllSettled(g, protos[..i + 1], t)
  {
    forall p | p in protos[..i + 1] ensures Settled(g, t, p.filename) {
      assert protos[..i + 1] == protos[..i] + [protos[i]];
      if p in protos[..i] { assert Settled(g, s, p.filename); }
    }
  }

  lemma SettledNames(g: Imports, protos: seq<ProtoFile>, s: Progress)
    requires AllSettled(g, protos[..|protos|], s)
    ensures forall f :: f in Names(protos) ==> Settled(g, s, f)
  {
    assert protos[..|protos|] == protos;
  }

  /** One pass over all files. */
  method Pass(ghost g: Imports, protos: seq<ProtoFile>, accepts: (Path, seq<Path>) -> bool, s: Progress)
    returns (t: Progress, progress: bool)
    requires IsGraph(g, protos) && Good(g, accepts, s) && AllExplained(protos, s.failed, s)
    ensures Good(g, accepts, t) && s.loaded <= t.loaded && s.failed <= t.failed
    ensures progress <==> t.loaded != s.loaded
    ensures !progress ==> forall f :: f in Names(protos) ==> Settled(g, t, f)
    ensures AllExplained(protos, s.failed, t)
    ensures !progress ==> Swept(protos, s.failed, t, |protos|)
  {
    t, progress := s, false;
    var i := 0;
    while i < |protos|
      invariant 0 <= i <= |protos| && Good(g, accepts, t)
      invariant s.loaded <= t.loaded && s.failed <= t.failed && (progress <==> t.loaded != s.loaded)
      invariant !progress ==> AllSettled(g, protos[..i], t) && Swept(protos, s.failed, t, i)
      invariant Accounted(protos, s.failed, t, i)
    {
      var u := Visit(g, protos, accepts, protos[i], t);
      if u.loaded != t.loaded { progress := true; }
      if !progress {
        SettledStay(g, protos, i, t, u);
        VisitSweeps(protos, s.failed, i, t, u);
      }
      VisitAccounted(protos, s.failed, i, t, u);
      t := u;
      i := i + 1;
    }
    if !progress { SettledNames(g, protos, t); }
  }

  lemma MorePrecede(protos: seq<ProtoFile>, i: nat, some: set<Path>, more: set<Path>, before: set<Path>)
    requires i < |protos| && more <= some + {protos[i].filename}
    requires forall f :: f in some ==> f in before || Precedes(protos, f, i)
    ensures forall f :: f in more ==> f in before || Precedes(protos, f, i + 1)
  {
    forall f | f in more ensures f in before || Precedes(protos, f, i + 1) {
      if f in some && f !in before {
        var j :| 0 <= j < i && protos[j].filename == f;
      } else {
        assert protos[i].filename == f || f in before;
      }
    }
  }

  lemma ExplainedLater(protos: seq<ProtoFile>, before: set<Path>, s: Progress)
    requires AllExplained(protos, before, s) && before <= s.failed
    ensures AllExplained(protos, s.failed, s)
  {
    forall f | f in s.failed ensures Explained(protos, s.failed, s, f) {
      if !Rejected(s.attempts, f) {
        var i, q :| 0 <= i < |protos| && protos[i].filename == f && Cause(protos, before, s, i, q);
        assert Cause(protos, s.failed, s, i, q);
      }
    }
  }

  /** Passes until one makes no progress; `before` is what was failed when the last one began. */
  method RunLoad(ghost g: Imports, protos: seq<ProtoFile>, accepts: (Path, seq<Path>) -> bool)
    returns (s: Progress, ghost before: set<Path>)
    requires IsGraph(g, protos)
    ensures LoadInv(g, s.attempts, s.loaded, s.failed) && Judged(s.attempts, accepts)
    ensures forall f :: f in Names(protos) ==> Settled(g, s, f)
    ensures AllExplained(protos, before, s) && Swept(protos, before, s, |protos|)
    ensures before <= s.failed && (s.loaded == {} ==> before == {})
  {
    s, before := Progress([], {}, {}), {};
    var progress := true;
    while progress
      invariant Good(g, accepts, s) && before <= s.failed && AllExplained(protos, before, s)
      invariant s.loaded == {} ==> before == {} && (progress ==> s.failed == {})
      invariant !progress ==> Swept(protos, before, s, |protos|)
      invariant !progress ==> forall f :: f in Names(protos) ==> Settled(g, s, f)
      decreases Names(protos) - s.loaded, progress
    {
      ExplainedLater(protos, before, s);
      before := s.failed;
      s, progress := Pass(g, protos, accepts, s);
    }
  }

  /** No file name is listed twice. */
  ghost predicate ListedOnce(protos: seq<ProtoFile>) {
    forall i, j :: 0 <= i < j < |protos| ==> protos[i].filename != protos[j].filename
  }

  /**
   A file ends up failed exactly when it was rejected, or its first import in the set that is not
   loaded is failed and was so before the last pass or is listed before the file.
   */
  lemma FailedExactly(g: Imports, protos: seq<ProtoFile>, s: Progress, before: set<Path>, i: nat)
    requires ListedOnce(protos) && LoadInv(g, s.attempts, s.loaded, s.failed) && i < |protos|
    requires AllExplained(protos, before, s) && Swept(protos, before, s, |protos|)
    ensures protos[i].filename in s.failed <==>
            Rejected(s.attempts, protos[i].filename) || exists q :: Cause(protos, before, s, i, q)
  {
    var f := protos[i].filename;
    if f in s.failed && !Rejected(s.attempts, f) {
      assert Explained(protos, before, s, f);
      var j, q :| 0 <= j < |protos| && protos[j].filename == f && Cause(protos, before, s, j, q);
      assert j == i;
    }
    if q :| Cause(protos, before, s, i, q) {
      assert SweptAt(protos, before, s, i);
      if q !in before {
        var j :| 0 <= j < i && protos[j].filename == q;
        assert OnlyBefore(protos, q, i);
      }
      assert Due(protos, before, s, i, q);
    }
  }

  /**
   The last pass makes progress only by loading.  A file that is listed before a rejected import of
   its own is left neither loaded nor failed.
   */
  method WaitsUnreported() returns (s: Progress)
    ensures "b" in s.failed && "a" !in s.loaded && "a" !in s.failed
  {
    var protos := [ProtoFile("a", ["b"]), ProtoFile("b", [])];
    var accepts: (Path, seq<Path>) -> bool := (f, before) => f != "b";
    assert protos[0] in protos && protos[1] in protos;
    ghost var g := GraphExists(protos);
    ghost var before;
    s, before := RunLoad(g, protos, accepts);
    BothOpen(g, protos, accepts, s, before);
  }

  lemma BothOpen(g: Imports, protos: seq<ProtoFile>, accepts: (Path, seq<Path>) -> bool, s: Progress, before: set<Path>)
    requires protos == [ProtoFile("a", ["b"]), ProtoFile("b", [])] && IsGraph(g, protos)
    requires forall x :: !accepts("b", x)
    requires LoadInv(g, s.attempts, s.loaded, s.failed) && Judged(s.attempts, accepts)
    requires forall f :: f in Names(protos) ==> Settled(g, s, f)
    requires AllExplained(protos, before, s) && (s.loaded == {} ==> before == {})
    ensures "b" in s.failed && "a" !in s.loaded && "a" !in s.failed
  {
    assert protos[0] in protos && protos[1] in protos;
    assert "a" in Names(protos) && "b" in Names(protos) && Edge(g, "a", "b");
    assert "b" !in s.loaded;
    forall q ensures !Edge(g, "b", q) {
      if Edge(g, protos[1].filename, q) { ImportOf(g, protos, protos[1], q); }
    }
    if "a" in s.loaded { LoadedImport(g, s, "a", "b"); }
    assert s.loaded == {};
    if Rejected(s.attempts, "a") {
      var i :| 0 <= i < |s.attempts| && s.attempts[i] == Attempt("a", false);
      assert "b" in Published(s.attempts[..i]);
      PublishedMembers(s.attempts[..i], "b");
    }
    assert forall q :: !Precedes(protos, q, 0);
  }

  // ---------------------------------------------------------------------------
  // When everything loads
  // ---------------------------------------------------------------------------

  ghost predicate Leads(g: Imports, left: set<Path>, f: Path) {
    exists q :: Edge(g, f, q) && q in left
  }

  /** Following unmet imports inside a finite set runs into a cycle. */
  lemma {:induction false} DescentFindsCycle(g: Imports, left: set<Path>, walk: seq<Path>) returns (p: Path)
    requires forall f :: f in left ==> Leads(g, left, f)
    requires IsWalk(g, walk) && Distinct(walk) && forall f :: f in walk ==> f in left
    ensures p in left && Imported(g, p, p)
    decreases |left| - |walk|
  {
    DistinctFits(walk, left);
    var last := walk[|walk| - 1];
    assert last in walk;
    assert Leads(g, left, last);
    var q :| Edge(g, last, q) && q in left;
    WalkExtends(g, walk, q);
    if q in walk {
      var i :| 0 <= i < |walk| && walk[i] == q;
      var cycle := (walk + [q])[i..];
      forall k | 0 <= k < |cycle| - 1 ensures Edge(g, cycle[k], cycle[k + 1]) {
        assert Edge(g, (walk + [q])[i + k], (walk + [q])[i + k + 1]);
      }
      assert cycle[0] == q && cycle[|cycle| - 1] == q;
      p := q;
    } else {
      DistinctFits(walk + [q], left);
      p := DescentFindsCycle(g, left, walk + [q]);
    }
  }

  lemma {:induction false} DistinctFits(walk: seq<Path>, s: set<Path>)
    requires Distinct(walk) && forall f :: f in walk ==> f in s
    ensures |walk| <= |s|
    decreases walk
  {
    if walk != [] {
      var init, last := walk[..|walk| - 1], walk[|walk| - 1];
      assert last !in init;
      DistinctFits(init, s - {last});
    }
  }

  lemma {:induction false} PublishedOrder(g: Imports, attempts: seq<Attempt>)
    requires Ordered(g, attempts) && TriedOnce(attempts)
    ensures Topological(g, Published(attempts)) && Distinct(Published(attempts))
    decreases attempts
  {
    if attempts != [] {
      var init, last := attempts[..|attempts| - 1], attempts[|attempts| - 1];
      assert forall i :: 0 <= i <= |init| ==> init[..i] == attempts[..i];
      PublishedOrder(g, init);
      if last.accepted { PublishedLast(g, attempts); } else { assert Published(attempts) == Published(init); }
    }
  }

  lemma PublishedLast(g: Imports, attempts: seq<Attempt>)
    requires attempts != [] && Ordered(g, attempts) && TriedOnce(attempts)
    requires var out := Published(attempts[..|attempts| - 1]); Topological(g, out) && Distinct(out)
    ensures var out := Published(attempts[..|attempts| - 1]) + [attempts[|attempts| - 1].filename];
            Topological(g, out) && Distinct(out)
  {
    var init, last := attempts[..|attempts| - 1], attempts[|attempts| - 1].filename;
    var done := Published(init);
    var out := done + [last];
    PublishedMembers(init, last);
    forall i, q | 0 <= i < |out| && Edge(g, out[i], q) ensures q in out[..i] {
      if i < |done| { assert Edge(g, done[i], q) && done[..i] == out[..i]; } else { assert out[..i] == done; }
    }
  }

  ghost predicate NoImportCycle(g: Imports) {
    forall p :: p in g ==> !Imported(g, p, p)
  }

  lemma ImportedTwice(g: Imports, p: Path, q: Path, r: Path)
    requires Imported(g, p, q) && Imported(g, q, r)
    ensures Imported(g, p, r)
  {
    var a :| IsWalk(g, a) && |a| > 1 && a[0] == p && a[|a| - 1] == q;
    var b :| IsWalk(g, b) && |b| > 1 && b[0] == q && b[|b| - 1] == r;
    var walk := a + b[1..];
    forall i | 0 <= i < |walk| - 1 ensures Edge(g, walk[i], walk[i + 1]) {
      if i < |a| - 1 {
        assert Edge(g, a[i], a[i + 1]);
      } else {
        var k := i - (|a| - 1);
        assert walk[i] == b[k] && walk[i + 1] == b[k + 1];
        assert Edge(g, b[k], b[k + 1]);
      }
    }
    assert walk[0] == p && walk[|walk| - 1] == r;
  }

  /** What a loaded file imports is loaded. */
  lemma LoadedImport(g: Imports, s: Progress, f: Path, q: Path)
    requires LoadInv(g, s.attempts, s.loaded, s.failed) && f in s.loaded && Edge(g, f, q)
    ensures q in s.loaded
  {
    var i :| 0 <= i < |s.attempts| && s.attempts[i] == Attempt(f, true);
    assert q in Published(s.attempts[..i]);
    PublishedMembers(s.attempts[..i], q);
  }

  /** A loaded file was not rejected and is on no cycle. */
  lemma LoadedIsSound(g: Imports, s: Progress, q: Path)
    requires LoadInv(g, s.attempts, s.loaded, s.failed) && q in s.loaded
    ensures !Rejected(s.attempts, q) && !Imported(g, q, q)
  {
    PublishedOrder(g, s.attempts);
    PublishedMembers(s.attempts, q);
    var out := Published(s.attempts);
    if Imported(g, q, q) {
      var walk :| IsWalk(g, walk) && |walk| > 1 && walk[0] == q && walk[|walk| - 1] == q;
      var i :| 0 <= i < |out| && out[i] == q;
      WalkDescends(g, out, walk, i);
    }
  }

  /** The file, and everything it imports through others, was not rejected and is on no import cycle. */
  ghost predicate Loadable(g: Imports, attempts: seq<Attempt>, f: Path) {
    forall q :: q == f || Imported(g, f, q) ==> !Rejected(attempts, q) && !Imported(g, q, q)
  }

  lemma LoadedLoadable(g: Imports, s: Progress, f: Path)
    requires LoadInv(g, s.attempts, s.loaded, s.failed) && f in s.loaded
    ensures Loadable(g, s.attempts, f)
  {
    forall q | q == f || Imported(g, f, q) ensures !Rejected(s.attempts, q) && !Imported(g, q, q) {
      if q != f {
        var walk :| IsWalk(g, walk) && |walk| > 1 && walk[0] == f && walk[|walk| - 1] == q;
        forall x, y | x in s.loaded && Edge(g, x, y) ensures y in s.loaded { LoadedImport(g, s, x, y); }
        ClosedContains(g, s.loaded, walk);
      }
      LoadedIsSound(g, s, q);
    }
  }

  /** A file below `f` that is not loaded has an import that is not loaded either. */
  lemma LeftoverLeads(g: Imports, s: Progress, f: Path, left: set<Path>, x: Path)
    requires Closed(g) && LoadInv(g, s.attempts, s.loaded, s.failed) && Loadable(g, s.attempts, f)
    requires forall y :: y in left <==> y in g && y !in s.loaded && (y == f || Imported(g, f, y))
    requires x in left && Settled(g, s, x)
    ensures Leads(g, left, x)
  {
    if x in s.failed {
      var q :| Rejected(s.attempts, q) && (x == q || Imported(g, x, q));
      if x != f && x != q { ImportedTwice(g, f, x, q); }
    }
    var q :| Edge(g, x, q) && q !in s.loaded;
    ImportedEdge(g, f, x, q);
  }

  lemma LoadableLoaded(g: Imports, s: Progress, f: Path)
    requires Closed(g) && LoadInv(g, s.attempts, s.loaded, s.failed) && f in g && Loadable(g, s.attempts, f)
    requires forall x :: x in g ==> Settled(g, s, x)
    ensures f in s.loaded
  {
    if f !in s.loaded {
      var left := set x | x in g.Keys && x !in s.loaded && (x == f || Imported(g, f, x));
      forall x | x in left ensures Leads(g, left, x) { LeftoverLeads(g, s, f, left, x); }
      var p := DescentFindsCycle(g, left, [f]);
    }
  }

  /**
   Whatever the server rejects: exactly those files are loaded that, together with all they import
   through others, were not rejected and are on no import cycle.
   */
  lemma LoadedExactly(g: Imports, s: Progress, f: Path)
    requires Closed(g) && LoadInv(g, s.attempts, s.loaded, s.failed) && f in g
    requires forall x :: x in g ==> Settled(g, s, x)
    ensures f in s.loaded <==> Loadable(g, s.attempts, f)
  {
    if f in s.loaded { LoadedLoadable(g, s, f); }
    if Loadable(g, s.attempts, f) { LoadableLoaded(g, s, f); }
  }

  /**
   On a set where the server accepts every file it is given, the loader loads every file exactly
   when no file imports itself through the set.
   */
  lemma AllLoadedIffAcyclic(g: Imports, s: Progress)
    requires Closed(g) && LoadInv(g, s.attempts, s.loaded, s.failed)
    requires forall f :: f in g ==> Settled(g, s, f)
    requires forall a :: a in s.attempts ==> a.accepted
    ensures s.failed == {}
    ensures s.loaded == g.Keys <==> NoImportCycle(g)
  {
    NoneFailed(g, s);
    forall f | f in g ensures f in s.loaded <==> Loadable(g, s.attempts, f) { LoadedExactly(g, s, f); }
    if NoImportCycle(g) {
      forall f | f in g ensures Loadable(g, s.attempts, f) {
        forall q | q == f || Imported(g, f, q) ensures !Imported(g, q, q) { CycleInside(g, q); }
      }
    } else {
      var p :| p in g && Imported(g, p, p);
      assert !Loadable(g, s.attempts, p);
    }
  }

  /** A file on a cycle has imports, so it is in the set. */
  lemma CycleInside(g: Imports, q: Path)
    ensures Imported(g, q, q) ==> q in g
  {
    if Imported(g, q, q) {
      var walk :| IsWalk(g, walk) && |walk| > 1 && walk[0] == q && walk[|walk| - 1] == q;
      assert Edge(g, walk[0], walk[1]);
    }
  }

  lemma NoneFailed(g: Imports, s: Progress)
    requires LoadInv(g, s.attempts, s.loaded, s.failed) && forall a :: a in s.attempts ==> a.accepted
    ensures s.failed == {}
  {
    forall f | f in s.failed ensures false {
      assert Doomed(g, s.attempts, f);
    }
  }

  /** The import graph of the set: the imports of each file that are files of the set themselves. */
  ghost predicate Loads(protos: seq<ProtoFile>, accepts: (Path, seq<Path>) -> bool, s: Progress, g: Imports) {
    && IsGraph(g, protos) && Closed(g)
    && LoadInv(g, s.attempts, s.loaded, s.failed) && Judged(s.attempts, accepts)
    && forall f :: f in g ==> Settled(g, s, f)
  }

  /**
   Loading a directory: every file is settled with respect to the import graph of the directory, and
   exactly the loadable files are loaded; with a server that accepts everything all files load exactly
   when that graph has no cycle.
   */
  method LoadDirectory(protos: seq<ProtoFile>, accepts: (Path, seq<Path>) -> bool)
    returns (s: Progress, ghost g: Imports)
    requires NamesDistinct(protos)
    ensures Loads(protos, accepts, s, g)
    ensures forall f :: f in Names(protos) ==> (f in s.loaded <==> Loadable(g, s.attempts, f))
    ensures (forall f, before :: accepts(f, before)) ==> (s.loaded == Names(protos) <==> NoImportCycle(g))
  {
    g := GraphExists(protos);
    ghost var before;
    s, before := RunLoad(g, protos, accepts);
    forall f | f in g ensures f in s.loaded <==> Loadable(g, s.attempts, f) { LoadedExactly(g, s, f); }
    if forall f, before :: accepts(f, before) {
      forall a | a in s.attempts ensures a.accepted {
        var i :| 0 <= i < |s.attempts| && s.attempts[i] == a;
        assert s.attempts[i].accepted == accepts(s.attempts[i].filename, Published(s.attempts[..i]));
      }
      AllLoadedIffAcyclic(g, s);
    }
  }
}
