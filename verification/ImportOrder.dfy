/**
 The depth-first walk that lists a compiled file set with all transitive imports, dependencies
 before dependents.
 */
module ImportOrder {

  type Path = string

  /** Each file with the paths it imports; the compiler resolved every import. */
  type Imports = map<Path, seq<Path>>

  ghost predicate Closed(g: Imports) {
    forall p, q :: p in g && q in g[p] ==> q in g
  }

  // ---------------------------------------------------------------------------
  // What the list should be
  // ---------------------------------------------------------------------------

  ghost predicate Edge(g: Imports, p: Path, q: Path) {
    p in g && q in g[p]
  }

  /** `walk` is a nonempty chain of imports from its first file to its last. */
  ghost predicate IsWalk(g: Imports, walk: seq<Path>) {
    walk != [] && forall i :: 0 <= i < |walk| - 1 ==> Edge(g, walk[i], walk[i + 1])
  }

  ghost predicate Reaches(g: Imports, p: Path, q: Path) {
    exists walk :: IsWalk(g, walk) && walk[0] == p && walk[|walk| - 1] == q
  }

  ghost predicate Reachable(g: Imports, roots: seq<Path>, q: Path) {
    exists p :: p in roots && Reaches(g, p, q)
  }

  /** `q` is imported by `p`, directly or through others. */
  ghost predicate Imported(g: Imports, p: Path, q: Path) {
    exists walk :: IsWalk(g, walk) && |walk| > 1 && walk[0] == p && walk[|walk| - 1] == q
  }

  /** No file reachable from the roots imports itself, directly or through others. */
  ghost predicate Acyclic(g: Imports, roots: seq<Path>) {
    forall p :: Reachable(g, roots, p) ==> !Imported(g, p, p)
  }

  ghost predicate Distinct(out: seq<Path>) {
    forall i, j :: 0 <= i < j < |out| ==> out[i] != out[j]
  }

  /** Every file comes after all of its imports. */
  ghost predicate Topological(g: Imports, out: seq<Path>) {
    forall i, q :: 0 <= i < |out| && Edge(g, out[i], q) ==> q in out[..i]
  }

  lemma WalkExtends(g: Imports, walk: seq<Path>, q: Path)
    requires IsWalk(g, walk) && Edge(g, walk[|walk| - 1], q)
    ensures IsWalk(g, walk + [q])
  {
    var w := walk + [q];
    forall i | 0 <= i < |w| - 1 ensures Edge(g, w[i], w[i + 1]) {
      if i < |walk| - 1 { assert Edge(g, walk[i], walk[i + 1]); }
    }
  }

  lemma ReachesSelf(g: Imports, p: Path)
    ensures Reaches(g, p, p)
  {
    assert IsWalk(g, [p]);
  }

  lemma ReachesEdge(g: Imports, p: Path, q: Path, r: Path)
    requires Reaches(g, p, q) && Edge(g, q, r)
    ensures Reaches(g, p, r)
  {
    var walk :| IsWalk(g, walk) && walk[0] == p && walk[|walk| - 1] == q;
    WalkExtends(g, walk, r);
    assert (walk + [r])[|walk + [r]| - 1] == r;
  }

  /** A set closed under imports contains everything its members reach. */
  lemma {:induction false} ClosedContains(g: Imports, s: set<Path>, walk: seq<Path>)
    requires forall p, q :: p in s && Edge(g, p, q) ==> q in s
    requires IsWalk(g, walk) && walk[0] in s
    ensures walk[|walk| - 1] in s
    decreases walk
  {
    if |walk| > 1 {
      var tail := walk[1..];
      assert Edge(g, walk[0], walk[1]);
      forall i | 0 <= i < |tail| - 1 ensures Edge(g, tail[i], tail[i + 1]) { assert Edge(g, walk[i + 1], walk[i + 2]); }
      ClosedContains(g, s, tail);
    }
  }

  lemma ImportedEdge(g: Imports, p: Path, q: Path, r: Path)
    requires (p == q || Imported(g, p, q)) && Edge(g, q, r)
    ensures Imported(g, p, r)
  {
    if p == q && !Imported(g, p, q) {
      assert IsWalk(g, [p, r]);
      assert [p, r][0] == p && [p, r][|[p, r]| - 1] == r;
    } else {
      var walk :| IsWalk(g, walk) && |walk| > 1 && walk[0] == p && walk[|walk| - 1] == q;
      WalkExtends(g, walk, r);
      assert (walk + [r])[|walk + [r]| - 1] == r && (walk + [r])[0] == p;
    }
  }

  lemma ImportedThrough(g: Imports, p: Path, q: Path, r: Path)
    requires Edge(g, p, q) && (q == r || Imported(g, q, r))
    ensures Imported(g, p, r)
  {
    if q == r {
      ImportedEdge(g, p, p, r);
    } else {
      var walk :| IsWalk(g, walk) && |walk| > 1 && walk[0] == q && walk[|walk| - 1] == r;
      var w := [p] + walk;
      forall i | 0 <= i < |w| - 1 ensures Edge(g, w[i], w[i + 1]) {
        if i > 0 { assert Edge(g, walk[i - 1], walk[i]); }
      }
      assert w[0] == p && w[|w| - 1] == r;
    }
  }

  lemma ReachableEdge(g: Imports, roots: seq<Path>, p: Path, q: Path)
    requires Reachable(g, roots, p) && Edge(g, p, q)
    ensures Reachable(g, roots, q)
  {
    var r :| r in roots && Reaches(g, r, p);
    ReachesEdge(g, r, p, q);
  }

  // ---------------------------------------------------------------------------
  // The walk
  // ---------------------------------------------------------------------------

  /** Files in `seen` but not yet in `out` are the ones the walk is inside of. */
  ghost predicate Open(seen: set<Path>, out: seq<Path>, p: Path) {
    p in seen && p !in out
  }

  ghost predicate SameOpen(seen: set<Path>, out: seq<Path>, seen': set<Path>, out': seq<Path>) {
    forall p :: Open(seen, out, p) <==> Open(seen', out', p)
  }

  /** Listed files are seen, so are their imports, and everything seen is reachable. */
  ghost predicate WalkInv(g: Imports, roots: seq<Path>, seen: set<Path>, out: seq<Path>) {
    && seen <= g.Keys
    && Distinct(out)
    && (forall p :: p in out ==> p in seen)
    && (forall p, q :: p in out && Edge(g, p, q) ==> q in seen)
    && (forall p :: p in seen ==> Reachable(g, roots, p))
  }

  /** Whatever the walk is inside of imports the file at hand. */
  ghost predicate Inside(g: Imports, seen: set<Path>, out: seq<Path>, p: Path) {
    forall o :: Open(seen, out, o) ==> Imported(g, o, p)
  }

  lemma InsideSeenIsListed(g: Imports, roots: seq<Path>, seen: set<Path>, out: seq<Path>, p: Path)
    requires WalkInv(g, roots, seen, out) && Acyclic(g, roots) && Inside(g, seen, out, p) && p in seen
    ensures p in out
  {
    assert p !in out ==> Open(seen, out, p);
  }

  lemma AppendListed(g: Imports, roots: seq<Path>, seen: set<Path>, out: seq<Path>, p: Path)
    requires WalkInv(g, roots, seen, out) && Open(seen, out, p) && forall q :: Edge(g, p, q) ==> q in seen
    ensures WalkInv(g, roots, seen, out + [p])
    ensures Topological(g, out) && (forall q :: Edge(g, p, q) ==> q in out) ==> Topological(g, out + [p])
  {
    var out' := out + [p];
    if Topological(g, out) && (forall q :: Edge(g, p, q) ==> q in out) {
      forall i, q | 0 <= i < |out'| && Edge(g, out'[i], q) ensures q in out'[..i] {
        if i < |out| {
          assert out'[..i] == out[..i];
        } else {
          assert out'[..i] == out;
        }
      }
    }
  }

  lemma OpenAfterClosing(seen: set<Path>, out: seq<Path>, seen': set<Path>, out': seq<Path>, p: Path)
    requires p !in seen && SameOpen(seen + {p}, out, seen', out')
    ensures SameOpen(seen, out, seen', out' + [p])
  {
    forall x ensures Open(seen, out, x) <==> Open(seen', out' + [p], x) {
      assert Open(seen + {p}, out, x) <==> Open(seen', out', x);
    }
  }

  lemma InsideImport(g: Imports, seen: set<Path>, out: seq<Path>, seen': set<Path>, out': seq<Path>, p: Path, q: Path)
    requires Inside(g, seen, out, p) && SameOpen(seen + {p}, out, seen', out') && Edge(g, p, q)
    ensures Inside(g, seen', out', q)
  {
    forall o | Open(seen', out', o) ensures Imported(g, o, q) {
      assert Open(seen + {p}, out, o);
      assert o == p || Open(seen, out, o);
      ImportedEdge(g, o, p, q);
    }
  }

  method AddFile(g: Imports, ghost roots: seq<Path>, p: Path, seen: set<Path>, out: seq<Path>)
    returns (seen': set<Path>, out': seq<Path>)
    requires Closed(g) && p in g && Reachable(g, roots, p) && WalkInv(g, roots, seen, out)
    requires Acyclic(g, roots) ==> Topological(g, out) && Inside(g, seen, out, p)
    ensures WalkInv(g, roots, seen', out') && seen <= seen' && p in seen'
    ensures SameOpen(seen, out, seen', out')
    ensures Acyclic(g, roots) ==> Topological(g, out') && p in out'
    ensures AllListed(out, out')
    decreases g.Keys - seen, 0
  {
    if p in seen {
      if Acyclic(g, roots) { InsideSeenIsListed(g, roots, seen, out, p); }
      return seen, out;
    }
    seen', out' := AddImports(g, roots, p, seen, out);
    CloseFile(g, roots, p, seen, out, seen', out');
    out' := out' + [p];
  }

  lemma NextImport(g: Imports, roots: seq<Path>, p: Path, seen: set<Path>, out: seq<Path>,
                   seen': set<Path>, out': seq<Path>, q: Path)
    requires Edge(g, p, q) && Reachable(g, roots, p) && SameOpen(seen + {p}, out, seen', out')
    ensures Reachable(g, roots, q)
    ensures Inside(g, seen, out, p) ==> Inside(g, seen', out', q)
  {
    ReachableEdge(g, roots, p, q);
    if Inside(g, seen, out, p) { InsideImport(g, seen, out, seen', out', p, q); }
  }

  /** Visits the imports of a file that has just been marked. */
  method AddImports(g: Imports, ghost roots: seq<Path>, p: Path, seen: set<Path>, out: seq<Path>)
    returns (seen': set<Path>, out': seq<Path>)
    requires Closed(g) && p in g && p !in seen && Reachable(g, roots, p) && WalkInv(g, roots, seen, out)
    requires Acyclic(g, roots) ==> Topological(g, out) && Inside(g, seen, out, p)
    ensures WalkInv(g, roots, seen', out') && seen + {p} <= seen'
    ensures SameOpen(seen + {p}, out, seen', out')
    ensures AllSeen(g[p], seen')
    ensures Acyclic(g, roots) ==> Topological(g, out') && AllListed(g[p], out')
    ensures AllListed(out, out')
    decreases g.Keys - (seen + {p}), 1
  {
    seen', out' := seen + {p}, out;
    var imports := g[p];
    for i := 0 to |imports|
      invariant WalkInv(g, roots, seen', out') && seen + {p} <= seen'
      invariant SameOpen(seen + {p}, out, seen', out')
      invariant AllSeen(imports[..i], seen')
      invariant Acyclic(g, roots) ==> Topological(g, out') && AllListed(imports[..i], out')
      invariant AllListed(out, out')
    {
      assert Edge(g, p, imports[i]);
      NextImport(g, roots, p, seen, out, seen', out', imports[i]);
      assert imports[..i + 1] == imports[..i] + [imports[i]];
      seen', out' := AddFile(g, roots, imports[i], seen', out');
    }
    assert imports[..|imports|] == imports;
  }

  ghost predicate AllSeen(xs: seq<Path>, seen: set<Path>) {
    forall x :: x in xs ==> x in seen
  }

  ghost predicate AllListed(xs: seq<Path>, out: seq<Path>) {
    forall x :: x in xs ==> x in out
  }

  /** All imports of the file are in, so the file can follow them. */
  lemma CloseFile(g: Imports, roots: seq<Path>, p: Path, seen: set<Path>, out: seq<Path>, seen': set<Path>,
                  out': seq<Path>)
    requires p in g && p !in seen && p !in out && WalkInv(g, roots, seen', out')
    requires SameOpen(seen + {p}, out, seen', out') && forall q :: q in g[p] ==> q in seen'
    ensures WalkInv(g, roots, seen', out' + [p]) && SameOpen(seen, out, seen', out' + [p])
    ensures Topological(g, out') && (forall q :: q in g[p] ==> q in out') ==> Topological(g, out' + [p])
  {
    assert Open(seen + {p}, out, p);
    assert Open(seen', out', p);
    AppendListed(g, roots, seen', out', p);
    OpenAfterClosing(seen, out, seen', out', p);
  }

  /** The list for a compiled set of files. */
  method ListFiles(g: Imports, roots: seq<Path>) returns (out: seq<Path>)
    requires Closed(g) && forall p :: p in roots ==> p in g
    ensures Distinct(out)
    ensures forall p :: p in out <==> Reachable(g, roots, p)
    ensures forall p :: p in roots ==> p in out
    ensures forall p, q :: p in out && Edge(g, p, q) ==> q in out
    ensures Topological(g, out) <==> Acyclic(g, roots)
  {
    var seen: set<Path> := {};
    out := [];
    var i := 0;
    while i < |roots|
      invariant 0 <= i <= |roots|
      invariant WalkInv(g, roots, seen, out)
      invariant forall p :: !Open(seen, out, p)
      invariant forall j :: 0 <= j < i ==> roots[j] in seen
      invariant Acyclic(g, roots) ==> Topological(g, out)
    {
      ReachesSelf(g, roots[i]);
      assert Reachable(g, roots, roots[i]);
      assert forall o :: !Open(seen, out, o);
      seen, out := AddFile(g, roots, roots[i], seen, out);
      i := i + 1;
    }
    forall p | p in seen ensures p in out { assert !Open(seen, out, p); }
    forall p | Reachable(g, roots, p) ensures p in out {
      var r :| r in roots && Reaches(g, r, p);
      var walk :| IsWalk(g, walk) && walk[0] == r && walk[|walk| - 1] == p;
      ClosedContains(g, seen, walk);
    }
    if Topological(g, out) { TopologicalIsAcyclic(g, roots, out); }
  }

  lemma {:induction false} WalkDescends(g: Imports, out: seq<Path>, walk: seq<Path>, i: nat)
    requires Topological(g, out) && IsWalk(g, walk) && |walk| > 1 && i < |out| && out[i] == walk[0]
    ensures walk[|walk| - 1] in out[..i]
    decreases walk
  {
    assert Edge(g, walk[0], walk[1]);
    assert walk[1] in out[..i];
    if |walk| > 2 {
      var j :| 0 <= j < i && out[j] == walk[1];
      var tail := walk[1..];
      forall k | 0 <= k < |tail| - 1 ensures Edge(g, tail[k], tail[k + 1]) { assert Edge(g, walk[k + 1], walk[k + 2]); }
      WalkDescends(g, out, tail, j);
      assert out[..j] <= out[..i];
    }
  }

  /** A list in import order that holds everything reachable rules out import cycles. */
  lemma TopologicalIsAcyclic(g: Imports, roots: seq<Path>, out: seq<Path>)
    requires Topological(g, out) && Distinct(out) && forall p :: Reachable(g, roots, p) ==> p in out
    ensures Acyclic(g, roots)
  {
    forall p | Reachable(g, roots, p) ensures !Imported(g, p, p) {
      if Imported(g, p, p) {
        var walk :| IsWalk(g, walk) && |walk| > 1 && walk[0] == p && walk[|walk| - 1] == p;
        var i :| 0 <= i < |out| && out[i] == p;
        WalkDescends(g, out, walk, i);
      }
    }
  }
}
