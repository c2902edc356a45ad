/**
 The namespace hierarchy: the guarded re-parenting of the store, its audit log, and the
 bounded walk along the parent pointers.
 */
module Hierarchy {
  import opened Descriptors

  type Id = string

  /** One row per namespace, holding its parent. */
  type Parents = map<Id, Option<Id>>

  /** The depth bound of the recursive query, and of the walk in memory. */
  const MAX_DEPTH: nat := 64

  function ParentOf(g: Parents, x: Id): Option<Id> {
    if x in g then g[x] else None
  }

  /** The `k`-th ancestor; the namespace itself is number 0. */
  function Ancestor(g: Parents, x: Id, k: nat): Option<Id>
    decreases k
  {
    if k == 0 then Some(x) else
      var p := ParentOf(g, x);
      if p.None? then None else Ancestor(g, p.value, k - 1)
  }

  ghost predicate Reaches(g: Parents, x: Id, y: Id) {
    exists k: nat :: Ancestor(g, x, k) == Some(y)
  }

  ghost predicate ReachesWithin(g: Parents, x: Id, y: Id, depth: nat) {
    exists k: nat :: k < depth && Ancestor(g, x, k) == Some(y)
  }

  ghost predicate ReachesBeyond(g: Parents, x: Id, y: Id, depth: nat) {
    exists k: nat :: k >= depth && Ancestor(g, x, k) == Some(y)
  }

  ghost predicate Acyclic(g: Parents) {
    forall x, k: nat :: k > 0 ==> Ancestor(g, x, k) != Some(x)
  }

  /** The foreign key: a parent is a namespace. */
  predicate Closed(g: Parents) {
    forall x :: x in g && g[x].Some? ==> g[x].value in g
  }

  // ---------------------------------------------------------------------------
  // Re-parenting
  // ---------------------------------------------------------------------------

  /** The rows of the recursive query that starts at `x`. */
  function Rows(g: Parents, x: Id, depth: nat): seq<Id>
    decreases depth
  {
    if depth == 0 || x !in g then [] else
      [x] + if g[x].None? then [] else Rows(g, g[x].value, depth - 1)
  }

  datatype SetOutcome = Ok | NamespaceNotFound | ParentCycle

  function SetParent(g: Parents, child: Id, parent: Option<Id>): (Parents, SetOutcome) {
    if child !in g then (g, NamespaceNotFound) else
    if parent.None? then (g[child := None], Ok) else
    if parent.value !in g then (g, NamespaceNotFound) else
    if child == parent.value || child in Rows(g, parent.value, MAX_DEPTH) then (g, ParentCycle) else
      (g[child := parent], Ok)
  }

  lemma {:induction false} RowsAreAncestors(g: Parents, x: Id, depth: nat, y: Id)
    requires Closed(g) && x in g
    ensures y in Rows(g, x, depth) <==> ReachesWithin(g, x, y, depth)
    decreases depth
  {
    if depth > 0 {
      assert Ancestor(g, x, 0) == Some(x);
      if g[x].Some? {
        var p := g[x].value;
        RowsAreAncestors(g, p, depth - 1, y);
        if ReachesWithin(g, p, y, depth - 1) {
          var k: nat :| k < depth - 1 && Ancestor(g, p, k) == Some(y);
          assert Ancestor(g, x, k + 1) == Some(y);
        }
        if ReachesWithin(g, x, y, depth) && x != y {
          var k: nat :| k < depth && Ancestor(g, x, k) == Some(y);
          assert Ancestor(g, p, k - 1) == Some(y);
        }
      } else if ReachesWithin(g, x, y, depth) {
        var k: nat :| k < depth && Ancestor(g, x, k) == Some(y);
        assert k == 0;
      }
    }
  }

  lemma {:induction false} AncestorCompose(g: Parents, x: Id, i: nat, j: nat)
    requires Ancestor(g, x, i).Some?
    ensures Ancestor(g, x, i + j) == Ancestor(g, Ancestor(g, x, i).value, j)
    decreases i
  {
    if i > 0 {
      AncestorCompose(g, ParentOf(g, x).value, i - 1, j);
    }
  }

  /** A walk that does not leave from `child` does not see the change. */
  lemma {:induction false} AncestorUnchanged(g: Parents, child: Id, p: Option<Id>, x: Id, k: nat)
    requires forall j: nat :: j < k ==> Ancestor(g, x, j) != Some(child)
    ensures Ancestor(g[child := p], x, k) == Ancestor(g, x, k)
    decreases k
  {
    if k > 0 {
      assert Ancestor(g, x, 0) == Some(x);
      var q := ParentOf(g, x);
      if q.Some? {
        forall j: nat | j < k - 1 ensures Ancestor(g, q.value, j) != Some(child) {
          assert Ancestor(g, x, j + 1) == Ancestor(g, q.value, j);
        }
        AncestorUnchanged(g, child, p, q.value, k - 1);
      }
    }
  }

  lemma {:induction false} AncestorsExist(g: Parents, p: Id, k: nat)
    requires Closed(g) && p in g
    ensures Ancestor(g, p, k).Some? ==> Ancestor(g, p, k).value in g
    decreases k
  {
    if k > 0 && g[p].Some? {
      AncestorsExist(g, g[p].value, k - 1);
    }
  }

  /** No namespace has a new one as an ancestor, and none notices it. */
  lemma NewIsUnnoticed(g: Parents, x: Id, parent: Option<Id>, p: Id, k: nat)
    requires Closed(g) && x !in g && p in g
    ensures Ancestor(g[x := parent], p, k) == Ancestor(g, p, k) != Some(x)
  {
    forall j: nat | j <= k ensures Ancestor(g, p, j) != Some(x) { AncestorsExist(g, p, j); }
    AncestorUnchanged(g, x, parent, p, k);
  }

  lemma NewIsNoAncestor(g: Parents, x: Id, p: Id, depth: nat)
    requires Closed(g) && x !in g && p in g
    ensures !ReachesWithin(g[x := None], p, x, depth)
  {
    var g' := g[x := None];
    forall k: nat ensures Ancestor(g', p, k) != Some(x) { NewIsUnnoticed(g, x, None, p, k); }
  }

  /** A row inserted with its parent closes a cycle exactly when it is its own parent, which the foreign key allows. */
  lemma CreateKeepsAcyclic(g: Parents, x: Id, parent: Option<Id>)
    requires Acyclic(g) && Closed(g) && x !in g && (parent.Some? ==> parent.value in g || parent.value == x)
    ensures Acyclic(g[x := parent]) <==> parent != Some(x)
    ensures Closed(g[x := parent])
  {
    var g' := g[x := parent];
    if parent == Some(x) {
      assert Ancestor(g', x, 1) == Ancestor(g', x, 0) == Some(x);
    } else {
      forall y, k: nat | k > 0 ensures Ancestor(g', y, k) != Some(y) {
        if y in g {
          NewIsUnnoticed(g, x, parent, y, k);
        } else if y == x && parent.Some? {
          NewIsUnnoticed(g, x, parent, parent.value, k - 1);
        }
      }
    }
  }

  lemma {:induction false} FirstHit(g: Parents, x: Id, y: Id, k: nat) returns (j: nat)
    requires Ancestor(g, x, k) == Some(y)
    ensures j <= k && Ancestor(g, x, j) == Some(y) && forall i: nat :: i < j ==> Ancestor(g, x, i) != Some(y)
    decreases k
  {
    if i: nat :| i < k && Ancestor(g, x, i) == Some(y) {
      j := FirstHit(g, x, y, i);
    } else {
      j := k;
    }
  }

  /** Hanging `child` under a namespace that reaches `child` closes a cycle. */
  lemma CycleCloses(g: Parents, child: Id, p: Id)
    requires child in g && Reaches(g, p, child)
    ensures !Acyclic(g[child := Some(p)])
  {
    var g' := g[child := Some(p)];
    var k: nat :| Ancestor(g, p, k) == Some(child);
    var j := FirstHit(g, p, child, k);
    AncestorUnchanged(g, child, Some(p), p, j);
    assert Ancestor(g', child, j + 1) == Ancestor(g', p, j) == Some(child);
  }

  /** ... and only that does. */
  lemma NoNewCycle(g: Parents, child: Id, p: Id, x: Id, k: nat)
    requires Acyclic(g) && child in g && !Reaches(g, p, child) && k > 0
    ensures Ancestor(g[child := Some(p)], x, k) != Some(x)
  {
    var g' := g[child := Some(p)];
    if Ancestor(g', x, k) == Some(x) {
      if i: nat :| i < k && Ancestor(g, x, i) == Some(child) {
        var j := FirstHit(g, x, child, i);
        AncestorUnchanged(g, child, Some(p), x, j);
        AncestorCompose(g', x, k, j);
        AncestorCompose(g', x, j, k);
        assert Ancestor(g', child, k) == Ancestor(g', p, k - 1);
        forall m: nat ensures Ancestor(g, p, m) != Some(child) { }
        AncestorUnchanged(g, child, Some(p), p, k - 1);
      } else {
        AncestorUnchanged(g, child, Some(p), x, k);
      }
    }
  }

  /**
   An accepted re-parenting keeps the hierarchy acyclic exactly when `child` is not among the
   ancestors of the new parent that lie beyond the depth bound.
   */
  lemma SetParentExact(g: Parents, child: Id, p: Id)
    requires Acyclic(g) && Closed(g) && SetParent(g, child, Some(p)).1 == Ok
    ensures Closed(SetParent(g, child, Some(p)).0)
    ensures Acyclic(SetParent(g, child, Some(p)).0) <==>
            !ReachesBeyond(g, p, child, MAX_DEPTH)
  {
    RowsAreAncestors(g, p, MAX_DEPTH, child);
    if ReachesBeyond(g, p, child, MAX_DEPTH) {
      var k: nat :| k >= MAX_DEPTH && Ancestor(g, p, k) == Some(child);
      CycleCloses(g, child, p);
    } else {
      forall k: nat ensures Ancestor(g, p, k) != Some(child) { }
      var g' := g[child := Some(p)];
      forall x, k: nat | k > 0 ensures Ancestor(g', x, k) != Some(x) { NoNewCycle(g, child, p, x, k); }
    }
  }

  lemma {:induction false} NoAncestorsBeyond(g: Parents, x: Id, i: nat, j: nat)
    requires i <= j && Ancestor(g, x, i).None?
    ensures Ancestor(g, x, j).None?
    decreases i
  {
    if i > 0 && ParentOf(g, x).Some? {
      NoAncestorsBeyond(g, ParentOf(g, x).value, i - 1, j - 1);
    }
  }

  /** A parent whose chain has at most 64 namespaces can be set without risk of a cycle. */
  lemma ShortChainsAreSafe(g: Parents, child: Id, parent: Option<Id>)
    requires Acyclic(g) && Closed(g)
    requires parent.Some? ==> Ancestor(g, parent.value, MAX_DEPTH).None?
    ensures Acyclic(SetParent(g, child, parent).0) && Closed(SetParent(g, child, parent).0)
  {
    var (g', o) := SetParent(g, child, parent);
    if o == Ok {
      if parent.Some? {
        forall k: nat | k >= MAX_DEPTH ensures Ancestor(g, parent.value, k).None? {
          NoAncestorsBeyond(g, parent.value, MAX_DEPTH, k);
        }
        SetParentExact(g, child, parent.value);
      } else {
        forall x, k: nat | k > 0 ensures Ancestor(g', x, k) != Some(x) { ClearingKeepsAcyclic(g, child, x, k); }
      }
    }
  }

  lemma ClearingKeepsAcyclic(g: Parents, child: Id, x: Id, k: nat)
    requires Acyclic(g) && k > 0
    ensures Ancestor(g[child := None], x, k) != Some(x)
  {
    if i: nat :| i < k && Ancestor(g, x, i) == Some(child) {
      var j := FirstHit(g, x, child, i);
      AncestorUnchanged(g, child, None, x, j);
      AncestorCompose(g[child := None], x, j, k - j);
    } else {
      AncestorUnchanged(g, child, None, x, k);
    }
  }

  // A ladder of namespaces: each is the child of the next.

  function Rung(i: nat): (r: Id)
    ensures |r| == i
  {
    seq(i, _ => 'n')
  }

  function Ladder(n: nat): (g: Parents)
    ensures forall i: nat :: i < n ==> Rung(i) in g && g[Rung(i)] == if i + 1 < n then Some(Rung(i + 1)) else None
    ensures forall x :: x in g ==> |x| < n && x == Rung(|x|)
  {
    if n == 0 then map[] else
      var below := Ladder(n - 1);
      if n == 1 then map[Rung(0) := None] else
        below[Rung(n - 2) := Some(Rung(n - 1))][Rung(n - 1) := None]
  }

  lemma {:induction false} LadderAncestor(n: nat, i: nat, k: nat)
    requires i < n
    ensures Ancestor(Ladder(n), Rung(i), k) == if i + k < n then Some(Rung(i + k)) else None
    decreases k
  {
    if k > 0 && i + 1 < n {
      LadderAncestor(n, i + 1, k - 1);
    }
  }

  lemma LadderAcyclic(n: nat)
    ensures Acyclic(Ladder(n)) && Closed(Ladder(n))
  {
    var g := Ladder(n);
    forall x, k: nat | k > 0 ensures Ancestor(g, x, k) != Some(x) {
      if x in g {
        LadderAncestor(n, |x|, k);
        assert |x| + k < n ==> |Rung(|x| + k)| != |x|;
      }
    }
    forall x | x in g && g[x].Some? ensures g[x].value in g {
      assert x == Rung(|x|);
      assert |x| + 1 < n ==> Rung(|x| + 1) in g;
    }
  }

  /** The bound is exact: 64 namespaces on the parent's chain are caught, the 65th is not. */
  lemma DepthBoundIsExact()
    ensures Acyclic(Ladder(64)) && SetParent(Ladder(64), Rung(63), Some(Rung(0))).1 == ParentCycle
    ensures Acyclic(Ladder(65)) && SetParent(Ladder(65), Rung(64), Some(Rung(0))).1 == Ok
    ensures !Acyclic(SetParent(Ladder(65), Rung(64), Some(Rung(0))).0)
  {
    AtTheBound();
    PastTheBound();
  }

  lemma AtTheBound()
    ensures Acyclic(Ladder(64)) && SetParent(Ladder(64), Rung(63), Some(Rung(0))).1 == ParentCycle
  {
    LadderAcyclic(64);
    RowsAreAncestors(Ladder(64), Rung(0), 64, Rung(63));
    LadderAncestor(64, 0, 63);
  }

  lemma PastTheBound()
    ensures Acyclic(Ladder(65)) && SetParent(Ladder(65), Rung(64), Some(Rung(0))).1 == Ok
    ensures !Acyclic(SetParent(Ladder(65), Rung(64), Some(Rung(0))).0)
  {
    LadderAcyclic(65);
    RowsAreAncestors(Ladder(65), Rung(0), 64, Rung(64));
    forall k: nat | k < 64 ensures Ancestor(Ladder(65), Rung(0), k) != Some(Rung(64)) {
      LadderAncestor(65, 0, k);
      assert |Rung(k)| != |Rung(64)|;
    }
    LadderAncestor(65, 0, 64);
    SetParentExact(Ladder(65), Rung(64), Rung(0));
  }

  // ---------------------------------------------------------------------------
  // The resolution chain in memory
  // ---------------------------------------------------------------------------

  function ChainFrom(g: Parents, x: Id, seen: seq<Id>): seq<Id>
    decreases MAX_DEPTH - |seen|
  {
    if |seen| >= MAX_DEPTH || x in seen then seen else
      var p := ParentOf(g, x);
      if p.None? then seen + [x] else ChainFrom(g, p.value, seen + [x])
  }

  /** The namespace and its ancestors, nearest first. */
  function Chain(g: Parents, x: Id): seq<Id> {
    ChainFrom(g, x, [])
  }

  /** The loop of the source, with its guard against cycles. */
  method WalkChain(g: Parents, x: Id) returns (chain: seq<Id>)
    ensures chain == Chain(g, x)
  {
    chain := [];
    var seen: set<Id> := {};
    var cur := Some(x);
    while cur.Some? && |chain| < MAX_DEPTH
      invariant |chain| <= MAX_DEPTH && seen == set y | y in chain
      invariant Chain(g, x) == if cur.None? then chain else ChainFrom(g, cur.value, chain)
      decreases MAX_DEPTH - |chain|
    {
      if cur.value in seen { break; }
      seen := seen + {cur.value};
      chain := chain + [cur.value];
      cur := ParentOf(g, cur.value);
    }
  }

  ghost predicate Walked(g: Parents, x: Id, chain: seq<Id>) {
    && |chain| <= MAX_DEPTH
    && (forall i: nat :: i < |chain| ==> Ancestor(g, x, i) == Some(chain[i]))
    && (forall i, j :: 0 <= i < j < |chain| ==> chain[i] != chain[j])
  }

  lemma {:induction false} ChainFromWalks(g: Parents, x: Id, y: Id, seen: seq<Id>)
    requires Walked(g, x, seen) && Ancestor(g, x, |seen|) == Some(y)
    ensures var chain := ChainFrom(g, y, seen);
            && Walked(g, x, chain)
            && (|chain| == MAX_DEPTH || Ancestor(g, x, |chain|).None? || Ancestor(g, x, |chain|).value in chain)
    decreases MAX_DEPTH - |seen|
  {
    if |seen| < MAX_DEPTH && y !in seen {
      AncestorCompose(g, x, |seen|, 1);
      assert Ancestor(g, y, 1) == ParentOf(g, y) by {
        if ParentOf(g, y).Some? { assert Ancestor(g, ParentOf(g, y).value, 0) == ParentOf(g, y); }
      }
      if ParentOf(g, y).Some? {
        ChainFromWalks(g, x, ParentOf(g, y).value, seen + [y]);
      }
    }
  }

  lemma {:induction false} CyclesNeverEnd(g: Parents, y: Id, period: nat, n: nat)
    requires period > 0 && Ancestor(g, y, period) == Some(y)
    ensures Ancestor(g, y, n).Some?
    decreases n
  {
    if n >= period {
      CyclesNeverEnd(g, y, period, n - period);
      AncestorCompose(g, y, period, n - period);
    } else if Ancestor(g, y, n).None? {
      NoAncestorsBeyond(g, y, n, period);
    }
  }

  /** Two equal entries on a walk mean that the walk never reaches a root. */
  lemma RepeatsNeverEnd(g: Parents, x: Id, i: nat, j: nat, n: nat)
    requires i < j && Ancestor(g, x, i).Some? && Ancestor(g, x, i) == Ancestor(g, x, j)
    ensures Ancestor(g, x, n).Some?
  {
    var y := Ancestor(g, x, i).value;
    AncestorCompose(g, x, i, j - i);
    if n >= i {
      AncestorCompose(g, x, i, n - i);
      CyclesNeverEnd(g, y, j - i, n - i);
    } else if Ancestor(g, x, n).None? {
      NoAncestorsBeyond(g, x, n, i);
    }
  }

  /** The chain is the whole path to the root: entry `k` is ancestor `k`, and there are no more. */
  ghost predicate WholePath(g: Parents, x: Id, chain: seq<Id>) {
    forall k: nat :: Ancestor(g, x, k) == if k < |chain| then Some(chain[k]) else None
  }

  /** Chain returns the whole path to the root exactly when that path has at most 64 namespaces. */
  lemma ChainExact(g: Parents, x: Id)
    ensures Walked(g, x, Chain(g, x)) && Chain(g, x) != [] && Chain(g, x)[0] == x
    ensures WholePath(g, x, Chain(g, x)) <==> Ancestor(g, x, MAX_DEPTH).None?
  {
    ChainFromWalks(g, x, x, []);
    var chain := Chain(g, x);
    assert chain != [] by {
      var none: seq<Id> := [];
      assert none + [x] == [x];
      assert ChainFrom(g, x, none) == if ParentOf(g, x).None? then [x] else ChainFrom(g, ParentOf(g, x).value, [x]);
      if ParentOf(g, x).Some? { ChainGrows(g, ParentOf(g, x).value, [x]); }
    }
    assert Ancestor(g, x, 0) == Some(chain[0]);
    if Ancestor(g, x, MAX_DEPTH).None? {
      var n := Ancestor(g, x, |chain|);
      if n.Some? {
        assert |chain| != MAX_DEPTH;
        var i: nat :| i < |chain| && chain[i] == n.value;
        assert Ancestor(g, x, i) == Some(chain[i]);
        RepeatsNeverEnd(g, x, i, |chain|, MAX_DEPTH);
      }
      forall k: nat ensures Ancestor(g, x, k) == if k < |chain| then Some(chain[k]) else None {
        if k >= |chain| { NoAncestorsBeyond(g, x, |chain|, k); }
      }
    }
  }

  lemma {:induction false} ChainCatches(g: Parents, x: Id, i: nat)
    requires i < MAX_DEPTH && Ancestor(g, x, i).Some?
    ensures Ancestor(g, x, i).value in Chain(g, x)
    decreases i
  {
    ChainExact(g, x);
    ChainFromWalks(g, x, x, []);
    var chain := Chain(g, x);
    if i >= |chain| {
      if Ancestor(g, x, |chain|).None? { NoAncestorsBeyond(g, x, |chain|, i); }
      var m :| 0 <= m < |chain| && chain[m] == Ancestor(g, x, |chain|).value;
      assert Ancestor(g, x, m) == Some(chain[m]);
      AncestorCompose(g, x, |chain|, i - |chain|);
      AncestorCompose(g, x, m, i - |chain|);
      ChainCatches(g, x, m + (i - |chain|));
    } else {
      assert Ancestor(g, x, i) == Some(chain[i]);
    }
  }

  /** On every pointer graph, cyclic ones included, the chain is the namespace and its first 63 ancestors. */
  lemma ChainMembers(g: Parents, x: Id, y: Id)
    ensures y in Chain(g, x) <==> ReachesWithin(g, x, y, MAX_DEPTH)
  {
    ChainExact(g, x);
    var chain := Chain(g, x);
    if y in chain {
      var i: nat :| i < |chain| && chain[i] == y;
      assert Ancestor(g, x, i) == Some(y);
    }
    if ReachesWithin(g, x, y, MAX_DEPTH) {
      var i: nat :| i < MAX_DEPTH && Ancestor(g, x, i) == Some(y);
      ChainCatches(g, x, i);
    }
  }

  lemma {:induction false} ChainGrows(g: Parents, x: Id, seen: seq<Id>)
    ensures seen <= ChainFrom(g, x, seen)
    decreases MAX_DEPTH - |seen|
  {
    if |seen| < MAX_DEPTH && x !in seen && ParentOf(g, x).Some? {
      ChainGrows(g, ParentOf(g, x).value, seen + [x]);
      assert seen <= seen + [x];
    }
  }

  // ---------------------------------------------------------------------------
  // The store with its audit log
  // ---------------------------------------------------------------------------

  datatype ParentEvent = ParentEvent(namespace: Id, previous: Option<Id>, next: Option<Id>, actor: string)

  class NamespaceStore {
    var parents: Parents
    var events: seq<ParentEvent>

    constructor ()
      ensures parents == map[] && events == []
    {
      parents := map[];
      events := [];
    }

    /** Inserts a row; the key must be new and the parent a namespace, or the new row itself.  No event is logged. */
    method CreateNamespace(x: Id, parent: Option<Id>) returns (created: bool)
      modifies this
      ensures created <==> x !in old(parents) && (parent.Some? ==> parent.value in old(parents) || parent.value == x)
      ensures parents == if created then old(parents)[x := parent] else old(parents)
      ensures events == old(events)
      ensures created && old(Acyclic(parents) && Closed(parents)) ==>
              Closed(parents) && (Acyclic(parents) <==> parent != Some(x))
    {
      if x in parents { return false; }
      if parent.Some? && parent.value !in parents && parent.value != x { return false; }
      if Acyclic(parents) && Closed(parents) { CreateKeepsAcyclic(parents, x, parent); }
      parents := parents[x := parent];
      created := true;
    }

    /** One transaction: the guarded update and its audit row, or neither. */
    method SetNamespaceParent(x: Id, parent: Option<Id>, actor: string) returns (o: SetOutcome)
      modifies this
      ensures (parents, o) == SetParent(old(parents), x, parent)
      ensures events == old(events) +
              if o == Ok then [ParentEvent(x, old(parents)[x], parent, actor)] else []
    {
      if x !in parents { return NamespaceNotFound; }
      var previous := parents[x];
      if parent.None? {
        parents := parents[x := None];
      } else {
        if parent.value !in parents { return NamespaceNotFound; }
        if x == parent.value || x in Rows(parents, parent.value, MAX_DEPTH) { return ParentCycle; }
        parents := parents[x := parent];
      }
      events := events + [ParentEvent(x, previous, parent, actor)];
      return Ok;
    }
  }

  /** The registry creates namespaces without a parent and sets the parent afterwards. */
  datatype Op = CreateOp(id: Id) | SetOp(id: Id, parent: Option<Id>, actor: string)
  datatype Log = Log(parents: Parents, events: seq<ParentEvent>)

  function Step(s: Log, op: Op): Log {
    match op
    case CreateOp(x) => if x in s.parents then s else s.(parents := s.parents[x := None])
    case SetOp(x, p, a) =>
      var (g, o) := SetParent(s.parents, x, p);
      if o == Ok then Log(g, s.events + [ParentEvent(x, s.parents[x], p, a)]) else s
  }

  function Run(s: Log, ops: seq<Op>): Log {
    if ops == [] then s else Step(Run(s, ops[..|ops| - 1]), ops[|ops| - 1])
  }

  /** The parent according to the log alone: that of the last event of the namespace. */
  function LoggedParent(events: seq<ParentEvent>, x: Id): Option<Id> {
    if events == [] then None else
    if events[|events| - 1].namespace == x then events[|events| - 1].next else LoggedParent(events[..|events| - 1], x)
  }

  /** Each event's previous parent is what the log before it says. */
  ghost predicate Chained(events: seq<ParentEvent>) {
    forall i :: 0 <= i < |events| ==> events[i].previous == LoggedParent(events[..i], events[i].namespace)
  }

  /** In every run the audit log replays to the parent column, and its entries link up. */
  lemma {:induction false} LogReplays(ops: seq<Op>)
    ensures var s := Run(Log(map[], []), ops);
            && (forall x :: ParentOf(s.parents, x) == LoggedParent(s.events, x))
            && Chained(s.events)
  {
    if ops != [] {
      LogReplays(ops[..|ops| - 1]);
      var s, s' := Run(Log(map[], []), ops[..|ops| - 1]), Run(Log(map[], []), ops);
      match ops[|ops| - 1]
      case CreateOp(_) =>
      case SetOp(x, p, a) =>
        if SetParent(s.parents, x, p).1 == Ok {
          var e := ParentEvent(x, s.parents[x], p, a);
          assert s'.events == s.events + [e];
          assert s'.events[..|s.events|] == s.events;
          forall i | 0 <= i < |s'.events|
            ensures s'.events[i].previous == LoggedParent(s'.events[..i], s'.events[i].namespace)
          {
            assert s'.events[..i] == s.events[..i];
            assert ParentOf(s.parents, x) == LoggedParent(s.events, x);
          }
        }
    }
  }

  /** Every new parent in the run has a chain of at most 64 namespaces when it is set. */
  ghost predicate ShallowRun(s: Log, ops: seq<Op>) {
    ops == [] ||
    (ShallowRun(s, ops[..|ops| - 1]) &&
     var op := ops[|ops| - 1];
     op.SetOp? && op.parent.Some? ==> Ancestor(Run(s, ops[..|ops| - 1]).parents, op.parent.value, MAX_DEPTH).None?)
  }

  /** So long as chains stay within the bound, no run of the store creates a cycle. */
  lemma {:induction false} ShallowRunsStayAcyclic(ops: seq<Op>)
    requires ShallowRun(Log(map[], []), ops)
    ensures var g := Run(Log(map[], []), ops).parents; Acyclic(g) && Closed(g)
  {
    if ops == [] {
      forall x, k: nat | k > 0 ensures Ancestor(map[], x, k) != Some(x) { }
    } else {
      ShallowRunsStayAcyclic(ops[..|ops| - 1]);
      var g := Run(Log(map[], []), ops[..|ops| - 1]).parents;
      match ops[|ops| - 1]
      case CreateOp(x) =>
        if x !in g {
          var g' := g[x := None];
          forall y, k: nat | k > 0 ensures Ancestor(g', y, k) != Some(y) { ClearingKeepsAcyclic(g, x, y, k); }
        }
      case SetOp(x, p, _) => ShortChainsAreSafe(g, x, p);
    }
  }
}
