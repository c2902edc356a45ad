/**
 Keyset pagination: the server cuts pages out of an ordered table, the client follows the
 cursors, and the table may change between two requests.
 */
module Paging {
  import opened Ordering

  type Id = string

  /** The live rows of a namespace in key order; identifiers are never empty. */
  ghost predicate IsTable(t: seq<Id>) {
    Increasing(t) && forall x :: x in t ==> x != ""
  }

  // ---------------------------------------------------------------------------
  // The server
  // ---------------------------------------------------------------------------

  /** The rows with a key above the cursor. */
  function Above(t: seq<Id>, after: Id): seq<Id> {
    if t == [] then [] else (if Less(after, t[0]) then [t[0]] else []) + Above(t[1..], after)
  }

  function Take(t: seq<Id>, n: nat): seq<Id> {
    if |t| <= n then t else t[..n]
  }

  /** The keyset query. */
  function ListPage(t: seq<Id>, after: Id, limit: nat): seq<Id> {
    Take(Above(t, after), limit)
  }

  datatype Response = Response(ids: seq<Id>, next: Id)

  function Page(t: seq<Id>, after: Id, pageSize: nat): Response
    requires pageSize >= 1
  {
    var rows := ListPage(t, after, pageSize + 1);
    if |rows| > pageSize then Response(rows[..pageSize], rows[pageSize - 1]) else Response(rows, "")
  }

  lemma {:induction false} AboveExact(t: seq<Id>, after: Id)
    requires Increasing(t)
    ensures Increasing(Above(t, after)) && forall x :: x in Above(t, after) <==> x in t && Less(after, x)
    decreases t
  {
    if t != [] {
      IncreasingTail(t);
      AboveExact(t[1..], after);
      assert t == [t[0]] + t[1..];
      var r := Above(t, after);
      forall i, j | 0 <= i < j < |r| ensures Less(r[i], r[j]) {
        var tail := Above(t[1..], after);
        if Less(after, t[0]) {
          assert r == [t[0]] + tail;
          assert r[j] in tail;
        } else {
          assert r == tail;
        }
      }
    }
  }

  predicate AtMost(a: Id, b: Id) {
    a == b || Less(a, b)
  }

  /**
   At most a page of rows, increasing, exactly those between the cursor and the token; the token is
   the last of them, and it is given exactly when rows above it remain.
   */
  ghost predicate IsPage(t: seq<Id>, after: Id, pageSize: nat, r: Response) {
    && Increasing(r.ids) && |r.ids| <= pageSize
    && (forall x :: x in r.ids <==> x in t && Less(after, x) && (r.next == "" || AtMost(x, r.next)))
    && (r.next != "" ==> Less(after, r.next) && r.ids != [] && r.next == r.ids[|r.ids| - 1])
    && (r.next != "" <==> exists x :: x in t && Less(after, x) && x !in r.ids)
  }

  lemma PageExact(t: seq<Id>, after: Id, pageSize: nat)
    requires IsTable(t) && pageSize >= 1
    ensures IsPage(t, after, pageSize, Page(t, after, pageSize))
  {
    var above := Above(t, after);
    AboveExact(t, after);
    PageIs(t, after, pageSize);
    if |above| > pageSize {
      CutRemains(above, pageSize);
      FullPage(t, after, above, pageSize);
    } else {
      assert IsPage(t, after, pageSize, Response(above, ""));
    }
  }

  lemma PageIs(t: seq<Id>, after: Id, n: nat)
    requires n >= 1
    ensures var above := Above(t, after);
            Page(t, after, n) == if |above| > n then Response(above[..n], above[n - 1]) else Response(above, "")
  {
    var above := Above(t, after);
    if |above| > n {
      assert Take(above, n + 1)[..n] == above[..n];
    }
  }

  lemma FullPage(t: seq<Id>, after: Id, above: seq<Id>, n: nat)
    requires IsTable(t) && Increasing(above) && 1 <= n < |above|
    requires (forall x :: x in above <==> x in t && Less(after, x)) && above[n] !in above[..n]
    ensures IsPage(t, after, n, Response(above[..n], above[n - 1]))
  {
    var r := Response(above[..n], above[n - 1]);
    assert above[n - 1] in above && above[n] in above;
    forall x ensures x in r.ids <==> x in t && Less(after, x) && AtMost(x, r.next) { CutExact(above, n, x); }
    assert above[n] in t && Less(after, above[n]) && above[n] !in r.ids;
  }

  lemma CutRemains(above: seq<Id>, n: nat)
    requires Increasing(above) && n < |above|
    ensures above[n] !in above[..n]
  {
    Irreflexive(above[n]);
  }

  /** The first rows of an increasing list are those up to the last of them. */
  lemma CutExact(above: seq<Id>, n: nat, x: Id)
    requires Increasing(above) && 1 <= n < |above|
    ensures x in above[..n] <==> x in above && AtMost(x, above[n - 1])
  {
    if x in above {
      var i :| 0 <= i < |above| && above[i] == x;
      if i < n {
        assert above[..n][i] == x;
      } else {
        Asymmetric(x, above[n - 1]);
        Irreflexive(x);
      }
    }
  }

  /**
   ListSchemas and ListNamespaces: the smallest rows above the cursor, at most a page of them, with
   a token exactly when there are more.  One extra row of the query tells.
   */
  method List(t: seq<Id>, after: Id, pageSize: nat) returns (r: Response)
    requires IsTable(t) && pageSize >= 1
    ensures IsPage(t, after, pageSize, r)
    ensures r == Page(t, after, pageSize)
  {
    var rows := ListPage(t, after, pageSize + 1);
    var next := "";
    if |rows| > pageSize {
      rows := rows[..pageSize];
      next := rows[|rows| - 1];
    }
    var out := [];
    for i := 0 to |rows|
      invariant out == rows[..i]
    {
      out := out + [rows[i]];
    }
    r := Response(out, next);
    PageExact(t, after, pageSize);
  }

  // ---------------------------------------------------------------------------
  // The client
  // ---------------------------------------------------------------------------

  function Keep(ids: seq<Id>, tracked: Id -> bool): seq<Id> {
    if ids == [] then [] else (if tracked(ids[0]) then [ids[0]] else []) + Keep(ids[1..], tracked)
  }

  lemma {:induction false} KeepExact(ids: seq<Id>, tracked: Id -> bool)
    requires Increasing(ids)
    ensures Increasing(Keep(ids, tracked)) && forall x :: x in Keep(ids, tracked) <==> x in ids && tracked(x)
    decreases ids
  {
    if ids != [] {
      IncreasingTail(ids);
      KeepExact(ids[1..], tracked);
      assert ids == [ids[0]] + ids[1..];
      var r, tail := Keep(ids, tracked), Keep(ids[1..], tracked);
      forall i, j | 0 <= i < j < |r| ensures Less(r[i], r[j]) {
        if tracked(ids[0]) {
          assert r == [ids[0]] + tail;
          assert r[j] in tail;
        } else {
          assert r == tail;
        }
      }
    }
  }

  /** The row is there at each of the first `k` requests. */
  ghost predicate Throughout(tables: seq<seq<Id>>, k: nat, x: Id)
    requires k <= |tables|
  {
    forall i :: 0 <= i < k ==> x in tables[i]
  }

  /** What the client has after it consumed all rows up to the cursor. */
  ghost predicate Collected(tables: seq<seq<Id>>, k: nat, tracked: Id -> bool, all: seq<Id>, cursor: Id, done: bool)
    requires k <= |tables|
  {
    && Increasing(all)
    && (forall x :: x in all ==> tracked(x) && (exists i :: 0 <= i < k && x in tables[i]))
    && (!done ==> forall x :: x in all ==> AtMost(x, cursor))
    && (forall x :: tracked(x) && x != "" && Throughout(tables, k, x) && (done || AtMost(x, cursor)) ==> x in all)
  }

  lemma AppendPage(tables: seq<seq<Id>>, k: nat, tracked: Id -> bool, all: seq<Id>, cursor: Id, pageSize: nat)
    requires k < |tables| && IsTable(tables[k]) && pageSize >= 1
    requires Collected(tables, k, tracked, all, cursor, false)
    ensures var r := Page(tables[k], cursor, pageSize);
            Collected(tables, k + 1, tracked, all + Keep(r.ids, tracked), r.next, r.next == "")
  {
    var r := Page(tables[k], cursor, pageSize);
    PageExact(tables[k], cursor, pageSize);
    KeepExact(r.ids, tracked);
    var kept := Keep(r.ids, tracked);
    AppendIncreasing(all, kept, cursor);
    forall x | x in all + kept ensures tracked(x) && exists i :: 0 <= i < k + 1 && x in tables[i] {
      if x in kept { assert x in tables[k]; }
    }
    if r.next != "" {
      forall x | x in all ensures AtMost(x, r.next) {
        if x != cursor { Transitive(x, cursor, r.next); }
      }
    }
    forall x | tracked(x) && x != "" && Throughout(tables, k + 1, x) && (r.next == "" || AtMost(x, r.next))
      ensures x in all + kept
    {
      assert x in tables[k];
      Total(cursor, x);
      if !Less(cursor, x) {
        assert AtMost(x, cursor);
        assert Throughout(tables, k, x);
      }
    }
  }

  lemma AppendIncreasing(all: seq<Id>, kept: seq<Id>, cursor: Id)
    requires Increasing(all) && Increasing(kept)
    requires forall x :: x in all ==> AtMost(x, cursor)
    requires forall x :: x in kept ==> Less(cursor, x)
    ensures Increasing(all + kept)
  {
    var r := all + kept;
    forall i, j | 0 <= i < j < |r| ensures Less(r[i], r[j]) {
      if i < |all| <= j {
        assert all[i] in all && kept[j - |all|] in kept;
        if all[i] != cursor { Transitive(all[i], cursor, kept[j - |all|]); }
      }
    }
  }

  /**
   listAllSchemas.  Request number `k` finds the table `tables[k]`; when the list is used up the
   request fails.
   */
  method ListAll(tables: seq<seq<Id>>, pageSize: nat, tracked: Id -> bool)
    returns (ok: bool, all: seq<Id>, requests: nat)
    requires pageSize >= 1 && forall k :: 0 <= k < |tables| ==> IsTable(tables[k])
    ensures requests <= |tables| && (ok ==> requests >= 1) && (!ok ==> all == [] && requests == |tables|)
    // Identifiers come in increasing order, so none twice, and each from one of the tables seen.
    ensures Increasing(all)
    ensures forall x :: x in all ==> tracked(x) && exists i :: 0 <= i < requests && x in tables[i]
    // Whatever was there throughout is there.
    ensures ok ==> forall x :: tracked(x) && Throughout(tables, requests, x) ==> x in all
    // On a table that does not change the answer is the whole table, within one request per row and one more.
    ensures (forall k :: 0 <= k < |tables| ==> tables[k] == tables[0]) && |tables| > 0 && |tables| > |tables[0]| ==>
              ok && all == Keep(tables[0], tracked)
  {
    all, requests := [], 0;
    var cursor := "";
    ghost var fixed := |tables| > 0 && forall k :: 0 <= k < |tables| ==> tables[k] == tables[0];
    assert Collected(tables, 0, tracked, all, cursor, false) by {
      forall x | x != "" ensures !AtMost(x, "") { }
    }
    if fixed { AboveAll(tables[0]); }
    while true
      invariant requests <= |tables| && Collected(tables, requests, tracked, all, cursor, false)
      invariant fixed ==> requests + |Above(tables[0], cursor)| <= |tables[0]|
      decreases |tables| - requests
    {
      if requests == |tables| { return false, [], requests; }
      AppendPage(tables, requests, tracked, all, cursor, pageSize);
      var resp := List(tables[requests], cursor, pageSize);
      all := all + Keep(resp.ids, tracked);
      ghost var before := cursor;
      requests := requests + 1;
      if resp.next == "" {
        ok := true;
        if fixed { FixedTable(tables, requests, tracked, all); }
        NothingEmpty(tables, requests);
        return;
      }
      cursor := resp.next;
      if fixed { PageShrinks(tables[0], before, pageSize); }
    }
  }

  lemma NothingEmpty(tables: seq<seq<Id>>, k: nat)
    requires 0 < k <= |tables| && forall i :: 0 <= i < |tables| ==> IsTable(tables[i])
    ensures forall x :: Throughout(tables, k, x) ==> x != ""
  {
    assert "" !in tables[0];
  }

  lemma {:induction false} AboveAll(t: seq<Id>)
    requires IsTable(t)
    ensures Above(t, "") == t
    decreases t
  {
    if t != [] {
      IncreasingTail(t);
      assert t[0] in t;
      AboveAll(t[1..]);
      assert t == [t[0]] + t[1..];
    }
  }

  lemma FixedTable(tables: seq<seq<Id>>, k: nat, tracked: Id -> bool, all: seq<Id>)
    requires 0 < k <= |tables| && IsTable(tables[0]) && forall i :: 0 <= i < |tables| ==> tables[i] == tables[0]
    requires Collected(tables, k, tracked, all, "", true)
    ensures all == Keep(tables[0], tracked)
  {
    KeepExact(tables[0], tracked);
    forall x ensures x in all <==> x in Keep(tables[0], tracked) {
      if x in tables[0] { assert Throughout(tables, k, x); }
    }
    IncreasingUnique(all, Keep(tables[0], tracked));
  }

  /** Following a cursor leaves fewer rows above it. */
  lemma PageShrinks(t: seq<Id>, after: Id, pageSize: nat)
    requires IsTable(t) && pageSize >= 1 && Page(t, after, pageSize).next != ""
    ensures |Above(t, Page(t, after, pageSize).next)| < |Above(t, after)|
  {
    var next := Page(t, after, pageSize).next;
    PageExact(t, after, pageSize);
    AboveExact(t, after);
    AboveExact(t, next);
    Irreflexive(next);
    forall x | x in Above(t, next) ensures x in Above(t, after) { Transitive(after, next, x); }
    FewerRows(Above(t, next), Above(t, after), next);
  }

  function AsSet(xs: seq<Id>): set<Id> {
    set x | x in xs
  }

  lemma {:induction false} IncreasingCard(xs: seq<Id>)
    requires Increasing(xs)
    ensures |AsSet(xs)| == |xs|
    decreases xs
  {
    if xs != [] {
      IncreasingTail(xs);
      IncreasingCard(xs[1..]);
      Irreflexive(xs[0]);
      assert xs == [xs[0]] + xs[1..];
      assert AsSet(xs) == {xs[0]} + AsSet(xs[1..]);
    }
  }

  lemma {:induction false} SmallerSet(a: set<Id>, b: set<Id>)
    requires a <= b
    ensures |a| <= |b|
  {
    if a != {} {
      var x :| x in a;
      SmallerSet(a - {x}, b - {x});
    }
  }

  lemma FewerRows(xs: seq<Id>, ys: seq<Id>, y: Id)
    requires Increasing(xs) && Increasing(ys) && (forall x :: x in xs ==> x in ys) && y in ys && y !in xs
    ensures |xs| < |ys|
  {
    IncreasingCard(xs);
    IncreasingCard(ys);
    SmallerSet(AsSet(xs), AsSet(ys) - {y});
  }
}
