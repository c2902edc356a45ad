/** The byte-wise order of strings, a strict total order, and the uniqueness of sorted lists under it. */
module Ordering {

  predicate Less(a: string, b: string) {
    b != [] && (a == [] || a[0] < b[0] || (a[0] == b[0] && Less(a[1..], b[1..])))
  }

  lemma {:induction false} Irreflexive(a: string)
    ensures !Less(a, a)
  {
    if a != [] {
      Irreflexive(a[1..]);
    }
  }

  lemma {:induction false} Transitive(a: string, b: string, c: string)
    requires Less(a, b) && Less(b, c)
    ensures Less(a, c)
    decreases |a|
  {
    if a != [] && a[0] == b[0] == c[0] {
      Transitive(a[1..], b[1..], c[1..]);
    }
  }

  lemma {:induction false} Total(a: string, b: string)
    ensures a == b || Less(a, b) || Less(b, a)
    decreases |a|
  {
    if a != [] && b != [] && a[0] == b[0] {
      Total(a[1..], b[1..]);
      assert a == [a[0]] + a[1..] && b == [b[0]] + b[1..];
    }
  }

  ghost predicate Increasing(xs: seq<string>) {
    forall i, j :: 0 <= i < j < |xs| ==> Less(xs[i], xs[j])
  }

  lemma IncreasingTail(xs: seq<string>)
    requires Increasing(xs) && xs != []
    ensures Increasing(xs[1..]) && forall x :: x in xs[1..] ==> Less(xs[0], x)
  {
    forall x | x in xs[1..] ensures Less(xs[0], x) {
      var i :| 0 <= i < |xs[1..]| && xs[1..][i] == x;
      assert xs[i + 1] == x;
    }
  }

  /** An increasing list is determined by its elements. */
  lemma {:induction false} IncreasingUnique(xs: seq<string>, ys: seq<string>)
    requires Increasing(xs) && Increasing(ys) && forall x :: x in xs <==> x in ys
    ensures xs == ys
    decreases xs
  {
    if xs == [] {
      assert forall i :: 0 <= i < |ys| ==> ys[i] in ys;
    } else {
      assert xs[0] in xs;
      assert ys != [];
      assert ys[0] in ys;
      IncreasingTail(xs);
      IncreasingTail(ys);
      Asymmetric(xs[0], ys[0]);
      assert xs[0] == ys[0] by {
        assert xs[0] in ys && ys[0] in xs;
        assert xs == [xs[0]] + xs[1..] && ys == [ys[0]] + ys[1..];
      }
      Irreflexive(xs[0]);
      forall x ensures x in xs[1..] <==> x in ys[1..] {
        assert xs == [xs[0]] + xs[1..] && ys == [ys[0]] + ys[1..];
        assert x in xs <==> x in ys;
      }
      IncreasingUnique(xs[1..], ys[1..]);
    }
  }

  lemma Asymmetric(a: string, b: string)
    ensures !(Less(a, b) && Less(b, a))
  {
    if Less(a, b) && Less(b, a) {
      Transitive(a, b, a);
      Irreflexive(a);
    }
  }
}
