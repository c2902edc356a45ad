/**
 Full names as dotted strings, the way the source has them, against the component sequences of the
 model: joining is injective, Pop takes off the first component and Parent drops the last one.
 */
module Names {
  import opened Descriptors

  /** A component as the protobuf grammar allows it, as far as dots are concerned. */
  predicate IsName(x: Name) {
    x != "" && '.' !in x
  }

  predicate IsFullName(n: FullName) {
    forall x :: x in n ==> IsName(x)
  }

  function Dotted(n: FullName): string {
    if n == [] then "" else if |n| == 1 then n[0] else n[0] + "." + Dotted(n[1..])
  }

  /** The first component and the rest, as the search for nested names takes them apart. */
  method Pop(suffix: string) returns (name: string, rest: string)
    ensures '.' !in name
    ensures '.' !in suffix ==> name == suffix && rest == ""
    ensures '.' in suffix ==> suffix == name + "." + rest
  {
    var i := 0;
    while i < |suffix| && suffix[i] != '.'
      invariant 0 <= i <= |suffix| && '.' !in suffix[..i]
    {
      i := i + 1;
    }
    if i < |suffix| {
      name, rest := suffix[..i], suffix[i + 1..];
      assert suffix == suffix[..i] + [suffix[i]] + suffix[i + 1..];
    } else {
      assert suffix[..i] == suffix;
      name, rest := suffix, "";
    }
  }

  /** A split at the first dot is unique. */
  lemma FirstDotUnique(a: string, b: string, c: string, d: string)
    requires '.' !in a && '.' !in c && a + "." + b == c + "." + d
    ensures a == c && b == d
  {
    var s := a + "." + b;
    assert s[|a|] == '.' && s[|c|] == '.';
    assert s[..|a|] == a && s[..|c|] == c;
    assert forall k :: 0 <= k < |a| ==> s[k] == a[k];
    assert forall k :: 0 <= k < |c| ==> s[k] == c[k];
    assert |a| == |c|;
    assert s[|a| + 1..] == b && s[|c| + 1..] == d;
  }

  /** Whatever splits as Pop does takes a dotted name apart into its first component and the others. */
  lemma PopTakesHead(n: FullName, name: string, rest: string)
    requires IsFullName(n) && n != [] && '.' !in name
    requires if '.' in Dotted(n) then Dotted(n) == name + "." + rest else name == Dotted(n) && rest == ""
    ensures name == n[0] && rest == Dotted(n[1..])
  {
    assert n[0] in n;
    if |n| > 1 {
      assert Dotted(n)[|n[0]|] == '.';
      FirstDotUnique(n[0], Dotted(n[1..]), name, rest);
    }
  }

  lemma DottedEmpty(n: FullName)
    requires IsFullName(n)
    ensures Dotted(n) == "" <==> n == []
  {
    if n != [] { assert n[0] in n; }
  }

  lemma DottedHead(n: FullName)
    requires IsFullName(n) && n != []
    ensures IsFullName(n[1..]) && IsName(n[0])
    ensures '.' in Dotted(n) <==> |n| > 1
  {
    assert n[0] in n;
    forall x | x in n[1..] ensures IsName(x) { assert x in n; }
    if |n| > 1 { assert Dotted(n)[|n[0]|] == '.'; }
  }

  /** Different component sequences are different dotted names. */
  lemma {:induction false} DottedInjective(a: FullName, b: FullName)
    requires IsFullName(a) && IsFullName(b) && Dotted(a) == Dotted(b)
    ensures a == b
    decreases |a|
  {
    DottedEmpty(a);
    DottedEmpty(b);
    if a != [] {
      DottedHead(a);
      DottedHead(b);
      if |a| > 1 {
        FirstDotUnique(a[0], Dotted(a[1..]), b[0], Dotted(b[1..]));
        DottedInjective(a[1..], b[1..]);
        assert a == [a[0]] + a[1..] && b == [b[0]] + b[1..];
      }
    }
  }

  /** Parent of a dotted name: everything before its last dot. */
  function ParentString(s: string): string {
    if s == "" then "" else if s[|s| - 1] == '.' then s[..|s| - 1] else ParentString(s[..|s| - 1])
  }

  lemma {:induction false} ParentStringSplit(a: string, x: string)
    requires '.' !in x
    ensures ParentString(a + "." + x) == a && ParentString(x) == ""
    decreases |x|
  {
    var s := a + "." + x;
    if x == "" {
      assert s[..|s| - 1] == a;
    } else {
      var y := x[..|x| - 1];
      assert s[..|s| - 1] == a + "." + y;
      assert s[|s| - 1] == x[|x| - 1];
      ParentStringSplit(a, y);
    }
  }

  lemma {:induction false} DottedLast(n: FullName, x: Name)
    requires n != []
    ensures Dotted(n + [x]) == Dotted(n) + "." + x
    decreases |n|
  {
    if |n| == 1 {
      assert (n + [x])[1..] == [x];
    } else {
      assert (n + [x])[1..] == n[1..] + [x];
      DottedLast(n[1..], x);
      assert n[0] + "." + (Dotted(n[1..]) + "." + x) == n[0] + "." + Dotted(n[1..]) + "." + x;
    }
  }

  /** The parent of the dotted name is the dotted parent. */
  lemma ParentAgrees(n: FullName)
    requires IsFullName(n)
    ensures ParentString(Dotted(n)) == Dotted(Parent(n))
  {
    if n != [] {
      var p, x := n[..|n| - 1], n[|n| - 1];
      assert x in n && n == p + [x];
      if p == [] {
        ParentStringSplit("", x);
      } else {
        DottedLast(p, x);
        ParentStringSplit(Dotted(p), x);
      }
    }
  }
}
