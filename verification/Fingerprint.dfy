/**
 The text that ComputeFingerprint hashes: one line "<filename>:<hash>" per file, by filename.
 With a collision-free hash, equal fingerprints mean equal texts.
 */
module Fingerprint {
  import opened Ordering

  datatype FileHash = FileHash(filename: string, hash: string)

  /** SHA-256 in hexadecimal: 64 characters, none of them a colon or a newline. */
  const HASH_LENGTH: nat := 64

  ghost predicate IsHash(h: string) {
    |h| == HASH_LENGTH && forall i :: 0 <= i < |h| ==> h[i] != ':' && h[i] != '\n'
  }

  ghost predicate Valid(files: seq<FileHash>) {
    && (forall f :: f in files ==> IsHash(f.hash))
    && (forall i, j :: 0 <= i < j < |files| ==> files[i].filename != files[j].filename)
  }

  // ---------------------------------------------------------------------------
  // Sorting by filename
  // ---------------------------------------------------------------------------

  function Insert(f: FileHash, files: seq<FileHash>): seq<FileHash> {
    if files == [] then [f] else
    if Less(f.filename, files[0].filename) then [f] + files else [files[0]] + Insert(f, files[1..])
  }

  function Sort(files: seq<FileHash>): seq<FileHash> {
    if files == [] then [] else Insert(files[0], Sort(files[1..]))
  }

  ghost predicate Sorted(files: seq<FileHash>) {
    forall i, j :: 0 <= i < j < |files| ==> Less(files[i].filename, files[j].filename)
  }

  lemma {:induction false} InsertSorted(f: FileHash, files: seq<FileHash>)
    requires Sorted(files) && forall g :: g in files ==> g.filename != f.filename
    ensures Sorted(Insert(f, files))
    ensures forall g :: g in Insert(f, files) <==> g == f || g in files
  {
    if files != [] {
      var head, tail := files[0], files[1..];
      assert files == [head] + tail;
      if Less(f.filename, head.filename) {
        forall g | g in files ensures Less(f.filename, g.filename) {
          var i :| 0 <= i < |files| && files[i] == g;
          if i > 0 { Transitive(f.filename, head.filename, g.filename); }
        }
      } else {
        Total(f.filename, head.filename);
        InsertSorted(f, tail);
        var r := [head] + Insert(f, tail);
        forall g | g in Insert(f, tail) ensures Less(head.filename, g.filename) {
          if g != f {
            var i :| 0 <= i < |tail| && tail[i] == g;
            assert files[i + 1] == g;
          }
        }
        forall i, j | 0 <= i < j < |r| ensures Less(r[i].filename, r[j].filename) {
          if i == 0 { assert r[j] in Insert(f, tail); }
        }
      }
    }
  }

  lemma {:induction false} SortSorts(files: seq<FileHash>)
    requires forall i, j :: 0 <= i < j < |files| ==> files[i].filename != files[j].filename
    ensures Sorted(Sort(files)) && forall g :: g in Sort(files) <==> g in files
  {
    if files != [] {
      SortSorts(files[1..]);
      forall g | g in Sort(files[1..]) ensures g.filename != files[0].filename {
        var i :| 0 <= i < |files[1..]| && files[1..][i] == g;
        assert files[i + 1] == g;
      }
      InsertSorted(files[0], Sort(files[1..]));
      assert files == [files[0]] + files[1..];
    }
  }

  /** A sorted list of files is determined by its elements, so any sorting gives the same list. */
  lemma {:induction false} SortedUnique(xs: seq<FileHash>, ys: seq<FileHash>)
    requires Sorted(xs) && Sorted(ys) && forall g :: g in xs <==> g in ys
    ensures xs == ys
    decreases xs
  {
    if xs == [] {
      assert forall i :: 0 <= i < |ys| ==> ys[i] in ys;
    } else {
      assert xs[0] in xs;
      assert ys != [];
      HeadIsLeast(xs, ys[0]);
      HeadIsLeast(ys, xs[0]);
      assert xs == [xs[0]] + xs[1..] && ys == [ys[0]] + ys[1..];
      Asymmetric(xs[0].filename, ys[0].filename);
      assert xs[0] == ys[0];
      forall g ensures g in xs[1..] <==> g in ys[1..] {
        HeadNotInTail(xs);
        HeadNotInTail(ys);
        assert g in xs <==> g in ys;
      }
      SortedUnique(xs[1..], ys[1..]);
    }
  }

  lemma HeadIsLeast(xs: seq<FileHash>, g: FileHash)
    requires Sorted(xs) && xs != []
    ensures g in xs && g != xs[0] ==> Less(xs[0].filename, g.filename)
  {
  }

  lemma HeadNotInTail(xs: seq<FileHash>)
    requires Sorted(xs) && xs != []
    ensures xs[0] !in xs[1..]
  {
    Irreflexive(xs[0].filename);
    forall i | 0 <= i < |xs[1..]| ensures xs[1..][i] != xs[0] { assert xs[1..][i] == xs[i + 1]; }
  }

  // ---------------------------------------------------------------------------
  // The text
  // ---------------------------------------------------------------------------

  function Line(f: FileHash): string {
    f.filename + ":" + f.hash + "\n"
  }

  function Text(files: seq<FileHash>): string {
    if files == [] then "" else Line(files[0]) + Text(files[1..])
  }

  method ComputeText(files: seq<FileHash>) returns (b: string)
    ensures b == Text(Sort(files))
  {
    var sorted := Sort(files);
    b := "";
    var i := 0;
    while i < |sorted|
      invariant 0 <= i <= |sorted|
      invariant b + Text(sorted[i..]) == Text(sorted)
    {
      assert sorted[i..][1..] == sorted[i + 1..];
      b := b + Line(sorted[i]);
      i := i + 1;
    }
  }

  /** Position `i` looks like the end of a line: a colon, a hash and a newline end there. */
  ghost predicate EndsLine(t: string, i: nat) {
    && HASH_LENGTH + 1 <= i < |t| && t[i] == '\n' && t[i - HASH_LENGTH - 1] == ':'
    && IsHash(t[i - HASH_LENGTH..i])
  }

  /** The filename does not itself contain something that looks like the end of a line. */
  ghost predicate Clean(filename: string) {
    forall i: nat :: !EndsLine(filename, i)
  }

  lemma NoNewlineIsClean(filename: string)
    requires '\n' !in filename
    ensures Clean(filename)
  {
  }

  /** The first position that looks like the end of a line is the end of the first line. */
  lemma FirstLineEnd(f: FileHash, rest: string)
    requires IsHash(f.hash) && Clean(f.filename)
    ensures EndsLine(Line(f) + rest, |Line(f)| - 1)
    ensures forall i: nat :: i < |Line(f)| - 1 ==> !EndsLine(Line(f) + rest, i)
  {
    var t, n := Line(f) + rest, |f.filename|;
    assert |Line(f)| == n + HASH_LENGTH + 2;
    assert t[..n] == f.filename;
    assert t[n] == ':' && t[n + 1..n + 1 + HASH_LENGTH] == f.hash && t[n + 1 + HASH_LENGTH] == '\n';
    forall i: nat | i < |Line(f)| - 1 ensures !EndsLine(t, i) {
      if i > n {
        assert t[i] == f.hash[i - n - 1];
      } else if HASH_LENGTH + 1 <= i < n {
        assert f.filename[i - HASH_LENGTH..i] == t[i - HASH_LENGTH..i];
        assert !EndsLine(f.filename, i);
      }
    }
  }

  lemma LineInjective(f: FileHash, g: FileHash, r: string, q: string)
    requires IsHash(f.hash) && Clean(f.filename) && IsHash(g.hash) && Clean(g.filename)
    requires Line(f) + r == Line(g) + q
    ensures f == g && r == q
  {
    FirstLineEnd(f, r);
    FirstLineEnd(g, q);
    var t := Line(f) + r;
    assert |Line(f)| == |Line(g)|;
    assert t[..|Line(f)|] == Line(f) && t[..|Line(g)|] == Line(g);
    assert t[|Line(f)|..] == r && t[|Line(g)|..] == q;
    var n := |f.filename|;
    assert Line(f)[..n] == f.filename && Line(g)[..n] == g.filename;
    assert Line(f)[n + 1..n + 1 + HASH_LENGTH] == f.hash && Line(g)[n + 1..n + 1 + HASH_LENGTH] == g.hash;
  }

  lemma {:induction false} TextInjective(xs: seq<FileHash>, ys: seq<FileHash>)
    requires forall f :: f in xs || f in ys ==> IsHash(f.hash) && Clean(f.filename)
    requires Text(xs) == Text(ys)
    ensures xs == ys
    decreases xs
  {
    if xs != [] && ys != [] {
      LineInjective(xs[0], ys[0], Text(xs[1..]), Text(ys[1..]));
      TextInjective(xs[1..], ys[1..]);
      assert xs == [xs[0]] + xs[1..] && ys == [ys[0]] + ys[1..];
    }
  }

  ghost predicate SameFiles(a: seq<FileHash>, b: seq<FileHash>) {
    forall f :: f in a <==> f in b
  }

  /**
   The hashed text is the same for every order of the files, and for clean filenames it is the
   same only for the same files with the same hashes.
   */
  lemma TextExact(a: seq<FileHash>, b: seq<FileHash>)
    requires Valid(a) && Valid(b)
    ensures SameFiles(a, b) ==> Text(Sort(a)) == Text(Sort(b))
    ensures (forall f :: f in a || f in b ==> Clean(f.filename)) ==>
            (Text(Sort(a)) == Text(Sort(b)) <==> SameFiles(a, b))
  {
    SortSorts(a);
    SortSorts(b);
    if SameFiles(a, b) {
      SortedUnique(Sort(a), Sort(b));
    }
    if (forall f :: f in a || f in b ==> Clean(f.filename)) && Text(Sort(a)) == Text(Sort(b)) {
      TextInjective(Sort(a), Sort(b));
    }
  }

  /**
   Unclean filenames collide: for all names and hashes, one file whose name embeds the line of
   another gives the text of the two separate files.
   */
  lemma UncleanNamesCollide(x: string, y: string, h: string, k: string)
    requires IsHash(h) && IsHash(k) && Less(x, y)
    ensures var joined := FileHash(x + ":" + h + "\n" + y, k);
            Text(Sort([joined])) == Text(Sort([FileHash(x, h), FileHash(y, k)]))
  {
    var joined, a, b := FileHash(x + ":" + h + "\n" + y, k), FileHash(x, h), FileHash(y, k);
    TextOfOne(joined);
    TextOfTwo(a, b);
    assert Line(joined) == Line(a) + Line(b);
  }

  lemma TextOfOne(a: FileHash)
    ensures Sort([a]) == [a] && Text([a]) == Line(a)
  {
    assert [a][1..] == [];
    assert Text([a]) == Line(a) + "";
  }

  lemma TextOfTwo(a: FileHash, b: FileHash)
    requires Less(a.filename, b.filename)
    ensures Text(Sort([a, b])) == Line(a) + Line(b)
  {
    assert [a, b][1..] == [b];
    TextOfOne(b);
    assert Sort([a, b]) == [a] + [b];
    assert ([a] + [b])[1..] == [b];
  }
}
