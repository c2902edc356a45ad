/**
 The on-disk cache of one namespace: schema files written one by one, then the manifest that
 names them, every write an atomic rename.  Writers and readers interleave freely, stop anywhere
 and never lock.
 */
module DiskCache {
  import opened Descriptors

  type Id = string
  type Bytes = seq<int>

  /** A schema at a version.  Its descriptor bytes never change: `Content` maps it to them. */
  datatype Ver = Ver(id: Id, version: nat)
  type Content = Ver -> Bytes

  // ---------------------------------------------------------------------------
  // File names
  // ---------------------------------------------------------------------------

  function Digit(d: nat): char
    requires d < 10
  {
    "0123456789"[d]
  }

  function Decimal(n: nat): string {
    if n < 10 then [Digit(n)] else Decimal(n / 10) + [Digit(n % 10)]
  }

  function FileName(v: Ver): string {
    v.id + "@" + Decimal(v.version) + ".pb"
  }

  lemma DigitInjective(a: nat, b: nat)
    requires a < 10 && b < 10 && Digit(a) == Digit(b)
    ensures a == b && Digit(a) != '@'
  {
  }

  lemma {:induction false} DecimalInjective(m: nat, n: nat)
    requires Decimal(m) == Decimal(n)
    ensures m == n
    decreases m
  {
    var x, y := Decimal(m), Decimal(n);
    assert x[|x| - 1] == Digit(m % 10) && y[|y| - 1] == Digit(n % 10);
    DigitInjective(m % 10, n % 10);
    if m >= 10 && n >= 10 {
      assert x[..|x| - 1] == Decimal(m / 10) && y[..|y| - 1] == Decimal(n / 10);
      DecimalInjective(m / 10, n / 10);
    } else {
      DecimalNonempty(m / 10);
      DecimalNonempty(n / 10);
    }
  }

  lemma {:induction false} DecimalNonempty(n: nat)
    ensures Decimal(n) != [] && '@' !in Decimal(n)
    decreases n
  {
    if n >= 10 {
      DecimalNonempty(n / 10);
      DigitInjective(n % 10, n % 10);
    } else {
      DigitInjective(n, n);
    }
  }

  /** Different versions, and different schemas, never share a file. */
  lemma FileNameInjective(a: Ver, b: Ver)
    requires FileName(a) == FileName(b)
    ensures a == b
  {
    var s, x, y := FileName(a), Decimal(a.version), Decimal(b.version);
    DecimalNonempty(a.version);
    DecimalNonempty(b.version);
    var i, j := |a.id|, |b.id|;
    assert s[i] == '@' && s[j] == '@';
    assert s[i + 1..|s| - 3] == x && s[j + 1..|s| - 3] == y;
    assert forall k :: i < k < |s| - 3 ==> x[k - i - 1] == s[k];
    assert forall k :: j < k < |s| - 3 ==> y[k - j - 1] == s[k];
    assert i == j;
    DecimalInjective(a.version, b.version);
    assert s[..i] == a.id && s[..j] == b.id;
  }

  // ---------------------------------------------------------------------------
  // Disk, writers and readers
  // ---------------------------------------------------------------------------

  datatype Entry = Entry(ver: Ver, file: string)
  type Manifest = seq<Entry>
  datatype Disk = Disk(files: map<string, Bytes>, manifest: Option<Manifest>)

  /** A persist call in progress: the snapshot in order, how far it got, the manifest so far. */
  datatype Writer = Writer(snap: seq<Ver>, pos: nat, man: Manifest)

  /** A load in progress: the manifest it read, how far it got, what it has loaded. */
  datatype Reader = Reader(man: Manifest, pos: nat, loaded: map<Id, (nat, Bytes)>, missing: bool)

  datatype State = State(disk: Disk, writers: map<nat, Writer>, readers: map<nat, Reader>, started: set<seq<Ver>>)

  datatype Step =
    | Start(w: nat, snap: seq<Ver>)
    | Write(w: nat)
    | Finish(w: nat)
    | Stop(w: nat)
    | ReadManifest(r: nat)
    | ReadFile(r: nat)

  /** What the manifest of a snapshot lists: the schemas that have bytes. */
  function Listed(c: Content, snap: seq<Ver>): Manifest {
    if snap == [] then [] else
      var v := snap[|snap| - 1];
      Listed(c, snap[..|snap| - 1]) + if c(v) == [] then [] else [Entry(v, FileName(v))]
  }

  /** An identifier with a slash names a directory that does not exist, so its write fails. */
  predicate Writable(v: Ver) {
    '/' !in v.id
  }

  function Next(c: Content, st: State, step: Step): State {
    match step
    case Start(w, snap) =>
      if snap == [] then st else st.(writers := st.writers[w := Writer(snap, 0, [])], started := st.started + {snap})
    case Write(w) =>
      if w !in st.writers || st.writers[w].pos >= |st.writers[w].snap| then st else
        var wr := st.writers[w];
        var v := wr.snap[wr.pos];
        if c(v) == [] then st.(writers := st.writers[w := wr.(pos := wr.pos + 1)]) else
        if !Writable(v) then st.(writers := st.writers - {w}) else
          st.(disk := st.disk.(files := st.disk.files[FileName(v) := c(v)]),
              writers := st.writers[w := wr.(pos := wr.pos + 1, man := wr.man + [Entry(v, FileName(v))])])
    case Finish(w) =>
      if w !in st.writers || st.writers[w].pos < |st.writers[w].snap| then st else
        st.(disk := st.disk.(manifest := Some(st.writers[w].man)), writers := st.writers - {w})
    case Stop(w) => st.(writers := st.writers - {w})
    case ReadManifest(r) =>
      if st.disk.manifest.None? then st else
        st.(readers := st.readers[r := Reader(st.disk.manifest.value, 0, map[], false)])
    case ReadFile(r) =>
      if r !in st.readers || st.readers[r].pos >= |st.readers[r].man| then st else
        var rd := st.readers[r];
        var e := rd.man[rd.pos];
        if e.file !in st.disk.files then st.(readers := st.readers[r := rd.(missing := true, pos := rd.pos + 1)]) else
          st.(readers := st.readers[r := rd.(loaded := rd.loaded[e.ver.id := (e.ver.version, st.disk.files[e.file])],
                                             pos := rd.pos + 1)])
  }

  function Run(c: Content, st: State, steps: seq<Step>): State {
    if steps == [] then st else Next(c, Run(c, st, steps[..|steps| - 1]), steps[|steps| - 1])
  }

  const Blank := State(Disk(map[], None), map[], map[], {})

  // ---------------------------------------------------------------------------
  // The invariant
  // ---------------------------------------------------------------------------

  /** The manifest names only files that exist and hold the bytes of the version. */
  ghost predicate Backed(c: Content, files: map<string, Bytes>, man: Manifest) {
    forall e :: e in man ==> e.file == FileName(e.ver) && e.file in files && files[e.file] == c(e.ver)
  }

  /** Every schema file holds the bytes of the version its name says. */
  ghost predicate FilesTrue(c: Content, files: map<string, Bytes>) {
    forall v :: FileName(v) in files ==> files[FileName(v)] == c(v)
  }

  ghost predicate WriterTrue(c: Content, st: State, wr: Writer) {
    && wr.snap in st.started && wr.pos <= |wr.snap|
    && wr.man == Listed(c, wr.snap[..wr.pos]) && Backed(c, st.disk.files, wr.man)
  }

  /** The loaded schemas are the first entries of the manifest, with their bytes. */
  function Image(c: Content, man: Manifest): map<Id, (nat, Bytes)> {
    if man == [] then map[] else
      var e := man[|man| - 1];
      Image(c, man[..|man| - 1])[e.ver.id := (e.ver.version, c(e.ver))]
  }

  ghost predicate Persisted(c: Content, st: State, man: Manifest) {
    exists snap :: snap in st.started && man == Listed(c, snap)
  }

  ghost predicate ReaderTrue(c: Content, st: State, rd: Reader) {
    && Persisted(c, st, rd.man) && Backed(c, st.disk.files, rd.man)
    && rd.pos <= |rd.man| && !rd.missing && rd.loaded == Image(c, rd.man[..rd.pos])
  }

  ghost predicate Inv(c: Content, st: State) {
    && FilesTrue(c, st.disk.files)
    && (st.disk.manifest.Some? ==>
        Persisted(c, st, st.disk.manifest.value) && Backed(c, st.disk.files, st.disk.manifest.value))
    && (forall w :: w in st.writers ==> WriterTrue(c, st, st.writers[w]))
    && (forall r :: r in st.readers ==> ReaderTrue(c, st, st.readers[r]))
  }

  /** Disk and history only grow, and what is written is true. */
  ghost predicate Grows(c: Content, st: State, st': State) {
    && FilesTrue(c, st'.disk.files)
    && (forall f :: f in st.disk.files ==> f in st'.disk.files && st'.disk.files[f] == st.disk.files[f])
    && st.started <= st'.started
  }

  lemma GrowthKeeps(c: Content, st: State, st': State)
    requires Inv(c, st) && Grows(c, st, st')
    ensures forall man :: Persisted(c, st, man) ==> Persisted(c, st', man)
    ensures forall man :: Backed(c, st.disk.files, man) ==> Backed(c, st'.disk.files, man)
    ensures forall wr :: WriterTrue(c, st, wr) ==> WriterTrue(c, st', wr)
    ensures forall rd :: ReaderTrue(c, st, rd) ==> ReaderTrue(c, st', rd)
  {
  }

  lemma WriteTrue(c: Content, files: map<string, Bytes>, v: Ver)
    requires FilesTrue(c, files)
    ensures FilesTrue(c, files[FileName(v) := c(v)])
    ensures forall f :: f in files ==> files[FileName(v) := c(v)][f] == files[f]
  {
    forall u | FileName(u) == FileName(v) ensures u == v { FileNameInjective(u, v); }
  }

  lemma WriteKeeps(c: Content, st: State, w: nat)
    requires Inv(c, st)
    ensures Inv(c, Next(c, st, Write(w)))
  {
    var st' := Next(c, st, Write(w));
    if w in st.writers && st.writers[w].pos < |st.writers[w].snap| {
      var wr := st.writers[w];
      var v := wr.snap[wr.pos];
      assert WriterTrue(c, st, wr);
      assert wr.snap[..wr.pos + 1][..wr.pos] == wr.snap[..wr.pos];
      if c(v) != [] && Writable(v) {
        WriteTrue(c, st.disk.files, v);
      }
      GrowthKeeps(c, st, st');
      if w in st'.writers {
        assert WriterTrue(c, st', st'.writers[w]);
      }
    }
  }

  lemma ReadKeeps(c: Content, st: State, r: nat)
    requires Inv(c, st)
    ensures Inv(c, Next(c, st, ReadFile(r)))
  {
    var st' := Next(c, st, ReadFile(r));
    if r in st.readers && st.readers[r].pos < |st.readers[r].man| {
      assert ReaderTrue(c, st, st.readers[r]);
      ReaderAdvances(c, st, r);
      GrowthKeeps(c, st, st');
    }
  }

  lemma ReaderAdvances(c: Content, st: State, r: nat)
    requires r in st.readers && ReaderTrue(c, st, st.readers[r]) && st.readers[r].pos < |st.readers[r].man|
    ensures var st' := Next(c, st, ReadFile(r));
            st'.disk == st.disk && st'.started == st.started && ReaderTrue(c, st', st'.readers[r])
  {
    var rd := st.readers[r];
    assert rd.man[rd.pos] in rd.man;
    assert rd.man[..rd.pos + 1][..rd.pos] == rd.man[..rd.pos];
  }

  lemma StepKeeps(c: Content, st: State, step: Step)
    requires Inv(c, st)
    ensures Inv(c, Next(c, st, step))
  {
    var st' := Next(c, st, step);
    match step
    case Start(w, snap) =>
      GrowthKeeps(c, st, st');
      if snap != [] {
        assert snap[..0] == [];
        assert WriterTrue(c, st', st'.writers[w]);
      }
    case Write(w) => WriteKeeps(c, st, w);
    case Finish(w) =>
      GrowthKeeps(c, st, st');
      if w in st.writers && st.writers[w].pos >= |st.writers[w].snap| {
        assert WriterTrue(c, st, st.writers[w]);
        assert st.writers[w].snap[..st.writers[w].pos] == st.writers[w].snap;
        assert Persisted(c, st, st.writers[w].man);
      }
    case Stop(w) => GrowthKeeps(c, st, st');
    case ReadManifest(r) =>
      GrowthKeeps(c, st, st');
      if st.disk.manifest.Some? {
        assert st.disk.manifest.value[..0] == [];
        assert ReaderTrue(c, st', st'.readers[r]);
      }
    case ReadFile(r) => ReadKeeps(c, st, r);
  }

  lemma {:induction false} RunKeeps(c: Content, steps: seq<Step>)
    ensures Inv(c, Run(c, Blank, steps))
  {
    if steps != [] {
      RunKeeps(c, steps[..|steps| - 1]);
      StepKeeps(c, Run(c, Blank, steps[..|steps| - 1]), steps[|steps| - 1]);
    }
  }

  /**
   In every interleaving of any number of writers and readers, each stopping wherever it likes,
   the manifest on disk is that of one whole snapshot that some writer set out to persist, and all
   the files it names exist with the bytes of that version.
   */
  lemma ManifestIsWhole(c: Content, steps: seq<Step>)
    ensures var st := Run(c, Blank, steps);
            st.disk.manifest.Some? ==>
              Persisted(c, st, st.disk.manifest.value) && Backed(c, st.disk.files, st.disk.manifest.value)
  {
    RunKeeps(c, steps);
  }

  /** ... and a reader that gets to the end has loaded one whole snapshot, never a mix. */
  lemma ReloadIsWhole(c: Content, steps: seq<Step>, r: nat)
    requires var st := Run(c, Blank, steps);
             r in st.readers && st.readers[r].pos == |st.readers[r].man|
    ensures var st := Run(c, Blank, steps);
            !st.readers[r].missing &&
            exists snap :: snap in st.started && st.readers[r].loaded == Image(c, Listed(c, snap))
  {
    RunKeeps(c, steps);
    var st := Run(c, Blank, steps);
    var rd := st.readers[r];
    assert ReaderTrue(c, st, rd);
    assert rd.man[..rd.pos] == rd.man;
    var snap :| snap in st.started && rd.man == Listed(c, snap);
  }

  /** What a whole snapshot is: each schema that has bytes, at its version, with those bytes. */
  lemma {:induction false} ImageExact(c: Content, snap: seq<Ver>, id: Id)
    requires forall i, j :: 0 <= i < j < |snap| ==> snap[i].id != snap[j].id
    ensures var m := Image(c, Listed(c, snap));
            && (id in m <==> exists v :: v in snap && v.id == id && c(v) != [])
            && (forall v :: v in snap && v.id == id && c(v) != [] ==> m[id] == (v.version, c(v)))
    decreases snap
  {
    if snap != [] {
      var init, last := snap[..|snap| - 1], snap[|snap| - 1];
      ImageExact(c, init, id);
      assert snap == init + [last];
      ImageLast(c, init, last);
      assert last.id == id ==> forall v :: v in init ==> v.id != id;
    }
  }

  lemma ImageLast(c: Content, init: seq<Ver>, last: Ver)
    ensures Image(c, Listed(c, init + [last])) ==
            if c(last) == [] then Image(c, Listed(c, init))
            else Image(c, Listed(c, init))[last.id := (last.version, c(last))]
  {
    var l := Listed(c, init);
    assert (init + [last])[..|init|] == init;
    if c(last) == [] {
      assert Listed(c, init + [last]) == l;
    } else {
      assert (l + [Entry(last, FileName(last))])[..|l|] == l;
    }
  }

  // ---------------------------------------------------------------------------
  // One process on its own
  // ---------------------------------------------------------------------------

  class CacheDirectory {
    var files: map<string, Bytes>
    var manifest: Option<Manifest>

    constructor ()
      ensures files == map[] && manifest == None
    {
      files, manifest := map[], None;
    }

    /** An empty snapshot leaves a good cache alone; a failed write leaves the manifest alone. */
    method Persist(c: Content, snap: seq<Ver>) returns (ok: bool)
      requires FilesTrue(c, files)
      modifies this
      ensures FilesTrue(c, files) && forall f :: f in old(files) ==> f in files && files[f] == old(files[f])
      ensures ok <==> forall v :: v in snap && c(v) != [] ==> Writable(v)
      ensures manifest == if ok && snap != [] then Some(Listed(c, snap)) else old(manifest)
      ensures ok ==> Backed(c, files, Listed(c, snap))
    {
      if snap == [] { return true; }
      var man: Manifest := [];
      var i := 0;
      while i < |snap|
        invariant 0 <= i <= |snap| && man == Listed(c, snap[..i]) && manifest == old(manifest)
        invariant FilesTrue(c, files) && forall f :: f in old(files) ==> f in files && files[f] == old(files[f])
        invariant Backed(c, files, man)
        invariant forall j :: 0 <= j < i && c(snap[j]) != [] ==> Writable(snap[j])
      {
        var v := snap[i];
        assert snap[..i + 1][..i] == snap[..i];
        i := i + 1;
        if c(v) == [] { continue; }
        if !Writable(v) { return false; }
        WriteTrue(c, files, v);
        files := files[FileName(v) := c(v)];
        man := man + [Entry(v, FileName(v))];
      }
      assert snap[..i] == snap;
      manifest := Some(man);
      return true;
    }

    /** Fails without a manifest, and when a file that the manifest names is missing. */
    method Load() returns (ok: bool, loaded: map<Id, (nat, Bytes)>)
      ensures ok <==> manifest.Some? && AllThere(files, manifest.value)
      ensures ok ==> loaded == Contents(files, manifest.value)
    {
      loaded := map[];
      if manifest.None? { return false, map[]; }
      var man := manifest.value;
      var i := 0;
      while i < |man|
        invariant 0 <= i <= |man| && AllThere(files, man[..i]) && loaded == Contents(files, man[..i])
      {
        if man[i].file !in files {
          assert man[i] in man;
          return false, map[];
        }
        assert man[..i + 1][..i] == man[..i];
        loaded := loaded[man[i].ver.id := (man[i].ver.version, files[man[i].file])];
        i := i + 1;
      }
      assert man[..i] == man;
      ok := true;
    }
  }

  predicate AllThere(files: map<string, Bytes>, man: Manifest) {
    forall e :: e in man ==> e.file in files
  }

  function Contents(files: map<string, Bytes>, man: Manifest): map<Id, (nat, Bytes)>
    requires AllThere(files, man)
  {
    if man == [] then map[] else
      var e := man[|man| - 1];
      Contents(files, man[..|man| - 1])[e.ver.id := (e.ver.version, files[e.file])]
  }

  /** On a directory that writers of this kind filled, a load succeeds and yields the whole snapshot. */
  lemma {:induction false} BackedLoads(c: Content, files: map<string, Bytes>, man: Manifest)
    requires Backed(c, files, man)
    ensures AllThere(files, man) && Contents(files, man) == Image(c, man)
    decreases |man|
  {
    if man != [] {
      assert man[|man| - 1] in man;
      BackedLoads(c, files, man[..|man| - 1]);
    }
  }

  // ---------------------------------------------------------------------------
  // The ancestors in the manifest
  // ---------------------------------------------------------------------------

  /** A resolver as lookups see it: its namespace, and the resolver it falls back to. */
  datatype Linked = Linked(ns: Id, parent: Option<Linked>)

  function LookupOrder(r: Linked): seq<Id> {
    [r.ns] + OrderFrom(r.parent)
  }

  function OrderFrom(r: Option<Linked>): seq<Id> {
    if r.None? then [] else LookupOrder(r.value)
  }

  /** Builds a resolver per ancestor, the farthest first, each the parent of the next. */
  method LinkAncestors(chain: seq<Id>) returns (parent: Option<Linked>, ancestors: seq<Linked>)
    requires chain != []
    ensures OrderFrom(parent) == chain[1..]
    ensures |ancestors| == |chain| - 1
    ensures forall k :: 0 <= k < |ancestors| ==> ancestors[k].ns == chain[|chain| - 1 - k]
  {
    parent, ancestors := None, [];
    var i := |chain| - 1;
    while i >= 1
      invariant 0 <= i < |chain|
      invariant OrderFrom(parent) == chain[i + 1..]
      invariant |ancestors| == |chain| - 1 - i
      invariant forall k :: 0 <= k < |ancestors| ==> ancestors[k].ns == chain[|chain| - 1 - k]
    {
      var a := Linked(chain[i], parent);
      ancestors := ancestors + [a];
      parent := Some(a);
      assert chain[i..] == [chain[i]] + chain[i + 1..];
      i := i - 1;
    }
  }

  /** New with the chain of the server; a chain that does not start at the namespace is refused. */
  method NewChained(ns: Id, chain: seq<Id>) returns (main: Option<Linked>, ancestors: seq<Linked>)
    ensures main.Some? <==> chain != [] && chain[0] == ns
    ensures main.Some? ==> LookupOrder(main.value) == chain
    ensures main.Some? ==> |ancestors| == |chain| - 1
    ensures main.Some? ==> forall k :: 0 <= k < |ancestors| ==> ancestors[k].ns == chain[|chain| - 1 - k]
  {
    if chain == [] || chain[0] != ns { return None, []; }
    var parent;
    parent, ancestors := LinkAncestors(chain);
    main := Some(Linked(ns, parent));
    assert chain == [ns] + chain[1..];
  }

  /** The chain that persist writes into the manifest. */
  method ManifestChain(ns: Id, ancestors: seq<Linked>) returns (chain: seq<Id>)
    ensures ancestors == [] ==> chain == []
    ensures ancestors != [] ==> |chain| == |ancestors| + 1 && chain[0] == ns
    ensures ancestors != [] ==> forall k :: 0 <= k < |ancestors| ==> chain[k + 1] == ancestors[k].ns
  {
    if ancestors == [] { return []; }
    chain := [ns];
    for k := 0 to |ancestors|
      invariant |chain| == k + 1 && chain[0] == ns
      invariant forall j :: 0 <= j < k ==> chain[j + 1] == ancestors[j].ns
    {
      chain := chain + [ancestors[k].ns];
    }
  }

  /** loadFromCache with the chain of the manifest. */
  method LoadChained(ns: Id, chain: seq<Id>) returns (main: Linked)
    ensures LookupOrder(main) == if |chain| <= 1 then [ns] else [ns] + chain[1..]
  {
    if |chain| <= 1 { return Linked(ns, None); }
    var parent, _ := LinkAncestors(chain);
    main := Linked(ns, parent);
  }

  /** The namespace first, then its ancestors the other way round. */
  ghost predicate AncestorsReversed(chain: seq<Id>, other: seq<Id>) {
    && |other| == |chain| > 0 && other[0] == chain[0]
    && forall k :: 1 <= k < |chain| ==> other[k] == chain[|chain| - k]
  }

  ghost predicate Distinct(chain: seq<Id>) {
    forall i, j :: 0 <= i < j < |chain| ==> chain[i] != chain[j]
  }

  lemma SameOrderExactly(chain: seq<Id>, other: seq<Id>)
    requires AncestorsReversed(chain, other) && Distinct(chain)
    ensures other == chain <==> |chain| <= 2
  {
    if |chain| > 2 {
      assert other[1] == chain[|chain| - 1] != chain[1];
    }
  }

  /**
   A resolver built from the server's chain, persisted and loaded again looks its ancestors up in
   the opposite order: the order is kept exactly when there is at most one ancestor.
   */
  method PersistAndReload(ns: Id, chain: seq<Id>) returns (live: Linked, reloaded: Linked)
    requires chain != [] && chain[0] == ns && Distinct(chain)
    ensures LookupOrder(live) == chain && AncestorsReversed(chain, LookupOrder(reloaded))
    ensures LookupOrder(reloaded) == LookupOrder(live) <==> |chain| <= 2
  {
    var main, ancestors := NewChained(ns, chain);
    live := main.value;
    var written := ManifestChain(ns, ancestors);
    reloaded := LoadChained(ns, written);
    assert |chain| == 1 ==> LookupOrder(reloaded) == [ns];
    assert |chain| > 1 ==> LookupOrder(reloaded) == written;
    forall k | 1 <= k < |chain| ensures written[k] == chain[|chain| - k] {
      assert written[(k - 1) + 1] == ancestors[k - 1].ns;
    }
    SameOrderExactly(chain, LookupOrder(reloaded));
  }

  /** The namespace whose declaration a lookup finds: the first in order that has one. */
  function FirstOwner(order: seq<Id>, owners: set<Id>): Option<Id> {
    if order == [] then None else if order[0] in owners then Some(order[0]) else FirstOwner(order[1..], owners)
  }

  /** With two or more ancestors, a name that the nearest and the farthest declare changes its meaning. */
  lemma ReloadChangesAnswers(chain: seq<Id>, other: seq<Id>)
    requires AncestorsReversed(chain, other) && Distinct(chain) && |chain| > 2
    ensures var near, far := chain[1], chain[|chain| - 1];
            near != far && FirstOwner(chain, {near, far}) == Some(near) && FirstOwner(other, {near, far}) == Some(far)
  {
    var near, far := chain[1], chain[|chain| - 1];
    assert chain[0] != near && chain[0] != far;
    assert FirstOwner(chain, {near, far}) == FirstOwner(chain[1..], {near, far});
    assert FirstOwner(other, {near, far}) == FirstOwner(other[1..], {near, far});
    assert chain[1..][0] == near && other[1..][0] == far;
  }
}
