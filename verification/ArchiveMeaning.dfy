/** What the archive pipeline preserves: extraction stays inside its directory, the tar means what
    the zip means, and the tar depends on nothing but the files. */
module ArchiveMeaning {
  import opened Strings
  import opened Paths
  import opened Trees
  import opened Archive

  // ----- what extraction keeps -----

  /** An absolute, clean destination directory that exists. */
  ghost predicate Ready(t: Tree, dest: string) {
    && WellFormed(t)
    && IsAbs(dest) && dest == Clean(dest) && dest != "/"
    && IsDirAt(t, Segs(dest))
  }

  lemma EntryPlace(t: Tree, dest: string, e: ZipEntry)
    requires Ready(t, dest) && SafeArchiveEntryPath(dest, e.name).Some?
    ensures var p := Segs(SafeArchiveEntryPath(dest, e.name).value); Normal(true, p) && Segs(dest) <= p
  {
    SafePathIsSegmentPrefix(dest, e.name);
    JoinSegs(dest, e.name);
  }

  /** One entry changes nothing outside the destination, whether or not it succeeds. */
  lemma ExtractEntryContained(t: Tree, dest: string, e: ZipEntry, clock: int)
    requires Ready(t, dest)
    ensures var t' := ExtractEntry(t, dest, e, clock).0;
            Ready(t', dest) && forall q :: !(Segs(dest) <= q) ==> (q in t' <==> q in t) && (q in t ==> t'[q] == t[q])
  {
    var place := SafeArchiveEntryPath(dest, e.name);
    if place.Some? {
      EntryPlace(t, dest, e);
      var d, p := Segs(dest), Segs(place.value);
      if e.IsDir() {
        MkdirAllKeepsTree(t, p);
        assert forall k :: 0 <= k < |d| ==> p[..k] == d[..k];
      } else if e.opens && OpenTrunc(t, p, e.mode, clock).1 {
        var n := ExtractEntry(t, dest, e, clock).0[p];
        OpenTruncKeepsTree(t, p, e.mode, clock, n);
        assert ExtractEntry(t, dest, e, clock).0 == t[p := n];
        assert p != d;
      }
    }
  }

  /** The whole loop, also when it stops early, changes nothing outside the destination. */
  lemma {:induction false} ExtractContained(t: Tree, dest: string, es: seq<ZipEntry>, clock: int)
    requires Ready(t, dest)
    ensures var t' := Extract(t, dest, es, clock).0;
            Ready(t', dest) && forall q :: !(Segs(dest) <= q) ==> (q in t' <==> q in t) && (q in t ==> t'[q] == t[q])
    decreases es
  {
    if es != [] {
      ExtractEntryContained(t, dest, es[0], clock);
      var (t1, ok) := ExtractEntry(t, dest, es[0], clock);
      if ok {
        ExtractContained(t1, dest, es[1..], clock);
      }
    }
  }

  // ----- meaning -----

  /** The key under which an entry of the zip is found again in the tar. */
  function EntryKey(dest: string, name: string): string {
    var r := Rel(dest, JoinPath(dest, name));
    if r.Some? then r.value else ""
  }

  /** What a zip means: file names to bytes, later entries winning, directories dropped. */
  function ZipContents(dest: string, es: seq<ZipEntry>, m: map<string, Bytes>): map<string, Bytes> {
    if es == [] then m
    else ZipContents(dest, es[1..], if es[0].IsDir() then m else m[EntryKey(dest, es[0].name) := es[0].data])
  }

  /** The same, keyed by the cleaned entry name alone. */
  function ZipContentsByCleanName(es: seq<ZipEntry>, m: map<string, Bytes>): map<string, Bytes> {
    if es == [] then m
    else ZipContentsByCleanName(es[1..], if es[0].IsDir() then m else m[Clean(es[0].name) := es[0].data])
  }

  /** What a tar means: later entries of the same name win. */
  function TarContents(es: seq<TarEntry>): map<string, Bytes> {
    if es == [] then map[]
    else TarContents(es[..|es| - 1])[es[|es| - 1].name := es[|es| - 1].data]
  }

  function RelName(r: Path): string {
    if r == [] then "." else Join(r, '/')
  }

  lemma RelNameInjective(a: Path, b: Path)
    requires Normal(true, a) && Normal(true, b) && RelName(a) == RelName(b)
    ensures a == b
  {
    SplitSingle(".", '/');
    if a != [] { SplitJoin(a, '/'); }
    if b != [] { SplitJoin(b, '/'); }
    assert Split(RelName(a), '/') == if a == [] then ["."] else a;
    assert Split(RelName(b), '/') == if b == [] then ["."] else b;
  }

  /** m names exactly the files of f. */
  ghost predicate Names(m: map<string, Bytes>, f: map<Path, Node>) {
    && (forall r :: r in f ==> Normal(true, r) && f[r].File? && RelName(r) in m && m[RelName(r)] == f[r].data)
    && (forall k :: k in m ==> exists r :: r in f && RelName(r) == k)
  }

  lemma NamesUnique(m: map<string, Bytes>, n: map<string, Bytes>, f: map<Path, Node>)
    requires Names(m, f) && Names(n, f)
    ensures m == n
  {
    forall k ensures k in m <==> k in n {}
    forall k | k in m ensures m[k] == n[k] {
      var r :| r in f && RelName(r) == k;
    }
  }

  lemma NamesUpdate(m: map<string, Bytes>, f: map<Path, Node>, r: Path, n: Node)
    requires Names(m, f) && Normal(true, r) && n.File?
    ensures Names(m[RelName(r) := n.data], f[r := n])
  {
    var m', f' := m[RelName(r) := n.data], f[r := n];
    forall q | q in f' ensures RelName(q) in m' && m'[RelName(q)] == f'[q].data {
      if q != r && RelName(q) == RelName(r) {
        RelNameInjective(q, r);
      }
    }
    forall k | k in m' ensures exists q :: q in f' && RelName(q) == k {
      if k == RelName(r) {
        assert r in f';
      } else {
        var q :| q in f && RelName(q) == k;
        assert q in f';
      }
    }
  }

  /** The key of an accepted entry is the rest of its path. */
  lemma EntryKeyIsRest(t: Tree, dest: string, e: ZipEntry)
    requires Ready(t, dest) && SafeArchiveEntryPath(dest, e.name).Some?
    ensures var p := Segs(SafeArchiveEntryPath(dest, e.name).value);
            Segs(dest) <= p && Normal(true, p[|Segs(dest)|..]) && EntryKey(dest, e.name) == RelName(p[|Segs(dest)|..])
  {
    EntryPlace(t, dest, e);
    JoinSegs(dest, e.name);
    RelUnder(dest, JoinPath(dest, e.name));
  }

  /** Writing the file at d + r adds it to the files under d. */
  lemma FilesUnderUpdate(t: Tree, d: Path, r: Path, n: Node)
    requires n.File?
    ensures FilesUnder(t[d + r := n], d) == FilesUnder(t, d)[r := n]
  {
    var f', f := FilesUnder(t[d + r := n], d), FilesUnder(t, d)[r := n];
    forall q ensures d + q == d + r <==> q == r {
      SamePrefix(d, q, r);
    }
    forall q ensures q in f' <==> q in f {
      assert q == r || (d + q in t[d + r := n] <==> d + q in t);
    }
    forall q | q in f' ensures f'[q] == f[q] {
    }
  }

  lemma SamePrefix(d: Path, q: Path, r: Path)
    ensures d + q == d + r <==> q == r
  {
    assert (d + q)[|d|..] == q && (d + r)[|d|..] == r;
  }

  lemma FilesUnderDirs(t: Tree, d: Path, p: Path)
    requires WellFormed(t) && Normal(true, p)
    ensures FilesUnder(MkdirAll(t, p).0, d) == FilesUnder(t, d)
  {
    MkdirAllKeepsTree(t, p);
    var f', f := FilesUnder(MkdirAll(t, p).0, d), FilesUnder(t, d);
    assert forall q :: q in f' <==> q in f;
  }

  lemma FileEntryNames(t: Tree, e: ZipEntry, d: Path, r: Path, clock: int, m: map<string, Bytes>)
    requires FileExtracted(t, e, d + r, clock).1 && !e.IsDir() && Normal(true, r)
    requires Names(m, FilesUnder(t, d))
    ensures Names(m[RelName(r) := e.data], FilesUnder(FileExtracted(t, e, d + r, clock).0, d))
  {
    var p := d + r;
    var t' := FileExtracted(t, e, p, clock).0;
    var n := t'[p];
    assert t' == t[p := n] && n.data == e.data;
    FilesUnderUpdate(t, d, r, n);
    NamesUpdate(m, FilesUnder(t, d), r, n);
  }

  lemma ExtractEntryNames(t: Tree, dest: string, e: ZipEntry, clock: int, m: map<string, Bytes>)
    requires Ready(t, dest) && ExtractEntry(t, dest, e, clock).1
    requires Names(m, FilesUnder(t, Segs(dest)))
    ensures Names(if e.IsDir() then m else m[EntryKey(dest, e.name) := e.data],
                  FilesUnder(ExtractEntry(t, dest, e, clock).0, Segs(dest)))
  {
    var d, p := Segs(dest), Segs(SafeArchiveEntryPath(dest, e.name).value);
    assert Normal(true, p) by { EntryPlace(t, dest, e); }
    var r := EntryRest(t, dest, e);
    PlacedEntryNames(t, e, d, r, clock, m);
  }

  lemma EntryRest(t: Tree, dest: string, e: ZipEntry) returns (r: Path)
    requires Ready(t, dest) && SafeArchiveEntryPath(dest, e.name).Some?
    ensures Segs(SafeArchiveEntryPath(dest, e.name).value) == Segs(dest) + r
    ensures Normal(true, r) && EntryKey(dest, e.name) == RelName(r)
  {
    EntryKeyIsRest(t, dest, e);
    r := Segs(SafeArchiveEntryPath(dest, e.name).value)[|Segs(dest)|..];
  }

  lemma PlacedEntryNames(t: Tree, e: ZipEntry, d: Path, r: Path, clock: int, m: map<string, Bytes>)
    requires WellFormed(t) && Normal(true, d + r) && Normal(true, r)
    requires FileExtracted(t, e, d + r, clock).1
    requires Names(m, FilesUnder(t, d))
    ensures Names(if e.IsDir() then m else m[RelName(r) := e.data], FilesUnder(FileExtracted(t, e, d + r, clock).0, d))
  {
    if e.IsDir() {
      FilesUnderDirs(t, d, d + r);
    } else {
      FileEntryNames(t, e, d, r, clock, m);
    }
  }

  lemma {:induction false} ExtractNames(t: Tree, dest: string, es: seq<ZipEntry>, clock: int, m: map<string, Bytes>)
    requires Ready(t, dest) && Extract(t, dest, es, clock).1
    requires Names(m, FilesUnder(t, Segs(dest)))
    ensures Names(ZipContents(dest, es, m), FilesUnder(Extract(t, dest, es, clock).0, Segs(dest)))
    decreases es
  {
    if es != [] {
      ExtractEntryNames(t, dest, es[0], clock, m);
      ExtractEntryContained(t, dest, es[0], clock);
      var m1 := if es[0].IsDir() then m else m[EntryKey(dest, es[0].name) := es[0].data];
      ExtractNames(ExtractEntry(t, dest, es[0], clock).0, dest, es[1..], clock, m1);
    }
  }

  lemma {:induction false} TarLookup(es: seq<TarEntry>)
    requires forall i, j :: 0 <= i < j < |es| ==> es[i].name != es[j].name
    ensures forall i :: 0 <= i < |es| ==> es[i].name in TarContents(es) && TarContents(es)[es[i].name] == es[i].data
    ensures forall k :: k in TarContents(es) ==> exists i :: 0 <= i < |es| && es[i].name == k
  {
    if es != [] {
      var init := es[..|es| - 1];
      TarLookup(init);
      forall k | k in TarContents(es) ensures exists i :: 0 <= i < |es| && es[i].name == k {
        if k != es[|es| - 1].name {
          assert k in TarContents(init);
          var i :| 0 <= i < |init| && init[i].name == k;
          assert es[i].name == k;
        }
      }
      forall i | 0 <= i < |es| ensures es[i].name in TarContents(es) && TarContents(es)[es[i].name] == es[i].data {
        if i < |es| - 1 {
          assert init[i] == es[i] && es[i].name != es[|es| - 1].name;
        }
      }
    }
  }

  lemma HeaderIsRelName(dir: string, q: Path)
    requires IsAbs(dir) && Normal(true, q) && Segs(dir) <= q
    ensures HeaderName(dir, q) == RelName(q[|Segs(dir)|..])
  {
    SegsRender(true, q);
    RelUnder(dir, Render(true, q));
    if Segs(dir) != q {
      assert q[|Segs(dir)|..] != [];
    }
  }

  /** Entry i of the tar is the i-th file of the walk, under its relative name. */
  lemma TarEntryAt(t: Tree, dir: string, i: nat)
    requires WellFormed(t) && IsAbs(dir) && Segs(dir) in t && i < |Walk(t, Segs(dir))|
    ensures |TarEntries(t, dir)| == |Walk(t, Segs(dir))|
    ensures var d, q := Segs(dir), Walk(t, Segs(dir))[i];
            d <= q && Normal(true, q[|d|..]) && q == d + q[|d|..] && q in t && t[q].File? &&
            TarEntries(t, dir)[i] == TarEntry(RelName(q[|d|..]), t[q].attrs, t[q].data)
  {
    var d, q := Segs(dir), Walk(t, Segs(dir))[i];
    WalkAt(t, d, i);
    WalkPackable(t, dir, d);
    assert TarEntries(t, dir)[i] == TarEntryFor(t, dir, q);
    HeaderIsRelName(dir, q);
  }

  lemma WalkAt(t: Tree, d: Path, i: nat)
    requires WellFormed(t) && d in t && i < |Walk(t, d)|
    ensures var q := Walk(t, d)[i];
            q in t && t[q].File? && d <= q && Normal(true, q) && q == d + q[|d|..] && Normal(true, q[|d|..])
  {
    assert Walk(t, d)[i] in Walk(t, d);
    WalkVisits(t, d, Walk(t, d)[i]);
  }

  lemma TarNamesDistinct(t: Tree, dir: string, i: nat, j: nat)
    requires WellFormed(t) && IsAbs(dir) && Segs(dir) in t && i < j < |Walk(t, Segs(dir))|
    ensures |TarEntries(t, dir)| == |Walk(t, Segs(dir))|
    ensures TarEntries(t, dir)[i].name != TarEntries(t, dir)[j].name
  {
    var d, qs := Segs(dir), Walk(t, Segs(dir));
    WalkIncreases(t, d);
    PathLessAsymmetric(qs[i], qs[j]);
    TarEntryAt(t, dir, i);
    TarEntryAt(t, dir, j);
    if TarEntries(t, dir)[i].name == TarEntries(t, dir)[j].name {
      RelNameInjective(qs[i][|d|..], qs[j][|d|..]);
    }
  }

  lemma TarEntriesNames(t: Tree, dir: string)
    requires WellFormed(t) && IsAbs(dir) && Segs(dir) in t
    ensures Names(TarContents(TarEntries(t, dir)), FilesUnder(t, Segs(dir)))
  {
    var d, qs, es := Segs(dir), Walk(t, Segs(dir)), TarEntries(t, dir);
    var f := FilesUnder(t, d);
    forall i, j | 0 <= i < j < |es| ensures es[i].name != es[j].name {
      TarNamesDistinct(t, dir, i, j);
    }
    TarLookup(es);
    forall r | r in f
      ensures Normal(true, r) && RelName(r) in TarContents(es) && TarContents(es)[RelName(r)] == f[r].data
    {
      WalkVisits(t, d, d + r);
      var i :| 0 <= i < |qs| && qs[i] == d + r;
      TarEntryAt(t, dir, i);
      assert (d + r)[|d|..] == r;
    }
    forall k | k in TarContents(es) ensures exists r :: r in f && RelName(r) == k {
      var i :| 0 <= i < |es| && es[i].name == k;
      TarEntryAt(t, dir, i);
      assert qs[i][|d|..] in f;
    }
  }

  /** If extraction succeeds, the tar of the result means what the zip means. */
  lemma ArchiveMeaningPreserved(t: Tree, parentDir: string, es: seq<ZipEntry>, clock: int)
    requires WellFormed(t) && IsAbs(parentDir)
    requires ArchiveExtracted(t, parentDir, Some(es), clock).1
    ensures var dest, t' := Destination(parentDir), ArchiveExtracted(t, parentDir, Some(es), clock).0;
            WellFormed(t') && IsAbs(dest) && Segs(dest) in t' &&
            TarContents(TarEntries(t', dest)) == ZipContents(dest, es, map[])
  {
    var dest := Destination(parentDir);
    ArchiveExtractedReady(t, parentDir);
    var t1 := Mkdir(t, Segs(dest)).0;
    ExtractNames(t1, dest, es, clock, map[]);
    ExtractContained(t1, dest, es, clock);
    var t' := Extract(t1, dest, es, clock).0;
    TarEntriesNames(t', dest);
    NamesUnique(TarContents(TarEntries(t', dest)), ZipContents(dest, es, map[]), FilesUnder(t', Segs(dest)));
  }

  /** The fresh destination directory exists and holds no file. */
  lemma MkdirReady(t: Tree, d: Path)
    requires WellFormed(t) && Normal(true, d) && Mkdir(t, d).1
    ensures WellFormed(Mkdir(t, d).0) && IsDirAt(Mkdir(t, d).0, d) && FilesUnder(Mkdir(t, d).0, d) == map[]
    ensures forall r :: d + r in Mkdir(t, d).0 ==> r == []
  {
    var t1 := Mkdir(t, d).0;
    forall p, k | p in t1 && 0 <= k < |p| ensures p[..k] in t1 && t1[p[..k]].Dir? {
      assert p == d && k < |d| - 1 ==> d[..|d| - 1][..k] == d[..k];
    }
    forall r | d + r in t1 ensures r == [] {
      assert (d + r)[..|d|] == d && (r == [] <==> d + r == d);
    }
    assert d + [] == d;
  }

  lemma PlainFolder()
    ensures ValidSegment(FOLDER)
  {
    assert FOLDER[0] == 'e' && |FOLDER| == 18;
  }

  lemma DestinationClean(parentDir: string, folder: string)
    requires IsAbs(parentDir) && ValidSegment(folder)
    ensures var dest := JoinPath(parentDir, folder);
            IsAbs(dest) && dest == Clean(dest) && dest != "/" && Segs(dest) == Segs(parentDir) + [folder]
  {
    JoinSegment(parentDir, folder);
    JoinSegs(parentDir, folder);
    SegsRender(true, Segs(parentDir) + [folder]);
    SegsRender(true, []);
  }

  lemma ArchiveExtractedReady(t: Tree, parentDir: string)
    requires WellFormed(t) && IsAbs(parentDir) && Mkdir(t, Segs(Destination(parentDir))).1
    ensures var dest := Destination(parentDir); var t1 := Mkdir(t, Segs(dest)).0;
            && Ready(t1, dest) && FilesUnder(t1, Segs(dest)) == map[]
            && (forall r :: Segs(dest) + r in t1 ==> r == [])
  {
    PlainFolder();
    DestinationClean(parentDir, FOLDER);
    SegsNormal(Destination(parentDir));
    MkdirReady(t, Segs(Destination(parentDir)));
  }

  // ----- when the key is the cleaned name -----

  /** Cleaning a relative name before joining it changes nothing. */
  lemma {:induction false} NormOfNorm(rooted: bool, parts: seq<string>, acc: Path, d: Path)
    requires Normal(false, acc) && forall p :: p in parts ==> '/' !in p
    ensures Norm(rooted, parts, Norm(rooted, acc, d)) == Norm(rooted, Norm(false, parts, acc), d)
  {
    if parts != [] {
      var s := parts[0];
      var acc' := Push(false, acc, s);
      NormNormal(false, [s], acc);
      assert Norm(false, [s], acc) == acc' by { assert [s][1..] == []; }
      assert Norm(rooted, acc', d) == Push(rooted, Norm(rooted, acc, d), s) by {
        if acc' == acc + [s] {
          NormSnoc(rooted, acc, s, d);
        } else if s == ".." {
          var init, x := acc[..|acc| - 1], acc[|acc| - 1];
          assert init + [x] == acc;
          NormSnoc(rooted, init, x, d);
        }
      }
      NormOfNorm(rooted, parts[1..], acc', d);
    }
  }

  lemma NormSnoc(rooted: bool, acc: Path, s: string, d: Path)
    ensures Norm(rooted, acc + [s], d) == Push(rooted, Norm(rooted, acc, d), s)
  {
    NormConcat(rooted, acc, [s], d);
    assert Norm(rooted, [s], Norm(rooted, acc, d)) == Norm(rooted, [s][1..], Push(rooted, Norm(rooted, acc, d), s));
  }

  /** A cleaned relative name that climbs out of the directory it is joined to. */
  predicate Climbs(name: string) {
    Segs(name) != [] && Segs(name)[0] == ".."
  }

  /** An accepted entry is keyed by its cleaned name exactly when that name does not climb. An
      entry that climbs out and comes back, such as "../extracted-artifact/x", is accepted too. */
  lemma KeyIsCleanName(t: Tree, dest: string, e: ZipEntry)
    requires Ready(t, dest) && SafeArchiveEntryPath(dest, e.name).Some?
    ensures EntryKey(dest, e.name) == Clean(e.name) <==> !Climbs(e.name)
  {
    var r := EntryRest(t, dest, e);
    if Climbs(e.name) {
      if RelName(r) == Clean(e.name) {
        RelNameNeverClimbs(r, e.name);
      }
    } else {
      PlainRest(t, dest, e, r);
    }
  }

  /** An entry that does not climb is placed by its own segments. */
  lemma PlainRest(t: Tree, dest: string, e: ZipEntry, r: Path)
    requires Ready(t, dest) && SafeArchiveEntryPath(dest, e.name).Some? && !Climbs(e.name)
    requires Segs(SafeArchiveEntryPath(dest, e.name).value) == Segs(dest) + r
    ensures r == Segs(e.name) && RelName(r) == Clean(e.name)
  {
    var d, n := Segs(dest), Segs(e.name);
    JoinedSegs(dest, e.name);
    SegsNormal(e.name);
    SegsNormal(dest);
    DescendsNormal(d, n);
    NormIdentity(true, n, d);
    SamePrefix(d, r, n);
  }

  lemma DescendsNormal(d: Path, n: Path)
    requires Normal(true, d) && Normal(false, n) && (n != [] ==> n[0] != "..")
    ensures Normal(true, d + n)
  {
  }

  /** Joining a relative name appends its cleaned segments. */
  lemma JoinedSegs(dest: string, name: string)
    requires IsAbs(dest) && SafeArchiveEntryPath(dest, name).Some?
    ensures Segs(SafeArchiveEntryPath(dest, name).value) == Norm(true, Segs(name), Segs(dest))
  {
    JoinSegs(dest, name);
    SplitPieces(name, '/');
    NormOfNorm(true, Split(name, '/'), [], Segs(dest));
  }

  /** An entry that leaves the destination and re-enters it is accepted, and its key is not its
      cleaned name. */
  lemma ReentryIsAccepted(parentDir: string)
    requires IsAbs(parentDir)
    ensures var dest, name := Destination(parentDir), "../" + FOLDER + "/" + "x";
            SafeArchiveEntryPath(dest, name).Some? && EntryKey(dest, name) == "x" && Climbs(name)
  {
    PlainFolder();
    ReentryAt(parentDir, FOLDER, "x");
  }

  lemma ReentryWritten()
    ensures "../" + FOLDER + "/" + "x" == "../extracted-artifact/x"
  {
  }

  /** So the failing side of MeaningByCleanName is inhabited: in any working directory, a zip whose only
      entry climbs out and comes back extracts, to a file that its cleaned name does not name. */
  lemma ReentryExtracts(t: Tree, parentDir: string, mode: nat, data: Bytes, clock: int)
    requires WellFormed(t) && IsAbs(parentDir) && IsDirAt(t, Segs(parentDir)) && Segs(Destination(parentDir)) !in t
    ensures var e := ZipEntry("../" + FOLDER + "/" + "x", false, mode, true, data, true);
            && ArchiveExtracted(t, parentDir, Some([e]), clock).1
            && !e.IsDir() && Climbs(e.name)
            && ZipContents(Destination(parentDir), [e], map[]) == map["x" := data]
            && ZipContentsByCleanName([e], map[]) == map[Clean(e.name) := data] && Clean(e.name) != "x"
  {
    var dest, name := Destination(parentDir), "../" + FOLDER + "/" + "x";
    var e := ZipEntry(name, false, mode, true, data, true);
    assert name[|name| - 1] == 'x';
    ReentryIsAccepted(parentDir);
    PlainFolder();
    DestinationClean(parentDir, FOLDER);
    assert (Segs(parentDir) + [FOLDER])[..|Segs(parentDir)|] == Segs(parentDir);
    ArchiveExtractedReady(t, parentDir);
    var t1 := Mkdir(t, Segs(dest)).0;
    OneFileExtracts(t1, dest, e, clock);
    KeyIsCleanName(t1, dest, e);
    OneFileContents(dest, e);
  }

  lemma OneFileContents(dest: string, e: ZipEntry)
    requires !e.IsDir()
    ensures ZipContents(dest, [e], map[]) == map[EntryKey(dest, e.name) := e.data]
    ensures ZipContentsByCleanName([e], map[]) == map[Clean(e.name) := e.data]
  {
    assert [e][1..] == [];
    assert ZipContents(dest, [], map[EntryKey(dest, e.name) := e.data]) == map[EntryKey(dest, e.name) := e.data];
    assert ZipContentsByCleanName([], map[Clean(e.name) := e.data]) == map[Clean(e.name) := e.data];
  }

  /** A whole file directly in an empty destination extracts. */
  lemma OneFileExtracts(t: Tree, dest: string, e: ZipEntry, clock: int)
    requires Ready(t, dest) && SafeArchiveEntryPath(dest, e.name).Some? && EntryKey(dest, e.name) == "x"
    requires !e.IsDir() && e.opens && e.intact && forall r :: Segs(dest) + r in t ==> r == []
    ensures Extract(t, dest, [e], clock).1
  {
    var r := EntryRest(t, dest, e);
    SegsSingle("x");
    SegsNormal("x");
    assert RelName(["x"]) == "x";
    RelNameInjective(r, ["x"]);
    var d := Segs(dest);
    assert (d + ["x"])[..|d + ["x"]| - 1] == d;
    assert ExtractEntry(t, dest, e, clock).1;
    assert [e][1..] == [];
  }

  lemma ReentryAt(parentDir: string, folder: string, x: string)
    requires IsAbs(parentDir) && ValidSegment(folder) && ValidSegment(x)
    ensures var dest, name := JoinPath(parentDir, folder), "../" + folder + "/" + x;
            SafeArchiveEntryPath(dest, name).Some? && EntryKey(dest, name) == x && Climbs(name)
  {
    var dest, name := JoinPath(parentDir, folder), "../" + folder + "/" + x;
    DestinationClean(parentDir, folder);
    SplitReentry(folder, x);
    JoinSegs(dest, name);
    var base := Segs(parentDir);
    var d := base + [folder];
    Norm3(true, "..", folder, x, d);
    Norm3(false, "..", folder, x, []);
    assert Push(true, d, "..") == base;
    assert Segs(JoinPath(dest, name)) == d + [x];
    assert !IsAbs(name);
    SafePathIsSegmentPrefix(dest, name);
    RelUnder(dest, JoinPath(dest, name));
    assert (d + [x])[|d|..] == [x];
  }

  lemma SplitReentry(folder: string, x: string)
    requires '/' !in folder && '/' !in x
    ensures Split("../" + folder + "/" + x, '/') == ["..", folder, x]
  {
    var name := "../" + folder + "/" + x;
    var tail := folder + ['/'] + x;
    assert name == ".." + ['/'] + tail;
    SplitConcat("..", tail, '/');
    SplitConcat(folder, x, '/');
    SplitSingle("..", '/');
    SplitSingle(folder, '/');
    SplitSingle(x, '/');
  }

  lemma Norm3(rooted: bool, a: string, b: string, c: string, acc: Path)
    ensures Norm(rooted, [a, b, c], acc) == Push(rooted, Push(rooted, Push(rooted, acc, a), b), c)
  {
    assert [a, b, c] == [a, b] + [c] && [a, b] == [a] + [b] && [a] == [] + [a];
    NormSnoc(rooted, [a, b], c, acc);
    NormSnoc(rooted, [a], b, acc);
    NormSnoc(rooted, [], a, acc);
  }

  lemma RelNameNeverClimbs(r: Path, name: string)
    requires Normal(true, r) && !IsAbs(name) && RelName(r) == Clean(name)
    ensures !Climbs(name)
  {
    var n := Segs(name);
    SegsNormal(name);
    SplitSingle(".", '/');
    if r != [] { SplitJoin(r, '/'); }
    if n != [] { SplitJoin(n, '/'); }
    assert Split(RelName(r), '/')[0] != "..";
    assert n != [] ==> Split(Clean(name), '/') == n;
  }

  lemma {:induction false} CleanNameKept(es: seq<ZipEntry>, m: map<string, Bytes>, k: string)
    requires k in m || exists e :: e in es && !e.IsDir() && k == Clean(e.name)
    ensures k in ZipContentsByCleanName(es, m)
  {
    if es != [] {
      CleanNameKept(es[1..], if es[0].IsDir() then m else m[Clean(es[0].name) := es[0].data], k);
    }
  }

  lemma {:induction false} ByCleanNameAgrees(
    t: Tree, dest: string, es: seq<ZipEntry>, clock: int, m: map<string, Bytes>)
    requires Ready(t, dest) && Extract(t, dest, es, clock).1
    requires forall e :: e in es && !e.IsDir() ==> !Climbs(e.name)
    ensures ZipContents(dest, es, m) == ZipContentsByCleanName(es, m)
    decreases es
  {
    if es != [] {
      assert es[0] in es;
      KeyIsCleanName(t, dest, es[0]);
      ExtractEntryContained(t, dest, es[0], clock);
      var m1 := if es[0].IsDir() then m else m[EntryKey(dest, es[0].name) := es[0].data];
      ByCleanNameAgrees(ExtractEntry(t, dest, es[0], clock).0, dest, es[1..], clock, m1);
    }
  }

  /** The tar holds the files of the zip under their cleaned names exactly when no file entry climbs. */
  lemma MeaningByCleanName(t: Tree, parentDir: string, es: seq<ZipEntry>, clock: int)
    requires WellFormed(t) && IsAbs(parentDir)
    requires ArchiveExtracted(t, parentDir, Some(es), clock).1
    ensures var dest, t' := Destination(parentDir), ArchiveExtracted(t, parentDir, Some(es), clock).0;
            WellFormed(t') && IsAbs(dest) && Segs(dest) in t' &&
            (TarContents(TarEntries(t', dest)) == ZipContentsByCleanName(es, map[]) <==>
             forall e :: e in es && !e.IsDir() ==> !Climbs(e.name))
  {
    ArchiveMeaningPreserved(t, parentDir, es, clock);
    var dest, t' := Destination(parentDir), ArchiveExtracted(t, parentDir, Some(es), clock).0;
    if forall e :: e in es && !e.IsDir() ==> !Climbs(e.name) {
      ArchiveExtractedReady(t, parentDir);
      ByCleanNameAgrees(Mkdir(t, Segs(dest)).0, dest, es, clock, map[]);
    } else {
      var e :| e in es && !e.IsDir() && Climbs(e.name);
      CleanNameKept(es, map[], Clean(e.name));
      ClimbingNameNotInTar(t', dest, e.name);
    }
  }

  lemma ClimbingNameNotInTar(t: Tree, dir: string, name: string)
    requires WellFormed(t) && IsAbs(dir) && Segs(dir) in t && Climbs(name)
    ensures Clean(name) !in TarContents(TarEntries(t, dir))
  {
    TarEntriesNames(t, dir);
    SegsNormal(name);
    if Clean(name) in TarContents(TarEntries(t, dir)) {
      var r :| r in FilesUnder(t, Segs(dir)) && RelName(r) == Clean(name);
      RelNameNeverClimbs(r, name);
    }
  }

  // ----- the tar is canonical -----

  /** The tar depends only on the files below the directory: their relative names, bytes, modes
      and times. */
  lemma TarCanonical(t1: Tree, dir1: string, t2: Tree, dir2: string)
    requires WellFormed(t1) && IsAbs(dir1) && Segs(dir1) in t1
    requires WellFormed(t2) && IsAbs(dir2) && Segs(dir2) in t2
    requires FilesUnder(t1, Segs(dir1)) == FilesUnder(t2, Segs(dir2))
    ensures TarEntries(t1, dir1) == TarEntries(t2, dir2)
  {
    var r1, r2 := RelWalk(t1, Segs(dir1)), RelWalk(t2, Segs(dir2));
    RelWalkSorted(t1, Segs(dir1));
    RelWalkSorted(t2, Segs(dir2));
    IncreasingUnique(r1, r2);
    forall i | 0 <= i < |r1| ensures TarEntries(t1, dir1)[i] == TarEntries(t2, dir2)[i] {
      RelEntry(t1, dir1, i);
      RelEntry(t2, dir2, i);
    }
  }

  ghost function RelWalk(t: Tree, d: Path): (rs: seq<Path>)
    requires WellFormed(t) && d in t
    ensures |rs| == |Walk(t, d)|
    ensures forall i :: 0 <= i < |rs| ==> d <= Walk(t, d)[i] && rs[i] == Walk(t, d)[i][|d|..]
  {
    var qs := Walk(t, d);
    assert forall i :: 0 <= i < |qs| ==> d <= qs[i] by {
      forall i | 0 <= i < |qs| ensures d <= qs[i] { assert qs[i] in qs; WalkVisits(t, d, qs[i]); }
    }
    seq(|qs|, i requires 0 <= i < |qs| => qs[i][|d|..])
  }

  lemma RelWalkSorted(t: Tree, d: Path)
    requires WellFormed(t) && d in t
    ensures PathIncreasing(RelWalk(t, d))
    ensures forall r :: r in RelWalk(t, d) <==> r in FilesUnder(t, d)
  {
    var qs, rs := Walk(t, d), RelWalk(t, d);
    WalkIncreases(t, d);
    forall i | 0 <= i < |qs| ensures qs[i] == d + rs[i] {
      assert qs[i] in qs;
      WalkVisits(t, d, qs[i]);
    }
    forall i, j | 0 <= i < j < |rs| ensures PathLess(rs[i], rs[j]) {
      PathLessCommon(d, rs[i], rs[j]);
    }
    forall r ensures r in rs <==> r in FilesUnder(t, d) {
      WalkVisits(t, d, d + r);
      if r in rs {
        var i :| 0 <= i < |rs| && rs[i] == r;
        assert qs[i] in qs;
      }
      if r in FilesUnder(t, d) {
        assert d <= d + r;
        var i :| 0 <= i < |qs| && qs[i] == d + r;
        assert (d + r)[|d|..] == r;
        assert rs[i] == r;
      }
    }
  }

  lemma RelEntry(t: Tree, dir: string, i: nat)
    requires WellFormed(t) && IsAbs(dir) && Segs(dir) in t && i < |Walk(t, Segs(dir))|
    ensures |TarEntries(t, dir)| == |Walk(t, Segs(dir))| == |RelWalk(t, Segs(dir))|
    ensures var r := RelWalk(t, Segs(dir))[i];
            r in FilesUnder(t, Segs(dir)) &&
            TarEntries(t, dir)[i] ==
            TarEntry(RelName(r), FilesUnder(t, Segs(dir))[r].attrs, FilesUnder(t, Segs(dir))[r].data)
  {
    TarEntryAt(t, dir, i);
  }

  /** Joining the name of a tar entry to the directory gives back the path of its file. */
  lemma TarNamesGiveBackFiles(t: Tree, dir: string, i: nat)
    requires WellFormed(t) && IsAbs(dir) && Segs(dir) in t && i < |TarEntries(t, dir)|
    ensures |TarEntries(t, dir)| == |Walk(t, Segs(dir))|
    ensures Segs(JoinPath(dir, TarEntries(t, dir)[i].name)) == Walk(t, Segs(dir))[i]
  {
    var q := Walk(t, Segs(dir))[i];
    assert q in Walk(t, Segs(dir));
    WalkPackable(t, dir, Segs(dir));
    SegsRender(true, q);
    RelUnder(dir, Render(true, q));
    RelRoundTrip(dir, Render(true, q));
    CleanIdempotent(Render(true, q));
  }
}
