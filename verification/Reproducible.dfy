/** The tarball depends on what was downloaded and not on when or where it was unpacked, so fetching
    again what is served already changes neither the checksum nor the time in the status. */
module Reproducible {
  import opened Strings
  import opened Paths
  import opened Trees
  import opened Archive
  import opened ArchiveMeaning
  import opened ObjectStatus
  import opened Remote
  import opened Sync
  import MavenSync

  // ----- where an entry goes -----

  /** A name that leaves the working directory too, and could come back only by knowing its name. */
  predicate ClimbsTwice(name: string) {
    var n := Segs(name);
    |n| >= 2 && n[0] == ".." && n[1] == ".."
  }

  /** The place of an entry relative to a destination called folder, whatever directory that is in. */
  function PlaceIn(folder: string, name: string): Option<Path> {
    var n := Segs(name);
    if IsAbs(name) then None
    else if n == [] || n[0] != ".." then Some(n)
    else if |n| >= 2 && n[1] == folder then Some(n[2..])
    else None
  }

  lemma PlaceOfEntry(parentDir: string, folder: string, name: string)
    requires IsAbs(parentDir) && ValidSegment(folder) && !ClimbsTwice(name)
    ensures var dest := JoinPath(parentDir, folder);
            && (SafeArchiveEntryPath(dest, name).Some? <==> PlaceIn(folder, name).Some?)
            && (PlaceIn(folder, name).Some? ==>
                  var r := PlaceIn(folder, name).value;
                  Segs(SafeArchiveEntryPath(dest, name).value) == Segs(dest) + r && Normal(true, r))
  {
    var dest, n := JoinPath(parentDir, folder), Segs(name);
    DestinationClean(parentDir, folder);
    SegsNormal(name);
    if !IsAbs(name) {
      SafePathIsSegmentPrefix(dest, name);
      JoinSegs(dest, name);
      SplitPieces(name, '/');
      NormOfNorm(true, Split(name, '/'), [], Segs(dest));
      assert Segs(JoinPath(dest, name)) == Norm(true, n, Segs(dest));
      SegsNormal(parentDir);
      SegsNormal(dest);
      if n != [] && n[0] == ".." {
        ClimbOnce(Segs(parentDir), folder, n);
      } else {
        NormIdentity(true, n, Segs(dest));
        assert Segs(dest) <= Segs(dest) + n;
      }
    }
  }

  lemma ClimbOnce(base: Path, folder: string, n: Path)
    requires Normal(true, base) && ValidSegment(folder)
    requires Normal(false, n) && n != [] && n[0] == ".." && (|n| >= 2 ==> n[1] != "..")
    ensures Norm(true, n, base + [folder]) == base + n[1..]
    ensures base + [folder] <= base + n[1..] <==> |n| >= 2 && n[1] == folder
    ensures |n| >= 2 && n[1] == folder ==> base + n[1..] == base + [folder] + n[2..] && Normal(true, n[2..])
  {
    NormalAfterClimb(n);
    NormAfterClimb(base, folder, n[1..]);
    assert n == [".."] + n[1..];
    UnderFolder(base, folder, n[1..]);
    assert |n| >= 2 ==> n[1..][1..] == n[2..];
  }

  lemma UnderFolder(base: Path, folder: string, rest: Path)
    ensures base + [folder] <= base + rest <==> rest != [] && rest[0] == folder
    ensures rest != [] && rest[0] == folder ==> base + rest == base + [folder] + rest[1..]
  {
    assert (base + [folder])[|base|] == folder;
    if rest != [] {
      assert (base + rest)[|base|] == rest[0] && rest == [rest[0]] + rest[1..];
    }
  }

  lemma NormalAfterClimb(n: Path)
    requires Normal(false, n) && n != [] && n[0] == ".." && (|n| >= 2 ==> n[1] != "..")
    ensures Normal(true, n[1..]) && (|n| >= 2 ==> Normal(true, n[2..]))
  {
    assert forall j :: 1 <= j < |n| ==> n[j] != "..";
  }

  lemma NormAfterClimb(base: Path, folder: string, rest: Path)
    requires Normal(true, base) && ValidSegment(folder) && Normal(true, rest)
    ensures Norm(true, [".."] + rest, base + [folder]) == base + rest
  {
    NormConcat(true, [".."], rest, base + [folder]);
    NormPop(true, base + [folder], 1);
    assert Dots(1) == [".."] && (base + [folder])[..|base|] == base;
    AbsoluteConcat(base, rest);
    NormIdentity(true, rest, base);
  }

  lemma AbsoluteConcat(a: Path, b: Path)
    requires Normal(true, a) && Normal(true, b)
    ensures Normal(true, a + b)
  {
  }

  /** A name that climbs twice may be accepted in one directory and rejected in another. */
  lemma ClimbingTwiceDepends(base: string, a: string, b: string, folder: string, x: string)
    requires IsAbs(base) && ValidSegment(a) && ValidSegment(b) && a != b && ValidSegment(folder) && ValidSegment(x)
    ensures var name := "../../" + a + "/" + folder + "/" + x;
            && SafeArchiveEntryPath(JoinPath(JoinPath(base, a), folder), name).Some?
            && SafeArchiveEntryPath(JoinPath(JoinPath(base, b), folder), name).None?
  {
    var name := "../../" + a + "/" + folder + "/" + x;
    ClimbTwiceAt(base, a, a, folder, x);
    ClimbTwiceAt(base, b, a, folder, x);
    var p := Segs(base);
    assert p + [a, folder] <= p + [a, folder] + [x] == p + [a, folder, x];
    assert (p + [b, folder])[|p|] == b && (p + [a, folder, x])[|p|] == a;
  }

  lemma ClimbTwiceAt(base: string, b: string, a: string, folder: string, x: string)
    requires IsAbs(base) && ValidSegment(a) && ValidSegment(b) && ValidSegment(folder) && ValidSegment(x)
    ensures var name := "../../" + a + "/" + folder + "/" + x;
            SafeArchiveEntryPath(JoinPath(JoinPath(base, b), folder), name).Some? <==>
            Segs(base) + [b, folder] <= Segs(base) + [a, folder, x]
  {
    var name, dest := "../../" + a + "/" + folder + "/" + x, JoinPath(JoinPath(base, b), folder);
    JoinSegment(base, b);
    DestinationClean(JoinPath(base, b), folder);
    assert Segs(base) + [b] + [folder] == Segs(base) + [b, folder];
    SplitTwice(a, folder, x);
    JoinSegs(dest, name);
    SegsNormal(dest);
    SegsNormal(base);
    NormTwice(Segs(base), b, folder, [a, folder, x]);
    SafePathIsSegmentPrefix(dest, name);
  }

  lemma NormTwice(base: Path, b: string, folder: string, rest: Path)
    requires Normal(true, base + [b, folder]) && Normal(true, base) && Normal(true, rest)
    ensures Norm(true, ["..", ".."] + rest, base + [b, folder]) == base + rest
  {
    var d := base + [b, folder];
    NormPop(true, d, 2);
    assert d[..|d| - 2] == base && Dots(2) == ["..", ".."];
    NormConcat(true, ["..", ".."], rest, d);
    AbsoluteConcat(base, rest);
    NormIdentity(true, rest, base);
  }

  lemma SplitTwice(a: string, folder: string, x: string)
    requires '/' !in a && '/' !in folder && '/' !in x
    ensures var name := "../../" + a + "/" + folder + "/" + x;
            Split(name, '/') == ["..", ".."] + [a, folder, x] && !IsAbs(name)
  {
    var name := "../../" + a + "/" + folder + "/" + x;
    var tail := ".." + "/" + a + "/" + folder + "/" + x;
    assert name == ".." + ['/'] + tail;
    SplitConcat("..", tail, '/');
    SplitSingle("..", '/');
    Split4("..", a, folder, x);
  }

  // ----- extraction in two places at once -----

  /** The same nodes below d and below d'. */
  ghost predicate SameBelow(t: Tree, d: Path, t': Tree, d': Path) {
    forall r: Path :: (d + r in t <==> d' + r in t') && (d + r in t ==> t[d + r] == t'[d' + r])
  }

  lemma MkdirAllSame(t: Tree, d: Path, t': Tree, d': Path, r: Path)
    requires WellFormed(t) && IsDirAt(t, d) && WellFormed(t') && IsDirAt(t', d') && SameBelow(t, d, t', d')
    ensures MkdirAll(t, d + r).1 == MkdirAll(t', d' + r).1
    ensures MkdirAll(t, d + r).1 ==> SameBelow(MkdirAll(t, d + r).0, d, MkdirAll(t', d' + r).0, d')
  {
    MkdirAllBelow(t, d, r);
    MkdirAllBelow(t', d', r);
  }

  lemma UpdateSame(t: Tree, d: Path, t': Tree, d': Path, r: Path, n: Node)
    requires SameBelow(t, d, t', d')
    ensures SameBelow(t[d + r := n], d, t'[d' + r := n], d')
  {
    forall q ensures (d + q == d + r <==> q == r) && (d' + q == d' + r <==> q == r) {
      SamePrefix(d, q, r);
      SamePrefix(d', q, r);
    }
  }

  lemma FileExtractedSame(t: Tree, d: Path, t': Tree, d': Path, e: ZipEntry, r: Path, clock: int, clock': int)
    requires WellFormed(t) && IsDirAt(t, d) && WellFormed(t') && IsDirAt(t', d') && SameBelow(t, d, t', d')
    ensures FileExtracted(t, e, d + r, clock).1 == FileExtracted(t', e, d' + r, clock').1
    ensures FileExtracted(t, e, d + r, clock).1 ==>
              SameBelow(FileExtracted(t, e, d + r, clock).0, d, FileExtracted(t', e, d' + r, clock').0, d')
  {
    if e.IsDir() {
      MkdirAllSame(t, d, t', d', r);
    } else if r == [] {
      assert d + r == d && d' + r == d';
    } else {
      var init := r[..|r| - 1];
      assert (d + r)[..|d + r| - 1] == d + init && (d' + r)[..|d' + r| - 1] == d' + init;
      assert d + r in t <==> d' + r in t';
      var mode := if d + r in t && t[d + r].File? then t[d + r].attrs.mode else e.mode;
      UpdateSame(t, d, t', d', r, File(e.data, Attrs(mode, EPOCH)));
    }
  }

  /** Two extractions of the same zip, at different times into destinations of the same name in different
      directories, succeed or fail together, and succeed with the same files. */
  lemma {:induction false} ExtractSame(
    t: Tree, p: string, t': Tree, p': string, folder: string, es: seq<ZipEntry>, clock: int, clock': int)
    requires IsAbs(p) && IsAbs(p') && ValidSegment(folder)
    requires Ready(t, JoinPath(p, folder)) && Ready(t', JoinPath(p', folder))
    requires SameBelow(t, Segs(JoinPath(p, folder)), t', Segs(JoinPath(p', folder)))
    requires forall e :: e in es ==> !ClimbsTwice(e.name)
    ensures var (r, r') := (Extract(t, JoinPath(p, folder), es, clock), Extract(t', JoinPath(p', folder), es, clock'));
            r.1 == r'.1 && (r.1 ==> SameBelow(r.0, Segs(JoinPath(p, folder)), r'.0, Segs(JoinPath(p', folder))))
    decreases es
  {
    if es != [] {
      var dest, dest', e := JoinPath(p, folder), JoinPath(p', folder), es[0];
      EntrySame(t, p, t', p', folder, e, clock, clock');
      ExtractEntryContained(t, dest, e, clock);
      ExtractEntryContained(t', dest', e, clock');
      if ExtractEntry(t, dest, e, clock).1 {
        ExtractSame(ExtractEntry(t, dest, e, clock).0, p, ExtractEntry(t', dest', e, clock').0, p',
                    folder, es[1..], clock, clock');
      }
    }
  }

  lemma EntrySame(
    t: Tree, p: string, t': Tree, p': string, folder: string, e: ZipEntry, clock: int, clock': int)
    requires IsAbs(p) && IsAbs(p') && ValidSegment(folder) && !ClimbsTwice(e.name)
    requires Ready(t, JoinPath(p, folder)) && Ready(t', JoinPath(p', folder))
    requires SameBelow(t, Segs(JoinPath(p, folder)), t', Segs(JoinPath(p', folder)))
    ensures var r := ExtractEntry(t, JoinPath(p, folder), e, clock);
            var r' := ExtractEntry(t', JoinPath(p', folder), e, clock');
            r.1 == r'.1 && (r.1 ==> SameBelow(r.0, Segs(JoinPath(p, folder)), r'.0, Segs(JoinPath(p', folder))))
  {
    PlaceOfEntry(p, folder, e.name);
    PlaceOfEntry(p', folder, e.name);
    if PlaceIn(folder, e.name).Some? {
      FileExtractedSame(t, Segs(JoinPath(p, folder)), t', Segs(JoinPath(p', folder)), e,
                        PlaceIn(folder, e.name).value, clock, clock');
    }
  }

  lemma SameFiles(t: Tree, d: Path, t': Tree, d': Path)
    requires SameBelow(t, d, t', d')
    ensures FilesUnder(t, d) == FilesUnder(t', d')
  {
    var f, f' := FilesUnder(t, d), FilesUnder(t', d');
    forall r ensures r in f <==> r in f' {
      assert d + r in t <==> d' + r in t';
    }
  }

  // ----- packing -----

  /** The zip in the download, if it is one, has no entry that climbs out of the working directory. */
  predicate StaysInWorkspace(w: World, data: Bytes) {
    IsArchive(data) && w.unzip(data).Some? ==> forall e :: e in w.unzip(data).value ==> !ClimbsTwice(e.name)
  }

  /** What is packed for a download is the same in any two temporary directories and at any two times. */
  lemma PackIsReproducible(
    w: World, tmp: string, tmp': string, fileName: string, data: Bytes, clock: int, clock': int)
    requires IsAbs(tmp) && IsAbs(tmp') && ValidSegment(fileName) && StaysInWorkspace(w, data)
    ensures Pack(w, tmp, fileName, data, clock, NO_FAULTS) == Pack(w, tmp', fileName, data, clock', NO_FAULTS)
  {
    if IsArchive(data) {
      ArchivePackSame(w, tmp, tmp', fileName, fileName, data, clock, clock');
    } else {
      PlainPackSame(w, tmp, tmp', fileName, data, clock, clock');
    }
  }

  lemma TarGzSame(w: World, t: Tree, dir: string, t': Tree, dir': string)
    requires WellFormed(t) && IsAbs(dir) && Segs(dir) in t && WellFormed(t') && IsAbs(dir') && Segs(dir') in t'
    requires FilesUnder(t, Segs(dir)) == FilesUnder(t', Segs(dir'))
    ensures TarGz(w, t, dir, NO_FAULTS) == TarGz(w, t', dir', NO_FAULTS)
  {
    TarCanonical(t, dir, t', dir');
    TarGzComplete(w, t, dir, NO_FAULTS);
    TarGzComplete(w, t', dir', NO_FAULTS);
  }

  lemma PlainPackSame(
    w: World, tmp: string, tmp': string, fileName: string, data: Bytes, clock: int, clock': int)
    requires IsAbs(tmp) && IsAbs(tmp') && ValidSegment(fileName) && !IsArchive(data)
    ensures Pack(w, tmp, fileName, data, clock, NO_FAULTS) == Pack(w, tmp', fileName, data, clock', NO_FAULTS)
  {
    ArtifactDir(tmp);
    ArtifactDir(tmp');
    DownloadedFile(tmp, fileName, data);
    DownloadedFile(tmp', fileName, data);
    TarGzSame(w, DownloadTree(tmp, fileName, data), JoinPath(tmp, "artifact"),
              DownloadTree(tmp', fileName, data), JoinPath(tmp', "artifact"));
  }

  /** The download is the only file in its directory. */
  lemma DownloadedFile(tmp: string, fileName: string, data: Bytes)
    requires IsAbs(tmp) && ValidSegment(fileName)
    ensures FilesUnder(DownloadTree(tmp, fileName, data), Segs(tmp) + ["artifact"]) ==
            map[[fileName] := File(data, Attrs(0x1B6, EPOCH))]
  {
    var d, t := Segs(tmp) + ["artifact"], DownloadTree(tmp, fileName, data);
    var f := FilesUnder(t, d);
    forall r ensures r in f <==> r == [fileName] {
      if d + r in t && t[d + r].File? {
        assert d + r == d + [fileName];
        SamePrefix(d, r, [fileName]);
      }
    }
  }

  /** An archive is packed the same even under another file name. */
  lemma ArchivePackSame(w: World, tmp: string, tmp': string, fileName: string, fileName': string, data: Bytes,
                        clock: int, clock': int)
    requires IsAbs(tmp) && IsAbs(tmp') && ValidSegment(fileName) && ValidSegment(fileName')
    requires IsArchive(data) && StaysInWorkspace(w, data)
    ensures Pack(w, tmp, fileName, data, clock, NO_FAULTS) == Pack(w, tmp', fileName', data, clock', NO_FAULTS)
  {
    var t, t' := DownloadTree(tmp, fileName, data), DownloadTree(tmp', fileName', data);
    var zip := w.unzip(data);
    if zip.Some? {
      ArchiveExtractedSame(tmp, tmp', fileName, fileName', data, zip.value, clock, clock');
      if ArchiveExtracted(t, tmp, zip, clock).1 {
        ArchiveMeaningPreserved(t, tmp, zip.value, clock);
        ArchiveMeaningPreserved(t', tmp', zip.value, clock');
        TarGzSame(w, ArchiveExtracted(t, tmp, zip, clock).0, Destination(tmp),
                  ArchiveExtracted(t', tmp', zip, clock').0, Destination(tmp'));
      }
    }
  }

  lemma ArchiveExtractedSame(tmp: string, tmp': string, fileName: string, fileName': string, data: Bytes,
                             es: seq<ZipEntry>, clock: int, clock': int)
    requires IsAbs(tmp) && IsAbs(tmp') && ValidSegment(fileName) && ValidSegment(fileName')
    requires forall e :: e in es ==> !ClimbsTwice(e.name)
    ensures var r := ArchiveExtracted(DownloadTree(tmp, fileName, data), tmp, Some(es), clock);
            var r' := ArchiveExtracted(DownloadTree(tmp', fileName', data), tmp', Some(es), clock');
            r.1 == r'.1 &&
            (r.1 ==> FilesUnder(r.0, Segs(Destination(tmp))) == FilesUnder(r'.0, Segs(Destination(tmp'))))
  {
    var t1 := FreshDestination(tmp, fileName, data);
    var t1' := FreshDestination(tmp', fileName', data);
    PlainFolder();
    FreshSame(t1, Segs(Destination(tmp)), t1', Segs(Destination(tmp')));
    ExtractSame(t1, tmp, t1', tmp', FOLDER, es, clock, clock');
    var r, r' := Extract(t1, Destination(tmp), es, clock), Extract(t1', Destination(tmp'), es, clock');
    if r.1 {
      SameFiles(r.0, Segs(Destination(tmp)), r'.0, Segs(Destination(tmp')));
    }
  }

  lemma FreshSame(t: Tree, d: Path, t': Tree, d': Path)
    requires IsDirAt(t, d) && forall r :: d + r in t ==> r == []
    requires IsDirAt(t', d') && forall r :: d' + r in t' ==> r == []
    ensures SameBelow(t, d, t', d')
  {
    assert d + [] == d && d' + [] == d';
  }

  lemma FreshDestination(tmp: string, fileName: string, data: Bytes) returns (t1: Tree)
    requires IsAbs(tmp) && ValidSegment(fileName)
    ensures var t, d := DownloadTree(tmp, fileName, data), Segs(Destination(tmp)); Mkdir(t, d) == (t1, true)
    ensures Ready(t1, Destination(tmp)) && forall r :: Segs(Destination(tmp)) + r in t1 ==> r == []
  {
    var t, d := DownloadTree(tmp, fileName, data), Segs(Destination(tmp));
    PlainFolder();
    DestinationClean(tmp, FOLDER);
    assert d[..|d| - 1] == Segs(tmp);
    assert |FOLDER| != |"artifact"|;
    assert d[|Segs(tmp)|] == FOLDER;
    t1 := Mkdir(t, d).0;
    ArchiveExtractedReady(t, tmp);
  }

  // ----- what that keeps -----

  /** The same download for the same object at the same host, fetched elsewhere and at another time. */
  ghost predicate SameDownload(a: MavenSync.MavenInput, b: MavenSync.MavenInput) {
    a.host == b.host && a.details == b.details && a.artifact == b.artifact && a.checksum == b.checksum
  }

  /** Fetching again what the status describes, for instance after the volume was wiped, publishes the same
      bytes and leaves the status as it is, with its checksum and its time. */
  lemma RefetchKeepsStatus(w: World, status: Status, conds: Conditions, conds': Conditions, id: Id,
                           a: MavenSync.MavenInput, b: MavenSync.MavenInput)
    requires a.Valid() && b.Valid() && SameDownload(a, b) && a.details.Some? && a.checksum.Body?
    requires a.faults.stat == {} && b.faults.stat == {}
    requires a.artifact.Body? ==> StaysInWorkspace(w, a.artifact.data)
    ensures var p := MavenSync.FetchPlan(w, status, conds, id, a, a.checksum.data);
            p.Flying? ==>
              var q := MavenSync.FetchPlan(w, p.flight.okStatus, conds', id, b, b.checksum.data);
              && (b.local == MavenSync.NO_ERRORS && b.faults == NO_FAULTS ==> q.Flying?)
              && (q.Flying? ==>
                    q.flight.job.tar == p.flight.job.tar && q.flight.job.record == p.flight.job.record &&
                    q.flight.okStatus == p.flight.okStatus)
  {
    if MavenSync.FetchPlan(w, status, conds, id, a, a.checksum.data).Flying? {
      SameStatusAgain(w, status, id, a, b);
      SamePacking(w, a, b);
    }
  }

  lemma SamePacking(w: World, a: MavenSync.MavenInput, b: MavenSync.MavenInput)
    requires a.Valid() && b.Valid() && SameDownload(a, b) && a.details.Some? && a.artifact.Body?
    requires a.faults.stat == {} && b.faults.stat == {} && StaysInWorkspace(w, a.artifact.data)
    ensures var p := Pack(w, a.tmp, a.details.value.fileName, a.artifact.data, a.clock, a.faults);
            var q := Pack(w, b.tmp, b.details.value.fileName, b.artifact.data, b.clock, b.faults);
            p.Packed? ==> (q.Packed? ==> p == q) && (b.faults == NO_FAULTS ==> q.Packed?)
  {
    var name, data := a.details.value.fileName, a.artifact.data;
    PackWithoutStatFaults(w, a.tmp, name, data, a.clock, a.faults);
    PackWithoutStatFaults(w, b.tmp, name, data, b.clock, b.faults);
    PackIsReproducible(w, a.tmp, b.tmp, name, data, a.clock, b.clock);
  }

  lemma SameStatusAgain(w: World, status: Status, id: Id, a: MavenSync.MavenInput, b: MavenSync.MavenInput)
    requires a.host == b.host
    ensures forall fileName, c, tar ::
              var shown := MavenSync.NewStatus(w, status, id, a, fileName, c, tar);
              MavenSync.NewStatus(w, shown, id, b, fileName, c, tar) == shown
  {
  }
}
