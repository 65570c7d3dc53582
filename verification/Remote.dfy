/** Everything outside the controller that its results depend on. */
module Remote {
  import opened Strings
  import opened Paths
  import opened Trees
  import opened Archive
  import opened ArchiveMeaning

  /** Functions whose insides are not modelled. `parseDigest` gives the digest of a reference such as
      name@sha256:hex, `parseTag` the full name of a tag reference. `pulls(digest, files)` says that these
      files are the content of the image with that digest. */
  datatype World = World(
    sha1: Bytes -> string,
    unzip: Bytes -> Option<seq<ZipEntry>>,
    gzip: seq<TarEntry> -> Bytes,
    parseDigest: string -> Option<string>,
    parseTag: string -> Option<string>,
    pulls: (string, map<string, Bytes>) -> bool)

  /** What the API server answers to a get. */
  datatype ApiAnswer<+T> = Found(value: T) | NotFound | ApiError

  /** What the repository answers to a get: a body, a downloadError with its status code, or another error. */
  datatype Answer<+T> = Body(data: T) | DownloadError(code: int) | OtherError

  predicate IsHex(c: char) {
    '0' <= c <= '9' || 'a' <= c <= 'f'
  }

  predicate IsSha1(s: string) {
    |s| == 40 && forall c :: c in s ==> IsHex(c)
  }

  ghost predicate ValidWorld(w: World) {
    forall b: Bytes :: IsSha1(w.sha1(b))
  }

  /** http.DetectContentType(...) == "application/zip" */
  predicate IsArchive(data: Bytes) {
    |data| >= 4 && data[..4] == ['P', 'K', 3 as char, 4 as char]
  }

  // ----- from the downloaded bytes to the tarball -----

  /** The temporary directory with the downloaded file in its sub-directory "artifact". */
  function DownloadTree(tmp: string, fileName: string, data: Bytes): (t: Tree)
    requires IsAbs(tmp) && ValidSegment(fileName)
    ensures WellFormed(t) && IsDirAt(t, Segs(tmp) + ["artifact"]) && IsDirAt(t, Segs(tmp))
  {
    var dir := Segs(tmp) + ["artifact"];
    SegsNormal(tmp);
    assert "artifact"[0] == 'a' && |"artifact"| == 8;
    assert dir == dir[..|dir|] && Segs(tmp) == dir[..|Segs(tmp)|];
    assert dir in Prefixes(dir) && Segs(tmp) in Prefixes(dir);
    var t := map q | q in Prefixes(dir) :: Dir;
    DirsWellFormed(dir, t);
    var f := File(data, Attrs(0x1B6, EPOCH));
    assert forall q :: q in t ==> |q| <= |dir|;
    FileAdded(t, dir, fileName, f);
    t[dir + [fileName] := f]
  }

  lemma DirsWellFormed(p: Path, t: Tree)
    requires Normal(true, p) && t == map q | q in Prefixes(p) :: Dir
    ensures WellFormed(t)
  {
    assert p[..0] == [];
    forall q, k | q in t && 0 <= k < |q| ensures q[..k] in t && t[q[..k]].Dir? {
      var n :| 0 <= n <= |p| && q == p[..n];
      assert q[..k] == p[..k];
    }
  }

  lemma FileAdded(t: Tree, dir: Path, name: string, f: Node)
    requires WellFormed(t) && IsDirAt(t, dir) && ValidSegment(name) && f.File? && dir + [name] !in t
    ensures WellFormed(t[dir + [name] := f])
  {
    var p := dir + [name];
    assert p[..|p| - 1] == dir;
    OpenTruncKeepsTree(t, p, 0, 0, f);
  }

  /** createTarGz: None is an error. */
  function TarGz(w: World, t: Tree, dir: string, faults: ReadFaults): Option<Bytes>
    requires WellFormed(t) && IsAbs(dir) && Segs(dir) in t
  {
    var (es, ok) := TarWritten(t, dir, faults);
    if ok then Some(w.gzip(es)) else None
  }

  /** A tarball holds all files of its directory if no Stat fails. */
  lemma TarGzComplete(w: World, t: Tree, dir: string, faults: ReadFaults)
    requires WellFormed(t) && IsAbs(dir) && Segs(dir) in t && faults.stat == {}
    ensures TarGz(w, t, dir, faults).Some? ==> TarGz(w, t, dir, faults).value == w.gzip(TarEntries(t, dir))
    ensures faults == NO_FAULTS ==> TarGz(w, t, dir, faults).Some?
  {
    TarComplete(t, dir, faults);
  }

  datatype Packing = Packed(tar: Bytes) | NotExtracted | NotPacked

  /** Unpack an archive, and pack the resulting directory; anything else is packed as it is. */
  function Pack(w: World, tmp: string, fileName: string, data: Bytes, clock: int, faults: ReadFaults): Packing
    requires IsAbs(tmp) && ValidSegment(fileName)
  {
    var t := DownloadTree(tmp, fileName, data);
    if IsArchive(data) then
      var (t1, ok) := ArchiveExtracted(t, tmp, w.unzip(data), clock);
      if ok then
        ArchiveMeaningPreserved(t, tmp, w.unzip(data).value, clock);
        AsPacking(TarGz(w, t1, Destination(tmp), faults))
      else NotExtracted
    else
      ArtifactDir(tmp);
      AsPacking(TarGz(w, t, JoinPath(tmp, "artifact"), faults))
  }

  function AsPacking(tar: Option<Bytes>): Packing {
    if tar.Some? then Packed(tar.value) else NotPacked
  }

  /** Files that cannot be opened make packing fail but never change what is packed. */
  lemma PackWithoutStatFaults(w: World, tmp: string, fileName: string, data: Bytes, clock: int, faults: ReadFaults)
    requires IsAbs(tmp) && ValidSegment(fileName) && faults.stat == {}
    ensures var p := Pack(w, tmp, fileName, data, clock, faults);
            p.Packed? ==> Pack(w, tmp, fileName, data, clock, NO_FAULTS) == p
  {
    var t := DownloadTree(tmp, fileName, data);
    if IsArchive(data) {
      var (t1, ok) := ArchiveExtracted(t, tmp, w.unzip(data), clock);
      if ok {
        ArchiveMeaningPreserved(t, tmp, w.unzip(data).value, clock);
        TarGzComplete(w, t1, Destination(tmp), faults);
        TarGzComplete(w, t1, Destination(tmp), NO_FAULTS);
      }
    } else {
      ArtifactDir(tmp);
      TarGzComplete(w, t, JoinPath(tmp, "artifact"), faults);
      TarGzComplete(w, t, JoinPath(tmp, "artifact"), NO_FAULTS);
    }
  }

  lemma ArtifactDir(tmp: string)
    requires IsAbs(tmp)
    ensures IsAbs(JoinPath(tmp, "artifact")) && Segs(JoinPath(tmp, "artifact")) == Segs(tmp) + ["artifact"]
  {
    assert "artifact"[0] == 'a' && |"artifact"| == 8;
    JoinSegment(tmp, "artifact");
  }

  lemma ArtifactDirClean(tmp: string)
    requires IsAbs(tmp)
    ensures var dir := JoinPath(tmp, "artifact");
            IsAbs(dir) && dir == Clean(dir) && Segs(dir) == Segs(tmp) + ["artifact"]
  {
    ArtifactDir(tmp);
    JoinedIsClean(tmp, "artifact");
  }

  lemma JoinedIsClean(a: string, b: string)
    requires a != ""
    ensures JoinPath(a, b) == Clean(JoinPath(a, b))
  {
    JoinSegs(a, b);
    SegsRender(IsAbs(a), Segs(JoinPath(a, b)));
  }

  /** A file that is no archive is served as a tar holding just that file. */
  lemma PlainPackContents(tmp: string, fileName: string, data: Bytes)
    requires IsAbs(tmp) && ValidSegment(fileName)
    ensures var t, dir := DownloadTree(tmp, fileName, data), JoinPath(tmp, "artifact");
            IsAbs(dir) && Segs(dir) in t && TarContents(TarEntries(t, dir)) == map[fileName := data]
  {
    var t, dir := DownloadTree(tmp, fileName, data), JoinPath(tmp, "artifact");
    ArtifactDir(tmp);
    var f := FilesUnder(t, Segs(dir));
    var one := map[[fileName] := File(data, Attrs(0x1B6, EPOCH))];
    forall r ensures r in f <==> r == [fileName] {
      assert (Segs(dir) + r)[|Segs(dir)|..] == r;
    }
    assert f == one;
    TarEntriesNames(t, dir);
    assert RelName([fileName]) == fileName;
    assert Normal(true, [fileName]) && [fileName] in f;
    NamesUnique(TarContents(TarEntries(t, dir)), map[fileName := data], f);
  }
}
