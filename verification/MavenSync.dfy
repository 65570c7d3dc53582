/** MavenArtifactDownloadSyncReconciler: the cache records and the sync itself. */
module MavenSync {
  import opened Strings
  import opened Paths
  import opened Trees
  import opened Archive
  import opened ArchiveMeaning
  import opened Volume
  import opened Publish
  import opened ObjectStatus
  import opened Remote
  import opened Sync

  // ----- the cache record -----

  /** artifactCache.toString */
  function PrintRecord(source: string, checksum: string): string {
    source + "|" + checksum
  }

  /** Reading a record: it may be missing, and a content without '|' makes the index of the second
      piece panic, which the runtime turns into an error of the reconcile. */
  datatype CacheRead = Missing | Cached(source: string, checksum: string) | Panics

  /** The pure part of retrieveChecksumFromFile. */
  function ParseRecord(text: Bytes): CacheRead {
    var pieces := Split(text, '|');
    if |pieces| < 2 then Panics else Cached(pieces[0], pieces[1])
  }

  function ReadRecord(d: Disk, p: Path): CacheRead {
    match d.Content(p)
    case None => Missing
    case Some(text) => ParseRecord(text)
  }

  /** A record prints and parses back exactly when its source has no '|'; otherwise the parsed
      source is not the one that was written. */
  lemma RecordRoundTrip(source: string, checksum: string)
    requires '|' !in checksum
    ensures ParseRecord(PrintRecord(source, checksum)) == Cached(source, checksum) <==> '|' !in source
    ensures ParseRecord(PrintRecord(source, checksum)).Cached?
    ensures '|' in source ==> ParseRecord(PrintRecord(source, checksum)).source != source
  {
    var text := PrintRecord(source, checksum);
    assert text == source + ['|'] + checksum;
    SplitConcat(source, checksum, '|');
    SplitSingle(checksum, '|');
    SplitPieces(source, '|');
    assert Split(text, '|')[0] == Split(source, '|')[0];
    if '|' !in source {
      SplitSingle(source, '|');
    } else {
      assert Split(source, '|')[0] in Split(source, '|');
    }
  }

  /** The parser panics on exactly the contents without a '|', such as a record cut off in its source. */
  lemma ParsePanics(text: Bytes)
    ensures ParseRecord(text).Panics? <==> '|' !in text
  {
    if '|' in text {
      var i :| 0 <= i < |text| && text[i] == '|';
      assert text == text[..i] + ['|'] + text[i + 1..];
      SplitConcat(text[..i], text[i + 1..], '|');
    } else {
      SplitSingle(text, '|');
    }
  }

  /** A record content parses to (source, checksum) exactly when both are free of bars and the content
      is the two with a bar between them, at its end or before another bar. So a record whose source has
      bars stands for the text before its first bar and the text between its first two bars. */
  lemma ParsesTo(text: Bytes, source: string, checksum: string)
    ensures ParseRecord(text) == Cached(source, checksum) <==>
            '|' !in source && '|' !in checksum &&
            (text == source + "|" + checksum || source + "|" + checksum + "|" <= text)
  {
    if ParseRecord(text) == Cached(source, checksum) {
      ParsedPieces(text);
    }
    if '|' !in source && '|' !in checksum {
      SplitSingle(source, '|');
      SplitSingle(checksum, '|');
      var head := source + ['|'] + checksum;
      SplitConcat(source, checksum, '|');
      if text == source + "|" + checksum {
        assert text == head;
      } else if source + "|" + checksum + "|" <= text {
        var rest := text[|head| + 1..];
        assert text == head + ['|'] + rest;
        SplitConcat(head, rest, '|');
      }
    }
  }

  lemma ParsedPieces(text: Bytes)
    requires |Split(text, '|')| >= 2
    ensures var s, c := Split(text, '|')[0], Split(text, '|')[1];
            '|' !in s && '|' !in c && (text == s + "|" + c || s + "|" + c + "|" <= text)
  {
    var pieces := Split(text, '|');
    SplitPieces(text, '|');
    JoinSplit(text, '|');
    assert pieces[0] in pieces && pieces[1] in pieces;
    assert text == pieces[0] + ['|'] + Join(pieces[1..], '|');
    if |pieces| > 2 {
      assert Join(pieces[1..], '|') == pieces[1] + ['|'] + Join(pieces[2..], '|') by {
        assert pieces[1..][1..] == pieces[2..];
      }
      assert text == pieces[0] + "|" + pieces[1] + "|" + Join(pieces[2..], '|');
    }
  }

  // ----- the sync as a decision -----

  predicate Retryable(code: int) {
    code == 429 || code >= 500
  }

  /** ArtifactDetails, as stashed by the version sync. */
  datatype Details = Details(fileName: string, version: string, url: string)

  /** Local errors that a sync returns as they are: reading the cache file other than for its absence,
      making the temporary directory, hashing the download again, and making, packing or hashing the
      tarball there. */
  datatype LocalErrors = LocalErrors(cache: bool, temp: bool, rehash: bool, tgz: bool)

  const NO_ERRORS := LocalErrors(false, false, false, false)

  /** What a download sync depends on besides the volume and the status. `tmp` is the directory that
      os.MkdirTemp returns. */
  datatype MavenInput = MavenInput(
    host: string, now: int, details: Option<Details>, client: bool,
    checksum: Answer<Bytes>, artifact: Answer<Bytes>, tmp: string, clock: int,
    local: LocalErrors, faults: ReadFaults, createFails: bool) {

    /** Holds of every stashed file name by sanitizeFilename, and of every temporary directory. */
    predicate Valid() {
      IsAbs(tmp) && (details.Some? ==> ValidSegment(details.value.fileName))
    }
  }

  function RecordPathOf(id: Id, fileName: string): Path {
    DirOf(id) + [RecordName(fileName)]
  }

  function HttpPath(id: Id, file: string): string {
    JoinPath4(KindDir(Maven), id.ns, id.name, file)
  }

  function HttpUrl(host: string, id: Id, file: string): string {
    "http://" + JoinPath(host, HttpPath(id, file))
  }

  /** The path in the status is the path of the tarball relative to the served directory. */
  lemma HttpPathIsServedPath(id: Id, file: string)
    requires id.kind.Maven? && ValidId(id) && ValidSegment(file)
    ensures Segs(HttpPath(id, file)) == DirOf(id) + [file]
  {
    KindDirValid(Maven);
    RelativeJoin4(KindDir(Maven), id.ns, id.name, file);
  }

  /** At any hosts, the URLs of different files differ. */
  lemma UrlsOfFilesDiffer(id: Id, host: string, file: string, host': string, file': string)
    requires id.kind.Maven? && ValidId(id) && ValidSegment(file) && ValidSegment(file') && file != file'
    ensures HttpUrl(host, id, file) != HttpUrl(host', id, file')
  {
    HttpPathIsRendered(id, file);
    HttpPathIsRendered(id, file');
    JoinKeepsLast(host, DirOf(id), file);
    JoinKeepsLast(host', DirOf(id), file');
    var u, u' := HttpUrl(host, id, file), HttpUrl(host', id, file');
    assert u[7..] == JoinPath(host, HttpPath(id, file)) && u'[7..] == JoinPath(host', HttpPath(id, file'));
  }

  lemma HttpPathIsRendered(id: Id, file: string)
    requires id.kind.Maven? && ValidId(id) && ValidSegment(file)
    ensures Normal(false, DirOf(id) + [file]) && HttpPath(id, file) == Render(false, DirOf(id) + [file])
  {
    KindDirValid(Maven);
    RelativeJoin4Clean(KindDir(Maven), id.ns, id.name, file);
    assert DirOf(id) + [file] == [KindDir(Maven), id.ns, id.name, file];
  }

  lemma Sha1NamesDiffer(w: World, a: Bytes, b: Bytes)
    requires ValidWorld(w) && w.sha1(a) != w.sha1(b)
    ensures ValidSegment(TarName(w.sha1(a))) && ValidSegment(TarName(w.sha1(b)))
    ensures TarName(w.sha1(a)) != TarName(w.sha1(b))
  {
    Sha1Segment(w, a);
    Sha1Segment(w, b);
    assert TarName(w.sha1(a))[..40] == w.sha1(a) && TarName(w.sha1(b))[..40] == w.sha1(b);
  }

  lemma Sha1Segment(w: World, data: Bytes)
    requires ValidWorld(w)
    ensures |w.sha1(data)| == 40 && ValidSegment(TarName(w.sha1(data)))
  {
    assert IsSha1(w.sha1(data)) && !IsHex('/');
    assert '/' !in ".tar.gz";
  }

  /** The cache file is the record path relative to the served directory. */
  lemma CacheFileIsRecordPath(root: string, id: Id, fileName: string)
    requires root != "" && id.kind.Maven? && ValidId(id) && ValidSegment(fileName)
    ensures Segs(JoinPath4(root, KindDir(Maven), id.ns, id.name) + "/" + (fileName + "." + "sha1")) ==
            Segs(root) + RecordPathOf(id, fileName)
  {
    var dir, file := JoinPath4(root, KindDir(Maven), id.ns, id.name), fileName + "." + "sha1";
    assert file == RecordName(fileName);
    assert ValidSegment(file) by { assert file[|file| - 1] == '1' && |file| > 2; }
    ServedFileIsJoined(root, id, file);
    KindDirValid(Maven);
    JoinPath4Segs(root, KindDir(Maven), id.ns, id.name);
    CleanIdempotent(dir + "/" + file);
  }

  function AfterDownloadError(conds: Conditions, a: Answer<Bytes>): Plan
    requires !a.Body?
  {
    if a.DownloadError? && Retryable(a.code) then Finished(conds, true)
    else Finished(conds.(available := False), false)
  }

  predicate IsHit(cache: CacheRead, status: Status, checksum: string, url: string) {
    cache.Cached? && status.artifact.Some? && cache.checksum == checksum && cache.source == url
  }

  function NewStatus(w: World, status: Status, id: Id, input: MavenInput, fileName: string, c: string, tar: Bytes)
    : Status
  {
    var url := HttpUrl(input.host, id, TarName(c));
    Status(url, Some(Preserve(status.artifact,
                              Artifact(HttpPath(id, TarName(c)), url, fileName, w.sha1(tar), input.now))))
  }

  /** Download, verify, unpack and package; then the file operations that publish the result. */
  function FetchPlan(w: World, status: Status, conds: Conditions, id: Id, input: MavenInput, checksum: string): Plan
    requires input.Valid() && input.details.Some?
  {
    var det := input.details.value;
    if input.local.temp then Finished(conds, true)
    else if !input.artifact.Body? then AfterDownloadError(conds, input.artifact)
    else
      var data := input.artifact.data;
      var c := w.sha1(data);
      if c != checksum then Finished(conds.(available := False), false)
      else if input.local.rehash then Finished(conds, true)
      else match Pack(w, input.tmp, det.fileName, data, input.clock, input.faults)
        case NotExtracted => Finished(conds.(available := False), false)
        case NotPacked => Finished(conds, true)
        case Packed(tar) =>
          if input.local.tgz then Finished(conds, true)
          else
            var record := Record(det.fileName, PrintRecord(det.url, checksum));
            Flying(Flight(Job(DirOf(id), TarName(c), tar, Some(record), input.createFails, AtMkdir), c, false,
                          NewStatus(w, status, id, input, det.fileName, c, tar), conds.(available := True), conds))
  }

  /** The sync; `useCache` false is the same sync with the skip test removed. */
  function MavenPlan(w: World, useCache: bool, d: Disk, status: Status, conds: Conditions, id: Id, input: MavenInput)
    : Plan
    requires input.Valid()
  {
    if input.details.None? || !input.client then Finished(conds, false)
    else if !input.checksum.Body? then AfterDownloadError(conds, input.checksum)
    else
      var checksum, det := input.checksum.data, input.details.value;
      var cache := ReadRecord(d, RecordPathOf(id, det.fileName));
      if input.local.cache || cache.Panics? then Finished(conds, true)
      else if useCache && IsHit(cache, status, checksum, det.url) then
        var job := Job(DirOf(id), TarName(checksum), "", None, false, AtStatus);
        Flying(Flight(job, checksum, true, status, conds, conds))
      else FetchPlan(w, status, conds, id, input, checksum)
  }

  // ----- the sync in its own form -----

  lemma UnpackedReady(t: Tree, tmp: string, es: seq<ZipEntry>, clock: int)
    requires WellFormed(t) && IsAbs(tmp) && ArchiveExtracted(t, tmp, Some(es), clock).1
    ensures var dir, t' := Destination(tmp), ArchiveExtracted(t, tmp, Some(es), clock).0;
            WellFormed(t') && IsAbs(dir) && dir == Clean(dir) && Segs(dir) in t'
  {
    ArchiveMeaningPreserved(t, tmp, es, clock);
    JoinedIsClean(tmp, FOLDER);
  }

  class MavenArtifact {
    const id: Id
    var status: Status
    var conds: Conditions

    constructor (i: Id, s: Status, c: Conditions)
      ensures id == i && status == s && conds == c
    {
      id, status, conds := i, s, c;
    }

    /** Unpack if the file is an archive, then createTarGz. */
    method Package(w: World, input: MavenInput, data: Bytes) returns (packing: Packing)
      requires input.Valid() && input.details.Some?
      ensures packing == Pack(w, input.tmp, input.details.value.fileName, data, input.clock, input.faults)
    {
      var t := DownloadTree(input.tmp, input.details.value.fileName, data);
      var dir := JoinPath(input.tmp, "artifact");
      ArtifactDirClean(input.tmp);
      var ws := new Workspace(t);
      if IsArchive(data) {
        var zip := w.unzip(data);
        var folder := ws.ExtractArchive(input.tmp, zip, input.clock);
        if folder.None? {
          return NotExtracted;
        }
        UnpackedReady(t, input.tmp, zip.value, input.clock);
        dir := folder.value;
      }
      var tw := new TarWriter();
      var ok := tw.CreateTar(ws.tree, dir, input.faults);
      if !ok {
        return NotPacked;
      }
      assert tw.entries == TarWritten(ws.tree, dir, input.faults).0;
      return Packed(w.gzip(tw.entries));
    }

    /** The error handling that the checksum and the artifact download share. */
    method MarkDownloadError(a: Answer<Bytes>) returns (err: bool)
      requires !a.Body?
      modifies this`conds
      ensures Finished(conds, err) == AfterDownloadError(old(conds), a)
    {
      if a.DownloadError? {
        if a.code == 429 {
          return true;
        }
        if a.code >= 500 {
          return true;
        }
      }
      conds := conds.(available := False);
      return false;
    }

    method DownloadSync(w: World, vol: ServedVolume, input: MavenInput) returns (err: bool)
      requires input.Valid()
      modifies this, vol
      ensures Outcome(vol.disk, status, conds, err) ==
              Complete(MavenPlan(w, true, old(vol.disk), old(status), old(conds), id, input),
                       old(vol.disk), old(status), old(vol.budget))
    {
      if input.details.None? {
        return false;
      }
      if !input.client {
        return false;
      }
      if !input.checksum.Body? {
        err := MarkDownloadError(input.checksum);
        return;
      }
      var remoteChecksum, det := input.checksum.data, input.details.value;
      var cacheFile := RecordPathOf(id, det.fileName);
      var cache := ReadRecord(vol.disk, cacheFile);
      if input.local.cache || cache.Panics? {
        return true;
      }
      if cache != Missing && status.artifact.Some? {
        if cache.checksum == remoteChecksum && cache.source == det.url {
          return false;
        }
      }
      err := FetchAndPublish(w, vol, input, remoteChecksum);
    }

    /** From the temporary directory to the end of the sync. */
    method FetchAndPublish(w: World, vol: ServedVolume, input: MavenInput, remoteChecksum: string) returns (err: bool)
      requires input.Valid() && input.details.Some?
      modifies this, vol
      ensures Outcome(vol.disk, status, conds, err) ==
              Complete(FetchPlan(w, old(status), old(conds), id, input, remoteChecksum),
                       old(vol.disk), old(status), old(vol.budget))
    {
      if input.local.temp {
        return true;
      }
      if !input.artifact.Body? {
        err := MarkDownloadError(input.artifact);
        return;
      }
      var fileChecksum := w.sha1(input.artifact.data);
      if fileChecksum != remoteChecksum {
        conds := conds.(available := False);
        return false;
      }
      if input.local.rehash {
        return true;
      }
      var packed := Package(w, input, input.artifact.data);
      if packed.NotExtracted? {
        conds := conds.(available := False);
        return false;
      }
      if packed.NotPacked? || input.local.tgz {
        return true;
      }
      var det := input.details.value;
      var record := Record(det.fileName, PrintRecord(det.url, remoteChecksum));
      ghost var flight := FetchPlan(w, status, conds, id, input, remoteChecksum).flight;
      err := Install(vol, TarName(fileChecksum), packed.tar, record, input.createFails, flight.job);
      if err {
        return;
      }
      status := NewStatus(w, status, id, input, det.fileName, fileChecksum, packed.tar);
      conds := conds.(available := True);
    }

    /** Publish the tarball, then write the cache record. */
    method Install(vol: ServedVolume, final: string, tar: Bytes, record: Record, createFails: bool, ghost job: Job)
      returns (err: bool)
      requires job == Job(DirOf(id), final, tar, Some(record), createFails, AtMkdir)
      modifies vol
      ensures Exec(old(vol.disk), job, old(vol.budget)) == (vol.disk, job.(pc := if err then Failed else AtStatus))
    {
      var dir := DirOf(id);
      var ok := vol.CopyCompressedFile(dir + [final], dir + [PlaceholderName(final)], tar, createFails, job);
      if !ok {
        return true;
      }
      var cacheFile := dir + [RecordName(record.name)];
      assert cacheFile[..|cacheFile| - 1] == dir;
      ok := vol.WriteFile(cacheFile, record.text);
      return !ok;
    }
  }
}
