/** MavenResolver: from coordinates to a file name and a download URL. */
module Resolver {
  import opened Strings
  import opened Paths
  import opened Metadata
  import opened Remote

  datatype Coordinates = Coordinates(
    groupId: string, artifactId: string, version: string, typ: string, classifier: string)

  /** What downloadMetadata returns for a URL. */
  type Answers = string -> Answer<MavenMetadata>

  datatype Error =
    | RangeUnsupported
    | Fetch(answer: Answer<MavenMetadata>)
    | NoRelease
    | NoLatest
    | BadFilename(name: string)

  /** The resolver's fields; `version` is Artifact.Version. */
  datatype Resolved = Resolved(version: string, resolvedVersion: string, fileName: string, url: string)

  datatype Result = Ok(value: Resolved) | Err(error: Error)

  // ----- resolution as a function -----

  predicate IsRange(version: string) {
    "[" <= version || "(" <= version
  }

  predicate IsSnapshot(version: string) {
    HasSuffix(version, "-SNAPSHOT")
  }

  predicate IsPinned(version: string) {
    !IsRange(version) && version != "RELEASE" && version != "LATEST" && !IsSnapshot(version)
  }

  function FileName(a: Coordinates, version: string): string {
    if |a.classifier| > 0 then a.artifactId + "-" + version + "-" + a.classifier + "." + a.typ
    else a.artifactId + "-" + version + "." + a.typ
  }

  function MetadataURL(repo: string, path: string): string {
    repo + "/" + path + "/" + "maven-metadata.xml"
  }

  function SnapshotURL(repo: string, path: string, version: string): string {
    repo + "/" + path + "/" + version + "/" + "maven-metadata.xml"
  }

  function DownloadURL(repo: string, path: string, version: string, fileName: string): string {
    repo + "/" + path + "/" + version + "/" + fileName
  }

  /** The fields once all details are set, whether or not the file name turns out valid. */
  function Detailed(a: Coordinates, repo: string, path: string, version: string, resolvedVersion: string): Resolved {
    var fileName := FileName(a, resolvedVersion);
    Resolved(version, resolvedVersion, fileName, DownloadURL(repo, path, version, fileName))
  }

  function Finish(a: Coordinates, repo: string, path: string, version: string, resolvedVersion: string): Result {
    var r := Detailed(a, repo, path, version, resolvedVersion);
    if SanitizeFilename(r.fileName) then Ok(r) else Err(BadFilename(r.fileName))
  }

  function SnapshotChoice(a: Coordinates, version: string, m: MavenMetadata): string {
    if |m.snapshotVersions| > 0 then ResolvedSnapshot(m, a.typ) else version
  }

  function ResolveSnapshot(a: Coordinates, repo: string, path: string, answers: Answers, version: string): Result {
    var answer := answers(SnapshotURL(repo, path, version));
    if !answer.Body? then Err(Fetch(answer))
    else Finish(a, repo, path, version, SnapshotChoice(a, version, answer.data))
  }

  function ResolveLatest(a: Coordinates, repo: string, path: string, answers: Answers): Result {
    var answer := answers(MetadataURL(repo, path));
    if !answer.Body? then Err(Fetch(answer))
    else
      var lv := answer.data.latest;
      if lv == "" then Err(NoLatest)
      else if IsSnapshot(lv) then ResolveSnapshot(a, repo, path, answers, lv)
      else Finish(a, repo, path, lv, lv)
  }

  function ResolveRelease(a: Coordinates, repo: string, path: string, answers: Answers): Result {
    var answer := answers(MetadataURL(repo, path));
    if !answer.Body? then Err(Fetch(answer))
    else
      var rv := answer.data.release;
      if rv == "" then Err(NoRelease) else Finish(a, repo, path, rv, rv)
  }

  /** Resolve, for the version given apart from the other coordinates. */
  function Resolution(a: Coordinates, repo: string, path: string, answers: Answers, version: string): Result {
    if IsRange(version) then Err(RangeUnsupported)
    else if version == "RELEASE" then ResolveRelease(a, repo, path, answers)
    else if version == "LATEST" then ResolveLatest(a, repo, path, answers)
    else if IsSnapshot(version) then ResolveSnapshot(a, repo, path, answers, version)
    else Finish(a, repo, path, version, version)
  }

  // ----- the fields that Resolve leaves, also when it fails -----

  function SnapshotFields(before: Resolved, a: Coordinates, repo: string, path: string, answers: Answers): Resolved {
    var answer := answers(SnapshotURL(repo, path, before.version));
    if !answer.Body? then before
    else Detailed(a, repo, path, before.version, SnapshotChoice(a, before.version, answer.data))
  }

  function LatestFields(before: Resolved, a: Coordinates, repo: string, path: string, answers: Answers): Resolved {
    var answer := answers(MetadataURL(repo, path));
    if !answer.Body? || answer.data.latest == "" then before
    else
      var lv := answer.data.latest;
      if IsSnapshot(lv) then SnapshotFields(before.(version := lv), a, repo, path, answers)
      else Detailed(a, repo, path, lv, lv)
  }

  function ReleaseFields(before: Resolved, a: Coordinates, repo: string, path: string, answers: Answers): Resolved {
    var answer := answers(MetadataURL(repo, path));
    if !answer.Body? || answer.data.release == "" then before
    else Detailed(a, repo, path, answer.data.release, answer.data.release)
  }

  function ResolutionFields(before: Resolved, a: Coordinates, repo: string, path: string, answers: Answers): Resolved {
    var version := before.version;
    if IsRange(version) then before
    else if version == "RELEASE" then ReleaseFields(before, a, repo, path, answers)
    else if version == "LATEST" then LatestFields(before, a, repo, path, answers)
    else if IsSnapshot(version) then SnapshotFields(before, a, repo, path, answers)
    else Detailed(a, repo, path, version, version)
  }

  /** Resolve leaves its fields as they were unless it gets as far as a file name, except that a LATEST
      standing for a snapshot whose metadata cannot be had leaves that snapshot as the version. */
  lemma FieldsAfterError(before: Resolved, a: Coordinates, repo: string, path: string, answers: Answers)
    ensures var r := Resolution(a, repo, path, answers, before.version);
            var after := ResolutionFields(before, a, repo, path, answers);
            match r
            case Ok(v) => after == v
            case Err(BadFilename(name)) =>
              after.fileName == name && after.url == DownloadURL(repo, path, after.version, name)
            case Err(_) =>
              after == before ||
              (before.version == "LATEST" && IsSnapshot(after.version) && after == before.(version := after.version))
  {
  }

  // ----- the resolver in its own form -----

  class MavenResolver {
    var artifact: Coordinates
    const repositoryURL: string
    const requestPath: string
    var resolvedVersion: string
    var resolvedFilename: string
    var downloadURL: string

    constructor (a: Coordinates, repo: string, path: string)
      ensures artifact == a && repositoryURL == repo && requestPath == path
    {
      artifact, repositoryURL, requestPath := a, repo, path;
      resolvedVersion, resolvedFilename, downloadURL := "", "", "";
    }

    function Fields(): Resolved
      reads this
    {
      Resolved(artifact.version, resolvedVersion, resolvedFilename, downloadURL)
    }

    /** The fields are as given, the other coordinates as before; the error is that of the result. */
    ghost predicate Shows(before: Coordinates, fields: Resolved, err: Option<Error>, r: Result)
      reads this
    {
      && artifact == before.(version := fields.version) && Fields() == fields
      && match r
         case Err(e) => err == Some(e)
         case Ok(v) => err == None && fields == v
    }

    /** The end of all four process methods. */
    method SetDetails(version: string) returns (err: Option<Error>)
      requires version == artifact.version
      modifies this
      ensures Shows(old(artifact), Detailed(artifact, repositoryURL, requestPath, version, old(resolvedVersion)), err,
                    Finish(artifact, repositoryURL, requestPath, version, old(resolvedVersion)))
    {
      var a := artifact;
      if |a.classifier| > 0 {
        resolvedFilename := a.artifactId + "-" + resolvedVersion + "-" + a.classifier + "." + a.typ;
      } else {
        resolvedFilename := a.artifactId + "-" + resolvedVersion + "." + a.typ;
      }
      downloadURL := repositoryURL + "/" + requestPath + "/" + version + "/" + resolvedFilename;
      if !SanitizeFilename(resolvedFilename) {
        return Some(BadFilename(resolvedFilename));
      }
      return None;
    }

    method ProcessFixedVersion() returns (err: Option<Error>)
      modifies this
      ensures var a := old(artifact);
              Shows(a, Detailed(a, repositoryURL, requestPath, a.version, a.version), err,
                    Finish(a, repositoryURL, requestPath, a.version, a.version))
    {
      resolvedVersion := artifact.version;
      err := SetDetails(resolvedVersion);
    }

    method ProcessSnapshotVersion(answers: Answers) returns (err: Option<Error>)
      modifies this
      ensures Shows(old(artifact), SnapshotFields(old(Fields()), old(artifact), repositoryURL, requestPath, answers),
                    err, ResolveSnapshot(old(artifact), repositoryURL, requestPath, answers, old(artifact).version))
    {
      var answer := answers(SnapshotURL(repositoryURL, requestPath, artifact.version));
      if !answer.Body? {
        return Some(Fetch(answer));
      }
      if |answer.data.snapshotVersions| > 0 {
        resolvedVersion := SnapshotResolvedVersion(answer.data, artifact.typ);
      } else {
        resolvedVersion := artifact.version;
      }
      err := SetDetails(artifact.version);
    }

    method ProcessLatestVersion(answers: Answers) returns (err: Option<Error>)
      modifies this
      ensures Shows(old(artifact), LatestFields(old(Fields()), old(artifact), repositoryURL, requestPath, answers),
                    err, ResolveLatest(old(artifact), repositoryURL, requestPath, answers))
    {
      var answer := answers(MetadataURL(repositoryURL, requestPath));
      if !answer.Body? {
        return Some(Fetch(answer));
      }
      var lv := answer.data.latest;
      if lv == "" {
        return Some(NoLatest);
      }
      if IsSnapshot(lv) {
        artifact := artifact.(version := lv);
        VersionIrrelevant(old(artifact), artifact, repositoryURL, requestPath, answers, old(Fields()));
        err := ProcessSnapshotVersion(answers);
        return;
      }
      artifact := artifact.(version := lv);
      resolvedVersion := lv;
      err := SetDetails(resolvedVersion);
    }

    method ProcessReleaseVersion(answers: Answers) returns (err: Option<Error>)
      modifies this
      ensures Shows(old(artifact), ReleaseFields(old(Fields()), old(artifact), repositoryURL, requestPath, answers),
                    err, ResolveRelease(old(artifact), repositoryURL, requestPath, answers))
    {
      var answer := answers(MetadataURL(repositoryURL, requestPath));
      if !answer.Body? {
        return Some(Fetch(answer));
      }
      var rv := answer.data.release;
      if rv == "" {
        return Some(NoRelease);
      }
      artifact := artifact.(version := rv);
      resolvedVersion := rv;
      err := SetDetails(resolvedVersion);
    }

    method Resolve(answers: Answers) returns (err: Option<Error>)
      modifies this
      ensures Shows(old(artifact), ResolutionFields(old(Fields()), old(artifact), repositoryURL, requestPath, answers),
                    err, Resolution(old(artifact), repositoryURL, requestPath, answers, old(artifact).version))
    {
      if "[" <= artifact.version || "(" <= artifact.version {
        return Some(RangeUnsupported);
      }
      if artifact.version == "RELEASE" {
        err := ProcessReleaseVersion(answers);
        return;
      }
      if artifact.version == "LATEST" {
        err := ProcessLatestVersion(answers);
        return;
      }
      if HasSuffix(artifact.version, "-SNAPSHOT") {
        err := ProcessSnapshotVersion(answers);
        return;
      }
      err := ProcessFixedVersion();
    }
  }

  /** Nothing but the version asked for tells the coordinates before and after the change of version apart. */
  lemma VersionIrrelevant(
    a: Coordinates, b: Coordinates, repo: string, path: string, answers: Answers, before: Resolved)
    requires a.(version := b.version) == b
    ensures var f := before.(version := b.version);
            && ResolveSnapshot(a, repo, path, answers, b.version) == ResolveSnapshot(b, repo, path, answers, b.version)
            && SnapshotFields(f, a, repo, path, answers) == SnapshotFields(f, b, repo, path, answers)
  {
    assert a.artifactId == b.artifactId && a.typ == b.typ && a.classifier == b.classifier;
  }

  // ----- properties -----

  /** Every success has a plain file name, and its URL is built from the repository, the request path,
      the final version and that name. */
  lemma ResolvedShape(a: Coordinates, repo: string, path: string, answers: Answers, version: string)
    ensures var r := Resolution(a, repo, path, answers, version);
            r.Ok? ==>
              && ValidSegment(r.value.fileName)
              && r.value.url == DownloadURL(repo, path, r.value.version, r.value.fileName)
  {
    var r := Resolution(a, repo, path, answers, version);
    if r.Ok? {
      FileNameNotSlash(a, r.value.resolvedVersion);
      assert r == Finish(a, repo, path, r.value.version, r.value.resolvedVersion);
    }
  }

  lemma FileNameNotSlash(a: Coordinates, v: string)
    ensures FileName(a, v) != "/" && '-' in FileName(a, v)
  {
    var f := FileName(a, v);
    assert f[|a.artifactId|] == '-';
  }

  /** The version can be read off the file name. */
  lemma FileNameInjective(a: Coordinates, v: string, u: string)
    requires FileName(a, v) == FileName(a, u)
    ensures v == u
  {
    var head := a.artifactId + "-";
    var tail := if |a.classifier| > 0 then "-" + a.classifier + "." + a.typ else "." + a.typ;
    assert FileName(a, v) == head + v + tail && FileName(a, u) == head + u + tail;
    assert (head + v + tail)[|head|..|head| + |v|] == v && (head + u + tail)[|head|..|head| + |u|] == u;
  }

  lemma FinishInjective(a: Coordinates, repo: string, path: string, v: string, v': string, u: string, u': string)
    requires Finish(a, repo, path, v, v') == Finish(a, repo, path, u, u')
    ensures v' == u' && (Finish(a, repo, path, v, v').Ok? ==> v == u)
  {
    FileNameInjective(a, v', u');
  }

  /** Resolving LATEST is resolving the version that the metadata calls the latest, exactly when that
      is no range and not the word RELEASE standing for another release. */
  lemma LatestIsDirect(a: Coordinates, repo: string, path: string, answers: Answers, m: MavenMetadata)
    requires answers(MetadataURL(repo, path)) == Body(m) && m.latest != ""
    ensures Resolution(a, repo, path, answers, "LATEST") == Resolution(a, repo, path, answers, m.latest) <==>
            !IsRange(m.latest) && (m.latest == "RELEASE" ==> m.release == "RELEASE")
  {
    var lv := m.latest;
    MetaWords();
    var rv := m.release;
    if lv == "RELEASE" && rv != "" && Finish(a, repo, path, lv, lv) == Finish(a, repo, path, rv, rv) {
      FinishInjective(a, repo, path, lv, lv, rv, rv);
    }
  }

  lemma MetaWords()
    ensures !IsRange("RELEASE") && !IsRange("LATEST") && !IsSnapshot("RELEASE") && !IsSnapshot("LATEST")
    ensures "RELEASE" != "LATEST"
  {
    assert "RELEASE"[0] == 'R' && "LATEST"[0] == 'L' && "["[0] == '[' && "("[0] == '(';
  }

  ghost predicate SnapshotKeeps(a: Coordinates, repo: string, path: string, answers: Answers, v: string) {
    var answer := answers(SnapshotURL(repo, path, v));
    answer.Body? && SnapshotChoice(a, v, answer.data) == v
  }

  /** Resolving RELEASE is resolving the version that the metadata calls the release when that is no
      range, not the word LATEST for another version, and no snapshot that would resolve further; for
      outcomes with a valid file name, only then. */
  lemma ReleaseIsDirect(a: Coordinates, repo: string, path: string, answers: Answers, m: MavenMetadata)
    requires answers(MetadataURL(repo, path)) == Body(m) && m.release != ""
    ensures var same := Resolution(a, repo, path, answers, "RELEASE") == Resolution(a, repo, path, answers, m.release);
            var direct := !IsRange(m.release) && (m.release == "LATEST" ==> m.latest == "LATEST") &&
                          (IsSnapshot(m.release) ==> SnapshotKeeps(a, repo, path, answers, m.release));
            (direct ==> same) && (same && Resolution(a, repo, path, answers, "RELEASE").Ok? ==> direct)
  {
    var rv := m.release;
    MetaWords();
    assert Resolution(a, repo, path, answers, "RELEASE") == Finish(a, repo, path, rv, rv);
    if rv == "LATEST" {
      ReleaseNamedLatest(a, repo, path, answers, m);
    } else if IsSnapshot(rv) && !IsRange(rv) {
      ReleaseNamedSnapshot(a, repo, path, answers, rv);
    }
  }

  lemma ReleaseNamedLatest(a: Coordinates, repo: string, path: string, answers: Answers, m: MavenMetadata)
    requires answers(MetadataURL(repo, path)) == Body(m) && m.release == "LATEST"
    ensures var released := Finish(a, repo, path, "LATEST", "LATEST");
            var same := released == ResolveLatest(a, repo, path, answers);
            (m.latest == "LATEST" ==> same) && (same && released.Ok? ==> m.latest == "LATEST")
  {
    MetaWords();
    var latest := ResolveLatest(a, repo, path, answers);
    assert latest.Ok? ==> latest.value.version == m.latest;
  }

  lemma ReleaseNamedSnapshot(a: Coordinates, repo: string, path: string, answers: Answers, rv: string)
    ensures Finish(a, repo, path, rv, rv) == ResolveSnapshot(a, repo, path, answers, rv) <==>
            SnapshotKeeps(a, repo, path, answers, rv)
  {
    var answer := answers(SnapshotURL(repo, path, rv));
    if answer.Body? {
      var choice := SnapshotChoice(a, rv, answer.data);
      if Finish(a, repo, path, rv, rv) == Finish(a, repo, path, rv, choice) {
        FinishInjective(a, repo, path, rv, rv, rv, choice);
      }
    }
  }

  // ----- download URLs -----

  function RequestPath(a: Coordinates): string {
    ReplaceAll(a.groupId, '.', '/') + "/" + a.artifactId
  }

  /** Coordinates without path separators, as admission requires. */
  predicate Plain(a: Coordinates) {
    '/' !in a.groupId && '/' !in a.artifactId && '/' !in a.version && '/' !in a.typ && '/' !in a.classifier
  }

  lemma PlainFileName(a: Coordinates)
    requires Plain(a)
    ensures '/' !in FileName(a, a.version) && SanitizeFilename(FileName(a, a.version))
  {
    FileNameNotSlash(a, a.version);
  }

  function PinnedURL(repo: string, a: Coordinates): string {
    DownloadURL(repo, RequestPath(a), a.version, FileName(a, a.version))
  }

  lemma GroupInjective(g: string, h: string)
    requires '/' !in g && '/' !in h && ReplaceAll(g, '.', '/') == ReplaceAll(h, '.', '/')
    ensures g == h
  {
    var r := ReplaceAll(g, '.', '/');
    forall i | 0 <= i < |g| ensures g[i] == h[i] {
      assert g[i] in g && h[i] in h;
      assert r[i] == if g[i] == '.' then '/' else g[i];
    }
  }

  lemma UrlPieces(repo: string, a: Coordinates)
    requires Plain(a)
    ensures PinnedURL(repo, a)[..|repo| + 1] == repo + "/"
    ensures Split(PinnedURL(repo, a)[|repo| + 1..], '/') ==
            Split(ReplaceAll(a.groupId, '.', '/'), '/') + [a.artifactId, a.version, FileName(a, a.version)]
  {
    var g, f := ReplaceAll(a.groupId, '.', '/'), FileName(a, a.version);
    PlainFileName(a);
    assert PinnedURL(repo, a) == repo + "/" + (g + ['/'] + (a.artifactId + ['/'] + (a.version + ['/'] + f)));
    SplitFour(g, a.artifactId, a.version, f);
  }

  lemma SplitFour(g: string, x: string, y: string, z: string)
    requires '/' !in x && '/' !in y && '/' !in z
    ensures Split(g + ['/'] + (x + ['/'] + (y + ['/'] + z)), '/') == Split(g, '/') + [x, y, z]
  {
    SplitConcat(g, x + ['/'] + (y + ['/'] + z), '/');
    SplitConcat(x, y + ['/'] + z, '/');
    SplitConcat(y, z, '/');
    SplitSingle(x, '/');
    SplitSingle(y, '/');
    SplitSingle(z, '/');
  }

  lemma LastThree<T>(p: seq<T>, x: T, y: T, z: T, q: seq<T>, x': T, y': T, z': T)
    requires p + [x, y, z] == q + [x', y', z']
    ensures p == q && x == x' && y == y' && z == z'
  {
    var s := p + [x, y, z];
    assert |p| == |q|;
    assert s[..|p|] == p && s[..|q|] == q;
    assert s[|p|] == x && s[|p| + 1] == y && s[|p| + 2] == z;
    assert s[|q|] == x' && s[|q| + 1] == y' && s[|q| + 2] == z';
  }

  /** In one repository, the download URL of plain pinned coordinates determines group, artifact, version
      and file name. */
  lemma UrlsInjective(repo: string, a: Coordinates, b: Coordinates)
    requires Plain(a) && Plain(b) && PinnedURL(repo, a) == PinnedURL(repo, b)
    ensures a.groupId == b.groupId && a.artifactId == b.artifactId && a.version == b.version
    ensures FileName(a, a.version) == FileName(b, b.version)
    ensures '.' !in a.typ && '.' !in b.typ ==> a == b
  {
    UrlPieces(repo, a);
    UrlPieces(repo, b);
    var g, h := ReplaceAll(a.groupId, '.', '/'), ReplaceAll(b.groupId, '.', '/');
    LastThree(Split(g, '/'), a.artifactId, a.version, FileName(a, a.version),
              Split(h, '/'), b.artifactId, b.version, FileName(b, b.version));
    JoinSplit(g, '/');
    JoinSplit(h, '/');
    GroupInjective(a.groupId, b.groupId);
    EndingInjective(a, b);
    SameTail(a, b);
  }

  lemma SameTail(a: Coordinates, b: Coordinates)
    requires Tail(a) == Tail(b) && (a.classifier == "" <==> b.classifier == "")
    ensures '.' !in a.typ && '.' !in b.typ ==> a.classifier == b.classifier && a.typ == b.typ
  {
    TailParts(a);
    TailParts(b);
    if |a.classifier| < |b.classifier| {
      DotsOfTail(a, |b.classifier|);
    } else if |a.classifier| > |b.classifier| {
      DotsOfTail(b, |a.classifier|);
    }
  }

  /** The classifier and the type as a file name shows them. */
  function Tail(a: Coordinates): string {
    a.classifier + "." + a.typ
  }

  /** A place in the tail where a classifier that is not empty could end. */
  predicate SplitsAt(a: Coordinates, i: nat) {
    1 <= i < |Tail(a)| && Tail(a)[i] == '.'
  }

  /** The coordinates with the tail split at another place. */
  function Moved(a: Coordinates, i: nat): Coordinates
    requires SplitsAt(a, i)
  {
    a.(classifier := Tail(a)[..i], typ := Tail(a)[i + 1..])
  }

  function Ending(a: Coordinates): string {
    if |a.classifier| > 0 then "-" + Tail(a) else Tail(a)
  }

  lemma FileNameEnding(a: Coordinates)
    ensures FileName(a, a.version) == a.artifactId + "-" + a.version + Ending(a)
    ensures Ending(a)[0] == if |a.classifier| > 0 then '-' else '.'
    ensures |a.classifier| > 0 ==> Ending(a)[1..] == Tail(a)
  {
  }

  /** Equal file names of the same artifact and version agree on the tail and on whether there is a
      classifier. */
  lemma EndingInjective(a: Coordinates, b: Coordinates)
    requires a.artifactId == b.artifactId && a.version == b.version
    ensures FileName(a, a.version) == FileName(b, b.version) <==>
            Tail(a) == Tail(b) && (a.classifier == "" <==> b.classifier == "")
  {
    FileNameEnding(a);
    FileNameEnding(b);
    var head := a.artifactId + "-" + a.version;
    assert (head + Ending(a))[|head|..] == Ending(a) && (head + Ending(b))[|head|..] == Ending(b);
    assert a.classifier == "" ==> Ending(a) == Tail(a);
  }

  lemma DotsOfTail(a: Coordinates, i: nat)
    requires 1 <= i < |Tail(a)| && i != |a.classifier|
    ensures Tail(a)[i] == '.' ==> '.' in if i < |a.classifier| then a.classifier[1..] else a.typ
  {
    if i < |a.classifier| {
      assert Tail(a)[i] == a.classifier[1..][i - 1];
    } else {
      assert Tail(a)[i] == a.typ[i - |a.classifier| - 1];
    }
  }

  lemma TailHasDot(a: Coordinates)
    requires a.classifier != "" && ('.' in a.typ || '.' in a.classifier[1..])
    ensures exists i: nat :: SplitsAt(a, i) && i != |a.classifier|
  {
    if '.' in a.typ {
      var k :| 0 <= k < |a.typ| && a.typ[k] == '.';
      assert SplitsAt(a, |a.classifier| + 1 + k);
    } else {
      var k :| 0 <= k < |a.classifier| - 1 && a.classifier[1..][k] == '.';
      assert SplitsAt(a, k + 1);
    }
  }

  lemma MovedTail(a: Coordinates, i: nat)
    requires SplitsAt(a, i)
    ensures Tail(Moved(a, i)) == Tail(a) && |Moved(a, i).classifier| == i
    ensures Plain(a) ==> Plain(Moved(a, i))
  {
    assert Plain(a) ==> '/' !in Tail(a);
  }

  /** Two artifacts share a URL exactly when they are the same, or one is the other with its classifier
      and type split at another dot. */
  lemma SharedUrl(repo: string, a: Coordinates, b: Coordinates)
    requires Plain(a) && Plain(b)
    ensures PinnedURL(repo, a) == PinnedURL(repo, b) <==>
            a == b || (a.classifier != "" && exists i: nat :: SplitsAt(a, i) && b == Moved(a, i))
  {
    if PinnedURL(repo, a) == PinnedURL(repo, b) {
      UrlsInjective(repo, a, b);
      EndingInjective(a, b);
      TailParts(b);
      TailParts(a);
      if a.classifier != "" {
        assert SplitsAt(a, |b.classifier|) && b == Moved(a, |b.classifier|);
      }
    } else if a.classifier != "" && exists i: nat :: SplitsAt(a, i) && b == Moved(a, i) {
      var i: nat :| SplitsAt(a, i) && b == Moved(a, i);
      MovedTail(a, i);
      EndingInjective(a, b);
    }
  }

  lemma TailParts(a: Coordinates)
    ensures |a.classifier| < |Tail(a)| && Tail(a)[|a.classifier|] == '.'
    ensures Tail(a)[..|a.classifier|] == a.classifier && Tail(a)[|a.classifier| + 1..] == a.typ
  {
  }

  /** The URL of an artifact is its own exactly when it has no classifier, or neither its type nor its
      classifier beyond the first character has a dot. */
  lemma UrlIsUnique(repo: string, a: Coordinates)
    requires Plain(a)
    ensures (forall b :: Plain(b) && PinnedURL(repo, b) == PinnedURL(repo, a) ==> b == a) <==>
            !(a.classifier != "" && ('.' in a.typ || '.' in a.classifier[1..]))
  {
    if a.classifier != "" && ('.' in a.typ || '.' in a.classifier[1..]) {
      TailHasDot(a);
      var i: nat :| SplitsAt(a, i) && i != |a.classifier|;
      MovedTail(a, i);
      SharedUrl(repo, a, Moved(a, i));
    } else {
      forall b | Plain(b) && PinnedURL(repo, b) == PinnedURL(repo, a) ensures b == a {
        SharedUrl(repo, a, b);
        TailParts(a);
        if b != a {
          var i: nat :| SplitsAt(a, i) && b == Moved(a, i);
          DotsOfTail(a, i);
        }
      }
    }
  }

  /** For instance, classifier x with type tar.gz, and x.tar with gz. */
  lemma DottedTypesCollide(repo: string, g: string, i: string, v: string)
    ensures var a, b := Coordinates(g, i, v, "tar.gz", "x"), Coordinates(g, i, v, "gz", "x.tar");
            a != b && PinnedURL(repo, a) == PinnedURL(repo, b)
  {
    var a, b := Coordinates(g, i, v, "tar.gz", "x"), Coordinates(g, i, v, "gz", "x.tar");
    assert Tail(a) == Tail(b);
    EndingInjective(a, b);
  }
}
