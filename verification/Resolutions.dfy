/** What the resolver asks for and what it answers, written out for each kind of version. */
module Resolutions {
  import opened Strings
  import opened Paths
  import opened Metadata
  import opened Remote
  import opened Resolver

  /** The name artifact-version[-classifier].type, if it is a plain name, in the directory of `version`. */
  ghost predicate Settled(a: Coordinates, repo: string, path: string, version: string, resolved: string, r: Result) {
    var name := a.artifactId + "-" + resolved + (if a.classifier == "" then "" else "-" + a.classifier) + "." + a.typ;
    r == if ValidSegment(name)
         then Ok(Resolved(version, resolved, name, repo + "/" + path + "/" + version + "/" + name))
         else Err(BadFilename(name))
  }

  lemma FinishSettles(a: Coordinates, repo: string, path: string, version: string, resolved: string)
    ensures Settled(a, repo, path, version, resolved, Finish(a, repo, path, version, resolved))
  {
    var name := a.artifactId + "-" + resolved + (if a.classifier == "" then "" else "-" + a.classifier) + "." + a.typ;
    assert FileName(a, resolved) == name;
    FileNameNotSlash(a, resolved);
  }

  predicate BeginsRange(version: string) {
    version != "" && (version[0] == '[' || version[0] == '(')
  }

  predicate EndsSnapshot(version: string) {
    |version| >= 9 && version[|version| - 9..] == "-SNAPSHOT"
  }

  lemma RangeIsRefused(a: Coordinates, repo: string, path: string, answers: Answers, version: string)
    ensures BeginsRange(version) <==> Resolution(a, repo, path, answers, version) == Err(RangeUnsupported)
  {
    BracketIsRange(version);
  }

  lemma BracketIsRange(version: string)
    ensures IsRange(version) <==> BeginsRange(version)
  {
    if version != "" {
      assert version[..1] == [version[0]];
    }
  }

  /** A pinned version needs no answer. */
  lemma PinnedResolution(a: Coordinates, repo: string, path: string, answers: Answers, version: string)
    requires !BeginsRange(version) && version != "RELEASE" && version != "LATEST" && !EndsSnapshot(version)
    ensures Settled(a, repo, path, version, version, Resolution(a, repo, path, answers, version))
  {
    BracketIsRange(version);
    FinishSettles(a, repo, path, version, version);
  }

  /** What the metadata of a snapshot version makes of it: the version itself without entries, and otherwise
      the timestamped value if there is an entry for the type with it, or the metadata's own version. The
      timestamped value drops the first "-SNAPSHOT" of the metadata's version, at i, or nothing if i is its
      end. */
  ghost predicate Snapshot(version: string, m: MavenMetadata, typ: string, i: nat, resolved: string) {
    && FirstAt(m.version, i)
    && var base := if i == |m.version| then m.version else m.version[..i] + m.version[i + 9..];
       var value := base + "-" + m.timestamp + "-" + m.buildNumber;
       if m.snapshotVersions == [] then resolved == version
       else if exists v :: v in m.snapshotVersions && v.extension == typ && v.value == value then resolved == value
       else resolved == m.version
  }

  predicate FirstAt(version: string, i: nat) {
    && i <= |version| && (forall j: nat :: j < i ==> !OccursAt(version, "-SNAPSHOT", j))
    && (OccursAt(version, "-SNAPSHOT", i) || i == |version|)
  }

  /** There is such a place in every version. */
  lemma {:induction false} FirstAtExists(version: string, from: nat)
    requires from <= |version| && forall j: nat :: j < from ==> !OccursAt(version, "-SNAPSHOT", j)
    ensures exists i: nat :: FirstAt(version, i)
    decreases |version| - from
  {
    if OccursAt(version, "-SNAPSHOT", from) || from == |version| {
      assert FirstAt(version, from);
    } else {
      FirstAtExists(version, from + 1);
    }
  }

  /** A snapshot is looked up in its own metadata; the URL keeps the version asked for. */
  lemma SnapshotResolution(a: Coordinates, repo: string, path: string, answers: Answers, version: string)
    requires !BeginsRange(version) && EndsSnapshot(version)
    ensures var answer := answers(repo + "/" + path + "/" + version + "/" + "maven-metadata.xml");
            var r := Resolution(a, repo, path, answers, version);
            if !answer.Body? then r == Err(Fetch(answer))
            else forall i, resolved :: Snapshot(version, answer.data, a.typ, i, resolved) ==>
                   Settled(a, repo, path, version, resolved, r)
  {
    BracketIsRange(version);
    MetaWords();
    assert IsSnapshot(version);
    SnapshotSettles(a, repo, path, answers, version);
  }

  lemma SnapshotSettles(a: Coordinates, repo: string, path: string, answers: Answers, version: string)
    ensures var answer := answers(repo + "/" + path + "/" + version + "/" + "maven-metadata.xml");
            var r := ResolveSnapshot(a, repo, path, answers, version);
            if !answer.Body? then r == Err(Fetch(answer))
            else forall i, resolved :: Snapshot(version, answer.data, a.typ, i, resolved) ==>
                   Settled(a, repo, path, version, resolved, r)
  {
    var answer := answers(repo + "/" + path + "/" + version + "/" + "maven-metadata.xml");
    if answer.Body? {
      forall i, resolved | Snapshot(version, answer.data, a.typ, i, resolved)
        ensures Settled(a, repo, path, version, resolved, ResolveSnapshot(a, repo, path, answers, version))
      {
        ResolvedSnapshotInGeneral(answer.data, a.typ, i);
        assert SnapshotChoice(a, version, answer.data) == resolved;
        FinishSettles(a, repo, path, version, resolved);
      }
    }
  }

  /** LATEST is looked up in the artifact's metadata, and once more if it stands for a snapshot. */
  lemma LatestResolution(a: Coordinates, repo: string, path: string, answers: Answers)
    ensures var answer := answers(repo + "/" + path + "/" + "maven-metadata.xml");
            var r := Resolution(a, repo, path, answers, "LATEST");
            if !answer.Body? then r == Err(Fetch(answer))
            else if answer.data.latest == "" then r == Err(NoLatest)
            else
              var lv := answer.data.latest;
              if !EndsSnapshot(lv) then Settled(a, repo, path, lv, lv, r)
              else
                var second := answers(repo + "/" + path + "/" + lv + "/" + "maven-metadata.xml");
                if !second.Body? then r == Err(Fetch(second))
                else forall i, resolved :: Snapshot(lv, second.data, a.typ, i, resolved) ==>
                       Settled(a, repo, path, lv, resolved, r)
  {
    MetaWords();
    var answer := answers(repo + "/" + path + "/" + "maven-metadata.xml");
    if answer.Body? && answer.data.latest != "" {
      var lv := answer.data.latest;
      assert IsSnapshot(lv) <==> EndsSnapshot(lv);
      FinishSettles(a, repo, path, lv, lv);
      SnapshotSettles(a, repo, path, answers, lv);
    }
  }

  /** RELEASE is looked up in the artifact's metadata, and only there. */
  lemma ReleaseResolution(a: Coordinates, repo: string, path: string, answers: Answers)
    ensures var answer := answers(repo + "/" + path + "/" + "maven-metadata.xml");
            var r := Resolution(a, repo, path, answers, "RELEASE");
            if !answer.Body? then r == Err(Fetch(answer))
            else if answer.data.release == "" then r == Err(NoRelease)
            else Settled(a, repo, path, answer.data.release, answer.data.release, r)
  {
    MetaWords();
    var answer := answers(repo + "/" + path + "/" + "maven-metadata.xml");
    if answer.Body? {
      FinishSettles(a, repo, path, answer.data.release, answer.data.release);
    }
  }

  /** What a failed Resolve leaves in the fields: all details if only the file name is bad, the snapshot that
      LATEST stands for if only its own metadata cannot be had, and otherwise what was there. */
  lemma FieldsExactly(before: Resolved, a: Coordinates, repo: string, path: string, answers: Answers)
    ensures var r := Resolution(a, repo, path, answers, before.version);
            var after := ResolutionFields(before, a, repo, path, answers);
            match r
            case Ok(v) => after == v
            case Err(BadFilename(name)) =>
              && Settled(a, repo, path, after.version, after.resolvedVersion, r)
              && after.fileName == name && after.url == repo + "/" + path + "/" + after.version + "/" + name
            case Err(_) =>
              var first := answers(repo + "/" + path + "/" + "maven-metadata.xml");
              after == if before.version == "LATEST" && first.Body? && EndsSnapshot(first.data.latest)
                       then before.(version := first.data.latest) else before
  {
    MetaWords();
    var after := ResolutionFields(before, a, repo, path, answers);
    FinishSettles(a, repo, path, after.version, after.resolvedVersion);
    BracketIsRange(before.version);
    var first := answers(repo + "/" + path + "/" + "maven-metadata.xml");
    if first.Body? {
      assert IsSnapshot(first.data.latest) <==> EndsSnapshot(first.data.latest);
    }
  }

  /** The request path is the group with slashes for its dots, and the artifact. */
  lemma RequestPathOf(a: Coordinates, groups: seq<string>)
    requires groups != [] && a.groupId == Join(groups, '.') && forall g :: g in groups ==> '.' !in g
    ensures RequestPath(a) == Join(groups + [a.artifactId], '/')
  {
    DotsToSlashes(groups);
    JoinConcat(groups, [a.artifactId], '/');
  }

  lemma {:induction false} DotsToSlashes(groups: seq<string>)
    requires forall g :: g in groups ==> '.' !in g
    ensures ReplaceAll(Join(groups, '.'), '.', '/') == Join(groups, '/')
  {
    if groups != [] {
      ReplaceAbsent(groups[0]);
      if |groups| > 1 {
        DotsToSlashes(groups[1..]);
        ReplaceConcat(groups[0], ".", Join(groups[1..], '.'));
      }
    }
  }

  lemma ReplaceAbsent(s: string)
    requires '.' !in s
    ensures ReplaceAll(s, '.', '/') == s
  {
    assert forall i :: 0 <= i < |s| ==> s[i] in s;
  }

  lemma ReplaceConcat(a: string, b: string, c: string)
    ensures ReplaceAll(a + b + c, '.', '/') ==
            ReplaceAll(a, '.', '/') + ReplaceAll(b, '.', '/') + ReplaceAll(c, '.', '/')
  {
  }
}
