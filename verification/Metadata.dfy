/** Package mavenmetadata. */
module Metadata {
  datatype SnapshotVersion = SnapshotVersion(extension: string, value: string, updated: string)

  datatype MavenMetadata = MavenMetadata(
    version: string, latest: string, release: string,
    timestamp: string, buildNumber: string, snapshotVersions: seq<SnapshotVersion>)

  /** strings.Replace(s, from, to, 1) with a non-empty pattern. */
  function ReplaceFirst(s: string, from: string, to: string): string {
    if from <= s then to + s[|from|..]
    else if s == "" then ""
    else [s[0]] + ReplaceFirst(s[1..], from, to)
  }

  predicate OccursAt(s: string, from: string, i: nat) {
    i + |from| <= |s| && s[i..i + |from|] == from
  }

  lemma OccursFirst(s: string, from: string)
    ensures OccursAt(s, from, 0) <==> from <= s
  {
    assert |from| <= |s| ==> s[0..|from|] == s[..|from|];
  }

  /** It replaces the first occurrence, and only that one; without an occurrence it changes nothing. */
  lemma {:induction false} ReplaceFirstAt(s: string, from: string, to: string, i: nat)
    requires from != "" && i <= |s|
    requires forall j: nat :: j < i ==> !OccursAt(s, from, j)
    ensures OccursAt(s, from, i) ==> ReplaceFirst(s, from, to) == s[..i] + to + s[i + |from|..]
    ensures i == |s| ==> ReplaceFirst(s, from, to) == s
  {
    OccursFirst(s, from);
    if i == 0 {
      assert s[..0] + to == to;
    } else {
      assert !OccursAt(s, from, 0);
      forall j: nat | j < |s| ensures OccursAt(s[1..], from, j) <==> OccursAt(s, from, j + 1) {
        OccursLater(s, from, j);
      }
      ReplaceFirstAt(s[1..], from, to, i - 1);
      if OccursAt(s, from, i) {
        ReplacedLater(s, from, to, i);
      }
      assert [s[0]] + s[1..] == s;
    }
  }

  lemma OccursLater(s: string, from: string, j: nat)
    requires j < |s|
    ensures OccursAt(s[1..], from, j) <==> OccursAt(s, from, j + 1)
  {
    assert j + 1 + |from| <= |s| ==> s[1..][j..j + |from|] == s[j + 1..j + 1 + |from|];
  }

  lemma ReplacedLater(s: string, from: string, to: string, i: nat)
    requires 0 < i && i + |from| <= |s|
    ensures [s[0]] + (s[1..][..i - 1] + to + s[1..][i - 1 + |from|..]) == s[..i] + to + s[i + |from|..]
  {
    assert [s[0]] + s[1..][..i - 1] == s[..i];
    assert s[1..][i - 1 + |from|..] == s[i + |from|..];
  }

  /** The value that a snapshot entry must have to be chosen. */
  function SnapshotValue(m: MavenMetadata): string {
    ReplaceFirst(m.version, "-SNAPSHOT", "") + "-" + m.timestamp + "-" + m.buildNumber
  }

  predicate Matches(m: MavenMetadata, filetype: string, v: SnapshotVersion) {
    v.extension == filetype && v.value == SnapshotValue(m)
  }

  /** The closed form of SnapshotResolvedVersion. */
  function ResolvedSnapshot(m: MavenMetadata, filetype: string): string {
    if exists v :: v in m.snapshotVersions && Matches(m, filetype, v) then SnapshotValue(m) else m.version
  }

  /** The loop remembers the last match; which one is the last makes no difference. */
  method SnapshotResolvedVersion(m: MavenMetadata, filetype: string) returns (response: string)
    ensures response == ResolvedSnapshot(m, filetype)
    ensures response == m.version ||
            exists v :: v in m.snapshotVersions && v.extension == filetype && v.value == response
  {
    response := m.version;
    var found := false;
    var sv := "";
    for i := 0 to |m.snapshotVersions|
      invariant found <==> exists v :: v in m.snapshotVersions[..i] && Matches(m, filetype, v)
      invariant found ==> sv == SnapshotValue(m)
    {
      var v := m.snapshotVersions[i];
      var tempvalue := ReplaceFirst(m.version, "-SNAPSHOT", "") + "-" + m.timestamp + "-" + m.buildNumber;
      assert m.snapshotVersions[..i + 1] == m.snapshotVersions[..i] + [v];
      if v.extension == filetype && v.value == tempvalue {
        assert Matches(m, filetype, v);
        found, sv := true, v.value;
      }
    }
    assert m.snapshotVersions[..|m.snapshotVersions|] == m.snapshotVersions;
    if found {
      response := sv;
    }
  }

  /** Reordering or repeating the snapshot entries changes nothing. */
  lemma SnapshotOrderIrrelevant(m: MavenMetadata, entries: seq<SnapshotVersion>, filetype: string)
    requires forall v :: v in entries <==> v in m.snapshotVersions
    ensures ResolvedSnapshot(m.(snapshotVersions := entries), filetype) == ResolvedSnapshot(m, filetype)
  {
    var m' := m.(snapshotVersions := entries);
    assert forall v :: Matches(m', filetype, v) <==> Matches(m, filetype, v);
  }

  /** For a snapshot of base: the entry of that file type whose value is base, timestamp and build number is
      what it resolves to; without such an entry it stays the snapshot version. */
  lemma ResolvedSnapshotOf(m: MavenMetadata, base: string, filetype: string)
    requires m.version == base + "-SNAPSHOT" && forall j: nat :: j < |base| ==> !OccursAt(m.version, "-SNAPSHOT", j)
    ensures var value := base + "-" + m.timestamp + "-" + m.buildNumber;
            ResolvedSnapshot(m, filetype) ==
            if exists v :: v in m.snapshotVersions && v.extension == filetype && v.value == value
            then value else base + "-SNAPSHOT"
  {
    var value := base + "-" + m.timestamp + "-" + m.buildNumber;
    RemovedFrom(m.version, base, "-SNAPSHOT");
    assert SnapshotValue(m) == value;
    assert forall v :: Matches(m, filetype, v) <==> v.extension == filetype && v.value == value;
  }

  lemma RemovedFrom(s: string, base: string, suffix: string)
    requires suffix != "" && s == base + suffix && forall j: nat :: j < |base| ==> !OccursAt(s, suffix, j)
    ensures ReplaceFirst(s, suffix, "") == base
  {
    ReplaceFirstAt(s, suffix, "", |base|);
    assert s[|base|..|s|] == suffix && s[..|base|] == base && s[|s|..] == "";
  }

  /** Any other version: what the values of the entries are compared with begins with the version without
      its first "-SNAPSHOT", or with all of it if it has none. */
  lemma ResolvedSnapshotInGeneral(m: MavenMetadata, filetype: string, i: nat)
    requires i <= |m.version| && forall j: nat :: j < i ==> !OccursAt(m.version, "-SNAPSHOT", j)
    requires OccursAt(m.version, "-SNAPSHOT", i) || i == |m.version|
    ensures var base := if i == |m.version| then m.version else m.version[..i] + m.version[i + 9..];
            var value := base + "-" + m.timestamp + "-" + m.buildNumber;
            ResolvedSnapshot(m, filetype) ==
            if exists v :: v in m.snapshotVersions && v.extension == filetype && v.value == value
            then value else m.version
  {
    var base := if i == |m.version| then m.version else m.version[..i] + m.version[i + 9..];
    var value := base + "-" + m.timestamp + "-" + m.buildNumber;
    ReplaceFirstAt(m.version, "-SNAPSHOT", "", i);
    assert m.version[..i] + "" == m.version[..i];
    assert SnapshotValue(m) == value;
    assert forall v :: Matches(m, filetype, v) <==> v.extension == filetype && v.value == value;
  }
}
