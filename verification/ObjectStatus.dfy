/** The status of an ImageRepository or a MavenArtifact: the artifact it names, its URL, and its
    two dependent conditions. */
module ObjectStatus {
  import opened Paths

  datatype Artifact = Artifact(path: string, url: string, revision: string, checksum: string, lastUpdate: int)

  datatype Status = Status(url: string, artifact: Option<Artifact>) {
    /** A URL is only ever set together with an artifact of the same URL. */
    ghost predicate Consistent() {
      url != "" ==> artifact.Some? && artifact.value.url == url
    }
  }

  datatype Condition = Unknown | True | False

  /** ImageResolved or ArtifactVersionResolved, and ArtifactAvailable. The runtime derives Ready. */
  datatype Conditions = Conditions(resolved: Condition, available: Condition) {
    predicate Ready() {
      resolved == True && available == True
    }
  }

  /** Equal in every field but the time. */
  predicate SameArtifact(a: Artifact, b: Artifact) {
    a.(lastUpdate := 0) == b.(lastUpdate := 0)
  }

  /** preserveArtifactLastUpdateTime */
  function Preserve(current: Option<Artifact>, desired: Artifact): Artifact {
    if current.Some? && SameArtifact(current.value, desired) then current.value else desired
  }

  /** The artifact in the status after a sequence of updates. */
  function AfterUpdates(current: Option<Artifact>, desired: seq<Artifact>): Option<Artifact> {
    if desired == [] then current
    else Some(Preserve(AfterUpdates(current, desired[..|desired| - 1]), desired[|desired| - 1]))
  }

  /** Alike in path, URL, revision and checksum. */
  predicate Alike(a: Artifact, b: Artifact) {
    a.path == b.path && a.url == b.url && a.revision == b.revision && a.checksum == b.checksum
  }

  lemma SameIsAlike(a: Artifact, b: Artifact)
    ensures SameArtifact(a, b) <==> Alike(a, b)
  {
  }

  /** Where the final stretch of artifacts that are alike begins. */
  predicate StretchStart(desired: seq<Artifact>, k: nat) {
    && k < |desired|
    && (forall i :: k <= i < |desired| ==> Alike(desired[i], desired[|desired| - 1]))
    && (k > 0 ==> !Alike(desired[k - 1], desired[|desired| - 1]))
  }

  /** There is always such a place. */
  lemma {:induction false} StretchExists(desired: seq<Artifact>)
    requires desired != []
    ensures exists k: nat :: StretchStart(desired, k)
  {
    var n := |desired|;
    if n == 1 {
      assert StretchStart(desired, 0);
    } else if !Alike(desired[n - 2], desired[n - 1]) {
      assert StretchStart(desired, n - 1);
    } else {
      StretchExists(desired[..n - 1]);
      var k: nat :| StretchStart(desired[..n - 1], k);
      assert StretchStart(desired, k) by {
        forall i | k <= i < n ensures Alike(desired[i], desired[n - 1]) {
          if i < n - 1 { assert desired[..n - 1][i] == desired[i]; }
        }
        assert k > 0 ==> desired[..n - 1][k - 1] == desired[k - 1];
      }
    }
  }

  /** The artifacts that a status is asked to show, from the current one on. */
  function Timeline(current: Option<Artifact>, desired: seq<Artifact>): seq<Artifact> {
    (if current.Some? then [current.value] else []) + desired
  }

  /** From any current artifact on, the status shows the last desired artifact with the time of the first
      of the final stretch of artifacts equal to it in every other field; the current artifact can be that
      first one. */
  lemma {:induction false} LastUpdateTime(current: Option<Artifact>, desired: seq<Artifact>, k: nat)
    requires StretchStart(Timeline(current, desired), k)
    ensures var t := Timeline(current, desired);
            && AfterUpdates(current, desired) == Some(t[k])
            && t[k] == t[|t| - 1].(lastUpdate := t[k].lastUpdate)
    decreases |desired|
  {
    var t, n := Timeline(current, desired), |desired|;
    assert Alike(t[k], t[|t| - 1]);
    if n > 0 {
      var init := Timeline(current, desired[..n - 1]);
      assert init == t[..|t| - 1];
      if k == |t| - 1 {
        LastOfNewStretch(current, desired);
      } else {
        StretchShortened(t, k);
        LastUpdateTime(current, desired[..n - 1], k);
      }
    }
  }

  /** Without its last artifact, a final stretch of more than one begins where it did. */
  lemma StretchShortened(t: seq<Artifact>, k: nat)
    requires StretchStart(t, k) && k < |t| - 1
    ensures StretchStart(t[..|t| - 1], k)
  {
    var n := |t|;
    assert Alike(t[n - 2], t[n - 1]);
    var init := t[..n - 1];
    forall i | k <= i < n - 1 ensures Alike(init[i], init[n - 2]) {
      assert Alike(t[i], t[n - 1]);
    }
  }

  /** The artifact shown differs from the last desired one at most in its time. */
  lemma {:induction false} ShowsLast(current: Option<Artifact>, desired: seq<Artifact>)
    requires Timeline(current, desired) != []
    ensures var t := Timeline(current, desired);
            AfterUpdates(current, desired).Some? && Alike(AfterUpdates(current, desired).value, t[|t| - 1])
    decreases |desired|
  {
    var n := |desired|;
    if n > 0 && Timeline(current, desired[..n - 1]) != [] {
      ShowsLast(current, desired[..n - 1]);
    }
  }

  /** An artifact that differs from the one before it is shown as it is. */
  lemma LastOfNewStretch(current: Option<Artifact>, desired: seq<Artifact>)
    requires desired != []
    requires var t := Timeline(current, desired); |t| > 1 ==> !Alike(t[|t| - 2], t[|t| - 1])
    ensures AfterUpdates(current, desired) == Some(desired[|desired| - 1])
  {
    var t, init := Timeline(current, desired), desired[..|desired| - 1];
    assert Timeline(current, init) == t[..|t| - 1];
    if |t| > 1 {
      ShowsLast(current, init);
    }
  }
}
