/** What the two kinds of sync have in common: the objects and their directories, and a sync seen as
    a decision followed by file operations and a status update. */
module Sync {
  import opened Paths
  import opened Volume
  import opened ObjectStatus

  datatype Kind = Maven | Image

  datatype Id = Id(kind: Kind, ns: string, name: string)

  function KindDir(kind: Kind): string {
    if kind.Maven? then "mavenartifact" else "imagerepository"
  }

  /** The directory of an object, relative to the served directory. */
  function DirOf(id: Id): Path {
    [KindDir(id.kind), id.ns, id.name]
  }

  lemma DirsWritten(ns: string, name: string)
    ensures DirOf(Id(Maven, ns, name)) == ["mavenartifact", ns, name]
    ensures DirOf(Id(Image, ns, name)) == ["imagerepository", ns, name]
  {
  }

  lemma KindDirValid(kind: Kind)
    ensures ValidSegment(KindDir(kind))
  {
    assert KindDir(kind)[0] in "mi";
  }

  /** The files of an object lie directly in its directory. */
  predicate Owns(id: Id, p: Path) {
    |p| == 4 && DirOf(id) <= p
  }

  lemma OwnerUnique(a: Id, b: Id, p: Path)
    requires DirOf(a) <= p && DirOf(b) <= p
    ensures a == b
  {
    assert p[0] == DirOf(a)[0] == DirOf(b)[0];
    assert p[1] == DirOf(a)[1] == DirOf(b)[1] && p[2] == DirOf(a)[2] == DirOf(b)[2];
    assert "mavenartifact"[0] != "imagerepository"[0];
  }

  /** Names that Kubernetes admits for namespaces and objects are plain segments. */
  predicate ValidId(id: Id) {
    ValidSegment(id.ns) && ValidSegment(id.name)
  }

  /** The relative directory is the one that path.Join computes under the served directory. */
  lemma DirOfIsJoined(root: string, id: Id)
    requires root != "" && ValidId(id)
    ensures Segs(JoinPath4(root, KindDir(id.kind), id.ns, id.name)) == Segs(root) + DirOf(id)
  {
    KindDirValid(id.kind);
    JoinPath4Segs(root, KindDir(id.kind), id.ns, id.name);
  }

  /** The served directories of different objects share no path. */
  lemma ServedDirsDisjoint(root: string, a: Id, b: Id, p: string)
    requires root != "" && ValidId(a) && ValidId(b)
    requires Segs(JoinPath4(root, KindDir(a.kind), a.ns, a.name)) <= Segs(p)
    requires Segs(JoinPath4(root, KindDir(b.kind), b.ns, b.name)) <= Segs(p)
    ensures a == b
  {
    DirOfIsJoined(root, a);
    DirOfIsJoined(root, b);
    RestAfter(Segs(root), DirOf(a), Segs(p));
    RestAfter(Segs(root), DirOf(b), Segs(p));
    OwnerUnique(a, b, Segs(p)[|Segs(root)|..]);
  }

  lemma RestAfter(root: Path, dir: Path, p: Path)
    requires root + dir <= p
    ensures |root| <= |p| && dir <= p[|root|..]
  {
    assert forall i :: 0 <= i < |dir| ==> dir[i] == (root + dir)[|root| + i] == p[|root| + i];
  }

  /** A sync that has decided to touch the volume or to report a hit. Its job, once it reaches
      AtStatus, installs okStatus and okConds; if it fails, failConds. `hex` is the content hash that
      names the tarball; a `hit` has found the tarball and starts at AtStatus. */
  datatype Flight = Flight(
    job: Job, hex: string, hit: bool, okStatus: Status, okConds: Conditions, failConds: Conditions) {

    /** It puts its own tarball in place if it comes to its end. */
    predicate Installs() {
      !hit && !job.createFails
    }
  }

  datatype Plan =
    | Finished(conds: Conditions, err: bool)
    | Flying(flight: Flight)

  datatype Outcome = Outcome(disk: Disk, status: Status, conds: Conditions, err: bool)

  /** The whole sync, when the first `limit` file operations succeed. */
  function Complete(plan: Plan, d: Disk, status: Status, limit: nat): Outcome {
    match plan
    case Finished(conds, err) => Outcome(d, status, conds, err)
    case Flying(f) =>
      var (d', j') := Exec(d, f.job, limit);
      if j'.pc.AtStatus? then Outcome(d', f.okStatus, f.okConds, false)
      else Outcome(d', status, f.failConds, true)
  }

  /** Path strings such as httpPath lead to the served files. */
  lemma ServedFileIsJoined(root: string, id: Id, file: string)
    requires root != "" && ValidId(id) && ValidSegment(file)
    ensures Segs(JoinPath(JoinPath4(root, KindDir(id.kind), id.ns, id.name), file)) == Segs(root) + (DirOf(id) + [file])
  {
    KindDirValid(id.kind);
    DirOfIsJoined(root, id);
    JoinPath4Segs(root, KindDir(id.kind), id.ns, id.name);
    JoinSegment(JoinPath4(root, KindDir(id.kind), id.ns, id.name), file);
    assert Segs(root) + DirOf(id) + [file] == Segs(root) + (DirOf(id) + [file]);
  }
}
