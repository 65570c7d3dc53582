/** The served volume: names bound to inodes, so that a file that is open for reading can be told
    from the name it was opened by. Paths are relative to the directory that is served. */
module Volume {
  import opened Strings
  import opened Paths

  datatype Disk = Disk(dirs: set<Path>, names: map<Path, nat>, inodes: map<nat, Bytes>, next: nat) {

    /** Names are bound to distinct allocated inodes: the controllers make no hard links. */
    ghost predicate Valid() {
      && (forall p :: p in names ==> names[p] < next && names[p] in inodes)
      && (forall p, q :: p in names && q in names && names[p] == names[q] ==> p == q)
    }

    /** The bytes a reader gets that opens p now. */
    function Content(p: Path): Option<Bytes> {
      if p in names && names[p] in inodes then Some(inodes[names[p]]) else None
    }

    function MkdirAll(p: Path): Disk {
      this.(dirs := dirs + set k | 0 <= k <= |p| :: p[..k])
    }

    /** os.Create: an existing file is truncated in place, a new one gets a new inode. */
    function Create(p: Path): Disk {
      if p in names then this.(inodes := inodes[names[p] := ""])
      else this.(names := names[p := next], inodes := inodes[next := ""], next := next + 1)
    }

    /** A write through the handle that Create returned; p still names that file. */
    function Append(p: Path, data: Bytes): Disk {
      if p in names && names[p] in inodes then this.(inodes := inodes[names[p] := inodes[names[p]] + data])
      else this
    }

    /** os.Rename of an existing file: the target name moves to the other inode. */
    function Rename(from: Path, to: Path): Disk
      requires from in names
    {
      this.(names := (names - {from})[to := names[from]])
    }

    /** os.WriteFile, taken as one step. */
    function WriteFile(p: Path, data: Bytes): Disk {
      Create(p).Append(p, data)
    }

    function Remove(p: Path): Disk {
      this.(names := names - {p})
    }
  }

  const EMPTY := Disk({[]}, map[], map[], 0)

  /** Nothing but the paths of s may have changed. */
  ghost predicate SameExcept(d: Disk, d': Disk, s: set<Path>) {
    forall p :: p !in s ==>
      (p in d.names <==> p in d'.names) &&
      (p in d.names ==> d.names[p] == d'.names[p]) && d.Content(p) == d'.Content(p)
  }

  /** The directory and everything above it exist, and nothing else has changed. */
  lemma MkdirAllStep(d: Disk, p: Path)
    ensures forall q :: q in d.MkdirAll(p).dirs <==> q in d.dirs || q <= p
    ensures d.MkdirAll(p).names == d.names && d.MkdirAll(p).inodes == d.inodes && d.MkdirAll(p).next == d.next
  {
    forall q ensures q in d.MkdirAll(p).dirs <==> q in d.dirs || q <= p {
      if q <= p {
        assert q == p[..|q|];
      }
    }
  }

  /** The file is empty; an existing one keeps its inode, a new one gets one that was never used. */
  lemma CreateStep(d: Disk, p: Path)
    requires d.Valid()
    ensures d.Create(p).Valid() && SameExcept(d, d.Create(p), {p}) && d.Create(p).Content(p) == Some("")
    ensures d.Create(p).dirs == d.dirs && p in d.Create(p).names
    ensures p in d.names ==> d.Create(p).names == d.names
    ensures p !in d.names ==> d.Create(p).names[p] == d.next && d.Create(p).next == d.next + 1
  {
  }

  lemma AppendStep(d: Disk, p: Path, data: Bytes)
    requires d.Valid() && p in d.names
    ensures d.Append(p, data).Valid() && SameExcept(d, d.Append(p, data), {p})
    ensures d.Append(p, data).Content(p) == Some(d.Content(p).value + data)
    ensures d.Append(p, data).names == d.names && d.Append(p, data).dirs == d.dirs
  {
  }

  lemma RenameStep(d: Disk, from: Path, to: Path)
    requires d.Valid() && from in d.names && from != to
    ensures d.Rename(from, to).Valid() && SameExcept(d, d.Rename(from, to), {from, to})
    ensures d.Rename(from, to).Content(to) == d.Content(from) && from !in d.Rename(from, to).names
    ensures to in d.Rename(from, to).names && d.Rename(from, to).names[to] == d.names[from]
    ensures d.Rename(from, to).inodes == d.inodes && d.Rename(from, to).dirs == d.dirs
  {
  }

  lemma WriteFileStep(d: Disk, p: Path, data: Bytes)
    requires d.Valid()
    ensures d.WriteFile(p, data).Valid() && SameExcept(d, d.WriteFile(p, data), {p})
    ensures d.WriteFile(p, data).Content(p) == Some(data)
  {
    CreateStep(d, p);
    AppendStep(d.Create(p), p, data);
    assert "" + data == data;
  }

  lemma RemoveStep(d: Disk, p: Path)
    requires d.Valid()
    ensures d.Remove(p).Valid() && SameExcept(d, d.Remove(p), {p}) && d.Remove(p).Content(p) == None
    ensures p !in d.Remove(p).names && d.Remove(p).inodes == d.inodes && d.Remove(p).dirs == d.dirs
  {
  }

  // ----- names in an object's directory -----

  function TarName(c: string): string { c + ".tar.gz" }
  function PlaceholderName(final: string): string { final + ".new" }
  function RecordName(file: string): string { file + ".sha1" }

  predicate IsTarName(s: string) { HasSuffix(s, ".tar.gz") }

  lemma NamesWritten(c: string, final: string, file: string)
    ensures TarName(c) == c + ".tar.gz" && PlaceholderName(final) == final + ".new"
    ensures RecordName(file) == file + ".sha1"
  {
  }

  /** Tarballs, placeholders and cache records never share a name. */
  lemma NamesNeverCollide(c: string, final: string, file: string)
    ensures TarName(c) != PlaceholderName(final) && TarName(c) != RecordName(file)
    ensures PlaceholderName(final) != RecordName(file)
    ensures IsTarName(TarName(c)) && !IsTarName(PlaceholderName(final)) && !IsTarName(RecordName(file))
  {
    var t, p, r := TarName(c), PlaceholderName(final), RecordName(file);
    assert t[|t| - 1] == 'z' && p[|p| - 1] == 'w' && r[|r| - 1] == '1';
    SuffixLast(p, ".tar.gz");
    SuffixLast(r, ".tar.gz");
    assert t[|t| - 7..] == ".tar.gz";
  }

  // ----- publishing one tarball -----

  datatype Record = Record(name: string, text: Bytes)

  datatype Pc = AtMkdir | AtCreate | AtCopy(done: nat) | AtRename | AtRecord | AtStatus | Failed

  /** The file operations with which a sync publishes a tarball: the tarball `final` in `dir`, and
      for a Maven artifact the cache record. `createFails` is the os.Create error on the
      placeholder, which copyFile and copyCompressedFile turn into success. */
  datatype Job = Job(dir: Path, final: string, tar: Bytes, record: Option<Record>, createFails: bool, pc: Pc) {

    function Final(): Path { dir + [final] }
    function Placeholder(): Path { dir + [PlaceholderName(final)] }
    function RecordPath(): Path
      requires record.Some?
    {
      dir + [RecordName(record.value.name)]
    }

    predicate Done() { pc.AtStatus? || pc.Failed? }

    function AfterCopy(k: nat): Job {
      this.(pc := if k < |tar| then AtCopy(k) else AtRename)
    }

    /** After a failed create, a Maven sync goes on to write the cache record and an image sync
        goes on to rename whatever stands at the placeholder. */
    function AfterFailedCreate(): Job {
      this.(pc := if record.Some? then AtRecord else AtRename)
    }
  }

  /** One file operation; n is how much a write transfers. */
  function StepJob(d: Disk, j: Job, n: nat): (Disk, Job) {
    match j.pc
    case AtMkdir => (d.MkdirAll(j.dir), j.(pc := AtCreate))
    case AtCreate =>
      if j.createFails || j.dir !in d.dirs then (d, j.AfterFailedCreate())
      else (d.Create(j.Placeholder()), j.AfterCopy(0))
    case AtCopy(k) =>
      var end := if n == 0 then k + 1 else k + n;
      if k >= |j.tar| then (d, j.(pc := AtRename))
      else if end < |j.tar| then (d.Append(j.Placeholder(), j.tar[k..end]), j.AfterCopy(end))
      else (d.Append(j.Placeholder(), j.tar[k..]), j.(pc := AtRename))
    case AtRename =>
      if j.Placeholder() !in d.names then (d, j.(pc := Failed))
      else (d.Rename(j.Placeholder(), j.Final()), j.(pc := if j.record.Some? then AtRecord else AtStatus))
    case AtRecord =>
      if j.record.None? then (d, j.(pc := AtStatus))
      else if j.dir !in d.dirs then (d, j.(pc := Failed))
      else (d.WriteFile(j.RecordPath(), j.record.value.text), j.(pc := AtStatus))
    case AtStatus => (d, j)
    case Failed => (d, j)
  }

  /** The buffer of io.Copy. */
  const CHUNK: nat := 32768

  /** All operations in turn, the first `limit` of which succeed. */
  function Exec(d: Disk, j: Job, limit: nat): (Disk, Job)
    decreases limit
  {
    if j.Done() then (d, j)
    else if limit == 0 then (d, j.(pc := Failed))
    else var (d1, j1) := StepJob(d, j, CHUNK); Exec(d1, j1, limit - 1)
  }

  lemma ExecUnfold(d: Disk, j: Job, limit: nat)
    ensures j.Done() || limit == 0 ==> Exec(d, j, limit).0 == d
    ensures !j.Done() && limit > 0 ==>
              Exec(d, j, limit) == Exec(StepJob(d, j, CHUNK).0, StepJob(d, j, CHUNK).1, limit - 1)
  {
  }

  /** The paths that the next operation of a job touches. */
  ghost function Touched(j: Job): set<Path> {
    match j.pc
    case AtCreate => {j.Placeholder()}
    case AtCopy(_) => {j.Placeholder()}
    case AtRename => {j.Placeholder(), j.Final()}
    case AtRecord => if j.record.Some? then {j.RecordPath()} else {}
    case _ => {}
  }

  /** A placeholder left over by an earlier sync is what is published now, or the tarball to publish. */
  ghost predicate PlaceholderHarmless(d: Disk, j: Job) {
    j.Placeholder() in d.names ==> d.Content(j.Placeholder()) in {d.Content(j.Final()), Some(j.tar)}
  }

  /** A create that fails does no harm: a Maven sync, which goes on to its record, finds the tarball
      published; an image sync, which goes on to rename, finds no placeholder or a harmless one. */
  ghost predicate CreateSafe(d: Disk, j: Job) {
    j.createFails ==> if j.record.Some? then j.Final() in d.names else PlaceholderHarmless(d, j)
  }

  /** What holds of the volume while a job is under way. */
  ghost predicate JobInv(d: Disk, j: Job) {
    && IsTarName(j.final)
    && (j.pc.AtMkdir? || j.pc.AtCreate? ==> CreateSafe(d, j))
    && (j.pc.AtCreate? || j.pc.AtCopy? || j.pc.AtRename? || j.pc.AtRecord? ==> j.dir in d.dirs)
    && (j.pc.AtCopy? ==>
          !j.createFails && j.pc.done < |j.tar| && d.Content(j.Placeholder()) == Some(j.tar[..j.pc.done]))
    && (j.pc.AtRename? ==>
          if j.createFails then j.record.None? && PlaceholderHarmless(d, j)
          else d.Content(j.Placeholder()) == Some(j.tar))
    && (j.pc.AtRecord? || j.pc.AtStatus? ==> j.Final() in d.names)
  }

  lemma JobPaths(j: Job)
    requires IsTarName(j.final)
    ensures j.Final() != j.Placeholder()
    ensures j.record.Some? ==> j.RecordPath() != j.Final() && j.RecordPath() != j.Placeholder()
    ensures forall p :: p in Touched(j) ==> |p| == |j.dir| + 1 && j.dir <= p
  {
    var c := j.final[..|j.final| - 7];
    assert j.final == TarName(c);
    if j.record.Some? {
      NamesNeverCollide(c, j.final, j.record.value.name);
      assert j.RecordPath()[|j.dir|] == RecordName(j.record.value.name);
    } else {
      NamesNeverCollide(c, j.final, "");
    }
    assert j.Final()[|j.dir|] == j.final && j.Placeholder()[|j.dir|] == PlaceholderName(j.final);
  }

  /** What a step of a job guarantees. */
  ghost predicate StepGuarantee(d: Disk, j: Job, d': Disk, j': Job) {
    && d'.Valid() && JobInv(d', j') && j' == j.(pc := j'.pc)
    && SameExcept(d, d', Touched(j)) && d.dirs <= d'.dirs
    && (d'.Content(j.Final()) == d.Content(j.Final()) || d'.Content(j.Final()) == Some(j.tar))
    && (j.Final() in d.names ==> j.Final() in d'.names)
    && (j.pc.AtRename? && !j.createFails ==> d'.Content(j.Final()) == Some(j.tar))
    && (j.pc.AtRecord? && j.record.Some? ==> d'.Content(j.RecordPath()) == Some(j.record.value.text))
  }

  lemma StepAtMkdir(d: Disk, j: Job)
    requires d.Valid() && JobInv(d, j) && j.pc.AtMkdir?
    ensures StepGuarantee(d, j, d.MkdirAll(j.dir), j.(pc := AtCreate))
  {
    assert j.dir[..|j.dir|] == j.dir;
  }

  lemma StepAtCreate(d: Disk, j: Job)
    requires d.Valid() && JobInv(d, j) && j.pc.AtCreate? && !j.createFails
    ensures StepGuarantee(d, j, d.Create(j.Placeholder()), j.AfterCopy(0))
  {
    JobPaths(j);
    CreateStep(d, j.Placeholder());
    assert j.tar[..0] == "";
    assert SameExcept(d, d.Create(j.Placeholder()), Touched(j));
  }

  lemma StepAtFailedCreate(d: Disk, j: Job)
    requires d.Valid() && JobInv(d, j) && j.pc.AtCreate? && j.createFails
    ensures StepGuarantee(d, j, d, j.AfterFailedCreate())
  {
  }

  lemma StepAtCopy(d: Disk, j: Job, end: nat)
    requires d.Valid() && JobInv(d, j) && j.pc.AtCopy? && j.pc.done <= end <= |j.tar|
    ensures StepGuarantee(d, j, d.Append(j.Placeholder(), j.tar[j.pc.done..end]), j.AfterCopy(end))
  {
    JobPaths(j);
    AppendStep(d, j.Placeholder(), j.tar[j.pc.done..end]);
    assert j.tar[..j.pc.done] + j.tar[j.pc.done..end] == j.tar[..end];
    assert j.tar[..|j.tar|] == j.tar;
    assert SameExcept(d, d.Append(j.Placeholder(), j.tar[j.pc.done..end]), Touched(j));
  }

  lemma StepAtRename(d: Disk, j: Job)
    requires d.Valid() && JobInv(d, j) && j.pc.AtRename? && j.Placeholder() in d.names
    ensures StepGuarantee(d, j, d.Rename(j.Placeholder(), j.Final()),
                          j.(pc := if j.record.Some? then AtRecord else AtStatus))
  {
    JobPaths(j);
    RenameStep(d, j.Placeholder(), j.Final());
    assert SameExcept(d, d.Rename(j.Placeholder(), j.Final()), Touched(j));
  }

  lemma StepAtRecord(d: Disk, j: Job)
    requires d.Valid() && JobInv(d, j) && j.pc.AtRecord? && j.record.Some?
    ensures StepGuarantee(d, j, d.WriteFile(j.RecordPath(), j.record.value.text), j.(pc := AtStatus))
  {
    JobPaths(j);
    WriteFileStep(d, j.RecordPath(), j.record.value.text);
    assert SameExcept(d, d.WriteFile(j.RecordPath(), j.record.value.text), Touched(j));
  }

  /** A step keeps the job's invariant, touches only the job's paths, and changes the published name
      only by putting the complete tarball there. */
  lemma JobStep(d: Disk, j: Job, n: nat)
    requires d.Valid() && JobInv(d, j)
    ensures var (d', j') := StepJob(d, j, n); StepGuarantee(d, j, d', j')
  {
    match j.pc
    case AtMkdir => StepAtMkdir(d, j);
    case AtCreate => if j.createFails { StepAtFailedCreate(d, j); } else { StepAtCreate(d, j); }
    case AtCopy(k) =>
      var end := if n == 0 then k + 1 else k + n;
      StepAtCopy(d, j, if end < |j.tar| then end else |j.tar|);
      assert j.tar[k..|j.tar|] == j.tar[k..];
    case AtRename => if j.Placeholder() in d.names { StepAtRename(d, j); }
    case AtRecord => if j.record.Some? { StepAtRecord(d, j); }
    case AtStatus =>
    case Failed =>
  }

  // ----- open readers -----

  /** The inode is allocated and no name bound to it is one that the controllers write through. */
  ghost predicate Sealed(d: Disk, i: nat) {
    i < d.next && forall p :: p in d.names && d.names[p] == i ==> p != [] && IsTarName(p[|p| - 1])
  }

  ghost predicate InodeKept(d: Disk, d': Disk, i: nat) {
    Sealed(d', i) && (i in d'.inodes <==> i in d.inodes) && (i in d.inodes ==> d'.inodes[i] == d.inodes[i])
  }

  lemma PublishedIsSealed(d: Disk, p: Path)
    requires d.Valid() && p in d.names && p != [] && IsTarName(p[|p| - 1])
    ensures Sealed(d, d.names[p])
  {
  }

  /** The inode keeps its bytes and gets no new name. */
  ghost predicate InodeSafe(d: Disk, d': Disk, i: nat) {
    && i < d'.next
    && (forall q :: q in d'.names && d'.names[q] == i ==> q in d.names && d.names[q] == i)
    && (i in d'.inodes <==> i in d.inodes) && (i in d.inodes ==> d'.inodes[i] == d.inodes[i])
  }

  lemma SafeIsKept(d: Disk, d': Disk, i: nat)
    requires Sealed(d, i) && InodeSafe(d, d', i)
    ensures InodeKept(d, d', i)
  {
  }

  lemma WriteSafe(d: Disk, p: Path, data: Bytes, i: nat)
    requires d.Valid() && i < d.next && (p in d.names ==> d.names[p] != i)
    ensures InodeSafe(d, d.Create(p), i) && InodeSafe(d, d.Append(p, data), i) && InodeSafe(d, d.WriteFile(p, data), i)
  {
  }

  lemma RenameSafe(d: Disk, from: Path, to: Path, i: nat)
    requires i < d.next && from in d.names && d.names[from] != i
    ensures InodeSafe(d, d.Rename(from, to), i)
  {
  }

  /** A step writes only through the placeholder and the record. */
  lemma StepSafe(d: Disk, j: Job, n: nat, i: nat)
    requires d.Valid() && i < d.next
    requires j.Placeholder() in d.names ==> d.names[j.Placeholder()] != i
    requires j.record.Some? && j.RecordPath() in d.names ==> d.names[j.RecordPath()] != i
    ensures InodeSafe(d, StepJob(d, j, n).0, i)
  {
    var p := j.Placeholder();
    match j.pc
    case AtCreate => WriteSafe(d, p, "", i);
    case AtCopy(k) =>
      if k < |j.tar| {
        var end := if n == 0 then k + 1 else k + n;
        WriteSafe(d, p, if end < |j.tar| then j.tar[k..end] else j.tar[k..], i);
      }
    case AtRename =>
      if p in d.names { RenameSafe(d, p, j.Final(), i); }
    case AtRecord =>
      if j.record.Some? { WriteSafe(d, j.RecordPath(), j.record.value.text, i); }
    case _ =>
  }

  /** No step of a job, whatever state it is in, changes the bytes of a sealed inode. */
  lemma SealedKept(d: Disk, j: Job, n: nat, i: nat)
    requires d.Valid() && IsTarName(j.final) && Sealed(d, i)
    ensures InodeKept(d, StepJob(d, j, n).0, i)
  {
    var p := j.Placeholder();
    assert p[|p| - 1] == PlaceholderName(j.final);
    NamesNeverCollide("", j.final, "");
    if j.record.Some? {
      var r := j.RecordPath();
      assert r[|r| - 1] == RecordName(j.record.value.name);
      NamesNeverCollide("", j.final, j.record.value.name);
    }
    StepSafe(d, j, n, i);
    SafeIsKept(d, StepJob(d, j, n).0, i);
  }
}
