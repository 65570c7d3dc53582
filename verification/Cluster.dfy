/** All objects of both controllers over one served volume: reconciles interleave at the grain of
    single file operations, and may break off anywhere. */
module Cluster {
  import opened Strings
  import opened Paths
  import opened Trees
  import opened Archive
  import opened ArchiveMeaning
  import opened Volume
  import opened ObjectStatus
  import opened Remote
  import opened Sync
  import MavenSync
  import ImageSync

  /** An object with its persisted status, and the sync that its worker is running, if any. */
  datatype Obj = Obj(status: Status, conds: Conditions, deleting: bool, flight: Option<Flight>)

  datatype State = State(disk: Disk, objs: map<Id, Obj>)

  datatype Action =
    | Add(id: Id)
    /** A Maven reconcile reaches the download sync; `resolved` is what the version sync has marked. */
    | StartMaven(id: Id, maven: MavenSync.MavenInput, resolved: Condition)
    | StartImage(id: Id, image: ImageSync.ImageInput)
    /** The next file operation of a running sync; n is how much a write transfers. */
    | Advance(id: Id, n: nat)
    /** The sync ends and its status is persisted. */
    | Finish(id: Id)
    /** The sync ends in the middle with an error; its conditions may or may not be persisted. */
    | Abort(id: Id, reported: bool)
    /** The controller stops and starts again, with the volume kept or wiped. */
    | Restart(wiped: bool)
    | Delete(id: Id)
    /** Finalization removes one file, in any order, and finally the directory. */
    | RemoveFile(id: Id, p: Path)
    | RemoveObject(id: Id)

  const INIT := State(EMPTY, map[])
  const NEW := Obj(Status("", None), Conditions(Unknown, Unknown), false, None)

  function WithPlan(o: Obj, plan: Plan): Obj {
    match plan
    case Finished(conds, _) => o.(conds := conds)
    case Flying(f) => o.(flight := Some(f))
  }

  function Wipe(d: Disk): Disk {
    d.(dirs := {[]}, names := map[])
  }

  function RemoveDir(d: Disk, dir: Path): Disk {
    d.(dirs := set p | p in d.dirs && !(dir <= p))
  }

  predicate Idle(s: State, id: Id) {
    id in s.objs && s.objs[id].flight.None?
  }

  /** The state after an action; an action that cannot happen changes nothing. One worker serves an
      object, so nothing starts while a sync of that object runs. */
  ghost function Next(w: World, s: State, a: Action): State {
    match a
    case Add(id) => if id in s.objs then s else s.(objs := s.objs[id := NEW])
    case StartMaven(id, input, resolved) =>
      if id.kind.Maven? && Idle(s, id) && !s.objs[id].deleting && input.Valid() then
        var o := s.objs[id].(conds := s.objs[id].conds.(resolved := resolved));
        s.(objs := s.objs[id := WithPlan(o, MavenSync.MavenPlan(w, true, s.disk, o.status, o.conds, id, input))])
      else s
    case StartImage(id, input) =>
      if id.kind.Image? && Idle(s, id) && !s.objs[id].deleting && s.objs[id].status.Consistent() && input.Valid() then
        var o := s.objs[id];
        s.(objs := s.objs[id := WithPlan(o, ImageSync.ImagePlan(w, s.disk, o.status, id, input))])
      else s
    case Advance(id, n) =>
      if id in s.objs && s.objs[id].flight.Some? then
        var f := s.objs[id].flight.value;
        var (d, j) := StepJob(s.disk, f.job, n);
        State(d, s.objs[id := s.objs[id].(flight := Some(f.(job := j)))])
      else s
    case Finish(id) =>
      if id in s.objs && s.objs[id].flight.Some? && s.objs[id].flight.value.job.Done() then
        var o, f := s.objs[id], s.objs[id].flight.value;
        var o' := if f.job.pc.AtStatus? then o.(status := f.okStatus, conds := f.okConds) else o.(conds := f.failConds);
        s.(objs := s.objs[id := o'.(flight := None)])
      else s
    case Abort(id, reported) =>
      if id in s.objs && s.objs[id].flight.Some? then
        var o := s.objs[id];
        s.(objs := s.objs[id := o.(flight := None, conds := if reported then o.flight.value.failConds else o.conds)])
      else s
    case Restart(wiped) =>
      State(if wiped then Wipe(s.disk) else s.disk, map id | id in s.objs :: s.objs[id].(flight := None))
    case Delete(id) =>
      if id in s.objs then s.(objs := s.objs[id := s.objs[id].(deleting := true)]) else s
    case RemoveFile(id, p) =>
      if Idle(s, id) && s.objs[id].deleting && DirOf(id) <= p then s.(disk := s.disk.Remove(p)) else s
    case RemoveObject(id) =>
      if Idle(s, id) && s.objs[id].deleting && forall p :: p in s.disk.names ==> !(DirOf(id) <= p)
      then State(RemoveDir(s.disk, DirOf(id)), s.objs - {id}) else s
  }

  ghost function Run(w: World, s: State, actions: seq<Action>): State
    decreases |actions|
  {
    if actions == [] then s else Run(w, Next(w, s, actions[0]), actions[1..])
  }

  ghost predicate Running(s: State, id: Id) {
    id in s.objs && s.objs[id].flight.Some?
  }

  /** What is assumed of the outside: Stat of an open file succeeds, artifact URLs have no '|', and a pull
      that succeeds is complete. */
  ghost predicate InputAdmissible(w: World, a: Action) {
    match a
    case StartMaven(_, input, _) =>
      input.faults.stat == {} && (input.details.Some? ==> '|' !in input.details.value.url)
    case StartImage(_, input) =>
      input.faults.stat == {} && ImageSync.PullsAreComplete(w, input)
    case _ => true
  }

  /** A sync may find that its placeholder cannot be created, if that does no harm. */
  ghost predicate Admissible(w: World, s: State, a: Action) {
    && InputAdmissible(w, a)
    && ((a.StartMaven? || a.StartImage?) && Idle(s, a.id) && Running(Next(w, s, a), a.id) ==>
          CreateSafe(s.disk, Next(w, s, a).objs[a.id].flight.value.job))
  }

  ghost predicate AdmissibleRun(w: World, s: State, actions: seq<Action>)
    decreases |actions|
  {
    actions != [] ==> Admissible(w, s, actions[0]) && AdmissibleRun(w, Next(w, s, actions[0]), actions[1..])
  }

  // ----- the invariant -----

  datatype Origin = Origin(tmp: string, fileName: string, data: Bytes, clock: int)

  ghost predicate PackedFrom(w: World, o: Origin, file: string, content: Bytes) {
    && IsAbs(o.tmp) && ValidSegment(o.fileName)
    && file == TarName(w.sha1(o.data)) && Pack(w, o.tmp, o.fileName, o.data, o.clock, NO_FAULTS) == Packed(content)
  }

  /** The file is named after the digest of some reference, and the content is a tarball of its image. */
  ghost predicate PulledAs(w: World, digest: string, es: seq<TarEntry>, file: string, content: Bytes) {
    && ImageSync.NamedAfter(file, digest) && (exists ref :: w.parseDigest(ref) == Some(digest))
    && content == w.gzip(es) && w.pulls(digest, TarContents(es))
  }

  /** The content is the whole tarball that the name stands for. */
  ghost predicate CompleteTarball(w: World, kind: Kind, file: string, content: Bytes) {
    if kind.Maven? then exists o :: PackedFrom(w, o, file, content)
    else exists digest, es :: PulledAs(w, digest, es, file, content)
  }

  ghost predicate RecordOf(w: World, source: string, data: Bytes, text: Bytes) {
    '|' !in source && text == MavenSync.PrintRecord(source, w.sha1(data))
  }

  /** A cache record names a source without '|' and the SHA-1 of some bytes, and the tarball of that
      hash stands beside it. */
  ghost predicate BackedRecord(w: World, d: Disk, id: Id, text: Bytes) {
    exists source, data :: RecordOf(w, source, data, text) && DirOf(id) + [TarName(w.sha1(data))] in d.names
  }

  ghost predicate IsRecordName(s: string) {
    HasSuffix(s, ".sha1")
  }

  ghost predicate TarballsComplete(w: World, d: Disk, id: Id) {
    forall p :: p in d.names && Owns(id, p) && IsTarName(p[3]) ==>
      d.Content(p).Some? && CompleteTarball(w, id.kind, p[3], d.Content(p).value)
  }

  ghost predicate RecordsBacked(w: World, d: Disk, id: Id) {
    forall p :: p in d.names && Owns(id, p) && IsRecordName(p[3]) ==>
      d.Content(p).Some? && BackedRecord(w, d, id, d.Content(p).value)
  }

  ghost predicate NamesImage(id: Id, f: Flight, host: string) {
    && f.okStatus.url == ImageSync.ImageUrl(host, id, TarName(f.hex))
    && f.okStatus.artifact.Some? && f.okStatus.artifact.value.url == f.okStatus.url
  }

  /** A sync that is no hit has its own tarball in place when its status is due, and that status gives the
      tarball's checksum, path and origin. */
  ghost predicate Describes(w: World, id: Id, f: Flight) {
    && f.okStatus.artifact.Some?
    && var a := f.okStatus.artifact.value;
       && a.checksum == w.sha1(f.job.tar) && a.url == f.okStatus.url
       && a.path == (if id.kind.Maven? then MavenSync.HttpPath(id, TarName(f.hex))
                     else ImageSync.ImageHttpPath(id, TarName(f.hex)))
       && (if id.kind.Maven? then f.job.record.Some? && a.revision == f.job.record.value.name
           else w.parseDigest(a.revision).Some? && ImageSync.NamedAfter(f.job.final, w.parseDigest(a.revision).value))
  }

  ghost predicate FlightInv(w: World, d: Disk, id: Id, f: Flight) {
    && JobInv(d, f.job) && f.job.dir == DirOf(id) && f.job.final == TarName(f.hex)
    && f.okStatus.Consistent()
    && (f.hit ==> f.job.pc.AtStatus?)
    && (!f.hit ==> CompleteTarball(w, id.kind, f.job.final, f.job.tar) && Describes(w, id, f))
    && (f.Installs() && (f.job.pc.AtRecord? || f.job.pc.AtStatus?) ==> d.Content(f.job.Final()) == Some(f.job.tar))
    && (f.job.record.Some? ==>
          id.kind.Maven? &&
          exists source, data :: RecordOf(w, source, data, f.job.record.value.text) && f.hex == w.sha1(data))
    && (id.kind.Image? ==> !f.failConds.Ready() && exists host :: NamesImage(id, f, host))
  }

  ghost predicate ObjInv(w: World, d: Disk, id: Id, o: Obj) {
    && o.status.Consistent()
    && TarballsComplete(w, d, id)
    && (id.kind.Maven? && !o.deleting ==> RecordsBacked(w, d, id))
    && (o.flight.Some? ==> FlightInv(w, d, id, o.flight.value))
  }

  ghost predicate Inv(w: World, s: State) {
    && s.disk.Valid()
    && (forall p :: p in s.disk.names ==> exists id :: id in s.objs && Owns(id, p))
    && (forall id :: id in s.objs ==> ObjInv(w, s.disk, id, s.objs[id]))
  }

  // ----- what leaves an object alone -----

  ghost predicate SameUnder(d: Disk, d': Disk, dir: Path) {
    && (forall p :: dir <= p ==>
          (p in d.names <==> p in d'.names) &&
          (p in d.names ==> d.names[p] == d'.names[p]) && d.Content(p) == d'.Content(p))
    && (dir in d.dirs ==> dir in d'.dirs)
  }

  lemma FrameRecord(w: World, d: Disk, d': Disk, id: Id, text: Bytes)
    requires SameUnder(d, d', DirOf(id)) && BackedRecord(w, d, id, text)
    ensures BackedRecord(w, d', id, text)
  {
    var source, data :| RecordOf(w, source, data, text) && DirOf(id) + [TarName(w.sha1(data))] in d.names;
    assert DirOf(id) <= DirOf(id) + [TarName(w.sha1(data))];
  }

  lemma FrameJob(d: Disk, d': Disk, j: Job)
    requires SameUnder(d, d', j.dir) && JobInv(d, j)
    ensures JobInv(d', j)
  {
    assert j.dir <= j.Final() && j.dir <= j.Placeholder();
  }

  lemma Frame(w: World, d: Disk, d': Disk, id: Id, o: Obj)
    requires SameUnder(d, d', DirOf(id)) && ObjInv(w, d, id, o)
    ensures ObjInv(w, d', id, o)
  {
    if o.flight.Some? {
      FrameJob(d, d', o.flight.value.job);
      assert DirOf(id) <= o.flight.value.job.Final();
    }
    if id.kind.Maven? && !o.deleting {
      forall p | p in d'.names && Owns(id, p) && IsRecordName(p[3])
        ensures d'.Content(p).Some? && BackedRecord(w, d', id, d'.Content(p).value)
      {
        FrameRecord(w, d, d', id, d.Content(p).value);
      }
    }
  }

  // ----- the running sync of the object itself -----

  lemma RecordNotTar(s: string)
    ensures !(IsTarName(s) && IsRecordName(s))
    ensures forall final :: IsTarName(final) ==>
              !IsRecordName(PlaceholderName(final)) && !IsRecordName(final) && !IsTarName(PlaceholderName(final))
  {
    SuffixLast(s, ".tar.gz");
    SuffixLast(s, ".sha1");
    forall final | IsTarName(final)
      ensures !IsRecordName(PlaceholderName(final)) && !IsRecordName(final) && !IsTarName(PlaceholderName(final))
    {
      SuffixLast(final, ".tar.gz");
      SuffixLast(final, ".sha1");
      SuffixLast(PlaceholderName(final), ".sha1");
      SuffixLast(PlaceholderName(final), ".tar.gz");
    }
  }

  lemma OwnTarballs(w: World, d: Disk, id: Id, f: Flight, n: nat)
    requires d.Valid() && TarballsComplete(w, d, id) && FlightInv(w, d, id, f)
    ensures TarballsComplete(w, StepJob(d, f.job, n).0, id)
  {
    var j := f.job;
    var d' := StepJob(d, j, n).0;
    JobStep(d, j, n);
    forall p | p in d'.names && Owns(id, p) && IsTarName(p[3])
      ensures d'.Content(p).Some? && CompleteTarball(w, id.kind, p[3], d'.Content(p).value)
    {
      if p in Touched(j) {
        TouchedName(j, p);
        assert p[3] == j.final && (d'.Content(p) == d.Content(p) || d'.Content(p) == Some(j.tar));
      } else {
        assert p in d.names && d'.Content(p) == d.Content(p);
      }
    }
  }

  /** Which of the touched paths has which kind of name. */
  lemma TouchedName(j: Job, p: Path)
    requires IsTarName(j.final) && |j.dir| == 3 && p in Touched(j)
    ensures |p| == 4
    ensures IsTarName(p[3]) ==> p == j.Final() && j.pc.AtRename?
    ensures IsRecordName(p[3]) ==> j.pc.AtRecord? && j.record.Some? && p == j.RecordPath()
  {
    RecordNotTar(j.final);
    if j.record.Some? {
      NamesNeverCollide("", j.final, j.record.value.name);
      assert j.RecordPath()[3] == RecordName(j.record.value.name);
    }
    assert j.Placeholder()[3] == PlaceholderName(j.final) && j.Final()[3] == j.final;
  }

  /** A job whose record, if it writes one, names the tarball that it publishes. */
  ghost predicate RecordFits(w: World, d: Disk, id: Id, j: Job) {
    && JobInv(d, j) && j.dir == DirOf(id)
    && (j.record.Some? ==>
          exists source, data :: RecordOf(w, source, data, j.record.value.text) && j.final == TarName(w.sha1(data)))
  }

  lemma FlightFits(w: World, d: Disk, id: Id, f: Flight)
    requires FlightInv(w, d, id, f)
    ensures RecordFits(w, d, id, f.job)
  {
  }

  lemma OwnRecords(w: World, d: Disk, id: Id, j: Job, n: nat)
    requires d.Valid() && RecordsBacked(w, d, id) && RecordFits(w, d, id, j)
    ensures RecordsBacked(w, StepJob(d, j, n).0, id)
    ensures RecordFits(w, StepJob(d, j, n).0, id, StepJob(d, j, n).1)
  {
    var d' := StepJob(d, j, n).0;
    JobStep(d, j, n);
    forall p | p in d'.names && Owns(id, p) && IsRecordName(p[3])
      ensures d'.Content(p).Some? && BackedRecord(w, d', id, d'.Content(p).value)
    {
      if p in Touched(j) {
        TouchedName(j, p);
        var source, data :| RecordOf(w, source, data, j.record.value.text) && j.final == TarName(w.sha1(data));
        assert j.Final() == DirOf(id) + [TarName(w.sha1(data))];
      } else {
        var source, data :|
          RecordOf(w, source, data, d.Content(p).value) && DirOf(id) + [TarName(w.sha1(data))] in d.names;
        TarNameStays(d, j, n, DirOf(id) + [TarName(w.sha1(data))], w.sha1(data));
      }
    }
  }

  /** No step of a job removes a tarball name. */
  lemma TarNameStays(d: Disk, j: Job, n: nat, p: Path, c: string)
    requires d.Valid() && JobInv(d, j) && |j.dir| == 3 && p in d.names && p == j.dir + [TarName(c)]
    ensures p in StepJob(d, j, n).0.names
  {
    JobStep(d, j, n);
    NamesNeverCollide(c, j.final, "");
    assert p[3] == TarName(c);
    if p in Touched(j) {
      TouchedName(j, p);
    }
  }

  lemma OwnFlight(w: World, d: Disk, id: Id, f: Flight, n: nat)
    requires d.Valid() && FlightInv(w, d, id, f)
    ensures var (d', j') := StepJob(d, f.job, n); FlightInv(w, d', id, f.(job := j'))
  {
    JobStep(d, f.job, n);
    if id.kind.Image? {
      var host :| NamesImage(id, f, host);
      assert NamesImage(id, f.(job := StepJob(d, f.job, n).1), host);
    }
    assert f.job.pc.AtStatus? ==> StepJob(d, f.job, n).1.pc.AtStatus?;
  }

  lemma OwnStep(w: World, d: Disk, id: Id, o: Obj, n: nat)
    requires d.Valid() && ObjInv(w, d, id, o) && o.flight.Some?
    ensures var f := o.flight.value; var (d', j') := StepJob(d, f.job, n);
            d'.Valid() && ObjInv(w, d', id, o.(flight := Some(f.(job := j'))))
  {
    var f := o.flight.value;
    JobStep(d, f.job, n);
    OwnTarballs(w, d, id, f, n);
    OwnFlight(w, d, id, f, n);
    if id.kind.Maven? && !o.deleting {
      FlightFits(w, d, id, f);
      OwnRecords(w, d, id, f.job, n);
    }
  }

  /** A step changes nothing in any other directory. */
  lemma JobStepElsewhere(d: Disk, j: Job, n: nat, id: Id, other: Id)
    requires d.Valid() && JobInv(d, j) && j.dir == DirOf(id) && id != other
    ensures SameUnder(d, StepJob(d, j, n).0, DirOf(other))
  {
    JobStep(d, j, n);
    forall p | p in Touched(j) ensures !(DirOf(other) <= p) {
      TouchedName(j, p);
      if DirOf(other) <= p { OwnerUnique(id, other, p); }
    }
  }

  // ----- starting a sync -----

  lemma MavenFlight(w: World, d: Disk, id: Id, o: Obj, input: MavenSync.MavenInput)
    requires ValidWorld(w) && d.Valid() && ObjInv(w, d, id, o) && !o.deleting && id.kind.Maven?
    requires input.Valid() && InputAdmissible(w, StartMaven(id, input, Unknown))
    ensures var plan := MavenSync.MavenPlan(w, true, d, o.status, o.conds, id, input);
            plan.Flying? && CreateSafe(d, plan.flight.job) ==> FlightInv(w, d, id, plan.flight)
  {
    var plan := MavenSync.MavenPlan(w, true, d, o.status, o.conds, id, input);
    if plan.Flying? && CreateSafe(d, plan.flight.job) {
      if plan.flight.hit {
        HitFlight(w, d, id, o.status, o.conds, input);
      } else {
        MissPlan(w, d, id, o.status, o.conds, input);
        FetchFlight(w, d, id, o.status, o.conds, input, input.checksum.data);
      }
    }
  }

  /** A sync that is no hit is a fetch. */
  lemma MissPlan(w: World, d: Disk, id: Id, status: Status, conds: Conditions, input: MavenSync.MavenInput)
    requires input.Valid()
    ensures var plan := MavenSync.MavenPlan(w, true, d, status, conds, id, input);
            plan.Flying? && !plan.flight.hit ==>
              && input.details.Some? && input.checksum.Body?
              && plan == MavenSync.FetchPlan(w, status, conds, id, input, input.checksum.data)
  {
  }

  lemma HitFlight(w: World, d: Disk, id: Id, status: Status, conds: Conditions, input: MavenSync.MavenInput)
    requires ValidWorld(w) && RecordsBacked(w, d, id) && id.kind.Maven? && input.Valid() && status.Consistent()
    ensures var plan := MavenSync.MavenPlan(w, true, d, status, conds, id, input);
            plan.Flying? && plan.flight.hit ==> FlightInv(w, d, id, plan.flight)
  {
    var plan := MavenSync.MavenPlan(w, true, d, status, conds, id, input);
    if plan.Flying? && plan.flight.hit {
      NamesNeverCollide(input.checksum.data, "", "");
      HitIsBacked(w, d, id, input.details.value.fileName);
    }
  }

  /** A record that is read back names its source and a tarball that is there. */
  lemma HitIsBacked(w: World, d: Disk, id: Id, fileName: string)
    requires ValidWorld(w) && RecordsBacked(w, d, id)
    requires MavenSync.ReadRecord(d, MavenSync.RecordPathOf(id, fileName)).Cached?
    ensures var c := MavenSync.ReadRecord(d, MavenSync.RecordPathOf(id, fileName)).checksum;
            DirOf(id) + [TarName(c)] in d.names && exists data :: c == w.sha1(data)
  {
    var p := MavenSync.RecordPathOf(id, fileName);
    assert p[3] == RecordName(fileName) && p in d.names && Owns(id, p);
    assert RecordName(fileName)[|fileName|..] == ".sha1";
    var source, data :| RecordOf(w, source, data, d.Content(p).value) && DirOf(id) + [TarName(w.sha1(data))] in d.names;
    Sha1HasNoBar(w, data);
    MavenSync.RecordRoundTrip(source, w.sha1(data));
  }

  lemma Sha1HasNoBar(w: World, data: Bytes)
    requires ValidWorld(w)
    ensures '|' !in w.sha1(data)
  {
    assert IsSha1(w.sha1(data)) && !IsHex('|');
  }

  /** Where the tarball and the record of a fetch come from. */
  lemma FetchOrigin(w: World, id: Id, status: Status, conds: Conditions, input: MavenSync.MavenInput, checksum: string)
    requires id.kind.Maven? && input.Valid() && input.details.Some?
    requires input.faults.stat == {} && '|' !in input.details.value.url
    ensures var plan := MavenSync.FetchPlan(w, status, conds, id, input, checksum);
            plan.Flying? ==>
              var f, det := plan.flight, input.details.value;
              && f.job.record.Some? && input.artifact.Body?
              && f.hex == w.sha1(input.artifact.data) && f.job.final == TarName(f.hex)
              && RecordOf(w, det.url, input.artifact.data, f.job.record.value.text)
              && PackedFrom(w, Origin(input.tmp, det.fileName, input.artifact.data, input.clock),
                            f.job.final, f.job.tar)
  {
    if MavenSync.FetchPlan(w, status, conds, id, input, checksum).Flying? {
      PackWithoutStatFaults(w, input.tmp, input.details.value.fileName, input.artifact.data, input.clock, input.faults);
    }
  }

  lemma FetchShape(w: World, id: Id, status: Status, conds: Conditions, input: MavenSync.MavenInput, checksum: string)
    requires id.kind.Maven? && input.Valid() && input.details.Some?
    ensures var plan := MavenSync.FetchPlan(w, status, conds, id, input, checksum);
            plan.Flying? ==>
              var f := plan.flight;
              f.job.dir == DirOf(id) && f.job.pc.AtMkdir? && !f.hit && f.okStatus.Consistent() && Describes(w, id, f)
  {
  }

  lemma FetchFlight(w: World, d: Disk, id: Id, status: Status, conds: Conditions,
                    input: MavenSync.MavenInput, checksum: string)
    requires id.kind.Maven? && input.Valid() && input.details.Some?
    requires input.faults.stat == {} && '|' !in input.details.value.url
    ensures var plan := MavenSync.FetchPlan(w, status, conds, id, input, checksum);
            plan.Flying? && CreateSafe(d, plan.flight.job) ==> FlightInv(w, d, id, plan.flight)
  {
    FetchOrigin(w, id, status, conds, input, checksum);
    FetchShape(w, id, status, conds, input, checksum);
    var plan := MavenSync.FetchPlan(w, status, conds, id, input, checksum);
    if plan.Flying? && CreateSafe(d, plan.flight.job) {
      var det, data := input.details.value, input.artifact.data;
      FreshFlight(w, d, id, plan.flight, Origin(input.tmp, det.fileName, data, input.clock), det.url);
    }
  }

  lemma FreshFlight(w: World, d: Disk, id: Id, f: Flight, o: Origin, source: string)
    requires id.kind.Maven? && f.job.dir == DirOf(id) && f.job.pc.AtMkdir? && !f.hit && CreateSafe(d, f.job)
    requires f.okStatus.Consistent() && Describes(w, id, f)
    requires f.hex == w.sha1(o.data) && f.job.final == TarName(f.hex) && PackedFrom(w, o, f.job.final, f.job.tar)
    requires f.job.record.Some? && RecordOf(w, source, o.data, f.job.record.value.text)
    ensures FlightInv(w, d, id, f)
  {
    NamesNeverCollide(f.hex, "", "");
  }

  lemma ImageFlight(w: World, d: Disk, id: Id, o: Obj, input: ImageSync.ImageInput)
    requires d.Valid() && ObjInv(w, d, id, o) && id.kind.Image?
    requires input.Valid() && InputAdmissible(w, StartImage(id, input))
    ensures var plan := ImageSync.ImagePlan(w, d, o.status, id, input);
            if plan.Flying? then CreateSafe(d, plan.flight.job) ==> FlightInv(w, d, id, plan.flight)
            else !plan.conds.Ready()
  {
    ImageSync.ReadyPlan(w, d, o.status, id, input);
    var plan := ImageSync.ImagePlan(w, d, o.status, id, input);
    if plan.Flying? && CreateSafe(d, plan.flight.job) {
      var s2 := ImageSync.DigestStep(w, input, ImageSync.SecretsStep(input, ImageSync.Start(input)));
      ImageFlightShape(w, d, o.status, id, input, s2);
      ShapedFlight(w, d, o.status, id, input, s2, plan.flight);
    }
  }

  lemma ShapedFlight(
    w: World, d: Disk, status: Status, id: Id, input: ImageSync.ImageInput, s: ImageSync.Progress, f: Flight)
    requires id.kind.Image? && input.Valid() && InputAdmissible(w, StartImage(id, input)) && CreateSafe(d, f.job)
    requires ImageSync.ShapeOfFlight(w, d, status, id, input, s, f) && f.job.record.None?
    ensures FlightInv(w, d, id, f)
  {
    assert NamesImage(id, f, input.host);
    if f.hit {
      PresentFlight(w, d, id, f);
    } else {
      PulledIsComplete(w, input, s.stash.imageRef, f.job.final, f.job.tar);
      PulledFlight(w, d, id, f);
    }
  }

  lemma PresentFlight(w: World, d: Disk, id: Id, f: Flight)
    requires id.kind.Image? && f.hit && f.job.pc.AtStatus? && f.job.record.None? && f.job.Final() in d.names
    requires f.job.dir == DirOf(id) && f.job.final == TarName(f.hex) && f.okStatus.Consistent()
    requires !f.failConds.Ready() && exists host :: NamesImage(id, f, host)
    ensures FlightInv(w, d, id, f)
  {
    NamesNeverCollide(f.hex, "", "");
  }

  lemma PulledFlight(w: World, d: Disk, id: Id, f: Flight)
    requires id.kind.Image? && !f.hit && f.job.pc.AtMkdir? && f.job.record.None? && CreateSafe(d, f.job)
    requires f.job.dir == DirOf(id) && f.job.final == TarName(f.hex) && f.okStatus.Consistent()
    requires !f.failConds.Ready() && exists host :: NamesImage(id, f, host)
    requires Describes(w, id, f) && CompleteTarball(w, Image, f.job.final, f.job.tar)
    ensures FlightInv(w, d, id, f)
  {
    NamesNeverCollide(f.hex, "", "");
  }

  /** The tarball of a pulled directory is one of the image's content. */
  lemma PulledIsComplete(w: World, input: ImageSync.ImageInput, ref: string, file: string, tar: Bytes)
    requires input.Valid() && input.faults.stat == {} && ImageSync.PullsAreComplete(w, input)
    requires ImageSync.PackedPull(w, input, ref, tar)
    requires w.parseDigest(ref).Some? && ImageSync.NamedAfter(file, w.parseDigest(ref).value)
    ensures CompleteTarball(w, Image, file, tar)
  {
    var files, digest := FilesUnder(input.pull(ref).value, Segs(input.tmp) + ["artifact"]), w.parseDigest(ref).value;
    ImageSync.PulledTarball(w, input, ref, tar);
    var es :| tar == w.gzip(es) && Names(TarContents(es), files);
    var m :| ImageSync.IsContent(w, digest, files, m);
    NamesUnique(TarContents(es), m, files);
    assert PulledAs(w, digest, es, file, tar);
  }

  lemma ImageFlightShape(w: World, d: Disk, status: Status, id: Id, input: ImageSync.ImageInput, s: ImageSync.Progress)
    requires status.Consistent() && input.Valid()
    ensures var plan := ImageSync.PullPlan(w, d, status, id, input, s);
            plan.Flying? ==> plan.flight.job.record.None?
  {
  }
}
