/** When the tarball that the status of a Maven artifact names is on the volume. */
module MavenStatus {
  import opened Strings
  import opened Paths
  import opened Volume
  import opened ObjectStatus
  import opened Remote
  import opened Sync
  import opened Cluster
  import opened MavenSync
  import opened MavenCache

  /** The tarball that the status names, relative to the served directory. */
  function StatusPath(status: Status): Path
    requires status.artifact.Some?
  {
    Segs(status.artifact.value.path)
  }

  lemma NewStatusPath(w: World, status: Status, id: Id, input: MavenInput, fileName: string, data: Bytes, tar: Bytes)
    requires ValidWorld(w) && id.kind.Maven? && ValidId(id)
    ensures var s := NewStatus(w, status, id, input, fileName, w.sha1(data), tar);
            s.artifact.Some? && StatusPath(s) == DirOf(id) + [TarName(w.sha1(data))]
  {
    Sha1Segment(w, data);
    HttpPathIsServedPath(id, TarName(w.sha1(data)));
  }

  lemma {:induction false} ExecPublishes(d: Disk, j: Job, limit: nat)
    requires d.Valid() && JobInv(d, j)
    ensures var (d', j') := Exec(d, j, limit); j'.pc.AtStatus? ==> j.Final() in d'.names
    decreases limit
  {
    if !j.Done() && limit > 0 {
      JobStep(d, j, CHUNK);
      ExecPublishes(StepJob(d, j, CHUNK).0, StepJob(d, j, CHUNK).1, limit - 1);
    }
  }

  predicate Hits(o: Outcome, id: Id, input: MavenInput)
    requires input.details.Some? && input.checksum.Body?
  {
    var det := input.details.value;
    IsHit(ReadRecord(o.disk, RecordPathOf(id, det.fileName)), o.status, input.checksum.data, det.url)
  }

  /** After a sync without error, the tarball that the status names is on the volume exactly when the sync
      was no hit, or that tarball was there when it began. */
  lemma StatusTarballIsServed(w: World, o: Outcome, id: Id, input: MavenInput, limit: nat)
    requires ValidWorld(w) && CacheInv(w, o.disk, id) && FetchSucceeds(w, input) && id.kind.Maven? && ValidId(id)
    requires !After(w, true, id, o, SyncEvent(input, limit)).err
    ensures var o' := After(w, true, id, o, SyncEvent(input, limit));
            && o'.status.artifact.Some?
            && (StatusPath(o'.status) in o'.disk.names <==>
                (Hits(o, id, input) ==> StatusPath(o.status) in o.disk.names))
  {
    PlanOfGoodInput(w, true, o, id, input);
    if !Hits(o, id, input) {
      var f := MavenPlan(w, true, o.disk, o.status, o.conds, id, input).flight;
      NoPanic(w, o.disk, id, input.details.value.fileName);
      FetchOfGoodInput(w, o.disk, o.status, o.conds, id, input);
      ExecPublishes(o.disk, f.job, limit);
      NewStatusPath(w, o.status, id, input, input.details.value.fileName, input.artifact.data, f.job.tar);
    }
  }

  // ----- a status that names nothing that is served -----

  /** The status after a complete sync that is no hit names its tarball. */
  lemma StatusAfterFetch(w: World, id: Id, o: Outcome, input: MavenInput, limit: nat)
    requires ValidWorld(w) && id.kind.Maven? && ValidId(id) && CacheInv(w, o.disk, id) && FetchSucceeds(w, input)
    requires limit >= OpsLeft(FreshJob(w, id, input)) && !Hits(o, id, input)
    ensures var o' := After(w, true, id, o, SyncEvent(input, limit));
            && o'.conds == o.conds.(available := True)
            && o'.status.url == HttpUrl(input.host, id, TarName(input.checksum.data))
            && o'.status.artifact.Some? && StatusPath(o'.status) == DirOf(id) + [TarName(input.checksum.data)]
  {
    var f := FetchPlan(w, o.status, o.conds, id, input, input.checksum.data).flight;
    NoPanic(w, o.disk, id, input.details.value.fileName);
    FetchOfGoodInput(w, o.disk, o.status, o.conds, id, input);
    assert MavenPlan(w, true, o.disk, o.status, o.conds, id, input) == Flying(f);
    ExecEnds(o.disk, f.job, limit);
    NewStatusPath(w, o.status, id, input, input.details.value.fileName, input.artifact.data, f.job.tar);
  }

  /** It puts no other tarball on the volume. */
  lemma NoOtherTarball(w: World, id: Id, o: Outcome, input: MavenInput, c: string, limit: nat)
    requires ValidWorld(w) && id.kind.Maven? && CacheInv(w, o.disk, id) && FetchSucceeds(w, input)
    requires limit >= OpsLeft(FreshJob(w, id, input)) && !Hits(o, id, input) && c != input.checksum.data
    ensures DirOf(id) + [TarName(c)] in After(w, true, id, o, SyncEvent(input, limit)).disk.names ==>
            DirOf(id) + [TarName(c)] in o.disk.names
  {
    var f := FetchPlan(w, o.status, o.conds, id, input, input.checksum.data).flight;
    NoPanic(w, o.disk, id, input.details.value.fileName);
    FetchOfGoodInput(w, o.disk, o.status, o.conds, id, input);
    assert MavenPlan(w, true, o.disk, o.status, o.conds, id, input) == Flying(f);
    JobAddsOne(o.disk, f.job, id, input.checksum.data, c, limit);
  }

  lemma JobAddsOne(d: Disk, j: Job, id: Id, hex: string, c: string, limit: nat)
    requires d.Valid() && JobInv(d, j) && j.record.Some? && limit >= OpsLeft(j) && !j.pc.Failed?
    requires j.dir == DirOf(id) && j.final == TarName(hex) && c != hex
    ensures DirOf(id) + [TarName(c)] in Exec(d, j, limit).0.names ==> DirOf(id) + [TarName(c)] in d.names
  {
    var p := DirOf(id) + [TarName(c)];
    ExecEnds(d, j, limit);
    NamesNeverCollide(c, j.final, j.record.value.name);
    assert p[3] == TarName(c) && p[3][..|p[3]| - 7] == c && j.final[..|j.final| - 7] == hex;
    assert j.Final()[3] == j.final && j.Placeholder()[3] == PlaceholderName(j.final);
    assert j.RecordPath()[3] == RecordName(j.record.value.name);
  }

  lemma FourEvents(w: World, id: Id, o: Outcome, e1: Event, e2: Event, e3: Event, e4: Event)
    ensures History(w, true, id, o, [e1, e2, e3, e4]) ==
            After(w, true, id, After(w, true, id, After(w, true, id, After(w, true, id, o, e1), e2), e3), e4)
  {
    assert [e1, e2, e3, e4][1..] == [e2, e3, e4];
    ThreeEvents(w, id, After(w, true, id, o, e1), e2, e3, e4);
  }

  /** A sync of B succeeds, the volume is wiped, a sync of A writes everything but loses its status update,
      and the next sync of A finds its record and ends without error: the status still names the tarball
      of B, which is gone, and the object is as ready as it was. */
  lemma StatusNamesMissing(w: World, id: Id, o: Outcome, a: MavenInput, b: MavenInput, limit: nat)
    requires ValidWorld(w) && id.kind.Maven? && ValidId(id) && o.disk == EMPTY
    requires FetchSucceeds(w, a) && FetchSucceeds(w, b) && a.checksum.data != b.checksum.data
    requires limit >= OpsLeft(FreshJob(w, id, a)) && limit >= OpsLeft(FreshJob(w, id, b))
    ensures var events := [SyncEvent(b, limit), WipeEvent, LostEvent(a, limit), SyncEvent(a, limit)];
            var h := History(w, true, id, o, events);
            && !h.err && h.conds == o.conds.(available := True)
            && h.status.url == HttpUrl(b.host, id, TarName(b.checksum.data))
            && h.status.artifact.Some? && StatusPath(h.status) == DirOf(id) + [TarName(b.checksum.data)]
            && StatusPath(h.status) !in h.disk.names
  {
    var o1 := After(w, true, id, o, SyncEvent(b, limit));
    EmptyCacheInv(w, id);
    StatusAfterFetch(w, id, o, b, limit);
    AfterKeepsCacheInv(w, true, id, o, SyncEvent(b, limit));
    AfterWipe(w, id, o1, a, b.checksum.data, limit);
    FourEvents(w, id, o, SyncEvent(b, limit), WipeEvent, LostEvent(a, limit), SyncEvent(a, limit));
  }

  /** From the wipe on. */
  lemma AfterWipe(w: World, id: Id, o1: Outcome, a: MavenInput, c: string, limit: nat)
    requires ValidWorld(w) && id.kind.Maven? && CacheInv(w, o1.disk, id) && o1.status.artifact.Some?
    requires FetchSucceeds(w, a) && a.checksum.data != c && limit >= OpsLeft(FreshJob(w, id, a))
    ensures var o2 := After(w, true, id, o1, WipeEvent);
            var o4 := After(w, true, id, After(w, true, id, o2, LostEvent(a, limit)), SyncEvent(a, limit));
            && !o4.err && o4.status == o1.status && o4.conds == o1.conds
            && DirOf(id) + [TarName(c)] !in o4.disk.names
  {
    var o2 := After(w, true, id, o1, WipeEvent);
    AfterKeepsCacheInv(w, true, id, o1, WipeEvent);
    assert o2.status == o1.status && o2.conds == o1.conds && o2.disk.names == map[];
    LostOnEmptyVolume(w, id, o2, a, c, limit);
    HitAgain(w, id, After(w, true, id, o2, LostEvent(a, limit)), a, limit);
  }

  lemma LostOnEmptyVolume(w: World, id: Id, o: Outcome, a: MavenInput, c: string, limit: nat)
    requires ValidWorld(w) && id.kind.Maven? && CacheInv(w, o.disk, id) && o.disk.names == map[]
    requires FetchSucceeds(w, a) && a.checksum.data != c && limit >= OpsLeft(FreshJob(w, id, a))
    ensures var o' := After(w, true, id, o, LostEvent(a, limit));
            && o'.status == o.status && o'.conds == o.conds && RecordReads(w, id, o'.disk, a)
            && DirOf(id) + [TarName(c)] !in o'.disk.names
  {
    LostEventKeeps(w, id, o, a, limit);
    RecordAfterSync(w, id, o, a, limit);
    NoOtherTarball(w, id, o, a, c, limit);
  }

  lemma LostEventKeeps(w: World, id: Id, o: Outcome, a: MavenInput, limit: nat)
    ensures After(w, true, id, o, LostEvent(a, limit)) == o.(disk := After(w, true, id, o, SyncEvent(a, limit)).disk)
  {
  }

  lemma RecordAfterSync(w: World, id: Id, o: Outcome, a: MavenInput, limit: nat)
    requires ValidWorld(w) && id.kind.Maven? && CacheInv(w, o.disk, id) && o.disk.names == map[]
    requires FetchSucceeds(w, a) && limit >= OpsLeft(FreshJob(w, id, a))
    ensures RecordReads(w, id, After(w, true, id, o, SyncEvent(a, limit)).disk, a)
  {
    SyncOnce(w, id, o, a, limit);
  }
}
