/** What the Maven cache does to a whole history of syncs, and where the code departs from what one
    would expect of it. */
module MavenCache {
  import opened Paths
  import opened Volume
  import opened ObjectStatus
  import opened Remote
  import opened Sync
  import opened Cluster
  import opened MavenSync

  // ----- the cache is transparent -----

  /** The published tarballs of an object. */
  ghost function Published(d: Disk, id: Id): set<Path> {
    set p | p in d.names && Owns(id, p) && IsTarName(p[3])
  }

  /** Every fetch and unpack succeeds: the checksum matches and the artifact can be packed. */
  ghost predicate FetchSucceeds(w: World, input: MavenInput) {
    && input.Valid() && input.details.Some? && input.client && input.checksum.Body? && input.artifact.Body?
    && w.sha1(input.artifact.data) == input.checksum.data
    && Pack(w, input.tmp, input.details.value.fileName, input.artifact.data, input.clock, input.faults).Packed?
    && input.local == NO_ERRORS && input.faults.stat == {} && !input.createFails && '|' !in input.details.value.url
  }

  /** A sync in which the first `limit` file operations succeed; the same, but the controller crashes
      after them, or the status update is lost; a wipe of the volume; and the deletion of the object,
      with its finalization, followed by its creation anew. */
  datatype Event =
    | SyncEvent(input: MavenInput, limit: nat)
    | LostEvent(input: MavenInput, limit: nat)
    | WipeEvent
    | RecreateEvent

  ghost predicate GoodEvent(w: World, e: Event) {
    e.SyncEvent? || e.LostEvent? ==> FetchSucceeds(w, e.input)
  }

  ghost function After(w: World, useCache: bool, id: Id, o: Outcome, e: Event): Outcome
    decreases if e.LostEvent? then 1 else 0
  {
    match e
    case SyncEvent(input, limit) =>
      if !input.Valid() then o
      else Complete(MavenPlan(w, useCache, o.disk, o.status, o.conds, id, input), o.disk, o.status, limit)
    case LostEvent(input, limit) =>
      o.(disk := After(w, useCache, id, o, SyncEvent(input, limit)).disk)
    case WipeEvent => o.(disk := Wipe(o.disk))
    case RecreateEvent => Outcome(Finalized(o.disk, id), NEW.status, NEW.conds, false)
  }

  /** os.RemoveAll of the object's directory, done. */
  function Finalized(d: Disk, id: Id): Disk {
    RemoveDir(d.(names := map p | p in d.names && !(DirOf(id) <= p) :: d.names[p]), DirOf(id))
  }

  ghost function History(w: World, useCache: bool, id: Id, o: Outcome, events: seq<Event>): Outcome
    decreases |events|
  {
    if events == [] then o else History(w, useCache, id, After(w, useCache, id, o, events[0]), events[1..])
  }

  ghost predicate CacheInv(w: World, d: Disk, id: Id) {
    d.Valid() && RecordsBacked(w, d, id)
  }

  lemma {:induction false} ExecKeepsRecords(w: World, d: Disk, id: Id, j: Job, limit: nat)
    requires CacheInv(w, d, id) && RecordFits(w, d, id, j)
    ensures CacheInv(w, Exec(d, j, limit).0, id)
    decreases limit
  {
    ExecUnfold(d, j, limit);
    if !j.Done() && limit > 0 {
      JobStep(d, j, CHUNK);
      OwnRecords(w, d, id, j, CHUNK);
      ExecKeepsRecords(w, StepJob(d, j, CHUNK).0, id, StepJob(d, j, CHUNK).1, limit - 1);
    }
  }

  /** What one step does to the published names. */
  lemma StepPublished(d: Disk, j: Job, id: Id, n: nat)
    requires d.Valid() && JobInv(d, j) && j.dir == DirOf(id) && !j.createFails
    ensures Published(StepJob(d, j, n).0, id) == Published(d, id) + if j.pc.AtRename? then {j.Final()} else {}
  {
    var d' := StepJob(d, j, n).0;
    JobStep(d, j, n);
    assert Owns(id, j.Final()) && j.Final()[3] == j.final;
    assert j.pc.AtRename? ==> j.Final() in d'.names;
    forall p ensures p in Published(d', id) <==> p in Published(d, id) + if j.pc.AtRename? then {j.Final()} else {} {
      if p in Touched(j) { TouchedName(j, p); }
    }
  }

  /** The same job run on two volumes publishes the same. */
  lemma {:induction false} ExecParallel(d1: Disk, d2: Disk, j: Job, id: Id, limit: nat)
    requires d1.Valid() && d2.Valid() && JobInv(d1, j) && JobInv(d2, j) && j.dir == DirOf(id) && !j.createFails
    requires Published(d1, id) == Published(d2, id)
    ensures Published(Exec(d1, j, limit).0, id) == Published(Exec(d2, j, limit).0, id)
    decreases limit
  {
    if !j.Done() && limit > 0 {
      JobStep(d1, j, CHUNK);
      JobStep(d2, j, CHUNK);
      StepPublished(d1, j, id, CHUNK);
      StepPublished(d2, j, id, CHUNK);
      SameJobStep(d1, d2, j);
      ExecParallel(StepJob(d1, j, CHUNK).0, StepJob(d2, j, CHUNK).0, StepJob(d1, j, CHUNK).1, id, limit - 1);
    }
  }

  lemma SameJobStep(d1: Disk, d2: Disk, j: Job)
    requires JobInv(d1, j) && JobInv(d2, j) && !j.createFails
    ensures StepJob(d1, j, CHUNK).1 == StepJob(d2, j, CHUNK).1
  {
  }

  /** Publishing again what is there publishes nothing new. */
  lemma {:induction false} ExecAgain(d: Disk, j: Job, id: Id, limit: nat)
    requires d.Valid() && JobInv(d, j) && j.dir == DirOf(id) && j.Final() in d.names && !j.createFails
    ensures Published(Exec(d, j, limit).0, id) == Published(d, id)
    decreases limit
  {
    if !j.Done() && limit > 0 {
      JobStep(d, j, CHUNK);
      StepPublished(d, j, id, CHUNK);
      assert j.Final() in Published(d, id) by { assert Owns(id, j.Final()) && j.Final()[3] == j.final; }
      ExecAgain(StepJob(d, j, CHUNK).0, StepJob(d, j, CHUNK).1, id, limit - 1);
    }
  }

  /** A sync whose fetch succeeds either hits or runs the same job, whatever the volume. */
  lemma PlanOfGoodInput(w: World, useCache: bool, o: Outcome, id: Id, input: MavenInput)
    requires ValidWorld(w) && CacheInv(w, o.disk, id) && FetchSucceeds(w, input) && id.kind.Maven?
    ensures var plan := MavenPlan(w, useCache, o.disk, o.status, o.conds, id, input);
            && plan.Flying? && plan.flight.hex == input.checksum.data
            && var det := input.details.value;
            var cache := ReadRecord(o.disk, RecordPathOf(id, det.fileName));
            var hit := useCache && IsHit(cache, o.status, input.checksum.data, det.url);
            if hit then
              plan.flight.hit && plan.flight.job.pc.AtStatus? &&
              DirOf(id) + [TarName(input.checksum.data)] in o.disk.names
            else !plan.flight.hit && plan.flight.job == FreshJob(w, id, input) && FlightInv(w, o.disk, id, plan.flight)
  {
    NoPanic(w, o.disk, id, input.details.value.fileName);
    FetchOfGoodInput(w, o.disk, o.status, o.conds, id, input);
  }

  /** Reading a record of a valid cache never panics, and what it names is there. */
  lemma NoPanic(w: World, d: Disk, id: Id, fileName: string)
    requires ValidWorld(w) && CacheInv(w, d, id)
    ensures var read := ReadRecord(d, RecordPathOf(id, fileName));
            !read.Panics? && (read.Cached? ==> DirOf(id) + [TarName(read.checksum)] in d.names)
  {
    var p := RecordPathOf(id, fileName);
    if p in d.names {
      assert p[3] == RecordName(fileName) && Owns(id, p);
      assert RecordName(fileName)[|fileName|..] == ".sha1";
      assert BackedRecord(w, d, id, d.Content(p).value);
      var source, data :| RecordOf(w, source, data, d.Content(p).value);
      Sha1HasNoBar(w, data);
      RecordRoundTrip(source, w.sha1(data));
      HitIsBacked(w, d, id, fileName);
    }
  }

  lemma FetchOfGoodInput(w: World, d: Disk, status: Status, conds: Conditions, id: Id, input: MavenInput)
    requires FetchSucceeds(w, input) && id.kind.Maven?
    ensures var plan := FetchPlan(w, status, conds, id, input, input.checksum.data);
            && plan.Flying? && plan.flight.hex == input.checksum.data
            && !plan.flight.hit && plan.flight.job == FreshJob(w, id, input) && FlightInv(w, d, id, plan.flight)
            && plan.flight.okStatus ==
               NewStatus(w, status, id, input, input.details.value.fileName, input.checksum.data, plan.flight.job.tar)
            && plan.flight.okConds == conds.(available := True)
  {
    FetchFlight(w, d, id, status, conds, input, input.checksum.data);
  }

  function FreshJob(w: World, id: Id, input: MavenInput): Job
    requires input.Valid() && input.details.Some? && input.artifact.Body? && input.checksum.Body?
    requires Pack(w, input.tmp, input.details.value.fileName, input.artifact.data, input.clock, input.faults).Packed?
  {
    var det := input.details.value;
    Job(DirOf(id), TarName(w.sha1(input.artifact.data)),
        Pack(w, input.tmp, det.fileName, input.artifact.data, input.clock, input.faults).tar,
        Some(Record(det.fileName, PrintRecord(det.url, input.checksum.data))), input.createFails, AtMkdir)
  }

  lemma AfterKeepsCacheInv(w: World, useCache: bool, id: Id, o: Outcome, e: Event)
    requires ValidWorld(w) && CacheInv(w, o.disk, id) && GoodEvent(w, e) && id.kind.Maven?
    ensures CacheInv(w, After(w, useCache, id, o, e).disk, id)
    decreases if e.LostEvent? then 1 else 0
  {
    match e
    case SyncEvent(input, limit) =>
      PlanOfGoodInput(w, useCache, o, id, input);
      var f := MavenPlan(w, useCache, o.disk, o.status, o.conds, id, input).flight;
      if !f.job.pc.AtStatus? {
        FlightFits(w, o.disk, id, f);
        ExecKeepsRecords(w, o.disk, id, f.job, limit);
      }
    case LostEvent(input, limit) => AfterKeepsCacheInv(w, useCache, id, o, SyncEvent(input, limit));
    case WipeEvent =>
    case RecreateEvent => FinalizedIsEmpty(w, o.disk, id);
  }

  lemma FinalizedIsEmpty(w: World, d: Disk, id: Id)
    requires d.Valid()
    ensures CacheInv(w, Finalized(d, id), id) && Published(Finalized(d, id), id) == {}
  {
  }

  /** One event on a cached and on an uncached history. */
  lemma Lockstep(w: World, id: Id, c: Outcome, u: Outcome, e: Event)
    requires ValidWorld(w) && id.kind.Maven? && GoodEvent(w, e)
    requires CacheInv(w, c.disk, id) && CacheInv(w, u.disk, id) && Published(c.disk, id) == Published(u.disk, id)
    ensures Published(After(w, true, id, c, e).disk, id) == Published(After(w, false, id, u, e).disk, id)
  {
    match e
    case SyncEvent(input, limit) => LockstepSync(w, id, c, u, input, limit);
    case LostEvent(input, limit) => LockstepSync(w, id, c, u, input, limit);
    case WipeEvent =>
    case RecreateEvent =>
      FinalizedIsEmpty(w, c.disk, id);
      FinalizedIsEmpty(w, u.disk, id);
  }

  lemma LockstepSync(w: World, id: Id, c: Outcome, u: Outcome, input: MavenInput, limit: nat)
    requires ValidWorld(w) && id.kind.Maven? && FetchSucceeds(w, input)
    requires CacheInv(w, c.disk, id) && CacheInv(w, u.disk, id) && Published(c.disk, id) == Published(u.disk, id)
    ensures Published(After(w, true, id, c, SyncEvent(input, limit)).disk, id) ==
            Published(After(w, false, id, u, SyncEvent(input, limit)).disk, id)
  {
    PlanOfGoodInput(w, true, c, id, input);
    PlanOfGoodInput(w, false, u, id, input);
    LockstepJob(w, id, c, u, MavenPlan(w, true, c.disk, c.status, c.conds, id, input).flight,
                MavenPlan(w, false, u.disk, u.status, u.conds, id, input).flight, limit);
  }

  /** Whether or not the cached sync hits, both publish the same. */
  lemma LockstepJob(w: World, id: Id, c: Outcome, u: Outcome, fc: Flight, fu: Flight, limit: nat)
    requires CacheInv(w, c.disk, id) && CacheInv(w, u.disk, id) && Published(c.disk, id) == Published(u.disk, id)
    requires FlightInv(w, u.disk, id, fu) && fc.hex == fu.hex && !fu.job.createFails
    requires if fc.hit then fc.job.pc.AtStatus? && DirOf(id) + [TarName(fc.hex)] in c.disk.names
             else fc.job == fu.job && FlightInv(w, c.disk, id, fc)
    ensures Published(Complete(Flying(fc), c.disk, c.status, limit).disk, id) ==
            Published(Complete(Flying(fu), u.disk, u.status, limit).disk, id)
  {
    if fc.hit {
      var p := DirOf(id) + [TarName(fc.hex)];
      NamesNeverCollide(fc.hex, "", "");
      assert p[3] == TarName(fc.hex) && Owns(id, p) && p in Published(c.disk, id);
      assert p == fu.job.Final();
      ExecAgain(u.disk, fu.job, id, limit);
    } else {
      ExecParallel(c.disk, u.disk, fc.job, id, limit);
    }
  }

  /** In a history in which every fetch and unpack succeeds, with I/O errors, crashes, lost status updates,
      wipes and re-creations anywhere, the published tarballs are those of a controller without the skip
      test. */
  lemma {:induction false} CacheIsTransparent(w: World, id: Id, c: Outcome, u: Outcome, events: seq<Event>)
    requires ValidWorld(w) && id.kind.Maven? && forall i :: 0 <= i < |events| ==> GoodEvent(w, events[i])
    requires CacheInv(w, c.disk, id) && CacheInv(w, u.disk, id) && Published(c.disk, id) == Published(u.disk, id)
    ensures Published(History(w, true, id, c, events).disk, id) == Published(History(w, false, id, u, events).disk, id)
    decreases |events|
  {
    if events != [] {
      Lockstep(w, id, c, u, events[0]);
      AfterKeepsCacheInv(w, true, id, c, events[0]);
      AfterKeepsCacheInv(w, false, id, u, events[0]);
      CacheIsTransparent(w, id, After(w, true, id, c, events[0]), After(w, false, id, u, events[0]), events[1..]);
    }
  }

  // ----- what a hit leaves as it was -----

  /** A sync that succeeds without error names the resolved tarball in the status exactly when it was
      no hit or the status named it already; and a hit leaves the conditions as they were. */
  lemma StatusAfterSync(w: World, o: Outcome, id: Id, input: MavenInput, limit: nat)
    requires ValidWorld(w) && CacheInv(w, o.disk, id) && FetchSucceeds(w, input) && id.kind.Maven?
    requires !After(w, true, id, o, SyncEvent(input, limit)).err
    ensures var o' := After(w, true, id, o, SyncEvent(input, limit));
            var url := HttpUrl(input.host, id, TarName(input.checksum.data));
            var det := input.details.value;
            var cache := ReadRecord(o.disk, RecordPathOf(id, det.fileName));
            var hit := IsHit(cache, o.status, input.checksum.data, det.url);
            && (o'.status.url == url <==> !hit || o.status.url == url)
            && (o'.conds.available == True <==> !hit || o.conds.available == True)
  {
    PlanOfGoodInput(w, true, o, id, input);
  }

  // ----- a job that meets no error runs to its end -----

  function OpsLeft(j: Job): nat {
    match j.pc
    case AtMkdir => |j.tar| + 4
    case AtCreate => |j.tar| + 3
    case AtCopy(k) => if k < |j.tar| then |j.tar| - k + 2 else 3
    case AtRename => 2
    case AtRecord => 1
    case _ => 0
  }

  /** A step of an unfinished job brings it closer to its end. */
  lemma OpsDecrease(d: Disk, j: Job)
    requires JobInv(d, j) && j.record.Some? && !j.Done()
    ensures !StepJob(d, j, CHUNK).1.pc.Failed? && OpsLeft(StepJob(d, j, CHUNK).1) < OpsLeft(j)
  {
  }

  lemma SameExceptTransitive(d: Disk, d1: Disk, d2: Disk, s1: set<Path>, s: set<Path>)
    requires SameExcept(d, d1, s1) && SameExcept(d1, d2, s) && s1 <= s
    ensures SameExcept(d, d2, s)
  {
  }

  lemma {:induction false} ExecEnds(d: Disk, j: Job, limit: nat)
    requires d.Valid() && JobInv(d, j) && j.record.Some? && limit >= OpsLeft(j) && !j.pc.Failed?
    ensures var (d', j') := Exec(d, j, limit);
            && j'.pc.AtStatus?
            && SameExcept(d, d', {j.Final(), j.Placeholder(), j.RecordPath()})
            && (!j.pc.AtStatus? ==> d'.Content(j.RecordPath()) == Some(j.record.value.text))
    decreases limit
  {
    if !j.Done() {
      var (d1, j1) := StepJob(d, j, CHUNK);
      JobStep(d, j, CHUNK);
      OpsDecrease(d, j);
      ExecEnds(d1, j1, limit - 1);
      SameExceptTransitive(d, d1, Exec(d1, j1, limit - 1).0, Touched(j), {j.Final(), j.Placeholder(), j.RecordPath()});
    }
  }

  /** From an empty volume, after versions A, B and A again, all synced without error, the status still
      names B and not A, whatever the hosts. */
  lemma StatusStaysBehind(w: World, id: Id, o: Outcome, a: MavenInput, b: MavenInput, limit: nat)
    requires ValidWorld(w) && id.kind.Maven? && o.disk == EMPTY && o.status.artifact.None?
    requires FetchSucceeds(w, a) && FetchSucceeds(w, b) && a.details.value.fileName != b.details.value.fileName
    requires ValidId(id) && a.checksum.data != b.checksum.data
    requires limit >= OpsLeft(FreshJob(w, id, a)) && limit >= OpsLeft(FreshJob(w, id, b))
    ensures var h := History(w, true, id, o, [SyncEvent(a, limit), SyncEvent(b, limit), SyncEvent(a, limit)]);
            && !h.err && h.status.url == HttpUrl(b.host, id, TarName(b.checksum.data))
            && h.status.url != HttpUrl(a.host, id, TarName(a.checksum.data))
  {
    Sha1NamesDiffer(w, a.artifact.data, b.artifact.data);
    UrlsOfFilesDiffer(id, a.host, TarName(a.checksum.data), b.host, TarName(b.checksum.data));
    var o1 := After(w, true, id, o, SyncEvent(a, limit));
    EmptyCacheInv(w, id);
    FirstSync(w, id, o, a, b.details.value.fileName, limit);
    AfterKeepsCacheInv(w, true, id, o, SyncEvent(a, limit));
    SecondSync(w, id, o1, a, b, limit);
    ThreeEvents(w, id, o, SyncEvent(a, limit), SyncEvent(b, limit), SyncEvent(a, limit));
  }

  lemma EmptyCacheInv(w: World, id: Id)
    ensures CacheInv(w, EMPTY, id)
  {
  }

  /** A sync of another version, and then a hit of the first. */
  lemma SecondSync(w: World, id: Id, o1: Outcome, a: MavenInput, b: MavenInput, limit: nat)
    requires ValidWorld(w) && id.kind.Maven? && CacheInv(w, o1.disk, id)
    requires FetchSucceeds(w, a) && FetchSucceeds(w, b) && a.details.value.fileName != b.details.value.fileName
    requires limit >= OpsLeft(FreshJob(w, id, b))
    requires RecordReads(w, id, o1.disk, a) && ReadRecord(o1.disk, RecordPathOf(id, b.details.value.fileName)).Missing?
    ensures var o3 := After(w, true, id, After(w, true, id, o1, SyncEvent(b, limit)), SyncEvent(a, limit));
            !o3.err && o3.status.url == HttpUrl(b.host, id, TarName(b.checksum.data))
  {
    SyncOnce(w, id, o1, b, limit);
    HitAgain(w, id, After(w, true, id, o1, SyncEvent(b, limit)), a, limit);
  }

  /** A first sync leaves its own record and no other. */
  lemma FirstSync(w: World, id: Id, o: Outcome, a: MavenInput, other: string, limit: nat)
    requires ValidWorld(w) && id.kind.Maven? && o.disk == EMPTY && CacheInv(w, o.disk, id)
    requires FetchSucceeds(w, a) && a.details.value.fileName != other && limit >= OpsLeft(FreshJob(w, id, a))
    ensures var o1 := After(w, true, id, o, SyncEvent(a, limit));
            RecordReads(w, id, o1.disk, a) && ReadRecord(o1.disk, RecordPathOf(id, other)).Missing?
  {
    SyncOnce(w, id, o, a, limit);
  }

  lemma ThreeEvents(w: World, id: Id, o: Outcome, e1: Event, e2: Event, e3: Event)
    ensures History(w, true, id, o, [e1, e2, e3]) ==
            After(w, true, id, After(w, true, id, After(w, true, id, o, e1), e2), e3)
  {
    assert [e1, e2, e3][1..] == [e2, e3] && [e2, e3][1..] == [e3] && [e3][1..] == [];
    var o1 := After(w, true, id, o, e1);
    var o2 := After(w, true, id, o1, e2);
    var o3 := After(w, true, id, o2, e3);
    assert History(w, true, id, o3, []) == o3;
    assert History(w, true, id, o2, [e3]) == o3;
    assert History(w, true, id, o1, [e2, e3]) == o3;
  }

  /** The record of the input is on the volume. */
  ghost predicate RecordReads(w: World, id: Id, d: Disk, input: MavenInput)
    requires input.details.Some? && input.checksum.Body?
  {
    d.Content(RecordPathOf(id, input.details.value.fileName)) ==
    Some(PrintRecord(input.details.value.url, input.checksum.data))
  }

  /** A complete sync that is no hit leaves its record, other records as they were, and its status. */
  lemma SyncOnce(w: World, id: Id, o: Outcome, input: MavenInput, limit: nat)
    requires ValidWorld(w) && id.kind.Maven? && CacheInv(w, o.disk, id) && FetchSucceeds(w, input)
    requires limit >= OpsLeft(FreshJob(w, id, input))
    requires !IsHit(ReadRecord(o.disk, RecordPathOf(id, input.details.value.fileName)), o.status,
                    input.checksum.data, input.details.value.url)
    ensures var o' := After(w, true, id, o, SyncEvent(input, limit));
            && !o'.err && o'.status.artifact.Some? && RecordReads(w, id, o'.disk, input)
            && o'.status.url == HttpUrl(input.host, id, TarName(input.checksum.data))
            && (forall other: string :: other != input.details.value.fileName ==>
                  o'.disk.Content(RecordPathOf(id, other)) == o.disk.Content(RecordPathOf(id, other)))
  {
    var det := input.details.value;
    var f := FetchPlan(w, o.status, o.conds, id, input, input.checksum.data).flight;
    NoPanic(w, o.disk, id, det.fileName);
    FetchOfGoodInput(w, o.disk, o.status, o.conds, id, input);
    assert MavenPlan(w, true, o.disk, o.status, o.conds, id, input) == Flying(f);
    FreshJobEnds(o.disk, id, f.job, limit);
  }

  lemma FreshJobEnds(d: Disk, id: Id, j: Job, limit: nat)
    requires d.Valid() && JobInv(d, j) && j.record.Some? && j.pc.AtMkdir? && j.dir == DirOf(id) && limit >= OpsLeft(j)
    ensures var (d', j') := Exec(d, j, limit);
            && j'.pc.AtStatus? && d'.Content(RecordPathOf(id, j.record.value.name)) == Some(j.record.value.text)
            && (forall other: string :: other != j.record.value.name ==>
                  d'.Content(RecordPathOf(id, other)) == d.Content(RecordPathOf(id, other)))
  {
    ExecEnds(d, j, limit);
    forall other: string | other != j.record.value.name
      ensures Exec(d, j, limit).0.Content(RecordPathOf(id, other)) == d.Content(RecordPathOf(id, other))
    {
      OtherRecord(id, j, other);
    }
  }

  lemma OtherRecord(id: Id, j: Job, other: string)
    requires IsTarName(j.final) && j.dir == DirOf(id) && j.record.Some? && other != j.record.value.name
    ensures RecordPathOf(id, other) !in {j.Final(), j.Placeholder(), j.RecordPath()}
  {
    RecordNamesDiffer(other, j.record.value.name, id);
    NamesNeverCollide("", j.final, other);
    RecordNotTar(RecordName(other));
    var p := RecordPathOf(id, other);
    assert p[3] == RecordName(other) && j.Final()[3] == j.final && j.Placeholder()[3] == PlaceholderName(j.final);
  }

  lemma RecordNamesDiffer(a: string, b: string, id: Id)
    requires a != b
    ensures RecordPathOf(id, a) != RecordPathOf(id, b)
  {
    assert RecordPathOf(id, a)[3] == RecordName(a) && RecordPathOf(id, b)[3] == RecordName(b);
    assert RecordName(a)[..|RecordName(a)| - 5] == a && RecordName(b)[..|RecordName(b)| - 5] == b;
  }

  lemma HitAgain(w: World, id: Id, o: Outcome, input: MavenInput, limit: nat)
    requires ValidWorld(w) && FetchSucceeds(w, input) && RecordReads(w, id, o.disk, input) && o.status.artifact.Some?
    ensures var o' := After(w, true, id, o, SyncEvent(input, limit));
            o'.status == o.status && o'.disk == o.disk && o'.conds == o.conds && !o'.err
  {
    Sha1HasNoBar(w, input.artifact.data);
    RecordRoundTrip(input.details.value.url, input.checksum.data);
  }
}
