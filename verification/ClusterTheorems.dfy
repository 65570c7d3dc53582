/** Safety over all runs: complete tarballs, backed cache records, isolation of objects, steady
    content for open readers, and what Ready means. */
module ClusterTheorems {
  import opened Strings
  import opened Paths
  import opened Archive
  import opened ArchiveMeaning
  import opened Volume
  import opened ObjectStatus
  import opened Remote
  import opened Sync
  import opened Cluster
  import MavenSync
  import ImageSync

  // ----- every action keeps the invariant -----

  /** Only the object id has changed, and the volume only inside its directory. */
  lemma LocalChange(w: World, s: State, s': State, id: Id)
    requires Inv(w, s) && id in s.objs && id in s'.objs && s'.objs == s.objs[id := s'.objs[id]]
    requires s'.disk.Valid() && ObjInv(w, s'.disk, id, s'.objs[id])
    requires forall other :: other in s.objs && other != id ==> SameUnder(s.disk, s'.disk, DirOf(other))
    requires forall p :: p in s'.disk.names && p !in s.disk.names ==> Owns(id, p)
    ensures Inv(w, s')
  {
    forall other | other in s'.objs ensures ObjInv(w, s'.disk, other, s'.objs[other]) {
      if other != id {
        Frame(w, s.disk, s'.disk, other, s.objs[other]);
      }
    }
    forall p | p in s'.disk.names ensures exists o :: o in s'.objs && Owns(o, p) {
      if p in s.disk.names {
        var o :| o in s.objs && Owns(o, p);
        assert o in s'.objs;
      } else {
        assert id in s'.objs;
      }
    }
  }

  lemma SameDisk(d: Disk)
    ensures forall dir :: SameUnder(d, d, dir)
  {
  }

  lemma StartKeepsInv(w: World, s: State, a: Action)
    requires ValidWorld(w) && Inv(w, s) && Admissible(w, s, a) && (a.StartMaven? || a.StartImage?)
    ensures Inv(w, Next(w, s, a))
  {
    var id, s' := a.id, Next(w, s, a);
    SameDisk(s.disk);
    if s' != s {
      StartFlight(w, s, a);
      LocalChange(w, s, s', id);
    }
  }

  lemma StartFlight(w: World, s: State, a: Action)
    requires ValidWorld(w) && Inv(w, s) && Admissible(w, s, a) && (a.StartMaven? || a.StartImage?)
    requires Next(w, s, a) != s
    ensures a.id in s.objs && s.objs[a.id].flight.None?
    ensures var s' := Next(w, s, a);
            s'.disk == s.disk && s'.objs == s.objs[a.id := s'.objs[a.id]] && ObjInv(w, s.disk, a.id, s'.objs[a.id])
  {
    var id, o := a.id, s.objs[a.id];
    assert ObjInv(w, s.disk, id, o);
    if a.StartMaven? {
      var o1 := o.(conds := o.conds.(resolved := a.resolved));
      MavenFlight(w, s.disk, id, o1, a.maven);
    } else {
      ImageFlight(w, s.disk, id, o, a.image);
    }
  }

  /** The step of a running job, and what is known of the job. */
  lemma AdvanceStep(w: World, s: State, id: Id, n: nat)
    requires Inv(w, s) && Running(s, id)
    ensures var f := s.objs[id].flight.value; var (d', j') := StepJob(s.disk, f.job, n);
            && FlightInv(w, s.disk, id, f) && StepGuarantee(s.disk, f.job, d', j')
            && Next(w, s, Advance(id, n)) == State(d', s.objs[id := s.objs[id].(flight := Some(f.(job := j')))])
  {
    FlightOf(w, s, id);
    JobStep(s.disk, s.objs[id].flight.value.job, n);
    AdvanceUnfold(w, s, id, n);
  }

  lemma AdvanceUnfold(w: World, s: State, id: Id, n: nat)
    requires Running(s, id)
    ensures var f := s.objs[id].flight.value; var (d', j') := StepJob(s.disk, f.job, n);
            Next(w, s, Advance(id, n)) == State(d', s.objs[id := s.objs[id].(flight := Some(f.(job := j')))])
  {
  }

  lemma AdvanceIsLocal(w: World, s: State, id: Id, n: nat, other: Id)
    requires Inv(w, s) && Running(s, id) && other != id
    ensures SameUnder(s.disk, Next(w, s, Advance(id, n)).disk, DirOf(other))
  {
    AdvanceStep(w, s, id, n);
    JobStepElsewhere(s.disk, s.objs[id].flight.value.job, n, id, other);
  }

  lemma AdvanceKeepsInv(w: World, s: State, id: Id, n: nat)
    requires Inv(w, s) && Running(s, id)
    ensures Inv(w, Next(w, s, Advance(id, n)))
  {
    var s' := Next(w, s, Advance(id, n));
    AdvanceStep(w, s, id, n);
    OwnStep(w, s.disk, id, s.objs[id], n);
    forall other | other in s.objs && other != id ensures SameUnder(s.disk, s'.disk, DirOf(other)) {
      AdvanceIsLocal(w, s, id, n, other);
    }
    forall p | p in s'.disk.names && p !in s.disk.names ensures Owns(id, p) {
      JobPaths(s.objs[id].flight.value.job);
    }
    LocalChange(w, s, s', id);
  }

  lemma RestartKeepsInv(w: World, s: State, wiped: bool)
    requires Inv(w, s)
    ensures Inv(w, Next(w, s, Restart(wiped)))
  {
    var s' := Next(w, s, Restart(wiped));
    forall p | p in s'.disk.names ensures exists o :: o in s'.objs && Owns(o, p) {
      var o :| o in s.objs && Owns(o, p);
      assert o in s'.objs;
    }
    assert s'.disk.Valid();
    forall id | id in s'.objs ensures ObjInv(w, s'.disk, id, s'.objs[id]) {
      assert ObjInv(w, s.disk, id, s.objs[id]);
    }
  }

  lemma RemoveIsLocal(d: Disk, p: Path, id: Id, other: Id)
    requires d.Valid() && DirOf(id) <= p && id != other
    ensures SameUnder(d, d.Remove(p), DirOf(other))
  {
    RemoveStep(d, p);
    if DirOf(other) <= p { OwnerUnique(id, other, p); }
  }

  lemma RemoveFileKeepsInv(w: World, s: State, id: Id, p: Path)
    requires Inv(w, s) && Idle(s, id) && s.objs[id].deleting && DirOf(id) <= p
    ensures Inv(w, State(s.disk.Remove(p), s.objs))
  {
    var s' := State(s.disk.Remove(p), s.objs);
    RemoveStep(s.disk, p);
    assert s'.objs == s.objs[id := s.objs[id]];
    forall other | other in s.objs && other != id ensures SameUnder(s.disk, s'.disk, DirOf(other)) {
      RemoveIsLocal(s.disk, p, id, other);
    }
    assert ObjInv(w, s.disk, id, s.objs[id]);
    LocalChange(w, s, s', id);
  }

  lemma RemoveObjectKeepsInv(w: World, s: State, id: Id)
    requires Inv(w, s) && forall p :: p in s.disk.names ==> !(DirOf(id) <= p)
    ensures Inv(w, State(RemoveDir(s.disk, DirOf(id)), s.objs - {id}))
  {
    var s' := State(RemoveDir(s.disk, DirOf(id)), s.objs - {id});
    forall other | other in s'.objs ensures ObjInv(w, s'.disk, other, s'.objs[other]) {
      RemoveDirElsewhere(s.disk, id, other);
      Frame(w, s.disk, s'.disk, other, s.objs[other]);
    }
    forall p | p in s'.disk.names ensures exists o :: o in s'.objs && Owns(o, p) {
      var o :| o in s.objs && Owns(o, p);
      assert o in s'.objs;
    }
  }

  lemma RemoveDirElsewhere(d: Disk, id: Id, other: Id)
    requires id != other
    ensures SameUnder(d, RemoveDir(d, DirOf(id)), DirOf(other))
  {
    if DirOf(id) <= DirOf(other) { OwnerUnique(id, other, DirOf(other)); }
  }

  lemma AddKeepsInv(w: World, s: State, id: Id)
    requires Inv(w, s)
    ensures Inv(w, Next(w, s, Add(id)))
  {
    if id !in s.objs {
      var s' := Next(w, s, Add(id));
      forall p | p in s.disk.names ensures !Owns(id, p) {
        var o :| o in s.objs && Owns(o, p);
        if Owns(id, p) { OwnerUnique(id, o, p); }
      }
      assert ObjInv(w, s'.disk, id, NEW);
      forall p | p in s'.disk.names ensures exists o :: o in s'.objs && Owns(o, p) {
        var o :| o in s.objs && Owns(o, p);
        assert o in s'.objs;
      }
    }
  }

  /** The end of a sync and the mark of deletion leave the volume alone. */
  lemma BookkeepingKeepsInv(w: World, s: State, a: Action)
    requires Inv(w, s) && (a.Finish? || a.Abort? || a.Delete?)
    ensures Inv(w, Next(w, s, a))
  {
    if Next(w, s, a) != s {
      SameDisk(s.disk);
      assert ObjInv(w, s.disk, a.id, s.objs[a.id]);
      LocalChange(w, s, Next(w, s, a), a.id);
    }
  }

  lemma StepKeepsInv(w: World, s: State, id: Id, n: nat)
    requires Inv(w, s)
    ensures Inv(w, Next(w, s, Advance(id, n)))
  {
    if Running(s, id) { AdvanceKeepsInv(w, s, id, n); }
  }

  lemma RemovalKeepsInv(w: World, s: State, a: Action)
    requires Inv(w, s) && (a.RemoveFile? || a.RemoveObject?)
    ensures Inv(w, Next(w, s, a))
  {
    if Next(w, s, a) != s {
      if a.RemoveFile? {
        RemoveFileKeepsInv(w, s, a.id, a.p);
      } else {
        RemoveObjectKeepsInv(w, s, a.id);
      }
    }
  }

  lemma NextKeepsInv(w: World, s: State, a: Action)
    requires ValidWorld(w) && Inv(w, s) && Admissible(w, s, a)
    ensures Inv(w, Next(w, s, a))
  {
    match a
    case Add(id) => AddKeepsInv(w, s, id);
    case StartMaven(_, _, _) => StartKeepsInv(w, s, a);
    case StartImage(_, _) => StartKeepsInv(w, s, a);
    case Advance(id, n) => StepKeepsInv(w, s, id, n);
    case Restart(wiped) => RestartKeepsInv(w, s, wiped);
    case RemoveFile(_, _) => RemovalKeepsInv(w, s, a);
    case RemoveObject(_) => RemovalKeepsInv(w, s, a);
    case _ => BookkeepingKeepsInv(w, s, a);
  }

  lemma {:induction false} RunKeepsInv(w: World, s: State, actions: seq<Action>)
    requires ValidWorld(w) && Inv(w, s) && AdmissibleRun(w, s, actions)
    ensures Inv(w, Run(w, s, actions))
    decreases |actions|
  {
    if actions != [] {
      NextKeepsInv(w, s, actions[0]);
      RunKeepsInv(w, Next(w, s, actions[0]), actions[1..]);
    }
  }

  ghost predicate Reachable(w: World, s: State) {
    exists actions: seq<Action> :: AdmissibleRun(w, INIT, actions) && s == Run(w, INIT, actions)
  }

  lemma ReachableInv(w: World, s: State)
    requires ValidWorld(w) && Reachable(w, s)
    ensures Inv(w, s)
  {
    var actions: seq<Action> :| AdmissibleRun(w, INIT, actions) && s == Run(w, INIT, actions);
    RunKeepsInv(w, INIT, actions);
  }

  /** In every reachable state a status URL comes with an artifact of the same URL, so the skip test of
      an image sync never dereferences a missing artifact. */
  lemma StatusIsConsistent(w: World, s: State, id: Id)
    requires ValidWorld(w) && Reachable(w, s) && id in s.objs
    ensures s.objs[id].status.url != "" ==>
              s.objs[id].status.artifact.Some? && s.objs[id].status.artifact.value.url == s.objs[id].status.url
  {
    ReachableInv(w, s);
    assert ObjInv(w, s.disk, id, s.objs[id]);
  }

  // ----- the cache -----

  /** In every reachable state, each cache record of an object that is not being deleted parses, to a
      source and the SHA-1 of some bytes, and the complete tarball of that hash stands beside it. */
  lemma RecordsAreBacked(w: World, s: State, id: Id, fileName: string)
    requires ValidWorld(w) && Reachable(w, s)
    requires id in s.objs && id.kind.Maven? && !s.objs[id].deleting
    requires MavenSync.RecordPathOf(id, fileName) in s.disk.names
    ensures var read := MavenSync.ReadRecord(s.disk, MavenSync.RecordPathOf(id, fileName));
            && read.Cached?
            && (exists data :: read.checksum == w.sha1(data))
            && var tar := DirOf(id) + [TarName(read.checksum)];
               s.disk.Content(tar).Some? &&
               exists o: Origin :: w.sha1(o.data) == read.checksum &&
                                   PackedFrom(w, o, TarName(read.checksum), s.disk.Content(tar).value)
  {
    ReachableInv(w, s);
    var p := MavenSync.RecordPathOf(id, fileName);
    assert Owns(id, p) && p[3] == RecordName(fileName);
    assert RecordName(fileName)[|fileName|..] == ".sha1";
    assert BackedRecord(w, s.disk, id, s.disk.Content(p).value);
    var source, data :|
      RecordOf(w, source, data, s.disk.Content(p).value) && DirOf(id) + [TarName(w.sha1(data))] in s.disk.names;
    Sha1HasNoBar(w, data);
    MavenSync.RecordRoundTrip(source, w.sha1(data));
    HitIsBacked(w, s.disk, id, fileName);
    var c := w.sha1(data);
    var tar := DirOf(id) + [TarName(c)];
    NamesNeverCollide(c, "", "");
    assert Owns(id, tar) && tar[3] == TarName(c);
    var o :| PackedFrom(w, o, TarName(c), s.disk.Content(tar).value);
    TarNameInjective(w.sha1(o.data), c);
  }

  lemma TarNameInjective(a: string, b: string)
    requires TarName(a) == TarName(b)
    ensures a == b
  {
    assert a == TarName(a)[..|TarName(a)| - 7] && b == TarName(b)[..|TarName(b)| - 7];
  }

  // ----- atomic publication -----

  lemma PublishedIsComplete(w: World, s: State, p: Path)
    requires Inv(w, s) && |p| == 4 && IsTarName(p[3]) && p in s.disk.names
    ensures s.disk.Content(p).Some?
    ensures exists id :: id in s.objs && Owns(id, p) && CompleteTarball(w, id.kind, p[3], s.disk.Content(p).value)
  {
    var id :| id in s.objs && Owns(id, p);
    assert ObjInv(w, s.disk, id, s.objs[id]);
  }

  lemma AdvancePublishes(w: World, s: State, id: Id, n: nat, p: Path)
    requires Inv(w, s) && Running(s, id) && |p| == 4 && IsTarName(p[3])
    ensures var before, after := s.disk.Content(p), Next(w, s, Advance(id, n)).disk.Content(p);
            || after == before
            || (Owns(id, p) && after == Some(s.objs[id].flight.value.job.tar) &&
                CompleteTarball(w, id.kind, p[3], after.value))
  {
    AdvanceStep(w, s, id, n);
    var j := s.objs[id].flight.value.job;
    if p in Touched(j) {
      TouchedName(j, p);
    }
  }

  /** Nothing but a step of a running sync puts bytes under a name, and nothing but finalization and a
      wipe removes one. */
  lemma OnlyAdvanceWrites(w: World, s: State, a: Action, p: Path)
    requires !a.Advance? || !Running(s, a.id)
    ensures var before, after := s.disk.Content(p), Next(w, s, a).disk.Content(p);
            after == before || (after == None && Removes(a, p))
  {
  }

  predicate Removes(a: Action, p: Path) {
    a == Restart(true) || (a.RemoveFile? && a.p == p && DirOf(a.id) <= p)
  }

  /** Whatever the action, the content under a published name is a complete tarball. It stays, or a step of
      its object's sync replaces it by another complete tarball, or it disappears by finalization or by a
      wipe. */
  lemma PublicationIsAtomic(w: World, s: State, a: Action, p: Path)
    requires ValidWorld(w) && Reachable(w, s) && Admissible(w, s, a) && |p| == 4 && IsTarName(p[3])
    ensures p in s.disk.names ==> s.disk.Content(p).Some?
    ensures p in s.disk.names ==>
              exists id :: id in s.objs && Owns(id, p) && CompleteTarball(w, id.kind, p[3], s.disk.Content(p).value)
    ensures var before, after := s.disk.Content(p), Next(w, s, a).disk.Content(p);
            || after == before
            || (after == None && Removes(a, p))
            || (a.Advance? && Running(s, a.id) && Owns(a.id, p) &&
                after == Some(s.objs[a.id].flight.value.job.tar) && CompleteTarball(w, a.id.kind, p[3], after.value))
  {
    ReachableInv(w, s);
    if p in s.disk.names {
      PublishedIsComplete(w, s, p);
    }
    if a.Advance? && Running(s, a.id) {
      AdvancePublishes(w, s, a.id, a.n, p);
    } else {
      OnlyAdvanceWrites(w, s, a, p);
    }
  }

  // ----- readers -----

  lemma QuietKeepsSealed(w: World, s: State, a: Action, i: nat)
    requires Sealed(s.disk, i) && !a.Advance?
    ensures InodeKept(s.disk, Next(w, s, a).disk, i)
  {
  }

  lemma NextKeepsSealed(w: World, s: State, a: Action, i: nat)
    requires ValidWorld(w) && Inv(w, s) && Sealed(s.disk, i)
    ensures InodeKept(s.disk, Next(w, s, a).disk, i)
  {
    if !a.Advance? {
      QuietKeepsSealed(w, s, a, i);
    } else if Running(s, a.id) {
      AdvanceStep(w, s, a.id, a.n);
      SealedKept(s.disk, s.objs[a.id].flight.value.job, a.n, i);
    }
  }

  lemma {:induction false} RunKeepsSealed(w: World, s: State, actions: seq<Action>, i: nat)
    requires ValidWorld(w) && Inv(w, s) && Sealed(s.disk, i) && AdmissibleRun(w, s, actions)
    ensures InodeKept(s.disk, Run(w, s, actions).disk, i)
    decreases |actions|
  {
    if actions != [] {
      NextKeepsSealed(w, s, actions[0], i);
      NextKeepsInv(w, s, actions[0]);
      RunKeepsSealed(w, Next(w, s, actions[0]), actions[1..], i);
    }
  }

  /** A reader that has opened a published tarball reads the same complete bytes to the end, whatever
      happens to the name or to the volume meanwhile. */
  lemma ReadersSeeWholeFiles(w: World, s: State, p: Path, actions: seq<Action>)
    requires ValidWorld(w) && Reachable(w, s) && |p| == 4 && IsTarName(p[3]) && p in s.disk.names
    requires AdmissibleRun(w, s, actions)
    ensures var i := s.disk.names[p]; var later := Run(w, s, actions).disk;
            && i in s.disk.inodes && i in later.inodes && later.inodes[i] == s.disk.inodes[i]
            && exists id :: id in s.objs && Owns(id, p) && CompleteTarball(w, id.kind, p[3], later.inodes[i])
  {
    ReachableInv(w, s);
    PublishedIsSealed(s.disk, p);
    RunKeepsSealed(w, s, actions, s.disk.names[p]);
    PublishedIsComplete(w, s, p);
  }

  // ----- isolation -----

  /** The object that an action is about; a restart is about the whole volume. */
  function Actor(a: Action): Option<Id> {
    if a.Restart? then None else Some(a.id)
  }

  ghost predicate Untouched(s: State, s': State, id: Id) {
    && SameUnder(s.disk, s'.disk, DirOf(id))
    && (id in s.objs <==> id in s'.objs) && (id in s.objs ==> s.objs[id] == s'.objs[id])
  }

  lemma NextIsLocal(w: World, s: State, a: Action, other: Id)
    requires ValidWorld(w) && Inv(w, s) && Actor(a).Some? && Actor(a).value != other
    ensures Untouched(s, Next(w, s, a), other)
  {
    NextKeepsOther(w, s, a, other);
    if a.Advance? && Running(s, a.id) {
      AdvanceIsLocal(w, s, a.id, a.n, other);
    } else {
      QuietIsLocal(w, s, a, other);
    }
  }

  lemma NextKeepsOther(w: World, s: State, a: Action, other: Id)
    requires Actor(a).Some? && Actor(a).value != other
    ensures var s' := Next(w, s, a);
            (other in s.objs <==> other in s'.objs) && (other in s.objs ==> s.objs[other] == s'.objs[other])
  {
  }

  lemma QuietIsLocal(w: World, s: State, a: Action, other: Id)
    requires s.disk.Valid() && Actor(a).Some? && Actor(a).value != other && !(a.Advance? && Running(s, a.id))
    ensures SameUnder(s.disk, Next(w, s, a).disk, DirOf(other))
  {
    SameDisk(s.disk);
    if a.RemoveFile? && DirOf(a.id) <= a.p {
      RemoveIsLocal(s.disk, a.p, a.id, other);
    } else if a.RemoveObject? {
      RemoveDirElsewhere(s.disk, a.id, other);
    }
  }

  /** Any interleaving of syncs, aborts, deletions and finalizations of other objects leaves an object's
      files, cache and status as they were. */
  lemma {:induction false} ObjectsAreIsolated(w: World, s: State, actions: seq<Action>, id: Id)
    requires ValidWorld(w) && Inv(w, s) && AdmissibleRun(w, s, actions)
    requires forall k :: 0 <= k < |actions| ==> Actor(actions[k]).Some? && Actor(actions[k]).value != id
    ensures Untouched(s, Run(w, s, actions), id)
    decreases |actions|
  {
    if actions != [] {
      var s1 := Next(w, s, actions[0]);
      NextIsLocal(w, s, actions[0], id);
      NextKeepsInv(w, s, actions[0]);
      ObjectsAreIsolated(w, s1, actions[1..], id);
      UntouchedTransitive(s, s1, Run(w, s1, actions[1..]), id);
    } else {
      SameDisk(s.disk);
    }
  }

  /** The last step of finalization: the object and its directory are gone, the others are not touched. */
  lemma RemoveObjectStep(w: World, s: State, id: Id)
    requires ValidWorld(w) && Inv(w, s) && Idle(s, id) && s.objs[id].deleting
    requires forall p :: p in s.disk.names ==> !(DirOf(id) <= p)
    ensures var s' := Next(w, s, RemoveObject(id));
            id !in s'.objs && forall p :: DirOf(id) <= p ==> p !in s'.disk.names && p !in s'.disk.dirs
  {
  }

  function Removals(id: Id, files: seq<Path>): seq<Action> {
    if files == [] then [RemoveObject(id)] else [RemoveFile(id, files[0])] + Removals(id, files[1..])
  }

  /** Removing an object's files in any order and then its directory, os.RemoveAll in small steps, leaves
      nothing of the object and everything of the others. */
  lemma {:induction false} FinalizationRemovesOwnSubtree(w: World, s: State, id: Id, files: seq<Path>, other: Id)
    requires ValidWorld(w) && Inv(w, s) && Idle(s, id) && s.objs[id].deleting
    requires forall p :: p in files ==> DirOf(id) <= p
    requires forall p :: p in s.disk.names && DirOf(id) <= p ==> p in files
    ensures var s' := Run(w, s, Removals(id, files));
            && id !in s'.objs && (forall p :: DirOf(id) <= p ==> p !in s'.disk.names && p !in s'.disk.dirs)
            && (other != id ==> Untouched(s, s', other))
    decreases |files|
  {
    if files == [] {
      LastRemoval(w, s, id, other);
    } else {
      assert files[0] in files && forall p :: p in files[1..] ==> p in files;
      var s1 := RemoveFileStep(w, s, id, files, other);
      FinalizationRemovesOwnSubtree(w, s1, id, files[1..], other);
      if other != id { UntouchedTransitive(s, s1, Run(w, s1, Removals(id, files[1..])), other); }
    }
  }

  lemma LastRemoval(w: World, s: State, id: Id, other: Id)
    requires ValidWorld(w) && Inv(w, s) && Idle(s, id) && s.objs[id].deleting
    requires forall p :: p in s.disk.names ==> !(DirOf(id) <= p)
    ensures var s' := Run(w, s, Removals(id, []));
            && id !in s'.objs && (forall p :: DirOf(id) <= p ==> p !in s'.disk.names && p !in s'.disk.dirs)
            && (other != id ==> Untouched(s, s', other))
  {
    RemoveObjectStep(w, s, id);
    if other != id { NextIsLocal(w, s, RemoveObject(id), other); }
    SingleAction(w, s, RemoveObject(id));
  }

  lemma UntouchedTransitive(s: State, s1: State, s2: State, id: Id)
    requires Untouched(s, s1, id) && Untouched(s1, s2, id)
    ensures Untouched(s, s2, id)
  {
  }

  lemma SingleAction(w: World, s: State, a: Action)
    ensures Run(w, s, [a]) == Next(w, s, a)
  {
    assert [a][1..] == [];
  }

  lemma RemoveFileStep(w: World, s: State, id: Id, files: seq<Path>, other: Id) returns (s1: State)
    requires ValidWorld(w) && Inv(w, s) && Idle(s, id) && s.objs[id].deleting
    requires files != [] && DirOf(id) <= files[0]
    requires forall p :: p in s.disk.names && DirOf(id) <= p ==> p in files
    ensures Inv(w, s1) && Idle(s1, id) && s1.objs[id].deleting
    ensures forall p :: p in s1.disk.names && DirOf(id) <= p ==> p in files[1..]
    ensures Run(w, s, Removals(id, files)) == Run(w, s1, Removals(id, files[1..]))
    ensures other != id ==> Untouched(s, s1, other)
  {
    var a := RemoveFile(id, files[0]);
    s1 := Next(w, s, a);
    assert s1 == State(s.disk.Remove(files[0]), s.objs);
    NextKeepsInv(w, s, a);
    if other != id { NextIsLocal(w, s, a, other); }
    assert Removals(id, files)[1..] == Removals(id, files[1..]) && Removals(id, files)[0] == a;
  }

  // ----- what Ready means -----

  /** The action ends a reconcile of the image repository and persists its conditions. */
  ghost predicate EndsReconcile(w: World, s: State, a: Action, id: Id) {
    && id in s.objs
    && match a
       case Finish(i) => i == id && s.objs[id].flight.Some? && s.objs[id].flight.value.job.Done()
       case Abort(i, reported) => i == id && s.objs[id].flight.Some? && reported
       case StartImage(i, input) =>
         && i == id && s.objs[id].flight.None? && !s.objs[id].deleting && input.Valid()
         && Next(w, s, a).objs[id].flight.None?
       case _ => false
  }

  /** No image reconcile ends Ready except by finishing a sync that has reached its status update. */
  lemma OnlyFinishIsReady(w: World, s: State, a: Action, id: Id)
    requires ValidWorld(w) && Inv(w, s) && Admissible(w, s, a) && id.kind.Image? && EndsReconcile(w, s, a, id)
    requires Next(w, s, a).objs[id].conds.Ready()
    ensures a == Finish(id) && Running(s, id) && s.objs[id].flight.value.job.pc.AtStatus?
  {
    assert ObjInv(w, s.disk, id, s.objs[id]);
    if a.StartImage? {
      ImageFlight(w, s.disk, id, s.objs[id], a.image);
    } else {
      assert FlightInv(w, s.disk, id, s.objs[id].flight.value);
    }
  }

  /** All digests that references parse to are of one algorithm. */
  ghost predicate OneAlgorithm(w: World, alg: string) {
    ':' !in alg && forall ref :: w.parseDigest(ref).Some? ==> alg + ":" <= w.parseDigest(ref).value
  }

  /** The bytes are a tarball of the content of an image that is served under the same name as that of the
      digest; if all digests are of one algorithm, of the image of that digest. */
  ghost predicate ServesImage(w: World, digest: string, content: Bytes) {
    exists other, es ::
      && content == w.gzip(es) && w.pulls(other, TarContents(es))
      && (exists file :: ImageSync.NamedAfter(file, other) && ImageSync.NamedAfter(file, digest))
      && (forall alg :: OneAlgorithm(w, alg) ==> other == digest)
  }

  /** A sync that has reached its status update has its tarball on the volume. */
  lemma FinishedImage(w: World, d: Disk, id: Id, f: Flight, ref: string)
    requires id.kind.Image? && TarballsComplete(w, d, id) && FlightInv(w, d, id, f) && f.job.pc.AtStatus?
    requires w.parseDigest(ref).Some? && ImageSync.NamedAfter(f.job.final, w.parseDigest(ref).value)
    ensures var p := DirOf(id) + [f.job.final];
            && d.Content(p).Some? && ServesImage(w, w.parseDigest(ref).value, d.Content(p).value)
            && (f.Installs() ==>
                  Describes(w, id, f) && f.okStatus.artifact.value.checksum == w.sha1(d.Content(p).value))
  {
    var p, digest := DirOf(id) + [f.job.final], w.parseDigest(ref).value;
    NamesNeverCollide(f.hex, "", "");
    assert p == f.job.Final() && Owns(id, p) && p[3] == f.job.final;
    var other, es :| PulledAs(w, other, es, p[3], d.Content(p).value);
    forall alg | OneAlgorithm(w, alg) ensures other == digest {
      SameImage(w, alg, other, digest, p[3]);
    }
  }

  lemma SameImage(w: World, alg: string, a: string, b: string, file: string)
    requires OneAlgorithm(w, alg) && ImageSync.NamedAfter(file, a) && ImageSync.NamedAfter(file, b)
    requires (exists ref :: w.parseDigest(ref) == Some(a)) && (exists ref :: w.parseDigest(ref) == Some(b))
    ensures a == b
  {
    var head := alg + ":";
    assert a == head + a[|head|..] && b == head + b[|head|..];
    ImageSync.DigestsKeepApart(alg, a[|head|..], b[|head|..], file);
  }

  // ----- from the start of an image reconcile to its end -----

  /** The action ends a running sync of the object. */
  predicate EndsSync(a: Action, id: Id) {
    a.Restart? || ((a.Finish? || a.Abort?) && a.id == id)
  }

  /** The sync is the same one; only its job may have moved on. */
  ghost predicate SameSync(s: State, s': State, id: Id) {
    && Running(s, id) && Running(s', id)
    && var f, f' := s.objs[id].flight.value, s'.objs[id].flight.value;
       f' == f.(job := f.job.(pc := f'.job.pc))
  }

  lemma StepKeepsJob(d: Disk, j: Job, n: nat)
    ensures var j' := StepJob(d, j, n).1; j' == j.(pc := j'.pc)
  {
  }

  lemma NextKeepsSync(w: World, s: State, a: Action, id: Id)
    requires Running(s, id) && !EndsSync(a, id)
    ensures SameSync(s, Next(w, s, a), id)
  {
    if a.Advance? && Running(s, a.id) {
      StepKeepsJob(s.disk, s.objs[a.id].flight.value.job, a.n);
    }
  }

  lemma {:induction false} RunKeepsSync(w: World, s: State, actions: seq<Action>, id: Id)
    requires Running(s, id) && forall k :: 0 <= k < |actions| ==> !EndsSync(actions[k], id)
    ensures SameSync(s, Run(w, s, actions), id)
    decreases |actions|
  {
    if actions != [] {
      NextKeepsSync(w, s, actions[0], id);
      RunKeepsSync(w, Next(w, s, actions[0]), actions[1..], id);
    }
  }

  /** The sync is for the digest that is resolved from the input, and its status to install names that at
      the input's host. */
  ghost predicate Carries(w: World, id: Id, f: Flight, input: ImageSync.ImageInput) {
    && ImageSync.ResolvedDigest(w, input).Some?
    && ImageSync.NamedAfter(f.job.final, ImageSync.ResolvedDigest(w, input).value)
    && f.okStatus.url == "http://" + input.host + "/imagerepository/" + id.ns + "/" + id.name + "/" + f.job.final
    && f.okStatus.artifact.Some? && f.okStatus.artifact.value.url == f.okStatus.url
  }

  /** From its start on and as long as it runs, an image sync carries the digest that its own reconcile
      has resolved, and a status to install whose URLs name that digest at that reconcile's host. */
  lemma FlightCarriesResolvedDigest(w: World, s: State, id: Id, input: ImageSync.ImageInput, actions: seq<Action>)
    requires Inv(w, s) && id.kind.Image? && Idle(s, id) && !s.objs[id].deleting && input.Valid()
    requires Running(Next(w, s, StartImage(id, input)), id)
    requires forall k :: 0 <= k < |actions| ==> !EndsSync(actions[k], id)
    ensures var s2 := Run(w, Next(w, s, StartImage(id, input)), actions);
            && Running(s2, id)
            && var f := s2.objs[id].flight.value;
               Carries(w, id, f, input)
  {
    assert ObjInv(w, s.disk, id, s.objs[id]);
    var s1 := Next(w, s, StartImage(id, input));
    ImageSync.ReadyPlan(w, s.disk, s.objs[id].status, id, input);
    StartCarries(w, s.disk, s.objs[id].status, id, input);
    RunKeepsSync(w, s1, actions, id);
  }

  lemma StartCarries(w: World, d: Disk, status: Status, id: Id, input: ImageSync.ImageInput)
    requires status.Consistent() && input.Valid() && id.kind.Image?
    ensures var plan := ImageSync.ImagePlan(w, d, status, id, input);
            plan.Flying? ==> Carries(w, id, plan.flight, input)
  {
    ImageSync.ReadyPlan(w, d, status, id, input);
    var plan := ImageSync.ImagePlan(w, d, status, id, input);
    if plan.Flying? {
      ImageSync.StashedRef(w, input);
      ImageSync.FlyingHasRef(w, d, status, id, input);
      ImageSync.ImageUrlWritten(input.host, id, plan.flight.job.final);
    }
  }

  /** End to end: an image reconcile starts, any actions follow that do not end it, of this and of other
      objects, and it finishes. If it ends Ready, the tarball of the digest that it resolved from its input
      is on the volume, and both URLs of the status name it at its host; if it installed a tarball, the
      status gives the checksum of the bytes served. A reconcile that ends at its start is not Ready. */
  lemma ReadyImageIsServed(w: World, s: State, id: Id, input: ImageSync.ImageInput, actions: seq<Action>)
    requires ValidWorld(w) && Reachable(w, s) && id.kind.Image? && Idle(s, id) && !s.objs[id].deleting
    requires input.Valid() && Admissible(w, s, StartImage(id, input))
    requires AdmissibleRun(w, Next(w, s, StartImage(id, input)), actions)
    requires forall k :: 0 <= k < |actions| ==> !EndsSync(actions[k], id)
    ensures var s1 := Next(w, s, StartImage(id, input));
            if !Running(s1, id) then id in s1.objs && !s1.objs[id].conds.Ready()
            else
              var s2 := Run(w, s1, actions);
              && Running(s2, id)
              && var s3 := Next(w, s2, Finish(id));
                 s2.objs[id].flight.value.job.Done() && s3.objs[id].conds.Ready() ==>
                   ReadyAndServed(w, s3, id, input, s2.objs[id].flight.value.Installs())
  {
    ReachableInv(w, s);
    var s1 := Next(w, s, StartImage(id, input));
    if !Running(s1, id) {
      EndedAtStart(w, s, id, input);
    } else {
      StartedAndRun(w, s, id, input, actions);
      var s2 := Run(w, s1, actions);
      if s2.objs[id].flight.value.job.Done() {
        ReadyFinish(w, s2, id, input, s2.objs[id].flight.value);
      }
    }
  }

  lemma EndedAtStart(w: World, s: State, id: Id, input: ImageSync.ImageInput)
    requires Inv(w, s) && id.kind.Image? && Idle(s, id) && !s.objs[id].deleting
    requires input.Valid() && InputAdmissible(w, StartImage(id, input))
    ensures var s1 := Next(w, s, StartImage(id, input));
            !Running(s1, id) ==> id in s1.objs && !s1.objs[id].conds.Ready()
  {
    assert ObjInv(w, s.disk, id, s.objs[id]);
    ImageFlight(w, s.disk, id, s.objs[id], input);
  }

  lemma StartedAndRun(w: World, s: State, id: Id, input: ImageSync.ImageInput, actions: seq<Action>)
    requires ValidWorld(w) && Inv(w, s) && id.kind.Image? && Idle(s, id) && !s.objs[id].deleting
    requires input.Valid() && Admissible(w, s, StartImage(id, input))
    requires Running(Next(w, s, StartImage(id, input)), id)
    requires AdmissibleRun(w, Next(w, s, StartImage(id, input)), actions)
    requires forall k :: 0 <= k < |actions| ==> !EndsSync(actions[k], id)
    ensures var s2 := Run(w, Next(w, s, StartImage(id, input)), actions);
            && Running(s2, id) && Inv(w, s2)
            && var f := s2.objs[id].flight.value;
               Carries(w, id, f, input)
  {
    FlightCarriesResolvedDigest(w, s, id, input, actions);
    NextKeepsInv(w, s, StartImage(id, input));
    RunKeepsInv(w, Next(w, s, StartImage(id, input)), actions);
  }

  /** The file named after the resolved digest is on the volume and holds its image, and both URLs of the
      status lead to it at the host of the input. */
  ghost predicate ReadyAndServed(w: World, s: State, id: Id, input: ImageSync.ImageInput, installed: bool) {
    && id in s.objs && ImageSync.ResolvedDigest(w, input).Some?
    && exists file: string ::
         ImageSync.NamedAfter(file, ImageSync.ResolvedDigest(w, input).value) &&
         ServedAs(w, s, id, input, installed, file)
  }

  ghost predicate ServedAs(
    w: World, s: State, id: Id, input: ImageSync.ImageInput, installed: bool, file: string)
    requires id in s.objs && ImageSync.ResolvedDigest(w, input).Some?
  {
    var status, content := s.objs[id].status, s.disk.Content(["imagerepository", id.ns, id.name, file]);
    && content.Some? && ServesImage(w, ImageSync.ResolvedDigest(w, input).value, content.value)
    && status.url == "http://" + input.host + "/imagerepository/" + id.ns + "/" + id.name + "/" + file
    && status.artifact.Some? && status.artifact.value.url == status.url
    && (installed ==> status.artifact.value.checksum == w.sha1(content.value))
  }

  lemma ReadyFinish(w: World, s: State, id: Id, input: ImageSync.ImageInput, f: Flight)
    requires ValidWorld(w) && Inv(w, s) && id.kind.Image? && Running(s, id) && s.objs[id].flight == Some(f)
    requires Carries(w, id, f, input) && f.job.Done()
    ensures var s' := Next(w, s, Finish(id));
            id in s'.objs && (s'.objs[id].conds.Ready() ==> ReadyAndServed(w, s', id, input, f.Installs()))
  {
    FlightOf(w, s, id);
    assert ObjInv(w, s.disk, id, s.objs[id]);
    if f.job.pc.AtStatus? {
      FinishStep(w, s, id);
      FinishedImage(w, s.disk, id, f, ImageSync.ResolvedRef(w, input).value);
      FinishedServes(w, Next(w, s, Finish(id)), id, input, f);
    }
  }

  lemma FinishedServes(w: World, s: State, id: Id, input: ImageSync.ImageInput, f: Flight)
    requires id.kind.Image? && id in s.objs && s.objs[id].status == f.okStatus && Carries(w, id, f, input)
    requires var content := s.disk.Content(DirOf(id) + [f.job.final]);
             && content.Some? && ServesImage(w, ImageSync.ResolvedDigest(w, input).value, content.value)
             && (f.Installs() ==> f.okStatus.artifact.value.checksum == w.sha1(content.value))
    ensures ReadyAndServed(w, s, id, input, f.Installs())
  {
    assert DirOf(id) + [f.job.final] == ["imagerepository", id.ns, id.name, f.job.final];
    assert ServedAs(w, s, id, input, f.Installs(), f.job.final);
  }

  /** A Maven sync that finishes without having been a hit leaves a complete tarball under its name, and a
      status that names it and gives its file name and the checksum of its own tarball, which is the one
      that stands there unless the placeholder could not be created. */
  lemma FinishedMavenIsServed(w: World, s: State, id: Id)
    requires ValidWorld(w) && Reachable(w, s) && id.kind.Maven? && Running(s, id)
    requires s.objs[id].flight.value.job.pc.AtStatus? && !s.objs[id].flight.value.hit
    ensures var s', f := Next(w, s, Finish(id)), s.objs[id].flight.value;
            id in s'.objs && s'.objs[id].status == f.okStatus && MavenServes(w, s'.disk, id, f)
  {
    ReachableInv(w, s);
    FlightOf(w, s, id);
    FinishStep(w, s, id);
    assert ObjInv(w, s.disk, id, s.objs[id]);
    FinishedMaven(w, s.disk, id, s.objs[id].flight.value);
  }

  lemma FlightOf(w: World, s: State, id: Id)
    requires Inv(w, s) && Running(s, id)
    ensures FlightInv(w, s.disk, id, s.objs[id].flight.value)
  {
    assert ObjInv(w, s.disk, id, s.objs[id]);
  }

  lemma FinishStep(w: World, s: State, id: Id)
    requires Running(s, id) && s.objs[id].flight.value.job.pc.AtStatus?
    ensures var s', f := Next(w, s, Finish(id)), s.objs[id].flight.value;
            s'.disk == s.disk && id in s'.objs && s'.objs[id].status == f.okStatus && s'.objs[id].conds == f.okConds
  {
  }

  ghost predicate MavenServes(w: World, d: Disk, id: Id, f: Flight) {
    && Describes(w, id, f)
    && var content := d.Content(DirOf(id) + [TarName(f.hex)]);
       && content.Some? && CompleteTarball(w, Maven, TarName(f.hex), content.value)
       && (f.Installs() ==> content.value == f.job.tar)
  }

  lemma FinishedMaven(w: World, d: Disk, id: Id, f: Flight)
    requires id.kind.Maven? && TarballsComplete(w, d, id) && FlightInv(w, d, id, f) && f.job.pc.AtStatus? && !f.hit
    ensures MavenServes(w, d, id, f)
  {
    var p := DirOf(id) + [TarName(f.hex)];
    NamesNeverCollide(f.hex, "", "");
    assert p == f.job.Final() && Owns(id, p) && p[3] == TarName(f.hex);
  }

  // ----- what is served means what was downloaded -----

  lemma PackMeaning(w: World, tmp: string, fileName: string, data: Bytes, clock: int)
    requires IsAbs(tmp) && ValidSegment(fileName) && Pack(w, tmp, fileName, data, clock, NO_FAULTS).Packed?
    ensures IsArchive(data) ==> w.unzip(data).Some?
    ensures exists es ::
              Pack(w, tmp, fileName, data, clock, NO_FAULTS) == Packed(w.gzip(es)) &&
              TarContents(es) == if IsArchive(data) then ZipContents(Destination(tmp), w.unzip(data).value, map[])
                                 else map[fileName := data]
  {
    var t := DownloadTree(tmp, fileName, data);
    if IsArchive(data) {
      var zip := w.unzip(data);
      ArchiveMeaningPreserved(t, tmp, zip.value, clock);
      var t1 := ArchiveExtracted(t, tmp, zip, clock).0;
      var es := TarEntries(t1, Destination(tmp));
      TarGzComplete(w, t1, Destination(tmp), NO_FAULTS);
      assert Pack(w, tmp, fileName, data, clock, NO_FAULTS) == Packed(w.gzip(es));
    } else {
      PlainPackContents(tmp, fileName, data);
      ArtifactDir(tmp);
      var es := TarEntries(t, JoinPath(tmp, "artifact"));
      TarGzComplete(w, t, JoinPath(tmp, "artifact"), NO_FAULTS);
      assert Pack(w, tmp, fileName, data, clock, NO_FAULTS) == Packed(w.gzip(es));
    }
  }

  ghost predicate Serves(w: World, c: string, content: Bytes, o: Origin, es: seq<TarEntry>) {
    && w.sha1(o.data) == c && content == w.gzip(es)
    && (IsArchive(o.data) ==> w.unzip(o.data).Some?)
    && TarContents(es) == if IsArchive(o.data) then ZipContents(Destination(o.tmp), w.unzip(o.data).value, map[])
                          else map[o.fileName := o.data]
  }

  /** In every reachable state, the tarball that a Maven artifact serves under the name of a hash holds
      exactly the files of a zip with that hash, or the one file with that hash. */
  lemma ServedTarballMeaning(w: World, s: State, id: Id, c: string)
    requires ValidWorld(w) && Reachable(w, s) && id in s.objs && id.kind.Maven?
    requires DirOf(id) + [TarName(c)] in s.disk.names
    ensures s.disk.Content(DirOf(id) + [TarName(c)]).Some?
    ensures exists o, es :: Serves(w, c, s.disk.Content(DirOf(id) + [TarName(c)]).value, o, es)
  {
    ReachableInv(w, s);
    var p := DirOf(id) + [TarName(c)];
    NamesNeverCollide(c, "", "");
    assert ObjInv(w, s.disk, id, s.objs[id]) && Owns(id, p) && p[3] == TarName(c);
    var content := s.disk.Content(p).value;
    var o :| PackedFrom(w, o, p[3], content);
    TarNameInjective(w.sha1(o.data), c);
    PackMeaning(w, o.tmp, o.fileName, o.data, o.clock);
    var es :| Pack(w, o.tmp, o.fileName, o.data, o.clock, NO_FAULTS) == Packed(w.gzip(es)) &&
              TarContents(es) == if IsArchive(o.data) then ZipContents(Destination(o.tmp), w.unzip(o.data).value, map[])
                                 else map[o.fileName := o.data];
    assert Serves(w, c, content, o, es);
  }

  // ----- the methods and the runs -----

  function Advances(id: Id, limit: nat): seq<Action> {
    if limit == 0 then [] else [Advance(id, CHUNK)] + Advances(id, limit - 1)
  }

  /** As many steps as there are operations that succeed. */
  lemma {:induction false} ExecIsARun(w: World, s: State, id: Id, limit: nat)
    requires Running(s, id)
    ensures var f := s.objs[id].flight.value; var (d, j) := Exec(s.disk, f.job, limit);
            var s' := Run(w, s, Advances(id, limit));
            && Running(s', id) && s'.disk == d
            && s'.objs[id] == s.objs[id].(flight := Some(f.(job := s'.objs[id].flight.value.job)))
            && (if s'.objs[id].flight.value.job.Done() then s'.objs[id].flight.value.job == j else j.pc.Failed?)
    decreases limit
  {
    if limit > 0 {
      var s1 := Next(w, s, Advance(id, CHUNK));
      assert Advances(id, limit)[1..] == Advances(id, limit - 1);
      assert Run(w, s, Advances(id, limit)) == Run(w, s1, Advances(id, limit - 1));
      ExecIsARun(w, s1, id, limit - 1);
      if s.objs[id].flight.value.job.Done() {
        ExecDone(s.disk, s.objs[id].flight.value.job, limit);
        ExecDone(s.disk, s.objs[id].flight.value.job, limit - 1);
      }
    }
  }

  lemma ExecDone(d: Disk, j: Job, limit: nat)
    requires j.Done()
    ensures Exec(d, j, limit) == (d, j)
  {
  }

  /** The outcome that the sync methods are proved to have is the one of an uninterrupted run of single
      operations, ended by Finish or, after an I/O error, by Abort. */
  lemma SyncIsARun(w: World, s: State, id: Id, limit: nat)
    requires Running(s, id)
    ensures var f := s.objs[id].flight.value;
            var s1 := Run(w, s, Advances(id, limit));
            && Running(s1, id)
            && var s' := Next(w, s1, if s1.objs[id].flight.value.job.Done() then Finish(id) else Abort(id, true));
               var o := Complete(Flying(f), s.disk, s.objs[id].status, limit);
               && o.disk == s'.disk && o.status == s'.objs[id].status && o.conds == s'.objs[id].conds
               && s'.objs[id].flight.None?
  {
    ExecIsARun(w, s, id, limit);
  }
}
