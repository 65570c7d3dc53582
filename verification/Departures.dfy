/** Where the code does not keep the invariant of the cache or of publication, and exactly when. A failed
    create is admitted in runs exactly under the condition found here. */
module Departures {
  import opened Strings
  import opened Paths
  import opened Volume
  import opened Remote
  import opened Sync
  import opened Cluster
  import MavenSync

  // ----- os.Create on the placeholder fails and is reported as success -----

  /** Unfolds the three operations that are left when the create has failed. */
  lemma ExecAfterFailedCreate(d: Disk, j: Job, limit: nat)
    requires j.createFails && j.pc.AtMkdir? && limit >= 3
    ensures Exec(d, j, limit) == Exec(d.MkdirAll(j.dir), j.AfterFailedCreate(), limit - 2)
  {
    assert Exec(d, j, limit) == Exec(d.MkdirAll(j.dir), j.(pc := AtCreate), limit - 1);
  }

  /** A Maven sync whose placeholder cannot be created still writes its record and reports success;
      the record is backed exactly when the tarball was published before. */
  lemma MavenCreateFailure(w: World, d: Disk, id: Id, j: Job, source: string, data: Bytes, limit: nat)
    requires ValidWorld(w) && d.Valid() && j.dir == DirOf(id) && j.final == TarName(w.sha1(data))
    requires j.record.Some? && RecordOf(w, source, data, j.record.value.text)
    requires j.createFails && j.pc.AtMkdir? && limit >= 3
    ensures var (d', j') := Exec(d, j, limit);
            && j'.pc.AtStatus? && d'.Content(j.RecordPath()) == Some(j.record.value.text)
            && (BackedRecord(w, d', id, j.record.value.text) <==> j.Final() in d.names)
            && (j.Final() in d.names <==> CreateSafe(d, j))
  {
    var d1, j1 := d.MkdirAll(j.dir), j.AfterFailedCreate();
    assert j.dir[..|j.dir|] == j.dir;
    ExecAfterFailedCreate(d, j, limit);
    WriteFileStep(d1, j.RecordPath(), j.record.value.text);
    var d2 := d1.WriteFile(j.RecordPath(), j.record.value.text);
    assert Exec(d1, j1, limit - 2) == Exec(d2, j1.(pc := AtStatus), limit - 3);
    NamesNeverCollide(w.sha1(data), j.final, j.record.value.name);
    JobPaths(j);
    assert j.Final() in d2.names <==> j.Final() in d.names;
    if BackedRecord(w, d2, id, j.record.value.text) {
      var s, b :| RecordOf(w, s, b, j.record.value.text) && DirOf(id) + [TarName(w.sha1(b))] in d2.names;
      SameRecordSameHash(w, source, data, s, b, j.record.value.text);
    }
  }

  lemma SameRecordSameHash(w: World, s: string, b: Bytes, s': string, b': Bytes, text: Bytes)
    requires ValidWorld(w) && RecordOf(w, s, b, text) && RecordOf(w, s', b', text)
    ensures s == s' && w.sha1(b) == w.sha1(b')
  {
    Sha1HasNoBar(w, b);
    Sha1HasNoBar(w, b');
    MavenSync.RecordRoundTrip(s, w.sha1(b));
    MavenSync.RecordRoundTrip(s', w.sha1(b'));
  }

  /** An image sync whose placeholder cannot be created publishes whatever an earlier, interrupted sync
      left there, and otherwise fails with nothing published: it is safe exactly when no placeholder
      is left over, or the one left over is complete or what is published anyway. */
  lemma ImageCreateFailure(d: Disk, j: Job, limit: nat)
    requires d.Valid() && IsTarName(j.final) && j.record.None? && j.createFails && j.pc.AtMkdir? && limit >= 3
    ensures var (d', j') := Exec(d, j, limit);
            && (j'.pc.AtStatus? <==> j.Placeholder() in d.names)
            && (d'.Content(j.Final()) ==
                if j.Placeholder() in d.names then d.Content(j.Placeholder()) else d.Content(j.Final()))
            && (d'.Content(j.Final()) in {d.Content(j.Final()), Some(j.tar)} <==>
                j.Placeholder() !in d.names || d.Content(j.Placeholder()) in {d.Content(j.Final()), Some(j.tar)})
            && (d'.Content(j.Final()) in {d.Content(j.Final()), Some(j.tar)} <==> CreateSafe(d, j))
  {
    var d1, j1 := d.MkdirAll(j.dir), j.AfterFailedCreate();
    ExecAfterFailedCreate(d, j, limit);
    JobPaths(j);
    if j.Placeholder() in d.names {
      RenameStep(d1, j.Placeholder(), j.Final());
      assert Exec(d1, j1, limit - 2) == Exec(d1.Rename(j.Placeholder(), j.Final()), j1.(pc := AtStatus), limit - 3);
    } else {
      assert Exec(d1, j1, limit - 2) == Exec(d1, j1.(pc := Failed), limit - 3);
    }
  }

  // ----- finalization breaks off half-way -----

  /** While an object is being deleted, removing one of its files keeps every remaining record backed
      exactly when the file is not the tarball that a remaining record names. */
  lemma FinalizationAndRecords(w: World, d: Disk, id: Id, p: Path)
    requires ValidWorld(w) && d.Valid() && RecordsBacked(w, d, id)
    ensures RecordsBacked(w, d.Remove(p), id) <==>
            forall q ::
              q in d.names && q != p && Owns(id, q) && IsRecordName(q[3]) && MavenSync.ReadRecord(d, q).Cached? ==>
              DirOf(id) + [TarName(MavenSync.ReadRecord(d, q).checksum)] != p
  {
    var d' := d.Remove(p);
    RemoveStep(d, p);
    forall q | q in d.names && q != p && Owns(id, q) && IsRecordName(q[3])
      ensures MavenSync.ReadRecord(d, q).Cached? && d.Content(q).Some? && d'.Content(q) == d.Content(q)
      ensures BackedRecord(w, d', id, d.Content(q).value) <==>
              DirOf(id) + [TarName(MavenSync.ReadRecord(d, q).checksum)] != p
    {
      RecordAfterRemoval(w, d, id, p, q);
    }
  }

  lemma RecordAfterRemoval(w: World, d: Disk, id: Id, p: Path, q: Path)
    requires ValidWorld(w) && d.Valid() && RecordsBacked(w, d, id)
    requires q in d.names && q != p && Owns(id, q) && IsRecordName(q[3])
    ensures MavenSync.ReadRecord(d, q).Cached? && d.Content(q).Some? && d.Remove(p).Content(q) == d.Content(q)
    ensures BackedRecord(w, d.Remove(p), id, d.Content(q).value) <==>
            DirOf(id) + [TarName(MavenSync.ReadRecord(d, q).checksum)] != p
  {
    var d', text := d.Remove(p), d.Content(q).value;
    assert BackedRecord(w, d, id, text);
    var source, data :| RecordOf(w, source, data, text) && DirOf(id) + [TarName(w.sha1(data))] in d.names;
    Sha1HasNoBar(w, data);
    MavenSync.RecordRoundTrip(source, w.sha1(data));
    if BackedRecord(w, d', id, text) {
      var s, b :| RecordOf(w, s, b, text) && DirOf(id) + [TarName(w.sha1(b))] in d'.names;
      SameRecordSameHash(w, source, data, s, b, text);
    }
  }
}
