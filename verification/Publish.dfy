/** copyFile and copyCompressedFile, running against the served volume. */
module Publish {
  import opened Strings
  import opened Paths
  import opened Volume

  /** The volume as a sync sees it. `budget` is the number of file operations that succeed before
      the next one reports an I/O error; an operation that fails changes nothing. */
  class ServedVolume {
    var disk: Disk
    var budget: nat

    constructor (d: Disk, n: nat)
      ensures disk == d && budget == n
    {
      disk, budget := d, n;
    }

    method MkdirAll(p: Path) returns (ok: bool)
      modifies this
      ensures ok == (old(budget) > 0)
      ensures ok ==> disk == old(disk).MkdirAll(p) && budget == old(budget) - 1
      ensures !ok ==> disk == old(disk) && budget == 0
    {
      ok := budget > 0;
      if ok {
        disk, budget := disk.MkdirAll(p), budget - 1;
      }
    }

    /** os.Create, which also fails when the directory is missing, or for a reason of its own. */
    method Create(p: Path, fails: bool) returns (ok: bool)
      requires p != []
      modifies this
      ensures ok == (old(budget) > 0 && !fails && p[..|p| - 1] in old(disk).dirs)
      ensures ok ==> disk == old(disk).Create(p)
      ensures !ok ==> disk == old(disk)
      ensures budget == if old(budget) > 0 then old(budget) - 1 else 0
    {
      ok := budget > 0 && !fails && p[..|p| - 1] in disk.dirs;
      if ok {
        disk := disk.Create(p);
      }
      budget := if budget > 0 then budget - 1 else 0;
    }

    method Append(p: Path, data: Bytes) returns (ok: bool)
      modifies this
      ensures ok == (old(budget) > 0)
      ensures ok ==> disk == old(disk).Append(p, data) && budget == old(budget) - 1
      ensures !ok ==> disk == old(disk) && budget == 0
    {
      ok := budget > 0;
      if ok {
        disk, budget := disk.Append(p, data), budget - 1;
      }
    }

    method Rename(from: Path, to: Path) returns (ok: bool)
      modifies this
      ensures ok == (old(budget) > 0 && from in old(disk).names)
      ensures ok ==> disk == old(disk).Rename(from, to) && budget == old(budget) - 1
      ensures !ok ==> disk == old(disk)
    {
      ok := budget > 0 && from in disk.names;
      if ok {
        disk := disk.Rename(from, to);
        budget := budget - 1;
      }
    }

    method WriteFile(p: Path, data: Bytes) returns (ok: bool)
      requires p != []
      modifies this
      ensures ok == (old(budget) > 0 && p[..|p| - 1] in old(disk).dirs)
      ensures ok ==> disk == old(disk).WriteFile(p, data) && budget == old(budget) - 1
      ensures !ok ==> disk == old(disk)
    {
      ok := budget > 0 && p[..|p| - 1] in disk.dirs;
      if ok {
        disk := disk.WriteFile(p, data);
        budget := budget - 1;
      }
    }

    /** The io.Copy loop into a file that has just been created. */
    method CopyInto(to: Path, tar: Bytes, ghost j: Job) returns (ok: bool)
      requires to == j.Placeholder() && tar == j.tar
      modifies this
      ensures ok ==> Exec(old(disk), j.AfterCopy(0), old(budget)) == Exec(disk, j.(pc := AtRename), budget)
      ensures !ok ==> Exec(old(disk), j.AfterCopy(0), old(budget)) == (disk, j.(pc := Failed))
    {
      var k := 0;
      while k < |tar|
        invariant k <= |tar|
        invariant Exec(old(disk), j.AfterCopy(0), old(budget)) == Exec(disk, j.AfterCopy(k), budget)
      {
        var end := if k + CHUNK < |tar| then k + CHUNK else |tar|;
        assert tar[k..|tar|] == tar[k..];
        ok := Append(to, tar[k..end]);
        if !ok {
          return;
        }
        k := end;
      }
      ok := true;
    }

    /** copyFile, up to where the image sync renames the placeholder. A failed create is reported
        as success. */
    method CopyFile(to: Path, tar: Bytes, createFails: bool, ghost j: Job) returns (ok: bool)
      requires to == j.Placeholder() && tar == j.tar && createFails == j.createFails
      requires j.pc.AtMkdir? && j.record.None?
      modifies this
      ensures ok ==> Exec(old(disk), j, old(budget)) == Exec(disk, j.(pc := AtRename), budget)
      ensures !ok ==> Exec(old(disk), j, old(budget)) == (disk, j.(pc := Failed))
    {
      var dir := to[..|to| - 1];
      assert dir == j.dir;
      ok := MkdirAll(dir);
      if !ok {
        return;
      }
      var created := Create(to, createFails);
      if !created {
        return true;
      }
      ok := CopyInto(to, tar, j);
    }

    /** copyCompressedFile: copy to a placeholder and rename it. A failed create is reported as
        success, with nothing renamed. */
    method CopyCompressedFile(to: Path, placeholder: Path, tar: Bytes, createFails: bool, ghost j: Job)
      returns (ok: bool)
      requires to == j.Final() && placeholder == j.Placeholder() && tar == j.tar && createFails == j.createFails
      requires j.pc.AtMkdir? && j.record.Some?
      modifies this
      ensures ok ==> Exec(old(disk), j, old(budget)) == Exec(disk, j.(pc := AtRecord), budget)
      ensures !ok ==> Exec(old(disk), j, old(budget)) == (disk, j.(pc := Failed))
    {
      var dir := placeholder[..|placeholder| - 1];
      assert dir == j.dir;
      ok := MkdirAll(dir);
      if !ok {
        return;
      }
      var created := Create(placeholder, createFails);
      if !created {
        return true;
      }
      ok := CopyInto(placeholder, tar, j);
      if !ok {
        return;
      }
      ok := Rename(placeholder, to);
    }
  }
}
