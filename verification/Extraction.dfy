/** Which zips extractArchive unpacks, and to what: an exact condition on the list of entries, and every
    directory and file that is there afterwards. */
module Extraction {
  import opened Strings
  import opened Paths
  import opened Trees
  import opened Archive
  import opened ArchiveMeaning

  // ----- the entries of a zip, as a reader of the zip sees them -----

  /** A directory, by its attribute or by a slash at the end of its name. */
  predicate IsFolder(e: ZipEntry) {
    e.dirAttr || (e.name != "" && e.name[|e.name| - 1] == '/')
  }

  lemma FolderIsDir(e: ZipEntry)
    ensures e.IsDir() <==> IsFolder(e)
  {
    if e.name != "" {
      assert e.name[|e.name| - 1..] == [e.name[|e.name| - 1]];
    }
  }

  predicate Accepted(dest: string, e: ZipEntry) {
    SafeArchiveEntryPath(dest, e.name).Some?
  }

  /** The path of an accepted entry relative to the destination. */
  function Place(dest: string, e: ZipEntry): Path {
    var p := Segs(JoinPath(dest, e.name));
    if |Segs(dest)| <= |p| then p[|Segs(dest)|..] else []
  }

  lemma PlaceBelow(t: Tree, dest: string, e: ZipEntry)
    requires Ready(t, dest) && Accepted(dest, e)
    ensures Segs(SafeArchiveEntryPath(dest, e.name).value) == Segs(dest) + Place(dest, e)
    ensures Normal(true, Segs(dest) + Place(dest, e)) && Normal(true, Place(dest, e))
  {
    var rest := EntryRest(t, dest, e);
    EntryPlace(t, dest, e);
    AcceptedIsJoined(dest, e.name);
    assert (Segs(dest) + rest)[|Segs(dest)|..] == rest;
  }

  lemma AcceptedIsJoined(dest: string, name: string)
    requires SafeArchiveEntryPath(dest, name).Some?
    ensures SafeArchiveEntryPath(dest, name).value == JoinPath(dest, name)
  {
  }

  predicate FolderAt(dest: string, es: seq<ZipEntry>, j: nat, r: Path) {
    j < |es| && IsFolder(es[j]) && r <= Place(dest, es[j])
  }

  predicate FileAt(dest: string, es: seq<ZipEntry>, i: nat, r: Path) {
    i < |es| && !IsFolder(es[i]) && Place(dest, es[i]) == r
  }

  /** A directory after the entries: the destination, or a directory entry's, or above one. */
  ghost predicate MadeBy(dest: string, es: seq<ZipEntry>, r: Path) {
    r == [] || exists j: nat :: FolderAt(dest, es, j, r)
  }

  ghost predicate WrittenBy(dest: string, es: seq<ZipEntry>, r: Path) {
    exists i: nat :: FileAt(dest, es, i, r)
  }

  /** What the next entry needs after the entries es. A directory finds no file at or above its place; a
      file can be read, finds its directory made, and no directory in its place. */
  ghost predicate NextFits(dest: string, es: seq<ZipEntry>, e: ZipEntry) {
    && Accepted(dest, e)
    && var r := Place(dest, e);
       if IsFolder(e) then forall q :: q <= r ==> !WrittenBy(dest, es, q)
       else Writable(dest, es, e) && !MadeBy(dest, es, r)
  }

  /** The condition on the whole zip: every name is accepted; every file can be read, is not the
      destination, and lies in the destination or in a directory that an earlier entry makes; and no file is
      at or above a directory, in whatever order they come. */
  ghost predicate Unpackable(dest: string, es: seq<ZipEntry>) {
    && (forall i: nat :: i < |es| ==> Accepted(dest, es[i]))
    && (forall i: nat :: i < |es| && !IsFolder(es[i]) ==> Writable(dest, es[..i], es[i]))
    && NoFileAboveFolder(dest, es)
  }

  /** A file that can be read, and its directory is there. */
  ghost predicate Writable(dest: string, before: seq<ZipEntry>, e: ZipEntry) {
    var r := Place(dest, e);
    e.opens && e.intact && r != [] && MadeBy(dest, before, r[..|r| - 1])
  }

  ghost predicate NoFileAboveFolder(dest: string, es: seq<ZipEntry>) {
    forall i: nat, j: nat :: i < |es| && j < |es| && !IsFolder(es[i]) && IsFolder(es[j]) ==>
      !(Place(dest, es[i]) <= Place(dest, es[j]))
  }

  // ----- the tree after the entries -----

  /** The first and the last file entry at a place. */
  ghost predicate FirstLast(dest: string, es: seq<ZipEntry>, r: Path, i: nat, k: nat) {
    FileAt(dest, es, i, r) && FileAt(dest, es, k, r) && forall j: nat :: FileAt(dest, es, j, r) ==> i <= j <= k
  }

  /** The file has the data of the last entry at its place, the mode of the first, and the reset time. */
  ghost predicate FileFrom(dest: string, es: seq<ZipEntry>, r: Path, n: Node) {
    exists i: nat, k: nat :: FirstLast(dest, es, r, i, k) && n == File(es[k].data, Attrs(es[i].mode, 0))
  }

  /** Below the destination there are exactly the directories and files of the entries. */
  ghost predicate Shape(t: Tree, dest: string, es: seq<ZipEntry>) {
    && (forall r :: IsDirAt(t, Segs(dest) + r) <==> MadeBy(dest, es, r))
    && (forall r :: Segs(dest) + r in t && t[Segs(dest) + r].File? <==> WrittenBy(dest, es, r))
    && (forall r :: Segs(dest) + r in t && t[Segs(dest) + r].File? ==> FileFrom(dest, es, r, t[Segs(dest) + r]))
  }

  lemma SnocFolders(dest: string, es: seq<ZipEntry>, e: ZipEntry, r: Path)
    ensures MadeBy(dest, es + [e], r) <==> MadeBy(dest, es, r) || (IsFolder(e) && r <= Place(dest, e))
  {
    var all := es + [e];
    if MadeBy(dest, es, r) && r != [] {
      var j: nat :| FolderAt(dest, es, j, r);
      assert FolderAt(dest, all, j, r);
    }
    if IsFolder(e) && r <= Place(dest, e) {
      assert FolderAt(dest, all, |es|, r);
    }
    if MadeBy(dest, all, r) && r != [] {
      var j: nat :| FolderAt(dest, all, j, r);
      assert j < |es| ==> FolderAt(dest, es, j, r);
    }
  }

  lemma SnocFiles(dest: string, es: seq<ZipEntry>, e: ZipEntry, r: Path)
    ensures WrittenBy(dest, es + [e], r) <==> WrittenBy(dest, es, r) || (!IsFolder(e) && r == Place(dest, e))
    ensures forall j: nat :: FileAt(dest, es + [e], j, r) <==>
              FileAt(dest, es, j, r) || (j == |es| && !IsFolder(e) && r == Place(dest, e))
  {
    var all := es + [e];
    assert forall j: nat :: j < |es| ==> all[j] == es[j];
    if WrittenBy(dest, es, r) {
      var j: nat :| FileAt(dest, es, j, r);
      assert FileAt(dest, all, j, r);
    }
    if !IsFolder(e) && r == Place(dest, e) {
      assert FileAt(dest, all, |es|, r);
    }
    if WrittenBy(dest, all, r) {
      var j: nat :| FileAt(dest, all, j, r);
      assert j < |es| ==> FileAt(dest, es, j, r);
    }
  }

  lemma FirstLastSnoc(dest: string, es: seq<ZipEntry>, e: ZipEntry, r: Path, i: nat, k: nat)
    requires FirstLast(dest, es, r, i, k)
    ensures FirstLast(dest, es + [e], r, i, if !IsFolder(e) && r == Place(dest, e) then |es| else k)
  {
    SnocFiles(dest, es, e, r);
  }

  lemma SnocUntouched(dest: string, es: seq<ZipEntry>, e: ZipEntry, r: Path, n: Node)
    requires FileFrom(dest, es, r, n) && (IsFolder(e) || r != Place(dest, e))
    ensures FileFrom(dest, es + [e], r, n)
  {
    var i: nat, k: nat :| FirstLast(dest, es, r, i, k) && n == File(es[k].data, Attrs(es[i].mode, 0));
    FirstLastSnoc(dest, es, e, r, i, k);
    assert (es + [e])[i] == es[i] && (es + [e])[k] == es[k];
  }

  lemma SnocOverwritten(dest: string, es: seq<ZipEntry>, e: ZipEntry, before: Node)
    requires !IsFolder(e) && before.File? && FileFrom(dest, es, Place(dest, e), before)
    ensures FileFrom(dest, es + [e], Place(dest, e), File(e.data, Attrs(before.attrs.mode, 0)))
  {
    var r := Place(dest, e);
    var i: nat, k: nat :| FirstLast(dest, es, r, i, k) && before == File(es[k].data, Attrs(es[i].mode, 0));
    FirstLastSnoc(dest, es, e, r, i, k);
    assert (es + [e])[i] == es[i] && (es + [e])[|es|] == e;
  }

  lemma SnocCreated(dest: string, es: seq<ZipEntry>, e: ZipEntry)
    requires !IsFolder(e) && !WrittenBy(dest, es, Place(dest, e))
    ensures FileFrom(dest, es + [e], Place(dest, e), File(e.data, Attrs(e.mode, 0)))
  {
    var r, all := Place(dest, e), es + [e];
    SnocFiles(dest, es, e, r);
    assert forall j: nat :: FileAt(dest, es, j, r) ==> WrittenBy(dest, es, r);
    assert FirstLast(dest, all, r, |es|, |es|) && all[|es|] == e;
  }

  // ----- one entry -----

  lemma FolderStep(t: Tree, dest: string, es: seq<ZipEntry>, e: ZipEntry, clock: int)
    requires Ready(t, dest) && Shape(t, dest, es) && Accepted(dest, e) && IsFolder(e)
    ensures var (t', ok) := ExtractEntry(t, dest, e, clock);
            (ok <==> NextFits(dest, es, e)) && (ok ==> Shape(t', dest, es + [e]))
  {
    var d, r := Segs(dest), Place(dest, e);
    PlaceBelow(t, dest, e);
    FolderIsDir(e);
    MkdirAllBelow(t, d, r);
    forall q ensures q in Prefixes(r) <==> q <= r {
      PrefixIsBelow(r, q);
    }
    var (t', ok) := MkdirAll(t, d + r);
    assert ExtractEntry(t, dest, e, clock) == (t', ok);
    if ok {
      forall q ensures IsDirAt(t', d + q) <==> MadeBy(dest, es + [e], q) {
        SnocFolders(dest, es, e, q);
      }
      forall q
        ensures d + q in t' && t'[d + q].File? <==> WrittenBy(dest, es + [e], q)
        ensures d + q in t' && t'[d + q].File? ==> FileFrom(dest, es + [e], q, t'[d + q])
      {
        SnocFiles(dest, es, e, q);
        if d + q in t' && t'[d + q].File? {
          SnocUntouched(dest, es, e, q, t[d + q]);
        }
      }
    }
  }

  lemma PrefixIsBelow(r: Path, q: Path)
    ensures q in Prefixes(r) <==> q <= r
  {
    if q <= r {
      assert q == r[..|q|];
    }
  }

  lemma FileAtPath(t: Tree, d: Path, r: Path, e: ZipEntry, clock: int)
    requires IsDirAt(t, d) && !e.IsDir()
    ensures FileExtracted(t, e, d + r, clock).1 <==>
            e.opens && e.intact && r != [] && IsDirAt(t, d + r[..|r| - 1]) && !IsDirAt(t, d + r)
    ensures FileExtracted(t, e, d + r, clock).1 ==>
              var p := d + r;
              (p in t ==> t[p].File?) &&
              FileExtracted(t, e, p, clock).0 ==
              t[p := File(e.data, Attrs(if p in t then t[p].attrs.mode else e.mode, 0))]
  {
    assert d + [] == d;
    if r != [] {
      assert (d + r)[..|d + r| - 1] == d + r[..|r| - 1];
    }
  }

  lemma FileStep(t: Tree, dest: string, es: seq<ZipEntry>, e: ZipEntry, clock: int)
    requires Ready(t, dest) && Shape(t, dest, es) && Accepted(dest, e) && !IsFolder(e)
    ensures ExtractEntry(t, dest, e, clock).1 <==> NextFits(dest, es, e)
    ensures NextFits(dest, es, e) ==>
              var p := Segs(dest) + Place(dest, e);
              (p in t ==> t[p].File?) &&
              ExtractEntry(t, dest, e, clock).0 ==
              t[p := File(e.data, Attrs(if p in t then t[p].attrs.mode else e.mode, 0))]
  {
    var d, r := Segs(dest), Place(dest, e);
    PlaceBelow(t, dest, e);
    FolderIsDir(e);
    FileAtPath(t, d, r, e, clock);
    assert ExtractEntry(t, dest, e, clock) == FileExtracted(t, e, d + r, clock);
    assert IsDirAt(t, d + r) <==> MadeBy(dest, es, r);
    if r != [] {
      assert IsDirAt(t, d + r[..|r| - 1]) <==> MadeBy(dest, es, r[..|r| - 1]);
    }
  }

  lemma FileShape(t: Tree, dest: string, es: seq<ZipEntry>, e: ZipEntry, n: Node)
    requires Shape(t, dest, es) && !IsFolder(e) && !MadeBy(dest, es, Place(dest, e))
    requires var p := Segs(dest) + Place(dest, e);
             (p in t ==> t[p].File?) && n == File(e.data, Attrs(if p in t then t[p].attrs.mode else e.mode, 0))
    ensures Shape(t[Segs(dest) + Place(dest, e) := n], dest, es + [e])
  {
    var d, r := Segs(dest), Place(dest, e);
    var t' := t[d + r := n];
    forall q ensures d + q == d + r <==> q == r {
      SamePrefix(d, q, r);
    }
    forall q ensures IsDirAt(t', d + q) <==> MadeBy(dest, es + [e], q) {
      SnocFolders(dest, es, e, q);
    }
    forall q
      ensures d + q in t' && t'[d + q].File? <==> WrittenBy(dest, es + [e], q)
      ensures d + q in t' && t'[d + q].File? ==> FileFrom(dest, es + [e], q, t'[d + q])
    {
      SnocFiles(dest, es, e, q);
      if q == r {
        if d + r in t {
          SnocOverwritten(dest, es, e, t[d + r]);
        } else {
          SnocCreated(dest, es, e);
        }
      } else if d + q in t' && t'[d + q].File? {
        SnocUntouched(dest, es, e, q, t[d + q]);
      }
    }
  }

  /** One entry succeeds exactly when it fits, and then its directories or its file are there. */
  lemma EntryStep(t: Tree, dest: string, es: seq<ZipEntry>, e: ZipEntry, clock: int)
    requires Ready(t, dest) && Shape(t, dest, es)
    ensures var (t', ok) := ExtractEntry(t, dest, e, clock);
            (ok <==> NextFits(dest, es, e)) && (ok ==> Shape(t', dest, es + [e]))
  {
    if Accepted(dest, e) {
      if IsFolder(e) {
        FolderStep(t, dest, es, e, clock);
      } else {
        FileStep(t, dest, es, e, clock);
        if NextFits(dest, es, e) {
          var p := Segs(dest) + Place(dest, e);
          FileShape(t, dest, es, e, File(e.data, Attrs(if p in t then t[p].attrs.mode else e.mode, 0)));
        }
      }
    }
  }

  // ----- the whole zip -----

  lemma {:induction false} ExtractSnoc(t: Tree, dest: string, es: seq<ZipEntry>, e: ZipEntry, clock: int)
    ensures var (t1, ok) := Extract(t, dest, es, clock);
            Extract(t, dest, es + [e], clock) == if ok then ExtractEntry(t1, dest, e, clock) else (t1, false)
    decreases es
  {
    if es == [] {
      assert [e][1..] == [] && [] + [e] == [e];
    } else {
      assert (es + [e])[1..] == es[1..] + [e];
      var (t1, ok) := ExtractEntry(t, dest, es[0], clock);
      if ok {
        ExtractSnoc(t1, dest, es[1..], e, clock);
      }
    }
  }

  lemma UnpackableSnoc(dest: string, es: seq<ZipEntry>, e: ZipEntry)
    ensures Unpackable(dest, es + [e]) <==> Unpackable(dest, es) && NextFits(dest, es, e)
  {
    var all := es + [e];
    SnocAt(es, e);
    NoFileAboveSnoc(dest, es, e);
    if Unpackable(dest, all) {
      assert Accepted(dest, all[|es|]);
      assert !IsFolder(e) ==> Writable(dest, all[..|es|], all[|es|]);
    }
  }

  lemma SnocAt(es: seq<ZipEntry>, e: ZipEntry)
    ensures (es + [e])[|es|] == e && (es + [e])[..|es|] == es
    ensures forall i: nat :: i < |es| ==> (es + [e])[i] == es[i] && (es + [e])[..i] == es[..i]
  {
  }

  lemma NoFileAboveSnoc(dest: string, es: seq<ZipEntry>, e: ZipEntry)
    ensures var r := Place(dest, e);
            (IsFolder(e) || r != []) ==>
              (NoFileAboveFolder(dest, es + [e]) <==>
               NoFileAboveFolder(dest, es) &&
               if IsFolder(e) then forall q :: q <= r ==> !WrittenBy(dest, es, q) else !MadeBy(dest, es, r))
  {
    var all, r := es + [e], Place(dest, e);
    SnocAt(es, e);
    if IsFolder(e) {
      forall q | q <= r && WrittenBy(dest, es, q) ensures !NoFileAboveFolder(dest, all) {
        var i: nat :| FileAt(dest, es, i, q);
        assert Place(dest, all[i]) <= Place(dest, all[|es|]);
      }
      forall i: nat | i < |es| && !IsFolder(es[i]) ensures WrittenBy(dest, es, Place(dest, es[i])) {
        assert FileAt(dest, es, i, Place(dest, es[i]));
      }
    } else {
      if r != [] && MadeBy(dest, es, r) {
        var j: nat :| FolderAt(dest, es, j, r);
        assert Place(dest, all[|es|]) <= Place(dest, all[j]);
      }
      forall j: nat | j < |es| && IsFolder(es[j]) && r <= Place(dest, es[j]) ensures MadeBy(dest, es, r) {
        assert FolderAt(dest, es, j, r);
      }
    }
    assert NoFileAboveFolder(dest, all) ==> NoFileAboveFolder(dest, es);
  }

  lemma {:induction false} ExtractionFrom(t: Tree, dest: string, es: seq<ZipEntry>, clock: int)
    requires Ready(t, dest) && Shape(t, dest, [])
    ensures Extract(t, dest, es, clock).1 <==> Unpackable(dest, es)
    ensures Extract(t, dest, es, clock).1 ==> Shape(Extract(t, dest, es, clock).0, dest, es)
    decreases |es|
  {
    if es != [] {
      var init, e := es[..|es| - 1], es[|es| - 1];
      assert es == init + [e];
      ExtractionFrom(t, dest, init, clock);
      ExtractContained(t, dest, init, clock);
      ExtractSnoc(t, dest, init, e, clock);
      UnpackableSnoc(dest, init, e);
      if Extract(t, dest, init, clock).1 {
        EntryStep(Extract(t, dest, init, clock).0, dest, init, e, clock);
      }
    }
  }

  lemma FreshShape(t: Tree, dest: string)
    requires IsDirAt(t, Segs(dest)) && forall r :: Segs(dest) + r in t ==> r == []
    ensures Shape(t, dest, [])
  {
    assert Segs(dest) + [] == Segs(dest);
  }

  /** extractArchive succeeds exactly for a zip that opens and is unpackable, if its destination can be
      made; and then the destination holds exactly the directories and files of the entries. */
  lemma ExtractionExactly(t: Tree, parentDir: string, zip: Option<seq<ZipEntry>>, clock: int)
    requires WellFormed(t) && IsAbs(parentDir)
    ensures var (t', ok) := ArchiveExtracted(t, parentDir, zip, clock);
            var dest := Destination(parentDir);
            && (ok <==> zip.Some? && IsDirAt(t, Segs(parentDir)) && Segs(dest) !in t && Unpackable(dest, zip.value))
            && (ok ==> Shape(t', dest, zip.value))
  {
    PlainFolder();
    DestinationClean(parentDir, FOLDER);
    var dest := Destination(parentDir);
    assert Segs(dest)[..|Segs(dest)| - 1] == Segs(parentDir);
    if zip.Some? && Mkdir(t, Segs(dest)).1 {
      ArchiveExtractedReady(t, parentDir);
      FreshShape(Mkdir(t, Segs(dest)).0, dest);
      ExtractionFrom(Mkdir(t, Segs(dest)).0, dest, zip.value, clock);
    }
  }
}
