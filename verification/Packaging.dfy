/** From the downloaded bytes to the tarball: which downloads are unpacked, when that fails, and what the
    tarball holds. */
module Packaging {
  import opened Strings
  import opened Paths
  import opened Trees
  import opened Archive
  import opened ArchiveMeaning
  import opened Extraction
  import opened Remote
  import Reproducible

  /** A local file header of a zip at the front. */
  predicate ZipSignature(data: Bytes) {
    |data| >= 4 && data[0] == 'P' && data[1] == 'K' && data[2] == 3 as char && data[3] == 4 as char
  }

  lemma SignatureIsArchive(data: Bytes)
    ensures IsArchive(data) <==> ZipSignature(data)
  {
    if |data| >= 4 {
      assert data[..4] == [data[0], data[1], data[2], data[3]];
    }
  }

  /** The entries are one for each file below the directory, in the order of a walk by components, under its
      relative name and with its attributes. */
  ghost predicate Lists(es: seq<TarEntry>, files: map<Path, Node>) {
    exists rs: seq<Path> ::
      && |rs| == |es| && PathIncreasing(rs) && (forall r :: r in rs <==> r in files)
      && (forall i :: 0 <= i < |es| ==>
            rs[i] in files && files[rs[i]].File? &&
            es[i] == TarEntry(RelName(rs[i]), files[rs[i]].attrs, files[rs[i]].data))
  }

  lemma TarLists(t: Tree, dir: string)
    requires WellFormed(t) && IsAbs(dir) && Segs(dir) in t
    ensures Lists(TarEntries(t, dir), FilesUnder(t, Segs(dir)))
  {
    var rs, files := RelWalk(t, Segs(dir)), FilesUnder(t, Segs(dir));
    RelWalkSorted(t, Segs(dir));
    WalkPackable(t, dir, Segs(dir));
    forall i | 0 <= i < |rs|
      ensures rs[i] in files && files[rs[i]].File?
      ensures TarEntries(t, dir)[i] == TarEntry(RelName(rs[i]), files[rs[i]].attrs, files[rs[i]].data)
    {
      RelEntry(t, dir, i);
    }
  }

  /** The files that a zip unpacks to: one for each place of a file entry, with the data of the last entry
      there, the mode of the first, and the reset time. */
  ghost predicate Unpacked(dest: string, es: seq<ZipEntry>, files: map<Path, Node>) {
    && (forall r :: r in files <==> WrittenBy(dest, es, r))
    && (forall r :: r in files ==> FileFrom(dest, es, r, files[r]))
  }

  lemma ShapeUnpacked(t: Tree, dest: string, es: seq<ZipEntry>)
    requires Shape(t, dest, es)
    ensures Unpacked(dest, es, FilesUnder(t, Segs(dest)))
  {
  }

  /** A download that begins like a zip is unpacked: this fails exactly if it does not open or is not
      unpackable. Otherwise, if all files can be read, the tarball lists the files of its entries. */
  lemma ArchiveOutcome(w: World, tmp: string, fileName: string, data: Bytes, clock: int, faults: ReadFaults)
    requires IsAbs(tmp) && ValidSegment(fileName) && ZipSignature(data)
    ensures var p, zip := Pack(w, tmp, fileName, data, clock, faults), w.unzip(data);
            && (p == NotExtracted <==> zip.None? || !Unpackable(Destination(tmp), zip.value))
            && (p != NotExtracted && faults == NO_FAULTS ==>
                  exists es, files :: p == Packed(w.gzip(es)) && Lists(es, files) &&
                                      Unpacked(Destination(tmp), zip.value, files))
  {
    var t, dest, zip := DownloadTree(tmp, fileName, data), Destination(tmp), w.unzip(data);
    SignatureIsArchive(data);
    var t1 := Reproducible.FreshDestination(tmp, fileName, data);
    ExtractionExactly(t, tmp, zip, clock);
    var (t', ok) := ArchiveExtracted(t, tmp, zip, clock);
    if ok {
      ArchiveMeaningPreserved(t, tmp, zip.value, clock);
      if faults == NO_FAULTS {
        TarGzComplete(w, t', dest, faults);
        TarLists(t', dest);
        ShapeUnpacked(t', dest, zip.value);
        var es, files := TarEntries(t', dest), FilesUnder(t', Segs(dest));
        assert Pack(w, tmp, fileName, data, clock, faults) == Packed(w.gzip(es));
        assert Lists(es, files) && Unpacked(dest, zip.value, files);
      }
    }
  }

  /** Anything else is packed as the one file that it is, readable and writable for all and with the reset
      time. */
  lemma PlainOutcome(w: World, tmp: string, fileName: string, data: Bytes, clock: int, faults: ReadFaults)
    requires IsAbs(tmp) && ValidSegment(fileName) && !ZipSignature(data)
    ensures var p := Pack(w, tmp, fileName, data, clock, faults);
            && p != NotExtracted
            && (faults == NO_FAULTS ==> p == Packed(w.gzip([TarEntry(fileName, Attrs(438, 0), data)])))
  {
    SignatureIsArchive(data);
    if faults == NO_FAULTS {
      var t, dir := DownloadTree(tmp, fileName, data), JoinPath(tmp, "artifact");
      ArtifactDir(tmp);
      TarGzComplete(w, t, dir, faults);
      TarLists(t, dir);
      Reproducible.DownloadedFile(tmp, fileName, data);
      OneFileListed(TarEntries(t, dir), fileName, File(data, Attrs(438, 0)));
    }
  }

  lemma OneFileListed(es: seq<TarEntry>, name: string, n: Node)
    requires n.File? && Lists(es, map[[name] := n])
    ensures es == [TarEntry(name, n.attrs, n.data)]
  {
    var files := map[[name] := n];
    var rs: seq<Path> :|
      && |rs| == |es| && PathIncreasing(rs) && (forall r :: r in rs <==> r in files)
      && (forall i :: 0 <= i < |es| ==>
            rs[i] in files && files[rs[i]].File? &&
            es[i] == TarEntry(RelName(rs[i]), files[rs[i]].attrs, files[rs[i]].data));
    assert [name] in files && [name] in rs;
    if |rs| > 1 {
      assert rs[0] in rs && rs[1] in rs;
      PathLessAsymmetric(rs[0], rs[1]);
    }
    assert rs[0] in rs && RelName([name]) == name;
  }
}
