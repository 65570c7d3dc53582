/** extractArchive and createTarGz: a zip is unpacked into the working directory and the
    directory is packed again as a tar. */
module Archive {
  import opened Strings
  import opened Paths
  import opened Trees

  /** A zip entry as archive/zip presents it. `opens` is false when file.Open fails; when `intact`
      is false the body breaks off with an error after `data`. */
  datatype ZipEntry = ZipEntry(name: string, dirAttr: bool, mode: nat, opens: bool, data: Bytes, intact: bool) {
    /** FileInfo().IsDir(): by attribute, or by a trailing slash. */
    predicate IsDir() {
      dirAttr || HasSuffix(name, "/")
    }
  }

  datatype TarEntry = TarEntry(name: string, attrs: Attrs, data: Bytes)

  /** Chtimes(path, UnixMilli(0), UnixMilli(0)). */
  const EPOCH: int := 0

  // ----- extraction as a function of the tree -----

  function FileExtracted(t: Tree, e: ZipEntry, p: Path, clock: int): (Tree, bool) {
    if e.IsDir() then MkdirAll(t, p)
    else if !e.opens then (t, false)
    else
      var (t1, ok) := OpenTrunc(t, p, e.mode, clock);
      if !ok then (t1, false)
      else if !e.intact then (t1[p := File(e.data, t1[p].attrs)], false)
      else (t1[p := File(e.data, t1[p].attrs.(mtime := EPOCH))], true)
  }

  function ExtractEntry(t: Tree, dest: string, e: ZipEntry, clock: int): (Tree, bool) {
    match SafeArchiveEntryPath(dest, e.name)
    case None => (t, false)
    case Some(filePath) => FileExtracted(t, e, Segs(filePath), clock)
  }

  /** The loop over the entries, which stops at the first error. */
  function Extract(t: Tree, dest: string, es: seq<ZipEntry>, clock: int): (Tree, bool)
    decreases es
  {
    if es == [] then (t, true)
    else
      var (t1, ok) := ExtractEntry(t, dest, es[0], clock);
      if ok then Extract(t1, dest, es[1..], clock) else (t1, false)
  }

  const FOLDER: string := "extracted-artifact"

  function Destination(parentDir: string): string {
    JoinPath(parentDir, FOLDER)
  }

  /** extractArchive, of a zip that opens (Some) or does not. */
  function ArchiveExtracted(t: Tree, parentDir: string, zip: Option<seq<ZipEntry>>, clock: int): (Tree, bool) {
    match zip
    case None => (t, false)
    case Some(es) =>
      var (t1, ok) := Mkdir(t, Segs(Destination(parentDir)));
      if ok then Extract(t1, Destination(parentDir), es, clock) else (t1, false)
  }

  // ----- the tar of a directory -----

  /** The name of the file at q in the tar of the directory dir. */
  function HeaderName(dir: string, q: Path): string
    requires IsAbs(dir) && Normal(true, q) && Segs(dir) <= q
  {
    SegsRender(true, q);
    RelUnder(dir, Render(true, q));
    Rel(dir, Render(true, q)).value
  }

  function TarEntryFor(t: Tree, dir: string, q: Path): TarEntry
    requires IsAbs(dir) && Normal(true, q) && Segs(dir) <= q && q in t && t[q].File?
  {
    TarEntry(HeaderName(dir, q), t[q].attrs, t[q].data)
  }

  /** Files of the tree at or below the directory dir. */
  ghost predicate Packable(t: Tree, dir: string, qs: seq<Path>) {
    IsAbs(dir) && forall q :: q in qs ==> Normal(true, q) && Segs(dir) <= q && q in t && t[q].File?
  }

  function TarEntriesFor(t: Tree, dir: string, qs: seq<Path>): (es: seq<TarEntry>)
    requires Packable(t, dir, qs)
    ensures |es| == |qs|
    ensures forall i :: 0 <= i < |qs| ==> es[i] == TarEntryFor(t, dir, qs[i])
  {
    seq(|qs|, i requires 0 <= i < |qs| => TarEntryFor(t, dir, qs[i]))
  }

  lemma WalkPackable(t: Tree, dir: string, p: Path)
    requires WellFormed(t) && IsAbs(dir) && Segs(dir) <= p && p in t
    ensures Packable(t, dir, Walk(t, p))
  {
    var d := Segs(dir);
    forall q ensures q in Walk(t, p) ==> Normal(true, q) && d <= q && q in t && t[q].File? {
      WalkVisits(t, p, q);
    }
  }

  /** Files whose Open fails, which ends createTarGz with an error, and files whose Stat fails, which
      its callback skips without one. */
  datatype ReadFaults = ReadFaults(open: set<Path>, stat: set<Path>)

  const NO_FAULTS := ReadFaults({}, {})

  /** What is written for a list of files, and whether the end is reached. */
  function Written(t: Tree, dir: string, qs: seq<Path>, faults: ReadFaults): (seq<TarEntry>, bool)
    requires Packable(t, dir, qs)
    decreases |qs|
  {
    if qs == [] then ([], true)
    else if qs[0] in faults.open then ([], false)
    else
      var (es, ok) := Written(t, dir, qs[1..], faults);
      (if qs[0] in faults.stat then es else [TarEntryFor(t, dir, qs[0])] + es, ok)
  }

  lemma {:induction false} WrittenConcat(t: Tree, dir: string, a: seq<Path>, b: seq<Path>, faults: ReadFaults)
    requires Packable(t, dir, a) && Packable(t, dir, b)
    ensures Packable(t, dir, a + b)
    ensures var (ea, oka) := Written(t, dir, a, faults);
            var (eb, okb) := Written(t, dir, b, faults);
            Written(t, dir, a + b, faults) == if oka then (ea + eb, okb) else (ea, false)
    decreases |a|
  {
    if a == [] {
      assert a + b == b;
      assert [] + Written(t, dir, b, faults).0 == Written(t, dir, b, faults).0;
    } else {
      assert (a + b)[1..] == a[1..] + b;
      WrittenConcat(t, dir, a[1..], b, faults);
      if a[0] !in faults.open && a[0] !in faults.stat {
        ConcatAssociative([TarEntryFor(t, dir, a[0])], Written(t, dir, a[1..], faults).0, Written(t, dir, b, faults).0);
      }
    }
  }

  lemma PackableRest(t: Tree, dir: string, qs: seq<Path>)
    requires Packable(t, dir, qs) && qs != []
    ensures Packable(t, dir, qs[1..])
  {
    assert forall q :: q in qs[1..] ==> q in qs;
  }

  /** The error appears exactly when a file cannot be opened; without it, as many entries are written
      as there are files exactly when no Stat fails. */
  lemma {:induction false} WrittenCount(t: Tree, dir: string, qs: seq<Path>, faults: ReadFaults)
    requires Packable(t, dir, qs)
    ensures var (es, ok) := Written(t, dir, qs, faults);
            && (ok <==> forall i :: 0 <= i < |qs| ==> qs[i] !in faults.open)
            && |es| <= |qs|
            && (ok && |es| == |qs| ==> forall i :: 0 <= i < |qs| ==> qs[i] !in faults.stat)
    decreases |qs|
  {
    if qs != [] {
      var rest := qs[1..];
      PackableRest(t, dir, qs);
      WrittenCount(t, dir, rest, faults);
      assert forall i :: 1 <= i < |qs| ==> qs[i] == rest[i - 1];
    }
  }

  lemma {:induction false} WrittenAll(t: Tree, dir: string, qs: seq<Path>, faults: ReadFaults)
    requires Packable(t, dir, qs)
    requires forall q :: q in qs ==> q !in faults.open && q !in faults.stat
    ensures Written(t, dir, qs, faults) == (TarEntriesFor(t, dir, qs), true)
    decreases |qs|
  {
    if qs != [] {
      TarEntriesCons(t, dir, qs);
      assert qs[0] in qs;
      var rest := qs[1..];
      forall q | q in rest ensures q in qs && q !in faults.open && q !in faults.stat {
      }
      WrittenAll(t, dir, rest, faults);
    }
  }

  /** idx lists the places of the files outside the set, all of them and in order. */
  ghost predicate Selects(qs: seq<Path>, skipped: set<Path>, idx: seq<nat>) {
    && (forall k, l :: 0 <= k < l < |idx| ==> idx[k] < idx[l])
    && (forall i :: i in idx <==> 0 <= i < |qs| && qs[i] !in skipped)
  }

  lemma SelectsCons(qs: seq<Path>, skipped: set<Path>, sub: seq<nat>) returns (idx: seq<nat>)
    requires qs != [] && Selects(qs[1..], skipped, sub)
    ensures Selects(qs, skipped, idx)
    ensures qs[0] in skipped ==> |idx| == |sub| && forall k :: 0 <= k < |sub| ==> idx[k] == sub[k] + 1
    ensures qs[0] !in skipped ==>
              |idx| == |sub| + 1 && idx[0] == 0 && forall k :: 0 <= k < |sub| ==> idx[k + 1] == sub[k] + 1
  {
    var moved := Shifted(sub);
    if qs[0] in skipped {
      idx := moved;
    } else {
      idx := [0] + moved;
    }
    forall i ensures i in idx <==> 0 <= i < |qs| && qs[i] !in skipped {
      if 0 < i < |qs| { assert qs[i] == qs[1..][i - 1]; }
      if i > 0 { assert i in idx <==> i - 1 in sub; }
    }
  }

  lemma Shifted(sub: seq<nat>) returns (moved: seq<nat>)
    ensures |moved| == |sub| && forall k :: 0 <= k < |sub| ==> moved[k] == sub[k] + 1
    ensures forall i: int :: i in moved <==> i > 0 && i - 1 in sub
  {
    moved := seq(|sub|, k requires 0 <= k < |sub| => sub[k] + 1);
    forall i: int | i > 0 && i - 1 in sub ensures i in moved {
      var k :| 0 <= k < |sub| && sub[k] == i - 1;
      assert moved[k] == i;
    }
  }

  /** Element k of es is element idx[k] of all. */
  ghost predicate Picks<T>(all: seq<T>, idx: seq<nat>, es: seq<T>) {
    |idx| == |es| && forall k :: 0 <= k < |idx| ==> idx[k] < |all| && es[k] == all[idx[k]]
  }

  lemma PicksCons<T>(first: T, rest: seq<T>, sub: seq<nat>, idx: seq<nat>, es: seq<T>, skip: bool)
    requires Picks(rest, sub, es)
    requires skip ==> |idx| == |sub| && forall k :: 0 <= k < |sub| ==> idx[k] == sub[k] + 1
    requires !skip ==> |idx| == |sub| + 1 && idx[0] == 0 && forall k :: 0 <= k < |sub| ==> idx[k + 1] == sub[k] + 1
    ensures Picks([first] + rest, idx, if skip then es else [first] + es)
  {
    if !skip {
      assert forall k :: 0 < k < |idx| ==> idx[k] == sub[k - 1] + 1;
    }
  }

  /** Without an error, the entries are those of the files whose Stat succeeds, all of them and in their
      order. */
  lemma {:induction false} WrittenKeeps(t: Tree, dir: string, qs: seq<Path>, faults: ReadFaults) returns (idx: seq<nat>)
    requires Packable(t, dir, qs) && Written(t, dir, qs, faults).1
    ensures Selects(qs, faults.stat, idx)
    ensures Picks(TarEntriesFor(t, dir, qs), idx, Written(t, dir, qs, faults).0)
    decreases |qs|
  {
    if qs == [] {
      idx := [];
    } else {
      PackableRest(t, dir, qs);
      var sub := WrittenKeeps(t, dir, qs[1..], faults);
      idx := SelectsCons(qs, faults.stat, sub);
      TarEntriesCons(t, dir, qs);
      PicksCons(TarEntryFor(t, dir, qs[0]), TarEntriesFor(t, dir, qs[1..]), sub, idx,
                Written(t, dir, qs[1..], faults).0, qs[0] in faults.stat);
    }
  }

  lemma TarEntriesCons(t: Tree, dir: string, qs: seq<Path>)
    requires qs != [] && Packable(t, dir, qs)
    ensures Packable(t, dir, qs[1..])
    ensures TarEntriesFor(t, dir, qs) == [TarEntryFor(t, dir, qs[0])] + TarEntriesFor(t, dir, qs[1..])
  {
    var es, rest := TarEntriesFor(t, dir, qs), TarEntriesFor(t, dir, qs[1..]);
    forall i | 0 <= i < |rest| ensures rest[i] == es[i + 1] {
      assert qs[1..][i] == qs[i + 1];
    }
    ConsEqual(es, TarEntryFor(t, dir, qs[0]), rest);
  }

  lemma ConsEqual<T>(whole: seq<T>, first: T, rest: seq<T>)
    requires |whole| == |rest| + 1 && whole[0] == first && forall i :: 0 <= i < |rest| ==> rest[i] == whole[i + 1]
    ensures whole == [first] + rest
  {
  }

  /** createTarGz up to compression: the entries written, and whether there was no error. */
  function TarWritten(t: Tree, dir: string, faults: ReadFaults): (seq<TarEntry>, bool)
    requires WellFormed(t) && IsAbs(dir) && Segs(dir) in t
  {
    WalkPackable(t, dir, Segs(dir));
    Written(t, dir, Walk(t, Segs(dir)), faults)
  }

  /** createTarGz fails exactly when a file cannot be opened, and otherwise packs all files exactly
      when no Stat fails. */
  lemma TarComplete(t: Tree, dir: string, faults: ReadFaults)
    requires WellFormed(t) && IsAbs(dir) && Segs(dir) in t
    ensures var (es, ok) := TarWritten(t, dir, faults); var files := Walk(t, Segs(dir));
            && (ok <==> forall q :: q in files ==> q !in faults.open)
            && (ok ==> (es == TarEntries(t, dir) <==> forall q :: q in files ==> q !in faults.stat))
  {
    var files := Walk(t, Segs(dir));
    WalkPackable(t, dir, Segs(dir));
    WrittenCount(t, dir, files, faults);
    assert forall i :: 0 <= i < |files| ==> files[i] in files;
    if forall q :: q in files ==> q !in faults.open && q !in faults.stat {
      WrittenAll(t, dir, files, faults);
    }
  }

  /** The entries of a directory whose files can all be read. */
  function TarEntries(t: Tree, dir: string): seq<TarEntry>
    requires WellFormed(t) && IsAbs(dir) && Segs(dir) in t
  {
    WalkPackable(t, dir, Segs(dir));
    TarEntriesFor(t, dir, Walk(t, Segs(dir)))
  }

  /** A Stat that fails drops the entry of its file and nothing else. */
  lemma TarSkips(t: Tree, dir: string, faults: ReadFaults)
    requires WellFormed(t) && IsAbs(dir) && Segs(dir) in t && TarWritten(t, dir, faults).1
    ensures exists idx :: Selects(Walk(t, Segs(dir)), faults.stat, idx) &&
                          Picks(TarEntries(t, dir), idx, TarWritten(t, dir, faults).0)
  {
    WalkPackable(t, dir, Segs(dir));
    var idx := WrittenKeeps(t, dir, Walk(t, Segs(dir)), faults);
  }

  // ----- the imperative form -----

  class Workspace {
    var tree: Tree

    constructor (t: Tree)
      ensures tree == t
    {
      tree := t;
    }

    method ExtractFile(e: ZipEntry, p: Path, clock: int) returns (ok: bool)
      modifies this
      ensures (tree, ok) == FileExtracted(old(tree), e, p, clock)
    {
      if e.IsDir() {
        var r := MkdirAll(tree, p);
        tree := r.0;
        return r.1;
      }
      if !e.opens {
        return false;
      }
      var handle := OpenTrunc(tree, p, e.mode, clock);
      tree := handle.0;
      if !handle.1 {
        return false;
      }
      tree := tree[p := File(e.data, tree[p].attrs)];
      if !e.intact {
        return false;
      }
      tree := tree[p := File(e.data, tree[p].attrs.(mtime := EPOCH))];
      assert tree == handle.0[p := File(e.data, handle.0[p].attrs.(mtime := EPOCH))];
      return true;
    }

    method ExtractArchive(parentDir: string, zip: Option<seq<ZipEntry>>, clock: int) returns (folder: Option<string>)
      modifies this
      ensures (tree, folder.Some?) == ArchiveExtracted(old(tree), parentDir, zip, clock)
      ensures folder.Some? ==> folder.value == Destination(parentDir)
    {
      if zip.None? {
        return None;
      }
      var dest := Destination(parentDir);
      var made := Mkdir(tree, Segs(dest));
      tree := made.0;
      if !made.1 {
        return None;
      }
      var es := zip.value;
      assert es[0..] == es;
      for i := 0 to |es|
        invariant ArchiveExtracted(old(tree), parentDir, zip, clock) == Extract(tree, dest, es[i..], clock)
      {
        assert es[i..][1..] == es[i + 1..];
        var filePath := SafeArchiveEntryPath(dest, es[i].name);
        if filePath.None? {
          return None;
        }
        var ok := ExtractFile(es[i], Segs(filePath.value), clock);
        if !ok {
          return None;
        }
      }
      return Some(dest);
    }
  }

  class TarWriter {
    var entries: seq<TarEntry>

    constructor ()
      ensures entries == []
    {
      entries := [];
    }

    /** filepath.WalkDir from the path fp, with the callback of createTarGz. */
    method AddFiles(t: Tree, dir: string, fp: string, faults: ReadFaults) returns (ok: bool)
      requires WellFormed(t) && IsAbs(dir) && IsAbs(fp) && fp == Clean(fp)
      requires Segs(dir) <= Segs(fp) && Segs(fp) in t
      requires Packable(t, dir, Walk(t, Segs(fp)))
      modifies this
      ensures entries == old(entries) + Written(t, dir, Walk(t, Segs(fp)), faults).0
      ensures ok == Written(t, dir, Walk(t, Segs(fp)), faults).1
      decreases |Below(t, Segs(fp))|
    {
      var p := Segs(fp);
      if t[p].File? {
        SingleFile(t, dir, fp, faults);
        if p in faults.open {
          return false;
        }
        if p in faults.stat {
          return true;
        }
        entries := entries + [TarEntry(Rel(dir, fp).value, t[p].attrs, t[p].data)];
        return true;
      }
      var names := Sorted(Children(t, p));
      ghost var visited: seq<Path> := [];
      WalkStart(t, p, names);
      for i := 0 to |names|
        invariant forall n :: n in names ==> p + [n] in t
        invariant Packable(t, dir, visited)
        invariant visited + WalkAll(t, p, names[i..]) == Walk(t, p)
        invariant Written(t, dir, visited, faults).1
        invariant entries == old(entries) + Written(t, dir, visited, faults).0
      {
        ghost var here, rest := WalkStep(t, dir, fp, names, i, visited);
        var child := JoinPath(fp, names[i]);
        WrittenStep(t, dir, visited, here, rest, faults, old(entries));
        ok := AddFiles(t, dir, child, faults);
        if !ok {
          return;
        }
        visited := visited + here;
      }
      assert visited + [] == visited;
      return true;
    }

    /** createTarGz, up to the compression of what it writes. */
    method CreateTar(t: Tree, dir: string, faults: ReadFaults) returns (ok: bool)
      requires WellFormed(t) && IsAbs(dir) && dir == Clean(dir) && Segs(dir) in t
      modifies this
      ensures entries == old(entries) + TarWritten(t, dir, faults).0
      ensures ok == TarWritten(t, dir, faults).1
    {
      WalkPackable(t, dir, Segs(dir));
      ok := AddFiles(t, dir, dir, faults);
    }
  }

  lemma ConcatAssociative<T>(a: seq<T>, b: seq<T>, c: seq<T>)
    ensures a + b + c == a + (b + c)
  {
  }

  lemma WalkStart(t: Tree, p: Path, names: seq<string>)
    requires p in t && t[p].Dir? && names == Sorted(Children(t, p))
    ensures forall n :: n in names ==> p + [n] in t
    ensures [] + WalkAll(t, p, names[0..]) == Walk(t, p)
  {
    forall n ensures n in names <==> p + [n] in t { ChildIn(t, p, n); }
    assert names[0..] == names;
  }

  /** The walk goes on with the files below the i-th child. */
  lemma WalkStep(t: Tree, dir: string, fp: string, names: seq<string>, i: nat, visited: seq<Path>)
    returns (here: seq<Path>, rest: seq<Path>)
    requires WellFormed(t) && IsAbs(dir) && IsAbs(fp) && Segs(dir) <= Segs(fp) && Segs(fp) in t
    requires i < |names| && forall n :: n in names ==> Segs(fp) + [n] in t
    ensures var child := JoinPath(fp, names[i]);
            && IsAbs(child) && child == Clean(child) && Segs(dir) <= Segs(child) && Segs(child) in t
            && |Below(t, Segs(child))| < |Below(t, Segs(fp))|
            && here == Walk(t, Segs(child)) && Packable(t, dir, here)
    ensures rest == WalkAll(t, Segs(fp), names[i + 1..]) && Packable(t, dir, rest)
    ensures visited + WalkAll(t, Segs(fp), names[i..]) == visited + here + rest
  {
    var p, n := Segs(fp), names[i];
    assert n in names;
    ChildPath(t, fp, n);
    BelowShrinks(t, p, n);
    WalkPackable(t, dir, p + [n]);
    here, rest := Walk(t, p + [n]), WalkAll(t, p, names[i + 1..]);
    WalkAllPackable(t, dir, p, names[i + 1..]);
    WalkAllUnfold(t, p, names, i, visited);
  }

  lemma WalkAllPackable(t: Tree, dir: string, p: Path, names: seq<string>)
    requires WellFormed(t) && IsAbs(dir) && Segs(dir) <= p && p in t
    requires forall n :: n in names ==> p + [n] in t
    ensures Packable(t, dir, WalkAll(t, p, names))
  {
    var d := Segs(dir);
    forall q ensures q in WalkAll(t, p, names) ==> Normal(true, q) && d <= q && q in t && t[q].File? {
      WalkAllVisits(t, p, names, q);
    }
  }

  /** What has been written once the files below one more child are done, if they can be opened. */
  lemma WrittenStep(t: Tree, dir: string, visited: seq<Path>, here: seq<Path>, rest: seq<Path>, faults: ReadFaults,
                    before: seq<TarEntry>)
    requires Packable(t, dir, visited) && Packable(t, dir, here) && Packable(t, dir, rest)
    requires Written(t, dir, visited, faults).1
    ensures Packable(t, dir, visited + here) && Packable(t, dir, visited + here + rest)
    ensures var sofar, more := Written(t, dir, visited, faults).0, Written(t, dir, here, faults);
            && before + sofar + more.0 == before + (sofar + more.0)
            && Written(t, dir, visited + here, faults) == (sofar + more.0, more.1)
            && (!more.1 ==> Written(t, dir, visited + here + rest, faults) == (sofar + more.0, false))
  {
    WrittenConcat(t, dir, visited, here, faults);
    WrittenConcat(t, dir, visited + here, rest, faults);
  }

  lemma WalkAllUnfold(t: Tree, p: Path, names: seq<string>, i: nat, visited: seq<Path>)
    requires p in t && i < |names| && forall n :: n in names ==> p + [n] in t
    ensures names[i] in names && visited + WalkAll(t, p, names[i..]) ==
            visited + Walk(t, p + [names[i]]) + WalkAll(t, p, names[i + 1..])
  {
    assert names[i..][0] == names[i] && names[i..][1..] == names[i + 1..];
    ConcatAssociative(visited, Walk(t, p + [names[i]]), WalkAll(t, p, names[i + 1..]));
  }

  lemma SingleFile(t: Tree, dir: string, fp: string, faults: ReadFaults)
    requires IsAbs(dir) && IsAbs(fp) && fp == Clean(fp)
    requires Segs(dir) <= Segs(fp) && Segs(fp) in t && t[Segs(fp)].File? && Normal(true, Segs(fp))
    requires Packable(t, dir, [Segs(fp)])
    ensures Rel(dir, fp).Some?
    ensures var p := Segs(fp);
            Written(t, dir, [p], faults) ==
            if p in faults.open then ([], false)
            else if p in faults.stat then ([], true)
            else ([TarEntry(Rel(dir, fp).value, t[p].attrs, t[p].data)], true)
  {
    RelUnder(dir, fp);
    var p := Segs(fp);
    assert [p][1..] == [];
    assert TarEntryFor(t, dir, p) == TarEntry(Rel(dir, fp).value, t[p].attrs, t[p].data);
    assert [TarEntryFor(t, dir, p)] + [] == [TarEntryFor(t, dir, p)];
  }

  lemma ChildPath(t: Tree, fp: string, n: string)
    requires WellFormed(t) && IsAbs(fp) && Segs(fp) + [n] in t
    ensures IsAbs(JoinPath(fp, n)) && Segs(JoinPath(fp, n)) == Segs(fp) + [n]
    ensures JoinPath(fp, n) == Clean(JoinPath(fp, n))
  {
    assert (Segs(fp) + [n])[|Segs(fp)|] == n;
    JoinSegment(fp, n);
    JoinSegs(fp, n);
    SegsRender(true, Segs(fp) + [n]);
  }
}
