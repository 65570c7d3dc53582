/** The private working directory of a reconcile: a tree of directories and regular files, named
    by the cleaned segments of their absolute paths, and the walk that filepath.WalkDir makes. */
module Trees {
  import opened Strings
  import opened Paths

  datatype Attrs = Attrs(mode: nat, mtime: int)
  datatype Node = Dir | File(data: Bytes, attrs: Attrs)
  type Tree = map<Path, Node>

  /** Everything above a node is a directory, and names are plain segments. */
  ghost predicate WellFormed(t: Tree) {
    && [] in t && t[[]].Dir?
    && (forall p :: p in t ==> Normal(true, p))
    && (forall p, k :: p in t && 0 <= k < |p| ==> p[..k] in t && t[p[..k]].Dir?)
  }

  predicate IsDirAt(t: Tree, p: Path) {
    p in t && t[p].Dir?
  }

  // ----- the system calls -----

  function Prefixes(p: Path): set<Path> {
    set k | 0 <= k <= |p| :: p[..k]
  }

  /** os.MkdirAll: an existing directory is fine, a file on the way is an error that changes nothing. */
  function MkdirAll(t: Tree, p: Path): (r: (Tree, bool)) {
    if exists q :: q in Prefixes(p) && q in t && t[q].File? then (t, false)
    else (t + (map q | q in Prefixes(p) :: Dir), true)
  }

  /** os.Mkdir: the parent must be a directory and the name must be free. */
  function Mkdir(t: Tree, p: Path): (Tree, bool) {
    if p == [] || !IsDirAt(t, p[..|p| - 1]) || p in t then (t, false)
    else (t[p := Dir], true)
  }

  /** os.OpenFile with O_CREATE|O_WRONLY|O_TRUNC: an existing file keeps its mode. */
  function OpenTrunc(t: Tree, p: Path, mode: nat, clock: int): (Tree, bool) {
    if p == [] || !IsDirAt(t, p[..|p| - 1]) || IsDirAt(t, p) then (t, false)
    else (t[p := File("", Attrs(if p in t then t[p].attrs.mode else mode, clock))], true)
  }

  lemma MkdirAllKeepsTree(t: Tree, p: Path)
    requires WellFormed(t) && Normal(true, p)
    ensures WellFormed(MkdirAll(t, p).0)
    ensures forall q :: q in t ==> q in MkdirAll(t, p).0 && MkdirAll(t, p).0[q] == t[q]
    ensures forall q :: q in MkdirAll(t, p).0 && q !in t ==> q in Prefixes(p) && MkdirAll(t, p).0[q] == Dir
  {
    var t' := MkdirAll(t, p).0;
    if MkdirAll(t, p).1 {
      forall q | q in t' ensures Normal(true, q) {
      }
      forall q, k | q in t' && 0 <= k < |q| ensures q[..k] in t' && t'[q[..k]].Dir? {
        if q !in t {
          var n :| 0 <= n <= |p| && q == p[..n];
          assert q[..k] == p[..k];
          assert q[..k] in Prefixes(p);
        }
      }
    }
  }

  /** What os.MkdirAll does below an existing directory d. */
  lemma MkdirAllBelow(t: Tree, d: Path, r: Path)
    requires WellFormed(t) && IsDirAt(t, d)
    ensures MkdirAll(t, d + r).1 <==> forall q :: q in Prefixes(r) ==> !(d + q in t && t[d + q].File?)
    ensures MkdirAll(t, d + r).1 ==>
              forall q :: (d + q in MkdirAll(t, d + r).0 <==> q in Prefixes(r) || d + q in t) &&
                          (d + q in MkdirAll(t, d + r).0 ==>
                             MkdirAll(t, d + r).0[d + q] == if q in Prefixes(r) then Dir else t[d + q])
  {
    forall q ensures d + q in Prefixes(d + r) <==> q in Prefixes(r) {
      PrefixBelow(d, r, q);
    }
    forall p | p in Prefixes(d + r) ensures (p in t && t[p].Dir?) || exists q :: q in Prefixes(r) && p == d + q {
      var k :| 0 <= k <= |d + r| && p == (d + r)[..k];
      if k <= |d| {
        assert p == d[..k] && d[..|d|] == d;
      } else {
        assert p == d + r[..k - |d|];
        assert r[..k - |d|] in Prefixes(r);
      }
    }
  }

  lemma PrefixBelow(d: Path, r: Path, q: Path)
    ensures d + q in Prefixes(d + r) <==> q in Prefixes(r)
  {
    if q in Prefixes(r) {
      var k :| 0 <= k <= |r| && q == r[..k];
      assert d + q == (d + r)[..|d| + k];
    }
    if d + q in Prefixes(d + r) {
      var k :| 0 <= k <= |d + r| && d + q == (d + r)[..k];
      assert k == |d| + |q| && (d + q)[|d|..] == q;
      assert q == r[..|q|];
    }
  }

  lemma OpenTruncKeepsTree(t: Tree, p: Path, mode: nat, clock: int, n: Node)
    requires WellFormed(t) && Normal(true, p) && n.File? && OpenTrunc(t, p, mode, clock).1
    ensures WellFormed(t[p := n])
  {
    var t' := t[p := n];
    forall q, k | q in t' && 0 <= k < |q| ensures q[..k] in t' && t'[q[..k]].Dir? {
      if q == p {
        if k < |p| - 1 {
          assert p[..|p| - 1][..k] == p[..k];
        }
      } else {
        assert t[q[..k]].Dir?;
        assert q[..k] == p ==> IsDirAt(t, p);
      }
    }
  }

  // ----- the regular files below a directory -----

  /** Relative segments to node, for the regular files at or below root. */
  ghost function FilesUnder(t: Tree, root: Path): (m: map<Path, Node>)
    ensures forall r :: r in m <==> root + r in t && t[root + r].File?
    ensures forall r :: r in m ==> m[r] == t[root + r]
  {
    var below := set q | q in t && root <= q && t[q].File? :: q[|root|..];
    assert forall r :: r in below ==> root + r in t && t[root + r].File? by {
      forall r | r in below ensures root + r in t && t[root + r].File? {
        var q :| q in t && root <= q && t[q].File? && r == q[|root|..];
        assert root + r == q;
      }
    }
    assert forall r :: root + r in t && t[root + r].File? ==> r in below by {
      forall r | root + r in t && t[root + r].File? ensures r in below {
        assert (root + r)[|root|..] == r;
      }
    }
    map r | r in below :: t[root + r]
  }

  // ----- the walk -----

  function Children(t: Tree, p: Path): set<string> {
    set q | q in t && |q| == |p| + 1 && p <= q :: q[|p|]
  }

  lemma ChildIn(t: Tree, p: Path, n: string)
    ensures n in Children(t, p) <==> p + [n] in t
  {
    if n in Children(t, p) {
      var q :| q in t && |q| == |p| + 1 && p <= q && n == q[|p|];
      assert q == p + [n];
    }
    if p + [n] in t {
      assert (p + [n])[|p|] == n && p <= p + [n];
    }
  }

  ghost function Below(t: Tree, p: Path): set<Path> {
    set q | q in t && p <= q
  }

  lemma BelowShrinks(t: Tree, p: Path, n: string)
    requires p in t
    ensures |Below(t, p + [n])| < |Below(t, p)|
  {
    assert p in Below(t, p) && p !in Below(t, p + [n]);
    assert Below(t, p + [n]) <= Below(t, p) - {p} by {
      forall q | q in Below(t, p + [n]) ensures q in Below(t, p) - {p} {
        assert p <= p + [n] <= q;
      }
    }
    SubsetSize(Below(t, p + [n]), Below(t, p) - {p});
  }

  lemma {:induction false} SubsetSize<T>(a: set<T>, b: set<T>)
    requires a <= b
    ensures |a| <= |b|
  {
    assert b == a + (b - a);
  }

  /** The regular files that filepath.WalkDir visits from p, in visiting order. */
  function Walk(t: Tree, p: Path): seq<Path>
    requires p in t
    decreases |Below(t, p)|, 1, 0
  {
    if t[p].File? then [p]
    else
      var names := Sorted(Children(t, p));
      assert forall n :: n in names ==> p + [n] in t by {
        forall n | n in names ensures p + [n] in t { ChildIn(t, p, n); }
      }
      WalkAll(t, p, names)
  }

  function WalkAll(t: Tree, p: Path, names: seq<string>): seq<Path>
    requires p in t
    requires forall n :: n in names ==> p + [n] in t
    decreases |Below(t, p)|, 0, |names|
  {
    if names == [] then []
    else
      BelowShrinks(t, p, names[0]);
      Walk(t, p + [names[0]]) + WalkAll(t, p, names[1..])
  }

  /** The walk visits exactly the regular files at or below its start. */
  lemma {:induction false} WalkVisits(t: Tree, p: Path, q: Path)
    requires WellFormed(t) && p in t
    ensures q in Walk(t, p) <==> q in t && t[q].File? && p <= q
    decreases |Below(t, p)|, 1, 0
  {
    if t[p].File? {
      assert p <= q ==> q[..|p|] == p && (|q| == |p| ==> q == p);
    } else {
      var names := Sorted(Children(t, p));
      forall n ensures n in names <==> p + [n] in t { ChildIn(t, p, n); }
      WalkAllVisits(t, p, names, q);
      if q in t && t[q].File? && p <= q {
        StepTowards(t, p, q);
      }
    }
  }

  /** A file strictly below p is reached through a child of p. */
  lemma StepTowards(t: Tree, p: Path, q: Path)
    requires WellFormed(t) && p in t && t[p].Dir? && q in t && t[q].File? && p <= q
    ensures |p| < |q| && p + [q[|p|]] in t
  {
    assert |q| == |p| ==> q == p;
    var child := q[..|p| + 1];
    assert child == p + [q[|p|]];
    assert |p| + 1 == |q| ==> child == q;
  }

  lemma {:induction false} WalkAllVisits(t: Tree, p: Path, names: seq<string>, q: Path)
    requires WellFormed(t) && p in t
    requires forall n :: n in names ==> p + [n] in t
    ensures q in WalkAll(t, p, names) <==>
            q in t && t[q].File? && |p| < |q| && p <= q && q[|p|] in names
    decreases |Below(t, p)|, 0, |names|
  {
    if names != [] {
      BelowShrinks(t, p, names[0]);
      WalkVisits(t, p + [names[0]], q);
      WalkAllVisits(t, p, names[1..], q);
      assert p + [names[0]] <= q <==> |p| < |q| && p <= q && q[|p|] == names[0] by {
        if |p| < |q| && p <= q && q[|p|] == names[0] {
          assert q[..|p| + 1] == p + [names[0]];
        }
        if p + [names[0]] <= q {
          assert q[|p|] == (p + [names[0]])[|p|] && p <= p + [names[0]];
        }
      }
    }
  }

  // ----- the order of the walk -----

  predicate PathLess(a: Path, b: Path) {
    b != [] && (a == [] || Less(a[0], b[0]) || (a[0] == b[0] && PathLess(a[1..], b[1..])))
  }

  lemma {:induction false} PathLessAsymmetric(a: Path, b: Path)
    ensures !(PathLess(a, b) && PathLess(b, a)) && !PathLess(a, a)
  {
    if a != [] {
      LessTotal(a[0], a[0]);
      PathLessAsymmetric(a[1..], a[1..]);
      if b != [] {
        LessTotal(a[0], b[0]);
        PathLessAsymmetric(a[1..], b[1..]);
      }
    }
  }

  lemma {:induction false} PathLessCommon(p: Path, a: Path, b: Path)
    ensures PathLess(p + a, p + b) <==> PathLess(a, b)
  {
    if p == [] {
      assert p + a == a && p + b == b;
    } else {
      LessTotal(p[0], p[0]);
      assert (p + a)[1..] == p[1..] + a && (p + b)[1..] == p[1..] + b;
      PathLessCommon(p[1..], a, b);
    }
  }

  ghost predicate PathIncreasing(ps: seq<Path>) {
    forall i, j :: 0 <= i < j < |ps| ==> PathLess(ps[i], ps[j])
  }

  lemma IncreasingConcat(a: seq<Path>, b: seq<Path>)
    requires PathIncreasing(a) && PathIncreasing(b)
    requires forall x, y :: x in a && y in b ==> PathLess(x, y)
    ensures PathIncreasing(a + b)
  {
    forall i, j | 0 <= i < j < |a + b| ensures PathLess((a + b)[i], (a + b)[j]) {
      if i < |a| <= j {
        assert a[i] in a && b[j - |a|] in b;
      }
    }
  }

  /** The walk visits files in strictly increasing order, component by component. */
  lemma {:induction false} WalkIncreases(t: Tree, p: Path)
    requires WellFormed(t) && p in t
    ensures PathIncreasing(Walk(t, p))
    decreases |Below(t, p)|, 1, 0
  {
    if t[p].Dir? {
      var names := Sorted(Children(t, p));
      forall n ensures n in names <==> p + [n] in t { ChildIn(t, p, n); }
      WalkAllIncreases(t, p, names);
    }
  }

  lemma {:induction false} WalkAllIncreases(t: Tree, p: Path, names: seq<string>)
    requires WellFormed(t) && p in t && Increasing(names)
    requires forall n :: n in names ==> p + [n] in t
    ensures PathIncreasing(WalkAll(t, p, names))
    decreases |Below(t, p)|, 0, |names|
  {
    if names != [] {
      BelowShrinks(t, p, names[0]);
      var first, rest := Walk(t, p + [names[0]]), WalkAll(t, p, names[1..]);
      WalkIncreases(t, p + [names[0]]);
      WalkAllIncreases(t, p, names[1..]);
      forall x, y | x in first && y in rest ensures PathLess(x, y) {
        WalkVisits(t, p + [names[0]], x);
        WalkAllVisits(t, p, names[1..], y);
        assert p + [names[0]] <= x;
        assert x[|p|] == (p + [names[0]])[|p|];
        var a, b := x[|p|..], y[|p|..];
        assert x == p + a && y == p + b && a[0] == names[0] && b[0] in names[1..];
        PathLessCommon(p, a, b);
      }
      IncreasingConcat(first, rest);
    }
  }

  /** An increasing list is determined by its elements. */
  lemma {:induction false} IncreasingUnique(a: seq<Path>, b: seq<Path>)
    requires PathIncreasing(a) && PathIncreasing(b)
    requires forall x :: x in a <==> x in b
    ensures a == b
  {
    assert a != [] ==> a[0] in a;
    assert b != [] ==> b[0] in b;
    if a != [] && b != [] {
      SameFirst(a, b);
      SameRest(a, b);
      SameRest(b, a);
      IncreasingUnique(a[1..], b[1..]);
      assert a == [a[0]] + a[1..] && b == [b[0]] + b[1..];
    }
  }

  lemma SameFirst(a: seq<Path>, b: seq<Path>)
    requires PathIncreasing(a) && PathIncreasing(b) && a != [] && b != [] && a[0] in b && b[0] in a
    ensures a[0] == b[0]
  {
    PathLessAsymmetric(a[0], b[0]);
  }

  lemma SameRest(a: seq<Path>, b: seq<Path>)
    requires PathIncreasing(a) && a != [] && b != [] && a[0] == b[0] && forall x :: x in a ==> x in b
    ensures forall x :: x in a[1..] ==> x in b[1..]
  {
    forall x | x in a[1..] ensures x in b[1..] {
      var k :| 1 <= k < |a| && a[k] == x;
      PathLessAsymmetric(a[0], x);
      assert x in a && x in b;
    }
  }
}
