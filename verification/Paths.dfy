/** The lexical path layer: Go's path and path/filepath functions on a system whose separator
    is '/', and the containment test for archive entry names that is built on them. */
module Paths {
  import opened Strings

  /** The cleaned segments of a path. */
  type Path = seq<string>

  predicate IsAbs(p: string) {
    p != "" && p[0] == '/'
  }

  /** One step of Clean: append a segment to the output, or backtrack over the last one. */
  function Push(rooted: bool, acc: Path, s: string): Path {
    if s == "" || s == "." then acc
    else if s != ".." then acc + [s]
    else if acc != [] && acc[|acc| - 1] != ".." then acc[..|acc| - 1]
    else if rooted then acc
    else acc + [".."]
  }

  function Norm(rooted: bool, parts: seq<string>, acc: Path): Path {
    if parts == [] then acc else Norm(rooted, parts[1..], Push(rooted, acc, parts[0]))
  }

  function Segs(p: string): Path {
    Norm(IsAbs(p), Split(p, '/'), [])
  }

  function Render(rooted: bool, segs: Path): string {
    if rooted then "/" + Join(segs, '/')
    else if segs == [] then "."
    else Join(segs, '/')
  }

  /** path.Clean and filepath.Clean. */
  function Clean(p: string): string {
    Render(IsAbs(p), Segs(p))
  }

  /** path.Join and filepath.Join of two elements: empty elements are ignored. */
  function JoinPath(a: string, b: string): string {
    if a == "" then if b == "" then "" else Clean(b)
    else if b == "" then Clean(a)
    else Clean(a + "/" + b)
  }

  /** path.Base and filepath.Base: the last element once trailing slashes are removed. */
  function Base(p: string): string {
    if p == "" then "."
    else
      var q := StripTrailingSlashes(p);
      if q == "" then "/" else var parts := Split(q, '/'); parts[|parts| - 1]
  }

  function StripTrailingSlashes(p: string): string {
    if p != "" && p[|p| - 1] == '/' then StripTrailingSlashes(p[..|p| - 1]) else p
  }

  function CommonPrefix(a: Path, b: Path): (n: nat)
    ensures n <= |a| && n <= |b| && a[..n] == b[..n]
    ensures n < |a| && n < |b| ==> a[n] != b[n]
  {
    if a != [] && b != [] && a[0] == b[0] then 1 + CommonPrefix(a[1..], b[1..]) else 0
  }

  datatype Option<+T> = None | Some(value: T)

  /** filepath.Rel: None stands for the error "can't make target relative to base". */
  function Rel(base: string, target: string): Option<string> {
    var b, t := Segs(base), Segs(target);
    if IsAbs(base) != IsAbs(target) then None
    else if b == t then Some(".")
    else
      var n := CommonPrefix(b, t);
      if n < |b| && b[n] == ".." then None
      else Some(Join(Dots(|b| - n) + t[n..], '/'))
  }

  function Dots(n: nat): (d: Path)
    ensures |d| == n && forall i :: 0 <= i < n ==> d[i] == ".."
  {
    seq(n, _ => "..")
  }

  // ----- what cleaning computes -----

  /** The segment lists that Clean produces: no empty or "." segment, no separator, and ".."
      only at the front of a relative path. */
  predicate Normal(rooted: bool, segs: Path) {
    && (forall i :: 0 <= i < |segs| ==>
          segs[i] != "" && segs[i] != "." && '/' !in segs[i] && (rooted ==> segs[i] != ".."))
    && (forall i, j :: 0 <= i < j < |segs| && segs[j] == ".." ==> segs[i] == "..")
  }

  predicate ValidSegment(s: string) {
    s != "" && s != "." && s != ".." && '/' !in s
  }

  lemma {:induction false} NormNormal(rooted: bool, parts: seq<string>, acc: Path)
    requires Normal(rooted, acc)
    requires forall p :: p in parts ==> '/' !in p
    ensures Normal(rooted, Norm(rooted, parts, acc))
  {
    if parts != [] {
      NormNormal(rooted, parts[1..], Push(rooted, acc, parts[0]));
    }
  }

  lemma SegsNormal(p: string)
    ensures Normal(IsAbs(p), Segs(p))
  {
    SplitPieces(p, '/');
    NormNormal(IsAbs(p), Split(p, '/'), []);
  }

  lemma {:induction false} NormConcat(rooted: bool, a: seq<string>, b: seq<string>, acc: Path)
    ensures Norm(rooted, a + b, acc) == Norm(rooted, b, Norm(rooted, a, acc))
  {
    if a == [] {
      assert a + b == b;
    } else {
      assert (a + b)[1..] == a[1..] + b;
      NormConcat(rooted, a[1..], b, Push(rooted, acc, a[0]));
    }
  }

  /** Cleaning changes nothing that is already clean. */
  lemma {:induction false} NormIdentity(rooted: bool, parts: seq<string>, acc: Path)
    requires Normal(rooted, acc + parts)
    ensures Norm(rooted, parts, acc) == acc + parts
  {
    if parts == [] {
      assert acc + parts == acc;
    } else {
      var whole := acc + parts;
      assert whole[|acc|] == parts[0];
      if parts[0] == ".." && acc != [] {
        assert whole[|acc| - 1] == acc[|acc| - 1];
      }
      assert Push(rooted, acc, parts[0]) == acc + [parts[0]];
      assert acc + [parts[0]] + parts[1..] == whole;
      NormIdentity(rooted, parts[1..], acc + [parts[0]]);
    }
  }

  lemma SegsRender(rooted: bool, segs: Path)
    requires Normal(rooted, segs)
    ensures IsAbs(Render(rooted, segs)) == rooted
    ensures Segs(Render(rooted, segs)) == segs
  {
    var p := Render(rooted, segs);
    NormIdentity(rooted, segs, []);
    assert [] + segs == segs;
    if segs != [] {
      SplitJoin(segs, '/');
      assert segs[0] != "" && segs[0][0] in segs[0];
      assert Join(segs, '/')[0] == segs[0][0];
    }
    if rooted {
      SplitConcat("", Join(segs, '/'), '/');
      assert "" + ['/'] + Join(segs, '/') == p;
      var pieces := Split(Join(segs, '/'), '/');
      assert Split(p, '/') == [""] + pieces && ([""] + pieces)[1..] == pieces;
      assert Segs(p) == Norm(rooted, pieces, []);
    } else if segs == [] {
      SplitSingle(".", '/');
    }
  }

  lemma CleanIdempotent(p: string)
    ensures Clean(Clean(p)) == Clean(p)
    ensures Segs(Clean(p)) == Segs(p) && IsAbs(Clean(p)) == IsAbs(p)
  {
    SegsNormal(p);
    SegsRender(IsAbs(p), Segs(p));
  }

  /** Joining continues the cleaning of the first element with the pieces of the second. */
  lemma JoinSegs(a: string, b: string)
    requires a != ""
    ensures JoinPath(a, b) == Render(IsAbs(a), Norm(IsAbs(a), Split(b, '/'), Segs(a)))
    ensures IsAbs(JoinPath(a, b)) == IsAbs(a)
    ensures Segs(JoinPath(a, b)) == Norm(IsAbs(a), Split(b, '/'), Segs(a))
    ensures Normal(IsAbs(a), Segs(JoinPath(a, b)))
  {
    var whole := a + "/" + b;
    SplitConcat(a, b, '/');
    assert whole == a + ['/'] + b;
    NormConcat(IsAbs(a), Split(a, '/'), Split(b, '/'), []);
    assert IsAbs(whole) == IsAbs(a);
    assert Segs(whole) == Norm(IsAbs(a), Split(b, '/'), Segs(a));
    assert b == "" ==> Norm(IsAbs(a), Split(b, '/'), Segs(a)) == Segs(a);
    CleanIdempotent(a);
    CleanIdempotent(whole);
    SegsNormal(JoinPath(a, b));
  }

  lemma SegsSingle(s: string)
    requires ValidSegment(s)
    ensures Segs(s) == [s] && s != ""
  {
    SplitSingle(s, '/');
    assert [] + [s] == [s] && s[0] in s;
    NormIdentity(false, [s], []);
  }

  /** Joining a plain name appends it. */
  lemma JoinSegment(a: string, s: string)
    requires a != "" && ValidSegment(s)
    ensures Segs(JoinPath(a, s)) == Segs(a) + [s]
    ensures IsAbs(JoinPath(a, s)) == IsAbs(a) && JoinPath(a, s) != ""
  {
    JoinSegs(a, s);
    SplitSingle(s, '/');
    assert Norm(IsAbs(a), [s], Segs(a)) == Norm(IsAbs(a), [], Push(IsAbs(a), Segs(a), s));
    if !IsAbs(a) && |Segs(a) + [s]| == 1 {
      assert Segs(a) + [s] == [s];
    }
    assert (Segs(a) + [s])[|Segs(a)|] == s;
    RenderNonEmpty(IsAbs(a), Segs(a) + [s]);
  }

  lemma RenderNonEmpty(rooted: bool, segs: Path)
    requires segs == [] || segs[0] != ""
    ensures Render(rooted, segs) != ""
  {
  }

  // ----- the rules of Clean -----

  /** Empty pieces and "." are dropped. */
  lemma CleanDropsDot(p: string, q: string, a: seq<string>, x: string, b: seq<string>)
    requires Split(p, '/') == a + [x] + b && Split(q, '/') == a + b && IsAbs(p) == IsAbs(q) && (x == "" || x == ".")
    ensures Clean(p) == Clean(q)
  {
    var r := IsAbs(p);
    NormConcat(r, a + [x], b, []);
    NormConcat(r, a, [x], []);
    NormConcat(r, a, b, []);
    assert [x][1..] == [];
  }

  /** A name and the ".." after it are dropped together. */
  lemma CleanDropsPair(p: string, q: string, a: seq<string>, x: string, b: seq<string>)
    requires Split(p, '/') == a + [x, ".."] + b && Split(q, '/') == a + b && IsAbs(p) == IsAbs(q) && ValidSegment(x)
    ensures Clean(p) == Clean(q)
  {
    var r := IsAbs(p);
    var acc := Norm(r, a, []);
    NormConcat(r, a + [x, ".."], b, []);
    NormConcat(r, a, [x, ".."], []);
    NormConcat(r, a, b, []);
    NormPair(r, x, acc);
  }

  lemma NormPair(rooted: bool, x: string, acc: Path)
    requires ValidSegment(x)
    ensures Norm(rooted, [x, ".."], acc) == acc
  {
    var pushed := acc + [x];
    assert [x, ".."][1..] == [".."] && [".."][1..] == [];
    assert Push(rooted, acc, x) == pushed && pushed[|pushed| - 1] == x && pushed[..|pushed| - 1] == acc;
    assert Norm(rooted, [".."], pushed) == Norm(rooted, [], Push(rooted, pushed, ".."));
    assert Norm(rooted, [x, ".."], acc) == Norm(rooted, [".."], pushed);
  }

  /** A ".." at the root is dropped. */
  lemma CleanDropsRootParent(p: string, q: string, b: seq<string>)
    requires Split(p, '/') == ["", ".."] + b && Split(q, '/') == [""] + b && IsAbs(p) && IsAbs(q)
    ensures Clean(p) == Clean(q)
  {
    NormConcat(true, ["", ".."], b, []);
    NormConcat(true, [""], b, []);
    assert ["", ".."][1..] == [".."] && [".."][1..] == [] && [""][1..] == [];
    assert Norm(true, ["", ".."], []) == [] == Norm(true, [""], []);
  }

  /** What is left when no rule applies stays as it is; a path with nothing left is "." or "/". */
  lemma CleanKeeps(p: string)
    ensures p != "" && Normal(false, Split(p, '/')) ==> Clean(p) == p
    ensures IsAbs(p) && |p| > 1 && Normal(true, Split(p[1..], '/')) ==> Clean(p) == p
    ensures Clean("") == "." && Clean("/") == "/"
  {
    if p != "" && Normal(false, Split(p, '/')) {
      CleanKeepsRelative(p);
    }
    if IsAbs(p) && |p| > 1 && Normal(true, Split(p[1..], '/')) {
      CleanKeepsAbsolute(p);
    }
    RootSegs();
    SplitSingle("", '/');
    assert Norm(false, [""], []) == [] by { assert [""][1..] == []; }
  }

  lemma CleanKeepsRelative(p: string)
    requires p != "" && Normal(false, Split(p, '/'))
    ensures Clean(p) == p
  {
    NotAbsolute(p);
    JoinSplit(p, '/');
    PlainSegments(p, Split(p, '/'));
  }

  lemma CleanKeepsAbsolute(p: string)
    requires IsAbs(p) && |p| > 1 && Normal(true, Split(p[1..], '/'))
    ensures Clean(p) == p
  {
    var rest := Split(p[1..], '/');
    assert Split(p, '/') == [""] + rest && [] + rest == rest && ([""] + rest)[1..] == rest;
    NormIdentity(true, rest, []);
    JoinSplit(p[1..], '/');
  }

  lemma NotAbsolute(p: string)
    requires p != "" && Normal(false, Split(p, '/'))
    ensures !IsAbs(p)
  {
    AbsoluteBegins(p);
  }

  lemma AbsoluteBegins(p: string)
    ensures IsAbs(p) ==> Split(p, '/')[0] == ""
  {
  }

  // ----- Base -----

  /** sanitizeFilename accepts exactly the plain names, and "/", of which the base is "/" itself. */
  function SanitizeFilename(name: string): (ok: bool)
    ensures ok <==> name == "/" || ValidSegment(name)
  {
    BasePlain(name);
    !(name == "" || name == "." || name == ".." || name != Base(name))
  }

  lemma StripFixed(p: string)
    ensures var q := StripTrailingSlashes(p); q == "" || q[|q| - 1] != '/'
    ensures '/' !in p ==> StripTrailingSlashes(p) == p
  {
  }

  lemma BasePlain(name: string)
    ensures Base(name) == name <==> name == "/" || name == "." || (name != "" && '/' !in name)
  {
    StripFixed(name);
    var q := StripTrailingSlashes(name);
    SplitPieces(q, '/');
    if '/' !in name {
      SplitSingle(name, '/');
    }
  }

  // ----- Rel -----

  /** What filepath.Rel is documented to return: joined to the base it gives back the target. */
  lemma RelRoundTrip(base: string, target: string)
    requires Rel(base, target).Some?
    ensures JoinPath(base, Rel(base, target).value) == Clean(target)
  {
    if base == "" {
      RelFromEmpty(target);
    } else {
      RelFromBase(base, target);
    }
  }

  lemma RelFromBase(base: string, target: string)
    requires base != "" && Rel(base, target).Some?
    ensures JoinPath(base, Rel(base, target).value) == Clean(target)
  {
    JoinSegs(base, Rel(base, target).value);
    RelBackTo(base, target);
  }

  lemma RelBackTo(base: string, target: string)
    requires Rel(base, target).Some?
    ensures Norm(IsAbs(base), Split(Rel(base, target).value, '/'), Segs(base)) == Segs(target)
    ensures IsAbs(base) == IsAbs(target)
  {
    var b, t := Segs(base), Segs(target);
    if b == t {
      SplitSingle(".", '/');
      assert ["."][1..] == [];
    } else {
      SegsNormal(base);
      SegsNormal(target);
      RelSplit(IsAbs(base), b, t);
      RelNorm(IsAbs(base), b, t, CommonPrefix(b, t));
    }
  }

  lemma RelFromEmpty(target: string)
    requires Rel("", target).Some?
    ensures JoinPath("", Rel("", target).value) == Clean(target)
  {
    var t := Segs(target);
    SplitSingle("", '/');
    assert Segs("") == [];
    if t == [] {
      RootSegs();
    } else {
      assert Dots(0) + t == t;
      SegsNormal(target);
      SegsRender(false, t);
    }
  }

  lemma RelSplit(rooted: bool, b: Path, t: Path)
    requires Normal(rooted, t) && b != t
    ensures var n := CommonPrefix(b, t); var r := Dots(|b| - n) + t[n..];
            Split(Join(r, '/'), '/') == r
  {
    var n := CommonPrefix(b, t);
    assert b[..|b|] == b && t[..|t|] == t;
    DotsThen(rooted, t, |b| - n, n);
    SplitJoin(Dots(|b| - n) + t[n..], '/');
  }

  lemma DotsThen(rooted: bool, t: Path, k: nat, n: nat)
    requires Normal(rooted, t) && n <= |t|
    ensures forall p :: p in Dots(k) + t[n..] ==> '/' !in p
  {
    forall p | p in Dots(k) + t[n..] ensures '/' !in p {
      var i :| 0 <= i < |Dots(k) + t[n..]| && (Dots(k) + t[n..])[i] == p;
      assert i < k ==> p == "..";
      assert i >= k ==> p == t[n + i - k];
    }
  }

  lemma RelNorm(rooted: bool, b: Path, t: Path, n: nat)
    requires Normal(rooted, b) && Normal(rooted, t)
    requires n <= |b| && n <= |t| && b[..n] == t[..n]
    requires n < |b| ==> b[n] != ".."
    ensures Norm(rooted, Dots(|b| - n) + t[n..], b) == t
  {
    var common, rest := t[..n], t[n..];
    assert common + rest == t;
    assert Norm(rooted, Dots(|b| - n) + rest, b) == Norm(rooted, rest, common) by {
      NormConcat(rooted, Dots(|b| - n), rest, b);
      NormPop(rooted, b, |b| - n);
    }
    NormIdentity(rooted, rest, common);
  }

  /** As many ".." as there are ordinary segments at the end remove those segments. */
  lemma {:induction false} NormPop(rooted: bool, b: Path, k: nat)
    requires k <= |b| && Normal(rooted, b)
    requires k > 0 ==> b[|b| - k] != ".."
    ensures Norm(rooted, Dots(k), b) == b[..|b| - k]
  {
    if k > 0 {
      assert b[|b| - 1] != "..";
      assert Dots(k)[1..] == Dots(k - 1);
      var shorter := b[..|b| - 1];
      NormPop(rooted, shorter, k - 1);
      assert shorter[..|shorter| - (k - 1)] == b[..|b| - k];
    } else {
      assert b[..|b|] == b;
    }
  }

  /** Under a base, the relative path is the remaining segments. */
  lemma RelUnder(base: string, target: string)
    requires IsAbs(base) == IsAbs(target) && Segs(base) <= Segs(target)
    ensures Rel(base, target) ==
            Some(if Segs(base) == Segs(target) then "." else Join(Segs(target)[|Segs(base)|..], '/'))
  {
    var b, t := Segs(base), Segs(target);
    if b != t {
      CommonWithPrefix(b, t);
      assert Dots(0) + t[|b|..] == t[|b|..];
    }
  }

  lemma {:induction false} CommonWithPrefix(a: Path, b: Path)
    requires a <= b
    ensures CommonPrefix(a, b) == |a|
  {
    if a != [] {
      CommonWithPrefix(a[1..], b[1..]);
    }
  }

  // ----- archive entry names -----

  /** safeArchiveEntryPath: None stands for either of its two errors. */
  function SafeArchiveEntryPath(dest: string, name: string): Option<string> {
    if IsAbs(name) then None
    else
      var joined := JoinPath(dest, name);
      if joined != dest && !(dest + "/" <= joined) then None else Some(joined)
  }

  /** What the test is for: the cleaned join lies at or below the destination, segment by segment. */
  predicate StaysWithin(dest: string, name: string) {
    !IsAbs(name) && Segs(dest) <= Segs(JoinPath(dest, name))
  }

  /** The string-prefix test is the segment-prefix test. */
  lemma SafePathIsSegmentPrefix(dest: string, name: string)
    requires dest == Clean(dest) && dest != "/" && dest != "."
    ensures SafeArchiveEntryPath(dest, name).Some? <==> StaysWithin(dest, name)
  {
    CleanNotEmpty(dest);
    JoinSegs(dest, name);
    SegsNormal(dest);
    var rooted, d := IsAbs(dest), Segs(dest);
    var j := Segs(JoinPath(dest, name));
    assert d != [];
    PrefixOfRender(rooted, d, j);
  }

  lemma CleanNotEmpty(p: string)
    ensures Clean(p) != ""
  {
    SegsNormal(p);
  }

  lemma PrefixOfRender(rooted: bool, d: Path, j: Path)
    requires Normal(rooted, d) && Normal(rooted, j) && d != []
    ensures d <= j <==> Render(rooted, j) == Render(rooted, d) || Render(rooted, d) + "/" <= Render(rooted, j)
  {
    SegsRender(rooted, d);
    SegsRender(rooted, j);
    if d <= j && d != j {
      var rest := j[|d|..];
      assert j == d + rest;
      JoinConcat(d, rest, '/');
    } else if Render(rooted, d) + "/" <= Render(rooted, j) {
      RenderedPrefix(rooted, d, j);
    }
  }

  lemma RenderedPrefix(rooted: bool, d: Path, j: Path)
    requires Normal(rooted, d) && Normal(rooted, j) && d != [] && Render(rooted, d) + "/" <= Render(rooted, j)
    ensures d <= j
  {
    var rd, rj := Render(rooted, d), Render(rooted, j);
    var tail := rj[|rd| + 1..];
    assert rj == rd + ['/'] + tail;
    SplitConcat(rd, tail, '/');
    RenderSplit(rooted, d);
    assert j != [];
    RenderSplit(rooted, j);
    SameLead(if rooted then [""] else [], d, j, Split(tail, '/'));
  }

  lemma SameLead(lead: Path, d: Path, j: Path, tail: Path)
    requires lead + j == lead + d + tail
    ensures d <= j
  {
    assert j == (lead + j)[|lead|..];
    assert (lead + d + tail)[|lead|..] == d + tail;
  }

  lemma RenderSplit(rooted: bool, segs: Path)
    requires Normal(rooted, segs) && segs != []
    ensures Split(Render(rooted, segs), '/') == (if rooted then [""] else []) + segs
  {
    SplitJoin(segs, '/');
    if rooted {
      SplitConcat("", Join(segs, '/'), '/');
      assert "" + ['/'] + Join(segs, '/') == Render(rooted, segs);
    }
  }

  /** The two clean destinations for which the string test rejects names that stay inside. */
  lemma SafePathExactDestinations(dest: string)
    requires dest == Clean(dest)
    ensures (forall name :: SafeArchiveEntryPath(dest, name).Some? <==> StaysWithin(dest, name)) <==>
            dest != "/" && dest != "."
  {
    if dest == "/" || dest == "." {
      JoinSegment(dest, "a");
      RootSegs();
      JoinSegs(dest, "a");
      assert JoinPath(dest, "a") == (if dest == "/" then "/a" else "a");
      assert StaysWithin(dest, "a") && SafeArchiveEntryPath(dest, "a").None?;
    } else {
      forall name ensures SafeArchiveEntryPath(dest, name).Some? <==> StaysWithin(dest, name) {
        SafePathIsSegmentPrefix(dest, name);
      }
    }
  }

  /** With either of them as destination, the only entries accepted are those that denote the
      destination itself. */
  lemma RootDestinationsRejectAll(dest: string, name: string)
    requires dest == "/" || dest == "."
    ensures SafeArchiveEntryPath(dest, name).Some? <==> !IsAbs(name) && JoinPath(dest, name) == dest
    ensures StaysWithin(dest, name) <==> !IsAbs(name)
  {
    JoinSegs(dest, name);
    RootSegs();
    NoDoublePrefix(dest == "/", Segs(JoinPath(dest, name)));
  }

  /** A cleaned path never starts with "//" or "./". */
  lemma NoDoublePrefix(rooted: bool, segs: Path)
    requires Normal(rooted, segs)
    ensures !("//" <= Render(rooted, segs)) && !("./" <= Render(rooted, segs))
  {
    if segs != [] {
      var first, s := segs[0], Join(segs, '/');
      assert first != "" && first != "." && first[0] in first && (|first| > 1 ==> first[1] in first);
      assert first <= s && s[0] == first[0] && (|first| > 1 ==> s[1] == first[1]);
      assert |first| == 1 ==> first == [first[0]];
    }
  }

  lemma RootSegs()
    ensures Segs("/") == [] && Segs(".") == []
  {
    SegsRender(true, []);
    SegsRender(false, []);
  }

  /** Joining a clean path without ".." to a plain name. */
  lemma JoinedToName(a: string, segs: Path)
    requires ValidSegment(a) && segs != [] && forall s :: s in segs ==> ValidSegment(s)
    ensures JoinPath(a, Render(false, segs)) == a + "/" + Render(false, segs)
  {
    SegsSingle(a);
    var all := [a] + segs;
    forall i | 0 <= i < |all| ensures ValidSegment(all[i]) {
      assert all[i] in all;
    }
    SplitJoin(segs, '/');
    assert segs[0] in segs;
    JoinSegs(a, Join(segs, '/'));
    NormIdentity(false, segs, [a]);
    JoinConcat([a], segs, '/');
    assert a[0] in a;
  }

  // ----- joining more than two elements -----

  function NonEmpty(elems: seq<string>): seq<string> {
    if elems == [] then []
    else NonEmpty(elems[..|elems| - 1]) + if elems[|elems| - 1] == "" then [] else [elems[|elems| - 1]]
  }

  /** path.Join: the elements that are not empty, joined with slashes and cleaned once. */
  function JoinElements(elems: seq<string>): string {
    if NonEmpty(elems) == [] then "" else Clean(Join(NonEmpty(elems), '/'))
  }

  /** Joining one element after the other, cleaning each time, is joining all of them and cleaning once. */
  lemma JoinOneMore(elems: seq<string>, x: string)
    ensures JoinPath(JoinElements(elems), x) == JoinElements(elems + [x])
  {
    var e := NonEmpty(elems);
    assert (elems + [x])[..|elems|] == elems;
    assert NonEmpty(elems + [x]) == e + if x == "" then [] else [x];
    if e == [] {
      assert x != "" ==> NonEmpty(elems + [x]) == [x];
    } else {
      var a := Join(e, '/');
      NonEmptyJoin(elems);
      CleanIdempotent(a);
      CleanNonEmpty(a);
      if x == "" {
        assert e + [] == e;
      } else {
        JoinConcat(e, [x], '/');
        JoinAfterClean(a, x);
      }
    }
  }

  lemma {:induction false} NonEmptyJoin(elems: seq<string>)
    ensures forall s :: s in NonEmpty(elems) ==> s != ""
    ensures NonEmpty(elems) != [] ==> Join(NonEmpty(elems), '/') != ""
  {
    if elems != [] {
      NonEmptyJoin(elems[..|elems| - 1]);
    }
    var e := NonEmpty(elems);
    if e != [] {
      assert e[0] in e;
    }
  }

  lemma CleanNonEmpty(a: string)
    ensures Clean(a) != ""
  {
    SegsNormal(a);
    RenderNonEmpty(IsAbs(a), Segs(a));
  }

  lemma JoinAfterClean(a: string, x: string)
    requires a != "" && x != ""
    ensures JoinPath(Clean(a), x) == Clean(a + "/" + x)
  {
    CleanNonEmpty(a);
    SegsNormal(a);
    SegsRender(IsAbs(a), Segs(a));
    JoinSegs(a, x);
    JoinSegs(Clean(a), x);
  }

  /** path.Join of four elements is the one that cleans once. */
  lemma JoinPath4CleansOnce(root: string, kind: string, ns: string, name: string)
    ensures JoinPath4(root, kind, ns, name) == JoinElements([root, kind, ns, name])
  {
    JoinElementsOfTwo(root, kind);
    assert [root, kind] + [ns] == [root, kind, ns] && [root, kind, ns] + [name] == [root, kind, ns, name];
    JoinOneMore([root, kind], ns);
    JoinOneMore([root, kind, ns], name);
  }

  lemma JoinElementsOfTwo(a: string, b: string)
    ensures JoinElements([a, b]) == JoinPath(a, b)
  {
    assert [a, b][..1] == [a] && [a][..0] == [];
    assert NonEmpty([a]) == if a == "" then [] else [a];
    assert NonEmpty([a, b]) == NonEmpty([a]) + if b == "" then [] else [b];
    if a != "" && b != "" {
      assert NonEmpty([a, b]) == [a, b];
      assert [a, b][1..] == [b];
      assert Join([a, b], '/') == a + "/" + b;
    }
  }

  /** path.Join of four elements, one after the other. */
  function JoinPath4(root: string, kind: string, ns: string, name: string): string {
    JoinPath(JoinPath(JoinPath(root, kind), ns), name)
  }

  lemma JoinPath4Segs(root: string, kind: string, ns: string, name: string)
    requires root != "" && ValidSegment(kind) && ValidSegment(ns) && ValidSegment(name)
    ensures Segs(JoinPath4(root, kind, ns, name)) == Segs(root) + [kind, ns, name]
    ensures IsAbs(JoinPath4(root, kind, ns, name)) == IsAbs(root) && JoinPath4(root, kind, ns, name) != ""
  {
    JoinSegment(root, kind);
    JoinSegment(JoinPath(root, kind), ns);
    JoinSegment(JoinPath(JoinPath(root, kind), ns), name);
    assert Segs(root) + [kind] + [ns] + [name] == Segs(root) + [kind, ns, name];
  }

  lemma RelativeJoin4(a: string, b: string, c: string, d: string)
    requires ValidSegment(a) && ValidSegment(b) && ValidSegment(c) && ValidSegment(d)
    ensures Segs(JoinPath4(a, b, c, d)) == [a, b, c, d]
  {
    SegsSingle(a);
    JoinPath4Segs(a, b, c, d);
  }

  lemma RelativeJoin4Clean(a: string, b: string, c: string, d: string)
    requires ValidSegment(a) && ValidSegment(b) && ValidSegment(c) && ValidSegment(d)
    ensures Normal(false, [a, b, c, d]) && JoinPath4(a, b, c, d) == Render(false, [a, b, c, d])
  {
    RelativeJoin4(a, b, c, d);
    SegsSingle(a);
    JoinSegment(a, b);
    JoinSegment(JoinPath(a, b), c);
    JoinSegs(JoinPath(JoinPath(a, b), c), d);
  }

  lemma Split4(a: string, b: string, c: string, d: string)
    requires '/' !in a && '/' !in b && '/' !in c && '/' !in d
    ensures Split(a + "/" + b + "/" + c + "/" + d, '/') == [a, b, c, d]
  {
    var t2 := c + ['/'] + d;
    var t1 := b + ['/'] + t2;
    assert a + ['/'] + t1 == a + "/" + b + "/" + c + "/" + d;
    SplitConcat(a, t1, '/');
    SplitConcat(b, t2, '/');
    SplitConcat(c, d, '/');
    SplitSingle(a, '/');
    SplitSingle(b, '/');
    SplitSingle(c, '/');
    SplitSingle(d, '/');
  }

  /** Four plain names with slashes between them. */
  lemma SlashJoin4(a: string, b: string, c: string, d: string)
    requires ValidSegment(a) && ValidSegment(b) && ValidSegment(c) && ValidSegment(d)
    ensures Segs(a + "/" + b + "/" + c + "/" + d) == [a, b, c, d]
  {
    var whole, parts := a + "/" + b + "/" + c + "/" + d, [a, b, c, d];
    Split4(a, b, c, d);
    assert whole[0] == a[0] && a[0] in a;
    PlainSegments(whole, parts);
  }

  lemma PlainSegments(p: string, parts: Path)
    requires !IsAbs(p) && Split(p, '/') == parts && Normal(false, parts)
    ensures Segs(p) == parts
  {
    assert [] + parts == parts;
    NormIdentity(false, parts, []);
  }

  /** Whatever a clean relative path is joined to, its last name stays the last. */
  lemma JoinKeepsLast(a: string, init: Path, file: string)
    requires Normal(false, init + [file]) && ValidSegment(file)
    ensures var p := JoinPath(a, Render(false, init + [file]));
            Segs(p) != [] && Segs(p)[|Segs(p)| - 1] == file
  {
    var segs := init + [file];
    SegsRender(false, segs);
    SplitJoin(segs, '/');
    if a != "" && Render(false, segs) != "" {
      JoinSegs(a, Render(false, segs));
      NormConcat(IsAbs(a), init, [file], Segs(a));
    }
  }
}
