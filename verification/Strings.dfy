/** Go strings and the few operations of package strings that the controllers use.

    A Go string is a sequence of bytes; here it is a sequence of characters, one per byte,
    so converting between a string and the content of a file is the identity, as in Go. */
module Strings {

  type Bytes = string

  predicate HasSuffix(s: string, suffix: string) {
    |suffix| <= |s| && s[|s| - |suffix|..] == suffix
  }

  lemma SuffixLast(s: string, suffix: string)
    requires suffix != ""
    ensures HasSuffix(s, suffix) ==> s != "" && s[|s| - 1] == suffix[|suffix| - 1]
  {
    if HasSuffix(s, suffix) {
      assert s[|s| - |suffix|..][|suffix| - 1] == s[|s| - 1];
    }
  }

  lemma SuffixParts(s: string, suffix: string)
    ensures HasSuffix(s, suffix) <==> exists p :: s == p + suffix
  {
    if HasSuffix(s, suffix) {
      assert s == s[..|s| - |suffix|] + suffix;
    }
  }

  /** strings.Split with a one-character separator. */
  function Split(s: string, c: char): (parts: seq<string>)
    ensures parts != []
  {
    if s == "" then [""]
    else
      var rest := Split(s[1..], c);
      if s[0] == c then [""] + rest else [[s[0]] + rest[0]] + rest[1..]
  }

  /** strings.Join with a one-character separator. */
  function Join(parts: seq<string>, c: char): string {
    if parts == [] then ""
    else if |parts| == 1 then parts[0]
    else parts[0] + [c] + Join(parts[1..], c)
  }

  /** strings.ReplaceAll for one-character patterns. */
  function ReplaceAll(s: string, from: char, to: char): (r: string)
    ensures |r| == |s|
    ensures forall i :: 0 <= i < |s| ==> r[i] == if s[i] == from then to else s[i]
  {
    seq(|s|, i requires 0 <= i < |s| => if s[i] == from then to else s[i])
  }

  /** The pieces of a split never contain the separator. */
  lemma {:induction false} SplitPieces(s: string, c: char)
    ensures forall p :: p in Split(s, c) ==> c !in p
  {
    if s != "" {
      SplitPieces(s[1..], c);
      var rest := Split(s[1..], c);
      forall p | p in Split(s, c) ensures c !in p {
        assert p in rest || p == "" || p == [s[0]] + rest[0];
      }
    }
  }

  lemma {:induction false} SplitSingle(s: string, c: char)
    requires c !in s
    ensures Split(s, c) == [s]
  {
    if s != "" {
      SplitSingle(s[1..], c);
      assert s[0] in s && [s[0]] + s[1..] == s;
    }
  }

  lemma {:induction false} SplitConcat(a: string, b: string, c: char)
    ensures Split(a + [c] + b, c) == Split(a, c) + Split(b, c)
  {
    var whole := a + [c] + b;
    if a == "" {
      assert whole[1..] == b;
    } else {
      assert whole[1..] == a[1..] + [c] + b;
      SplitConcat(a[1..], b, c);
    }
  }

  lemma {:induction false} JoinSplit(s: string, c: char)
    ensures Join(Split(s, c), c) == s
  {
    if s != "" {
      JoinSplit(s[1..], c);
      var rest := Split(s[1..], c);
      if s[0] == c {
        assert ([""] + rest)[1..] == rest;
        assert s == "" + [c] + s[1..];
      } else {
        var parts := [[s[0]] + rest[0]] + rest[1..];
        assert parts[1..] == rest[1..];
        assert s == [s[0]] + s[1..];
        if |rest| > 1 {
          assert [s[0]] + (rest[0] + [c] + Join(rest[1..], c)) == ([s[0]] + rest[0]) + [c] + Join(rest[1..], c);
        }
      }
    }
  }

  lemma {:induction false} SplitJoin(parts: seq<string>, c: char)
    requires parts != []
    requires forall p :: p in parts ==> c !in p
    ensures Split(Join(parts, c), c) == parts
  {
    SplitSingle(parts[0], c);
    if |parts| > 1 {
      SplitConcat(parts[0], Join(parts[1..], c), c);
      SplitJoin(parts[1..], c);
    }
  }

  lemma {:induction false} JoinConcat(a: seq<string>, b: seq<string>, c: char)
    requires a != [] && b != []
    ensures Join(a + b, c) == Join(a, c) + [c] + Join(b, c)
  {
    assert (a + b)[1..] == a[1..] + b;
    if |a| == 1 {
      assert a[1..] + b == b;
    } else {
      JoinConcat(a[1..], b, c);
      assert a[0] + [c] + (Join(a[1..], c) + [c] + Join(b, c)) == (a[0] + [c] + Join(a[1..], c)) + [c] + Join(b, c);
    }
  }

  // ----- the order in which os.ReadDir and sets.String.List return names -----

  predicate Less(a: string, b: string) {
    b != "" && (a == "" || a[0] < b[0] || (a[0] == b[0] && Less(a[1..], b[1..])))
  }

  /** The two agree up to k, where the first ends or has the smaller byte. */
  predicate SmallerFrom(a: string, b: string, k: nat) {
    k <= |a| && k < |b| && a[..k] == b[..k] && (k == |a| || a[k] < b[k])
  }

  ghost predicate BytesBefore(a: string, b: string) {
    exists k: nat :: SmallerFrom(a, b, k)
  }

  /** The order is byte by byte from the front, a proper prefix coming first. */
  lemma {:induction false} LessIsByteOrder(a: string, b: string)
    ensures Less(a, b) <==> BytesBefore(a, b)
  {
    if b != "" && (a == "" || a[0] < b[0]) {
      assert SmallerFrom(a, b, 0);
    } else if a != "" && b != "" {
      LessIsByteOrder(a[1..], b[1..]);
      if Less(a[1..], b[1..]) && a[0] == b[0] {
        var k: nat :| SmallerFrom(a[1..], b[1..], k);
        assert a[..k + 1] == [a[0]] + a[1..][..k] && b[..k + 1] == [b[0]] + b[1..][..k];
        assert SmallerFrom(a, b, k + 1);
      }
      if k: nat :| SmallerFrom(a, b, k) {
        assert k > 0 ==> a[0] == a[..k][0] && b[0] == b[..k][0];
        if k > 0 {
          assert a[1..][..k - 1] == a[..k][1..] && b[1..][..k - 1] == b[..k][1..];
          assert SmallerFrom(a[1..], b[1..], k - 1);
        }
      }
    }
  }

  lemma {:induction false} LessTransitive(a: string, b: string, c: string)
    requires Less(a, b) && Less(b, c)
    ensures Less(a, c)
  {
    if a != "" && a[0] == b[0] && b[0] == c[0] {
      LessTransitive(a[1..], b[1..], c[1..]);
    }
  }

  lemma {:induction false} LessTotal(a: string, b: string)
    ensures a == b || Less(a, b) || Less(b, a)
    ensures !(Less(a, b) && Less(b, a)) && !Less(a, a)
  {
    if a != "" && b != "" {
      LessTotal(a[1..], b[1..]);
      assert a == [a[0]] + a[1..] && b == [b[0]] + b[1..];
    }
    if a != "" {
      LessTotal(a[1..], a[1..]);
    }
  }

  predicate IsLeast(m: string, s: set<string>) {
    m in s && forall x :: x in s && x != m ==> Less(m, x)
  }

  lemma {:induction false} LeastExists(s: set<string>)
    requires s != {}
    ensures exists m :: IsLeast(m, s)
    decreases |s|
  {
    var x :| x in s;
    if s == {x} {
      assert IsLeast(x, s);
    } else {
      LeastExists(s - {x});
      var m :| IsLeast(m, s - {x});
      LessTotal(m, x);
      if Less(m, x) {
        assert IsLeast(m, s);
      } else {
        forall y | y in s && y != x ensures Less(x, y) {
          if y != m { LessTransitive(x, m, y); }
        }
        assert IsLeast(x, s);
      }
    }
  }

  lemma LeastUnique(s: set<string>)
    ensures forall m, n :: IsLeast(m, s) && IsLeast(n, s) ==> m == n
  {
    forall m, n | IsLeast(m, s) && IsLeast(n, s) ensures m == n {
      LessTotal(m, n);
    }
  }

  predicate Increasing(names: seq<string>) {
    forall i, j :: 0 <= i < j < |names| ==> Less(names[i], names[j])
  }

  /** The elements of a set of names in increasing order. */
  function Sorted(s: set<string>): (names: seq<string>)
    ensures Increasing(names)
    ensures forall x :: x in names <==> x in s
    decreases |s|
  {
    if s == {} then []
    else
      LeastExists(s);
      LeastUnique(s);
      var m :| IsLeast(m, s);
      var rest := Sorted(s - {m});
      assert forall x :: x in rest ==> x in s && x != m;
      IncreasingCons(m, rest);
      [m] + rest
  }

  lemma IncreasingCons(m: string, rest: seq<string>)
    requires Increasing(rest) && forall x :: x in rest ==> Less(m, x)
    ensures Increasing([m] + rest)
  {
    forall i, j | 0 <= i < j < |[m] + rest| ensures Less(([m] + rest)[i], ([m] + rest)[j]) {
      assert ([m] + rest)[j] == rest[j - 1] && rest[j - 1] in rest;
    }
  }
}
