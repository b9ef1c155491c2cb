/**
 File paths as Python's `pathlib` sees them: the components below the root,
 ordered by comparing component lists (each component as a `str`, by code
 point), the `suffix` property, and `sorted(..., reverse=True)`.
 */
module Paths {
  import opened Collections

  /** A resolved file path, as the list of its components below the root. */
  type Path = seq<string>

  /** a and b agree before position k and differ at k. */
  predicate FirstDifferenceAt<T(==)>(a: seq<T>, b: seq<T>, k: nat) {
    k < |a| && k < |b| && a[..k] == b[..k] && a[k] != b[k]
  }

  /** Moving past an equal first element moves the first difference one place back. */
  lemma FirstDifferenceInTails<T>(a: seq<T>, b: seq<T>, k: nat)
    requires a != [] && b != [] && a[0] == b[0] && FirstDifferenceAt(a, b, k)
    ensures 0 < k && FirstDifferenceAt(a[1..], b[1..], k - 1)
    ensures a[1..][k - 1] == a[k] && b[1..][k - 1] == b[k]
  {
    assert a[1..][..k - 1] == a[..k][1..];
    assert b[1..][..k - 1] == b[..k][1..];
  }

  /**
   Python's `a <= b` on `str`: a prefix comes first, and otherwise the first
   position where the two differ decides, by code point.
   */
  function StrLe(a: string, b: string): (le: bool)
    ensures |a| <= |b| && b[..|a|] == a ==> le
    ensures forall k: nat :: FirstDifferenceAt(a, b, k) ==> (le <==> a[k] < b[k])
    decreases |a|
  {
    if a == [] then true
    else if b == [] then false
    else if a[0] != b[0] then
      assert forall k: nat :: FirstDifferenceAt(a, b, k) ==> k == 0 by {
        forall k | 0 < k <= |a| && k <= |b| ensures a[..k][0] == a[0] && b[..k][0] == b[0] {}
      }
      a[0] < b[0]
    else
      var le := StrLe(a[1..], b[1..]);
      assert |a| <= |b| && b[..|a|] == a ==> b[1..][..|a| - 1] == a[1..];
      forall k: nat | FirstDifferenceAt(a, b, k) ensures le <==> a[k] < b[k] {
        FirstDifferenceInTails(a, b, k);
      }
      le
  }

  lemma {:induction false} StrLeTotal(a: string, b: string)
    ensures StrLe(a, b) || StrLe(b, a)
  {
    if a != [] && b != [] && a[0] == b[0] {
      StrLeTotal(a[1..], b[1..]);
    }
  }

  lemma {:induction false} StrLeAntisymmetric(a: string, b: string)
    requires StrLe(a, b) && StrLe(b, a)
    ensures a == b
  {
    if a != [] && b != [] {
      StrLeAntisymmetric(a[1..], b[1..]);
      assert a == [a[0]] + a[1..] && b == [b[0]] + b[1..];
    }
  }

  lemma {:induction false} StrLeTransitive(a: string, b: string, c: string)
    requires StrLe(a, b) && StrLe(b, c)
    ensures StrLe(a, c)
  {
    if a != [] && b != [] && c != [] && a[0] == b[0] == c[0] {
      StrLeTransitive(a[1..], b[1..], c[1..]);
    }
  }

  /**
   Python's `p <= q` on paths: a path comes before the paths below it, and
   otherwise the first component where the two differ decides, as `str`.
   */
  function PathLe(p: Path, q: Path): (le: bool)
    ensures |p| <= |q| && q[..|p|] == p ==> le
    ensures forall k: nat :: FirstDifferenceAt(p, q, k) ==> (le <==> StrLe(p[k], q[k]))
    decreases |p|
  {
    if p == [] then true
    else if q == [] then false
    else if p[0] != q[0] then
      assert forall k: nat :: FirstDifferenceAt(p, q, k) ==> k == 0 by {
        forall k | 0 < k <= |p| && k <= |q| ensures p[..k][0] == p[0] && q[..k][0] == q[0] {}
      }
      StrLe(p[0], q[0])
    else
      var le := PathLe(p[1..], q[1..]);
      assert |p| <= |q| && q[..|p|] == p ==> q[1..][..|p| - 1] == p[1..];
      forall k: nat | FirstDifferenceAt(p, q, k) ensures le <==> StrLe(p[k], q[k]) {
        FirstDifferenceInTails(p, q, k);
      }
      le
  }

  lemma {:induction false} PathLeTotal(p: Path, q: Path)
    ensures PathLe(p, q) || PathLe(q, p)
  {
    if p != [] && q != [] {
      if p[0] == q[0] {
        PathLeTotal(p[1..], q[1..]);
      } else {
        StrLeTotal(p[0], q[0]);
      }
    }
  }

  lemma {:induction false} PathLeAntisymmetric(p: Path, q: Path)
    requires PathLe(p, q) && PathLe(q, p)
    ensures p == q
  {
    if p != [] && q != [] {
      if p[0] == q[0] {
        PathLeAntisymmetric(p[1..], q[1..]);
        assert p == [p[0]] + p[1..] && q == [q[0]] + q[1..];
      } else {
        StrLeAntisymmetric(p[0], q[0]);
      }
    }
  }

  lemma {:induction false} PathLeTransitive(p: Path, q: Path, r: Path)
    requires PathLe(p, q) && PathLe(q, r)
    ensures PathLe(p, r)
  {
    if p != [] && q != [] && r != [] {
      if p[0] == q[0] == r[0] {
        PathLeTransitive(p[1..], q[1..], r[1..]);
      } else if p[0] == q[0] {
      } else if q[0] == r[0] {
      } else {
        StrLeTransitive(p[0], q[0], r[0]);
        if p[0] == r[0] {
          StrLeAntisymmetric(p[0], q[0]);
        }
      }
    }
  }

  /** `PurePath.name`: the last component. */
  function Name(p: Path): string {
    if p == [] then "" else p[|p| - 1]
  }

  /** `str.rfind(".")`: the index of the last dot, or -1. */
  function LastDot(name: string): (i: int)
    ensures -1 <= i < |name|
    ensures i >= 0 ==> name[i] == '.'
    ensures forall j :: i < j < |name| ==> name[j] != '.'
  {
    if name == [] then -1
    else if name[|name| - 1] == '.' then |name| - 1
    else LastDot(name[..|name| - 1])
  }

  /**
   `PurePath.suffix`: the name from its last dot on, provided that dot is
   neither the first nor the last character; otherwise "".
   */
  function Suffix(p: Path): (s: string)
    ensures s == "" || (|s| >= 2 && s[0] == '.' && '.' !in s[1..])
    ensures s != "" ==> |s| < |Name(p)| && Name(p)[|Name(p)| - |s|..] == s
    ensures s != "" <==> exists i :: 0 < i < |Name(p)| - 1 && Name(p)[i] == '.' && '.' !in Name(p)[i + 1..]
  {
    var name := Name(p);
    var i := LastDot(name);
    if 0 < i < |name| - 1 then
      var tail := name[i + 1..];
      assert '.' !in tail by {
        forall j | 0 <= j < |tail| ensures tail[j] != '.' {
          assert tail[j] == name[i + 1 + j];
        }
      }
      name[i..]
    else
      forall j | 0 < j < |name| - 1 && name[j] == '.' ensures '.' in name[j + 1..] {
        assert name[j + 1..][i - j - 1] == '.';
      }
      ""
  }

  /** Is some file in the list of files with the given suffix? */
  ghost predicate AnyWithSuffix(files: seq<Path>, suffix: string) {
    exists f :: f in files && Suffix(f) == suffix
  }

  /** f is a file of the list with the given suffix, and no such file is greater. */
  ghost predicate IsLatest(f: Path, files: seq<Path>, suffix: string) {
    && f in files
    && Suffix(f) == suffix
    && forall g :: g in files && Suffix(g) == suffix ==> PathLe(g, f)
  }

  /** The greatest file with a suffix depends only on which files there are. */
  lemma LatestIsUnique(f: Path, g: Path, files: seq<Path>, others: seq<Path>, suffix: string)
    requires forall h :: h in files <==> h in others
    requires IsLatest(f, files, suffix) && IsLatest(g, others, suffix)
    ensures f == g
  {
    PathLeAntisymmetric(f, g);
  }

  /** The condition `f.suffix == suffix` of the comprehensions. */
  function HasSuffix(suffix: string): Path -> bool {
    f => Suffix(f) == suffix
  }

  /** `[f for f in files if f.suffix == suffix]` */
  function WithSuffix(files: seq<Path>, suffix: string): (r: seq<Path>)
    ensures forall f :: f in r <==> f in files && Suffix(f) == suffix
  {
    Filter(files, HasSuffix(suffix))
  }

  /** Greatest first: no element is greater than one before it. */
  ghost predicate SortedDesc(s: seq<Path>) {
    forall i, j :: 0 <= i < j < |s| ==> PathLe(s[j], s[i])
  }

  /** Places x in a list sorted greatest first, before the first element not greater than x. */
  function Insert(x: Path, s: seq<Path>): (r: seq<Path>)
    requires SortedDesc(s)
    ensures SortedDesc(r)
    ensures multiset(r) == multiset(s) + multiset{x}
  {
    if s == [] then [x]
    else if PathLe(s[0], x) then
      InsertFrontSorted(x, s);
      [x] + s
    else
      PathLeTotal(s[0], x);
      var r' := Insert(x, s[1..]);
      assert s == [s[0]] + s[1..];
      InsertBelowSorted(s[0], r', s[1..], x);
      [s[0]] + r'
  }

  lemma InsertFrontSorted(x: Path, s: seq<Path>)
    requires SortedDesc(s) && s != [] && PathLe(s[0], x)
    ensures SortedDesc([x] + s)
  {
    forall j | 0 < j < |s| ensures PathLe(s[j], x) {
      PathLeTransitive(s[j], s[0], x);
    }
  }

  lemma InsertBelowSorted(y: Path, r: seq<Path>, s: seq<Path>, x: Path)
    requires SortedDesc(r) && PathLe(x, y)
    requires multiset(r) == multiset(s) + multiset{x}
    requires forall g :: g in s ==> PathLe(g, y)
    ensures SortedDesc([y] + r)
  {
    forall j | 0 <= j < |r| ensures PathLe(r[j], y) {
      assert r[j] in multiset(r);
    }
  }

  /** Python's `sorted(s, reverse=True)`. */
  function SortDesc(s: seq<Path>): (r: seq<Path>)
    ensures SortedDesc(r)
    ensures multiset(r) == multiset(s)
  {
    if s == [] then []
    else
      assert s == [s[0]] + s[1..];
      Insert(s[0], SortDesc(s[1..]))
  }

  /**
   A list has only one greatest-first arrangement, so every correct sort
   (Python's Timsort included) gives the result of SortDesc.
   */
  lemma {:induction false} SortedDescUnique(a: seq<Path>, b: seq<Path>)
    requires SortedDesc(a) && SortedDesc(b)
    requires multiset(a) == multiset(b)
    ensures a == b
  {
    if a == [] {
      assert |multiset(b)| == 0;
    } else {
      assert a[0] in multiset(a) && b != [];
      assert b[0] in multiset(b);
      SortedHeadIsGreatest(a);
      SortedHeadIsGreatest(b);
      PathLeAntisymmetric(a[0], b[0]);
      SameTails(a, b);
      SortedDescUnique(a[1..], b[1..]);
      assert a == [a[0]] + a[1..] && b == [b[0]] + b[1..];
    }
  }

  lemma SameTails(a: seq<Path>, b: seq<Path>)
    requires a != [] && b != [] && a[0] == b[0]
    requires multiset(a) == multiset(b)
    requires SortedDesc(a) && SortedDesc(b)
    ensures multiset(a[1..]) == multiset(b[1..])
    ensures SortedDesc(a[1..]) && SortedDesc(b[1..])
  {
    TailMultiset(a);
    TailMultiset(b);
    TailSorted(a);
    TailSorted(b);
  }

  lemma TailMultiset(s: seq<Path>)
    requires s != []
    ensures multiset(s[1..]) == multiset(s) - multiset{s[0]}
  {
    assert s == [s[0]] + s[1..];
  }

  lemma TailSorted(s: seq<Path>)
    requires s != [] && SortedDesc(s)
    ensures SortedDesc(s[1..])
  {
    forall i, j | 0 <= i < j < |s| - 1 ensures PathLe(s[1..][j], s[1..][i]) {
      assert s[1..][j] == s[j + 1] && s[1..][i] == s[i + 1];
    }
  }

  /** `sorted(s, reverse=True)` does not depend on the order of s. */
  lemma SortDescIgnoresOrder(a: seq<Path>, b: seq<Path>)
    requires multiset(a) == multiset(b)
    ensures SortDesc(a) == SortDesc(b)
  {
    SortedDescUnique(SortDesc(a), SortDesc(b));
  }

  /** The head of a greatest-first list is the greatest of it. */
  lemma SortedHeadIsGreatest(s: seq<Path>)
    requires SortedDesc(s) && s != []
    ensures forall g :: g in s ==> PathLe(g, s[0])
  {
    assert s[0][..|s[0]|] == s[0];
  }

  /** In a greatest-first list, the first file with a suffix is the greatest file with it. */
  lemma FirstWithSuffixIsGreatest(s: seq<Path>, suffix: string)
    requires SortedDesc(s) && WithSuffix(s, suffix) != []
    ensures IsLatest(WithSuffix(s, suffix)[0], s, suffix)
  {
    var first := WithSuffix(s, suffix)[0];
    FilterHead(s, HasSuffix(suffix));
    var i :| 0 <= i < |s| && s[i] == first && forall j :: 0 <= j < i ==> !HasSuffix(suffix)(s[j]);
    forall g | g in s && Suffix(g) == suffix ensures PathLe(g, first) {
      var j :| 0 <= j < |s| && s[j] == g;
      assert !(j < i);
      if j == i {
        assert g[..|g|] == g;
      }
    }
  }

  /**
   `[f for f in sorted(files, reverse=True) if f.suffix == suffix][0]`, when
   it exists, is the greatest file of the list with that suffix.
   */
  lemma FirstOfSortedIsLatest(files: seq<Path>, suffix: string)
    requires WithSuffix(SortDesc(files), suffix) != []
    ensures IsLatest(WithSuffix(SortDesc(files), suffix)[0], files, suffix)
  {
    FirstWithSuffixIsGreatest(SortDesc(files), suffix);
    forall g | g in files ensures g in SortDesc(files) {
      assert g in multiset(SortDesc(files));
    }
    assert WithSuffix(SortDesc(files), suffix)[0] in multiset(files);
  }
}
