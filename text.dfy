/**
 The Python `str` operations the expansion step uses: substring test
 (`p in s`), `str.replace` and, to state what replace does, `str.count`.
 */
module Text {

  predicate StartsWith(s: string, p: string) {
    |p| <= |s| && s[..|p|] == p
  }

  /** Python's `p in s`: p occurs in s as a contiguous substring, so it is no longer than s. */
  function Contains(s: string, p: string): (b: bool)
    ensures b ==> |p| <= |s|
    decreases |s|
  {
    StartsWith(s, p) || (|s| > 0 && Contains(s[1..], p))
  }

  /** p occurs in s starting at position i. */
  predicate OccursAt(s: string, p: string, i: nat) {
    i + |p| <= |s| && s[i..i + |p|] == p
  }

  /** Contains agrees with the definition by position. */
  lemma {:induction false} ContainsAt(s: string, p: string)
    ensures Contains(s, p) <==> exists i: nat :: OccursAt(s, p, i)
  {
    if StartsWith(s, p) {
      assert OccursAt(s, p, 0);
    } else if |s| > 0 {
      ContainsAt(s[1..], p);
      if Contains(s[1..], p) {
        var i: nat :| OccursAt(s[1..], p, i);
        assert s[1..][i..i + |p|] == s[i + 1..i + 1 + |p|];
        assert OccursAt(s, p, i + 1);
      }
      if i: nat :| OccursAt(s, p, i) {
        assert s[..|p|] == s[0..0 + |p|];
        assert i != 0;
        assert s[1..][i - 1..i - 1 + |p|] == s[i..i + |p|];
        assert OccursAt(s[1..], p, i - 1);
      }
    } else {
      assert |p| > 0;
    }
  }

  /** A pattern whose first character is not in s does not occur in s. */
  lemma {:induction false} NotContainsWithoutFirst(s: string, p: string)
    requires p != [] && p[0] !in s
    ensures !Contains(s, p)
    decreases |s|
  {
    if |s| > 0 {
      assert s[0] != p[0];
      NotContainsWithoutFirst(s[1..], p);
    }
  }

  /** Whatever is prefixed, an occurrence stays an occurrence. */
  lemma {:induction false} ContainsAfterPrefix(x: string, t: string, p: string)
    requires Contains(t, p)
    ensures Contains(x + t, p)
  {
    if x != [] {
      assert (x + t)[1..] == x[1..] + t;
      ContainsAfterPrefix(x[1..], t, p);
      assert |x + t| > 0 && Contains((x + t)[1..], p);
    } else {
      assert x + t == t;
    }
  }

  /** s.replace("", r): r before every character and once more at the end. */
  function Interleave(s: string, r: string): string {
    if s == [] then r else r + [s[0]] + Interleave(s[1..], r)
  }

  /** s.replace(p, r) for a non-empty p: scan left to right, replacing each occurrence and resuming after it. */
  function ReplaceNonEmpty(s: string, p: string, r: string): string
    requires p != []
    decreases |s|
  {
    if |s| < |p| then s
    else if s[..|p|] == p then r + ReplaceNonEmpty(s[|p|..], p, r)
    else [s[0]] + ReplaceNonEmpty(s[1..], p, r)
  }

  /** Python's `s.replace(p, r)`; a string without p comes back unchanged. */
  function Replace(s: string, p: string, r: string): (t: string)
    ensures !Contains(s, p) ==> t == s
  {
    if p == [] then Interleave(s, r)
    else
      ReplaceNonEmptyAbsent(s, p, r);
      ReplaceNonEmpty(s, p, r)
  }

  lemma {:induction false} ReplaceNonEmptyAbsent(s: string, p: string, r: string)
    requires p != []
    ensures !Contains(s, p) ==> ReplaceNonEmpty(s, p, r) == s
    decreases |s|
  {
    if |s| >= |p| && !Contains(s, p) {
      assert s[..|p|] != p;
      ReplaceNonEmptyAbsent(s[1..], p, r);
      assert s == [s[0]] + s[1..];
    }
  }

  function CountNonEmpty(s: string, p: string): nat
    requires p != []
    decreases |s|
  {
    if |s| < |p| then 0
    else if s[..|p|] == p then 1 + CountNonEmpty(s[|p|..], p)
    else CountNonEmpty(s[1..], p)
  }

  /** Python's `s.count(p)`: non-overlapping occurrences, left to right; `len(s) + 1` for "". */
  function Count(s: string, p: string): nat {
    if p == [] then |s| + 1 else CountNonEmpty(s, p)
  }

  /**
   Left to right and non-overlapping: up to the first occurrence of p
   nothing changes, that occurrence becomes r, and the scan resumes after it.
   */
  lemma ReplaceAtFirstOccurrence(s: string, p: string, r: string, i: nat)
    requires p != [] && OccursAt(s, p, i)
    requires forall j: nat :: j < i ==> !OccursAt(s, p, j)
    ensures Replace(s, p, r) == s[..i] + r + Replace(s[i + |p|..], p, r)
  {
    ScanToFirst(s, p, r, i);
  }

  lemma {:induction false} ScanToFirst(s: string, p: string, r: string, i: nat)
    requires p != [] && OccursAt(s, p, i)
    requires forall j: nat :: j < i ==> !OccursAt(s, p, j)
    ensures ReplaceNonEmpty(s, p, r) == s[..i] + r + ReplaceNonEmpty(s[i + |p|..], p, r)
    decreases i, 2
  {
    if i == 0 {
      assert s[..|p|] == s[0..0 + |p|];
    } else {
      ScanStep(s, p, r, i);
    }
  }

  /** One step of the scan: the result for s from the result for s[1..]. */
  lemma {:induction false} ScanStep(s: string, p: string, r: string, i: nat)
    requires p != [] && 0 < i && OccursAt(s, p, i)
    requires forall j: nat :: j < i ==> !OccursAt(s, p, j)
    ensures ReplaceNonEmpty(s, p, r) == s[..i] + r + ReplaceNonEmpty(s[i + |p|..], p, r)
    decreases i, 1
  {
    var t := s[1..];
    var rest := ReplaceNonEmpty(s[i + |p|..], p, r);
    ScanTail(s, p, r, i);
    ScanHead(s, p, r);
    assert s[..i] == [s[0]] + t[..i - 1] by {
      HeadAndTail(s, |p|, i);
    }
    Regroup(ReplaceNonEmpty(s, p, r), s[0], ReplaceNonEmpty(t, p, r), s[..i], t[..i - 1], r, rest);
  }

  /** The scan of s[1..] meets the same first occurrence, one place earlier. */
  lemma {:induction false} ScanTail(s: string, p: string, r: string, i: nat)
    requires p != [] && 0 < i && OccursAt(s, p, i)
    requires forall j: nat :: j < i ==> !OccursAt(s, p, j)
    ensures ReplaceNonEmpty(s[1..], p, r) == s[1..][..i - 1] + r + ReplaceNonEmpty(s[i + |p|..], p, r)
    decreases i, 0
  {
    var t := s[1..];
    assert OccursAt(t, p, i - 1) && forall j: nat :: j < i - 1 ==> !OccursAt(t, p, j) by {
      FirstOccurrenceInTail(s, p, i);
    }
    ScanToFirst(t, p, r, i - 1);
    SameTail(s, p, r, i);
  }

  /** The part after the occurrence is the same whether counted in s or in s[1..]. */
  lemma SameTail(s: string, p: string, r: string, i: nat)
    requires p != [] && 0 < i && i + |p| <= |s|
    ensures ReplaceNonEmpty(s[1..][i - 1 + |p|..], p, r) == ReplaceNonEmpty(s[i + |p|..], p, r)
  {
    HeadAndTail(s, |p|, i);
  }

  /** No occurrence at 0: the first character is kept and the scan moves on. */
  lemma ScanHead(s: string, p: string, r: string)
    requires p != [] && |p| < |s| && !OccursAt(s, p, 0)
    ensures ReplaceNonEmpty(s, p, r) == [s[0]] + ReplaceNonEmpty(s[1..], p, r)
  {
    assert s[..|p|] == s[0..0 + |p|];
  }

  /** The first occurrence at i > 0 in s is the first occurrence at i - 1 in s[1..]. */
  lemma FirstOccurrenceInTail(s: string, p: string, i: nat)
    requires 0 < i && OccursAt(s, p, i)
    requires forall j: nat :: j < i ==> !OccursAt(s, p, j)
    ensures OccursAt(s[1..], p, i - 1)
    ensures forall j: nat :: j < i - 1 ==> !OccursAt(s[1..], p, j)
    ensures !OccursAt(s, p, 0)
  {
    forall j: nat | j < i ensures OccursAt(s[1..], p, j) <==> OccursAt(s, p, j + 1) {
      ShiftOccurrence(s, p, j);
    }
  }

  lemma HeadAndTail(s: string, n: nat, i: nat)
    requires 0 < i && i + n <= |s|
    ensures s[..i] == [s[0]] + s[1..][..i - 1]
    ensures s[1..][i - 1 + n..] == s[i + n..]
  {
  }

  lemma Regroup(whole: string, c: char, tail: string, prefix: string, tailPrefix: string, r: string, rest: string)
    requires whole == [c] + tail && tail == tailPrefix + r + rest && prefix == [c] + tailPrefix
    ensures whole == prefix + r + rest
  {
  }

  /** A string that starts with p and has no further p: only that leading p is replaced. */
  lemma ReplaceLeadingOnly(p: string, rest: string, r: string)
    requires p != [] && !Contains(rest, p)
    ensures Replace(p + rest, p, r) == r + rest
  {
    var s := p + rest;
    assert s[..|p|] == p && s[|p|..] == rest;
    ReplaceNonEmptyAbsent(rest, p, r);
  }

  /** Occurrences in the tail s[1..] are the occurrences in s shifted by one. */
  lemma ShiftOccurrence(s: string, p: string, j: nat)
    requires |s| > 0
    ensures OccursAt(s[1..], p, j) <==> OccursAt(s, p, j + 1)
  {
    if j + 1 + |p| <= |s| {
      assert s[1..][j..j + |p|] == s[j + 1..j + 1 + |p|];
    }
  }

  /** Every occurrence is replaced: the length changes by (|r| - |p|) per occurrence s.count(p) counts. */
  lemma {:induction false} ReplaceLength(s: string, p: string, r: string)
    ensures |Replace(s, p, r)| == |s| + Count(s, p) * (|r| - |p|)
  {
    if p == [] {
      InterleaveLength(s, r);
    } else {
      ReplaceNonEmptyLength(s, p, r);
    }
  }

  lemma {:induction false} InterleaveLength(s: string, r: string)
    ensures |Interleave(s, r)| == |s| + (|s| + 1) * |r|
  {
    if s != [] {
      InterleaveLength(s[1..], r);
    }
  }

  /** Slot i of s.replace("", r): a copy of r at i * (|r| + 1), followed by s[i]. */
  ghost predicate SlotHolds(t: string, s: string, r: string, i: nat)
    requires i < |s|
  {
    var b := i * (|r| + 1);
    b + |r| < |t| && t[b..b + |r|] == r && t[b + |r|] == s[i]
  }

  /**
   s.replace("", r) puts r before every character of s and once more at the
   end: slot by slot r then the character, and r last.
   */
  lemma ReplaceEmptyPattern(s: string, r: string)
    ensures |Replace(s, "", r)| == |s| + |s| * |r| + |r|
    ensures forall i: nat :: i < |s| ==> SlotHolds(Replace(s, "", r), s, r, i)
    ensures Replace(s, "", r)[|s| + |s| * |r|..] == r
  {
    InterleaveSlots(s, r);
  }

  lemma {:induction false} InterleaveSlots(s: string, r: string)
    ensures |Interleave(s, r)| == |s| + |s| * |r| + |r|
    ensures forall i: nat :: i < |s| ==> SlotHolds(Interleave(s, r), s, r, i)
    ensures Interleave(s, r)[|s| + |s| * |r|..] == r
  {
    InterleaveLength(s, r);
    OneMore(|s|, |r|);
    if s != [] {
      var t := Interleave(s, r);
      var u := Interleave(s[1..], r);
      InterleaveSlots(s[1..], r);
      assert t == (r + [s[0]]) + u;
      forall i: nat | i < |s| ensures SlotHolds(t, s, r, i) {
        if i == 0 {
          assert t[0..|r|] == r;
        } else {
          SlotShift(t, u, s, r, i);
        }
      }
      TailShift(t, u, |s| - 1, r, s[0]);
    }
  }

  /** Slot i - 1 of the tail's result is slot i of the whole result. */
  lemma SlotShift(t: string, u: string, s: string, r: string, i: nat)
    requires 0 < i < |s| && t == (r + [s[0]]) + u && SlotHolds(u, s[1..], r, i - 1)
    ensures SlotHolds(t, s, r, i)
  {
    var d := |r| + 1;
    var b := (i - 1) * d;
    OneMore(i - 1, d);
    assert i * d == b + d;
    assert t[b + d..b + d + |r|] == u[b..b + |r|];
    assert t[b + d + |r|] == u[b + |r|];
  }

  /** The trailing r of the tail's result is the trailing r of the whole result. */
  lemma TailShift(t: string, u: string, n: nat, r: string, c: char)
    requires t == (r + [c]) + u && n + n * |r| <= |u| && u[n + n * |r|..] == r
    ensures (n + 1) + (n + 1) * |r| <= |t| && t[(n + 1) + (n + 1) * |r|..] == r
  {
    OneMore(n, |r|);
    assert (n + 1) + (n + 1) * |r| == (|r| + 1) + (n + n * |r|);
    assert t[(|r| + 1) + (n + n * |r|)..] == u[n + n * |r|..];
  }

  lemma {:induction false} ReplaceNonEmptyLength(s: string, p: string, r: string)
    requires p != []
    ensures |ReplaceNonEmpty(s, p, r)| == |s| + CountNonEmpty(s, p) * (|r| - |p|)
    decreases |s|
  {
    if |s| >= |p| {
      var d := |r| - |p|;
      if s[..|p|] == p {
        var t := s[|p|..];
        ReplaceNonEmptyLength(t, p, r);
        var c := CountNonEmpty(t, p);
        var cd := c * d;
        assert |ReplaceNonEmpty(t, p, r)| == |t| + cd;
        assert |ReplaceNonEmpty(s, p, r)| == |r| + |t| + cd;
        assert CountNonEmpty(s, p) == 1 + c;
        OneMore(c, d);
      } else {
        ReplaceNonEmptyLength(s[1..], p, r);
        assert CountNonEmpty(s, p) == CountNonEmpty(s[1..], p);
      }
    }
  }

  lemma OneMore(c: int, d: int)
    ensures (1 + c) * d == c * d + d
  {
  }

  /** Replacing a pattern by itself changes nothing. */
  lemma {:induction false} ReplaceWithItself(s: string, p: string)
    ensures Replace(s, p, p) == s
  {
    if p == [] {
      InterleaveEmpty(s);
    } else {
      ReplaceNonEmptyWithItself(s, p);
    }
  }

  lemma {:induction false} InterleaveEmpty(s: string)
    ensures Interleave(s, "") == s
  {
    if s != [] {
      InterleaveEmpty(s[1..]);
      assert s == [s[0]] + s[1..];
    }
  }

  lemma {:induction false} ReplaceNonEmptyWithItself(s: string, p: string)
    requires p != []
    ensures ReplaceNonEmpty(s, p, p) == s
    decreases |s|
  {
    if |s| >= |p| {
      if s[..|p|] == p {
        ReplaceNonEmptyWithItself(s[|p|..], p);
        assert s == s[..|p|] + s[|p|..];
      } else {
        ReplaceNonEmptyWithItself(s[1..], p);
        assert s == [s[0]] + s[1..];
      }
    }
  }

  /** When p occurs in s, its replacement r occurs in s.replace(p, r). */
  lemma {:induction false} ReplaceIntroduces(s: string, p: string, r: string)
    requires Contains(s, p)
    ensures Contains(Replace(s, p, r), r)
  {
    if p == [] {
      if s == [] {
        assert StartsWith(Interleave(s, r), r);
      } else {
        assert Interleave(s, r) == r + ([s[0]] + Interleave(s[1..], r));
        assert StartsWith(Interleave(s, r), r);
      }
    } else {
      ReplaceNonEmptyIntroduces(s, p, r);
    }
  }

  lemma {:induction false} ReplaceNonEmptyIntroduces(s: string, p: string, r: string)
    requires p != [] && Contains(s, p)
    ensures Contains(ReplaceNonEmpty(s, p, r), r)
    decreases |s|
  {
    if s[..|p|] == p {
      var t := ReplaceNonEmpty(s[|p|..], p, r);
      assert (r + t)[..|r|] == r;
      assert StartsWith(r + t, r);
    } else {
      assert StartsWith(s, p) == false;
      ReplaceNonEmptyIntroduces(s[1..], p, r);
      ContainsAfterPrefix([s[0]], ReplaceNonEmpty(s[1..], p, r), r);
    }
  }
}
