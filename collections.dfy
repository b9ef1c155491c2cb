/**
 Python's insertion-ordered `dict` with string keys, and the order-aware
 sequence operations (list comprehension filters, `list.index`) the model
 is built from.
 */
module Collections {

  /** No element occurs twice in s. */
  ghost predicate Distinct(s: seq<string>) {
    forall i, j :: 0 <= i < j < |s| ==> s[i] != s[j]
  }

  /** Python's `list.index`: the position of the first occurrence of x. */
  function IndexOf(s: seq<string>, x: string): (n: nat)
    requires x in s
    ensures n < |s| && s[n] == x && x !in s[..n]
  {
    if s[0] == x then 0
    else
      var n' := IndexOf(s[1..], x);
      assert s[..1 + n'] == [s[0]] + s[1..][..n'];
      1 + n'
  }

  /** Extending a list behind a position that already holds x does not move x's first position. */
  lemma {:induction false} IndexOfPrefix(s: seq<string>, m: nat, x: string)
    requires m <= |s| && x in s[..m]
    ensures x in s && IndexOf(s, x) == IndexOf(s[..m], x)
  {
    assert s == s[..m] + s[m..];
    if s[0] != x {
      assert s[..m][1..] == s[1..][..m - 1];
      IndexOfPrefix(s[1..], m - 1, x);
    }
  }

  /** The elements of r occur in s, and r lists them in the order of their first occurrences in s. */
  ghost predicate InFirstOccurrenceOrder(r: seq<string>, s: seq<string>) {
    && (forall a :: 0 <= a < |r| ==> r[a] in s)
    && (forall a, b :: 0 <= a < b < |r| ==> IndexOf(s, r[a]) < IndexOf(s, r[b]))
  }

  /** A list ordered by first occurrence repeats nothing. */
  lemma OrderedIsDistinct(r: seq<string>, s: seq<string>)
    requires InFirstOccurrenceOrder(r, s)
    ensures Distinct(r)
  {
    forall a, b | 0 <= a < b < |r| ensures r[a] != r[b] {
      assert IndexOf(s, r[a]) < IndexOf(s, r[b]);
    }
  }

  lemma OrderedInLonger(r: seq<string>, s: seq<string>, m: nat)
    requires m <= |s| && InFirstOccurrenceOrder(r, s[..m])
    ensures InFirstOccurrenceOrder(r, s)
  {
    forall a | 0 <= a < |r| ensures r[a] in s && IndexOf(s, r[a]) == IndexOf(s[..m], r[a]) {
      IndexOfPrefix(s, m, r[a]);
    }
  }

  lemma OrderedAppendLast(r: seq<string>, s: seq<string>)
    requires |s| > 0 && s[|s| - 1] !in s[..|s| - 1]
    requires InFirstOccurrenceOrder(r, s[..|s| - 1])
    ensures InFirstOccurrenceOrder(r + [s[|s| - 1]], s)
  {
    var n := |s| - 1;
    OrderedInLonger(r, s, n);
    assert IndexOf(s, s[n]) == n;
    forall a | 0 <= a < |r| ensures IndexOf(s, r[a]) < n {
      IndexOfPrefix(s, n, r[a]);
    }
    var r' := r + [s[n]];
    forall a, b | 0 <= a < b < |r'| ensures IndexOf(s, r'[a]) < IndexOf(s, r'[b]) {
      if b == |r| {
        assert r'[a] == r[a];
      } else {
        assert r'[a] == r[a] && r'[b] == r[b];
      }
    }
  }

  /** Python's `[x for x in s if keep(x)]`. */
  function Filter<T(!new)>(s: seq<T>, keep: T -> bool): (r: seq<T>)
    ensures forall x :: x in r <==> x in s && keep(x)
  {
    if s == [] then []
    else
      var r := Filter(s[..|s| - 1], keep);
      assert s == s[..|s| - 1] + [s[|s| - 1]];
      if keep(s[|s| - 1]) then r + [s[|s| - 1]] else r
  }

  /** The first element a filter keeps is the first element of s that passes it. */
  lemma {:induction false} FilterHead<T(!new)>(s: seq<T>, keep: T -> bool)
    requires Filter(s, keep) != []
    ensures exists i :: 0 <= i < |s| && s[i] == Filter(s, keep)[0] && forall j :: 0 <= j < i ==> !keep(s[j])
  {
    var n := |s| - 1;
    var front := s[..n];
    if Filter(front, keep) != [] {
      FilterHead(front, keep);
      var i :| 0 <= i < |front| && front[i] == Filter(front, keep)[0] && forall j :: 0 <= j < i ==> !keep(front[j]);
      assert s[i] == front[i];
      assert forall j :: 0 <= j < i ==> s[j] == front[j];
    } else {
      forall j | 0 <= j < n ensures !keep(s[j]) {
        assert s[j] == front[j] && front[j] in front;
      }
    }
  }

  /** Filtering a list without repeats keeps the survivors in their original order. */
  lemma {:induction false} FilterKeepsOrder(s: seq<string>, keep: string -> bool)
    requires Distinct(s)
    ensures InFirstOccurrenceOrder(Filter(s, keep), s)
    ensures Distinct(Filter(s, keep))
  {
    if s != [] {
      var n := |s| - 1;
      assert Distinct(s[..n]);
      FilterKeepsOrder(s[..n], keep);
      if keep(s[n]) {
        assert s[n] !in s[..n];
        OrderedAppendLast(Filter(s[..n], keep), s);
      } else {
        OrderedInLonger(Filter(s[..n], keep), s, n);
      }
      OrderedIsDistinct(Filter(s, keep), s);
    }
  }

  /** A filter that keeps no element of s gives []. */
  lemma {:induction false} FilterNone(s: seq<string>, keep: string -> bool)
    requires forall x :: x in s ==> !keep(x)
    ensures Filter(s, keep) == []
  {
    if s != [] {
      var n := |s| - 1;
      assert s[n] in s;
      FilterNone(s[..n], keep);
    }
  }

  /** The distinct elements of s, each kept at its first occurrence. */
  function Dedup(s: seq<string>): (r: seq<string>)
    ensures Distinct(r)
    ensures forall x :: x in r <==> x in s
  {
    if s == [] then []
    else
      var r := Dedup(s[..|s| - 1]);
      assert s == s[..|s| - 1] + [s[|s| - 1]];
      if s[|s| - 1] in r then r else r + [s[|s| - 1]]
  }

  /** Dedup lists the elements in the order in which they first occur. */
  lemma {:induction false} DedupOrder(s: seq<string>)
    ensures InFirstOccurrenceOrder(Dedup(s), s)
  {
    if s != [] {
      var n := |s| - 1;
      DedupOrder(s[..n]);
      if s[n] in Dedup(s[..n]) {
        OrderedInLonger(Dedup(s[..n]), s, n);
      } else {
        OrderedAppendLast(Dedup(s[..n]), s);
      }
    }
  }

  /** A list without repeats holds each of its elements exactly once. */
  lemma {:induction false} DistinctMultiplicity(s: seq<string>, x: string)
    requires Distinct(s)
    ensures multiset(s)[x] == if x in s then 1 else 0
  {
    if s != [] {
      assert s == [s[0]] + s[1..];
      assert Distinct(s[1..]);
      DistinctMultiplicity(s[1..], x);
    }
  }

  /**
   A Python `dict` with string keys: the key list in insertion order and the
   key-to-value map.
   */
  datatype Dict<V> = Dict(keys: seq<string>, entries: map<string, V>) {

    /** Each key is listed once, and the listed keys are exactly the mapped ones. */
    ghost predicate Valid() {
      Distinct(keys) && forall k :: k in entries <==> k in keys
    }

    /** `d[k] = v`: a new key goes last, an existing key keeps its place and gets the new value. */
    function Put(k: string, v: V): (d: Dict<V>)
      ensures Valid() ==> d.Valid()
    {
      Dict(if k in entries then keys else keys + [k], entries[k := v])
    }

    /**
     After `d[k] = v`, k holds v, every other key keeps its value, and the
     keys are listed as before with k appended only when it is new.
     */
    lemma PutEffect(k: string, v: V)
      requires Valid()
      ensures k in Put(k, v).entries && Put(k, v).entries[k] == v
      ensures forall j :: j != k ==> (j in Put(k, v).entries <==> j in entries)
      ensures forall j :: j != k && j in entries ==> Put(k, v).entries[j] == entries[j]
      ensures k in keys ==> Put(k, v).keys == keys
      ensures k !in keys ==> Put(k, v).keys == keys + [k]
    {
    }
  }

  /** `{}` */
  function Empty<V>(): (d: Dict<V>)
    ensures d.Valid()
    ensures d.keys == [] && forall k :: k !in d.entries
  {
    Dict([], map[])
  }
}
