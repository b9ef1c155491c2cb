/**
 The inference helpers of pipeline/api/inference.py: falling back to the
 newest checkpoint, inverting the expansion mapping into candidate lists,
 and expanding the abbreviations found in a sentence with a scorer's pick.
 */
module Inference {
  import opened Collections
  import opened Paths
  import opened Text
  import opened Data

  /** Abbreviation to its candidate expansions, in mapping order. */
  type InverseMapping = Dict<seq<string>>

  /**
   `check_model`: keep the configured checkpoint if it exists, else fall back to
   the greatest file with the model suffix, else keep the configured path.
   `pathExists` stands for `modelpath.exists()` and `files` for the walk of
   the model directory.
   */
  function CheckModel(modelPath: Path, pathExists: bool, files: seq<Path>, modelSuffix: string): (r: Path)
    ensures pathExists ==> r == modelPath
    ensures !pathExists && AnyWithSuffix(files, modelSuffix) ==> IsLatest(r, files, modelSuffix)
    ensures !pathExists && !AnyWithSuffix(files, modelSuffix) ==> r == modelPath
  {
    if pathExists then modelPath
    else
      var models := WithSuffix(files, modelSuffix);
      if |models| == 0 then modelPath
      else
        SortedHeadOfModels(files, modelSuffix);
        SortDesc(models)[0]
  }

  lemma SortedHeadOfModels(files: seq<Path>, suffix: string)
    requires WithSuffix(files, suffix) != []
    ensures SortDesc(WithSuffix(files, suffix)) != []
    ensures IsLatest(SortDesc(WithSuffix(files, suffix))[0], files, suffix)
  {
    var models := WithSuffix(files, suffix);
    var sorted := SortDesc(models);
    assert models[0] in multiset(sorted);
    SortedHeadIsGreatest(sorted);
    assert sorted[0] in multiset(models);
    forall g | g in models ensures g in sorted {
      assert g in multiset(sorted);
    }
  }

  /** With no configured checkpoint, the fallback does not depend on the listing order. */
  lemma CheckModelIgnoresOrder(modelPath: Path, pathExists: bool, files: seq<Path>, others: seq<Path>, suffix: string)
    requires forall f :: f in files <==> f in others
    ensures CheckModel(modelPath, pathExists, files, suffix) == CheckModel(modelPath, pathExists, others, suffix)
  {
    assert AnyWithSuffix(files, suffix) <==> AnyWithSuffix(others, suffix);
    if !pathExists && AnyWithSuffix(files, suffix) {
      LatestIsUnique(CheckModel(modelPath, pathExists, files, suffix),
                     CheckModel(modelPath, pathExists, others, suffix), files, others, suffix);
    }
  }

  /** The inversion loop after its first n iterations over `mapping.items()`. */
  function InvertPrefix(m: Mapping, n: nat): InverseMapping
    requires m.Valid() && n <= |m.keys|
  {
    if n == 0 then Empty()
    else
      var inv := InvertPrefix(m, n - 1);
      var k := m.keys[n - 1];
      var a := m.entries[k];
      inv.Put(a, (if a in inv.entries then inv.entries[a] else []) + [k])
  }

  /** What the inversion loop of `get_invert_mapping` builds. */
  function Invert(m: Mapping): InverseMapping
    requires m.Valid()
  {
    InvertPrefix(m, |m.keys|)
  }

  /** Among the first n keys of m, those mapped to a, in key order. */
  function ExpansionsOf(m: Mapping, n: nat, a: string): seq<string>
    requires n <= |m.keys|
  {
    Filter(m.keys[..n], k => k in m.entries && m.entries[k] == a)
  }

  /** The values of the first n keys of m, in key order, repeats included. */
  function ValuesInOrder(m: Mapping, n: nat): (vs: seq<string>)
    requires m.Valid() && n <= |m.keys|
    ensures |vs| == n && forall i :: 0 <= i < n ==> vs[i] == m.entries[m.keys[i]]
  {
    if n == 0 then [] else ValuesInOrder(m, n - 1) + [m.entries[m.keys[n - 1]]]
  }

  /** The partly built inverse is well formed, and its keys are the values seen so far, in first-seen order. */
  lemma {:induction false} InvertPrefixKeys(m: Mapping, n: nat)
    requires m.Valid() && n <= |m.keys|
    ensures InvertPrefix(m, n).Valid()
    ensures forall a :: a in InvertPrefix(m, n).entries <==> a in ValuesInOrder(m, n)
    ensures InvertPrefix(m, n).keys == Dedup(ValuesInOrder(m, n))
  {
    if n > 0 {
      InvertPrefixKeys(m, n - 1);
      assert ValuesInOrder(m, n)[..n - 1] == ValuesInOrder(m, n - 1);
    }
  }

  /** In the partly built inverse, each abbreviation lists the expansions seen so far that map to it. */
  lemma {:induction false} InvertPrefixGroups(m: Mapping, n: nat, a: string)
    requires m.Valid() && n <= |m.keys| && a in InvertPrefix(m, n).entries
    ensures InvertPrefix(m, n).entries[a] == ExpansionsOf(m, n, a)
  {
    var k := m.keys[n - 1];
    var prev := InvertPrefix(m, n - 1);
    ExpansionsStep(m, n, a);
    if a == m.entries[k] && a !in prev.entries {
      InvertPrefixKeys(m, n - 1);
      NoExpansionsOfOther(m, n - 1, a);
    } else {
      InvertPrefixGroups(m, n - 1, a);
    }
  }

  /** The expansions of a among the first n keys, from those among the first n - 1. */
  lemma ExpansionsStep(m: Mapping, n: nat, a: string)
    requires m.Valid() && 0 < n <= |m.keys|
    ensures ExpansionsOf(m, n, a) ==
              ExpansionsOf(m, n - 1, a) + (if m.entries[m.keys[n - 1]] == a then [m.keys[n - 1]] else [])
  {
    assert m.keys[..n][..n - 1] == m.keys[..n - 1];
    assert m.keys[..n][n - 1] == m.keys[n - 1];
  }

  /** A value none of the first n keys has collects no expansions. */
  lemma {:induction false} NoExpansionsOfOther(m: Mapping, n: nat, a: string)
    requires m.Valid() && n <= |m.keys| && a !in ValuesInOrder(m, n)
    ensures ExpansionsOf(m, n, a) == []
  {
    if n > 0 {
      ExpansionsStep(m, n, a);
      NoExpansionsOfOther(m, n - 1, a);
    }
  }

  /** `get_invert_mapping`'s loop: append each key to the list of its value. */
  method InvertMapping(mapping: Mapping) returns (inverted: InverseMapping)
    requires mapping.Valid()
    ensures inverted == Invert(mapping)
  {
    inverted := Empty();
    var i := 0;
    while i < |mapping.keys|
      invariant 0 <= i <= |mapping.keys|
      invariant inverted == InvertPrefix(mapping, i)
    {
      var key := mapping.keys[i];
      var value := mapping.entries[key];
      var group := if value in inverted.entries then inverted.entries[value] else [];
      assert InvertPrefix(mapping, i + 1) == inverted.Put(value, group + [key]);
      inverted := inverted.Put(value, group + [key]);
      i := i + 1;
    }
  }

  /** Round trip: every expansion is among the candidates of its own abbreviation. */
  lemma InvertRoundTrip(m: Mapping, k: string)
    requires m.Valid() && k in m.entries
    ensures m.entries[k] in Invert(m).entries
    ensures k in Invert(m).entries[m.entries[k]]
  {
    var a := m.entries[k];
    var n := |m.keys|;
    assert a in Invert(m).entries by {
      InvertPrefixKeys(m, n);
      ValueSeen(m, k);
    }
    assert Invert(m).entries[a] == ExpansionsOf(m, n, a) by {
      InvertPrefixGroups(m, n, a);
    }
    assert m.keys[..n] == m.keys;
  }

  /** The value of every key is among the values seen. */
  lemma ValueSeen(m: Mapping, k: string)
    requires m.Valid() && k in m.entries
    ensures m.entries[k] in ValuesInOrder(m, |m.keys|)
  {
    var i :| 0 <= i < |m.keys| && m.keys[i] == k;
    assert ValuesInOrder(m, |m.keys|)[i] == m.entries[k];
  }

  /** Soundness: each candidate of a is an expansion that abbreviates to a. */
  lemma InvertSound(m: Mapping, a: string, k: string)
    requires m.Valid() && a in Invert(m).entries && k in Invert(m).entries[a]
    ensures k in m.entries && m.entries[k] == a
  {
    InvertPrefixGroups(m, |m.keys|, a);
  }

  /** The abbreviations of the inverse are exactly the values of the mapping. */
  lemma InvertKeySet(m: Mapping)
    requires m.Valid()
    ensures Invert(m).Valid()
    ensures Invert(m).entries.Keys == m.entries.Values
  {
    var inv := Invert(m);
    InvertPrefixKeys(m, |m.keys|);
    forall a | a in inv.entries ensures a in m.entries.Values {
      InvertKeyIsValue(m, a);
    }
    forall a | a in m.entries.Values ensures a in inv.entries {
      var k :| k in m.entries && m.entries[k] == a;
      InvertRoundTrip(m, k);
    }
  }

  lemma InvertKeyIsValue(m: Mapping, a: string)
    requires m.Valid() && a in Invert(m).entries
    ensures a in m.entries.Values
  {
    var vs := ValuesInOrder(m, |m.keys|);
    assert a in vs by {
      InvertPrefixKeys(m, |m.keys|);
    }
    var i :| 0 <= i < |vs| && vs[i] == a;
    var k := m.keys[i];
    assert k in m.entries && m.entries[k] == a;
  }

  /** No abbreviation of the inverse has an empty candidate list. */
  lemma InvertNonEmpty(m: Mapping, a: string)
    requires m.Valid() && a in Invert(m).entries
    ensures |Invert(m).entries[a]| > 0
  {
    var vs := ValuesInOrder(m, |m.keys|);
    assert a in vs by {
      InvertPrefixKeys(m, |m.keys|);
    }
    var i :| 0 <= i < |vs| && vs[i] == a;
    InvertRoundTrip(m, m.keys[i]);
  }

  /**
   Each candidate list is the expansions of its abbreviation in mapping order,
   and each expansion of the mapping sits in exactly one list, once.
   */
  lemma InvertGroupsInMappingOrder(m: Mapping, a: string, k: string)
    requires m.Valid() && a in Invert(m).entries
    ensures InFirstOccurrenceOrder(Invert(m).entries[a], m.keys)
    ensures multiset(Invert(m).entries[a])[k] == if k in m.entries && m.entries[k] == a then 1 else 0
  {
    InvertPrefixGroups(m, |m.keys|, a);
    assert m.keys[..|m.keys|] == m.keys;
    FilterKeepsOrder(m.keys, x => x in m.entries && m.entries[x] == a);
    DistinctMultiplicity(Invert(m).entries[a], k);
  }

  /** The abbreviations come in the order in which the mapping first uses them. */
  lemma InvertKeyOrder(m: Mapping)
    requires m.Valid()
    ensures Invert(m).keys == Dedup(ValuesInOrder(m, |m.keys|))
    ensures InFirstOccurrenceOrder(Invert(m).keys, ValuesInOrder(m, |m.keys|))
  {
    InvertPrefixKeys(m, |m.keys|);
    DedupOrder(ValuesInOrder(m, |m.keys|));
  }

  /**
   `get_invert_mapping`: pick the newest snapshot (failing as `_get_latest`
   does), flatten its parsed mapping file and invert it. `parsed` stands for
   opening and `json.load`ing a file.
   */
  method GetInvertMapping(handler: FileHandler, files: seq<Path>, parsed: Path -> seq<Record>)
    returns (r: Result<InverseMapping>)
    ensures handler.GetLatest(files).Failure? ==> r == Failure(handler.GetLatest(files).error)
    ensures handler.GetLatest(files).Success? ==>
              r == Success(Invert(Flatten(parsed(handler.GetLatest(files).value.0))))
  {
    var latest := handler.GetLatest(files);
    if latest.Failure? {
      return Failure(latest.error);
    }
    var mappath := latest.value.0;
    var mapping := handler.LoadMapping(parsed(mappath));
    var inverted := InvertMapping(mapping);
    return Success(inverted);
  }

  /**
   The model's choice: given the sentence pair and one candidate tuple, the
   index of the best-scoring candidate (the argmax over the model's single
   row of scores).
   */
  type Scorer = ((string, string), seq<string>) -> nat

  /** The scorer returns an index into the candidates it was shown. */
  ghost predicate PicksCandidate(scorer: Scorer) {
    forall pair, candidates :: 0 < |candidates| ==> scorer(pair, candidates) < |candidates|
  }

  /** An inverse mapping with a non-empty candidate list for every abbreviation. */
  ghost predicate WellFormed(inv: InverseMapping) {
    inv.Valid() && forall a :: a in inv.entries ==> |inv.entries[a]| > 0
  }

  /** The inverse that `get_invert_mapping` builds is one `expand_abbreviation` accepts. */
  lemma InvertIsWellFormed(m: Mapping)
    requires m.Valid()
    ensures WellFormed(Invert(m))
  {
    InvertKeySet(m);
    forall a | a in Invert(m).entries ensures |Invert(m).entries[a]| > 0 {
      InvertNonEmpty(m, a);
    }
  }

  /** The test `key in sentence` of the comprehension. */
  function OccursIn(sentence: string): string -> bool {
    k => Contains(sentence, k)
  }

  /** The keys of the inverse mapping that occur in the sentence, in key order. */
  function Abbreviations(inv: InverseMapping, sentence: string): (abbrs: seq<string>)
    ensures forall x :: x in abbrs <==> x in inv.keys && Contains(sentence, x)
  {
    Filter(inv.keys, OccursIn(sentence))
  }

  /** The abbreviations found keep the inverse mapping's key order. */
  lemma AbbreviationsInKeyOrder(inv: InverseMapping, sentence: string)
    requires inv.Valid()
    ensures InFirstOccurrenceOrder(Abbreviations(inv, sentence), inv.keys)
    ensures Distinct(Abbreviations(inv, sentence))
  {
    FilterKeepsOrder(inv.keys, OccursIn(sentence));
  }

  /** The expansion the scorer picks for abbr, shown the current sentence twice. */
  function Choose(inv: InverseMapping, abbr: string, current: string, scorer: Scorer): (e: string)
    requires WellFormed(inv) && abbr in inv.entries && PicksCandidate(scorer)
    ensures e in inv.entries[abbr]
  {
    var candidates := inv.entries[abbr];
    candidates[scorer((current, current), candidates)]
  }

  ghost predicate AllKnown(inv: InverseMapping, abbrs: seq<string>) {
    forall i :: 0 <= i < |abbrs| ==> abbrs[i] in inv.entries
  }

  /** The sentence after the loop has handled abbrs, in order. */
  function ExpandAll(sentence: string, inv: InverseMapping, abbrs: seq<string>, scorer: Scorer): string
    requires WellFormed(inv) && PicksCandidate(scorer) && AllKnown(inv, abbrs)
    decreases |abbrs|
  {
    if abbrs == [] then sentence
    else
      var current := ExpandAll(sentence, inv, abbrs[..|abbrs| - 1], scorer);
      var abbr := abbrs[|abbrs| - 1];
      Replace(current, abbr, Choose(inv, abbr, current, scorer))
  }

  lemma AbbreviationsAreKnown(inv: InverseMapping, sentence: string)
    requires inv.Valid()
    ensures AllKnown(inv, Abbreviations(inv, sentence))
  {
    var abbrs := Abbreviations(inv, sentence);
    forall i | 0 <= i < |abbrs| ensures abbrs[i] in inv.entries {
      assert abbrs[i] in abbrs;
    }
  }

  /** What `expand_abbreviation` returns. */
  function Expand(sentence: string, inv: InverseMapping, scorer: Scorer): string
    requires WellFormed(inv) && PicksCandidate(scorer)
  {
    AbbreviationsAreKnown(inv, sentence);
    ExpandAll(sentence, inv, Abbreviations(inv, sentence), scorer)
  }

  /**
   `expand_abbreviation`: collect the abbreviations of the original sentence,
   then for each ask the scorer for a candidate and replace every occurrence.
   */
  method ExpandAbbreviation(sentence: string, inv: InverseMapping, scorer: Scorer)
    returns (expanded: string)
    requires WellFormed(inv) && PicksCandidate(scorer)
    ensures expanded == Expand(sentence, inv, scorer)
  {
    var abbreviations := Abbreviations(inv, sentence);
    AbbreviationsAreKnown(inv, sentence);
    expanded := sentence;
    var i := 0;
    while i < |abbreviations|
      invariant 0 <= i <= |abbreviations|
      invariant AllKnown(inv, abbreviations[..i])
      invariant expanded == ExpandAll(sentence, inv, abbreviations[..i], scorer)
    {
      var abbr := abbreviations[i];
      var candidates := inv.entries[abbr];
      var idx := scorer((expanded, expanded), candidates);
      var expansion := candidates[idx];
      assert abbreviations[..i + 1][..i] == abbreviations[..i];
      expanded := Replace(expanded, abbr, expansion);
      i := i + 1;
    }
    assert abbreviations[..i] == abbreviations;
  }

  /** A sentence in which no abbreviation occurs is returned unchanged. */
  lemma ExpandWithoutAbbreviations(sentence: string, inv: InverseMapping, scorer: Scorer)
    requires WellFormed(inv) && PicksCandidate(scorer)
    requires forall k :: k in inv.keys ==> !Contains(sentence, k)
    ensures Expand(sentence, inv, scorer) == sentence
  {
    FilterNone(inv.keys, OccursIn(sentence));
  }

  /**
   The first abbreviation is resolved against the original sentence, and the
   rest against the sentence that replacement produced.
   */
  lemma {:induction false} ExpandAllFront(sentence: string, inv: InverseMapping, abbrs: seq<string>, scorer: Scorer)
    requires WellFormed(inv) && PicksCandidate(scorer) && AllKnown(inv, abbrs) && abbrs != []
    ensures AllKnown(inv, abbrs[1..])
    ensures ExpandAll(sentence, inv, abbrs, scorer) ==
              ExpandAll(Replace(sentence, abbrs[0], Choose(inv, abbrs[0], sentence, scorer)), inv, abbrs[1..], scorer)
    decreases |abbrs|
  {
    var first := Replace(sentence, abbrs[0], Choose(inv, abbrs[0], sentence, scorer));
    var n := |abbrs| - 1;
    var front, tail := abbrs[..n], abbrs[1..];
    AllKnownSlice(inv, abbrs, 1, |abbrs|);
    assert abbrs[1..|abbrs|] == tail;
    if n == 0 {
      assert front == [] && tail == [];
    } else {
      AllKnownSlice(inv, abbrs, 0, n);
      AllKnownSlice(inv, tail, 0, n - 1);
      assert abbrs[0..n] == front && tail[0..n - 1] == tail[..n - 1];
      var mid := ExpandAll(sentence, inv, front, scorer);
      assert mid == ExpandAll(first, inv, tail[..n - 1], scorer) by {
        ExpandAllFront(sentence, inv, front, scorer);
        assert front[1..] == tail[..n - 1];
        assert front[0] == abbrs[0];
      }
      var last := Replace(mid, abbrs[n], Choose(inv, abbrs[n], mid, scorer));
      assert ExpandAll(sentence, inv, abbrs, scorer) == last;
      assert ExpandAll(first, inv, tail, scorer) == last by {
        assert tail[n - 1] == abbrs[n];
      }
    }
  }

  /** A slice of known abbreviations is known. */
  lemma AllKnownSlice(inv: InverseMapping, abbrs: seq<string>, lo: nat, hi: nat)
    requires AllKnown(inv, abbrs) && lo <= hi <= |abbrs|
    ensures AllKnown(inv, abbrs[lo..hi])
  {
    forall i | 0 <= i < hi - lo ensures abbrs[lo..hi][i] in inv.entries {
      assert abbrs[lo..hi][i] == abbrs[lo + i];
    }
  }

  /** `s.replace(a, e)` for each abbreviation a in turn with the expansion e given for it. */
  function ReplaceEach(sentence: string, abbrs: seq<string>, expansions: seq<string>): string
    requires |expansions| == |abbrs|
    decreases |abbrs|
  {
    if abbrs == [] then sentence
    else
      var n := |abbrs| - 1;
      Replace(ReplaceEach(sentence, abbrs[..n], expansions[..n]), abbrs[n], expansions[n])
  }

  /** expansions gives, for each abbreviation of abbrs, one of that abbreviation's candidates. */
  ghost predicate AreCandidates(inv: InverseMapping, abbrs: seq<string>, expansions: seq<string>) {
    && |expansions| == |abbrs|
    && forall i :: 0 <= i < |abbrs| ==> abbrs[i] in inv.entries && expansions[i] in inv.entries[abbrs[i]]
  }

  /**
   Whatever the scorer, the result replaces, in order, every occurrence of each
   abbreviation with one of that abbreviation's own candidates.
   */
  lemma {:induction false} ExpandAllUsesCandidates(sentence: string, inv: InverseMapping, abbrs: seq<string>, scorer: Scorer)
    requires WellFormed(inv) && PicksCandidate(scorer) && AllKnown(inv, abbrs)
    ensures exists expansions :: AreCandidates(inv, abbrs, expansions) &&
              ExpandAll(sentence, inv, abbrs, scorer) == ReplaceEach(sentence, abbrs, expansions)
    decreases |abbrs|
  {
    if abbrs == [] {
      assert AreCandidates(inv, abbrs, []);
      assert ExpandAll(sentence, inv, abbrs, scorer) == ReplaceEach(sentence, abbrs, []);
    } else {
      var n := |abbrs| - 1;
      var front := abbrs[..n];
      assert AllKnown(inv, front) by {
        forall i | 0 <= i < n ensures front[i] in inv.entries {
          assert front[i] == abbrs[i];
        }
      }
      ExpandAllUsesCandidates(sentence, inv, front, scorer);
      var es :| AreCandidates(inv, front, es) &&
                ExpandAll(sentence, inv, front, scorer) == ReplaceEach(sentence, front, es);
      var current := ExpandAll(sentence, inv, front, scorer);
      var expansions := es + [Choose(inv, abbrs[n], current, scorer)];
      assert expansions[..n] == es;
      assert AreCandidates(inv, abbrs, expansions) by {
        forall i | 0 <= i < n ensures abbrs[i] in inv.entries && expansions[i] in inv.entries[abbrs[i]] {
          assert front[i] == abbrs[i] && expansions[i] == es[i];
        }
      }
      assert ExpandAll(sentence, inv, abbrs, scorer) == ReplaceEach(sentence, abbrs, expansions);
    }
  }

  lemma ExpandUsesCandidates(sentence: string, inv: InverseMapping, scorer: Scorer)
    requires WellFormed(inv) && PicksCandidate(scorer)
    ensures exists expansions :: AreCandidates(inv, Abbreviations(inv, sentence), expansions) &&
              Expand(sentence, inv, scorer) == ReplaceEach(sentence, Abbreviations(inv, sentence), expansions)
  {
    AbbreviationsAreKnown(inv, sentence);
    ExpandAllUsesCandidates(sentence, inv, Abbreviations(inv, sentence), scorer);
  }
}
