/**
 Worked instances of the pipeline on small inputs: a mapping file in which
 two expansions share an abbreviation, and what expansion does with it.
 */
module Scenarios {
  import opened Collections
  import opened Text
  import opened Data
  import opened Inference

  /** Two records, each mapping one Dutch expansion to "AF". */
  function AfMappingFile(): seq<Record> {
    [[("ademfrequentie", "AF")], [("atriumfibrilleren", "AF")]]
  }

  /** A scorer whose model always ranks the first candidate highest. */
  function FirstCandidate(): Scorer {
    (pair, candidates) => 0
  }

  /** The flat mapping of the "AF" file. */
  function AfMapping(): Mapping {
    Dict(["ademfrequentie", "atriumfibrilleren"], map["ademfrequentie" := "AF", "atriumfibrilleren" := "AF"])
  }

  /** The inverse of the "AF" file. */
  function AfInverseMapping(): InverseMapping {
    Dict(["AF"], map["AF" := ["ademfrequentie", "atriumfibrilleren"]])
  }

  /** Flattening the file keeps both expansions, in file order. */
  lemma AfFlatten()
    ensures Flatten(AfMappingFile()) == AfMapping()
  {
    var items := [("ademfrequentie", "AF"), ("atriumfibrilleren", "AF")];
    assert Concat(AfMappingFile()) == items by {
      assert AfMappingFile()[..1] == [[("ademfrequentie", "AF")]];
      assert AfMappingFile()[..1][..0] == [];
    }
    assert items[..1] == [items[0]] && items[..1][..0] == [];
    var m := Assign(items);
    assert m.keys == AfMapping().keys;
    assert m.entries == AfMapping().entries;
  }

  lemma AfMappingValid()
    ensures AfMapping().Valid()
  {
    var m := AfMapping();
    assert m.keys[0] != m.keys[1];
  }

  /** After the first expansion, "AF" has one candidate. */
  lemma AfInvertOnce()
    ensures AfMapping().Valid()
    ensures InvertPrefix(AfMapping(), 1) == Dict(["AF"], map["AF" := ["ademfrequentie"]])
  {
    AfMappingValid();
    var m := AfMapping();
    var once := InvertPrefix(m, 1);
    assert InvertPrefix(m, 0) == Empty();
    assert [] + [m.keys[0]] == ["ademfrequentie"];
    assert once.keys == ["AF"];
    assert once.entries == map["AF" := ["ademfrequentie"]];
  }

  /** Both expansions end up as the candidates of "AF", in file order. */
  lemma AfInvert()
    ensures AfMapping().Valid()
    ensures Invert(AfMapping()) == AfInverseMapping()
  {
    AfInvertOnce();
    var m := AfMapping();
    var once := Dict(["AF"], map["AF" := ["ademfrequentie"]]);
    assert m.keys[1] == "atriumfibrilleren" && m.entries["atriumfibrilleren"] == "AF";
    assert InvertPrefix(m, 2) == once.Put("AF", once.entries["AF"] + ["atriumfibrilleren"]);
    assert once.entries["AF"] + ["atriumfibrilleren"] == ["ademfrequentie", "atriumfibrilleren"];
    assert once.entries["AF" := ["ademfrequentie", "atriumfibrilleren"]] == AfInverseMapping().entries;
  }

  /** What `get_invert_mapping` gives for the "AF" file. */
  lemma AfInverse()
    ensures Invert(Flatten(AfMappingFile())) == AfInverseMapping()
    ensures WellFormed(AfInverseMapping())
  {
    AfFlatten();
    AfInvert();
    InvertIsWellFormed(AfMapping());
  }

  /** The scorer that always picks the first candidate picks a candidate. */
  lemma FirstCandidatePicks()
    ensures PicksCandidate(FirstCandidate())
  {
  }

  /** Only "AF" occurs in "AF 20". */
  lemma AfTwentyAbbreviations()
    ensures Abbreviations(AfInverseMapping(), "AF 20") == ["AF"]
  {
    assert StartsWith("AF 20", "AF");
    assert AfInverseMapping().keys[..0] == [];
  }

  /** "AF" in the sentence is replaced by the candidate the scorer picks. */
  lemma AfExpansion()
    ensures WellFormed(AfInverseMapping()) && PicksCandidate(FirstCandidate())
    ensures Expand("AF 20", AfInverseMapping(), FirstCandidate()) == "ademfrequentie 20"
  {
    var inv := AfInverseMapping();
    AfInverse();
    FirstCandidatePicks();
    AfTwentyAbbreviations();
    var abbrs := ["AF"];
    assert abbrs[..0] == [];
    var e := Choose(inv, "AF", "AF 20", FirstCandidate());
    assert e == "ademfrequentie";
    assert Expand("AF 20", inv, FirstCandidate()) == Replace("AF 20", "AF", e);
    AfTwentyReplaced();
  }

  lemma AfTwentyReplaced()
    ensures Replace("AF 20", "AF", "ademfrequentie") == "ademfrequentie 20"
  {
    assert "AF 20" == "AF" + " 20";
    assert 'A' !in " 20";
    NotContainsWithoutFirst(" 20", "AF");
    ReplaceLeadingOnly("AF", " 20", "ademfrequentie");
    assert "ademfrequentie" + " 20" == "ademfrequentie 20";
  }

  /** An inverse in which the candidate for "AF" is itself an abbreviation. */
  function ChainedInverse(): InverseMapping {
    Dict(["AF", "RR"], map["AF" := ["RR"], "RR" := ["bloeddruk"]])
  }

  /** Of "AF" and "RR", only "AF" occurs in "AF". */
  lemma ChainedAbbreviations()
    ensures Abbreviations(ChainedInverse(), "AF") == ["AF"]
  {
    var inv := ChainedInverse();
    assert StartsWith("AF", "AF");
    assert 'R' !in "AF";
    NotContainsWithoutFirst("AF", "RR");
    assert inv.keys[..1] == ["AF"] && inv.keys[..1][..0] == [];
    assert Filter(inv.keys[..1], OccursIn("AF")) == ["AF"];
    assert !OccursIn("AF")("RR");
  }

  /**
   The abbreviations are collected from the original sentence only: "RR",
   brought in by expanding "AF", is not expanded in turn.
   */
  lemma IntroducedAbbreviationStays()
    ensures WellFormed(ChainedInverse()) && PicksCandidate(FirstCandidate())
    ensures Expand("AF", ChainedInverse(), FirstCandidate()) == "RR"
  {
    var inv := ChainedInverse();
    assert WellFormed(inv);
    FirstCandidatePicks();
    ChainedAbbreviations();
    var abbrs := ["AF"];
    assert abbrs[..0] == [];
    assert Choose(inv, "AF", "AF", FirstCandidate()) == "RR";
    assert Expand("AF", inv, FirstCandidate()) == Replace("AF", "AF", "RR");
    assert "AF" == "AF" + "";
    NotContainsWithoutFirst("", "AF");
    ReplaceLeadingOnly("AF", "", "RR");
    assert "RR" + "" == "RR";
  }
}
