/**
 * What `Idata::Detector#find` promises, stated over the candidate sets of
 * its tiers and the parse oracle, and the sample scenarios it is meant to
 * handle.
 */
module DetectorProperties {
  import opened Wrappers
  import opened RubyCollections
  import opened Idata

  /** A tier over this passing set returns a delimiter rather than nil. */
  ghost predicate Decides(passing: set<char>) {
    |passing| == 1 || DefaultDelimiter in passing
  }

  /** A sample with none of the universe delimiters has no candidate, and `find` returns the comma. */
  lemma NoDelimiterGivesDefault(det: Detector, parse: Parser)
    requires det.Valid()
    requires PresentDelimiters(det.sample) == {}
    ensures det.candidates == []
    ensures det.Find(parse) == DefaultDelimiter
  {
    forall d | d in CommonDelimiters ensures d !in det.sample {
      assert d !in PresentDelimiters(det.sample);
    }
    CandidateTableSpec(det.sample);
    NothingOccurring(det.sample, CommonDelimiters);
    assert |Keys(det.candidates)| == 0;
  }

  lemma {:induction false} NothingOccurring(sample: string, delims: seq<char>)
    requires forall d :: d in delims ==> d !in sample
    ensures Occurring(sample, delims) == []
  {
    if delims != [] {
      NothingOccurring(sample, delims[1..]);
    }
  }

  /** Every candidate that passes the first tier also passes the second. */
  lemma UniformImpliesParsable(det: Detector, parse: Parser)
    requires det.WellFormed()
    ensures det.UniformCandidates(parse) <= det.ParsableCandidates(parse)
  {
  }

  /**
   * The order of the tiers: a decisive first tier is final; otherwise a
   * decisive second tier is; as written the third tier never decides, so the
   * comma is returned when neither of the first two does.
   */
  lemma TierOrder(det: Detector, parse: Parser)
    requires det.WellFormed()
    ensures Decides(det.UniformCandidates(parse)) ==>
              Some(det.Find(parse)) == det.FindSameOccurence(parse)
    ensures !Decides(det.UniformCandidates(parse)) && Decides(det.ParsableCandidates(parse)) ==>
              Some(det.Find(parse)) == det.FindValid(parse)
    ensures !Decides(det.UniformCandidates(parse)) && !Decides(det.ParsableCandidates(parse)) ==>
              det.Find(parse) == DefaultDelimiter
  {
  }

  /**
   * What a result other than the comma means: it is the one candidate with
   * uniform field counts, or the first tier decided nothing and it is the one
   * candidate that parses.
   */
  lemma {:induction false} NonDefaultResultIsUniqueWinner(det: Detector, parse: Parser)
    requires det.WellFormed()
    ensures var r := det.Find(parse);
      r != DefaultDelimiter ==>
        || det.UniformCandidates(parse) == {r}
        || (!Decides(det.UniformCandidates(parse)) && det.ParsableCandidates(parse) == {r})
  {
    TierOrder(det, parse);
  }

  /** The comma wins whenever it is a candidate whose rows have uniform field counts. */
  lemma {:induction false} UniformCommaWins(det: Detector, parse: Parser)
    requires det.WellFormed()
    requires DefaultDelimiter in det.UniformCandidates(parse)
    ensures det.Find(parse) == DefaultDelimiter
  {
    TierOrder(det, parse);
  }

  /** With no decisive first tier, the comma wins whenever it is a candidate that parses. */
  lemma {:induction false} ParsableCommaWins(det: Detector, parse: Parser)
    requires det.WellFormed()
    requires !Decides(det.UniformCandidates(parse))
    requires DefaultDelimiter in det.ParsableCandidates(parse)
    ensures det.Find(parse) == DefaultDelimiter
  {
    TierOrder(det, parse);
  }

  /** The only candidate with uniform field counts is the answer. */
  lemma {:induction false} UniqueUniformWins(det: Detector, parse: Parser, d: char)
    requires det.WellFormed()
    requires det.UniformCandidates(parse) == {d}
    ensures det.Find(parse) == d
  {
    TierOrder(det, parse);
  }

  /** With no decisive first tier, the only candidate that parses is the answer. */
  lemma {:induction false} UniqueParsableWins(det: Detector, parse: Parser, d: char)
    requires det.WellFormed()
    requires !Decides(det.UniformCandidates(parse))
    requires det.ParsableCandidates(parse) == {d}
    ensures det.Find(parse) == d
  {
    TierOrder(det, parse);
  }

  /** When neither of the first two tiers decides, `find` falls back to the comma. */
  lemma {:induction false} NoTierDecides(det: Detector, parse: Parser)
    requires det.WellFormed()
    requires !Decides(det.UniformCandidates(parse)) && !Decides(det.ParsableCandidates(parse))
    ensures det.Find(parse) == DefaultDelimiter
  {
    TierOrder(det, parse);
  }

  /** With a single candidate, each tier passes that candidate or nothing. */
  lemma CandidateSetsOfSole(det: Detector, parse: Parser, d: char)
    requires det.WellFormed()
    requires Elements(Keys(det.candidates)) == {d}
    ensures det.candidates != []
    ensures SameFieldCount(parse(det.sample, d)) <==> d in det.UniformCandidates(parse)
    ensures parse(det.sample, d).Some? <==> d in det.ParsableCandidates(parse)
    ensures det.UniformCandidates(parse) <= {d} && det.ParsableCandidates(parse) <= {d}
  {
    var keys := Keys(det.candidates);
    assert d in keys by {
      assert d in Elements(keys);
    }
    forall c | c in det.UniformCandidates(parse) ensures c == d {
      assert c in Elements(keys);
    }
    forall c | c in det.ParsableCandidates(parse) ensures c == d {
      assert c in Elements(keys);
    }
  }

  /**
   * A sample in which a single universe delimiter occurs: `find` returns it
   * when the parse with it succeeds, and the comma otherwise.
   */
  lemma {:induction false} SoleCandidate(det: Detector, parse: Parser, d: char)
    requires det.WellFormed()
    requires Elements(Keys(det.candidates)) == {d}
    ensures det.Find(parse) == if parse(det.sample, d).Some? then d else DefaultDelimiter
  {
    CandidateSetsOfSole(det, parse, d);
    if SameFieldCount(parse(det.sample, d)) {
      assert det.UniformCandidates(parse) == {d};
      UniqueUniformWins(det, parse, d);
    } else if parse(det.sample, d).Some? {
      assert det.UniformCandidates(parse) == {};
      assert det.ParsableCandidates(parse) == {d};
      UniqueParsableWins(det, parse, d);
    } else {
      assert det.UniformCandidates(parse) == {};
      assert det.ParsableCandidates(parse) == {};
      NoTierDecides(det, parse);
    }
  }

  lemma SingleFieldDelimiters(s: string)
    requires s == "onlyonefield"
    ensures PresentDelimiters(s) == {}
  {
    assert ',' !in s && '|' !in s && '\t' !in s && ';' !in s;
  }

  lemma CommaSampleDelimiters(s: string)
    requires s == "a,b,c\n1,2,3\n4,5,6"
    ensures PresentDelimiters(s) == {','}
  {
    assert s[1] == ',' && '|' !in s && '\t' !in s && ';' !in s;
  }

  lemma PipeSampleDelimiters(s: string)
    requires s == "a|b|c\n1|2|3\n4|5|6"
    ensures PresentDelimiters(s) == {'|'}
  {
    assert s[1] == '|' && ',' !in s && '\t' !in s && ';' !in s;
  }

  lemma SemicolonSampleDelimiters(s: string)
    requires s == "a;b;c\n1,x;2;3\n4;5;6"
    ensures PresentDelimiters(s) == {',', ';'}
  {
    assert s[1] == ';' && s[7] == ',' && '|' !in s && '\t' !in s;
  }

  lemma UnterminatedQuoteDelimiters(s: string)
    requires s == "\"x|y"
    ensures PresentDelimiters(s) == {'|'}
  {
    assert s[2] == '|' && ',' !in s && '\t' !in s && ';' !in s;
  }

  /** A file of one column without any delimiter: the comma. */
  lemma {:induction false} SingleFieldSample(det: Detector, parse: Parser)
    requires det.Valid() && det.sample == "onlyonefield"
    ensures det.Find(parse) == ','
  {
    SingleFieldDelimiters(det.sample);
    NoDelimiterGivesDefault(det, parse);
  }

  /** Comma-separated lines: the comma, whatever the parser says. */
  lemma {:induction false} CommaSample(det: Detector, parse: Parser)
    requires det.Valid() && det.sample == "a,b,c\n1,2,3\n4,5,6"
    ensures det.Find(parse) == ','
  {
    CommaSampleDelimiters(det.sample);
    CandidateKeys(det.sample);
    SoleCandidate(det, parse, ',');
  }

  /** Pipe-separated lines without commas: the pipe, once the parse with it succeeds. */
  lemma {:induction false} PipeSample(det: Detector, parse: Parser)
    requires det.Valid() && det.sample == "a|b|c\n1|2|3\n4|5|6"
    requires parse(det.sample, '|').Some?
    ensures det.Find(parse) == '|'
  {
    PipeSampleDelimiters(det.sample);
    CandidateKeys(det.sample);
    SoleCandidate(det, parse, '|');
  }

  /**
   * Semicolon-separated lines with a stray comma: when the semicolon gives
   * uniform rows and the comma does not, the semicolon.
   */
  lemma {:induction false} SemicolonSample(det: Detector, parse: Parser)
    requires det.Valid() && det.sample == "a;b;c\n1,x;2;3\n4;5;6"
    requires SameFieldCount(parse(det.sample, ';'))
    requires !SameFieldCount(parse(det.sample, ','))
    ensures det.Find(parse) == ';'
  {
    SemicolonSampleDelimiters(det.sample);
    CandidateKeys(det.sample);
    UniformOneOfTwo(det, parse, ',', ';');
  }

  /** Of two candidates, the only one whose rows have uniform field counts wins. */
  lemma {:induction false} UniformOneOfTwo(det: Detector, parse: Parser, a: char, b: char)
    requires det.WellFormed() && Elements(Keys(det.candidates)) == {a, b}
    requires SameFieldCount(parse(det.sample, b)) && !SameFieldCount(parse(det.sample, a))
    ensures det.Find(parse) == b
  {
    var keys := Keys(det.candidates);
    assert b in Elements(keys);
    forall d | d in det.UniformCandidates(parse) ensures d == b {
      assert d in Elements(keys);
    }
    assert b in det.UniformCandidates(parse);
    UniqueUniformWins(det, parse, b);
  }

  /** `CSV.parse` raising for every delimiter, as it does on an unterminated quote. */
  function AlwaysRaises(sample: string, delim: char): Option<Rows> {
    None
  }

  /**
   * The third tier as written can never pick the most frequent delimiter: on
   * a sample whose every parse raises, `find` returns the comma although the
   * pipe is the only delimiter present; the intended third tier returns the pipe.
   */
  lemma {:induction false} MostFrequentIgnoredAsWritten(det: Detector)
    requires det.Valid() && det.sample == "\"x|y"
    ensures det.MostFrequentCandidates() == {'|'}
    ensures det.Find(AlwaysRaises) == ','
    ensures det.FindIntended(AlwaysRaises) == '|'
  {
    UnterminatedQuoteDelimiters(det.sample);
    CandidateKeys(det.sample);
    OnlyEntry(det, '|');
    assert det.UniformCandidates(AlwaysRaises) == {};
    assert det.ParsableCandidates(AlwaysRaises) == {};
    TierOrder(det, AlwaysRaises);
    IntendedPicksMostFrequent(det, AlwaysRaises);
  }

  /** A table with a single key holds a single entry, which is the most frequent. */
  lemma OnlyEntry(det: Detector, d: char)
    requires det.WellFormed() && Elements(Keys(det.candidates)) == {d}
    ensures |det.candidates| == 1 && det.candidates[0].0 == d
    ensures det.MostFrequentCandidates() == {d}
  {
    DistinctCardinality(Keys(det.candidates));
    assert Keys(det.candidates)[0] in Elements(Keys(det.candidates));
    assert det.candidates[0] in det.candidates;
  }

  /**
   * With the intended third tier, when neither of the first two tiers decides,
   * a single most frequent candidate is returned, and the comma wins a tie it
   * takes part in.
   */
  lemma {:induction false} IntendedPicksMostFrequent(det: Detector, parse: Parser)
    requires det.WellFormed()
    requires !Decides(det.UniformCandidates(parse)) && !Decides(det.ParsableCandidates(parse))
    ensures |det.MostFrequentCandidates()| == 1 ==> det.MostFrequentCandidates() == {det.FindIntended(parse)}
    ensures DefaultDelimiter in det.MostFrequentCandidates() ==> det.FindIntended(parse) == DefaultDelimiter
    ensures det.FindIntended(parse) != DefaultDelimiter ==> det.MostFrequentCandidates() == {det.FindIntended(parse)}
  {
    var third := det.FindMaxOccurenceIntended();
    assert det.FindSameOccurence(parse).None?;
    assert det.FindValid(parse).None?;
    assert det.FindIntended(parse) == if third.Some? then third.value else DefaultDelimiter;
    if |det.MostFrequentCandidates()| == 1 {
      assert third.Some? && det.MostFrequentCandidates() == {third.value};
    }
  }

  /** The correction changes nothing when one of the first two tiers decides. */
  lemma {:induction false} IntendedAgreesWhenEarlierTierDecides(det: Detector, parse: Parser)
    requires det.WellFormed()
    requires Decides(det.UniformCandidates(parse)) || Decides(det.ParsableCandidates(parse))
    ensures det.FindIntended(parse) == det.Find(parse)
  {
  }
}
