/**
 * Idata::Detector: guesses the field delimiter of a delimited text file from
 * a sample of its first lines.
 *
 * Each delimiter of a fixed universe that occurs in the sample becomes a
 * candidate. Three tiers of decreasing confidence then try to pick one
 * candidate: uniform field counts, a parse without error, the largest
 * occurrence count. A tier with a single passing candidate picks it; a tier
 * with several passing candidates picks the comma when the comma passed, and
 * otherwise hands over to the next tier. The comma is the final fallback.
 *
 * Ruby's CSV parser is not modelled: every function that needs it takes it
 * as a parameter `parse`, whose `None` stands for any exception it raises.
 */
module Idata {
  import opened Wrappers
  import opened RubyCollections
  import opened ArrayToHash

  /** The fields of one parsed line; only how many there are matters here. */
  type Row = seq<string>
  type Rows = seq<Row>

  /** `CSV.parse(sample, col_sep: delim)`: the rows, or None when it raises. */
  type Parser = (string, char) -> Option<Rows>

  const DefaultDelimiter: char := ','
  const CommonDelimiters: seq<char> := [DefaultDelimiter, '|', '\t', ';']

  /** `sample.scan(delim).count` for a one-character delimiter. */
  function Occurrences(sample: string, delim: char): (n: nat)
    ensures n == multiset(sample)[delim]
  {
    if sample == [] then 0
    else
      assert sample == [sample[0]] + sample[1..];
      (if sample[0] == delim then 1 else 0) + Occurrences(sample[1..], delim)
  }

  /** `delims.map { |delim| [delim, sample.scan(delim).count] }` */
  function DelimiterCounts(sample: string, delims: seq<char>): (pairs: seq<(char, nat)>)
    ensures Keys(pairs) == delims
    ensures forall i :: 0 <= i < |pairs| ==> pairs[i].1 == Occurrences(sample, delims[i])
  {
    if delims == [] then []
    else
      var rest := DelimiterCounts(sample, delims[1..]);
      var pairs := [(delims[0], Occurrences(sample, delims[0]))] + rest;
      assert Keys(pairs) == [delims[0]] + Keys(rest);
      pairs
  }

  /** The filter `select { |k, v| v > 0 }` of the candidate table. */
  predicate Positive(delim: char, count: nat) {
    count > 0
  }

  /** The candidate table that the constructor builds from a sample. */
  function CandidateTable(sample: string): Hash<char, nat> {
    Select(PairsToHash(DelimiterCounts(sample, CommonDelimiters)), Positive)
  }

  /** The delimiters of `delims` that occur in `sample`, in the order of `delims`. */
  function Occurring(sample: string, delims: seq<char>): (r: seq<char>)
    ensures forall d :: d in r <==> d in delims && d in sample
  {
    if delims == [] then []
    else (if delims[0] in sample then [delims[0]] else []) + Occurring(sample, delims[1..])
  }

  lemma {:induction false} SelectedCountsAreOccurring(sample: string, delims: seq<char>)
    ensures Keys(Select(DelimiterCounts(sample, delims), Positive)) == Occurring(sample, delims)
  {
    if delims != [] {
      var head := (delims[0], Occurrences(sample, delims[0]));
      var rest := DelimiterCounts(sample, delims[1..]);
      var pairs := DelimiterCounts(sample, delims);
      assert pairs == [head] + rest;
      assert pairs[1..] == rest;
      SelectedCountsAreOccurring(sample, delims[1..]);
      var selRest := Select(rest, Positive);
      assert Positive(head.0, head.1) <==> delims[0] in sample;
      if delims[0] in sample {
        assert Select(pairs, Positive) == [head] + selRest;
        assert Keys([head] + selRest) == [delims[0]] + Keys(selRest);
      } else {
        assert Select(pairs, Positive) == selRest;
      }
    }
  }

  /**
   * The candidate table holds exactly the universe delimiters that occur in
   * the sample, in universe order, each with its occurrence count.
   */
  lemma CandidateTableSpec(sample: string)
    ensures Keys(CandidateTable(sample)) == Occurring(sample, CommonDelimiters)
    ensures forall e :: e in CandidateTable(sample) ==> e.1 == Occurrences(sample, e.0) && e.1 > 0
    ensures DistinctKeys(CandidateTable(sample))
  {
    var counts := DelimiterCounts(sample, CommonDelimiters);
    assert DistinctKeys(counts);
    DistinctPairsConvertFaithfully(counts);
    SelectKeepsDistinctKeys(counts, Positive);
    SelectedCountsAreOccurring(sample, CommonDelimiters);
  }

  /** The universe delimiters that occur in a sample. */
  ghost function PresentDelimiters(sample: string): set<char> {
    set d | d in CommonDelimiters && d in sample
  }

  /** A universe delimiter is a candidate exactly when it occurs in the sample. */
  lemma CandidateKeys(sample: string)
    ensures Elements(Keys(CandidateTable(sample))) == PresentDelimiters(sample)
  {
    CandidateTableSpec(sample);
  }

  /** `select { |e| !e.empty? }`: drops the rows without any field. */
  function NonEmptyRows(rows: Rows): (r: Rows)
    ensures forall row :: row in r <==> row in rows && |row| > 0
    ensures |r| <= |rows|
  {
    if rows == [] then []
    else (if |rows[0]| > 0 then [rows[0]] else []) + NonEmptyRows(rows[1..])
  }

  /**
   * The kept rows stay in their order, each once: filtering two row lists
   * put end to end filters each in turn.
   */
  lemma {:induction false} NonEmptyRowsDistributes(a: Rows, b: Rows)
    ensures NonEmptyRows(a + b) == NonEmptyRows(a) + NonEmptyRows(b)
  {
    if a != [] {
      var head: Rows := if |a[0]| > 0 then [a[0]] else [];
      assert (a + b)[0] == a[0];
      assert (a + b)[1..] == a[1..] + b;
      NonEmptyRowsDistributes(a[1..], b);
      calc {
        NonEmptyRows(a + b);
        head + NonEmptyRows(a[1..] + b);
        head + (NonEmptyRows(a[1..]) + NonEmptyRows(b));
        (head + NonEmptyRows(a[1..])) + NonEmptyRows(b);
        NonEmptyRows(a) + NonEmptyRows(b);
      }
    } else {
      assert a + b == b;
    }
  }

  /** A single row is kept exactly when it has a field. */
  lemma NonEmptyRowsSingle(row: Row)
    ensures NonEmptyRows([row]) == if |row| > 0 then [row] else []
  {
    assert [row][1..] == [];
  }

  /** `map { |e| e.count }` */
  function FieldCounts(rows: Rows): (r: seq<nat>)
    ensures |r| == |rows|
    ensures forall i :: 0 <= i < |rows| ==> r[i] == |rows[i]|
  {
    seq(|rows|, i requires 0 <= i < |rows| => |rows[i]|)
  }

  /**
   * The test of the first tier: the parse succeeds and, ignoring the rows
   * without fields, `map(&:count).uniq.count == 1`.
   */
  predicate SameFieldCount(parsed: Option<Rows>) {
    parsed.Some? && |Uniq(FieldCounts(NonEmptyRows(parsed.value)))| == 1
  }

  /** Some row has at least one field. */
  ghost predicate HasFields(rows: Rows) {
    exists i :: 0 <= i < |rows| && |rows[i]| > 0
  }

  /** All rows that have fields have the same number of them. */
  ghost predicate EqualFieldCounts(rows: Rows) {
    forall i, j :: (0 <= i < |rows| && 0 <= j < |rows| && |rows[i]| > 0 && |rows[j]| > 0) ==> |rows[i]| == |rows[j]|
  }

  lemma KeptWidth(kept: Rows, row: Row)
    requires row in kept
    ensures |row| in FieldCounts(kept)
  {
    var a :| 0 <= a < |kept| && kept[a] == row;
    assert FieldCounts(kept)[a] == |row|;
  }

  lemma ConstantWidthsMeanEqualFieldCounts(rows: Rows)
    requires var widths := FieldCounts(NonEmptyRows(rows));
      |widths| > 0 && forall a :: 0 <= a < |widths| ==> widths[a] == widths[0]
    ensures HasFields(rows) && EqualFieldCounts(rows)
  {
    var kept := NonEmptyRows(rows);
    assert kept[0] in rows;
    forall i | 0 <= i < |rows| && |rows[i]| > 0
      ensures |rows[i]| == FieldCounts(kept)[0]
    {
      KeptWidth(kept, rows[i]);
    }
  }

  lemma UniformWidthsMeanEqualFieldCounts(rows: Rows)
    requires |Uniq(FieldCounts(NonEmptyRows(rows)))| == 1
    ensures HasFields(rows) && EqualFieldCounts(rows)
  {
    UniqSingleIffConstant(FieldCounts(NonEmptyRows(rows)));
    ConstantWidthsMeanEqualFieldCounts(rows);
  }

  lemma EqualFieldCountsMeanUniformWidths(rows: Rows)
    requires HasFields(rows) && EqualFieldCounts(rows)
    ensures |Uniq(FieldCounts(NonEmptyRows(rows)))| == 1
  {
    var kept := NonEmptyRows(rows);
    var widths := FieldCounts(kept);
    var i :| 0 <= i < |rows| && |rows[i]| > 0;
    assert rows[i] in kept;
    forall a | 0 <= a < |widths| ensures widths[a] == widths[0] {
      assert kept[a] in rows && kept[0] in rows;
    }
    UniqSingleIffConstant(widths);
  }

  /**
   * The first tier accepts a parse exactly when it succeeded, at least one row
   * has a field, and all rows that have fields have the same number of them.
   */
  lemma SameFieldCountMeaning(parsed: Option<Rows>)
    ensures SameFieldCount(parsed) <==>
      parsed.Some? && HasFields(parsed.value) && EqualFieldCounts(parsed.value)
  {
    if SameFieldCount(parsed) {
      UniformWidthsMeanEqualFieldCounts(parsed.value);
    }
    if parsed.Some? && HasFields(parsed.value) && EqualFieldCounts(parsed.value) {
      EqualFieldCountsMeanUniformWidths(parsed.value);
    }
  }

  /**
   * The shared tie-break of the three tiers, over the set of candidates that
   * passed: a single one is returned; among several the comma wins when it
   * passed; otherwise the tier decides nothing.
   */
  ghost predicate FollowsTieBreak(passing: set<char>, r: Option<char>) {
    && (r.Some? ==> r.value in passing)
    && (r.Some? <==> |passing| == 1 || DefaultDelimiter in passing)
    && (|passing| == 1 ==> r.Some? && passing == {r.value})
    && (r.Some? && r.value != DefaultDelimiter ==> passing == {r.value})
  }

  /** The delimiters whose table entry satisfies `accepts`. */
  ghost function Passing(cands: Hash<char, nat>, accepts: (char, nat) -> bool): set<char> {
    set e | e in cands && accepts(e.0, e.1) :: e.0
  }

  lemma SelectedKeysArePassing(cands: Hash<char, nat>, accepts: (char, nat) -> bool)
    ensures Elements(Keys(Select(cands, accepts))) == Passing(cands, accepts)
  {
    var sel := Select(cands, accepts);
    forall d | d in Passing(cands, accepts) ensures d in Keys(sel) {
      var e :| e in cands && accepts(e.0, e.1) && e.0 == d;
      var i :| 0 <= i < |sel| && sel[i] == e;
      assert Keys(sel)[i] == d;
    }
    forall d | d in Keys(sel) ensures d in Passing(cands, accepts) {
      var i :| 0 <= i < |sel| && Keys(sel)[i] == d;
      assert sel[i] in sel;
    }
  }

  /**
   * One tier: `selected = candidates.select { ... }.keys`, then
   * `return selected.first if selected.count == 1` and
   * `return DEFAULT_DELIMITER if selected.include?(DEFAULT_DELIMITER)`.
   */
  function Decide(cands: Hash<char, nat>, accepts: (char, nat) -> bool): (r: Option<char>)
    requires DistinctKeys(cands)
    ensures FollowsTieBreak(Passing(cands, accepts), r)
  {
    var selected := Keys(Select(cands, accepts));
    SelectedKeysArePassing(cands, accepts);
    SelectKeepsDistinctKeys(cands, accepts);
    DistinctCardinality(selected);
    if |selected| == 1 then
      assert Elements(selected) == {selected[0]};
      Some(selected[0])
    else if DefaultDelimiter in selected then Some(DefaultDelimiter)
    else None
  }

  /** The Ruby values that the third tier compares with `==`. */
  datatype RubyValue = Nil | Int(i: int) | Pair(first: char, last: int)

  /** An entry with the largest count; among equal counts, the later one. */
  function MaxEntry(h: Hash<char, nat>): (e: (char, nat))
    requires h != []
    ensures e in h
    ensures forall e' :: e' in h ==> e'.1 <= e.1
  {
    if |h| == 1 then h[0]
    else
      var n := |h| - 1;
      assert h == h[..n] + [h[n]];
      var m := MaxEntry(h[..n]);
      if h[n].1 >= m.1 then h[n] else m
  }

  /** `candidates.sort_by(&:last).last`: the [delimiter, count] pair with the largest count, or nil. */
  function LastSortedByCount(h: Hash<char, nat>): (v: RubyValue)
    ensures h == [] <==> v == Nil
    ensures h != [] ==> v.Pair?
    ensures v.Pair? ==> (v.first, v.last) in h && forall e :: e in h ==> e.1 <= v.last
  {
    if h == [] then Nil else Pair(MaxEntry(h).0, MaxEntry(h).1)
  }

  class Detector {
    /** The sanitized sample text (the first lines of the file). */
    const sample: string
    /** Delimiter to occurrence count, for the universe delimiters that occur. */
    const candidates: Hash<char, nat>

    /** What the tiers rely on: a Ruby hash whose keys are universe delimiters. */
    ghost predicate WellFormed() {
      && DistinctKeys(candidates)
      && forall d :: d in Keys(candidates) ==> d in CommonDelimiters
    }

    /** What `initialize` establishes: the table is the candidate table of the sample. */
    ghost predicate Valid() {
      WellFormed() && candidates == CandidateTable(sample)
    }

    /** The candidate-table part of `initialize`, given the sample text. */
    constructor (sample: string)
      ensures this.sample == sample && Valid()
      ensures Keys(candidates) == Occurring(sample, CommonDelimiters)
      ensures forall e :: e in candidates ==> e.1 == Occurrences(sample, e.0) && e.1 > 0
    {
      this.sample := sample;
      var counted := ToH(DelimiterCounts(sample, CommonDelimiters));
      candidates := Select(counted, Positive);
      new;
      CandidateTableSpec(sample);
    }

    /** The candidates whose parse gives rows of one uniform field count. */
    ghost function UniformCandidates(parse: Parser): set<char> {
      set d | d in Keys(candidates) && SameFieldCount(parse(sample, d))
    }

    /** The candidates whose parse raises no error. */
    ghost function ParsableCandidates(parse: Parser): set<char> {
      set d | d in Keys(candidates) && parse(sample, d).Some?
    }

    /** The candidates with the largest occurrence count. */
    ghost function MostFrequentCandidates(): set<char> {
      set e | e in candidates && forall e' :: e' in candidates ==> e'.1 <= e.1 :: e.0
    }

    /** `find_same_occurence`: the first tier. */
    function FindSameOccurence(parse: Parser): (r: Option<char>)
      requires WellFormed()
      ensures FollowsTieBreak(UniformCandidates(parse), r)
    {
      var accepts := (d: char, count: nat) => SameFieldCount(parse(sample, d));
      var r := Decide(candidates, accepts);
      assert Passing(candidates, accepts) == UniformCandidates(parse) by {
        forall d | d in UniformCandidates(parse) ensures d in Passing(candidates, accepts) {
          var i :| 0 <= i < |candidates| && Keys(candidates)[i] == d;
          assert candidates[i] in candidates;
        }
      }
      r
    }

    /** `find_valid`: the second tier. */
    function FindValid(parse: Parser): (r: Option<char>)
      requires WellFormed()
      ensures FollowsTieBreak(ParsableCandidates(parse), r)
    {
      var accepts := (d: char, count: nat) => parse(sample, d).Some?;
      var r := Decide(candidates, accepts);
      assert Passing(candidates, accepts) == ParsableCandidates(parse) by {
        forall d | d in ParsableCandidates(parse) ensures d in Passing(candidates, accepts) {
          var i :| 0 <= i < |candidates| && Keys(candidates)[i] == d;
          assert candidates[i] in candidates;
        }
      }
      r
    }

    /**
     * `find_max_occurence` as written: it compares each Integer count with the
     * [delimiter, count] pair that `sort_by(&:last).last` yields, which is
     * never equal, so the tier never decides.
     */
    function FindMaxOccurence(): (r: Option<char>)
      requires WellFormed()
      ensures r == None
    {
      var top := LastSortedByCount(candidates);
      Decide(candidates, (d: char, count: nat) => Int(count) == top)
    }

    /** The third tier as evidently intended: compare with the largest count itself. */
    function FindMaxOccurenceIntended(): (r: Option<char>)
      requires WellFormed()
      ensures FollowsTieBreak(MostFrequentCandidates(), r)
      ensures candidates != [] ==> MostFrequentCandidates() != {}
    {
      if candidates == [] then
        assert MostFrequentCandidates() == {};
        None
      else
        var top := MaxEntry(candidates).1;
        var accepts := (d: char, count: nat) => count == top;
        var r := Decide(candidates, accepts);
        assert Passing(candidates, accepts) == MostFrequentCandidates();
        assert MaxEntry(candidates).0 in MostFrequentCandidates();
        r
    }

    /** `find_same_occurence || find_valid || <third tier> || DEFAULT_DELIMITER` */
    function Cascade(parse: Parser, third: Option<char>): (r: char)
      requires WellFormed()
      requires third.Some? ==> third.value in Keys(candidates) || third.value == DefaultDelimiter
      ensures r in CommonDelimiters
    {
      var same := FindSameOccurence(parse);
      if same.Some? then same.value
      else
        var valid := FindValid(parse);
        if valid.Some? then valid.value
        else if third.Some? then third.value
        else DefaultDelimiter
    }

    /** `find`: the delimiter the detector settles on. */
    function Find(parse: Parser): (r: char)
      requires WellFormed()
      ensures r in CommonDelimiters
      ensures candidates == [] ==> r == DefaultDelimiter
    {
      if candidates == [] then DefaultDelimiter
      else Cascade(parse, FindMaxOccurence())
    }

    /** `find` with the third tier as evidently intended. */
    function FindIntended(parse: Parser): (r: char)
      requires WellFormed()
      ensures r in CommonDelimiters
      ensures candidates == [] ==> r == DefaultDelimiter
    {
      if candidates == [] then DefaultDelimiter
      else Cascade(parse, FindMaxOccurenceIntended())
    }
  }
}
