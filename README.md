# Delimiter detection of `Idata::Detector`

This project models how `Idata::Detector` in `lib/idata/detector.rb` guesses the field delimiter of a delimited text file.

- **Candidates.** The detector counts how often each delimiter of a fixed universe (`,`, `|`, tab, `;`) occurs in a sample of the file. It keeps the delimiters that occur as *candidates*, in universe order.
- **Three tiers.** Three tiers of decreasing confidence then try to settle on one candidate:
  1. the rows parsed with that delimiter all have the same number of fields;
  2. the parse raises no error;
  3. the delimiter has the largest occurrence count. As written, this tier never decides (see Findings).
- **Tie-break.** Every tier uses the same rule. A single passing candidate is returned. Among several passing candidates, the comma is returned when it passed. Otherwise the tier decides nothing and hands over to the next one. The comma is also the final fallback.

The model has four modules:

- `RubyCollections` (`ruby_collections.dfy`): the parts of Ruby's Array and Hash that the detector uses.
  - A Ruby Hash is the sequence of its entries in key-insertion order.
  - `Hash#[]=`, `Hash#[]`, `Hash#select`, `Hash#keys` and `Array#uniq` are functions, and their properties are lemmas.
- `ArrayToHash` (`array_to_h.dfy`): the `Array#to_h` patch at the top of the file.
  - Its loop is the method `ToH`. `ToH` is proved against the function `PairsToHash`.
  - Further lemmas prove that the last pair wins and that keys keep their first-insertion order.
- `Idata` (`detector.dfy`): the candidate table, the three tiers and `find`.
  - `Detector` is a class whose `sample` and `candidates` are set once by its constructor.
  - Ruby's CSV parser is a parameter `parse: (string, char) -> Option<Rows>`. Its `None` stands for any exception that `CSV.parse` raises.
- `DetectorProperties` (`detector_properties.dfy`): what `find` promises.
  - The order of the tiers, and the comma as the tie-break favourite.
  - Sample scenarios.
  - The discrepancy in the third tier described under Findings.

Each tier is stated over a set of passing candidates (`UniformCandidates`, `ParsableCandidates`, `MostFrequentCandidates`). The first two tiers and the corrected third tier are proved to follow the tie-break rule `FollowsTieBreak` for their set. The third tier as written is proved to return nil always, so it does not follow that rule.

## Model

| member | source | states |
|---|---|---|
| RubyCollections.Uniq | lib/idata/detector.rb:56 | `uniq` keeps exactly the elements of its input, without repetitions, and is never longer than the input |
| RubyCollections.UniqKeepsFirstOccurrenceOrder | lib/idata/detector.rb:56 | `uniq` lists elements in the order of their first occurrence in the input |
| RubyCollections.UniqSingleIffConstant | lib/idata/detector.rb:56 | `uniq.count == 1` holds exactly when the array is non-empty and all its elements are equal |
| RubyCollections.DistinctCardinality | lib/idata/detector.rb:48 | an array without repetitions has as many elements as distinct values, so `selected.count` counts distinct delimiters |
| RubyCollections.Keys | lib/idata/detector.rb:46 | `Hash#keys` lists one key per entry, in entry order |
| RubyCollections.Get | lib/idata/detector.rb:11 | `h[k]` is present exactly when `k` is a key, and then it is the value of an entry with that key |
| RubyCollections.Store | lib/idata/detector.rb:11 | `h[k] = v` keeps the key order when `k` is present and appends `k` otherwise |
| RubyCollections.StoreThenGet | lib/idata/detector.rb:11 | after `h[k] = v`, reading `k` gives `v` and every other key reads as before |
| RubyCollections.StoreNewKeyAppends | lib/idata/detector.rb:11 | storing a key not yet present appends exactly one entry at the end |
| RubyCollections.StoreKeepsDistinctKeys | lib/idata/detector.rb:11 | `h[k] = v` never creates a duplicate key |
| RubyCollections.Select | lib/idata/detector.rb:29 | `Hash#select` keeps exactly the entries satisfying the block, and is never longer than the hash |
| RubyCollections.SelectDistributes | lib/idata/detector.rb:29 | selecting from two hashes put end to end selects from each in turn, so entries keep their order and each is kept at most once |
| RubyCollections.SelectSingle | lib/idata/detector.rb:29 | a single entry is kept exactly when it satisfies the block |
| RubyCollections.SelectKeepsDistinctKeys | lib/idata/detector.rb:29 | `Hash#select` keeps a hash free of duplicate keys, and its keys are among the original keys |
| ArrayToHash.PairsToHash | lib/idata/detector.rb:8-14 | the hash built by storing each pair in turn into an empty hash has no duplicate keys |
| ArrayToHash.ToH | lib/idata/detector.rb:8-14 | the `each` loop of `to_h` yields the hash of storing every pair in order |
| ArrayToHash.LastValue | lib/idata/detector.rb:10-12 | a value exists exactly when some pair has the key, and it is the value of the last pair with that key |
| ArrayToHash.LastPairWins | lib/idata/detector.rb:10-12 | in the result of `to_h`, each key maps to the value of the last pair with that key, and to nil when no pair has it |
| ArrayToHash.KeysInFirstInsertionOrder | lib/idata/detector.rb:9-12 | the keys of `to_h` are the pair keys once each, in order of first appearance |
| ArrayToHash.DistinctPairsConvertFaithfully | lib/idata/detector.rb:27-29 | on pairs with distinct keys (such as the universe counts), `to_h` keeps every pair in order |
| Idata.Occurrences | lib/idata/detector.rb:28 | `scan(delim).count` of a one-character delimiter is its multiplicity in the sample |
| Idata.DelimiterCounts | lib/idata/detector.rb:27-28 | the mapped pairs have the universe delimiters as keys, in order, each with its occurrence count |
| Idata.Occurring | lib/idata/detector.rb:29 | the delimiters kept are exactly those of the universe that occur in the sample |
| Idata.Positive | lib/idata/detector.rb:29 | the block `v > 0` of the candidate filter; its meaning for the table is stated by Idata.CandidateTableSpec |
| Idata.CandidateTable | lib/idata/detector.rb:27-29 | the table that `initialize` builds from the sample; its keys, order and counts are stated by Idata.CandidateTableSpec and Idata.CandidateKeys |
| Idata.SelectedCountsAreOccurring | lib/idata/detector.rb:29 | the keys surviving `select { v > 0 }` are the occurring delimiters, in universe order |
| Idata.CandidateTableSpec | lib/idata/detector.rb:27-29 | the candidates are exactly the occurring universe delimiters, in universe order, each with its positive occurrence count, without duplicates |
| Idata.CandidateKeys | lib/idata/detector.rb:27-29 | the set of candidates is exactly the set of universe delimiters present in the sample |
| Idata.NonEmptyRows | lib/idata/detector.rb:56 | `select { !e.empty? }` keeps exactly the rows with at least one field, and never yields more rows than it was given |
| Idata.NonEmptyRowsDistributes | lib/idata/detector.rb:56 | filtering two row lists put end to end filters each in turn, so kept rows stay in order and each appears at most once |
| Idata.NonEmptyRowsSingle | lib/idata/detector.rb:56 | a single row is kept exactly when it has a field |
| Idata.FieldCounts | lib/idata/detector.rb:56 | `map { e.count }` gives each row's number of fields, position by position |
| Idata.SameFieldCount | lib/idata/detector.rb:54-59 | the first tier's test on one parse outcome; its meaning is stated by Idata.SameFieldCountMeaning |
| Idata.SameFieldCountMeaning | lib/idata/detector.rb:54-59 | the first tier's test passes if and only if the parse does not raise, some row has a field, and all rows with fields have the same number of them |
| Idata.SelectedKeysArePassing | lib/idata/detector.rb:39-46 | the keys selected by a tier's block are exactly that tier's passing candidates |
| Idata.Decide | lib/idata/detector.rb:46-49 | the tie-break obeys three rules. A tier returns a delimiter exactly when one candidate passed or the comma passed. A single passing candidate is returned. A result other than the comma is the sole passing candidate |
| Idata.MaxEntry | lib/idata/detector.rb:68 | a non-empty table has an entry whose count is at least every other count |
| Idata.LastSortedByCount | lib/idata/detector.rb:68 | `sort_by(&:last).last` is nil for an empty table, and otherwise a `[delimiter, count]` pair of the table with the largest count |
| Idata.Detector.constructor | lib/idata/detector.rb:23-30 | the candidate table holds the universe delimiters occurring in the sample, in universe order, each with its positive count |
| Idata.Detector.FindSameOccurence | lib/idata/detector.rb:53-64 | the first tier follows the tie-break rule over the candidates whose parse gives uniform field counts |
| Idata.Detector.FindValid | lib/idata/detector.rb:38-50 | the second tier follows the tie-break rule over the candidates whose parse raises nothing |
| Idata.Detector.FindMaxOccurence | lib/idata/detector.rb:67-72 | as written, the third tier always returns nil |
| Idata.Detector.FindMaxOccurenceIntended | lib/idata/detector.rb:67-72 | the corrected third tier follows the tie-break rule over the candidates with the largest count, a set that is non-empty whenever there are candidates |
| Idata.Detector.Cascade | lib/idata/detector.rb:34 | `find_same_occurence \|\| find_valid \|\| third \|\| DEFAULT_DELIMITER` always yields a universe delimiter |
| Idata.Detector.Find | lib/idata/detector.rb:32-35 | `find` always returns a universe delimiter, and the comma when there is no candidate |
| Idata.Detector.FindIntended | lib/idata/detector.rb:32-35 | the same holds for `find` with the corrected third tier |
| DetectorProperties.NoDelimiterGivesDefault | lib/idata/detector.rb:33 | a sample without any universe delimiter has an empty candidate table, and `find` returns the comma |
| DetectorProperties.UniformImpliesParsable | lib/idata/detector.rb:54-59 | every candidate passing the first tier also passes the second |
| DetectorProperties.TierOrder | lib/idata/detector.rb:34 | a decisive first tier gives the answer. Otherwise a decisive second tier does. Otherwise, as written, the answer is the comma |
| DetectorProperties.NonDefaultResultIsUniqueWinner | lib/idata/detector.rb:34 | a result other than the comma is either the only candidate with uniform rows, or the only parsable candidate when the first tier decided nothing |
| DetectorProperties.UniformCommaWins | lib/idata/detector.rb:63 | when the comma passes the first tier, `find` returns the comma |
| DetectorProperties.ParsableCommaWins | lib/idata/detector.rb:49 | when the first tier decides nothing and the comma parses, `find` returns the comma |
| DetectorProperties.UniqueUniformWins | lib/idata/detector.rb:62 | the only candidate with uniform rows is the answer |
| DetectorProperties.UniqueParsableWins | lib/idata/detector.rb:48 | when the first tier decides nothing, the only parsable candidate is the answer |
| DetectorProperties.NoTierDecides | lib/idata/detector.rb:34 | when neither of the first two tiers decides, `find` returns the comma |
| DetectorProperties.CandidateSetsOfSole | lib/idata/detector.rb:39-60 | with a single candidate, it passes each of the first two tiers exactly when its parse passes that tier's test, and no other delimiter passes |
| DetectorProperties.SoleCandidate | lib/idata/detector.rb:32-35 | with a single candidate, `find` returns it when its parse succeeds, and the comma otherwise |
| DetectorProperties.SingleFieldSample | lib/idata/detector.rb:33 | a one-column sample without delimiters gives the comma |
| DetectorProperties.CommaSample | lib/idata/detector.rb:32-35 | comma-separated lines give the comma, whatever the parser does |
| DetectorProperties.PipeSample | lib/idata/detector.rb:32-35 | pipe-separated lines without a comma give the pipe, once the parse with it succeeds |
| DetectorProperties.SemicolonSample | lib/idata/detector.rb:53-63 | semicolon lines with a stray comma give the semicolon when only the semicolon yields uniform rows |
| DetectorProperties.UniformOneOfTwo | lib/idata/detector.rb:62 | of two candidates, the only one with uniform rows wins |
| DetectorProperties.MostFrequentIgnoredAsWritten | lib/idata/detector.rb:68 | on sample `"x\|y` with every parse raising, the pipe is the most frequent candidate. `find` as written returns the comma, while the corrected `find` returns the pipe |
| DetectorProperties.OnlyEntry | lib/idata/detector.rb:68 | a table with one key has one entry, and that entry is the most frequent |
| DetectorProperties.IntendedPicksMostFrequent | lib/idata/detector.rb:67-72 | with the corrected third tier and no decisive earlier tier, a single most frequent candidate is returned. The comma wins a tie it is part of. Any other result is the sole most frequent candidate |
| DetectorProperties.IntendedAgreesWhenEarlierTierDecides | lib/idata/detector.rb:34 | the correction changes `find` only when neither of the first two tiers decides |

## Left out

- Reading the sample (lib/idata/detector.rb:21, 24-25): the sample is the constructor's parameter. The model leaves out three things:
  - the `head -n 100` shell-out and `SAMPLE_SIZE`, which are file I/O;
  - the conversion to UTF-8 that drops invalid bytes;
  - the global `Encoding.default_internal`/`default_external` settings (lines 4-5).
- `@sample_lines` (line 26): it is computed but never read, so it is not modelled.
- `CSV.parse` itself (lines 41, 56): it is the `parse` parameter of every operation that calls it.
  - Its rows are sequences of fields, so the model cannot tell `nil` fields from empty strings. Only the number of fields matters to the detector.
  - Any exception is `None`.
- Delimiters are characters. Every universe delimiter is a single character, so `scan(delim).count` is the number of occurrences of that character.
- The mechanism that reopens Ruby's `Array` class for `to_h` (lines 7-15) is not modelled. The method's behaviour is modelled as an ordinary function and method over sequences of pairs.
- Idata.LastSortedByCount: `sort_by` is not stable in Ruby, so among equal largest counts the model does not say which pair comes last. As written, the pair is never equal to an Integer, so the choice cannot change the result.
- Idata.MaxEntry: among equal counts it returns the later entry. Its contract only promises an entry with the largest count.

## Findings

| source | as written | input that shows it | evidently intended | confidence | as-written member | corrected member |
|---|---|---|---|---|---|---|
| lib/idata/detector.rb:68 | `v == @candidates.sort_by(&:last).last` compares an Integer count with a `[delimiter, count]` pair. These are never equal, so the most-occurrence tier never selects anything and always returns nil | sample `"x\|y` (an unterminated quote, so every parse raises). The only candidate is the pipe, yet `find` returns the comma | compare with the largest count, `sort_by(&:last).last.last`, so that the most frequent candidate is chosen by the same tie-break rule | high (from reading the code; not executed) | Idata.Detector.FindMaxOccurence, DetectorProperties.MostFrequentIgnoredAsWritten | Idata.Detector.FindMaxOccurenceIntended, Idata.Detector.FindIntended, DetectorProperties.IntendedPicksMostFrequent |
