# motif_scan, modelled in Dafny

motif_scan reads DNA sequences from a FASTA file. For each sequence it computes
the GC content and the 3-mer distribution. It computes TF-IDF scores for the 3-mers
of the whole corpus. It scans every sequence against the first ten position weight
matrices (PWMs) of a motif library, keeping the best window score of each
(sequence, motif) pair and then the five best motifs per sequence. The result is one
row per sequence.

This project models the core of that pipeline and proves properties of it:

- `fasta_parser.dfy` (module `FastaParser`): `parse_fasta` over the lines of a file.
  `ParseFasta` is the line-by-line loop of the source: current id, current buffer,
  result dict. It is proved equal to `Parse`, which stores the records one after the
  other into an empty dict.
- `sequence_analysis.dfy` (module `SequenceAnalysis`):
  - `calculate_gc_content` as `GcContent`;
  - `calculate_kmer_distribution` as `KmerDistribution`, a `Counter` over the windows;
  - `compute_tf_idf_kmers` as three methods (`CountPerSequence`, `ScoreDocument` and
    `ComputeTfIdfKmers`), proved equal to the function `TfIdfScores`.
- `motif_scoring.dfy` (module `MotifScoring`):
  - `calculate_pwm_score` as the method `CalculatePwmScore`, with the function `PwmScore`;
  - the sliding-window maximum of `find_motif_hits` as the method `MaxWindow`, with
    the function `MaxWindowScore`.
- `ranking.dfy` (module `Ranking`): `sorted(..., key=score, reverse=True)[:5]`, as
  a stable descending insertion sort followed by a cut at five.
- `motif_scanner.dfy` (module `MotifScanner`):
  - `find_motif_hits` as `FindMotifHits`, made of `ScanMotif` (one motif over all
    sequences) and `TrimHits` (the top-five loop);
  - `scan` as `Scan` and `BuildRows`.
- `dicts.dfy` (module `Dicts`): Python's insertion-ordered `dict` as an association
  list with distinct keys. Assignment replaces a present key's value where it stands
  and appends a new key, so iteration order and "last write wins" are exact.
- `wrappers.dfy` (module `Wrappers`): `Option` and `Result`.

Design choices:

- An exception becomes an `Err`. `calculate_pwm_score` raises `ValueError` on a length
  mismatch and `KeyError` on a character outside A, C, G, T. Only the `KeyError` can
  reach `find_motif_hits`, and the code does not catch it, so it aborts
  `find_motif_hits` and `scan`.
- `compute_tf_idf_kmers` returns ONE dict keyed by k-mer alone. Each document's scores
  overwrite the earlier ones, so a k-mer keeps its score in the last document that
  contains it. `scan` puts that same corpus-wide dict in every row. The model follows
  the code, and `TfIdfLastDocumentWins` states the overwrite.
- Floating-point numbers are exact `real`s. `math.log` is a parameter `ln`. The
  facts about TF-IDF values assume only `LogLike(ln)`: `ln` is positive above 1 and
  monotone.
- The motif library is a parameter: a list of `Motif(id, pwm)`, in the order the
  service lists the ids. `pwm` is `None` where the fetch failed.

## Model

Element-wise helpers (`StripRange`, `ClassifyAll`, `Texts`, `Windows`, `Distributions`,
`GcCounts`) and one-step unfolding lemmas (`RecordsStep`, `HeaderSplit`, `TextsSnoc`,
`ScanSequencesNext`, `ScanSequencesStep`, `ScanMotifsStep`, `AppliesAmongStep`,
`SomeDocSplit`, `WithScoreCons`, `SortStep`, `BestScoreStep`, `FoldScoresSnoc`,
`DistributionsSnoc`, `DocCountsSnoc`, `ScoreEntriesSnoc`) are proof steps and have no row;
the rows below that use them carry the properties.

| member | source | states |
|---|---|---|
| Dicts.Keys | motif_scanner.py:107 | the keys of a dict, in iteration order |
| Dicts.Get | motif_scanner.py:141 | `d.get(k)` is `None` exactly when `k` is not a key |
| Dicts.GetOr | motif_scanner.py:141 | `d.get(k, default)` is the default for a missing key and the stored value otherwise |
| Dicts.Put | motif_scanner.py:104 | `d[k] = v` keeps the keys, in order, when `k` is present, and appends `(k, v)` when it is not |
| Dicts.GetPut | motif_scanner.py:104 | after `d[k] = v`, `k` maps to `v` and every other key keeps its value |
| Dicts.GetOrPut | sequence_analysis.py:61 | the same, read through `d.get(k, default)` |
| Dicts.KeysPut | motif_scanner.py:103 | assignment adds its key to the keys and no other key |
| Dicts.PutKeys | motif_scanner.py:103 | the same, for every key at once |
| Dicts.PutDistinct | motif_scanner.py:104 | assignment keeps the keys distinct |
| Dicts.GetAt | fasta_parser.py:19 | in a dict, looking up the key at position `i` finds the value at position `i` |
| Dicts.PutAt | sequence_analysis.py:61 | assigning to the key at position `i` changes position `i` and nothing else |
| Dicts.LastValueIsLast | sequence_analysis.py:62 | `LastValue` finds the value of the last pair with the key, and finds none exactly when no pair has the key |
| Dicts.LastIndexIsLast | sequence_analysis.py:62 | `LastIndex` is the position of that last pair, or -1 when there is none; no later pair has the key |
| Dicts.LastValueOfDict | sequence_analysis.py:62 | in a dict, the last pair with a key is the only one, so `LastValue` agrees with `get` |
| Dicts.GetPutAll | sequence_analysis.py:62 | after `d.update(items)`, a key holds the last value given to it in `items`, or else its old value |
| Dicts.PutAllDistinct | sequence_analysis.py:62 | `d.update(items)` keeps the keys distinct |
| Dicts.GetAppend | fasta_parser.py:19 | looking up a key in `d + [(k, v)]` |
| Dicts.PutSize | fasta_parser.py:19 | an assignment adds at most one entry |
| Dicts.PutAllSize | sequence_analysis.py:62 | `d.update(items)` adds at most one entry per item |
| Dicts.KeysPutAll | sequence_analysis.py:62 | after `d.update(items)` the keys are the old keys and the keys of `items` |
| Dicts.PutAllOfDistinct | motif_scanner.py:108 | `dict(items)` of a list with distinct keys is that list, in its order |
| Dicts.PutPut | fasta_parser.py:19 | a second assignment to a key overwrites the first where it stands |
| Dicts.KeysAppend | fasta_parser.py:19 | the keys of two lists laid end to end are the keys of either |
| Dicts.GetMapValues | motif_scanner.py:107-108 | replacing every value where it stands keeps the keys and maps the value under each key |
| FastaParser.LeadingSpaces | fasta_parser.py:16 | the length of the run of white space at the front of a line |
| FastaParser.TrailingStart | fasta_parser.py:16 | where the run of white space at the back of a line starts |
| FastaParser.Strip | fasta_parser.py:16 | `line.strip()` neither starts nor ends with white space |
| FastaParser.StripIsSlice | fasta_parser.py:16 | `line.strip()` is a slice of the line with only white space cut at each end |
| FastaParser.Parse | fasta_parser.py:11-26 | the parsed dict has no key twice |
| FastaParser.NoHeaderRecords | fasta_parser.py:17-23 | lines without a header form no record |
| FastaParser.BodyIsJoin | fasta_parser.py:19 | without a header, a record's sequence is `''.join` of the texts |
| FastaParser.BodyStops | fasta_parser.py:17-21 | a record's sequence stops at the next header |
| FastaParser.RecordsSplit | fasta_parser.py:17-21 | cutting the input just before a header cuts the record list there |
| FastaParser.RecordsSkip | fasta_parser.py:13-23 | lines before the first header contribute no record |
| FastaParser.RecordsShift | fasta_parser.py:15-25 | the records of a range of lines depend only on those lines |
| FastaParser.HeadShift | fasta_parser.py:17-21 | the record a header opens depends only on the lines from it on |
| FastaParser.BodyShift | fasta_parser.py:22-23 | a record's sequence depends only on the lines after its header |
| FastaParser.RecordKeys | fasta_parser.py:20 | the record ids are exactly the ids of the header lines |
| FastaParser.RecordCount | fasta_parser.py:17-21 | there is one record per header line |
| FastaParser.RecordBetween | fasta_parser.py:17-25 | a header followed by sequence lines up to the next header or the end forms the record of its id and the joined texts |
| FastaParser.TextsAreStripped | fasta_parser.py:16-23 | a sequence line contributes its stripped form |
| FastaParser.PreambleDiscarded | fasta_parser.py:13-23 | lines before the first header are discarded: prefixing them does not change the result |
| FastaParser.ClassifyAllAppend | fasta_parser.py:15-17 | each line is classified on its own |
| FastaParser.NoHeaderNoEntries | fasta_parser.py:24-26 | input without a header line yields an empty dict |
| FastaParser.ParseKeys | fasta_parser.py:17-20 | the keys of the result are exactly the ids of the header lines |
| FastaParser.ParseLastRecordWins | fasta_parser.py:18-19 | a repeated id maps to the sequence of its last record |
| FastaParser.ParseRecordValue | fasta_parser.py:16-25 | an id that no later header repeats maps to the joined, stripped lines between its header and the next header or the end |
| FastaParser.EmptyRecord | fasta_parser.py:18-21 | a header directly followed by another header or by the end of input records an empty sequence |
| FastaParser.EmptyRecordParsed | fasta_parser.py:18-25 | a header directly followed by another header or by the end of input, with no later header repeating its id, maps to `""` in the parsed dict |
| FastaParser.LastValueSkip | fasta_parser.py:18-19 | later records with other ids do not change the value of an id |
| FastaParser.ParseSize | fasta_parser.py:17-20 | the result has at most one entry per header line |
| FastaParser.Flush | fasta_parser.py:18-19 | closing the open record at the next header stores it after every earlier record |
| FastaParser.ClassifyStripped | fasta_parser.py:16-20 | the loop's `startswith(">")` test on the stripped line decides the classification, and `line[1:]` is the id |
| FastaParser.ParsedHeader | fasta_parser.py:17-21 | a header line closes the open record and opens its own; the loop state stays in step with the records |
| FastaParser.ParsedSequence | fasta_parser.py:22-23 | a sequence line extends the buffer of the open record and keeps the loop state in step |
| FastaParser.ParsedAll | fasta_parser.py:24-25 | at the end of input, storing the open record gives every record stored in order |
| FastaParser.ParseFasta | fasta_parser.py:11-26 | the loop computes `Parse`: the records stored into an empty dict in input order |
| SequenceAnalysis.CountChar | sequence_analysis.py:13 | `s.count(c)` is the number of positions holding `c` |
| SequenceAnalysis.CountTwoBound | sequence_analysis.py:13 | the G count and the C count together do not exceed the length |
| SequenceAnalysis.GcContent | sequence_analysis.py:13-14 | the GC content lies in [0, 100], and is 0.0 for the empty sequence |
| SequenceAnalysis.Percent | sequence_analysis.py:14 | a part of a whole, as a percentage, lies in [0, 100] |
| SequenceAnalysis.GcContentIsPercentage | sequence_analysis.py:13-14 | for a non-empty sequence, the GC content is the share of positions holding 'G' or 'C', times 100 |
| SequenceAnalysis.GcContentOnlyCountsUpperGC | sequence_analysis.py:13 | only upper-case 'G' and 'C' count: sequences that agree on where those stand have the same GC content |
| SequenceAnalysis.SameCount | sequence_analysis.py:13 | sequences that agree on where a character stands count it the same |
| SequenceAnalysis.GcContentExamples | sequence_analysis.py:13-14 | "" gives 0.0, "ACGT" gives 50.0, "GGCC" gives 100.0 |
| SequenceAnalysis.GcContentOfACGT | sequence_analysis.py:13-14 | "ACGT" gives 50.0 |
| SequenceAnalysis.GcContentOfGGCC | sequence_analysis.py:13-14 | "GGCC" gives 100.0 |
| SequenceAnalysis.GcContentOfCounts | sequence_analysis.py:14 | the GC content from the G+C count and the length |
| SequenceAnalysis.CounterUpdateDistinct | sequence_analysis.py:27 | a `Counter` never lists a key twice |
| SequenceAnalysis.CounterUpdateCount | sequence_analysis.py:27 | after `counter.update(ws)`, each key's count has grown by its number of occurrences in `ws` |
| SequenceAnalysis.TallyCount | sequence_analysis.py:27 | counting `x` adds one to the count of `x` and leaves every other count alone |
| SequenceAnalysis.CounterUpdateKeys | sequence_analysis.py:27 | `counter.update(ws)` adds exactly the elements of `ws` to the keys |
| SequenceAnalysis.TallyKeys | sequence_analysis.py:27 | counting `x` adds `x` to the keys and no other key |
| SequenceAnalysis.KmerDistribution | sequence_analysis.py:27-28 | the distribution has no key twice, and is empty for a sequence shorter than `k` |
| SequenceAnalysis.KmerCountIsOccurrences | sequence_analysis.py:27-28 | the count of a k-mer is the number of offsets where it occurs; an absent k-mer counts 0 |
| SequenceAnalysis.KmerKeysAreSubstrings | sequence_analysis.py:27-28 | the keys are exactly the substrings of length `k` |
| SequenceAnalysis.KmerEntriesWellFormed | sequence_analysis.py:27-28 | every key has length `k` and a count of at least one |
| SequenceAnalysis.TotalPut | sequence_analysis.py:57 | an assignment changes the sum of the values by the new value minus the old |
| SequenceAnalysis.TotalCounterUpdate | sequence_analysis.py:57 | `counter.update(ws)` adds `len(ws)` to the sum of the counts |
| SequenceAnalysis.TotalTally | sequence_analysis.py:57 | counting one element adds one to the sum of the counts |
| SequenceAnalysis.KmerDistributionExamples | sequence_analysis.py:27-28 | "ACGTACGT", k = 3 gives ACG:2, CGT:2, GTA:1, TAC:1 in first-seen order; "AC" gives {} |
| SequenceAnalysis.ExampleWindows | sequence_analysis.py:27 | the six 3-mer windows of "ACGTACGT" |
| SequenceAnalysis.ExampleTallies | sequence_analysis.py:27 | the counter after each of those windows |
| SequenceAnalysis.ExampleTally | sequence_analysis.py:27 | the same, one window at a time |
| SequenceAnalysis.ExampleRepeatACG | sequence_analysis.py:27 | the second "ACG" raises its count to 2 in place |
| SequenceAnalysis.ExampleRepeatCGT | sequence_analysis.py:27 | the second "CGT" raises its count to 2 in place |
| SequenceAnalysis.TallyNew | sequence_analysis.py:27 | a new k-mer is appended with count 1 |
| SequenceAnalysis.CounterUpdateSteps | sequence_analysis.py:27 | a counter is the result of its tallies, one window after the other |
| SequenceAnalysis.KmerTotal | sequence_analysis.py:57 | the counts add up to the number of windows, `len(s) - k + 1`, or to 0 |
| SequenceAnalysis.TotalAtLeast | sequence_analysis.py:57 | no count exceeds the sum of the counts |
| SequenceAnalysis.DocCounts | sequence_analysis.py:49 | `kmer_doc_count` has no key twice |
| SequenceAnalysis.ScoreEntries | sequence_analysis.py:58-61 | one score per entry of the document |
| SequenceAnalysis.KmerDistributionPositive | sequence_analysis.py:27-28 | every count in a distribution is positive |
| SequenceAnalysis.DistributionsPositive | sequence_analysis.py:46-48 | the same for every sequence's distribution |
| SequenceAnalysis.DistinctKeysOnce | sequence_analysis.py:49 | a dict lists each key once, so `update(kmers.keys())` counts it once per document |
| SequenceAnalysis.DocCountIsDocFrequency | sequence_analysis.py:46-49 | `kmer_doc_count[kmer]` is the number of sequences containing the k-mer |
| SequenceAnalysis.DocFrequencyBounds | sequence_analysis.py:49-51 | a k-mer found in some sequence has a document frequency between 1 and `total_docs` |
| SequenceAnalysis.DocFrequencyAtMost | sequence_analysis.py:49-51 | no document frequency exceeds `total_docs` |
| SequenceAnalysis.TermFrequencyBounds | sequence_analysis.py:57-59 | within a sequence, the tf of a k-mer it contains lies in (0, 1] and the total is positive |
| SequenceAnalysis.TfBoundsOf | sequence_analysis.py:57-59 | the same, for any distribution with positive counts |
| SequenceAnalysis.TfOfPositiveCount | sequence_analysis.py:59 | `count / total` with `1 <= count <= total` lies in (0, 1] |
| SequenceAnalysis.TfSumScaled | sequence_analysis.py:57-59 | the sum of the tfs times the total is the sum of the counts |
| SequenceAnalysis.TermFrequenciesSumToOne | sequence_analysis.py:57-59 | within a sequence with at least one window, the total is `len(s) - k + 1` and the tfs sum to 1 |
| SequenceAnalysis.TfSumOfTotal | sequence_analysis.py:57-59 | taken over a dict's own total, the tfs sum to 1 |
| SequenceAnalysis.IdfPositive | sequence_analysis.py:60 | with at least one sequence the smoothed idf is positive |
| SequenceAnalysis.IdfAntitone | sequence_analysis.py:60 | a k-mer found in more sequences never gets a larger idf |
| SequenceAnalysis.FoldScoresKeys | sequence_analysis.py:55-62 | the folded dict's keys are the k-mers of all documents |
| SequenceAnalysis.ScoreEntriesKeys | sequence_analysis.py:58-61 | the score entries have the document's keys, in order |
| SequenceAnalysis.DocScoresKeys | sequence_analysis.py:56-61 | `doc_scores` has the document's keys, in the document's order |
| SequenceAnalysis.DocScoresDistinct | sequence_analysis.py:56-61 | `doc_scores` has no key twice |
| SequenceAnalysis.DocScoresAt | sequence_analysis.py:57-61 | entry `i` of `doc_scores` scores entry `i` of the document against the document's total |
| SequenceAnalysis.FoldScoresValue | sequence_analysis.py:55-62 | a folded value comes from the last document containing the k-mer |
| SequenceAnalysis.LastContainingExtend | sequence_analysis.py:62 | a document without the k-mer does not change which document is last to contain it |
| SequenceAnalysis.TfIdfKeys | sequence_analysis.py:41-64 | the result has one key per k-mer occurring anywhere in the corpus |
| SequenceAnalysis.TfIdfLastDocumentWins | sequence_analysis.py:55-62 | a k-mer's value is `tf * idf` in the LAST sequence containing it, with its document frequency over the whole corpus |
| SequenceAnalysis.DocScoresValue | sequence_analysis.py:58-61 | a document's score for one of its k-mers is `tf * idf` |
| SequenceAnalysis.TfIdfEmptyCorpus | sequence_analysis.py:41-64 | an empty corpus yields `{}` |
| SequenceAnalysis.TfIdfPositive | sequence_analysis.py:58-62 | every TF-IDF score is positive |
| SequenceAnalysis.FoldScoresPositive | sequence_analysis.py:55-62 | folding documents keeps every score positive |
| SequenceAnalysis.DocScoresPositive | sequence_analysis.py:56-61 | every score of one document is positive |
| SequenceAnalysis.PutAllPositive | sequence_analysis.py:62 | `update` with positive scores keeps every score positive |
| SequenceAnalysis.PutPositive | sequence_analysis.py:61 | assigning a positive score keeps every score positive |
| SequenceAnalysis.TfIdfPositiveOf | sequence_analysis.py:59-61 | `tf * idf` of a present k-mer is positive |
| SequenceAnalysis.FoldScoresDistinct | sequence_analysis.py:52-62 | the TF-IDF dict has no key twice |
| SequenceAnalysis.ComputeTfIdfKmers | sequence_analysis.py:41-64 | the method computes `TfIdfScores` |
| SequenceAnalysis.CountPerSequence | sequence_analysis.py:42-49 | the first loop builds the per-sequence distributions and `kmer_doc_count` |
| SequenceAnalysis.ScoreDocument | sequence_analysis.py:56-61 | the inner loop builds `doc_scores` for one document |
| MotifScoring.NucleotideIndex | motif_scanner.py:67 | A, C, G, T map to columns 0 to 3, and nothing else has a column |
| MotifScoring.FirstUnknown | motif_scanner.py:69-70 | the first position holding a character outside A, C, G, T, or `None` when there is none |
| MotifScoring.CalculatePwmScore | motif_scanner.py:53-71 | the loop computes `PwmScore`: the length error first, then the first unknown character, else the sum of the weights |
| MotifScoring.PwmScoreOkIff | motif_scanner.py:64-70 | a window scores exactly when its length matches and it holds only A, C, G, T; otherwise, which error is raised |
| MotifScoring.WeightBounds | motif_scanner.py:70 | a weight lies between its row's minimum and maximum |
| MotifScoring.PrefixScoreBounds | motif_scanner.py:68-70 | a partial sum lies between the sums of the row minima and row maxima |
| MotifScoring.PwmScoreBounds | motif_scanner.py:53-71 | a score lies between the sum of the row minima and the sum of the row maxima |
| MotifScoring.PwmScoreExample | motif_scanner.py:53-71 | "AC" scores 2 against rows favouring A then C; "A" raises a length error; "AN" raises on 'N' |
| MotifScoring.MaxWindow | motif_scanner.py:94-99 | the window loop computes `MaxWindowScore` |
| MotifScoring.BestScoreErrSticks | motif_scanner.py:95-97 | once a window raises, the result is that error |
| MotifScoring.BestScoreBounds | motif_scanner.py:95-99 | the running maximum bounds every window seen, and all those windows scored |
| MotifScoring.BestScoreOkWhenAll | motif_scanner.py:95-99 | when every window seen scores, so does the running maximum |
| MotifScoring.BestIndexAttains | motif_scanner.py:95-99 | the running maximum, or its error, is that of a window seen |
| MotifScoring.BestScoreAttained | motif_scanner.py:95-99 | the same, as an existence statement |
| MotifScoring.BestScoreIsMax | motif_scanner.py:94-99 | the running maximum succeeds exactly when every window scores; then it is the largest of their scores |
| MotifScoring.MaxWindowScoreIsMax | motif_scanner.py:94-99 | the recorded score is the maximum over all offsets `0..len(s) - len(pwm)` |
| MotifScoring.MaxWindowScoreErrNames | motif_scanner.py:64-70 | a failing pair has a non-empty motif and fails on a character of the sequence outside A, C, G, T |
| MotifScoring.MaxWindowScoreOkCovers | motif_scanner.py:94-99 | a pair with a non-empty motif that scores has only A, C, G, T in its sequence |
| MotifScoring.WindowNucleotide | motif_scanner.py:69-70 | every character of a window that scores is one of A, C, G, T |
| MotifScoring.MaxWindowScoreFails | motif_scanner.py:94-99 | a pair fails exactly when the motif is non-empty and the sequence holds a character outside A, C, G, T |
| MotifScoring.ScoreOfFour | motif_scanner.py:68-70 | a four-position window's score, position by position |
| MotifScoring.ExactAcgtScore | motif_scanner.py:68-70 | against ACGT, a window scores one per matching position |
| MotifScoring.WindowsOfRepeat | motif_scanner.py:95-97 | "ACGTACGT" windows score 4, 0, 0, 0, 4 against ACGT |
| MotifScoring.WindowsOfTail | motif_scanner.py:95-97 | "TTTTACGT" windows score 1, 0, 0, 0, 4 against ACGT |
| MotifScoring.MaxWindowExampleRepeat | motif_scanner.py:94-99 | the best window of "ACGTACGT" against ACGT scores 4 |
| MotifScoring.MaxWindowExampleTail | motif_scanner.py:94-99 | the best window of "TTTTACGT" scores 4: a later, strictly larger score replaces the first |
| Ranking.Insert | motif_scanner.py:108 | inserting adds one entry, at the front or after the old head |
| Ranking.InsertPermutes | motif_scanner.py:108 | inserting adds exactly `x` to the entries |
| Ranking.InsertDescending | motif_scanner.py:108 | inserting into a descending list keeps it descending |
| Ranking.WithScoreAppend | motif_scanner.py:108 | the entries with a given score of `a + b` are those of `a`, then those of `b` |
| Ranking.WithScoreInsert | motif_scanner.py:108 | an inserted entry goes ahead of every entry with its score |
| Ranking.SortDescendingIsSort | motif_scanner.py:108 | the sort orders by non-increasing score and is a permutation |
| Ranking.SortDescendingOrders | motif_scanner.py:108 | the sort orders by non-increasing score |
| Ranking.SortDescendingPermutes | motif_scanner.py:108 | the sort keeps every entry exactly once |
| Ranking.SortDescendingIsStable | motif_scanner.py:108 | the sort is stable: entries with equal scores keep their order |
| Ranking.InsertKeys | motif_scanner.py:108 | inserting adds the entry's key |
| Ranking.InsertDistinct | motif_scanner.py:108 | inserting an entry with a new key keeps the keys distinct |
| Ranking.SortDescendingKeys | motif_scanner.py:108 | the sort keeps the keys |
| Ranking.SortDescendingDistinct | motif_scanner.py:108 | sorting a dict's entries repeats no key |
| Ranking.WithScorePrefix | motif_scanner.py:108 | a prefix keeps a prefix of the entries with each score |
| Ranking.TopFiveIsTop | motif_scanner.py:108 | `[:5]` keeps `min(5, n)` entries, best first, all taken from the input |
| Ranking.DescendingSplit | motif_scanner.py:108 | in a descending list, every entry after a cut scores no more than every entry before it |
| Ranking.TopFiveDropsLower | motif_scanner.py:108 | every dropped entry scores no more than every kept entry |
| Ranking.TopFiveKeepsFirst | motif_scanner.py:108 | among equal scores, the entries the dict lists first are kept |
| Ranking.TopFiveDistinct | motif_scanner.py:108 | the top five of a dict repeat no key, so `dict(...)` of them keeps them as they are |
| Ranking.TopFiveExample | motif_scanner.py:108 | scores 1, 3, 3, 2 for a, b, c, d rank as b, c, d, a |
| Ranking.TopFiveOfFour | motif_scanner.py:108 | the same for any four entries scoring in that pattern |
| Ranking.SortOfThree | motif_scanner.py:108 | three entries already in descending order stay put |
| Ranking.InsertBelowThree | motif_scanner.py:108 | an entry scoring below three others goes last |
| Ranking.InsertBelowAll | motif_scanner.py:108 | an entry scoring below every entry goes last |
| MotifScanner.Scanned | motif_scanner.py:84 | `motif_ids[:10]`: at most ten motifs, a prefix of the library |
| MotifScanner.ScanMotif | motif_scanner.py:89-104 | the loop over the sequences for one motif computes `ScanSequences` |
| MotifScanner.TrimHits | motif_scanner.py:107-108 | each sequence's hits are replaced, where they stand, by their top five |
| MotifScanner.FindMotifHits | motif_scanner.py:73-110 | the method computes `MotifHits`: the first ten motifs, failed fetches skipped, then the trim |
| MotifScanner.Scan | motif_scanner.py:112-145 | an error from `find_motif_hits` is the result; otherwise one row per parsed sequence, in file order, with its GC content, 3-mer distribution, the corpus TF-IDF dict and its hits (`{}` when it has none) |
| MotifScanner.BuildRows | motif_scanner.py:131-143 | one row per sequence, in order |
| MotifScanner.MapEntries | motif_scanner.py:131-143 | one result per element, in order |
| MotifScanner.RecordStep | motif_scanner.py:102-104 | creating a sequence's dict when missing, then setting the motif's score, is one `Record` |
| MotifScanner.ScanSequencesErrSticks | motif_scanner.py:89-97 | once a sequence raises, the pass raises that error |
| MotifScanner.ScanMotifsErrSticks | motif_scanner.py:84-104 | once a motif's pass raises, `find_motif_hits` raises that error |
| MotifScanner.RecordDistinct | motif_scanner.py:102-104 | recording keeps the sequence ids distinct |
| MotifScanner.ScanSequencesDistinct | motif_scanner.py:89-104 | a pass keeps the sequence ids distinct |
| MotifScanner.ScanMotifsDistinct | motif_scanner.py:83-104 | `motif_hits` has no sequence id twice |
| MotifScanner.RecordAt | motif_scanner.py:102-104 | recording changes the hits of its sequence and of no other |
| MotifScanner.ScanSequencesAt | motif_scanner.py:89-104 | one motif's pass adds hits exactly to the sequences it applies to, with that pair's best score |
| MotifScanner.ScanMotifsHas | motif_scanner.py:84-104 | a sequence has hits exactly when some scanned motif applies to it |
| MotifScanner.ScanMotifsAt | motif_scanner.py:84-104 | a sequence's hits are `dict` of the pairs it collected from the motifs in order |
| MotifScanner.ScanSequencesOk | motif_scanner.py:89-104 | a pass that completes scored every sequence it applies to without raising |
| MotifScanner.ScanMotifsOk | motif_scanner.py:84-104 | when `find_motif_hits` completes, no scanned pair raised |
| MotifScanner.ScanSequencesErr | motif_scanner.py:89-104 | a pass that raises does so with the error of a sequence it applies to |
| MotifScanner.ScanMotifsErr | motif_scanner.py:84-104 | a failing scan fails with the error of some scanned pair |
| MotifScanner.TrimAllGet | motif_scanner.py:107-108 | trimming keeps the sequence ids and trims each sequence's hits |
| MotifScanner.MotifHitsOfSequence | motif_scanner.py:73-110 | a sequence has an entry exactly when some scanned motif applies; its entry is the top five of the pairs collected |
| MotifScanner.MotifHitsTrimmed | motif_scanner.py:106-108 | a sequence's hits are the top five of its untrimmed hits: at most five, best first, all taken from the untrimmed hits, and none dropped scores higher than one kept |
| MotifScanner.MotifHitsKeys | motif_scanner.py:73-110 | the result has entries only for sequence ids, none twice |
| MotifScanner.ScanSequencesKeys | motif_scanner.py:89-104 | a pass adds entries only for sequence ids |
| MotifScanner.ScanMotifsKeys | motif_scanner.py:84-104 | `motif_hits` has entries only for sequence ids |
| MotifScanner.MotifHitsFails | motif_scanner.py:73-110 | `find_motif_hits` raises exactly when some scanned pair raises, and with such a pair's error |
| MotifScanner.MotifHitsFailsOnUnknown | motif_scanner.py:64-110 | it raises exactly when a scanned, fetched, non-empty motif no longer than some sequence meets a character outside A, C, G, T in it |
| MotifScanner.MotifHitsFirstTen | motif_scanner.py:84 | motifs after the tenth are never fetched or scored |
| MotifScanner.ContributesWithIdIsSome | motif_scanner.py:84-104 | a motif id is collected for a sequence exactly when one of the motifs has that id and contributes |
| MotifScanner.EntryKeys | motif_scanner.py:104 | a motif contributes the key of its own id, when it contributes |
| MotifScanner.CollectedKeys | motif_scanner.py:84-104 | a sequence collects a motif id exactly when a motif with that id contributes |
| MotifScanner.CollectedStepKeys | motif_scanner.py:84-104 | one more motif adds its id when it contributes |
| MotifScanner.CollectedValues | motif_scanner.py:84-104 | every collected pair is the id and best score of one of the motifs |
| MotifScanner.CollectedDistinct | motif_scanner.py:84-104 | with distinct motif ids, a sequence collects no id twice |
| MotifScanner.HitsAreTopFive | motif_scanner.py:106-108 | with distinct motif ids, a sequence's hits are the top five of its collected pairs |
| MotifScanner.HitScoreIsBestWindow | motif_scanner.py:94-108 | every score in a sequence's hits is the best window score of some scanned motif over that sequence |
| MotifScanner.MotifHitsExample | motif_scanner.py:73-110 | one motif ACGT over "ACGTACGT" and "TTTTACGT" records 4 for both |
| MotifScanner.ExampleScanned | motif_scanner.py:84-104 | the scan of that example, before the trim |
| MotifScanner.ExampleFirstSequence | motif_scanner.py:89-104 | its first sequence |
| MotifScanner.ExampleSecondSequence | motif_scanner.py:89-104 | its second sequence |
| MotifScanner.ExampleRecord | motif_scanner.py:102-104 | recording the second sequence's score |
| MotifScanner.ExampleTrimmed | motif_scanner.py:107-108 | trimming leaves the example unchanged |

## Left out

- fetch_motif_ids and fetch_pwm (motif_scanner.py:17-51): HTTP requests to HOCOMOCO. The library is a parameter: ids in service order, each with its fetched PWM or `None` for a failed fetch. The failure message printed by fetch_pwm is not modelled.
- `__init__` (motif_scanner.py:7-15): lower-casing the species only builds URLs, which are not modelled.
- File I/O: parse_fasta's `open` and the line iteration. The lines of the file are a parameter; line endings are removed by `strip` as in the source.
- pandas: `scan` returns a sequence of `Row` values in place of a DataFrame, in the same order and with the same five columns.
- Floating point: weights, percentages and scores are exact reals. Rounding, NaN and infinities are not modelled. `math.log` is a parameter, and only `LogLike` is assumed of it.
- MotifScoring.Pwm: a PWM is assumed to have four columns per row, as HOCOMOCO's mononucleotide models do. The column index is always 0 to 3, so a wider row has its extra columns ignored and a narrower row makes the indexing raise `IndexError` at a nucleotide whose column is missing; neither case is modelled.
- The check `if max_score is not None` (motif_scanner.py:101) is always true, since at least one window exists there. `MaxWindow` always returns a score or an error, so `ScanMotif` has no branch for it.
- `calculate_pwm_score`'s ValueError (motif_scanner.py:64-65) is modelled as `LengthMismatch`, but `find_motif_hits` always passes a window of the PWM's length, so it cannot reach `scan`.
- SequenceAnalysis.KmerDistribution: requires `k >= 1`. With `k = 0`, Python counts `len(s) + 1` empty strings; with a negative `k` it counts odd slices. `scan` only uses `k = 3`.
- SequenceAnalysis.TfIdfPositive: states positivity only under `LogLike(ln)`, not for `math.log` itself.
- visualize_results.py and api_integration.py: plotting and a separate HTTP client, outside the scanning core.
