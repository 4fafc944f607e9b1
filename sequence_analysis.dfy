/**
 * Per-sequence features and the corpus-wide TF-IDF pass of
 * `sequence_analysis.py`: GC percentage, k-mer counting with a `Counter`,
 * and TF-IDF scores folded into one dict keyed by k-mer.
 *
 * Percentages and scores are exact `real`s.  The natural logarithm is a
 * parameter `ln`; the facts proved about TF-IDF assume only `LogLike(ln)`.
 */
module SequenceAnalysis {
  import opened Wrappers
  import opened Dicts

  // ---------------------------------------------------------------------------
  // GC content
  // ---------------------------------------------------------------------------

  /** `s.count(c)` for a one-character `c`: the number of positions holding `c`. */
  function CountChar(s: string, c: char): (n: nat)
    ensures n == multiset(s)[c]
  {
    if s == [] then 0
    else
      assert s == [s[0]] + s[1..];
      (if s[0] == c then 1 else 0) + CountChar(s[1..], c)
  }

  /** Two different characters together occur at most `|s|` times. */
  lemma {:induction false} CountTwoBound(s: string, a: char, b: char)
    requires a != b
    ensures CountChar(s, a) + CountChar(s, b) <= |s|
  {
    if s != [] {
      CountTwoBound(s[1..], a, b);
    }
  }

  /** `calculate_gc_content`: the percentage of positions holding 'G' or 'C'; 0.0 for "". */
  function GcContent(s: string): (r: real)
    ensures |s| == 0 ==> r == 0.0
    ensures 0.0 <= r <= 100.0
  {
    if |s| > 0 then
      CountTwoBound(s, 'G', 'C');
      Percent(CountChar(s, 'G') + CountChar(s, 'C'), |s|)
    else 0.0
  }

  /** `a / n * 100` for a part `a` of a whole `n`. */
  function Percent(a: nat, n: nat): (r: real)
    requires 0 < n && a <= n
    ensures 0.0 <= r <= 100.0
  {
    RatioAtMostOne(a, n);
    ((a as real) / (n as real)) * 100.0
  }

  lemma RatioAtMostOne(a: nat, n: nat)
    requires 0 < n && a <= n
    ensures 0.0 <= (a as real) / (n as real) <= 1.0
  {
  }

  /** For a non-empty sequence, the GC content is the number of positions holding 'G' or 'C',
      divided by the length, times 100. */
  lemma {:induction false} GcContentIsPercentage(s: string)
    requires |s| > 0
    ensures GcContent(s) == ((multiset(s)['G'] + multiset(s)['C']) as real) / (|s| as real) * 100.0
  {
    var a := CountChar(s, 'G') + CountChar(s, 'C');
    assert a <= |s| by { CountTwoBound(s, 'G', 'C'); }
    assert GcContent(s) == Percent(a, |s|);
    assert a == multiset(s)['G'] + multiset(s)['C'];
  }

  /** Only the upper-case letters 'G' and 'C' count: strings that agree on where those
      two letters stand have the same GC content, whatever else they hold. */
  lemma GcContentOnlyCountsUpperGC(s: string, t: string)
    requires |s| == |t|
    requires forall i :: 0 <= i < |s| ==> (s[i] == 'G' <==> t[i] == 'G') && (s[i] == 'C' <==> t[i] == 'C')
    ensures GcContent(s) == GcContent(t)
  {
    SameCount(s, t, 'G');
    SameCount(s, t, 'C');
  }

  lemma {:induction false} SameCount(s: string, t: string, c: char)
    requires |s| == |t|
    requires forall i :: 0 <= i < |s| ==> (s[i] == c <==> t[i] == c)
    ensures CountChar(s, c) == CountChar(t, c)
  {
    if s != [] {
      SameCount(s[1..], t[1..], c);
    }
  }

  /** Worked examples: "", "ACGT" and "GGCC". */
  lemma GcContentExamples()
    ensures GcContent("") == 0.0
    ensures GcContent("ACGT") == 50.0
    ensures GcContent("GGCC") == 100.0
  {
    GcContentOfACGT();
    GcContentOfGGCC();
  }

  lemma GcContentOfACGT()
    ensures GcContent("ACGT") == 50.0
  {
    GcCounts("ACGT", ['A'] + ['C'] + ['G'] + ['T'], 1, 1);
    GcContentOfCounts("ACGT", 2, 4, 50.0);
  }

  lemma GcContentOfGGCC()
    ensures GcContent("GGCC") == 100.0
  {
    GcCounts("GGCC", ['G'] + ['G'] + ['C'] + ['C'], 2, 2);
    GcContentOfCounts("GGCC", 4, 4, 100.0);
  }

  /** Reads the 'G' and 'C' counts of `s` off a character-by-character spelling of it. */
  lemma GcCounts(s: string, spelled: string, g: nat, c: nat)
    requires s == spelled && multiset(spelled)['G'] == g && multiset(spelled)['C'] == c
    ensures multiset(s)['G'] == g && multiset(s)['C'] == c
  {
  }

  /** The GC content of a sequence of length `n` with `gc` positions holding 'G' or 'C'. */
  lemma GcContentOfCounts(s: string, gc: nat, n: nat, percent: real)
    requires |s| == n > 0 && multiset(s)['G'] + multiset(s)['C'] == gc
    requires (gc as real) / (n as real) * 100.0 == percent
    ensures GcContent(s) == percent
  {
    GcContentIsPercentage(s);
  }

  // ---------------------------------------------------------------------------
  // k-mer distribution
  // ---------------------------------------------------------------------------

  /** `sequence[i:i+k]`, the window of length `k` at offset `i`. */
  function Slice(s: string, i: nat, k: nat): string
    requires i + k <= |s|
  {
    s[i..i + k]
  }

  /** The generator `sequence[i:i+k] for i in range(len(sequence) - k + 1)`. */
  function Windows(s: string, k: nat): (ws: seq<string>)
    ensures |s| < k ==> ws == []
    ensures |s| >= k ==> |ws| == |s| - k + 1
    ensures forall i :: 0 <= i < |ws| ==> i + k <= |s| && ws[i] == Slice(s, i, k)
  {
    if |s| < k then [] else seq(|s| - k + 1, i requires 0 <= i < |s| - k + 1 => Slice(s, i, k))
  }

  /** `counter[w] += 1` on a `Counter` (a missing key counts as 0). */
  function Tally(c: Dict<string, nat>, w: string): Dict<string, nat>
  {
    Put<string, nat>(c, w, Count(c, w) + 1)
  }

  /** `counter[w]`: a missing key counts as 0. */
  function Count(c: Dict<string, nat>, w: string): nat
  {
    GetOr(c, w, 0)
  }

  /** `counter.update(ws)`: every element of `ws` is tallied once, in order. */
  function CounterUpdate(c: Dict<string, nat>, ws: seq<string>): Dict<string, nat>
  {
    if ws == [] then c else Tally(CounterUpdate(c, ws[..|ws| - 1]), ws[|ws| - 1])
  }

  /** A counter never lists a key twice. */
  lemma {:induction false} CounterUpdateDistinct(c: Dict<string, nat>, ws: seq<string>)
    requires DistinctKeys(c)
    ensures DistinctKeys(CounterUpdate(c, ws))
  {
    if ws != [] {
      var acc := CounterUpdate(c, ws[..|ws| - 1]);
      var w := ws[|ws| - 1];
      CounterUpdateDistinct(c, ws[..|ws| - 1]);
      PutDistinct<string, nat>(acc, w, Count(acc, w) + 1);
    }
  }

  /** After `counter.update(ws)`, each key's count has grown by its number of occurrences in `ws`. */
  lemma {:induction false} CounterUpdateCount(c: Dict<string, nat>, ws: seq<string>, w: string)
    ensures GetOr(CounterUpdate(c, ws), w, 0) == GetOr(c, w, 0) + multiset(ws)[w]
  {
    if ws != [] {
      var pre := ws[..|ws| - 1];
      var x := ws[|ws| - 1];
      var acc := CounterUpdate(c, pre);
      assert ws == pre + [x];
      assert multiset(ws)[w] == multiset(pre)[w] + (if x == w then 1 else 0);
      assert CounterUpdate(c, ws) == Tally(acc, x);
      CounterUpdateCount(c, pre, w);
      TallyCount(acc, x, w);
    }
  }

  /** Tallying `x` adds one to the count of `x` and leaves every other count alone. */
  lemma TallyCount(c: Dict<string, nat>, x: string, w: string)
    ensures GetOr(Tally(c, x), w, 0) == GetOr(c, w, 0) + (if x == w then 1 else 0)
  {
    GetOrPut<string, nat>(c, x, Count(c, x) + 1, w, 0);
  }

  /** `counter.update(ws)` adds exactly the elements of `ws` to the counter's keys. */
  lemma {:induction false} CounterUpdateKeys(c: Dict<string, nat>, ws: seq<string>, w: string)
    ensures w in Keys(CounterUpdate(c, ws)) <==> w in Keys(c) || w in ws
  {
    if ws != [] {
      var pre := ws[..|ws| - 1];
      var x := ws[|ws| - 1];
      var acc := CounterUpdate(c, pre);
      assert ws == pre + [x];
      assert w in ws <==> w in pre || w == x;
      assert CounterUpdate(c, ws) == Tally(acc, x);
      CounterUpdateKeys(c, pre, w);
      TallyKeys(acc, x, w);
    }
  }

  /** Tallying `x` adds `x` to the keys and no other key. */
  lemma TallyKeys(c: Dict<string, nat>, x: string, w: string)
    ensures w in Keys(Tally(c, x)) <==> w in Keys(c) || w == x
  {
    KeysPut<string, nat>(c, x, Count(c, x) + 1, w);
  }

  /** `calculate_kmer_distribution`: a `Counter` over the windows of length `k`. */
  function KmerDistribution(s: string, k: nat): (d: Dict<string, nat>)
    requires k >= 1
    ensures DistinctKeys(d)
    ensures |s| < k ==> d == []
  {
    CounterUpdateDistinct([], Windows(s, k));
    CounterUpdate([], Windows(s, k))
  }

  /** The count of a k-mer is the number of offsets at which it occurs. */
  lemma KmerCountIsOccurrences(s: string, k: nat, w: string)
    requires k >= 1
    ensures GetOr(KmerDistribution(s, k), w, 0) == multiset(Windows(s, k))[w]
  {
    CounterUpdateCount([], Windows(s, k), w);
  }

  /** The keys are exactly the substrings of length `k`. */
  lemma KmerKeysAreSubstrings(s: string, k: nat, w: string)
    requires k >= 1
    ensures w in Keys(KmerDistribution(s, k)) <==> exists i :: 0 <= i <= |s| - k && Slice(s, i, k) == w
  {
    CounterUpdateKeys([], Windows(s, k), w);
    var ws := Windows(s, k);
    if w in ws {
      var i :| 0 <= i < |ws| && ws[i] == w;
      assert Slice(s, i, k) == w;
    }
    if exists i :: 0 <= i <= |s| - k && Slice(s, i, k) == w {
      var i :| 0 <= i <= |s| - k && Slice(s, i, k) == w;
      assert ws[i] == w;
    }
  }

  /** Every k-mer that is a key has length `k` and a count of at least one. */
  lemma KmerEntriesWellFormed(s: string, k: nat, i: nat)
    requires k >= 1 && i < |KmerDistribution(s, k)|
    ensures |KmerDistribution(s, k)[i].0| == k
    ensures KmerDistribution(s, k)[i].1 >= 1
  {
    var d := KmerDistribution(s, k);
    var w := d[i].0;
    assert Keys(d)[i] == w;
    KmerKeysAreSubstrings(s, k, w);
    KmerCountIsOccurrences(s, k, w);
    GetAt(d, i);
    CounterUpdateKeys([], Windows(s, k), w);
  }

  /** `sum(counter.values())`. */
  function Total(d: Dict<string, nat>): nat
  {
    if d == [] then 0 else d[0].1 + Total(d[1..])
  }

  lemma {:induction false} TotalPut(d: Dict<string, nat>, w: string, v: nat)
    ensures Total(Put(d, w, v)) + GetOr(d, w, 0) == Total(d) + v
  {
    if d != [] && d[0].0 != w {
      TotalPut(d[1..], w, v);
    }
  }

  /** `counter.update(ws)` adds `|ws|` to the sum of the counts. */
  lemma {:induction false} TotalCounterUpdate(c: Dict<string, nat>, ws: seq<string>)
    ensures Total(CounterUpdate(c, ws)) == Total(c) + |ws|
  {
    if ws != [] {
      var pre := CounterUpdate(c, ws[..|ws| - 1]);
      assert CounterUpdate(c, ws) == Tally(pre, ws[|ws| - 1]);
      TotalCounterUpdate(c, ws[..|ws| - 1]);
      TotalTally(pre, ws[|ws| - 1]);
    }
  }

  /** `counter[w] += 1` adds one to the sum of the counts. */
  lemma TotalTally(d: Dict<string, nat>, w: string)
    ensures Total(Tally(d, w)) == Total(d) + 1
  {
    TotalPut(d, w, Count(d, w) + 1);
  }

  /** Worked examples: "ACGTACGT" with k = 3, in first-seen order, and "AC" with k = 3. */
  lemma KmerDistributionExamples()
    ensures KmerDistribution("ACGTACGT", 3) == [("ACG", 2), ("CGT", 2), ("GTA", 1), ("TAC", 1)]
    ensures KmerDistribution("AC", 3) == []
  {
    ExampleWindows();
    ExampleTallies();
    CounterUpdateSteps(ExampleKmers, ExampleCounters);
  }

  /** The windows of "ACGTACGT" for k = 3, and the counter after each of them. */
  const ExampleKmers: seq<string> := ["ACG", "CGT", "GTA", "TAC", "ACG", "CGT"]
  const ExampleCounters: seq<Dict<string, nat>> := [
    [],
    [("ACG", 1)],
    [("ACG", 1), ("CGT", 1)],
    [("ACG", 1), ("CGT", 1), ("GTA", 1)],
    [("ACG", 1), ("CGT", 1), ("GTA", 1), ("TAC", 1)],
    [("ACG", 2), ("CGT", 1), ("GTA", 1), ("TAC", 1)],
    [("ACG", 2), ("CGT", 2), ("GTA", 1), ("TAC", 1)]]

  lemma ExampleWindows()
    ensures Windows("ACGTACGT", 3) == ExampleKmers
  {
    var s := "ACGTACGT";
    assert Slice(s, 0, 3) == "ACG" && Slice(s, 1, 3) == "CGT" && Slice(s, 2, 3) == "GTA";
    assert Slice(s, 3, 3) == "TAC" && Slice(s, 4, 3) == "ACG" && Slice(s, 5, 3) == "CGT";
  }

  lemma ExampleTallies()
    ensures forall i :: 0 <= i < |ExampleKmers| ==> Tally(ExampleCounters[i], ExampleKmers[i]) == ExampleCounters[i + 1]
  {
    forall i | 0 <= i < |ExampleKmers| ensures Tally(ExampleCounters[i], ExampleKmers[i]) == ExampleCounters[i + 1] {
      ExampleTally(i);
    }
  }

  lemma ExampleTally(i: nat)
    requires i < |ExampleKmers|
    ensures Tally(ExampleCounters[i], ExampleKmers[i]) == ExampleCounters[i + 1]
  {
    var c := ExampleCounters[i];
    if i == 0 {
      TallyNew(c, "ACG");
    } else if i == 1 {
      assert Keys(c) == ["ACG"];
      TallyNew(c, "CGT");
    } else if i == 2 {
      assert Keys(c) == ["ACG", "CGT"];
      TallyNew(c, "GTA");
    } else if i == 3 {
      assert Keys(c) == ["ACG", "CGT", "GTA"];
      TallyNew(c, "TAC");
    } else if i == 4 {
      ExampleRepeatACG();
    } else {
      ExampleRepeatCGT();
    }
  }

  /** The second "ACG" finds count 1 at the front and raises it to 2 in place. */
  lemma ExampleRepeatACG()
    ensures Tally(ExampleCounters[4], "ACG") == ExampleCounters[5]
  {
    var c := ExampleCounters[4];
    assert Get(c, "ACG") == Some(1);
    assert Put<string, nat>(c, "ACG", 2) == [("ACG", 2)] + c[1..];
  }

  /** The second "CGT" finds count 1 in second place and raises it to 2 in place. */
  lemma ExampleRepeatCGT()
    ensures Tally(ExampleCounters[5], "CGT") == ExampleCounters[6]
  {
    var c := ExampleCounters[5];
    assert Get(c, "CGT") == Some(1);
    assert Put<string, nat>(c[1..], "CGT", 2) == [("CGT", 2)] + c[2..];
    assert Put<string, nat>(c, "CGT", 2) == [c[0]] + Put<string, nat>(c[1..], "CGT", 2);
  }

  /** Tallying a new k-mer appends it with count 1. */
  lemma TallyNew(c: Dict<string, nat>, w: string)
    requires w !in Keys(c)
    ensures Tally(c, w) == c + [(w, 1)]
  {
  }

  /** Unrolls `CounterUpdate` along a list of intermediate counters, one tally per window. */
  lemma {:induction false} CounterUpdateSteps(ws: seq<string>, cs: seq<Dict<string, nat>>)
    requires |cs| == |ws| + 1 && cs[0] == []
    requires forall i :: 0 <= i < |ws| ==> Tally(cs[i], ws[i]) == cs[i + 1]
    ensures CounterUpdate([], ws) == cs[|ws|]
  {
    if ws != [] {
      CounterUpdateSteps(ws[..|ws| - 1], cs[..|ws|]);
    }
  }

  /** The counts add up to the number of windows, `len(sequence) - k + 1`. */
  lemma KmerTotal(s: string, k: nat)
    requires k >= 1
    ensures Total(KmerDistribution(s, k)) == if |s| >= k then |s| - k + 1 else 0
  {
    TotalCounterUpdate([], Windows(s, k));
  }

  /** No count exceeds the sum of the counts. */
  lemma {:induction false} TotalAtLeast(d: Dict<string, nat>, i: nat)
    requires i < |d|
    ensures d[i].1 <= Total(d)
  {
    if i > 0 {
      TotalAtLeast(d[1..], i - 1);
    }
  }

  // ---------------------------------------------------------------------------
  // TF-IDF over a corpus
  // ---------------------------------------------------------------------------

  /** What is assumed of the logarithm: positive above 1 and monotone. */
  ghost predicate LogLike(ln: real -> real)
  {
    && (forall x :: x > 1.0 ==> ln(x) > 0.0)
    && (forall x, y :: 1.0 <= x <= y ==> ln(x) <= ln(y))
  }

  /** Every entry of a distribution has a positive count, as every `Counter` built from windows does. */
  predicate PositiveCounts(d: Dict<string, nat>)
  {
    forall i :: 0 <= i < |d| ==> d[i].1 >= 1
  }

  /** The per-sequence distributions (`kmer_counts_per_seq`). */
  function Distributions(sequences: seq<string>, k: nat): (ds: seq<Dict<string, nat>>)
    requires k >= 1
    ensures |ds| == |sequences|
    ensures forall j :: 0 <= j < |ds| ==> ds[j] == KmerDistribution(sequences[j], k)
  {
    seq(|sequences|, j requires 0 <= j < |sequences| => KmerDistribution(sequences[j], k))
  }

  /** The number of documents whose distribution has `w` as a key. */
  function DocFrequency(docs: seq<Dict<string, nat>>, w: string): nat
  {
    if docs == [] then 0
    else DocFrequency(docs[..|docs| - 1], w) + (if w in Keys(docs[|docs| - 1]) then 1 else 0)
  }

  /** `kmer_doc_count`: the counter updated with the keys of every document, in order. */
  function DocCounts(docs: seq<Dict<string, nat>>): (c: Dict<string, nat>)
    ensures DistinctKeys(c)
  {
    if docs == [] then []
    else
      CounterUpdateDistinct(DocCounts(docs[..|docs| - 1]), Keys(docs[|docs| - 1]));
      CounterUpdate(DocCounts(docs[..|docs| - 1]), Keys(docs[|docs| - 1]))
  }

  /** `tf = count / total_kmers_in_doc`. */
  function Tf(count: nat, total: nat): real
    requires total > 0
  {
    (count as real) / (total as real)
  }

  /** `idf = log(1 + total_docs / (1 + df))`. */
  function Idf(ln: real -> real, totalDocs: nat, df: nat): real
  {
    ln(1.0 + (totalDocs as real) / ((1 + df) as real))
  }

  /** `tf * idf` for a k-mer with `count` occurrences in a document of `total` k-mers. */
  function TfIdf(count: nat, total: nat, totalDocs: nat, df: nat, ln: real -> real): real
    requires total > 0
  {
    Tf(count, total) * Idf(ln, totalDocs, df)
  }

  /** `doc_scores[kmer] = tf * idf` for one entry `(kmer, count)` of a document of `total` k-mers. */
  function ScoreEntry(e: (string, nat), total: nat, totalDocs: nat, docCount: Dict<string, nat>, ln: real -> real): (string, real)
    requires total > 0
  {
    (e.0, TfIdf(e.1, total, totalDocs, GetOr(docCount, e.0, 0), ln))
  }

  /** The entries of `doc_scores`, in the document's order. */
  function ScoreEntries(doc: Dict<string, nat>, total: nat, totalDocs: nat, docCount: Dict<string, nat>, ln: real -> real): (r: Dict<string, real>)
    requires total > 0
    ensures |r| == |doc|
  {
    seq(|doc|, i requires 0 <= i < |doc| => ScoreEntry(doc[i], total, totalDocs, docCount, ln))
  }

  /** `doc_scores`: one document's k-mers with `tf * idf`; an empty document scores nothing. */
  function DocScores(doc: Dict<string, nat>, totalDocs: nat, docCount: Dict<string, nat>, ln: real -> real): (r: Dict<string, real>)
    requires PositiveCounts(doc)
  {
    if doc == [] then []
    else
      TotalAtLeast(doc, 0);
      ScoreEntries(doc, Total(doc), totalDocs, docCount, ln)
  }

  /** `tf_idf_scores.update(doc_scores)` for each document in turn. */
  function FoldScores(docs: seq<Dict<string, nat>>, totalDocs: nat, docCount: Dict<string, nat>, ln: real -> real): Dict<string, real>
    requires forall j :: 0 <= j < |docs| ==> PositiveCounts(docs[j])
  {
    if docs == [] then []
    else PutAll(FoldScores(docs[..|docs| - 1], totalDocs, docCount, ln), DocScores(docs[|docs| - 1], totalDocs, docCount, ln))
  }

  lemma KmerDistributionPositive(s: string, k: nat)
    requires k >= 1
    ensures PositiveCounts(KmerDistribution(s, k))
  {
    forall i | 0 <= i < |KmerDistribution(s, k)| ensures KmerDistribution(s, k)[i].1 >= 1 {
      KmerEntriesWellFormed(s, k, i);
    }
  }

  lemma DistributionsPositive(sequences: seq<string>, k: nat)
    requires k >= 1
    ensures forall j :: 0 <= j < |Distributions(sequences, k)| ==> PositiveCounts(Distributions(sequences, k)[j])
  {
    forall j | 0 <= j < |sequences| ensures PositiveCounts(Distributions(sequences, k)[j]) {
      KmerDistributionPositive(sequences[j], k);
    }
  }

  /** What `compute_tf_idf_kmers` returns: one dict keyed by k-mer alone. */
  function TfIdfScores(sequences: seq<string>, k: nat, ln: real -> real): Dict<string, real>
    requires k >= 1
  {
    var docs := Distributions(sequences, k);
    DistributionsPositive(sequences, k);
    FoldScores(docs, |sequences|, DocCounts(docs), ln)
  }

  /** A dict with distinct keys lists each key once. */
  lemma {:induction false} DistinctKeysOnce(d: Dict<string, nat>, w: string)
    requires DistinctKeys(d)
    ensures multiset(Keys(d))[w] == if w in Keys(d) then 1 else 0
  {
    if d != [] {
      DistinctKeysOnce(d[1..], w);
      assert Keys(d) == [d[0].0] + Keys(d[1..]);
      assert d[0].0 !in Keys(d[1..]) by {
        forall i | 0 <= i < |d| - 1 ensures Keys(d[1..])[i] != d[0].0 {
          assert d[i + 1].0 != d[0].0;
        }
      }
    }
  }

  /** `kmer_doc_count[kmer]` is the document frequency of `kmer`. */
  lemma {:induction false} DocCountIsDocFrequency(docs: seq<Dict<string, nat>>, w: string)
    requires forall j :: 0 <= j < |docs| ==> DistinctKeys(docs[j])
    ensures GetOr(DocCounts(docs), w, 0) == DocFrequency(docs, w)
  {
    if docs != [] {
      var pre := docs[..|docs| - 1];
      DocCountIsDocFrequency(pre, w);
      CounterUpdateCount(DocCounts(pre), Keys(docs[|docs| - 1]), w);
      DistinctKeysOnce(docs[|docs| - 1], w);
    }
  }

  /** A k-mer that occurs in some document has a document frequency between 1 and the corpus size. */
  lemma {:induction false} DocFrequencyBounds(docs: seq<Dict<string, nat>>, w: string, j: nat)
    requires j < |docs| && w in Keys(docs[j])
    ensures 1 <= DocFrequency(docs, w) <= |docs|
  {
    var pre := docs[..|docs| - 1];
    if j < |docs| - 1 {
      DocFrequencyBounds(pre, w, j);
    } else {
      DocFrequencyAtMost(pre, w);
    }
  }

  lemma {:induction false} DocFrequencyAtMost(docs: seq<Dict<string, nat>>, w: string)
    ensures DocFrequency(docs, w) <= |docs|
  {
    if docs != [] {
      DocFrequencyAtMost(docs[..|docs| - 1], w);
    }
  }

  /** Within one sequence, the term frequency of a k-mer that occurs in it lies in (0, 1]. */
  lemma TermFrequencyBounds(s: string, k: nat, w: string)
    requires k >= 1 && w in Keys(KmerDistribution(s, k))
    ensures Total(KmerDistribution(s, k)) > 0
    ensures 0.0 < Tf(GetOr(KmerDistribution(s, k), w, 0), Total(KmerDistribution(s, k))) <= 1.0
  {
    KmerDistributionPositive(s, k);
    TfBoundsOf(KmerDistribution(s, k), w);
  }

  lemma TfBoundsOf(d: Dict<string, nat>, w: string)
    requires DistinctKeys(d) && PositiveCounts(d) && w in Keys(d)
    ensures Total(d) > 0
    ensures 0.0 < Tf(GetOr(d, w, 0), Total(d)) <= 1.0
  {
    var i :| 0 <= i < |d| && Keys(d)[i] == w;
    TotalAtLeast(d, i);
    GetAt(d, i);
    assert GetOr(d, w, 0) == d[i].1;
    TfOfPositiveCount(d[i].1, Total(d));
  }

  lemma TfOfPositiveCount(c: nat, t: nat)
    requires 1 <= c <= t
    ensures 0.0 < Tf(c, t) <= 1.0
  {
    RatioAtMostOne(c, t);
  }

  /** The sum of the term frequencies of a dict's entries. */
  function TfSum(d: Dict<string, nat>, total: nat): real
    requires total > 0
  {
    if d == [] then 0.0 else Tf(d[0].1, total) + TfSum(d[1..], total)
  }

  lemma {:induction false} TfSumScaled(d: Dict<string, nat>, total: nat)
    requires total > 0
    ensures TfSum(d, total) * (total as real) == Total(d) as real
  {
    if d != [] {
      TfSumScaled(d[1..], total);
      RatioTimes(d[0].1, total);
    }
  }

  lemma RatioTimes(a: nat, n: nat)
    requires n > 0
    ensures Tf(a, n) * (n as real) == a as real
  {
  }

  /** Within one sequence with at least one window, the term frequencies sum to 1. */
  lemma TermFrequenciesSumToOne(s: string, k: nat)
    requires k >= 1 && |s| >= k
    ensures Total(KmerDistribution(s, k)) == |s| - k + 1
    ensures TfSum(KmerDistribution(s, k), Total(KmerDistribution(s, k))) == 1.0
  {
    KmerTotal(s, k);
    TfSumOfTotal(KmerDistribution(s, k));
  }

  /** Taken over a dict's own total, the term frequencies sum to 1. */
  lemma TfSumOfTotal(d: Dict<string, nat>)
    requires Total(d) > 0
    ensures TfSum(d, Total(d)) == 1.0
  {
    TfSumScaled(d, Total(d));
    UnitFactor(TfSum(d, Total(d)), Total(d) as real);
  }

  lemma UnitFactor(x: real, t: real)
    requires t > 0.0 && x * t == t
    ensures x == 1.0
  {
    assert (x - 1.0) * t == 0.0;
  }

  /** With a non-empty corpus the smoothed idf is positive. */
  lemma IdfPositive(ln: real -> real, totalDocs: nat, df: nat)
    requires LogLike(ln) && totalDocs >= 1
    ensures Idf(ln, totalDocs, df) > 0.0
  {
    var x := 1.0 + (totalDocs as real) / ((1 + df) as real);
    assert x > 1.0;
  }

  /** A k-mer found in more documents never gets a larger idf. */
  lemma IdfAntitone(ln: real -> real, totalDocs: nat, df1: nat, df2: nat)
    requires LogLike(ln) && df1 <= df2
    ensures Idf(ln, totalDocs, df2) <= Idf(ln, totalDocs, df1)
  {
    var n := totalDocs as real;
    DivAntitone(n, (1 + df1) as real, (1 + df2) as real);
    var x := 1.0 + n / ((1 + df2) as real);
    var y := 1.0 + n / ((1 + df1) as real);
    assert 1.0 <= x <= y;
  }

  /** Dividing by a larger positive number gives no more. */
  lemma DivAntitone(n: real, a: real, b: real)
    requires 0.0 <= n && 0.0 < a <= b
    ensures 0.0 <= n / b <= n / a
  {
    var q := n / b;
    var p := n / a;
    assert q * b == n && p * a == n;
    assert 0.0 <= q;
    MulMonotone(q, a, b);
    if q > p {
      MulStrict(p, q, a);
    }
  }

  lemma MulMonotone(q: real, a: real, b: real)
    requires 0.0 <= q && a <= b
    ensures q * a <= q * b
  {
    assert q * b - q * a == q * (b - a);
  }

  lemma MulStrict(p: real, q: real, a: real)
    requires p < q && 0.0 < a
    ensures p * a < q * a
  {
    assert q * a - p * a == (q - p) * a;
  }

  /** The keys of the folded dict are the k-mers of all documents. */
  lemma {:induction false} FoldScoresKeys(docs: seq<Dict<string, nat>>, totalDocs: nat, docCount: Dict<string, nat>, ln: real -> real, w: string)
    requires forall j :: 0 <= j < |docs| ==> PositiveCounts(docs[j])
    ensures w in Keys(FoldScores(docs, totalDocs, docCount, ln)) <==> exists j :: 0 <= j < |docs| && w in Keys(docs[j])
  {
    if docs != [] {
      var pre := docs[..|docs| - 1];
      var last := docs[|docs| - 1];
      assert FoldScores(docs, totalDocs, docCount, ln)
          == PutAll(FoldScores(pre, totalDocs, docCount, ln), DocScores(last, totalDocs, docCount, ln));
      FoldScoresKeys(pre, totalDocs, docCount, ln, w);
      DocScoresKeys(last, totalDocs, docCount, ln);
      KeysPutAll(FoldScores(pre, totalDocs, docCount, ln), DocScores(last, totalDocs, docCount, ln), w);
      SomeDocSplit(docs, pre, w);
    }
  }

  /** A key occurs in some document exactly when it occurs in an earlier one or in the last. */
  lemma SomeDocSplit(docs: seq<Dict<string, nat>>, pre: seq<Dict<string, nat>>, w: string)
    requires docs != [] && pre == docs[..|docs| - 1]
    ensures (exists j :: 0 <= j < |docs| && w in Keys(docs[j]))
        <==> (exists j :: 0 <= j < |pre| && w in Keys(pre[j])) || w in Keys(docs[|docs| - 1])
  {
    if exists j :: 0 <= j < |docs| && w in Keys(docs[j]) {
      var j :| 0 <= j < |docs| && w in Keys(docs[j]);
      if j < |docs| - 1 {
        assert pre[j] == docs[j];
      }
    }
    if exists j :: 0 <= j < |pre| && w in Keys(pre[j]) {
      var j :| 0 <= j < |pre| && w in Keys(pre[j]);
      assert docs[j] == pre[j];
    }
  }

  lemma ScoreEntriesKeys(doc: Dict<string, nat>, total: nat, totalDocs: nat, docCount: Dict<string, nat>, ln: real -> real)
    requires total > 0
    ensures Keys(ScoreEntries(doc, total, totalDocs, docCount, ln)) == Keys(doc)
  {
    var r := ScoreEntries(doc, total, totalDocs, docCount, ln);
    forall i | 0 <= i < |doc| ensures Keys(r)[i] == Keys(doc)[i] {
      assert r[i] == ScoreEntry(doc[i], total, totalDocs, docCount, ln);
    }
  }

  /** `doc_scores` has the same keys, in the same order, as the document. */
  lemma DocScoresKeys(doc: Dict<string, nat>, totalDocs: nat, docCount: Dict<string, nat>, ln: real -> real)
    requires PositiveCounts(doc)
    ensures Keys(DocScores(doc, totalDocs, docCount, ln)) == Keys(doc)
  {
    if doc != [] {
      TotalAtLeast(doc, 0);
      ScoreEntriesKeys(doc, Total(doc), totalDocs, docCount, ln);
    }
  }

  lemma DocScoresDistinct(doc: Dict<string, nat>, totalDocs: nat, docCount: Dict<string, nat>, ln: real -> real)
    requires PositiveCounts(doc) && DistinctKeys(doc)
    ensures DistinctKeys(DocScores(doc, totalDocs, docCount, ln))
  {
    var r := DocScores(doc, totalDocs, docCount, ln);
    DocScoresKeys(doc, totalDocs, docCount, ln);
    forall i, j | 0 <= i < j < |r| ensures r[i].0 != r[j].0 {
      assert Keys(r)[i] == Keys(doc)[i] && Keys(r)[j] == Keys(doc)[j];
    }
  }

  /** Entry `i` of `doc_scores` scores entry `i` of the document against the document's total `t`. */
  lemma DocScoresAt(doc: Dict<string, nat>, totalDocs: nat, docCount: Dict<string, nat>, ln: real -> real, i: nat)
    returns (t: nat)
    requires PositiveCounts(doc) && i < |doc|
    ensures t == Total(doc) && t > 0
    ensures DocScores(doc, totalDocs, docCount, ln)[i] == ScoreEntry(doc[i], t, totalDocs, docCount, ln)
  {
    TotalAtLeast(doc, i);
    t := Total(doc);
  }

  /** `j` is the last document whose distribution contains `w`. */
  predicate LastContaining(docs: seq<Dict<string, nat>>, w: string, j: int)
  {
    0 <= j < |docs| && w in Keys(docs[j]) && forall j' :: j < j' < |docs| ==> w !in Keys(docs[j'])
  }

  /** The folded value of a k-mer comes from the last document that contains it. */
  lemma {:induction false} FoldScoresValue(docs: seq<Dict<string, nat>>, totalDocs: nat, docCount: Dict<string, nat>, ln: real -> real, w: string, v: real)
    returns (j: nat)
    requires forall j :: 0 <= j < |docs| ==> PositiveCounts(docs[j]) && DistinctKeys(docs[j])
    requires Get(FoldScores(docs, totalDocs, docCount, ln), w) == Some(v)
    ensures LastContaining(docs, w, j)
    ensures Get(DocScores(docs[j], totalDocs, docCount, ln), w) == Some(v)
  {
    var n := |docs| - 1;
    var pre := docs[..n];
    var acc := FoldScores(pre, totalDocs, docCount, ln);
    var last := DocScores(docs[n], totalDocs, docCount, ln);
    assert FoldScores(docs, totalDocs, docCount, ln) == PutAll(acc, last);
    GetPutAll(acc, last, w);
    DocScoresDistinct(docs[n], totalDocs, docCount, ln);
    DocScoresKeys(docs[n], totalDocs, docCount, ln);
    LastValueOfDict(last, w);
    if Get(last, w).Some? {
      j := n;
    } else {
      assert w !in Keys(docs[n]);
      j := FoldScoresValue(pre, totalDocs, docCount, ln, w, v);
      LastContainingExtend(docs, w, j);
    }
  }

  lemma LastContainingExtend(docs: seq<Dict<string, nat>>, w: string, j: nat)
    requires docs != [] && LastContaining(docs[..|docs| - 1], w, j) && w !in Keys(docs[|docs| - 1])
    ensures LastContaining(docs, w, j)
  {
    var pre := docs[..|docs| - 1];
    forall j' | j < j' < |docs| ensures w !in Keys(docs[j']) {
      if j' < |pre| {
        assert docs[j'] == pre[j'];
      }
    }
  }

  /** The TF-IDF dict has one key per k-mer occurring anywhere in the corpus. */
  lemma TfIdfKeys(sequences: seq<string>, k: nat, ln: real -> real, w: string)
    requires k >= 1
    ensures w in Keys(TfIdfScores(sequences, k, ln)) <==>
      exists j :: 0 <= j < |sequences| && w in Keys(KmerDistribution(sequences[j], k))
  {
    var docs := Distributions(sequences, k);
    DistributionsPositive(sequences, k);
    FoldScoresKeys(docs, |sequences|, DocCounts(docs), ln, w);
  }

  /** The value kept for a k-mer is its tf-idf in the LAST sequence containing it: scores of
      earlier sequences for the same k-mer are overwritten by `update`. `t` is that sequence's
      number of k-mers. */
  lemma TfIdfLastDocumentWins(sequences: seq<string>, k: nat, ln: real -> real, w: string, v: real)
    returns (j: nat, t: nat)
    requires k >= 1
    requires Get(TfIdfScores(sequences, k, ln), w) == Some(v)
    ensures LastContaining(Distributions(sequences, k), w, j)
    ensures t == Total(KmerDistribution(sequences[j], k)) && t > 0
    ensures v == TfIdf(GetOr(KmerDistribution(sequences[j], k), w, 0), t, |sequences|, DocFrequency(Distributions(sequences, k), w), ln)
  {
    var docs := Distributions(sequences, k);
    DistributionsPositive(sequences, k);
    j := FoldScoresValue(docs, |sequences|, DocCounts(docs), ln, w, v);
    t := DocScoresValue(docs[j], |sequences|, DocCounts(docs), ln, w, v);
    DocCountIsDocFrequency(docs, w);
  }

  /** A document's score for one of its k-mers is `tf * idf`. */
  lemma DocScoresValue(doc: Dict<string, nat>, totalDocs: nat, docCount: Dict<string, nat>, ln: real -> real, w: string, v: real)
    returns (t: nat)
    requires PositiveCounts(doc) && DistinctKeys(doc)
    requires Get(DocScores(doc, totalDocs, docCount, ln), w) == Some(v)
    ensures t == Total(doc) && t > 0
    ensures v == TfIdf(GetOr(doc, w, 0), t, totalDocs, GetOr(docCount, w, 0), ln)
  {
    var sc := DocScores(doc, totalDocs, docCount, ln);
    DocScoresKeys(doc, totalDocs, docCount, ln);
    DocScoresDistinct(doc, totalDocs, docCount, ln);
    var i :| 0 <= i < |doc| && Keys(doc)[i] == w;
    t := DocScoresAt(doc, totalDocs, docCount, ln, i);
    GetAt(doc, i);
    GetAt(sc, i);
  }

  /** An empty corpus yields `{}`. */
  lemma TfIdfEmptyCorpus(k: nat, ln: real -> real)
    requires k >= 1
    ensures TfIdfScores([], k, ln) == []
  {
  }

  /** Every value of a score dict is positive. */
  predicate PositiveScores(d: Dict<string, real>)
  {
    forall i :: 0 <= i < |d| ==> d[i].1 > 0.0
  }

  /** Under the two assumptions on the logarithm every TF-IDF score is positive. */
  lemma TfIdfPositive(sequences: seq<string>, k: nat, ln: real -> real)
    requires k >= 1 && LogLike(ln)
    ensures PositiveScores(TfIdfScores(sequences, k, ln))
  {
    var docs := Distributions(sequences, k);
    DistributionsPositive(sequences, k);
    FoldScoresPositive(docs, |sequences|, DocCounts(docs), ln);
  }

  lemma {:induction false} FoldScoresPositive(docs: seq<Dict<string, nat>>, totalDocs: nat, docCount: Dict<string, nat>, ln: real -> real)
    requires forall j :: 0 <= j < |docs| ==> PositiveCounts(docs[j])
    requires |docs| <= totalDocs && LogLike(ln)
    ensures PositiveScores(FoldScores(docs, totalDocs, docCount, ln))
  {
    if docs != [] {
      var pre := docs[..|docs| - 1];
      FoldScoresPositive(pre, totalDocs, docCount, ln);
      DocScoresPositive(docs[|docs| - 1], totalDocs, docCount, ln);
      PutAllPositive(FoldScores(pre, totalDocs, docCount, ln), DocScores(docs[|docs| - 1], totalDocs, docCount, ln));
    }
  }

  lemma DocScoresPositive(doc: Dict<string, nat>, totalDocs: nat, docCount: Dict<string, nat>, ln: real -> real)
    requires PositiveCounts(doc) && totalDocs >= 1 && LogLike(ln)
    ensures PositiveScores(DocScores(doc, totalDocs, docCount, ln))
  {
    var r := DocScores(doc, totalDocs, docCount, ln);
    forall i | 0 <= i < |r| ensures r[i].1 > 0.0 {
      var t := DocScoresAt(doc, totalDocs, docCount, ln, i);
      TotalAtLeast(doc, i);
      TfIdfPositiveOf(doc[i].1, t, totalDocs, GetOr(docCount, doc[i].0, 0), ln);
    }
  }

  lemma {:induction false} PutAllPositive(d: Dict<string, real>, items: seq<(string, real)>)
    requires PositiveScores(d) && PositiveScores(items)
    ensures PositiveScores(PutAll(d, items))
  {
    if items != [] {
      var pre := items[..|items| - 1];
      PutAllPositive(d, pre);
      PutPositive(PutAll(d, pre), items[|items| - 1].0, items[|items| - 1].1);
    }
  }

  lemma {:induction false} PutPositive(d: Dict<string, real>, w: string, v: real)
    requires PositiveScores(d) && v > 0.0
    ensures PositiveScores(Put(d, w, v))
  {
    if d != [] && d[0].0 != w {
      PutPositive(d[1..], w, v);
      assert Put(d, w, v) == [d[0]] + Put(d[1..], w, v);
    }
  }

  lemma TfIdfPositiveOf(count: nat, total: nat, totalDocs: nat, df: nat, ln: real -> real)
    requires 1 <= count <= total && totalDocs >= 1 && LogLike(ln)
    ensures TfIdf(count, total, totalDocs, df, ln) > 0.0
  {
    TfOfPositiveCount(count, total);
    IdfPositive(ln, totalDocs, df);
    ProductPositive(Tf(count, total), Idf(ln, totalDocs, df));
  }

  lemma ProductPositive(a: real, b: real)
    requires a > 0.0 && b > 0.0
    ensures a * b > 0.0
  {
  }

  lemma {:induction false} FoldScoresDistinct(docs: seq<Dict<string, nat>>, totalDocs: nat, docCount: Dict<string, nat>, ln: real -> real)
    requires forall j :: 0 <= j < |docs| ==> PositiveCounts(docs[j])
    ensures DistinctKeys(FoldScores(docs, totalDocs, docCount, ln))
  {
    if docs != [] {
      FoldScoresDistinct(docs[..|docs| - 1], totalDocs, docCount, ln);
      PutAllDistinct(FoldScores(docs[..|docs| - 1], totalDocs, docCount, ln), DocScores(docs[|docs| - 1], totalDocs, docCount, ln));
    }
  }

  // ---------------------------------------------------------------------------
  // compute_tf_idf_kmers, step by step
  // ---------------------------------------------------------------------------

  /** `compute_tf_idf_kmers(sequences, k)` with `ln` standing for `math.log`. */
  method ComputeTfIdfKmers(sequences: seq<string>, k: nat, ln: real -> real) returns (scores: Dict<string, real>)
    requires k >= 1
    ensures scores == TfIdfScores(sequences, k, ln)
  {
    var perSeq, docCount := CountPerSequence(sequences, k);
    DistributionsPositive(sequences, k);
    var totalDocs := |sequences|;
    scores := [];
    var j := 0;
    while j < |perSeq|
      invariant j <= |perSeq| && perSeq == Distributions(sequences, k)
      invariant scores == FoldScores(perSeq[..j], totalDocs, docCount, ln)
    {
      KmerDistributionPositive(sequences[j], k);
      var docScores := ScoreDocument(perSeq[j], totalDocs, docCount, ln);
      FoldScoresSnoc(perSeq, j, totalDocs, docCount, ln);
      scores := PutAll(scores, docScores);
      j := j + 1;
    }
    assert perSeq[..j] == perSeq;
  }

  /** The first loop of `compute_tf_idf_kmers`: `kmer_counts_per_seq` and `kmer_doc_count`. */
  method CountPerSequence(sequences: seq<string>, k: nat) returns (perSeq: seq<Dict<string, nat>>, docCount: Dict<string, nat>)
    requires k >= 1
    ensures perSeq == Distributions(sequences, k)
    ensures docCount == DocCounts(perSeq)
  {
    perSeq := [];
    docCount := [];
    var j := 0;
    while j < |sequences|
      invariant j <= |sequences|
      invariant perSeq == Distributions(sequences[..j], k)
      invariant docCount == DocCounts(perSeq)
    {
      var kmers := KmerDistribution(sequences[j], k);
      DistributionsSnoc(sequences, k, j);
      DocCountsSnoc(perSeq, kmers);
      perSeq := perSeq + [kmers];
      docCount := CounterUpdate(docCount, Keys(kmers));
      j := j + 1;
    }
    assert sequences[..j] == sequences;
  }

  /** The inner loop of `compute_tf_idf_kmers`: `doc_scores` for one document. */
  method ScoreDocument(doc: Dict<string, nat>, totalDocs: nat, docCount: Dict<string, nat>, ln: real -> real) returns (docScores: Dict<string, real>)
    requires PositiveCounts(doc) && DistinctKeys(doc)
    ensures docScores == DocScores(doc, totalDocs, docCount, ln)
  {
    docScores := [];
    var total := Total(doc);
    if doc != [] {
      TotalAtLeast(doc, 0);
    }
    var i := 0;
    while i < |doc|
      invariant i <= |doc|
      invariant doc != [] ==> total > 0 && docScores == ScoreEntries(doc[..i], total, totalDocs, docCount, ln)
      invariant doc == [] ==> docScores == []
    {
      var kmer, count := doc[i].0, doc[i].1;
      ScoreEntriesSnoc(doc, i, total, totalDocs, docCount, ln);
      docScores := Put(docScores, kmer, TfIdf(count, total, totalDocs, GetOr(docCount, kmer, 0), ln));
      i := i + 1;
    }
    if doc != [] {
      assert doc[..i] == doc;
    }
  }

  lemma FoldScoresSnoc(docs: seq<Dict<string, nat>>, j: nat, totalDocs: nat, docCount: Dict<string, nat>, ln: real -> real)
    requires j < |docs| && forall i :: 0 <= i < |docs| ==> PositiveCounts(docs[i])
    ensures FoldScores(docs[..j + 1], totalDocs, docCount, ln) == PutAll(FoldScores(docs[..j], totalDocs, docCount, ln), DocScores(docs[j], totalDocs, docCount, ln))
  {
    assert docs[..j + 1][..j] == docs[..j];
  }

  lemma DistributionsSnoc(sequences: seq<string>, k: nat, j: nat)
    requires k >= 1 && j < |sequences|
    ensures Distributions(sequences[..j + 1], k) == Distributions(sequences[..j], k) + [KmerDistribution(sequences[j], k)]
  {
    var l := Distributions(sequences[..j + 1], k);
    var r := Distributions(sequences[..j], k) + [KmerDistribution(sequences[j], k)];
    forall i | 0 <= i < |l| ensures l[i] == r[i] {
      assert sequences[..j + 1][i] == sequences[i];
      if i < j {
        assert sequences[..j][i] == sequences[i];
      }
    }
  }

  lemma DocCountsSnoc(docs: seq<Dict<string, nat>>, d: Dict<string, nat>)
    ensures DocCounts(docs + [d]) == CounterUpdate(DocCounts(docs), Keys(d))
  {
    assert (docs + [d])[..|docs|] == docs;
  }

  /** One more entry of the document appends one more score, since the key is new. */
  lemma ScoreEntriesSnoc(doc: Dict<string, nat>, i: nat, total: nat, totalDocs: nat, docCount: Dict<string, nat>, ln: real -> real)
    requires DistinctKeys(doc) && i < |doc| && total > 0
    ensures Put(ScoreEntries(doc[..i], total, totalDocs, docCount, ln), doc[i].0, TfIdf(doc[i].1, total, totalDocs, GetOr(docCount, doc[i].0, 0), ln))
      == ScoreEntries(doc[..i + 1], total, totalDocs, docCount, ln)
  {
    var pre := ScoreEntries(doc[..i], total, totalDocs, docCount, ln);
    ScoreEntriesKeys(doc[..i], total, totalDocs, docCount, ln);
    assert doc[i].0 !in Keys(doc[..i]);
    assert Put(pre, doc[i].0, ScoreEntry(doc[i], total, totalDocs, docCount, ln).1) == pre + [ScoreEntry(doc[i], total, totalDocs, docCount, ln)];
  }
}
