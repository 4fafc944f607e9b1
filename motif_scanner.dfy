/**
 * `MotifScanner.find_motif_hits` and `MotifScanner.scan`.
 *
 * The motif library the scanner would fetch over HTTP is a parameter: a list
 * of motifs in the order the service lists them, each with the PWM its fetch
 * returned, or `None` where the fetch failed.  `find_motif_hits` scores every
 * sequence against each of the first ten motifs, keeps each pair's best
 * window, and then trims each sequence's hits to its five best.  An exception
 * raised while scoring a window leaves `find_motif_hits`, and `scan`, without
 * a result: it is an `Err`.
 */
module MotifScanner {
  import opened Wrappers
  import opened Dicts
  import opened MotifScoring
  import opened Ranking
  import SequenceAnalysis
  import FastaParser

  /** How many motifs of the library are scanned (`motif_ids[:10]`). */
  const MotifLimit: nat := 10

  /** The k-mer length `scan` uses for the distribution and the TF-IDF scores. */
  const KmerLength: nat := 3

  /** A motif of the library: its id and the result of fetching its PWM. */
  datatype Motif = Motif(id: string, pwm: Option<Pwm>)

  /** One sequence's hits: motif id to best window score. */
  type Scores = Dict<string, real>

  /** `motif_hits`: sequence id to that sequence's hits. */
  type Hits = Dict<string, Scores>

  /** The motifs a scan fetches and scores. */
  function Scanned(library: seq<Motif>): (ms: seq<Motif>)
    ensures |ms| == if |library| <= MotifLimit then |library| else MotifLimit
    ensures ms <= library
  {
    if |library| <= MotifLimit then library else library[..MotifLimit]
  }

  /** A motif is scored against a sequence when its PWM was fetched and is no longer than the sequence. */
  predicate Applies(m: Motif, s: string)
  {
    m.pwm.Some? && |m.pwm.value| <= |s|
  }

  /** A motif that is scored against a sequence and whose scoring raises. */
  predicate Fails(m: Motif, s: string)
  {
    Applies(m, s) && MaxWindowScore(s, m.pwm.value).Err?
  }

  /** `motif_hits[seq_id][motif_id] = score`, creating `motif_hits[seq_id]` first if needed. */
  function Record(hits: Hits, seqId: string, motifId: string, score: real): Hits
  {
    Put(hits, seqId, Put(GetOr(hits, seqId, []), motifId, score))
  }

  /** The hits after one motif has been run over the first `j` sequences, starting from `hits`. */
  function ScanSequences(hits: Hits, motifId: string, pwm: Pwm, sequences: Dict<string, string>, j: nat): Result<Hits, ScoreError>
    requires j <= |sequences|
  {
    if j == 0 then Ok(hits)
    else match ScanSequences(hits, motifId, pwm, sequences, j - 1)
      case Err(e) => Err(e)
      case Ok(h) =>
        var s := sequences[j - 1].1;
        if |s| < |pwm| then Ok(h)
        else match MaxWindowScore(s, pwm)
          case Err(e) => Err(e)
          case Ok(m) => Ok(Record(h, sequences[j - 1].0, motifId, m))
  }

  /** The hits after the first `n` motifs; a motif whose fetch failed is skipped. */
  function ScanMotifs(motifs: seq<Motif>, sequences: Dict<string, string>, n: nat): Result<Hits, ScoreError>
    requires n <= |motifs|
  {
    if n == 0 then Ok([])
    else match ScanMotifs(motifs, sequences, n - 1)
      case Err(e) => Err(e)
      case Ok(h) =>
        match motifs[n - 1].pwm
        case None => Ok(h)
        case Some(p) => ScanSequences(h, motifs[n - 1].id, p, sequences, |sequences|)
  }

  /** `dict(sorted(scores.items(), key=lambda x: x[1], reverse=True)[:5])`. */
  function Trim(scores: Scores): Scores
  {
    PutAll([], TopFive(scores))
  }

  /** Every sequence's hits trimmed, each in its place. */
  function TrimAll(hits: Hits): Hits
  {
    MapValues(hits, Trim)
  }

  /** What `find_motif_hits(sequences)` returns or raises. */
  function MotifHits(library: seq<Motif>, sequences: Dict<string, string>): Result<Hits, ScoreError>
  {
    match ScanMotifs(Scanned(library), sequences, |Scanned(library)|)
    case Err(e) => Err(e)
    case Ok(h) => Ok(TrimAll(h))
  }

  /** The (motif id, best score) pairs sequence `s` collects from the first `n` motifs, in
      motif order: one for each motif that applies to it. */
  function Collected(motifs: seq<Motif>, s: string, n: nat): Scores
    requires n <= |motifs|
  {
    if n == 0 then []
    else
      Collected(motifs, s, n - 1) + Entry(motifs[n - 1], s)
  }

  /** A motif that is scored against a sequence and whose scoring does not raise. */
  predicate Contributes(m: Motif, s: string)
  {
    Applies(m, s) && MaxWindowScore(s, m.pwm.value).Ok?
  }

  /** The pair motif `m` contributes to sequence `s`, if any. */
  function Entry(m: Motif, s: string): Scores
  {
    if Contributes(m, s) then [(m.id, MaxWindowScore(s, m.pwm.value).value)] else []
  }

  // ---------------------------------------------------------------------------
  // The operations
  // ---------------------------------------------------------------------------

  /** The loop over `sequences.items()` for one motif. */
  method ScanMotif(hits: Hits, motifId: string, pwm: Pwm, sequences: Dict<string, string>) returns (r: Result<Hits, ScoreError>)
    ensures r == ScanSequences(hits, motifId, pwm, sequences, |sequences|)
  {
    var motifHits := hits;
    var j := 0;
    while j < |sequences|
      invariant j <= |sequences|
      invariant ScanSequences(hits, motifId, pwm, sequences, j) == Ok(motifHits)
    {
      ScanSequencesNext(hits, motifId, pwm, sequences, j);
      var seqId := sequences[j].0;
      var sequence := sequences[j].1;
      if |sequence| >= |pwm| {
        // At least one window exists, so the maximum is never left unset here.
        var maxScore := MaxWindow(sequence, pwm);
        if maxScore.Err? {
          ScanSequencesErrSticks(hits, motifId, pwm, sequences, j + 1, |sequences|);
          return Err(maxScore.error);
        }
        ghost var before := motifHits;
        if seqId !in Keys(motifHits) {
          motifHits := Put(motifHits, seqId, []);
        }
        motifHits := Put(motifHits, seqId, Put(GetOr(motifHits, seqId, []), motifId, maxScore.value));
        RecordStep(before, seqId, motifId, maxScore.value);
      }
      j := j + 1;
    }
    return Ok(motifHits);
  }

  /** The trimming loop: each sequence's hits replaced, where they stand, by its top five. */
  method TrimHits(hits: Hits) returns (trimmed: Hits)
    requires DistinctKeys(hits)
    ensures trimmed == TrimAll(hits)
  {
    trimmed := hits;
    var i := 0;
    while i < |hits|
      invariant i <= |hits| && |trimmed| == |hits|
      invariant forall j :: 0 <= j < |hits| ==> trimmed[j] == if j < i then (hits[j].0, Trim(hits[j].1)) else hits[j]
    {
      var seqId := hits[i].0;
      assert DistinctKeys(trimmed) by {
        forall j, l | 0 <= j < l < |trimmed| ensures trimmed[j].0 != trimmed[l].0 {
          assert trimmed[j].0 == hits[j].0 && trimmed[l].0 == hits[l].0;
        }
      }
      GetAt(trimmed, i);
      PutAt(trimmed, i, Trim(hits[i].1));
      trimmed := Put(trimmed, seqId, Trim(Get(trimmed, seqId).value));
      i := i + 1;
    }
  }

  /** `find_motif_hits`. */
  method FindMotifHits(sequences: Dict<string, string>, library: seq<Motif>) returns (r: Result<Hits, ScoreError>)
    ensures r == MotifHits(library, sequences)
  {
    var motifs := Scanned(library);
    var motifHits: Hits := [];
    var n := 0;
    while n < |motifs|
      invariant n <= |motifs|
      invariant ScanMotifs(motifs, sequences, n) == Ok(motifHits)
    {
      var motif := motifs[n];
      if motif.pwm.Some? {
        var res := ScanMotif(motifHits, motif.id, motif.pwm.value, sequences);
        if res.Err? {
          ScanMotifsErrSticks(motifs, sequences, n + 1, |motifs|);
          return Err(res.error);
        }
        motifHits := res.value;
      }
      n := n + 1;
    }
    ScanMotifsDistinct(motifs, sequences, |motifs|);
    var trimmed := TrimHits(motifHits);
    return Ok(trimmed);
  }

  /** One row of the table `scan` returns. */
  datatype Row = Row(
    sequenceId: string,
    gcContent: real,
    kmerDistribution: Dict<string, nat>,
    tfIdfScores: Dict<string, real>,
    top5Motifs: Scores)

  /** The row `scan` builds for one parsed sequence. */
  function RowOf(entry: (string, string), tfIdfScores: Dict<string, real>, hits: Hits): Row
  {
    Row(entry.0,
        SequenceAnalysis.GcContent(entry.1),
        SequenceAnalysis.KmerDistribution(entry.1, KmerLength),
        tfIdfScores,
        GetOr(hits, entry.0, []))
  }

  /** `scan`: parses the FASTA lines, computes the corpus' 3-mer TF-IDF scores and the motif
      hits, and returns one row per parsed sequence, in file order, each carrying the sequence's
      GC content and 3-mer distribution, the whole corpus' TF-IDF scores, and the sequence's hits
      (none when it has no entry). */
  method Scan(lines: seq<string>, library: seq<Motif>, ln: real -> real) returns (r: Result<seq<Row>, ScoreError>)
    ensures MotifHits(library, FastaParser.Parse(lines)).Err? ==> r == Err(MotifHits(library, FastaParser.Parse(lines)).error)
    ensures MotifHits(library, FastaParser.Parse(lines)).Ok? ==>
      r.Ok? && |r.value| == |FastaParser.Parse(lines)| &&
      forall i :: 0 <= i < |r.value| ==>
        r.value[i] == Row(FastaParser.Parse(lines)[i].0,
                          SequenceAnalysis.GcContent(FastaParser.Parse(lines)[i].1),
                          SequenceAnalysis.KmerDistribution(FastaParser.Parse(lines)[i].1, KmerLength),
                          SequenceAnalysis.TfIdfScores(Values(FastaParser.Parse(lines)), KmerLength, ln),
                          GetOr(MotifHits(library, FastaParser.Parse(lines)).value, FastaParser.Parse(lines)[i].0, []))
  {
    var sequences := FastaParser.ParseFasta(lines);
    var allTfIdfScores := SequenceAnalysis.ComputeTfIdfKmers(Values(sequences), KmerLength, ln);
    var motifHits := FindMotifHits(sequences, library);
    if motifHits.Err? {
      return Err(motifHits.error);
    }
    var rows := BuildRows(sequences, allTfIdfScores, motifHits.value);
    return Ok(rows);
  }

  /** The loop of `scan` over the parsed sequences, one row for each. */
  method BuildRows(sequences: Dict<string, string>, tfIdfScores: Dict<string, real>, hits: Hits) returns (results: seq<Row>)
    ensures |results| == |sequences|
    ensures forall j :: 0 <= j < |sequences| ==> results[j] == RowOf(sequences[j], tfIdfScores, hits)
  {
    results := MapEntries(sequences, entry => RowOf(entry, tfIdfScores, hits));
  }

  /** `[row(x) for x in xs]`, appending one result per element. */
  method MapEntries<T, U>(xs: seq<T>, row: T -> U) returns (results: seq<U>)
    ensures |results| == |xs|
    ensures forall j :: 0 <= j < |xs| ==> results[j] == row(xs[j])
  {
    results := [];
    var i := 0;
    while i < |xs|
      invariant i <= |xs| && |results| == i
      invariant forall j :: 0 <= j < i ==> results[j] == row(xs[j])
    {
      results := results + [row(xs[i])];
      i := i + 1;
    }
  }

  // ---------------------------------------------------------------------------
  // Proof support for the loops
  // ---------------------------------------------------------------------------

  /** Creating the sequence's entry when it is missing and then setting the motif's score in
      it is `Record`. */
  lemma RecordStep(hits: Hits, seqId: string, motifId: string, score: real)
    ensures var h := if seqId in Keys(hits) then hits else Put(hits, seqId, []);
      Put(h, seqId, Put(GetOr(h, seqId, []), motifId, score)) == Record(hits, seqId, motifId, score)
  {
    if seqId !in Keys(hits) {
      GetOrPut(hits, seqId, [], seqId, []);
      PutPut(hits, seqId, [], Put([], motifId, score));
    }
  }

  /** The pass over the first `j + 1` sequences is the pass over the first `j`, then the `j`-th. */
  lemma ScanSequencesNext(hits: Hits, motifId: string, pwm: Pwm, sequences: Dict<string, string>, j: nat)
    requires j < |sequences| && ScanSequences(hits, motifId, pwm, sequences, j).Ok?
    ensures ScanSequences(hits, motifId, pwm, sequences, j + 1) ==
      var h := ScanSequences(hits, motifId, pwm, sequences, j).value;
      if |sequences[j].1| < |pwm| then Ok(h)
      else match MaxWindowScore(sequences[j].1, pwm)
        case Err(e) => Err(e)
        case Ok(m) => Ok(Record(h, sequences[j].0, motifId, m))
  {
  }

  lemma {:induction false} ScanSequencesErrSticks(hits: Hits, motifId: string, pwm: Pwm, sequences: Dict<string, string>, j: nat, m: nat)
    requires j <= m <= |sequences| && ScanSequences(hits, motifId, pwm, sequences, j).Err?
    ensures ScanSequences(hits, motifId, pwm, sequences, m) == ScanSequences(hits, motifId, pwm, sequences, j)
    decreases m - j
  {
    if j < m {
      ScanSequencesErrSticks(hits, motifId, pwm, sequences, j, m - 1);
    }
  }

  lemma {:induction false} ScanMotifsErrSticks(motifs: seq<Motif>, sequences: Dict<string, string>, n: nat, m: nat)
    requires n <= m <= |motifs| && ScanMotifs(motifs, sequences, n).Err?
    ensures ScanMotifs(motifs, sequences, m) == ScanMotifs(motifs, sequences, n)
    decreases m - n
  {
    if n < m {
      ScanMotifsErrSticks(motifs, sequences, n, m - 1);
    }
  }

  lemma RecordDistinct(hits: Hits, seqId: string, motifId: string, score: real)
    requires DistinctKeys(hits)
    ensures DistinctKeys(Record(hits, seqId, motifId, score))
  {
    PutDistinct(hits, seqId, Put(GetOr(hits, seqId, []), motifId, score));
  }

  lemma {:induction false} ScanSequencesDistinct(hits: Hits, motifId: string, pwm: Pwm, sequences: Dict<string, string>, j: nat)
    requires j <= |sequences| && DistinctKeys(hits) && ScanSequences(hits, motifId, pwm, sequences, j).Ok?
    ensures DistinctKeys(ScanSequences(hits, motifId, pwm, sequences, j).value)
  {
    if j > 0 {
      ScanSequencesDistinct(hits, motifId, pwm, sequences, j - 1);
      var h := ScanSequences(hits, motifId, pwm, sequences, j - 1).value;
      var s := sequences[j - 1].1;
      if |s| >= |pwm| {
        RecordDistinct(h, sequences[j - 1].0, motifId, MaxWindowScore(s, pwm).value);
      }
    }
  }

  /** `motif_hits` is a dict: no sequence id occurs twice. */
  lemma {:induction false} ScanMotifsDistinct(motifs: seq<Motif>, sequences: Dict<string, string>, n: nat)
    requires n <= |motifs| && ScanMotifs(motifs, sequences, n).Ok?
    ensures DistinctKeys(ScanMotifs(motifs, sequences, n).value)
  {
    if n > 0 {
      ScanMotifsDistinct(motifs, sequences, n - 1);
      var h := ScanMotifs(motifs, sequences, n - 1).value;
      if motifs[n - 1].pwm.Some? {
        ScanSequencesDistinct(h, motifs[n - 1].id, motifs[n - 1].pwm.value, sequences, |sequences|);
      }
    }
  }

  // ---------------------------------------------------------------------------
  // What the hits of one sequence are
  // ---------------------------------------------------------------------------

  /** `Record` changes the hits of its sequence and of no other. */
  lemma RecordAt(hits: Hits, seqId: string, motifId: string, score: real, x: string)
    ensures GetOr(Record(hits, seqId, motifId, score), x, []) ==
      if x == seqId then Put(GetOr(hits, seqId, []), motifId, score) else GetOr(hits, x, [])
    ensures x in Keys(Record(hits, seqId, motifId, score)) <==> x in Keys(hits) || x == seqId
  {
    var inner := Put(GetOr(hits, seqId, []), motifId, score);
    GetOrPut(hits, seqId, inner, x, []);
    KeysPut(hits, seqId, inner, x);
  }

  /** One step of the pass: the `j`-th sequence is scored and recorded when it is long enough. */
  lemma ScanSequencesStep(hits: Hits, motifId: string, pwm: Pwm, sequences: Dict<string, string>, j: nat)
    requires 0 < j <= |sequences| && ScanSequences(hits, motifId, pwm, sequences, j).Ok?
    ensures ScanSequences(hits, motifId, pwm, sequences, j - 1).Ok?
    ensures |pwm| <= |sequences[j - 1].1| ==> MaxWindowScore(sequences[j - 1].1, pwm).Ok?
    ensures ScanSequences(hits, motifId, pwm, sequences, j).value ==
      if |pwm| <= |sequences[j - 1].1|
      then Record(ScanSequences(hits, motifId, pwm, sequences, j - 1).value, sequences[j - 1].0, motifId, MaxWindowScore(sequences[j - 1].1, pwm).value)
      else ScanSequences(hits, motifId, pwm, sequences, j - 1).value
  {
  }

  /** Whether the pass over the first `j` sequences has scored the `k`-th one. */
  predicate Reached(pwm: Pwm, sequences: Dict<string, string>, j: nat, k: nat)
    requires k < |sequences|
  {
    k < j && |pwm| <= |sequences[k].1|
  }

  /** One motif's pass over the sequences touches exactly the sequences it applies to: the
      `k`-th sequence, once reached and long enough, gets the motif's best score added to its
      hits, and every other sequence's hits are left alone. */
  lemma {:induction false} ScanSequencesAt(hits: Hits, motifId: string, pwm: Pwm, sequences: Dict<string, string>, j: nat, k: nat)
    requires j <= |sequences| && k < |sequences| && DistinctKeys(sequences)
    requires ScanSequences(hits, motifId, pwm, sequences, j).Ok?
    ensures Reached(pwm, sequences, j, k) ==> MaxWindowScore(sequences[k].1, pwm).Ok?
    ensures sequences[k].0 in Keys(ScanSequences(hits, motifId, pwm, sequences, j).value) <==>
      sequences[k].0 in Keys(hits) || Reached(pwm, sequences, j, k)
    ensures GetOr(ScanSequences(hits, motifId, pwm, sequences, j).value, sequences[k].0, []) ==
      if Reached(pwm, sequences, j, k) then Put(GetOr(hits, sequences[k].0, []), motifId, MaxWindowScore(sequences[k].1, pwm).value)
      else GetOr(hits, sequences[k].0, [])
  {
    if j > 0 {
      ScanSequencesStep(hits, motifId, pwm, sequences, j);
      ScanSequencesAt(hits, motifId, pwm, sequences, j - 1, k);
      ScanSequencesOk(hits, motifId, pwm, sequences, j);
      var t := j - 1;
      var h := ScanSequences(hits, motifId, pwm, sequences, t).value;
      if |pwm| <= |sequences[t].1| {
        RecordAt(h, sequences[t].0, motifId, MaxWindowScore(sequences[t].1, pwm).value, sequences[k].0);
        if t != k {
          assert sequences[t].0 != sequences[k].0;
        }
      }
    }
  }

  /** Some of the first `n` motifs applies to sequence `s`. */
  predicate AppliesAmong(motifs: seq<Motif>, s: string, n: nat)
    requires n <= |motifs|
  {
    exists i :: 0 <= i < n && Applies(motifs[i], s)
  }

  lemma AppliesAmongStep(motifs: seq<Motif>, s: string, n: nat)
    requires 0 < n <= |motifs|
    ensures AppliesAmong(motifs, s, n) <==> AppliesAmong(motifs, s, n - 1) || Applies(motifs[n - 1], s)
  {
    if AppliesAmong(motifs, s, n) {
      var i :| 0 <= i < n && Applies(motifs[i], s);
      if i < n - 1 {
        assert AppliesAmong(motifs, s, n - 1);
      }
    }
  }

  /** One step over the motifs: a fetched motif makes its pass, a failed fetch changes nothing. */
  lemma ScanMotifsStep(motifs: seq<Motif>, sequences: Dict<string, string>, n: nat)
    requires 0 < n <= |motifs| && ScanMotifs(motifs, sequences, n).Ok?
    ensures ScanMotifs(motifs, sequences, n - 1).Ok?
    ensures motifs[n - 1].pwm.Some? ==>
      ScanSequences(ScanMotifs(motifs, sequences, n - 1).value, motifs[n - 1].id, motifs[n - 1].pwm.value, sequences, |sequences|)
        == ScanMotifs(motifs, sequences, n)
    ensures motifs[n - 1].pwm.None? ==> ScanMotifs(motifs, sequences, n) == ScanMotifs(motifs, sequences, n - 1)
  {
  }

  /** After the first `n` motifs a sequence has hits exactly when one of those motifs applies to it. */
  lemma {:induction false} ScanMotifsHas(motifs: seq<Motif>, sequences: Dict<string, string>, n: nat, k: nat)
    requires n <= |motifs| && k < |sequences| && DistinctKeys(sequences)
    requires ScanMotifs(motifs, sequences, n).Ok?
    ensures sequences[k].0 in Keys(ScanMotifs(motifs, sequences, n).value) <==> AppliesAmong(motifs, sequences[k].1, n)
  {
    if n > 0 {
      ScanMotifsStep(motifs, sequences, n);
      ScanMotifsHas(motifs, sequences, n - 1, k);
      AppliesAmongStep(motifs, sequences[k].1, n);
      var m := motifs[n - 1];
      if m.pwm.Some? {
        ScanSequencesAt(ScanMotifs(motifs, sequences, n - 1).value, m.id, m.pwm.value, sequences, |sequences|, k);
      }
    }
  }

  /** After the first `n` motifs the hits of a sequence `s` are `dict` of the pairs it collected. */
  lemma {:induction false} ScanMotifsAt(motifs: seq<Motif>, sequences: Dict<string, string>, n: nat, k: nat)
    requires n <= |motifs| && k < |sequences| && DistinctKeys(sequences)
    requires ScanMotifs(motifs, sequences, n).Ok?
    ensures GetOr(ScanMotifs(motifs, sequences, n).value, sequences[k].0, []) == PutAll([], Collected(motifs, sequences[k].1, n))
  {
    if n > 0 {
      ScanMotifsStep(motifs, sequences, n);
      ScanMotifsAt(motifs, sequences, n - 1, k);
      var m := motifs[n - 1];
      var s := sequences[k].1;
      var before := Collected(motifs, s, n - 1);
      var e := Entry(m, s);
      assert Collected(motifs, s, n) == before + e;
      if m.pwm.Some? {
        ScanSequencesAt(ScanMotifs(motifs, sequences, n - 1).value, m.id, m.pwm.value, sequences, |sequences|, k);
      }
      if Applies(m, s) {
        var score := MaxWindowScore(s, m.pwm.value).value;
        assert e == [(m.id, score)];
        assert (before + e)[..|before|] == before;
        assert PutAll([], before + e) == Put(PutAll([], before), m.id, score);
      } else {
        assert before + e == before;
      }
    }
  }

  /** A pass that completes has scored every sequence it applies to without raising. */
  lemma {:induction false} ScanSequencesOk(hits: Hits, motifId: string, pwm: Pwm, sequences: Dict<string, string>, j: nat)
    requires j <= |sequences| && ScanSequences(hits, motifId, pwm, sequences, j).Ok?
    ensures forall k :: 0 <= k < j && |pwm| <= |sequences[k].1| ==> MaxWindowScore(sequences[k].1, pwm).Ok?
  {
    if j > 0 {
      ScanSequencesOk(hits, motifId, pwm, sequences, j - 1);
    }
  }

  lemma {:induction false} ScanMotifsOk(motifs: seq<Motif>, sequences: Dict<string, string>, n: nat)
    requires n <= |motifs| && ScanMotifs(motifs, sequences, n).Ok?
    ensures forall i, k :: 0 <= i < n && 0 <= k < |sequences| ==> !Fails(motifs[i], sequences[k].1)
  {
    if n > 0 {
      ScanMotifsOk(motifs, sequences, n - 1);
      var h := ScanMotifs(motifs, sequences, n - 1).value;
      var m := motifs[n - 1];
      if m.pwm.Some? {
        ScanSequencesOk(h, m.id, m.pwm.value, sequences, |sequences|);
      }
    }
  }

  /** A pass that raises does so for a sequence it applies to, with that pair's error. */
  lemma {:induction false} ScanSequencesErr(hits: Hits, motifId: string, pwm: Pwm, sequences: Dict<string, string>, j: nat)
    requires j <= |sequences| && ScanSequences(hits, motifId, pwm, sequences, j).Err?
    ensures exists k :: (0 <= k < j && |pwm| <= |sequences[k].1|
      && MaxWindowScore(sequences[k].1, pwm) == Err(ScanSequences(hits, motifId, pwm, sequences, j).error))
  {
    if ScanSequences(hits, motifId, pwm, sequences, j - 1).Err? {
      ScanSequencesErr(hits, motifId, pwm, sequences, j - 1);
      var k :| 0 <= k < j - 1 && |pwm| <= |sequences[k].1| &&
        MaxWindowScore(sequences[k].1, pwm) == Err(ScanSequences(hits, motifId, pwm, sequences, j - 1).error);
      assert 0 <= k < j;
    } else {
      assert 0 <= j - 1 < j;
    }
  }

  lemma {:induction false} ScanMotifsErr(motifs: seq<Motif>, sequences: Dict<string, string>, n: nat)
    requires n <= |motifs| && ScanMotifs(motifs, sequences, n).Err?
    ensures exists i, k :: (0 <= i < n && 0 <= k < |sequences| && Fails(motifs[i], sequences[k].1)
      && MaxWindowScore(sequences[k].1, motifs[i].pwm.value) == Err(ScanMotifs(motifs, sequences, n).error))
  {
    var e := ScanMotifs(motifs, sequences, n).error;
    if ScanMotifs(motifs, sequences, n - 1).Err? {
      ScanMotifsErr(motifs, sequences, n - 1);
      var i, k :| 0 <= i < n - 1 && 0 <= k < |sequences| && Fails(motifs[i], sequences[k].1) &&
        MaxWindowScore(sequences[k].1, motifs[i].pwm.value) == Err(e);
      assert 0 <= i < n;
    } else {
      var h := ScanMotifs(motifs, sequences, n - 1).value;
      var m := motifs[n - 1];
      ScanSequencesErr(h, m.id, m.pwm.value, sequences, |sequences|);
      var k :| 0 <= k < |sequences| && |m.pwm.value| <= |sequences[k].1| && MaxWindowScore(sequences[k].1, m.pwm.value) == Err(e);
      assert Fails(motifs[n - 1], sequences[k].1);
    }
  }

  lemma TrimAllGet(hits: Hits, x: string)
    ensures x in Keys(TrimAll(hits)) <==> x in Keys(hits)
    ensures GetOr(TrimAll(hits), x, []) == Trim(GetOr(hits, x, []))
  {
    GetMapValues(hits, Trim, x);
    if x !in Keys(hits) {
      assert TopFive<string>([]) == [];
    }
  }

  /** `find_motif_hits` has an entry for a sequence exactly when some scanned motif applies to
      it, and that entry is the top five of the (motif id, best score) pairs the sequence
      collected, in motif order, with a repeated motif id keeping the place of its first pair
      and the score of its last. */
  lemma MotifHitsOfSequence(library: seq<Motif>, sequences: Dict<string, string>, k: nat)
    requires DistinctKeys(sequences) && k < |sequences| && MotifHits(library, sequences).Ok?
    ensures sequences[k].0 in Keys(MotifHits(library, sequences).value) <==>
      AppliesAmong(Scanned(library), sequences[k].1, |Scanned(library)|)
    ensures GetOr(MotifHits(library, sequences).value, sequences[k].0, []) ==
      Trim(PutAll([], Collected(Scanned(library), sequences[k].1, |Scanned(library)|)))
  {
    var ms := Scanned(library);
    ScanMotifsHas(ms, sequences, |ms|, k);
    ScanMotifsAt(ms, sequences, |ms|, k);
    TrimAllGet(ScanMotifs(ms, sequences, |ms|).value, sequences[k].0);
  }

  /** The (motif id, best score) dict a sequence builds before the trim. */
  function Untrimmed(library: seq<Motif>, s: string): Scores
  {
    PutAll([], Collected(Scanned(library), s, |Scanned(library)|))
  }

  /** The trim keeps at most five of a sequence's hits, best first, all taken from its
      untrimmed hits, and drops none that scores higher than one it keeps. */
  lemma MotifHitsTrimmed(library: seq<Motif>, sequences: Dict<string, string>, k: nat)
    requires DistinctKeys(sequences) && k < |sequences| && MotifHits(library, sequences).Ok?
    ensures GetOr(MotifHits(library, sequences).value, sequences[k].0, []) == TopFive(Untrimmed(library, sequences[k].1))
    ensures |GetOr(MotifHits(library, sequences).value, sequences[k].0, [])| <= TopCount
    ensures Descending(GetOr(MotifHits(library, sequences).value, sequences[k].0, []))
    ensures multiset(GetOr(MotifHits(library, sequences).value, sequences[k].0, [])) <= multiset(Untrimmed(library, sequences[k].1))
    ensures forall x, y ::
      (x in multiset(Untrimmed(library, sequences[k].1)) - multiset(GetOr(MotifHits(library, sequences).value, sequences[k].0, []))
       && y in GetOr(MotifHits(library, sequences).value, sequences[k].0, [])) ==> x.1 <= y.1
  {
    var ms := Scanned(library);
    var pre := Untrimmed(library, sequences[k].1);
    MotifHitsOfSequence(library, sequences, k);
    PutAllDistinct([], Collected(ms, sequences[k].1, |ms|));
    TopFiveDistinct(pre);
    TopFiveIsTop(pre);
    TopFiveDropsLower(pre);
  }

  /** `find_motif_hits` has no entry for anything but a sequence id, and no entry twice. */
  lemma MotifHitsKeys(library: seq<Motif>, sequences: Dict<string, string>, x: string)
    requires MotifHits(library, sequences).Ok?
    ensures x in Keys(MotifHits(library, sequences).value) ==> x in Keys(sequences)
    ensures DistinctKeys(MotifHits(library, sequences).value)
  {
    var ms := Scanned(library);
    var h := ScanMotifs(ms, sequences, |ms|).value;
    ScanMotifsKeys(ms, sequences, |ms|, x);
    TrimAllGet(h, x);
    ScanMotifsDistinct(ms, sequences, |ms|);
    var t := TrimAll(h);
    forall i, j | 0 <= i < j < |t| ensures t[i].0 != t[j].0 {
      assert t[i].0 == h[i].0 && t[j].0 == h[j].0;
    }
  }

  lemma {:induction false} ScanSequencesKeys(hits: Hits, motifId: string, pwm: Pwm, sequences: Dict<string, string>, j: nat, x: string)
    requires j <= |sequences| && ScanSequences(hits, motifId, pwm, sequences, j).Ok?
    ensures x in Keys(ScanSequences(hits, motifId, pwm, sequences, j).value) ==> x in Keys(hits) || x in Keys(sequences)
  {
    if j > 0 {
      ScanSequencesKeys(hits, motifId, pwm, sequences, j - 1, x);
      var h := ScanSequences(hits, motifId, pwm, sequences, j - 1).value;
      var t := j - 1;
      if |sequences[t].1| >= |pwm| {
        KeysPut(h, sequences[t].0, Put(GetOr(h, sequences[t].0, []), motifId, MaxWindowScore(sequences[t].1, pwm).value), x);
        assert Keys(sequences)[t] == sequences[t].0;
      }
    }
  }

  lemma {:induction false} ScanMotifsKeys(motifs: seq<Motif>, sequences: Dict<string, string>, n: nat, x: string)
    requires n <= |motifs| && ScanMotifs(motifs, sequences, n).Ok?
    ensures x in Keys(ScanMotifs(motifs, sequences, n).value) ==> x in Keys(sequences)
  {
    if n > 0 {
      ScanMotifsKeys(motifs, sequences, n - 1, x);
      var m := motifs[n - 1];
      if m.pwm.Some? {
        ScanSequencesKeys(ScanMotifs(motifs, sequences, n - 1).value, m.id, m.pwm.value, sequences, |sequences|, x);
      }
    }
  }

  /** `find_motif_hits` raises exactly when some scanned motif applies to some sequence and
      scoring them raises, and it raises that pair's error. */
  lemma MotifHitsFails(library: seq<Motif>, sequences: Dict<string, string>)
    ensures MotifHits(library, sequences).Err? <==>
      exists i, k :: 0 <= i < |Scanned(library)| && 0 <= k < |sequences| && Fails(Scanned(library)[i], sequences[k].1)
    ensures MotifHits(library, sequences).Err? ==>
      exists i, k :: 0 <= i < |Scanned(library)| && 0 <= k < |sequences| && Fails(Scanned(library)[i], sequences[k].1)
        && MaxWindowScore(sequences[k].1, Scanned(library)[i].pwm.value) == Err(MotifHits(library, sequences).error)
  {
    var ms := Scanned(library);
    if ScanMotifs(ms, sequences, |ms|).Err? {
      ScanMotifsErr(ms, sequences, |ms|);
    } else {
      ScanMotifsOk(ms, sequences, |ms|);
    }
  }

  /** Only a character outside A, C, G, T makes `find_motif_hits` raise: a scanned motif with a
      non-empty PWM, fetched, no longer than a sequence holding such a character. */
  lemma MotifHitsFailsOnUnknown(library: seq<Motif>, sequences: Dict<string, string>)
    ensures MotifHits(library, sequences).Err? <==>
      exists i, k :: 0 <= i < |Scanned(library)| && 0 <= k < |sequences| && Applies(Scanned(library)[i], sequences[k].1)
        && |Scanned(library)[i].pwm.value| > 0 && !AllNucleotides(sequences[k].1)
  {
    MotifHitsFails(library, sequences);
    var ms := Scanned(library);
    forall i, k | 0 <= i < |ms| && 0 <= k < |sequences| && Applies(ms[i], sequences[k].1)
      ensures Fails(ms[i], sequences[k].1) <==> |ms[i].pwm.value| > 0 && !AllNucleotides(sequences[k].1)
    {
      MaxWindowScoreFails(sequences[k].1, ms[i].pwm.value);
    }
  }

  /** Motifs after the tenth are never fetched or scored. */
  lemma MotifHitsFirstTen(library: seq<Motif>, more: seq<Motif>, sequences: Dict<string, string>)
    requires |library| >= MotifLimit
    ensures MotifHits(library + more, sequences) == MotifHits(library, sequences)
  {
    assert Scanned(library + more) == (library + more)[..MotifLimit] == library[..MotifLimit];
    assert Scanned(library) == library[..MotifLimit];
  }

  // ---------------------------------------------------------------------------
  // The pairs a sequence collects
  // ---------------------------------------------------------------------------

  /** Some motif with id `id` among the first `n` contributes a pair to sequence `s`. */
  predicate ContributesWithId(motifs: seq<Motif>, s: string, n: nat, id: string)
    requires n <= |motifs|
  {
    n > 0 && (ContributesWithId(motifs, s, n - 1, id) || (motifs[n - 1].id == id && Contributes(motifs[n - 1], s)))
  }

  /** `ContributesWithId` is "some one of the first `n` motifs has that id and contributes". */
  lemma {:induction false} ContributesWithIdIsSome(motifs: seq<Motif>, s: string, n: nat, id: string)
    requires n <= |motifs|
    ensures ContributesWithId(motifs, s, n, id) <==> exists i :: 0 <= i < n && motifs[i].id == id && Contributes(motifs[i], s)
  {
    if n > 0 {
      ContributesWithIdIsSome(motifs, s, n - 1, id);
      if exists i :: 0 <= i < n && motifs[i].id == id && Contributes(motifs[i], s) {
        var i :| 0 <= i < n && motifs[i].id == id && Contributes(motifs[i], s);
        if i < n - 1 {
          assert exists i :: 0 <= i < n - 1 && motifs[i].id == id && Contributes(motifs[i], s);
        }
      }
      if ContributesWithId(motifs, s, n - 1, id) {
        var i :| 0 <= i < n - 1 && motifs[i].id == id && Contributes(motifs[i], s);
        assert 0 <= i < n;
      }
    }
  }

  /** The key of a motif's pair. */
  lemma EntryKeys(m: Motif, s: string, id: string)
    ensures id in Keys(Entry(m, s)) <==> m.id == id && Contributes(m, s)
  {
    if Contributes(m, s) {
      assert Keys(Entry(m, s)) == [m.id];
    }
  }

  /** A sequence collects a pair for motif id `id` exactly when a motif with that id applies
      to it and scores it without raising. */
  lemma {:induction false} CollectedKeys(motifs: seq<Motif>, s: string, n: nat, id: string)
    requires n <= |motifs|
    ensures id in Keys(Collected(motifs, s, n)) <==> ContributesWithId(motifs, s, n, id)
  {
    if n > 0 {
      CollectedKeys(motifs, s, n - 1, id);
      EntryKeys(motifs[n - 1], s, id);
      CollectedStepKeys(motifs, s, n, id);
    }
  }

  lemma CollectedStepKeys(motifs: seq<Motif>, s: string, n: nat, id: string)
    requires 0 < n <= |motifs|
    ensures id in Keys(Collected(motifs, s, n)) <==>
      id in Keys(Collected(motifs, s, n - 1)) || id in Keys(Entry(motifs[n - 1], s))
  {
    KeysAppend(Collected(motifs, s, n - 1), Entry(motifs[n - 1], s), id);
  }

  /** Every pair a sequence collects is the pair of one of the motifs: that motif's id and its
      best score over the sequence. */
  lemma {:induction false} CollectedValues(motifs: seq<Motif>, s: string, n: nat, j: nat)
    requires n <= |motifs| && j < |Collected(motifs, s, n)|
    ensures exists i :: 0 <= i < n && Entry(motifs[i], s) == [Collected(motifs, s, n)[j]]
  {
    assert n > 0;
    var before := Collected(motifs, s, n - 1);
    var c := Collected(motifs, s, n);
    var e := Entry(motifs[n - 1], s);
    assert c == before + e;
    if j < |before| {
      CollectedValues(motifs, s, n - 1, j);
      var i :| 0 <= i < n - 1 && Entry(motifs[i], s) == [before[j]];
      assert c[j] == before[j];
      assert 0 <= i < n && Entry(motifs[i], s) == [c[j]];
    } else {
      assert |e| == 1;
      assert e == [c[j]];
    }
  }

  /** The motif ids of the first `n` motifs are distinct. */
  predicate DistinctIds(motifs: seq<Motif>, n: nat)
    requires n <= |motifs|
  {
    forall i, j :: 0 <= i < j < n ==> motifs[i].id != motifs[j].id
  }

  lemma {:induction false} CollectedDistinct(motifs: seq<Motif>, s: string, n: nat)
    requires n <= |motifs| && DistinctIds(motifs, n)
    ensures DistinctKeys(Collected(motifs, s, n))
  {
    if n > 0 {
      assert DistinctIds(motifs, n - 1);
      CollectedDistinct(motifs, s, n - 1);
      var before := Collected(motifs, s, n - 1);
      var m := motifs[n - 1];
      var e := Entry(m, s);
      if e != [] {
        CollectedKeys(motifs, s, n - 1, m.id);
        ContributesWithIdIsSome(motifs, s, n - 1, m.id);
        assert !ContributesWithId(motifs, s, n - 1, m.id);
        assert m.id !in Keys(before);
        var c := before + e;
        forall i | 0 <= i < |before| ensures c[i].0 != c[|before|].0 {
          assert Keys(before)[i] == before[i].0;
        }
      }
    }
  }

  /** With distinct motif ids, a sequence's hits are the top five of its collected pairs. */
  lemma HitsAreTopFive(library: seq<Motif>, sequences: Dict<string, string>, k: nat)
    requires DistinctKeys(sequences) && k < |sequences| && MotifHits(library, sequences).Ok?
    requires DistinctIds(Scanned(library), |Scanned(library)|)
    ensures GetOr(MotifHits(library, sequences).value, sequences[k].0, []) ==
      TopFive(Collected(Scanned(library), sequences[k].1, |Scanned(library)|))
  {
    var ms := Scanned(library);
    var c := Collected(ms, sequences[k].1, |ms|);
    MotifHitsOfSequence(library, sequences, k);
    CollectedDistinct(ms, sequences[k].1, |ms|);
    PutAllOfDistinct(c);
    TopFiveDistinct(c);
  }

  /** Every score in a sequence's hits is the best window score, over that sequence, of a
      scanned motif with that id that applies to it. */
  lemma HitScoreIsBestWindow(library: seq<Motif>, sequences: Dict<string, string>, k: nat, id: string, v: real)
    requires DistinctKeys(sequences) && k < |sequences| && MotifHits(library, sequences).Ok?
    requires Get(GetOr(MotifHits(library, sequences).value, sequences[k].0, []), id) == Some(v)
    ensures exists i :: 0 <= i < |Scanned(library)| && Entry(Scanned(library)[i], sequences[k].1) == [(id, v)]
  {
    var ms := Scanned(library);
    var s := sequences[k].1;
    var c := Collected(ms, s, |ms|);
    var d := PutAll([], c);
    var t := TopFive(d);
    MotifHitsOfSequence(library, sequences, k);
    PutAllDistinct([], c);
    TopFiveDistinct(d);
    LastValueOfDict(t, id);
    LastValueIsLast(t, id);
    var jt :| 0 <= jt < |t| && t[jt] == (id, v);
    TopFiveIsTop(d);
    assert (id, v) in multiset(t);
    assert (id, v) in d;
    var jd :| 0 <= jd < |d| && d[jd] == (id, v);
    GetAt(d, jd);
    GetPutAll([], c, id);
    LastValueIsLast(c, id);
    var jc :| 0 <= jc < |c| && c[jc] == (id, v);
    CollectedValues(ms, s, |ms|, jc);
  }

  // ---------------------------------------------------------------------------
  // A worked example
  // ---------------------------------------------------------------------------

  const ExampleSequences: Dict<string, string> := [("s1", "ACGTACGT"), ("s2", "TTTTACGT")]
  const ExampleHits: Hits := [("s1", [("m1", 4.0)]), ("s2", [("m1", 4.0)])]

  /** One motif, ACGT, over two sequences that both contain it: both record 4 for it. */
  lemma MotifHitsExample()
    ensures MotifHits([Motif("m1", Some(ExactAcgt))], ExampleSequences) == Ok(ExampleHits)
  {
    ExampleScanned();
    ExampleTrimmed();
  }

  lemma ExampleScanned()
    ensures ScanMotifs([Motif("m1", Some(ExactAcgt))], ExampleSequences, 1) == Ok(ExampleHits)
  {
    ExampleFirstSequence();
    ExampleSecondSequence();
  }

  lemma ExampleFirstSequence()
    ensures ScanSequences([], "m1", ExactAcgt, ExampleSequences, 1) == Ok([("s1", [("m1", 4.0)])])
  {
    MaxWindowExampleRepeat();
  }

  lemma ExampleSecondSequence()
    requires ScanSequences([], "m1", ExactAcgt, ExampleSequences, 1) == Ok([("s1", [("m1", 4.0)])])
    ensures ScanSequences([], "m1", ExactAcgt, ExampleSequences, 2) == Ok(ExampleHits)
  {
    MaxWindowExampleTail();
    ExampleRecord();
  }

  lemma ExampleRecord()
    ensures Record([("s1", [("m1", 4.0)])], "s2", "m1", 4.0) == ExampleHits
  {
    var h1: Hits := [("s1", [("m1", 4.0)])];
    assert Get(h1, "s2") == None by {
      assert h1[1..] == [];
    }
  }

  lemma ExampleTrimmed()
    ensures TrimAll(ExampleHits) == ExampleHits
  {
    var one: Scores := [("m1", 4.0)];
    assert TopFive(one) == one by {
      assert one[1..] == [];
    }
    assert Trim(one) == one by {
      assert one[..0] == [];
    }
    var t := TrimAll(ExampleHits);
    assert t[0] == ("s1", Trim(one)) && t[1] == ("s2", Trim(one));
  }
}
