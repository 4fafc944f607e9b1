/**
 * Scoring one window against a position weight matrix
 * (`MotifScanner.calculate_pwm_score`) and the sliding-window maximum of
 * `find_motif_hits`.
 *
 * A PWM has one row per motif position and four columns in the order
 * A, C, G, T; its weights are exact `real`s.  The two exceptions the scoring
 * code can raise become a `ScoreError`.
 */
module MotifScoring {
  import opened Wrappers

  /** A position weight matrix: one row of four weights (A, C, G, T) per motif position. */
  type Pwm = m: seq<seq<real>> | forall i :: 0 <= i < |m| ==> |m[i]| == 4

  datatype ScoreError =
    | LengthMismatch(sequenceLength: nat, pwmLength: nat)  // the ValueError of a wrong window length
    | UnknownNucleotide(nucleotide: char)                  // the KeyError of a character outside A, C, G, T

  /** `nucleotide_to_index`: A -> 0, C -> 1, G -> 2, T -> 3, and no entry for anything else. */
  function NucleotideIndex(c: char): (r: Option<nat>)
    ensures r.Some? <==> c in "ACGT"
    ensures r.Some? ==> r.value < 4 && "ACGT"[r.value] == c
  {
    if c == 'A' then Some(0)
    else if c == 'C' then Some(1)
    else if c == 'G' then Some(2)
    else if c == 'T' then Some(3)
    else None
  }

  predicate IsNucleotide(c: char)
  {
    NucleotideIndex(c).Some?
  }

  predicate AllNucleotides(s: string)
  {
    forall i :: 0 <= i < |s| ==> IsNucleotide(s[i])
  }

  /** The weight a PWM row gives nucleotide `c`. */
  function Weight(row: seq<real>, c: char): real
    requires |row| == 4 && IsNucleotide(c)
  {
    row[NucleotideIndex(c).value]
  }

  /** The sum of the weights of the first `n` positions of `window`. */
  function PrefixScore(window: string, pwm: Pwm, n: nat): real
    requires n <= |window| && n <= |pwm| && forall i :: 0 <= i < n ==> IsNucleotide(window[i])
  {
    if n == 0 then 0.0 else PrefixScore(window, pwm, n - 1) + Weight(pwm[n - 1], window[n - 1])
  }

  /** The position of the first character of `s` outside A, C, G, T. */
  function FirstUnknown(s: string): (r: Option<nat>)
    ensures r.None? <==> AllNucleotides(s)
    ensures r.Some? ==> r.value < |s| && !IsNucleotide(s[r.value]) && forall i :: 0 <= i < r.value ==> IsNucleotide(s[i])
  {
    if s == [] then None
    else if !IsNucleotide(s[0]) then Some(0)
    else match FirstUnknown(s[1..])
      case None => None
      case Some(j) => Some(j + 1)
  }

  /** What `calculate_pwm_score(window, pwm)` returns or raises. */
  function PwmScore(window: string, pwm: Pwm): Result<real, ScoreError>
  {
    if |window| != |pwm| then Err(LengthMismatch(|window|, |pwm|))
    else match FirstUnknown(window)
      case Some(i) => Err(UnknownNucleotide(window[i]))
      case None => Ok(PrefixScore(window, pwm, |window|))
  }

  /** `calculate_pwm_score`: checks the length, then adds up one weight per position,
      failing at the first character outside A, C, G, T. */
  method CalculatePwmScore(sequence: string, pwm: Pwm) returns (r: Result<real, ScoreError>)
    ensures r == PwmScore(sequence, pwm)
  {
    if |sequence| != |pwm| {
      return Err(LengthMismatch(|sequence|, |pwm|));
    }
    var score := 0.0;
    var i := 0;
    while i < |sequence|
      invariant i <= |sequence|
      invariant forall j :: 0 <= j < i ==> IsNucleotide(sequence[j])
      invariant score == PrefixScore(sequence, pwm, i)
    {
      var index := NucleotideIndex(sequence[i]);
      if index.None? {
        return Err(UnknownNucleotide(sequence[i]));
      }
      score := score + pwm[i][index.value];
      i := i + 1;
    }
    return Ok(score);
  }

  // ---------------------------------------------------------------------------
  // Properties of one window's score
  // ---------------------------------------------------------------------------

  /** A window scores exactly when its length matches the PWM and it holds only A, C, G, T;
      a length mismatch is reported before any character is looked at. */
  lemma PwmScoreOkIff(window: string, pwm: Pwm)
    ensures PwmScore(window, pwm).Ok? <==> |window| == |pwm| && AllNucleotides(window)
    ensures |window| != |pwm| ==> PwmScore(window, pwm) == Err(LengthMismatch(|window|, |pwm|))
    ensures |window| == |pwm| && !AllNucleotides(window) ==>
      exists i :: 0 <= i < |window| && !IsNucleotide(window[i]) && (forall j :: 0 <= j < i ==> IsNucleotide(window[j]))
                  && PwmScore(window, pwm) == Err(UnknownNucleotide(window[i]))
  {
    if |window| == |pwm| && !AllNucleotides(window) {
      var i := FirstUnknown(window).value;
      assert !IsNucleotide(window[i]) && (forall j :: 0 <= j < i ==> IsNucleotide(window[j]));
    }
  }

  function RowMin(row: seq<real>): real
    requires |row| == 4
  {
    Min(Min(row[0], row[1]), Min(row[2], row[3]))
  }

  function RowMax(row: seq<real>): real
    requires |row| == 4
  {
    Max(Max(row[0], row[1]), Max(row[2], row[3]))
  }

  function Min(a: real, b: real): real { if a <= b then a else b }
  function Max(a: real, b: real): real { if a >= b then a else b }

  /** The sum of the row minima of the first `n` rows. */
  function MinTotal(pwm: Pwm, n: nat): real
    requires n <= |pwm|
  {
    if n == 0 then 0.0 else MinTotal(pwm, n - 1) + RowMin(pwm[n - 1])
  }

  /** The sum of the row maxima of the first `n` rows. */
  function MaxTotal(pwm: Pwm, n: nat): real
    requires n <= |pwm|
  {
    if n == 0 then 0.0 else MaxTotal(pwm, n - 1) + RowMax(pwm[n - 1])
  }

  /** Every weight of a row lies between the row's minimum and maximum. */
  lemma WeightBounds(row: seq<real>, c: char)
    requires |row| == 4 && IsNucleotide(c)
    ensures RowMin(row) <= Weight(row, c) <= RowMax(row)
  {
  }

  lemma {:induction false} PrefixScoreBounds(window: string, pwm: Pwm, n: nat)
    requires n <= |window| && n <= |pwm| && forall i :: 0 <= i < n ==> IsNucleotide(window[i])
    ensures MinTotal(pwm, n) <= PrefixScore(window, pwm, n) <= MaxTotal(pwm, n)
  {
    if n > 0 {
      PrefixScoreBounds(window, pwm, n - 1);
      WeightBounds(pwm[n - 1], window[n - 1]);
    }
  }

  /** A score lies between the sum of the row minima and the sum of the row maxima. */
  lemma PwmScoreBounds(window: string, pwm: Pwm)
    requires PwmScore(window, pwm).Ok?
    ensures MinTotal(pwm, |pwm|) <= PwmScore(window, pwm).value <= MaxTotal(pwm, |pwm|)
  {
    PwmScoreOkIff(window, pwm);
    PrefixScoreBounds(window, pwm, |window|);
  }

  /** Worked example: rows favouring A then C score "AC" as 1 + 1; a short window and an unknown character raise. */
  lemma PwmScoreExample()
    ensures PwmScore("AC", [[1.0, 0.0, 0.0, 0.0], [0.0, 1.0, 0.0, 0.0]]) == Ok(2.0)
    ensures PwmScore("A", [[1.0, 0.0, 0.0, 0.0], [0.0, 1.0, 0.0, 0.0]]) == Err(LengthMismatch(1, 2))
    ensures PwmScore("AN", [[1.0, 0.0, 0.0, 0.0], [0.0, 1.0, 0.0, 0.0]]) == Err(UnknownNucleotide('N'))
  {
    var pwm: Pwm := [[1.0, 0.0, 0.0, 0.0], [0.0, 1.0, 0.0, 0.0]];
    assert FirstUnknown("AC") == None by {
      assert "AC"[1..] == "C" && "C"[1..] == "";
    }
    assert PrefixScore("AC", pwm, 1) == 1.0;
    assert PrefixScore("AC", pwm, 2) == 2.0;
    assert FirstUnknown("AN") == Some(1) by {
      assert "AN"[1..] == "N";
    }
  }

  // ---------------------------------------------------------------------------
  // The sliding-window maximum
  // ---------------------------------------------------------------------------

  /** The window of `s` at offset `i`: `s[i:i+len(pwm)]`. */
  function WindowAt(s: string, pwm: Pwm, i: nat): string
    requires i + |pwm| <= |s|
  {
    s[i..i + |pwm|]
  }

  /** The number of windows of a sequence at least as long as the PWM. */
  function WindowCount(s: string, pwm: Pwm): nat
    requires |pwm| <= |s|
  {
    |s| - |pwm| + 1
  }

  /** `max_score` after the windows at offsets `0..n-1`: the first window sets it, a later
      window replaces it only with a strictly larger score, and the first failing window
      aborts. */
  function BestScore(s: string, pwm: Pwm, n: nat): Result<real, ScoreError>
    requires |pwm| <= |s| && 1 <= n <= WindowCount(s, pwm)
  {
    var w := PwmScore(WindowAt(s, pwm, n - 1), pwm);
    if n == 1 then w
    else match BestScore(s, pwm, n - 1)
      case Err(e) => Err(e)
      case Ok(m) =>
        match w
        case Err(e) => Err(e)
        case Ok(x) => Ok(if x > m then x else m)
  }

  /** The maximum window score a (sequence, motif) pair records. */
  function MaxWindowScore(s: string, pwm: Pwm): Result<real, ScoreError>
    requires |pwm| <= |s|
  {
    BestScore(s, pwm, WindowCount(s, pwm))
  }

  /** The window loop of `find_motif_hits` for one sequence and one motif. */
  method MaxWindow(sequence: string, pwm: Pwm) returns (r: Result<real, ScoreError>)
    requires |pwm| <= |sequence|
    ensures r == MaxWindowScore(sequence, pwm)
  {
    var maxScore: Option<real> := None;
    var i := 0;
    while i < WindowCount(sequence, pwm)
      invariant i <= WindowCount(sequence, pwm)
      invariant i == 0 <==> maxScore.None?
      invariant i > 0 ==> BestScore(sequence, pwm, i) == Ok(maxScore.value)
    {
      var window := sequence[i..i + |pwm|];
      var score := CalculatePwmScore(window, pwm);
      if score.Err? {
        BestScoreErrSticks(sequence, pwm, i + 1, WindowCount(sequence, pwm));
        return Err(score.error);
      }
      if maxScore.None? || score.value > maxScore.value {
        maxScore := Some(score.value);
      }
      i := i + 1;
    }
    return Ok(maxScore.value);
  }

  /** Once a window fails, the running maximum stays failed with the same error. */
  lemma {:induction false} BestScoreErrSticks(s: string, pwm: Pwm, n: nat, m: nat)
    requires |pwm| <= |s| && 1 <= n <= m <= WindowCount(s, pwm) && BestScore(s, pwm, n).Err?
    ensures BestScore(s, pwm, m) == BestScore(s, pwm, n)
    decreases m - n
  {
    if n < m {
      BestScoreErrSticks(s, pwm, n, m - 1);
    }
  }

  /** One step of the running maximum, with the window at offset `n - 1`. */
  lemma BestScoreStep(s: string, pwm: Pwm, n: nat)
    requires |pwm| <= |s| && 1 < n <= WindowCount(s, pwm)
    ensures BestScore(s, pwm, n).Ok? <==> BestScore(s, pwm, n - 1).Ok? && PwmScore(WindowAt(s, pwm, n - 1), pwm).Ok?
    ensures BestScore(s, pwm, n - 1).Err? ==> BestScore(s, pwm, n) == BestScore(s, pwm, n - 1)
    ensures BestScore(s, pwm, n - 1).Ok? && PwmScore(WindowAt(s, pwm, n - 1), pwm).Err? ==>
      BestScore(s, pwm, n) == PwmScore(WindowAt(s, pwm, n - 1), pwm)
    ensures BestScore(s, pwm, n).Ok? ==>
      var m := BestScore(s, pwm, n - 1).value;
      var x := PwmScore(WindowAt(s, pwm, n - 1), pwm).value;
      BestScore(s, pwm, n).value == if x > m then x else m
  {
  }

  /** The running maximum bounds every window seen, all of which score. */
  lemma {:induction false} BestScoreBounds(s: string, pwm: Pwm, n: nat)
    requires |pwm| <= |s| && 1 <= n <= WindowCount(s, pwm) && BestScore(s, pwm, n).Ok?
    ensures forall i :: 0 <= i < n ==>
      PwmScore(WindowAt(s, pwm, i), pwm).Ok? && PwmScore(WindowAt(s, pwm, i), pwm).value <= BestScore(s, pwm, n).value
  {
    if n > 1 {
      BestScoreStep(s, pwm, n);
      BestScoreBounds(s, pwm, n - 1);
      var m := BestScore(s, pwm, n - 1).value;
      var b := BestScore(s, pwm, n).value;
      assert m <= b;
      forall i | 0 <= i < n
        ensures PwmScore(WindowAt(s, pwm, i), pwm).Ok? && PwmScore(WindowAt(s, pwm, i), pwm).value <= b
      {
        if i < n - 1 {
          assert PwmScore(WindowAt(s, pwm, i), pwm).value <= m;
        }
      }
    }
  }

  /** When every window seen scores, so does the running maximum. */
  lemma {:induction false} BestScoreOkWhenAll(s: string, pwm: Pwm, n: nat)
    requires |pwm| <= |s| && 1 <= n <= WindowCount(s, pwm)
    requires forall i :: 0 <= i < n ==> PwmScore(WindowAt(s, pwm, i), pwm).Ok?
    ensures BestScore(s, pwm, n).Ok?
  {
    if n > 1 {
      BestScoreOkWhenAll(s, pwm, n - 1);
      BestScoreStep(s, pwm, n);
    }
  }

  /** The offset of the window whose score, or error, the running maximum holds. */
  function BestIndex(s: string, pwm: Pwm, n: nat): nat
    requires |pwm| <= |s| && 1 <= n <= WindowCount(s, pwm)
  {
    if n == 1 then 0
    else
      var b := BestScore(s, pwm, n - 1);
      var w := PwmScore(WindowAt(s, pwm, n - 1), pwm);
      if b.Err? then BestIndex(s, pwm, n - 1)
      else if w.Err? || w.value > b.value then n - 1
      else BestIndex(s, pwm, n - 1)
  }

  lemma {:induction false} BestIndexAttains(s: string, pwm: Pwm, n: nat)
    requires |pwm| <= |s| && 1 <= n <= WindowCount(s, pwm)
    ensures BestIndex(s, pwm, n) < n
    ensures PwmScore(WindowAt(s, pwm, BestIndex(s, pwm, n)), pwm) == BestScore(s, pwm, n)
  {
    if n > 1 {
      BestScoreStep(s, pwm, n);
      BestIndexAttains(s, pwm, n - 1);
    }
  }

  /** The running maximum, or its error, is that of one of the windows seen. */
  lemma BestScoreAttained(s: string, pwm: Pwm, n: nat)
    requires |pwm| <= |s| && 1 <= n <= WindowCount(s, pwm)
    ensures exists i :: 0 <= i < n && PwmScore(WindowAt(s, pwm, i), pwm) == BestScore(s, pwm, n)
  {
    BestIndexAttains(s, pwm, n);
    var i := BestIndex(s, pwm, n);
    assert 0 <= i < n && PwmScore(WindowAt(s, pwm, i), pwm) == BestScore(s, pwm, n);
  }

  /** The running maximum is the score of one of the windows seen and bounds all of them;
      it fails exactly when one of them fails. */
  lemma BestScoreIsMax(s: string, pwm: Pwm, n: nat)
    requires |pwm| <= |s| && 1 <= n <= WindowCount(s, pwm)
    ensures BestScore(s, pwm, n).Ok? <==> forall i :: 0 <= i < n ==> PwmScore(WindowAt(s, pwm, i), pwm).Ok?
    ensures BestScore(s, pwm, n).Ok? ==>
      (exists i :: 0 <= i < n && PwmScore(WindowAt(s, pwm, i), pwm) == BestScore(s, pwm, n))
      && forall i :: 0 <= i < n ==> PwmScore(WindowAt(s, pwm, i), pwm).value <= BestScore(s, pwm, n).value
    ensures BestScore(s, pwm, n).Err? ==>
      exists i :: 0 <= i < n && PwmScore(WindowAt(s, pwm, i), pwm) == BestScore(s, pwm, n)
  {
    BestScoreAttained(s, pwm, n);
    if BestScore(s, pwm, n).Ok? {
      BestScoreBounds(s, pwm, n);
    } else if forall i :: 0 <= i < n ==> PwmScore(WindowAt(s, pwm, i), pwm).Ok? {
      BestScoreOkWhenAll(s, pwm, n);
    }
  }

  /** The recorded score is the maximum over all window offsets `0..len(s) - len(pwm)`,
      attained by some window. */
  lemma MaxWindowScoreIsMax(s: string, pwm: Pwm)
    requires |pwm| <= |s| && MaxWindowScore(s, pwm).Ok?
    ensures forall i :: 0 <= i <= |s| - |pwm| ==> PwmScore(WindowAt(s, pwm, i), pwm).Ok?
    ensures exists i :: 0 <= i <= |s| - |pwm| && PwmScore(WindowAt(s, pwm, i), pwm) == MaxWindowScore(s, pwm)
    ensures forall i :: 0 <= i <= |s| - |pwm| ==> PwmScore(WindowAt(s, pwm, i), pwm).value <= MaxWindowScore(s, pwm).value
  {
    BestScoreAttained(s, pwm, WindowCount(s, pwm));
    BestScoreBounds(s, pwm, WindowCount(s, pwm));
  }

  /** A failing pair fails on a character of the sequence outside A, C, G, T, and only a
      non-empty motif can fail. */
  lemma MaxWindowScoreErrNames(s: string, pwm: Pwm)
    requires |pwm| <= |s| && MaxWindowScore(s, pwm).Err?
    ensures |pwm| > 0
    ensures exists p :: 0 <= p < |s| && !IsNucleotide(s[p]) && MaxWindowScore(s, pwm) == Err(UnknownNucleotide(s[p]))
  {
    BestScoreAttained(s, pwm, WindowCount(s, pwm));
    var i :| 0 <= i < WindowCount(s, pwm) && PwmScore(WindowAt(s, pwm, i), pwm) == MaxWindowScore(s, pwm);
    var w := WindowAt(s, pwm, i);
    PwmScoreOkIff(w, pwm);
    var j :| 0 <= j < |w| && !IsNucleotide(w[j]) && PwmScore(w, pwm) == Err(UnknownNucleotide(w[j]));
    assert w[j] == s[i + j];
    assert 0 <= i + j < |s| && !IsNucleotide(s[i + j]) && MaxWindowScore(s, pwm) == Err(UnknownNucleotide(s[i + j]));
  }

  /** A pair with a non-empty motif that scores has only A, C, G, T in its sequence: every
      position lies in some window. */
  lemma MaxWindowScoreOkCovers(s: string, pwm: Pwm)
    requires 0 < |pwm| <= |s| && MaxWindowScore(s, pwm).Ok?
    ensures AllNucleotides(s)
  {
    var n := WindowCount(s, pwm);
    BestScoreBounds(s, pwm, n);
    forall p | 0 <= p < |s| ensures IsNucleotide(s[p]) {
      var i := if p < n then p else n - 1;
      assert PwmScore(WindowAt(s, pwm, i), pwm).Ok?;
      WindowNucleotide(s, pwm, i, p);
    }
  }

  /** Every character of a window that scores is one of A, C, G, T. */
  lemma WindowNucleotide(s: string, pwm: Pwm, i: nat, p: nat)
    requires i + |pwm| <= |s| && i <= p < i + |pwm| && PwmScore(WindowAt(s, pwm, i), pwm).Ok?
    ensures IsNucleotide(s[p])
  {
    var w := WindowAt(s, pwm, i);
    assert FirstUnknown(w).None?;
    assert w[p - i] == s[p];
  }

  /** A pair fails exactly when the sequence holds a character outside A, C, G, T (and the
      motif is not empty); the error names such a character. */
  lemma MaxWindowScoreFails(s: string, pwm: Pwm)
    requires |pwm| <= |s|
    ensures MaxWindowScore(s, pwm).Err? <==> |pwm| > 0 && !AllNucleotides(s)
    ensures MaxWindowScore(s, pwm).Err? ==>
      exists p :: 0 <= p < |s| && !IsNucleotide(s[p]) && MaxWindowScore(s, pwm) == Err(UnknownNucleotide(s[p]))
  {
    if MaxWindowScore(s, pwm).Err? {
      MaxWindowScoreErrNames(s, pwm);
    } else if |pwm| > 0 {
      MaxWindowScoreOkCovers(s, pwm);
    }
  }

  // ---------------------------------------------------------------------------
  // A worked example
  // ---------------------------------------------------------------------------

  /** The PWM of the motif ACGT: weight 1 for the matching nucleotide, 0 otherwise. */
  const ExactAcgt: Pwm := [[1.0, 0.0, 0.0, 0.0], [0.0, 1.0, 0.0, 0.0], [0.0, 0.0, 1.0, 0.0], [0.0, 0.0, 0.0, 1.0]]

  /** The score of a window of a four-row PWM, spelled out position by position. */
  lemma ScoreOfFour(s: string, pwm: Pwm, i: nat)
    requires |pwm| == 4 && i + 4 <= |s|
    requires IsNucleotide(s[i]) && IsNucleotide(s[i + 1]) && IsNucleotide(s[i + 2]) && IsNucleotide(s[i + 3])
    ensures PwmScore(WindowAt(s, pwm, i), pwm) ==
      Ok(Weight(pwm[0], s[i]) + Weight(pwm[1], s[i + 1]) + Weight(pwm[2], s[i + 2]) + Weight(pwm[3], s[i + 3]))
  {
    var w := WindowAt(s, pwm, i);
    assert w[0] == s[i] && w[1] == s[i + 1] && w[2] == s[i + 2] && w[3] == s[i + 3];
    assert AllNucleotides(w);
    assert PrefixScore(w, pwm, 1) == Weight(pwm[0], w[0]);
    assert PrefixScore(w, pwm, 2) == Weight(pwm[0], w[0]) + Weight(pwm[1], w[1]);
    assert PrefixScore(w, pwm, 3) == Weight(pwm[0], w[0]) + Weight(pwm[1], w[1]) + Weight(pwm[2], w[2]);
  }

  /** 1 when the two nucleotides agree, else 0. */
  function Match(x: char, y: char): real
  {
    if x == y then 1.0 else 0.0
  }

  /** Against ACGT a window scores one per position where it agrees with ACGT. */
  lemma ExactAcgtScore(s: string, i: nat, a: char, b: char, c: char, d: char)
    requires i + 4 <= |s| && s[i] == a && s[i + 1] == b && s[i + 2] == c && s[i + 3] == d
    requires IsNucleotide(a) && IsNucleotide(b) && IsNucleotide(c) && IsNucleotide(d)
    ensures PwmScore(WindowAt(s, ExactAcgt, i), ExactAcgt) == Ok(Match(a, 'A') + Match(b, 'C') + Match(c, 'G') + Match(d, 'T'))
  {
    ScoreOfFour(s, ExactAcgt, i);
  }

  /** Against ACGT, "ACGTACGT" scores 4, 0, 0, 0, 4 in its five windows. */
  lemma WindowsOfRepeat()
    ensures PwmScore(WindowAt("ACGTACGT", ExactAcgt, 0), ExactAcgt) == Ok(4.0)
    ensures PwmScore(WindowAt("ACGTACGT", ExactAcgt, 1), ExactAcgt) == Ok(0.0)
    ensures PwmScore(WindowAt("ACGTACGT", ExactAcgt, 2), ExactAcgt) == Ok(0.0)
    ensures PwmScore(WindowAt("ACGTACGT", ExactAcgt, 3), ExactAcgt) == Ok(0.0)
    ensures PwmScore(WindowAt("ACGTACGT", ExactAcgt, 4), ExactAcgt) == Ok(4.0)
  {
    var s := "ACGTACGT";
    ExactAcgtScore(s, 0, 'A', 'C', 'G', 'T');
    ExactAcgtScore(s, 1, 'C', 'G', 'T', 'A');
    ExactAcgtScore(s, 2, 'G', 'T', 'A', 'C');
    ExactAcgtScore(s, 3, 'T', 'A', 'C', 'G');
    ExactAcgtScore(s, 4, 'A', 'C', 'G', 'T');
  }

  /** Against ACGT, "TTTTACGT" scores 1, 0, 0, 0, 4 in its five windows. */
  lemma WindowsOfTail()
    ensures PwmScore(WindowAt("TTTTACGT", ExactAcgt, 0), ExactAcgt) == Ok(1.0)
    ensures PwmScore(WindowAt("TTTTACGT", ExactAcgt, 1), ExactAcgt) == Ok(0.0)
    ensures PwmScore(WindowAt("TTTTACGT", ExactAcgt, 2), ExactAcgt) == Ok(0.0)
    ensures PwmScore(WindowAt("TTTTACGT", ExactAcgt, 3), ExactAcgt) == Ok(0.0)
    ensures PwmScore(WindowAt("TTTTACGT", ExactAcgt, 4), ExactAcgt) == Ok(4.0)
  {
    var s := "TTTTACGT";
    ExactAcgtScore(s, 0, 'T', 'T', 'T', 'T');
    ExactAcgtScore(s, 1, 'T', 'T', 'T', 'A');
    ExactAcgtScore(s, 2, 'T', 'T', 'A', 'C');
    ExactAcgtScore(s, 3, 'T', 'A', 'C', 'G');
    ExactAcgtScore(s, 4, 'A', 'C', 'G', 'T');
  }

  /** The best window of "ACGTACGT" against ACGT scores 4. */
  lemma MaxWindowExampleRepeat()
    ensures MaxWindowScore("ACGTACGT", ExactAcgt) == Ok(4.0)
  {
    WindowsOfRepeat();
    assert BestScore("ACGTACGT", ExactAcgt, 4) == Ok(4.0);
  }

  /** The best window of "TTTTACGT" against ACGT scores 4: the last window beats the first. */
  lemma MaxWindowExampleTail()
    ensures MaxWindowScore("TTTTACGT", ExactAcgt) == Ok(4.0)
  {
    WindowsOfTail();
    assert BestScore("TTTTACGT", ExactAcgt, 4) == Ok(1.0);
  }
}
