/**
 * `parse_fasta` of `fasta_parser.py`, over the lines of a file.
 *
 * `Records` lists, in input order, one `(id, sequence)` pair per header line;
 * `Parse` stores them into a dict one after the other, as the parser does, so
 * a repeated id keeps the last record.  `ParseFasta` is the line-by-line state
 * machine of the source (current id, current buffer, result dict) and is
 * proved to compute `Parse`.
 */
module FastaParser {
  import opened Wrappers
  import opened Dicts

  // ---------------------------------------------------------------------------
  // str.strip()
  // ---------------------------------------------------------------------------

  /** `c.isspace()`: the characters Python's `str.strip()` removes by default. */
  predicate IsSpace(c: char)
  {
    var n := c as int;
    (0x09 <= n <= 0x0D) || (0x1C <= n <= 0x20) || n == 0x85 || n == 0xA0 || n == 0x1680
    || (0x2000 <= n <= 0x200A) || n == 0x2028 || n == 0x2029 || n == 0x202F || n == 0x205F
    || n == 0x3000
  }

  /** The number of white-space characters at the front of `s`. */
  function LeadingSpaces(s: string): (n: nat)
    ensures n <= |s|
    ensures forall i :: 0 <= i < n ==> IsSpace(s[i])
    ensures n < |s| ==> !IsSpace(s[n])
  {
    if s == [] || !IsSpace(s[0]) then 0 else 1 + LeadingSpaces(s[1..])
  }

  /** Where the run of white space at the back of `s` begins. */
  function TrailingStart(s: string): (m: nat)
    ensures m <= |s|
    ensures forall i :: m <= i < |s| ==> IsSpace(s[i])
    ensures m > 0 ==> !IsSpace(s[m - 1])
  {
    if s == [] || !IsSpace(s[|s| - 1]) then |s| else TrailingStart(s[..|s| - 1])
  }

  /** `s.strip()`: neither end of the result is white space. */
  function Strip(s: string): (r: string)
    ensures |r| > 0 ==> !IsSpace(r[0]) && !IsSpace(r[|r| - 1])
  {
    var t := s[LeadingSpaces(s)..];
    t[..TrailingStart(t)]
  }

  /** `Strip` removes white space from both ends and nothing else: the result is the
      slice `s[a..b]` with only white space outside it. */
  lemma StripIsSlice(s: string) returns (a: nat, b: nat)
    ensures a <= b <= |s| && Strip(s) == s[a..b]
    ensures forall i :: 0 <= i < a ==> IsSpace(s[i])
    ensures forall i :: b <= i < |s| ==> IsSpace(s[i])
  {
    a := LeadingSpaces(s);
    var t := s[a..];
    b := a + TrailingStart(t);
    assert forall i :: b <= i < |s| ==> s[i] == t[i - a];
  }

  /** `[line.strip() for line in lines[a:b]]`. */
  function StripRange(lines: seq<string>, a: nat, b: nat): (r: seq<string>)
    requires a <= b <= |lines|
    ensures |r| == b - a && forall i :: 0 <= i < b - a ==> r[i] == Strip(lines[a + i])
  {
    seq(b - a, i requires 0 <= i < b - a => Strip(lines[a + i]))
  }

  // ---------------------------------------------------------------------------
  // Lines and records
  // ---------------------------------------------------------------------------

  /** A stripped input line: a header (starts with '>') or a piece of sequence. */
  datatype Line = Header(id: string) | Sequence(text: string)

  /** `line = line.strip()` and the `startswith(">")` test; a header's id is the rest of
      the stripped line. */
  function Classify(line: string): Line
  {
    var t := Strip(line);
    if |t| > 0 && t[0] == '>' then Header(t[1..]) else Sequence(t)
  }

  function ClassifyAll(lines: seq<string>): (ls: seq<Line>)
    ensures |ls| == |lines| && forall i :: 0 <= i < |lines| ==> ls[i] == Classify(lines[i])
  {
    seq(|lines|, i requires 0 <= i < |lines| => Classify(lines[i]))
  }

  /** No line in `ls[a..b]` is a header. */
  predicate NoHeaderIn(ls: seq<Line>, a: nat, b: nat)
    requires a <= b <= |ls|
  {
    forall i :: a <= i < b ==> ls[i].Sequence?
  }

  /** The texts of the sequence lines `ls[a..b]`. */
  function Texts(ls: seq<Line>, a: nat, b: nat): (r: seq<string>)
    requires a <= b <= |ls| && NoHeaderIn(ls, a, b)
    ensures |r| == b - a && forall i :: 0 <= i < b - a ==> r[i] == ls[a + i].text
  {
    seq(b - a, i requires 0 <= i < b - a => ls[a + i].text)
  }

  /** `''.join(parts)`. */
  function Join(parts: seq<string>): string
  {
    if parts == [] then "" else parts[0] + Join(parts[1..])
  }

  /** The concatenated texts of `ls[a..b]` up to the first header. */
  function Body(ls: seq<Line>, a: nat, b: nat): string
    requires a <= b <= |ls|
    decreases b - a
  {
    if a == b || ls[a].Header? then ""
    else ls[a].text + Body(ls, a + 1, b)
  }

  /** One `(id, sequence)` pair per header of `ls[a..b]`, in input order; the sequence of
      a record ends at the next header or at `b`. */
  function Records(ls: seq<Line>, a: nat, b: nat): seq<(string, string)>
    requires a <= b <= |ls|
    decreases b - a
  {
    if a == b then []
    else if ls[a].Header? then [(ls[a].id, Body(ls, a + 1, b))] + Records(ls, a + 1, b)
    else Records(ls, a + 1, b)
  }

  /** The number of headers in `ls[a..b]`. */
  function HeaderCount(ls: seq<Line>, a: nat, b: nat): nat
    requires a <= b <= |ls|
    decreases b - a
  {
    if a == b then 0
    else (if ls[a].Header? then 1 else 0) + HeaderCount(ls, a + 1, b)
  }

  /** What `parse_fasta` returns: every record of the input stored into an empty dict, in order. */
  function Parse(lines: seq<string>): (r: Dict<string, string>)
    ensures DistinctKeys(r)
  {
    var ls := ClassifyAll(lines);
    PutAllDistinct([], Records(ls, 0, |ls|));
    PutAll([], Records(ls, 0, |ls|))
  }

  // ---------------------------------------------------------------------------
  // Lemmas about Records
  // ---------------------------------------------------------------------------

  /** Lines without a header form no record. */
  lemma {:induction false} NoHeaderRecords(ls: seq<Line>, a: nat, b: nat)
    requires a <= b <= |ls| && NoHeaderIn(ls, a, b)
    ensures Records(ls, a, b) == []
    decreases b - a
  {
    if a < b {
      NoHeaderRecords(ls, a + 1, b);
    }
  }

  /** Without a header, a body is all the texts joined. */
  lemma {:induction false} BodyIsJoin(ls: seq<Line>, a: nat, b: nat)
    requires a <= b <= |ls| && NoHeaderIn(ls, a, b)
    ensures Body(ls, a, b) == Join(Texts(ls, a, b))
    decreases b - a
  {
    if a < b {
      BodyIsJoin(ls, a + 1, b);
      var parts := Texts(ls, a, b);
      assert parts[1..] == Texts(ls, a + 1, b);
    }
  }

  /** A body stops at the next header. */
  lemma {:induction false} BodyStops(ls: seq<Line>, a: nat, b: nat, c: nat)
    requires a <= b <= c <= |ls| && (b == c || ls[b].Header?)
    ensures Body(ls, a, c) == Body(ls, a, b)
    decreases b - a
  {
    if a < b {
      BodyStops(ls, a + 1, b, c);
    }
  }

  /** Cutting the input just before a header cuts the record list there too. */
  lemma {:induction false} RecordsSplit(ls: seq<Line>, a: nat, b: nat, c: nat)
    requires a <= b <= c <= |ls| && (b == c || ls[b].Header?)
    ensures Records(ls, a, c) == Records(ls, a, b) + Records(ls, b, c)
    decreases b - a
  {
    if a < b {
      RecordsSplit(ls, a + 1, b, c);
      if ls[a].Header? {
        BodyStops(ls, a + 1, b, c);
      }
    }
  }

  /** Lines before the first header contribute nothing. */
  lemma {:induction false} RecordsSkip(ls: seq<Line>, a: nat, b: nat, c: nat)
    requires a <= b <= c <= |ls| && NoHeaderIn(ls, a, b)
    ensures Records(ls, a, c) == Records(ls, b, c)
    decreases b - a
  {
    if a < b {
      RecordsSkip(ls, a + 1, b, c);
    }
  }

  /** Records only depend on the lines they range over. */
  lemma {:induction false} RecordsShift(prefix: seq<Line>, rest: seq<Line>, a: nat, b: nat)
    requires a <= b <= |rest|
    ensures Records(prefix + rest, |prefix| + a, |prefix| + b) == Records(rest, a, b)
    decreases b - a
  {
    if a < b {
      RecordsShift(prefix, rest, a + 1, b);
      HeadShift(prefix, rest, a, b);
      RecordsStep(prefix + rest, |prefix| + a, |prefix| + b);
      RecordsStep(rest, a, b);
    }
  }

  /** The record a line opens only depends on the lines from it on. */
  lemma HeadShift(prefix: seq<Line>, rest: seq<Line>, a: nat, b: nat)
    requires a < b <= |rest|
    ensures Head(prefix + rest, |prefix| + a, |prefix| + b) == Head(rest, a, b)
  {
    assert (prefix + rest)[|prefix| + a] == rest[a];
    BodyShift(prefix, rest, a + 1, b);
  }

  /** The record the line at `a` opens, if it is a header. */
  function Head(ls: seq<Line>, a: nat, b: nat): seq<(string, string)>
    requires a < b <= |ls|
  {
    if ls[a].Header? then [(ls[a].id, Body(ls, a + 1, b))] else []
  }

  /** One unfolding of `Records`. */
  lemma RecordsStep(ls: seq<Line>, a: nat, b: nat)
    requires a < b <= |ls|
    ensures Records(ls, a, b) == Head(ls, a, b) + Records(ls, a + 1, b)
  {
  }

  lemma {:induction false} BodyShift(prefix: seq<Line>, rest: seq<Line>, a: nat, b: nat)
    requires a <= b <= |rest|
    ensures Body(prefix + rest, |prefix| + a, |prefix| + b) == Body(rest, a, b)
    decreases b - a
  {
    if a < b {
      assert (prefix + rest)[|prefix| + a] == rest[a];
      BodyShift(prefix, rest, a + 1, b);
    }
  }

  /** The record ids are exactly the ids of the headers. */
  lemma {:induction false} RecordKeys(ls: seq<Line>, a: nat, b: nat, id: string)
    requires a <= b <= |ls|
    ensures id in Keys(Records(ls, a, b)) <==> exists i :: a <= i < b && ls[i] == Header(id)
    decreases b - a
  {
    if a < b {
      RecordKeys(ls, a + 1, b, id);
      RecordsStep(ls, a, b);
      KeysAppend(Head(ls, a, b), Records(ls, a + 1, b), id);
      assert id in Keys(Head(ls, a, b)) <==> ls[a] == Header(id);
      HeaderSplit(ls, a, b, id);
    }
  }

  lemma HeaderSplit(ls: seq<Line>, a: nat, b: nat, id: string)
    requires a < b <= |ls|
    ensures (exists i :: a <= i < b && ls[i] == Header(id))
        <==> ls[a] == Header(id) || exists i :: a + 1 <= i < b && ls[i] == Header(id)
  {
  }

  /** One record per header. */
  lemma {:induction false} RecordCount(ls: seq<Line>, a: nat, b: nat)
    requires a <= b <= |ls|
    ensures |Records(ls, a, b)| == HeaderCount(ls, a, b)
    decreases b - a
  {
    if a < b {
      RecordCount(ls, a + 1, b);
    }
  }

  /** A header at `i` followed by sequence lines up to `j` (the next header or the end)
      makes the record `(id, texts i+1..j joined)`, between the records of the lines
      before it and those of the lines from `j` on. */
  lemma RecordBetween(ls: seq<Line>, i: nat, j: nat)
    requires i < j <= |ls| && ls[i].Header?
    requires NoHeaderIn(ls, i + 1, j) && (j == |ls| || ls[j].Header?)
    ensures Records(ls, 0, |ls|) == Records(ls, 0, i) + [(ls[i].id, Join(Texts(ls, i + 1, j)))] + Records(ls, j, |ls|)
  {
    RecordsSplit(ls, 0, i, |ls|);
    RecordsSplit(ls, i + 1, j, |ls|);
    NoHeaderRecords(ls, i + 1, j);
    BodyStops(ls, i + 1, j, |ls|);
    BodyIsJoin(ls, i + 1, j);
  }

  // ---------------------------------------------------------------------------
  // Properties of the parsed dict
  // ---------------------------------------------------------------------------

  /** Only non-header lines contribute text, and they contribute their stripped form. */
  lemma TextsAreStripped(lines: seq<string>, a: nat, b: nat)
    requires a <= b <= |lines| && NoHeaderIn(ClassifyAll(lines), a, b)
    ensures Texts(ClassifyAll(lines), a, b) == StripRange(lines, a, b)
  {
  }

  /** Lines before the first header are discarded. */
  lemma PreambleDiscarded(preamble: seq<string>, rest: seq<string>)
    requires NoHeaderIn(ClassifyAll(preamble), 0, |preamble|)
    ensures Parse(preamble + rest) == Parse(rest)
  {
    var all := ClassifyAll(preamble + rest);
    ClassifyAllAppend(preamble, rest);
    RecordsSkip(all, 0, |preamble|, |all|);
    RecordsShift(ClassifyAll(preamble), ClassifyAll(rest), 0, |rest|);
    assert Records(all, 0, |all|) == Records(ClassifyAll(rest), 0, |rest|);
  }

  lemma ClassifyAllAppend(a: seq<string>, b: seq<string>)
    ensures ClassifyAll(a + b) == ClassifyAll(a) + ClassifyAll(b)
  {
    var l := ClassifyAll(a + b);
    var r := ClassifyAll(a) + ClassifyAll(b);
    forall i | 0 <= i < |l| ensures l[i] == r[i] {
      if i < |a| {
        assert (a + b)[i] == a[i];
      } else {
        assert (a + b)[i] == b[i - |a|];
      }
    }
  }

  /** Input without a header line yields an empty dict. */
  lemma NoHeaderNoEntries(lines: seq<string>)
    requires NoHeaderIn(ClassifyAll(lines), 0, |lines|)
    ensures Parse(lines) == []
  {
    NoHeaderRecords(ClassifyAll(lines), 0, |lines|);
  }

  /** The keys of the result are exactly the ids of the header lines. */
  lemma ParseKeys(lines: seq<string>, id: string)
    ensures id in Keys(Parse(lines)) <==> exists i :: 0 <= i < |lines| && Classify(lines[i]) == Header(id)
  {
    var ls := ClassifyAll(lines);
    KeysPutAll([], Records(ls, 0, |ls|), id);
    RecordKeys(ls, 0, |ls|, id);
  }

  /** Each id maps to the sequence of the last record carrying it. */
  lemma ParseLastRecordWins(lines: seq<string>, id: string)
    ensures Get(Parse(lines), id) == LastValue(Records(ClassifyAll(lines), 0, |lines|), id)
  {
    GetPutAll([], Records(ClassifyAll(lines), 0, |lines|), id);
  }

  /** A header at `i` whose id no later header repeats maps to the stripped lines after
      it, up to the next header `j` or the end, joined. */
  lemma ParseRecordValue(lines: seq<string>, i: nat, j: nat)
    requires i < j <= |lines| && Classify(lines[i]).Header?
    requires forall k :: i < k < j ==> Classify(lines[k]).Sequence?
    requires j == |lines| || Classify(lines[j]).Header?
    requires forall k :: i < k < |lines| ==> Classify(lines[k]) != Classify(lines[i])
    ensures Get(Parse(lines), Classify(lines[i]).id) == Some(Join(StripRange(lines, i + 1, j)))
  {
    var ls := ClassifyAll(lines);
    var id := ls[i].id;
    RecordBetween(ls, i, j);
    TextsAreStripped(lines, i + 1, j);
    var front := Records(ls, 0, i) + [(id, Join(Texts(ls, i + 1, j)))];
    var back := Records(ls, j, |ls|);
    RecordKeys(ls, j, |ls|, id);
    LastValueSkip(front, back, id);
    ParseLastRecordWins(lines, id);
  }

  /** A header directly followed by another header, or by the end of input, opens a
      record with the empty sequence. */
  lemma EmptyRecord(lines: seq<string>, i: nat)
    requires i < |lines| && Classify(lines[i]).Header?
    requires i + 1 == |lines| || Classify(lines[i + 1]).Header?
    ensures (Classify(lines[i]).id, "") in Records(ClassifyAll(lines), 0, |lines|)
  {
    var ls := ClassifyAll(lines);
    RecordBetween(ls, i, i + 1);
    assert Texts(ls, i + 1, i + 1) == [];
    assert Records(ls, 0, |ls|)[|Records(ls, 0, i)|] == (ls[i].id, "");
  }

  /** A header directly followed by another header, or by the end of input, and whose id
      no later header repeats, maps to the empty sequence. */
  lemma EmptyRecordParsed(lines: seq<string>, i: nat)
    requires i < |lines| && Classify(lines[i]).Header?
    requires i + 1 == |lines| || Classify(lines[i + 1]).Header?
    requires forall k :: i < k < |lines| ==> Classify(lines[k]) != Classify(lines[i])
    ensures Get(Parse(lines), Classify(lines[i]).id) == Some("")
  {
    ParseRecordValue(lines, i, i + 1);
    assert StripRange(lines, i + 1, i + 1) == [];
  }

  /** Appended pairs with other keys do not change the last value of `k`. */
  lemma LastValueSkip(front: seq<(string, string)>, back: seq<(string, string)>, k: string)
    requires front != [] && front[|front| - 1].0 == k && k !in Keys(back)
    ensures LastValue(front + back, k) == Some(front[|front| - 1].1)
  {
    var all := front + back;
    var n := |front| - 1;
    LastIndexIsLast(all, k);
    var last := LastIndex(all, k);
    assert all[n] == front[n];
    assert last >= n;
    if last > n {
      assert false;
    }
  }

  /** The result has at most one entry per header line. */
  lemma ParseSize(lines: seq<string>)
    ensures |Parse(lines)| <= HeaderCount(ClassifyAll(lines), 0, |lines|)
  {
    PutAllSize([], Records(ClassifyAll(lines), 0, |lines|));
    RecordCount(ClassifyAll(lines), 0, |lines|);
  }

  // ---------------------------------------------------------------------------
  // parse_fasta, line by line
  // ---------------------------------------------------------------------------

  /** Closing the record opened at `h` when the next header (or the end) is at `n`. */
  lemma Flush(ls: seq<Line>, h: nat, n: nat)
    requires h < n <= |ls| && ls[h].Header? && NoHeaderIn(ls, h + 1, n)
    ensures PutAll([], Records(ls, 0, n)) == Put(PutAll([], Records(ls, 0, h)), ls[h].id, Join(Texts(ls, h + 1, n)))
  {
    RecordsSplit(ls, 0, h, n);
    NoHeaderRecords(ls, h + 1, n);
    BodyIsJoin(ls, h + 1, n);
    var r := Records(ls, 0, h);
    var x := (ls[h].id, Join(Texts(ls, h + 1, n)));
    assert Records(ls, 0, n) == r + [x];
    assert (r + [x])[..|r|] == r;
  }

  /** Appending a sequence line appends its text. */
  lemma TextsSnoc(ls: seq<Line>, a: nat, b: nat)
    requires a <= b < |ls| && NoHeaderIn(ls, a, b) && ls[b].Sequence?
    ensures NoHeaderIn(ls, a, b + 1)
    ensures Texts(ls, a, b + 1) == Texts(ls, a, b) + [ls[b].text]
  {
  }

  /** The test the loop makes on a stripped line decides its classification. */
  lemma ClassifyStripped(line: string, stripped: string)
    requires stripped == Strip(line)
    ensures |stripped| > 0 && stripped[0] == '>' ==> Classify(line) == Header(stripped[1..])
    ensures !(|stripped| > 0 && stripped[0] == '>') ==> Classify(line) == Sequence(stripped)
  {
  }

  /** What the loop of `parse_fasta` knows after the first `n` lines: with no header seen
      yet the dict is empty; otherwise the open record began at the header `h`, its buffer
      holds the texts after it, and the dict holds every record closed before `h`. */
  ghost predicate ParsedUpTo(ls: seq<Line>, n: nat, currentId: Option<string>, currentSeq: seq<string>, h: nat, sequences: Dict<string, string>)
    requires n <= |ls|
  {
    if currentId.None? then NoHeaderIn(ls, 0, n) && sequences == []
    else
      && h < n && ls[h] == Header(currentId.value)
      && NoHeaderIn(ls, h + 1, n) && currentSeq == Texts(ls, h + 1, n)
      && sequences == PutAll([], Records(ls, 0, h))
  }

  /** The dict once the open record, if any, is stored. */
  function Closed(currentId: Option<string>, currentSeq: seq<string>, sequences: Dict<string, string>): Dict<string, string>
  {
    if currentId.Some? then Put(sequences, currentId.value, Join(currentSeq)) else sequences
  }

  /** A header line closes the open record and opens its own. */
  lemma ParsedHeader(ls: seq<Line>, n: nat, currentId: Option<string>, currentSeq: seq<string>, h: nat, sequences: Dict<string, string>)
    requires n < |ls| && ls[n].Header? && ParsedUpTo(ls, n, currentId, currentSeq, h, sequences)
    ensures ParsedUpTo(ls, n + 1, Some(ls[n].id), [], n, Closed(currentId, currentSeq, sequences))
    ensures Closed(currentId, currentSeq, sequences) == PutAll([], Records(ls, 0, n))
  {
    if currentId.Some? {
      Flush(ls, h, n);
    } else {
      NoHeaderRecords(ls, 0, n);
    }
    assert Texts(ls, n + 1, n + 1) == [];
  }

  /** A sequence line adds its text to the buffer of the open record, if any. */
  lemma ParsedSequence(ls: seq<Line>, n: nat, currentId: Option<string>, currentSeq: seq<string>, h: nat, sequences: Dict<string, string>)
    requires n < |ls| && ls[n].Sequence? && ParsedUpTo(ls, n, currentId, currentSeq, h, sequences)
    ensures ParsedUpTo(ls, n + 1, currentId, currentSeq + [ls[n].text], h, sequences)
  {
    if currentId.Some? {
      TextsSnoc(ls, h + 1, n);
    }
  }

  /** At the end of input, storing the open record gives every record stored in order. */
  lemma ParsedAll(ls: seq<Line>, currentId: Option<string>, currentSeq: seq<string>, h: nat, sequences: Dict<string, string>)
    requires ParsedUpTo(ls, |ls|, currentId, currentSeq, h, sequences)
    ensures Closed(currentId, currentSeq, sequences) == PutAll([], Records(ls, 0, |ls|))
  {
    if currentId.Some? {
      Flush(ls, h, |ls|);
    } else {
      NoHeaderRecords(ls, 0, |ls|);
    }
  }

  /** `parse_fasta` over the lines of the file. */
  method ParseFasta(lines: seq<string>) returns (sequences: Dict<string, string>)
    ensures sequences == Parse(lines)
  {
    ghost var ls := ClassifyAll(lines);
    sequences := [];
    var currentId: Option<string> := None;
    var currentSeq: seq<string> := [];
    ghost var h: nat := 0;
    var n := 0;
    while n < |lines|
      invariant n <= |lines|
      invariant ParsedUpTo(ls, n, currentId, currentSeq, h, sequences)
    {
      var line := Strip(lines[n]);
      ClassifyStripped(lines[n], line);
      assert ls[n] == Classify(lines[n]);
      if |line| > 0 && line[0] == '>' {
        ParsedHeader(ls, n, currentId, currentSeq, h, sequences);
        if currentId.Some? {
          sequences := Put(sequences, currentId.value, Join(currentSeq));
        }
        currentId := Some(line[1..]);
        currentSeq := [];
        h := n;
      } else {
        ParsedSequence(ls, n, currentId, currentSeq, h, sequences);
        currentSeq := currentSeq + [line];
      }
      n := n + 1;
    }
    ParsedAll(ls, currentId, currentSeq, h, sequences);
    if currentId.Some? {
      sequences := Put(sequences, currentId.value, Join(currentSeq));
    }
  }
}
