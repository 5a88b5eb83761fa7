/**
 * Token mode: one pass over the characters of the text collects maximal
 * runs of alphanumeric characters, each with the byte offset the program
 * reports as its begin; every run is looked up in the lexicons in order and
 * reported under the first lexicon that contains it.
 */
module TokenMode {
  import opened Wrappers
  import opened Utf8
  import opened Lexicons

  /** How `begin` moves past a delimiter `c` that starts at byte `i`. */
  datatype BeginRule =
    | NextByte   // `begin = i + 1`, as the program does
    | NextChar   // `begin = i + len_utf8(c)`, the byte where the next character starts

  function After(rule: BeginRule, i: nat, c: char): nat {
    match rule
    case NextByte => i + 1
    case NextChar => i + CharLen(c)
  }

  /** A run handed to the lexicon lookup, with the begin offset the scanner holds for it. */
  datatype Candidate = Candidate(token: string, begin: nat)

  /** The scanner's variables: the run being accumulated, its begin, and the runs already closed. */
  datatype ScanState = ScanState(token: string, begin: nat, done: seq<Candidate>)

  /**
   * The state after the first `k` characters: an alphanumeric character
   * extends the run; any other character closes a non-empty run and moves
   * `begin` past itself.
   */
  function Segment(text: string, k: nat, alnum: Classifier, rule: BeginRule): (st: ScanState)
    requires k <= |text|
    ensures |st.done| + (if st.token == [] then 0 else 1) <= k
    ensures forall i :: 0 <= i < |st.token| ==> alnum(st.token[i])
    ensures forall j :: 0 <= j < |st.done| ==> IsWord(st.done[j].token, alnum)
  {
    if k == 0 then ScanState([], 0, [])
    else
      var st := Segment(text, k - 1, alnum, rule);
      var c := text[k - 1];
      if alnum(c) then st.(token := st.token + [c])
      else if st.token != [] then ScanState([], After(rule, Offset(text, k - 1), c), st.done + [Candidate(st.token, st.begin)])
      else st.(begin := After(rule, Offset(text, k - 1), c))
  }

  /** A non-empty string of alphanumeric characters. */
  predicate IsWord(w: string, alnum: Classifier) {
    w != [] && forall i :: 0 <= i < |w| ==> alnum(w[i])
  }

  /** Every candidate of the text, including a final run that no delimiter closes. */
  function Candidates(text: string, alnum: Classifier, rule: BeginRule): (cands: seq<Candidate>)
    ensures |cands| <= |text|
    ensures forall j :: 0 <= j < |cands| ==> IsWord(cands[j].token, alnum)
  {
    var st := Segment(text, |text|, alnum, rule);
    if st.token != [] then st.done + [Candidate(st.token, st.begin)] else st.done
  }

  // ---------------------------------------------------------------------
  // Reference: maximal runs, by character index.

  /** A half-open range `[start, end)` of character indices. */
  datatype Span = Span(start: nat, end: nat)

  /** `[s, e)` is a non-empty run of alphanumeric characters that cannot be extended either way. */
  ghost predicate IsMaximalRun(text: string, alnum: Classifier, s: nat, e: nat) {
    && s < e <= |text|
    && (forall i :: s <= i < e ==> alnum(text[i]))
    && (s == 0 || !alnum(text[s - 1]))
    && (e == |text| || !alnum(text[e]))
  }

  /** Start of the longest alphanumeric suffix of `text[..k]`. */
  function RunStart(text: string, k: nat, alnum: Classifier): (s: nat)
    requires k <= |text|
    ensures s <= k
    ensures forall i :: s <= i < k ==> alnum(text[i])
    ensures s == 0 || !alnum(text[s - 1])
  {
    if k == 0 || !alnum(text[k - 1]) then k else RunStart(text, k - 1, alnum)
  }

  /** A maximal run is found again by walking back from its end. */
  lemma {:induction false} RunStartOfRun(text: string, alnum: Classifier, s: nat, e: nat)
    requires s <= e <= |text|
    requires forall i :: s <= i < e ==> alnum(text[i])
    requires s == 0 || !alnum(text[s - 1])
    ensures RunStart(text, e, alnum) == s
    decreases e
  {
    if e > s {
      RunStartOfRun(text, alnum, s, e - 1);
    }
  }

  /** Runs closed by a delimiter among the first `k` characters, in text order. */
  ghost function ClosedRuns(text: string, k: nat, alnum: Classifier): seq<Span>
    requires k <= |text|
  {
    if k == 0 then []
    else
      var s := RunStart(text, k - 1, alnum);
      ClosedRuns(text, k - 1, alnum) + (if !alnum(text[k - 1]) && s < k - 1 then [Span(s, k - 1)] else [])
  }

  /** All maximal runs of the text, in text order. */
  ghost function Runs(text: string, alnum: Classifier): seq<Span> {
    var s := RunStart(text, |text|, alnum);
    ClosedRuns(text, |text|, alnum) + (if s < |text| then [Span(s, |text|)] else [])
  }

  /** Spans in strictly increasing, non-touching order. */
  ghost predicate Ordered(spans: seq<Span>) {
    forall j, j' :: 0 <= j < j' < |spans| ==> spans[j].end < spans[j'].start
  }

  /** One more character appends at most the run that this character closes. */
  lemma ClosedRunsStep(text: string, k: nat, alnum: Classifier)
    requires 0 < k <= |text|
    ensures var s := RunStart(text, k - 1, alnum);
            ClosedRuns(text, k, alnum) ==
              ClosedRuns(text, k - 1, alnum) + (if !alnum(text[k - 1]) && s < k - 1 then [Span(s, k - 1)] else [])
  {
  }

  /** Every closed run is a maximal run that ends before `k`. */
  lemma {:induction false} ClosedRunsAreMaximal(text: string, k: nat, alnum: Classifier)
    requires k <= |text|
    ensures forall j :: 0 <= j < |ClosedRuns(text, k, alnum)| ==>
              IsMaximalRun(text, alnum, ClosedRuns(text, k, alnum)[j].start, ClosedRuns(text, k, alnum)[j].end)
              && ClosedRuns(text, k, alnum)[j].end < k
  {
    if k > 0 {
      ClosedRunsAreMaximal(text, k - 1, alnum);
      ClosedRunsStep(text, k, alnum);
    }
  }

  /** Closed runs come in text order. */
  lemma {:induction false} ClosedRunsOrdered(text: string, k: nat, alnum: Classifier)
    requires k <= |text|
    ensures Ordered(ClosedRuns(text, k, alnum))
  {
    if k > 0 {
      ClosedRunsOrdered(text, k - 1, alnum);
      ClosedRunsAreMaximal(text, k - 1, alnum);
      ClosedRunsStep(text, k, alnum);
      var prev := ClosedRuns(text, k - 1, alnum);
      var s := RunStart(text, k - 1, alnum);
      if !alnum(text[k - 1]) && s < k - 1 {
        forall j | 0 <= j < |prev| ensures prev[j].end < s {
          assert !alnum(text[prev[j].end]);
        }
      }
    }
  }

  /** Every maximal run that ends before `k` has been closed. */
  lemma {:induction false} ClosedRunsComplete(text: string, k: nat, alnum: Classifier)
    requires k <= |text|
    ensures forall s: nat, e: nat :: IsMaximalRun(text, alnum, s, e) && e < k ==> Span(s, e) in ClosedRuns(text, k, alnum)
  {
    if k > 0 {
      ClosedRunsComplete(text, k - 1, alnum);
      ClosedRunsStep(text, k, alnum);
      forall s': nat, e: nat | IsMaximalRun(text, alnum, s', e) && e < k
        ensures Span(s', e) in ClosedRuns(text, k, alnum)
      {
        if e == k - 1 {
          RunStartOfRun(text, alnum, s', e);
        }
      }
    }
  }

  /**
   * `Runs` lists every maximal run once, in text order, and nothing else.
   */
  lemma RunsAreMaximal(text: string, alnum: Classifier)
    ensures forall j :: 0 <= j < |Runs(text, alnum)| ==>
              IsMaximalRun(text, alnum, Runs(text, alnum)[j].start, Runs(text, alnum)[j].end)
    ensures Ordered(Runs(text, alnum))
    ensures forall s: nat, e: nat :: IsMaximalRun(text, alnum, s, e) <==> Span(s, e) in Runs(text, alnum)
  {
    var closed := ClosedRuns(text, |text|, alnum);
    ClosedRunsAreMaximal(text, |text|, alnum);
    ClosedRunsOrdered(text, |text|, alnum);
    ClosedRunsComplete(text, |text|, alnum);
    var s := RunStart(text, |text|, alnum);
    if s < |text| {
      assert Runs(text, alnum) == closed + [Span(s, |text|)];
    }
    forall s': nat, e: nat | IsMaximalRun(text, alnum, s', e) ensures Span(s', e) in Runs(text, alnum) {
      if e == |text| {
        RunStartOfRun(text, alnum, s', e);
      }
    }
  }

  // ---------------------------------------------------------------------
  // The scanner against the reference.

  /** The begin offset the scanner holds for a run starting at character `s`. */
  function BeginOf(text: string, s: nat, rule: BeginRule): nat
    requires s <= |text|
  {
    if s == 0 then 0 else After(rule, Offset(text, s - 1), text[s - 1])
  }

  /** The candidate the scanner forms for a run. */
  ghost function CandidateOf(text: string, sp: Span, rule: BeginRule): Candidate
    requires sp.start <= sp.end <= |text|
  {
    Candidate(text[sp.start..sp.end], BeginOf(text, sp.start, rule))
  }

  /** The closed candidates correspond one to one to the closed runs. */
  ghost predicate DoneMatchesRuns(text: string, done: seq<Candidate>, runs: seq<Span>, rule: BeginRule) {
    && |done| == |runs|
    && forall j :: 0 <= j < |done| ==>
         runs[j].start <= runs[j].end <= |text| && done[j] == CandidateOf(text, runs[j], rule)
  }

  /** One character moves the open run and its begin as the loop body does. */
  lemma SegmentStep(text: string, k: nat, alnum: Classifier, rule: BeginRule)
    requires 0 < k <= |text|
    ensures var st := Segment(text, k - 1, alnum, rule);
            var c := text[k - 1];
            && Segment(text, k, alnum, rule).token == (if alnum(c) then st.token + [c] else [])
            && Segment(text, k, alnum, rule).begin == (if alnum(c) then st.begin else After(rule, Offset(text, k - 1), c))
  {
  }

  /** Loop invariant of the scan, first half: the open run and its begin. */
  lemma {:induction false} SegmentOpenRun(text: string, k: nat, alnum: Classifier, rule: BeginRule)
    requires k <= |text|
    ensures Segment(text, k, alnum, rule).token == text[RunStart(text, k, alnum)..k]
    ensures Segment(text, k, alnum, rule).begin == BeginOf(text, RunStart(text, k, alnum), rule)
  {
    if k > 0 {
      SegmentOpenRun(text, k - 1, alnum, rule);
      SegmentStep(text, k, alnum, rule);
      var s := RunStart(text, k - 1, alnum);
      if alnum(text[k - 1]) {
        assert text[s..k] == text[s..k - 1] + [text[k - 1]];
      }
    }
  }

  /** Closing one more run keeps the candidates and the runs in step. */
  lemma DoneMatchesRunsAppend(text: string, done: seq<Candidate>, runs: seq<Span>, rule: BeginRule, sp: Span)
    requires DoneMatchesRuns(text, done, runs, rule)
    requires sp.start <= sp.end <= |text|
    ensures DoneMatchesRuns(text, done + [CandidateOf(text, sp, rule)], runs + [sp], rule)
  {
    var done' := done + [CandidateOf(text, sp, rule)];
    var runs' := runs + [sp];
    forall j | 0 <= j < |done'|
      ensures runs'[j].start <= runs'[j].end <= |text| && done'[j] == CandidateOf(text, runs'[j], rule)
    {
      if j < |done| {
        assert done'[j] == done[j] && runs'[j] == runs[j];
      }
    }
  }

  /** Loop invariant of the scan, second half: the closed candidates are the closed runs. */
  lemma {:induction false} SegmentClosedRuns(text: string, k: nat, alnum: Classifier, rule: BeginRule)
    requires k <= |text|
    ensures DoneMatchesRuns(text, Segment(text, k, alnum, rule).done, ClosedRuns(text, k, alnum), rule)
  {
    if k > 0 {
      SegmentClosedRuns(text, k - 1, alnum, rule);
      SegmentOpenRun(text, k - 1, alnum, rule);
      ClosedRunsStep(text, k, alnum);
      var st := Segment(text, k - 1, alnum, rule);
      var s := RunStart(text, k - 1, alnum);
      var prev := ClosedRuns(text, k - 1, alnum);
      if !alnum(text[k - 1]) && s < k - 1 {
        assert st.token != [];
        assert ClosedRuns(text, k, alnum) == prev + [Span(s, k - 1)];
        assert Segment(text, k, alnum, rule).done == st.done + [CandidateOf(text, Span(s, k - 1), rule)];
        DoneMatchesRunsAppend(text, st.done, prev, rule, Span(s, k - 1));
      } else {
        assert ClosedRuns(text, k, alnum) == prev;
        assert Segment(text, k, alnum, rule).done == st.done;
      }
    } else {
      assert Segment(text, k, alnum, rule).done == [];
    }
  }

  /**
   * The scanner's candidates are the maximal runs of the text, in order, each
   * with the begin offset `BeginOf` gives for its first character.
   */
  lemma CandidatesAreRuns(text: string, alnum: Classifier, rule: BeginRule)
    ensures DoneMatchesRuns(text, Candidates(text, alnum, rule), Runs(text, alnum), rule)
  {
    SegmentOpenRun(text, |text|, alnum, rule);
    SegmentClosedRuns(text, |text|, alnum, rule);
    var st := Segment(text, |text|, alnum, rule);
    var closed := ClosedRuns(text, |text|, alnum);
    var s := RunStart(text, |text|, alnum);
    if s < |text| {
      assert st.token != [];
      assert Runs(text, alnum) == closed + [Span(s, |text|)];
      assert Candidates(text, alnum, rule) == st.done + [CandidateOf(text, Span(s, |text|), rule)];
    } else {
      assert st.token == [];
      assert Runs(text, alnum) == closed;
      assert Candidates(text, alnum, rule) == st.done;
    }
  }


  // ---------------------------------------------------------------------
  // Byte offsets.

  /** With the `NextChar` rule a run's begin is the byte where its first character starts. */
  lemma BeginNextChar(text: string, s: nat)
    requires s <= |text|
    ensures BeginOf(text, s, NextChar) == Offset(text, s)
  {
    OffsetEnds(text);
    if s > 0 {
      OffsetStep(text, s - 1);
    }
  }

  /**
   * With the program's `NextByte` rule a run's begin falls short of the byte
   * where its first character starts by the delimiter's width minus one; the
   * two agree exactly when the run starts the text or follows a one-byte
   * delimiter.
   */
  lemma BeginNextByte(text: string, s: nat)
    requires s <= |text|
    ensures s > 0 ==> BeginOf(text, s, NextByte) + CharLen(text[s - 1]) == Offset(text, s) + 1
    ensures BeginOf(text, s, NextByte) == Offset(text, s) <==> s == 0 || CharLen(text[s - 1]) == 1
  {
    OffsetEnds(text);
    if s > 0 {
      OffsetStep(text, s - 1);
    }
  }

  /** Later runs get later begins, under either rule. */
  lemma BeginOfMono(text: string, s: nat, s': nat, rule: BeginRule)
    requires s < s' <= |text|
    ensures BeginOf(text, s, rule) < BeginOf(text, s', rule)
  {
    match rule
    case NextChar =>
      BeginNextChar(text, s);
      BeginNextChar(text, s');
      OffsetMono(text, s, s');
    case NextByte =>
      if s > 0 {
        OffsetMono(text, s - 1, s' - 1);
      }
  }

  /** The UTF-8 bytes of a run sit between its starting offset and its starting offset plus its byte length. */
  lemma RunBytes(text: string, s: nat, e: nat)
    requires s <= e <= |text|
    ensures Offset(text, s) + |Encode(text[s..e])| <= |Encode(text)|
    ensures Encode(text)[Offset(text, s)..Offset(text, s) + |Encode(text[s..e])|] == Encode(text[s..e])
  {
    EncodeSlice(text, s, e);
  }

  // ---------------------------------------------------------------------
  // Lookup, rows and counters.

  /** The rows printed in token mode and the two counters of the coverage line. */
  datatype TokenReport = TokenReport(rows: seq<Row>, matchcount: nat, totalcount: nat)

  /** The row for one candidate: its token, the first lexicon holding it, and `[begin, begin + byte length)`. */
  function CandidateRow(coll: seq<Lexicon>, c: Candidate): (r: Option<Row>)
    ensures r.None? <==> forall i :: 0 <= i < |coll| ==> c.token !in coll[i].entries
    ensures r.Some? ==> r.value.text == c.token && r.value.begin == c.begin
    ensures r.Some? ==> r.value.end == c.begin + |Encode(c.token)|
    ensures r.Some? ==> Some(r.value.lexicon) == FirstMatch(coll, c.token)
  {
    MatchRow(coll, c.token, c.begin, c.begin + |Encode(c.token)|)
  }

  /** The lookup result of every candidate, in order. */
  function Lookups(coll: seq<Lexicon>, cands: seq<Candidate>): (looks: seq<Option<Row>>)
    ensures |looks| == |cands|
    ensures forall j :: 0 <= j < |cands| ==> looks[j] == CandidateRow(coll, cands[j])
  {
    seq(|cands|, j requires 0 <= j < |cands| => CandidateRow(coll, cands[j]))
  }

  /** The loop's bookkeeping over lookup results: every result counts, every hit prints a row and counts as matched. */
  function Tally(looks: seq<Option<Row>>): (r: TokenReport)
    ensures r.rows == Found(looks)
    ensures r.totalcount == |looks|
    ensures r.matchcount == |r.rows| <= r.totalcount
  {
    if looks == [] then TokenReport([], 0, 0)
    else
      var prev := Tally(looks[..|looks| - 1]);
      match looks[|looks| - 1]
      case None => prev.(totalcount := prev.totalcount + 1)
      case Some(row) => TokenReport(prev.rows + [row], prev.matchcount + 1, prev.totalcount + 1)
  }

  /** Look every candidate up in order, counting candidates and matches. */
  function Emit(coll: seq<Lexicon>, cands: seq<Candidate>): (r: TokenReport)
    ensures r.totalcount == |cands|
    ensures r.matchcount == |r.rows| <= r.totalcount
  {
    Tally(Lookups(coll, cands))
  }

  /** Candidates with strictly increasing begins. */
  predicate BeginsIncrease(cands: seq<Candidate>) {
    forall j, j' :: 0 <= j < j' < |cands| ==> cands[j].begin < cands[j'].begin
  }

  /** Every row comes from a candidate that some lexicon contains. */
  lemma EmitRowsFromCandidates(coll: seq<Lexicon>, cands: seq<Candidate>)
    ensures forall i :: 0 <= i < |Emit(coll, cands).rows| ==>
              exists j :: 0 <= j < |cands| && CandidateRow(coll, cands[j]) == Some(Emit(coll, cands).rows[i])
  {
    var looks := Lookups(coll, cands);
    FoundSound(looks);
    var rows := Found(looks);
    assert Emit(coll, cands).rows == rows;
    forall i | 0 <= i < |rows|
      ensures exists j :: 0 <= j < |cands| && CandidateRow(coll, cands[j]) == Some(rows[i])
    {
      var j :| 0 <= j < |looks| && looks[j] == Some(rows[i]);
      assert CandidateRow(coll, cands[j]) == looks[j];
    }
  }

  /** Every candidate that some lexicon contains yields a row. */
  lemma EmitRowsComplete(coll: seq<Lexicon>, cands: seq<Candidate>)
    ensures forall j :: 0 <= j < |cands| && CandidateRow(coll, cands[j]).Some? ==>
              CandidateRow(coll, cands[j]).value in Emit(coll, cands).rows
  {
    FoundComplete(Lookups(coll, cands));
  }

  /** Rows keep the order of the candidates. */
  lemma EmitRowsOrdered(coll: seq<Lexicon>, cands: seq<Candidate>)
    requires BeginsIncrease(cands)
    ensures RowsIncrease(Emit(coll, cands).rows)
  {
    var looks := Lookups(coll, cands);
    assert HitsIncrease(looks) by {
      forall j, j' | 0 <= j < j' < |looks| && looks[j].Some? && looks[j'].Some?
        ensures looks[j].value.begin < looks[j'].value.begin
      {
        assert looks[j].value.begin == cands[j].begin;
        assert looks[j'].value.begin == cands[j'].begin;
      }
    }
    FoundOrdered(looks);
  }

  /**
   * Token mode as the program runs it: begins move one byte past each
   * delimiter. Counts one candidate per maximal run.
   */
  function TokenScan(text: string, coll: seq<Lexicon>, alnum: Classifier): (r: TokenReport)
    ensures r.totalcount == |Runs(text, alnum)|
    ensures r.matchcount <= r.totalcount
  {
    CandidatesAreRuns(text, alnum, NextByte);
    Emit(coll, Candidates(text, alnum, NextByte))
  }

  /** Token mode with begins moved past the whole delimiter character. */
  function TokenScanExact(text: string, coll: seq<Lexicon>, alnum: Classifier): (r: TokenReport)
    ensures r.totalcount == |Runs(text, alnum)|
    ensures r.matchcount <= r.totalcount
  {
    CandidatesAreRuns(text, alnum, NextChar);
    Emit(coll, Candidates(text, alnum, NextChar))
  }

  /** The scanner's candidates have strictly increasing begins, under either rule. */
  lemma CandidateBeginsIncrease(text: string, alnum: Classifier, rule: BeginRule)
    ensures BeginsIncrease(Candidates(text, alnum, rule))
  {
    var cands := Candidates(text, alnum, rule);
    var runs := Runs(text, alnum);
    CandidatesAreRuns(text, alnum, rule);
    RunsAreMaximal(text, alnum);
    forall j, j' | 0 <= j < j' < |cands| ensures cands[j].begin < cands[j'].begin {
      assert runs[j].end < runs[j'].start;
      BeginOfMono(text, runs[j].start, runs[j'].start, rule);
    }
  }

  /**
   * Every row of a token scan reports a maximal run under the first lexicon
   * that contains it, with `end - begin` its UTF-8 byte length and `begin`
   * where the rule places it; rows come in text order.
   */
  lemma TokenRowsAreRuns(text: string, coll: seq<Lexicon>, alnum: Classifier, rule: BeginRule)
    ensures forall i :: 0 <= i < |Emit(coll, Candidates(text, alnum, rule)).rows| ==>
              exists j :: 0 <= j < |Runs(text, alnum)| &&
                ReportsRun(text, coll, Runs(text, alnum)[j], rule, Emit(coll, Candidates(text, alnum, rule)).rows[i])
    ensures RowsIncrease(Emit(coll, Candidates(text, alnum, rule)).rows)
  {
    var cands := Candidates(text, alnum, rule);
    var runs := Runs(text, alnum);
    CandidatesAreRuns(text, alnum, rule);
    EmitRowsFromCandidates(coll, cands);
    CandidateBeginsIncrease(text, alnum, rule);
    EmitRowsOrdered(coll, cands);
    var rows := Emit(coll, cands).rows;
    forall i | 0 <= i < |rows|
      ensures exists j :: 0 <= j < |runs| && ReportsRun(text, coll, runs[j], rule, rows[i])
    {
      var j :| 0 <= j < |cands| && CandidateRow(coll, cands[j]) == Some(rows[i]);
      RowOfRun(text, coll, cands, runs, rule, j);
    }
  }

  /** The row of the `j`-th candidate reports the `j`-th run. */
  lemma RowOfRun(text: string, coll: seq<Lexicon>, cands: seq<Candidate>, runs: seq<Span>, rule: BeginRule, j: nat)
    requires DoneMatchesRuns(text, cands, runs, rule)
    requires j < |cands| && CandidateRow(coll, cands[j]).Some?
    ensures ReportsRun(text, coll, runs[j], rule, CandidateRow(coll, cands[j]).value)
  {
  }

  /** Every maximal run is the run of some candidate. */
  lemma CandidateOfRun(text: string, alnum: Classifier, rule: BeginRule, s: nat, e: nat) returns (j: nat)
    requires IsMaximalRun(text, alnum, s, e)
    ensures j < |Candidates(text, alnum, rule)| && j < |Runs(text, alnum)|
    ensures Runs(text, alnum)[j] == Span(s, e)
    ensures Candidates(text, alnum, rule)[j] == CandidateOf(text, Span(s, e), rule)
  {
    CandidatesAreRuns(text, alnum, rule);
    RunsAreMaximal(text, alnum);
    var runs := Runs(text, alnum);
    assert Span(s, e) in runs;
    j :| 0 <= j < |runs| && runs[j] == Span(s, e);
  }

  /** Every maximal run that some lexicon contains is reported, at the begin the rule gives it. */
  lemma TokenRunsAreReported(text: string, coll: seq<Lexicon>, alnum: Classifier, rule: BeginRule, s: nat, e: nat)
    requires IsMaximalRun(text, alnum, s, e)
    requires exists k :: 0 <= k < |coll| && text[s..e] in coll[k].entries
    ensures exists i :: 0 <= i < |Emit(coll, Candidates(text, alnum, rule)).rows| &&
              ReportsRun(text, coll, Span(s, e), rule, Emit(coll, Candidates(text, alnum, rule)).rows[i])
  {
    var cands := Candidates(text, alnum, rule);
    var j := CandidateOfRun(text, alnum, rule, s, e);
    var m := CandidateRow(coll, cands[j]);
    assert m.Some?;
    assert ReportsRun(text, coll, Span(s, e), rule, m.value);
    EmitRowsComplete(coll, cands);
    var rows := Emit(coll, cands).rows;
    var i :| 0 <= i < |rows| && rows[i] == m.value;
  }

  /** `row` reports the run `sp` as the scanner does under `rule`. */
  ghost predicate ReportsRun(text: string, coll: seq<Lexicon>, sp: Span, rule: BeginRule, row: Row) {
    && sp.start <= sp.end <= |text|
    && row.text == text[sp.start..sp.end]
    && row.begin == BeginOf(text, sp.start, rule)
    && row.end == row.begin + |Encode(row.text)|
    && Some(row.lexicon) == FirstMatch(coll, row.text)
  }

  /** Under the `NextChar` rule a reported row's byte span holds exactly its token's UTF-8 bytes. */
  lemma ExactRowSpellsToken(text: string, coll: seq<Lexicon>, sp: Span, row: Row)
    requires ReportsRun(text, coll, sp, NextChar, row)
    ensures row.begin <= row.end <= |Encode(text)|
    ensures Encode(text)[row.begin..row.end] == Encode(row.text)
  {
    BeginNextChar(text, sp.start);
    RunBytes(text, sp.start, sp.end);
  }

  /**
   * Under the program's `NextByte` rule a reported row starts at its token's
   * first byte exactly when the token starts the text or follows a one-byte
   * delimiter, and then its byte span holds exactly the token's bytes.
   */
  lemma AsWrittenRowSpan(text: string, coll: seq<Lexicon>, sp: Span, row: Row)
    requires ReportsRun(text, coll, sp, NextByte, row)
    ensures row.begin == Offset(text, sp.start) <==> sp.start == 0 || CharLen(text[sp.start - 1]) == 1
    ensures sp.start == 0 || CharLen(text[sp.start - 1]) == 1 ==>
              row.end <= |Encode(text)| && Encode(text)[row.begin..row.end] == Encode(row.text)
  {
    BeginNextByte(text, sp.start);
    RunBytes(text, sp.start, sp.end);
  }

  /**
   * After a two-byte delimiter the program's offsets are off by one: in
   * "\u00aba" ('«' then 'a') the token "a" is reported at bytes [1, 2),
   * which hold the second byte of '«', while it really occupies [2, 3).
   */
  lemma MultiByteDelimiterShiftsOffsets()
    ensures Encode("\U{AB}a") == [0xC2, 0xAB, 'a' as int]
    ensures TokenScan("\U{AB}a", [Lexicon("custom", {"a"})], AsciiAlnum).rows == [Row("a", "custom", 1, 2)]
    ensures Encode("\U{AB}a")[1..2] != Encode("a")
    ensures TokenScanExact("\U{AB}a", [Lexicon("custom", {"a"})], AsciiAlnum).rows == [Row("a", "custom", 2, 3)]
  {
    var text := "\U{AB}a";
    var coll := [Lexicon("custom", {"a"})];
    assert text[..0] == [] && text[1..] == "a" && "a"[1..] == [];
    assert Offset(text, 0) == 0;
    assert Encode("a") == ['a' as int];
    assert Segment(text, 1, AsciiAlnum, NextByte) == ScanState([], 1, []);
    assert Segment(text, 2, AsciiAlnum, NextByte) == ScanState("a", 1, []);
    assert Candidates(text, AsciiAlnum, NextByte) == [Candidate("a", 1)];
    assert Segment(text, 1, AsciiAlnum, NextChar) == ScanState([], 2, []);
    assert Segment(text, 2, AsciiAlnum, NextChar) == ScanState("a", 2, []);
    assert Candidates(text, AsciiAlnum, NextChar) == [Candidate("a", 2)];
    assert FirstMatch(coll, "a") == Some("custom");
    assert [Candidate("a", 1)][..0] == [];
    assert [Candidate("a", 2)][..0] == [];
  }
}
