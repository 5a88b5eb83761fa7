/**
 * Greedy-window mode (`--cjk N`): at every character start the program is
 * meant to look up only the longest window of at most `N` characters that the
 * rest of the text still holds, and to report it when some lexicon contains it.
 *
 * The program's loop runs over every BYTE position `begin` and computes the
 * window's end relative to the slice `text[begin..]`, but then slices the
 * whole text with that relative end. `ProbeAsWritten` models exactly that,
 * including the two ways the slicing can panic; `WindowScan` is the scan the
 * mode evidently intends: one window per character start, at its true byte
 * offsets.
 */
module WindowMode {
  import opened Wrappers
  import opened Utf8
  import opened Lexicons

  function Min(a: nat, b: nat): nat {
    if a <= b then a else b
  }

  /** What the scan does at one start position. */
  datatype Probe =
    | Skip                                         // no window is looked up
    | Abort                                        // a slice off a char boundary: the program panics
    | Look(pattern: string, begin: nat, end: nat)  // `pattern` is looked up and reported at bytes [begin, end)

  /** The outcome of a scan: all rows and the matched-character count, or the rows printed before a panic. */
  datatype WindowReport =
    | Completed(rows: seq<Row>, matchcount: nat, totalcount: nat)
    | Panicked(at: nat, rows: seq<Row>)

  /** The longest window starting at character `k`: `maxlen` characters, or what is left of the text. */
  function Window(text: string, k: nat, maxlen: nat): (w: string)
    requires k <= |text|
    ensures |w| <= maxlen && k + |w| <= |text|
    ensures |w| == maxlen || k + |w| == |text|
    ensures w == text[k..k + |w|]
  {
    text[k..k + Min(maxlen, |text| - k)]
  }

  // ---------------------------------------------------------------------
  // The scan as written
  // ---------------------------------------------------------------------

  /**
   * One iteration of the outer loop at byte `b`. `text[b..]` panics unless `b`
   * is a boundary; the first `l` (from `maxlen` down) for which the slice
   * still has `l` characters gives the window, whose end `endRel` counts bytes
   * from `b`; `text[b..endRel]` panics unless `b <= endRel` and `endRel` is a
   * boundary. Every window found is looked up, matched or not, and ends the
   * inner loop.
   */
  function ProbeAsWritten(text: string, maxlen: nat, b: nat): (p: Probe)
    requires b < |Encode(text)|
    ensures p.Skip? <==> maxlen == 0
    ensures maxlen > 0 && CharIndexAt(text, b).None? ==> p == Abort
    ensures p.Look? ==> p.begin == b <= p.end <= |Encode(text)|
    ensures p.Look? ==> Encode(text)[p.begin..p.end] == Encode(p.pattern)
  {
    if maxlen == 0 then Skip
    else match CharIndexAt(text, b)
      case None => Abort
      case Some(k) =>
        var endRel := |Encode(Window(text, k, maxlen))|;
        if endRel < b then Abort
        else match CharIndexAt(text, endRel)
          case None => Abort
          case Some(ke) =>
            OffsetOrder(text, k, ke);
            EncodeSlice(text, k, ke);
            Look(text[k..ke], b, endRel)
  }

  /** The probe at every byte of the text, in order. */
  function Probes(text: string, maxlen: nat): (ps: seq<Probe>)
    ensures |ps| == |Encode(text)|
    ensures forall b :: 0 <= b < |ps| ==> ps[b] == ProbeAsWritten(text, maxlen, b)
  {
    seq(|Encode(text)|, b requires 0 <= b < |Encode(text)| => ProbeAsWritten(text, maxlen, b))
  }

  /** The row a probe prints: a looked-up pattern found in some lexicon, at the probe's offsets. */
  function ProbeRow(coll: seq<Lexicon>, p: Probe): (r: Option<Row>)
    ensures r.Some? <==> p.Look? && FirstMatch(coll, p.pattern).Some?
    ensures r.Some? ==> r.value == Row(p.pattern, FirstMatch(coll, p.pattern).value, p.begin, p.end)
  {
    match p
    case Look(pattern, begin, end) => MatchRow(coll, pattern, begin, end)
    case _ => None
  }

  /** The rows the first `m` probes print, in order. */
  function ProbeLooks(coll: seq<Lexicon>, probes: seq<Probe>, m: nat): (looks: seq<Option<Row>>)
    requires m <= |probes|
    ensures |looks| == m
  {
    if m == 0 then [] else ProbeLooks(coll, probes, m - 1) + [ProbeRow(coll, probes[m - 1])]
  }

  /** The `i`th lookup result is the row of the `i`th probe. */
  lemma {:induction false} ProbeLooksAt(coll: seq<Lexicon>, probes: seq<Probe>, m: nat)
    requires m <= |probes|
    ensures forall i :: 0 <= i < m ==> ProbeLooks(coll, probes, m)[i] == ProbeRow(coll, probes[i])
  {
    if m > 0 {
      ProbeLooksAt(coll, probes, m - 1);
    }
  }

  /** One more probe appends its row, if it prints one. */
  lemma ProbeLooksStep(coll: seq<Lexicon>, probes: seq<Probe>, m: nat)
    requires m < |probes|
    ensures Found(ProbeLooks(coll, probes, m + 1)) ==
              if ProbeRow(coll, probes[m]).Some? then Found(ProbeLooks(coll, probes, m)) + [ProbeRow(coll, probes[m]).value]
              else Found(ProbeLooks(coll, probes, m))
  {
    FoundAppend(ProbeLooks(coll, probes, m), ProbeRow(coll, probes[m]));
  }

  /**
   * The outer loop over the probes of bytes `0..n`. The scan panics at the
   * first byte whose probe aborts, after printing the rows of the bytes
   * before it; `total` is the character count the coverage line reports.
   */
  function Run(probes: seq<Probe>, coll: seq<Lexicon>, total: nat, n: nat): (r: WindowReport)
    requires n <= |probes|
    ensures r.Completed? <==> forall b :: 0 <= b < n ==> probes[b] != Abort
    ensures r.Completed? ==> r.totalcount == total && |r.rows| <= n
    ensures r.Panicked? ==> r.at < n && probes[r.at] == Abort
    ensures r.Panicked? ==> forall b :: 0 <= b < r.at ==> probes[b] != Abort
    ensures r.rows == Found(ProbeLooks(coll, probes, if r.Panicked? then r.at else n))
    ensures r.Completed? ==> r.matchcount == Covered(r.rows)
  {
    if n == 0 then
      assert ProbeLooks(coll, probes, 0) == [];
      Completed([], 0, total)
    else
      var prev := Run(probes, coll, total, n - 1);
      if prev.Panicked? then prev
      else if probes[n - 1] == Abort then Panicked(n - 1, prev.rows)
      else
        ProbeLooksStep(coll, probes, n - 1);
        match ProbeRow(coll, probes[n - 1])
        case None => prev
        case Some(row) =>
          CoveredAppend(prev.rows, row);
          Completed(prev.rows + [row], prev.matchcount + |row.text|, total)
  }

  /** The greedy-window mode as the program runs it: it completes exactly when no byte's probe aborts. */
  function WindowScanAsWritten(text: string, coll: seq<Lexicon>, maxlen: nat): (r: WindowReport)
    ensures r.Completed? <==> forall b :: 0 <= b < |Encode(text)| ==> ProbeAsWritten(text, maxlen, b) != Abort
    ensures r.Completed? ==> r.totalcount == |text|
    ensures r.Panicked? ==> r.at < |Encode(text)| && ProbeAsWritten(text, maxlen, r.at) == Abort
    ensures r.Panicked? ==> forall b :: 0 <= b < r.at ==> ProbeAsWritten(text, maxlen, b) != Abort
    ensures r.rows == Found(ProbeLooks(coll, Probes(text, maxlen), if r.Panicked? then r.at else |Encode(text)|))
    ensures r.Completed? ==> r.matchcount == Covered(r.rows)
  {
    var probes := Probes(text, maxlen);
    Run(probes, coll, |text|, |probes|)
  }

  // ---------------------------------------------------------------------
  // The intended scan
  // ---------------------------------------------------------------------

  /** The row for the longest window at character `k`, when some lexicon contains it. */
  function WindowRow(text: string, coll: seq<Lexicon>, maxlen: nat, k: nat): (r: Option<Row>)
    requires k < |text|
    ensures r.None? <==> maxlen == 0 || FirstMatch(coll, Window(text, k, maxlen)).None?
    ensures r.Some? ==> ReportsWindow(text, coll, maxlen, k, r.value)
  {
    if maxlen == 0 then None
    else
      var w := Window(text, k, maxlen);
      MatchRow(coll, w, Offset(text, k), Offset(text, k + |w|))
  }

  /** The lookup result of the longest window at every character start, in order. */
  function WindowLooks(text: string, coll: seq<Lexicon>, maxlen: nat): (looks: seq<Option<Row>>)
    ensures |looks| == |text|
    ensures forall k :: 0 <= k < |text| ==> looks[k] == WindowRow(text, coll, maxlen, k)
  {
    seq(|text|, k requires 0 <= k < |text| => WindowRow(text, coll, maxlen, k))
  }

  /** The loop's bookkeeping: every hit prints its row and adds its characters to the match count. */
  function Sweep(looks: seq<Option<Row>>, total: nat): (r: WindowReport)
    ensures r.Completed? && r.totalcount == total
    ensures r.rows == Found(looks)
    ensures r.matchcount == Covered(r.rows)
  {
    if looks == [] then Completed([], 0, total)
    else
      var prev := Sweep(looks[..|looks| - 1], total);
      match looks[|looks| - 1]
      case None => prev
      case Some(row) =>
        CoveredAppend(prev.rows, row);
        Completed(prev.rows + [row], prev.matchcount + |row.text|, total)
  }

  /** The greedy-window mode with one window per character start, reported at its true byte offsets. */
  function WindowScan(text: string, coll: seq<Lexicon>, maxlen: nat): (r: WindowReport)
    ensures r.Completed? && r.totalcount == |text|
    ensures |r.rows| <= |text|
    ensures r.matchcount == Covered(r.rows)
  {
    Sweep(WindowLooks(text, coll, maxlen), |text|)
  }

  /** The number of characters the rows cover, counted once per row. */
  function Covered(rows: seq<Row>): nat {
    if rows == [] then 0 else |rows[0].text| + Covered(rows[1..])
  }

  /** Appending a row adds its characters to the coverage. */
  lemma {:induction false} CoveredAppend(rows: seq<Row>, row: Row)
    ensures Covered(rows + [row]) == Covered(rows) + |row.text|
  {
    if rows != [] {
      assert (rows + [row])[1..] == rows[1..] + [row];
      CoveredAppend(rows[1..], row);
    }
  }

  /** `row` reports the longest window at character `k`, found in the lexicon that contains it first. */
  ghost predicate ReportsWindow(text: string, coll: seq<Lexicon>, maxlen: nat, k: nat, row: Row) {
    && SpansWindow(text, maxlen, k, row)
    && Some(row.lexicon) == FirstMatch(coll, row.text)
  }

  /** `row` holds the longest window at character `k` and the byte offsets of its first and one-past-last characters. */
  ghost predicate SpansWindow(text: string, maxlen: nat, k: nat, row: Row) {
    && 1 <= maxlen
    && k < |text|
    && row.text == Window(text, k, maxlen)
    && row.begin == Offset(text, k)
    && row.end == Offset(text, k + |row.text|)
  }

  /** `row` is the row of the character starting at its begin offset. */
  predicate IsWindowRow(text: string, coll: seq<Lexicon>, maxlen: nat, row: Row) {
    match CharIndexAt(text, row.begin)
      case None => false
      case Some(k) => k < |text| && WindowRow(text, coll, maxlen, k) == Some(row)
  }

  /** With no window length nothing is looked up, so nothing is reported. */
  lemma WindowScanZero(text: string, coll: seq<Lexicon>)
    ensures WindowScan(text, coll, 0) == Completed([], 0, |text|)
  {
    FoundNone(WindowLooks(text, coll, 0));
  }

  /** Every row is the row of the character starting at its begin offset. */
  lemma WindowScanSound(text: string, coll: seq<Lexicon>, maxlen: nat)
    ensures forall i :: 0 <= i < |WindowScan(text, coll, maxlen).rows| ==>
              IsWindowRow(text, coll, maxlen, WindowScan(text, coll, maxlen).rows[i])
  {
    var looks := WindowLooks(text, coll, maxlen);
    var rows := Found(looks);
    FoundSound(looks);
    forall i | 0 <= i < |rows| ensures IsWindowRow(text, coll, maxlen, rows[i]) {
      var j :| 0 <= j < |looks| && looks[j] == Some(rows[i]);
      CharIndexOfOffset(text, j);
    }
  }

  /** Rows come in strictly increasing byte order. */
  lemma WindowScanOrdered(text: string, coll: seq<Lexicon>, maxlen: nat)
    ensures RowsIncrease(WindowScan(text, coll, maxlen).rows)
  {
    var looks := WindowLooks(text, coll, maxlen);
    assert HitsIncrease(looks) by {
      forall j, j' | 0 <= j < j' < |looks| && looks[j].Some? && looks[j'].Some?
        ensures looks[j].value.begin < looks[j'].value.begin
      {
        OffsetMono(text, j, j');
      }
    }
    FoundOrdered(looks);
  }

  /** The row of every start whose longest window some lexicon contains is printed. */
  lemma WindowScanComplete(text: string, coll: seq<Lexicon>, maxlen: nat)
    ensures forall k :: 0 <= k < |text| && WindowRow(text, coll, maxlen, k).Some? ==>
              WindowRow(text, coll, maxlen, k).value in WindowScan(text, coll, maxlen).rows
  {
    FoundComplete(WindowLooks(text, coll, maxlen));
  }

  /**
   * The intended scan reports, in increasing byte order, exactly the starts
   * whose longest window some lexicon contains, one row per such start.
   */
  lemma WindowScanRows(text: string, coll: seq<Lexicon>, maxlen: nat)
    ensures forall i :: 0 <= i < |WindowScan(text, coll, maxlen).rows| ==>
              IsWindowRow(text, coll, maxlen, WindowScan(text, coll, maxlen).rows[i])
    ensures RowsIncrease(WindowScan(text, coll, maxlen).rows)
    ensures forall k :: 0 <= k < |text| && WindowRow(text, coll, maxlen, k).Some? ==>
              WindowRow(text, coll, maxlen, k).value in WindowScan(text, coll, maxlen).rows
  {
    WindowScanSound(text, coll, maxlen);
    WindowScanOrdered(text, coll, maxlen);
    WindowScanComplete(text, coll, maxlen);
  }

  // ---------------------------------------------------------------------
  // What the scan as written does
  // ---------------------------------------------------------------------

  /**
   * At a character start the program's probe agrees with the intended window
   * only at the very first character: elsewhere the relative end is read as
   * an absolute offset, so it either aborts or looks up the wrong slice.
   */
  lemma ProbeAgreesOnlyAtStart(text: string, maxlen: nat, k: nat)
    requires 1 <= maxlen && k < |text|
    ensures Offset(text, k) < |Encode(text)|
    ensures var w := Window(text, k, maxlen);
            ProbeAsWritten(text, maxlen, Offset(text, k)) == Look(w, Offset(text, k), Offset(text, k + |w|))
            <==> k == 0
  {
    var w := Window(text, k, maxlen);
    OffsetEnds(text);
    OffsetStep(text, k);
    OffsetMono(text, k + 1, |text|);
    CharIndexOfOffset(text, k);
    WindowEnd(text, maxlen, k);
    if k == 0 {
      CharIndexOfOffset(text, |w|);
      assert text[0..|w|] == w;
    } else {
      OffsetMono(text, 0, k);
    }
  }

  /** The byte length of a window is the distance between the offsets of its ends. */
  lemma WindowEnd(text: string, maxlen: nat, k: nat)
    requires k <= |text|
    ensures var w := Window(text, k, maxlen);
            |Encode(w)| == Offset(text, k + |w|) - Offset(text, k)
  {
    var w := Window(text, k, maxlen);
    assert text[k..k + |w|] == w;
    EncodeSlice(text, k, k + |w|);
  }

  /**
   * In a text of one-byte characters the probe at `b` takes the window's
   * length `l` as its end: it looks up `text[b..l]` when `b <= l` and aborts
   * otherwise.
   */
  lemma AsciiProbe(text: string, maxlen: nat, b: nat)
    requires |Encode(text)| == |text| && 1 <= maxlen && b < |text|
    ensures var l := Min(maxlen, |text| - b);
            ProbeAsWritten(text, maxlen, b) == if l < b then Abort else Look(text[b..l], b, l)
  {
    AsciiCharIndex(text, b);
    AsciiWindowBytes(text, maxlen, b);
    var l := Min(maxlen, |text| - b);
    if b <= l {
      AsciiCharIndex(text, l);
    }
  }

  /** In a text of one-byte characters every index is a boundary of itself. */
  lemma AsciiCharIndex(text: string, b: nat)
    requires |Encode(text)| == |text| && b <= |text|
    ensures CharIndexAt(text, b) == Some(b)
  {
    AsciiOffset(text, b);
    CharIndexOfOffset(text, b);
  }

  /** In a text of one-byte characters a window's encoding is as long as the window. */
  lemma AsciiWindowBytes(text: string, maxlen: nat, b: nat)
    requires |Encode(text)| == |text| && b < |text|
    ensures |Encode(Window(text, b, maxlen))| == Min(maxlen, |text| - b)
  {
    var l := Min(maxlen, |text| - b);
    AsciiOffset(text, b);
    AsciiOffset(text, b + l);
    assert Window(text, b, maxlen) == text[b..b + l];
    EncodeSlice(text, b, b + l);
  }

  /** With three or more bytes the probe at the last byte aborts: a one-char window ends at relative byte 1. */
  lemma LastByteAborts(text: string, maxlen: nat)
    requires 1 <= maxlen && |Encode(text)| >= 3
    ensures ProbeAsWritten(text, maxlen, |Encode(text)| - 1) == Abort
  {
    var n := |Encode(text)|;
    var r := CharIndexAt(text, n - 1);
    OffsetEnds(text);
    if r.Some? {
      var k := r.value;
      if k == |text| {
        assert false;
      }
      OffsetStep(text, k);
      OffsetMono(text, k + 1, |text|);
      OffsetInjective(text, k + 1, |text|);
      EncodeSlice(text, k, k + 1);
      assert Window(text, k, maxlen) == text[k..k + 1];
    }
  }

  /** The probe at the second byte of a multi-byte character aborts: it is not a boundary. */
  lemma InsideCharAborts(text: string, maxlen: nat, k: nat)
    requires 1 <= maxlen && k < |text| && CharLen(text[k]) > 1
    ensures Offset(text, k) + 1 < |Encode(text)|
    ensures ProbeAsWritten(text, maxlen, Offset(text, k) + 1) == Abort
  {
    OffsetStep(text, k);
    OffsetMono(text, k + 1, |text|);
    OffsetEnds(text);
    InsideCharNotBoundary(text, k, Offset(text, k) + 1);
  }

  /**
   * The scan as written runs to completion only when `maxlen` is 0 or the
   * text is at most two one-byte characters; on every other text it panics.
   */
  lemma AsWrittenCompletesIff(text: string, coll: seq<Lexicon>, maxlen: nat)
    ensures WindowScanAsWritten(text, coll, maxlen).Completed?
            <==> maxlen == 0 || (|Encode(text)| <= 2 && |Encode(text)| == |text|)
  {
    var n := |Encode(text)|;
    if maxlen == 0 {
      assert forall b :: 0 <= b < n ==> ProbeAsWritten(text, maxlen, b) != Abort;
    } else if n >= 3 {
      LastByteAborts(text, maxlen);
    } else if n != |text| {
      var k := MultiByteChar(text);
      InsideCharAborts(text, maxlen, k);
    } else {
      forall b | 0 <= b < n
        ensures ProbeAsWritten(text, maxlen, b) != Abort
      {
        AsciiProbe(text, maxlen, b);
      }
    }
  }

  /** "ABCD" encodes to one byte per character. */
  lemma AbcdBytes(text: string)
    requires text == "ABCD"
    ensures Encode(text) == ['A' as int, 'B' as int, 'C' as int, 'D' as int]
  {
    assert text == "AB" + "CD";
    EncodeAppend("AB", "CD");
    assert "AB" == ['A'] + ['B'] && "CD" == ['C'] + ['D'];
    EncodeAppend(['A'], ['B']);
    EncodeAppend(['C'], ['D']);
  }

  /**
   * "ABCD" with lexicon {"AB", "ABC"} and windows of 3: byte 0 reports "ABC"
   * at [0, 3); byte 1 looks up "BC" instead of "BCD"; byte 3 panics.
   */
  lemma RelativeEndScenario(text: string, coll: seq<Lexicon>)
    requires text == "ABCD" && coll == [Lexicon("custom", {"AB", "ABC"})]
    ensures ProbeAsWritten(text, 3, 1) == Look("BC", 1, 3)
    ensures WindowScanAsWritten(text, coll, 3) == Panicked(3, [Row("ABC", "custom", 0, 3)])
  {
    AbcdProbes(text);
    var probes := Probes(text, 3);
    assert probes == [Look("ABC", 0, 3), Look("BC", 1, 3), Look([], 2, 2), Abort];
    AbcdRun(probes, coll);
  }

  /** The byte loop over the probes of "ABCD": one row at byte 0, nothing at bytes 1 and 2, a panic at byte 3. */
  lemma AbcdRun(probes: seq<Probe>, coll: seq<Lexicon>)
    requires probes == [Look("ABC", 0, 3), Look("BC", 1, 3), Look([], 2, 2), Abort]
    requires coll == [Lexicon("custom", {"AB", "ABC"})]
    ensures Run(probes, coll, 4, 4) == Panicked(3, [Row("ABC", "custom", 0, 3)])
  {
    var row := Row("ABC", "custom", 0, 3);
    assert ProbeRow(coll, probes[0]) == Some(row) by {
      assert MatchRow(coll, "ABC", 0, 3) == Some(row);
    }
    assert ProbeRow(coll, probes[1]) == None by {
      assert MatchRow(coll, "BC", 1, 3) == None;
    }
    assert ProbeRow(coll, probes[2]) == None by {
      assert MatchRow(coll, [], 2, 2) == None;
    }
    assert Run(probes, coll, 4, 0) == Completed([], 0, 4);
    assert Run(probes, coll, 4, 1) == Completed([row], 3, 4);
    assert Run(probes, coll, 4, 2) == Completed([row], 3, 4);
    assert Run(probes, coll, 4, 3) == Completed([row], 3, 4);
  }

  /** The probes of "ABCD" with windows of 3, byte by byte. */
  lemma AbcdProbes(text: string)
    requires text == "ABCD"
    ensures |Encode(text)| == 4
    ensures ProbeAsWritten(text, 3, 0) == Look("ABC", 0, 3)
    ensures ProbeAsWritten(text, 3, 1) == Look("BC", 1, 3)
    ensures ProbeAsWritten(text, 3, 2) == Look([], 2, 2)
    ensures ProbeAsWritten(text, 3, 3) == Abort
  {
    AbcdBytes(text);
    AsciiProbe(text, 3, 0);
    AsciiProbe(text, 3, 1);
    AsciiProbe(text, 3, 2);
    AsciiProbe(text, 3, 3);
    assert text[0..3] == "ABC" && text[1..3] == "BC" && text[2..2] == [];
  }

  /** The intended scan of the same input reports the single row "ABC" at [0, 3) and completes. */
  lemma RelativeEndScenarioIntended(text: string, coll: seq<Lexicon>)
    requires text == "ABCD" && coll == [Lexicon("custom", {"AB", "ABC"})]
    ensures WindowScan(text, coll, 3) == Completed([Row("ABC", "custom", 0, 3)], 3, 4)
  {
    AbcdBytes(text);
    AsciiOffset(text, 0);
    AsciiOffset(text, 3);
    var row := Row("ABC", "custom", 0, 3);
    assert WindowRow(text, coll, 3, 0) == Some(row) by {
      assert Window(text, 0, 3) == text[0..3] == "ABC";
    }
    assert WindowRow(text, coll, 3, 1) == None by {
      assert Window(text, 1, 3) == text[1..4] == "BCD";
    }
    assert WindowRow(text, coll, 3, 2) == None by {
      assert Window(text, 2, 3) == text[2..4] == "CD";
    }
    assert WindowRow(text, coll, 3, 3) == None by {
      assert Window(text, 3, 3) == text[3..4] == "D";
    }
    var looks := WindowLooks(text, coll, 3);
    assert looks == [Some(row), None, None, None];
    SweepOneHit(looks, row);
  }

  /** Four lookups of which only the first hits: one row, its characters matched. */
  lemma SweepOneHit(looks: seq<Option<Row>>, row: Row)
    requires looks == [Some(row), None, None, None]
    ensures Sweep(looks, |looks|) == Completed([row], |row.text|, 4)
  {
    assert Found<Row>([]) == [];
    FoundAppend([], Some(row));
    assert [] + [Some(row)] == [Some(row)];
    FoundAppend([Some(row)], None);
    assert [Some(row)] + [None] == [Some(row), None];
    FoundAppend([Some(row), None], None);
    assert [Some(row), None] + [None] == [Some(row), None, None];
    FoundAppend([Some(row), None, None], None);
    assert [Some(row), None, None] + [None] == looks;
    assert Found(looks) == [row];
    assert Covered([row]) == |row.text|;
  }

  /** "\u00e9" ('é', two bytes) with windows of 1: byte 0 reports the character, byte 1 panics. */
  lemma MultiByteScenario(text: string, coll: seq<Lexicon>)
    requires text == "\U{E9}" && coll == [Lexicon("custom", {"\U{E9}"})]
    ensures WindowScanAsWritten(text, coll, 1) == Panicked(1, [Row(text, "custom", 0, 2)])
    ensures WindowScan(text, coll, 1) == Completed([Row(text, "custom", 0, 2)], 1, 1)
  {
    EacuteOffsets(text);
    var row := Row(text, "custom", 0, 2);
    assert MatchRow(coll, text, 0, 2) == Some(row);
    EacuteProbes(text);
    LookThenAbort(Probes(text, 1), coll, row, 1);
    assert WindowRow(text, coll, 1, 0) == Some(row);
    assert WindowLooks(text, coll, 1) == [Some(row)];
    FoundAppend<Row>([], Some(row));
    assert [] + [Some(row)] == [Some(row)];
    assert Covered([row]) == 1;
  }

  /** "\u00e9" is two bytes long and its one window of 1 is itself. */
  lemma EacuteOffsets(text: string)
    requires text == "\U{E9}"
    ensures Encode(text) == [0xC3, 0xA9]
    ensures Offset(text, 0) == 0 && Offset(text, 1) == 2
    ensures Window(text, 0, 1) == text
  {
    assert text[..1] == text && text[..0] == [];
  }

  /** The probes of "\u00e9" with windows of 1: the character at byte 0, a panic at byte 1. */
  lemma EacuteProbes(text: string)
    requires text == "\U{E9}"
    ensures Probes(text, 1) == [Look(text, 0, 2), Abort]
  {
    EacuteOffsets(text);
    assert text[1..] == [];
    CharIndexOfOffset(text, 0);
    CharIndexOfOffset(text, 1);
    InsideCharAborts(text, 1, 0);
    assert ProbeAsWritten(text, 1, 0) == Look(text, 0, 2);
  }

  /** A probe that hits followed by one that aborts: the scan prints the one row and panics at the second byte. */
  lemma LookThenAbort(probes: seq<Probe>, coll: seq<Lexicon>, row: Row, total: nat)
    requires probes == [Look(row.text, row.begin, row.end), Abort]
    requires MatchRow(coll, row.text, row.begin, row.end) == Some(row)
    ensures Run(probes, coll, total, 2) == Panicked(1, [row])
  {
    assert Run(probes, coll, total, 0) == Completed([], 0, total);
    assert ProbeRow(coll, probes[0]) == Some(row);
    assert Run(probes, coll, total, 1).rows == [row];
  }

  /**
   * Only the longest window is looked up: in "ab" with windows of 2 and
   * lexicon {"a"}, the start 0 looks up "ab" alone and "a" is never reported.
   */
  lemma LongestWindowOnly(text: string, coll: seq<Lexicon>)
    requires text == "ab" && coll == [Lexicon("custom", {"a"})]
    ensures WindowScan(text, coll, 2).rows == []
  {
    assert Window(text, 0, 2) == "ab";
    assert Window(text, 1, 2) == "b";
    FoundNone(WindowLooks(text, coll, 2));
  }

  /**
   * Overlapping windows are counted once each, so the matched-character count
   * can exceed the text's length: "aa" with {"aa", "a"} and windows of 2
   * matches 3 characters out of 2.
   */
  lemma CoverageCanExceedTotal(text: string, coll: seq<Lexicon>)
    requires text == "aa" && coll == [Lexicon("custom", {"aa", "a"})]
    ensures WindowScan(text, coll, 2).matchcount == 3
    ensures WindowScan(text, coll, 2).totalcount == 2
  {
    assert Window(text, 0, 2) == text[0..2] == "aa";
    assert Window(text, 1, 2) == text[1..2] == "a";
    assert "aa" in coll[0].entries && "a" in coll[0].entries;
    var r0 := WindowRow(text, coll, 2, 0).value;
    var r1 := WindowRow(text, coll, 2, 1).value;
    var looks := WindowLooks(text, coll, 2);
    assert looks == [Some(r0), Some(r1)];
    SweepTwoHits(looks, r0, r1);
  }

  /** Two lookups that both hit: two rows, the characters of both matched. */
  lemma SweepTwoHits(looks: seq<Option<Row>>, r0: Row, r1: Row)
    requires looks == [Some(r0), Some(r1)]
    ensures Sweep(looks, |looks|) == Completed([r0, r1], |r0.text| + |r1.text|, 2)
  {
    assert Found<Row>([]) == [];
    FoundAppend([], Some(r0));
    assert [] + [Some(r0)] == [Some(r0)];
    FoundAppend([Some(r0)], Some(r1));
    assert [Some(r0)] + [Some(r1)] == looks;
    assert Found(looks) == [r0, r1];
    CoveredAppend([], r0);
    CoveredAppend([r0], r1);
    assert [] + [r0] == [r0] && [r0] + [r1] == [r0, r1];
  }

  /** A reported window holds at most `maxlen` characters and its byte span holds exactly its bytes. */
  lemma WindowRowBytes(text: string, maxlen: nat, k: nat, row: Row)
    requires SpansWindow(text, maxlen, k, row)
    ensures 1 <= |row.text| <= maxlen
    ensures row.begin < row.end <= |Encode(text)|
    ensures Encode(text)[row.begin..row.end] == Encode(row.text)
  {
    WindowShape(text, maxlen, k, row);
    WindowBytes(text, k, k + |row.text|);
  }

  /** A spanned window is a non-empty run of at most `maxlen` characters of the text from character `k`. */
  lemma WindowShape(text: string, maxlen: nat, k: nat, row: Row)
    requires SpansWindow(text, maxlen, k, row)
    ensures 1 <= |row.text| <= maxlen && k + |row.text| <= |text|
    ensures row.text == text[k..k + |row.text|]
  {
  }

  /** The characters `k..e` have at least one byte each, and their bytes lie between the offsets of `k` and `e`. */
  lemma WindowBytes(text: string, k: nat, e: nat)
    requires k <= e <= |text|
    ensures Offset(text, k) + (e - k) <= Offset(text, e) <= |Encode(text)|
    ensures Encode(text)[Offset(text, k)..Offset(text, e)] == Encode(text[k..e])
  {
    EncodeSlice(text, k, e);
    OffsetMono(text, k, e);
  }
}
