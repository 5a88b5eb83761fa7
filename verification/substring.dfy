/**
 * Substring mode: every lexicon entry is looked up in a suffix table of the
 * text's bytes; its raw hits are optionally narrowed to "exact" hits by
 * inspecting the byte on either side, and the entry is reported when its
 * hit count reaches the frequency threshold.
 */
module SubstringMode {
  import opened Wrappers
  import opened Utf8
  import opened Lexicons

  /** Offsets are `u32`: texts of 4 GiB or more are outside the model. */
  const U32Limit: nat := 0x1_0000_0000

  /** `pat` occurs in `bytes` at offset `p`. */
  predicate Occurs(bytes: seq<byte>, pat: seq<byte>, p: nat) {
    p + |pat| <= |bytes| && bytes[p..p + |pat|] == pat
  }

  /** Every raw hit may be looked at by the filter: none lies past the end of the text. */
  predicate AllWithin(bytes: seq<byte>, positions: seq<nat>) {
    forall i :: 0 <= i < |positions| ==> positions[i] <= |bytes|
  }

  /** Every raw hit of a pattern of `len` bytes lies inside the text, as the suffix table guarantees. */
  predicate InText(bytes: seq<byte>, len: nat, positions: seq<nat>) {
    forall i :: 0 <= i < |positions| ==> positions[i] + len <= |bytes|
  }

  /** There is no byte before offset `p`, or that byte, read as a Latin-1 character, is not alphanumeric. */
  predicate ClearBefore(bytes: seq<byte>, p: nat, alnum: Classifier)
    requires p <= |bytes|
  {
    p == 0 || !alnum(bytes[p - 1] as char)
  }

  /** There is no byte after the hit, or that byte, read as a Latin-1 character, is not alphanumeric. */
  predicate ClearAfter(bytes: seq<byte>, p: nat, len: nat, alnum: Classifier) {
    p + len >= |bytes| || !alnum(bytes[p + len] as char)
  }

  /** A hit of `len` bytes at `p` is exact: it is not glued to an alphanumeric byte on either side. */
  predicate IsExactHit(bytes: seq<byte>, p: nat, len: nat, alnum: Classifier)
    requires p <= |bytes|
  {
    ClearBefore(bytes, p, alnum) && ClearAfter(bytes, p, len, alnum)
  }

  /**
   * The exact-match filter: keeps only exact hits, in their original order.
   * `ExactFilterKeepsExactHits` shows that none is lost.
   */
  function ExactFilter(bytes: seq<byte>, positions: seq<nat>, len: nat, alnum: Classifier): (kept: seq<nat>)
    requires AllWithin(bytes, positions)
    ensures IsSubsequence(kept, positions)
    ensures forall i :: 0 <= i < |kept| ==> kept[i] <= |bytes| && IsExactHit(bytes, kept[i], len, alnum)
  {
    if positions == [] then []
    else
      var p := positions[0];
      var rest := ExactFilter(bytes, positions[1..], len, alnum);
      if IsExactHit(bytes, p, len, alnum) then
        assert ([p] + rest)[1..] == rest;
        [p] + rest
      else
        rest
  }

  /**
   * The filter keeps every exact hit as often as the suffix table reports it
   * and drops every other one, so the exact count never exceeds the raw count.
   */
  lemma {:induction false} ExactFilterKeepsExactHits(bytes: seq<byte>, positions: seq<nat>, len: nat, alnum: Classifier)
    requires AllWithin(bytes, positions)
    ensures forall p: nat :: p in positions ==>
              multiset(ExactFilter(bytes, positions, len, alnum))[p] ==
                if p <= |bytes| && IsExactHit(bytes, p, len, alnum) then multiset(positions)[p] else 0
    ensures |ExactFilter(bytes, positions, len, alnum)| <= |positions|
  {
    var kept: seq<nat> := ExactFilter(bytes, positions, len, alnum);
    SubsequenceBounds(kept, positions);
    if positions != [] {
      var p0: nat := positions[0];
      var tail := positions[1..];
      var rest: seq<nat> := ExactFilter(bytes, tail, len, alnum);
      ExactFilterKeepsExactHits(bytes, tail, len, alnum);
      SubsequenceBounds(rest, tail);
      assert positions == [p0] + tail;
      assert multiset(positions) == multiset{p0} + multiset(tail);
      forall p: nat | p in positions
        ensures multiset(kept)[p] == if p <= |bytes| && IsExactHit(bytes, p, len, alnum) then multiset(positions)[p] else 0
      {
        if p !in tail {
          assert p == p0;
          assert multiset(rest)[p] == 0;
        }
      }
    }
  }

  /** Which flags shape a substring-mode report. */
  datatype ScanOptions = ScanOptions(all: bool, verbose: bool, countOnly: bool, threshold: nat)

  /** What is printed for one entry. */
  datatype Report =
    | Occurrences(rows: seq<Row>)   // --verbose: one row per hit
    | Tally(entry: string, lexicon: string, count: nat, offsets: seq<nat>)  // offsets are empty under --count-only

  /** The hits an entry is counted by: the raw ones under --all, the exact ones otherwise. */
  function Hits(bytes: seq<byte>, entry: string, positions: seq<nat>, all: bool, alnum: Classifier): (hits: seq<nat>)
    requires AllWithin(bytes, positions)
    ensures IsSubsequence(hits, positions)
    ensures |hits| <= |positions|
    ensures all ==> hits == positions
    ensures !all ==> forall p: nat {:trigger multiset(hits)[p]} :: p in positions ==>
      multiset(hits)[p] == if IsExactHit(bytes, p, |Encode(entry)|, alnum) then multiset(positions)[p] else 0
  {
    if all then
      assert IsSubsequence(positions, positions) by { SubsequenceRefl(positions); }
      positions
    else
      var kept := ExactFilter(bytes, positions, |Encode(entry)|, alnum);
      SubsequenceBounds(kept, positions);
      ExactFilterKeepsExactHits(bytes, positions, |Encode(entry)|, alnum);
      kept
  }

  /** Hits are raw hits, so each lies inside the text with room for the entry's bytes. */
  lemma HitsInText(bytes: seq<byte>, entry: string, positions: seq<nat>, all: bool, alnum: Classifier)
    requires InText(bytes, |Encode(entry)|, positions)
    ensures forall i :: 0 <= i < |Hits(bytes, entry, positions, all, alnum)| ==>
              Hits(bytes, entry, positions, all, alnum)[i] + |Encode(entry)| <= |bytes|
  {
    var hits := Hits(bytes, entry, positions, all, alnum);
    SubsequenceBounds(hits, positions);
    forall i | 0 <= i < |hits| ensures hits[i] + |Encode(entry)| <= |bytes| {
      assert hits[i] in positions;
    }
  }

  /**
   * The report for one entry of a lexicon, given its raw hits from the suffix
   * table: present exactly when the hit count reaches the threshold; in
   * verbose form one row per hit whose span is as long as the entry's bytes.
   */
  function ReportEntry(bytes: seq<byte>, lexicon: string, entry: string, positions: seq<nat>,
                       opts: ScanOptions, alnum: Classifier): (r: Option<Report>)
    requires |bytes| < U32Limit
    requires InText(bytes, |Encode(entry)|, positions)
    ensures r.Some? <==> |Hits(bytes, entry, positions, opts.all, alnum)| >= opts.threshold
    ensures opts.threshold == 0 ==> r.Some?
    ensures r.Some? && opts.verbose ==>
              && r.value.Occurrences?
              && |r.value.rows| == |Hits(bytes, entry, positions, opts.all, alnum)|
              && forall i :: 0 <= i < |r.value.rows| ==>
                   var row := r.value.rows[i];
                   && row.text == entry && row.lexicon == lexicon
                   && row.begin == Hits(bytes, entry, positions, opts.all, alnum)[i]
                   && row.end == row.begin + |Encode(entry)| <= |bytes|
    ensures r.Some? && !opts.verbose ==>
              && r.value.Tally?
              && r.value.entry == entry && r.value.lexicon == lexicon
              && r.value.count == |Hits(bytes, entry, positions, opts.all, alnum)|
              && r.value.offsets == if opts.countOnly then [] else Hits(bytes, entry, positions, opts.all, alnum)
  {
    HitsInText(bytes, entry, positions, opts.all, alnum);
    ReportOf(entry, lexicon, Hits(bytes, entry, positions, opts.all, alnum), |Encode(entry)|, |bytes|, opts)
  }

  /** The report for an entry of `len` bytes counted by `hits`, each of which lies inside a text of `size` bytes. */
  function ReportOf(entry: string, lexicon: string, hits: seq<nat>, len: nat, size: nat, opts: ScanOptions): (r: Option<Report>)
    requires forall i :: 0 <= i < |hits| ==> hits[i] + len <= size
    ensures r.Some? <==> |hits| >= opts.threshold
    ensures r.Some? && opts.verbose ==>
              && r.value.Occurrences?
              && |r.value.rows| == |hits|
              && forall i :: 0 <= i < |r.value.rows| ==>
                   var row := r.value.rows[i];
                   && row.text == entry && row.lexicon == lexicon
                   && row.begin == hits[i] && row.end == row.begin + len <= size
    ensures r.Some? && !opts.verbose ==>
              && r.value.Tally?
              && r.value.entry == entry && r.value.lexicon == lexicon
              && r.value.count == |hits|
              && r.value.offsets == if opts.countOnly then [] else hits
  {
    if |hits| < opts.threshold then None
    else if opts.verbose then
      Some(Occurrences(seq(|hits|, i requires 0 <= i < |hits| => Row(entry, lexicon, hits[i], hits[i] + len))))
    else
      Some(Tally(entry, lexicon, |hits|, if opts.countOnly then [] else hits))
  }

  /** Each entry of `order` is listed once: the iteration order of a hash set. */
  ghost predicate Enumerates(order: seq<string>, entries: set<string>) {
    && (forall e :: e in order <==> e in entries)
    && forall i, j :: 0 <= i < j < |order| ==> order[i] != order[j]
  }

  /** The raw hits the suffix table reports for every possible entry lie inside the text. */
  ghost predicate IndexInText(bytes: seq<byte>, index: string -> seq<nat>) {
    forall e: string :: InText(bytes, |Encode(e)|, index(e))
  }

  /** The report, if any, of each entry of `order`, in order. */
  function EntryReports(bytes: seq<byte>, lexicon: string, order: seq<string>, index: string -> seq<nat>,
                        opts: ScanOptions, alnum: Classifier): (looks: seq<Option<Report>>)
    requires |bytes| < U32Limit
    requires IndexInText(bytes, index)
    ensures |looks| == |order|
    ensures forall i :: 0 <= i < |order| ==> looks[i] == ReportEntry(bytes, lexicon, order[i], index(order[i]), opts, alnum)
  {
    seq(|order|, i requires 0 <= i < |order| => ReportEntry(bytes, lexicon, order[i], index(order[i]), opts, alnum))
  }

  /**
   * `idx` lists, in increasing order, the positions in `order` of the entries
   * that have a report, and `reports` holds those reports in the same order:
   * each entry is reported at most once, and in iteration order.
   */
  ghost predicate ListsReports(bytes: seq<byte>, lexicon: string, order: seq<string>, index: string -> seq<nat>,
                               opts: ScanOptions, alnum: Classifier, reports: seq<Report>, idx: seq<nat>)
    requires |bytes| < U32Limit
    requires IndexInText(bytes, index)
  {
    && |idx| == |reports|
    && StrictlyIncreasing(idx)
    && (forall k :: 0 <= k < |idx| ==>
          && idx[k] < |order|
          && Some(reports[k]) == ReportEntry(bytes, lexicon, order[idx[k]], index(order[idx[k]]), opts, alnum))
    && (forall i :: 0 <= i < |order| && ReportEntry(bytes, lexicon, order[i], index(order[i]), opts, alnum).Some? ==>
          i in idx)
  }

  /** The hit positions of the per-entry reports list the collected reports. */
  lemma ReportsListed(bytes: seq<byte>, lexicon: string, order: seq<string>, index: string -> seq<nat>,
                      opts: ScanOptions, alnum: Classifier)
    requires |bytes| < U32Limit
    requires IndexInText(bytes, index)
    ensures var looks := EntryReports(bytes, lexicon, order, index, opts, alnum);
            ListsReports(bytes, lexicon, order, index, opts, alnum, Found(looks), HitIndices(looks))
  {
    var looks := EntryReports(bytes, lexicon, order, index, opts, alnum);
    var idx := HitIndices(looks);
    forall k | 0 <= k < |idx|
      ensures Some(Found(looks)[k]) == ReportEntry(bytes, lexicon, order[idx[k]], index(order[idx[k]]), opts, alnum)
    {
      assert looks[idx[k]] == Some(Found(looks)[k]);
    }
  }

  /**
   * Reports for the entries of one lexicon, in iteration order: the report of
   * every entry that has one, and nothing else.
   */
  function ScanLexicon(bytes: seq<byte>, lexicon: string, order: seq<string>, index: string -> seq<nat>,
                       opts: ScanOptions, alnum: Classifier): (reports: seq<Report>)
    requires |bytes| < U32Limit
    requires IndexInText(bytes, index)
    ensures |reports| <= |order|
    ensures opts.threshold == 0 ==> |reports| == |order|
    ensures forall k :: 0 <= k < |reports| ==>
              exists i :: 0 <= i < |order| && Some(reports[k]) == ReportEntry(bytes, lexicon, order[i], index(order[i]), opts, alnum)
    ensures forall i :: 0 <= i < |order| && ReportEntry(bytes, lexicon, order[i], index(order[i]), opts, alnum).Some? ==>
              ReportEntry(bytes, lexicon, order[i], index(order[i]), opts, alnum).value in reports
    ensures exists idx: seq<nat> :: ListsReports(bytes, lexicon, order, index, opts, alnum, reports, idx)
  {
    var looks := EntryReports(bytes, lexicon, order, index, opts, alnum);
    FoundSound(looks);
    FoundComplete(looks);
    ReportsListed(bytes, lexicon, order, index, opts, alnum);
    if opts.threshold == 0 then
      FoundAll(looks);
      Found(looks)
    else
      Found(looks)
  }

  function TotalEntries(order: seq<seq<string>>): nat {
    if order == [] then 0 else |order[0]| + TotalEntries(order[1..])
  }

  /**
   * Substring mode over the whole collection: the lexicons in order, each
   * entry of each lexicon on its own, with no de-duplication across lexicons.
   */
  function ScanLexicons(bytes: seq<byte>, coll: seq<Lexicon>, order: seq<seq<string>>, index: string -> seq<nat>,
                        opts: ScanOptions, alnum: Classifier): (reports: seq<Report>)
    requires |bytes| < U32Limit
    requires |order| == |coll|
    requires forall i :: 0 <= i < |coll| ==> Enumerates(order[i], coll[i].entries)
    requires IndexInText(bytes, index)
    ensures |reports| <= TotalEntries(order)
    ensures opts.threshold == 0 ==> |reports| == TotalEntries(order)
  {
    if coll == [] then []
    else
      ScanLexicon(bytes, coll[0].name, order[0], index, opts, alnum)
        + ScanLexicons(bytes, coll[1..], order[1..], index, opts, alnum)
  }

  /**
   * When the suffix table reports true occurrences, every verbose row's
   * byte span `[begin, end)` holds exactly the entry's UTF-8 bytes.
   */
  lemma RowsSpellEntry(bytes: seq<byte>, lexicon: string, entry: string, positions: seq<nat>,
                       opts: ScanOptions, alnum: Classifier)
    requires |bytes| < U32Limit
    requires forall i :: 0 <= i < |positions| ==> Occurs(bytes, Encode(entry), positions[i])
    requires opts.verbose
    ensures InText(bytes, |Encode(entry)|, positions)
    ensures var r := ReportEntry(bytes, lexicon, entry, positions, opts, alnum);
            r.Some? ==> forall i :: 0 <= i < |r.value.rows| ==>
                          var row := r.value.rows[i];
                          row.begin <= row.end <= |bytes| && bytes[row.begin..row.end] == Encode(entry)
  {
    var r := ReportEntry(bytes, lexicon, entry, positions, opts, alnum);
    var hits := Hits(bytes, entry, positions, opts.all, alnum);
    SubsequenceBounds(hits, positions);
    if r.Some? {
      forall i | 0 <= i < |r.value.rows|
        ensures r.value.rows[i].begin <= r.value.rows[i].end <= |bytes|
        ensures bytes[r.value.rows[i].begin..r.value.rows[i].end] == Encode(entry)
      {
        assert r.value.rows[i].begin == hits[i];
        assert hits[i] in positions;
        var j :| 0 <= j < |positions| && positions[j] == hits[i];
        assert Occurs(bytes, Encode(entry), positions[j]);
      }
    }
  }

  /**
   * When the raw hits are exactly the occurrences of a pattern, the exact
   * hits are exactly the occurrences not glued to an alphanumeric byte.
   */
  lemma ExactHitsAreWholeWords(bytes: seq<byte>, pat: seq<byte>, positions: seq<nat>, alnum: Classifier)
    requires forall p: nat :: p in positions <==> Occurs(bytes, pat, p)
    ensures AllWithin(bytes, positions)
    ensures forall p: nat :: p in ExactFilter(bytes, positions, |pat|, alnum) <==>
              Occurs(bytes, pat, p) && IsExactHit(bytes, p, |pat|, alnum)
  {
    assert AllWithin(bytes, positions) by {
      forall i | 0 <= i < |positions| ensures positions[i] <= |bytes| {
        assert positions[i] in positions;
      }
    }
    var kept := ExactFilter(bytes, positions, |pat|, alnum);
    ExactFilterKeepsExactHits(bytes, positions, |pat|, alnum);
    SubsequenceBounds(kept, positions);
    forall p: nat | p in kept ensures Occurs(bytes, pat, p) && IsExactHit(bytes, p, |pat|, alnum) {
      var i :| 0 <= i < |kept| && kept[i] == p;
    }
    forall p: nat | Occurs(bytes, pat, p) && IsExactHit(bytes, p, |pat|, alnum) ensures p in kept {
      ExactHitKept(bytes, positions, |pat|, alnum, p);
    }
  }

  /** An exact raw hit survives the filter. */
  lemma ExactHitKept(bytes: seq<byte>, positions: seq<nat>, len: nat, alnum: Classifier, p: nat)
    requires AllWithin(bytes, positions)
    requires p in positions && p <= |bytes| && IsExactHit(bytes, p, len, alnum)
    ensures p in ExactFilter(bytes, positions, len, alnum)
  {
    var kept: seq<nat> := ExactFilter(bytes, positions, len, alnum);
    ExactFilterKeepsExactHits(bytes, positions, len, alnum);
    assert multiset(kept)[p] == multiset(positions)[p];
  }

  /**
   * The filter reads single bytes, so a multi-byte neighbour can look
   * alphanumeric: in "«cat»" the byte after "cat" is the lead byte 0xC2 of
   * '»', which read as Latin-1 is 'Â'. Under any classifier that, like
   * Unicode, calls 'Â' alphanumeric, the free-standing "cat" is dropped
   * although neither neighbouring character is alphanumeric.
   */
  lemma MultiByteNeighbourBlocksHit(alnum: Classifier)
    requires alnum('\U{C2}')
    ensures Encode("\U{AB}cat\U{BB}") == [0xC2, 0xAB, 'c' as int, 'a' as int, 't' as int, 0xC2, 0xBB]
    ensures Occurs(Encode("\U{AB}cat\U{BB}"), Encode("cat"), 2)
    ensures ExactFilter(Encode("\U{AB}cat\U{BB}"), [2], |Encode("cat")|, alnum) == []
  {
    var text := "\U{AB}cat\U{BB}";
    assert text[1..] == "cat\U{BB}";
    assert text[1..][1..] == "at\U{BB}";
    assert text[1..][1..][1..] == "t\U{BB}";
    assert text[1..][1..][1..][1..] == "\U{BB}";
    assert Encode("\U{BB}") == [0xC2, 0xBB];
    assert "cat"[1..] == "at" && "at"[1..] == "t" && "t"[1..] == "";
    assert Encode("cat") == ['c' as int, 'a' as int, 't' as int];
  }
}
