/**
 * Lexicons: loading them from lines of a file, building the ordered
 * collection the matcher scans, and the first-match lookup every scanning
 * mode shares.
 */
module Lexicons {
  import opened Wrappers
  import opened Utf8

  /** A named set of entries (the source's `HashSet<String>` with its display name). */
  datatype Lexicon = Lexicon(name: string, entries: set<string>)

  /** The lines of one lexicon file as the line reader yields them; `None` is a line that could not be read. */
  datatype LexiconFile = LexiconFile(path: string, lines: seq<Option<string>>)

  /** One emitted match: the matched text, the lexicon reported for it and its byte span. */
  datatype Row = Row(text: string, lexicon: string, begin: nat, end: nat)

  /** The text of a line before its first tab (the whole line when it has none). */
  function FirstField(line: string): (f: string)
    ensures f <= line
    ensures '\t' !in f
    ensures |f| < |line| ==> line[|f|] == '\t'
  {
    if line == [] || line[0] == '\t' then []
    else [line[0]] + FirstField(line[1..])
  }

  /** The conditions above pin the first field down: no other prefix meets them. */
  lemma {:induction false} FirstFieldUnique(line: string, f: string)
    requires f <= line && '\t' !in f
    requires |f| < |line| ==> line[|f|] == '\t'
    ensures f == FirstField(line)
  {
    if f != [] {
      assert line[0] == f[0];
      FirstFieldUnique(line[1..], f[1..]);
    }
  }

  /** Whether line `i` of `lines` is readable and stores `e`. */
  predicate StoresEntry(lines: seq<Option<string>>, i: int, e: string)
    requires 0 <= i < |lines|
  {
    lines[i].Some? && e == FirstField(lines[i].value) && e != []
  }

  /**
   * The entries a lexicon file yields: for every readable line, its first
   * tab-separated field, unless that field is empty.
   */
  function ReadLexicon(lines: seq<Option<string>>): (lex: set<string>)
    ensures forall e :: e in lex <==> exists i :: 0 <= i < |lines| && StoresEntry(lines, i, e)
    ensures [] !in lex
  {
    if lines == [] then {}
    else
      var before := ReadLexicon(lines[..|lines| - 1]);
      var last := |lines| - 1;
      assert forall i, e :: 0 <= i < last ==> (StoresEntry(lines[..last], i, e) <==> StoresEntry(lines, i, e));
      match lines[last]
      case None => before
      case Some(line) =>
        var field := FirstField(line);
        if field != [] then
          assert StoresEntry(lines, last, field);
          before + {field}
        else before
  }

  /** Insert ad hoc queries into a lexicon, one after another. */
  function InsertQueries(entries: set<string>, queries: seq<string>): (r: set<string>)
    ensures forall e :: e in r <==> e in entries || e in queries
    decreases |queries|
  {
    if queries == [] then entries
    else InsertQueries(entries + {queries[0]}, queries[1..])
  }

  /** Read every lexicon file, naming each lexicon after its path. */
  function ReadAll(files: seq<LexiconFile>): (coll: seq<Lexicon>)
    ensures |coll| == |files|
    ensures forall i :: 0 <= i < |files| ==> coll[i] == Lexicon(files[i].path, ReadLexicon(files[i].lines))
  {
    if files == [] then []
    else [Lexicon(files[0].path, ReadLexicon(files[0].lines))] + ReadAll(files[1..])
  }

  /**
   * The ordered lexicon collection: one lexicon per file, or a single empty
   * lexicon named "custom" when no file is given; queries go into the first.
   */
  function BuildCollection(files: seq<LexiconFile>, queries: seq<string>): (coll: seq<Lexicon>)
    ensures |coll| == if files == [] then 1 else |files|
    ensures files == [] ==> coll[0].name == "custom" && coll[0].entries == set q | q in queries
    ensures files != [] ==>
              && coll[0].name == files[0].path
              && forall e :: e in coll[0].entries <==> e in ReadLexicon(files[0].lines) || e in queries
    ensures forall i :: 1 <= i < |files| ==> coll[i] == Lexicon(files[i].path, ReadLexicon(files[i].lines))
  {
    var base := if files == [] then [Lexicon("custom", {})] else ReadAll(files);
    base[0 := base[0].(entries := InsertQueries(base[0].entries, queries))]
  }

  /** Index of the first lexicon in order that contains `cand`. */
  function FirstIndex(coll: seq<Lexicon>, cand: string): (r: Option<nat>)
    ensures r.None? <==> forall i :: 0 <= i < |coll| ==> cand !in coll[i].entries
    ensures r.Some? ==> r.value < |coll| && cand in coll[r.value].entries
    ensures r.Some? ==> forall j :: 0 <= j < r.value ==> cand !in coll[j].entries
  {
    if coll == [] then None
    else if cand in coll[0].entries then Some(0)
    else match FirstIndex(coll[1..], cand)
      case None => None
      case Some(i) => Some(i + 1)
  }

  /** The name of the first lexicon in order that contains `cand`: the name a match is reported under. */
  function FirstMatch(coll: seq<Lexicon>, cand: string): (r: Option<string>)
    ensures r.None? <==> forall i :: 0 <= i < |coll| ==> cand !in coll[i].entries
    ensures r.Some? ==>
              exists i :: && 0 <= i < |coll| && cand in coll[i].entries && r.value == coll[i].name
                           && forall j :: 0 <= j < i ==> cand !in coll[j].entries
  {
    match FirstIndex(coll, cand)
    case None => None
    case Some(i) => Some(coll[i].name)
  }

  /**
   * The row printed for a span of text at `[begin, end)`: present exactly when
   * some lexicon contains the text, and then naming the first such lexicon.
   */
  function MatchRow(coll: seq<Lexicon>, text: string, begin: nat, end: nat): (r: Option<Row>)
    ensures r.None? <==> forall i :: 0 <= i < |coll| ==> text !in coll[i].entries
    ensures r.Some? ==> r.value.text == text && r.value.begin == begin && r.value.end == end
    ensures r.Some? ==> Some(r.value.lexicon) == FirstMatch(coll, text)
  {
    match FirstMatch(coll, text)
    case None => None
    case Some(name) => Some(Row(text, name, begin, end))
  }

  // ---------------------------------------------------------------------
  // Printing rows as lookups hit. Every mode looks candidates up one after
  // another and prints a row the moment a lookup hits.

  /** The rows (or other results) among a sequence of lookup results, in lookup order. */
  function Found<T>(looks: seq<Option<T>>): (rows: seq<T>)
    ensures |rows| <= |looks|
  {
    if looks == [] then []
    else
      var prev := Found(looks[..|looks| - 1]);
      match looks[|looks| - 1]
      case None => prev
      case Some(row) => prev + [row]
  }

  /** One more lookup result appends its row, if it has one. */
  lemma FoundAppend<T>(looks: seq<Option<T>>, x: Option<T>)
    ensures Found(looks + [x]) == if x.Some? then Found(looks) + [x.value] else Found(looks)
  {
    assert (looks + [x])[..|looks|] == looks;
  }

  /** Rows with strictly increasing begins. */
  predicate RowsIncrease(rows: seq<Row>) {
    forall i, i' :: 0 <= i < i' < |rows| ==> rows[i].begin < rows[i'].begin
  }

  /** The hits among the lookup results have strictly increasing begins. */
  predicate HitsIncrease(looks: seq<Option<Row>>) {
    forall j, j' :: 0 <= j < j' < |looks| && looks[j].Some? && looks[j'].Some? ==>
      looks[j].value.begin < looks[j'].value.begin
  }

  /** Every row printed is a hit among the lookup results. */
  lemma {:induction false} FoundSound<T>(looks: seq<Option<T>>)
    ensures forall i :: 0 <= i < |Found(looks)| ==>
              exists j :: 0 <= j < |looks| && looks[j] == Some(Found(looks)[i])
  {
    if looks != [] {
      var init := looks[..|looks| - 1];
      FoundSound(init);
      var prev := Found(init);
      var rows := Found(looks);
      assert rows == if looks[|looks| - 1].Some? then prev + [looks[|looks| - 1].value] else prev;
      forall i | 0 <= i < |rows|
        ensures exists j :: 0 <= j < |looks| && looks[j] == Some(rows[i])
      {
        if i < |prev| {
          var j :| 0 <= j < |init| && init[j] == Some(prev[i]);
          assert looks[j] == init[j];
        } else {
          assert looks[|looks| - 1] == Some(rows[i]);
        }
      }
    } else {
      assert Found(looks) == [];
    }
  }

  /** Without a hit nothing is printed. */
  lemma {:induction false} FoundNone<T>(looks: seq<Option<T>>)
    requires forall j :: 0 <= j < |looks| ==> looks[j].None?
    ensures Found(looks) == []
  {
    if looks != [] {
      FoundNone(looks[..|looks| - 1]);
    }
  }

  /** When every lookup hits, every one is printed. */
  lemma {:induction false} FoundAll<T>(looks: seq<Option<T>>)
    requires forall j :: 0 <= j < |looks| ==> looks[j].Some?
    ensures |Found(looks)| == |looks|
  {
    if looks != [] {
      FoundAll(looks[..|looks| - 1]);
    }
  }

  /** Every hit among the lookup results is printed. */
  lemma {:induction false} FoundComplete<T>(looks: seq<Option<T>>)
    ensures forall j :: 0 <= j < |looks| && looks[j].Some? ==> looks[j].value in Found(looks)
  {
    if looks != [] {
      var init := looks[..|looks| - 1];
      FoundComplete(init);
      forall j | 0 <= j < |looks| && looks[j].Some?
        ensures looks[j].value in Found(looks)
      {
        if j < |init| {
          assert init[j] == looks[j];
        }
      }
    }
  }

  /** Strictly increasing indices. */
  predicate StrictlyIncreasing(idx: seq<nat>) {
    forall k, k' :: 0 <= k < k' < |idx| ==> idx[k] < idx[k']
  }

  /**
   * The positions of the hits among the lookup results: the `k`th printed row
   * is the hit at `idx[k]`, the positions increase, and every hit has one.
   * So every hit is printed exactly once, in lookup order.
   */
  function HitIndices<T>(looks: seq<Option<T>>): (idx: seq<nat>)
    ensures |idx| == |Found(looks)|
    ensures forall k :: 0 <= k < |idx| ==> idx[k] < |looks| && looks[idx[k]] == Some(Found(looks)[k])
    ensures StrictlyIncreasing(idx)
    ensures forall j :: 0 <= j < |looks| && looks[j].Some? ==> j in idx
  {
    if looks == [] then []
    else
      var init := looks[..|looks| - 1];
      var last := looks[|looks| - 1];
      var prev := HitIndices(init);
      HitIndicesStep(looks, init, prev);
      if last.Some? then prev + [|looks| - 1] else prev
  }

  /** One more lookup result extends the hit positions of the earlier ones. */
  lemma HitIndicesStep<T>(looks: seq<Option<T>>, init: seq<Option<T>>, prev: seq<nat>)
    requires looks != [] && init == looks[..|looks| - 1]
    requires |prev| == |Found(init)|
    requires forall k :: 0 <= k < |prev| ==> prev[k] < |init| && init[prev[k]] == Some(Found(init)[k])
    requires StrictlyIncreasing(prev)
    requires forall j :: 0 <= j < |init| && init[j].Some? ==> j in prev
    ensures var last := looks[|looks| - 1];
            var idx := if last.Some? then prev + [|looks| - 1] else prev;
            && |idx| == |Found(looks)|
            && (forall k :: 0 <= k < |idx| ==> idx[k] < |looks| && looks[idx[k]] == Some(Found(looks)[k]))
            && StrictlyIncreasing(idx)
            && (forall j :: 0 <= j < |looks| && looks[j].Some? ==> j in idx)
  {
    var last := looks[|looks| - 1];
    var n := |looks| - 1;
    assert looks == init + [last];
    FoundAppend(init, last);
    var rows := Found(looks);
    var before := Found(init);
    if last.Some? {
      var idx := prev + [n];
      assert rows == before + [last.value];
      forall k | 0 <= k < |idx| ensures idx[k] < |looks| && looks[idx[k]] == Some(rows[k]) {
        if k < |prev| {
          assert idx[k] == prev[k] && looks[prev[k]] == init[prev[k]] && rows[k] == before[k];
        }
      }
      forall k, k' | 0 <= k < k' < |idx| ensures idx[k] < idx[k'] {
        if k' < |prev| {
          assert idx[k] == prev[k] && idx[k'] == prev[k'];
        } else {
          assert idx[k] == prev[k] < |init|;
        }
      }
      forall j | 0 <= j < |looks| && looks[j].Some? ensures j in idx {
        if j < n {
          assert init[j] == looks[j];
          assert j in prev;
        } else {
          assert idx[|prev|] == j;
        }
      }
    } else {
      assert rows == before;
      forall k | 0 <= k < |prev| ensures prev[k] < |looks| && looks[prev[k]] == Some(rows[k]) {
        assert looks[prev[k]] == init[prev[k]];
      }
      forall j | 0 <= j < |looks| && looks[j].Some? ensures j in prev {
        assert j < n;
        assert init[j] == looks[j];
      }
    }
  }

  /** Rows keep the order of the hits. */
  lemma {:induction false} FoundOrdered(looks: seq<Option<Row>>)
    requires HitsIncrease(looks)
    ensures RowsIncrease(Found(looks))
  {
    if looks != [] {
      var init := looks[..|looks| - 1];
      var last := looks[|looks| - 1];
      assert HitsIncrease(init);
      FoundOrdered(init);
      FoundSound(init);
      var prev := Found(init);
      if last.Some? {
        forall i | 0 <= i < |prev| ensures prev[i].begin < last.value.begin {
          var j :| 0 <= j < |init| && init[j] == Some(prev[i]);
          assert looks[j] == init[j];
        }
        assert Found(looks) == prev + [last.value];
      }
    }
  }
}
