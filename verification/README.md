# lexmatch matching engine in Dafny

lexmatch matches the entries of one or more lexicons against a UTF-8 text in one of three ways:

- **Substring mode** (the default) takes every entry's byte occurrences from a suffix table. It keeps the "exact" ones unless `--all` is given. An entry is reported when its hit count reaches the `--freq` threshold.
- **Token mode** (`--tokens`) splits the text into maximal runs of alphanumeric characters. It looks each run up in the lexicons, in order.
- **Greedy window mode** (`--cjk N`) is meant to look up, at every character start, the longest window of at most `N` characters. As written it loops over bytes, slices with an end measured from the start byte, and panics off character boundaries, so it finishes only when `N` is 0 or the text is at most two one-byte characters (see "## Findings").

In token and window modes a lookup reports only the first lexicon that contains the candidate. Substring mode scans each lexicon in turn and reports an entry under every lexicon that holds it. Rows carry UTF-8 byte offsets.

The model follows `src/main.rs` of lexmatch 0.3:

| file | module | what it holds |
|---|---|---|
| `wrappers.dfy` | `Wrappers` | `Option`, `Result`, order-preserving subsequence |
| `utf8.dfy` | `Utf8` | UTF-8 image of a text, character/byte offset correspondence, char boundaries |
| `lexicons.dfy` | `Lexicons` | reading a lexicon file, building the collection, first-match lookup, the rows printed as lookups hit |
| `options.dfy` | `Options` | `usize` parsing and the checks made before scanning |
| `substring.dfy` | `SubstringMode` | exact-hit filter, threshold and report shape |
| `tokens.dfy` | `TokenMode` | the token scanner, its counters, and a reference definition of maximal runs |
| `windows.dfy` | `WindowMode` | the window scan as the program runs it, and the scan it evidently intends |

Texts are `seq<char>`, and `Utf8.Encode` gives their UTF-8 bytes. Rust's `char::is_alphanumeric` is a parameter of type `Classifier`. `Utf8.AsciiAlnum` is used in the worked examples.

Some facts about lexmatch 0.3 that the model keeps:

- it strips no trailing newline from the text;
- it has no minimum token length;
- it does not skip digit-only tokens;
- it does no case folding;
- in token and window modes it reports no per-lexicon membership vector, only the first lexicon that holds a candidate;
- its `--freq` rule for `--tokens`/`--cjk` compares the option's text with `"1"`, not the parsed value;
- it parses the threshold before making any other check.

In window mode the matched-character count adds up overlapping windows, so it can exceed the character total (`WindowMode.CoverageCanExceedTotal`).

## Model

| member | source | states |
|---|---|---|
| Lexicons.FirstField | src/main.rs:20 | the stored field is the part of the line before its first tab: a tab-free prefix that is followed by a tab or ends the line |
| Lexicons.FirstFieldUnique | src/main.rs:20 | those conditions single out one prefix, so they characterise `split("\t").next()` completely |
| Lexicons.ReadLexicon | src/main.rs:13-27 | a string is in the lexicon iff some readable line has it as its non-empty first field; unreadable lines and empty fields add nothing |
| Lexicons.InsertQueries | src/main.rs:148-153 | after inserting the queries, the set holds exactly the old entries plus every query |
| Lexicons.ReadAll | src/main.rs:130-146 | one lexicon per `--lexicon` path, in order, named by its path and holding what its file yields |
| Lexicons.BuildCollection | src/main.rs:130-153 | with no lexicon files there is one lexicon "custom" holding exactly the queries; otherwise one per file, with the queries added to the first and the others untouched |
| Lexicons.FirstIndex | src/main.rs:189-194 | None iff no lexicon contains the candidate; otherwise the least index of a lexicon that contains it |
| Lexicons.FirstMatch | src/main.rs:189-194 | None iff no lexicon contains the candidate; otherwise the name of the first lexicon that contains it |
| Lexicons.MatchRow | src/main.rs:187-206 | a row is emitted iff some lexicon contains the text; it carries the text, the given offsets and the first matching lexicon |
| Options.ParseUsize | src/main.rs:109-113 | a successful parse gives a value that fits in `usize`, from text that is an optional '+', zero or more '0's and then exactly the value's decimal digits |
| Options.ParseUsizeSpells | src/main.rs:109-113 | a string parses to `n` iff `n` fits in `usize` and the string is an optional '+', leading zeros and the decimal digits of `n` |
| Options.DigitsSpelling | src/main.rs:109-113 | a non-empty digit string is its value's shortest decimal spelling behind some leading zeros |
| Options.ZerosValue | src/main.rs:109-113 | leading zeros do not change a digit string's value |
| Options.ParseDecimal | src/main.rs:109-113 | every `usize` printed in decimal parses back to itself, with or without a leading '+' |
| Options.Validate | src/main.rs:109-128 | the option set is accepted iff the threshold parses and all three rules hold; the threshold error occurs iff it does not parse; each other error occurs only when its own rule is broken and the earlier checks passed; success yields the threshold, which is 1 under `--tokens`/`--cjk` |
| Options.SpelledOneRejected | src/main.rs:125-128 | "01" and "+1" parse to 1 but are still rejected with `--tokens`, because the rule compares text |
| SubstringMode.ExactFilter | src/main.rs:328-353 | keeps a subsequence of the raw hits, order included; every kept hit has no alphanumeric byte (read as Latin-1) right before it or right after the entry |
| SubstringMode.ExactFilterKeepsExactHits | src/main.rs:335-353 | the filter keeps every exact hit as often as the table reports it and drops every other hit: the kept multiset is the raw one restricted to exact hits |
| SubstringMode.ExactHitKept | src/main.rs:335-353 | any raw hit that is exact survives the filter |
| SubstringMode.ExactHitsAreWholeWords | src/main.rs:328-353 | when the raw hits are the pattern's occurrences, the kept hits are exactly the occurrences not glued to an alphanumeric byte |
| SubstringMode.MultiByteNeighbourBlocksHit | src/main.rs:339-350 | reading one byte as a char misjudges multi-byte neighbours: in "«cat»" the free-standing "cat" is dropped under any classifier that calls 'Â' alphanumeric |
| SubstringMode.Hits | src/main.rs:298-353 | the counted hits are an order-preserving subsequence of the raw hits: exactly the raw hits under `--all`; otherwise every exact raw hit as often as the table reports it and no other hit |
| SubstringMode.ReportEntry | src/main.rs:294-384 | an entry is reported iff its hit count reaches the threshold, always when it is 0; verbose gives one row per hit with `end = begin + byte length` inside the text; otherwise it gives the count with the offsets, or with none under `--count-only` |
| SubstringMode.ReportOf | src/main.rs:298-384 | given the counted hits: a report iff their number reaches the threshold; verbose rows one per hit in order with `end = begin + length` inside the text; otherwise the count with the hits, or none under `--count-only` |
| SubstringMode.RowsSpellEntry | src/main.rs:355-366 | when the table reports true occurrences, every verbose row's byte span holds exactly the entry's UTF-8 bytes |
| SubstringMode.ScanLexicon | src/main.rs:294-295 | the reports are those of the entries that have one, each exactly once and in iteration order (an increasing list of entry positions pairs them up); exactly one per entry at threshold 0 |
| SubstringMode.ReportsListed | src/main.rs:294-295 | the positions of the entries with a report list the collected reports one to one, in order |
| SubstringMode.ScanLexicons | src/main.rs:293-295 | the collection is scanned lexicon by lexicon with no de-duplication: as many reports as entries at threshold 0, never more |
| TokenMode.Segment | src/main.rs:183-212 | after any prefix of the text the open token is alphanumeric, every closed candidate is a non-empty alphanumeric word, and there are no more candidates (closed and open) than characters read |
| TokenMode.Candidates | src/main.rs:183-234 | every candidate looked up is a non-empty alphanumeric word, and there are no more of them than characters |
| TokenMode.CandidateRow | src/main.rs:189-224 | a candidate yields a row iff some lexicon contains its token; the row carries the token, the candidate's begin, `end = begin + ` the token's byte length, and the first lexicon holding it |
| TokenMode.CandidatesAreRuns | src/main.rs:179-234 | the candidates the loop looks up are the text's maximal alphanumeric runs, in text order, one each, including a final run that no delimiter closes |
| TokenMode.RunsAreMaximal | src/main.rs:183-212 | the reference list holds every maximal run once, in order, and nothing else |
| TokenMode.BeginNextByte | src/main.rs:207-210 | with `begin = i + 1` a run's begin falls short of its true offset by the delimiter's width minus one; it is correct iff the run starts the text or follows a one-byte delimiter |
| TokenMode.BeginNextChar | src/main.rs:207-210 | moving `begin` past the whole delimiter puts it on the run's first byte |
| TokenMode.BeginOfMono | src/main.rs:183-210 | later runs get strictly later begins, under either rule |
| Lexicons.FoundSound | src/main.rs:187-206 | every printed row is a hit among the lookup results |
| Lexicons.FoundComplete | src/main.rs:187-206 | every hit among the lookup results is printed |
| Lexicons.FoundOrdered | src/main.rs:187-206 | when the hits' begins increase, so do the printed rows' |
| Lexicons.FoundNone | src/main.rs:187-206 | with no hit nothing is printed |
| Lexicons.HitIndices | src/main.rs:187-206 | the printed rows pair one to one, in order, with the positions of the hits: the positions strictly increase and every hit has one |
| Lexicons.FoundAll | src/main.rs:294-300 | when every lookup hits, as every entry does at threshold 0, every one is printed |
| Lexicons.Found | src/main.rs:187-206 | the rows printed as lookups hit, in lookup order: never more rows than lookups |
| TokenMode.Tally | src/main.rs:181-234 | `totalcount` counts every lookup, the rows are exactly the hits in order, and `matchcount` counts the rows |
| TokenMode.Emit | src/main.rs:186-234 | `totalcount` is the number of candidates; `matchcount` is the number of rows, never more than the total |
| TokenMode.EmitRowsFromCandidates | src/main.rs:187-206 | every row is the row of some candidate |
| TokenMode.EmitRowsComplete | src/main.rs:187-206 | every candidate that some lexicon contains gets its row |
| TokenMode.EmitRowsOrdered | src/main.rs:187-206 | rows keep the candidates' order of begins |
| TokenMode.CandidateBeginsIncrease | src/main.rs:183-210 | the candidates' begins strictly increase |
| TokenMode.TokenScan | src/main.rs:178-242 | the coverage denominator is the number of maximal runs, and the numerator never exceeds it |
| TokenMode.TokenScanExact | src/main.rs:178-242 | the same counters under the corrected begin rule |
| TokenMode.TokenRowsAreRuns | src/main.rs:183-234 | every row reports a maximal run under its first matching lexicon, with `end - begin` the token's byte length; rows are in text order |
| TokenMode.TokenRunsAreReported | src/main.rs:183-234 | every maximal run that some lexicon contains is reported |
| TokenMode.ExactRowSpellsToken | src/main.rs:197-208 | under the corrected rule a row's byte span holds exactly its token's bytes |
| TokenMode.AsWrittenRowSpan | src/main.rs:197-208 | under the program's rule a row's begin is the token's first byte iff the token starts the text or follows a one-byte delimiter, and then its span holds exactly the token |
| TokenMode.MultiByteDelimiterShiftsOffsets | src/main.rs:207-208 | "«a" with lexicon {"a"} gives the row `a 1 2`, whose bytes are not "a"; the corrected rule gives `a 2 3` |
| WindowMode.Window | src/main.rs:251-252 | the window at a start is the text's own characters from that start: `maxlen` of them, or all that is left of the text |
| WindowMode.ProbeAsWritten | src/main.rs:251-262 | one byte's iteration looks nothing up iff `maxlen` is 0; it panics when the byte is not a character boundary; a looked-up pattern is reported from that byte, and its span holds exactly the pattern's bytes |
| WindowMode.ProbeRow | src/main.rs:255-262 | a probe prints a row iff it looks up a pattern some lexicon contains; the row carries the pattern, the probe's offsets and the first lexicon holding it |
| WindowMode.ProbeLooksAt | src/main.rs:250-262 | the lookup results of the first `m` bytes are the rows of their probes, byte by byte |
| WindowMode.Run | src/main.rs:250-277 | the byte loop finishes iff no probe aborts; otherwise it panics at the first aborting byte; the rows printed are exactly the hits of the probes before the panic (or of all probes), in byte order; on completion the match count is the characters those rows cover |
| WindowMode.WindowScanAsWritten | src/main.rs:243-287 | the mode as the program runs it finishes iff no byte's probe aborts, with the character count as total, otherwise it panics at the first byte whose probe aborts; its rows are the hits of the probes it ran, in order, and its match count the characters they cover |
| WindowMode.LookThenAbort | src/main.rs:250-262 | a hitting probe followed by an aborting one prints the one row and panics at the second byte |
| WindowMode.AsWrittenCompletesIff | src/main.rs:250-277 | as written, the mode finishes iff `maxlen` is 0 or the text is at most two one-byte characters |
| WindowMode.InsideCharAborts | src/main.rs:250-252 | the probe at the second byte of a multi-byte character panics, because `text[begin..]` is not on a boundary |
| WindowMode.LastByteAborts | src/main.rs:252-254 | with three or more bytes, the probe at the last byte panics: the one-char window's relative end 1 lies before `begin` |
| WindowMode.ProbeAgreesOnlyAtStart | src/main.rs:252-254 | at a character start, the probe looks up the intended window at the intended offsets iff that start is the first character |
| WindowMode.AsciiProbe | src/main.rs:252-254 | on one-byte text the probe at `b` looks up `text[b..l]` (`l` the window length) when `b <= l` and panics otherwise |
| WindowMode.RelativeEndScenario | src/main.rs:250-276 | "ABCD", {"AB", "ABC"}, `--cjk 3`: byte 1 looks up "BC", not "BCD"; the run panics at byte 3 after printing `ABC 0 3` |
| WindowMode.MultiByteScenario | src/main.rs:250-276 | "é" with {"é"} and `--cjk 1` prints `é 0 2` and then panics at byte 1; the intended scan finishes with that one row |
| WindowMode.WindowRow | src/main.rs:251-262 | a start gets a row iff `maxlen >= 1` and some lexicon contains its longest window; the row reports that window at its true byte offsets under the first lexicon holding it |
| WindowMode.Sweep | src/main.rs:250-276 | the loop's bookkeeping prints exactly the hits, in order, and its match count is the number of characters the printed windows cover, each window counted separately |
| WindowMode.WindowScan | src/main.rs:243-287 | the intended scan always finishes, with the character count as total, at most one row per character, and a match count equal to the characters its rows cover |
| WindowMode.WindowScanZero | src/main.rs:251 | with `--cjk 0` no window is looked up: no rows and no matched characters |
| WindowMode.WindowScanSound | src/main.rs:250-276 | every row is the row of the character that starts at its begin offset |
| WindowMode.WindowScanOrdered | src/main.rs:250-276 | rows come in strictly increasing byte order |
| WindowMode.WindowScanComplete | src/main.rs:250-276 | every start whose longest window some lexicon holds is reported |
| WindowMode.WindowScanRows | src/main.rs:250-276 | the three together: the rows are exactly the starts' rows, in byte order |
| WindowMode.WindowShape | src/main.rs:251-254 | a spanned window is a non-empty run of at most `maxlen` characters of the text from its start |
| WindowMode.WindowRowBytes | src/main.rs:252-254 | a reported window has between 1 and `maxlen` characters, and its byte span holds exactly its bytes |
| WindowMode.WindowBytes | src/main.rs:252-254 | the bytes between the offsets of characters `k` and `e` are exactly the encoding of those characters, at least one byte each |
| WindowMode.RelativeEndScenarioIntended | src/main.rs:250-276 | the intended scan of "ABCD" reports `ABC 0 3` alone and finishes with 3 matched characters out of 4 |
| WindowMode.LongestWindowOnly | src/main.rs:251-275 | only the longest window is looked up: in "ab" with `--cjk 2`, {"a"} yields no row |
| WindowMode.CoverageCanExceedTotal | src/main.rs:263-279 | overlapping windows make the matched count exceed the total: "aa" with {"aa", "a"} matches 3 characters out of 2 |

## Left out

- Command-line parsing with clap, the help texts and the header line are not modelled. The program's options arrive as an `Options.Args` value.
- Output formatting is not modelled. A row always carries its lexicon's name, whereas the program prints the lexicon column only with several lexicons and the file column only with several texts.
- Reading files and standard input is not modelled, so the I/O failures behind `expect` are left out. A lexicon file is given as its lines, where `None` is an unreadable line.
- Each text is scanned on its own, so the model scans one text.
- The suffix table is not modelled, because it is a foreign library. An entry's raw hits are the parameter `index`, in unspecified order, and are required to lie inside the text.
- The iteration order of a `HashSet` is not modelled. It is the parameter `order`, which lists each entry once.
- Rust's Unicode `is_alphanumeric` tables are not modelled. The classifier is a parameter.
- The `f64` coverage ratio is left out; only the two counters are modelled.
- The window mode's coverage line is printed inside the per-byte loop. That affects output only and is not modelled.
- In window mode the program adds to `matchcount` only under `--coverage`. The model always counts, because the value is unobservable otherwise.
- SubstringMode.ReportEntry: offsets are `u32`, so the model requires texts shorter than 4 GiB. The truncating `as u32` of an entry's byte length is not modelled, because no entry that long can occur in such a text.
- The `--cjk` value is parsed by `str::parse::<usize>`, which is `Options.ParseUsize`. The window scans take the parsed `maxlen`, and the panic on a bad value is not wired into them.
- SubstringMode.ScanLexicons: states only how many reports there are. The per-entry correspondence is stated one lexicon at a time by `SubstringMode.ScanLexicon`.
- TokenMode.TokenScan: the program's `matchcount` and `totalcount` are `i32`, which wrap or panic past 2^31 - 1 candidates. The model's counters are unbounded, so texts with 2^31 or more maximal runs are outside the model. The same holds for `TokenMode.TokenScanExact`.
- TokenMode.TokenScan: its own contract states the counters. The rows are characterised by `TokenMode.TokenRowsAreRuns` and `TokenMode.TokenRunsAreReported`.

## Findings

| source | as written | input that shows it | evidently intended | confidence | as-written member | corrected member |
|---|---|---|---|---|---|---|
| src/main.rs:250-252 | `for begin in 0..text.len()` slices `text[begin..]` at every byte, which panics inside a multi-byte character | "é" (bytes C3 A9) with `--cjk 1`: byte 1 is not a char boundary | start windows only at character boundaries | high, not executed | WindowMode.InsideCharAborts | WindowMode.WindowScan |
| src/main.rs:252-254 | `end` is measured from `begin` inside `text[begin..]` but used as an absolute offset in `&text[begin..end]` | "ABCD", {"AB", "ABC"}, `--cjk 3`: byte 1 looks up "BC"; byte 3 gives `text[3..1]` and panics | slice `text[begin..begin + end]` and report `begin + end` | high, not executed | WindowMode.RelativeEndScenario | WindowMode.WindowScanRows |
| src/main.rs:207-210 | after a delimiter at byte `i`, `begin = i + 1` | "«a" with lexicon {"a"} and `--tokens`: the program reports `a 1 2`, and bytes [1, 2) are the second byte of '«' | `begin = i + c.len_utf8()`, giving `a 2 3` | high, not executed | TokenMode.MultiByteDelimiterShiftsOffsets | TokenMode.ExactRowSpellsToken |
