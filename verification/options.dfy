/**
 * The command-line checks that run before any text is scanned, and the
 * unsigned integer parsing they rely on (Rust's `str::parse::<usize>`).
 */
module Options {
  import opened Wrappers

  /** Largest `usize` on a 64-bit target. */
  const UsizeMax: nat := 0xFFFF_FFFF_FFFF_FFFF

  predicate IsDigit(c: char) {
    '0' <= c <= '9'
  }

  predicate AllDigits(ds: string) {
    forall i :: 0 <= i < |ds| ==> IsDigit(ds[i])
  }

  /** The value of a string of decimal digits, most significant first. */
  function DigitsValue(ds: string): nat
    requires AllDigits(ds)
  {
    if ds == [] then 0
    else DigitsValue(ds[..|ds| - 1]) * 10 + (ds[|ds| - 1] as int - '0' as int)
  }

  /** The digits of a `usize` literal: the text after an optional leading '+'. */
  function Magnitude(s: string): string {
    if |s| > 0 && s[0] == '+' then s[1..] else s
  }

  /**
   * Rust's `str::parse::<usize>`: an optional '+', then one or more decimal
   * digits whose value fits in a `usize`; anything else is an error.
   */
  function ParseUsize(s: string): (r: Option<nat>)
    ensures r.Some? ==> r.value <= UsizeMax
    ensures r.Some? ==> |s| > 0 && (IsDigit(s[0]) || s[0] == '+')
    ensures r.Some? ==> Spells(s, r.value)
  {
    var ds := Magnitude(s);
    if ds != [] && AllDigits(ds) && DigitsValue(ds) <= UsizeMax then
      DigitsSpelling(ds);
      Some(DigitsValue(ds))
    else None
  }

  /** `k` zero digits. */
  function Zeros(k: nat): (z: string)
    ensures |z| == k && AllDigits(z)
  {
    seq(k, _ => '0')
  }

  /** `s` spells `n`: an optional '+', then zero or more '0's, then the shortest decimal spelling of `n`. */
  predicate Spells(s: string, n: nat) {
    var ds := Magnitude(s);
    var d := Decimal(n);
    |d| <= |ds| && ds == Zeros(|ds| - |d|) + d
  }

  /** Leading zeros do not change a digit string's value. */
  lemma {:induction false} ZerosValue(z: string, d: string)
    requires AllDigits(z) && AllDigits(d)
    requires forall i :: 0 <= i < |z| ==> z[i] == '0'
    ensures AllDigits(z + d)
    ensures DigitsValue(z + d) == DigitsValue(d)
  {
    if d == [] {
      assert z + d == z;
      if z != [] {
        ZerosValue(z[..|z| - 1], []);
        assert z[..|z| - 1] + [] == z[..|z| - 1];
      }
    } else {
      ZerosValue(z, d[..|d| - 1]);
      assert (z + d)[..|z + d| - 1] == z + d[..|d| - 1];
    }
  }

  /** A non-empty digit string is its value's shortest spelling behind some leading zeros. */
  lemma {:induction false} DigitsSpelling(ds: string)
    requires ds != [] && AllDigits(ds)
    ensures |Decimal(DigitsValue(ds))| <= |ds|
    ensures ds == Zeros(|ds| - |Decimal(DigitsValue(ds))|) + Decimal(DigitsValue(ds))
  {
    var v := DigitsValue(ds);
    var init := ds[..|ds| - 1];
    var last := ds[|ds| - 1];
    var d := last as int - '0' as int;
    assert ds == init + [last];
    if v < 10 {
      assert DigitsValue(init) == 0 && d == v;
      assert DigitChar(v) == last;
      AllZero(init);
      assert Zeros(|init|) == init;
    } else {
      assert DigitsValue(init) == v / 10 && d == v % 10;
      DigitsSpelling(init);
      assert DigitChar(v % 10) == last;
      var z := Zeros(|init| - |Decimal(v / 10)|);
      assert Decimal(v) == Decimal(v / 10) + [last];
      assert ds == z + Decimal(v / 10) + [last];
      assert Zeros(|ds| - |Decimal(v)|) == z;
    }
  }

  /** A digit string of value 0 is all zeros. */
  lemma {:induction false} AllZero(ds: string)
    requires AllDigits(ds) && DigitsValue(ds) == 0
    ensures forall i :: 0 <= i < |ds| ==> ds[i] == '0'
  {
    if ds != [] {
      AllZero(ds[..|ds| - 1]);
      forall i | 0 <= i < |ds| ensures ds[i] == '0' {
        if i < |ds| - 1 {
          assert ds[i] == ds[..|ds| - 1][i];
        }
      }
    }
  }

  /**
   * Parsing and spelling agree both ways: `s` parses to `n` exactly when `n`
   * fits in a `usize` and `s` is an optional '+', leading zeros and the digits of `n`.
   */
  lemma ParseUsizeSpells(s: string, n: nat)
    ensures ParseUsize(s) == Some(n) <==> n <= UsizeMax && Spells(s, n)
  {
    if n <= UsizeMax && Spells(s, n) {
      var ds := Magnitude(s);
      var d := Decimal(n);
      var z := Zeros(|ds| - |d|);
      ZerosValue(z, d);
      DecimalValue(n);
    }
  }

  function DigitChar(d: nat): (c: char)
    requires d < 10
    ensures IsDigit(c) && c as int - '0' as int == d
  {
    ('0' as int + d) as char
  }

  /** The shortest decimal spelling of `n`. */
  function Decimal(n: nat): (s: string)
    ensures s != [] && AllDigits(s)
  {
    if n < 10 then [DigitChar(n)] else Decimal(n / 10) + [DigitChar(n % 10)]
  }

  /** Printing a number and parsing it back gives the number. */
  lemma {:induction false} DecimalValue(n: nat)
    ensures DigitsValue(Decimal(n)) == n
  {
    if n >= 10 {
      DecimalValue(n / 10);
      var s := Decimal(n);
      assert s[..|s| - 1] == Decimal(n / 10);
    }
  }

  /** Every `usize` survives a print/parse round trip, with or without a leading '+'. */
  lemma ParseDecimal(n: nat)
    requires n <= UsizeMax
    ensures ParseUsize(Decimal(n)) == Some(n)
    ensures ParseUsize("+" + Decimal(n)) == Some(n)
  {
    DecimalValue(n);
    assert Magnitude("+" + Decimal(n)) == Decimal(n);
  }

  /** The options the pre-scan checks read. */
  datatype Args = Args(
    lexicons: seq<string>,  // --lexicon paths, in order
    queries: seq<string>,   // --query strings, in order
    all: bool,              // --all
    verbose: bool,          // --verbose
    tokens: bool,           // --tokens
    coverage: bool,         // --coverage
    cjk: Option<string>,    // --cjk, with its unparsed maximum window length
    countOnly: bool,        // --count-only
    freq: string            // --freq as written; "1" when not given
  )

  datatype ConfigError =
    | FreqNotInteger        // the threshold does not parse: the program panics
    | NoLexiconOrQuery      // neither --lexicon nor --query
    | CountOnlyWithVerbose  // --count-only together with --verbose
    | FreqWithHashMode      // --freq other than "1" with --tokens or --cjk

  /**
   * The checks run before scanning, in the order the program makes them.
   * On success yields the parsed frequency threshold.
   */
  function Validate(a: Args): (r: Result<nat, ConfigError>)
    ensures r.Ok? <==>
              && ParseUsize(a.freq).Some?
              && (a.lexicons != [] || a.queries != [])
              && !(a.countOnly && a.verbose)
              && !((a.tokens || a.cjk.Some?) && a.freq != "1")
    ensures r.Ok? ==> Some(r.value) == ParseUsize(a.freq)
    ensures r.Ok? && (a.tokens || a.cjk.Some?) ==> r.value == 1
    ensures r == Err(FreqNotInteger) <==> ParseUsize(a.freq).None?
    ensures r == Err(NoLexiconOrQuery) ==> a.lexicons == [] && a.queries == []
    ensures r == Err(CountOnlyWithVerbose) ==> a.countOnly && a.verbose
    ensures r == Err(FreqWithHashMode) ==> (a.tokens || a.cjk.Some?) && a.freq != "1"
    ensures r == Err(NoLexiconOrQuery) ==> ParseUsize(a.freq).Some?
    ensures r == Err(CountOnlyWithVerbose) ==> ParseUsize(a.freq).Some? && (a.lexicons != [] || a.queries != [])
    ensures r == Err(FreqWithHashMode) ==>
              && ParseUsize(a.freq).Some? && (a.lexicons != [] || a.queries != [])
              && !(a.countOnly && a.verbose)
  {
    match ParseUsize(a.freq)
    case None => Err(FreqNotInteger)
    case Some(threshold) =>
      if a.lexicons == [] && a.queries == [] then Err(NoLexiconOrQuery)
      else if a.countOnly && a.verbose then Err(CountOnlyWithVerbose)
      else if (a.tokens || a.cjk.Some?) && a.freq != "1" then Err(FreqWithHashMode)
      else
        ParseOne();
        Ok(threshold)
  }

  /** The default threshold text parses to 1. */
  lemma ParseOne()
    ensures ParseUsize("1") == Some(1)
  {
    assert "1"[..0] == "";
  }

  /**
   * The token/window rule compares the option's text, not its value: "01"
   * and "+1" mean the threshold 1 yet are rejected with --tokens.
   */
  lemma SpelledOneRejected(a: Args)
    requires a.tokens && a.lexicons != [] && !a.verbose
    requires a.freq == "01" || a.freq == "+1"
    ensures ParseUsize(a.freq) == Some(1)
    ensures Validate(a) == Err(FreqWithHashMode)
  {
    assert Magnitude(a.freq) == "01" || Magnitude(a.freq) == "1";
    assert DigitsValue("0") == 0;
    assert "01"[..1] == "0";
  }
}
