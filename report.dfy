/**
 * The reporting half of `runReplacer` in index.ts: from the records that
 * the replacement library returns, one line per changed file, a count of
 * the changed files, and a summary whose wording depends on the dry-run flag.
 */
module Report {
  import opened Paths
  import opened Seqs

  /** A value or JavaScript's `undefined`. */
  datatype Option<T> = None | Some(value: T)

  /** One record of `replace.sync` with `countMatches` set. */
  datatype Replaced = Replaced(file: string, numMatches: nat, numReplacements: nat, hasChanged: bool)

  // ---------------------------------------------------------------------
  // Decimal rendering of counts, as a template literal prints them

  predicate IsDigit(c: char)
  {
    '0' <= c <= '9'
  }

  predicate AllDigits(s: string)
  {
    forall i :: 0 <= i < |s| ==> IsDigit(s[i])
  }

  function DigitChar(d: nat): (c: char)
    requires d < 10
    ensures IsDigit(c) && c as int - '0' as int == d
  {
    ('0' as int + d) as char
  }

  /** `${n}` for a non-negative integer: its decimal digits, without leading zeros. */
  function DecimalString(n: nat): (s: string)
    ensures s != [] && AllDigits(s)
    ensures s[0] == '0' ==> n == 0 && s == "0"
  {
    if n < 10 then [DigitChar(n)] else DecimalString(n / 10) + [DigitChar(n % 10)]
  }

  /** The number that a string of decimal digits denotes. */
  function ParseDecimal(s: string): nat
    requires AllDigits(s)
  {
    if s == [] then 0 else 10 * ParseDecimal(s[..|s| - 1]) + (s[|s| - 1] as int - '0' as int)
  }

  lemma {:induction false} DecimalRoundTrip(n: nat)
    ensures ParseDecimal(DecimalString(n)) == n
  {
    var s := DecimalString(n);
    if n >= 10 {
      DecimalRoundTrip(n / 10);
      assert s[..|s| - 1] == DecimalString(n / 10);
    }
  }

  // ---------------------------------------------------------------------
  // What is written to standard output

  /** The line for one changed record: the last `/`-segment of its path and its replacement count. */
  function Line(e: Replaced): string
  {
    "\n" + LastSegment(e.file) + ": " + DecimalString(e.numReplacements) + " replacements"
  }

  /** Whether a record gets a line; one named test, so that every `Filter` lemma speaks of the same function value. */
  predicate HasChanged(e: Replaced)
  {
    e.hasChanged
  }

  /** The changed records, in input order. */
  function Changed(xs: seq<Replaced>): (r: seq<Replaced>)
    ensures |r| <= |xs|
  {
    Filter(xs, HasChanged)
  }

  /** The text of the lines of `ys`, one after the other. */
  function Lines(ys: seq<Replaced>): string
  {
    Join(Map(ys, Line))
  }

  /** The closing wording after the count. */
  function Wording(dry: bool): string
  {
    if dry then " files to be changed\n\n" else " files changed\n\n"
  }

  /** The summary written after the lines. */
  function Summary(count: nat, dry: bool): string
  {
    "\n\n" + DecimalString(count) + Wording(dry)
  }

  /** `count` after the loop has seen the records `xs`. */
  function Tally(xs: seq<Replaced>): nat
  {
    if xs == [] then 0 else Tally(xs[..|xs| - 1]) + if xs[|xs| - 1].hasChanged then 1 else 0
  }

  /** The joined output after the loop has seen the records `xs`. */
  function Output(xs: seq<Replaced>): string
  {
    if xs == [] then [] else Output(xs[..|xs| - 1]) + if xs[|xs| - 1].hasChanged then Line(xs[|xs| - 1]) else ""
  }

  /**
   * The output logic of `runReplacer`: `map` each record to its line or to
   * `undefined` while bumping `count` for every truthy line, `join` the
   * lines, then write the summary. Returns all text written and the count.
   */
  method ReportResults(x: seq<Replaced>, dry: bool) returns (written: string, count: nat)
    ensures count == |Changed(x)|
    ensures written == Lines(Changed(x)) + Summary(count, dry)
  {
    count := 0;
    var output := "";
    for i := 0 to |x|
      invariant count == Tally(x[..i])
      invariant output == Output(x[..i])
    {
      var e := x[i];
      ReportStep(x, i);
      var str: Option<string> := if e.hasChanged then Some(Line(e)) else None;
      if str.Some? && str.value != "" {
        count := count + 1;
      }
      output := output + (if str.Some? then str.value else "");
    }
    assert x[..|x|] == x;
    TallyIsCount(x);
    OutputIsLines(x);
    written := output + Summary(count, dry);
  }

  /** One turn of the loop of `runReplacer` handles the record at `i`; its line, when it has one, is truthy. */
  lemma ReportStep(x: seq<Replaced>, i: nat)
    requires i < |x|
    ensures Tally(x[..i + 1]) == Tally(x[..i]) + if x[i].hasChanged then 1 else 0
    ensures Output(x[..i + 1]) == Output(x[..i]) + if x[i].hasChanged then Line(x[i]) else ""
    ensures Line(x[i]) != ""
  {
    assert x[..i + 1][..i] == x[..i];
    assert Line(x[i])[0] == '\n';
  }

  /** The loop's count is the number of changed records. */
  lemma {:induction false} TallyIsCount(xs: seq<Replaced>)
    ensures Tally(xs) == |Changed(xs)|
  {
    if xs != [] {
      var init, last := xs[..|xs| - 1], xs[|xs| - 1];
      assert xs == init + [last];
      TallyIsCount(init);
      ReportSnoc(init, last);
    }
  }

  /** The loop's output is the lines of the changed records, joined. */
  lemma {:induction false} OutputIsLines(xs: seq<Replaced>)
    ensures Output(xs) == Lines(Changed(xs))
  {
    if xs != [] {
      var init, last := xs[..|xs| - 1], xs[|xs| - 1];
      assert xs == init + [last];
      OutputIsLines(init);
      ReportSnoc(init, last);
    }
  }

  // ---------------------------------------------------------------------
  // Properties of the report

  /** A record is counted exactly when it changed. */
  lemma ChangedMembers(xs: seq<Replaced>)
    ensures forall e :: e in Changed(xs) <==> e in xs && e.hasChanged
  {
    FilterMembers(xs, HasChanged);
  }

  /** The count is zero exactly when no record changed, and the number of records exactly when all did. */
  lemma CountBounds(xs: seq<Replaced>)
    ensures |Changed(xs)| == 0 <==> forall i :: 0 <= i < |xs| ==> !xs[i].hasChanged
    ensures |Changed(xs)| == |xs| <==> forall i :: 0 <= i < |xs| ==> xs[i].hasChanged
  {
    FilterEmpty(xs, HasChanged);
    FilterFull(xs, HasChanged);
  }

  /** Records contribute in input order: the report of two runs of records is the two reports in turn. */
  lemma ReportAppend(a: seq<Replaced>, b: seq<Replaced>)
    ensures Changed(a + b) == Changed(a) + Changed(b)
    ensures Lines(Changed(a + b)) == Lines(Changed(a)) + Lines(Changed(b))
  {
    FilterAppend(a, b, HasChanged);
    LinesAppend(Changed(a), Changed(b));
  }

  lemma LinesAppend(a: seq<Replaced>, b: seq<Replaced>)
    ensures Lines(a + b) == Lines(a) + Lines(b)
  {
    MapAppend(a, b, Line);
    JoinAppend(Map(a, Line), Map(b, Line));
  }

  /** The lines written are one per changed record, in input order. */
  lemma LinesOfChanged(xs: seq<Replaced>)
    ensures var ls := Map(Changed(xs), Line);
      |ls| == |Changed(xs)| && forall i :: 0 <= i < |ls| ==> ls[i] == Line(Changed(xs)[i])
  {
    forall i | 0 <= i < |Changed(xs)| {
      MapAt(Changed(xs), Line, i);
    }
  }

  /** One more record adds its line and one to the count when it changed, and nothing otherwise. */
  lemma ReportSnoc(xs: seq<Replaced>, e: Replaced)
    ensures |Changed(xs + [e])| == |Changed(xs)| + if e.hasChanged then 1 else 0
    ensures Lines(Changed(xs + [e])) == Lines(Changed(xs)) + if e.hasChanged then Line(e) else ""
    ensures Line(e) != ""
  {
    FilterSnoc(xs, e, HasChanged);
    if e.hasChanged {
      MapSnoc(Changed(xs), e, Line);
      JoinSnoc(Map(Changed(xs), Line), Line(e));
    } else {
      assert Changed(xs) + [] == Changed(xs);
    }
    assert Line(e)[0] == '\n';
  }

  /** A record whose path came from the walk is listed under its entry name. */
  lemma LineOfResolvedPath(dir: string, name: string, e: Replaced)
    requires '/' !in name && e.file == Resolve(dir, name)
    ensures Line(e) == "\n" + name + ": " + DecimalString(e.numReplacements) + " replacements"
  {
    LastSegmentOfResolve(dir, name);
  }

  /** The longest prefix of `s` made of digits. */
  function LeadingDigits(s: string): (ds: string)
    ensures AllDigits(ds) && |ds| <= |s| && ds == s[..|ds|]
  {
    if s != [] && IsDigit(s[0]) then [s[0]] + LeadingDigits(s[1..]) else []
  }

  lemma {:induction false} LeadingDigitsOf(ds: string, rest: string)
    requires AllDigits(ds) && (rest == [] || !IsDigit(rest[0]))
    ensures LeadingDigits(ds + rest) == ds
  {
    if ds == [] {
      assert ds + rest == rest;
    } else {
      assert (ds + rest)[0] == ds[0] && (ds + rest)[1..] == ds[1..] + rest;
      LeadingDigitsOf(ds[1..], rest);
    }
  }

  /** Reads a summary back: the count and whether the run was dry. */
  function ParseSummary(s: string): Option<(nat, bool)>
  {
    if |s| < 2 || s[..2] != "\n\n" then None
    else
      var ds := LeadingDigits(s[2..]);
      var rest := s[2 + |ds|..];
      if ds == [] then None
      else if rest == Wording(true) then Some((ParseDecimal(ds), true))
      else if rest == Wording(false) then Some((ParseDecimal(ds), false))
      else None
  }

  /** The summary states the count and the dry-run mode unambiguously. */
  lemma SummaryRoundTrip(count: nat, dry: bool)
    ensures ParseSummary(Summary(count, dry)) == Some((count, dry))
  {
    var s, ds := Summary(count, dry), DecimalString(count);
    PrefixedSlices(ds, Wording(dry));
    LeadingDigitsOf(ds, Wording(dry));
    DecimalRoundTrip(count);
    assert |Wording(true)| != |Wording(false)|;
  }

  /** Slicing `"\n\n" + ds + w` back into its three parts. */
  lemma PrefixedSlices(ds: string, w: string)
    ensures var s := "\n\n" + ds + w;
      |s| >= 2 && s[..2] == "\n\n" && s[2..] == ds + w && s[2 + |ds|..] == w
  {
    var s := "\n\n" + ds + w;
    assert s[2..] == ds + w;
  }

  /** Two summaries are equal only for the same count and mode. */
  lemma SummaryInjective(c1: nat, d1: bool, c2: nat, d2: bool)
    requires Summary(c1, d1) == Summary(c2, d2)
    ensures c1 == c2 && d1 == d2
  {
    SummaryRoundTrip(c1, d1);
    SummaryRoundTrip(c2, d2);
  }
}
