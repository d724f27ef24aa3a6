/**
 * The quiet-period options of the sendrtc command: each `HH:MM-HH:MM` spec is
 * split at '-' and ':', its four fields read with strconv.Atoi, and the
 * resulting window appended to the sender. The first invalid spec aborts.
 */
module SendRtc {
  import opened Wrappers
  import opened GoInts
  import opened GoStrings
  import RtcSync

  /** The two rejection messages the command prints before exiting. */
  datatype SpecError = InvalidQuietPeriod | InvalidStartOrEndTime

  /** How the loop over the specs ended. */
  datatype LoadOutcome = Loaded | Rejected(index: nat, error: SpecError)

  /** hours*3600 + minutes*60 computed in Go's 64-bit int. */
  function ClockSeconds(hours: int64, minutes: int64): (r: int64)
    ensures 0 <= hours && 0 <= minutes && hours * 3600 + minutes * 60 < TWO_63 ==>
              r == hours * 3600 + minutes * 60 && r % 60 == 0
  {
    Add64(Mul64(hours, 3600), Mul64(minutes, 60))
  }

  /** The spec text with the four fields put back between their separators. */
  function SpecText(startHour: string, startMinute: string, endHour: string, endMinute: string): string {
    startHour + [':'] + startMinute + ['-'] + endHour + [':'] + endMinute
  }

  predicate IsField(s: string) {
    '-' !in s && ':' !in s
  }

  /**
   * The four text fields of a spec: start hour, start minute, end hour, end
   * minute. The spec must hold exactly one '-', and each side of it exactly
   * one ':'; the fields are then the text between the separators.
   */
  function SplitSpec(p: string): (r: Result<seq<string>, SpecError>)
    ensures r == Failure(InvalidQuietPeriod) <==> Count(p, '-') != 1
    ensures r.Success? ==> |r.value| == 4 && p == SpecText(r.value[0], r.value[1], r.value[2], r.value[3])
    ensures r.Success? ==> IsField(r.value[0]) && IsField(r.value[1]) && IsField(r.value[2]) && IsField(r.value[3])
  {
    var times := Split(p, '-');
    if |times| != 2 then Failure(InvalidQuietPeriod)
    else
      var st := Split(times[0], ':');
      var et := Split(times[1], ':');
      if |st| != 2 || |et| != 2 then Failure(InvalidStartOrEndTime)
      else
        SpecShape(p, times, st, et);
        Success([st[0], st[1], et[0], et[1]])
  }

  /** Splitting once at each separator: the pieces rebuild the text. */
  lemma SplitInTwo(s: string, sep: char)
    requires |Split(s, sep)| == 2
    ensures s == Split(s, sep)[0] + [sep] + Split(s, sep)[1]
  {
    var parts := Split(s, sep);
    JoinSplit(s, sep);
    assert parts[1..] == [parts[1]];
  }

  /** The two pieces of a dash-free text split once at ':' are fields. */
  lemma PiecesAreFields(s: string)
    requires '-' !in s && |Split(s, ':')| == 2
    ensures IsField(Split(s, ':')[0]) && IsField(Split(s, ':')[1])
  {
    var parts := Split(s, ':');
    SplitInTwo(s, ':');
    forall c: char | c in parts[0] || c in parts[1] ensures c in s {
    }
  }

  lemma SpecShape(p: string, times: seq<string>, st: seq<string>, et: seq<string>)
    requires times == Split(p, '-') && |times| == 2
    requires st == Split(times[0], ':') && |st| == 2
    requires et == Split(times[1], ':') && |et| == 2
    ensures p == SpecText(st[0], st[1], et[0], et[1])
    ensures IsField(st[0]) && IsField(st[1]) && IsField(et[0]) && IsField(et[1])
  {
    SplitInTwo(p, '-');
    SplitInTwo(times[0], ':');
    SplitInTwo(times[1], ':');
    PiecesAreFields(times[0]);
    PiecesAreFields(times[1]);
  }

  /** A text built from four separator-free fields splits back into them. */
  lemma SplitSpecText(a: string, b: string, c: string, d: string)
    requires IsField(a) && IsField(b) && IsField(c) && IsField(d)
    ensures SplitSpec(SpecText(a, b, c, d)) == Success([a, b, c, d])
  {
    var start, end := a + [':'] + b, c + [':'] + d;
    assert '-' !in start && '-' !in end;
    assert Join([a, b], ':') == start by { assert [a, b][1..] == [b]; }
    assert Join([c, d], ':') == end by { assert [c, d][1..] == [d]; }
    assert Join([start, end], '-') == SpecText(a, b, c, d) by { assert [start, end][1..] == [end]; }
    SplitJoin([start, end], '-');
    SplitJoin([a, b], ':');
    SplitJoin([c, d], ':');
  }

  /**
   * One quiet spec, as the command reads it. No range or ordering check is
   * made: any hour and minute Atoi accepts is used as it is.
   */
  function ParseQuietSpec(p: string): (r: Result<RtcSync.ClockTimePeriod, SpecError>)
    ensures r == Failure(InvalidQuietPeriod) <==> Count(p, '-') != 1
  {
    match SplitSpec(p)
    case Failure(e) => Failure(e)
    case Success(fields) =>
      var sth, stm, eth, etm := Atoi(fields[0]), Atoi(fields[1]), Atoi(fields[2]), Atoi(fields[3]);
      if sth.None? || stm.None? || eth.None? || etm.None? then Failure(InvalidStartOrEndTime)
      else Success(RtcSync.ClockTimePeriod(ClockSeconds(sth.value, stm.value), ClockSeconds(eth.value, etm.value)))
  }

  /**
   * An accepted spec's four numbers are never negative (a '-' cannot survive
   * the split), and the window is start = H1*3600 + M1*60, end = H2*3600 +
   * M2*60, exact and a multiple of 60 whenever the sum fits in an int64.
   */
  lemma AcceptedSpecWindow(p: string)
    ensures ParseQuietSpec(p).Success? ==>
      var f := SplitSpec(p).value;
      && SplitSpec(p).Success? && Atoi(f[0]).Some? && Atoi(f[1]).Some? && Atoi(f[2]).Some? && Atoi(f[3]).Some?
      && var h1, m1, h2, m2 := Atoi(f[0]).value, Atoi(f[1]).value, Atoi(f[2]).value, Atoi(f[3]).value;
      && h1 >= 0 && m1 >= 0 && h2 >= 0 && m2 >= 0
      && ParseQuietSpec(p).value == RtcSync.ClockTimePeriod(ClockSeconds(h1, m1), ClockSeconds(h2, m2))
      && (h1 * 3600 + m1 * 60 < TWO_63 ==> ParseQuietSpec(p).value.start == h1 * 3600 + m1 * 60)
      && (h2 * 3600 + m2 * 60 < TWO_63 ==> ParseQuietSpec(p).value.end == h2 * 3600 + m2 * 60)
  {
    if ParseQuietSpec(p).Success? {
      var f := SplitSpec(p).value;
      assert f[0][0] in f[0] && f[1][0] in f[1] && f[2][0] in f[2] && f[3][0] in f[3];
    }
  }

  /** The spec text H1:M1-H2:M2 for four numbers written in decimal. */
  function FormatQuietSpec(h1: nat, m1: nat, h2: nat, m2: nat): string {
    SpecText(FormatDecimal(h1), FormatDecimal(m1), FormatDecimal(h2), FormatDecimal(m2))
  }

  lemma DigitsAreField(s: string)
    requires AllDigits(s)
    ensures IsField(s)
  {
  }

  /**
   * A spec made of four separator-free fields is accepted exactly when Atoi
   * accepts all four, and then gives the window H1*3600+M1*60 ..
   * H2*3600+M2*60 in Go int arithmetic.
   */
  lemma ParseFields(a: string, b: string, c: string, d: string)
    requires IsField(a) && IsField(b) && IsField(c) && IsField(d)
    ensures ParseQuietSpec(SpecText(a, b, c, d)) ==
      if Atoi(a).None? || Atoi(b).None? || Atoi(c).None? || Atoi(d).None? then Failure(InvalidStartOrEndTime)
      else Success(RtcSync.ClockTimePeriod(ClockSeconds(Atoi(a).value, Atoi(b).value),
                                           ClockSeconds(Atoi(c).value, Atoi(d).value)))
  {
    SplitSpecText(a, b, c, d);
  }

  /** A formatted natural number is a field that Atoi reads back. */
  lemma FormattedField(n: nat)
    requires n < TWO_63
    ensures IsField(FormatDecimal(n)) && Atoi(FormatDecimal(n)) == Some(n)
  {
    DigitsAreField(FormatDecimal(n));
    AtoiFormat(n);
  }

  /**
   * Every formatted spec is accepted and each side reads back as its own
   * hours and minutes, whatever they are (25:99 included) and whether or not
   * start <= end.
   */
  lemma ParseFormattedFields(h1: nat, m1: nat, h2: nat, m2: nat)
    requires h1 < TWO_63 && m1 < TWO_63 && h2 < TWO_63 && m2 < TWO_63
    ensures ParseQuietSpec(FormatQuietSpec(h1, m1, h2, m2)) ==
            Success(RtcSync.ClockTimePeriod(ClockSeconds(h1, m1), ClockSeconds(h2, m2)))
  {
    FormattedField(h1); FormattedField(m1); FormattedField(h2); FormattedField(m2);
    ParseFields(FormatDecimal(h1), FormatDecimal(m1), FormatDecimal(h2), FormatDecimal(m2));
  }

  /** When no side overflows, the window of a formatted spec is exactly H*3600+M*60 on each side. */
  lemma ParseFormatted(h1: nat, m1: nat, h2: nat, m2: nat)
    requires h1 * 3600 + m1 * 60 < TWO_63 && h2 * 3600 + m2 * 60 < TWO_63
    ensures var r := ParseQuietSpec(FormatQuietSpec(h1, m1, h2, m2));
      r.Success? && r.value.start == h1 * 3600 + m1 * 60 && r.value.end == h2 * 3600 + m2 * 60
  {
    ClockSecondsExact(h1, m1);
    ClockSecondsExact(h2, m2);
    ParseFormattedFields(h1, m1, h2, m2);
  }

  lemma ClockSecondsExact(hours: nat, minutes: nat)
    requires hours * 3600 + minutes * 60 < TWO_63
    ensures hours < TWO_63 && minutes < TWO_63 && ClockSeconds(hours, minutes) == hours * 3600 + minutes * 60
  {
  }

  lemma ExampleFieldValues()
    ensures Atoi("10") == Some(10) && Atoi("00") == Some(0) && Atoi("05") == Some(5)
    ensures Atoi("22") == Some(22) && Atoi("30") == Some(30) && Atoi("06") == Some(6)
    ensures ClockSeconds(10, 0) == 36000 && ClockSeconds(10, 5) == 36300
    ensures ClockSeconds(22, 30) == 81000 && ClockSeconds(6, 0) == 21600
  {
  }

  /** The texts of the two example specs. */
  lemma ExampleSpecTexts()
    ensures SpecText("10", "00", "10", "05") == "10:00-10:05"
    ensures SpecText("22", "30", "06", "00") == "22:30-06:00"
  {
  }

  /** Example: "10:00-10:05" is the window 36000..36300. */
  lemma ParseExample()
    ensures ParseQuietSpec(SpecText("10", "00", "10", "05")) == Success(RtcSync.ClockTimePeriod(36000, 36300))
  {
    ParseFields("10", "00", "10", "05");
    ExampleFieldValues();
  }

  /**
   * The overnight spec "22:30-06:00" is accepted as it is, start after end,
   * and the window it gives never makes any time quiet.
   */
  lemma OvernightSpecNeverMatches(windows: seq<RtcSync.ClockTimePeriod>, t: int)
    ensures ParseQuietSpec(SpecText("22", "30", "06", "00")) == Success(RtcSync.ClockTimePeriod(81000, 21600))
    ensures RtcSync.Quiet(windows + [RtcSync.ClockTimePeriod(81000, 21600)], t) == RtcSync.Quiet(windows, t)
  {
    ParseFields("22", "30", "06", "00");
    ExampleFieldValues();
    RtcSync.UnmatchableWindow(windows, RtcSync.ClockTimePeriod(81000, 21600), t);
  }

  /** A spec with no '-' ("10:00") is an invalid quiet period. */
  lemma NoDashRejected(a: string, b: string)
    requires '-' !in a && '-' !in b
    ensures ParseQuietSpec(a + [':'] + b) == Failure(InvalidQuietPeriod)
  {
    CountAbsent(a + [':'] + b, '-');
  }

  /** A spec with two '-' ("10:00-10:05-10:10") is an invalid quiet period. */
  lemma TwoDashesRejected(a: string, b: string, c: string)
    ensures ParseQuietSpec(a + ['-'] + b + ['-'] + c) == Failure(InvalidQuietPeriod)
  {
    CountAppend(a + ['-'] + b + ['-'], c, '-');
    CountAppend(a + ['-'] + b, ['-'], '-');
    CountAppend(a + ['-'], b, '-');
    CountAppend(a, ['-'], '-');
  }

  /** A side without ':' ("10-11") is an invalid start or end time. */
  lemma MissingColonRejected(a: string, b: string)
    requires IsField(a) && IsField(b)
    ensures ParseQuietSpec(a + ['-'] + b) == Failure(InvalidStartOrEndTime)
  {
    assert Join([a, b], '-') == a + ['-'] + b by { assert [a, b][1..] == [b]; }
    SplitJoin([a, b], '-');
    CountAbsent(a, ':');
  }

  /** The parse of each spec, in command-line order. */
  function ParseAll(specs: seq<string>): (results: seq<Result<RtcSync.ClockTimePeriod, SpecError>>)
    ensures |results| == |specs|
  {
    seq(|specs|, i requires 0 <= i < |specs| => ParseQuietSpec(specs[i]))
  }

  /**
   * What the loop leaves behind, given the parse of each spec: the windows of
   * the specs accepted before the first rejection, and how the loop ended.
   */
  function Load(results: seq<Result<RtcSync.ClockTimePeriod, SpecError>>): (r: (seq<RtcSync.ClockTimePeriod>, LoadOutcome))
    ensures |r.0| <= |results|
  {
    if results == [] then ([], Loaded)
    else
      var (windows, outcome) := Load(results[..|results| - 1]);
      if outcome.Rejected? then (windows, outcome)
      else match results[|results| - 1]
        case Failure(e) => (windows, Rejected(|results| - 1, e))
        case Success(w) => (windows + [w], Loaded)
  }

  function LoadQuietSpecs(specs: seq<string>): (seq<RtcSync.ClockTimePeriod>, LoadOutcome) {
    Load(ParseAll(specs))
  }

  lemma {:induction false} LoadFacts(results: seq<Result<RtcSync.ClockTimePeriod, SpecError>>)
    ensures var (windows, outcome) := Load(results);
      && (outcome.Loaded? ==> |windows| == |results|)
      && (outcome.Rejected? ==> outcome.index == |windows| < |results|
                                && results[outcome.index] == Failure(outcome.error))
  {
    if results != [] {
      var n := |results| - 1;
      LoadFacts(results[..n]);
      var outcome := Load(results[..n]).1;
      if outcome.Rejected? {
        assert results[..n][outcome.index] == results[outcome.index];
      }
    }
  }

  lemma {:induction false} LoadWindowAt(results: seq<Result<RtcSync.ClockTimePeriod, SpecError>>, i: nat)
    requires i < |Load(results).0|
    ensures results[i] == Success(Load(results).0[i])
  {
    var n := |results| - 1;
    var (windows, outcome) := Load(results[..n]);
    if i < |windows| {
      LoadWindowAt(results[..n], i);
      assert results[..n][i] == results[i];
    } else {
      LoadFacts(results[..n]);
      assert outcome.Loaded? && i == n;
    }
  }

  /** One more parse result while nothing has been rejected yet. */
  lemma LoadStep(results: seq<Result<RtcSync.ClockTimePeriod, SpecError>>, k: nat)
    requires k < |results| && Load(results[..k]).1 == Loaded
    ensures results[k].Failure? ==> Load(results[..k + 1]) == (Load(results[..k]).0, Rejected(k, results[k].error))
    ensures results[k].Success? ==> Load(results[..k + 1]) == (Load(results[..k]).0 + [results[k].value], Loaded)
  {
    assert results[..k + 1][..k] == results[..k];
  }

  lemma {:induction false} LoadRejectionIsFinal(results: seq<Result<RtcSync.ClockTimePeriod, SpecError>>, k: nat)
    requires k <= |results| && Load(results[..k]).1.Rejected?
    ensures Load(results) == Load(results[..k])
    decreases |results|
  {
    if k < |results| {
      var n := |results| - 1;
      assert results[..n][..k] == results[..k];
      LoadRejectionIsFinal(results[..n], k);
    } else {
      assert results[..k] == results;
    }
  }

  /**
   * Processing the specs: when all are accepted, one window per spec;
   * otherwise the loop stops at the first rejected spec, whose error it
   * reports, after exactly the windows of the specs before it.
   */
  lemma LoadOutcomeFacts(specs: seq<string>)
    ensures var (windows, outcome) := LoadQuietSpecs(specs);
      && (outcome.Loaded? ==> |windows| == |specs|)
      && (outcome.Rejected? ==> outcome.index == |windows| < |specs|
                                && ParseQuietSpec(specs[outcome.index]) == Failure(outcome.error))
  {
    LoadFacts(ParseAll(specs));
  }

  /** Window i, in command-line order, is the parse of spec i. */
  lemma LoadedWindowAt(specs: seq<string>, i: nat)
    requires i < |LoadQuietSpecs(specs).0|
    ensures ParseQuietSpec(specs[i]) == Success(LoadQuietSpecs(specs).0[i])
  {
    LoadWindowAt(ParseAll(specs), i);
  }

  /**
   * The command's loop over its quiet specs, in command-line order: each
   * accepted spec appends exactly one window to the sender; the first
   * rejected one stops the loop (the command then exits), leaving the
   * windows of the specs before it.
   */
  method AddQuietSpecs(ss: RtcSync.SyncSender, specs: seq<string>) returns (outcome: LoadOutcome)
    modifies ss`quiet
    ensures ss.quiet == old(ss.quiet) + LoadQuietSpecs(specs).0
    ensures outcome == LoadQuietSpecs(specs).1
  {
    ghost var results := ParseAll(specs);
    for k := 0 to |specs|
      invariant ss.quiet == old(ss.quiet) + Load(results[..k]).0
      invariant Load(results[..k]).1 == Loaded
    {
      LoadStep(results, k);
      match ParseQuietSpec(specs[k]) {
        case Failure(e) =>
          LoadRejectionIsFinal(results, k + 1);
          return Rejected(k, e);
        case Success(window) =>
          ss.AddQuietPeriod(window);
      }
    }
    assert results[..|specs|] == results;
    return Loaded;
  }

  /** Once "10:00-10:05" is loaded, 10:02:30 UTC of any day is quiet and 10:05:01 is not. */
  lemma LoadedSpecSilences(day: int)
    ensures var windows := LoadQuietSpecs([SpecText("10", "00", "10", "05")]).0;
      && RtcSync.Quiet(windows, day * RtcSync.SECONDS_PER_DAY + 36150)
      && !RtcSync.Quiet(windows, day * RtcSync.SECONDS_PER_DAY + 36301)
  {
    var specs := [SpecText("10", "00", "10", "05")];
    ParseExample();
    LoadOutcomeFacts(specs);
    LoadedWindowAt(specs, 0);
    assert LoadQuietSpecs(specs).0 == [RtcSync.ClockTimePeriod(36000, 36300)];
    RtcSync.QuietWindowExample(day);
  }
}
