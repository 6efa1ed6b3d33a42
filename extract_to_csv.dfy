/**
 * The single-pass transcript scanner of src/extract_to_csv.py
 * (`parse_out_file_stream`) and the argument list it is started with.
 *
 * `Step` and `Scan` are the specification: one line moves the scanner state
 * (eight text fields and the two phase flags of the initial-gap capture), and
 * a transcript is the left fold of `Step` over its lines. The method
 * `ParseOutFileStream` is the scanner as the source writes it, a loop that
 * updates local variables; it is proved to compute `Scan`. The lemmas state
 * what the scan promises: status precedence, last match wins, the zero-gap
 * gate on the objective and the once-only capture of the initial gap.
 */
module ExtractToCsv {
  import opened Wrappers
  import opened Text
  import opened GurobiPatterns
  import KvArgs

  const TimeLimitReached: string := "Time limit reached"
  const OptimalSolutionFound: string := "Optimal solution found"
  /** The gap text under which a best-objective line's objective is reported. */
  const ZeroGap: string := "0.0000"

  /** `REQUIRED_KEYS` of the command line. */
  const RequiredKeys: seq<string> := ["in_path", "out_csv"]

  /** The dictionary returned for one transcript: its nine keys are the nine fields. */
  datatype Record = Record(
    filename: string,
    status: string,
    objective: string,
    gap: string,
    workUnits: string,
    runtimeSeconds: string,
    initialGap: string,
    simplexIters: string,
    nodes: string)

  /** The local variables of the scan loop. */
  datatype ScanState = ScanState(
    status: string,
    bestObj: string,
    gap: string,
    nodes: string,
    simplexIters: string,
    runtime: string,
    workUnits: string,
    initialGap: string,
    sawTableHeader: bool,
    capturedInitialGap: bool)

  const Start: ScanState := ScanState("", "", "", "", "", "", "", "", false, false)

  /** The status after one more line: the time-limit phrase wins and sticks; "optimal" only fills an empty status. */
  function NextStatus(pat: Patterns, status: string, ln: string): (r: string)
    ensures r == TimeLimitReached <==> status == TimeLimitReached || pat.timeLimit(ln)
    ensures r != status ==>
              (r == TimeLimitReached && pat.timeLimit(ln)) ||
              (status == "" && r == OptimalSolutionFound && !pat.timeLimit(ln) && pat.optimal(ln))
    ensures status == "" && !pat.timeLimit(ln) && pat.optimal(ln) ==> r == OptimalSolutionFound
  {
    if status != TimeLimitReached then
      if pat.timeLimit(ln) then TimeLimitReached
      else if status == "" && pat.optimal(ln) then OptimalSolutionFound
      else status
    else status
  }

  /** The table-rule characters dropped before testing for a separator line. */
  const RuleChars: set<char> := {'|', '-', '='}

  /** A trimmed line that is only `|`, `-`, `=` and whitespace. */
  predicate IsSeparator(s: string)
    ensures IsSeparator(s) <==> forall i :: 0 <= i < |s| ==> s[i] in RuleChars || IsSpace(s[i])
  {
    var kept := RemoveChars(s, RuleChars);
    StripEmptyIff(kept, Whitespace);
    assert forall i :: 0 <= i < |kept| ==> kept[i] in s;
    assert forall i :: 0 <= i < |s| && s[i] !in RuleChars ==> s[i] in kept;
    assert forall c :: IsSpace(c) <==> c in Whitespace by {
      forall c { SpaceIsWhitespace(c); }
    }
    StripSpace(kept) == ""
  }

  /** A line that, once the header has been seen, is taken as the first progress row. */
  predicate IsProgressRow(pat: Patterns, ln: string)
    ensures IsProgressRow(pat, ln) <==>
      var s := StripSpace(ln);
      (exists i :: 0 <= i < |s| && s[i] !in RuleChars && !IsSpace(s[i])) && pat.progressRowStart(s)
  {
    var s := StripSpace(ln);
    s != "" && !IsSeparator(s) && pat.progressRowStart(s)
  }

  /** The initial gap read from a progress row: the last percent token of the trimmed row, or "". */
  function RowGap(pat: Patterns, ln: string): string
  {
    var percents := pat.percents(StripSpace(ln));
    if |percents| > 0 then percents[|percents| - 1] else ""
  }

  /** The statistics one line updates: status, best objective and gap, explored counters. */
  function Observe(pat: Patterns, st: ScanState, ln: string): (r: ScanState)
    ensures r.sawTableHeader == st.sawTableHeader && r.capturedInitialGap == st.capturedInitialGap
    ensures r.initialGap == st.initialGap
  {
    var st1 := st.(status := NextStatus(pat, st.status, ln));
    var st2 :=
      match pat.best(ln)
      case Some(m) => st1.(gap := m.gap + "%", bestObj := if m.gap == ZeroGap then m.objective else "")
      case None => st1;
    match pat.explored(ln)
    case Some(e) => st2.(nodes := e.nodes, simplexIters := e.simplexIters, runtime := e.seconds, workUnits := e.workUnits)
    case None => st2
  }

  /** The initial-gap phase one line advances: waiting for the header, then for the first row, then done. */
  function Capture(pat: Patterns, st: ScanState, ln: string): (r: ScanState)
    ensures r.(sawTableHeader := st.sawTableHeader, capturedInitialGap := st.capturedInitialGap, initialGap := st.initialGap) == st
    ensures st.capturedInitialGap ==> r == st
  {
    if st.capturedInitialGap then st
    else if !st.sawTableHeader then st.(sawTableHeader := pat.tableHeader(ln))
    else if IsProgressRow(pat, ln) then st.(initialGap := RowGap(pat, ln), capturedInitialGap := true)
    else st
  }

  /**
   * The effect of one line on the scanner state: the status moves as
   * `NextStatus` says, the phase flags never go back, a captured gap is never
   * replaced, and a gap is captured only from a progress row after the header.
   */
  function Step(pat: Patterns, st: ScanState, ln: string): (r: ScanState)
    ensures r.status == NextStatus(pat, st.status, ln)
    ensures st.sawTableHeader ==> r.sawTableHeader
    ensures st.capturedInitialGap ==> r.capturedInitialGap && r.initialGap == st.initialGap
    ensures !st.capturedInitialGap && r.capturedInitialGap ==>
      st.sawTableHeader && IsProgressRow(pat, ln) && r.initialGap == RowGap(pat, ln)
    ensures !r.capturedInitialGap ==> r.initialGap == st.initialGap
  {
    Capture(pat, Observe(pat, st, ln), ln)
  }

  /** The state after reading all of `lines` from the start state. */
  function Scan(pat: Patterns, lines: seq<string>): (r: ScanState)
    decreases |lines|
    ensures r.capturedInitialGap ==> r.sawTableHeader
    ensures !r.capturedInitialGap ==> r.initialGap == ""
  {
    if lines == [] then Start else Step(pat, Scan(pat, lines[..|lines| - 1]), lines[|lines| - 1])
  }

  /**
   * With the compiled patterns, the gap read from a row is empty exactly when
   * no percent token occurs in the trimmed row; otherwise it is a percent
   * token that is the rightmost match of the trimmed row (`LastTokenUnique`
   * shows there is only one): the last match `findall` reports.
   */
  lemma RowGapIsLastPercent(ln: string)
    ensures var s := StripSpace(ln);
      RowGap(Library, ln) == "" <==> forall q :: 0 <= q <= |s| ==> PercentAt(s[q..]).None?
    ensures var s, g := StripSpace(ln), RowGap(Library, ln);
      g != "" ==> IsPercentToken(g) && LastTokenAt(s, g)
  {
    var s := StripSpace(ln);
    assert Library.percents(s) == FindAllPercents(s);
    var g := RowGap(Library, ln);
    if g != "" {
      LastPercentToken(s, g);
    }
  }

  /** The dictionary built from the final state. */
  function Finish(path: string, st: ScanState): Record
  {
    Record(BaseName(path), st.status, st.bestObj, st.gap, st.workUnits, st.runtime, st.initialGap, st.simplexIters, st.nodes)
  }

  /**
   * `parse_out_file_stream`: one pass over the decoded lines of the file at
   * `path` (each line as the file iterator yields it, newline included).
   */
  method ParseOutFileStream(pat: Patterns, path: string, lines: seq<string>) returns (rec: Record)
    ensures rec == Finish(path, Scan(pat, lines))
    ensures rec.filename == BaseName(path)
  {
    var status, bestObj, gap := "", "", "";
    var nodes, simplexIters, runtime, workUnits := "", "", "", "";
    var initialGap := "";
    var sawTableHeader, capturedInitialGap := false, false;

    for i := 0 to |lines|
      invariant ScanState(status, bestObj, gap, nodes, simplexIters, runtime, workUnits,
                          initialGap, sawTableHeader, capturedInitialGap) == Scan(pat, lines[..i])
    {
      var ln := lines[i];
      assert lines[..i + 1][..i] == lines[..i];
      assert Scan(pat, lines[..i + 1]) == Step(pat, Scan(pat, lines[..i]), ln);
      ghost var before := Scan(pat, lines[..i]);

      // The time-limit phrase overrides any status; "optimal" only fills an empty one.
      if status != TimeLimitReached {
        if pat.timeLimit(ln) {
          status := TimeLimitReached;
        } else if status == "" && pat.optimal(ln) {
          status := OptimalSolutionFound;
        }
      }

      // Every best-objective line overwrites gap and objective.
      var best := pat.best(ln);
      if best.Some? {
        gap := best.value.gap + "%";
        bestObj := if best.value.gap == ZeroGap then best.value.objective else "";
      }

      // Every explored line overwrites the four counters.
      var explored := pat.explored(ln);
      if explored.Some? {
        nodes := explored.value.nodes;
        simplexIters := explored.value.simplexIters;
        runtime := explored.value.seconds;
        workUnits := explored.value.workUnits;
      }

      assert ScanState(status, bestObj, gap, nodes, simplexIters, runtime, workUnits,
                       initialGap, sawTableHeader, capturedInitialGap) == Observe(pat, before, ln);

      // Wait for the header line, then take the gap of the first progress row.
      if !capturedInitialGap {
        if !sawTableHeader {
          if pat.tableHeader(ln) {
            sawTableHeader := true;
          }
          continue;
        } else {
          var s := StripSpace(ln);
          if s == "" {
            continue;
          }
          var stripped := StripSpace(RemoveChars(s, {'|', '-', '='}));
          if stripped == "" {
            continue;
          }
          if !pat.progressRowStart(s) {
            continue;
          }
          var percents := pat.percents(s);
          if |percents| > 0 {
            initialGap := percents[|percents| - 1];
          } else {
            initialGap := "";
          }
          capturedInitialGap := true;
        }
      }
    }
    assert lines[..|lines|] == lines;
    rec := Record(BaseName(path), status, bestObj, gap, workUnits, runtime, initialGap, simplexIters, nodes);
  }

  /** `parse_kv_args(argv)`: `argv[0]` is the program name, the rest are `key=value` tokens. */
  method ParseKvArgs(argv: seq<string>) returns (r: KvArgs.Outcome)
    requires |argv| >= 1
    ensures r == KvArgs.Parse(KvArgs.SplitToken, argv[1..], RequiredKeys)
    ensures r.Parsed? ==> r.kv.Keys == {"in_path", "out_csv"} && r.kv["in_path"] != "" && r.kv["out_csv"] != ""
  {
    r := KvArgs.ParseArgs(argv[1..], RequiredKeys);
    KvArgs.ParsedHasExactlyRequiredKeys(KvArgs.SplitToken, argv[1..], RequiredKeys);
    KvArgs.KeySetOfTwo("in_path", "out_csv");
  }

  // -----------------------------------------------------------------------
  // Status
  // -----------------------------------------------------------------------

  /**
   * The final status is decided by which phrases occur anywhere: the
   * time-limit phrase on any line wins, wherever "optimal" appears; otherwise
   * "optimal" on any line; otherwise the empty status.
   */
  lemma {:induction false} StatusDecidedByPhrases(pat: Patterns, lines: seq<string>)
    ensures Scan(pat, lines).status == TimeLimitReached <==>
              exists i :: 0 <= i < |lines| && pat.timeLimit(lines[i])
    ensures Scan(pat, lines).status == OptimalSolutionFound <==>
              (forall i :: 0 <= i < |lines| ==> !pat.timeLimit(lines[i])) &&
              exists i :: 0 <= i < |lines| && pat.optimal(lines[i])
    ensures Scan(pat, lines).status == "" <==>
              forall i :: 0 <= i < |lines| ==> !pat.timeLimit(lines[i]) && !pat.optimal(lines[i])
  {
    if lines != [] {
      var p := lines[..|lines| - 1];
      var last := lines[|lines| - 1];
      StatusDecidedByPhrases(pat, p);
      var tl := exists i :: 0 <= i < |p| && pat.timeLimit(p[i]);
      var opt := exists i :: 0 <= i < |p| && pat.optimal(p[i]);
      StatusStep(pat, Scan(pat, p).status, last, tl, opt);
      ScanStatusStep(pat, lines);
      SomeLineSnoc(pat.timeLimit, lines);
      SomeLineSnoc(pat.optimal, lines);
    }
  }

  /** The status after the last line is the status before it, moved by that line. */
  lemma ScanStatusStep(pat: Patterns, lines: seq<string>)
    requires lines != []
    ensures Scan(pat, lines).status == NextStatus(pat, Scan(pat, lines[..|lines| - 1]).status, lines[|lines| - 1])
  {
  }

  /** A line satisfying `f` occurs in `lines` exactly when one occurs before the last line or the last line does. */
  lemma SomeLineSnoc(f: string -> bool, lines: seq<string>)
    requires lines != []
    ensures var p := lines[..|lines| - 1];
            (exists i :: 0 <= i < |lines| && f(lines[i])) <==>
            (exists i :: 0 <= i < |p| && f(p[i])) || f(lines[|lines| - 1])
  {
    var p := lines[..|lines| - 1];
    assert forall i :: 0 <= i < |p| ==> p[i] == lines[i];
  }

  /** One line moves the status as the phrases seen so far, plus that line's, decide. */
  lemma StatusStep(pat: Patterns, status: string, ln: string, tl: bool, opt: bool)
    requires status == TimeLimitReached <==> tl
    requires status == OptimalSolutionFound <==> !tl && opt
    requires status == "" <==> !tl && !opt
    ensures var r := NextStatus(pat, status, ln);
            && (r == TimeLimitReached <==> tl || pat.timeLimit(ln))
            && (r == OptimalSolutionFound <==> !(tl || pat.timeLimit(ln)) && (opt || pat.optimal(ln)))
            && (r == "" <==> !(tl || pat.timeLimit(ln)) && !(opt || pat.optimal(ln)))
  {
  }

  /** Once the status is "Time limit reached", no later line changes it. */
  lemma TimeLimitIsFinal(pat: Patterns, lines: seq<string>, rest: seq<string>)
    requires Scan(pat, lines).status == TimeLimitReached
    ensures Scan(pat, lines + rest).status == TimeLimitReached
  {
    StatusDecidedByPhrases(pat, lines);
    var i :| 0 <= i < |lines| && pat.timeLimit(lines[i]);
    assert (lines + rest)[i] == lines[i];
    StatusDecidedByPhrases(pat, lines + rest);
  }

  // -----------------------------------------------------------------------
  // Best objective / gap
  // -----------------------------------------------------------------------

  /**
   * `gap` and `objective` come from the last best-objective line alone: the
   * gap is its gap token with `%`, the objective its objective token when the
   * gap token is exactly "0.0000" and empty otherwise, whatever earlier lines said.
   */
  lemma {:induction false} LastBestLineWins(pat: Patterns, lines: seq<string>, k: nat)
    requires k < |lines| && pat.best(lines[k]).Some?
    requires forall j :: k < j < |lines| ==> pat.best(lines[j]).None?
    ensures Scan(pat, lines).gap == pat.best(lines[k]).value.gap + "%"
    ensures Scan(pat, lines).bestObj ==
              if pat.best(lines[k]).value.gap == ZeroGap then pat.best(lines[k]).value.objective else ""
  {
    var p := lines[..|lines| - 1];
    if k < |lines| - 1 {
      assert forall j :: k < j < |p| ==> p[j] == lines[j];
      LastBestLineWins(pat, p, k);
    }
  }

  /** Without a best-objective line, `gap` and `objective` stay empty. */
  lemma {:induction false} NoBestLineLeavesGapEmpty(pat: Patterns, lines: seq<string>)
    requires forall j :: 0 <= j < |lines| ==> pat.best(lines[j]).None?
    ensures Scan(pat, lines).gap == "" && Scan(pat, lines).bestObj == ""
  {
    if lines != [] {
      var p := lines[..|lines| - 1];
      assert forall j :: 0 <= j < |p| ==> p[j] == lines[j];
      NoBestLineLeavesGapEmpty(pat, p);
    }
  }

  // -----------------------------------------------------------------------
  // Explored summary
  // -----------------------------------------------------------------------

  /** The four explored-line fields all come from the last explored line. */
  lemma {:induction false} LastExploredLineWins(pat: Patterns, lines: seq<string>, k: nat)
    requires k < |lines| && pat.explored(lines[k]).Some?
    requires forall j :: k < j < |lines| ==> pat.explored(lines[j]).None?
    ensures var e := pat.explored(lines[k]).value;
            Scan(pat, lines).nodes == e.nodes && Scan(pat, lines).simplexIters == e.simplexIters &&
            Scan(pat, lines).runtime == e.seconds && Scan(pat, lines).workUnits == e.workUnits
  {
    var p := lines[..|lines| - 1];
    if k < |lines| - 1 {
      assert forall j :: k < j < |p| ==> p[j] == lines[j];
      LastExploredLineWins(pat, p, k);
    } else {
      assert lines[k] == lines[|lines| - 1];
    }
  }

  /** Without an explored line, the four fields stay empty together. */
  lemma {:induction false} NoExploredLineLeavesStatsEmpty(pat: Patterns, lines: seq<string>)
    requires forall j :: 0 <= j < |lines| ==> pat.explored(lines[j]).None?
    ensures Scan(pat, lines).nodes == "" && Scan(pat, lines).simplexIters == "" &&
            Scan(pat, lines).runtime == "" && Scan(pat, lines).workUnits == ""
  {
    if lines != [] {
      var p := lines[..|lines| - 1];
      assert forall j :: 0 <= j < |p| ==> p[j] == lines[j];
      NoExploredLineLeavesStatsEmpty(pat, p);
    }
  }

  // -----------------------------------------------------------------------
  // Initial gap
  // -----------------------------------------------------------------------

  /** Until a header line occurs, the capture has not started and `initial_gap` is empty. */
  lemma {:induction false} NoHeaderNoInitialGap(pat: Patterns, lines: seq<string>)
    requires forall i :: 0 <= i < |lines| ==> !pat.tableHeader(lines[i])
    ensures !Scan(pat, lines).sawTableHeader && !Scan(pat, lines).capturedInitialGap && Scan(pat, lines).initialGap == ""
  {
    if lines != [] {
      var p := lines[..|lines| - 1];
      assert forall j :: 0 <= j < |p| ==> p[j] == lines[j];
      NoHeaderNoInitialGap(pat, p);
    }
  }

  /**
   * From the first header line on, every line that is not a progress row
   * (blank, a separator, or not starting like a row) leaves the capture waiting;
   * the header line itself is never the row.
   */
  lemma {:induction false} WaitsForFirstRow(pat: Patterns, lines: seq<string>, h: nat)
    requires h < |lines| && pat.tableHeader(lines[h])
    requires forall i :: 0 <= i < h ==> !pat.tableHeader(lines[i])
    requires forall j :: h < j < |lines| ==> !IsProgressRow(pat, lines[j])
    ensures Scan(pat, lines).sawTableHeader && !Scan(pat, lines).capturedInitialGap && Scan(pat, lines).initialGap == ""
  {
    var p := lines[..|lines| - 1];
    assert forall j :: 0 <= j < |p| ==> p[j] == lines[j];
    if h == |lines| - 1 {
      NoHeaderNoInitialGap(pat, p);
    } else {
      WaitsForFirstRow(pat, p, h);
    }
  }

  /** Once the initial gap is captured, later lines change neither it nor the phase. */
  lemma {:induction false} CapturedGapIsFinal(pat: Patterns, lines: seq<string>, rest: seq<string>)
    requires Scan(pat, lines).capturedInitialGap
    ensures Scan(pat, lines + rest).capturedInitialGap
    ensures Scan(pat, lines + rest).initialGap == Scan(pat, lines).initialGap
    decreases |rest|
  {
    if rest != [] {
      var r := rest[..|rest| - 1];
      CapturedGapIsFinal(pat, lines, r);
      assert (lines + rest)[..|lines + rest| - 1] == lines + r;
      assert Scan(pat, lines + rest) == Step(pat, Scan(pat, lines + r), rest[|rest| - 1]);
    } else {
      assert lines + rest == lines;
    }
  }

  /**
   * `initial_gap` is the last percent token of the first progress row after
   * the first header line, or "" when that row has none.
   */
  lemma {:induction false} InitialGapIsFirstRowGap(pat: Patterns, lines: seq<string>, h: nat, r: nat)
    requires h < r < |lines| && pat.tableHeader(lines[h])
    requires forall i :: 0 <= i < h ==> !pat.tableHeader(lines[i])
    requires IsProgressRow(pat, lines[r])
    requires forall j :: h < j < r ==> !IsProgressRow(pat, lines[j])
    ensures Scan(pat, lines).capturedInitialGap
    ensures Scan(pat, lines).initialGap == RowGap(pat, lines[r])
  {
    var upTo, rest := lines[..r + 1], lines[r + 1..];
    assert upTo + rest == lines;
    CapturesAtFirstRow(pat, lines, h, r);
    CapturedGapIsFinal(pat, upTo, rest);
  }

  /** The row itself: reading up to and including the first progress row captures its gap. */
  lemma {:induction false} CapturesAtFirstRow(pat: Patterns, lines: seq<string>, h: nat, r: nat)
    requires h < r < |lines| && pat.tableHeader(lines[h])
    requires forall i :: 0 <= i < h ==> !pat.tableHeader(lines[i])
    requires IsProgressRow(pat, lines[r])
    requires forall j :: h < j < r ==> !IsProgressRow(pat, lines[j])
    ensures Scan(pat, lines[..r + 1]).capturedInitialGap
    ensures Scan(pat, lines[..r + 1]).initialGap == RowGap(pat, lines[r])
  {
    var before := lines[..r];
    assert forall j :: 0 <= j < r ==> before[j] == lines[j];
    WaitsForFirstRow(pat, before, h);
    ScanPrefixStep(pat, lines, r);
    StepCapturesRow(pat, Scan(pat, before), lines[r]);
  }

  /** Reading `lines` up to and including line `r` is one `Step` after reading the lines before it. */
  lemma ScanPrefixStep(pat: Patterns, lines: seq<string>, r: nat)
    requires r < |lines|
    ensures Scan(pat, lines[..r + 1]) == Step(pat, Scan(pat, lines[..r]), lines[r])
  {
    assert lines[..r + 1][..r] == lines[..r];
  }

  /** A progress row read after the header, before any capture, captures its gap. */
  lemma StepCapturesRow(pat: Patterns, st: ScanState, ln: string)
    requires st.sawTableHeader && !st.capturedInitialGap && IsProgressRow(pat, ln)
    ensures Step(pat, st, ln).capturedInitialGap && Step(pat, st, ln).initialGap == RowGap(pat, ln)
  {
    var o := Observe(pat, st, ln);
    assert o.sawTableHeader && !o.capturedInitialGap;
  }
}
