/**
 * The guest test runner's results file and its report: a tab-separated file of
 * `name<TAB>status<TAB>detail` rows grouped under `# suite` headers, parsed into rows,
 * counted, and turned into the runner's exit status.
 */
module RunTests {
  import opened Wrappers
  import opened Seqs
  import opened Text
  import opened Bytes
  import opened Utf8

  /** One result: `(suite, name, status, detail)`. */
  datatype Row = Row(suite: string, name: string, status: string, detail: string)

  const PASS: string := "PASS"
  const OBS: string := "OBS"
  /** The column header line the runner writes, skipped by the parser. */
  const COLUMNS: string := "suite\t"
  /** The prefix of a suite header line. */
  const HEADER: string := "# "

  /** A line that yields a row: not blank, not the column header, not a suite header. */
  predicate IsDataLine(line: string)
  {
    StrStrip(line) != "" && !(COLUMNS <= line) && !(HEADER <= line)
  }

  /** The row of a data line under the current suite: missing fields default to `?`, `?` and `''`. */
  function RowOf(suite: string, line: string): Row
  {
    var parts := Split(line, '\t');
    var name := if |parts| > 0 then parts[0] else "?";
    var status := if |parts| > 1 then parts[1] else "?";
    var detail := if |parts| > 2 then parts[2] else "";
    Row(suite, name, status, StrRStrip(detail))
  }

  /** One pass of `parse_results`'s loop: the suite after the line, and the row it yields if any. */
  function Step(suite: string, line: string): (string, Option<Row>)
  {
    if StrStrip(line) == "" || COLUMNS <= line then (suite, None)
    else if HEADER <= line then (StrStrip(line[2..]), None)
    else (suite, Some(RowOf(suite, line)))
  }

  /** The row a line yields, as a sequence of at most one. */
  function Emitted(row: Option<Row>): seq<Row>
  {
    match row
    case Some(r) => [r]
    case None => []
  }

  /** The loop of `parse_results` from suite `suite` over `lines`: the final suite and the rows, in line order. */
  function ParseFrom(suite: string, lines: seq<string>): (r: (string, seq<Row>))
    ensures |r.1| <= |lines|
  {
    if lines == [] then (suite, [])
    else
      var before := ParseFrom(suite, lines[..|lines| - 1]);
      var step := Step(before.0, lines[|lines| - 1]);
      (step.0, before.1 + Emitted(step.1))
  }

  /** `parse_results(raw)`: the lines of the decoded file, starting in suite `?`. */
  function Parse(raw: Bytes): seq<Row>
  {
    ParseFrom("?", SplitLines(Decode(raw))).1
  }

  /** `parse_results` */
  method ParseResults(raw: Bytes) returns (rows: seq<Row>)
    ensures rows == Parse(raw)
  {
    var lines := SplitLines(Decode(raw));
    var suite := "?";
    ghost var start := suite;
    rows := [];
    for i := 0 to |lines|
      invariant suite == ParseFrom(start, lines[..i]).0
      invariant rows == ParseFrom(start, lines[..i]).1
    {
      var line := lines[i];
      if StrStrip(line) == "" || COLUMNS <= line {
        SkipNext(start, lines, i, suite, rows);
        continue;
      }
      if HEADER <= line {
        HeaderNext(start, lines, i, suite, rows);
        suite := StrStrip(line[2..]);
        continue;
      }
      DataNext(start, lines, i, suite, rows);
      rows := rows + [RowOf(suite, line)];
    }
    assert lines[..|lines|] == lines;
  }

  /** A blank line or the column header leaves the loop state as it was. */
  lemma SkipNext(start: string, lines: seq<string>, i: nat, suite: string, rows: seq<Row>)
    requires i < |lines| && suite == ParseFrom(start, lines[..i]).0 && rows == ParseFrom(start, lines[..i]).1
    requires StrStrip(lines[i]) == "" || COLUMNS <= lines[i]
    ensures ParseFrom(start, lines[..i + 1]).0 == suite
    ensures ParseFrom(start, lines[..i + 1]).1 == rows
  {
    TakeNext(lines, i);
    ParseFromSnoc(start, lines[..i], lines[i]);
    assert rows + [] == rows;
  }

  /** A `# ` line starts a new suite and yields no row. */
  lemma HeaderNext(start: string, lines: seq<string>, i: nat, suite: string, rows: seq<Row>)
    requires i < |lines| && suite == ParseFrom(start, lines[..i]).0 && rows == ParseFrom(start, lines[..i]).1
    requires StrStrip(lines[i]) != "" && !(COLUMNS <= lines[i]) && HEADER <= lines[i]
    ensures ParseFrom(start, lines[..i + 1]).0 == StrStrip(lines[i][2..])
    ensures ParseFrom(start, lines[..i + 1]).1 == rows
  {
    TakeNext(lines, i);
    ParseFromSnoc(start, lines[..i], lines[i]);
    assert rows + [] == rows;
  }

  /** Any other line yields its row under the current suite. */
  lemma DataNext(start: string, lines: seq<string>, i: nat, suite: string, rows: seq<Row>)
    requires i < |lines| && suite == ParseFrom(start, lines[..i]).0 && rows == ParseFrom(start, lines[..i]).1
    requires IsDataLine(lines[i])
    ensures ParseFrom(start, lines[..i + 1]).0 == suite
    ensures ParseFrom(start, lines[..i + 1]).1 == rows + [RowOf(suite, lines[i])]
  {
    TakeNext(lines, i);
    ParseFromSnoc(start, lines[..i], lines[i]);
  }

  // --- properties of the parser ---------------------------------------------------

  lemma ParseFromSnoc(suite: string, lines: seq<string>, line: string)
    ensures ParseFrom(suite, lines + [line]).0 == Step(ParseFrom(suite, lines).0, line).0
    ensures ParseFrom(suite, lines + [line]).1 == ParseFrom(suite, lines).1 + Emitted(Step(ParseFrom(suite, lines).0, line).1)
  {
    assert (lines + [line])[..|lines|] == lines;
  }

  /** The parser reads a file line after line: parsing two runs is parsing the second from the suite the first ends in. */
  lemma {:induction false} ParseFromAppend(suite: string, a: seq<string>, b: seq<string>)
    ensures ParseFrom(suite, a + b).0 == ParseFrom(ParseFrom(suite, a).0, b).0
    ensures ParseFrom(suite, a + b).1 == ParseFrom(suite, a).1 + ParseFrom(ParseFrom(suite, a).0, b).1
    decreases |b|
  {
    if b == [] {
      assert a + b == a;
    } else {
      var init, last := b[..|b| - 1], b[|b| - 1];
      assert a + b == (a + init) + [last];
      assert b == init + [last];
      ParseFromAppend(suite, a, init);
      var first := ParseFrom(suite, a);
      var whole, tail := ParseFrom(suite, a + init), ParseFrom(first.0, init);
      var step := Step(whole.0, last);
      ParseFromSnoc(suite, a + init, last);
      ParseFromSnoc(first.0, init, last);
      assert ParseFrom(suite, a + b) == (step.0, whole.1 + Emitted(step.1));
      assert ParseFrom(first.0, b) == (step.0, tail.1 + Emitted(step.1));
      AppendAssoc(first.1, tail.1, Emitted(step.1));
    }
  }

  lemma ParseOne(suite: string, line: string)
    ensures ParseFrom(suite, [line]).0 == Step(suite, line).0
    ensures ParseFrom(suite, [line]).1 == Emitted(Step(suite, line).1)
  {
    var none: seq<string> := [];
    assert [line][..0] == none;
  }

  /** Blank lines and the column header yield no row and keep the suite. */
  lemma SkippedLine(suite: string, line: string)
    requires StrStrip(line) == "" || COLUMNS <= line
    ensures ParseFrom(suite, [line]) == (suite, [])
  {
    ParseOne(suite, line);
  }

  /** `# name` yields no row and makes the stripped name the suite of the rows after it. */
  lemma HeaderLine(suite: string, name: string)
    ensures ParseFrom(suite, [HEADER + name]) == (StrStrip(name), [])
  {
    var line := HEADER + name;
    ParseOne(suite, line);
    assert line[0] == '#' && !IsSpace(line[0]);
    assert StrStrip(line) != "" by {
      StripKeepsFirst(line);
    }
    assert line[2..] == name;
    assert HEADER <= line;
  }

  lemma StripKeepsFirst(line: string)
    requires line != [] && !IsSpace(line[0])
    ensures StrStrip(line) != ""
  {
  }

  lemma DataStep(suite: string, line: string)
    requires IsDataLine(line)
    ensures Step(suite, line) == (suite, Some(RowOf(suite, line)))
  {
  }

  /** A data line `name<TAB>status<TAB>detail` yields exactly that row, under the current suite, with the detail right-stripped. */
  lemma DataLine(suite: string, name: string, status: string, detail: string)
    requires '\t' !in name && '\t' !in status && '\t' !in detail
    requires IsDataLine(name + "\t" + status + "\t" + detail)
    ensures ParseFrom(suite, [name + "\t" + status + "\t" + detail]).0 == suite
    ensures ParseFrom(suite, [name + "\t" + status + "\t" + detail]).1 == [Row(suite, name, status, StrRStrip(detail))]
  {
    var line := name + "\t" + status + "\t" + detail;
    ThreeFieldsSplit(name, status, detail);
    DataLineRow(suite, line, [name, status, detail]);
  }

  lemma ThreeFieldsSplit(name: string, status: string, detail: string)
    requires '\t' !in name && '\t' !in status && '\t' !in detail
    ensures Split(name + "\t" + status + "\t" + detail, '\t') == [name, status, detail]
  {
    var parts := [name, status, detail];
    JoinThree(name, status, detail, '\t');
    assert Join(parts, '\t') == name + "\t" + status + "\t" + detail;
    SplitJoin(parts, '\t');
  }

  lemma DataLineRow(suite: string, line: string, parts: seq<string>)
    requires IsDataLine(line)
    requires Split(line, '\t') == parts && |parts| == 3
    ensures ParseFrom(suite, [line]).0 == suite
    ensures ParseFrom(suite, [line]).1 == [Row(suite, parts[0], parts[1], StrRStrip(parts[2]))]
  {
    RowOfParts(suite, line, parts);
    ParseOne(suite, line);
    DataStep(suite, line);
  }

  lemma JoinThree<T>(a: seq<T>, b: seq<T>, c: seq<T>, sep: T)
    ensures Join([a, b, c], sep) == a + [sep] + b + [sep] + c
  {
    var parts := [a, b, c];
    assert parts[1..] == [b, c];
    assert parts[1..][1..] == [c];
    assert Join([c], sep) == c;
    assert Join([b, c], sep) == b + [sep] + c;
  }

  lemma RowOfParts(suite: string, line: string, parts: seq<string>)
    requires Split(line, '\t') == parts && |parts| == 3
    ensures RowOf(suite, line) == Row(suite, parts[0], parts[1], StrRStrip(parts[2]))
  {
  }

  /** A data line without a tab is a name only: status `?` and an empty detail. */
  lemma NameOnlyLine(suite: string, line: string)
    requires '\t' !in line && IsDataLine(line)
    ensures ParseFrom(suite, [line]) == (suite, [Row(suite, line, "?", "")])
  {
    assert Split(line, '\t') == [line] by {
      SplitJoin([line], '\t');
      assert Join([line], '\t') == line;
    }
    assert RowOf(suite, line) == Row(suite, line, "?", "") by {
      assert StrRStrip("") == "";
    }
    ParseOne(suite, line);
    DataStep(suite, line);
  }

  /** The suite starts as `?`: data lines before any header are filed under it. */
  lemma SuiteStartsUnknown(raw: Bytes, k: nat)
    requires k < |Parse(raw)|
    requires forall i :: 0 <= i < |SplitLines(Decode(raw))| ==> !(HEADER <= SplitLines(Decode(raw))[i])
    ensures Parse(raw)[k].suite == "?"
  {
    NoHeaderKeepsSuite("?", SplitLines(Decode(raw)));
  }

  lemma {:induction false} NoHeaderKeepsSuite(suite: string, lines: seq<string>)
    requires forall i :: 0 <= i < |lines| ==> !(HEADER <= lines[i])
    ensures ParseFrom(suite, lines).0 == suite
    ensures forall k :: 0 <= k < |ParseFrom(suite, lines).1| ==> ParseFrom(suite, lines).1[k].suite == suite
  {
    if lines != [] {
      var init := lines[..|lines| - 1];
      var last := lines[|lines| - 1];
      assert forall i :: 0 <= i < |init| ==> init[i] == lines[i];
      NoHeaderKeepsSuite(suite, init);
      SplitLast(lines);
      ParseFromSnoc(suite, init, last);
      StepNoHeader(suite, last);
      var before: seq<Row> := ParseFrom(suite, init).1;
      var added: seq<Row> := Emitted(Step(suite, last).1);
      forall k | 0 <= k < |before + added|
        ensures (before + added)[k].suite == suite
      {
        if k < |before| {
          assert (before + added)[k] == before[k];
        } else {
          assert (before + added)[k] == added[k - |before|];
        }
      }
    }
  }

  /** A line that is not a suite header keeps the suite, and a row it yields is of that suite. */
  lemma StepNoHeader(suite: string, line: string)
    requires !(HEADER <= line)
    ensures Step(suite, line).0 == suite
    ensures forall r :: r in Emitted(Step(suite, line).1) ==> r.suite == suite
  {
  }

  // --- the report -------------------------------------------------------------------

  /** How many rows carry `status`. */
  function CountStatus(rows: seq<Row>, status: string): (n: nat)
    ensures n <= |rows|
  {
    if rows == [] then 0
    else CountStatus(rows[..|rows| - 1], status) + (if rows[|rows| - 1].status == status then 1 else 0)
  }

  /** How many rows count as failed: every status other than `PASS` and `OBS`. */
  function CountFailed(rows: seq<Row>): (n: nat)
    ensures n <= |rows|
  {
    if rows == [] then 0
    else CountFailed(rows[..|rows| - 1]) + (if rows[|rows| - 1].status in {PASS, OBS} then 0 else 1)
  }

  /** Every row is counted exactly once. */
  lemma {:induction false} CountsPartition(rows: seq<Row>)
    ensures CountStatus(rows, PASS) + CountFailed(rows) + CountStatus(rows, OBS) == |rows|
  {
    if rows != [] {
      CountsPartition(rows[..|rows| - 1]);
    }
  }

  /** The counters are exact: no row is failed exactly when every status is `PASS` or `OBS`. */
  lemma {:induction false} NoFailures(rows: seq<Row>)
    ensures CountFailed(rows) == 0 <==> forall k :: 0 <= k < |rows| ==> rows[k].status in {PASS, OBS}
  {
    if rows != [] {
      var init := rows[..|rows| - 1];
      NoFailures(init);
      assert forall k :: 0 <= k < |init| ==> init[k] == rows[k];
    }
  }

  /** The report's summary: `P passed, F failed`, then `, O obs` only when there were observations. */
  function Summary(passed: nat, failed: nat, obs: nat): string
  {
    Show(passed, 10) + " passed, " + Show(failed, 10) + " failed" + (if obs > 0 then ", " + Show(obs, 10) + " obs" else "")
  }

  lemma NoLetterO(n: nat)
    ensures 'o' !in Show(n, 10)
  {
    var r := Show(n, 10);
    assert r == ShowNat(n, 10);
    assert forall i :: 0 <= i < |r| ==> IsDigit(r[i], 10);
  }

  /** The word `obs` shows in the summary exactly when there were observations. */
  lemma SummaryMentionsObs(passed: nat, failed: nat, obs: nat)
    ensures Contains(Summary(passed, failed, obs), "obs") <==> obs > 0
  {
    NoLetterO(passed);
    NoLetterO(failed);
    var base := Show(passed, 10) + " passed, " + Show(failed, 10) + " failed";
    assert 'o' !in " passed, " && 'o' !in " failed";
    assert 'o' !in base;
    var summary := Summary(passed, failed, obs);
    if obs > 0 {
      var tail := ", " + Show(obs, 10) + " obs";
      assert summary == base + tail;
      assert summary[|summary| - 3..] == tail[|tail| - 3..] == "obs";
      assert OccursAt(summary, "obs", |summary| - 3);
    } else {
      assert summary == base;
      forall j: nat ensures !OccursAt(summary, "obs", j) {
        if j + 3 <= |summary| {
          assert summary[j..j + 3][0] == summary[j] != 'o';
        }
      }
    }
  }

  /** `print_results`: counts `PASS` as passed, `OBS` as obs and everything else as failed, and builds the summary. */
  method PrintResults(rows: seq<Row>) returns (passed: nat, failed: nat, obs: nat, summary: string)
    ensures passed == CountStatus(rows, PASS) && failed == CountFailed(rows) && obs == CountStatus(rows, OBS)
    ensures passed + failed + obs == |rows|
    ensures summary == Summary(passed, failed, obs)
  {
    passed, failed, obs := 0, 0, 0;
    for i := 0 to |rows|
      invariant passed == CountStatus(rows[..i], PASS)
      invariant failed == CountFailed(rows[..i])
      invariant obs == CountStatus(rows[..i], OBS)
    {
      assert rows[..i + 1][..i] == rows[..i];
      if rows[i].status == PASS {
        passed := passed + 1;
      } else if rows[i].status == OBS {
        obs := obs + 1;
      } else {
        failed := failed + 1;
      }
    }
    assert rows[..|rows|] == rows;
    CountsPartition(rows);
    summary := Show(passed, 10) + " passed, " + Show(failed, 10) + " failed";
    if obs > 0 {
      summary := summary + ", " + Show(obs, 10) + " obs";
    }
  }

  // --- the exit status ----------------------------------------------------------------

  /**
   * The exit status of `main` once the agent is started: 1 when it did not come online or no
   * results file came back (None or empty), else 0 exactly when no row failed.
   */
  function MainExit(online: bool, raw: Option<Bytes>): (code: nat)
    ensures code == 0 || code == 1
  {
    if !online then 1
    else if raw.None? || raw.value == [] then 1
    else if CountFailed(Parse(raw.value)) == 0 then 0
    else 1
  }

  lemma MainExitZero(online: bool, raw: Option<Bytes>)
    ensures MainExit(online, raw) == 0 <==>
      (online && raw.Some? && raw.value != []
       && forall k :: 0 <= k < |Parse(raw.value)| ==> Parse(raw.value)[k].status in {PASS, OBS})
  {
    if online && raw.Some? && raw.value != [] {
      NoFailures(Parse(raw.value));
    }
  }

  /**
   * The keyword parameters `Agent.start` accepts: its signature `start(self, timeout=60)`
   * (serial/agent.py:91) has no other parameter and no `**kwargs`.
   */
  const START_KEYWORDS: set<string> := {"timeout"}
  /** The keywords `main` passes to `Agent.start` (serial/run_tests.py:127). */
  const MAIN_START_KEYWORDS: set<string> := {"timeout", "pre_deploy"}

  /** How a run of the script ends: with an exit status, or with an exception that escapes `main`. */
  datatype Outcome = Exited(code: nat) | Raised(exception: string)

  /** `main` as written: the call `ag.start(timeout=60, pre_deploy=...)` is checked against `start`'s parameters first. */
  function MainAsWritten(online: bool, raw: Option<Bytes>): Outcome
  {
    if MAIN_START_KEYWORDS <= START_KEYWORDS then Exited(MainExit(online, raw)) else Raised("TypeError")
  }

  /** Whatever the guest does, `main` as written never starts the agent: the call to `start` raises `TypeError`. */
  lemma MainAsWrittenRaises(online: bool, raw: Option<Bytes>)
    ensures MainAsWritten(online, raw) == Raised("TypeError")
  {
    assert "pre_deploy" in MAIN_START_KEYWORDS && "pre_deploy" !in START_KEYWORDS;
  }
}
