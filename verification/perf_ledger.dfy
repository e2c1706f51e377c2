/** The performance bookkeeping of `run_suit` in tests/auto_test.py: the
    per-test rows, the stored best-time ledger (`perf/<suite>.csv`), the
    merge of a run into it, and the speed-up column of the report. */
module PerfLedger {
  import opened Wrappers
  import opened Text
  import opened DurationCodec
  import opened StableSort

  /** What a test run reports: pass/fail and its captured message. */
  datatype RunResult = RunResult(passed: bool, message: string)

  /** One row of `performance`: name, status cell, timing message. */
  datatype PerfRow = PerfRow(name: string, status: string, msg: string)

  /** A message as a table cell: stripped, newlines shown as `<br>`. */
  function Cell(s: string): string { ReplaceNewlines(Strip(s)) }

  function PerfRowOf(name: string, res: RunResult): (r: PerfRow)
    ensures r.name == name
    ensures res.passed ==> r.status == "ACCEPTED" && r.msg == Cell(res.message)
    ensures !res.passed ==> r.status == Cell(res.message) && r.msg == ""
  {
    if res.passed then PerfRow(name, "ACCEPTED", Cell(res.message))
    else PerfRow(name, Cell(res.message), "")
  }

  /** `performance`: one row per (test name, result), sorted by name. */
  function Performance(runs: seq<Entry<RunResult>>): (r: seq<PerfRow>)
    ensures |r| == |runs|
  {
    var sorted := SortByKey(runs);
    seq(|sorted|, i requires 0 <= i < |sorted| => PerfRowOf(sorted[i].0, sorted[i].1))
  }

  lemma PerformanceSorted(runs: seq<Entry<RunResult>>)
    ensures forall i, j :: 0 <= i < j < |runs| ==> LexLe(Performance(runs)[i].name, Performance(runs)[j].name)
  {
    SortByKeyCorrect(runs);
  }

  /** This run's time of a row (`this_time`). */
  function ThisTime(row: PerfRow): Option<nat> { Strptime(row.msg) }

  /** A failed test has no time this run. */
  lemma FailedHasNoTime(name: string, res: RunResult)
    requires !res.passed
    ensures ThisTime(PerfRowOf(name, res)) == None
  {
    assert Start("") == 0;
  }

  /** The best time recorded for a test and the commit that achieved it. */
  datatype Best = Best(time: Option<nat>, hash: Option<string>)

  /** The merge of this run's time into the previous best (lines 127-130). */
  function MergeBest(last: Option<nat>, thatHash: Option<string>, time: Option<nat>, myHash: string): (b: Best)
    // a best exists iff some time is known
    ensures b.time.Some? <==> last.Some? || time.Some?
    // it is the least known time
    ensures b.time.Some? ==> b.time == last || b.time == time
    ensures b.time.Some? && last.Some? ==> b.time.value <= last.value
    ensures b.time.Some? && time.Some? ==> b.time.value <= time.value
    // the hash travels with the time it belongs to
    ensures b.time.None? ==> b.hash.None?
    ensures b.time.Some? ==> (b.time == last && b.hash == thatHash) || (b.time == time && b.hash == Some(myHash))
    // a tie keeps the previous record; a strict improvement takes this run's
    ensures last.Some? && last == time ==> b.hash == thatHash
    ensures last.Some? && time.Some? && time.value < last.value ==> b.hash == Some(myHash)
    ensures last.None? ==> b.hash == (if time.Some? then Some(myHash) else None)
  {
    if last.None? then Best(time, if time.Some? then Some(myHash) else None)
    else if time.None? then Best(last, thatHash)
    else if last.value > time.value then Best(time, Some(myHash))
    else Best(last, thatHash)
  }

  /** The ledger's best after a series of runs, each with its time and commit. */
  function BestAfter(start: Best, runs: seq<(Option<nat>, string)>): Best
  {
    if |runs| == 0 then start
    else
      var prev := BestAfter(start, runs[..|runs| - 1]);
      MergeBest(prev.time, prev.hash, runs[|runs| - 1].0, runs[|runs| - 1].1)
  }

  /** Across any series of runs the best time never rises: it is at most the
      starting best and at most every time a run produced. */
  lemma {:induction false} BestAfterIsMinimum(start: Best, runs: seq<(Option<nat>, string)>)
    ensures var b := BestAfter(start, runs);
      && (start.time.Some? ==> b.time.Some? && b.time.value <= start.time.value)
      && (forall i :: 0 <= i < |runs| && runs[i].0.Some? ==> b.time.Some? && b.time.value <= runs[i].0.value)
  {
    if |runs| > 0 {
      BestAfterIsMinimum(start, runs[..|runs| - 1]);
    }
  }

  /** The speed-up column (`increase`): `(last - this) / this`, unknown when
      either time is unknown; a zero current time raises ZeroDivisionError. */
  datatype SpeedUp = Unknown | Change(ratio: real) | DivisionByZero

  function SpeedUpOf(current: Option<nat>, last: Option<nat>): (r: SpeedUp)
    ensures r.Unknown? <==> current.None? || last.None?
    ensures r.DivisionByZero? <==> current == Some(0) && last.Some?
    ensures r.Change? ==> (current.Some? && last.Some? && current.value > 0
      && r.ratio * current.value as real == (last.value - current.value) as real)
  {
    if current.None? || last.None? then Unknown
    else if current.value == 0 then DivisionByZero
    else Change((last.value - current.value) as real / current.value as real)
  }

  function Colour(s: SpeedUp): string
  {
    if s.Change? && s.ratio < 0.0 then "red" else "green"
  }

  /** A test is shown red exactly when it got slower than the stored best. */
  lemma ColourRedIffSlower(current: Option<nat>, last: Option<nat>)
    requires SpeedUpOf(current, last) != DivisionByZero
    ensures Colour(SpeedUpOf(current, last)) == "red" <==> current.Some? && last.Some? && last.value < current.value
  {
    var s := SpeedUpOf(current, last);
    if s.Change? {
      NegativeIffProductNegative(s.ratio, current.value as real);
    }
  }

  lemma NegativeIffProductNegative(a: real, t: real)
    requires t > 0.0
    ensures a < 0.0 <==> a * t < 0.0
  {
    if a >= 0.0 { assert a * t >= 0.0 * t; }
  }

  /** The ledger file as read: missing, or its CSV rows (header first). */
  datatype LedgerFile = Missing | Present(lines: seq<seq<string>>)

  /** `last_time_dict` and `last_time_hash`. */
  datatype Ledger = Ledger(times: map<string, Option<nat>>, hashes: map<string, string>)

  predicate RowsHave(rows: seq<seq<string>>, n: nat)
  {
    forall i :: 0 <= i < |rows| ==> |rows[i]| >= n
  }

  /** The dictionary built row by row: a later row for a name wins. */
  function TimesOf(rows: seq<seq<string>>): (m: map<string, Option<nat>>)
    requires RowsHave(rows, 2)
    ensures forall n :: n in m <==> exists i :: 0 <= i < |rows| && rows[i][0] == n
  {
    if |rows| == 0 then map[]
    else
      var last := rows[|rows| - 1];
      var m := TimesOf(rows[..|rows| - 1]);
      assert forall i :: 0 <= i < |rows| - 1 ==> rows[..|rows| - 1][i] == rows[i];
      m[last[0] := Strptime(last[1])]
  }

  function HashesOf(rows: seq<seq<string>>): (m: map<string, string>)
    requires RowsHave(rows, 3)
    ensures forall n :: n in m <==> exists i :: 0 <= i < |rows| && rows[i][0] == n
  {
    if |rows| == 0 then map[]
    else
      var last := rows[|rows| - 1];
      var m := HashesOf(rows[..|rows| - 1]);
      assert forall i :: 0 <= i < |rows| - 1 ==> rows[..|rows| - 1][i] == rows[i];
      m[last[0] := last[2]]
  }

  /** Reading the ledger: an empty file or a row too short for the columns
      the code indexes raises (`None`); the hash map is only read from a file
      whose header has three columns. */
  function LoadLedger(lines: seq<seq<string>>): (r: Option<Ledger>)
    ensures r.Some? ==> |lines| > 0 && (|lines[0]| != 3 ==> r.value.hashes == map[])
    ensures r.None? <==> |lines| == 0 || !RowsHave(lines[1..], 2) || (|lines[0]| == 3 && !RowsHave(lines[1..], 3))
  {
    if |lines| == 0 then None
    else
      var rows := lines[1..];
      if !RowsHave(rows, 2) then None
      else if |lines[0]| == 3 then
        if !RowsHave(rows, 3) then None else Some(Ledger(TimesOf(rows), HashesOf(rows)))
      else Some(Ledger(TimesOf(rows), map[]))
  }

  /** `(last_time_dict.get(name), last_time_hash.get(name))`. */
  function Lookup(l: Ledger, name: string): (Option<nat>, Option<string>)
  {
    (if name in l.times then l.times[name] else None,
     if name in l.hashes then Some(l.hashes[name]) else None)
  }

  /** The row that supplies a name's entry is the last one carrying it. */
  lemma {:induction false} TimesOfLastRowWins(rows: seq<seq<string>>, i: nat)
    requires RowsHave(rows, 2) && i < |rows|
    requires forall j :: i < j < |rows| ==> rows[j][0] != rows[i][0]
    ensures TimesOf(rows)[rows[i][0]] == Strptime(rows[i][1])
  {
    if i < |rows| - 1 {
      var p := rows[..|rows| - 1];
      assert p[i] == rows[i];
      TimesOfLastRowWins(p, i);
    }
  }

  lemma {:induction false} HashesOfLastRowWins(rows: seq<seq<string>>, i: nat)
    requires RowsHave(rows, 3) && i < |rows|
    requires forall j :: i < j < |rows| ==> rows[j][0] != rows[i][0]
    ensures HashesOf(rows)[rows[i][0]] == rows[i][2]
  {
    if i < |rows| - 1 {
      var p := rows[..|rows| - 1];
      assert p[i] == rows[i];
      HashesOfLastRowWins(p, i);
    }
  }

  /** The previous best of each row (`last_time`): nothing when the file is
      missing. */
  function LastTimes(file: LedgerFile, perf: seq<PerfRow>): (r: Option<seq<(Option<nat>, Option<string>)>>)
    ensures r.Some? ==> |r.value| == |perf|
    ensures file.Missing? ==> r.Some? && forall i :: 0 <= i < |perf| ==> r.value[i] == (None, None)
  {
    match file
    case Missing => Some(seq(|perf|, _ => (None, None)))
    case Present(lines) =>
      match LoadLedger(lines)
      case None => None
      case Some(l) => Some(seq(|perf|, i requires 0 <= i < |perf| => Lookup(l, perf[i].name)))
  }

  /** One line of the markdown report. */
  datatype ReportRow = ReportRow(name: string, status: string, time: string, last: string,
                                 hash: string, speedUp: SpeedUp)

  /** The report line and the new ledger entry of one test (lines 126-136). */
  function RowOutcome(row: PerfRow, prev: (Option<nat>, Option<string>), myHash: string): (ReportRow, Best)
  {
    var time := ThisTime(row);
    var (last, thatHash) := prev;
    var best := MergeBest(last, thatHash, time, myHash);
    (ReportRow(row.name, row.status,
               if time.Some? then Strftime(time.value) else row.msg,
               if last.Some? then Strftime(last.value) else "",
               thatHash.GetOr(""), SpeedUpOf(time, last)),
     best)
  }

  /** A ledger CSV row as `csv.writer` stores it: `None` becomes ''. */
  function BestRow(name: string, b: Best): (r: seq<string>)
    ensures |r| == 3 && r[0] == name
  {
    [name, if b.time.Some? then Strftime(b.time.value) else "", b.hash.GetOr("")]
  }

  const LEDGER_TITLE: seq<string> := ["TestName", "Time", "Hash"]

  /** Outcome of the bookkeeping: the report rows and the new ledger file,
      or the exception that stops the harness. */
  datatype Bookkeeping = Report(rows: seq<ReportRow>, ledger: seq<seq<string>>) | Raised(error: string)

  function RunBookkeeping(perf: seq<PerfRow>, file: LedgerFile, myHash: string): (r: Bookkeeping)
    ensures r.Report? ==> |r.rows| == |perf| && |r.ledger| == |perf| + 1 && r.ledger[0] == LEDGER_TITLE
  {
    match LastTimes(file, perf)
    case None => Raised("malformed ledger")
    case Some(prev) =>
      var outs := seq(|perf|, i requires 0 <= i < |perf| => RowOutcome(perf[i], prev[i], myHash));
      if exists i :: 0 <= i < |perf| && outs[i].0.speedUp.DivisionByZero? then Raised("ZeroDivisionError")
      else
        Report(seq(|perf|, i requires 0 <= i < |perf| => outs[i].0),
               [LEDGER_TITLE] + seq(|perf|, i requires 0 <= i < |perf| => BestRow(perf[i].name, outs[i].1)))
  }

  predicate DistinctNames(perf: seq<PerfRow>)
  {
    forall i, j :: 0 <= i < j < |perf| ==> perf[i].name != perf[j].name
  }

  /** Reading back the ledger just written gives every test its merged best
      time and its hash (a missing hash reads back as ''). */
  lemma LedgerRoundTrip(perf: seq<PerfRow>, bests: seq<Best>, i: nat)
    requires |bests| == |perf| && DistinctNames(perf) && i < |perf|
    ensures var rows := seq(|perf|, k requires 0 <= k < |perf| => BestRow(perf[k].name, bests[k]));
      var l := LoadLedger([LEDGER_TITLE] + rows);
      l.Some? && Lookup(l.value, perf[i].name) == (bests[i].time, Some(bests[i].hash.GetOr("")))
  {
    var rows := seq(|perf|, k requires 0 <= k < |perf| => BestRow(perf[k].name, bests[k]));
    var lines := [LEDGER_TITLE] + rows;
    assert lines[1..] == rows;
    assert RowsHave(rows, 3);
    TimesOfLastRowWins(rows, i);
    HashesOfLastRowWins(rows, i);
    if bests[i].time.Some? {
      StrptimeStrftime(bests[i].time.value);
    } else {
      assert Start("") == 0;
    }
  }

  /** The ledger never regresses: after a run, the stored best of each test
      is at most its previous best and at most its time in this run. */
  lemma LedgerNeverRegresses(perf: seq<PerfRow>, file: LedgerFile, myHash: string, i: nat)
    requires DistinctNames(perf) && i < |perf|
    requires RunBookkeeping(perf, file, myHash).Report?
    ensures var next := LoadLedger(RunBookkeeping(perf, file, myHash).ledger);
      var prev := LastTimes(file, perf).value[i].0;
      var now := ThisTime(perf[i]);
      && next.Some?
      && var stored := Lookup(next.value, perf[i].name).0;
      && (prev.Some? ==> stored.Some? && stored.value <= prev.value)
      && (now.Some? ==> stored.Some? && stored.value <= now.value)
  {
    var prev := LastTimes(file, perf).value;
    var bests := seq(|perf|, k requires 0 <= k < |perf| => RowOutcome(perf[k], prev[k], myHash).1);
    var rows := seq(|perf|, k requires 0 <= k < |perf| => BestRow(perf[k].name, bests[k]));
    assert RunBookkeeping(perf, file, myHash).ledger == [LEDGER_TITLE] + rows;
    LedgerRoundTrip(perf, bests, i);
  }

  /** A ledger whose header has two columns yields no hashes: every report
      line shows an empty hash. */
  lemma TwoColumnLedgerHasNoHashes(lines: seq<seq<string>>, perf: seq<PerfRow>, i: nat)
    requires |lines| > 0 && |lines[0]| == 2 && RowsHave(lines[1..], 2) && i < |perf|
    ensures LastTimes(Present(lines), perf).Some?
    ensures LastTimes(Present(lines), perf).value[i].1 == None
    ensures RowOutcome(perf[i], LastTimes(Present(lines), perf).value[i], "h").0.hash == ""
  {
  }
}
