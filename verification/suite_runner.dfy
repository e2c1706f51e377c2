/** Test discovery, the markdown table writer and the pass/fail exit rule
    of tests/auto_test.py. The directory listing and the existence test of
    input files are parameters. */
module SuiteRunner {
  import opened Wrappers
  import opened Text
  import opened StableSort
  import opened PerfLedger

  /** `os.path.join(a, b)` on POSIX. */
  function JoinPath(a: string, b: string): string
  {
    if StartsWith(b, "/") then b
    else if |a| == 0 || EndsWith(a, "/") then a + b
    else a + "/" + b
  }

  /** A listed file is a test exactly when it ends in `.sy` and is not hidden. */
  predicate IsTestSource(file: string)
  {
    EndsWith(file, ".sy") && !StartsWith(file, ".")
  }

  /** A test: the source path without `.sy`, the input file, the expected output. */
  datatype Task = Task(name: string, input: string, expected: string)

  const NO_INPUT: string := "/dev/null"

  function DropSuffix(s: string): string
    requires |s| >= 3
  {
    s[..|s| - 3]
  }

  function TaskOf(dir: string, file: string, existing: set<string>): (t: Task)
    requires IsTestSource(file)
  {
    var base := DropSuffix(file);
    var input := JoinPath(dir, base + ".in");
    Task(DropSuffix(JoinPath(dir, file)),
         if input in existing then input else NO_INPUT,
         JoinPath(dir, base + ".out"))
  }

  /** The task list of a directory listing, in listing order. */
  function Discover(dir: string, listing: seq<string>, existing: set<string>): (r: seq<Task>)
    ensures |r| <= |listing|
    ensures forall k :: 0 <= k < |r| ==>
      exists j :: 0 <= j < |listing| && IsTestSource(listing[j]) && r[k] == TaskOf(dir, listing[j], existing)
  {
    if |listing| == 0 then []
    else
      var rest := Discover(dir, listing[..|listing| - 1], existing);
      var f := listing[|listing| - 1];
      assert forall j :: 0 <= j < |listing| - 1 ==> listing[..|listing| - 1][j] == listing[j];
      if IsTestSource(f) then rest + [TaskOf(dir, f, existing)] else rest
  }

  /** The number of test sources in a listing. */
  function CountTests(listing: seq<string>): nat
  {
    if |listing| == 0 then 0
    else CountTests(listing[..|listing| - 1]) + (if IsTestSource(listing[|listing| - 1]) then 1 else 0)
  }

  /** Every test source of the listing becomes exactly one task. */
  lemma {:induction false} DiscoverComplete(dir: string, listing: seq<string>, existing: set<string>, j: nat)
    requires j < |listing| && IsTestSource(listing[j])
    ensures |Discover(dir, listing, existing)| == CountTests(listing)
    ensures TaskOf(dir, listing[j], existing) in Discover(dir, listing, existing)
  {
    DiscoverCount(dir, listing, existing);
    var p := listing[..|listing| - 1];
    if j < |listing| - 1 {
      assert p[j] == listing[j];
      DiscoverComplete(dir, p, existing, j);
    }
  }

  lemma {:induction false} DiscoverCount(dir: string, listing: seq<string>, existing: set<string>)
    ensures |Discover(dir, listing, existing)| == CountTests(listing)
  {
    if |listing| > 0 { DiscoverCount(dir, listing[..|listing| - 1], existing); }
  }

  /** Cutting `.sy` off the joined path names the test; appending it back
      gives the source path. */
  lemma TaskPaths(dir: string, file: string, existing: set<string>)
    requires IsTestSource(file)
    ensures TaskOf(dir, file, existing).name + ".sy" == JoinPath(dir, file)
    ensures TaskOf(dir, file, existing).name == JoinPath(dir, DropSuffix(file))
  {
    var base := DropSuffix(file);
    assert file == base + ".sy";
    if StartsWith(file, "/") {
      assert file[0] == '/' && |base| > 0 && base[0] == '/';
      assert StartsWith(base, "/");
    } else {
      assert |base| > 0 ==> base[0] == file[0];
      if |dir| == 0 || EndsWith(dir, "/") {
        assert dir + file == (dir + base) + ".sy";
      } else {
        assert dir + "/" + file == (dir + "/" + base) + ".sy";
      }
    }
    assert JoinPath(dir, file) == JoinPath(dir, base) + ".sy";
    assert (JoinPath(dir, base) + ".sy")[..|JoinPath(dir, base)|] == JoinPath(dir, base);
  }

  /** The input falls back to `/dev/null` exactly when the `.in` file is absent. */
  lemma TaskInput(dir: string, file: string, existing: set<string>)
    requires IsTestSource(file)
    ensures TaskOf(dir, file, existing).input == NO_INPUT <==> JoinPath(dir, DropSuffix(file) + ".in") !in existing
  {
    var base := DropSuffix(file);
    JoinPathEndsWith(dir, base + ".in");
    var input := JoinPath(dir, base + ".in");
    var x := base + ".in";
    assert x[|x| - 1] == 'n';
    assert input[|input| - |x|..] == x;
    assert input[|input| - 1] == input[|input| - |x|..][|x| - 1];
    assert NO_INPUT[|NO_INPUT| - 1] == 'l';
  }

  lemma JoinPathEndsWith(a: string, b: string)
    ensures EndsWith(JoinPath(a, b), b)
  {
    var j := JoinPath(a, b);
    if !StartsWith(b, "/") {
      if |a| == 0 || EndsWith(a, "/") {
        assert j[|j| - |b|..] == (a + b)[|a|..] == b;
      } else {
        assert j == (a + "/") + b;
        assert j[|j| - |b|..] == b;
      }
    }
  }

  /** One markdown table line: `| c1 | c2 | ... |`. */
  function TableLine(cells: seq<string>): string
  {
    "| " + Join(" | ", cells) + " |"
  }

  /** The separator line: `|` followed by one ` --- |` per column. */
  function Separator(columns: nat): string
  {
    "|" + Repeat(" --- |", columns)
  }

  /** The lines `write_table` prints. */
  function Table(title: seq<string>, data: seq<seq<string>>): (r: seq<string>)
    ensures |r| == |data| + 2
  {
    [TableLine(title), Separator(|title|)] + seq(|data|, i requires 0 <= i < |data| => TableLine(data[i]))
  }

  /** The number of cells a markdown line delimits. */
  function Cells(line: string): int { Count('|', line) - 1 }

  predicate NoPipes(cells: seq<string>)
  {
    forall i :: 0 <= i < |cells| ==> Count('|', cells[i]) == 0
  }

  lemma {:induction false} RepeatCount(c: char, s: string, n: nat)
    ensures Count(c, Repeat(s, n)) == n * Count(c, s)
  {
    if n > 0 {
      CountConcat(c, s, Repeat(s, n - 1));
      RepeatCount(c, s, n - 1);
    }
  }

  lemma {:induction false} JoinCount(cells: seq<string>)
    requires |cells| > 0 && NoPipes(cells)
    ensures Count('|', Join(" | ", cells)) == |cells| - 1
  {
    if |cells| > 1 {
      JoinCount(cells[1..]);
      CountConcat('|', cells[0], " | ");
      CountConcat('|', cells[0] + " | ", Join(" | ", cells[1..]));
    }
  }

  /** The separator has exactly one cell per title column. */
  lemma SeparatorCells(columns: nat)
    ensures Cells(Separator(columns)) == columns
  {
    RepeatCount('|', " --- |", columns);
    CountConcat('|', "|", Repeat(" --- |", columns));
  }

  /** A line of pipe-free cells has one cell per value; an empty list still
      prints one empty cell. */
  lemma TableLineCells(cells: seq<string>)
    requires NoPipes(cells)
    ensures Cells(TableLine(cells)) == if |cells| == 0 then 1 else |cells|
  {
    CountConcat('|', "| ", Join(" | ", cells));
    CountConcat('|', "| " + Join(" | ", cells), " |");
    if |cells| > 0 { JoinCount(cells); }
  }

  /** So the header and separator agree whenever the title is non-empty and
      its names hold no `|`. */
  lemma HeaderMatchesSeparator(title: seq<string>, data: seq<seq<string>>)
    requires |title| > 0 && NoPipes(title)
    ensures Cells(Table(title, data)[0]) == Cells(Table(title, data)[1]) == |title|
  {
    TableLineCells(title);
    SeparatorCells(|title|);
  }

  /** The end of a suite: it returns when nothing failed, and otherwise lists
      the failed tests by basename (sorted) and exits with status 1. */
  datatype SuiteEnd = Return | Exit(status: int, failed: seq<string>)

  function CountPassed(results: seq<Entry<RunResult>>): (n: nat)
    ensures n <= |results|
  {
    if |results| == 0 then 0
    else CountPassed(results[..|results| - 1]) + (if results[|results| - 1].1.passed then 1 else 0)
  }

  function FailedNames(results: seq<Entry<RunResult>>): seq<string>
  {
    if |results| == 0 then []
    else FailedNames(results[..|results| - 1]) + (if results[|results| - 1].1.passed then [] else [results[|results| - 1].0])
  }

  /** The test named `n` is among the failures. */
  predicate HasFailed(results: seq<Entry<RunResult>>, n: string)
  {
    exists i :: 0 <= i < |results| && !results[i].1.passed && results[i].0 == n
  }

  predicate AllPassed(results: seq<Entry<RunResult>>)
  {
    forall i :: 0 <= i < |results| ==> results[i].1.passed
  }

  function EndSuite(results: seq<Entry<RunResult>>): SuiteEnd
  {
    if |results| - CountPassed(results) == 0 then Return
    else Exit(1, FailedNames(SortByKey(results)))
  }

  lemma {:induction false} CountPassedAll(results: seq<Entry<RunResult>>)
    ensures CountPassed(results) == |results| <==> AllPassed(results)
  {
    if |results| > 0 {
      var p := results[..|results| - 1];
      CountPassedAll(p);
      assert forall i :: 0 <= i < |p| ==> p[i] == results[i];
    }
  }

  lemma {:induction false} FailedNamesSorted(results: seq<Entry<RunResult>>)
    requires SortedByKey(results)
    ensures forall i, j :: 0 <= i < j < |FailedNames(results)| ==> LexLe(FailedNames(results)[i], FailedNames(results)[j])
    ensures forall n :: n in FailedNames(results) <==> HasFailed(results, n)
  {
    if |results| > 0 {
      var p := results[..|results| - 1];
      assert forall i :: 0 <= i < |p| ==> p[i] == results[i];
      FailedNamesSorted(p);
      var last := results[|results| - 1];
      if !last.1.passed {
        forall i | 0 <= i < |FailedNames(p)| ensures LexLe(FailedNames(p)[i], last.0) {
          assert FailedNames(p)[i] in FailedNames(p);
        }
      }
    }
  }

  /** The exit rule: a suite exits (status 1) iff some test failed, and the
      list it prints holds exactly the failed basenames in sorted order. */
  lemma EndSuiteCorrect(results: seq<Entry<RunResult>>)
    ensures EndSuite(results).Return? <==> AllPassed(results)
    ensures EndSuite(results).Exit? ==> (EndSuite(results).status == 1
      && (forall i, j :: 0 <= i < j < |EndSuite(results).failed| ==> LexLe(EndSuite(results).failed[i], EndSuite(results).failed[j]))
      && (forall n :: n in EndSuite(results).failed <==> HasFailed(results, n)))
  {
    CountPassedAll(results);
    var s := SortByKey(results);
    SortByKeyCorrect(results);
    FailedNamesSorted(s);
    forall n ensures HasFailed(s, n) <==> HasFailed(results, n) {
      if i :| 0 <= i < |s| && !s[i].1.passed && s[i].0 == n {
        assert s[i] in multiset(results);
      }
      if i :| 0 <= i < |results| && !results[i].1.passed && results[i].0 == n {
        assert results[i] in multiset(s);
      }
    }
  }

  /** A suite as `main` runs it: the results of its tests and, for a
      performance suite (one whose directory name contains `perf`), the
      ledger file its bookkeeping reads and the commit hash it records. */
  datatype Suite = Suite(results: seq<Entry<RunResult>>, perf: Option<(LedgerFile, string)>)

  /** The bookkeeping of a performance suite raises an exception that
      nothing catches (an empty or short ledger, a zero current time). */
  predicate Raises(s: Suite)
  {
    s.perf.Some? && RunBookkeeping(Performance(s.results), s.perf.value.0, s.perf.value.1).Raised?
  }

  /** A suite after which `main` goes on to the next one. */
  predicate SuiteOk(s: Suite)
  {
    AllPassed(s.results) && !Raises(s)
  }

  /** `exit(-1)` in `usage()`: the process status is -1 modulo 256. */
  const USAGE_STATUS: int := 255
  /** The status Python exits with on an uncaught exception. */
  const UNCAUGHT_STATUS: int := 1

  /** How one suite ends: `None` when `run_suit` returns, otherwise the
      status the harness exits with. The bookkeeping runs before the
      failures are looked at, so its exception comes first. */
  function SuiteStatus(s: Suite): (r: Option<int>)
    ensures r.None? <==> SuiteOk(s)
    ensures r.Some? ==> r.value == 1
  {
    if Raises(s) then Some(UNCAUGHT_STATUS)
    else
      EndSuiteCorrect(s.results);
      match EndSuite(s.results)
      case Exit(status, _) => Some(status)
      case Return => None
  }

  /** The suites run in order; the first one that does not return ends the
      harness, so later suites are not run. Yields the number of suites run
      and the exit status. */
  function RunFrom(suites: seq<Suite>): (r: (nat, int))
    ensures r.0 <= |suites|
  {
    if |suites| == 0 then (0, 0)
    else match SuiteStatus(suites[0])
      case Some(status) => (1, status)
      case None => var (n, code) := RunFrom(suites[1..]); (n + 1, code)
  }

  /** `main`: without a `-d` suite it calls `usage()`, which exits with
      -1 before any suite runs. */
  function RunSuites(suites: seq<Suite>): (r: (nat, int))
    ensures r.0 <= |suites|
    ensures |suites| == 0 ==> r == (0, USAGE_STATUS)
  {
    if |suites| == 0 then (0, USAGE_STATUS) else RunFrom(suites)
  }

  /** Every suite runs up to the first that fails or whose bookkeeping
      raises; that one gives status 1, and status 0 means every suite ran
      with all tests passed and no exception. */
  lemma {:induction false} RunFromCorrect(suites: seq<Suite>)
    ensures var (ran, code) := RunFrom(suites);
      && (code == 0 <==> forall s :: 0 <= s < |suites| ==> SuiteOk(suites[s]))
      && (code == 0 ==> ran == |suites|)
      && (code != 0 ==> (code == 1 && 0 < ran && !SuiteOk(suites[ran - 1])
          && forall s :: 0 <= s < ran - 1 ==> SuiteOk(suites[s])))
  {
    if |suites| > 0 {
      RunFromCorrect(suites[1..]);
      assert forall s :: 0 < s < |suites| ==> suites[s] == suites[1..][s - 1];
    }
  }

  /** The exit status of the harness: 255 when no suite is named; 0
      exactly when every suite passed every test and its bookkeeping did
      not raise; otherwise 1, after running every suite up to and
      including the first that failed or raised. */
  lemma RunSuitesCorrect(suites: seq<Suite>)
    ensures |suites| == 0 ==> RunSuites(suites) == (0, USAGE_STATUS)
    ensures |suites| > 0 ==> var (ran, code) := RunSuites(suites);
      && (code == 0 <==> forall s :: 0 <= s < |suites| ==> SuiteOk(suites[s]))
      && (code == 0 ==> ran == |suites|)
      && (code != 0 ==> (code == 1 && 0 < ran && !SuiteOk(suites[ran - 1])
          && forall s :: 0 <= s < ran - 1 ==> SuiteOk(suites[s])))
  {
    RunFromCorrect(suites);
  }

  /** A performance suite whose tests all pass but whose ledger is empty
      stops the harness with status 1, and the suites after it do not run. */
  lemma EmptyLedgerStops(results: seq<Entry<RunResult>>, hash: string, rest: seq<Suite>)
    requires AllPassed(results)
    ensures RunSuites([Suite(results, Some((Present([]), hash)))] + rest) == (1, UNCAUGHT_STATUS)
  {
    var s := Suite(results, Some((Present([]), hash)));
    assert ([s] + rest)[0] == s;
  }
}
