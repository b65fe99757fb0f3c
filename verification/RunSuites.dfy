/**
 Running the suites one test file at a time, so that a node that dies takes no finished
 file's results with it, and turning what was collected into the verdict.
 */
module RunSuites {
  import opened Text
  import opened Wrappers
  import Report

  // ----- results files

  function FileName(suite: string, stem: string): string {
    "junit-" + suite + "." + stem + ".xml"
  }

  /** The index of the last dot, or -1. */
  function LastDot(s: string): int {
    if s == "" then -1 else if s[|s| - 1] == '.' then |s| - 1 else LastDot(s[..|s| - 1])
  }

  /** PurePath.stem of a bare file name. */
  function Stem(name: string): string {
    var i := LastDot(name);
    if 0 < i < |name| - 1 then name[..i] else name
  }

  function WithoutPrefix(s: string, prefix: string): string {
    if StartsWith(s, prefix) then s[|prefix|..] else s
  }

  /** The label report.py takes a results file to have. */
  function SuiteOf(name: string): string {
    Split(WithoutPrefix(Stem(name), "junit-"), '.')[0]
  }

  lemma StemOfFileName(suite: string, stem: string)
    ensures Stem(FileName(suite, stem)) == "junit-" + suite + "." + stem
  {
    var head, name := "junit-" + suite + "." + stem, FileName(suite, stem);
    assert name == head + ".xml";
    assert name[|name| - 1] == 'l' && name[..|name| - 1] == head + ".xm";
    assert (head + ".xm")[..|head| + 2] == head + ".x";
    assert (head + ".x")[..|head| + 1] == head + ".";
    assert LastDot(head + ".") == |head|;
    assert LastDot(head + ".x") == |head|;
    assert LastDot(head + ".xm") == |head|;
    assert name[..|head|] == head;
  }

  /** A label parses back from its results files' names exactly when it has no dot. */
  lemma LabelParsesBack(suite: string, stem: string)
    ensures SuiteOf(FileName(suite, stem)) == suite <==> '.' !in suite
  {
    StemOfFileName(suite, stem);
    var rest := suite + ['.'] + stem;
    assert "junit-" + suite + "." + stem == "junit-" + rest;
    assert ("junit-" + rest)[|"junit-"|..] == rest;
    if '.' !in suite {
      SplitHead(suite, '.', stem);
    } else {
      SplitPartsClean(rest, '.');
      assert Split(rest, '.')[0] in Split(rest, '.');
    }
  }

  /** Each file of each suite has results of its own. */
  lemma FileNameInjective(suite: string, stem: string, suite': string, stem': string)
    requires '.' !in suite && '.' !in suite'
    requires FileName(suite, stem) == FileName(suite', stem')
    ensures suite == suite' && stem == stem'
  {
    LabelParsesBack(suite, stem);
    LabelParsesBack(suite', stem');
    StemOfFileName(suite, stem);
    StemOfFileName(suite', stem');
    var head := "junit-" + suite + ".";
    assert Stem(FileName(suite, stem)) == head + stem && Stem(FileName(suite', stem')) == head + stem';
    assert (head + stem)[|head|..] == stem && (head + stem')[|head|..] == stem';
  }

  /** With dots in labels two suites can write the same file. */
  lemma DottedLabelsCollide(a: string, b: string, c: string)
    ensures FileName(a + "." + b, c) == FileName(a, b + "." + c)
  {
  }

  // ----- one suite

  /** What a results file holds: a report, or the first part of one, which is not well-formed. */
  datatype Fetched = Whole(cases: seq<Report.Case>) | CutShort

  /**
   What came of one test file: its process, and what could be fetched afterwards, if anything;
   or one of the two calls took too long, which raises. What is fetched is whatever the file
   on the node holds: the report of this run, of an earlier one that this run did not replace,
   or as much of either as arrived before the node went away.
   */
  datatype FileRun =
    | Ran(code: int, report: Option<Fetched>)
    | TimedOut

  datatype Stop = NotReady | NoTestFiles | FileTimedOut

  const SSH_LOST := 255

  /** pytest's 5 means nothing in the file matched the marker. */
  predicate IsGood(code: int) {
    code == 0 || code == 5
  }

  /** The files whose run is over, in order: none after a lost connection or a timeout. */
  function Finished(files: seq<string>, run: string -> FileRun): seq<string> {
    if files == [] then []
    else match run(files[0])
      case TimedOut => []
      case Ran(code, _) => [files[0]] + if code == SSH_LOST then [] else Finished(files[1..], run)
  }

  predicate AnyTimesOut(files: seq<string>, run: string -> FileRun) {
    files != [] && (run(files[0]).TimedOut? || (run(files[0]).code != SSH_LOST && AnyTimesOut(files[1..], run)))
  }

  predicate AllGood(files: seq<string>, run: string -> FileRun) {
    forall i | 0 <= i < |files| :: run(files[i]).Ran? && IsGood(run(files[i]).code)
  }

  lemma AllGoodSnoc(files: seq<string>, file: string, run: string -> FileRun)
    ensures AllGood(files + [file], run) <==> AllGood(files, run) && run(file).Ran? && IsGood(run(file).code)
  {
    var all := files + [file];
    assert forall i | 0 <= i < |files| :: all[i] == files[i];
    assert all[|files|] == file;
  }

  type Results = map<string, Fetched>

  function Collected(results: Results, suite: string, files: seq<string>, run: string -> FileRun): Results {
    if files == [] then results
    else
      var last := files[|files| - 1];
      var before := Collected(results, suite, files[..|files| - 1], run);
      match run(last)
      case Ran(_, Some(fetched)) => before[FileName(suite, last) := fetched]
      case _ => before
  }

  lemma {:induction false} FinishedIsPrefix(files: seq<string>, run: string -> FileRun)
    ensures Finished(files, run) <= files
    ensures forall f | f in Finished(files, run) :: run(f).Ran?
    ensures forall i | 0 <= i < |Finished(files, run)| - 1 :: run(files[i]).code != SSH_LOST
    ensures |Finished(files, run)| < |files| ==>
      || run(files[|Finished(files, run)|]).TimedOut?
      || (Finished(files, run) != [] && run(files[|Finished(files, run)| - 1]).code == SSH_LOST)
  {
    if files != [] && run(files[0]).Ran? && run(files[0]).code != SSH_LOST {
      FinishedIsPrefix(files[1..], run);
      var more := Finished(files[1..], run);
      assert files == [files[0]] + files[1..];
      assert Finished(files, run) == [files[0]] + more;
    }
  }

  /** What one more file adds. */
  lemma FinishedStep(files: seq<string>, i: nat, run: string -> FileRun, done: seq<string>)
    requires i < |files|
    ensures files[i..] != []
    ensures run(files[i]).TimedOut? ==> done + Finished(files[i..], run) == done && AnyTimesOut(files[i..], run)
    ensures run(files[i]).Ran? && run(files[i]).code == SSH_LOST ==>
      done + Finished(files[i..], run) == done + [files[i]] && !AnyTimesOut(files[i..], run)
    ensures run(files[i]).Ran? && run(files[i]).code != SSH_LOST ==>
      && done + Finished(files[i..], run) == (done + [files[i]]) + Finished(files[i + 1..], run)
      && AnyTimesOut(files[i..], run) == AnyTimesOut(files[i + 1..], run)
  {
    assert files[i..][1..] == files[i + 1..] && files[i..][0] == files[i];
    assert done + [] == done;
    assert done + ([files[i]] + Finished(files[i + 1..], run)) == (done + [files[i]]) + Finished(files[i + 1..], run);
    assert done + ([files[i]] + []) == done + [files[i]];
  }

  lemma CollectedStep(results: Results, suite: string, files: seq<string>, file: string, run: string -> FileRun)
    ensures Collected(results, suite, files + [file], run) ==
            if run(file).Ran? && run(file).report.Some?
            then Collected(results, suite, files, run)[FileName(suite, file) := run(file).report.value]
            else Collected(results, suite, files, run)
  {
    assert (files + [file])[..|files|] == files;
  }

  /**
   Each suite to run: whether its tests can be copied and listed, the test files then on the
   node, and what will come of each.
   */
  datatype Pass = Pass(suite: string, ready: bool, files: seq<string>, run: string -> FileRun)

  class Collector {
    var results: Results
    var status: int

    constructor (results: Results)
      ensures this.results == results && status == 0
    {
      this.results, status := results, 0;
    }

    /** What is left of one file's run: its status, and its report if there is one. */
    method Collect(suite: string, path: string, ran: FileRun)
      requires ran.Ran?
      modifies this
      ensures status == if IsGood(ran.code) then old(status) else ran.code
      ensures results == if ran.report.Some? then old(results)[FileName(suite, path) := ran.report.value] else old(results)
    {
      if !IsGood(ran.code) {
        status := ran.code;
      }
      if ran.report.Some? {
        results := results[FileName(suite, path) := ran.report.value];
      }
    }

    method One(suite: string, files: seq<string>, run: string -> FileRun) returns (stop: Option<Stop>)
      modifies this
      ensures files == [] ==> stop == Some(NoTestFiles)
      ensures files != [] ==> stop == if AnyTimesOut(files, run) then Some(FileTimedOut) else None
      ensures results == Collected(old(results), suite, Finished(files, run), run)
      ensures status == 0 <==> old(status) == 0 && AllGood(Finished(files, run), run)
    {
      if files == [] {
        return Some(NoTestFiles);
      }
      var i := 0;
      ghost var done: seq<string> := [];
      assert files[0..] == files;
      while i < |files|
        invariant 0 <= i <= |files|
        invariant Finished(files, run) == done + Finished(files[i..], run)
        invariant AnyTimesOut(files, run) == AnyTimesOut(files[i..], run)
        invariant results == Collected(old(results), suite, done, run)
        invariant status == 0 <==> old(status) == 0 && AllGood(done, run)
      {
        FinishedStep(files, i, run, done);
        var path := files[i];
        if run(path).TimedOut? {
          return Some(FileTimedOut);
        }
        AllGoodSnoc(done, path, run);
        CollectedStep(old(results), suite, done, path, run);
        done := done + [path];
        Collect(suite, path, run(path));
        if run(path).code == SSH_LOST {
          return None;
        }
        i := i + 1;
      }
      assert files[i..] == [] && done + [] == done;
      return None;
    }

    /** run_suites: one pass a profile, and one for the storage pairs if there are any. */
    method RunAll(profiles: seq<string>, cross: bool, storages: nat, only: Option<string>,
                  shipped: bool, node: nat -> Answers)
        returns (r: Ended)
      requires status == 0
      modifies this
      ensures !shipped ==> r == Raised(NotReady) && results == old(results)
      ensures shipped ==>
              var passes := Passes(Suites(profiles, cross, storages, only), node);
              && results == CollectedAll(old(results), UpToStop(passes))
              && (r == Returned(0) <==> AllWell(passes))
              && (r.Raised? <==> AnyStops(passes))
    {
      if !shipped {
        return Raised(NotReady);
      }
      var suites := Suites(profiles, cross, storages, only);
      ghost var passes := Passes(suites, node);
      assert passes[..0] == [];
      for k := 0 to |suites|
        invariant !AnyStops(passes[..k])
        invariant results == CollectedAll(old(results), passes[..k])
        invariant status == 0 <==> AllWell(passes[..k])
      {
        TakeOneMore(passes, k);
        if !node(k).ready {
          StopsAt(passes, k);
          return Raised(NotReady);
        }
        var stop := One(suites[k], node(k).files, node(k).run);
        if stop.Some? {
          StopsAt(passes, k);
          return Raised(stop.value);
        }
      }
      assert passes[..|suites|] == passes;
      NeverStops(passes);
      return Returned(status);
    }
  }

  // ----- all suites

  datatype Answers = Answers(ready: bool, files: seq<string>, run: string -> FileRun)

  datatype Ended = Returned(status: int) | Raised(stop: Stop)

  function Chosen(profiles: seq<string>, only: Option<string>): seq<string> {
    if profiles == [] then []
    else
      (if only.Some? && only.value != "" && only.value != profiles[0] then [] else [profiles[0]]) +
      Chosen(profiles[1..], only)
  }

  function Suites(profiles: seq<string>, cross: bool, storages: nat, only: Option<string>): seq<string> {
    Chosen(profiles, only) +
    if cross && (only.None? || only.value == "cross") && storages >= 2 then ["cross"] else []
  }

  function Passes(suites: seq<string>, node: nat -> Answers): seq<Pass> {
    seq(|suites|, k requires 0 <= k < |suites| => Pass(suites[k], node(k).ready, node(k).files, node(k).run))
  }

  function PassStop(p: Pass): Option<Stop> {
    if !p.ready then Some(NotReady)
    else if p.files == [] then Some(NoTestFiles)
    else if AnyTimesOut(p.files, p.run) then Some(FileTimedOut)
    else None
  }

  /** Nothing stopped the pass, and every file it ran returned 0, or 5 for none selected. */
  predicate WentWell(p: Pass) {
    PassStop(p).None? && AllGood(FinishedOf(p), p.run)
  }

  function FinishedOf(p: Pass): seq<string> {
    if p.ready then Finished(p.files, p.run) else []
  }

  /** The passes that are begun: all, or those up to the first that raises. */
  function UpToStop(passes: seq<Pass>): seq<Pass> {
    if passes == [] then []
    else [passes[0]] + if PassStop(passes[0]).Some? then [] else UpToStop(passes[1..])
  }

  /** Nothing stopped any pass, and every file that ran returned 0, or 5 for none selected. */
  predicate AllWell(passes: seq<Pass>) {
    passes == [] || (AllWell(passes[..|passes| - 1]) && WentWell(passes[|passes| - 1]))
  }

  predicate AnyStops(passes: seq<Pass>) {
    passes != [] && (AnyStops(passes[..|passes| - 1]) || PassStop(passes[|passes| - 1]).Some?)
  }

  lemma {:induction false} AnyStopsMeansOne(passes: seq<Pass>)
    ensures AnyStops(passes) <==> exists k | 0 <= k < |passes| :: PassStop(passes[k]).Some?
  {
    if passes != [] {
      var n := |passes| - 1;
      AnyStopsMeansOne(passes[..n]);
      assert forall k | 0 <= k < n :: passes[..n][k] == passes[k];
    }
  }

  lemma {:induction false} EachWentWell(passes: seq<Pass>)
    ensures AllWell(passes) <==> forall k | 0 <= k < |passes| :: WentWell(passes[k])
  {
    if passes != [] {
      var n := |passes| - 1;
      EachWentWell(passes[..n]);
      assert forall k | 0 <= k < n :: passes[..n][k] == passes[k];
    }
  }

  lemma {:induction false} AllWellMeansEach(passes: seq<Pass>)
    ensures AllWell(passes) <==> forall k | 0 <= k < |passes| :: WentWell(passes[k])
    ensures AllWell(passes) ==> !AnyStops(passes)
  {
    EachWentWell(passes);
    AnyStopsMeansOne(passes);
  }

  lemma {:induction false} TakeOneMore(passes: seq<Pass>, k: nat)
    requires k < |passes|
    ensures AllWell(passes[..k + 1]) <==> AllWell(passes[..k]) && WentWell(passes[k])
    ensures AnyStops(passes[..k + 1]) <==> AnyStops(passes[..k]) || PassStop(passes[k]).Some?
    ensures forall r ::
      CollectedAll(r, passes[..k + 1]) == Collected(CollectedAll(r, passes[..k]), passes[k].suite, FinishedOf(passes[k]), passes[k].run)
  {
    var more := passes[..k + 1];
    assert more[..|more| - 1] == passes[..k] && more[|more| - 1] == passes[k];
  }

  lemma {:induction false} StopsAt(passes: seq<Pass>, k: nat)
    requires k < |passes| && PassStop(passes[k]).Some? && !AnyStops(passes[..k])
    ensures UpToStop(passes) == passes[..k + 1]
    ensures AnyStops(passes) && !AllWell(passes)
  {
    AnyStopsMeansOne(passes[..k]);
    AnyStopsMeansOne(passes);
    AllWellMeansEach(passes);
    assert !WentWell(passes[k]);
    assert forall j | 0 <= j < k :: passes[..k][j] == passes[j];
    StopsFirstAt(passes, k);
  }

  lemma {:induction false} StopsFirstAt(passes: seq<Pass>, k: nat)
    requires k < |passes| && PassStop(passes[k]).Some?
    requires forall j | 0 <= j < k :: PassStop(passes[j]).None?
    ensures UpToStop(passes) == passes[..k + 1]
  {
    if k > 0 {
      StopsFirstAt(passes[1..], k - 1);
      assert [passes[0]] + passes[1..][..k] == passes[..k + 1];
    }
  }

  lemma {:induction false} NeverStops(passes: seq<Pass>)
    requires !AnyStops(passes)
    ensures UpToStop(passes) == passes
  {
    AnyStopsMeansOne(passes);
    if passes != [] {
      var rest := passes[1..];
      AnyStopsMeansOne(rest);
      assert forall j | 0 <= j < |rest| :: rest[j] == passes[j + 1];
      NeverStops(rest);
    }
  }

  function CollectedAll(results: Results, passes: seq<Pass>): Results {
    if passes == [] then results
    else
      var last := passes[|passes| - 1];
      Collected(CollectedAll(results, passes[..|passes| - 1]), last.suite, FinishedOf(last), last.run)
  }

  // ----- nothing that was finished is lost

  /** A file of this pass finished and left a report. */
  ghost predicate Reported(p: Pass, f: string) {
    f in FinishedOf(p) && p.run(f).Ran? && p.run(f).report.Some?
  }

  ghost predicate Separate(passes: seq<Pass>) {
    && (forall k | 0 <= k < |passes| :: '.' !in passes[k].suite)
    && (forall j, k | 0 <= j < k < |passes| :: passes[j].suite != passes[k].suite)
  }

  lemma {:induction false} CollectedHas(results: Results, suite: string, files: seq<string>, run: string -> FileRun, f: string)
    requires '.' !in suite && f in files && run(f).Ran? && run(f).report.Some?
    ensures FileName(suite, f) in Collected(results, suite, files, run)
    ensures Collected(results, suite, files, run)[FileName(suite, f)] == run(f).report.value
  {
    var front, last := files[..|files| - 1], files[|files| - 1];
    assert files == front + [last];
    if last != f {
      CollectedHas(results, suite, front, run, f);
      if FileName(suite, last) == FileName(suite, f) {
        FileNameInjective(suite, last, suite, f);
      }
    }
  }

  lemma {:induction false} CollectedElsewhere(results: Results, suite: string, files: seq<string>, run: string -> FileRun, name: string)
    requires forall f | f in files && run(f).Ran? && run(f).report.Some? :: name != FileName(suite, f)
    ensures name in Collected(results, suite, files, run) <==> name in results
    ensures name in results ==> Collected(results, suite, files, run)[name] == results[name]
  {
    if files != [] {
      var front, last := files[..|files| - 1], files[|files| - 1];
      assert files == front + [last];
      CollectedElsewhere(results, suite, front, run, name);
    }
  }

  /** A pass leaves the results of other suites alone. */
  lemma OtherSuiteStays(results: Results, p: Pass, suite: string, f: string)
    requires '.' !in p.suite && '.' !in suite && p.suite != suite && FileName(suite, f) in results
    ensures var after := Collected(results, p.suite, FinishedOf(p), p.run);
            FileName(suite, f) in after && after[FileName(suite, f)] == results[FileName(suite, f)]
  {
    forall g ensures FileName(suite, f) != FileName(p.suite, g) {
      if FileName(suite, f) == FileName(p.suite, g) {
        FileNameInjective(suite, f, p.suite, g);
      }
    }
    CollectedElsewhere(results, p.suite, FinishedOf(p), p.run, FileName(suite, f));
  }

  /** Whatever happens later, in this suite or another, a finished file's report is there at the end. */
  lemma {:induction false} ReportsAreKept(results: Results, passes: seq<Pass>, k: nat, f: string)
    requires Separate(passes) && k < |passes| && Reported(passes[k], f)
    ensures FileName(passes[k].suite, f) in CollectedAll(results, passes)
    ensures CollectedAll(results, passes)[FileName(passes[k].suite, f)] == passes[k].run(f).report.value
  {
    var n := |passes| - 1;
    var front, last := passes[..n], passes[n];
    if k == n {
      CollectedHas(CollectedAll(results, front), last.suite, FinishedOf(last), last.run, f);
    } else {
      assert front[k] == passes[k] && Separate(front);
      ReportsAreKept(results, front, k, f);
      OtherSuiteStays(CollectedAll(results, front), last, passes[k].suite, f);
    }
  }

  /** No run clears the directory: an earlier run's results that this one does not replace are still read. */
  lemma {:induction false} LeftoversStay(results: Results, passes: seq<Pass>, name: string)
    requires name in results
    requires forall k, f | 0 <= k < |passes| && Reported(passes[k], f) :: name != FileName(passes[k].suite, f)
    ensures name in CollectedAll(results, passes) && CollectedAll(results, passes)[name] == results[name]
  {
    if passes != [] {
      var n := |passes| - 1;
      var front, last := passes[..n], passes[n];
      assert forall k | 0 <= k < n :: front[k] == passes[k];
      LeftoversStay(results, front, name);
      forall f | f in FinishedOf(last) && last.run(f).Ran? && last.run(f).report.Some? ensures name != FileName(last.suite, f) {
        assert Reported(passes[n], f);
      }
      CollectedElsewhere(CollectedAll(results, front), last.suite, FinishedOf(last), last.run, name);
    }
  }

  ghost predicate IsReportOf(name: string, passes: seq<Pass>, k: nat, f: string) {
    k < |passes| && Reported(passes[k], f) && name == FileName(passes[k].suite, f)
  }

  /** And every results file that was not there before is such a report. */
  lemma {:induction false} NothingElseIsCollected(results: Results, passes: seq<Pass>, name: string) returns (k: nat, f: string)
    requires name in CollectedAll(results, passes) && name !in results
    ensures IsReportOf(name, passes, k, f)
  {
    var n := |passes| - 1;
    var front, last := passes[..n], passes[n];
    if name in CollectedAll(results, front) {
      k, f := NothingElseIsCollected(results, front, name);
    } else {
      k := n;
      if g :| g in FinishedOf(last) && last.run(g).Ran? && last.run(g).report.Some? && name == FileName(last.suite, g) {
        f := g;
      } else {
        CollectedElsewhere(CollectedAll(results, front), last.suite, FinishedOf(last), last.run, name);
        f := "";
      }
    }
  }

  // ----- from the node to the verdict

  ghost predicate Lists(names: seq<string>, results: Results) {
    && (forall n :: n in names <==> n in results)
    && forall i, j | 0 <= i < j < |names| :: names[i] != names[j]
  }

  predicate AllParse(names: seq<string>, results: Results)
    requires forall n | n in names :: n in results
  {
    forall i | 0 <= i < |names| :: results[names[i]].Whole?
  }

  /** The results directory as report.py reads it, file by file in the order of the names. */
  function Read(names: seq<string>, results: Results): seq<Report.Junit>
    requires (forall n | n in names :: n in results) && AllParse(names, results)
  {
    seq(|names|, i requires 0 <= i < |names| => Report.Junit(SuiteOf(names[i]), results[names[i]].cases))
  }

  /** The exit status: parsing a file that is not well-formed ends the report before its verdict. */
  function ExitStatus(entries: seq<Report.Entry>, names: seq<string>, results: Results, glob: (string, string) -> bool): int
    requires forall n | n in names :: n in results
  {
    if AllParse(names, results) then Report.Status(entries, Read(names, results), glob) else 1
  }

  /** report.py over the directory: no summary once a file does not parse. */
  method ReportOn(entries: seq<Report.Entry>, names: seq<string>, results: Results, glob: (string, string) -> bool)
      returns (summary: Option<Report.Summary>, status: int)
    requires forall n | n in names :: n in results
    ensures status == ExitStatus(entries, names, results, glob)
    ensures summary.Some? <==> AllParse(names, results)
  {
    var junits := [];
    for i := 0 to |names|
      invariant forall k | 0 <= k < i :: results[names[k]].Whole?
      invariant |junits| == i
      invariant forall k | 0 <= k < i :: results[names[k]].Whole? && junits[k] == Report.Junit(SuiteOf(names[k]), results[names[k]].cases)
    {
      if results[names[i]].CutShort? {
        return None, 1;
      }
      junits := junits + [Report.Junit(SuiteOf(names[i]), results[names[i]].cases)];
    }
    assert junits == Read(names, results);
    var s, st := Report.Verdict(junits, entries, glob);
    return Some(s), st;
  }

  ghost predicate Acceptable(entries: seq<Report.Entry>, glob: (string, string) -> bool, suite: string, c: Report.Case) {
    var t := Report.Tagged(suite, c);
    && (Report.HasFailed(t) ==> Report.Declared(entries, t, glob))
    && (c.outcome == Report.Passed ==> !Report.Declared(entries, t, glob))
  }

  lemma {:induction false} CasesOf(junits: seq<Report.Junit>, t: Report.Tagged)
    ensures t in Report.AllCases(junits) <==> exists j | j in junits :: j.suite == t.suite && t.case_ in j.cases
  {
    if junits != [] {
      var front, last := junits[..|junits| - 1], junits[|junits| - 1];
      assert junits == front + [last];
      CasesOf(front, t);
      var tagged := Report.TagAll(last.suite, last.cases);
      assert t in tagged <==> last.suite == t.suite && t.case_ in last.cases by {
        if last.suite == t.suite && t.case_ in last.cases {
          var i :| 0 <= i < |last.cases| && last.cases[i] == t.case_;
          assert tagged[i] == t;
        }
      }
    }
  }

  ghost predicate FetchAcceptable(entries: seq<Report.Entry>, glob: (string, string) -> bool, suite: string, f: Fetched) {
    f.Whole? && forall c | c in f.cases :: Acceptable(entries, glob, suite, c)
  }

  /** Of every file that finished with a report, the report arrived whole and says nothing unexpected. */
  ghost predicate AllAcceptable(passes: seq<Pass>, entries: seq<Report.Entry>, glob: (string, string) -> bool) {
    forall k, f | 0 <= k < |passes| && Reported(passes[k], f) ::
      FetchAcceptable(entries, glob, passes[k].suite, passes[k].run(f).report.value)
  }

  /** A file that was there before holds what the last run to write it left, unless this run did. */
  ghost predicate LeftoversAcceptable(start: Results, passes: seq<Pass>, entries: seq<Report.Entry>, glob: (string, string) -> bool) {
    forall name | name in start && !IsReplaced(name, passes) :: FetchAcceptable(entries, glob, SuiteOf(name), start[name])
  }

  ghost predicate IsReplaced(name: string, passes: seq<Pass>) {
    exists k: nat, f :: IsReportOf(name, passes, k, f)
  }

  ghost predicate AnyReported(passes: seq<Pass>) {
    exists k, f :: 0 <= k < |passes| && Reported(passes[k], f)
  }

  /** What a results file holds in the end, and under which label it is read. */
  lemma FileHolds(start: Results, passes: seq<Pass>, name: string)
    requires Separate(passes) && name in CollectedAll(start, passes)
    ensures IsReplaced(name, passes) || name in start
    ensures forall k: nat, f | IsReportOf(name, passes, k, f) ::
      CollectedAll(start, passes)[name] == passes[k].run(f).report.value && SuiteOf(name) == passes[k].suite
    ensures !IsReplaced(name, passes) ==> name in start && CollectedAll(start, passes)[name] == start[name]
  {
    forall k: nat, f | IsReportOf(name, passes, k, f)
      ensures CollectedAll(start, passes)[name] == passes[k].run(f).report.value && SuiteOf(name) == passes[k].suite
    {
      ReportsAreKept(start, passes, k, f);
      LabelParsesBack(passes[k].suite, f);
    }
    if !IsReplaced(name, passes) {
      if name in start {
        forall k: nat, f | 0 <= k < |passes| && Reported(passes[k], f) ensures name != FileName(passes[k].suite, f) {
          assert !IsReportOf(name, passes, k, f);
        }
        LeftoversStay(start, passes, name);
      } else {
        var k, f := NothingElseIsCollected(start, passes, name);
      }
    }
  }

  lemma AnyFileMeansAny(start: Results, passes: seq<Pass>, names: seq<string>)
    requires Separate(passes) && Lists(names, CollectedAll(start, passes))
    ensures names != [] <==> start != map[] || AnyReported(passes)
  {
    if names != [] {
      FileHolds(start, passes, names[0]);
    }
    if AnyReported(passes) {
      var k: nat, f :| 0 <= k < |passes| && Reported(passes[k], f);
      ReportsAreKept(start, passes, k, f);
      assert FileName(passes[k].suite, f) in names;
    } else if start != map[] {
      var name :| name in start;
      LeftoversStay(start, passes, name);
      assert name in names;
    }
  }

  /** The cases the report reads are those of the results files, under the labels of their names. */
  lemma CasesRead(names: seq<string>, results: Results, suite: string, c: Report.Case)
    requires Lists(names, results) && AllParse(names, results)
    ensures Report.Tagged(suite, c) in Report.AllCases(Read(names, results)) <==>
            exists n | n in results :: SuiteOf(n) == suite && HasCase(results[n], c)
  {
    var junits := Read(names, results);
    CasesOf(junits, Report.Tagged(suite, c));
    if exists n | n in results :: SuiteOf(n) == suite && HasCase(results[n], c) {
      var n :| n in results && SuiteOf(n) == suite && HasCase(results[n], c);
      var i :| 0 <= i < |names| && names[i] == n;
      assert junits[i] in junits;
    }
  }

  predicate HasCase(f: Fetched, c: Report.Case) {
    f.Whole? && c in f.cases
  }

  ghost predicate FilesAcceptable(results: Results, entries: seq<Report.Entry>, glob: (string, string) -> bool) {
    forall n | n in results :: FetchAcceptable(entries, glob, SuiteOf(n), results[n])
  }

  lemma StatusOfParsed(names: seq<string>, results: Results, entries: seq<Report.Entry>, glob: (string, string) -> bool)
    requires Lists(names, results) && AllParse(names, results)
    ensures Report.Status(entries, Read(names, results), glob) == 0 <==>
            names != [] && FilesAcceptable(results, entries, glob)
  {
    var junits := Read(names, results);
    Report.VerdictMeaning(entries, junits, glob);
    forall suite, c
      ensures Report.Tagged(suite, c) in Report.AllCases(junits) <==>
              exists n | n in results :: SuiteOf(n) == suite && HasCase(results[n], c)
    {
      CasesRead(names, results, suite, c);
    }
    if Report.Status(entries, junits, glob) == 0 {
      forall n | n in results ensures FetchAcceptable(entries, glob, SuiteOf(n), results[n]) {
        assert n in names;
        forall c | c in results[n].cases ensures Acceptable(entries, glob, SuiteOf(n), c) {
          assert HasCase(results[n], c);
          assert Report.Tagged(SuiteOf(n), c) in Report.AllCases(junits);
        }
      }
    }
    if FilesAcceptable(results, entries, glob) {
      forall t | t in Report.AllCases(junits)
        ensures Report.HasFailed(t) ==> Report.Declared(entries, t, glob)
        ensures t.case_.outcome == Report.Passed ==> !Report.Declared(entries, t, glob)
      {
        assert t == Report.Tagged(t.suite, t.case_);
        var n :| n in results && SuiteOf(n) == t.suite && HasCase(results[n], t.case_);
        assert Acceptable(entries, glob, SuiteOf(n), t.case_);
      }
    }
  }

  lemma StatusOfFiles(names: seq<string>, results: Results, entries: seq<Report.Entry>, glob: (string, string) -> bool)
    requires Lists(names, results)
    ensures ExitStatus(entries, names, results, glob) == 0 <==> names != [] && FilesAcceptable(results, entries, glob)
  {
    if AllParse(names, results) {
      StatusOfParsed(names, results, entries, glob);
    } else {
      var i :| 0 <= i < |names| && results[names[i]].CutShort?;
      assert names[i] in results;
    }
  }

  lemma FilesAreReportsAndLeftovers(start: Results, passes: seq<Pass>, entries: seq<Report.Entry>, glob: (string, string) -> bool)
    requires Separate(passes)
    ensures FilesAcceptable(CollectedAll(start, passes), entries, glob) <==>
            AllAcceptable(passes, entries, glob) && LeftoversAcceptable(start, passes, entries, glob)
  {
    var results := CollectedAll(start, passes);
    forall n | n in results
      ensures IsReplaced(n, passes) || n in start
      ensures forall k: nat, f | IsReportOf(n, passes, k, f) :: results[n] == passes[k].run(f).report.value && SuiteOf(n) == passes[k].suite
      ensures !IsReplaced(n, passes) ==> n in start && results[n] == start[n]
    {
      FileHolds(start, passes, n);
    }
    if FilesAcceptable(results, entries, glob) {
      forall k: nat, f | 0 <= k < |passes| && Reported(passes[k], f)
        ensures FetchAcceptable(entries, glob, passes[k].suite, passes[k].run(f).report.value)
      {
        ReportsAreKept(start, passes, k, f);
        assert IsReportOf(FileName(passes[k].suite, f), passes, k, f);
      }
      forall name | name in start && !IsReplaced(name, passes) ensures FetchAcceptable(entries, glob, SuiteOf(name), start[name]) {
        assert forall k: nat, f | 0 <= k < |passes| && Reported(passes[k], f) :: !IsReportOf(name, passes, k, f);
        LeftoversStay(start, passes, name);
      }
    }
  }

  /**
   End to end, whatever results were there before: the report's status is 0 exactly when there
   is a result at all, the report of every file that finished with one, in whatever suite and
   before whatever loss, arrived whole, and in it each failing case was declared and no passing
   one was, and the same holds of every earlier result that this run did not replace.
   */
  lemma {:induction false} VerdictOfARun(start: Results, passes: seq<Pass>, names: seq<string>,
                                         entries: seq<Report.Entry>, glob: (string, string) -> bool)
    requires Separate(passes) && Lists(names, CollectedAll(start, passes))
    ensures ExitStatus(entries, names, CollectedAll(start, passes), glob) == 0 <==>
            && (start != map[] || AnyReported(passes))
            && AllAcceptable(passes, entries, glob)
            && LeftoversAcceptable(start, passes, entries, glob)
  {
    StatusOfFiles(names, CollectedAll(start, passes), entries, glob);
    AnyFileMeansAny(start, passes, names);
    FilesAreReportsAndLeftovers(start, passes, entries, glob);
  }

  /** From an empty directory only what finished counts. */
  lemma {:induction false} VerdictOfAFirstRun(passes: seq<Pass>, names: seq<string>, entries: seq<Report.Entry>, glob: (string, string) -> bool)
    requires Separate(passes) && Lists(names, CollectedAll(map[], passes))
    ensures ExitStatus(entries, names, CollectedAll(map[], passes), glob) == 0 <==>
            AnyReported(passes) && AllAcceptable(passes, entries, glob)
  {
    VerdictOfARun(map[], passes, names, entries, glob);
  }

  /**
   A node that goes away while a report is fetched leaves the first part of it. All finished
   files' reports are still there, but the report over them ends at that file, with no summary:
   it comes out exactly if every results file arrived whole, in this run or an earlier one.
   */
  lemma {:induction false} SummaryNeedsEveryFile(start: Results, passes: seq<Pass>, names: seq<string>)
    requires Separate(passes) && Lists(names, CollectedAll(start, passes))
    ensures AllParse(names, CollectedAll(start, passes)) <==>
            && (forall k, f | 0 <= k < |passes| && Reported(passes[k], f) :: passes[k].run(f).report.value.Whole?)
            && (forall name | name in start && !IsReplaced(name, passes) :: start[name].Whole?)
  {
    var results := CollectedAll(start, passes);
    forall n | n in results
      ensures IsReplaced(n, passes) || n in start
      ensures forall k: nat, f | IsReportOf(n, passes, k, f) :: results[n] == passes[k].run(f).report.value
      ensures !IsReplaced(n, passes) ==> n in start && results[n] == start[n]
    {
      FileHolds(start, passes, n);
    }
    if AllParse(names, results) {
      forall n | n in results ensures results[n].Whole? {
        var i :| 0 <= i < |names| && names[i] == n;
      }
      forall k: nat, f | 0 <= k < |passes| && Reported(passes[k], f) ensures passes[k].run(f).report.value.Whole? {
        ReportsAreKept(start, passes, k, f);
      }
      forall name | name in start && !IsReplaced(name, passes) ensures start[name].Whole? {
        assert forall k: nat, f | 0 <= k < |passes| && Reported(passes[k], f) :: !IsReportOf(name, passes, k, f);
        LeftoversStay(start, passes, name);
      }
    }
  }

  /** Such a run: one file finishes well, the next one's report is cut short, and the status is 1 though no case failed. */
  lemma {:induction false} CutReportHidesTheRest(suite: string, files: seq<string>, good: seq<Report.Case>, names: seq<string>,
                                                 entries: seq<Report.Entry>, glob: (string, string) -> bool)
    requires '.' !in suite && |files| == 2 && files[0] != files[1]
    ensures var run := (f: string) => if f == files[0] then Ran(0, Some(Whole(good))) else Ran(SSH_LOST, Some(CutShort));
            var results := CollectedAll(map[], [Pass(suite, true, files, run)]);
            && FileName(suite, files[0]) in results && results[FileName(suite, files[0])] == Whole(good)
            && (Lists(names, results) ==> ExitStatus(entries, names, results, glob) == 1 && !AllParse(names, results))
  {
    var run := (f: string) => if f == files[0] then Ran(0, Some(Whole(good))) else Ran(SSH_LOST, Some(CutShort));
    var p := Pass(suite, true, files, run);
    assert files[1..] == [files[1]] && files == [files[0]] + [files[1]];
    assert Finished(files, run) == files;
    assert Reported(p, files[0]) && Reported(p, files[1]) && Separate([p]) && [p][0] == p;
    ReportsAreKept(map[], [p], 0, files[0]);
    ReportsAreKept(map[], [p], 0, files[1]);
    var results := CollectedAll(map[], [p]);
    if Lists(names, results) {
      assert FileName(suite, files[1]) in names;
    }
  }

  /**
   A file that did not run passes for one that did, if an earlier run left its results: its
   cases count as they were then.
   */
  lemma {:induction false} OldResultsStandIn(start: Results, passes: seq<Pass>, names: seq<string>, k: nat, f: string, c: Report.Case)
    requires Separate(passes) && Lists(names, CollectedAll(start, passes)) && AllParse(names, CollectedAll(start, passes))
    requires k < |passes| && !Reported(passes[k], f)
    requires FileName(passes[k].suite, f) in start && HasCase(start[FileName(passes[k].suite, f)], c)
    ensures Report.Tagged(passes[k].suite, c) in Report.AllCases(Read(names, CollectedAll(start, passes)))
  {
    var name := FileName(passes[k].suite, f);
    forall j: nat, g | 0 <= j < |passes| && Reported(passes[j], g) ensures name != FileName(passes[j].suite, g) {
      if name == FileName(passes[j].suite, g) {
        FileNameInjective(passes[k].suite, f, passes[j].suite, g);
      }
    }
    LeftoversStay(start, passes, name);
    LabelParsesBack(passes[k].suite, f);
    CasesRead(names, CollectedAll(start, passes), passes[k].suite, c);
  }
}
