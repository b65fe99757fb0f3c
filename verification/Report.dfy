/**
 From test results and declared expectations to a verdict: what failed unexpectedly, what
 failed as declared, and what was declared to fail and passed.
 */
module Report {
  import opened Text
  import opened Wrappers

  datatype Outcome = Passed | Failed | Errored | Skipped

  datatype Child =
    | FailureTag(message: string)
    | ErrorTag(message: string)
    | SkippedTag
    | Properties(props: seq<(string, string)>)
    | OtherTag

  datatype Case = Case(id: string, outcome: Outcome, message: string, markers: set<string>)

  /** One results file: the label its name gives it, and its cases. */
  datatype Junit = Junit(suite: string, cases: seq<Case>)

  datatype Tagged = Tagged(suite: string, case_: Case)

  datatype Entry = Entry(profile: Option<string>, pair: Option<string>, marker: Option<string>, test: Option<string>)

  // ----- reading one test case

  predicate IsVerdict(child: Child) {
    child.FailureTag? || child.ErrorTag? || child.SkippedTag?
  }

  predicate Tells(child: Child, outcome: Outcome, message: string)
    requires IsVerdict(child)
  {
    match child
    case FailureTag(m) => outcome == Failed && message == Strip(m)
    case ErrorTag(m) => outcome == Errored && message == Strip(m)
    case SkippedTag => outcome == Skipped
  }

  function MarkersIn(props: seq<(string, string)>, markers: set<string>): set<string> {
    if props == [] then markers
    else
      var last := props[|props| - 1];
      if last.0 == "markers" then (set m | m in Split(last.1, ',')) else MarkersIn(props[..|props| - 1], markers)
  }

  function Markers(children: seq<Child>): set<string> {
    if children == [] then {}
    else
      var before := Markers(children[..|children| - 1]);
      var last := children[|children| - 1];
      if last.Properties? then MarkersIn(last.props, before) else before
  }

  /** How a case came out: each failure, error or skipped child replaces what was there. */
  function OutcomeOf(children: seq<Child>): (Outcome, string) {
    if children == [] then (Passed, "")
    else
      var before := OutcomeOf(children[..|children| - 1]);
      match children[|children| - 1]
      case FailureTag(m) => (Failed, Strip(m))
      case ErrorTag(m) => (Errored, Strip(m))
      case SkippedTag => (Skipped, before.1)
      case _ => before
  }

  method ReadCase(classname: string, name: string, children: seq<Child>) returns (c: Case)
    ensures c.id == if classname != "" then classname + "::" + name else name
    ensures (c.outcome, c.message) == OutcomeOf(children)
    ensures c.markers == Markers(children)
  {
    var outcome, message, markers := Passed, "", {};
    for i := 0 to |children|
      invariant (outcome, message) == OutcomeOf(children[..i])
      invariant markers == Markers(children[..i])
    {
      assert children[..i + 1][..i] == children[..i];
      match children[i] {
        case FailureTag(m) => outcome, message := Failed, Strip(m);
        case ErrorTag(m) => outcome, message := Errored, Strip(m);
        case SkippedTag => outcome := Skipped;
        case Properties(props) => markers := ReadMarkers(props, markers);
        case OtherTag =>
      }
    }
    assert children[..|children|] == children;
    return Case(if classname != "" then classname + "::" + name else name, outcome, message, markers);
  }

  method ReadMarkers(props: seq<(string, string)>, before: set<string>) returns (markers: set<string>)
    ensures markers == MarkersIn(props, before)
  {
    markers := before;
    for j := 0 to |props|
      invariant markers == MarkersIn(props[..j], before)
    {
      assert props[..j + 1][..j] == props[..j];
      if props[j].0 == "markers" {
        markers := set m | m in Split(props[j].1, ',');
      }
    }
    assert props[..|props|] == props;
  }

  /** The last failure, error or skipped child decides; without one the case passed. */
  lemma {:induction false} LastVerdictDecides(children: seq<Child>, k: nat)
    requires k <= |children| && forall j | k <= j < |children| :: !IsVerdict(children[j])
    ensures k == 0 ==> OutcomeOf(children) == (Passed, "")
    ensures k > 0 && IsVerdict(children[k - 1]) ==> Tells(children[k - 1], OutcomeOf(children).0, OutcomeOf(children).1)
  {
    if k < |children| {
      LastVerdictDecides(children[..|children| - 1], k);
    }
  }

  // ----- declarations

  /** value or other, for strings that may be missing. */
  function Either(value: Option<string>, other: Option<string>): Option<string> {
    if value.Some? && value.value != "" then value else other
  }

  predicate Truthy(value: Option<string>) {
    value.Some? && value.value != ""
  }

  predicate Matches(e: Entry, t: Tagged, glob: (string, string) -> bool) {
    var scope := Either(e.profile, e.pair);
    if Truthy(scope) && scope.value != t.suite then false
    else if Truthy(e.marker) && e.marker.value !in t.case_.markers then false
    else if e.test.Some? && !glob(t.case_.id, e.test.value) then false
    else Truthy(e.marker) || e.test.Some?
  }

  predicate Declared(entries: seq<Entry>, t: Tagged, glob: (string, string) -> bool) {
    exists i | 0 <= i < |entries| :: Matches(entries[i], t, glob)
  }

  datatype Bucket = NotRun | Fine | Stale | Expected | Unexpected

  function BucketOf(entries: seq<Entry>, t: Tagged, glob: (string, string) -> bool): Bucket {
    match t.case_.outcome
    case Skipped => NotRun
    case Passed => if Declared(entries, t, glob) then Stale else Fine
    case _ => if Declared(entries, t, glob) then Expected else Unexpected
  }

  // ----- the verdict

  datatype Summary = Summary(
    passed: nat, failed: nat, skipped: nat,
    failures: seq<Tagged>, expected: seq<Tagged>, stale: seq<Tagged>)

  function TagAll(suite: string, cases: seq<Case>): seq<Tagged> {
    seq(|cases|, k requires 0 <= k < |cases| => Tagged(suite, cases[k]))
  }

  function AllCases(junits: seq<Junit>): seq<Tagged> {
    if junits == [] then []
    else AllCases(junits[..|junits| - 1]) + TagAll(junits[|junits| - 1].suite, junits[|junits| - 1].cases)
  }

  function Select(entries: seq<Entry>, ts: seq<Tagged>, glob: (string, string) -> bool, b: Bucket): seq<Tagged> {
    if ts == [] then []
    else
      var last := ts[|ts| - 1];
      Select(entries, ts[..|ts| - 1], glob, b) + if BucketOf(entries, last, glob) == b then [last] else []
  }

  function Count(ts: seq<Tagged>, wanted: set<Outcome>): nat {
    if ts == [] then 0
    else Count(ts[..|ts| - 1], wanted) + if ts[|ts| - 1].case_.outcome in wanted then 1 else 0
  }

  function SummaryOf(entries: seq<Entry>, ts: seq<Tagged>, glob: (string, string) -> bool): Summary {
    Summary(Count(ts, {Passed}), Count(ts, {Failed, Errored}), Count(ts, {Skipped}),
            Select(entries, ts, glob, Unexpected), Select(entries, ts, glob, Expected), Select(entries, ts, glob, Stale))
  }

  lemma TakeTagged(suite: string, cases: seq<Case>, k: nat)
    requires k < |cases|
    ensures TagAll(suite, cases[..k + 1]) == TagAll(suite, cases[..k]) + [Tagged(suite, cases[k])]
  {
  }

  function Counted(s: Summary, t: Tagged, b: Bucket): Summary {
    match b
    case NotRun => s.(skipped := s.skipped + 1)
    case Fine => s.(passed := s.passed + 1)
    case Stale => s.(passed := s.passed + 1, stale := s.stale + [t])
    case Expected => s.(failed := s.failed + 1, expected := s.expected + [t])
    case Unexpected => s.(failed := s.failed + 1, failures := s.failures + [t])
  }

  lemma SummaryStep(entries: seq<Entry>, ts: seq<Tagged>, t: Tagged, glob: (string, string) -> bool)
    ensures var s, s' := SummaryOf(entries, ts, glob), SummaryOf(entries, ts + [t], glob);
            s' == Counted(s, t, BucketOf(entries, t, glob))
  {
    assert (ts + [t])[..|ts + [t]| - 1] == ts;
    forall b ensures Select(entries, ts, glob, b) + [] == Select(entries, ts, glob, b) {
    }
  }

  /** report.py's main, from the parsed files on. */
  method Verdict(junits: seq<Junit>, entries: seq<Entry>, glob: (string, string) -> bool)
      returns (s: Summary, status: int)
    ensures s == SummaryOf(entries, AllCases(junits), glob)
    ensures status == if s.failures != [] || s.stale != [] || junits == [] then 1 else 0
  {
    s := Summary(0, 0, 0, [], [], []);
    for i := 0 to |junits|
      invariant s == SummaryOf(entries, AllCases(junits[..i]), glob)
    {
      var suite, cases := junits[i].suite, junits[i].cases;
      ghost var before := AllCases(junits[..i]);
      assert before + TagAll(suite, cases[..0]) == before;
      for k := 0 to |cases|
        invariant s == SummaryOf(entries, before + TagAll(suite, cases[..k]), glob)
      {
        var t := Tagged(suite, cases[k]);
        TakeTagged(suite, cases, k);
        assert before + TagAll(suite, cases[..k + 1]) == before + TagAll(suite, cases[..k]) + [t];
        SummaryStep(entries, before + TagAll(suite, cases[..k]), t, glob);
        s := WithCase(s, entries, t, glob);
      }
      assert cases[..|cases|] == cases && junits[..i + 1][..i] == junits[..i];
    }
    assert junits[..|junits|] == junits;
    status := if s.failures != [] || s.stale != [] || junits == [] then 1 else 0;
  }

  /** The body of main's loop. */
  method WithCase(before: Summary, entries: seq<Entry>, t: Tagged, glob: (string, string) -> bool) returns (s: Summary)
    ensures s == Counted(before, t, BucketOf(entries, t, glob))
  {
    s := before;
    var entry := FirstMatch(entries, t, glob);
    if t.case_.outcome == Skipped {
      s := s.(skipped := s.skipped + 1);
    } else if t.case_.outcome == Passed {
      s := s.(passed := s.passed + 1);
      if entry.Some? {
        s := s.(stale := s.stale + [t]);
      }
    } else {
      s := s.(failed := s.failed + 1);
      if entry.Some? {
        s := s.(expected := s.expected + [t]);
      } else {
        s := s.(failures := s.failures + [t]);
      }
    }
  }

  /** next((e for e in expectations if matches(...)), None). */
  method FirstMatch(entries: seq<Entry>, t: Tagged, glob: (string, string) -> bool) returns (e: Option<Entry>)
    ensures e.Some? <==> Declared(entries, t, glob)
    ensures e.Some? ==> e.value in entries && Matches(e.value, t, glob)
  {
    for i := 0 to |entries|
      invariant forall j | 0 <= j < i :: !Matches(entries[j], t, glob)
    {
      if Matches(entries[i], t, glob) {
        return Some(entries[i]);
      }
    }
    return None;
  }

  function Status(entries: seq<Entry>, junits: seq<Junit>, glob: (string, string) -> bool): int {
    var s := SummaryOf(entries, AllCases(junits), glob);
    if s.failures != [] || s.stale != [] || junits == [] then 1 else 0
  }

  // ----- what the verdict means

  predicate HasFailed(t: Tagged) {
    t.case_.outcome == Failed || t.case_.outcome == Errored
  }

  lemma {:induction false} SelectHas(entries: seq<Entry>, ts: seq<Tagged>, glob: (string, string) -> bool, b: Bucket, t: Tagged)
    ensures multiset(Select(entries, ts, glob, b))[t] == if BucketOf(entries, t, glob) == b then multiset(ts)[t] else 0
  {
    if ts != [] {
      var front, last := ts[..|ts| - 1], ts[|ts| - 1];
      assert ts == front + [last];
      SelectHas(entries, front, glob, b, t);
    }
  }

  /**
   Exit status 0: there are results, every case that failed was declared, and none that
   passed was.
   */
  lemma VerdictMeaning(entries: seq<Entry>, junits: seq<Junit>, glob: (string, string) -> bool)
    ensures Status(entries, junits, glob) == 0 <==>
            && junits != []
            && forall t | t in AllCases(junits) ::
                 && (HasFailed(t) ==> Declared(entries, t, glob))
                 && (t.case_.outcome == Passed ==> !Declared(entries, t, glob))
  {
    var ts := AllCases(junits);
    SelectEmpty(entries, ts, glob, Unexpected);
    SelectEmpty(entries, ts, glob, Stale);
    forall t
      ensures BucketOf(entries, t, glob) == Unexpected <==> HasFailed(t) && !Declared(entries, t, glob)
      ensures BucketOf(entries, t, glob) == Stale <==> t.case_.outcome == Passed && Declared(entries, t, glob)
    {
    }
  }

  lemma {:induction false} SelectEmpty(entries: seq<Entry>, ts: seq<Tagged>, glob: (string, string) -> bool, b: Bucket)
    ensures Select(entries, ts, glob, b) == [] <==> forall t | t in ts :: BucketOf(entries, t, glob) != b
  {
    if ts != [] {
      SelectEmpty(entries, ts[..|ts| - 1], glob, b);
      assert ts == ts[..|ts| - 1] + [ts[|ts| - 1]];
    }
  }

  /** No case is lost or counted twice. */
  lemma {:induction false} CountsAreConserved(entries: seq<Entry>, ts: seq<Tagged>, glob: (string, string) -> bool)
    ensures var s := SummaryOf(entries, ts, glob);
            && s.passed + s.failed + s.skipped == |ts|
            && |s.failures| + |s.expected| == s.failed
            && |s.stale| + |Select(entries, ts, glob, Fine)| == s.passed
  {
    if ts != [] {
      var front, last := ts[..|ts| - 1], ts[|ts| - 1];
      CountsAreConserved(entries, front, glob);
      SummaryStep(entries, front, last, glob);
      assert ts == front + [last];
    }
  }

  /** More declarations: what was stale stays stale, and no new failure appears. */
  lemma MoreDeclarations(entries: seq<Entry>, more: seq<Entry>, t: Tagged, glob: (string, string) -> bool)
    requires forall e | e in entries :: e in more
    ensures BucketOf(entries, t, glob).Stale? ==> BucketOf(more, t, glob).Stale?
    ensures BucketOf(more, t, glob).Unexpected? ==> BucketOf(entries, t, glob).Unexpected?
  {
    if Declared(entries, t, glob) {
      var i :| 0 <= i < |entries| && Matches(entries[i], t, glob);
      assert entries[i] in entries && entries[i] in more;
    }
  }

  /** The order of declarations, and repeating one, makes no difference to any bucket. */
  lemma {:induction false} DeclarationOrder(entries: seq<Entry>, other: seq<Entry>, ts: seq<Tagged>, glob: (string, string) -> bool)
    requires forall e :: e in entries <==> e in other
    ensures SummaryOf(entries, ts, glob) == SummaryOf(other, ts, glob)
  {
    if ts != [] {
      var front, last := ts[..|ts| - 1], ts[|ts| - 1];
      assert ts == front + [last];
      DeclarationOrder(entries, other, front, glob);
      MoreDeclarations(entries, other, last, glob);
      MoreDeclarations(other, entries, last, glob);
      SummaryStep(entries, front, last, glob);
      SummaryStep(other, front, last, glob);
    }
  }

  // ----- shards

  ghost predicate SameVerdict(s: Summary, o: Summary) {
    && s.passed == o.passed && s.failed == o.failed && s.skipped == o.skipped
    && multiset(s.failures) == multiset(o.failures)
    && multiset(s.expected) == multiset(o.expected)
    && multiset(s.stale) == multiset(o.stale)
  }

  /** Which file a case came in, and in which order, makes no difference. */
  lemma OnlyTheCasesCount(entries: seq<Entry>, ts: seq<Tagged>, us: seq<Tagged>, glob: (string, string) -> bool)
    requires multiset(ts) == multiset(us)
    ensures SameVerdict(SummaryOf(entries, ts, glob), SummaryOf(entries, us, glob))
  {
    forall b ensures multiset(Select(entries, ts, glob, b)) == multiset(Select(entries, us, glob, b)) {
      forall t ensures multiset(Select(entries, ts, glob, b))[t] == multiset(Select(entries, us, glob, b))[t] {
        SelectHas(entries, ts, glob, b, t);
        SelectHas(entries, us, glob, b, t);
      }
    }
    forall b ensures |Select(entries, ts, glob, b)| == |Select(entries, us, glob, b)| {
      assert |multiset(Select(entries, ts, glob, b))| == |multiset(Select(entries, us, glob, b))|;
    }
    assert |multiset(ts)| == |multiset(us)|;
    CountsAreConserved(entries, ts, glob);
    CountsAreConserved(entries, us, glob);
  }

  function Insert(j: Junit, merged: seq<Junit>): seq<Junit> {
    if merged == [] then [j]
    else if merged[0].suite == j.suite then [Junit(j.suite, j.cases + merged[0].cases)] + merged[1..]
    else [merged[0]] + Insert(j, merged[1..])
  }

  /** One result set a label, as one pytest session a label would have left. */
  function Merge(junits: seq<Junit>): seq<Junit> {
    if junits == [] then [] else Insert(junits[|junits| - 1], Merge(junits[..|junits| - 1]))
  }

  lemma {:induction false} AllCasesHead(j: Junit, rest: seq<Junit>)
    ensures AllCases([j] + rest) == TagAll(j.suite, j.cases) + AllCases(rest)
  {
    if rest == [] {
      assert [j] + rest == [j] && [j][..0] == rest;
    } else {
      var front, last := rest[..|rest| - 1], rest[|rest| - 1];
      AllCasesHead(j, front);
      var all := [j] + rest;
      assert all[..|all| - 1] == [j] + front && all[|all| - 1] == last;
      var first, more := TagAll(j.suite, j.cases), TagAll(last.suite, last.cases);
      assert first + AllCases(front) + more == first + (AllCases(front) + more);
    }
  }

  lemma {:induction false} InsertKeepsCases(j: Junit, merged: seq<Junit>)
    ensures multiset(AllCases(Insert(j, merged))) == multiset(TagAll(j.suite, j.cases)) + multiset(AllCases(merged))
    ensures forall m | m in Insert(j, merged) :: m.suite == j.suite || exists o | o in merged :: o.suite == m.suite
  {
    if merged == [] {
      AllCasesHead(j, []);
      assert [j] + [] == [j];
    } else {
      var first, rest := merged[0], merged[1..];
      assert merged == [first] + rest;
      AllCasesHead(first, rest);
      if first.suite == j.suite {
        AllCasesHead(Junit(j.suite, j.cases + first.cases), rest);
        assert TagAll(j.suite, j.cases + first.cases) == TagAll(j.suite, j.cases) + TagAll(j.suite, first.cases);
      } else {
        AllCasesHead(first, Insert(j, rest));
        InsertKeepsCases(j, rest);
      }
    }
  }

  ghost predicate OnePerLabel(junits: seq<Junit>) {
    forall i, j | 0 <= i < j < |junits| :: junits[i].suite != junits[j].suite
  }

  lemma {:induction false} InsertKeepsLabels(j: Junit, merged: seq<Junit>)
    requires OnePerLabel(merged)
    ensures OnePerLabel(Insert(j, merged))
  {
    if merged != [] && merged[0].suite != j.suite {
      var rest := merged[1..];
      InsertKeepsLabels(j, rest);
      InsertKeepsCases(j, rest);
      forall m | m in Insert(j, rest) ensures m.suite != merged[0].suite {
      }
    }
  }

  lemma {:induction false} MergeKeepsCases(junits: seq<Junit>)
    ensures multiset(AllCases(Merge(junits))) == multiset(AllCases(junits))
    ensures OnePerLabel(Merge(junits))
    ensures Merge(junits) == [] <==> junits == []
  {
    if junits != [] {
      var front, last := junits[..|junits| - 1], junits[|junits| - 1];
      MergeKeepsCases(front);
      InsertKeepsCases(last, Merge(front));
      InsertKeepsLabels(last, Merge(front));
    }
  }

  /** The verdict over file-sized shards is the verdict over one result set a label. */
  lemma ShardsGiveTheSameVerdict(entries: seq<Entry>, junits: seq<Junit>, glob: (string, string) -> bool)
    ensures OnePerLabel(Merge(junits))
    ensures Status(entries, Merge(junits), glob) == Status(entries, junits, glob)
    ensures SameVerdict(SummaryOf(entries, AllCases(Merge(junits)), glob), SummaryOf(entries, AllCases(junits), glob))
  {
    MergeKeepsCases(junits);
    OnlyTheCasesCount(entries, AllCases(Merge(junits)), AllCases(junits), glob);
    var s, o := SummaryOf(entries, AllCases(Merge(junits)), glob), SummaryOf(entries, AllCases(junits), glob);
    assert |multiset(s.failures)| == |multiset(o.failures)| && |multiset(s.stale)| == |multiset(o.stale)|;
  }
}
