/** Running the unit files: what one run must report to count, and the verdict over all runs in any order. */
module UnitRuns {
  import opened Wrappers
  import TextLines

  /** A decoded field. Numbers compare by value; a list or an object cannot be a member of a set. */
  datatype Value = Missing | Str(text: string) | Number(value: real, whole: bool) | Container

  datatype Event = Event(kind: string, name: Value, file: Value, total: Value, failed: Value)

  /** A line of output: not JSON at all, JSON that is no event, or an event. */
  datatype Line = Plain | Malformed | Reported(event: Event)

  datatype Process = Finished(code: int, lines: seq<Line>) | Expired

  datatype Problem =
    | TimedOut
    | Raised
    | MalformedEvent
    | Exited
    | NotOneSummary
    | SummaryDiffers
    | CountsDiffer
    | IdentityDiffers
    | NamesDiffer

  datatype Run = Run(names: seq<Value>, problems: seq<Problem>)

  datatype Task = Task(path: string, process: Process)

  // Reading the output.

  predicate NoMalformed(lines: seq<Line>)
  {
    forall l | l in lines :: !l.Malformed?
  }

  /** The events, up to the first that is malformed. */
  function EventsOf(lines: seq<Line>): seq<Event>
  {
    if lines == [] || lines[0].Malformed? then []
    else (if lines[0].Reported? then [lines[0].event] else []) + EventsOf(lines[1..])
  }

  function OfKind(events: seq<Event>, kind: string): seq<Event>
  {
    if events == [] then []
    else (if events[0].kind == kind then [events[0]] else []) + OfKind(events[1..], kind)
  }

  function NamesOf(events: seq<Event>): seq<Value>
  {
    seq(|events|, i requires 0 <= i < |events| => events[i].name)
  }

  const STARTED := "test_started"
  const PASSED := "test_passed"
  const FAILED := "test_failed"
  const SUMMARY := "test_summary"

  // The checks.

  /** What a value is to a set: a number is its value, whatever its type. */
  function Key(v: Value): Value
  {
    if v.Number? then Number(v.value, true) else v
  }

  function KeySet(values: seq<Value>): set<Value>
  {
    set v | v in values :: Key(v)
  }

  predicate Hashable(values: seq<Value>)
  {
    forall v | v in values :: !v.Container?
  }

  predicate DistinctValues(values: seq<Value>)
  {
    forall i, j | 0 <= i < j < |values| :: Key(values[i]) != Key(values[j])
  }

  predicate SummaryOk(summary: Event, passed: nat)
  {
    && summary.total.Number? && summary.total.whole && summary.total.value > 0.0
    && summary.failed.Number? && summary.failed.value == 0.0
    && summary.total.value == passed as real
  }

  predicate AllFrom(events: seq<Event>, path: string)
  {
    forall e | e in events :: e.file == Str(path)
  }

  predicate NamesText(names: seq<Value>)
  {
    forall v | v in names :: v.Str? && v.text != ""
  }

  function Problems(found: bool, problem: Problem): seq<Problem>
  {
    if found then [problem] else []
  }

  function SummaryProblems(summaries: seq<Event>, passed: nat): seq<Problem>
  {
    if |summaries| != 1 then [NotOneSummary] else Problems(!SummaryOk(summaries[0], passed), SummaryDiffers)
  }

  /** The problems before the names are compared. */
  function EarlyProblems(path: string, code: int, malformed: bool, events: seq<Event>): seq<Problem>
  {
    var started, passed, failed := OfKind(events, STARTED), OfKind(events, PASSED), OfKind(events, FAILED);
    Problems(malformed, MalformedEvent)
    + Problems(code != 0, Exited)
    + SummaryProblems(OfKind(events, SUMMARY), |passed|)
    + Problems(failed != [] || |started| != |passed|, CountsDiffer)
    + Problems(!AllFrom(started + passed + failed, path) || !NamesText(NamesOf(passed)), IdentityDiffers)
  }

  function NameProblems(started: seq<Value>, names: seq<Value>): seq<Problem>
  {
    Problems(!DistinctValues(names) || KeySet(started) != KeySet(names), NamesDiffer)
  }

  /** Comparing names that cannot be members of a set raises; the run then counts as failed, with no names. */
  predicate Raises(started: seq<Value>, names: seq<Value>)
  {
    !Hashable(names) || (DistinctValues(names) && !Hashable(started))
  }

  function RunOf(t: Task): Run
  {
    match t.process
    case Expired => Run([], [TimedOut])
    case Finished(code, lines) =>
      var events := EventsOf(lines);
      var started, names := NamesOf(OfKind(events, STARTED)), NamesOf(OfKind(events, PASSED));
      if Raises(started, names) then Run([], [Raised])
      else Run(names, EarlyProblems(t.path, code, !NoMalformed(lines), events) + NameProblems(started, names))
  }

  // One run, as it reads its output.

  method ReadEvents(lines: seq<Line>) returns (events: seq<Event>, malformed: bool)
    ensures events == EventsOf(lines) && (malformed <==> !NoMalformed(lines))
  {
    events, malformed := [], false;
    var k := 0;
    while k < |lines|
      invariant 0 <= k <= |lines| && NoMalformed(lines[..k])
      invariant events + EventsOf(lines[k..]) == EventsOf(lines)
    {
      assert lines[k..][1..] == lines[k + 1..];
      if lines[k].Malformed? {
        malformed := true;
        assert lines[k] in lines && EventsOf(lines[k..]) == [];
        return;
      }
      if lines[k].Reported? {
        events := events + [lines[k].event];
      }
      assert lines[..k + 1] == lines[..k] + [lines[k]];
      k := k + 1;
    }
    assert lines[..k] == lines;
  }

  method RunFile(t: Task) returns (run: Run)
    ensures run == RunOf(t)
  {
    if t.process.Expired? {
      return Run([], [TimedOut]);
    }
    var events, malformed := ReadEvents(t.process.lines);
    var started, passed := OfKind(events, STARTED), OfKind(events, PASSED);
    var failed, summaries := OfKind(events, FAILED), OfKind(events, SUMMARY);
    var names := NamesOf(passed);
    var problems := Problems(malformed, MalformedEvent);
    problems := problems + Problems(t.process.code != 0, Exited);
    problems := problems + SummaryProblems(summaries, |passed|);
    problems := problems + Problems(failed != [] || |started| != |passed|, CountsDiffer);
    problems := problems
      + Problems(!AllFrom(started + passed + failed, t.path) || !NamesText(names), IdentityDiffers);
    if Raises(NamesOf(started), names) {
      return Run([], [Raised]);
    }
    run := Run(names, problems + NameProblems(NamesOf(started), names));
  }

  // What a clean run accounts for.

  /** The same in terms of the events. */
  ghost predicate EventsAccount(t: Task)
  {
    && t.process.Finished? && t.process.code == 0 && NoMalformed(t.process.lines)
    && BalanceOf(EventsOf(t.process.lines), t.path)
  }

  ghost predicate BalanceOf(events: seq<Event>, path: string)
  {
    EventsBalance(OfKind(events, STARTED), OfKind(events, PASSED), OfKind(events, FAILED), OfKind(events, SUMMARY),
      path)
  }

  ghost predicate EventsBalance(started: seq<Event>, passed: seq<Event>, failed: seq<Event>, summaries: seq<Event>,
    path: string)
  {
    && failed == []
    && multiset(NamesOf(started)) == multiset(NamesOf(passed))
    && NamesText(NamesOf(passed)) && (forall v :: multiset(NamesOf(passed))[v] <= 1)
    && AllFrom(started, path) && AllFrom(passed, path)
    && |summaries| == 1 && |passed| > 0 && Announces(summaries[0], |passed|)
  }

  predicate Announces(summary: Event, n: nat)
  {
    summary.total == Number(n as real, true) && summary.failed.Number? && summary.failed.value == 0.0
  }

  lemma {:induction false} DistinctCounts(values: seq<Value>)
    requires NamesText(values)
    ensures DistinctValues(values) <==> forall v :: multiset(values)[v] <= 1
  {
    if values != [] {
      var init, last := values[..|values| - 1], values[|values| - 1];
      assert values == init + [last];
      assert NamesText(init);
      DistinctCounts(init);
      if DistinctValues(values) {
        assert last !in init by {
          forall i | 0 <= i < |init| ensures init[i] != last {
            assert Key(values[i]) != Key(values[|values| - 1]);
          }
        }
        assert forall v :: multiset(values)[v] == multiset(init)[v] + (if v == last then 1 else 0);
      } else {
        RepeatCounted(values);
      }
    }
  }

  lemma RepeatCounted(values: seq<Value>)
    requires NamesText(values) && !DistinctValues(values)
    ensures exists v :: multiset(values)[v] > 1
  {
    var i, j :| 0 <= i < j < |values| && Key(values[i]) == Key(values[j]);
    assert values[i] in values && values[j] in values;
    var a, b := values[..j], values[j..];
    assert values == a + b && values[i] == a[i] && values[i] == b[0];
    assert values[i] in a && values[i] in b;
    assert multiset(values)[values[i]] == multiset(a)[values[i]] + multiset(b)[values[i]];
  }

  lemma {:induction false} KeySetSize(values: seq<Value>)
    requires DistinctValues(values)
    ensures |KeySet(values)| == |values|
  {
    if values != [] {
      var init, last := values[..|values| - 1], values[|values| - 1];
      assert values == init + [last];
      KeySetSize(init);
      assert KeySet(values) == KeySet(init) + {Key(last)};
      assert Key(last) !in KeySet(init) by {
        forall i | 0 <= i < |init| ensures Key(init[i]) != Key(last) {
          assert Key(values[i]) != Key(values[|values| - 1]);
        }
      }
    }
  }

  lemma {:induction false} KeySetBound(values: seq<Value>)
    ensures |KeySet(values)| <= |values|
    ensures |KeySet(values)| == |values| ==> DistinctValues(values)
  {
    if values != [] {
      var init, last := values[..|values| - 1], values[|values| - 1];
      assert values == init + [last];
      KeySetBound(init);
      assert KeySet(values) == KeySet(init) + {Key(last)};
      if |KeySet(values)| == |values| {
        assert Key(last) !in KeySet(init);
        forall i | 0 <= i < |init| ensures Key(init[i]) != Key(last) {
          assert init[i] in init;
        }
      }
    }
  }

  /** Lists of texts of one length, one of them distinct, with the same members: each reorders the other. */
  lemma SameNames(started: seq<Value>, names: seq<Value>)
    requires |started| == |names| && DistinctValues(names) && NamesText(names) && KeySet(started) == KeySet(names)
    ensures multiset(started) == multiset(names)
  {
    KeySetSize(names);
    KeySetBound(started);
    assert NamesText(started) by {
      forall v | v in started ensures v.Str? && v.text != "" {
        assert Key(v) in KeySet(names);
      }
    }
    DistinctCounts(started);
    DistinctCounts(names);
    forall v ensures multiset(started)[v] == multiset(names)[v] {
      TextKey(started, v);
      TextKey(names, v);
    }
  }

  lemma TextKey(values: seq<Value>, v: Value)
    requires NamesText(values)
    ensures v in values <==> v in KeySet(values)
  {
  }

  lemma ReorderedNames(started: seq<Value>, names: seq<Value>)
    requires multiset(started) == multiset(names)
    ensures |started| == |names| && KeySet(started) == KeySet(names)
  {
    assert |multiset(started)| == |started| && |multiset(names)| == |names|;
    assert forall v :: v in started <==> v in multiset(names);
  }

  lemma EarlyClean(path: string, code: int, malformed: bool, events: seq<Event>)
    ensures var started, passed, failed := OfKind(events, STARTED), OfKind(events, PASSED), OfKind(events, FAILED);
            EarlyProblems(path, code, malformed, events) == [] <==>
              && !malformed && code == 0 && |OfKind(events, SUMMARY)| == 1
              && SummaryOk(OfKind(events, SUMMARY)[0], |passed|) && failed == [] && |started| == |passed|
              && AllFrom(started + passed + failed, path) && NamesText(NamesOf(passed))
  {
  }

  lemma CleanEvents(t: Task)
    ensures RunOf(t).problems == [] <==> EventsAccount(t)
  {
    if t.process.Finished? {
      var events := EventsOf(t.process.lines);
      var started, passed := OfKind(events, STARTED), OfKind(events, PASSED);
      EarlyClean(t.path, t.process.code, !NoMalformed(t.process.lines), events);
      if RunOf(t).problems == [] {
        CleanAccounts(t, events, started, passed);
      }
      if EventsAccount(t) {
        AccountsClean(t, events, started, passed);
      }
    }
  }

  lemma CleanAccounts(t: Task, events: seq<Event>, started: seq<Event>, passed: seq<Event>)
    requires t.process.Finished? && events == EventsOf(t.process.lines)
    requires started == OfKind(events, STARTED) && passed == OfKind(events, PASSED) && RunOf(t).problems == []
    ensures EventsAccount(t)
  {
    EarlyClean(t.path, t.process.code, !NoMalformed(t.process.lines), events);
    SameNames(NamesOf(started), NamesOf(passed));
    DistinctCounts(NamesOf(passed));
    FromParts(started, passed, OfKind(events, FAILED), t.path);
  }

  lemma FromParts(a: seq<Event>, b: seq<Event>, c: seq<Event>, path: string)
    ensures AllFrom(a + b + c, path) <==> AllFrom(a, path) && AllFrom(b, path) && AllFrom(c, path)
  {
    assert forall e | e in a :: e in a + b + c;
    assert forall e | e in b :: e in a + b + c;
    assert forall e | e in c :: e in a + b + c;
  }

  lemma AccountsClean(t: Task, events: seq<Event>, started: seq<Event>, passed: seq<Event>)
    requires t.process.Finished? && events == EventsOf(t.process.lines)
    requires started == OfKind(events, STARTED) && passed == OfKind(events, PASSED) && EventsAccount(t)
    ensures RunOf(t).problems == []
  {
    EarlyClean(t.path, t.process.code, !NoMalformed(t.process.lines), events);
    DistinctCounts(NamesOf(passed));
    ReorderedNames(NamesOf(started), NamesOf(passed));
    FromParts(started, passed, OfKind(events, FAILED), t.path);
    ReorderedHashable(NamesOf(started), NamesOf(passed));
  }

  lemma ReorderedHashable(started: seq<Value>, names: seq<Value>)
    requires multiset(started) == multiset(names) && NamesText(names)
    ensures Hashable(started) && Hashable(names)
  {
    forall v | v in started ensures !v.Container? {
      assert v in multiset(started);
      assert v in names;
    }
  }

  // All runs.

  function RunsOf(tasks: seq<Task>): seq<Run>
  {
    seq(|tasks|, i requires 0 <= i < |tasks| => RunOf(tasks[i]))
  }

  function AllNames(runs: seq<Run>): seq<Value>
  {
    if runs == [] then [] else AllNames(runs[..|runs| - 1]) + runs[|runs| - 1].names
  }

  predicate AnyProblem(runs: seq<Run>)
  {
    exists r | r in runs :: r.problems != []
  }

  /** The verdict: names are distinct across all files, and no run had a problem. */
  predicate Passes(runs: seq<Run>)
  {
    DistinctValues(AllNames(runs)) && !AnyProblem(runs)
  }

  lemma NamesSnoc(a: seq<Run>, x: Run)
    ensures AllNames(a + [x]) == AllNames(a) + x.names
  {
    assert (a + [x])[..|a|] == a;
  }

  lemma {:induction false} NamesConcat(a: seq<Run>, b: seq<Run>)
    ensures AllNames(a + b) == AllNames(a) + AllNames(b)
  {
    if b == [] {
      assert a + b == a;
    } else {
      var init, last := b[..|b| - 1], b[|b| - 1];
      NamesConcat(a, init);
      NamesSnoc(a + init, last);
      TextLines.Associates(AllNames(a), AllNames(init), last.names);
      assert a + b == a + init + [last];
    }
  }

  lemma OneName(x: Run)
    ensures AllNames([x]) == x.names
  {
    assert [x][..0] == [];
    assert AllNames([]) + x.names == x.names;
  }

  lemma NamesWithout(a: seq<Run>, x: Run, b: seq<Run>)
    ensures multiset(AllNames(a + [x] + b)) == multiset(AllNames(a + b)) + multiset(x.names)
  {
    NamesConcat(a + [x], b);
    NamesConcat(a, [x]);
    NamesConcat(a, b);
    OneName(x);
  }

  lemma ProblemsConcat(a: seq<Run>, b: seq<Run>)
    ensures AnyProblem(a + b) <==> AnyProblem(a) || AnyProblem(b)
  {
    assert forall r :: r in a + b <==> r in a || r in b;
  }

  /** The runs collected and those still to come have together the names and the problems of all. */
  ghost predicate Collecting(results: seq<Run>, rest: seq<Run>, all: seq<Run>)
  {
    && multiset(AllNames(results)) + multiset(AllNames(rest)) == multiset(AllNames(all))
    && (AnyProblem(results) || AnyProblem(rest) <==> AnyProblem(all))
  }

  lemma CollectProblems(results: seq<Run>, a: seq<Run>, x: Run, b: seq<Run>)
    ensures AnyProblem(results) || AnyProblem(a + [x] + b) <==> AnyProblem(results + [x]) || AnyProblem(a + b)
  {
    ProblemsConcat(a + [x], b);
    ProblemsConcat(a, [x]);
    ProblemsConcat(a, b);
    ProblemsConcat(results, [x]);
  }

  lemma CollectOne(results: seq<Run>, a: seq<Run>, x: Run, b: seq<Run>, all: seq<Run>)
    requires Collecting(results, a + [x] + b, all)
    ensures Collecting(results + [x], a + b, all)
  {
    CollectProblems(results, a, x, b);
    NamesWithout(a, x, b);
    NamesConcat(results, [x]);
    OneName(x);
  }

  lemma RunsSplit(tasks: seq<Task>, k: nat)
    requires k < |tasks|
    ensures RunsOf(tasks) == RunsOf(tasks[..k]) + [RunOf(tasks[k])] + RunsOf(tasks[k + 1..])
    ensures RunsOf(tasks[..k] + tasks[k + 1..]) == RunsOf(tasks[..k]) + RunsOf(tasks[k + 1..])
  {
  }

  /** Whether values are distinct does not depend on their order. */
  lemma DistinctAnyOrder(a: seq<Value>, b: seq<Value>)
    requires multiset(a) == multiset(b)
    ensures DistinctValues(a) <==> DistinctValues(b)
  {
    KeySetBound(a);
    KeySetBound(b);
    if DistinctValues(a) {
      KeySetSize(a);
    }
    if DistinctValues(b) {
      KeySetSize(b);
    }
    assert |multiset(a)| == |a| && |multiset(b)| == |b|;
    assert KeySet(a) == KeySet(b) by {
      assert forall v :: v in a <==> v in multiset(b);
    }
  }

  /** Runs every file and collects the results as they complete, in whatever order; the verdict is the same. */
  method RunAll(tasks: seq<Task>) returns (results: seq<Run>, pass: bool)
    ensures multiset(AllNames(results)) == multiset(AllNames(RunsOf(tasks)))
    ensures pass <==> Passes(RunsOf(tasks))
  {
    results := [];
    var pending := tasks;
    while pending != []
      invariant Collecting(results, RunsOf(pending), RunsOf(tasks))
      decreases |pending|
    {
      var k :| 0 <= k < |pending|;
      var result := RunFile(pending[k]);
      RunsSplit(pending, k);
      CollectOne(results, RunsOf(pending[..k]), result, RunsOf(pending[k + 1..]), RunsOf(tasks));
      results := results + [result];
      pending := pending[..k] + pending[k + 1..];
    }
    DistinctAnyOrder(AllNames(results), AllNames(RunsOf(tasks)));
    pass := DistinctValues(AllNames(results)) && !AnyProblem(results);
  }
}
