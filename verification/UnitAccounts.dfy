/** What the lines of a run must report for it to count, and what the verdict over all runs means, line by line. */
module UnitAccounts {
  import opened Wrappers
  import opened UnitRuns

  // Which events are read.

  function MarkOf(l: Line): Option<Event>
  {
    if l.Reported? then Some(l.event) else None
  }

  function EventMarks(lines: seq<Line>): seq<Option<Event>>
  {
    seq(|lines|, i requires 0 <= i < |lines| => MarkOf(lines[i]))
  }

  /** The events read are those of the lines before the first malformed one, each once, in order. */
  lemma {:induction false} EventsExact(lines: seq<Line>, n: nat) returns (at: seq<nat>)
    requires n <= |lines| && NoMalformed(lines[..n]) && (n < |lines| ==> lines[n].Malformed?)
    ensures Gathers(EventMarks(lines[..n]), at, EventsOf(lines))
  {
    if n == 0 {
      at := [];
    } else {
      var rest := lines[1..];
      assert lines[..n] == [lines[0]] + rest[..n - 1];
      assert lines[0] in lines[..n] && forall l | l in rest[..n - 1] :: l in lines[..n];
      at := EventsExact(rest, n - 1);
      GathersCons(MarkOf(lines[0]), EventMarks(rest[..n - 1]), at, EventsOf(rest));
      assert EventMarks(lines[..n]) == [MarkOf(lines[0])] + EventMarks(rest[..n - 1]);
      at := if lines[0].Reported? then [0] + Shifted(at) else Shifted(at);
    }
  }

  function KindMark(e: Event, kind: string): Option<Event>
  {
    if e.kind == kind then Some(e) else None
  }

  function KindMarks(events: seq<Event>, kind: string): seq<Option<Event>>
  {
    seq(|events|, i requires 0 <= i < |events| => KindMark(events[i], kind))
  }

  lemma {:induction false} KindExact(events: seq<Event>, kind: string) returns (at: seq<nat>)
    ensures Gathers(KindMarks(events, kind), at, OfKind(events, kind))
  {
    if events == [] {
      at := [];
    } else {
      var e, rest := events[0], events[1..];
      at := KindExact(rest, kind);
      GathersCons(KindMark(e, kind), KindMarks(rest, kind), at, OfKind(rest, kind));
      assert KindMarks(events, kind) == [KindMark(e, kind)] + KindMarks(rest, kind);
      at := if e.kind == kind then [0] + Shifted(at) else Shifted(at);
    }
  }

  /** The line reports an event of a kind. */
  predicate Reports(l: Line, kind: string)
  {
    l.Reported? && l.event.kind == kind
  }

  /** Which lines do. */
  function LinesOf(lines: seq<Line>, kind: string): (at: set<nat>)
    ensures forall i | i in at :: i < |lines| && Reports(lines[i], kind)
  {
    set i: nat | i < |lines| && Reports(lines[i], kind)
  }

  function LineMark(l: Line, kind: string): Option<Event>
  {
    if Reports(l, kind) then Some(l.event) else None
  }

  function LineMarks(lines: seq<Line>, kind: string): seq<Option<Event>>
  {
    seq(|lines|, i requires 0 <= i < |lines| => LineMark(lines[i], kind))
  }

  lemma KindFirst(l: Line, events: seq<Event>, kind: string)
    ensures OfKind((if l.Reported? then [l.event] else []) + events, kind)
         == (if Reports(l, kind) then [l.event] else []) + OfKind(events, kind)
  {
    if l.Reported? {
      assert ([l.event] + events)[1..] == events;
    } else {
      assert [] + events == events;
    }
  }

  /** Without malformed lines, the events of a kind are those of the lines that report one. */
  lemma {:induction false} KindLines(lines: seq<Line>, kind: string) returns (at: seq<nat>)
    requires NoMalformed(lines)
    ensures Gathers(LineMarks(lines, kind), at, OfKind(EventsOf(lines), kind))
  {
    if lines == [] {
      at := [];
    } else {
      var l, rest := lines[0], lines[1..];
      assert l in lines && forall x | x in rest :: x in lines;
      at := KindLines(rest, kind);
      at := OneMoreLine(l, rest, kind, at);
      assert lines == [l] + rest;
    }
  }

  lemma OneMoreLine(l: Line, rest: seq<Line>, kind: string, at: seq<nat>) returns (more: seq<nat>)
    requires !l.Malformed? && Gathers(LineMarks(rest, kind), at, OfKind(EventsOf(rest), kind))
    ensures Gathers(LineMarks([l] + rest, kind), more, OfKind(EventsOf([l] + rest), kind))
  {
    KindFirst(l, EventsOf(rest), kind);
    EventsFirst(l, rest);
    GathersCons(LineMark(l, kind), LineMarks(rest, kind), at, OfKind(EventsOf(rest), kind));
    MarksFirst(l, rest, kind);
    if Reports(l, kind) {
      more := [0] + Shifted(at);
    } else {
      more := Shifted(at);
      assert [] + OfKind(EventsOf(rest), kind) == OfKind(EventsOf(rest), kind);
    }
  }

  lemma EventsFirst(l: Line, rest: seq<Line>)
    requires !l.Malformed?
    ensures EventsOf([l] + rest) == (if l.Reported? then [l.event] else []) + EventsOf(rest)
  {
    assert ([l] + rest)[1..] == rest;
  }

  lemma MarksFirst(l: Line, rest: seq<Line>, kind: string)
    ensures LineMarks([l] + rest, kind) == [LineMark(l, kind)] + LineMarks(rest, kind)
  {
  }

  // Accounts, line by line.

  predicate AllReported(lines: seq<Line>, at: set<nat>)
  {
    forall i | i in at :: i < |lines| && lines[i].Reported?
  }

  /** Events from the file that ran, each with a name. */
  predicate NamedFrom(lines: seq<Line>, at: set<nat>, path: string)
    requires AllReported(lines, at)
  {
    forall i | i in at ::
      lines[i].event.file == Str(path) && lines[i].event.name.Str? && lines[i].event.name.text != ""
  }

  predicate NamesApart(lines: seq<Line>, at: set<nat>)
    requires AllReported(lines, at)
  {
    forall i, j | i in at && j in at && lines[i].event.name == lines[j].event.name :: i == j
  }

  predicate NamesWithin(lines: seq<Line>, a: set<nat>, b: set<nat>)
    requires AllReported(lines, a) && AllReported(lines, b)
  {
    forall i | i in a :: exists j | j in b :: lines[i].event.name == lines[j].event.name
  }

  /** The one summary announces as many tests, and no failure. */
  predicate OneSummary(lines: seq<Line>, n: nat)
  {
    exists s | s in LinesOf(lines, SUMMARY) :: LinesOf(lines, SUMMARY) == {s} && Announces(lines[s].event, n)
  }

  /**
   * The process ended well and no line is malformed; of the lines that report events, none reports a failure, those
   * that report a test started have names of their own from the file that ran, those that report one passed have the
   * same names, also each once, and the one summary counts them.
   */
  ghost predicate Accounts(t: Task)
  {
    && t.process.Finished? && t.process.code == 0 && NoMalformed(t.process.lines)
    && LinesBalance(t.process.lines, t.path)
  }

  ghost predicate LinesBalance(lines: seq<Line>, path: string)
  {
    var started, passed := LinesOf(lines, STARTED), LinesOf(lines, PASSED);
    && LinesOf(lines, FAILED) == {}
    && NamedFrom(lines, started, path) && NamedFrom(lines, passed, path)
    && NamesApart(lines, started) && NamesApart(lines, passed)
    && NamesWithin(lines, started, passed) && NamesWithin(lines, passed, started)
    && passed != {} && OneSummary(lines, |passed|)
  }

  /** Events and the lines they are from. */
  ghost predicate From(lines: seq<Line>, kind: string, at: seq<nat>, events: seq<Event>)
  {
    && |at| == |events| && Increasing(at)
    && (forall k | 0 <= k < |at| :: at[k] < |lines| && lines[at[k]] == Reported(events[k]))
    && (forall i: nat :: i in LinesOf(lines, kind) <==> i in at)
  }

  lemma KindFrom(lines: seq<Line>, kind: string) returns (at: seq<nat>)
    requires NoMalformed(lines)
    ensures From(lines, kind, at, OfKind(EventsOf(lines), kind))
  {
    at := KindLines(lines, kind);
    forall i: nat ensures i in LinesOf(lines, kind) <==> i in at {
      GatheredAt(LineMarks(lines, kind), at, OfKind(EventsOf(lines), kind), i);
    }
    forall k | 0 <= k < |at| ensures lines[at[k]] == Reported(OfKind(EventsOf(lines), kind)[k]) {
      assert LineMarks(lines, kind)[at[k]] == LineMark(lines[at[k]], kind);
    }
  }

  lemma {:induction false} IncreasingSize(at: seq<nat>, s: set<nat>)
    requires Increasing(at) && forall i: nat :: i in s <==> i in at
    ensures |s| == |at|
  {
    if at == [] {
      assert s == {};
    } else {
      var x := at[|at| - 1];
      forall i: nat ensures i in s - {x} <==> i in at[..|at| - 1] {
        LastIsMost(at, i);
      }
      IncreasingSize(at[..|at| - 1], s - {x});
    }
  }

  lemma FromNames(lines: seq<Line>, kind: string, at: seq<nat>, events: seq<Event>, path: string)
    requires From(lines, kind, at, events)
    ensures AllFrom(events, path) && NamesText(NamesOf(events)) <==> NamedFrom(lines, LinesOf(lines, kind), path)
  {
    if AllFrom(events, path) && NamesText(NamesOf(events)) {
      forall i | i in LinesOf(lines, kind)
        ensures lines[i].event.file == Str(path) && lines[i].event.name.Str? && lines[i].event.name.text != ""
      {
        var k :| 0 <= k < |at| && at[k] == i;
        assert events[k] in events && NamesOf(events)[k] in NamesOf(events);
      }
    }
    if NamedFrom(lines, LinesOf(lines, kind), path) {
      forall k | 0 <= k < |events|
        ensures events[k].file == Str(path) && NamesOf(events)[k].Str? && NamesOf(events)[k].text != ""
      {
        assert at[k] in LinesOf(lines, kind);
      }
    }
  }

  lemma FromDistinct(lines: seq<Line>, kind: string, at: seq<nat>, events: seq<Event>)
    requires From(lines, kind, at, events)
    ensures Distinct(NamesOf(events)) <==> NamesApart(lines, LinesOf(lines, kind))
  {
    var names := NamesOf(events);
    if Distinct(names) {
      forall i, j | i in LinesOf(lines, kind) && j in LinesOf(lines, kind)
                    && lines[i].event.name == lines[j].event.name
        ensures i == j
      {
        var a :| 0 <= a < |at| && at[a] == i;
        var b :| 0 <= b < |at| && at[b] == j;
        assert names[a] == names[b];
      }
    }
    if NamesApart(lines, LinesOf(lines, kind)) {
      forall a, b | 0 <= a < b < |names| ensures names[a] != names[b] {
        assert at[a] in LinesOf(lines, kind) && at[b] in LinesOf(lines, kind) && at[a] < at[b];
      }
    }
  }

  lemma FromHas(lines: seq<Line>, kind: string, at: seq<nat>, events: seq<Event>, v: Value)
    requires From(lines, kind, at, events)
    ensures v in NamesOf(events) <==> exists i | i in LinesOf(lines, kind) :: lines[i].event.name == v
  {
    if v in NamesOf(events) {
      var k :| 0 <= k < |events| && NamesOf(events)[k] == v;
      assert at[k] in LinesOf(lines, kind);
    }
    if i :| i in LinesOf(lines, kind) && lines[i].event.name == v {
      var k :| 0 <= k < |at| && at[k] == i;
      assert NamesOf(events)[k] == v;
    }
  }

  lemma FromWithin(lines: seq<Line>, a: seq<nat>, started: seq<Event>, b: seq<nat>, passed: seq<Event>)
    requires From(lines, STARTED, a, started) && From(lines, PASSED, b, passed)
    ensures (forall v :: v in NamesOf(started) <==> v in NamesOf(passed))
       <==> && NamesWithin(lines, LinesOf(lines, STARTED), LinesOf(lines, PASSED))
            && NamesWithin(lines, LinesOf(lines, PASSED), LinesOf(lines, STARTED))
  {
    forall v ensures v in NamesOf(started) <==> exists i | i in LinesOf(lines, STARTED) :: lines[i].event.name == v {
      FromHas(lines, STARTED, a, started, v);
    }
    forall v ensures v in NamesOf(passed) <==> exists i | i in LinesOf(lines, PASSED) :: lines[i].event.name == v {
      FromHas(lines, PASSED, b, passed, v);
    }
    if forall v :: v in NamesOf(started) <==> v in NamesOf(passed) {
      forall i | i in LinesOf(lines, STARTED)
        ensures exists j | j in LinesOf(lines, PASSED) :: lines[i].event.name == lines[j].event.name
      {
        assert lines[i].event.name in NamesOf(started);
      }
      forall i | i in LinesOf(lines, PASSED)
        ensures exists j | j in LinesOf(lines, STARTED) :: lines[i].event.name == lines[j].event.name
      {
        assert lines[i].event.name in NamesOf(passed);
      }
    }
  }

  /** One reorders the other, without repeats: neither repeats a value, and they have the same ones. */
  lemma ReorderedExactly(a: seq<Value>, b: seq<Value>)
    ensures multiset(a) == multiset(b) && (forall v :: multiset(b)[v] <= 1)
       <==> Distinct(a) && Distinct(b) && forall v :: v in a <==> v in b
  {
    OnceEach(a);
    OnceEach(b);
    forall v ensures (v in a <==> multiset(a)[v] > 0) && (v in b <==> multiset(b)[v] > 0) {
    }
  }

  lemma {:induction false} OnceEach(values: seq<Value>)
    ensures Distinct(values) <==> forall v :: multiset(values)[v] <= 1
  {
    if values != [] {
      var init, last := values[..|values| - 1], values[|values| - 1];
      assert values == init + [last];
      OnceEach(init);
      assert forall v :: multiset(values)[v] == multiset(init)[v] + (if v == last then 1 else 0);
      assert Distinct(values) <==> Distinct(init) && last !in init;
      assert last in init <==> multiset(init)[last] > 0;
    }
  }

  lemma FromOne(lines: seq<Line>, at: seq<nat>, summaries: seq<Event>, n: nat)
    requires From(lines, SUMMARY, at, summaries)
    ensures |summaries| == 1 && Announces(summaries[0], n) <==> OneSummary(lines, n)
  {
    IncreasingSize(at, LinesOf(lines, SUMMARY));
    if |summaries| == 1 {
      assert at[0] in LinesOf(lines, SUMMARY);
      assert LinesOf(lines, SUMMARY) == {at[0]};
    }
    if OneSummary(lines, n) {
      var s :| s in LinesOf(lines, SUMMARY) && LinesOf(lines, SUMMARY) == {s} && Announces(lines[s].event, n);
      assert at[0] in LinesOf(lines, SUMMARY);
    }
  }

  lemma BalanceLines(lines: seq<Line>, path: string)
    requires NoMalformed(lines)
    ensures BalanceOf(EventsOf(lines), path) <==> LinesBalance(lines, path)
  {
    var a := KindFrom(lines, STARTED);
    var b := KindFrom(lines, PASSED);
    var c := KindFrom(lines, FAILED);
    var d := KindFrom(lines, SUMMARY);
    var events := EventsOf(lines);
    Balance(lines, path, a, OfKind(events, STARTED), b, OfKind(events, PASSED), c, OfKind(events, FAILED),
      d, OfKind(events, SUMMARY));
  }

  lemma Balance(lines: seq<Line>, path: string, a: seq<nat>, started: seq<Event>, b: seq<nat>, passed: seq<Event>,
    c: seq<nat>, failed: seq<Event>, d: seq<nat>, summaries: seq<Event>)
    requires From(lines, STARTED, a, started) && From(lines, PASSED, b, passed)
    requires From(lines, FAILED, c, failed) && From(lines, SUMMARY, d, summaries)
    ensures EventsBalance(started, passed, failed, summaries, path) <==> LinesBalance(lines, path)
  {
    FromNames(lines, STARTED, a, started, path);
    FromNames(lines, PASSED, b, passed, path);
    FromDistinct(lines, STARTED, a, started);
    FromDistinct(lines, PASSED, b, passed);
    FromWithin(lines, a, started, b, passed);
    ReorderedExactly(NamesOf(started), NamesOf(passed));
    FromOne(lines, d, summaries, |passed|);
    IncreasingSize(b, LinesOf(lines, PASSED));
    IncreasingSize(c, LinesOf(lines, FAILED));
    SameText(NamesOf(started), NamesOf(passed));
  }

  lemma SameText(a: seq<Value>, b: seq<Value>)
    ensures (forall v :: v in a <==> v in b) ==> (NamesText(a) <==> NamesText(b))
  {
  }

  /** A run is clean exactly when it accounts for its tests. */
  lemma CleanExactly(t: Task)
    ensures RunOf(t).problems == [] <==> Accounts(t)
  {
    CleanEvents(t);
    if t.process.Finished? && NoMalformed(t.process.lines) {
      BalanceLines(t.process.lines, t.path);
    }
  }

  // The verdict.

  lemma DistinctParts(a: seq<Value>, b: seq<Value>)
    ensures DistinctValues(a + b)
       <==> && DistinctValues(a) && DistinctValues(b)
            && forall i, j | 0 <= i < |a| && 0 <= j < |b| :: Key(a[i]) != Key(b[j])
  {
    var all := a + b;
    if DistinctValues(all) {
      forall i, j | 0 <= i < j < |b| ensures Key(b[i]) != Key(b[j]) {
        assert Key(all[|a| + i]) != Key(all[|a| + j]);
      }
      forall i, j | 0 <= i < |a| && 0 <= j < |b| ensures Key(a[i]) != Key(b[j]) {
        assert Key(all[i]) != Key(all[|a| + j]);
      }
      forall i, j | 0 <= i < j < |a| ensures Key(a[i]) != Key(a[j]) {
        assert Key(all[i]) != Key(all[j]);
      }
    }
  }

  predicate Disjoint(a: seq<Value>, b: seq<Value>)
  {
    forall v, w | v in a && w in b :: Key(v) != Key(w)
  }

  lemma DistinctAppend(a: seq<Value>, b: seq<Value>)
    ensures DistinctValues(a + b) <==> DistinctValues(a) && DistinctValues(b) && Disjoint(a, b)
  {
    DistinctParts(a, b);
    if Disjoint(a, b) {
      forall i, j | 0 <= i < |a| && 0 <= j < |b| ensures Key(a[i]) != Key(b[j]) {
        assert a[i] in a && b[j] in b;
      }
    }
  }

  predicate RunsDisjoint(runs: seq<Run>, a: nat, b: nat)
    requires a < |runs| && b < |runs|
  {
    Disjoint(runs[a].names, runs[b].names)
  }

  ghost predicate NamesDisjoint(runs: seq<Run>)
  {
    forall a, b | 0 <= a < b < |runs| :: RunsDisjoint(runs, a, b)
  }

  predicate EachDistinct(runs: seq<Run>)
  {
    forall r | r in runs :: DistinctValues(r.names)
  }

  lemma {:induction false} AllDisjoint(runs: seq<Run>, names: seq<Value>)
    ensures Disjoint(AllNames(runs), names) <==> forall r | r in runs :: Disjoint(r.names, names)
  {
    if runs != [] {
      var init, last := runs[..|runs| - 1], runs[|runs| - 1];
      AllDisjoint(init, names);
      assert forall r | r in runs :: r in init || r == last;
      assert last in runs && forall r | r in init :: r in runs;
      assert forall v :: v in AllNames(runs) <==> v in AllNames(init) || v in last.names;
    }
  }

  lemma NamesDisjointSnoc(init: seq<Run>, last: Run)
    ensures NamesDisjoint(init + [last])
       <==> NamesDisjoint(init) && forall r | r in init :: Disjoint(r.names, last.names)
  {
    var runs := init + [last];
    if NamesDisjoint(runs) {
      forall a, b | 0 <= a < b < |init| ensures RunsDisjoint(init, a, b) {
        assert RunsDisjoint(runs, a, b);
      }
      forall r | r in init ensures Disjoint(r.names, last.names) {
        var a :| 0 <= a < |init| && init[a] == r;
        assert RunsDisjoint(runs, a, |init|);
      }
    }
    if NamesDisjoint(init) && forall r | r in init :: Disjoint(r.names, last.names) {
      forall a, b | 0 <= a < b < |runs| ensures RunsDisjoint(runs, a, b) {
        assert runs[a] in init;
        assert b < |init| ==> RunsDisjoint(init, a, b);
      }
    }
  }

  lemma {:induction false} AllDistinct(runs: seq<Run>)
    ensures DistinctValues(AllNames(runs)) <==> EachDistinct(runs) && NamesDisjoint(runs)
  {
    if runs != [] {
      var init, last := runs[..|runs| - 1], runs[|runs| - 1];
      assert runs == init + [last];
      AllDistinct(init);
      DistinctAppend(AllNames(init), last.names);
      AllDisjoint(init, last.names);
      NamesDisjointSnoc(init, last);
      assert EachDistinct(runs) <==> EachDistinct(init) && DistinctValues(last.names) by {
        assert last in runs && forall r | r in init :: r in runs;
        assert forall r | r in runs :: r in init || r == last;
      }
    }
  }

  /** No test of one file has the name of a test of another. */
  predicate FilesApart(a: Task, b: Task)
    requires a.process.Finished? && b.process.Finished?
  {
    var lines, other := a.process.lines, b.process.lines;
    forall i, j | i in LinesOf(lines, PASSED) && j in LinesOf(other, PASSED) ::
      lines[i].event.name != other[j].event.name
  }

  /** A test of the name passed. */
  ghost predicate PassedAs(t: Task, v: Value)
    requires t.process.Finished?
  {
    exists i | i in LinesOf(t.process.lines, PASSED) :: t.process.lines[i].event.name == v
  }

  lemma AccountedNames(t: Task)
    requires Accounts(t)
    ensures NamesText(RunOf(t).names) && DistinctValues(RunOf(t).names)
  {
    CleanExactly(t);
    CleanEvents(t);
    DistinctCounts(RunOf(t).names);
  }

  lemma NameOfTest(t: Task, v: Value)
    requires Accounts(t)
    ensures v in RunOf(t).names <==> PassedAs(t, v)
  {
    CleanExactly(t);
    var lines := t.process.lines;
    var at := KindFrom(lines, PASSED);
    FromHas(lines, PASSED, at, OfKind(EventsOf(lines), PASSED), v);
  }

  lemma PassedHere(t: Task, i: nat)
    requires Accounts(t) && i in LinesOf(t.process.lines, PASSED)
    ensures t.process.lines[i].event.name in RunOf(t).names
  {
    NameOfTest(t, t.process.lines[i].event.name);
  }

  predicate NamesAmong(lines: seq<Line>, at: set<nat>, names: seq<Value>)
    requires AllReported(lines, at)
  {
    forall i | i in at :: lines[i].event.name in names
  }

  lemma ApartFrom(lines: seq<Line>, at: set<nat>, names: seq<Value>, i: nat, other: seq<Line>, b: set<nat>,
    more: seq<Value>, j: nat)
    requires AllReported(lines, at) && AllReported(other, b) && i in at && j in b
    requires NamesAmong(lines, at, names) && NamesAmong(other, b, more) && Disjoint(names, more)
    ensures lines[i].event.name != other[j].event.name
  {
  }

  lemma PassedAmong(t: Task)
    requires Accounts(t)
    ensures NamesAmong(t.process.lines, LinesOf(t.process.lines, PASSED), RunOf(t).names)
  {
    forall i | i in LinesOf(t.process.lines, PASSED) ensures t.process.lines[i].event.name in RunOf(t).names {
      PassedHere(t, i);
    }
  }

  lemma DisjointApart(a: Task, b: Task)
    requires a.process.Finished? && b.process.Finished? && Disjoint(RunOf(a).names, RunOf(b).names)
    requires NamesAmong(a.process.lines, LinesOf(a.process.lines, PASSED), RunOf(a).names)
    requires NamesAmong(b.process.lines, LinesOf(b.process.lines, PASSED), RunOf(b).names)
    ensures FilesApart(a, b)
  {
    var lines, other := a.process.lines, b.process.lines;
    forall i, j | i in LinesOf(lines, PASSED) && j in LinesOf(other, PASSED)
      ensures lines[i].event.name != other[j].event.name
    {
      ApartFrom(lines, LinesOf(lines, PASSED), RunOf(a).names, i, other, LinesOf(other, PASSED), RunOf(b).names, j);
    }
  }

  lemma ApartDisjoint(a: Task, b: Task)
    requires Accounts(a) && Accounts(b) && FilesApart(a, b)
    ensures Disjoint(RunOf(a).names, RunOf(b).names)
  {
    AccountedNames(a);
    AccountedNames(b);
    forall v, w | v in RunOf(a).names && w in RunOf(b).names ensures Key(v) != Key(w) {
      NameOfTest(a, v);
      NameOfTest(b, w);
    }
  }

  predicate PairApart(tasks: seq<Task>, a: nat, b: nat)
    requires a < |tasks| && b < |tasks|
  {
    tasks[a].process.Finished? && tasks[b].process.Finished? && FilesApart(tasks[a], tasks[b])
  }

  lemma PairNames(tasks: seq<Task>, a: nat, b: nat)
    requires a < b < |tasks| && Accounts(tasks[a]) && Accounts(tasks[b])
    ensures RunsDisjoint(RunsOf(tasks), a, b) <==> PairApart(tasks, a, b)
  {
    if PairApart(tasks, a, b) {
      ApartDisjoint(tasks[a], tasks[b]);
    }
    if Disjoint(RunsOf(tasks)[a].names, RunsOf(tasks)[b].names) {
      PassedAmong(tasks[a]);
      PassedAmong(tasks[b]);
      DisjointApart(tasks[a], tasks[b]);
    }
  }

  lemma PairsApart(tasks: seq<Task>)
    requires forall t | t in tasks :: Accounts(t)
    ensures NamesDisjoint(RunsOf(tasks)) <==> forall a, b | 0 <= a < b < |tasks| :: PairApart(tasks, a, b)
  {
    forall a, b | 0 <= a < b < |tasks|
      ensures RunsDisjoint(RunsOf(tasks), a, b) <==> PairApart(tasks, a, b)
    {
      assert tasks[a] in tasks && tasks[b] in tasks;
      PairNames(tasks, a, b);
    }
  }

  lemma NamesOnceEach(tasks: seq<Task>)
    requires forall t | t in tasks :: Accounts(t)
    ensures EachDistinct(RunsOf(tasks))
  {
    forall k | 0 <= k < |tasks| ensures DistinctValues(RunsOf(tasks)[k].names) {
      assert tasks[k] in tasks;
      AccountedNames(tasks[k]);
    }
  }

  lemma AnyProblemTask(tasks: seq<Task>)
    ensures !AnyProblem(RunsOf(tasks)) <==> forall t | t in tasks :: Accounts(t)
  {
    var runs := RunsOf(tasks);
    if r :| r in runs && r.problems != [] {
      var i :| 0 <= i < |runs| && runs[i] == r;
      CleanExactly(tasks[i]);
      assert tasks[i] in tasks;
    }
    if t :| t in tasks && !Accounts(t) {
      var i :| 0 <= i < |tasks| && tasks[i] == t;
      CleanExactly(t);
      assert runs[i] in runs;
    }
  }

  /** Passing over all files means that every file accounts for its tests, and no two files share a test name. */
  lemma PassMeans(tasks: seq<Task>)
    ensures Passes(RunsOf(tasks)) <==>
              && (forall t | t in tasks :: Accounts(t))
              && forall a, b | 0 <= a < b < |tasks| :: PairApart(tasks, a, b)
  {
    AnyProblemTask(tasks);
    AllDistinct(RunsOf(tasks));
    if forall t | t in tasks :: Accounts(t) {
      PairsApart(tasks);
      NamesOnceEach(tasks);
    }
  }

  /** The number of tests that a run announces. */
  predicate Announced(t: Task, n: nat)
  {
    t.process.Finished? && exists s | s in LinesOf(t.process.lines, SUMMARY) ::
      t.process.lines[s].event.total == Number(n as real, true)
  }

  function Sum(ns: seq<nat>): nat
  {
    if ns == [] then 0 else Sum(ns[..|ns| - 1]) + ns[|ns| - 1]
  }

  lemma OneTotal(t: Task, n: nat)
    requires Accounts(t) && Announced(t, n)
    ensures n == |RunOf(t).names| == |LinesOf(t.process.lines, PASSED)| && n > 0
  {
    CleanExactly(t);
    var lines := t.process.lines;
    var at := KindFrom(lines, PASSED);
    IncreasingSize(at, LinesOf(lines, PASSED));
    var s :| s in LinesOf(lines, SUMMARY) && lines[s].event.total == Number(n as real, true);
    assert OneSummary(lines, |LinesOf(lines, PASSED)|);
  }

  lemma {:induction false} CountsAdd(runs: seq<Run>, counts: seq<nat>)
    requires |counts| == |runs| && forall k | 0 <= k < |runs| :: counts[k] == |runs[k].names|
    ensures |AllNames(runs)| == Sum(counts)
  {
    if runs != [] {
      CountsAdd(runs[..|runs| - 1], counts[..|runs| - 1]);
    }
  }

  /** When all files account for their tests, as many are counted as the summaries announce together. */
  lemma TotalsAgree(tasks: seq<Task>, totals: seq<nat>)
    requires |totals| == |tasks| && forall t | t in tasks :: Accounts(t)
    requires forall k | 0 <= k < |tasks| :: Announced(tasks[k], totals[k])
    ensures |AllNames(RunsOf(tasks))| == Sum(totals)
  {
    forall k | 0 <= k < |tasks| ensures totals[k] == |RunOf(tasks[k]).names| {
      assert tasks[k] in tasks;
      OneTotal(tasks[k], totals[k]);
    }
    CountsAdd(RunsOf(tasks), totals);
  }

  // Which problems are reported.

  /** When a run of a file, with an exit code and some events of each kind, has a problem. */
  ghost predicate HasProblem(p: Problem, path: string, code: int, malformed: bool, started: seq<Event>,
    passed: seq<Event>, failed: seq<Event>, summaries: seq<Event>)
  {
    match p
    case TimedOut => false
    case Raised => false
    case MalformedEvent => malformed
    case Exited => code != 0
    case NotOneSummary => |summaries| != 1
    case SummaryDiffers => |summaries| == 1 && !SummaryOk(summaries[0], |passed|)
    case CountsDiffer => failed != [] || |started| != |passed|
    case IdentityDiffers => !AllFrom(started + passed + failed, path) || !NamesText(NamesOf(passed))
    case NamesDiffer => !DistinctValues(NamesOf(passed)) || KeySet(NamesOf(started)) != KeySet(NamesOf(passed))
  }

  lemma ManyFound(a: bool, b: bool, s: seq<Problem>, c: bool, d: bool, e: bool, p: Problem)
    ensures p in Problems(a, MalformedEvent) + Problems(b, Exited) + s + Problems(c, CountsDiffer)
                 + Problems(d, IdentityDiffers) + Problems(e, NamesDiffer)
       <==> (a && p.MalformedEvent?) || (b && p.Exited?) || p in s || (c && p.CountsDiffer?)
            || (d && p.IdentityDiffers?) || (e && p.NamesDiffer?)
  {
  }

  lemma ProblemsOf(path: string, code: int, malformed: bool, started: seq<Event>, passed: seq<Event>,
    failed: seq<Event>, summaries: seq<Event>, p: Problem)
    ensures p in Problems(malformed, MalformedEvent) + Problems(code != 0, Exited)
                 + SummaryProblems(summaries, |passed|)
                 + Problems(failed != [] || |started| != |passed|, CountsDiffer)
                 + Problems(!AllFrom(started + passed + failed, path) || !NamesText(NamesOf(passed)), IdentityDiffers)
                 + NameProblems(NamesOf(started), NamesOf(passed))
       <==> HasProblem(p, path, code, malformed, started, passed, failed, summaries)
  {
    var exited, differ := code != 0, failed != [] || |started| != |passed|;
    var strange := !AllFrom(started + passed + failed, path) || !NamesText(NamesOf(passed));
    var unlike := !DistinctValues(NamesOf(passed)) || KeySet(NamesOf(started)) != KeySet(NamesOf(passed));
    ManyFound(malformed, exited, SummaryProblems(summaries, |passed|), differ, strange, unlike, p);
  }

  /** A run reports that it timed out, that its names cannot be compared, or exactly the problems that it has. */
  lemma ProblemsExact(t: Task, p: Problem)
    ensures match t.process
            case Expired => RunOf(t) == Run([], [TimedOut])
            case Finished(code, lines) =>
              var events := EventsOf(lines);
              var started, passed := OfKind(events, STARTED), OfKind(events, PASSED);
              if Raises(NamesOf(started), NamesOf(passed)) then RunOf(t) == Run([], [Raised])
              else
                && RunOf(t).names == NamesOf(passed)
                && (p in RunOf(t).problems <==>
                      HasProblem(p, t.path, code, !NoMalformed(lines), started, passed, OfKind(events, FAILED),
                        OfKind(events, SUMMARY)))
  {
    if t.process.Finished? {
      var events := EventsOf(t.process.lines);
      ProblemsOf(t.path, t.process.code, !NoMalformed(t.process.lines), OfKind(events, STARTED),
        OfKind(events, PASSED), OfKind(events, FAILED), OfKind(events, SUMMARY), p);
    }
  }
}
