/** What the layout check reports, issue by issue and in order, and what it counts. */
module LayoutReports {
  import opened Wrappers
  import opened TextSearch
  import opened HeaderReading
  import opened LayoutRules
  import opened LayoutIsolation

  // Responsibilities, as a table of directories.

  const CHECKING_DIRECTORIES: set<Name> :=
    { ["frontend", "checking"], ["frontend", "checking", "body"], ["frontend", "checking", "program"],
      ["frontend", "checking", "builtins"], ["frontend", "checking", "nominal"],
      ["frontend", "checking", "collections"] }

  const MIR_DIRECTORIES: set<Name> :=
    { ["mir"], ["mir", "model"], ["mir", "build"], ["mir", "lowering"], ["mir", "analysis"], ["mir", "passes"],
      ["mir", "verify"] }

  const QBE_DIRECTORIES: set<Name> :=
    { ["backend", "qbe"], ["backend", "qbe", "emit"], ["backend", "qbe", "runtime"] }

  const SOLE_DIRECTORIES: set<Name> :=
    { ["support"], ["state"], ["frontend", "types"], ["frontend", "syntax"], ["frontend", "resolution"],
      ["frontend", "providers"], ["project"], ["entry"], ["cli"], ["testing"], ["tests"] }

  /** The directories of a group; any other directory is a group of its own. */
  predicate OwnedBy(g: Group, d: Name)
  {
    match g
    case Support => d == ["support"]
    case State => d == ["state"]
    case Types => d == ["frontend", "types"]
    case Syntax => d == ["frontend", "syntax"]
    case Resolution => d == ["frontend", "resolution"]
    case Checking => d in CHECKING_DIRECTORIES
    case Providers => d == ["frontend", "providers"]
    case Mir => d in MIR_DIRECTORIES
    case Qbe => d in QBE_DIRECTORIES
    case Project => d == ["project"]
    case Entry => d == ["entry"]
    case Cli => d == ["cli"]
    case Testing => d == ["testing"]
    case Tests => d == ["tests"]
    case Other(directory) =>
      d == directory && d !in CHECKING_DIRECTORIES + MIR_DIRECTORIES + QBE_DIRECTORIES + SOLE_DIRECTORIES
  }

  lemma OneName(d: Name, g: Group)
    requires |d| == 1
    ensures DirectoryGroup(d) == g <==> OwnedBy(g, d)
  {
    assert d == [d[0]];
  }

  lemma TwoNames(d: Name, g: Group)
    requires |d| == 2
    ensures DirectoryGroup(d) == g <==> OwnedBy(g, d)
  {
    assert d == [d[0], d[1]];
  }

  lemma ThreeNames(d: Name, g: Group)
    requires |d| == 3
    ensures DirectoryGroup(d) == g <==> OwnedBy(g, d)
  {
    assert d == [d[0], d[1], d[2]];
  }

  /** The group of a directory is the one that the table gives it. */
  lemma DirectoryGroupExact(d: Name, g: Group)
    ensures DirectoryGroup(d) == g <==> OwnedBy(g, d)
  {
    if |d| == 1 {
      OneName(d, g);
    } else if |d| == 2 {
      TwoNames(d, g);
    } else if |d| == 3 {
      ThreeNames(d, g);
    }
  }

  /**
   * A module below testing or tests belongs there; another CLI module to the CLI; one at the root is the entry when it
   * is the compiler or a test, and has no group otherwise; any other belongs to the group of its directory.
   */
  lemma GroupExact(area: Area, name: Name)
    requires name != []
    ensures |name| > 1 && name[0] == "testing" ==> GroupOf(area, name) == Testing
    ensures |name| > 1 && name[0] == "tests" ==> GroupOf(area, name) == Tests
    ensures |name| == 1 || name[0] !in {"testing", "tests"} ==>
              && (area == CliArea ==> GroupOf(area, name) == Cli)
              && (area == Src && |name| == 1 ==>
                    GroupOf(area, name) == if name == ["compiler"] || IsTest(name) then Entry else Other([]))
              && (area == Src && |name| > 1 ==> OwnedBy(GroupOf(area, name), name[..|name| - 1]))
  {
    var d := name[..|name| - 1];
    DirectoryGroupExact(d, DirectoryGroup(d));
    if |name| == 1 {
      assert d == [];
    }
  }

  // Modules.

  predicate FirstNamed(ms: seq<Module>, name: Name, k: nat)
    requires k < |ms|
  {
    ms[k].file.name == name && forall j | 0 <= j < k :: ms[j].file.name != name
  }

  /** A name leads to the first module that has it, and to none only when none has. */
  lemma {:induction false} ModuleNamedExact(ms: seq<Module>, name: Name)
    ensures ModuleNamed(ms, name).None? <==> forall m | m in ms :: m.file.name != name
    ensures ModuleNamed(ms, name).Some? ==>
              exists k | 0 <= k < |ms| :: FirstNamed(ms, name, k) && ms[k] == ModuleNamed(ms, name).value
  {
    if ms != [] {
      var rest := ms[1..];
      ModuleNamedExact(rest, name);
      assert ms[0] in ms && forall m | m in rest :: m in ms;
      if ms[0].file.name == name {
        assert FirstNamed(ms, name, 0);
      } else if ModuleNamed(rest, name).Some? {
        var k :| 0 <= k < |rest| && FirstNamed(rest, name, k) && rest[k] == ModuleNamed(rest, name).value;
        assert ms == [ms[0]] + rest;
        FirstLater(ms[0], rest, name, k);
      }
    }
  }

  lemma FirstLater(first: Module, rest: seq<Module>, name: Name, k: nat)
    requires k < |rest| && first.file.name != name && FirstNamed(rest, name, k)
    ensures FirstNamed([first] + rest, name, k + 1)
  {
    var ms := [first] + rest;
    forall j | 0 <= j < k + 1 ensures ms[j].file.name != name {
      assert j > 0 ==> ms[j] == rest[j - 1];
    }
  }

  /** An earlier file, no link, has the name. */
  predicate NamedBefore(files: seq<SourceFile>, k: nat)
    requires k < |files|
  {
    exists j | 0 <= j < k :: !files[j].link && files[j].name == files[k].name
  }

  function ModuleMark(files: seq<SourceFile>, k: nat): Option<Module>
    requires k < |files|
  {
    if files[k].link || NamedBefore(files, k) || files[k].name == [] then None else Some(ModuleOf(files[k]))
  }

  function ModuleMarks(files: seq<SourceFile>): seq<Option<Module>>
  {
    seq(|files|, k requires 0 <= k < |files| => ModuleMark(files, k))
  }

  lemma BeforePrefix(init: seq<SourceFile>, f: SourceFile, k: nat)
    requires k < |init|
    ensures NamedBefore(init + [f], k) <==> NamedBefore(init, k)
  {
    var files := init + [f];
    if NamedBefore(files, k) {
      var j :| 0 <= j < k && !files[j].link && files[j].name == files[k].name;
      assert !init[j].link && init[j].name == init[k].name;
    }
    if NamedBefore(init, k) {
      var j :| 0 <= j < k && !init[j].link && init[j].name == init[k].name;
      assert !files[j].link && files[j].name == files[k].name;
    }
  }

  lemma NamedLast(init: seq<SourceFile>, f: SourceFile)
    ensures NamedBefore(init + [f], |init|) <==> exists j | 0 <= j < |init| :: !init[j].link && init[j].name == f.name
  {
    var files := init + [f];
    if NamedBefore(files, |init|) {
      var j :| 0 <= j < |init| && !files[j].link && files[j].name == files[|init|].name;
      assert !init[j].link && init[j].name == f.name;
    }
    if j :| 0 <= j < |init| && !init[j].link && init[j].name == f.name {
      assert !files[j].link && files[j].name == files[|init|].name;
    }
  }

  lemma MarksSnoc(init: seq<SourceFile>, f: SourceFile)
    ensures ModuleMarks(init + [f]) == ModuleMarks(init) + [ModuleMark(init + [f], |init|)]
  {
    var files := init + [f];
    forall k | 0 <= k < |init| ensures ModuleMark(files, k) == ModuleMark(init, k) {
      BeforePrefix(init, f, k);
    }
  }

  lemma NamesGathered(init: seq<SourceFile>, f: SourceFile, at: seq<nat>, ms: seq<Module>)
    requires Gathers(ModuleMarks(init), at, ms) && f.name != [] && forall g | g in init :: g.name != []
    ensures f.name in Names(ms) <==> exists j | 0 <= j < |init| :: !init[j].link && init[j].name == f.name
  {
    if f.name in Names(ms) {
      var k :| 0 <= k < |ms| && Names(ms)[k] == f.name;
      assert ModuleMarks(init)[at[k]] == Some(ms[k]);
      assert init[at[k]].name == f.name;
    }
    if j :| 0 <= j < |init| && !init[j].link && init[j].name == f.name {
      FirstOfName(init, f.name, j);
      var i :| 0 <= i <= j && !init[i].link && init[i].name == f.name && !NamedBefore(init, i);
      assert init[i] in init;
      assert ModuleMarks(init)[i].Some?;
      var k :| 0 <= k < |at| && at[k] == i;
      assert ModuleMarks(init)[at[k]] == Some(ms[k]);
      assert Names(ms)[k] == f.name;
    }
  }

  lemma {:induction false} FirstOfName(files: seq<SourceFile>, name: Name, j: nat)
    requires j < |files| && !files[j].link && files[j].name == name
    ensures exists i | 0 <= i <= j :: !files[i].link && files[i].name == name && !NamedBefore(files, i)
  {
    if NamedBefore(files, j) {
      var i :| 0 <= i < j && !files[i].link && files[i].name == files[j].name;
      FirstOfName(files, name, i);
    }
  }

  /** The modules found are the files that are no links and whose name no earlier such file has, in order. */
  lemma {:induction false} DiscoverExact(files: seq<SourceFile>) returns (at: seq<nat>)
    requires forall f | f in files :: f.name != []
    ensures Gathers(ModuleMarks(files), at, Discover(files).0)
  {
    if files == [] {
      at := [];
    } else {
      var init, f := files[..|files| - 1], files[|files| - 1];
      assert f in files && forall g | g in init :: g in files;
      at := DiscoverExact(init);
      assert files == init + [f];
      NamesGathered(init, f, at, Discover(init).0);
      MarksSnoc(init, f);
      NamedLast(init, f);
      GathersSnoc(ModuleMarks(init), at, Discover(init).0, ModuleMark(files, |init|));
      at := if ModuleMark(files, |init|).Some? then at + [|init|] else at;
    }
  }

  // Issues.

  /** What a file is reported for when it is found. */
  predicate FileDeserves(files: seq<SourceFile>, k: nat, x: Issue)
    requires k < |files|
  {
    var f := files[k];
    match x
    case OutsideRoot(name) => name == f.name && f.link
    case Duplicate(name) => name == f.name && !f.link && NamedBefore(files, k)
    case NoResponsibility(name) =>
      name == f.name != [] && !f.link && !NamedBefore(files, k) && GroupOf(f.area, f.name).Other?
    case HelperAmongTests(name) =>
      name == f.name != [] && !f.link && !NamedBefore(files, k) && GroupOf(f.area, f.name) == Tests && !IsTest(f.name)
    case _ => false
  }

  lemma DeservesPrefix(init: seq<SourceFile>, f: SourceFile, k: nat, x: Issue)
    requires k < |init|
    ensures FileDeserves(init + [f], k, x) <==> FileDeserves(init, k, x)
  {
    BeforePrefix(init, f, k);
  }

  function FileNews(ms: seq<Module>, f: SourceFile): seq<Issue>
    requires f.name != []
  {
    if f.link then [OutsideRoot(f.name)]
    else if f.name in Names(ms) then [Duplicate(f.name)]
    else FileIssues(ModuleOf(f))
  }

  lemma NewsOf(init: seq<SourceFile>, f: SourceFile, ms: seq<Module>, x: Issue)
    requires f.name != [] && (f.name in Names(ms) <==> NamedBefore(init + [f], |init|))
    ensures x in FileNews(ms, f) <==> FileDeserves(init + [f], |init|, x)
  {
  }

  lemma DiscoverSnoc(init: seq<SourceFile>, f: SourceFile)
    requires f.name != [] && forall g | g in init :: g.name != []
    ensures forall g | g in init + [f] :: g.name != []
    ensures Discover(init + [f]).1 == Discover(init).1 + FileNews(Discover(init).0, f)
  {
    assert (init + [f])[..|init|] == init;
  }

  lemma DeserveSnoc(init: seq<SourceFile>, f: SourceFile, x: Issue)
    ensures (exists k | 0 <= k < |init + [f]| :: FileDeserves(init + [f], k, x))
       <==> (exists k | 0 <= k < |init| :: FileDeserves(init, k, x)) || FileDeserves(init + [f], |init|, x)
  {
    forall k | 0 <= k < |init| ensures FileDeserves(init + [f], k, x) <==> FileDeserves(init, k, x) {
      DeservesPrefix(init, f, k, x);
    }
  }

  lemma NewReported(init: seq<SourceFile>, f: SourceFile, x: Issue)
    requires f.name != [] && forall g | g in init :: g.name != []
    ensures forall g | g in init + [f] :: g.name != []
    ensures x in Discover(init + [f]).1 <==> x in Discover(init).1 || FileDeserves(init + [f], |init|, x)
  {
    var at := DiscoverExact(init);
    NamesGathered(init, f, at, Discover(init).0);
    NamedLast(init, f);
    NewsOf(init, f, Discover(init).0, x);
    DiscoverSnoc(init, f);
  }

  /** An issue is reported on the way exactly when some file deserves it. */
  lemma {:induction false} DiscoverReports(files: seq<SourceFile>, x: Issue)
    requires forall f | f in files :: f.name != []
    ensures x in Discover(files).1 <==> exists k | 0 <= k < |files| :: FileDeserves(files, k, x)
  {
    if files != [] {
      var init, f := files[..|files| - 1], files[|files| - 1];
      assert f in files && forall g | g in init :: g in files;
      assert files == init + [f];
      DiscoverReports(init, x);
      NewReported(init, f, x);
      DeserveSnoc(init, f, x);
    }
  }

  /** What an import of a module is reported for. */
  predicate ImportDeserves(ms: seq<Module>, m: Module, i: Import, x: Issue)
  {
    var target := ModuleNamed(ms, i.target);
    var helps, library := m.test || m.group == Testing, IsLibrary(i.target);
    match x
    case ImportsTestSupport(name, line) =>
      name == m.file.name && line == i.line && library && i.target == TEST_LIBRARY && !helps
    case HelperRegisters(name, line) =>
      name == m.file.name && line == i.line && library && i.target == TEST_LIBRARY && m.group == Testing && i.registers
    case MissingTarget(name, line) => name == m.file.name && line == i.line && !library && target.None?
    case CoreOnCli(name, line) =>
      name == m.file.name && line == i.line && !library && target.Some?
      && m.file.area == Src && target.value.file.area == CliArea
    case TestImported(name, line) =>
      name == m.file.name && line == i.line && !library && target.Some?
      && !(m.file.area == Src && target.value.file.area == CliArea) && target.value.test
    case HelperImported(name, line) =>
      name == m.file.name && line == i.line && !library && target.Some?
      && !(m.file.area == Src && target.value.file.area == CliArea) && !target.value.test
      && !helps && target.value.group == Testing
    case Forbidden(name, line) =>
      name == m.file.name && line == i.line && !library && target.Some?
      && !(m.file.area == Src && target.value.file.area == CliArea) && !target.value.test
      && !helps && target.value.group != Testing && m.group != Entry && m.group != Cli
      && target.value.group !in Allowed(m.group) && !Excepted(m.file.name, i.target)
    case _ => false
  }

  lemma ImportReports(ms: seq<Module>, m: Module, i: Import, x: Issue)
    ensures x in ImportIssues(ms, m, i) <==> ImportDeserves(ms, m, i, x)
  {
  }

  lemma {:induction false} HeaderReports(ms: seq<Module>, m: Module, imports: seq<Import>, x: Issue)
    ensures x in HeaderIssues(ms, m, imports) <==> exists i | i in imports :: ImportDeserves(ms, m, i, x)
  {
    if imports != [] {
      var init, last := imports[..|imports| - 1], imports[|imports| - 1];
      HeaderReports(ms, m, init, x);
      ImportReports(ms, m, last, x);
      assert last in imports && forall i | i in init :: i in imports;
      assert forall i | i in imports :: i in init || i == last;
    }
  }

  /** What a module is reported for. */
  ghost predicate ModuleDeserves(files: seq<SourceFile>, ms: seq<Module>, m: Module, x: Issue)
    requires m.file.name != []
  {
    || (x == NoOwner(m.file.name) && m.test && m.group != Tests && m.group != Testing && !NamesOwner(files, m.file))
    || (x == BadHeader(m.file.name) && Header(m.file).None?)
    || (Header(m.file).Some? && exists i | i in Header(m.file).value :: ImportDeserves(ms, m, i, x))
  }

  lemma ModuleReports(files: seq<SourceFile>, ms: seq<Module>, m: Module, x: Issue)
    requires m.file.name != [] && m == ModuleOf(m.file)
    ensures x in ModuleIssues(files, ms, m) <==> ModuleDeserves(files, ms, m, x)
  {
    if Header(m.file).Some? {
      HeaderReports(ms, m, Header(m.file).value, x);
    }
    if m.test {
      HasOwnerExact(files, m.file);
    }
  }

  /** The module at a place is reported for something. */
  ghost predicate DeservesAt(files: seq<SourceFile>, ms: seq<Module>, k: nat, x: Issue)
    requires k < |ms|
  {
    ms[k].file.name != [] && ModuleDeserves(files, ms, ms[k], x)
  }

  lemma ReportsAt(files: seq<SourceFile>, ms: seq<Module>, k: nat, x: Issue)
    requires k < |ms| && Named(ms)
    ensures ReportedUpTo(files, ms, k + 1, x) <==> ReportedUpTo(files, ms, k, x) || DeservesAt(files, ms, k, x)
  {
    assert ms[k] in ms;
    ModuleReports(files, ms, ms[k], x);
  }

  predicate ReportedUpTo(files: seq<SourceFile>, ms: seq<Module>, n: nat, x: Issue)
    requires n <= |ms| && Named(ms)
  {
    x in AllIssues(files, ms, n)
  }

  lemma ReportSteps(files: seq<SourceFile>, ms: seq<Module>, x: Issue, upTo: seq<bool>, each: seq<bool>)
    requires Named(ms) && |each| == |ms| && |upTo| == |ms| + 1
    requires forall n | 0 <= n <= |ms| :: upTo[n] == ReportedUpTo(files, ms, n, x)
    requires forall k | 0 <= k < |ms| :: each[k] == DeservesAt(files, ms, k, x)
    ensures !upTo[0] && forall k | 0 <= k < |ms| :: upTo[k + 1] == (upTo[k] || each[k])
  {
    assert upTo[0] == ReportedUpTo(files, ms, 0, x);
    forall k | 0 <= k < |ms| ensures upTo[k + 1] == (upTo[k] || each[k]) {
      ReportsAt(files, ms, k, x);
    }
  }

  lemma AllReports(files: seq<SourceFile>, ms: seq<Module>, x: Issue)
    requires Named(ms)
    ensures ReportedUpTo(files, ms, |ms|, x) <==> exists k | 0 <= k < |ms| :: DeservesAt(files, ms, k, x)
  {
    var upTo := seq(|ms| + 1, n requires 0 <= n <= |ms| => ReportedUpTo(files, ms, n, x));
    var each := seq(|ms|, k requires 0 <= k < |ms| => DeservesAt(files, ms, k, x));
    ReportSteps(files, ms, x, upTo, each);
    AnySoFar(upTo, each, |ms|);
    assert upTo[|ms|] == ReportedUpTo(files, ms, |ms|, x);
    assert forall k | 0 <= k < |ms| :: each[k] == DeservesAt(files, ms, k, x);
  }

  lemma CheckParts(files: seq<SourceFile>, x: Issue)
    requires forall f | f in files :: f.name != []
    ensures var (ms, issues) := Discover(files);
            && Named(ms)
            && (x in Check(files) <==>
                  || x in issues || (x == NoEntry && ModuleNamed(ms, ["compiler"]).None?)
                  || ReportedUpTo(files, ms, |ms|, x))
  {
    DiscoverNamed(files);
  }

  /** An issue is reported exactly when a file deserves it, the entry is missing, or a module deserves it. */
  lemma CheckReports(files: seq<SourceFile>, x: Issue)
    requires forall f | f in files :: f.name != []
    ensures var ms := Discover(files).0;
            x in Check(files) <==>
              || (exists k | 0 <= k < |files| :: FileDeserves(files, k, x))
              || (x == NoEntry && forall m | m in ms :: m.file.name != ["compiler"])
              || (exists k | 0 <= k < |ms| :: DeservesAt(files, ms, k, x))
  {
    var ms := Discover(files).0;
    CheckParts(files, x);
    DiscoverReports(files, x);
    ModuleNamedExact(ms, ["compiler"]);
    AllReports(files, ms, x);
  }

  // Counts.

  function Headers(ms: seq<Module>): seq<Option<seq<Import>>>
  {
    seq(|ms|, k requires 0 <= k < |ms| => Header(ms[k].file))
  }

  function EdgesIn(imports: seq<Import>, k: nat): set<(nat, nat)>
  {
    set i: nat | i < |imports| && !IsLibrary(imports[i].target) :: (k, i)
  }

  /** The imports, by header and place, that are not of the library. */
  function EdgesOf(headers: seq<Option<seq<Import>>>): set<(nat, nat)>
  {
    set k: nat, i: nat | k < |headers| && headers[k].Some? && i < |headers[k].value|
                         && !IsLibrary(headers[k].value[i].target) :: (k, i)
  }

  lemma EdgesInSnoc(init: seq<Import>, last: Import, k: nat)
    ensures var more := if IsLibrary(last.target) then {} else {(k, |init|)};
            EdgesIn(init + [last], k) == EdgesIn(init, k) + more && EdgesIn(init, k) !! more
  {
    var all := init + [last];
    forall p ensures p in EdgesIn(all, k)
                <==> p in EdgesIn(init, k) || (p == (k, |init|) && !IsLibrary(last.target))
    {
      if p in EdgesIn(all, k) && p.1 < |init| {
        assert all[p.1] == init[p.1];
      }
      if p in EdgesIn(init, k) {
        assert all[p.1] == init[p.1];
      }
    }
  }

  lemma {:induction false} EdgeCountIs(imports: seq<Import>, k: nat)
    ensures EdgeCount(imports) == |EdgesIn(imports, k)|
  {
    if imports != [] {
      var init, last := imports[..|imports| - 1], imports[|imports| - 1];
      EdgeCountIs(init, k);
      EdgesInSnoc(init, last, k);
      assert imports == init + [last];
    }
  }

  lemma EdgesSnoc(init: seq<Option<seq<Import>>>, last: Option<seq<Import>>)
    ensures var more := if last.Some? then EdgesIn(last.value, |init|) else {};
            EdgesOf(init + [last]) == EdgesOf(init) + more && EdgesOf(init) !! more
  {
    var more := if last.Some? then EdgesIn(last.value, |init|) else {};
    forall p ensures p in EdgesOf(init + [last]) <==> p in EdgesOf(init) + more {
      if p in EdgesOf(init + [last]) && p.0 < |init| {
        assert (init + [last])[p.0] == init[p.0];
      }
      if p in EdgesOf(init) {
        assert (init + [last])[p.0] == init[p.0];
      }
    }
  }

  lemma HeadersSnoc(ms: seq<Module>, n: nat)
    requires 0 < n <= |ms|
    ensures Headers(ms[..n]) == Headers(ms[..n - 1]) + [Header(ms[n - 1].file)]
  {
  }

  lemma EdgesMore(init: seq<Option<seq<Import>>>, last: Option<seq<Import>>)
    ensures |EdgesOf(init + [last])|
         == |EdgesOf(init)| + if last.Some? then EdgeCount(last.value) else 0
  {
    EdgesSnoc(init, last);
    if last.Some? {
      EdgeCountIs(last.value, |init|);
    }
  }

  lemma EdgesStep(ms: seq<Module>, n: nat)
    requires 0 < n <= |ms| && AllEdges(ms, n - 1) == |EdgesOf(Headers(ms[..n - 1]))|
    ensures AllEdges(ms, n) == |EdgesOf(Headers(ms[..n]))|
  {
    HeadersSnoc(ms, n);
    EdgesMore(Headers(ms[..n - 1]), Header(ms[n - 1].file));
  }

  lemma NoEdges(ms: seq<Module>)
    ensures |EdgesOf(Headers(ms[..0]))| == 0
  {
    assert EdgesOf(Headers(ms[..0])) == {};
  }

  /** The check counts every import that is not of the library, once. */
  lemma {:induction false} EdgesCounted(ms: seq<Module>, n: nat)
    requires n <= |ms|
    ensures AllEdges(ms, n) == |EdgesOf(Headers(ms[..n]))|
  {
    if n == 0 {
      NoEdges(ms);
    } else {
      EdgesCounted(ms, n - 1);
      EdgesStep(ms, n);
    }
  }
}
