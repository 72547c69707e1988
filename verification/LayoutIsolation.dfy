/** What the import rules give together: chains of imports, however long, stay where their start may lead. */
module LayoutIsolation {
  import opened Wrappers
  import opened HeaderReading
  import opened LayoutRules

  // The rules, import by import.

  /** An import between two of the modules. */
  predicate Edge(ms: seq<Module>, m: Module, n: Module)
  {
    && m in ms && Header(m.file).Some? && ModuleNamed(ms, n.file.name) == Some(n)
    && exists i | i in Header(m.file).value :: i.target == n.file.name && !IsLibrary(i.target)
  }

  predicate EdgeOk(m: Module, n: Module)
  {
    && (m.file.area == Src ==> n.file.area == Src)
    && !n.test
    && (m.test || m.group == Testing || n.group != Testing)
    && (m.test || m.group == Entry || m.group == Cli || m.group == Testing
        || n.group in Allowed(m.group) || Excepted(m.file.name, n.file.name))
  }

  predicate LibraryOk(m: Module, i: Import)
  {
    i.target == TEST_LIBRARY ==> (m.test || m.group == Testing) && (m.group == Testing ==> !i.registers)
  }

  predicate ImportOk(ms: seq<Module>, m: Module, i: Import)
  {
    if IsLibrary(i.target) then LibraryOk(m, i)
    else ModuleNamed(ms, i.target).Some? && EdgeOk(m, ModuleNamed(ms, i.target).value)
  }

  lemma {:induction false} NamedFinds(ms: seq<Module>, name: Name)
    ensures var m := ModuleNamed(ms, name); m.Some? ==> m.value in ms && m.value.file.name == name
  {
    if ms != [] && ms[0].file.name != name {
      NamedFinds(ms[1..], name);
    }
  }

  lemma ImportClean(ms: seq<Module>, m: Module, i: Import)
    ensures ImportIssues(ms, m, i) == [] <==> ImportOk(ms, m, i)
  {
    NamedFinds(ms, i.target);
  }

  lemma {:induction false} HeaderClean(ms: seq<Module>, m: Module, imports: seq<Import>)
    ensures HeaderIssues(ms, m, imports) == [] <==> forall i | i in imports :: ImportOk(ms, m, i)
  {
    if imports != [] {
      var init, last := imports[..|imports| - 1], imports[|imports| - 1];
      HeaderClean(ms, m, init);
      ImportClean(ms, m, last);
      assert forall i | i in imports :: i in init || i == last;
      assert last in imports && forall i | i in init :: i in imports;
    }
  }

  ghost predicate RulesHold(files: seq<SourceFile>, ms: seq<Module>, m: Module)
    requires m.file.name != []
  {
    && (m.test && m.group != Tests && m.group != Testing ==> NamesOwner(files, m.file))
    && Header(m.file).Some? && forall i | i in Header(m.file).value :: ImportOk(ms, m, i)
  }

  lemma ModuleClean(files: seq<SourceFile>, ms: seq<Module>, m: Module)
    requires m.file.name != [] && m == ModuleOf(m.file)
    ensures ModuleIssues(files, ms, m) == [] <==> RulesHold(files, ms, m)
  {
    if Header(m.file).Some? {
      HeaderClean(ms, m, Header(m.file).value);
    }
    if m.test {
      HasOwnerExact(files, m.file);
    }
  }

  predicate IssuesNone(files: seq<SourceFile>, ms: seq<Module>, n: nat)
    requires n <= |ms| && Named(ms)
  {
    AllIssues(files, ms, n) == []
  }

  predicate ModuleSilent(files: seq<SourceFile>, ms: seq<Module>, k: nat)
    requires k < |ms| && Named(ms)
  {
    assert ms[k] in ms;
    ModuleIssues(files, ms, ms[k]) == []
  }

  lemma SilentStep(files: seq<SourceFile>, ms: seq<Module>, n: nat)
    requires n < |ms| && Named(ms)
    ensures IssuesNone(files, ms, n + 1) <==> IssuesNone(files, ms, n) && ModuleSilent(files, ms, n)
  {
    assert ms[n] in ms;
  }

  lemma SilentSteps(files: seq<SourceFile>, ms: seq<Module>, upTo: seq<bool>, each: seq<bool>)
    requires Named(ms) && |each| == |ms| && |upTo| == |ms| + 1
    requires forall n | 0 <= n <= |ms| :: upTo[n] == IssuesNone(files, ms, n)
    requires forall k | 0 <= k < |ms| :: each[k] == ModuleSilent(files, ms, k)
    ensures upTo[0] && forall k | 0 <= k < |ms| :: upTo[k + 1] == (upTo[k] && each[k])
  {
    assert upTo[0] == IssuesNone(files, ms, 0);
    forall k | 0 <= k < |ms| ensures upTo[k + 1] == (upTo[k] && each[k]) {
      SilentStep(files, ms, k);
    }
  }

  lemma AllSilent(files: seq<SourceFile>, ms: seq<Module>)
    requires Named(ms)
    ensures IssuesNone(files, ms, |ms|) <==> forall k | 0 <= k < |ms| :: ModuleSilent(files, ms, k)
  {
    var upTo := seq(|ms| + 1, n requires 0 <= n <= |ms| => IssuesNone(files, ms, n));
    var each := seq(|ms|, k requires 0 <= k < |ms| => ModuleSilent(files, ms, k));
    SilentSteps(files, ms, upTo, each);
    AllSoFar(upTo, each, |ms|);
    assert upTo[|ms|] == IssuesNone(files, ms, |ms|);
    assert forall k | 0 <= k < |ms| :: each[k] == ModuleSilent(files, ms, k);
  }

  /** Every module keeps the rules. */
  ghost predicate AllHold(files: seq<SourceFile>, ms: seq<Module>)
    requires Named(ms)
  {
    forall m | m in ms :: RulesHold(files, ms, m)
  }

  lemma AllClean(files: seq<SourceFile>, ms: seq<Module>)
    requires Named(ms)
    ensures AllIssues(files, ms, |ms|) == [] <==> AllHold(files, ms)
  {
    AllSilent(files, ms);
    forall k | 0 <= k < |ms| ensures ms[k] in ms && (ModuleSilent(files, ms, k) <==> RulesHold(files, ms, ms[k])) {
      assert ms[k] in ms;
      ModuleClean(files, ms, ms[k]);
    }
    assert IssuesNone(files, ms, |ms|) <==> AllIssues(files, ms, |ms|) == [];
  }

  // Discovery.

  ghost predicate FoundAs(f: SourceFile, m: Module)
  {
    f.name != [] && !f.link && m == ModuleOf(f) && Responsible(m.group) && (m.group == Tests ==> m.test)
  }

  /** Every file is a module, under a name of its own. */
  ghost predicate AllFound(files: seq<SourceFile>, ms: seq<Module>)
  {
    && |ms| == |files|
    && (forall k | 0 <= k < |files| :: FoundAs(files[k], ms[k]))
    && forall j, k | 0 <= j < k < |files| :: files[j].name != files[k].name
  }

  lemma FoundSnoc(init: seq<SourceFile>, ms: seq<Module>, f: SourceFile, m: Module)
    ensures AllFound(init + [f], ms + [m])
       <==> AllFound(init, ms) && FoundAs(f, m) && forall j | 0 <= j < |init| :: init[j].name != f.name
  {
    var files, all := init + [f], ms + [m];
    if AllFound(files, all) {
      assert |ms| == |init| && FoundAs(files[|init|], all[|init|]);
      forall k | 0 <= k < |init| ensures FoundAs(init[k], ms[k]) && init[k].name != f.name {
        assert FoundAs(files[k], all[k]);
        assert files[k].name != files[|init|].name;
      }
      forall j, k | 0 <= j < k < |init| ensures init[j].name != init[k].name {
        assert files[j].name != files[k].name;
      }
    }
  }

  lemma NamesFound(init: seq<SourceFile>, ms: seq<Module>, name: Name)
    requires AllFound(init, ms)
    ensures name in Names(ms) <==> exists j | 0 <= j < |init| :: init[j].name == name
  {
    forall j | 0 <= j < |init| ensures Names(ms)[j] == init[j].name {
      assert FoundAs(init[j], ms[j]);
    }
    if j :| 0 <= j < |init| && init[j].name == name {
      assert Names(ms)[j] == name;
    }
  }

  lemma {:induction false} DiscoverShorter(files: seq<SourceFile>)
    requires forall f | f in files :: f.name != []
    ensures |Discover(files).0| <= |files|
  {
    if files != [] {
      DiscoverShorter(files[..|files| - 1]);
    }
  }

  lemma {:induction false} DiscoverClean(files: seq<SourceFile>)
    requires forall f | f in files :: f.name != []
    ensures Discover(files).1 == [] <==> AllFound(files, Discover(files).0)
  {
    if files != [] {
      var init, f := files[..|files| - 1], files[|files| - 1];
      assert f in files && files == init + [f];
      DiscoverClean(init);
      DiscoverShorter(init);
      var ms := Discover(init).0;
      if !f.link && f.name !in Names(ms) {
        FoundSnoc(init, ms, f, ModuleOf(f));
        if AllFound(init, ms) {
          NamesFound(init, ms, f.name);
        }
      }
    }
  }

  /** The check is silent exactly when every file is a module of its own, the entry is there, and every rule is kept. */
  lemma CheckClean(files: seq<SourceFile>)
    requires forall f | f in files :: f.name != []
    ensures var ms := Discover(files).0;
            && Named(ms)
            && (Check(files) == [] <==>
                  AllFound(files, ms) && ModuleNamed(ms, ["compiler"]).Some? && AllHold(files, ms))
  {
    DiscoverNamed(files);
    DiscoverClean(files);
    AllClean(files, Discover(files).0);
  }

  // Chains.

  ghost predicate Chain(ms: seq<Module>, c: seq<Module>)
  {
    && c != [] && c[0] in ms
    && forall k | 0 <= k < |c| - 1 :: Edge(ms, c[k], c[k + 1])
  }

  lemma EdgeKeeps(files: seq<SourceFile>, m: Module, n: Module)
    requires (forall f | f in files :: f.name != []) && Check(files) == [] && Edge(Discover(files).0, m, n)
    ensures EdgeOk(m, n) && n in Discover(files).0 && m in Discover(files).0
  {
    var ms := Discover(files).0;
    CheckClean(files);
    NamedFinds(ms, n.file.name);
    assert m in ms && RulesHold(files, ms, m);
    var i :| i in Header(m.file).value && i.target == n.file.name && !IsLibrary(i.target);
    assert ImportOk(ms, m, i);
  }

  lemma GroupIs(files: seq<SourceFile>, m: Module)
    requires (forall f | f in files :: f.name != []) && Check(files) == [] && m in Discover(files).0
    ensures m.file.name != [] && m == ModuleOf(m.file) && Responsible(m.group) && (m.group == Tests ==> m.test)
  {
    var ms := Discover(files).0;
    CheckClean(files);
    var k :| 0 <= k < |ms| && ms[k] == m;
    assert FoundAs(files[k], ms[k]);
  }

  lemma ExceptedGroups(m: Module, n: Module)
    requires m.file.name != [] && n.file.name != [] && m == ModuleOf(m.file) && n == ModuleOf(n.file)
    requires m.file.area == Src && n.file.area == Src && Excepted(m.file.name, n.file.name)
    ensures (m.group, n.group) in EXCEPTED_STEPS
  {
  }

  const EXCEPTED_STEPS := {(Qbe, Resolution), (Types, Syntax), (Types, Mir), (State, Syntax)}

  /** A step that the groups and their exceptions allow. */
  predicate GroupStep(g: Group, h: Group)
  {
    h in Allowed(g) || (g, h) in EXCEPTED_STEPS
  }

  // Where chains may lead.

  /** No production module reaches a test, a helper of tests, or the test library; core never reaches the CLI area. */
  lemma {:induction false} ProductionIsolated(files: seq<SourceFile>, c: seq<Module>, k: nat)
    requires (forall f | f in files :: f.name != []) && Check(files) == [] && Chain(Discover(files).0, c) && k < |c|
    requires !c[0].test && c[0].group != Testing
    ensures !c[k].test && c[k].group != Testing && c[k].group != Tests && c[k] in Discover(files).0
    ensures c[0].file.area == Src ==> c[k].file.area == Src
    ensures Header(c[k].file).Some? && forall i | i in Header(c[k].file).value :: i.target != TEST_LIBRARY
    decreases k
  {
    if k > 0 {
      ProductionIsolated(files, c, k - 1);
      assert Edge(Discover(files).0, c[k - 1], c[k]);
      EdgeKeeps(files, c[k - 1], c[k]);
    }
    GroupIs(files, c[k]);
    HeaderKeeps(files, c[k]);
  }

  lemma HeaderKeeps(files: seq<SourceFile>, m: Module)
    requires (forall f | f in files :: f.name != []) && Check(files) == [] && m in Discover(files).0
    requires !m.test && m.group != Testing
    ensures Header(m.file).Some? && forall i | i in Header(m.file).value :: i.target != TEST_LIBRARY
  {
    var ms := Discover(files).0;
    CheckClean(files);
    assert m in ms && RulesHold(files, ms, m);
    forall i | i in Header(m.file).value ensures i.target != TEST_LIBRARY {
      assert ImportOk(ms, m, i);
    }
  }

  /** What a production group can reach: support only itself, and none but the backend the backend. */
  predicate InClosure(g: Group, h: Group)
  {
    Production(h) && (g == Support ==> h == Support) && (g != Qbe ==> h != Qbe)
  }

  lemma CoreStep(files: seq<SourceFile>, m: Module, n: Module)
    requires (forall f | f in files :: f.name != []) && Check(files) == [] && Edge(Discover(files).0, m, n)
    requires m.file.area == Src && !m.test && Production(m.group)
    ensures n.file.area == Src && !n.test && n in Discover(files).0 && GroupStep(m.group, n.group)
  {
    EdgeKeeps(files, m, n);
    if Excepted(m.file.name, n.file.name) {
      GroupIs(files, m);
      GroupIs(files, n);
      ExceptedGroups(m, n);
    }
  }

  lemma StepWithin(g: Group, h: Group, next: Group)
    requires InClosure(g, h) && GroupStep(h, next)
    ensures InClosure(g, next)
  {
  }

  /** A chain from core production stays in production, step by step as the groups allow, within their closure. */
  lemma {:induction false} CoreStaysWithin(files: seq<SourceFile>, c: seq<Module>, k: nat)
    requires (forall f | f in files :: f.name != []) && Check(files) == [] && Chain(Discover(files).0, c) && k < |c|
    requires c[0].file.area == Src && !c[0].test && Production(c[0].group)
    ensures c[k].file.area == Src && !c[k].test && InClosure(c[0].group, c[k].group) && c[k] in Discover(files).0
    ensures k > 0 ==> GroupStep(c[k - 1].group, c[k].group)
    decreases k
  {
    if k > 0 {
      CoreStaysWithin(files, c, k - 1);
      assert Edge(Discover(files).0, c[k - 1], c[k]);
      CoreStep(files, c[k - 1], c[k]);
      StepWithin(c[0].group, c[k - 1].group, c[k].group);
    }
  }

  // The closure is no larger than it must be.

  predicate GroupPath(p: seq<Group>)
  {
    p != [] && forall k | 0 <= k < |p| - 1 :: GroupStep(p[k], p[k + 1])
  }

  function ToMir(g: Group): (p: seq<Group>)
    requires Production(g) && g != Support
    ensures GroupPath(p) && p[0] == g && p[|p| - 1] == Mir
  {
    if g == Mir then [Mir]
    else if g == Types || g == Syntax || g == Providers then [g, Resolution, Mir]
    else if g == Project then [Project, Syntax, Resolution, Mir]
    else [g, Mir]
  }

  function FromMir(h: Group): (p: seq<Group>)
    requires Production(h) && h != Qbe
    ensures GroupPath(p) && p[0] == Mir && p[|p| - 1] == h
  {
    if h == Mir then [Mir] else if h == Providers || h == Project then [Mir, Checking, h] else [Mir, h]
  }

  /** Every group in the closure of another is reached from it by steps that are allowed. */
  lemma ClosureReached(g: Group, h: Group) returns (p: seq<Group>)
    requires Production(g) && InClosure(g, h)
    ensures GroupPath(p) && p[0] == g && p[|p| - 1] == h
  {
    if g == h {
      p := [g];
    } else {
      var a, b := ToMir(g), FromMir(h);
      p := a + b[1..];
      forall k | 0 <= k < |p| - 1 ensures GroupStep(p[k], p[k + 1]) {
        if k < |a| - 1 {
          assert p[k] == a[k] && p[k + 1] == a[k + 1];
        } else {
          assert p[k] == b[k - |a| + 1] && p[k + 1] == b[k - |a| + 2];
        }
      }
    }
  }
}
