/** The rules on imports among the recovery sources, and what they give for chains of imports. */
module RecoveryRules {
  import opened Wrappers
  import opened HeaderReading
  import opened LayoutRules

  const OWNERS := {"snapshot", "scalar", "aggregate", "managed", "compiler", "driver", "support", "testing", "tests"}

  /** The first part of a path; for a file at the root that is its own name, with the suffix. */
  function OwnerOf(name: Name): string
    requires name != []
  {
    if |name| > 1 then name[0] else name[0] + ".trb"
  }

  function FileComplaints(f: SourceFile): seq<Issue>
    requires f.name != []
  {
    (if f.link then [OutsideRoot(f.name)] else [])
    + (if OwnerOf(f.name) !in OWNERS then [NoResponsibility(f.name)] else [])
    + (if OwnerOf(f.name) == "tests" && !IsTest(f.name) then [HelperAmongTests(f.name)] else [])
  }

  function Find(files: seq<SourceFile>, name: Name): Option<SourceFile>
  {
    if files == [] then None else if files[0].name == name then Some(files[0]) else Find(files[1..], name)
  }

  predicate IsHelper(name: Name)
    requires name != []
  {
    OwnerOf(name) == "testing"
  }

  function RecoveryImport(files: seq<SourceFile>, f: SourceFile, i: Import): seq<Issue>
    requires f.name != [] && forall g | g in files :: g.name != []
  {
    var test, helper := IsTest(f.name), IsHelper(f.name);
    if IsLibrary(i.target) then
      (if i.target == TEST_LIBRARY && !test && !helper then [ImportsTestSupport(f.name, i.line)] else [])
      + (if i.target == TEST_LIBRARY && helper && i.registers then [HelperRegisters(f.name, i.line)] else [])
    else if Find(files, i.target).None? then [MissingTarget(f.name, i.line)]
    else if i.target == [] || IsTest(i.target) then [TestImported(f.name, i.line)]
    else if !test && !helper && IsHelper(i.target) then [HelperImported(f.name, i.line)]
    else []
  }

  function RecoveryHeader(files: seq<SourceFile>, f: SourceFile, imports: seq<Import>): seq<Issue>
    requires f.name != [] && forall g | g in files :: g.name != []
  {
    if imports == [] then []
    else
      RecoveryHeader(files, f, imports[..|imports| - 1]) + RecoveryImport(files, f, imports[|imports| - 1])
  }

  function RecoveryModule(files: seq<SourceFile>, f: SourceFile): seq<Issue>
    requires f.name != [] && forall g | g in files :: g.name != []
  {
    (if IsTest(f.name) && OwnerOf(f.name) != "tests" && OwnerOf(f.name) != "testing" && !HasOwner(files, f)
     then [NoOwner(f.name)] else [])
    + match Header(f)
      case None => [BadHeader(f.name)]
      case Some(imports) => RecoveryHeader(files, f, imports)
  }

  /** Complaints about the first n files, and about the imports of the first k. */
  function Complaints(files: seq<SourceFile>, n: nat): seq<Issue>
    requires n <= |files| && forall g | g in files :: g.name != []
  {
    if n == 0 then []
    else
      assert files[n - 1] in files;
      Complaints(files, n - 1) + FileComplaints(files[n - 1])
  }

  function ModuleComplaints(files: seq<SourceFile>, n: nat): seq<Issue>
    requires n <= |files| && forall g | g in files :: g.name != []
  {
    if n == 0 then []
    else
      assert files[n - 1] in files;
      ModuleComplaints(files, n - 1) + RecoveryModule(files, files[n - 1])
  }

  function CheckRecovery(files: seq<SourceFile>): seq<Issue>
    requires forall g | g in files :: g.name != []
  {
    Complaints(files, |files|) + ModuleComplaints(files, |files|)
  }

  method RecoveryIssues(files: seq<SourceFile>) returns (issues: seq<Issue>)
    requires forall g | g in files :: g.name != []
    ensures issues == CheckRecovery(files)
  {
    issues := [];
    for k := 0 to |files|
      invariant issues == Complaints(files, k)
    {
      assert files[k] in files;
      issues := issues + FileComplaints(files[k]);
    }
    var more: seq<Issue> := [];
    for k := 0 to |files|
      invariant more == ModuleComplaints(files, k)
    {
      assert files[k] in files;
      var found := RecoveryFile(files, files[k]);
      more := more + found;
    }
    issues := issues + more;
  }

  method RecoveryFile(files: seq<SourceFile>, f: SourceFile) returns (issues: seq<Issue>)
    requires f.name != [] && forall g | g in files :: g.name != []
    ensures issues == RecoveryModule(files, f)
  {
    issues := [];
    if IsTest(f.name) && OwnerOf(f.name) != "tests" && OwnerOf(f.name) != "testing" && !HasOwner(files, f) {
      issues := [NoOwner(f.name)];
    }
    var imports := ReadHeader(f.text);
    if imports.None? {
      issues := issues + [BadHeader(f.name)];
    } else {
      var found := RecoveryImports(files, f, imports.value);
      issues := issues + found;
    }
  }

  method RecoveryImports(files: seq<SourceFile>, f: SourceFile, imports: seq<Import>) returns (issues: seq<Issue>)
    requires f.name != [] && forall g | g in files :: g.name != []
    ensures issues == RecoveryHeader(files, f, imports)
  {
    issues := [];
    for k := 0 to |imports|
      invariant issues == RecoveryHeader(files, f, imports[..k])
    {
      assert imports[..k + 1][..k] == imports[..k];
      issues := issues + RecoveryImport(files, f, imports[k]);
    }
    assert imports[..|imports|] == imports;
  }

  // Chains.

  predicate Imports(files: seq<SourceFile>, f: SourceFile, g: SourceFile)
  {
    && f in files && Header(f).Some? && Find(files, g.name) == Some(g)
    && exists i | i in Header(f).value :: i.target == g.name && !IsLibrary(i.target)
  }

  predicate Follows(files: seq<SourceFile>, c: seq<SourceFile>)
  {
    c != [] && c[0] in files && forall k | 0 <= k < |c| - 1 :: Imports(files, c[k], c[k + 1])
  }

  predicate RecoveryOk(files: seq<SourceFile>, f: SourceFile, i: Import)
    requires f.name != []
  {
    if IsLibrary(i.target) then
      i.target == TEST_LIBRARY ==> (IsTest(f.name) || IsHelper(f.name)) && (IsHelper(f.name) ==> !i.registers)
    else
      && Find(files, i.target).Some? && i.target != [] && !IsTest(i.target)
      && (IsTest(f.name) || IsHelper(f.name) || !IsHelper(i.target))
  }

  /** A file of the root, under a known owner; a test among the tests, or beside the production file that it names. */
  ghost predicate WellPlaced(files: seq<SourceFile>, f: SourceFile)
    requires f.name != []
  {
    && !f.link && OwnerOf(f.name) in OWNERS && (OwnerOf(f.name) == "tests" ==> IsTest(f.name))
    && (IsTest(f.name) && OwnerOf(f.name) != "tests" && OwnerOf(f.name) != "testing" ==> NamesOwner(files, f))
  }

  ghost predicate RecoveryKept(files: seq<SourceFile>, f: SourceFile)
  {
    && f.name != [] && WellPlaced(files, f)
    && Header(f).Some? && forall i | i in Header(f).value :: RecoveryOk(files, f, i)
  }

  lemma {:induction false} HeaderSilent(files: seq<SourceFile>, f: SourceFile, imports: seq<Import>)
    requires f.name != [] && forall g | g in files :: g.name != []
    ensures RecoveryHeader(files, f, imports) == [] <==> forall i | i in imports :: RecoveryOk(files, f, i)
  {
    if imports != [] {
      var init, last := imports[..|imports| - 1], imports[|imports| - 1];
      HeaderSilent(files, f, init);
      assert RecoveryImport(files, f, last) == [] <==> RecoveryOk(files, f, last);
      assert forall i | i in imports :: i in init || i == last;
      assert last in imports && forall i | i in init :: i in imports;
    }
  }

  lemma FileSilent(files: seq<SourceFile>, f: SourceFile)
    requires f.name != [] && forall g | g in files :: g.name != []
    ensures FileComplaints(f) == [] && RecoveryModule(files, f) == [] <==> RecoveryKept(files, f)
  {
    if Header(f).Some? {
      HeaderSilent(files, f, Header(f).value);
    }
    if IsTest(f.name) {
      HasOwnerExact(files, f);
    }
  }

  /** Nothing is said of a file. */
  predicate Quiet(files: seq<SourceFile>, k: nat)
    requires k < |files| && forall g | g in files :: g.name != []
  {
    assert files[k] in files;
    FileComplaints(files[k]) == [] && RecoveryModule(files, files[k]) == []
  }

  predicate QuietUpTo(files: seq<SourceFile>, n: nat)
    requires n <= |files| && forall g | g in files :: g.name != []
  {
    Complaints(files, n) == [] && ModuleComplaints(files, n) == []
  }

  lemma QuietStep(files: seq<SourceFile>, n: nat)
    requires n < |files| && forall g | g in files :: g.name != []
    ensures QuietUpTo(files, n + 1) <==> QuietUpTo(files, n) && Quiet(files, n)
  {
    assert files[n] in files;
  }

  lemma QuietSteps(files: seq<SourceFile>, upTo: seq<bool>, each: seq<bool>)
    requires (forall g | g in files :: g.name != []) && |each| == |files| && |upTo| == |files| + 1
    requires forall n | 0 <= n <= |files| :: upTo[n] == QuietUpTo(files, n)
    requires forall k | 0 <= k < |files| :: each[k] == Quiet(files, k)
    ensures upTo[0] && forall k | 0 <= k < |files| :: upTo[k + 1] == (upTo[k] && each[k])
  {
    assert upTo[0] == QuietUpTo(files, 0);
    forall k | 0 <= k < |files| ensures upTo[k + 1] == (upTo[k] && each[k]) {
      QuietStep(files, k);
    }
  }

  lemma FilesQuiet(files: seq<SourceFile>)
    requires forall g | g in files :: g.name != []
    ensures QuietUpTo(files, |files|) <==> forall k | 0 <= k < |files| :: Quiet(files, k)
  {
    var upTo := seq(|files| + 1, n requires 0 <= n <= |files| => QuietUpTo(files, n));
    var each := seq(|files|, k requires 0 <= k < |files| => Quiet(files, k));
    QuietSteps(files, upTo, each);
    AllSoFar(upTo, each, |files|);
    assert upTo[|files|] == QuietUpTo(files, |files|);
    assert forall k | 0 <= k < |files| :: each[k] == Quiet(files, k);
  }

  /** The check is silent exactly when every file keeps every rule. */
  lemma RecoveryClean(files: seq<SourceFile>)
    requires forall g | g in files :: g.name != []
    ensures CheckRecovery(files) == [] <==> forall f | f in files :: RecoveryKept(files, f)
  {
    FilesQuiet(files);
    assert CheckRecovery(files) == [] <==> QuietUpTo(files, |files|);
    forall k | 0 <= k < |files| ensures Quiet(files, k) <==> RecoveryKept(files, files[k]) {
      assert files[k] in files;
      FileSilent(files, files[k]);
    }
    KeptEach(files);
  }

  lemma KeptEach(files: seq<SourceFile>)
    ensures (forall f | f in files :: RecoveryKept(files, f))
       <==> forall k | 0 <= k < |files| :: RecoveryKept(files, files[k])
  {
  }

  lemma {:induction false} FindFinds(files: seq<SourceFile>, name: Name)
    ensures Find(files, name).Some? ==> Find(files, name).value in files && Find(files, name).value.name == name
  {
    if files != [] && files[0].name != name {
      FindFinds(files[1..], name);
    }
  }

  predicate RecoveryProduction(f: SourceFile)
  {
    f.name != [] && !IsTest(f.name) && !IsHelper(f.name)
  }

  lemma ImportStays(files: seq<SourceFile>, f: SourceFile, g: SourceFile)
    requires RecoveryKept(files, f) && Imports(files, f, g) && RecoveryProduction(f)
    ensures RecoveryProduction(g) && g in files
  {
    FindFinds(files, g.name);
    var i :| i in Header(f).value && i.target == g.name && !IsLibrary(i.target);
    assert RecoveryOk(files, f, i);
  }

  lemma NoTestLibrary(files: seq<SourceFile>, f: SourceFile)
    requires RecoveryKept(files, f) && RecoveryProduction(f)
    ensures OwnerOf(f.name) in OWNERS - {"testing", "tests"}
    ensures Header(f).Some? && forall i | i in Header(f).value :: i.target != TEST_LIBRARY
  {
    forall i | i in Header(f).value ensures i.target != TEST_LIBRARY {
      assert RecoveryOk(files, f, i);
    }
  }

  lemma MemberKept(files: seq<SourceFile>, f: SourceFile)
    requires (forall g | g in files :: g.name != []) && CheckRecovery(files) == [] && f in files
    ensures RecoveryKept(files, f)
  {
    RecoveryClean(files);
  }

  lemma {:induction false} ChainStays(files: seq<SourceFile>, c: seq<SourceFile>, k: nat)
    requires (forall g | g in files :: g.name != []) && CheckRecovery(files) == [] && Follows(files, c) && k < |c|
    requires RecoveryProduction(c[0])
    ensures c[k] in files && RecoveryProduction(c[k])
    decreases k
  {
    if k > 0 {
      ChainStays(files, c, k - 1);
      assert Imports(files, c[k - 1], c[k]);
      MemberKept(files, c[k - 1]);
      ImportStays(files, c[k - 1], c[k]);
    }
  }

  /** No chain of imports from recovery production reaches a test, a helper of tests, or the test library. */
  lemma RecoveryIsolated(files: seq<SourceFile>, c: seq<SourceFile>, k: nat)
    requires (forall g | g in files :: g.name != []) && CheckRecovery(files) == [] && Follows(files, c) && k < |c|
    requires RecoveryProduction(c[0])
    ensures c[k] in files && RecoveryProduction(c[k]) && OwnerOf(c[k].name) in OWNERS - {"testing", "tests"}
    ensures Header(c[k]).Some? && forall i | i in Header(c[k]).value :: i.target != TEST_LIBRARY
  {
    ChainStays(files, c, k);
    MemberKept(files, c[k]);
    NoTestLibrary(files, c[k]);
  }
}
