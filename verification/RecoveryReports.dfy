/** What the recovery check reports, issue by issue. */
module RecoveryReports {
  import opened Wrappers
  import opened HeaderReading
  import opened LayoutRules
  import opened RecoveryRules

  predicate AllNamed(files: seq<SourceFile>)
  {
    forall g | g in files :: g.name != []
  }

  /** A target is found exactly when some file has its name. */
  lemma {:induction false} FindExact(files: seq<SourceFile>, name: Name)
    ensures Find(files, name).None? <==> forall g | g in files :: g.name != name
  {
    if files != [] {
      FindExact(files[1..], name);
      assert files[0] in files && forall g | g in files[1..] :: g in files;
      assert forall g | g in files :: g == files[0] || g in files[1..];
    }
  }

  predicate Found(files: seq<SourceFile>, name: Name)
  {
    exists g | g in files :: g.name == name
  }

  /** What an import of a file is reported for. */
  predicate ImportDeserves(files: seq<SourceFile>, f: SourceFile, i: Import, x: Issue)
    requires f.name != [] && AllNamed(files)
  {
    var helps, library := IsTest(f.name) || IsHelper(f.name), IsLibrary(i.target);
    match x
    case ImportsTestSupport(name, line) =>
      name == f.name && line == i.line && library && i.target == TEST_LIBRARY && !helps
    case HelperRegisters(name, line) =>
      name == f.name && line == i.line && library && i.target == TEST_LIBRARY && IsHelper(f.name) && i.registers
    case MissingTarget(name, line) => name == f.name && line == i.line && !library && !Found(files, i.target)
    case TestImported(name, line) =>
      name == f.name && line == i.line && !library && Found(files, i.target) && IsTest(i.target)
    case HelperImported(name, line) =>
      name == f.name && line == i.line && !library && Found(files, i.target) && i.target != [] && !IsTest(i.target)
      && !helps && IsHelper(i.target)
    case _ => false
  }

  lemma ImportReports(files: seq<SourceFile>, f: SourceFile, i: Import, x: Issue)
    requires f.name != [] && AllNamed(files)
    ensures x in RecoveryImport(files, f, i) <==> ImportDeserves(files, f, i, x)
  {
    FindExact(files, i.target);
  }

  lemma {:induction false} HeaderReports(files: seq<SourceFile>, f: SourceFile, imports: seq<Import>, x: Issue)
    requires f.name != [] && AllNamed(files)
    ensures x in RecoveryHeader(files, f, imports) <==> exists i | i in imports :: ImportDeserves(files, f, i, x)
  {
    if imports != [] {
      var init, last := imports[..|imports| - 1], imports[|imports| - 1];
      HeaderReports(files, f, init, x);
      ImportReports(files, f, last, x);
      assert last in imports && forall i | i in init :: i in imports;
      assert forall i | i in imports :: i in init || i == last;
    }
  }

  /** What a file is reported for where it stands. */
  ghost predicate PlaceDeserves(files: seq<SourceFile>, f: SourceFile, x: Issue)
    requires f.name != []
  {
    match x
    case OutsideRoot(name) => name == f.name && f.link
    case NoResponsibility(name) => name == f.name && OwnerOf(f.name) !in OWNERS
    case HelperAmongTests(name) => name == f.name && OwnerOf(f.name) == "tests" && !IsTest(f.name)
    case NoOwner(name) =>
      name == f.name && IsTest(f.name) && OwnerOf(f.name) != "tests" && OwnerOf(f.name) != "testing"
      && !NamesOwner(files, f)
    case BadHeader(name) => name == f.name && Header(f).None?
    case _ => false
  }

  ghost predicate Deserves(files: seq<SourceFile>, k: nat, x: Issue)
    requires k < |files| && AllNamed(files)
  {
    var f := files[k];
    && f in files
    && (|| PlaceDeserves(files, f, x)
        || (Header(f).Some? && exists i | i in Header(f).value :: ImportDeserves(files, f, i, x)))
  }

  lemma ModuleParts(files: seq<SourceFile>, f: SourceFile, x: Issue)
    requires f.name != [] && AllNamed(files)
    ensures x in RecoveryModule(files, f) <==>
              || (&& x == NoOwner(f.name) && IsTest(f.name) && OwnerOf(f.name) != "tests"
                  && OwnerOf(f.name) != "testing" && !HasOwner(files, f))
              || (Header(f).None? && x == BadHeader(f.name))
              || (Header(f).Some? && x in RecoveryHeader(files, f, Header(f).value))
  {
  }

  lemma PlaceReports(files: seq<SourceFile>, f: SourceFile, x: Issue)
    requires f in files && AllNamed(files)
    ensures PlaceDeserves(files, f, x) <==>
              || x in FileComplaints(f)
              || (&& x == NoOwner(f.name) && IsTest(f.name) && OwnerOf(f.name) != "tests"
                  && OwnerOf(f.name) != "testing" && !HasOwner(files, f))
              || (Header(f).None? && x == BadHeader(f.name))
  {
    if IsTest(f.name) {
      HasOwnerExact(files, f);
    }
  }

  lemma FileReports(files: seq<SourceFile>, k: nat, x: Issue)
    requires k < |files| && AllNamed(files)
    ensures files[k] in files
    ensures x in FileComplaints(files[k]) || x in RecoveryModule(files, files[k]) <==> Deserves(files, k, x)
  {
    var f := files[k];
    assert f in files;
    ModuleParts(files, f, x);
    PlaceReports(files, f, x);
    if Header(f).Some? {
      HeaderReports(files, f, Header(f).value, x);
    }
  }

  predicate ReportedUpTo(files: seq<SourceFile>, n: nat, x: Issue)
    requires n <= |files| && AllNamed(files)
  {
    x in Complaints(files, n) || x in ModuleComplaints(files, n)
  }

  lemma ReportsAt(files: seq<SourceFile>, k: nat, x: Issue)
    requires k < |files| && AllNamed(files)
    ensures ReportedUpTo(files, k + 1, x) <==> ReportedUpTo(files, k, x) || Deserves(files, k, x)
  {
    FileReports(files, k, x);
  }

  lemma ReportSteps(files: seq<SourceFile>, x: Issue, upTo: seq<bool>, each: seq<bool>)
    requires AllNamed(files) && |each| == |files| && |upTo| == |files| + 1
    requires forall n | 0 <= n <= |files| :: upTo[n] == ReportedUpTo(files, n, x)
    requires forall k | 0 <= k < |files| :: each[k] == Deserves(files, k, x)
    ensures !upTo[0] && forall k | 0 <= k < |files| :: upTo[k + 1] == (upTo[k] || each[k])
  {
    assert upTo[0] == ReportedUpTo(files, 0, x);
    forall k | 0 <= k < |files| ensures upTo[k + 1] == (upTo[k] || each[k]) {
      ReportsAt(files, k, x);
    }
  }

  /** An issue is reported exactly when some file deserves it. */
  lemma RecoveryReported(files: seq<SourceFile>, x: Issue)
    requires AllNamed(files)
    ensures x in CheckRecovery(files) <==> exists k | 0 <= k < |files| :: Deserves(files, k, x)
  {
    var upTo := seq(|files| + 1, n requires 0 <= n <= |files| => ReportedUpTo(files, n, x));
    var each := seq(|files|, k requires 0 <= k < |files| => Deserves(files, k, x));
    ReportSteps(files, x, upTo, each);
    AnySoFar(upTo, each, |files|);
    assert upTo[|files|] == ReportedUpTo(files, |files|, x);
    assert forall k | 0 <= k < |files| :: each[k] == Deserves(files, k, x);
  }
}
