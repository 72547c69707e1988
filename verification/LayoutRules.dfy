/** The rules on which compiler sources may import which, checked import by import. */
module LayoutRules {
  import opened Wrappers
  import opened TextSearch
  import opened HeaderReading

  datatype Area = Src | CliArea

  /** What a directory is responsible for. */
  datatype Group =
    | Support | State | Types | Syntax | Resolution | Checking | Providers | Mir | Qbe | Project
    | Entry | Cli | Testing | Tests
    | Other(directory: Name)

  datatype SourceFile = SourceFile(area: Area, name: Name, link: bool, text: string)

  /** The imports of a source; none if some import line of its header cannot be read. */
  function Header(f: SourceFile): Option<seq<Import>>
  {
    ImportHeader(f.text)
  }

  datatype Module = Module(file: SourceFile, group: Group, test: bool)

  datatype Issue =
    | OutsideRoot(name: Name)
    | Duplicate(name: Name)
    | NoResponsibility(name: Name)
    | HelperAmongTests(name: Name)
    | NoEntry
    | NoOwner(name: Name)
    | BadHeader(name: Name)
    | ImportsTestSupport(name: Name, line: nat)
    | HelperRegisters(name: Name, line: nat)
    | MissingTarget(name: Name, line: nat)
    | CoreOnCli(name: Name, line: nat)
    | TestImported(name: Name, line: nat)
    | HelperImported(name: Name, line: nat)
    | Forbidden(name: Name, line: nat)

  // Responsibilities.

  const CHECKING_PARTS := {"body", "program", "builtins", "nominal", "collections"}
  const MIR_PARTS := {"model", "build", "lowering", "analysis", "passes", "verify"}
  const QBE_PARTS := {"emit", "runtime"}

  function FrontendGroup(d: Name): Group
    requires |d| >= 2
  {
    if |d| == 2 then
      if d[1] == "types" then Types
      else if d[1] == "syntax" then Syntax
      else if d[1] == "resolution" then Resolution
      else if d[1] == "checking" then Checking
      else if d[1] == "providers" then Providers
      else Other(d)
    else if |d| == 3 && d[1] == "checking" && d[2] in CHECKING_PARTS then Checking
    else Other(d)
  }

  function TopGroup(part: string): Group
  {
    if part == "support" then Support
    else if part == "state" then State
    else if part == "mir" then Mir
    else if part == "project" then Project
    else if part == "entry" then Entry
    else if part == "cli" then Cli
    else if part == "testing" then Testing
    else if part == "tests" then Tests
    else Other([part])
  }

  function DirectoryGroup(d: Name): Group
  {
    if |d| == 1 then TopGroup(d[0])
    else if |d| >= 2 && d[0] == "frontend" then FrontendGroup(d)
    else if |d| == 2 && d[0] == "mir" && d[1] in MIR_PARTS then Mir
    else if |d| == 2 && d[0] == "backend" && d[1] == "qbe" then Qbe
    else if |d| == 3 && d[0] == "backend" && d[1] == "qbe" && d[2] in QBE_PARTS then Qbe
    else Other(d)
  }

  predicate IsTest(name: Name)
  {
    name != [] && EndsWith(name[|name| - 1], "_test")
  }

  function GroupOf(area: Area, name: Name): Group
    requires name != []
  {
    var owned := if area == CliArea then Cli else DirectoryGroup(name[..|name| - 1]);
    var g := if |name| > 1 && name[0] == "testing" then Testing
             else if |name| > 1 && name[0] == "tests" then Tests
             else owned;
    if g == Other([]) && (name == ["compiler"] || IsTest(name)) then Entry else g
  }

  predicate Production(g: Group)
  {
    !g.Entry? && !g.Cli? && !g.Testing? && !g.Tests? && !g.Other?
  }

  function Allowed(g: Group): set<Group>
  {
    match g
    case Support => {Support}
    case State => {State, Support, Types, Mir}
    case Types => {Types, Resolution, State, Support}
    case Syntax => {Syntax, Types, Resolution, State, Support}
    case Resolution => {Resolution, Types, Syntax, Providers, State, Support, Mir, Project}
    case Checking => {Checking, Types, Resolution, Syntax, Providers, State, Support, Mir, Project}
    case Providers => {Providers, Types, Resolution, Syntax, State, Support, Project}
    case Mir => {Mir, Checking, Types, Syntax, Resolution, State, Support}
    case Qbe => {Qbe, Mir, State, Support, Types}
    case Project => {Project, Support, Syntax, Providers, State}
    case _ => {}
  }

  const CONSTANTS: Name := ["backend", "qbe", "emit", "constants"]
  const ENTRY_RESOLUTION: Name := ["frontend", "resolution", "entry_resolution"]
  const TRANSFORM_MODEL: Name := ["frontend", "types", "transform_model"]
  const ITERATION_SYNTAX: Name := ["frontend", "syntax", "iteration_syntax"]
  const ITERATION: Name := ["mir", "model", "iteration"]
  const SOURCE_STATE: Name := ["state", "source_state"]

  predicate Excepted(name: Name, target: Name)
  {
    || (name == CONSTANTS && target == ENTRY_RESOLUTION)
    || (name == TRANSFORM_MODEL && target == ITERATION_SYNTAX)
    || (name == TRANSFORM_MODEL && target == ITERATION)
    || (name == SOURCE_STATE && target == ITERATION_SYNTAX)
  }

  // Discovery.

  function ModuleOf(f: SourceFile): Module
    requires f.name != []
  {
    Module(f, GroupOf(f.area, f.name), IsTest(f.name))
  }

  predicate Responsible(g: Group)
  {
    !g.Other?
  }

  function FileIssues(m: Module): seq<Issue>
  {
    (if Responsible(m.group) then [] else [NoResponsibility(m.file.name)])
    + (if m.group == Tests && !m.test then [HelperAmongTests(m.file.name)] else [])
  }

  function Names(ms: seq<Module>): seq<Name>
  {
    seq(|ms|, i requires 0 <= i < |ms| => ms[i].file.name)
  }

  /** The modules found, each under a name of its own, and the complaints made on the way. */
  function Discover(files: seq<SourceFile>): (r: (seq<Module>, seq<Issue>))
    requires forall f | f in files :: f.name != []
  {
    if files == [] then ([], [])
    else
      var f := files[|files| - 1];
      assert f in files;
      var (ms, issues) := Discover(files[..|files| - 1]);
      if f.link then (ms, issues + [OutsideRoot(f.name)])
      else if f.name in Names(ms) then (ms, issues + [Duplicate(f.name)])
      else (ms + [ModuleOf(f)], issues + FileIssues(ModuleOf(f)))
  }

  // Unit tests name a production owner beside them.

  function Directory(name: Name): Name
    requires name != []
  {
    name[..|name| - 1]
  }

  function Stem(name: Name): string
    requires name != []
  {
    name[|name| - 1]
  }

  function Tested(stem: string): string
  {
    if EndsWith(stem, "_test") then stem[..|stem| - 5] else stem
  }

  predicate OwnsTest(g: SourceFile, f: SourceFile)
    requires f.name != []
  {
    && g.name != [] && g.area == f.area && Directory(g.name) == Directory(f.name)
    && !EndsWith(Stem(g.name), "_test")
    && (Tested(Stem(f.name)) == Stem(g.name) || Stem(g.name) + "_" <= Tested(Stem(f.name)))
  }

  predicate HasOwner(files: seq<SourceFile>, f: SourceFile)
    requires f.name != []
  {
    files != [] && (OwnsTest(files[0], f) || HasOwner(files[1..], f))
  }

  /** What comes between the owner's stem and the suffix of a test. */
  ghost predicate Between(owner: string, stem: string, word: string)
  {
    (word == "" || word[0] == '_') && stem == owner + word + "_test"
  }

  /** A file beside a unit test, itself no test, has its name up to "_test", or up to an underscore before that. */
  ghost predicate OwnerBeside(g: SourceFile, f: SourceFile)
    requires f.name != []
  {
    && g.name != [] && g.area == f.area && Directory(g.name) == Directory(f.name)
    && !(exists s :: Stem(g.name) == s + "_test")
    && exists word :: Between(Stem(g.name), Stem(f.name), word)
  }

  ghost predicate NamesOwner(files: seq<SourceFile>, f: SourceFile)
    requires f.name != []
  {
    exists g | g in files :: OwnerBeside(g, f)
  }

  lemma {:induction false} HasOwnerIn(files: seq<SourceFile>, f: SourceFile)
    requires f.name != []
    ensures HasOwner(files, f) <==> exists g | g in files :: OwnsTest(g, f)
  {
    if files != [] {
      HasOwnerIn(files[1..], f);
      assert files[0] in files && forall g | g in files[1..] :: g in files;
      assert forall g | g in files :: g == files[0] || g in files[1..];
    }
  }

  lemma PrefixWord(owner: string, tested: string)
    requires tested == owner || owner + "_" <= tested
    ensures Between(owner, tested + "_test", tested[|owner|..])
  {
    var word := tested[|owner|..];
    assert word != "" ==> word[0] == tested[|owner|] == (owner + "_")[|owner|];
    assert tested == owner + word;
  }

  lemma WordPrefix(owner: string, word: string, tested: string)
    requires Between(owner, tested + "_test", word)
    ensures tested == owner || owner + "_" <= tested
  {
    var stem := tested + "_test";
    assert stem[..|stem| - 5] == tested && stem[..|stem| - 5] == owner + word;
    assert word != "" ==> owner + "_" <= owner + word;
    assert owner + "" == owner;
  }

  lemma StemOf(owner: string, stem: string)
    requires EndsWith(stem, "_test")
    ensures Tested(stem) == owner || owner + "_" <= Tested(stem) <==> exists word :: Between(owner, stem, word)
  {
    var tested := Tested(stem);
    assert stem == tested + "_test";
    if tested == owner || owner + "_" <= tested {
      PrefixWord(owner, tested);
    }
    if word :| Between(owner, stem, word) {
      WordPrefix(owner, word, tested);
    }
  }

  lemma OwnsTestIs(g: SourceFile, f: SourceFile)
    requires f.name != [] && IsTest(f.name)
    ensures OwnsTest(g, f) <==> OwnerBeside(g, f)
  {
    if g.name != [] {
      StemOf(Stem(g.name), Stem(f.name));
      EndsIs(Stem(g.name), "_test", 0);
    }
  }

  /** For a unit test, having an owner is that. */
  lemma HasOwnerExact(files: seq<SourceFile>, f: SourceFile)
    requires f.name != [] && IsTest(f.name)
    ensures HasOwner(files, f) <==> NamesOwner(files, f)
  {
    HasOwnerIn(files, f);
    forall g | g in files ensures OwnsTest(g, f) <==> OwnerBeside(g, f) {
      OwnsTestIs(g, f);
    }
  }

  // Imports.

  predicate IsLibrary(target: Name)
  {
    |target| > 1 && target[0] == "trb"
  }

  const TEST_LIBRARY: Name := ["trb", "std", "test"]

  function ModuleNamed(ms: seq<Module>, name: Name): Option<Module>
  {
    if ms == [] then None else if ms[0].file.name == name then Some(ms[0]) else ModuleNamed(ms[1..], name)
  }

  function LibraryIssues(m: Module, i: Import): seq<Issue>
  {
    (if i.target == TEST_LIBRARY && !m.test && m.group != Testing
     then [ImportsTestSupport(m.file.name, i.line)] else [])
    + (if i.target == TEST_LIBRARY && m.group == Testing && i.registers
       then [HelperRegisters(m.file.name, i.line)] else [])
  }

  function EdgeIssues(m: Module, i: Import, target: Module): seq<Issue>
  {
    if m.file.area == Src && target.file.area == CliArea then [CoreOnCli(m.file.name, i.line)]
    else if target.test then [TestImported(m.file.name, i.line)]
    else if !m.test && m.group != Testing && target.group == Testing then [HelperImported(m.file.name, i.line)]
    else if m.test || m.group == Entry || m.group == Cli || m.group == Testing then []
    else if target.group !in Allowed(m.group) && !Excepted(m.file.name, i.target)
    then [Forbidden(m.file.name, i.line)]
    else []
  }

  function ImportIssues(ms: seq<Module>, m: Module, i: Import): seq<Issue>
  {
    if IsLibrary(i.target) then LibraryIssues(m, i)
    else
      match ModuleNamed(ms, i.target)
      case None => [MissingTarget(m.file.name, i.line)]
      case Some(target) => EdgeIssues(m, i, target)
  }

  function HeaderIssues(ms: seq<Module>, m: Module, imports: seq<Import>): seq<Issue>
  {
    if imports == [] then []
    else
      HeaderIssues(ms, m, imports[..|imports| - 1]) + ImportIssues(ms, m, imports[|imports| - 1])
  }

  function ModuleIssues(files: seq<SourceFile>, ms: seq<Module>, m: Module): seq<Issue>
    requires m.file.name != []
  {
    (if m.test && m.group != Tests && m.group != Testing && !HasOwner(files, m.file)
     then [NoOwner(m.file.name)] else [])
    + match Header(m.file)
      case None => [BadHeader(m.file.name)]
      case Some(imports) => HeaderIssues(ms, m, imports)
  }

  /** Modules are those of files with names. */
  predicate Named(ms: seq<Module>)
  {
    forall m | m in ms :: m.file.name != [] && m == ModuleOf(m.file)
  }

  function AllIssues(files: seq<SourceFile>, ms: seq<Module>, n: nat): seq<Issue>
    requires n <= |ms| && Named(ms)
  {
    if n == 0 then []
    else
      assert ms[n - 1] in ms;
      AllIssues(files, ms, n - 1) + ModuleIssues(files, ms, ms[n - 1])
  }

  lemma {:induction false} DiscoverNamed(files: seq<SourceFile>)
    requires forall f | f in files :: f.name != []
    ensures Named(Discover(files).0)
  {
    if files != [] {
      DiscoverNamed(files[..|files| - 1]);
      assert files[|files| - 1] in files;
    }
  }

  function Check(files: seq<SourceFile>): seq<Issue>
    requires forall f | f in files :: f.name != []
  {
    var (ms, issues) := Discover(files);
    DiscoverNamed(files);
    issues + (if ModuleNamed(ms, ["compiler"]).None? then [NoEntry] else []) + AllIssues(files, ms, |ms|)
  }

  function EdgeCount(imports: seq<Import>): nat
  {
    if imports == [] then 0
    else EdgeCount(imports[..|imports| - 1]) + (if IsLibrary(imports[|imports| - 1].target) then 0 else 1)
  }

  function AllEdges(ms: seq<Module>, n: nat): nat
    requires n <= |ms|
  {
    if n == 0 then 0
    else AllEdges(ms, n - 1) + (if Header(ms[n - 1].file).Some? then EdgeCount(Header(ms[n - 1].file).value) else 0)
  }

  // The check as it runs.

  method DiscoverModules(files: seq<SourceFile>) returns (ms: seq<Module>, issues: seq<Issue>)
    requires forall f | f in files :: f.name != []
    ensures (ms, issues) == Discover(files)
  {
    ms, issues := [], [];
    for k := 0 to |files|
      invariant (ms, issues) == Discover(files[..k])
    {
      var f := files[k];
      assert files[..k + 1][..k] == files[..k];
      if f.link {
        issues := issues + [OutsideRoot(f.name)];
      } else if f.name in Names(ms) {
        issues := issues + [Duplicate(f.name)];
      } else {
        var m := ModuleOf(f);
        issues := issues + FileIssues(m);
        ms := ms + [m];
      }
    }
    assert files[..|files|] == files;
  }

  method CheckHeader(ms: seq<Module>, m: Module, imports: seq<Import>) returns (issues: seq<Issue>, edges: nat)
    ensures issues == HeaderIssues(ms, m, imports) && edges == EdgeCount(imports)
  {
    issues, edges := [], 0;
    for k := 0 to |imports|
      invariant issues == HeaderIssues(ms, m, imports[..k]) && edges == EdgeCount(imports[..k])
    {
      var i := imports[k];
      assert imports[..k + 1][..k] == imports[..k];
      if !IsLibrary(i.target) {
        edges := edges + 1;
      }
      issues := issues + ImportIssues(ms, m, i);
    }
    assert imports[..|imports|] == imports;
  }

  method CheckModule(files: seq<SourceFile>, ms: seq<Module>, m: Module) returns (issues: seq<Issue>, edges: nat)
    requires m.file.name != []
    ensures issues == ModuleIssues(files, ms, m)
    ensures edges == if Header(m.file).Some? then EdgeCount(Header(m.file).value) else 0
  {
    issues, edges := [], 0;
    if m.test && m.group != Tests && m.group != Testing && !HasOwner(files, m.file) {
      issues := [NoOwner(m.file.name)];
    }
    var imports := ReadHeader(m.file.text);
    if imports.None? {
      issues := issues + [BadHeader(m.file.name)];
    } else {
      var found;
      found, edges := CheckHeader(ms, m, imports.value);
      issues := issues + found;
    }
  }

  method CheckLayout(files: seq<SourceFile>) returns (issues: seq<Issue>, modules: nat, edges: nat)
    requires forall f | f in files :: f.name != []
    ensures issues == Check(files)
    ensures modules == |Discover(files).0| && edges == AllEdges(Discover(files).0, modules)
  {
    var ms;
    ms, issues := DiscoverModules(files);
    DiscoverNamed(files);
    if ModuleNamed(ms, ["compiler"]).None? {
      issues := issues + [NoEntry];
    }
    var found: seq<Issue> := [];
    edges := 0;
    for k := 0 to |ms|
      invariant found == AllIssues(files, ms, k) && edges == AllEdges(ms, k)
    {
      assert ms[k] in ms;
      var more, count := CheckModule(files, ms, ms[k]);
      found, edges := found + more, edges + count;
    }
    issues, modules := issues + found, |ms|;
  }
}
