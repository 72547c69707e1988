/**
 * Where named imports lead, in a tree. An import of a function resolves when the file it names declares the function.
 * After a migration every import that resolved still does, except those that name the checker by one of its paths and
 * ask for a function that has left it.
 */
module ImportResolution {
  import opened Wrappers
  import opened TextSearch
  import opened WordSearch
  import opened TextLines
  import opened Relabeling
  import opened ImportLines
  import opened ImportRewriting
  import opened ImportStability
  import opened ImportBindings
  import opened FunctionFragments
  import opened CheckerExtraction
  import opened ExtractionConserves
  import opened ExtractedHeaders
  import opened ExtractionRerun
  import opened ExtractionCounts
  import opened LayoutMigration
  import opened MigratedTree
  import opened MigrationSettles
  import opened MigrationLinks

  predicate DeclaresIn(files: map<string, string>, k: string, name: string)
  {
    name in Declared(FileLines(files, k))
  }

  lemma DeclaredIs(lines: seq<string>, name: string)
    ensures name in Declared(lines) <==> NameValid(name) && Declarations(lines, name) > 0
  {
    DeclaredValid(lines);
    if NameValid(name) {
      CountIs(lines, name);
    }
  }

  // Paths.

  lemma {:induction false} LastPath(modules: map<string, string>, previous: seq<Assignment>, k: string)
    requires k in AsMap(previous) && forall p | p in previous :: p.owner in modules
    ensures AsMap(previous)[k] in modules
    ensures k in ImportPaths(modules, previous) && ImportPaths(modules, previous)[k] == modules[AsMap(previous)[k]]
  {
    var init, last := previous[..|previous| - 1], previous[|previous| - 1];
    assert last in previous && forall p | p in init :: p in previous;
    if last.name != k {
      LastPath(modules, init, k);
    }
  }

  /** When targets stand, a path of a source leads to where the source goes. */
  lemma PathLeads(m: Manifest, path: string)
    requires PreviousOwned(m) && AssignmentsOk(m.modules) && TargetsStand(m) && Original(m, path).Some?
    ensures var n := Original(m, path).value;
            n in m.modules && Lookup(TablesOf(m).paths, path) == m.modules[n]
  {
    var paths := ImportPaths(m.modules, m.previous);
    if path in m.modules || path in Reverse(m.modules) {
      if path in Reverse(m.modules) {
        ReverseFrom(m.modules, path);
      }
      if path in m.modules {
        ModulePath(m, path);
      } else if path in paths {
        var o := PathFrom(m.modules, m.previous, path);
      }
    } else {
      LastPath(m.modules, m.previous, path);
    }
  }

  /** The name of a module leads to its target. */
  lemma ModulePath(m: Manifest, n: string)
    requires PreviousOwned(m) && TargetsStand(m) && n in m.modules
    ensures n in TablesOf(m).paths && TablesOf(m).paths[n] == m.modules[n]
  {
    NamesStayPaths(m.modules, m.previous, n);
    var o := PathFrom(m.modules, m.previous, n);
  }

  lemma {:induction false} NamesStayPaths(modules: map<string, string>, previous: seq<Assignment>, n: string)
    requires n in modules
    ensures n in ImportPaths(modules, previous)
  {
    if previous != [] {
      NamesStayPaths(modules, previous[..|previous| - 1], n);
    }
  }

  // Declarations.

  lemma ExtractedDeclares(files: map<string, string>, owners: seq<Assignment>, out: map<string, string>, k: string,
    name: string)
    requires Extract(files, owners) == Extraction(out, Extracted) && DistinctNames(owners)
    requires (forall a | a in owners :: IsModule(a.owner)) && DeclaresIn(files, k, name)
    ensures DeclaresIn(out, k, name) <==> !(k == CHECKED && SomeStay(owners) && !AssignedTo(owners, name, CHECKED))
    ensures k == CHECKED ==> name in AsMap(owners)
  {
    DeclaredIs(FileLines(files, k), name);
    DeclaredIs(FileLines(out, k), name);
    if k == CHECKED {
      CheckerNames(files, owners, name);
      CheckerCountAfter(files, owners, out, name);
    } else {
      CountAfter(files, owners, out, name, k);
    }
  }

  lemma CheckerNames(files: map<string, string>, owners: seq<Assignment>, name: string)
    requires CHECKED in files && DeclaresIn(files, CHECKED, name)
    requires ToSet(Declared(CheckerLines(files))) <= NamesOf(owners)
    ensures name in Declared(CheckerLines(files)) && name in AsMap(owners)
  {
    DeclaredIs(FileLines(files, CHECKED), name);
    CheckerCounts(files, name);
    AsMapKeys(owners);
    assert name in ToSet(Declared(CheckerLines(files)));
  }

  lemma AppliedDeclares(files: map<string, string>, owners: seq<Assignment>, name: string)
    requires Extract(files, owners) == Extraction(files, CheckerExtraction.Applied) && DistinctNames(owners)
    requires DeclaresIn(files, CHECKED, name)
    ensures AssignedTo(owners, name, CHECKED)
  {
    AppliedIs(files, owners);
    CheckerNames(files, owners, name);
    assert name in Staying(owners);
    var a :| a in owners && a.owner == CHECKED && a.name == name;
    OwnerIs(owners, a);
  }

  /** What a module declared it still does, but for the functions that leave the checker while others stay. */
  lemma StillDeclares(files: map<string, string>, owners: seq<Assignment>, k: string, name: string)
    requires !Extract(files, owners).outcome.Rejected? && DistinctNames(owners)
    requires (forall a | a in owners :: IsModule(a.owner)) && DeclaresIn(files, k, name)
    ensures DeclaresIn(Extract(files, owners).files, k, name)
       <==> !(k == CHECKED && SomeStay(owners) && !AssignedTo(owners, name, CHECKED))
    ensures k == CHECKED ==> name in AsMap(owners)
  {
    if Extract(files, owners).outcome.Applied? {
      AppliedUnchanged(files, owners);
      if k == CHECKED {
        AppliedDeclares(files, owners, name);
      }
    } else {
      ExtractedDeclares(files, owners, Extract(files, owners).files, k, name);
    }
  }

  /** Every assigned function is declared by its owner. */
  lemma OwnerHasIt(files: map<string, string>, owners: seq<Assignment>, a: Assignment)
    requires !Extract(files, owners).outcome.Rejected? && DistinctNames(owners) && a in owners && NameValid(a.name)
    requires forall x | x in owners :: IsModule(x.owner)
    ensures DeclaresIn(Extract(files, owners).files, a.owner, a.name)
  {
    var out := Extract(files, owners).files;
    DeclaredIs(FileLines(out, a.owner), a.name);
    if Extract(files, owners).outcome.Applied? {
      AppliedUnchanged(files, owners);
      AppliedIs(files, owners);
    } else {
      DeclaredAfter(files, owners, out, a);
    }
  }

  // The tree afterwards.

  /** The file at the target of a source declares what the source does. */
  lemma TargetDeclares(f: Files, m: Manifest, sources: map<string, string>, c: Changes, n: string, name: string)
    requires Stands(f, m, sources, c) && Lexical(TablesOf(m)) && n in sources
    ensures n in m.modules
    ensures DeclaresIn(Carried(f, c).src, m.modules[n], name) <==> DeclaresIn(sources, n, name)
  {
    TreeAfter(f, m, sources, c);
    MovedAt(m, sources, n);
    DeclarationsKept(TablesOf(m), sources[n], name);
    DeclaredIs(SplitLines(sources[n]), name);
    DeclaredIs(SplitLines(Rewrite(TablesOf(m), sources[n])), name);
  }

  /** An import of a member from a path of a tree leads to a file that declares it. */
  predicate Resolves(src: map<string, string>, member: string, path: string)
  {
    DeclaresIn(src, path, Origin(member))
  }

  /** The import names the checker by one of its paths, and asks for a function that leaves it while others stay. */
  predicate Strays(m: Manifest, member: string, path: string)
    requires Injective(m.modules)
  {
    && path != CHECKED && Original(m, path) == Some(CHECKED)
    && SomeStay(m.owners)
    && Origin(member) in AsMap(m.owners) && AsMap(m.owners)[Origin(member)] != CHECKED
  }

  lemma StandsExtracts(f: Files, m: Manifest, sources: map<string, string>, c: Changes)
    requires Stands(f, m, sources, c)
    ensures PreviousOwned(m) && AssignmentsOk(m.modules) && LoadOk(f.src, f.srcLinks, m)
    ensures var e := Extract(Loaded(f.src, f.srcLinks, m), m.owners); !e.outcome.Rejected? && e.files == sources
  {
  }

  /** The target of an import by a path of a source, unless it asks the checker for an assigned function. */
  lemma PathTarget(m: Manifest, name: string, path: string)
    requires PreviousOwned(m) && AssignmentsOk(m.modules) && TargetsStand(m) && Original(m, path).Some?
    requires path == CHECKED ==> name !in AsMap(m.owners)
    ensures var n := Original(m, path).value; n in m.modules && Target(TablesOf(m), name, path) == m.modules[n]
  {
    PathLeads(m, path);
  }

  /** The target of an import that asks the checker for an assigned function. */
  lemma OwnerTarget(m: Manifest, name: string)
    requires PreviousOwned(m) && TargetsStand(m) && name in AsMap(m.owners) && AsMap(m.owners)[name] in m.modules
    ensures Target(TablesOf(m), name, CHECKED) == m.modules[AsMap(m.owners)[name]]
  {
    ModulePath(m, AsMap(m.owners)[name]);
  }

  lemma AssignmentOf(owners: seq<Assignment>, name: string) returns (a: Assignment)
    requires DistinctNames(owners) && name in AsMap(owners)
    ensures a in owners && a.name == name && a.owner == AsMap(owners)[name]
  {
    AsMapKeys(owners);
    a :| a in owners && a.name == name;
    OwnerIs(owners, a);
  }

  /** Asking the checker, by its name, for an assigned function leads to its owner, which declares it. */
  lemma OwnedLeads(f: Files, m: Manifest, sources: map<string, string>, c: Changes, name: string)
    requires Stands(f, m, sources, c) && WellSpelled(m) && DistinctNames(m.owners) && TargetsStand(m)
    requires name in AsMap(m.owners) && NameValid(name)
    ensures DeclaresIn(Carried(f, c).src, Target(TablesOf(m), name, CHECKED), name)
  {
    var a := AssignmentOf(m.owners, name);
    StandsExtracts(f, m, sources, c);
    OwnerHasIt(Loaded(f.src, f.srcLinks, m), m.owners, a);
    ManifestLexical(m);
    TargetDeclares(f, m, sources, c, a.owner, name);
    OwnerTarget(m, name);
  }

  /** An import that resolves in the tree does so in the tree afterwards, exactly when it does not stray. */
  lemma StillResolves(f: Files, m: Manifest, sources: map<string, string>, c: Changes, member: string, path: string)
    requires Stands(f, m, sources, c) && WellSpelled(m) && DistinctNames(m.owners) && TargetsStand(m)
    requires Resolves(f.src, member, path)
    ensures Resolves(Carried(f, c).src, member, Target(TablesOf(m), Origin(member), path))
       <==> !Strays(m, member, path)
  {
    var name := Origin(member);
    if path == CHECKED && name in AsMap(m.owners) {
      DeclaredIs(FileLines(f.src, path), name);
      OwnedLeads(f, m, sources, c, name);
    } else {
      OtherLeads(f, m, sources, c, name, path);
    }
  }

  lemma OtherLeads(f: Files, m: Manifest, sources: map<string, string>, c: Changes, name: string, path: string)
    requires Stands(f, m, sources, c) && WellSpelled(m) && DistinctNames(m.owners) && TargetsStand(m)
    requires DeclaresIn(f.src, path, name) && (path == CHECKED ==> name !in AsMap(m.owners))
    ensures Original(m, path).Some?
    ensures Original(m, path).value == CHECKED ==> name in AsMap(m.owners)
    ensures DeclaresIn(Carried(f, c).src, Target(TablesOf(m), name, path), name)
       <==> !(Original(m, path) == Some(CHECKED) && SomeStay(m.owners) && !AssignedTo(m.owners, name, CHECKED))
  {
    var loaded := Loaded(f.src, f.srcLinks, m);
    StandsExtracts(f, m, sources, c);
    PlacedAt(f.src, f.srcLinks, m, path);
    var n := Original(m, path).value;
    StillDeclares(loaded, m.owners, n, name);
    ExtractKeeps(loaded, m.owners);
    PathTarget(m, name, path);
    ManifestLexical(m);
    TargetDeclares(f, m, sources, c, n, name);
  }

  // The imports of a text.

  /** An import, as the extraction adds them, of an assigned function from its owner. */
  ghost predicate FromOwner(m: Manifest, member: string, path: string)
  {
    exists a | a in m.owners :: NameValid(a.name) && member == a.name && path == a.owner
  }

  /** A named import that resolves in the tree, or that the extraction adds. */
  ghost predicate Known(f: Files, m: Manifest, u: Use)
  {
    u.Member? && (Resolves(f.src, u.member, u.module_) || FromOwner(m, u.member, u.module_))
  }

  lemma NameIsOrigin(name: string)
    requires NameValid(name)
    ensures Origin(name) == name
  {
    ValidIsWord(name);
    WordLacks(name, AS, 0);
    assert Split(AS, name) == [name];
  }

  lemma AssignedTarget(m: Manifest, a: Assignment)
    requires PreviousOwned(m) && TargetsStand(m) && DistinctNames(m.owners) && a in m.owners && a.owner in m.modules
    ensures Target(TablesOf(m), a.name, a.owner) == m.modules[a.owner]
  {
    OwnerIs(m.owners, a);
    ModulePath(m, a.owner);
  }

  lemma NamesDoNotStray(m: Manifest, member: string, path: string)
    requires Injective(m.modules) && path in m.modules
    ensures !Strays(m, member, path)
  {
  }

  lemma AssignedLeads(f: Files, m: Manifest, sources: map<string, string>, c: Changes, a: Assignment)
    requires Stands(f, m, sources, c) && WellSpelled(m) && DistinctNames(m.owners) && TargetsStand(m)
    requires a in m.owners && NameValid(a.name)
    ensures a.owner in m.modules
    ensures DeclaresIn(Carried(f, c).src, Target(TablesOf(m), a.name, a.owner), a.name)
  {
    StandsExtracts(f, m, sources, c);
    OwnerHasIt(Loaded(f.src, f.srcLinks, m), m.owners, a);
    ManifestLexical(m);
    TargetDeclares(f, m, sources, c, a.owner, a.name);
    AssignedTarget(m, a);
  }

  lemma OwnerLeads(f: Files, m: Manifest, sources: map<string, string>, c: Changes, name: string, path: string)
    requires Stands(f, m, sources, c) && WellSpelled(m) && DistinctNames(m.owners) && TargetsStand(m)
    requires FromOwner(m, name, path)
    ensures Resolves(Carried(f, c).src, name, Target(TablesOf(m), Origin(name), path)) && !Strays(m, name, path)
  {
    var a :| a in m.owners && NameValid(a.name) && name == a.name && path == a.owner;
    NameIsOrigin(name);
    AssignedLeads(f, m, sources, c, a);
    NamesDoNotStray(m, name, path);
  }

  lemma KnownLeads(f: Files, m: Manifest, sources: map<string, string>, c: Changes, u: Use)
    requires Stands(f, m, sources, c) && WellSpelled(m) && DistinctNames(m.owners) && TargetsStand(m)
    requires Known(f, m, u)
    ensures var v := Retarget(TablesOf(m), u);
            v.Member? && (Resolves(Carried(f, c).src, v.member, v.module_) <==> !Strays(m, u.member, u.module_))
  {
    if Resolves(f.src, u.member, u.module_) {
      StillResolves(f, m, sources, c, u.member, u.module_);
    } else {
      OwnerLeads(f, m, sources, c, u.member, u.module_);
    }
  }

  /** Each binding is kept, and each import that resolved, or that extraction added, resolves in the tree afterwards. */
  ghost predicate ImportsKept(f: Files, m: Manifest, c: Changes, before: string, after: string)
  {
    var t := TablesOf(m);
    && multiset(Bindings(after)) == multiset(RetargetAll(t, Bindings(before)))
    && forall u | u in Bindings(before) && Known(f, m, u) ::
         Resolves(Carried(f, c).src, Retarget(t, u).member, Retarget(t, u).module_)
  }

  /** No line is broken by rewriting, and no import that resolved strays. */
  ghost predicate ImportsKeep(f: Files, m: Manifest, before: string)
    requires Injective(m.modules)
  {
    && !AnyBroken(TablesOf(m), HeadLines(before))
    && forall u | u in Bindings(before) && Known(f, m, u) :: !Strays(m, u.member, u.module_)
  }

  lemma TextImportsFollow(f: Files, m: Manifest, sources: map<string, string>, c: Changes, text: string)
    requires Stands(f, m, sources, c) && WellSpelled(m) && DistinctNames(m.owners) && TargetsStand(m)
    ensures ImportsKept(f, m, c, text, Rewrite(TablesOf(m), text)) <==> ImportsKeep(f, m, text)
  {
    ManifestLexical(m);
    BindingsMove(TablesOf(m), text);
    forall u | u in Bindings(text) && Known(f, m, u)
      ensures var v := Retarget(TablesOf(m), u);
              v.Member? && (Resolves(Carried(f, c).src, v.member, v.module_) <==> !Strays(m, u.member, u.module_))
    {
      KnownLeads(f, m, sources, c, u);
    }
  }

  /**
   * In the tree afterwards, the file of every source keeps its bindings, and each that resolved still does, exactly
   * when no import line of it is broken and none names the checker by a path of it to ask for a function that left.
   */
  lemma SourceImportsFollow(f: Files, m: Manifest, sources: map<string, string>, c: Changes, n: string)
    requires Stands(f, m, sources, c) && WellSpelled(m) && DistinctNames(m.owners) && TargetsStand(m)
    requires n in sources
    ensures n in m.modules && m.modules[n] in Carried(f, c).src
    ensures ImportsKept(f, m, c, sources[n], Carried(f, c).src[m.modules[n]]) <==> ImportsKeep(f, m, sources[n])
  {
    TreeAfter(f, m, sources, c);
    MovedAt(m, sources, n);
    TextImportsFollow(f, m, sources, c, sources[n]);
  }

  /** And so does every CLI source, in place. */
  lemma CliImportsFollow(f: Files, m: Manifest, sources: map<string, string>, c: Changes, p: string)
    requires Stands(f, m, sources, c) && WellSpelled(m) && DistinctNames(m.owners) && TargetsStand(m)
    requires p in f.cli
    ensures p in Carried(f, c).cli
    ensures ImportsKept(f, m, c, f.cli[p], Carried(f, c).cli[p]) <==> ImportsKeep(f, m, f.cli[p])
  {
    TreeAfter(f, m, sources, c);
    TextImportsFollow(f, m, sources, c, f.cli[p]);
  }
}
