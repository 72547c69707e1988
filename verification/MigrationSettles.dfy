/** Planning again after a migration: exactly when nothing is left to do. */
module MigrationSettles {
  import opened Wrappers
  import opened TextLines
  import opened Relabeling
  import opened Grouping
  import opened ImportLines
  import opened ImportRewriting
  import opened ImportStability
  import opened ImportBindings
  import opened FunctionFragments
  import opened CheckerExtraction
  import opened ExtractionConserves
  import opened ExtractionCounts
  import opened ExtractionRerun
  import opened LayoutMigration
  import opened MigratedTree
  import opened SourceSettling

  const NOTHING := Changes(map[], {}, map[])

  // Rewriting imports changes neither bodies nor declarations.

  lemma BodyKept(t: Tables, s: string)
    requires Lexical(t)
    ensures Body(Rewrite(t, s)) == Body(s)
  {
    RewrittenHead(t, s);
  }

  lemma DeclarationsKept(t: Tables, s: string, n: string)
    requires Lexical(t)
    ensures Declarations(SplitLines(Rewrite(t, s)), n) == Declarations(SplitLines(s), n)
  {
    RewrittenHead(t, s);
    HeadDeclares(s, n);
    HeadDeclares(Rewrite(t, s), n);
  }

  lemma FileDeclarationsKept(t: Tables, files: map<string, string>, name: string, n: string)
    requires Lexical(t)
    ensures Declarations(FileLines(Rewritten(t, files), name), n) == Declarations(FileLines(files, name), n)
  {
    if name in files {
      DeclarationsKept(t, files[name], n);
    }
  }

  /** The rewritten sources are recognised as extracted exactly when the sources are. */
  lemma RewrittenApplied(t: Tables, files: map<string, string>, owners: seq<Assignment>)
    requires Lexical(t)
    ensures Extract(files, owners) == Extraction(files, CheckerExtraction.Applied)
       <==> Extract(Rewritten(t, files), owners) == Extraction(Rewritten(t, files), CheckerExtraction.Applied)
  {
    AppliedIs(files, owners);
    AppliedIs(Rewritten(t, files), owners);
    if CHECKED in files {
      BodyKept(t, files[CHECKED]);
    }
    forall a | a in owners
      ensures Declarations(FileLines(Rewritten(t, files), a.owner), a.name)
           == Declarations(FileLines(files, a.owner), a.name)
    {
      FileDeclarationsKept(t, files, a.owner, a.name);
    }
  }

  /** Once rewritten, every text has each of its bindings where rewriting would send it. */
  ghost predicate TextsSettle(t: Tables, files: map<string, string>)
  {
    forall n | n in files :: AllStay(t, Bindings(Rewrite(t, files[n])))
  }

  lemma RewrittenTwice(t: Tables, files: map<string, string>)
    requires Lexical(t)
    ensures Rewritten(t, Rewritten(t, files)) == Rewritten(t, files) <==> TextsSettle(t, files)
  {
    forall n | n in files
      ensures Rewrite(t, Rewrite(t, files[n])) == Rewrite(t, files[n]) <==> AllStay(t, Bindings(Rewrite(t, files[n])))
    {
      RewrittenStays(t, files[n]);
    }
    SameTexts(Rewritten(t, Rewritten(t, files)), Rewritten(t, files));
  }

  lemma SameTexts(a: map<string, string>, b: map<string, string>)
    requires a.Keys == b.Keys
    ensures a == b <==> forall n | n in a :: a[n] == b[n]
  {
  }

  /** With settled paths every text settles. */
  lemma AllTextsSettle(t: Tables, files: map<string, string>)
    requires Lexical(t) && PathsSettled(t)
    ensures TextsSettle(t, files)
  {
    forall n | n in files ensures AllStay(t, Bindings(Rewrite(t, files[n]))) {
      RewriteIdempotent(t, files[n]);
      RewrittenStays(t, files[n]);
    }
  }

  // Loading the tree again.

  /** A path assigned to a source is not also the name of another. */
  predicate TargetsOwn(m: Manifest, sources: map<string, string>)
  {
    forall n | n in sources && n in m.modules && m.modules[n] in m.modules :: m.modules[n] == n
  }

  /** Links are among the sources. */
  predicate LinksAreSources(f: Files)
  {
    f.srcLinks <= f.src.Keys
  }

  lemma OriginalAfter(m: Manifest, sources: map<string, string>, p: string)
    requires Injective(m.modules) && TargetsOwn(m, sources) && p in Moved(m, sources)
    ensures var n := Reverse(m.modules)[p];
            && p in Reverse(m.modules) && n in sources && n in m.modules && m.modules[n] == p
            && Original(m, p) == Some(n)
  {
    ReverseFrom(m.modules, p);
  }

  lemma MovedAt(m: Manifest, sources: map<string, string>, n: string)
    requires Injective(m.modules) && n in sources && n in m.modules
    ensures m.modules[n] in Moved(m, sources)
    ensures Moved(m, sources)[m.modules[n]] == Rewritten(TablesOf(m), sources)[n]
  {
    ReverseAt(m.modules, n);
  }

  lemma LoadsAgain(m: Manifest, sources: map<string, string>, links: set<string>)
    requires Injective(m.modules) && TargetsOwn(m, sources) && sources.Keys <= m.modules.Keys && links == {}
    ensures LoadOk(Moved(m, sources), links, m)
  {
    var src := Moved(m, sources);
    var names := Originals(src.Keys, m);
    forall p | p in src ensures p in names && names[p] == Reverse(m.modules)[p] {
      OriginalAfter(m, sources, p);
    }
    forall p, q | p in names && q in names && names[p] == names[q] ensures p == q {
      OriginalAfter(m, sources, p);
      OriginalAfter(m, sources, q);
    }
  }

  /** Every source is where it belongs. */
  ghost predicate InPlace(m: Manifest, sources: map<string, string>, placed: map<string, string>)
  {
    && sources.Keys <= m.modules.Keys && (forall n | n in placed :: n in sources)
    && forall n | n in sources :: n in placed && placed[n] == m.modules[n]
  }

  lemma PlacedAgain(m: Manifest, sources: map<string, string>, links: set<string>)
    requires Injective(m.modules) && TargetsOwn(m, sources) && sources.Keys <= m.modules.Keys && links == {}
    ensures LoadOk(Moved(m, sources), links, m) && InPlace(m, sources, Placed(Moved(m, sources), links, m))
  {
    var src := Moved(m, sources);
    LoadsAgain(m, sources, links);
    var placed := Placed(src, links, m);
    forall n | n in placed ensures n in sources {
      PlacedFrom(src, links, m, n);
      OriginalAfter(m, sources, placed[n]);
    }
    forall n | n in sources ensures n in placed && placed[n] == m.modules[n] {
      MovedAt(m, sources, n);
      OriginalAfter(m, sources, m.modules[n]);
      ReverseAt(m.modules, n);
      PlacedAt(src, links, m, m.modules[n]);
    }
  }

  lemma LoadedAgain(m: Manifest, sources: map<string, string>, links: set<string>)
    requires Injective(m.modules) && TargetsOwn(m, sources) && sources.Keys <= m.modules.Keys && links == {}
    ensures LoadOk(Moved(m, sources), links, m) && InPlace(m, sources, Placed(Moved(m, sources), links, m))
    ensures Loaded(Moved(m, sources), links, m) == Rewritten(TablesOf(m), sources)
  {
    PlacedAgain(m, sources, links);
    forall n | n in sources
      ensures m.modules[n] in Moved(m, sources)
      ensures Moved(m, sources)[m.modules[n]] == Rewritten(TablesOf(m), sources)[n]
    {
      MovedAt(m, sources, n);
    }
    ViaPlaced(m.modules, Moved(m, sources), Rewritten(TablesOf(m), sources), Placed(Moved(m, sources), links, m));
  }

  lemma ViaPlaced(modules: map<string, string>, src: map<string, string>, files: map<string, string>,
    placed: map<string, string>)
    requires files.Keys <= modules.Keys && forall n | n in placed :: n in files
    requires forall n | n in files :: n in placed && placed[n] == modules[n]
    requires forall n | n in files :: modules[n] in src && src[modules[n]] == files[n]
    ensures Via(src, placed) == files
  {
  }

  // The second plan.

  lemma NoLinks(f: Files, m: Manifest)
    requires LinksAreSources(f) && Injective(m.modules) && LoadOk(f.src, f.srcLinks, m)
    ensures f.srcLinks == {}
  {
  }

  lemma SameDestinations(f: Files, g: Files, m: Manifest, names: set<string>, before: map<string, string>,
    placed: map<string, string>)
    requires DestinationsOk(f, m.modules, before, names) && g.blocked == f.blocked
    requires forall n | n in names :: n in m.modules && n in placed && placed[n] == m.modules[n]
    ensures DestinationsOk(g, m.modules, placed, names)
  {
    forall n | n in names ensures DestinationOk(g, m.modules, placed, n) {
      assert DestinationOk(f, m.modules, before, n);
    }
  }

  lemma NothingWritten(src: map<string, string>, modules: map<string, string>, placed: map<string, string>,
    contents: map<string, string>)
    requires Injective(modules) && contents.Keys <= modules.Keys
    requires forall n | n in contents :: n in placed && placed[n] == modules[n]
    requires forall n | n in contents :: modules[n] in src && src[modules[n]] == contents[n]
    ensures WritesOf(src, Reverse(modules), placed, contents) == map[]
    ensures RemovalsOf(modules, placed, contents.Keys) == {}
  {
    forall p | p in Reverse(modules) ensures modules[Reverse(modules)[p]] == p {
      ReverseFrom(modules, p);
    }
  }

  /** Every file is where it belongs and says what it should. */
  ghost predicate FilesInPlace(g: Files, m: Manifest, files: map<string, string>, placed: map<string, string>)
  {
    && InPlace(m, files, placed)
    && forall n | n in files :: m.modules[n] in g.src && g.src[m.modules[n]] == files[n]
  }

  lemma MovedSettled(g: Files, m: Manifest, sources: map<string, string>, placed: map<string, string>)
    requires Injective(m.modules) && InPlace(m, sources, placed) && g.src == Moved(m, sources)
    ensures FilesInPlace(g, m, Rewritten(TablesOf(m), sources), placed)
  {
    forall n | n in sources
      ensures m.modules[n] in g.src && g.src[m.modules[n]] == Rewritten(TablesOf(m), sources)[n]
    {
      MovedAt(m, sources, n);
    }
  }

  lemma NothingChanges(g: Files, m: Manifest, files: map<string, string>, placed: map<string, string>)
    requires Injective(m.modules) && FilesInPlace(g, m, files, placed)
    requires DestinationsOk(g, m.modules, placed, files.Keys)
    requires Rewritten(TablesOf(m), files) == files && Rewritten(TablesOf(m), g.cli) == g.cli
    ensures MoveChanges(g, m, placed, files) == NOTHING
  {
    NothingWritten(g.src, m.modules, placed, files);
    NoCliWrites(g.cli);
  }

  lemma NoCliWrites(cli: map<string, string>)
    ensures CliWrites(cli, cli) == map[]
  {
  }

  /** Loading the tree again gives the rewritten sources, each where it belongs. */
  lemma SecondLoad(f: Files, m: Manifest, sources: map<string, string>, c: Changes)
    requires Stands(f, m, sources, c) && LinksAreSources(f) && TargetsOwn(m, sources)
    ensures var g, files := Carried(f, c), Rewritten(TablesOf(m), sources);
            && LoadOk(g.src, g.srcLinks, m) && Loaded(g.src, g.srcLinks, m) == files
            && FilesInPlace(g, m, files, Placed(g.src, g.srcLinks, m))
  {
    var g := Carried(f, c);
    NoLinks(f, m);
    TreeAfter(f, m, sources, c);
    LoadedAgain(m, sources, f.srcLinks);
    MovedSettled(g, m, sources, Placed(g.src, g.srcLinks, m));
  }

  /** When the moved sources are recognised as extracted and every text settles, the second plan has nothing to do. */
  lemma SettledPlan(f: Files, m: Manifest, sources: map<string, string>, c: Changes)
    requires Stands(f, m, sources, c) && LinksAreSources(f)
    requires Lexical(TablesOf(m)) && TargetsOwn(m, sources)
    requires TextsSettle(TablesOf(m), sources) && TextsSettle(TablesOf(m), f.cli)
    requires Extract(sources, m.owners) == Extraction(sources, CheckerExtraction.Applied)
    ensures PlanOf(Carried(f, c), m) == Planned(NOTHING)
  {
    RewrittenTwice(TablesOf(m), sources);
    RewrittenTwice(TablesOf(m), f.cli);
    RewrittenApplied(TablesOf(m), sources, m.owners);
    FixedPlan(f, m, sources, c, Rewritten(TablesOf(m), sources));
  }

  lemma FixedPlan(f: Files, m: Manifest, sources: map<string, string>, c: Changes, contents: map<string, string>)
    requires Stands(f, m, sources, c) && LinksAreSources(f) && TargetsOwn(m, sources)
    requires contents == Rewritten(TablesOf(m), sources) && Rewritten(TablesOf(m), contents) == contents
    requires Rewritten(TablesOf(m), Rewritten(TablesOf(m), f.cli)) == Rewritten(TablesOf(m), f.cli)
    requires Extract(contents, m.owners) == Extraction(contents, CheckerExtraction.Applied)
    ensures PlanOf(Carried(f, c), m) == Planned(NOTHING)
  {
    var g := Carried(f, c);
    SecondLoad(f, m, sources, c);
    TreeAfter(f, m, sources, c);
    ExtractKeeps(Loaded(f.src, f.srcLinks, m), m.owners);
    SettledStands(f, g, m, contents);
    StandsPlanned(g, m, contents, NOTHING);
  }

  lemma SettledStands(f: Files, g: Files, m: Manifest, files: map<string, string>)
    requires PreviousOwned(m) && AssignmentsOk(m.modules) && LoadOk(f.src, f.srcLinks, m)
    requires m.modules.Keys - files.Keys <= NewOwners(m)
    requires DestinationsOk(f, m.modules, Placed(f.src, f.srcLinks, m), files.Keys)
    requires g.blocked == f.blocked && g.cli.Keys !! g.cliLinks && LoadOk(g.src, g.srcLinks, m)
    requires FilesInPlace(g, m, files, Placed(g.src, g.srcLinks, m)) && Loaded(g.src, g.srcLinks, m) == files
    requires Extract(files, m.owners) == Extraction(files, CheckerExtraction.Applied)
    requires Rewritten(TablesOf(m), files) == files && Rewritten(TablesOf(m), g.cli) == g.cli
    ensures Stands(g, m, files, NOTHING)
  {
    var placed := Placed(g.src, g.srcLinks, m);
    SameDestinations(f, g, m, files.Keys, Placed(f.src, f.srcLinks, m), placed);
    NothingChanges(g, m, files, placed);
  }

  // When there is something left to do.

  /** A file under the name of a source that belongs elsewhere is to be removed. */
  lemma StrayRemoved(g: Files, m: Manifest, again: map<string, string>, c: Changes, k: string)
    requires Stands(g, m, again, c) && k in g.src && k in m.modules && m.modules[k] != k
    ensures k in c.removals
  {
    PlacedAt(g.src, g.srcLinks, m, k);
    ExtractKeeps(Loaded(g.src, g.srcLinks, m), m.owners);
    assert Original(m, k) == Some(k);
  }

  /** A source whose name is another's target sends the second plan astray. */
  lemma ChainsUnsettle(f: Files, m: Manifest, sources: map<string, string>, c: Changes)
    requires Stands(f, m, sources, c) && !TargetsOwn(m, sources)
    ensures PlanOf(Carried(f, c), m) != Planned(NOTHING)
  {
    var g := Carried(f, c);
    var n :| n in sources && n in m.modules && m.modules[n] in m.modules && m.modules[n] != n;
    TreeAfter(f, m, sources, c);
    MovedAt(m, sources, n);
    if PlanOf(g, m).Planned? {
      var again := PlanStands(g, m, PlanOf(g, m).changes);
      StrayRemoved(g, m, again, PlanOf(g, m).changes, m.modules[n]);
    }
  }

  /** Extracting from moved sources changes the text of some owner. */
  lemma ExtractedAgain(files: map<string, string>, owners: seq<Assignment>, out: map<string, string>)
    returns (a: Assignment)
    requires Extract(files, owners) == Extraction(out, Extracted) && DistinctNames(owners)
    requires forall x | x in owners :: IsModule(x.owner)
    ensures a in owners && a.owner in out
    ensures Declarations(FileLines(out, a.owner), a.name) == Declarations(FileLines(files, a.owner), a.name) + 1
  {
    ExtractedFacts(files, owners);
    SomeMove(owners);
    a :| a in owners && a.owner != CHECKED;
    NamesWords(files, owners);
    DeclaredAfter(files, owners, out, a);
    BeforeCounts(files, a.owner, a.name);
  }

  lemma ExtractionUnsettles(f: Files, m: Manifest, sources: map<string, string>, c: Changes)
    requires Stands(f, m, sources, c) && LinksAreSources(f) && DistinctNames(m.owners)
    requires Lexical(TablesOf(m)) && TargetsOwn(m, sources) && forall a | a in m.owners :: IsModule(a.owner)
    requires Extract(sources, m.owners) != Extraction(sources, CheckerExtraction.Applied)
    ensures PlanOf(Carried(f, c), m) != Planned(NOTHING)
  {
    var g, files := Carried(f, c), Rewritten(TablesOf(m), sources);
    SecondLoad(f, m, sources, c);
    RewrittenApplied(TablesOf(m), sources, m.owners);
    if PlanOf(g, m).Planned? {
      var again := PlanStands(g, m, PlanOf(g, m).changes);
      AgainWrites(g, m, files, again, PlanOf(g, m).changes);
    }
  }

  lemma StandsNamed(g: Files, m: Manifest, sources: map<string, string>, c: Changes)
    requires Stands(g, m, sources, c)
    ensures sources.Keys <= m.modules.Keys
    ensures c.writes
         == WritesOf(g.src, Reverse(m.modules), Placed(g.src, g.srcLinks, m), Rewritten(TablesOf(m), sources))
  {
    forall n | n in sources ensures n in m.modules {
      assert DestinationOk(g, m.modules, Placed(g.src, g.srcLinks, m), n);
    }
  }

  lemma AgainWrites(g: Files, m: Manifest, files: map<string, string>, again: map<string, string>, c: Changes)
    requires Stands(g, m, again, c) && DistinctNames(m.owners)
    requires Loaded(g.src, g.srcLinks, m) == files && FilesInPlace(g, m, files, Placed(g.src, g.srcLinks, m))
    requires Lexical(TablesOf(m)) && forall a | a in m.owners :: IsModule(a.owner)
    requires Extract(files, m.owners) != Extraction(files, CheckerExtraction.Applied)
    ensures c.writes != map[]
  {
    NotAppliedAgain(files, m.owners);
    var a := ExtractedAgain(files, m.owners, again);
    StandsNamed(g, m, again, c);
    SomethingWritten(g, m, files, Placed(g.src, g.srcLinks, m), again, a);
  }

  lemma NotAppliedAgain(files: map<string, string>, owners: seq<Assignment>)
    requires Extract(files, owners) != Extraction(files, CheckerExtraction.Applied)
    ensures !Extract(files, owners).outcome.Applied?
  {
    if Extract(files, owners).outcome.Applied? {
      AppliedUnchanged(files, owners);
    }
  }

  lemma SomethingWritten(g: Files, m: Manifest, files: map<string, string>, placed: map<string, string>,
    again: map<string, string>, a: Assignment)
    requires Injective(m.modules) && FilesInPlace(g, m, files, placed) && Lexical(TablesOf(m))
    requires a.owner in again && again.Keys <= m.modules.Keys
    requires Declarations(FileLines(again, a.owner), a.name) != Declarations(FileLines(files, a.owner), a.name)
    ensures WritesOf(g.src, Reverse(m.modules), placed, Rewritten(TablesOf(m), again)) != map[]
  {
    ReverseAt(m.modules, a.owner);
    FileDeclarationsKept(TablesOf(m), again, a.owner, a.name);
    assert m.modules[a.owner] in WritesOf(g.src, Reverse(m.modules), placed, Rewritten(TablesOf(m), again));
  }

  /** A plan of no changes leaves every text of the tree as rewriting leaves it. */
  lemma NothingMeansFixed(g: Files, m: Manifest, files: map<string, string>)
    requires Stands(g, m, files, NOTHING) && Loaded(g.src, g.srcLinks, m) == files
    requires FilesInPlace(g, m, files, Placed(g.src, g.srcLinks, m))
    ensures Rewritten(TablesOf(m), files) == files && Rewritten(TablesOf(m), g.cli) == g.cli
  {
    StandsNamed(g, m, files, NOTHING);
    NothingWrittenFixed(g, m, files, Placed(g.src, g.srcLinks, m), Rewritten(TablesOf(m), files));
    NoCliChange(g.cli, Rewritten(TablesOf(m), g.cli));
  }

  lemma NothingWrittenFixed(g: Files, m: Manifest, files: map<string, string>, placed: map<string, string>,
    contents: map<string, string>)
    requires Injective(m.modules) && FilesInPlace(g, m, files, placed) && contents.Keys == files.Keys
    requires WritesOf(g.src, Reverse(m.modules), placed, contents) == map[]
    ensures contents == files
  {
    forall n | n in files ensures contents[n] == files[n] {
      ReverseAt(m.modules, n);
      assert m.modules[n] !in WritesOf(g.src, Reverse(m.modules), placed, contents);
    }
  }

  lemma NoCliChange(cli: map<string, string>, contents: map<string, string>)
    requires contents.Keys == cli.Keys && CliWrites(cli, contents) == map[]
    ensures contents == cli
  {
    forall p | p in cli ensures contents[p] == cli[p] {
      assert p !in CliWrites(cli, contents);
    }
  }

  /** When the extraction was made, a second plan finds nothing only if every text settles. */
  lemma TextsUnsettle(f: Files, m: Manifest, sources: map<string, string>, c: Changes)
    requires Stands(f, m, sources, c) && LinksAreSources(f) && Lexical(TablesOf(m)) && TargetsOwn(m, sources)
    requires Extract(sources, m.owners) == Extraction(sources, CheckerExtraction.Applied)
    requires PlanOf(Carried(f, c), m) == Planned(NOTHING)
    ensures TextsSettle(TablesOf(m), sources) && TextsSettle(TablesOf(m), f.cli)
  {
    var g, files := Carried(f, c), Rewritten(TablesOf(m), sources);
    SecondLoad(f, m, sources, c);
    RewrittenApplied(TablesOf(m), sources, m.owners);
    var again := PlanStands(g, m, NOTHING);
    assert again == files;
    NothingMeansFixed(g, m, files);
    TreeAfter(f, m, sources, c);
    RewrittenTwice(TablesOf(m), sources);
    RewrittenTwice(TablesOf(m), f.cli);
  }

  /** The three ways in which a second plan can find something to do are the only ones. */
  lemma MigrationSettlesExactly(f: Files, m: Manifest, c: Changes)
    requires PlanOf(f, m) == Planned(c) && LinksAreSources(f) && DistinctNames(m.owners)
    requires Lexical(TablesOf(m)) && forall a | a in m.owners :: IsModule(a.owner)
    ensures LoadOk(f.src, f.srcLinks, m)
    ensures var loaded := Loaded(f.src, f.srcLinks, m);
            var e := Extract(loaded, m.owners);
            PlanOf(Carried(f, c), m) == Planned(NOTHING) <==>
              && TargetsOwn(m, e.files) && TextsSettle(TablesOf(m), e.files) && TextsSettle(TablesOf(m), f.cli)
              && (e.outcome.Applied? || (SomeStay(m.owners) && LambdaClear(loaded, m.owners)))
  {
    var loaded := Loaded(f.src, f.srcLinks, m);
    var sources := PlanStands(f, m, c);
    var e := Extract(loaded, m.owners);
    if e.outcome.Applied? {
      AppliedUnchanged(loaded, m.owners);
    } else {
      RerunExactly(loaded, m.owners, sources);
    }
    SettlesWhen(f, m, sources, c);
  }

  lemma SettlesWhen(f: Files, m: Manifest, sources: map<string, string>, c: Changes)
    requires Stands(f, m, sources, c) && LinksAreSources(f) && DistinctNames(m.owners)
    requires Lexical(TablesOf(m)) && forall a | a in m.owners :: IsModule(a.owner)
    ensures PlanOf(Carried(f, c), m) == Planned(NOTHING) <==>
              && TargetsOwn(m, sources) && TextsSettle(TablesOf(m), sources) && TextsSettle(TablesOf(m), f.cli)
              && Extract(sources, m.owners) == Extraction(sources, CheckerExtraction.Applied)
  {
    if !TargetsOwn(m, sources) {
      ChainsUnsettle(f, m, sources, c);
    } else if Extract(sources, m.owners) != Extraction(sources, CheckerExtraction.Applied) {
      ExtractionUnsettles(f, m, sources, c);
    } else if PlanOf(Carried(f, c), m) == Planned(NOTHING) {
      TextsUnsettle(f, m, sources, c);
    } else if TextsSettle(TablesOf(m), sources) && TextsSettle(TablesOf(m), f.cli) {
      SettledPlan(f, m, sources, c);
    }
  }
}
