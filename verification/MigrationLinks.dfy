/** The manifests for which a migration settles, and where imports lead after one. */
module MigrationLinks {
  import opened Wrappers
  import opened TextSearch
  import opened WordSearch
  import opened TextLines
  import opened Relabeling
  import opened ImportLines
  import opened ImportRewriting
  import opened ImportStability
  import opened ImportBindings
  import opened FunctionFragments
  import opened CheckerExtraction
  import opened ExtractionRerun
  import opened LayoutMigration
  import opened MigratedTree
  import opened MigrationSettles

  // A manifest that is spelled as it should be.

  predicate AllModuleChars(s: string)
  {
    forall i | 0 <= i < |s| :: IsModuleChar(s[i])
  }

  lemma {:induction false} FullRun(s: string)
    requires AllModuleChars(s)
    ensures ModuleRun(s) == |s|
  {
    if s != "" {
      FullRun(s[1..]);
    }
  }

  lemma {:induction false} NameChars(s: string)
    ensures AllModuleChars(s[..NameRun(s)])
  {
    if s != "" && IsNameChar(s[0]) {
      NameChars(s[1..]);
      assert s[..NameRun(s)] == [s[0]] + s[1..][..NameRun(s[1..])];
    }
  }

  lemma {:induction false} ModuleNameChars(s: string)
    requires IsModuleName(s)
    ensures AllModuleChars(s)
  {
    var n := NameRun(s);
    NameChars(s);
    if n == |s| {
      assert s[..n] == s;
    } else {
      ModuleNameChars(s[n + 1..]);
      assert s == s[..n] + ['/'] + s[n + 1..];
    }
  }

  /** A path of the manifest's form is one that an import can name. */
  lemma ModuleNameReads(s: string)
    requires IsModuleName(s)
    ensures IsModule(s)
  {
    ModuleNameChars(s);
    FullRun(s);
  }

  /** Owners are modules, default members are identifiers, and no earlier path is an opening brace. */
  predicate WellSpelled(m: Manifest)
  {
    && (forall a | a in m.owners :: IsModule(a.owner))
    && (forall p | p in m.previous :: p.name != "{")
    && (forall k | k in m.defaults :: IsWord(m.defaults[k]))
  }

  lemma {:induction false} PathsSpelled(modules: map<string, string>, previous: seq<Assignment>)
    requires AssignmentsOk(modules)
    requires forall p | p in previous :: p.owner in modules && p.name != "{"
    ensures var paths := ImportPaths(modules, previous);
            "{" !in paths && forall k | k in paths :: IsModule(paths[k])
  {
    if previous == [] {
      assert !IsModule("{");
      forall k | k in modules ensures k != "{" && IsModule(modules[k]) {
        ModuleNameReads(k);
        ModuleNameReads(modules[k]);
      }
    } else {
      var init, last := previous[..|previous| - 1], previous[|previous| - 1];
      assert last in previous && forall p | p in init :: p in previous;
      PathsSpelled(modules, init);
      ModuleNameReads(modules[last.owner]);
    }
  }

  lemma {:induction false} DefaultsSpelled(defaults: map<string, string>, previous: seq<Assignment>)
    requires forall k | k in defaults :: IsWord(defaults[k])
    ensures forall k | k in Defaults(defaults, previous) :: IsWord(Defaults(defaults, previous)[k])
  {
    if previous != [] {
      DefaultsSpelled(defaults, previous[..|previous| - 1]);
    }
  }

  lemma {:induction false} OwnersInMap(owners: seq<Assignment>)
    requires forall a | a in owners :: IsModule(a.owner)
    ensures forall f | f in AsMap(owners) :: IsModule(AsMap(owners)[f])
  {
    if owners != [] {
      var init, last := owners[..|owners| - 1], owners[|owners| - 1];
      assert last in owners && forall a | a in init :: a in owners;
      OwnersInMap(init);
    }
  }

  lemma ManifestLexical(m: Manifest)
    requires PreviousOwned(m) && AssignmentsOk(m.modules) && WellSpelled(m)
    ensures Lexical(TablesOf(m))
  {
    PathsSpelled(m.modules, m.previous);
    DefaultsSpelled(m.defaults, m.previous);
    OwnersInMap(m.owners);
  }

  /**
   * Planning again after a migration finds nothing to write, move or remove, exactly when no source takes the name of
   * another, every text, once rewritten, has its bindings where rewriting would send them, and the extraction had been
   * made before, or leaves a function in the checker and doubles none elsewhere.
   */
  lemma MigrationIdempotent(f: Files, m: Manifest, c: Changes)
    requires PlanOf(f, m) == Planned(c) && LinksAreSources(f) && WellSpelled(m) && DistinctNames(m.owners)
    ensures LoadOk(f.src, f.srcLinks, m)
    ensures var loaded := Loaded(f.src, f.srcLinks, m);
            var e := Extract(loaded, m.owners);
            PlanOf(Carried(f, c), m) == Planned(NOTHING) <==>
              && TargetsOwn(m, e.files) && TextsSettle(TablesOf(m), e.files) && TextsSettle(TablesOf(m), f.cli)
              && (e.outcome.Applied? || (SomeStay(m.owners) && LambdaClear(loaded, m.owners)))
  {
    ManifestLexical(m);
    MigrationSettlesExactly(f, m, c);
  }

  /** What an import path leads to: its own target, or that of the module it was an earlier path of. */
  lemma {:induction false} PathFrom(modules: map<string, string>, previous: seq<Assignment>, k: string)
    returns (o: string)
    requires k in ImportPaths(modules, previous) && forall p | p in previous :: p.owner in modules
    ensures o in modules && ImportPaths(modules, previous)[k] == modules[o]
    ensures if exists p | p in previous :: p.name == k then Assignment(k, o) in previous else o == k
  {
    if previous == [] {
      o := k;
    } else {
      var init, last := previous[..|previous| - 1], previous[|previous| - 1];
      assert last in previous && forall p | p in init :: p in previous;
      if last.name == k {
        o := last.owner;
      } else {
        o := PathFrom(modules, init, k);
      }
    }
  }

  /**
   * A target that is also the name of a module is that module's own; an earlier path that is also a name or a target
   * belongs to the module that has it; and a checker that stays in place has no earlier path.
   */
  predicate TargetsStand(m: Manifest)
  {
    && CHECKED in m.modules
    && (forall n | n in m.modules && m.modules[n] in m.modules :: m.modules[n] == n)
    && (forall p | p in m.previous && p.name in m.modules :: p.owner == p.name)
    && (forall p, n | p in m.previous && n in m.modules && m.modules[n] == p.name :: p.owner == n)
    && (m.modules[CHECKED] == CHECKED ==> forall p | p in m.previous && p.owner == CHECKED :: p.name == CHECKED)
  }

  lemma TargetsSettle(m: Manifest, sources: map<string, string>)
    requires PreviousOwned(m) && AssignmentsOk(m.modules) && TargetsStand(m)
    ensures PathsSettled(TablesOf(m)) && TargetsOwn(m, sources)
  {
    var paths := ImportPaths(m.modules, m.previous);
    forall k | k in paths ensures ImportRewriting.Lookup(paths, paths[k]) == paths[k] {
      var o := PathFrom(m.modules, m.previous, k);
      if paths[k] in paths {
        var again := PathFrom(m.modules, m.previous, paths[k]);
        assert again == o;
      }
    }
    forall k | k in paths && k != CHECKED ensures paths[k] != CHECKED {
      var o := PathFrom(m.modules, m.previous, k);
      assert m.modules[o] == CHECKED ==> o == CHECKED;
    }
  }

  /**
   * So for a manifest whose targets stand, whatever the tree: planning again after a migration finds nothing to do
   * exactly when the extraction had been made before, or leaves a function in the checker and doubles none elsewhere.
   */
  lemma StandingTargetsIdempotent(f: Files, m: Manifest, c: Changes)
    requires PlanOf(f, m) == Planned(c) && LinksAreSources(f) && WellSpelled(m) && DistinctNames(m.owners)
    requires TargetsStand(m)
    ensures LoadOk(f.src, f.srcLinks, m)
    ensures var loaded := Loaded(f.src, f.srcLinks, m);
            var e := Extract(loaded, m.owners);
            PlanOf(Carried(f, c), m) == Planned(NOTHING) <==>
              e.outcome.Applied? || (SomeStay(m.owners) && LambdaClear(loaded, m.owners))
  {
    var sources := Extract(Loaded(f.src, f.srcLinks, m), m.owners).files;
    TargetsSettle(m, sources);
    ManifestLexical(m);
    AllTextsSettle(TablesOf(m), sources);
    AllTextsSettle(TablesOf(m), f.cli);
    MigrationIdempotent(f, m, c);
  }

  // Where imports lead.

  lemma {:induction false} PathOf(modules: map<string, string>, previous: seq<Assignment>, o: string)
    requires o in modules && forall p | p in previous :: p.name != o
    ensures o in ImportPaths(modules, previous) && ImportPaths(modules, previous)[o] == modules[o]
  {
    if previous != [] {
      var init, last := previous[..|previous| - 1], previous[|previous| - 1];
      assert last in previous && forall p | p in init :: p in previous;
      PathOf(modules, init, o);
    }
  }

  /** A module that its earlier path does not hide is imported from where it is now, and is there. */
  lemma ImportLeads(f: Files, m: Manifest, sources: map<string, string>, c: Changes, member: string, from_: string)
    requires Stands(f, m, sources, c)
    requires var o := Owner(TablesOf(m), Origin(member), from_);
             o in sources && forall p | p in m.previous :: p.name != o
    ensures var t := TablesOf(m);
            var o := Owner(t, Origin(member), from_);
            var path := Target(t, Origin(member), from_);
            path in Carried(f, c).src && Carried(f, c).src[path] == Rewrite(t, sources[o])
  {
    var o := Owner(TablesOf(m), Origin(member), from_);
    TreeAfter(f, m, sources, c);
    PathOf(m.modules, m.previous, o);
    MovedAt(m, sources, o);
  }

  /**
   * In the tree afterwards, the file of every source binds what the source did, each member from the file that holds
   * its owner, unless an import line of the source cannot be rewritten faithfully.
   */
  lemma BindingsFollow(f: Files, m: Manifest, sources: map<string, string>, c: Changes, n: string)
    requires Stands(f, m, sources, c) && WellSpelled(m) && n in sources
    ensures n in m.modules && m.modules[n] in Carried(f, c).src
    ensures var t, text := TablesOf(m), Carried(f, c).src[m.modules[n]];
            && AfterHead(text) == AfterHead(sources[n])
            && (multiset(Bindings(text)) == multiset(RetargetAll(t, Bindings(sources[n])))
                  <==> !AnyBroken(t, HeadLines(sources[n])))
  {
    ManifestLexical(m);
    TreeAfter(f, m, sources, c);
    MovedAt(m, sources, n);
    BindingsMove(TablesOf(m), sources[n]);
  }

  /** A source or a CLI source, and its text in the tree afterwards. */
  ghost predicate TextAfter(f: Files, m: Manifest, sources: map<string, string>, c: Changes, n: string, text: string,
    after: string)
  {
    || (n in sources && n in m.modules && m.modules[n] in Carried(f, c).src
        && text == sources[n] && after == Carried(f, c).src[m.modules[n]])
    || (n in f.cli && n in Carried(f, c).cli && text == f.cli[n] && after == Carried(f, c).cli[n])
  }

  lemma AfterIsRewritten(f: Files, m: Manifest, sources: map<string, string>, c: Changes, n: string, text: string,
    after: string)
    requires Stands(f, m, sources, c) && TextAfter(f, m, sources, c, n, text, after)
    ensures after == Rewrite(TablesOf(m), text)
  {
    TreeAfter(f, m, sources, c);
    if n in sources && text == sources[n] {
      MovedAt(m, sources, n);
    }
  }

  /**
   * An import of a whole module by its name or an earlier path of it: afterwards the text binds the module, or its
   * default member, at the path assigned to it, and there its rewritten source is.
   */
  lemma WholeImportLeads(f: Files, m: Manifest, sources: map<string, string>, c: Changes, n: string, text: string,
    after: string, l: string) returns (o: string, u: Use)
    requires Stands(f, m, sources, c) && WellSpelled(m) && TextAfter(f, m, sources, c, n, text, after)
    requires l in HeadLines(text) && ParseNamed(l).None? && !Broken(TablesOf(m), l)
    requires ParseWhole(l).module_ in m.modules || exists p | p in m.previous :: p.name == ParseWhole(l).module_
    ensures o in m.modules
    ensures if exists p | p in m.previous :: p.name == ParseWhole(l).module_
            then Assignment(ParseWhole(l).module_, o) in m.previous else o == ParseWhole(l).module_
    ensures u in Bindings(after) && u.module_ == m.modules[o] && WholeBecomes(TablesOf(m), ParseWhole(l), u)
    ensures o in sources ==>
              m.modules[o] in Carried(f, c).src && Carried(f, c).src[m.modules[o]] == Rewrite(TablesOf(m), sources[o])
  {
    var k := ParseWhole(l).module_;
    PathsHold(m.modules, m.previous, k);
    o := PathFrom(m.modules, m.previous, k);
    ManifestLexical(m);
    AfterIsRewritten(f, m, sources, c, n, text, after);
    u := WholeImportMoves(TablesOf(m), text, l);
    TreeAfter(f, m, sources, c);
    if o in sources {
      MovedAt(m, sources, o);
    }
  }

  lemma {:induction false} PathsHold(modules: map<string, string>, previous: seq<Assignment>, k: string)
    ensures k in ImportPaths(modules, previous) <==> k in modules || exists p | p in previous :: p.name == k
  {
    if previous != [] {
      var init, last := previous[..|previous| - 1], previous[|previous| - 1];
      assert last in previous && forall p | p in previous :: p in init || p == last;
      PathsHold(modules, init, k);
    }
  }
}
