/**
 * Small trees on which a migration does not do what is said of it: no function stays in the checker, a source names
 * the checker by an earlier path, and an import has an empty member.
 */
module MigrationExamples {
  import opened Wrappers
  import opened TextSearch
  import opened WordSearch
  import opened TextLines
  import opened Relabeling
  import opened Grouping
  import opened ImportLines
  import opened ImportRewriting
  import opened ImportStability
  import opened ImportBindings
  import opened FunctionFragments
  import opened CheckerExtraction
  import opened ExtractionConserves
  import opened ExtractionRerun
  import opened ExtractionExamples
  import opened ExtractionCounts
  import opened LayoutMigration
  import opened MigratedTree
  import opened MigrationSettles
  import opened MigrationLinks
  import opened ImportResolution

  // Names.

  lemma {:induction false} RunFull(s: string)
    requires forall i | 0 <= i < |s| :: IsNameChar(s[i])
    ensures NameRun(s) == |s|
  {
    if s != "" {
      RunFull(s[1..]);
    }
  }

  lemma NameIsModule(s: string)
    requires NameValid(s)
    ensures IsModuleName(s) && IsModule(s)
  {
    ModuleNameReads(s);
  }

  lemma CheckerName()
    ensures NameValid(CHECKED)
  {
    var a, b := "checked_", "program";
    RunFull(b);
    NameRunConcat(a, b);
    assert a + b == CHECKED;
  }

  lemma {:induction false} NameRunConcat(a: string, b: string)
    requires (forall i | 0 <= i < |a| :: IsNameChar(a[i])) && NameRun(b) == |b|
    ensures NameRun(a + b) == |a + b|
  {
    if a == "" {
      assert a + b == b;
    } else {
      NameRunConcat(a[1..], b);
      assert (a + b)[1..] == a[1..] + b;
    }
  }

  lemma ShortNames()
    ensures NameValid("f") && NameValid("g") && NameValid("o") && NameValid("old") && NameValid("checker")
  {
    RunFull("f");
    RunFull("g");
    RunFull("o");
    RunFull("old");
    RunFull("checker");
  }

  /** Every name and every target is a single part. */
  predicate SinglePart(modules: map<string, string>)
  {
    Injective(modules) && forall n | n in modules :: NameValid(n) && NameValid(modules[n])
  }

  lemma SinglePartOk(modules: map<string, string>)
    requires SinglePart(modules)
    ensures AssignmentsOk(modules)
  {
    forall n | n in modules ensures IsModuleName(n) && IsModuleName(modules[n]) {
      NameIsModule(n);
      NameIsModule(modules[n]);
    }
  }

  // Planning for a tree that holds it alone.

  lemma {:induction false} NothingBlocks(path: string, n: nat)
    requires n <= |path|
    ensures !ParentBlocked(path, n, {})
  {
    if n > 0 {
      NothingBlocks(path, n - 1);
    }
  }

  /** A tree of one source, and perhaps CLI sources. */
  function Alone(path: string, text: string, cli: map<string, string>): Files
  {
    Files(map[path := text], {}, cli, {}, {})
  }

  lemma AloneLoads(m: Manifest, path: string, text: string)
    requires Injective(m.modules) && Original(m, path) == Some(CHECKED)
    ensures LoadOk(map[path := text], {}, m)
    ensures Placed(map[path := text], {}, m) == map[CHECKED := path]
    ensures Loaded(map[path := text], {}, m) == map[CHECKED := text]
  {
    var src := map[path := text];
    assert Originals(src.Keys, m) == map[path := CHECKED];
    PlacedAt(src, {}, m, path);
    forall n | n in Placed(src, {}, m) ensures n == CHECKED {
      PlacedFrom(src, {}, m, n);
    }
  }

  /** The checker goes by this path. */
  predicate CheckerAt(m: Manifest, path: string)
  {
    PreviousOwned(m) && SinglePart(m.modules) && Original(m, path) == Some(CHECKED)
  }

  /** Besides the checker there are only modules that functions move to, none of them at its path. */
  predicate OwnersOnly(m: Manifest, path: string)
  {
    && CHECKED in m.modules && m.modules.Keys - {CHECKED} <= NewOwners(m)
    && (forall n | n in m.modules && n != CHECKED :: m.modules[n] != path)
    && (forall a | a in m.owners :: a.owner in m.modules)
  }

  /** The assignments are of these functions, and not all stay. */
  predicate FitsNames(owners: seq<Assignment>, names: seq<string>)
  {
    StubNames(names) && NamesOf(owners) == ToSet(names) && NamesOf(owners) != Staying(owners)
  }

  lemma AloneExtracts(m: Manifest, path: string, names: seq<string>, files: map<string, string>) returns (e: Extraction)
    requires OwnersOnly(m, path) && FitsNames(m.owners, names) && files == map[CHECKED := Stubs(names)]
    ensures Extract(files, m.owners) == e && e.outcome.Extracted? && e.files.Keys <= m.modules.Keys
  {
    e := Extract(files, m.owners);
    StubsBare(names);
    assert !SomeOwnerExists(files, m.owners);
    BareExtracts(files, m.owners, names);
    ExtractConserves(files, m.owners);
    var out := e.files;
    var fs, key := Fragments(CheckerLines(files)), Assigned(AsMap(m.owners));
    AsMapKeys(m.owners);
    forall k | k in out ensures k in m.modules {
      if k !in files {
        UsedIsOwner(m.owners, fs, k);
      }
    }
  }

  lemma UsedIsOwner(owners: seq<Assignment>, fs: seq<Fragment>, k: string)
    requires k in KeysOf(fs, Assigned(AsMap(owners))) && ToSet(Names(fs)) == NamesOf(owners)
    ensures exists a | a in owners :: a.owner == k
  {
    HavingItems(fs, Assigned(AsMap(owners)), k);
    var f := Having(fs, Assigned(AsMap(owners)), k)[0];
    FragmentNamed(fs, f);
    AsMapKeys(owners);
    assert f.name in NamesOf(owners);
    AsMapFrom(owners, f.name);
  }

  lemma {:induction false} AsMapFrom(owners: seq<Assignment>, n: string)
    requires n in AsMap(owners)
    ensures exists a | a in owners :: a.owner == AsMap(owners)[n]
  {
    var init, last := owners[..|owners| - 1], owners[|owners| - 1];
    assert last in owners;
    if last.name != n {
      AsMapFrom(init, n);
      var a :| a in init && a.owner == AsMap(init)[n];
      assert a in owners;
    }
  }

  lemma LoadedPlanned(f: Files, m: Manifest, placed: map<string, string>, loaded: map<string, string>, e: Extraction)
    requires Injective(m.modules) && m.modules.Keys - loaded.Keys <= NewOwners(m)
    requires Extract(loaded, m.owners) == e && e.outcome.Extracted?
    requires DestinationsOk(f, m.modules, placed, e.files.Keys) && f.cliLinks == {}
    ensures PlanLoaded(f, m, placed, loaded).Planned?
  {
  }

  lemma AloneDestinations(f: Files, m: Manifest, path: string, placed: map<string, string>, names: set<string>)
    requires f.src.Keys == {path} && f.blocked == {} && placed == map[CHECKED := path] && names <= m.modules.Keys
    requires forall n | n in m.modules && n != CHECKED :: m.modules[n] != path
    ensures DestinationsOk(f, m.modules, placed, names)
  {
    forall n | n in names ensures DestinationOk(f, m.modules, placed, n) {
      NothingBlocks(m.modules[n], |m.modules[n]|);
    }
  }

  lemma PlanFrom(f: Files, m: Manifest, placed: map<string, string>, loaded: map<string, string>)
    requires PreviousOwned(m) && AssignmentsOk(m.modules) && LoadOk(f.src, f.srcLinks, m)
    requires Placed(f.src, f.srcLinks, m) == placed && Loaded(f.src, f.srcLinks, m) == loaded
    ensures PlanOf(f, m) == PlanLoaded(f, m, placed, loaded)
  {
  }

  lemma AlonePlans(f: Files, m: Manifest, path: string, names: seq<string>, placed: map<string, string>,
    loaded: map<string, string>)
    requires OwnersOnly(m, path) && Injective(m.modules) && FitsNames(m.owners, names)
    requires placed == map[CHECKED := path] && loaded == map[CHECKED := Stubs(names)]
    requires f.src.Keys == {path} && f.blocked == {} && f.cliLinks == {}
    ensures PlanLoaded(f, m, placed, loaded).Planned?
  {
    var e := AloneExtracts(m, path, names, loaded);
    AloneDestinations(f, m, path, placed, e.files.Keys);
    LoadedPlanned(f, m, placed, loaded, e);
  }

  lemma AlonePlanOf(f: Files, m: Manifest, path: string, text: string, placed: map<string, string>,
    loaded: map<string, string>)
    requires f.src == map[path := text] && f.srcLinks == {}
    requires placed == map[CHECKED := path] && loaded == map[CHECKED := text]
    requires CheckerAt(m, path)
    ensures PlanOf(f, m) == PlanLoaded(f, m, placed, loaded)
  {
    SinglePartOk(m.modules);
    AloneLoads(m, path, text);
    PlanFrom(f, m, placed, loaded);
  }

  // No function stays.

  /** The checker in its place, and the one function it has assigned to a module of its own. */
  function Emptied(name: string, owner: string): Manifest
  {
    Manifest(map[CHECKED := CHECKED, owner := owner], [Assignment(name, owner)], [], map[])
  }

  predicate FreshOwner(owner: string)
  {
    NameValid(owner) && owner != CHECKED && owner != LAMBDA
  }

  /** The checker at a target, and one module at its own path. */
  predicate TwoPaths(m: Manifest, target: string, owner: string)
  {
    m.modules.Keys == {CHECKED, owner} && m.modules[CHECKED] == target && m.modules[owner] == owner
  }

  lemma TwoModules(modules: map<string, string>, checker: string, target: string, owner: string)
    requires modules.Keys == {checker, owner} && checker != owner && target != owner
    requires modules[checker] == target && modules[owner] == owner
    requires NameValid(checker) && NameValid(target) && NameValid(owner)
    ensures SinglePart(modules)
  {
  }

  lemma TwoOwners(m: Manifest, target: string, owner: string, path: string)
    requires TwoPaths(m, target, owner) && owner in NewOwners(m) && owner != path
    requires forall a | a in m.owners :: a.owner == CHECKED || a.owner == owner
    ensures OwnersOnly(m, path)
  {
  }

  lemma OwnerMoves(owners: seq<Assignment>, m: Manifest, i: nat, owner: string)
    requires m.owners == owners && i < |owners| && owners[i].owner == owner && FreshOwner(owner)
    ensures owner in NewOwners(m)
  {
    assert owners[i] in owners;
  }

  lemma EmptiedNames(owners: seq<Assignment>, name: string, owner: string)
    requires NameValid(name) && FreshOwner(owner) && owners == [Assignment(name, owner)]
    ensures FitsNames(owners, [name]) && !SomeStay(owners) && DistinctNames(owners)
  {
    assert owners[0] in owners && owners[0].name == name;
    assert [name][0] in [name];
    assert name in NamesOf(owners) && name !in Staying(owners);
  }

  /** When nothing stays, an extraction leaves something to do. */
  lemma NoneStayUnsettles(f: Files, m: Manifest, c: Changes, loaded: map<string, string>)
    requires PlanOf(f, m) == Planned(c) && LinksAreSources(f) && WellSpelled(m) && DistinctNames(m.owners)
    requires TargetsStand(m) && LoadOk(f.src, f.srcLinks, m) && Loaded(f.src, f.srcLinks, m) == loaded
    requires Extract(loaded, m.owners).outcome.Extracted? && !SomeStay(m.owners)
    ensures PlanOf(Carried(f, c), m) != Planned(NOTHING)
  {
    StandingTargetsIdempotent(f, m, c);
  }

  lemma TwoSingle(m: Manifest, target: string, owner: string)
    requires TwoPaths(m, target, owner) && FreshOwner(owner) && target != owner
    requires target == CHECKED || NameValid(target)
    ensures SinglePart(m.modules)
  {
    CheckerName();
    TwoModules(m.modules, CHECKED, target, owner);
  }

  /** A manifest with one function, that moves. */
  predicate OneMoves(m: Manifest, name: string, owner: string)
  {
    && TwoPaths(m, CHECKED, owner) && m.previous == [] && m.owners == [Assignment(name, owner)] && m.defaults == map[]
    && NameValid(name) && FreshOwner(owner)
  }

  lemma EmptiedShape(m: Manifest, name: string, owner: string)
    requires m == Emptied(name, owner) && NameValid(name) && FreshOwner(owner)
    ensures OneMoves(m, name, owner)
  {
  }

  lemma EmptiedAt(m: Manifest, name: string, owner: string)
    requires OneMoves(m, name, owner)
    ensures CheckerAt(m, CHECKED)
  {
    TwoSingle(m, CHECKED, owner);
  }

  lemma EmptiedStands(m: Manifest, name: string, owner: string)
    requires OneMoves(m, name, owner)
    ensures TargetsStand(m)
  {
  }

  lemma EmptiedOwners(m: Manifest, name: string, owner: string)
    requires OneMoves(m, name, owner)
    ensures OwnersOnly(m, CHECKED)
  {
    OwnerMoves(m.owners, m, 0, owner);
    TwoOwners(m, CHECKED, owner, CHECKED);
  }

  lemma EmptiedPlanOf(f: Files, m: Manifest, name: string, owner: string, text: string, placed: map<string, string>,
    loaded: map<string, string>)
    requires OneMoves(m, name, owner) && placed == map[CHECKED := CHECKED] && loaded == map[CHECKED := text]
    requires f.src == map[CHECKED := text] && f.srcLinks == {}
    ensures PlanOf(f, m) == PlanLoaded(f, m, placed, loaded)
  {
    EmptiedAt(m, name, owner);
    AlonePlanOf(f, m, CHECKED, text, placed, loaded);
  }

  lemma EmptiedPlans(f: Files, m: Manifest, name: string, owner: string, placed: map<string, string>,
    loaded: map<string, string>)
    requires OneMoves(m, name, owner) && Injective(m.modules)
    requires placed == map[CHECKED := CHECKED] && loaded == map[CHECKED := Stubs([name])]
    requires f.src.Keys == {CHECKED} && f.blocked == {} && f.cliLinks == {}
    ensures PlanLoaded(f, m, placed, loaded).Planned?
  {
    EmptiedOwners(m, name, owner);
    EmptiedNames(m.owners, name, owner);
    AlonePlans(f, m, CHECKED, [name], placed, loaded);
  }

  lemma EmptiedInjective(m: Manifest, name: string, owner: string)
    requires OneMoves(m, name, owner)
    ensures Injective(m.modules)
  {
  }

  lemma EmptiedPlanned(f: Files, m: Manifest, name: string, owner: string, placed: map<string, string>,
    loaded: map<string, string>)
    requires OneMoves(m, name, owner)
    requires placed == map[CHECKED := CHECKED] && loaded == map[CHECKED := Stubs([name])]
    requires f.src.Keys == {CHECKED} && f.src == map[CHECKED := Stubs([name])]
    requires f.srcLinks == {} && f.blocked == {} && f.cliLinks == {}
    ensures PlanOf(f, m).Planned?
  {
    EmptiedInjective(m, name, owner);
    EmptiedPlanOf(f, m, name, owner, Stubs([name]), placed, loaded);
    EmptiedPlans(f, m, name, owner, placed, loaded);
  }

  lemma EmptiedLoaded(f: Files, m: Manifest, name: string, owner: string, text: string, loaded: map<string, string>)
    requires OneMoves(m, name, owner) && loaded == map[CHECKED := text]
    requires f.src == map[CHECKED := text] && f.srcLinks == {}
    ensures Injective(m.modules) && LoadOk(f.src, f.srcLinks, m) && Loaded(f.src, f.srcLinks, m) == loaded
  {
    EmptiedAt(m, name, owner);
    AloneLoads(m, CHECKED, text);
  }

  lemma EmptiedExtracted(m: Manifest, name: string, owner: string, loaded: map<string, string>)
    requires OneMoves(m, name, owner) && loaded == map[CHECKED := Stubs([name])]
    ensures Extract(loaded, m.owners).outcome.Extracted?
  {
    EmptiedOwners(m, name, owner);
    EmptiedNames(m.owners, name, owner);
    var e := AloneExtracts(m, CHECKED, [name], loaded);
  }

  lemma EmptiedSpelled(m: Manifest, name: string, owner: string)
    requires OneMoves(m, name, owner)
    ensures WellSpelled(m) && DistinctNames(m.owners) && !SomeStay(m.owners)
  {
    NameIsModule(owner);
  }

  lemma EmptiedAgain(f: Files, m: Manifest, c: Changes, name: string, owner: string, loaded: map<string, string>)
    requires PlanOf(f, m) == Planned(c) && OneMoves(m, name, owner) && f.srcLinks == {}
    requires Injective(m.modules) && LoadOk(f.src, f.srcLinks, m) && Loaded(f.src, f.srcLinks, m) == loaded
    requires Extract(loaded, m.owners).outcome.Extracted?
    ensures PlanOf(Carried(f, c), m) != Planned(NOTHING)
  {
    EmptiedSpelled(m, name, owner);
    EmptiedStands(m, name, owner);
    NoneStayUnsettles(f, m, c, loaded);
  }

  /**
   * A checker of one function, assigned elsewhere: the migration is planned, and after it there is something left to do
   * again, because the checker keeps all of its text beside the copy.
   */
  lemma EmptiedUnsettled(f: Files, m: Manifest, name: string, owner: string)
    requires NameValid(name) && FreshOwner(owner)
    requires m == Emptied(name, owner) && f == Alone(CHECKED, Stubs([name]), map[])
    ensures TargetsStand(m) && PlanOf(f, m).Planned?
    ensures PlanOf(Carried(f, PlanOf(f, m).changes), m) != Planned(NOTHING)
  {
    var loaded, placed := map[CHECKED := Stubs([name])], map[CHECKED := CHECKED];
    EmptiedShape(m, name, owner);
    EmptiedStands(m, name, owner);
    assert f.src.Keys == {CHECKED};
    EmptiedPlanned(f, m, name, owner, placed, loaded);
    EmptiedLoaded(f, m, name, owner, Stubs([name]), loaded);
    EmptiedExtracted(m, name, owner, loaded);
    EmptiedAgain(f, m, PlanOf(f, m).changes, name, owner, loaded);
  }

  // A function is asked for by an earlier path of the checker.

  /** The checker, which goes by an earlier path, moves to a target; one function moves to a module, and one stays. */
  predicate OneStays(m: Manifest, name: string, stays: string, owner: string, old_: string, target: string)
  {
    && TwoPaths(m, target, owner) && m.previous == [Assignment(old_, CHECKED)] && m.defaults == map[]
    && m.owners == [Assignment(name, owner), Assignment(stays, CHECKED)]
    && NameValid(name) && NameValid(stays) && name != stays
    && FreshOwner(owner) && NameValid(target) && target != CHECKED && target != owner
    && old_ != CHECKED && old_ != owner && old_ != target && IsModule(old_)
  }

  function Left(name: string, stays: string, owner: string, old_: string, target: string): Manifest
  {
    Manifest(map[CHECKED := target, owner := owner], [Assignment(name, owner), Assignment(stays, CHECKED)],
      [Assignment(old_, CHECKED)], map[])
  }

  lemma StaysShape(name: string, stays: string, owner: string, old_: string, target: string)
    requires NameValid(name) && NameValid(stays) && name != stays
    requires FreshOwner(owner) && NameValid(target) && target != CHECKED && target != owner
    requires old_ != CHECKED && old_ != owner && old_ != target && IsModule(old_)
    ensures OneStays(Left(name, stays, owner, old_, target), name, stays, owner, old_, target)
  {
  }

  lemma EarlierPath(m: Manifest, old_: string)
    requires m.previous == [Assignment(old_, CHECKED)] && Injective(m.modules)
    requires old_ !in m.modules && forall n | n in m.modules :: m.modules[n] != old_
    ensures Original(m, old_) == Some(CHECKED)
  {
    assert AsMap(m.previous)[old_] == CHECKED;
    if old_ in Reverse(m.modules) {
      ReverseFrom(m.modules, old_);
    }
  }

  lemma StaysOriginal(m: Manifest, name: string, stays: string, owner: string, old_: string, target: string)
    requires OneStays(m, name, stays, owner, old_, target)
    ensures PreviousOwned(m) && Injective(m.modules) && Original(m, old_) == Some(CHECKED)
  {
    EarlierPath(m, old_);
  }

  lemma StaysAt(m: Manifest, name: string, stays: string, owner: string, old_: string, target: string)
    requires OneStays(m, name, stays, owner, old_, target)
    ensures CheckerAt(m, old_)
  {
    StaysOriginal(m, name, stays, owner, old_, target);
    TwoSingle(m, target, owner);
  }

  lemma StaysOwners(m: Manifest, name: string, stays: string, owner: string, old_: string, target: string)
    requires OneStays(m, name, stays, owner, old_, target)
    ensures OwnersOnly(m, old_)
  {
    OwnerMoves(m.owners, m, 0, owner);
    TwoOwners(m, target, owner, old_);
  }

  lemma StaysStands(m: Manifest, name: string, stays: string, owner: string, old_: string, target: string)
    requires OneStays(m, name, stays, owner, old_, target)
    ensures TargetsStand(m)
  {
  }

  lemma StaysNames(owners: seq<Assignment>, name: string, stays: string, owner: string)
    requires owners == [Assignment(name, owner), Assignment(stays, CHECKED)] && owner != CHECKED && name != stays
    requires NameValid(name) && NameValid(stays)
    ensures FitsNames(owners, [name, stays]) && SomeStay(owners) && DistinctNames(owners)
  {
    var names := [name, stays];
    assert owners[0] in owners && owners[1] in owners && names[0] in names && names[1] in names;
    assert name in NamesOf(owners) && name !in Staying(owners);
  }

  lemma CheckerModule()
    ensures IsModule(CHECKED)
  {
    CheckerName();
    NameIsModule(CHECKED);
  }

  lemma TwoOwned(owners: seq<Assignment>, a: Assignment, b: Assignment)
    requires owners == [a, b] && IsModule(a.owner) && IsModule(b.owner)
    ensures forall x | x in owners :: IsModule(x.owner)
  {
  }

  lemma StaysOwned(owners: seq<Assignment>, name: string, stays: string, owner: string)
    requires owners == [Assignment(name, owner), Assignment(stays, CHECKED)] && NameValid(owner)
    ensures forall x | x in owners :: IsModule(x.owner)
  {
    CheckerModule();
    NameIsModule(owner);
    TwoOwned(owners, Assignment(name, owner), Assignment(stays, CHECKED));
  }

  lemma StaysSpelled(m: Manifest, old_: string)
    requires (forall x | x in m.owners :: IsModule(x.owner)) && m.defaults == map[]
    requires m.previous == [Assignment(old_, CHECKED)] && IsModule(old_)
    ensures WellSpelled(m)
  {
  }

  lemma StaysPlanOf(f: Files, m: Manifest, name: string, stays: string, owner: string, old_: string, target: string,
    text: string, placed: map<string, string>, loaded: map<string, string>)
    requires OneStays(m, name, stays, owner, old_, target)
    requires placed == map[CHECKED := old_] && loaded == map[CHECKED := text]
    requires f.src == map[old_ := text] && f.srcLinks == {}
    ensures PlanOf(f, m) == PlanLoaded(f, m, placed, loaded)
  {
    StaysAt(m, name, stays, owner, old_, target);
    AlonePlanOf(f, m, old_, text, placed, loaded);
  }

  lemma StaysPlans(f: Files, m: Manifest, name: string, stays: string, owner: string, old_: string, target: string,
    placed: map<string, string>, loaded: map<string, string>)
    requires OneStays(m, name, stays, owner, old_, target) && Injective(m.modules)
    requires placed == map[CHECKED := old_] && loaded == map[CHECKED := Stubs([name, stays])]
    requires f.src.Keys == {old_} && f.blocked == {} && f.cliLinks == {}
    ensures PlanLoaded(f, m, placed, loaded).Planned?
  {
    StaysOwners(m, name, stays, owner, old_, target);
    StaysNames(m.owners, name, stays, owner);
    AlonePlans(f, m, old_, [name, stays], placed, loaded);
  }

  lemma StaysPlanned(f: Files, m: Manifest, name: string, stays: string, owner: string, old_: string, target: string,
    text: string, placed: map<string, string>, loaded: map<string, string>)
    requires OneStays(m, name, stays, owner, old_, target) && text == Stubs([name, stays])
    requires placed == map[CHECKED := old_] && loaded == map[CHECKED := text]
    requires f.src.Keys == {old_} && f.src == map[old_ := text]
    requires f.srcLinks == {} && f.blocked == {} && f.cliLinks == {}
    ensures PlanOf(f, m).Planned?
  {
    assert Injective(m.modules);
    StaysPlanOf(f, m, name, stays, owner, old_, target, text, placed, loaded);
    StaysPlans(f, m, name, stays, owner, old_, target, placed, loaded);
  }

  lemma StaysStrays(m: Manifest, name: string, stays: string, owner: string, old_: string, target: string)
    requires OneStays(m, name, stays, owner, old_, target)
    ensures Injective(m.modules) && Strays(m, name, old_)
  {
    StaysOriginal(m, name, stays, owner, old_, target);
    StaysNames(m.owners, name, stays, owner);
    NameIsOrigin(name);
    OwnerIs(m.owners, m.owners[0]);
    AsMapKeys(m.owners);
    assert name in NamesOf(m.owners);
  }

  lemma StubResolves(src: map<string, string>, path: string, names: seq<string>, name: string)
    requires StubNames(names) && name in names && src == map[path := Stubs(names)]
    ensures Resolves(src, name, path)
  {
    NameIsOrigin(name);
    StubsText(names);
    StubsDeclare(names);
  }

  lemma StrayedAway(f: Files, m: Manifest, c: Changes, name: string, path: string)
    requires PlanOf(f, m) == Planned(c) && WellSpelled(m) && DistinctNames(m.owners) && TargetsStand(m)
    requires Resolves(f.src, name, path) && Injective(m.modules) && Strays(m, name, path)
    ensures !Resolves(Carried(f, c).src, name, Target(TablesOf(m), Origin(name), path))
  {
    var sources := PlanStands(f, m, c);
    StillResolves(f, m, sources, c, name, path);
  }

  /**
   * An import of a moved function by an earlier path of the checker resolves in the tree; the migration is planned; and
   * in the tree afterwards the import, rewritten, leads to a file that does not declare the function.
   */
  lemma EarlierPathStrays(f: Files, m: Manifest, name: string, stays: string, owner: string, old_: string,
    target: string)
    requires OneStays(m, name, stays, owner, old_, target)
    requires f.src == map[old_ := Stubs([name, stays])] && f.srcLinks == {} && f.blocked == {} && f.cliLinks == {}
    ensures PlanOf(f, m).Planned? && Resolves(f.src, name, old_)
    ensures !Resolves(Carried(f, PlanOf(f, m).changes).src, name, Target(TablesOf(m), Origin(name), old_))
  {
    var text := Stubs([name, stays]);
    assert f.src.Keys == {old_};
    StaysPlanned(f, m, name, stays, owner, old_, target, text, map[CHECKED := old_], map[CHECKED := text]);
    StaysNames(m.owners, name, stays, owner);
    assert [name, stays][0] == name;
    StubResolves(f.src, old_, [name, stays], name);
    StaysStrays(m, name, stays, owner, old_, target);
    StaysOwned(m.owners, name, stays, owner);
    StaysSpelled(m, old_);
    StaysStands(m, name, stays, owner, old_, target);
    StrayedAway(f, m, PlanOf(f, m).changes, name, old_);
  }

  /** A CLI source with such an import does not keep its imports. */
  lemma CliStrays(f: Files, m: Manifest, c: Changes, p: string, name: string, path: string)
    requires PlanOf(f, m) == Planned(c) && WellSpelled(m) && DistinctNames(m.owners) && TargetsStand(m)
    requires Resolves(f.src, name, path) && Injective(m.modules) && Strays(m, name, path)
    requires p in f.cli && f.cli[p] == ImportOf(name, path) && NameValid(name) && IsModule(path)
    ensures p in Carried(f, c).cli && !ImportsKept(f, m, c, f.cli[p], Carried(f, c).cli[p])
  {
    var sources := PlanStands(f, m, c);
    ImportBinds(name, path);
    var u := Member(name, path, "");
    assert u in Bindings(f.cli[p]) && Known(f, m, u);
    CliImportsFollow(f, m, sources, c, p);
  }

  // An import with an empty member.

  function AfterEmpty(name: string): string
  {
    COMMA + name
  }

  lemma AfterEmptySplits(name: string)
    requires NameValid(name)
    ensures Split(COMMA, AfterEmpty(name)) == ["", name]
    ensures Lacks("}", AfterEmpty(name)) && NoNewline(AfterEmpty(name))
  {
    var parts := ["", name];
    ValidIsWord(name);
    WordLacks(name, COMMA, 0);
    WordLacks("", COMMA, 0);
    SplitJoin(COMMA, parts);
    assert Join(COMMA, parts) == AfterEmpty(name);
    var s := AfterEmpty(name);
    assert forall i | 0 <= i < |s| :: s[i] != '}' && s[i] != '\n';
    forall j | 0 <= j <= |s| ensures !At("}", s, j) {
      if j + 1 <= |s| {
        assert s[j..j + 1][0] == s[j];
      }
    }
    FindNone("}", s);
  }

  lemma OneRegrouped(t: Tables, member: string, m: string)
    ensures Regrouped(t, [member], m) == [Group(Target(t, Origin(member), m), [member])]
  {
    assert [member][..0] == [];
  }

  lemma LeftAlone(t: Tables, name: string)
    requires Target(t, Origin(name), CHECKED) != Target(t, Origin(""), CHECKED)
    ensures AnyEmpty(Regrouped(t, ["", name], CHECKED))
  {
    var members := ["", name];
    assert members[..1] == [""];
    OneRegrouped(t, "", CHECKED);
    var first := Group(Target(t, Origin(""), CHECKED), [""]);
    assert Regrouped(t, members, CHECKED)[0] == first;
    assert first in Regrouped(t, members, CHECKED);
  }

  /**
   * An import of an empty member and a checker function that has moved from where the checker is: rewriting leaves the
   * empty member alone on its line, which is then no named import, and the bindings are not kept.
   */
  lemma EmptyMemberBreaks(t: Tables, name: string)
    requires Lexical(t) && NameValid(name)
    requires Target(t, Origin(name), CHECKED) != Target(t, Origin(""), CHECKED)
    ensures var text := ImportOf(AfterEmpty(name), CHECKED);
            && HeadLines(text) == [PrintLine(Named(AfterEmpty(name), CHECKED, ""))]
            && AnyBroken(t, HeadLines(text))
            && multiset(Bindings(Rewrite(t, text))) != multiset(RetargetAll(t, Bindings(text)))
  {
    var text := ImportOf(AfterEmpty(name), CHECKED);
    CheckerModule();
    ModuleNoNewline(CHECKED);
    AfterEmptySplits(name);
    ImportReads(AfterEmpty(name), CHECKED);
    LeftAlone(t, name);
    BindingsMove(t, text);
  }

  /** There are such names, and such a manifest. */
  lemma Instances()
    ensures NameValid("f") && NameValid("g") && FreshOwner("o") && IsModule("o") && IsModule("old")
    ensures OneStays(Left("f", "g", "o", "old", "checker"), "f", "g", "o", "old", "checker")
    ensures var t := Tables(map[], map["f" := "o"], map[]);
            Lexical(t) && Target(t, Origin("f"), CHECKED) != Target(t, Origin(""), CHECKED)
  {
    ShortNames();
    NameIsModule("old");
    NameIsModule("o");
    NameIsOrigin("f");
    assert "o"[0] == 'o' && LAMBDA[0] == 'l' && CHECKED[0] == 'c' && "old"[0] == 'o' && |"checker"| == 7;
    StaysShape("f", "g", "o", "old", "checker");
  }
}
