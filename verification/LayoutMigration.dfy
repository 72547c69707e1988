/** Planning the moves of a compiler tree from its original layout to the assigned one, and carrying them out. */
module LayoutMigration {
  import opened Wrappers
  import opened TextSearch
  import opened TextLines
  import opened Relabeling
  import opened ImportLines
  import opened ImportRewriting
  import opened FunctionFragments
  import opened CheckerExtraction

  /** Assigned paths, checker functions with their owners, earlier paths with theirs, and names of default imports. */
  datatype Manifest = Manifest(
    modules: map<string, string>, owners: seq<Assignment>, previous: seq<Assignment>, defaults: map<string, string>)

  /**
   * The compiler sources and CLI sources by their paths without suffix, which of them are links, and what else in the
   * source directory is no directory and so can be nobody's parent.
   */
  datatype Files = Files(src: map<string, string>, srcLinks: set<string>, cli: map<string, string>,
    cliLinks: set<string>, blocked: set<string>)

  datatype Changes = Changes(writes: map<string, string>, removals: set<string>, cliWrites: map<string, string>)

  datatype Failure =
    | UnownedPrevious
    | BadAssignments
    | BadSource
    | MissingModules
    | BadExtraction(reason: Reason)
    | BadDestination
    | BadCli

  datatype Plan = Planned(changes: Changes) | Refused(failure: Failure)

  // The manifest.

  /** Names joined by slashes. */
  predicate IsModuleName(s: string)
  {
    s != "" && IsLower(s[0])
    && var n := NameRun(s); n == |s| || (s[n] == '/' && IsModuleName(s[n + 1..]))
  }

  predicate AssignmentsOk(modules: map<string, string>)
  {
    (forall n | n in modules :: IsModuleName(n) && IsModuleName(modules[n])) && Injective(modules)
  }

  predicate PreviousOwned(m: Manifest)
  {
    forall p | p in m.previous :: p.owner in m.modules
  }

  function ImportPaths(modules: map<string, string>, previous: seq<Assignment>): map<string, string>
  {
    if previous == [] then modules
    else
      var last := previous[|previous| - 1];
      ImportPaths(modules, previous[..|previous| - 1])[last.name := Lookup(modules, last.owner)]
  }

  /** An earlier path takes over the default name of its owner. */
  function Defaults(defaults: map<string, string>, previous: seq<Assignment>): map<string, string>
  {
    if previous == [] then defaults
    else
      var last := previous[|previous| - 1];
      var d := Defaults(defaults, previous[..|previous| - 1]);
      if last.owner in d then d[last.name := d[last.owner]] else d
  }

  function TablesOf(m: Manifest): Tables
  {
    Tables(ImportPaths(m.modules, m.previous), AsMap(m.owners), Defaults(m.defaults, m.previous))
  }

  // Loading.

  /** The original name of the source at a path: the path itself, what is assigned to it, or what it was before. */
  function Original(m: Manifest, path: string): Option<string>
    requires Injective(m.modules)
  {
    if path in m.modules then Some(path)
    else if path in Reverse(m.modules) then Some(Reverse(m.modules)[path])
    else if path in AsMap(m.previous) then Some(AsMap(m.previous)[path])
    else None
  }

  /** The paths that have an original name, with it. */
  function Originals(paths: set<string>, m: Manifest): map<string, string>
    requires Injective(m.modules)
  {
    map p | p in paths && Original(m, p).Some? :: Original(m, p).value
  }

  /** Every source has an original name, no two the same, and none is a link. */
  predicate LoadOk(src: map<string, string>, links: set<string>, m: Manifest)
    requires Injective(m.modules)
  {
    src.Keys <= Originals(src.Keys, m).Keys && Injective(Originals(src.Keys, m)) && src.Keys !! links
  }

  /** Where each source is found, by its original name. */
  function Placed(src: map<string, string>, links: set<string>, m: Manifest): map<string, string>
    requires Injective(m.modules) && LoadOk(src, links, m)
  {
    Reverse(Originals(src.Keys, m))
  }

  /** The sources by their original names. */
  function Loaded(src: map<string, string>, links: set<string>, m: Manifest): map<string, string>
    requires Injective(m.modules) && LoadOk(src, links, m)
  {
    Via(src, Placed(src, links, m))
  }

  function NewOwners(m: Manifest): set<string>
  {
    set a | a in m.owners && a.owner != CHECKED && a.owner != LAMBDA :: a.owner
  }

  // Moving.

  /** Whether some parent of a path, going up from a length of it, is in the way. */
  predicate ParentBlocked(path: string, n: nat, blocked: set<string>)
    requires n <= |path|
  {
    n > 0 && ((path[n - 1] == '/' && path[..n - 1] in blocked) || ParentBlocked(path, n - 1, blocked))
  }

  predicate DestinationOk(f: Files, modules: map<string, string>, placed: map<string, string>, name: string)
  {
    && name in modules
    && (modules[name] in f.src ==> name in placed && placed[name] == modules[name])
    && !ParentBlocked(modules[name], |modules[name]|, f.blocked)
  }

  predicate DestinationsOk(f: Files, modules: map<string, string>, placed: map<string, string>, names: set<string>)
  {
    forall n | n in names :: DestinationOk(f, modules, placed, n)
  }

  function Rewritten(t: Tables, files: map<string, string>): (contents: map<string, string>)
    ensures contents.Keys == files.Keys
  {
    map n | n in files :: Rewrite(t, files[n])
  }

  /** Whether a path gets a source that was not there, or has changed. */
  predicate Writes(src: map<string, string>, placed: map<string, string>, name: string, path: string, content: string)
  {
    name !in placed || placed[name] != path || path !in src || content != src[path]
  }

  function WritesOf(src: map<string, string>, back: map<string, string>, placed: map<string, string>,
    contents: map<string, string>): map<string, string>
  {
    map p | p in back && back[p] in contents && Writes(src, placed, back[p], p, contents[back[p]]) :: contents[back[p]]
  }

  function RemovalsOf(modules: map<string, string>, placed: map<string, string>, names: set<string>): set<string>
    requires names <= modules.Keys
  {
    set n | n in names && n in placed && placed[n] != modules[n] :: placed[n]
  }

  function CliWrites(cli: map<string, string>, contents: map<string, string>): map<string, string>
  {
    map p | p in contents && p in cli && contents[p] != cli[p] :: contents[p]
  }

  function MoveChanges(f: Files, m: Manifest, placed: map<string, string>, sources: map<string, string>): Changes
    requires Injective(m.modules) && DestinationsOk(f, m.modules, placed, sources.Keys)
  {
    var t := TablesOf(m);
    Changes(
      WritesOf(f.src, Reverse(m.modules), placed, Rewritten(t, sources)),
      RemovalsOf(m.modules, placed, sources.Keys),
      CliWrites(f.cli, Rewritten(t, f.cli)))
  }

  function PlanMoves(f: Files, m: Manifest, placed: map<string, string>, sources: map<string, string>): Plan
    requires Injective(m.modules)
  {
    if !DestinationsOk(f, m.modules, placed, sources.Keys) then Refused(BadDestination)
    else if f.cli.Keys !! f.cliLinks then Planned(MoveChanges(f, m, placed, sources))
    else Refused(BadCli)
  }

  function PlanLoaded(f: Files, m: Manifest, placed: map<string, string>, sources: map<string, string>): Plan
    requires Injective(m.modules)
  {
    if !(m.modules.Keys - sources.Keys <= NewOwners(m)) then Refused(MissingModules)
    else
      var e := Extract(sources, m.owners);
      if e.outcome.Rejected? then Refused(BadExtraction(e.outcome.reason)) else PlanMoves(f, m, placed, e.files)
  }

  function PlanOf(f: Files, m: Manifest): Plan
  {
    if !PreviousOwned(m) then Refused(UnownedPrevious)
    else if !AssignmentsOk(m.modules) then Refused(BadAssignments)
    else if !LoadOk(f.src, f.srcLinks, m) then Refused(BadSource)
    else PlanLoaded(f, m, Placed(f.src, f.srcLinks, m), Loaded(f.src, f.srcLinks, m))
  }

  function Carried(f: Files, c: Changes): Files
  {
    f.(src := f.src + c.writes - c.removals, cli := f.cli + c.cliWrites)
  }

  /** The tree that the migration works on. */
  class Tree {
    var src: map<string, string>
    const srcLinks: set<string>
    var cli: map<string, string>
    const cliLinks: set<string>
    const blocked: set<string>

    constructor (f: Files)
      ensures Now() == f
    {
      src, srcLinks, cli, cliLinks, blocked := f.src, f.srcLinks, f.cli, f.cliLinks, f.blocked;
    }

    function Now(): Files
      reads this
    {
      Files(src, srcLinks, cli, cliLinks, blocked)
    }

    /** Names every source by its original name, in any order of the paths. */
    method Load(m: Manifest) returns (ok: bool, sources: map<string, string>, placed: map<string, string>)
      requires Injective(m.modules)
      ensures ok <==> LoadOk(src, srcLinks, m)
      ensures ok ==> sources == Loaded(src, srcLinks, m) && placed == Placed(src, srcLinks, m)
    {
      sources, placed := map[], map[];
      var todo := src.Keys;
      ghost var names := Originals(src.Keys, m);
      while todo != {}
        invariant todo <= src.Keys
        invariant LoadedSoFar(names, src, todo, srcLinks, sources, placed)
        decreases |todo|
      {
        var p :| p in todo;
        var original := Original(m, p);
        if original.None? || p in srcLinks {
          return false, map[], map[];
        }
        if original.value in sources {
          CollisionFound(names, src, todo, srcLinks, sources, placed, p);
          return false, map[], map[];
        }
        LoadStep(names, src, todo, srcLinks, sources, placed, p);
        sources := sources[original.value := src[p]];
        placed := placed[original.value := p];
        todo := todo - {p};
      }
      LoadDone(names, src, srcLinks, sources, placed);
      ok := true;
    }

    method PlanMigration(m: Manifest) returns (plan: Plan)
      ensures plan == PlanOf(Now(), m)
    {
      if exists p | p in m.previous :: p.owner !in m.modules {
        return Refused(UnownedPrevious);
      }
      if !AssignmentsOk(m.modules) {
        return Refused(BadAssignments);
      }
      var ok, sources, placed := Load(m);
      if !ok {
        return Refused(BadSource);
      }
      if !(m.modules.Keys - sources.Keys <= NewOwners(m)) {
        return Refused(MissingModules);
      }
      var working := new Sources(sources);
      var outcome := working.ExtractChecker(m.owners);
      if outcome.Rejected? {
        return Refused(BadExtraction(outcome.reason));
      }
      plan := PlanFiles(m, placed, working.files);
    }

    method PlanFiles(m: Manifest, placed: map<string, string>, sources: map<string, string>) returns (plan: Plan)
      requires Injective(m.modules)
      ensures plan == PlanMoves(Now(), m, placed, sources)
    {
      var ok, writes, removals := PlanSources(Now(), m.modules, TablesOf(m), placed, sources);
      if !ok {
        return Refused(BadDestination);
      }
      var cliOk, cliWrites := PlanCli(TablesOf(m));
      plan := if cliOk then Planned(Changes(writes, removals, cliWrites)) else Refused(BadCli);
    }

    /** One source: its checks, and what it adds to the plan. */
    static method PlanOne(f: Files, modules: map<string, string>, t: Tables, placed: map<string, string>, n: string,
      text: string, ghost contents: map<string, string>, ghost todo: set<string>,
      writes: map<string, string>, removals: set<string>)
      returns (ok: bool, nextWrites: map<string, string>, nextRemovals: set<string>)
      requires Injective(modules) && n in todo && n in contents && contents[n] == Rewrite(t, text)
      requires PlannedSoFar(f, modules, Reverse(modules), placed, contents, todo, writes, removals)
      ensures !ok ==> !DestinationsOk(f, modules, placed, contents.Keys)
      ensures ok ==> PlannedSoFar(f, modules, Reverse(modules), placed, contents, todo - {n}, nextWrites, nextRemovals)
    {
      ok, nextWrites, nextRemovals := DestinationOk(f, modules, placed, n), writes, removals;
      if !ok {
        return;
      }
      var content := RewriteImports(t, text);
      ReverseAt(modules, n);
      PlanStep(f, modules, Reverse(modules), placed, contents, todo, writes, removals, n);
      if Writes(f.src, placed, n, modules[n], content) {
        nextWrites := writes[modules[n] := content];
      }
      if n in placed && placed[n] != modules[n] {
        nextRemovals := removals + {placed[n]};
      }
    }

    /** The moves of all sources, in any order. */
    static method PlanSources(f: Files, modules: map<string, string>, t: Tables, placed: map<string, string>,
      sources: map<string, string>)
      returns (ok: bool, writes: map<string, string>, removals: set<string>)
      requires Injective(modules)
      ensures ok <==> DestinationsOk(f, modules, placed, sources.Keys)
      ensures ok ==> writes == WritesOf(f.src, Reverse(modules), placed, Rewritten(t, sources))
      ensures ok ==> removals == RemovalsOf(modules, placed, sources.Keys)
    {
      writes, removals := map[], {};
      var todo := sources.Keys;
      ghost var contents := Rewritten(t, sources);
      PlanStart(f, modules, Reverse(modules), placed, contents);
      while todo != {}
        invariant todo <= sources.Keys
        invariant PlannedSoFar(f, modules, Reverse(modules), placed, contents, todo, writes, removals)
        decreases |todo|
      {
        var n :| n in todo;
        ok, writes, removals := PlanOne(f, modules, t, placed, n, sources[n], contents, todo, writes, removals);
        if !ok {
          return;
        }
        todo := todo - {n};
      }
      PlanDone(f, modules, Reverse(modules), placed, contents, writes, removals);
      ok := true;
    }

    method PlanCli(t: Tables) returns (ok: bool, writes: map<string, string>)
      ensures ok <==> cli.Keys !! cliLinks
      ensures ok ==> writes == CliWrites(cli, Rewritten(t, cli))
    {
      writes := map[];
      var todo := cli.Keys;
      ghost var contents := Rewritten(t, cli);
      while todo != {}
        invariant todo <= cli.Keys
        invariant CliSoFar(cli, cliLinks, contents, todo, writes)
        decreases |todo|
      {
        var p :| p in todo;
        if p in cliLinks {
          return false, map[];
        }
        var content := RewriteImports(t, cli[p]);
        CliStep(cli, cliLinks, contents, todo, writes, p);
        if content != cli[p] {
          writes := writes[p := content];
        }
        todo := todo - {p};
      }
      CliDone(cli, cliLinks, contents, writes);
      ok := true;
    }

    /** Nothing is touched unless the whole plan stands. */
    method Apply(m: Manifest) returns (plan: Plan)
      modifies this
      ensures plan == PlanOf(old(Now()), m)
      ensures plan.Refused? ==> Now() == old(Now())
      ensures plan.Planned? ==> Now() == Carried(old(Now()), plan.changes)
    {
      plan := PlanMigration(m);
      if plan.Planned? {
        src := src + plan.changes.writes;
        cli := cli + plan.changes.cliWrites;
        src := src - plan.changes.removals;
      }
    }
  }

  // What the manifest's parts mean.

  lemma FirstSlash(s: string)
    requires NameRun(s) < |s| && s[NameRun(s)] == '/'
    ensures Split("/", s) == [s[..NameRun(s)]] + Split("/", s[NameRun(s) + 1..])
  {
    var n := NameRun(s);
    NameRunChars(s);
    LacksSlash(s[..n]);
    SplitFirst("/", s[..n], s[n + 1..]);
    CutAt(s, n);
  }

  lemma CutAt(s: string, n: nat)
    requires n < |s|
    ensures s[..n] + [s[n]] + s[n + 1..] == s
  {
  }

  lemma LacksSlash(s: string)
    requires forall i | 0 <= i < |s| :: s[i] != '/'
    ensures Lacks("/", s)
  {
    forall j | 0 <= j <= |s| ensures !At("/", s, j) {
      if j < |s| {
        assert s[j..j + 1][0] == s[j];
      }
    }
    FindNone("/", s);
  }

  lemma NoSlash(s: string)
    requires forall i | 0 <= i < |s| :: s[i] != '/'
    ensures Split("/", s) == [s]
  {
    LacksSlash(s);
  }

  lemma SplitStarts(s: string)
    ensures Split("/", s)[0] <= s
    ensures |Split("/", s)[0]| < |s| ==> s[|Split("/", s)[0]|] == '/'
  {
    if Find("/", s).Some? {
      var i := Find("/", s).value;
      assert s[i..i + 1] == "/";
    }
  }

  lemma StrayChar(s: string)
    requires NameRun(s) < |s| && s[NameRun(s)] != '/'
    ensures !AllNames(Split("/", s))
  {
    NameRunChars(s);
    SplitStarts(s);
    assert Split("/", s)[0] in Split("/", s);
    NotAName(s, NameRun(s), Split("/", s)[0]);
  }

  lemma NotAName(s: string, n: nat, part: string)
    requires n < |s| && s[n] != '/' && !IsNameChar(s[n]) && forall i | 0 <= i < n :: IsNameChar(s[i])
    requires part <= s && (|part| < |s| ==> s[|part|] == '/')
    ensures !IsName(part)
  {
    assert n < |part|;
    assert part[n] == s[n];
  }

  predicate AllNames(parts: seq<string>)
  {
    forall part | part in parts :: IsName(part)
  }

  lemma AllNamesCons(first: string, rest: seq<string>)
    ensures AllNames([first] + rest) <==> IsName(first) && AllNames(rest)
  {
    assert first in [first] + rest && forall part | part in rest :: part in [first] + rest;
  }

  lemma NameRunIsName(s: string)
    ensures IsName(s[..NameRun(s)]) <==> s != "" && IsLower(s[0])
  {
    NameRunChars(s);
  }

  lemma SoleName(s: string)
    requires NameRun(s) == |s|
    ensures IsModuleName(s) <==> AllNames(Split("/", s))
  {
    NameRunIsName(s);
    NameRunChars(s);
    NoSlash(s);
    assert s[..|s|] == s;
  }

  lemma NamesMore(s: string)
    requires NameRun(s) < |s| && s[NameRun(s)] == '/'
    requires var rest := s[NameRun(s) + 1..]; IsModuleName(rest) <==> AllNames(Split("/", rest))
    ensures IsModuleName(s) <==> AllNames(Split("/", s))
  {
    NameRunIsName(s);
    FirstSlash(s);
    AllNamesCons(s[..NameRun(s)], Split("/", s[NameRun(s) + 1..]));
  }

  /** A module name is parts between slashes, each well spelled. */
  lemma {:induction false} ModuleNameIs(s: string)
    ensures IsModuleName(s) <==> AllNames(Split("/", s))
    decreases |s|
  {
    var n := NameRun(s);
    if n == |s| {
      SoleName(s);
    } else if s[n] == '/' {
      ModuleNameIs(s[n + 1..]);
      NamesMore(s);
    } else {
      StrayChar(s);
    }
  }

  /** Some parent directory of the path is in the way. */
  lemma {:induction false} BlockedIs(path: string, n: nat, blocked: set<string>)
    requires n <= |path|
    ensures ParentBlocked(path, n, blocked) <==> exists i | 0 <= i < n :: path[i] == '/' && path[..i] in blocked
  {
    if n > 0 {
      BlockedIs(path, n - 1, blocked);
    }
  }

  /** Earlier paths have names of their own, and an owner that is also an earlier path owns itself. */
  predicate PreviousPlain(previous: seq<Assignment>)
  {
    && DistinctNames(previous)
    && forall p, q | p in previous && q in previous && p.owner == q.name :: q.owner == q.name
  }

  /** An earlier path has the default member of its owner, if that has one; any other path has its own. */
  lemma {:induction false} DefaultsExact(defaults: map<string, string>, previous: seq<Assignment>, k: string)
    requires PreviousPlain(previous)
    ensures var d := Defaults(defaults, previous);
            && (forall p | p in previous && p.name == k && p.owner in defaults :: k in d && d[k] == defaults[p.owner])
            && ((forall p | p in previous && p.name == k :: p.owner !in defaults) ==>
                  (k in d <==> k in defaults) && (k in d ==> d[k] == defaults[k]))
  {
    if previous != [] {
      var init, last := previous[..|previous| - 1], previous[|previous| - 1];
      assert last in previous && forall p | p in previous :: p in init || p == last;
      assert forall p | p in init :: p in previous && p.name != last.name;
      DefaultsExact(defaults, init, k);
      DefaultsExact(defaults, init, last.owner);
    }
  }

  // Steps of the loops.

  ghost predicate LoadedSoFar(names: map<string, string>, src: map<string, string>, todo: set<string>,
    links: set<string>, sources: map<string, string>, placed: map<string, string>)
  {
    && (forall p | p in src && p !in todo ::
          p in names && p !in links && names[p] in placed && placed[names[p]] == p)
    && (forall n | n in placed :: placed[n] in src && placed[n] !in todo && placed[n] in names && names[placed[n]] == n)
    && sources.Keys == placed.Keys
    && (forall n | n in placed :: sources[n] == src[placed[n]])
  }

  lemma CollisionFound(names: map<string, string>, src: map<string, string>, todo: set<string>, links: set<string>,
    sources: map<string, string>, placed: map<string, string>, p: string)
    requires LoadedSoFar(names, src, todo, links, sources, placed) && p in todo && p in names && names[p] in sources
    ensures !Injective(names)
  {
    var q := placed[names[p]];
    assert names[q] == names[p];
  }

  lemma LoadStep(names: map<string, string>, src: map<string, string>, todo: set<string>, links: set<string>,
    sources: map<string, string>, placed: map<string, string>, p: string)
    requires LoadedSoFar(names, src, todo, links, sources, placed)
    requires p in todo && p in src && p in names && p !in links && names[p] !in sources
    ensures LoadedSoFar(names, src, todo - {p}, links, sources[names[p] := src[p]], placed[names[p] := p])
  {
  }

  lemma LoadDone(names: map<string, string>, src: map<string, string>, links: set<string>,
    sources: map<string, string>, placed: map<string, string>)
    requires LoadedSoFar(names, src, {}, links, sources, placed) && names.Keys <= src.Keys
    ensures names.Keys == src.Keys && src.Keys !! links
    ensures Injective(names) && placed == Reverse(names) && sources == Via(src, placed)
  {
    ReverseIs(names, placed);
  }

  ghost predicate PlannedSoFar(f: Files, modules: map<string, string>, back: map<string, string>,
    placed: map<string, string>, contents: map<string, string>, todo: set<string>, writes: map<string, string>,
    removals: set<string>)
  {
    var done := contents.Keys - todo;
    && DestinationsOk(f, modules, placed, done)
    && (forall n | n in done && Writes(f.src, placed, n, modules[n], contents[n]) ::
          modules[n] in writes && writes[modules[n]] == contents[n])
    && (forall p | p in writes ::
          p in back && back[p] in done && Writes(f.src, placed, back[p], p, contents[back[p]])
          && modules[back[p]] == p)
    && removals == set n | n in done && n in placed && placed[n] != modules[n] :: placed[n]
  }

  lemma PlanStart(f: Files, modules: map<string, string>, back: map<string, string>, placed: map<string, string>,
    contents: map<string, string>)
    ensures PlannedSoFar(f, modules, back, placed, contents, contents.Keys, map[], {})
  {
    assert contents.Keys - contents.Keys == {};
  }

  lemma PlanStep(f: Files, modules: map<string, string>, back: map<string, string>, placed: map<string, string>,
    contents: map<string, string>, todo: set<string>, writes: map<string, string>, removals: set<string>, n: string)
    requires n in todo && n in contents && DestinationOk(f, modules, placed, n)
    requires modules[n] in back && back[modules[n]] == n
    requires PlannedSoFar(f, modules, back, placed, contents, todo, writes, removals)
    ensures PlannedSoFar(f, modules, back, placed, contents, todo - {n},
              if Writes(f.src, placed, n, modules[n], contents[n]) then writes[modules[n] := contents[n]] else writes,
              if n in placed && placed[n] != modules[n] then removals + {placed[n]} else removals)
  {
    assert contents.Keys - (todo - {n}) == (contents.Keys - todo) + {n};
  }

  lemma PlanDone(f: Files, modules: map<string, string>, back: map<string, string>, placed: map<string, string>,
    contents: map<string, string>, writes: map<string, string>, removals: set<string>)
    requires Injective(modules) && back == Reverse(modules)
    requires PlannedSoFar(f, modules, back, placed, contents, {}, writes, removals)
    ensures DestinationsOk(f, modules, placed, contents.Keys)
    ensures writes == WritesOf(f.src, back, placed, contents)
    ensures removals == RemovalsOf(modules, placed, contents.Keys)
  {
    var want := WritesOf(f.src, back, placed, contents);
    assert contents.Keys - {} == contents.Keys;
    forall p ensures p in writes <==> p in want {
      if p in writes {
        assert Writes(f.src, placed, back[p], p, contents[back[p]]);
      }
      if p in want {
        ReverseFrom(modules, p);
      }
    }
    forall p | p in writes ensures writes[p] == want[p] {
      assert modules[back[p]] == p;
    }
  }

  ghost predicate CliSoFar(cli: map<string, string>, links: set<string>, contents: map<string, string>,
    todo: set<string>, writes: map<string, string>)
  {
    && (forall p | p in cli && p !in todo :: p !in links)
    && (forall p | p in writes :: p in contents && p in cli && contents[p] != cli[p] && writes[p] == contents[p])
    && (forall p | p in contents && p in cli && p !in todo && contents[p] != cli[p] :: p in writes)
  }

  lemma CliStep(cli: map<string, string>, links: set<string>, contents: map<string, string>, todo: set<string>,
    writes: map<string, string>, p: string)
    requires CliSoFar(cli, links, contents, todo, writes) && p in cli && p in contents && p !in links
    ensures CliSoFar(cli, links, contents, todo - {p},
              if contents[p] != cli[p] then writes[p := contents[p]] else writes)
  {
  }

  lemma CliDone(cli: map<string, string>, links: set<string>, contents: map<string, string>,
    writes: map<string, string>)
    requires CliSoFar(cli, links, contents, {}, writes)
    ensures cli.Keys !! links && writes == CliWrites(cli, contents)
  {
  }
}
