/** Merging several compiler source roots into one destination: everything is validated before anything is copied. */
module SourceStaging {
  import opened Wrappers
  import opened TextSearch

  /** A path below a root, by its parts; the empty path is the root itself. */
  type Path = seq<string>

  datatype Node = File(content: string) | Dir | Link

  datatype Entry = Entry(path: Path, node: Node)

  /** A source root: its entries in the order the walk yields them, or something that is not a plain directory. */
  datatype Root = NotDirectory | Root(listing: seq<Entry>)

  datatype Source = Source(path: Path, content: string)

  datatype StageError = BadRoot | SourceLink | Collision(path: Path) | BadDestination(path: Path) | Obstructed

  // Which files of a root are sources.

  /** A file with the suffix .trb after a non-empty stem, not a unit test, outside testing and tests. */
  predicate IsSource(e: Entry)
  {
    && e.path != [] && e.node.File?
    && e.path[0] != "testing" && e.path[0] != "tests"
    && IsSourceName(e.path[|e.path| - 1])
  }

  predicate IsSourceName(name: string)
  {
    EndsWith(name, ".trb") && |name| > 4 && !EndsWith(name, "_test.trb")
  }

  function Sources(listing: seq<Entry>): seq<Source>
  {
    if listing == [] then []
    else
      var init, last := listing[..|listing| - 1], listing[|listing| - 1];
      if IsSource(last) then Sources(init) + [Source(last.path, last.node.content)] else Sources(init)
  }

  predicate RootAllowed(root: Root)
  {
    root.Root? && forall e | e in root.listing :: !e.node.Link?
  }

  method SourceFiles(root: Root) returns (r: Result<seq<Source>, StageError>)
    ensures r.Ok? <==> RootAllowed(root)
    ensures r.Ok? ==> r.value == Sources(root.listing)
  {
    if root.NotDirectory? {
      return Err(BadRoot);
    }
    var sources: seq<Source> := [];
    for k := 0 to |root.listing|
      invariant forall e | e in root.listing[..k] :: !e.node.Link?
      invariant sources == Sources(root.listing[..k])
    {
      var e := root.listing[k];
      assert e in root.listing;
      assert root.listing[..k + 1] == root.listing[..k] + [e] && root.listing[..k + 1][..k] == root.listing[..k];
      if e.node.Link? {
        return Err(SourceLink);
      }
      if IsSource(e) {
        sources := sources + [Source(e.path, e.node.content)];
      }
    }
    assert root.listing[..|root.listing|] == root.listing;
    return Ok(sources);
  }

  /** The sources of all roots, root by root. */
  function AllSources(roots: seq<Root>): seq<Source>
  {
    if roots == [] then []
    else
      var init, last := roots[..|roots| - 1], roots[|roots| - 1];
      if last.Root? then AllSources(init) + Sources(last.listing) else AllSources(init)
  }

  lemma {:induction false} SourcesNamed(listing: seq<Entry>)
    ensures forall s | s in Sources(listing) :: s.path != []
  {
    if listing != [] {
      SourcesNamed(listing[..|listing| - 1]);
    }
  }

  lemma {:induction false} AllSourcesNamed(roots: seq<Root>)
    ensures forall s | s in AllSources(roots) :: s.path != []
  {
    if roots != [] {
      AllSourcesNamed(roots[..|roots| - 1]);
      if roots[|roots| - 1].Root? {
        SourcesNamed(roots[|roots| - 1].listing);
      }
    }
  }

  // Collisions.

  /** Every directory on the way to a path, the root included. */
  function Parents(path: Path): set<Path>
  {
    set i | 0 <= i < |path| :: path[..i]
  }

  /** Neither path is the other or lies below it. */
  predicate Apart(p: Path, q: Path)
  {
    !(p <= q) && !(q <= p)
  }

  /** The destination has room for a path: nothing there yet, and only directories above. */
  predicate Room(entries: map<Path, Node>, path: Path)
  {
    path !in entries && forall i | 0 <= i < |path| && path[..i] in entries :: entries[path[..i]].Dir?
  }

  predicate PairwiseApart(sources: seq<Source>)
  {
    forall i, j :: 0 <= i < j < |sources| ==> Apart(sources[i].path, sources[j].path)
  }

  /** What staging demands: plain roots, sources apart from one another, and room for each. */
  predicate Stageable(roots: seq<Root>, entries: map<Path, Node>)
  {
    && (forall r | r in roots :: RootAllowed(r))
    && PairwiseApart(AllSources(roots))
    && forall s | s in AllSources(roots) :: Room(entries, s.path)
  }

  function Paths(sources: seq<Source>): set<Path>
  {
    set s: Source | s in sources :: s.path
  }

  function Directories(sources: seq<Source>): set<Path>
  {
    set s: Source, i | s in sources && 0 <= i < |s.path| :: s.path[..i]
  }

  lemma DirectoriesAppend(sources: seq<Source>, s: Source)
    ensures Directories(sources + [s]) == Directories(sources) + Parents(s.path)
    ensures Paths(sources + [s]) == Paths(sources) + {s.path}
  {
    forall d ensures d in Directories(sources + [s]) <==> d in Directories(sources) + Parents(s.path) {
      if d in Directories(sources + [s]) {
        var x: Source, i :| x in sources + [s] && 0 <= i < |x.path| && d == x.path[..i];
        assert x in sources || x == s;
      }
    }
  }

  /** The three membership tests of the validation loop. */
  predicate Free(paths: set<Path>, directories: set<Path>, path: Path)
  {
    path !in paths && path !in directories && Parents(path) !! paths
  }

  lemma ApartIsFree(sources: seq<Source>, path: Path)
    requires path != [] && forall s | s in sources :: Apart(s.path, path)
    ensures Free(Paths(sources), Directories(sources), path)
  {
    forall s, i | s in sources && 0 <= i < |s.path| ensures s.path[..i] != path {
      assert s.path[..i] <= s.path;
    }
    forall p | p in Parents(path) ensures p !in Paths(sources) {
      assert p <= path;
    }
  }

  lemma PrefixIsCut(p: Path, q: Path)
    ensures p <= q <==> p == q || exists i | 0 <= i < |q| :: p == q[..i]
  {
    if p <= q {
      assert p == q[..|p|];
      assert q == q[..|q|];
    }
  }

  lemma FreeIsApart(sources: seq<Source>, path: Path, s: Source)
    requires s in sources && Free(Paths(sources), Directories(sources), path)
    ensures Apart(s.path, path)
  {
    assert s.path in Paths(sources);
    assert forall i | 0 <= i < |s.path| :: s.path[..i] in Directories(sources);
    assert forall i | 0 <= i < |path| :: path[..i] in Parents(path);
    PrefixIsCut(path, s.path);
    PrefixIsCut(s.path, path);
  }

  /** They say that a path is apart from all those selected. */
  lemma ApartFromAll(sources: seq<Source>, path: Path)
    requires path != []
    ensures Free(Paths(sources), Directories(sources), path) <==> forall s | s in sources :: Apart(s.path, path)
  {
    if Free(Paths(sources), Directories(sources), path) {
      forall s | s in sources ensures Apart(s.path, path) {
        FreeIsApart(sources, path, s);
      }
    } else if forall s | s in sources :: Apart(s.path, path) {
      ApartIsFree(sources, path);
    }
  }

  lemma PairwiseAppend(sources: seq<Source>, s: Source)
    ensures PairwiseApart(sources + [s])
       <==> PairwiseApart(sources) && forall x | x in sources :: Apart(x.path, s.path)
  {
    var all := sources + [s];
    if PairwiseApart(all) {
      forall i, j | 0 <= i < j < |sources| ensures Apart(sources[i].path, sources[j].path) {
        assert all[i] == sources[i] && all[j] == sources[j];
      }
      forall x | x in sources ensures Apart(x.path, s.path) {
        var i :| 0 <= i < |sources| && sources[i] == x;
        assert Apart(all[i].path, all[|sources|].path);
      }
    }
  }

  lemma PairwisePrefix(sources: seq<Source>, n: nat)
    requires n <= |sources| && PairwiseApart(sources)
    ensures PairwiseApart(sources[..n])
  {
  }

  // Validation.

  /** The first parent that is neither absent nor a directory. */
  method CheckParents(entries: map<Path, Node>, path: Path) returns (bad: Option<Path>)
    ensures bad.None? <==> forall i | 0 <= i < |path| && path[..i] in entries :: entries[path[..i]].Dir?
  {
    var i := |path|;
    while i > 0
      invariant 0 <= i <= |path|
      invariant forall j | i <= j < |path| && path[..j] in entries :: entries[path[..j]].Dir?
    {
      i := i - 1;
      var parent := path[..i];
      if parent in entries && !entries[parent].Dir? {
        return Some(parent);
      }
    }
    return None;
  }

  /** The checks on one source: apart from those chosen, and with room at the destination. */
  method CheckSource(entries: map<Path, Node>, chosen: seq<Source>, dirs: set<Path>, s: Source)
    returns (error: Option<StageError>)
    requires dirs == Directories(chosen) && PairwiseApart(chosen) && s.path != []
    ensures error.None? <==> PairwiseApart(chosen + [s]) && Room(entries, s.path)
  {
    AddOne(chosen, s);
    if !Free(Paths(chosen), dirs, s.path) || s.path in entries {
      return Some(Collision(s.path));
    }
    var bad := CheckParents(entries, s.path);
    error := if bad.Some? then Some(BadDestination(bad.value)) else None;
  }

  /** One root's share of the validation: its sources join those already selected, or the first conflict stops it. */
  method AddSources(entries: map<Path, Node>, selected: seq<Source>, directories: set<Path>, sources: seq<Source>)
    returns (r: Result<(seq<Source>, set<Path>), StageError>)
    requires directories == Directories(selected) && PairwiseApart(selected)
    requires forall s | s in selected + sources :: s.path != []
    ensures r.Ok? <==> PairwiseApart(selected + sources) && forall s | s in sources :: Room(entries, s.path)
    ensures r.Ok? ==> r.value == (selected + sources, Directories(selected + sources))
  {
    var chosen, dirs := selected, directories;
    for k := 0 to |sources|
      invariant chosen == selected + sources[..k] && dirs == Directories(chosen)
      invariant PairwiseApart(chosen)
      invariant forall s | s in sources[..k] :: Room(entries, s.path)
    {
      var s := sources[k];
      NextSource(selected, sources, k);
      var error := CheckSource(entries, chosen, dirs, s);
      if error.Some? {
        if !PairwiseApart(chosen + [s]) {
          NotApartAnyMore(selected + sources, |selected| + k + 1);
        }
        return Err(error.value);
      }
      AddOne(chosen, s);
      chosen := chosen + [s];
      dirs := dirs + Parents(s.path);
    }
    assert sources[..|sources|] == sources;
    return Ok((chosen, dirs));
  }

  lemma NextSource(selected: seq<Source>, sources: seq<Source>, k: nat)
    requires k < |sources|
    ensures sources[k] in sources && sources[k] in selected + sources
    ensures (selected + sources)[..|selected| + k + 1] == selected + sources[..k] + [sources[k]]
    ensures sources[..k + 1] == sources[..k] + [sources[k]]
    ensures selected + sources[..k] + [sources[k]] == selected + sources[..k + 1]
  {
  }

  lemma AddOne(chosen: seq<Source>, s: Source)
    requires s.path != [] && PairwiseApart(chosen)
    ensures Free(Paths(chosen), Directories(chosen), s.path) <==> PairwiseApart(chosen + [s])
    ensures Directories(chosen + [s]) == Directories(chosen) + Parents(s.path)
  {
    ApartFromAll(chosen, s.path);
    PairwiseAppend(chosen, s);
    DirectoriesAppend(chosen, s);
  }

  lemma NotApartAnyMore(sources: seq<Source>, n: nat)
    requires n <= |sources| && !PairwiseApart(sources[..n])
    ensures !PairwiseApart(sources)
  {
    if PairwiseApart(sources) {
      PairwisePrefix(sources, n);
    }
  }

  /** Every input and destination is validated; nothing is written. */
  method Validate(roots: seq<Root>, entries: map<Path, Node>) returns (r: Result<seq<Source>, StageError>)
    ensures r.Ok? <==> Stageable(roots, entries)
    ensures r.Ok? ==> r.value == AllSources(roots)
  {
    var selected: seq<Source>, directories: set<Path> := [], {};
    for k := 0 to |roots|
      invariant forall r | r in roots[..k] :: RootAllowed(r)
      invariant selected == AllSources(roots[..k]) && directories == Directories(selected)
      invariant PairwiseApart(selected) && forall s | s in selected :: Room(entries, s.path)
    {
      var root := roots[k];
      assert root in roots;
      assert roots[..k + 1] == roots[..k] + [root] && roots[..k + 1][..k] == roots[..k];
      var files := SourceFiles(root);
      if files.Err? {
        return Err(files.error);
      }
      AllSourcesNamed(roots[..k + 1]);
      AllSourcesPrefix(roots, k + 1);
      assert AllSources(roots[..k + 1]) == selected + files.value;
      var more := AddSources(entries, selected, directories, files.value);
      if more.Err? {
        StillRefused(roots, entries, k + 1, selected, files.value);
        return Err(more.error);
      }
      selected, directories := more.value.0, more.value.1;
    }
    assert roots[..|roots|] == roots;
    return Ok(selected);
  }

  lemma {:induction false} AllSourcesPrefix(roots: seq<Root>, n: nat)
    requires n <= |roots|
    ensures AllSources(roots[..n]) <= AllSources(roots)
    decreases |roots| - n
  {
    if n < |roots| {
      AllSourcesPrefix(roots, n + 1);
      assert roots[..n + 1][..n] == roots[..n];
    } else {
      assert roots[..n] == roots;
    }
  }

  lemma StillRefused(roots: seq<Root>, entries: map<Path, Node>, n: nat, selected: seq<Source>, more: seq<Source>)
    requires n <= |roots| && AllSources(roots[..n]) == selected + more
    requires !(PairwiseApart(selected + more) && forall s | s in more :: Room(entries, s.path))
    ensures !Stageable(roots, entries)
  {
    AllSourcesPrefix(roots, n);
    var part, all := selected + more, AllSources(roots);
    assert part == all[..|part|];
    if PairwiseApart(all) {
      PairwisePrefix(all, |part|);
      var s :| s in more && !Room(entries, s.path);
      assert s in part;
      var i :| 0 <= i < |part| && part[i] == s;
      assert all[i] == s;
    }
  }

  // Publishing.

  /** The destination directory. */
  class Destination {
    var entries: map<Path, Node>

    /** mkdir of every missing directory on the way to a path; anything else in the way is an error. */
    method MakeParents(path: Path) returns (ok: bool)
      modifies this
      ensures ok <==> forall i | 0 <= i < |path| && path[..i] in old(entries) :: old(entries)[path[..i]].Dir?
      ensures ok ==> entries == old(entries) + map p | p in Parents(path) :: Dir
    {
      ghost var before := entries;
      for k := 0 to |path|
        invariant forall i | 0 <= i < k && path[..i] in before :: before[path[..i]].Dir?
        invariant entries == before + map p | p in Parents(path[..k]) :: Dir
      {
        var parent := path[..k];
        ParentsGrow(path, k);
        if parent in entries && !entries[parent].Dir? {
          return false;
        }
        entries := entries[parent := Dir];
      }
      assert path[..|path|] == path;
      return true;
    }

    /** Copying one file. A directory at the target or a missing parent is an error. */
    method CopyFile(path: Path, content: string) returns (ok: bool)
      requires path != []
      modifies this
      ensures ok <==> && !(path in old(entries) && old(entries)[path].Dir?)
                      && path[..|path| - 1] in old(entries) && old(entries)[path[..|path| - 1]].Dir?
      ensures entries == if ok then old(entries)[path := File(content)] else old(entries)
    {
      var parent := path[..|path| - 1];
      if (path in entries && entries[path].Dir?) || parent !in entries || !entries[parent].Dir? {
        return false;
      }
      entries := entries[path := File(content)];
      return true;
    }
  }

  lemma ParentsGrow(path: Path, k: nat)
    requires k < |path|
    ensures Parents(path[..k + 1]) == Parents(path[..k]) + {path[..k]}
  {
    forall i | 0 <= i <= k ensures path[..k + 1][..i] == path[..i] {
    }
    forall i | 0 <= i < k ensures path[..k][..i] == path[..i] {
    }
    forall p ensures p in Parents(path[..k + 1]) <==> p in Parents(path[..k]) + {path[..k]} {
      if p in Parents(path[..k + 1]) {
        var i :| 0 <= i < k + 1 && p == path[..k + 1][..i];
        if i < k {
          assert p == path[..k][..i];
        }
      }
      if p in Parents(path[..k]) {
        var i :| 0 <= i < k && p == path[..k][..i];
        assert p == path[..k + 1][..i];
      }
      if p == path[..k] {
        assert p == path[..k + 1][..k];
      }
    }
  }

  /** What staging publishes: a directory for every parent, and the sources. */
  function Published(sources: seq<Source>): map<Path, Node>
  {
    if sources == [] then map[]
    else
      var init, last := sources[..|sources| - 1], sources[|sources| - 1];
      (Published(init) + map p | p in Parents(last.path) :: Dir)[last.path := File(last.content)]
  }

  lemma {:induction false} PublishedIs(sources: seq<Source>)
    requires PairwiseApart(sources) && forall s | s in sources :: s.path != []
    ensures Published(sources).Keys == Paths(sources) + Directories(sources)
    ensures Paths(sources) !! Directories(sources)
    ensures forall d | d in Directories(sources) :: Published(sources)[d] == Dir
    ensures forall s | s in sources :: Published(sources)[s.path] == File(s.content)
  {
    if sources != [] {
      var init, last := sources[..|sources| - 1], sources[|sources| - 1];
      assert sources == init + [last];
      PairwiseAppend(init, last);
      PublishedIs(init);
      DirectoriesAppend(init, last);
      ApartFromAll(init, last.path);
      PublishLast(Published(init), Paths(init), Directories(init), last);
      forall s | s in init ensures Published(sources)[s.path] == File(s.content) {
        assert s.path in Paths(init) && s.path !in Parents(last.path) && s.path != last.path;
      }
    }
  }

  /** Adding one source to what is published keeps files and directories apart. */
  lemma PublishLast(published: map<Path, Node>, paths: set<Path>, dirs: set<Path>, last: Source)
    requires last.path != [] && published.Keys == paths + dirs && paths !! dirs && Free(paths, dirs, last.path)
    requires forall d | d in dirs :: published[d] == Dir
    ensures var after := (published + map p | p in Parents(last.path) :: Dir)[last.path := File(last.content)];
            && after.Keys == (paths + {last.path}) + (dirs + Parents(last.path))
            && (paths + {last.path}) !! (dirs + Parents(last.path))
            && (forall d | d in dirs + Parents(last.path) :: after[d] == Dir)
            && (forall p | p in paths :: after[p] == published[p])
  {
    assert forall p | p in Parents(last.path) :: |p| < |last.path|;
  }

  /**
   * Staging is all or nothing. It fails exactly when the roots cannot be staged, and then the destination is as it
   * was; otherwise no copy can fail, and the destination is what it was plus the published files and directories.
   */
  method StageSources(roots: seq<Root>, destination: Destination) returns (r: Result<seq<Path>, StageError>)
    modifies destination
    ensures r.Ok? <==> Stageable(roots, old(destination.entries))
    ensures r.Err? ==> destination.entries == old(destination.entries)
    ensures r.Ok? ==> destination.entries == old(destination.entries) + Published(AllSources(roots))
    ensures r.Ok? ==>
              r.value == seq(|AllSources(roots)|, i requires 0 <= i < |AllSources(roots)| => AllSources(roots)[i].path)
  {
    ghost var before := destination.entries;
    var selection := Validate(roots, destination.entries);
    if selection.Err? {
      return Err(selection.error);
    }
    var sources := selection.value;
    AllSourcesNamed(roots);
    for k := 0 to |sources|
      invariant destination.entries == before + Published(sources[..k])
    {
      var s := sources[k];
      assert s in sources && sources[..k + 1] == sources[..k] + [s] && sources[..k + 1][..k] == sources[..k];
      CopySafe(before, sources, k);
      var made := destination.MakeParents(s.path);
      if !made {
        return Err(Obstructed);
      }
      LastParent(s.path);
      PublishOne(before, sources[..k], s);
      var copied := destination.CopyFile(s.path, s.content);
      if !copied {
        return Err(Obstructed);
      }
    }
    assert sources[..|sources|] == sources;
    return Ok(seq(|sources|, i requires 0 <= i < |sources| => sources[i].path));
  }

  lemma LastParent(path: Path)
    requires path != []
    ensures path[..|path| - 1] in Parents(path) && path !in Parents(path)
  {
    assert forall p | p in Parents(path) :: |p| < |path|;
  }

  lemma PublishOne(before: map<Path, Node>, done: seq<Source>, s: Source)
    ensures ((before + Published(done)) + map p | p in Parents(s.path) :: Dir)[s.path := File(s.content)]
         == before + Published(done + [s])
  {
    assert (done + [s])[..|done|] == done;
  }

  /** After any number of copies the next one still has room: nothing at its path, and only directories above. */
  lemma CopySafe(before: map<Path, Node>, sources: seq<Source>, k: nat)
    requires k < |sources| && PairwiseApart(sources)
    requires forall s | s in sources :: s.path != [] && Room(before, s.path)
    ensures Room(before + Published(sources[..k]), sources[k].path)
  {
    var done, path := sources[..k], sources[k].path;
    assert sources[k] in sources && forall s | s in done :: s in sources;
    PairwisePrefix(sources, k);
    PublishedIs(done);
    forall s | s in done ensures Apart(s.path, path) {
      var i :| 0 <= i < k && sources[i] == s;
    }
    ApartFromAll(done, path);
    forall i | 0 <= i < |path| && path[..i] in Published(done) ensures Published(done)[path[..i]].Dir? {
      assert path[..i] in Parents(path);
    }
  }

  lemma UnionOf(before: map<Path, Node>, roots: seq<Root>)
    requires Stageable(roots, before)
    ensures var after := before + Published(AllSources(roots));
            && (forall p | p in before :: after[p] == before[p])
            && (forall s | s in AllSources(roots) ::
                  s.path !in before && s.path in after && after[s.path] == File(s.content))
            && (forall p | p in after && p !in before ::
                  p in Paths(AllSources(roots)) || (after[p] == Dir && p in Directories(AllSources(roots))))
  {
    var sources := AllSources(roots);
    AllSourcesNamed(roots);
    PublishedIs(sources);
    forall s | s in sources ensures s.path !in before {
      assert Room(before, s.path);
    }
    forall p | p in before && p in Published(sources) ensures Published(sources)[p] == before[p] {
      assert p in Directories(sources);
      var s: Source, i :| s in sources && 0 <= i < |s.path| && p == s.path[..i];
      assert Room(before, s.path);
    }
  }
}
