/** What staging selects and publishes, in terms of the entries of the source roots. */
module StagedSources {
  import opened Wrappers
  import opened TextSearch
  import opened SourceStaging

  // Which entries are sources.

  /** A name that ends in .trb after a stem and not in _test.trb, outside the directories testing and tests. */
  ghost predicate IsProduction(path: Path)
  {
    && path != [] && path[0] != "testing" && path[0] != "tests"
    && (exists stem :: stem != "" && path[|path| - 1] == stem + ".trb")
    && !(exists stem :: path[|path| - 1] == stem + "_test.trb")
  }

  lemma ProductionIs(e: Entry)
    ensures IsSource(e) <==> e.node.File? && IsProduction(e.path)
  {
    if e.path != [] {
      var name := e.path[|e.path| - 1];
      EndsIs(name, ".trb", 1);
      EndsIs(name, "_test.trb", 0);
    }
  }

  ghost function SourceMark(e: Entry): Option<Source>
  {
    if e.node.File? && IsProduction(e.path) then Some(Source(e.path, e.node.content)) else None
  }

  ghost function SourceMarks(listing: seq<Entry>): seq<Option<Source>>
  {
    seq(|listing|, i requires 0 <= i < |listing| => SourceMark(listing[i]))
  }

  /** The sources of a root are its production files, each once, in the order of the listing, with their contents. */
  lemma {:induction false} SourcesExact(listing: seq<Entry>) returns (at: seq<nat>)
    ensures Gathers(SourceMarks(listing), at, Sources(listing))
  {
    if listing == [] {
      at := [];
    } else {
      var init, last := listing[..|listing| - 1], listing[|listing| - 1];
      at := SourcesExact(init);
      GathersSnoc(SourceMarks(init), at, Sources(init), SourceMark(last));
      assert SourceMarks(listing) == SourceMarks(init) + [SourceMark(last)];
      ProductionIs(last);
      at := if SourceMark(last).Some? then at + [|init|] else at;
    }
  }

  // Over all roots.

  /** A production file stands at a place of a root's listing. */
  ghost predicate SourceAt(roots: seq<Root>, i: nat, k: nat, path: Path, content: string)
  {
    && i < |roots| && roots[i].Root? && k < |roots[i].listing|
    && roots[i].listing[k] == Entry(path, File(content)) && IsProduction(path)
  }

  /** An entry of a root. */
  datatype Place = Place(root: nat, entry: nat)

  predicate Before(a: Place, b: Place)
  {
    a.root < b.root || (a.root == b.root && a.entry < b.entry)
  }

  predicate InOrder(at: seq<Place>)
  {
    forall j, k | 0 <= j < k < |at| :: Before(at[j], at[k])
  }

  ghost predicate Located(roots: seq<Root>, at: seq<Place>, sources: seq<Source>)
  {
    && |at| == |sources|
    && forall j | 0 <= j < |at| :: SourceAt(roots, at[j].root, at[j].entry, sources[j].path, sources[j].content)
  }

  ghost predicate AllLocated(roots: seq<Root>, at: seq<Place>)
  {
    forall i: nat, k: nat, path, content | SourceAt(roots, i, k, path, content) :: Place(i, k) in at
  }

  function Places(i: nat, at: seq<nat>): seq<Place>
  {
    seq(|at|, k requires 0 <= k < |at| => Place(i, at[k]))
  }

  lemma RootLocated(roots: seq<Root>, i: nat, at: seq<nat>)
    requires i < |roots| && roots[i].Root?
    requires Gathers(SourceMarks(roots[i].listing), at, Sources(roots[i].listing))
    ensures InOrder(Places(i, at)) && Located(roots, Places(i, at), Sources(roots[i].listing))
    ensures forall k: nat, path, content | SourceAt(roots, i, k, path, content) :: Place(i, k) in Places(i, at)
  {
    var listing := roots[i].listing;
    forall j | 0 <= j < |at|
      ensures SourceAt(roots, i, at[j], Sources(listing)[j].path, Sources(listing)[j].content)
    {
      assert SourceMarks(listing)[at[j]] == SourceMark(listing[at[j]]);
    }
    forall k: nat, path, content | SourceAt(roots, i, k, path, content) ensures Place(i, k) in Places(i, at) {
      assert SourceMarks(listing)[k].Some?;
      var j :| 0 <= j < |at| && at[j] == k;
      assert Places(i, at)[j] == Place(i, k);
    }
  }

  lemma SourceAtPrefix(init: seq<Root>, last: Root, i: nat, k: nat, path: Path, content: string)
    requires i < |init|
    ensures SourceAt(init + [last], i, k, path, content) <==> SourceAt(init, i, k, path, content)
  {
  }

  lemma LocatedMore(init: seq<Root>, last: Root, at: seq<Place>, sources: seq<Source>)
    requires Located(init, at, sources)
    ensures Located(init + [last], at, sources)
  {
  }

  lemma LocatedConcat(roots: seq<Root>, a: seq<Place>, s: seq<Source>, b: seq<Place>, r: seq<Source>)
    requires Located(roots, a, s) && Located(roots, b, r)
    ensures Located(roots, a + b, s + r)
  {
  }

  lemma OrderConcat(a: seq<Place>, b: seq<Place>, i: nat)
    requires InOrder(a) && InOrder(b) && (forall p | p in a :: p.root < i) && (forall p | p in b :: p.root == i)
    ensures InOrder(a + b)
  {
    var all := a + b;
    forall j, k | 0 <= j < k < |all| ensures Before(all[j], all[k]) {
      if j < |a| && k >= |a| {
        assert all[j] in a && all[k] in b;
      }
    }
  }

  /** The sources of all roots are the production files at their places, root by root and in order, each once. */
  lemma {:induction false} AllSourcesExact(roots: seq<Root>) returns (at: seq<Place>)
    ensures InOrder(at) && Located(roots, at, AllSources(roots)) && AllLocated(roots, at)
    ensures forall p | p in at :: p.root < |roots|
  {
    if roots == [] {
      at := [];
    } else {
      var init, last := roots[..|roots| - 1], roots[|roots| - 1];
      assert roots == init + [last];
      var before := AllSourcesExact(init);
      at := before;
      LocatedMore(init, last, before, AllSources(init));
      if last.Root? {
        var more := SourcesExact(last.listing);
        RootLocated(roots, |init|, more);
        var places := Places(|init|, more);
        OrderConcat(before, places, |init|);
        LocatedConcat(roots, before, AllSources(init), places, Sources(last.listing));
        at := before + places;
      }
      forall i: nat, k: nat, path, content | SourceAt(roots, i, k, path, content) ensures Place(i, k) in at {
        if i < |init| {
          SourceAtPrefix(init, last, i, k, path, content);
        }
      }
    }
  }

  // What staging demands, and what it leaves.

  ghost predicate PlacesApart(roots: seq<Root>)
  {
    forall a: Place, p, c, b: Place, q, d |
      SourceAt(roots, a.root, a.entry, p, c) && SourceAt(roots, b.root, b.entry, q, d) && a != b :: Apart(p, q)
  }

  ghost predicate PlacesHaveRoom(roots: seq<Root>, entries: map<Path, Node>)
  {
    forall a: Place, p, c | SourceAt(roots, a.root, a.entry, p, c) :: Room(entries, p)
  }

  lemma PlacesFollow(roots: seq<Root>, at: seq<Place>, sources: seq<Source>)
    requires InOrder(at) && Located(roots, at, sources) && AllLocated(roots, at) && PairwiseApart(sources)
    ensures PlacesApart(roots)
  {
    forall a: Place, p, c, b: Place, q, d |
      SourceAt(roots, a.root, a.entry, p, c) && SourceAt(roots, b.root, b.entry, q, d) && a != b
      ensures Apart(p, q)
    {
      assert a == Place(a.root, a.entry) && b == Place(b.root, b.entry);
      var j :| 0 <= j < |at| && at[j] == a;
      var k :| 0 <= k < |at| && at[k] == b;
      assert Apart(sources[if j < k then j else k].path, sources[if j < k then k else j].path);
    }
  }

  lemma SourcesFollow(roots: seq<Root>, at: seq<Place>, sources: seq<Source>)
    requires InOrder(at) && Located(roots, at, sources) && PlacesApart(roots)
    ensures PairwiseApart(sources)
  {
    forall j, k | 0 <= j < k < |sources| ensures Apart(sources[j].path, sources[k].path) {
      assert Before(at[j], at[k]);
      assert SourceAt(roots, at[j].root, at[j].entry, sources[j].path, sources[j].content);
      assert SourceAt(roots, at[k].root, at[k].entry, sources[k].path, sources[k].content);
    }
  }

  lemma ApartEverywhere(roots: seq<Root>, at: seq<Place>, sources: seq<Source>)
    requires InOrder(at) && Located(roots, at, sources) && AllLocated(roots, at)
    ensures PairwiseApart(sources) <==> PlacesApart(roots)
  {
    if PairwiseApart(sources) {
      PlacesFollow(roots, at, sources);
    }
    if PlacesApart(roots) {
      SourcesFollow(roots, at, sources);
    }
  }

  lemma HasSource(roots: seq<Root>, s: Source)
    ensures s in AllSources(roots) <==> exists a: Place :: SourceAt(roots, a.root, a.entry, s.path, s.content)
  {
    var at := AllSourcesExact(roots);
    var sources := AllSources(roots);
    if s in sources {
      var j :| 0 <= j < |sources| && sources[j] == s;
      assert SourceAt(roots, at[j].root, at[j].entry, s.path, s.content);
    }
    if a: Place :| SourceAt(roots, a.root, a.entry, s.path, s.content) {
      assert a == Place(a.root, a.entry);
      var j :| 0 <= j < |at| && at[j] == a;
      assert sources[j] == s;
    }
  }

  /**
   * Roots can be staged exactly when they are directories without links, the production files of any two places have
   * paths apart from one another, and the destination has room for each.
   */
  lemma StageableExact(roots: seq<Root>, entries: map<Path, Node>)
    ensures Stageable(roots, entries) <==>
              (forall r | r in roots :: RootAllowed(r)) && PlacesApart(roots) && PlacesHaveRoom(roots, entries)
  {
    var at := AllSourcesExact(roots);
    ApartEverywhere(roots, at, AllSources(roots));
    if forall s | s in AllSources(roots) :: Room(entries, s.path) {
      forall a: Place, p, c | SourceAt(roots, a.root, a.entry, p, c) ensures Room(entries, p) {
        HasSource(roots, Source(p, c));
      }
    }
    if PlacesHaveRoom(roots, entries) {
      forall s | s in AllSources(roots) ensures Room(entries, s.path) {
        HasSource(roots, s);
      }
    }
  }

  /** A production file of some root. */
  ghost predicate IsSourcePath(roots: seq<Root>, path: Path, content: string)
  {
    exists a: Place :: SourceAt(roots, a.root, a.entry, path, content)
  }

  /** A directory above one. */
  ghost predicate IsParent(roots: seq<Root>, path: Path)
  {
    exists q, c :: IsSourcePath(roots, q, c) && path < q
  }

  lemma NewPath(before: map<Path, Node>, roots: seq<Root>, p: Path)
    requires Stageable(roots, before)
    requires p in before + Published(AllSources(roots)) && p !in before
    ensures (exists c :: IsSourcePath(roots, p, c))
            || ((before + Published(AllSources(roots)))[p] == Dir && IsParent(roots, p))
  {
    UnionOf(before, roots);
    if p in Paths(AllSources(roots)) {
      var s :| s in AllSources(roots) && s.path == p;
      HasSource(roots, s);
      assert IsSourcePath(roots, p, s.content);
    } else {
      var s: Source, i :| s in AllSources(roots) && 0 <= i < |s.path| && p == s.path[..i];
      HasSource(roots, s);
      assert IsSourcePath(roots, s.path, s.content) && p < s.path;
    }
  }

  /**
   * What staging leaves is a disjoint union: what was there stays as it was, every production file of every root is
   * there with its content, and all else that is new is a directory above one.
   */
  lemma StagedIsUnion(before: map<Path, Node>, roots: seq<Root>, after: map<Path, Node>)
    requires Stageable(roots, before) && after == before + Published(AllSources(roots))
    ensures forall p | p in before :: p in after && after[p] == before[p]
    ensures forall p, c | IsSourcePath(roots, p, c) :: p !in before && p in after && after[p] == File(c)
    ensures forall p | p in after && p !in before ::
              (exists c :: IsSourcePath(roots, p, c)) || (after[p] == Dir && IsParent(roots, p))
  {
    UnionOf(before, roots);
    forall p, c | IsSourcePath(roots, p, c) ensures p !in before && p in after && after[p] == File(c) {
      HasSource(roots, Source(p, c));
    }
    forall p | p in after && p !in before
      ensures (exists c :: IsSourcePath(roots, p, c)) || (after[p] == Dir && IsParent(roots, p))
    {
      NewPath(before, roots, p);
    }
  }
}
