/** What a planned migration leaves behind: every source rewritten, at its assigned path, and nothing else. */
module MigratedTree {
  import opened Wrappers
  import opened TextLines
  import opened Relabeling
  import opened Grouping
  import opened ImportLines
  import opened ImportRewriting
  import opened ImportStability
  import opened ImportBindings
  import opened FunctionFragments
  import opened CheckerExtraction
  import opened ExtractionConserves
  import opened LayoutMigration

  /** A plan that stands, with the sources it moves. */
  ghost predicate Stands(f: Files, m: Manifest, sources: map<string, string>, c: Changes)
  {
    && PreviousOwned(m) && AssignmentsOk(m.modules) && LoadOk(f.src, f.srcLinks, m)
    && m.modules.Keys - Loaded(f.src, f.srcLinks, m).Keys <= NewOwners(m)
    && (var e := Extract(Loaded(f.src, f.srcLinks, m), m.owners); !e.outcome.Rejected? && e.files == sources)
    && DestinationsOk(f, m.modules, Placed(f.src, f.srcLinks, m), sources.Keys)
    && f.cli.Keys !! f.cliLinks
    && c == MoveChanges(f, m, Placed(f.src, f.srcLinks, m), sources)
  }

  lemma PlanStands(f: Files, m: Manifest, c: Changes) returns (sources: map<string, string>)
    requires PlanOf(f, m) == Planned(c)
    ensures Stands(f, m, sources, c)
  {
    sources := Extract(Loaded(f.src, f.srcLinks, m), m.owners).files;
  }

  lemma StandsPlanned(f: Files, m: Manifest, sources: map<string, string>, c: Changes)
    requires Stands(f, m, sources, c)
    ensures PlanOf(f, m) == Planned(c)
  {
  }

  // Loading.

  /**
   * A path stands for itself when it is a name, for the module assigned to it, or for the owner of the earlier path
   * that it is; in this order.
   */
  lemma OriginalIs(m: Manifest, p: string, n: string)
    requires Injective(m.modules) && DistinctNames(m.previous)
    ensures Original(m, p) == Some(n) <==>
              || (p in m.modules && n == p)
              || (p !in m.modules && n in m.modules && m.modules[n] == p)
              || (p !in m.modules && (forall k | k in m.modules :: m.modules[k] != p) && Assignment(p, n) in m.previous)
  {
    if p in Reverse(m.modules) {
      ReverseFrom(m.modules, p);
    }
    if n in m.modules && m.modules[n] == p {
      ReverseAt(m.modules, n);
    }
    AsMapKeys(m.previous);
    forall i | 0 <= i < |m.previous| && m.previous[i].name == p
      ensures p in AsMap(m.previous) && AsMap(m.previous)[p] == m.previous[i].owner
    {
      AsMapAt(m.previous, i);
    }
  }

  lemma PlacedAt(src: map<string, string>, links: set<string>, m: Manifest, p: string)
    requires Injective(m.modules) && LoadOk(src, links, m) && p in src
    ensures Original(m, p).Some?
    ensures var n := Original(m, p).value;
            && n in Placed(src, links, m) && Placed(src, links, m)[n] == p
            && n in Loaded(src, links, m) && Loaded(src, links, m)[n] == src[p]
  {
    ReverseAt(Originals(src.Keys, m), p);
  }

  lemma PlacedFrom(src: map<string, string>, links: set<string>, m: Manifest, n: string)
    requires Injective(m.modules) && LoadOk(src, links, m) && n in Placed(src, links, m)
    ensures Placed(src, links, m)[n] in src && Original(m, Placed(src, links, m)[n]) == Some(n)
    ensures n in Loaded(src, links, m)
  {
    ReverseFrom(Originals(src.Keys, m), n);
  }

  /** Extraction drops no source. */
  lemma ExtractKeeps(files: map<string, string>, owners: seq<Assignment>)
    requires !Extract(files, owners).outcome.Rejected?
    ensures files.Keys <= Extract(files, owners).files.Keys
  {
    var e := Extract(files, owners);
    if e.outcome.Extracted? {
      ExtractConserves(files, owners);
    } else {
      AppliedUnchanged(files, owners);
    }
  }

  lemma AppliedUnchanged(files: map<string, string>, owners: seq<Assignment>)
    requires Extract(files, owners).outcome.Applied?
    ensures Extract(files, owners).files == files
  {
    if CHECKED in files && HeaderEntries(HeadLines(files[CHECKED])).Some? {
      FillNotApplied(files, Pool(files, owners), Pieces(Fragments(CheckerLines(files)), AsMap(owners)));
    }
  }

  // The tree afterwards.

  /** What writing and removing does to one path. */
  predicate PathBecomes(src: map<string, string>, writes: map<string, string>, removals: set<string>,
    want: map<string, string>, p: string)
  {
    if p in want then
      p !in removals && (if p in writes then writes[p] == want[p] else p in src && src[p] == want[p])
    else p !in writes && (p in src ==> p in removals)
  }

  lemma AllBecome(src: map<string, string>, writes: map<string, string>, removals: set<string>,
    want: map<string, string>)
    requires forall p :: PathBecomes(src, writes, removals, want, p)
    ensures writes.Keys !! removals && src + writes - removals == want
  {
    var after := src + writes - removals;
    forall p ensures !(p in writes && p in removals) && (p in after <==> p in want) {
      assert PathBecomes(src, writes, removals, want, p);
    }
    forall p | p in after ensures after[p] == want[p] {
      assert PathBecomes(src, writes, removals, want, p);
    }
  }

  ghost function Moved(m: Manifest, sources: map<string, string>): map<string, string>
    requires Injective(m.modules)
  {
    Via(Rewritten(TablesOf(m), sources), Reverse(m.modules))
  }

  lemma PathAfter(f: Files, m: Manifest, sources: map<string, string>, c: Changes, p: string)
    requires Stands(f, m, sources, c)
    ensures PathBecomes(f.src, c.writes, c.removals, Moved(m, sources), p)
  {
    var placed := Placed(f.src, f.srcLinks, m);
    if p in Reverse(m.modules) && Reverse(m.modules)[p] in sources {
      TargetPath(f, m, sources, c, p);
    } else if p in f.src {
      PlacedAt(f.src, f.srcLinks, m, p);
      ExtractKeeps(Loaded(f.src, f.srcLinks, m), m.owners);
      var n := Original(m, p).value;
      assert DestinationOk(f, m.modules, placed, n);
      ReverseAt(m.modules, n);
      assert m.modules[n] != p;
    }
  }

  lemma TargetPath(f: Files, m: Manifest, sources: map<string, string>, c: Changes, p: string)
    requires Stands(f, m, sources, c) && p in Reverse(m.modules) && Reverse(m.modules)[p] in sources
    ensures var n, contents := Reverse(m.modules)[p], Rewritten(TablesOf(m), sources);
            p !in c.removals && (if p in c.writes then c.writes[p] == contents[n]
              else p in f.src && f.src[p] == contents[n])
  {
    var placed := Placed(f.src, f.srcLinks, m);
    var n := Reverse(m.modules)[p];
    ReverseFrom(m.modules, p);
    assert DestinationOk(f, m.modules, placed, n);
    forall k | k in sources && k in placed && placed[k] != m.modules[k] ensures placed[k] != p {
      PlacedFrom(f.src, f.srcLinks, m, k);
      if placed[k] == p {
        assert placed[n] == p;
        PlacedFrom(f.src, f.srcLinks, m, n);
      }
    }
  }

  /**
   * Nothing written is removed, and afterwards there is exactly one file for each source: at its assigned path, with
   * its imports rewritten. No stale copy is left, and no other file.
   */
  lemma TreeAfter(f: Files, m: Manifest, sources: map<string, string>, c: Changes)
    requires Stands(f, m, sources, c)
    ensures c.writes.Keys !! c.removals
    ensures Carried(f, c).src == Moved(m, sources)
    ensures sources.Keys <= m.modules.Keys
    ensures Carried(f, c).cli == Rewritten(TablesOf(m), f.cli)
  {
    forall n | n in sources ensures n in m.modules {
      assert DestinationOk(f, m.modules, Placed(f.src, f.srcLinks, m), n);
    }
    forall p ensures PathBecomes(f.src, c.writes, c.removals, Moved(m, sources), p) {
      PathAfter(f, m, sources, c, p);
    }
    AllBecome(f.src, c.writes, c.removals, Moved(m, sources));
    CliAfter(f, TablesOf(m));
  }

  lemma CliAfter(f: Files, t: Tables)
    ensures f.cli + CliWrites(f.cli, Rewritten(t, f.cli)) == Rewritten(t, f.cli)
  {
  }
}
