/** Exactly when the checker's functions are moved. */
module ExtractionOutcomes {
  import opened Wrappers
  import opened TextLines
  import opened Grouping
  import opened ImportLines
  import opened ImportRewriting
  import opened FunctionFragments
  import opened CheckerExtraction
  import opened ExtractionConserves

  /** The header of a file, if there is one, has named imports only. */
  predicate HeaderNamed(files: map<string, string>, owner: string)
  {
    HeaderEntries(HeadLines(Kept(files, owner))).Some?
  }

  lemma OwnerFileIs(files: map<string, string>, pool: seq<Entry>, g: Group<Fragment>)
    ensures OwnerFile(files, pool, g).Some? <==> HeaderNamed(files, g.key)
  {
  }

  lemma NamedFrame(files: map<string, string>, key: string, text: string, owner: string)
    requires key != owner
    ensures HeaderNamed(files[key := text], owner) <==> HeaderNamed(files, owner)
  {
    assert Kept(files[key := text], owner) == Kept(files, owner);
  }

  ghost predicate AllNamed(files: map<string, string>, groups: seq<Group<Fragment>>)
  {
    forall g | g in groups :: HeaderNamed(files, g.key)
  }

  lemma NamedRest(files: map<string, string>, text: string, groups: seq<Group<Fragment>>)
    requires groups != [] && Distinct(Keys(groups))
    ensures AllNamed(files, groups)
       <==> HeaderNamed(files, groups[0].key) && AllNamed(files[groups[0].key := text], groups[1..])
  {
    DistinctHead(groups);
    assert groups[0] in groups && forall g | g in groups[1..] :: g in groups;
    forall g | g in groups[1..]
      ensures HeaderNamed(files[groups[0].key := text], g.key) <==> HeaderNamed(files, g.key)
    {
      var i :| 0 < i < |groups| && groups[i] == g;
      NamedFrame(files, groups[0].key, text, g.key);
    }
    assert forall g | g in groups :: g == groups[0] || g in groups[1..];
  }

  /** The owners are filled to the end exactly when the header of each has named imports only. */
  lemma {:induction false} FilledExactly(files: map<string, string>, pool: seq<Entry>, groups: seq<Group<Fragment>>)
    requires Distinct(Keys(groups))
    ensures FillOwners(files, pool, groups).outcome.Extracted? <==> AllNamed(files, groups)
    decreases |groups|
  {
    if groups != [] {
      OwnerFileIs(files, pool, groups[0]);
      var text := OwnerFile(files, pool, groups[0]);
      NamedRest(files, if text.Some? then text.value else "", groups);
      if text.Some? {
        DistinctRest(groups);
        FilledExactly(files[groups[0].key := text.value], pool, groups[1..]);
      } else {
        assert groups[0] in groups;
      }
    }
  }

  /** The modules that functions are assigned to. */
  function Owners(owners: seq<Assignment>): set<string>
  {
    set a | a in owners :: a.owner
  }

  lemma AssignedOwner(owners: seq<Assignment>, a: Assignment)
    requires DistinctNames(owners) && a in owners
    ensures OwnerOf(AsMap(owners), a.name) == a.owner
  {
    var i :| 0 <= i < |owners| && owners[i] == a;
    AsMapAt(owners, i);
  }

  /** When the functions declared are those assigned, the modules that get some are the owners. */
  lemma UsedOwners(fs: seq<Fragment>, owners: seq<Assignment>, k: string)
    requires DistinctNames(owners) && ToSet(Names(fs)) == NamesOf(owners)
    ensures k in KeysOf(fs, Assigned(AsMap(owners))) <==> k in Owners(owners)
  {
    KeysHave(fs, Assigned(AsMap(owners)), k);
    if i :| 0 <= i < |fs| && Assigned(AsMap(owners))(fs[i]) == k {
      assert Names(fs)[i] in ToSet(Names(fs));
      var a :| a in owners && a.name == fs[i].name;
      AssignedOwner(owners, a);
    }
    if k in Owners(owners) {
      var a :| a in owners && a.owner == k;
      assert a.name in NamesOf(owners);
      var i :| 0 <= i < |fs| && Names(fs)[i] == a.name;
      AssignedOwner(owners, a);
      assert Assigned(AsMap(owners))(fs[i]) == k;
    }
  }

  lemma NamedOwners(files: map<string, string>, fs: seq<Fragment>, owners: seq<Assignment>)
    requires DistinctNames(owners) && ToSet(Names(fs)) == NamesOf(owners)
    ensures Distinct(Keys(Pieces(fs, AsMap(owners))))
    ensures AllNamed(files, Pieces(fs, AsMap(owners))) <==> forall k | k in Owners(owners) :: HeaderNamed(files, k)
  {
    var groups := Pieces(fs, AsMap(owners));
    PiecesAreGrouped(fs, AsMap(owners));
    GroupedExactly(fs, Assigned(AsMap(owners)));
    KeysDistinct(fs, Assigned(AsMap(owners)));
    forall k ensures k in Keys(groups) <==> k in Owners(owners) {
      UsedOwners(fs, owners, k);
    }
    forall i | 0 <= i < |groups| ensures groups[i].key in Keys(groups) {
      KeyAt(groups, i);
    }
    forall k | k in Keys(groups) ensures exists g | g in groups :: g.key == k {
      var i :| 0 <= i < |groups| && Keys(groups)[i] == k;
      KeyAt(groups, i);
    }
  }

  /** What makes an extraction possible, and something left to do. */
  predicate Extractable(files: map<string, string>, owners: seq<Assignment>)
  {
    && CHECKED in files
    && var lines := CheckerLines(files);
       && ToSet(Declared(lines)) == NamesOf(owners) != Staying(owners) && Distinct(Declared(lines))
       && Blank(Concat(lines[..Lead(lines)])) && HeaderEntries(HeadLines(files[CHECKED])).Some?
       && forall o | o in Owners(owners) && o in files :: o == CHECKED || (o == LAMBDA && HeaderNamed(files, o))
  }

  /**
   * The functions are moved exactly when the checker has named imports and then nothing but the functions assigned,
   * each once, not all of which stay, and of their owners only the one that may exist does, with named imports.
   */
  lemma ExtractedExactly(files: map<string, string>, owners: seq<Assignment>)
    requires DistinctNames(owners)
    ensures Extract(files, owners).outcome.Extracted? <==> Extractable(files, owners)
  {
    if CHECKED in files && ToSet(Declared(CheckerLines(files))) == NamesOf(owners) {
      var fs := Fragments(CheckerLines(files));
      DeclaredFragments(CheckerLines(files));
      NamedOwners(files, fs, owners);
      if HeaderEntries(HeadLines(files[CHECKED])).Some? {
        FilledExactly(files, Pool(files, owners), Pieces(fs, AsMap(owners)));
      }
      NewOwnersNamed(files, owners);
    }
  }

  /** A file that does not exist, and the checker, start empty. */
  lemma NewOwnersNamed(files: map<string, string>, owners: seq<Assignment>)
    ensures !SomeOwnerExists(files, owners) && (forall k | k in Owners(owners) :: HeaderNamed(files, k))
       <==> forall o | o in Owners(owners) && o in files :: o == CHECKED || (o == LAMBDA && HeaderNamed(files, o))
  {
    forall k | k == CHECKED || k !in files ensures HeaderNamed(files, k) {
      assert HeadLines("") == [];
    }
    if SomeOwnerExists(files, owners) {
      var a :| a in owners && a.owner != CHECKED && a.owner != LAMBDA && a.owner in files;
      assert a.owner in Owners(owners);
    }
  }
}
