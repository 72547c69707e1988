/** Extraction moves every function whole, to its owner, in order; and imports what each owner's text needs, once. */
module ExtractionConserves {
  import opened Wrappers
  import opened TextSearch
  import opened TextLines
  import opened Grouping
  import opened ImportLines
  import opened ImportRewriting
  import opened ImportStability
  import opened FunctionFragments
  import opened CheckerExtraction

  // Where functions go.

  function Assigned(owners: map<string, string>): Fragment -> string
  {
    (f: Fragment) => OwnerOf(owners, f.name)
  }

  lemma {:induction false} PiecesAreGrouped(fs: seq<Fragment>, owners: map<string, string>)
    ensures Pieces(fs, owners) == Grouped(fs, Assigned(owners))
  {
    if fs != [] {
      PiecesAreGrouped(fs[..|fs| - 1], owners);
    }
  }

  lemma OwnerFileFrame(files: map<string, string>, other: map<string, string>, pool: seq<Entry>, g: Group<Fragment>)
    requires g.key in files <==> g.key in other
    requires g.key in files ==> files[g.key] == other[g.key]
    ensures OwnerFile(files, pool, g) == OwnerFile(other, pool, g)
  {
    assert Kept(files, g.key) == Kept(other, g.key);
  }

  lemma {:induction false} FillOther(files: map<string, string>, pool: seq<Entry>, groups: seq<Group<Fragment>>,
    k: string)
    requires k !in Keys(groups)
    ensures var out := FillOwners(files, pool, groups).files;
            (k in out <==> k in files) && (k in files ==> out[k] == files[k])
    decreases |groups|
  {
    if groups != [] {
      var g, rest := groups[0], groups[1..];
      KeyAt(groups, 0);
      assert Keys(groups) == [g.key] + Keys(rest);
      match OwnerFile(files, pool, g)
      case None =>
      case Some(text) => FillOther(files[g.key := text], pool, rest, k);
    }
  }

  lemma FillStep(files: map<string, string>, pool: seq<Entry>, groups: seq<Group<Fragment>>)
    returns (text: string)
    requires groups != [] && FillOwners(files, pool, groups).outcome.Extracted?
    ensures OwnerFile(files, pool, groups[0]) == Some(text)
    ensures FillOwners(files, pool, groups) == FillOwners(files[groups[0].key := text], pool, groups[1..])
  {
    text := OwnerFile(files, pool, groups[0]).value;
  }

  lemma DistinctHead(groups: seq<Group<Fragment>>)
    requires groups != [] && Distinct(Keys(groups))
    ensures groups[0].key !in Keys(groups[1..])
    ensures forall i | 0 < i < |groups| :: groups[i].key != groups[0].key
  {
    assert Keys(groups) == [groups[0].key] + Keys(groups[1..]);
    forall i | 0 < i < |groups| ensures groups[i].key != groups[0].key {
      assert Keys(groups)[i] != Keys(groups)[0];
    }
  }

  ghost predicate HasFile(files: map<string, string>, pool: seq<Entry>, g: Group<Fragment>, out: map<string, string>)
  {
    g.key in out && OwnerFile(files, pool, g) == Some(out[g.key])
  }

  lemma HasFileFrame(files: map<string, string>, key: string, text: string, pool: seq<Entry>, g: Group<Fragment>,
    out: map<string, string>)
    requires g.key != key && HasFile(files[key := text], pool, g, out)
    ensures HasFile(files, pool, g, out)
  {
    OwnerFileFrame(files, files[key := text], pool, g);
  }

  lemma FillFirst(files: map<string, string>, pool: seq<Entry>, groups: seq<Group<Fragment>>)
    requires Distinct(Keys(groups)) && FillOwners(files, pool, groups).outcome.Extracted? && groups != []
    ensures HasFile(files, pool, groups[0], FillOwners(files, pool, groups).files)
  {
    var text := FillStep(files, pool, groups);
    DistinctHead(groups);
    FillOther(files[groups[0].key := text], pool, groups[1..], groups[0].key);
  }

  lemma {:induction false} FillOne(files: map<string, string>, pool: seq<Entry>, groups: seq<Group<Fragment>>,
    g: Group<Fragment>, out: map<string, string>)
    requires Distinct(Keys(groups)) && FillOwners(files, pool, groups) == Extraction(out, Extracted) && g in groups
    ensures HasFile(files, pool, g, out)
    decreases |groups|
  {
    if g == groups[0] {
      FillFirst(files, pool, groups);
    } else {
      var text := FillStep(files, pool, groups);
      assert g in groups[1..];
      DistinctHead(groups);
      DistinctRest(groups);
      FillOne(files[groups[0].key := text], pool, groups[1..], g, out);
      HasFileFrame(files, groups[0].key, text, pool, g, out);
    }
  }

  /** Filling the owners touches their files and no other, and no two of them share a file. */
  lemma FillExact(files: map<string, string>, pool: seq<Entry>, groups: seq<Group<Fragment>>)
    requires Distinct(Keys(groups)) && FillOwners(files, pool, groups).outcome.Extracted?
    ensures var out := FillOwners(files, pool, groups).files;
            && out.Keys == files.Keys + ToSet(Keys(groups))
            && forall k | k in files && k !in Keys(groups) :: out[k] == files[k]
  {
    var out := FillOwners(files, pool, groups).files;
    forall k ensures k in out <==> k in files || k in Keys(groups) {
      if k in Keys(groups) {
        var i :| 0 <= i < |groups| && Keys(groups)[i] == k;
        KeyAt(groups, i);
        FillOne(files, pool, groups, groups[i], out);
      } else {
        FillOther(files, pool, groups, k);
      }
    }
    forall k | k in files && k !in Keys(groups) ensures out[k] == files[k] {
      FillOther(files, pool, groups, k);
    }
  }

  lemma {:induction false} FillNotApplied(files: map<string, string>, pool: seq<Entry>, groups: seq<Group<Fragment>>)
    ensures !FillOwners(files, pool, groups).outcome.Applied?
    decreases |groups|
  {
    if groups != [] {
      match OwnerFile(files, pool, groups[0])
      case None =>
      case Some(text) => FillNotApplied(files[groups[0].key := text], pool, groups[1..]);
    }
  }

  // The dictionary of assignments.

  lemma {:induction false} AsMapKeys(owners: seq<Assignment>)
    ensures AsMap(owners).Keys == NamesOf(owners)
  {
    if owners != [] {
      var init, last := owners[..|owners| - 1], owners[|owners| - 1];
      AsMapKeys(init);
      assert forall a | a in owners :: a in init || a == last;
      assert last in owners && forall a | a in init :: a in owners;
    }
  }

  lemma {:induction false} AsMapAt(owners: seq<Assignment>, i: nat)
    requires DistinctNames(owners) && i < |owners|
    ensures owners[i].name in AsMap(owners) && AsMap(owners)[owners[i].name] == owners[i].owner
  {
    if i < |owners| - 1 {
      AsMapAt(owners[..|owners| - 1], i);
    }
  }

  // Conservation.

  predicate EndsBlank(s: string)
  {
    |s| >= 2 && s[|s| - 2] == '\n' && s[|s| - 1] == '\n'
  }

  lemma EndsBlankIs(s: string)
    requires |s| >= 2
    ensures EndsBlank(s) <==> s[|s| - 2..] == "\n\n"
  {
    var tail := s[|s| - 2..];
    assert tail == [s[|s| - 2], s[|s| - 1]];
  }

  /** What a module has is kept as it is, or closed by one newline so that a line it ends is followed by a blank one. */
  lemma PaddedIs(body: string)
    ensures Padded(body) == if body == "" || EndsBlank(body) then body else body + "\n"
    ensures EndsLine(body) && body != "" ==> EndsBlank(Padded(body))
  {
    if |body| >= 2 {
      EndsBlankIs(body);
    }
  }

  /** The text a module gets: its header, what it had, and exactly the functions assigned to it, whole and in order. */
  ghost predicate HoldsItsFunctions(files: map<string, string>, owners: seq<Assignment>, pool: seq<Entry>,
    owner: string, text: string)
    requires CHECKED in files
  {
    var moved := Having(Fragments(CheckerLines(files)), Assigned(AsMap(owners)), owner);
    var body := Padded(Body(Kept(files, owner))) + Concat(AllLines(moved));
    exists own :: HeaderEntries(HeadLines(Kept(files, owner))) == Some(own)
      && text == HeaderText(Picked(own + pool, owner, Declared(SplitLines(body)), body)) + body
  }

  ghost predicate Conserves(files: map<string, string>, owners: seq<Assignment>, out: map<string, string>)
    requires CHECKED in files
  {
    var lines := CheckerLines(files);
    var fs := Fragments(lines);
    var used := KeysOf(fs, Assigned(AsMap(owners)));
    // The text after the imports is white space and the functions, each of them assigned.
    && Body(files[CHECKED]) == Concat(lines[..Lead(lines)]) + Concat(AllLines(fs))
    && Blank(Concat(lines[..Lead(lines)]))
    && (forall f | f in fs :: FragmentOk(f))
    && Distinct(Names(fs)) && ToSet(Names(fs)) == NamesOf(owners)
    // Every owner gets its own; no other file changes or appears.
    && out.Keys == files.Keys + ToSet(used)
    && (forall k | k in files && k !in used :: out[k] == files[k])
    && HeaderEntries(HeadLines(files[CHECKED])).Some?
    && forall owner | owner in used :: HoldsItsFunctions(files, owners, Pool(files, owners), owner, out[owner])
  }

  lemma OwnerHolds(files: map<string, string>, owners: seq<Assignment>, pool: seq<Entry>, i: nat, text: string)
    requires CHECKED in files
    requires var groups := Pieces(Fragments(CheckerLines(files)), AsMap(owners));
             i < |groups| && OwnerFile(files, pool, groups[i]) == Some(text)
    ensures HoldsItsFunctions(files, owners, pool,
              Pieces(Fragments(CheckerLines(files)), AsMap(owners))[i].key, text)
  {
    var fs := Fragments(CheckerLines(files));
    PiecesAreGrouped(fs, AsMap(owners));
    GroupedExactly(fs, Assigned(AsMap(owners)));
    var g := Pieces(fs, AsMap(owners))[i];
    assert g.items == Having(fs, Assigned(AsMap(owners)), g.key);
    assert HeaderEntries(HeadLines(Kept(files, g.key))) == Some(HeaderEntries(HeadLines(Kept(files, g.key))).value);
  }

  function Pool(files: map<string, string>, owners: seq<Assignment>): seq<Entry>
    requires CHECKED in files && HeaderEntries(HeadLines(files[CHECKED])).Some?
  {
    HeaderEntries(HeadLines(files[CHECKED])).value + OwnedEntries(owners)
  }

  lemma OwnersHold(files: map<string, string>, owners: seq<Assignment>)
    requires CHECKED in files && HeaderEntries(HeadLines(files[CHECKED])).Some?
    requires var groups := Pieces(Fragments(CheckerLines(files)), AsMap(owners));
             FillOwners(files, Pool(files, owners), groups).outcome.Extracted?
    ensures var fs := Fragments(CheckerLines(files));
            var out := FillOwners(files, Pool(files, owners), Pieces(fs, AsMap(owners))).files;
            var used := KeysOf(fs, Assigned(AsMap(owners)));
            && out.Keys == files.Keys + ToSet(used)
            && (forall k | k in files && k !in used :: out[k] == files[k])
            && forall owner | owner in used :: HoldsItsFunctions(files, owners, Pool(files, owners), owner, out[owner])
  {
    var fs := Fragments(CheckerLines(files));
    var groups := Pieces(fs, AsMap(owners));
    PiecesAreGrouped(fs, AsMap(owners));
    GroupedExactly(fs, Assigned(AsMap(owners)));
    KeysDistinct(fs, Assigned(AsMap(owners)));
    FillExact(files, Pool(files, owners), groups);
    var out := FillOwners(files, Pool(files, owners), groups).files;
    forall owner | owner in Keys(groups)
      ensures HoldsItsFunctions(files, owners, Pool(files, owners), owner, out[owner])
    {
      var i :| 0 <= i < |groups| && Keys(groups)[i] == owner;
      KeyAt(groups, i);
      FillOne(files, Pool(files, owners), groups, groups[i], out);
      OwnerHolds(files, owners, Pool(files, owners), i, out[owner]);
    }
  }

  lemma ExtractConserves(files: map<string, string>, owners: seq<Assignment>)
    requires Extract(files, owners).outcome.Extracted?
    ensures CHECKED in files && Conserves(files, owners, Extract(files, owners).files)
  {
    BodyPartition(files);
    OwnersHold(files, owners);
  }

  lemma BodyPartition(files: map<string, string>)
    requires CHECKED in files
    ensures var lines := CheckerLines(files);
            && Body(files[CHECKED]) == Concat(lines[..Lead(lines)]) + Concat(AllLines(Fragments(lines)))
            && (forall f | f in Fragments(lines) :: FragmentOk(f))
            && Names(Fragments(lines)) == Declared(lines)
  {
    var lines := CheckerLines(files);
    ConcatSplit(Body(files[CHECKED]));
    Partition(lines);
    ConcatAppend(lines[..Lead(lines)], AllLines(Fragments(lines)));
    DeclaredFragments(lines);
  }

  // Headers.

  /** The first entry of the pool that offers a name the module wants. */
  predicate FirstOffer(pool: seq<Entry>, i: nat, owner: string, declared: seq<string>, body: string)
    requires i < |pool|
  {
    && Wanted(pool[i], owner, declared, body)
    && forall j | 0 <= j < i :: Wanted(pool[j], owner, declared, body) ==> pool[j].local != pool[i].local
  }

  /** All first offers, in the order of the pool. */
  function Offers(pool: seq<Entry>, n: nat, owner: string, declared: seq<string>, body: string): seq<Entry>
    requires n <= |pool|
  {
    if n == 0 then []
    else
      Offers(pool, n - 1, owner, declared, body)
      + (if FirstOffer(pool, n - 1, owner, declared, body) then [pool[n - 1]] else [])
  }

  lemma {:induction false} PickedLocals(pool: seq<Entry>, owner: string, declared: seq<string>, body: string,
    name: string)
    ensures name in Locals(Picked(pool, owner, declared, body))
       <==> exists j | 0 <= j < |pool| :: Wanted(pool[j], owner, declared, body) && pool[j].local == name
  {
    if pool != [] {
      var init, last := pool[..|pool| - 1], pool[|pool| - 1];
      PickedLocals(init, owner, declared, body, name);
      var before := Picked(init, owner, declared, body);
      assert Locals(before + [last]) == Locals(before) + [last.local];
      if Wanted(last, owner, declared, body) && last.local == name {
        assert pool[|pool| - 1].local == name;
      }
      if j :| 0 <= j < |init| && Wanted(init[j], owner, declared, body) && init[j].local == name {
        assert pool[j].local == name;
      }
    }
  }

  lemma {:induction false} OffersPrefix(pool: seq<Entry>, more: seq<Entry>, n: nat, owner: string,
    declared: seq<string>, body: string)
    requires n <= |pool| <= |more| && more[..|pool|] == pool
    ensures Offers(pool, n, owner, declared, body) == Offers(more, n, owner, declared, body)
  {
    if n > 0 {
      OffersPrefix(pool, more, n - 1, owner, declared, body);
      assert forall j | 0 <= j < n :: pool[j] == more[j];
    }
  }

  /**
   * What a module imports: every name it mentions and does not declare, that some other module offers, from the first
   * that does; and nothing else.
   */
  lemma {:induction false} PickedExact(pool: seq<Entry>, owner: string, declared: seq<string>, body: string)
    ensures Picked(pool, owner, declared, body) == Offers(pool, |pool|, owner, declared, body)
    ensures Distinct(Locals(Picked(pool, owner, declared, body)))
  {
    if pool != [] {
      var init, last := pool[..|pool| - 1], pool[|pool| - 1];
      PickedExact(init, owner, declared, body);
      OffersPrefix(init, pool, |init|, owner, declared, body);
      PickedLocals(init, owner, declared, body, last.local);
      var before := Picked(init, owner, declared, body);
      assert Locals(before + [last]) == Locals(before) + [last.local];
      assert forall j | 0 <= j < |init| :: init[j] == pool[j];
    }
  }

  function OfferMark(pool: seq<Entry>, i: nat, owner: string, declared: seq<string>, body: string): Option<Entry>
    requires i < |pool|
  {
    if FirstOffer(pool, i, owner, declared, body) then Some(pool[i]) else None
  }

  function OfferMarks(pool: seq<Entry>, n: nat, owner: string, declared: seq<string>, body: string): seq<Option<Entry>>
    requires n <= |pool|
  {
    seq(n, i requires 0 <= i < n => OfferMark(pool, i, owner, declared, body))
  }

  lemma {:induction false} OffersGathered(pool: seq<Entry>, n: nat, owner: string, declared: seq<string>, body: string)
    returns (at: seq<nat>)
    requires n <= |pool|
    ensures Gathers(OfferMarks(pool, n, owner, declared, body), at, Offers(pool, n, owner, declared, body))
  {
    if n == 0 {
      at := [];
    } else {
      at := OffersGathered(pool, n - 1, owner, declared, body);
      var before, mark := OfferMarks(pool, n - 1, owner, declared, body), OfferMark(pool, n - 1, owner, declared, body);
      GathersSnoc(before, at, Offers(pool, n - 1, owner, declared, body), mark);
      assert OfferMarks(pool, n, owner, declared, body) == before + [mark];
      at := if mark.Some? then at + [n - 1] else at;
    }
  }

  /** So the entries picked are the first offers of the pool, each once, in its order. */
  lemma PickedInOrder(pool: seq<Entry>, owner: string, declared: seq<string>, body: string) returns (at: seq<nat>)
    ensures Gathers(OfferMarks(pool, |pool|, owner, declared, body), at, Picked(pool, owner, declared, body))
  {
    PickedExact(pool, owner, declared, body);
    at := OffersGathered(pool, |pool|, owner, declared, body);
  }
}
