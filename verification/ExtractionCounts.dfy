/** How often each function is declared once the checker has been split: exactly when each has one owner. */
module ExtractionCounts {
  import opened Wrappers
  import opened TextLines
  import opened Grouping
  import opened ImportLines
  import opened ImportRewriting
  import opened FunctionFragments
  import opened CheckerExtraction
  import opened ExtractionConserves
  import opened ExtractionRerun

  // Imports declare nothing.

  lemma {:induction false} HeadDeclares(s: string, n: string)
    ensures Declarations(SplitLines(s), n) == Declarations(SplitLines(AfterHead(s)), n)
    decreases |s|
  {
    if IMPORT <= s {
      var k := LineLength(s);
      HeadDeclares(s[k..], n);
      LineKeepsStart(s);
      ImportLineDeclares(s[..k], n);
    }
  }

  lemma ImportLineDeclares(line: string, n: string)
    requires IMPORT <= Stripped(line)
    ensures !Declares(line, n)
  {
    assert line[0] == Stripped(line)[0] == 'i';
    assert (DEF + n + "(")[0] == 'd';
  }

  lemma BeforeCounts(files: map<string, string>, owner: string, n: string)
    requires owner != CHECKED && NameValid(n)
    ensures multiset(Before(files, owner))[n] == Declarations(FileLines(files, owner), n)
  {
    if owner in files {
      var s := files[owner];
      HeadDeclares(s, n);
      CountIs(SplitLines(Body(s)), n);
      BlankLineDeclares(s, n);
    } else {
      assert Kept(files, owner) == "";
    }
  }

  lemma BlankLineDeclares(s: string, n: string)
    ensures Declarations(SplitLines(AfterHead(s)), n) == Declarations(SplitLines(Body(s)), n)
  {
    var after := AfterHead(s);
    if "\n" <= after {
      assert after == "\n" + after[1..];
      LineSplits("\n", after[1..]);
      NewlineDeclares(n);
      assert SplitLines(after) == ["\n"] + SplitLines(after[1..]);
      assert SplitLines(after)[1..] == SplitLines(after[1..]);
    }
  }

  lemma NewlineDeclares(n: string)
    ensures !Declares("\n", n)
  {
  }

  lemma CheckerCounts(files: map<string, string>, n: string)
    requires CHECKED in files && NameValid(n)
    ensures Declarations(FileLines(files, CHECKED), n) == multiset(Declared(CheckerLines(files)))[n]
  {
    var s := files[CHECKED];
    HeadDeclares(s, n);
    BlankLineDeclares(s, n);
    CountIs(SplitLines(Body(s)), n);
  }

  // Every file afterwards.

  /** A name is assigned to a module. */
  predicate AssignedTo(owners: seq<Assignment>, n: string, k: string)
  {
    n in AsMap(owners) && AsMap(owners)[n] == k
  }

  /** The functions moved to a module have a name once if it is assigned there, and otherwise not at all. */
  lemma MovedCount(files: map<string, string>, owners: seq<Assignment>, n: string, k: string)
    requires Extract(files, owners).outcome.Extracted? && DistinctNames(owners)
    ensures CHECKED in files
    ensures multiset(Names(Having(Fragments(CheckerLines(files)), Assigned(AsMap(owners)), k)))[n]
         == if AssignedTo(owners, n, k) then 1 else 0
  {
    var fs, key := Fragments(CheckerLines(files)), Assigned(AsMap(owners));
    ExtractedFacts(files, owners);
    AsMapKeys(owners);
    if AssignedTo(owners, n, k) {
      var a :| a in owners && a.name == n;
      OwnerIs(owners, a);
      MovesOnce(files, owners, a);
    }
    if n in Names(Having(fs, key, k)) {
      MovedAssigned(files, owners, n, k);
    }
  }

  lemma MovedAssigned(files: map<string, string>, owners: seq<Assignment>, n: string, k: string)
    requires Extract(files, owners).outcome.Extracted? && CHECKED in files
    requires n in Names(Having(Fragments(CheckerLines(files)), Assigned(AsMap(owners)), k))
    ensures AssignedTo(owners, n, k)
  {
    var fs, key := Fragments(CheckerLines(files)), Assigned(AsMap(owners));
    var f := NamedFragment(Having(fs, key, k), n);
    HavingItems(fs, key, k);
    FragmentNamed(fs, f);
    BodyPartition(files);
    ExtractedFacts(files, owners);
    AsMapKeys(owners);
    assert n in NamesOf(owners);
  }

  /** No file but the checker's loses a declaration, and each gains exactly those assigned to it. */
  lemma CountAfter(files: map<string, string>, owners: seq<Assignment>, out: map<string, string>, n: string, k: string)
    requires Extract(files, owners) == Extraction(out, Extracted) && DistinctNames(owners)
    requires (forall a | a in owners :: IsModule(a.owner)) && k != CHECKED && NameValid(n)
    ensures Declarations(FileLines(out, k), n)
         == Declarations(FileLines(files, k), n) + if AssignedTo(owners, n, k) then 1 else 0
  {
    ExtractConserves(files, owners);
    NamesWords(files, owners);
    MovedCount(files, owners, n, k);
    if k in KeysOf(Fragments(CheckerLines(files)), Assigned(AsMap(owners))) {
      OwnerDeclares(files, owners, k, out[k]);
      CountIs(SplitLines(out[k]), n);
      BeforeCounts(files, k, n);
    } else if AssignedTo(owners, n, k) {
      AssignedUsed(files, owners, n, k);
    }
  }

  lemma AssignedUsed(files: map<string, string>, owners: seq<Assignment>, n: string, k: string)
    requires Extract(files, owners).outcome.Extracted? && DistinctNames(owners) && AssignedTo(owners, n, k)
    ensures CHECKED in files && k in KeysOf(Fragments(CheckerLines(files)), Assigned(AsMap(owners)))
  {
    AsMapKeys(owners);
    var a :| a in owners && a.name == n;
    OwnerIs(owners, a);
    MovesOnce(files, owners, a);
  }

  /** The checker keeps the functions assigned to it, unless there are none: then it keeps them all. */
  lemma CheckerCountAfter(files: map<string, string>, owners: seq<Assignment>, out: map<string, string>, n: string)
    requires Extract(files, owners) == Extraction(out, Extracted) && DistinctNames(owners)
    requires (forall a | a in owners :: IsModule(a.owner)) && NameValid(n)
    ensures Declarations(FileLines(out, CHECKED), n)
         == if AssignedTo(owners, n, CHECKED) || (!SomeStay(owners) && n in AsMap(owners)) then 1 else 0
  {
    NamesWords(files, owners);
    AsMapKeys(owners);
    if SomeStay(owners) {
      StayingCount(files, owners, out, n);
    } else {
      NoneStay(files, owners, out);
      ExtractedFacts(files, owners);
      CheckerCounts(files, n);
      assert n in Declared(CheckerLines(files)) <==> n in NamesOf(owners);
      DistinctOnce(Declared(CheckerLines(files)), n);
      NotAssignedTo(owners, n);
    }
  }

  lemma NotAssignedTo(owners: seq<Assignment>, n: string)
    requires !SomeStay(owners) && DistinctNames(owners)
    ensures !AssignedTo(owners, n, CHECKED)
  {
    AsMapKeys(owners);
    if n in NamesOf(owners) {
      var a :| a in owners && a.name == n;
      OwnerIs(owners, a);
    }
  }

  lemma StayingCount(files: map<string, string>, owners: seq<Assignment>, out: map<string, string>, n: string)
    requires Extract(files, owners) == Extraction(out, Extracted) && DistinctNames(owners)
    requires (forall a | a in owners :: IsModule(a.owner)) && SomeStay(owners) && NameValid(n)
    ensures Declarations(FileLines(out, CHECKED), n) == if AssignedTo(owners, n, CHECKED) then 1 else 0
  {
    var stays :| stays in owners && stays.owner == CHECKED;
    ExtractConserves(files, owners);
    NamesWords(files, owners);
    MovesOnce(files, owners, stays);
    OwnerDeclares(files, owners, CHECKED, out[CHECKED]);
    MovedCount(files, owners, n, CHECKED);
    CountIs(SplitLines(out[CHECKED]), n);
    EmptyKept();
  }

  lemma SomeMove(owners: seq<Assignment>)
    ensures NamesOf(owners) == Staying(owners) || exists x :: x in owners && x.owner != CHECKED
  {
    if forall x | x in owners :: x.owner == CHECKED {
      assert NamesOf(owners) == Staying(owners);
    }
  }

  /** A function is declared once in its owner, and in the checker only if that is its owner. */
  predicate InOneOwner(files: map<string, string>, a: Assignment)
  {
    && Declarations(FileLines(files, a.owner), a.name) == 1
    && (a.owner != CHECKED ==> Declarations(FileLines(files, CHECKED), a.name) == 0)
  }

  /**
   * After an extraction every function is in its one owner, exactly when some function stays in the checker and the
   * module that may exist beforehand declared none of those that moved to it.
   */
  lemma ExtractedOnce(files: map<string, string>, owners: seq<Assignment>, out: map<string, string>)
    requires Extract(files, owners) == Extraction(out, Extracted) && DistinctNames(owners)
    requires forall a | a in owners :: IsModule(a.owner)
    ensures (forall a | a in owners :: InOneOwner(out, a)) <==> SomeStay(owners) && LambdaClear(files, owners)
  {
    MissingExactly(files, owners, out);
    NamesWords(files, owners);
    AsMapKeys(owners);
    forall a | a in owners
      ensures Declarations(FileLines(out, CHECKED), a.name) == if a.owner == CHECKED || !SomeStay(owners) then 1 else 0
    {
      CheckerCountAfter(files, owners, out, a.name);
      OwnerIs(owners, a);
      assert a.name in NamesOf(owners);
    }
    if !SomeStay(owners) {
      ExtractedFacts(files, owners);
      SomeMove(owners);
      var a :| a in owners && a.owner != CHECKED;
      assert !InOneOwner(out, a);
    }
  }
}
