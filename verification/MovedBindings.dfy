/**
 * What the names in a moved function stand for. In the checker a name is a function of it or one of its imports; in the
 * file the function moves to it is imported, or the file's own. The two agree unless the name is captured there.
 */
module MovedBindings {
  import opened Wrappers
  import opened TextSearch
  import opened WordSearch
  import opened TextLines
  import opened Grouping
  import opened ImportLines
  import opened ImportRewriting
  import opened ImportStability
  import opened FunctionFragments
  import opened CheckerExtraction
  import opened ExtractionConserves
  import opened ExtractedHeaders
  import opened ExtractionRerun
  import opened ExtractionCounts

  // Mentions in a longer text.

  lemma CharWithin(before: string, part: string, after: string, i: nat)
    requires i < |part|
    ensures (before + part + after)[|before| + i] == part[i]
  {
  }

  lemma AtInside(name: string, before: string, part: string, after: string, i: nat)
    requires At(name, part, i)
    ensures At(name, before + part + after, |before| + i)
  {
    assert (before + part + after)[|before| + i..|before| + i + |name|] == part[i..i + |name|];
  }

  lemma LeftInside(before: string, part: string, after: string, i: nat)
    requires i <= |part| && EndsLine(before) && (i > 0 ==> !IsWordChar(part[i - 1])) && |before| + i > 0
    ensures !IsWordChar((before + part + after)[|before| + i - 1])
  {
    if i > 0 {
      CharWithin(before, part, after, i - 1);
    }
  }

  lemma LastOfWord(name: string, part: string, i: nat)
    requires IsWord(name) && At(name, part, i)
    ensures IsWordChar(part[i + |name| - 1])
  {
    assert part[i..i + |name|][|name| - 1] == part[i + |name| - 1];
  }

  lemma RightInside(name: string, before: string, part: string, after: string, i: nat)
    requires IsWord(name) && StandsAt(name, part, i) && (after == "" || EndsLine(part))
    requires |before| + i + |name| < |before + part + after|
    ensures !IsWordChar((before + part + after)[|before| + i + |name|])
  {
    LastOfWord(name, part, i);
    if i + |name| < |part| {
      CharWithin(before, part, after, i + |name|);
    }
  }

  /** A whole word of a line-wise part of a text is a whole word of the text. */
  lemma StandsInside(name: string, before: string, part: string, after: string, i: nat)
    requires IsWord(name) && StandsAt(name, part, i)
    requires EndsLine(before) && (after == "" || EndsLine(part))
    ensures StandsAt(name, before + part + after, |before| + i)
  {
    AtInside(name, before, part, after, i);
    if |before| + i > 0 {
      LeftInside(before, part, after, i);
    }
    if |before| + i + |name| < |before + part + after| {
      RightInside(name, before, part, after, i);
    }
  }

  lemma MentionedInside(name: string, before: string, part: string, after: string)
    requires IsWord(name) && Mentions(name, part)
    requires EndsLine(before) && (after == "" || EndsLine(part))
    ensures Mentions(name, before + part + after)
  {
    MentionsWholeWord(name, part);
    var i: nat :| StandsAt(name, part, i);
    StandsInside(name, before, part, after, i);
    MentionsWholeWord(name, before + part + after);
  }

  lemma {:induction false} LinesEnd(lines: seq<string>)
    requires forall l | l in lines :: IsLine(l)
    ensures EndsLine(Concat(lines))
  {
    if lines != [] {
      assert lines[0] in lines;
      LinesEnd(lines[1..]);
      if Concat(lines[1..]) == "" {
        assert Concat(lines) == lines[0];
      } else {
        LastChar(lines[0], Concat(lines[1..]));
      }
    }
  }

  lemma {:induction false} AllLinesAppend(a: seq<Fragment>, b: seq<Fragment>)
    ensures AllLines(a + b) == AllLines(a) + AllLines(b)
  {
    if a == [] {
      assert a + b == b;
    } else {
      AllLinesAppend(a[1..], b);
      assert (a + b)[1..] == a[1..] + b;
      Associates(a[0].lines, AllLines(a[1..]), AllLines(b));
    }
  }

  lemma {:induction false} AllFull(fs: seq<Fragment>)
    requires forall f | f in fs :: Full(f)
    ensures forall l | l in AllLines(fs) :: IsLine(l)
  {
    if fs != [] {
      assert fs[0] in fs;
      AllFull(fs[1..]);
    }
  }

  lemma AllLinesCons(f: Fragment, rest: seq<Fragment>)
    ensures AllLines([f] + rest) == f.lines + AllLines(rest)
  {
    assert ([f] + rest)[1..] == rest;
  }

  lemma ConcatThree(a: seq<string>, b: seq<string>, c: seq<string>)
    ensures Concat(a + (b + c)) == Concat(a) + Concat(b) + Concat(c)
  {
    ConcatAppend(a, b + c);
    ConcatAppend(b, c);
    Associates(Concat(a), Concat(b), Concat(c));
  }

  lemma AroundOne(a: seq<Fragment>, f: Fragment, b: seq<Fragment>)
    ensures Concat(AllLines(a + ([f] + b))) == Concat(AllLines(a)) + Concat(f.lines) + Concat(AllLines(b))
  {
    AllLinesAppend(a, [f] + b);
    AllLinesCons(f, b);
    ConcatThree(AllLines(a), f.lines, AllLines(b));
  }

  lemma SplitAt<T>(s: seq<T>, i: nat)
    requires i < |s|
    ensures s == s[..i] + ([s[i]] + s[i + 1..])
  {
  }

  /** The text of fragments around one of them. */
  lemma AroundFragment(fs: seq<Fragment>, i: nat)
    requires i < |fs|
    ensures Concat(AllLines(fs)) == Concat(AllLines(fs[..i])) + Concat(fs[i].lines) + Concat(AllLines(fs[i + 1..]))
  {
    SplitAt(fs, i);
    AroundOne(fs[..i], fs[i], fs[i + 1..]);
  }

  lemma FragmentMentions(name: string, before: string, fs: seq<Fragment>, i: nat)
    requires IsWord(name) && i < |fs| && Mentions(name, Concat(fs[i].lines))
    requires EndsLine(before) && Sealed(fs)
    ensures Mentions(name, before + Concat(AllLines(fs)))
  {
    var a, b := Concat(AllLines(fs[..i])), Concat(AllLines(fs[i + 1..]));
    forall f | f in fs[..i] ensures Full(f) {
      var j :| 0 <= j < i && fs[j] == f;
    }
    AllFull(fs[..i]);
    LinesEnd(AllLines(fs[..i]));
    if i < |fs| - 1 {
      assert Full(fs[i]);
      LinesEnd(fs[i].lines);
    } else {
      assert fs[i + 1..] == [];
    }
    AroundFragment(fs, i);
    EndsTogether(before, a);
    MentionedInside(name, before + a, Concat(fs[i].lines), b);
    Associates(before, a, Concat(fs[i].lines));
    Associates(before, a + Concat(fs[i].lines), b);
  }

  lemma EndsTogether(a: string, b: string)
    requires EndsLine(a) && EndsLine(b)
    ensures EndsLine(a + b)
  {
    if b == "" {
      assert a + b == a;
    }
  }

  // What a name is imported as.

  /** The first entry under a name. */
  function First(es: seq<Entry>, name: string): Option<Entry>
  {
    if es == [] then None
    else
      var last := es[|es| - 1];
      var before := First(es[..|es| - 1], name);
      if before.None? && last.local == name then Some(last) else before
  }

  /** The first entry under a name that is from another module. */
  function Offered(es: seq<Entry>, name: string, owner: string): Option<Entry>
  {
    if es == [] then None
    else
      var last := es[|es| - 1];
      var before := Offered(es[..|es| - 1], name, owner);
      if before.None? && last.local == name && last.module_ != owner then Some(last) else before
  }

  lemma {:induction false} FirstIn(es: seq<Entry>, name: string)
    ensures First(es, name).None? <==> name !in Locals(es)
    ensures First(es, name).Some? ==> First(es, name).value in es && First(es, name).value.local == name
  {
    if es != [] {
      var init, last := es[..|es| - 1], es[|es| - 1];
      FirstIn(init, name);
      assert es == init + [last];
      assert Locals(es) == Locals(init) + [last.local];
    }
  }

  lemma FirstSnoc(es: seq<Entry>, e: Entry, name: string)
    ensures First(es + [e], name) == if First(es, name).None? && e.local == name then Some(e) else First(es, name)
  {
    assert (es + [e])[..|es|] == es;
  }

  /** A mentioned name that a module does not declare is imported as the first offer of it. */
  lemma {:induction false} PickedFirst(pool: seq<Entry>, owner: string, declared: seq<string>, body: string,
    name: string)
    requires Mentions(name, body)
    ensures First(Picked(pool, owner, declared, body), name)
         == if name in declared then None else Offered(pool, name, owner)
  {
    if pool != [] {
      var init, last := pool[..|pool| - 1], pool[|pool| - 1];
      PickedFirst(init, owner, declared, body, name);
      var before := Picked(init, owner, declared, body);
      FirstSnoc(before, last, name);
      FirstIn(before, last.local);
    }
  }

  lemma {:induction false} OfferedAppend(a: seq<Entry>, b: seq<Entry>, name: string, owner: string)
    ensures Offered(a + b, name, owner)
         == if Offered(a, name, owner).Some? then Offered(a, name, owner) else Offered(b, name, owner)
  {
    if b == [] {
      assert a + b == a;
    } else {
      var init, last := b[..|b| - 1], b[|b| - 1];
      OfferedAppend(a, init, name, owner);
      assert (a + b)[..|a + b| - 1] == a + init;
    }
  }

  /** Of the assigned functions a name offers the one it names, from its owner. */
  lemma {:induction false} OfferedOwned(owners: seq<Assignment>, name: string, owner: string)
    requires DistinctNames(owners)
    ensures Offered(OwnedEntries(owners), name, owner)
         == if name in AsMap(owners) && AsMap(owners)[name] != owner then Some(Entry(name, name, AsMap(owners)[name]))
            else None
  {
    if owners != [] {
      var init, last := owners[..|owners| - 1], owners[|owners| - 1];
      OfferedOwned(init, name, owner);
      assert OwnedEntries(owners)[..|owners| - 1] == OwnedEntries(init);
      AsMapKeys(init);
      assert last.name !in NamesOf(init);
    }
  }

  // What a name stands for.

  function Own(name: string, owner: string): Entry
  {
    Entry(name, name, owner)
  }

  /** What an extracted checker means by a name: its function of that name, now in its owner, or its first import. */
  function Meant(files: map<string, string>, owners: seq<Assignment>, name: string): Option<Entry>
    requires CHECKED in files && HeaderEntries(HeadLines(files[CHECKED])).Some?
  {
    if name in AsMap(owners) then Some(Own(name, AsMap(owners)[name]))
    else First(HeaderEntries(HeadLines(files[CHECKED])).value, name)
  }

  /** What a module with this header means by a name: what it imports under it, or else its own. */
  function Bound(imports: seq<Entry>, owner: string, name: string): Entry
  {
    match First(imports, name)
    case None => Own(name, owner)
    case Some(e) => e
  }

  /** What the header of an owner imports. */
  function OwnerImports(files: map<string, string>, owners: seq<Assignment>, owner: string): seq<Entry>
    requires CHECKED in files && HeaderEntries(HeadLines(files[CHECKED])).Some?
    requires HeaderEntries(HeadLines(Kept(files, owner))).Some?
  {
    var body := OwnerBody(files, owners, owner);
    var own := HeaderEntries(HeadLines(Kept(files, owner))).value;
    Picked(own + Pool(files, owners), owner, Declared(SplitLines(body)), body)
  }

  /** The imports that come before the checker's functions when a header is made: the old ones, then the checker's. */
  function EarlierImports(files: map<string, string>, owner: string): seq<Entry>
    requires CHECKED in files && HeaderEntries(HeadLines(files[CHECKED])).Some?
    requires HeaderEntries(HeadLines(Kept(files, owner))).Some?
  {
    HeaderEntries(HeadLines(Kept(files, owner))).value + HeaderEntries(HeadLines(files[CHECKED])).value
  }

  /**
   * In the file of an owner a name is taken for something else than was meant: for a function that the file declared
   * already, for an earlier import from another module, or, when neither is there, for the file's own.
   */
  predicate Captured(files: map<string, string>, owners: seq<Assignment>, owner: string, name: string, meant: Entry)
    requires CHECKED in files && HeaderEntries(HeadLines(files[CHECKED])).Some?
    requires HeaderEntries(HeadLines(Kept(files, owner))).Some?
  {
    if name in Before(files, owner) || AssignedTo(owners, name, owner) then meant != Own(name, owner)
    else
      match Offered(EarlierImports(files, owner), name, owner)
      case Some(e) => e != meant
      case None => name !in AsMap(owners) && meant != Own(name, owner)
  }

  lemma BodyNames(files: map<string, string>, owners: seq<Assignment>, owner: string, name: string)
    requires Extract(files, owners).outcome.Extracted? && DistinctNames(owners)
    ensures CHECKED in files
    ensures name in Declared(SplitLines(OwnerBody(files, owners, owner)))
       <==> name in Before(files, owner) || AssignedTo(owners, name, owner)
  {
    ExtractedFacts(files, owners);
    BodyDeclares(files, owners, owner);
    MovedCount(files, owners, name, owner);
    var moved := Names(Having(Fragments(CheckerLines(files)), Assigned(AsMap(owners)), owner));
    assert name in moved <==> multiset(moved)[name] > 0;
  }

  lemma BoundIs(files: map<string, string>, owners: seq<Assignment>, owner: string, name: string)
    requires Extract(files, owners).outcome.Extracted? && DistinctNames(owners)
    requires CHECKED in files && HeaderEntries(HeadLines(files[CHECKED])).Some?
    requires HeaderEntries(HeadLines(Kept(files, owner))).Some? && Mentions(name, OwnerBody(files, owners, owner))
    ensures Bound(OwnerImports(files, owners, owner), owner, name)
         == if name in Before(files, owner) || AssignedTo(owners, name, owner) then Own(name, owner)
            else if Offered(EarlierImports(files, owner), name, owner).Some?
            then Offered(EarlierImports(files, owner), name, owner).value
            else if name in AsMap(owners) then Own(name, AsMap(owners)[name])
            else Own(name, owner)
  {
    var body := OwnerBody(files, owners, owner);
    var own := HeaderEntries(HeadLines(Kept(files, owner))).value;
    var header := HeaderEntries(HeadLines(files[CHECKED])).value;
    PickedFirst(own + Pool(files, owners), owner, Declared(SplitLines(body)), body, name);
    BodyNames(files, owners, owner, name);
    Associates(own, header, OwnedEntries(owners));
    OfferedAppend(own + header, OwnedEntries(owners), name, owner);
    OfferedOwned(owners, name, owner);
  }

  /** A name that a moved function mentions is mentioned in the file it moves to. */
  lemma MovedMentions(files: map<string, string>, owners: seq<Assignment>, owner: string, f: Fragment, name: string)
    requires CHECKED in files && IsWord(name) && Mentions(name, Concat(f.lines))
    requires f in Having(Fragments(CheckerLines(files)), Assigned(AsMap(owners)), owner)
    ensures Mentions(name, OwnerBody(files, owners, owner))
  {
    var moved := Having(Fragments(CheckerLines(files)), Assigned(AsMap(owners)), owner);
    var i :| 0 <= i < |moved| && moved[i] == f;
    MovedWell(files, owners, owner);
    DeclaredPadded(Body(Kept(files, owner)));
    FragmentMentions(name, Padded(Body(Kept(files, owner))), moved, i);
  }

  /**
   * The file of an owner is its imports and its text; and what a moved function meant by a name it mentions, as a
   * function or an import of the checker, is what the file means by it, exactly when the name is not captured.
   */
  lemma MovedMeaning(files: map<string, string>, owners: seq<Assignment>, out: map<string, string>, owner: string,
    f: Fragment, name: string)
    requires Extract(files, owners) == Extraction(out, Extracted) && DistinctNames(owners)
    requires CHECKED in files && HeaderEntries(HeadLines(files[CHECKED])).Some?
    requires f in Having(Fragments(CheckerLines(files)), Assigned(AsMap(owners)), owner)
    requires IsWord(name) && Mentions(name, Concat(f.lines)) && Meant(files, owners, name).Some?
    ensures HeaderEntries(HeadLines(Kept(files, owner))).Some? && owner in out
    ensures out[owner] == HeaderText(OwnerImports(files, owners, owner)) + OwnerBody(files, owners, owner)
    ensures Bound(OwnerImports(files, owners, owner), owner, name) == Meant(files, owners, name).value
       <==> !Captured(files, owners, owner, name, Meant(files, owners, name).value)
  {
    HavingItems(Fragments(CheckerLines(files)), Assigned(AsMap(owners)), owner);
    ExtractConserves(files, owners);
    assert HoldsItsFunctions(files, owners, Pool(files, owners), owner, out[owner]);
    MovedMentions(files, owners, owner, f, name);
    BoundIs(files, owners, owner, name);
  }

  lemma {:induction false} OfferedFirst(es: seq<Entry>, name: string, owner: string)
    requires First(es, name).Some? ==> First(es, name).value.module_ != owner
    ensures Offered(es, name, owner) == First(es, name)
  {
    if es != [] && First(es[..|es| - 1], name).Some? {
      OfferedFirst(es[..|es| - 1], name, owner);
    } else if es != [] {
      OfferedFirst(es[..|es| - 1], name, owner);
    }
  }

  /**
   * For a name that the checker binds once, and not to the owner itself, this is to say: the meaning is kept exactly
   * when the owner's old declarations and its old header offer no other binding of the name.
   */
  lemma CapturedByOld(files: map<string, string>, owners: seq<Assignment>, owner: string, name: string, meant: Entry)
    requires CHECKED in files && HeaderEntries(HeadLines(files[CHECKED])).Some?
    requires HeaderEntries(HeadLines(Kept(files, owner))).Some?
    requires Meant(files, owners, name) == Some(meant) && meant.module_ != owner
    requires name in AsMap(owners) ==> First(HeaderEntries(HeadLines(files[CHECKED])).value, name).None?
    ensures var old_ := Offered(HeaderEntries(HeadLines(Kept(files, owner))).value, name, owner);
            var clash := old_.Some? && old_.value != meant;
            Captured(files, owners, owner, name, meant) <==> name in Before(files, owner) || clash
  {
    var own := HeaderEntries(HeadLines(Kept(files, owner))).value;
    var header := HeaderEntries(HeadLines(files[CHECKED])).value;
    OfferedAppend(own, header, name, owner);
    OfferedFirst(header, name, owner);
  }
}
