/** Running the extraction on what it produced: exactly when the move is recognised as made. */
module ExtractionRerun {
  import opened Wrappers
  import opened TextSearch
  import opened WordSearch
  import opened TextLines
  import opened Grouping
  import opened ImportLines
  import opened ImportRewriting
  import opened ImportStability
  import opened FunctionFragments
  import opened CheckerExtraction
  import opened ExtractionConserves
  import opened ExtractedHeaders

  // Declarations, counted by name and found by name.

  predicate NameValid(n: string)
  {
    n != "" && IsLower(n[0]) && NameRun(n) == |n|
  }

  lemma {:induction false} NameRunPrefix(s: string)
    ensures NameRun(s[..NameRun(s)]) == NameRun(s)
    ensures NameRun(s) < |s| ==> !IsNameChar(s[NameRun(s)])
  {
    if s != "" && IsNameChar(s[0]) {
      NameRunPrefix(s[1..]);
      assert s[..NameRun(s)][1..] == s[1..][..NameRun(s[1..])];
    }
  }

  lemma DeclaresIs(line: string, n: string)
    requires NameValid(n)
    ensures Declares(line, n) <==> FunctionName(line) == Some(n)
  {
    if DEF <= line {
      var rest := line[|DEF|..];
      assert line == DEF + rest;
      if n + "(" <= rest {
        NameRunOf(n, rest[|n|..]);
        assert rest == n + rest[|n|..];
        assert rest[|n|] == (n + "(")[|n|];
      }
      assert Declares(line, n) <==> n + "(" <= rest by {
        assert DEF + n + "(" == DEF + (n + "(");
        PrefixOf(DEF, n + "(", rest);
      }
      if FunctionName(line) == Some(n) {
        assert rest[..|n| + 1] == n + "(";
      }
    } else {
      NotDeclared(line, n);
    }
  }

  lemma PrefixOf(a: string, b: string, c: string)
    ensures a + b <= a + c <==> b <= c
  {
    if a + b <= a + c {
      assert b == (a + b)[|a|..] && c == (a + c)[|a|..];
      assert (a + c)[..|a + b|] == a + b;
      assert c[..|b|] == (a + c)[..|a + b|][|a|..];
    }
    if b <= c {
      assert c == b + c[|b|..];
      assert a + c == a + b + c[|b|..];
    }
  }

  lemma NotDeclared(line: string, n: string)
    requires !(DEF <= line)
    ensures !Declares(line, n)
  {
  }

  lemma ValidName(line: string)
    requires FunctionName(line).Some?
    ensures NameValid(FunctionName(line).value)
  {
    NameRunPrefix(line[|DEF|..]);
  }

  lemma {:induction false} DeclaredValid(lines: seq<string>)
    ensures forall n | n in Declared(lines) :: NameValid(n)
  {
    if lines != [] {
      DeclaredValid(lines[1..]);
      if FunctionName(lines[0]).Some? {
        ValidName(lines[0]);
      }
    }
  }

  lemma {:induction false} CountIs(lines: seq<string>, n: string)
    requires NameValid(n)
    ensures Declarations(lines, n) == multiset(Declared(lines))[n]
  {
    if lines != [] {
      CountIs(lines[1..], n);
      DeclaresIs(lines[0], n);
    }
  }

  lemma {:induction false} ValidIsWord(n: string)
    requires NameRun(n) == |n|
    ensures forall i | 0 <= i < |n| :: IsNameChar(n[i])
  {
    if n != "" {
      ValidIsWord(n[1..]);
      forall i | 0 <= i < |n| ensures IsNameChar(n[i]) {
        assert i > 0 ==> n[i] == n[1..][i - 1];
      }
    }
  }

  // Fragments of a text that is split into lines.

  ghost predicate Full(f: Fragment)
  {
    forall l | l in f.lines :: IsLine(l)
  }

  /** Only the last fragment may end without a newline. */
  ghost predicate Sealed(fs: seq<Fragment>)
  {
    && (forall i | 0 <= i < |fs| - 1 :: Full(fs[i]))
    && (fs != [] ==> WellSplit(fs[|fs| - 1].lines))
  }

  lemma WellSplitParts(a: seq<string>, b: seq<string>)
    requires WellSplit(a + b)
    ensures WellSplit(b) && (b != [] ==> forall l | l in a :: IsLine(l)) && (b == [] ==> WellSplit(a))
  {
    if b == [] {
      assert a + b == a;
    } else {
      assert (a + b)[|a + b| - 1] == b[|b| - 1];
      forall i | 0 <= i < |b| - 1 ensures IsLine(b[i]) {
        assert b[i] == (a + b)[|a| + i];
      }
      forall l | l in a ensures IsLine(l) {
        var i :| 0 <= i < |a| && a[i] == l;
        assert (a + b)[i] == l;
      }
    }
  }

  lemma WellSplitJoin(a: seq<string>, b: seq<string>)
    requires (forall l | l in a :: IsLine(l)) && WellSplit(b)
    ensures WellSplit(a + b)
  {
    forall i | 0 <= i < |a + b| - 1 ensures IsLine((a + b)[i]) {
      if i < |a| {
        assert a[i] in a;
      }
    }
    if b == [] && a != [] {
      assert a[|a| - 1] in a;
    }
  }

  lemma {:induction false} SealedOf(fs: seq<Fragment>)
    requires (forall f | f in fs :: FragmentOk(f)) && WellSplit(AllLines(fs))
    ensures Sealed(fs)
  {
    if fs != [] {
      var f, rest := fs[0], fs[1..];
      WellSplitParts(f.lines, AllLines(rest));
      SealedOf(rest);
      if rest != [] {
        assert rest[0] in fs;
        assert AllLines(rest) != [];
        forall i | 0 <= i < |fs| - 1 ensures Full(fs[i]) {
          assert i > 0 ==> fs[i] == rest[i - 1];
        }
      }
    }
  }

  lemma {:induction false} AllLinesWell(fs: seq<Fragment>)
    requires Sealed(fs)
    ensures WellSplit(AllLines(fs))
  {
    if |fs| == 1 {
      assert fs[0].lines + [] == fs[0].lines;
      assert AllLines(fs[1..]) == [];
    } else if fs != [] {
      assert Full(fs[0]);
      forall i | 0 <= i < |fs[1..]| - 1 ensures Full(fs[1..][i]) {
        assert fs[1..][i] == fs[i + 1];
      }
      AllLinesWell(fs[1..]);
      WellSplitJoin(fs[0].lines, AllLines(fs[1..]));
    }
  }

  lemma FullWell(f: Fragment)
    requires Full(f)
    ensures WellSplit(f.lines)
  {
    assert forall i | 0 <= i < |f.lines| :: f.lines[i] in f.lines;
  }

  lemma SealedSnoc(fs: seq<Fragment>, last: Fragment)
    requires (forall f | f in fs :: Full(f)) && WellSplit(last.lines)
    ensures Sealed(fs + [last])
  {
    forall i | 0 <= i < |fs| ensures Full((fs + [last])[i]) {
      assert fs[i] in fs;
    }
  }

  lemma SealedFull(fs: seq<Fragment>)
    requires forall f | f in fs :: Full(f)
    ensures Sealed(fs)
  {
    forall i | 0 <= i < |fs| ensures Full(fs[i]) {
      assert fs[i] in fs;
    }
    if fs != [] {
      FullWell(fs[|fs| - 1]);
    }
  }

  /** All but the last fragment of a sealed sequence are full, and so is what is chosen from them. */
  lemma HavingSealed(fs: seq<Fragment>, key: Fragment -> string, k: string)
    requires Sealed(fs)
    ensures Sealed(Having(fs, key, k))
  {
    if fs != [] {
      var init, last := fs[..|fs| - 1], fs[|fs| - 1];
      var before := Having(init, key, k);
      HavingItems(init, key, k);
      forall f | f in before ensures Full(f) {
        var i :| 0 <= i < |init| && init[i] == f;
        assert Full(fs[i]);
      }
      SealedFull(before);
      SealedSnoc(before, last);
      assert before + [] == before;
    }
  }

  // What the files declare afterwards.

  lemma {:induction false} NameRunNewline(s: string)
    ensures NameRun(s + "\n") == NameRun(s)
  {
    if s == "" {
      assert s + "\n" == "\n";
    } else {
      NameRunNewline(s[1..]);
      assert (s + "\n")[1..] == s[1..] + "\n";
    }
  }

  lemma FunctionNameNewline(l: string)
    ensures FunctionName(l + "\n") == FunctionName(l)
  {
    if DEF <= l {
      var rest := l[|DEF|..];
      assert (l + "\n")[|DEF|..] == rest + "\n";
      NameRunNewline(rest);
      var n := NameRun(rest);
      assert (rest + "\n")[..n] == rest[..n];
    } else if |l| >= |DEF| {
      assert (l + "\n")[..|DEF|] == l[..|DEF|];
    } else {
      assert (l + "\n")[|l|] == '\n' && '\n' !in DEF;
    }
  }

  lemma OneLineSplits(line: string)
    requires IsLine(line)
    ensures SplitLines(line) == [line]
  {
    LineSplits(line, "");
    assert line + "" == line;
  }

  lemma LastChar(a: string, b: string)
    requires b != ""
    ensures (a + b)[|a + b| - 1] == b[|b| - 1]
  {
  }

  lemma NoNewlineSnoc(s: string)
    requires !EndsLine(s) && NoNewline(s[..|s| - 1])
    ensures NoNewline(s)
  {
    forall i | 0 <= i < |s| ensures s[i] != '\n' {
      assert i < |s| - 1 ==> s[i] == s[..|s| - 1][i] && s[i] in s[..|s| - 1];
    }
  }

  lemma LastUnended(init: seq<string>, last: string)
    requires WellSplit(init + [last]) && !EndsLine(Concat(init + [last]))
    ensures (forall l | l in init :: IsLine(l)) && NoNewline(last)
  {
    var ls := init + [last];
    assert ls[|ls| - 1] == last;
    SnocConcat(init, last);
    LastChar(Concat(init), last);
    NoNewlineSnoc(last);
    forall l | l in init ensures IsLine(l) {
      var i :| 0 <= i < |init| && init[i] == l;
      assert ls[i] == l;
    }
  }

  lemma EndedPadded(x: string)
    requires EndsLine(x)
    ensures Declared(SplitLines(x + "\n")) == Declared(SplitLines(x))
  {
    SplitAppend(x, "\n");
    OneLineSplits("\n");
    DeclaredConcat(SplitLines(x), ["\n"]);
  }

  lemma UnendedLines(x: string) returns (init: seq<string>, last: string)
    requires !EndsLine(x)
    ensures SplitLines(x) == init + [last] && SplitLines(x + "\n") == init + [last + "\n"]
  {
    var ls := SplitLines(x);
    ConcatSplit(x);
    init, last := ls[..|ls| - 1], ls[|ls| - 1];
    assert init + [last] == ls;
    LastUnended(init, last);
    SnocConcat(init, last);
    var line := last + "\n";
    assert line[..|line| - 1] == last;
    LinesSplit(init, line);
    OneLineSplits(line);
    Associates(Concat(init), last, "\n");
  }

  lemma UnendedPadded(x: string)
    requires !EndsLine(x)
    ensures Declared(SplitLines(x + "\n")) == Declared(SplitLines(x))
  {
    var init, last := UnendedLines(x);
    FunctionNameNewline(last);
    DeclaredConcat(init, [last + "\n"]);
    DeclaredConcat(init, [last]);
  }

  lemma DeclaredPadded(x: string)
    ensures Declared(SplitLines(Padded(x))) == Declared(SplitLines(x)) && EndsLine(Padded(x))
  {
    if Padded(x) == x {
      assert |x| >= 2 ==> x[|x| - 2..][1] == x[|x| - 1];
    } else if EndsLine(x) {
      EndedPadded(x);
    } else {
      UnendedPadded(x);
    }
  }

  lemma ImportDeclaresNothing(l: string)
    requires IMPORT <= l
    ensures FunctionName(l + "\n").None?
  {
    assert l[0] == 'i' && DEF[0] == 'd';
  }

  lemma {:induction false} HeadDeclaresNothing(ls: seq<string>, rest: string)
    requires AllImports(ls) && forall l | l in ls :: NoNewline(l)
    ensures Declared(SplitLines(PrintLines(ls) + rest)) == Declared(SplitLines(rest))
  {
    if ls == [] {
      assert PrintLines(ls) + rest == rest;
    } else {
      var line, after := ls[0] + "\n", PrintLines(ls[1..]) + rest;
      assert ls[0] in ls && forall l | l in ls[1..] :: l in ls;
      assert line[..|line| - 1] == ls[0];
      HeadDeclaresNothing(ls[1..], rest);
      Associates(line, PrintLines(ls[1..]), rest);
      LineSplits(line, after);
      ImportDeclaresNothing(ls[0]);
      DeclaredConcat([line], SplitLines(after));
    }
  }

  lemma HeaderDeclaresNothing(es: seq<Entry>, body: string)
    requires forall e | e in es :: Readable(e)
    ensures Declared(SplitLines(HeaderText(es) + body)) == Declared(SplitLines(body))
  {
    HeaderPrints(es);
    if es == [] {
      assert HeaderText(es) + body == body;
    } else {
      Associates(PrintLines(HeaderLines(es)), "\n", body);
      HeadDeclaresNothing(HeaderLines(es), "\n" + body);
      LineSplits("\n", body);
      DeclaredConcat(["\n"], SplitLines(body));
    }
  }

  // The second run.

  /** Some function stays in the checker. */
  predicate SomeStay(owners: seq<Assignment>)
  {
    exists a | a in owners :: a.owner == CHECKED
  }

  /** The module that may exist beforehand declares none of the functions that move to it. */
  predicate LambdaClear(files: map<string, string>, owners: seq<Assignment>)
  {
    forall a | a in owners && a.owner == LAMBDA :: a.name !in Declared(SplitLines(Body(Kept(files, LAMBDA))))
  }

  lemma ExtractedFacts(files: map<string, string>, owners: seq<Assignment>)
    requires Extract(files, owners).outcome.Extracted?
    ensures CHECKED in files && HeaderEntries(HeadLines(files[CHECKED])).Some?
    ensures ToSet(Declared(CheckerLines(files))) == NamesOf(owners) && Distinct(Declared(CheckerLines(files)))
    ensures !SomeOwnerExists(files, owners)
    ensures ToSet(Declared(CheckerLines(files))) != Staying(owners)
  {
  }

  lemma NamesWords(files: map<string, string>, owners: seq<Assignment>)
    requires Extract(files, owners).outcome.Extracted? && forall a | a in owners :: IsModule(a.owner)
    ensures OwnersSpelled(owners) && forall a | a in owners :: NameValid(a.name)
  {
    var names := Declared(CheckerLines(files));
    ExtractedFacts(files, owners);
    DeclaredValid(names);
    DeclaredValid(CheckerLines(files));
    forall a | a in owners ensures IsWord(a.name) && NameValid(a.name) {
      assert a.name in NamesOf(owners);
      assert a.name in names;
      ValidIsWord(a.name);
    }
  }

  /** The text of an owner below its header: what it had, and the functions moved to it. */
  function OwnerBody(files: map<string, string>, owners: seq<Assignment>, owner: string): string
    requires CHECKED in files
  {
    Padded(Body(Kept(files, owner)))
      + Concat(AllLines(Having(Fragments(CheckerLines(files)), Assigned(AsMap(owners)), owner)))
  }

  lemma BodyDeclares(files: map<string, string>, owners: seq<Assignment>, owner: string)
    requires CHECKED in files
    ensures Declared(SplitLines(OwnerBody(files, owners, owner))) == Declared(SplitLines(Body(Kept(files, owner))))
              + Names(Having(Fragments(CheckerLines(files)), Assigned(AsMap(owners)), owner))
  {
    var moved := Having(Fragments(CheckerLines(files)), Assigned(AsMap(owners)), owner);
    var before := Body(Kept(files, owner));
    DeclaredPadded(before);
    SplitAppend(Padded(before), Concat(AllLines(moved)));
    MovedWell(files, owners, owner);
    SplitWell(AllLines(moved));
    DeclaredConcat(SplitLines(Padded(before)), AllLines(moved));
    DeclaredNames(moved);
  }

  /** What an owner declares afterwards: what it declared, then the functions moved to it. */
  lemma OwnerDeclares(files: map<string, string>, owners: seq<Assignment>, owner: string, text: string)
    requires CHECKED in files && HeaderEntries(HeadLines(files[CHECKED])).Some? && OwnersSpelled(owners)
    requires HoldsItsFunctions(files, owners, Pool(files, owners), owner, text)
    ensures Declared(SplitLines(text)) == Declared(SplitLines(Body(Kept(files, owner))))
              + Names(Having(Fragments(CheckerLines(files)), Assigned(AsMap(owners)), owner))
  {
    var body := OwnerBody(files, owners, owner);
    var own :| HeaderEntries(HeadLines(Kept(files, owner))) == Some(own)
      && text == HeaderText(Picked(own + Pool(files, owners), owner, Declared(SplitLines(body)), body)) + body;
    PickedReadable(files, owners, owner, own, Declared(SplitLines(body)), body);
    HeaderDeclaresNothing(Picked(own + Pool(files, owners), owner, Declared(SplitLines(body)), body), body);
    BodyDeclares(files, owners, owner);
  }

  lemma MovedWell(files: map<string, string>, owners: seq<Assignment>, owner: string)
    requires CHECKED in files
    ensures var moved := Having(Fragments(CheckerLines(files)), Assigned(AsMap(owners)), owner);
            Sealed(moved) && WellSplit(AllLines(moved)) && forall f | f in moved :: FragmentOk(f)
  {
    var lines := CheckerLines(files);
    var fs := Fragments(lines);
    ConcatSplit(Body(files[CHECKED]));
    Partition(lines);
    WellSplitParts(lines[..Lead(lines)], AllLines(fs));
    SealedOf(fs);
    HavingSealed(fs, Assigned(AsMap(owners)), owner);
    AllLinesWell(Having(fs, Assigned(AsMap(owners)), owner));
    HavingItems(fs, Assigned(AsMap(owners)), owner);
  }

  // Every function once.

  lemma NamesPrefix(fs: seq<Fragment>)
    requires fs != [] && Distinct(Names(fs))
    ensures Distinct(Names(fs[..|fs| - 1]))
    ensures forall f | f in fs[..|fs| - 1] :: f.name != fs[|fs| - 1].name
  {
    var init := fs[..|fs| - 1];
    forall i, j | 0 <= i < j < |init| ensures Names(init)[i] != Names(init)[j] {
      assert Names(fs)[i] != Names(fs)[j];
    }
    forall f | f in init ensures f.name != fs[|fs| - 1].name {
      var j :| 0 <= j < |init| && init[j] == f;
      assert Names(fs)[j] != Names(fs)[|fs| - 1];
    }
  }

  lemma NamesSnoc(fs: seq<Fragment>, last: Fragment)
    requires Distinct(Names(fs)) && forall f | f in fs :: f.name != last.name
    ensures Distinct(Names(fs + [last]))
  {
    assert Names(fs + [last]) == Names(fs) + [last.name];
    forall i | 0 <= i < |fs| ensures Names(fs)[i] != last.name {
      assert fs[i] in fs;
    }
  }

  lemma {:induction false} HavingDistinct(fs: seq<Fragment>, key: Fragment -> string, k: string)
    requires Distinct(Names(fs))
    ensures Distinct(Names(Having(fs, key, k)))
  {
    if fs != [] {
      var init, last := fs[..|fs| - 1], fs[|fs| - 1];
      NamesPrefix(fs);
      HavingDistinct(init, key, k);
      HavingItems(init, key, k);
      NamesSnoc(Having(init, key, k), last);
      assert Having(init, key, k) + [] == Having(init, key, k);
    }
  }

  lemma {:induction false} DistinctOnce(s: seq<string>, n: string)
    requires Distinct(s)
    ensures multiset(s)[n] == if n in s then 1 else 0
  {
    if s != [] {
      var init, last := s[..|s| - 1], s[|s| - 1];
      forall i, j | 0 <= i < j < |init| ensures init[i] != init[j] {
        assert s[i] != s[j];
      }
      DistinctOnce(init, n);
      assert s == init + [last];
      assert last !in init by {
        forall i | 0 <= i < |init| ensures init[i] != last {
          assert s[i] != s[|s| - 1];
        }
      }
    }
  }

  lemma NamedFragment(fs: seq<Fragment>, n: string) returns (f: Fragment)
    requires n in Names(fs)
    ensures f in fs && f.name == n
  {
    var i :| 0 <= i < |fs| && Names(fs)[i] == n;
    f := fs[i];
  }

  lemma FragmentNamed(fs: seq<Fragment>, f: Fragment)
    requires f in fs
    ensures f.name in Names(fs)
  {
    var i :| 0 <= i < |fs| && fs[i] == f;
    assert Names(fs)[i] == f.name;
  }

  lemma OwnerIs(owners: seq<Assignment>, a: Assignment)
    requires DistinctNames(owners) && a in owners
    ensures OwnerOf(AsMap(owners), a.name) == a.owner
  {
    var i :| 0 <= i < |owners| && owners[i] == a;
    AsMapAt(owners, i);
  }

  /** A function moves once to its owner. */
  lemma MovesOnce(files: map<string, string>, owners: seq<Assignment>, a: Assignment)
    requires Extract(files, owners).outcome.Extracted? && DistinctNames(owners) && a in owners
    ensures CHECKED in files
    ensures var fs, key := Fragments(CheckerLines(files)), Assigned(AsMap(owners));
            a.owner in KeysOf(fs, key) && multiset(Names(Having(fs, key, a.owner)))[a.name] == 1
  {
    var fs, key := Fragments(CheckerLines(files)), Assigned(AsMap(owners));
    ExtractedFacts(files, owners);
    BodyPartition(files);
    assert a.name in NamesOf(owners);
    var f := NamedFragment(fs, a.name);
    OwnerIs(owners, a);
    HavingItems(fs, key, a.owner);
    var moved := Having(fs, key, a.owner);
    assert f in moved;
    FragmentNamed(moved, f);
    HavingDistinct(fs, key, a.owner);
    DistinctOnce(Names(moved), a.name);
  }

  function Before(files: map<string, string>, owner: string): seq<string>
  {
    Declared(SplitLines(Body(Kept(files, owner))))
  }

  lemma DeclaredAfter(files: map<string, string>, owners: seq<Assignment>, out: map<string, string>, a: Assignment)
    requires Extract(files, owners) == Extraction(out, Extracted) && DistinctNames(owners) && a in owners
    requires forall x | x in owners :: IsModule(x.owner)
    ensures Declarations(FileLines(out, a.owner), a.name) == multiset(Before(files, a.owner))[a.name] + 1
  {
    ExtractConserves(files, owners);
    NamesWords(files, owners);
    MovesOnce(files, owners, a);
    OwnerDeclares(files, owners, a.owner, out[a.owner]);
    CountIs(SplitLines(out[a.owner]), a.name);
  }

  lemma {:induction false} NoneMissing(files: map<string, string>, owners: seq<Assignment>)
    ensures FirstMissing(files, owners).None?
       <==> forall a | a in owners :: Declarations(FileLines(files, a.owner), a.name) == 1
  {
    if owners != [] {
      NoneMissing(files, owners[1..]);
      assert owners[0] in owners;
      assert forall a | a in owners :: a == owners[0] || a in owners[1..];
    }
  }

  lemma NothingBefore(files: map<string, string>, owners: seq<Assignment>, a: Assignment)
    requires !SomeOwnerExists(files, owners) && a in owners && a.owner != LAMBDA
    ensures Before(files, a.owner) == []
  {
    assert Kept(files, a.owner) == "";
  }

  lemma MissingExactly(files: map<string, string>, owners: seq<Assignment>, out: map<string, string>)
    requires Extract(files, owners) == Extraction(out, Extracted) && DistinctNames(owners)
    requires forall a | a in owners :: IsModule(a.owner)
    ensures (forall a | a in owners :: Declarations(FileLines(out, a.owner), a.name) == 1)
       <==> LambdaClear(files, owners)
  {
    ExtractedFacts(files, owners);
    forall a | a in owners
      ensures Declarations(FileLines(out, a.owner), a.name) == 1
         <==> (a.owner == LAMBDA ==> a.name !in Before(files, LAMBDA))
    {
      DeclaredAfter(files, owners, out, a);
      if a.owner != LAMBDA {
        NothingBefore(files, owners, a);
      }
    }
  }

  // What is left in the checker.

  lemma EmptyKept()
    ensures Body("") == "" && Padded("") == "" && HeaderEntries(HeadLines("")) == Some([])
  {
  }

  lemma DefFirst(fs: seq<Fragment>)
    requires fs != [] && forall f | f in fs :: FragmentOk(f)
    ensures DEF <= Concat(AllLines(fs))
  {
    assert fs[0] in fs;
    var first := fs[0].lines[0];
    assert AllLines(fs)[0] == first;
    assert DEF <= first;
    assert Concat(AllLines(fs)) == first + Concat(AllLines(fs)[1..]);
  }

  lemma DefText(body: string)
    requires DEF <= body
    ensures !(IMPORT <= body) && !("\n" <= body)
  {
    assert body[0] == DEF[0] == 'd';
  }

  lemma StayingNames(files: map<string, string>, owners: seq<Assignment>)
    requires Extract(files, owners).outcome.Extracted? && DistinctNames(owners)
    ensures CHECKED in files
    ensures ToSet(Names(Having(Fragments(CheckerLines(files)), Assigned(AsMap(owners)), CHECKED))) == Staying(owners)
  {
    var fs, key := Fragments(CheckerLines(files)), Assigned(AsMap(owners));
    ExtractedFacts(files, owners);
    BodyPartition(files);
    HavingItems(fs, key, CHECKED);
    var moved := Having(fs, key, CHECKED);
    forall n ensures n in Names(moved) <==> n in Staying(owners) {
      if n in Names(moved) {
        var f := NamedFragment(moved, n);
        FragmentNamed(fs, f);
        assert n in NamesOf(owners);
        var a :| a in owners && a.name == n;
        OwnerIs(owners, a);
      }
      if n in Staying(owners) {
        var a :| a in owners && a.owner == CHECKED && a.name == n;
        assert a.name in NamesOf(owners);
        var f := NamedFragment(fs, n);
        OwnerIs(owners, a);
        FragmentNamed(moved, f);
      }
    }
  }

  lemma NoNames(fs: seq<Fragment>)
    ensures fs == [] <==> ToSet(Names(fs)) == {}
  {
    if fs != [] {
      assert Names(fs)[0] in ToSet(Names(fs));
    }
  }

  lemma NobodyStays(files: map<string, string>, owners: seq<Assignment>)
    requires Extract(files, owners).outcome.Extracted? && DistinctNames(owners) && !SomeStay(owners)
    ensures CHECKED in files && CHECKED !in KeysOf(Fragments(CheckerLines(files)), Assigned(AsMap(owners)))
  {
    var fs, key := Fragments(CheckerLines(files)), Assigned(AsMap(owners));
    StayingNames(files, owners);
    assert Staying(owners) == {};
    NoNames(Having(fs, key, CHECKED));
    HavingItems(fs, key, CHECKED);
  }

  lemma NoneStay(files: map<string, string>, owners: seq<Assignment>, out: map<string, string>)
    requires Extract(files, owners) == Extraction(out, Extracted) && DistinctNames(owners) && !SomeStay(owners)
    ensures CHECKED in files && CHECKED in out && out[CHECKED] == files[CHECKED]
  {
    ExtractConserves(files, owners);
    NobodyStays(files, owners);
  }

  /** The text of the checker afterwards, when functions stay in it. */
  lemma CheckerText(files: map<string, string>, owners: seq<Assignment>, moved: seq<Fragment>, text: string)
    requires CHECKED in files && HeaderEntries(HeadLines(files[CHECKED])).Some? && OwnersSpelled(owners)
    requires HoldsItsFunctions(files, owners, Pool(files, owners), CHECKED, text)
    requires moved == Having(Fragments(CheckerLines(files)), Assigned(AsMap(owners)), CHECKED) && moved != []
    ensures Declared(SplitLines(Body(text))) == Names(moved)
  {
    var body := Concat(AllLines(moved));
    EmptyKept();
    assert "" + body == body;
    MovedWell(files, owners, CHECKED);
    DefFirst(moved);
    DefText(body);
    PickedReadable(files, owners, CHECKED, [], Declared(SplitLines(body)), body);
    HeaderSeparates(Picked([] + Pool(files, owners), CHECKED, Declared(SplitLines(body)), body), body);
    SplitWell(AllLines(moved));
    DeclaredNames(moved);
  }

  lemma CheckerKeeps(files: map<string, string>, owners: seq<Assignment>, out: map<string, string>)
    requires Extract(files, owners) == Extraction(out, Extracted) && DistinctNames(owners)
    requires SomeStay(owners) && forall a | a in owners :: IsModule(a.owner)
    ensures CHECKED in out && ToSet(Declared(CheckerLines(out))) == Staying(owners)
  {
    var a :| a in owners && a.owner == CHECKED;
    ExtractConserves(files, owners);
    NamesWords(files, owners);
    MovesOnce(files, owners, a);
    StayingNames(files, owners);
    CheckerText(files, owners, Having(Fragments(CheckerLines(files)), Assigned(AsMap(owners)), CHECKED), out[CHECKED]);
  }

  lemma CheckerAfter(files: map<string, string>, owners: seq<Assignment>, out: map<string, string>)
    requires Extract(files, owners) == Extraction(out, Extracted) && DistinctNames(owners)
    requires forall a | a in owners :: IsModule(a.owner)
    ensures CHECKED in out && (ToSet(Declared(CheckerLines(out))) == Staying(owners) <==> SomeStay(owners))
  {
    if SomeStay(owners) {
      CheckerKeeps(files, owners, out);
    } else {
      ExtractedFacts(files, owners);
      NoneStay(files, owners, out);
    }
  }

  /** When the move is recognised as made: the checker declares what stays, and every owner its functions, once. */
  lemma AppliedIs(files: map<string, string>, owners: seq<Assignment>)
    ensures Extract(files, owners) == Extraction(files, Applied)
       <==> CHECKED in files && ToSet(Declared(CheckerLines(files))) == Staying(owners)
            && forall a | a in owners :: Declarations(FileLines(files, a.owner), a.name) == 1
  {
    NoneMissing(files, owners);
    if CHECKED in files && ToSet(Declared(CheckerLines(files))) != Staying(owners) {
      NotApplied(files, owners);
    }
  }

  lemma FragmentsNotApplied(files: map<string, string>, owners: seq<Assignment>)
    requires CHECKED in files
    ensures !ExtractFragments(files, owners).outcome.Applied?
  {
    if HeaderEntries(HeadLines(files[CHECKED])).Some? {
      FillNotApplied(files, Pool(files, owners), Pieces(Fragments(CheckerLines(files)), AsMap(owners)));
    }
  }

  lemma NotApplied(files: map<string, string>, owners: seq<Assignment>)
    requires CHECKED in files && ToSet(Declared(CheckerLines(files))) != Staying(owners)
    ensures !Extract(files, owners).outcome.Applied?
  {
    FragmentsNotApplied(files, owners);
  }

  /**
   * A second run recognises the move and changes nothing, exactly when some function stayed in the checker and the
   * module that may exist beforehand declared none of those that moved to it.
   */
  lemma RerunExactly(files: map<string, string>, owners: seq<Assignment>, out: map<string, string>)
    requires Extract(files, owners) == Extraction(out, Extracted) && DistinctNames(owners)
    requires forall a | a in owners :: IsModule(a.owner)
    ensures Extract(out, owners) == Extraction(out, Applied) <==> SomeStay(owners) && LambdaClear(files, owners)
  {
    CheckerAfter(files, owners, out);
    MissingExactly(files, owners, out);
    AppliedIs(out, owners);
  }
}
