/**
 * Small sources to extract from: a checker of one-line functions, and a function whose name for an import is captured
 * in the module it moves to.
 */
module ExtractionExamples {
  import opened Wrappers
  import opened TextSearch
  import opened WordSearch
  import opened TextLines
  import opened Grouping
  import opened ImportLines
  import opened ImportRewriting
  import opened ImportStability
  import opened ImportBindings
  import opened FunctionFragments
  import opened CheckerExtraction
  import opened ExtractionConserves
  import opened ExtractedHeaders
  import opened ExtractionRerun
  import opened MovedBindings

  // A checker of one-line functions.

  function StubLine(name: string): string
  {
    DEF + name + "(\n"
  }

  function StubLines(names: seq<string>): seq<string>
  {
    seq(|names|, i requires 0 <= i < |names| => StubLine(names[i]))
  }

  function Stubs(names: seq<string>): string
  {
    Concat(StubLines(names))
  }

  lemma StubLineDeclares(name: string)
    requires NameValid(name)
    ensures IsLine(StubLine(name)) && FunctionName(StubLine(name)) == Some(name)
  {
    var l := StubLine(name);
    assert l[|DEF|..] == name + "(\n";
    NameRunOf(name, "(\n");
    assert (name + "(\n")[..|name|] == name;
    assert l[..|l| - 1] == DEF + name + "(";
    ValidIsWord(name);
    assert forall i | 0 <= i < |l| - 1 :: l[i] != '\n';
  }

  predicate StubNames(names: seq<string>)
  {
    names != [] && Distinct(names) && forall n | n in names :: NameValid(n)
  }

  lemma {:induction false} StubsDeclare(names: seq<string>)
    requires forall n | n in names :: NameValid(n)
    ensures Declared(StubLines(names)) == names && forall l | l in StubLines(names) :: IsLine(l)
    ensures Lead(StubLines(names)) == 0
  {
    if names != [] {
      var rest := names[1..];
      StubsDeclare(rest);
      assert names[0] in names;
      StubLineDeclares(names[0]);
      assert StubLines(names) == [StubLine(names[0])] + StubLines(rest);
      assert StubLines(names)[1..] == StubLines(rest);
      assert names == [names[0]] + rest;
    }
  }

  lemma StubsText(names: seq<string>)
    requires StubNames(names)
    ensures var text := Stubs(names);
            HeadLines(text) == [] && Body(text) == text && SplitLines(text) == StubLines(names)
  {
    StubsDeclare(names);
    SplitConcat(StubLines(names));
    var text := Stubs(names);
    assert text == StubLine(names[0]) + Concat(StubLines(names)[1..]);
    assert text[0] == DEF[0] == 'd';
    assert !(IMPORT <= text);
  }

  // Extracting from it.

  predicate OldHeaderReads(files: map<string, string>, owner: string)
  {
    HeaderEntries(HeadLines(Kept(files, owner))).Some?
  }

  lemma StillReads(files: map<string, string>, groups: seq<Group<Fragment>>, text: string)
    requires groups != [] && Distinct(Keys(groups)) && forall g | g in groups :: OldHeaderReads(files, g.key)
    ensures forall g | g in groups[1..] :: OldHeaderReads(files[groups[0].key := text], g.key)
  {
    var next := files[groups[0].key := text];
    DistinctHead(groups);
    forall g | g in groups[1..] ensures OldHeaderReads(next, g.key) {
      var i :| 0 < i < |groups| && groups[i] == g;
      assert Kept(next, g.key) == Kept(files, g.key);
    }
  }

  /** Owners whose headers can be read are all filled. */
  lemma {:induction false} FillReady(files: map<string, string>, pool: seq<Entry>, groups: seq<Group<Fragment>>)
    requires Distinct(Keys(groups)) && forall g | g in groups :: OldHeaderReads(files, g.key)
    ensures FillOwners(files, pool, groups).outcome.Extracted?
    decreases |groups|
  {
    if groups != [] {
      assert groups[0] in groups;
      var next := files[groups[0].key := OwnerFile(files, pool, groups[0]).value];
      DistinctRest(groups);
      StillReads(files, groups, next[groups[0].key]);
      FillReady(next, pool, groups[1..]);
    }
  }

  /** A checker with readable imports and nothing before its functions; no header of another module is in the way. */
  ghost predicate Bare(files: map<string, string>, names: seq<string>)
  {
    && CHECKED in files && HeaderEntries(HeadLines(files[CHECKED])).Some?
    && Lead(CheckerLines(files)) == 0 && Declared(CheckerLines(files)) == names
    && forall k :: OldHeaderReads(files, k)
  }

  lemma BareFills(files: map<string, string>, owners: seq<Assignment>, names: seq<string>)
    requires Bare(files, names)
    ensures ExtractFragments(files, owners).outcome.Extracted?
  {
    var fs := Fragments(CheckerLines(files));
    var groups := Pieces(fs, AsMap(owners));
    PiecesAreGrouped(fs, AsMap(owners));
    GroupedExactly(fs, Assigned(AsMap(owners)));
    KeysDistinct(fs, Assigned(AsMap(owners)));
    FillReady(files, HeaderEntries(HeadLines(files[CHECKED])).value + OwnedEntries(owners), groups);
  }

  lemma BareExtracts(files: map<string, string>, owners: seq<Assignment>, names: seq<string>)
    requires Bare(files, names) && Distinct(names) && !SomeOwnerExists(files, owners)
    requires NamesOf(owners) == ToSet(names) && NamesOf(owners) != Staying(owners)
    ensures Extract(files, owners).outcome.Extracted?
  {
    BareFills(files, owners, names);
  }

  lemma StubsBare(names: seq<string>)
    requires StubNames(names)
    ensures Bare(map[CHECKED := Stubs(names)], names)
  {
    StubsText(names);
    StubsDeclare(names);
    EmptyKept();
    assert forall k :: Kept(map[CHECKED := Stubs(names)], k) == "";
  }

  // Imports, one to a source.

  function ImportOf(members: string, path: string): string
  {
    PrintLine(Named(members, path, "")) + "\n"
  }

  lemma ImportReads(members: string, path: string)
    requires PlainNamed(members, path, "") && NoNewline(members) && NoNewline(path)
    ensures HeadLines(ImportOf(members, path)) == [PrintLine(Named(members, path, ""))]
    ensures IMPORT <= PrintLine(Named(members, path, ""))
    ensures ParseNamed(PrintLine(Named(members, path, ""))) == Some(Named(members, path, ""))
  {
    var l := PrintLine(Named(members, path, ""));
    ParsePrintNamed(members, path, "");
    PrintedNoNewline(Named(members, path, ""));
    assert IMPORT <= OPEN <= l;
    HeadReads([l], "");
    assert PrintLines([l]) + "" == l + "\n";
  }

  lemma NamePlain(name: string, path: string)
    requires NameValid(name) && IsModule(path)
    ensures PlainNamed(name, path, "") && NoNewline(name) && NoNewline(path)
  {
    ValidIsWord(name);
    WordLacks(name, "}", 0);
    ModuleNoNewline(path);
  }

  lemma ImportBinds(name: string, path: string)
    requires NameValid(name) && IsModule(path)
    ensures Bindings(ImportOf(name, path)) == [Member(name, path, "")]
  {
    NamePlain(name, path);
    ImportReads(name, path);
    OneLineUses(PrintLine(Named(name, path, "")));
    ValidIsWord(name);
    WordLacks(name, COMMA, 0);
    assert Split(COMMA, name) == [name];
  }

  // A name is captured by an old import.

  /** A function of one line that mentions a name. */
  function UsingLine(f: string, name: string): string
  {
    DEF + f + "(" + (name + ")\n")
  }

  lemma UsingLineDeclares(f: string, name: string)
    requires NameValid(f) && NameValid(name)
    ensures IsLine(UsingLine(f, name)) && FunctionName(UsingLine(f, name)) == Some(f)
  {
    var l := UsingLine(f, name);
    var rest := "(" + (name + ")\n");
    assert l[|DEF|..] == f + rest;
    NameRunOf(f, rest);
    assert (f + rest)[..|f|] == f;
    ValidIsWord(f);
    ValidIsWord(name);
    assert forall i | 0 <= i < |l| - 1 :: l[i] != '\n';
  }

  lemma UsingLineMentions(f: string, name: string)
    requires NameValid(f) && NameValid(name)
    ensures IsWord(name) && Mentions(name, UsingLine(f, name))
  {
    var before := DEF + f + "(";
    var l := UsingLine(f, name);
    ValidIsWord(name);
    assert l[|before|..|before| + |name|] == name;
    assert StandsAt(name, l, |before|);
    MentionsWholeWord(name, l);
  }

  /** A checker that imports a name and has one function that mentions it. */
  function Using(f: string, name: string, path: string): string
  {
    ImportOf(name, path) + ("\n" + UsingLine(f, name))
  }

  lemma LineEntry(name: string, path: string)
    requires NameValid(name) && IsModule(path)
    ensures HeaderEntries([PrintLine(Named(name, path, ""))]) == Some([Entry(name, name, path)])
  {
    var l := PrintLine(Named(name, path, ""));
    NamePlain(name, path);
    ParsePrintNamed(name, path, "");
    ValidIsWord(name);
    WordLacks(name, COMMA, 0);
    WordLacks(name, AS, 0);
    assert Split(COMMA, name) == [name] && Split(AS, name) == [name];
    EntriesCons(l, Named(name, path, ""), [], []);
    assert [l] + [] == [l];
    assert MemberEntries([name], path) + [] == [Entry(name, name, path)];
  }

  lemma ImportHead(name: string, path: string, rest: string)
    requires NameValid(name) && IsModule(path) && !(IMPORT <= rest)
    ensures HeadLines(ImportOf(name, path) + rest) == [PrintLine(Named(name, path, ""))]
    ensures AfterHead(ImportOf(name, path) + rest) == rest
  {
    var l := PrintLine(Named(name, path, ""));
    NamePlain(name, path);
    ImportReads(name, path);
    PrintedNoNewline(Named(name, path, ""));
    HeadReads([l], rest);
    assert PrintLines([l]) == ImportOf(name, path);
  }

  lemma ImportEntry(name: string, path: string, rest: string)
    requires NameValid(name) && IsModule(path) && !(IMPORT <= rest)
    ensures HeaderEntries(HeadLines(ImportOf(name, path) + rest)) == Some([Entry(name, name, path)])
    ensures AfterHead(ImportOf(name, path) + rest) == rest
  {
    ImportHead(name, path, rest);
    LineEntry(name, path);
  }

  lemma UsingReads(f: string, name: string, path: string)
    requires NameValid(f) && NameValid(name) && IsModule(path)
    ensures HeaderEntries(HeadLines(Using(f, name, path))) == Some([Entry(name, name, path)])
    ensures SplitLines(Body(Using(f, name, path))) == [UsingLine(f, name)]
  {
    var rest := "\n" + UsingLine(f, name);
    assert rest[0] == '\n' && IMPORT[0] == 'i';
    ImportEntry(name, path, rest);
    assert rest[1..] == UsingLine(f, name);
    UsingLineDeclares(f, name);
    OneLineSplits(UsingLine(f, name));
  }

  /** The checker, and the module that may exist beforehand, which imports the same name from elsewhere. */
  function TwoImports(f: string, name: string, path: string, other: string): map<string, string>
  {
    map[CHECKED := Using(f, name, path), LAMBDA := ImportOf(name, other)]
  }

  lemma TwoImportsRead(files: map<string, string>, f: string, name: string, path: string, other: string)
    requires NameValid(f) && NameValid(name) && IsModule(path) && IsModule(other)
    requires files == TwoImports(f, name, path, other)
    ensures CHECKED in files && HeaderEntries(HeadLines(files[CHECKED])) == Some([Entry(name, name, path)])
    ensures CheckerLines(files) == [UsingLine(f, name)]
    ensures HeaderEntries(HeadLines(Kept(files, LAMBDA))) == Some([Entry(name, name, other)])
    ensures Before(files, LAMBDA) == []
  {
    UsingReads(f, name, path);
    ImportEntry(name, other, "");
    assert ImportOf(name, other) + "" == ImportOf(name, other);
    assert Body(ImportOf(name, other)) == "";
  }

  lemma OneUsing(f: string, name: string)
    requires NameValid(f) && NameValid(name)
    ensures Lead([UsingLine(f, name)]) == 0 && Declared([UsingLine(f, name)]) == [f]
    ensures Fragments([UsingLine(f, name)]) == [Fragment(f, [UsingLine(f, name)])]
  {
    var l := UsingLine(f, name);
    UsingLineDeclares(f, name);
    assert [l][1..] == [] && [l][..1] == [l];
  }

  lemma OthersRead(files: map<string, string>, k: string)
    requires LAMBDA in files ==> OldHeaderReads(files, LAMBDA)
    requires forall n | n in files :: n == CHECKED || n == LAMBDA
    ensures OldHeaderReads(files, k)
  {
    EmptyKept();
    assert k != LAMBDA ==> Kept(files, k) == "";
  }

  lemma BareBeside(files: map<string, string>, ls: seq<string>, names: seq<string>)
    requires CHECKED in files && HeaderEntries(HeadLines(files[CHECKED])).Some? && CheckerLines(files) == ls
    requires Lead(ls) == 0 && Declared(ls) == names
    requires OldHeaderReads(files, LAMBDA) && forall n | n in files :: n == CHECKED || n == LAMBDA
    ensures Bare(files, names)
  {
    forall k ensures OldHeaderReads(files, k) {
      OthersRead(files, k);
    }
  }

  lemma TwoImportsBeside(files: map<string, string>, f: string, name: string, path: string, other: string)
    requires files == TwoImports(f, name, path, other) && HeaderEntries(HeadLines(Kept(files, LAMBDA))).Some?
    ensures OldHeaderReads(files, LAMBDA) && forall n | n in files :: n == CHECKED || n == LAMBDA
  {
  }

  lemma OneMoved(owners: seq<Assignment>, f: string)
    requires owners == [Assignment(f, LAMBDA)]
    ensures NamesOf(owners) == ToSet([f]) && NamesOf(owners) != Staying(owners)
  {
    assert owners[0] in owners && [f][0] in [f];
    assert f in NamesOf(owners) && f !in Staying(owners);
  }

  lemma TwoImportsExtract(files: map<string, string>, owners: seq<Assignment>, f: string, name: string)
    requires NameValid(f) && NameValid(name) && owners == [Assignment(f, LAMBDA)]
    requires CHECKED in files && HeaderEntries(HeadLines(files[CHECKED])).Some?
    requires CheckerLines(files) == [UsingLine(f, name)]
    requires OldHeaderReads(files, LAMBDA) && forall n | n in files :: n == CHECKED || n == LAMBDA
    ensures Extract(files, owners).outcome.Extracted?
  {
    OneUsing(f, name);
    BareBeside(files, [UsingLine(f, name)], [f]);
    OneMoved(owners, f);
    BareExtracts(files, owners, [f]);
  }

  lemma SoleFragment(owners: seq<Assignment>, f: Fragment)
    requires owners == [Assignment(f.name, LAMBDA)]
    ensures f in Having([f], Assigned(AsMap(owners)), LAMBDA)
  {
    assert owners[..0] == [];
    HavingItems([f], Assigned(AsMap(owners)), LAMBDA);
    assert f in [f];
  }

  /**
   * A function that mentions an imported name moves to a module that imports the same name from elsewhere: the
   * extraction succeeds, and the name now stands for the other import.
   */
  lemma ImportCaptured(files: map<string, string>, owners: seq<Assignment>, f: string, name: string, path: string,
    other: string)
    requires NameValid(f) && NameValid(name) && f != name && IsModule(path) && IsModule(other)
    requires path != other && other != LAMBDA
    requires files == TwoImports(f, name, path, other) && owners == [Assignment(f, LAMBDA)]
    ensures Extract(files, owners).outcome.Extracted?
    ensures CHECKED in files && HeaderEntries(HeadLines(files[CHECKED])).Some?
    ensures HeaderEntries(HeadLines(Kept(files, LAMBDA))).Some?
    ensures Meant(files, owners, name) == Some(Entry(name, name, path))
    ensures Bound(OwnerImports(files, owners, LAMBDA), LAMBDA, name) == Entry(name, name, other)
  {
    TwoImportsRead(files, f, name, path, other);
    TwoImportsBeside(files, f, name, path, other);
    TwoImportsExtract(files, owners, f, name);
    OneUsing(f, name);
    UsingLineMentions(f, name);
    ConcatOne(UsingLine(f, name));
    SoleFragment(owners, Fragment(f, [UsingLine(f, name)]));
    MovedMentions(files, owners, LAMBDA, Fragment(f, [UsingLine(f, name)]), name);
    assert AsMap(owners) == map[f := LAMBDA] by { assert owners[..0] == []; }
    BoundIs(files, owners, LAMBDA, name);
    FirstOffers(Entry(name, name, other), Entry(name, name, path), LAMBDA);
  }

  lemma FirstOffers(a: Entry, b: Entry, owner: string)
    requires a.module_ != owner && a.local == b.local
    ensures Offered([a] + [b], a.local, owner) == Some(a) && First([b], b.local) == Some(b)
  {
    assert ([a] + [b])[..1] == [a] && [a][..0] == [] && [b][..0] == [];
    assert Offered([a], a.local, owner) == Some(a);
  }
}
