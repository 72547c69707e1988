/**
 * Splitting the checker module: each of its functions moves, whole, to the module assigned to it, and every module it
 * moves to gets an import header made from the names its text mentions.
 */
module CheckerExtraction {
  import opened Wrappers
  import opened TextSearch
  import opened WordSearch
  import opened TextLines
  import opened Grouping
  import opened ImportLines
  import opened ImportRewriting
  import opened ImportStability
  import opened FunctionFragments

  const LAMBDA := "lambda_checking"

  /** The module assigned to a checker function. */
  datatype Assignment = Assignment(name: string, owner: string)

  /** A name a source can import: how it is spelled there, the member it stands for, and the module of that member. */
  datatype Entry = Entry(local: string, member: string, module_: string)

  datatype Reason =
    | NoChecker
    | PartlyApplied(name: string, owner: string)
    | DeclarationsChanged
    | OwnerExists
    | LeadingText
    | NotNamed(file: string)

  datatype Outcome = Applied | Extracted | Rejected(reason: Reason)

  datatype Extraction = Extraction(files: map<string, string>, outcome: Outcome)

  // The assignments, as the dictionary they come from.

  function AsMap(owners: seq<Assignment>): map<string, string>
  {
    if owners == [] then map[]
    else
      var last := owners[|owners| - 1];
      AsMap(owners[..|owners| - 1])[last.name := last.owner]
  }

  predicate DistinctNames(owners: seq<Assignment>)
  {
    forall i, j | 0 <= i < j < |owners| :: owners[i].name != owners[j].name
  }

  function NamesOf(owners: seq<Assignment>): set<string>
  {
    set a | a in owners :: a.name
  }

  /** The functions that stay in the checker. */
  function Staying(owners: seq<Assignment>): set<string>
  {
    set a | a in owners && a.owner == CHECKED :: a.name
  }

  // Imports.

  /** After the imports and the blank line that may follow them. */
  function Body(source: string): string
  {
    var after := AfterHead(source);
    if "\n" <= after then after[1..] else after
  }

  function MemberEntries(members: seq<string>, m: string): seq<Entry>
  {
    seq(|members|, i requires 0 <= i < |members| => Entry(Local(members[i]), members[i], m))
  }

  /** What a header imports; nothing if some line of it is not a named import. */
  function HeaderEntries(ls: seq<string>): Option<seq<Entry>>
  {
    if ls == [] then Some([])
    else
      match ParseNamed(ls[0])
      case None => None
      case Some(x) =>
        match HeaderEntries(ls[1..])
        case None => None
        case Some(rest) => Some(MemberEntries(Split(COMMA, x.inner), x.module_) + rest)
  }

  function OwnedEntries(owners: seq<Assignment>): seq<Entry>
  {
    seq(|owners|, i requires 0 <= i < |owners| => Entry(owners[i].name, owners[i].name, owners[i].owner))
  }

  /** Whether a module needs an entry: not its own, not declared in it, and mentioned. */
  predicate Wanted(e: Entry, owner: string, declared: seq<string>, body: string)
  {
    e.local !in declared && e.module_ != owner && Mentions(e.local, body)
  }

  function Locals(es: seq<Entry>): seq<string>
  {
    seq(|es|, i requires 0 <= i < |es| => es[i].local)
  }

  /** The entries imported: for each name wanted, the first in the pool that offers it. */
  function Picked(pool: seq<Entry>, owner: string, declared: seq<string>, body: string): seq<Entry>
  {
    if pool == [] then []
    else
      var before, e := Picked(pool[..|pool| - 1], owner, declared, body), pool[|pool| - 1];
      if Wanted(e, owner, declared, body) && e.local !in Locals(before) then before + [e] else before
  }

  function ImportGroups(es: seq<Entry>): seq<Group<string>>
  {
    if es == [] then []
    else
      var last := es[|es| - 1];
      AddTo(ImportGroups(es[..|es| - 1]), last.module_, last.member)
  }

  function HeaderLines(es: seq<Entry>): seq<string>
  {
    PrintAll(GroupLines(ImportGroups(es), ""))
  }

  /** The header with the blank line that separates it from the body. */
  function HeaderText(es: seq<Entry>): string
  {
    if es == [] then "" else PrintLines(HeaderLines(es)) + "\n"
  }

  // One module.

  /** What a module declares already, closed by a newline that leaves a blank line if it did not end with one. */
  function Padded(body: string): string
  {
    if body != "" && !(|body| >= 2 && body[|body| - 2..] == "\n\n") then body + "\n" else body
  }

  /** A module that functions move to keeps what it has; the checker itself starts empty. */
  function Kept(files: map<string, string>, owner: string): string
  {
    if owner == CHECKED || owner !in files then "" else files[owner]
  }

  function NewBody(files: map<string, string>, g: Group<Fragment>): string
  {
    Padded(Body(Kept(files, g.key))) + Concat(AllLines(g.items))
  }

  function OwnerFile(files: map<string, string>, pool: seq<Entry>, g: Group<Fragment>): Option<string>
  {
    match HeaderEntries(HeadLines(Kept(files, g.key)))
    case None => None
    case Some(own) =>
      var body := NewBody(files, g);
      Some(HeaderText(Picked(own + pool, g.key, Declared(SplitLines(body)), body)) + body)
  }

  function FillOwners(files: map<string, string>, pool: seq<Entry>, groups: seq<Group<Fragment>>): Extraction
    decreases |groups|
  {
    if groups == [] then Extraction(files, Extracted)
    else
      match OwnerFile(files, pool, groups[0])
      case None => Extraction(files, Rejected(NotNamed(groups[0].key)))
      case Some(text) => FillOwners(files[groups[0].key := text], pool, groups[1..])
  }

  // The whole extraction.

  function OwnerOf(owners: map<string, string>, name: string): string
  {
    if name in owners then owners[name] else ""
  }

  function Pieces(fs: seq<Fragment>, owners: map<string, string>): seq<Group<Fragment>>
  {
    if fs == [] then []
    else
      var last := fs[|fs| - 1];
      AddTo(Pieces(fs[..|fs| - 1], owners), OwnerOf(owners, last.name), last)
  }

  predicate Declares(line: string, name: string)
  {
    DEF + name + "(" <= line
  }

  function Declarations(lines: seq<string>, name: string): nat
  {
    if lines == [] then 0 else (if Declares(lines[0], name) then 1 else 0) + Declarations(lines[1..], name)
  }

  function FileLines(files: map<string, string>, name: string): seq<string>
  {
    if name in files then SplitLines(files[name]) else []
  }

  /** The first function that its owner does not declare exactly once. */
  function FirstMissing(files: map<string, string>, owners: seq<Assignment>): Option<Assignment>
  {
    if owners == [] then None
    else if Declarations(FileLines(files, owners[0].owner), owners[0].name) != 1 then Some(owners[0])
    else FirstMissing(files, owners[1..])
  }

  function ToSet(names: seq<string>): set<string>
  {
    set n | n in names
  }

  predicate SomeOwnerExists(files: map<string, string>, owners: seq<Assignment>)
  {
    exists a | a in owners :: a.owner != CHECKED && a.owner != LAMBDA && a.owner in files
  }

  function CheckerLines(files: map<string, string>): seq<string>
    requires CHECKED in files
  {
    SplitLines(Body(files[CHECKED]))
  }

  function ExtractFragments(files: map<string, string>, owners: seq<Assignment>): Extraction
    requires CHECKED in files
  {
    var lines := CheckerLines(files);
    if !Blank(Concat(lines[..Lead(lines)])) then Extraction(files, Rejected(LeadingText))
    else
      match HeaderEntries(HeadLines(files[CHECKED]))
      case None => Extraction(files, Rejected(NotNamed(CHECKED)))
      case Some(es) => FillOwners(files, es + OwnedEntries(owners), Pieces(Fragments(lines), AsMap(owners)))
  }

  function Extract(files: map<string, string>, owners: seq<Assignment>): Extraction
  {
    if CHECKED !in files then Extraction(files, Rejected(NoChecker))
    else
      var present := Declared(CheckerLines(files));
      if ToSet(present) == Staying(owners) then
        match FirstMissing(files, owners)
        case None => Extraction(files, Applied)
        case Some(a) => Extraction(files, Rejected(PartlyApplied(a.name, a.owner)))
      else if ToSet(present) != NamesOf(owners) || !Distinct(present) then
        Extraction(files, Rejected(DeclarationsChanged))
      else if SomeOwnerExists(files, owners) then Extraction(files, Rejected(OwnerExists))
      else ExtractFragments(files, owners)
  }

  /** The compiler sources by their original names, as the migration holds them while it plans. */
  class Sources {
    var files: map<string, string>

    constructor (files: map<string, string>)
      ensures this.files == files
    {
      this.files := files;
    }

    /** The functions of the checker, collected for their owners. */
    static method CollectPieces(fs: seq<Fragment>, owners: map<string, string>) returns (pieces: seq<Group<Fragment>>)
      ensures pieces == Pieces(fs, owners)
    {
      pieces := [];
      for k := 0 to |fs|
        invariant pieces == Pieces(fs[..k], owners)
      {
        pieces := AddTo(pieces, OwnerOf(owners, fs[k].name), fs[k]);
        assert fs[..k + 1][..k] == fs[..k];
      }
      assert fs[..|fs|] == fs;
    }

    /** The loop over the pool, with the imports grouped as it goes. */
    static method Synthesize(pool: seq<Entry>, owner: string, body: string) returns (header: string)
      ensures header == HeaderText(Picked(pool, owner, Declared(SplitLines(body)), body))
    {
      var declared := Declared(SplitLines(body));
      var imports: seq<Group<string>> := [];
      var imported: set<string> := {};
      ghost var picked: seq<Entry> := [];
      for k := 0 to |pool|
        invariant picked == Picked(pool[..k], owner, declared, body)
        invariant imports == ImportGroups(picked)
        invariant imported == ToSet(Locals(picked))
      {
        var e := pool[k];
        assert pool[..k + 1][..k] == pool[..k];
        if !(e.local in declared || e.module_ == owner || e.local in imported) {
          if Mentions(e.local, body) {
            imports := AddTo(imports, e.module_, e.member);
            imported := imported + {e.local};
            PickOne(picked, e);
            picked := picked + [e];
          }
        }
      }
      assert pool[..|pool|] == pool;
      ImportsOf(picked);
      header := if imports == [] then "" else PrintLines(PrintAll(GroupLines(imports, ""))) + "\n";
    }

    method FillOwner(pool: seq<Entry>, owner: string, fragments: seq<Fragment>) returns (error: Option<Reason>)
      modifies this
      ensures var text := OwnerFile(old(files), pool, Group(owner, fragments));
              && (text.None? ==> files == old(files) && error == Some(NotNamed(owner)))
              && (text.Some? ==> files == old(files)[owner := text.value] && error == None)
    {
      var source := if owner == CHECKED || owner !in files then "" else files[owner];
      var own := HeaderEntries(HeadLines(source));
      if own.None? {
        return Some(NotNamed(owner));
      }
      var body := Body(source);
      if body != "" && !(|body| >= 2 && body[|body| - 2..] == "\n\n") {
        body := body + "\n";
      }
      body := body + Concat(AllLines(fragments));
      var header := Synthesize(own.value + pool, owner, body);
      files := files[owner := header + body];
      error := None;
    }

    method ExtractChecker(owners: seq<Assignment>) returns (outcome: Outcome)
      modifies this
      ensures files == Extract(old(files), owners).files
      ensures outcome == Extract(old(files), owners).outcome
    {
      if CHECKED !in files {
        return Rejected(NoChecker);
      }
      var lines := SplitLines(Body(files[CHECKED]));
      var present := Declared(lines);
      if ToSet(present) == Staying(owners) {
        var missing := FirstMissing(files, owners);
        return if missing.None? then Applied else Rejected(PartlyApplied(missing.value.name, missing.value.owner));
      }
      if ToSet(present) != NamesOf(owners) || !Distinct(present) {
        return Rejected(DeclarationsChanged);
      }
      if SomeOwnerExists(files, owners) {
        return Rejected(OwnerExists);
      }
      if !Blank(Concat(lines[..Lead(lines)])) {
        return Rejected(LeadingText);
      }
      var pieces := CollectPieces(Fragments(lines), AsMap(owners));
      var named := HeaderEntries(HeadLines(files[CHECKED]));
      if named.None? {
        return Rejected(NotNamed(CHECKED));
      }
      var pool := named.value + OwnedEntries(owners);
      ghost var want := FillOwners(files, pool, pieces);
      var k := 0;
      while k < |pieces|
        invariant 0 <= k <= |pieces|
        invariant FillOwners(files, pool, pieces[k..]) == want
      {
        var error := FillOwner(pool, pieces[k].key, pieces[k].items);
        assert pieces[k..][1..] == pieces[k + 1..];
        if error.Some? {
          return Rejected(error.value);
        }
        k := k + 1;
      }
      outcome := Extracted;
    }
  }

  lemma PickOne(picked: seq<Entry>, e: Entry)
    ensures ImportGroups(picked + [e]) == AddTo(ImportGroups(picked), e.module_, e.member)
    ensures ToSet(Locals(picked + [e])) == ToSet(Locals(picked)) + {e.local}
  {
    assert (picked + [e])[..|picked|] == picked;
    assert Locals(picked + [e]) == Locals(picked) + [e.local];
  }

  lemma ImportsOf(picked: seq<Entry>)
    ensures ImportGroups(picked) == [] <==> picked == []
  {
  }
}
