/** Packing selected files of a tree into a bundle, and extracting a bundle into a fresh directory. */
module EvidenceBundle {
  import opened Wrappers
  import opened Json
  import opened TextOrder
  import opened JsonLines
  import opened TextLines
  import opened Base64
  import opened EvidenceFormat
  import opened EvidenceRoundTrip

  /** What a name below the root refers to. */
  datatype Node = File(mode: nat, data: seq<Byte>) | Dir | Link | Special

  /** Every entry below the root, by its path from the root. */
  type Tree = map<Text, Node>

  /** Names as the file system gives them: a backslash is an ordinary character, and every parent is a directory. */
  ghost predicate ValidTree(tree: Tree)
  {
    && (forall n | n in tree :: n != [] && NUL !in n && PlainParts(n) && Joined(n))
    && (forall p, n | n in tree && p != [] && Under(p, n) :: p in tree && tree[p].Dir?)
  }

  datatype PackError =
    | NotDistinct
    | UnsafeSelection
    | SymbolicLink
    | NotRegular
    | HiddenFile
    | Overlapping
    | NothingToRetain
    | OutputExists
    | Unreadable

  function Same(t: Text): Text
  {
    t
  }

  // Selection.

  predicate LinkOnPath(tree: Tree, name: Text)
  {
    exists p | p in tree :: tree[p].Link? && (p == name || Under(p, name))
  }

  /** The entries one selection leads to: the file itself, or everything below. */
  function Entries(tree: Tree, name: Text): set<Text>
  {
    if name !in tree then {}
    else if tree[name].File? then {name}
    else set n | n in tree && Under(name, n)
  }

  predicate Hidden(name: Text)
  {
    exists part | part in Parts(name) :: part != [] && part[0] == DOT
  }

  predicate EntryAllowed(tree: Tree, output: Option<Text>, n: Text)
    requires n in tree
  {
    tree[n].Dir? || (tree[n].File? && output != Some(n) && !Hidden(n))
  }

  predicate SelectionAllowed(tree: Tree, output: Option<Text>, name: Text)
  {
    && Safe(name)
    && !LinkOnPath(tree, name)
    && forall n | n in Entries(tree, name) :: EntryAllowed(tree, output, n)
  }

  function FilesOf(tree: Tree, name: Text): set<Text>
  {
    set n | n in Entries(tree, name) && tree[n].File?
  }

  /** The files that the selections lead to. */
  function Selected(tree: Tree, selections: seq<Text>): set<Text>
  {
    set s, n | s in selections && n in FilesOf(tree, s) :: n
  }

  function Missing(tree: Tree, selections: seq<Text>): seq<Text>
  {
    if selections == [] then []
    else
      var init, last := selections[..|selections| - 1], selections[|selections| - 1];
      if last in tree then Missing(tree, init) else Missing(tree, init) + [last]
  }

  /** No file is reached twice. */
  predicate NoOverlap(tree: Tree, selections: seq<Text>)
  {
    forall i, j :: 0 <= i < j < |selections| ==> FilesOf(tree, selections[i]) !! FilesOf(tree, selections[j])
  }

  predicate SelectionsAllowed(tree: Tree, output: Option<Text>, selections: seq<Text>)
  {
    && selections != [] && Distinct(selections)
    && (forall s | s in selections :: SelectionAllowed(tree, output, s))
    && NoOverlap(tree, selections)
    && Selected(tree, selections) != {}
  }

  lemma SelectedAppend(tree: Tree, selections: seq<Text>, s: Text)
    ensures Selected(tree, selections + [s]) == Selected(tree, selections) + FilesOf(tree, s)
  {
  }

  /** The files of one selection, added to those already collected. */
  method Collect(tree: Tree, output: Option<Text>, name: Text, paths: seq<Text>)
    returns (r: Result<seq<Text>, PackError>)
    requires Distinct(paths)
    ensures r.Ok? <==> && (forall n | n in Entries(tree, name) :: EntryAllowed(tree, output, n))
                       && (forall n | n in FilesOf(tree, name) :: n !in paths)
    ensures r.Ok? ==> && Distinct(r.value)
                      && forall n :: n in r.value <==> n in paths || n in FilesOf(tree, name)
  {
    var todo := Entries(tree, name);
    var found := paths;
    while todo != {}
      invariant todo <= Entries(tree, name)
      invariant forall n | n in Entries(tree, name) && n !in todo ::
                  EntryAllowed(tree, output, n) && (tree[n].File? ==> n !in paths)
      invariant forall n :: n in found <==> n in paths || (n in Entries(tree, name) && n !in todo && tree[n].File?)
      invariant Distinct(found)
      decreases |todo|
    {
      var n :| n in todo;
      if tree[n].Link? {
        return Err(SymbolicLink);
      }
      if !tree[n].Dir? {
        if !tree[n].File? || output == Some(n) {
          return Err(NotRegular);
        }
        if Hidden(n) {
          return Err(HiddenFile);
        }
        if n in found {
          return Err(Overlapping);
        }
        found := found + [n];
      }
      todo := todo - {n};
    }
    return Ok(found);
  }

  /** One round of the selection loop. */
  method SelectOne(tree: Tree, output: Option<Text>, name: Text, paths: seq<Text>, missing: seq<Text>)
    returns (r: Result<(seq<Text>, seq<Text>), PackError>)
    requires Distinct(paths)
    ensures r.Ok? <==> SelectionAllowed(tree, output, name) && forall n | n in FilesOf(tree, name) :: n !in paths
    ensures r.Ok? ==> && Distinct(r.value.0)
                      && (forall n :: n in r.value.0 <==> n in paths || n in FilesOf(tree, name))
                      && r.value.1 == if name in tree then missing else missing + [name]
  {
    if !Safe(name) {
      return Err(UnsafeSelection);
    }
    if LinkOnPath(tree, name) {
      return Err(SymbolicLink);
    }
    if name !in tree {
      return Ok((paths, missing + [name]));
    }
    var more := Collect(tree, output, name, paths);
    if more.Err? {
      return Err(more.error);
    }
    return Ok((more.value, missing));
  }

  /** What has been collected for some selections: their files, each once, and the missing names. */
  ghost predicate Collected(tree: Tree, selections: seq<Text>, paths: seq<Text>, missing: seq<Text>)
  {
    && NoOverlap(tree, selections) && Distinct(paths)
    && (forall n :: n in paths <==> n in Selected(tree, selections))
    && missing == Missing(tree, selections)
  }

  method Select(tree: Tree, output: Option<Text>, selections: seq<Text>)
    returns (r: Result<(seq<Text>, seq<Text>), PackError>)
    ensures r.Ok? <==> SelectionsAllowed(tree, output, selections)
    ensures r.Ok? ==> && Distinct(r.value.0)
                      && (forall n :: n in r.value.0 <==> n in Selected(tree, selections))
                      && r.value.1 == Missing(tree, selections)
  {
    if selections == [] || !Distinct(selections) {
      return Err(NotDistinct);
    }
    var paths: seq<Text> := [];
    var missing: seq<Text> := [];
    for k := 0 to |selections|
      invariant forall i | 0 <= i < k :: SelectionAllowed(tree, output, selections[i])
      invariant Collected(tree, selections[..k], paths, missing)
    {
      var next := SelectOne(tree, output, selections[k], paths, missing);
      if next.Err? {
        SelectRefused(tree, output, selections, k, paths);
        return Err(next.error);
      }
      assert selections[..k + 1] == selections[..k] + [selections[k]] && selections[..k + 1][..k] == selections[..k];
      SelectedAppend(tree, selections[..k], selections[k]);
      NoOverlapAppend(tree, selections[..k], selections[k]);
      paths, missing := next.value.0, next.value.1;
    }
    assert selections[..|selections|] == selections;
    if paths == [] {
      assert Selected(tree, selections) == {};
      return Err(NothingToRetain);
    }
    assert paths[0] in Selected(tree, selections);
    return Ok((paths, missing));
  }

  lemma NoOverlapAppend(tree: Tree, selections: seq<Text>, name: Text)
    requires NoOverlap(tree, selections) && FilesOf(tree, name) !! Selected(tree, selections)
    ensures NoOverlap(tree, selections + [name])
  {
    forall i | 0 <= i < |selections| ensures FilesOf(tree, selections[i]) !! FilesOf(tree, name) {
      assert FilesOf(tree, selections[i]) <= Selected(tree, selections);
    }
  }

  /** A selection that is refused refuses the whole: it is not allowed, or an earlier one reached a file of it. */
  lemma SelectRefused(tree: Tree, output: Option<Text>, selections: seq<Text>, k: nat, paths: seq<Text>)
    requires k < |selections|
    requires forall n :: n in paths <==> n in Selected(tree, selections[..k])
    requires !(&& SelectionAllowed(tree, output, selections[k])
               && forall n | n in FilesOf(tree, selections[k]) :: n !in paths)
    ensures !SelectionsAllowed(tree, output, selections)
  {
    assert selections[k] in selections;
    if exists n :: n in FilesOf(tree, selections[k]) && n in paths {
      var n :| n in FilesOf(tree, selections[k]) && n in paths;
      var s :| s in selections[..k] && n in FilesOf(tree, s);
      var i :| 0 <= i < k && selections[i] == s;
      assert !(FilesOf(tree, selections[i]) !! FilesOf(tree, selections[k]));
    }
  }

  // Writing.

  /** The one sorted list of a set of names. */
  ghost function Listing(s: set<Text>): (names: seq<Text>)
    ensures Sorted(Same, names)
    ensures forall n :: n in names <==> n in s
  {
    if s == {} then []
    else
      var x :| x in s;
      var rest := Listing(s - {x});
      InsertSorted(Same, x, rest);
      InsertHas(x, rest);
      Insert(Same, x, rest)
  }

  lemma InsertHas(x: Text, names: seq<Text>)
    ensures forall n :: n in Insert(Same, x, names) <==> n == x || n in names
  {
    InsertKeeps(Same, x, names);
    forall n ensures n in Insert(Same, x, names) <==> n == x || n in names {
      assert n in Insert(Same, x, names) <==> n in multiset(Insert(Same, x, names));
    }
  }

  lemma ListingUnique(s: set<Text>, names: seq<Text>)
    requires Distinct(names) && forall n :: n in names <==> n in s
    ensures SortBy(Same, names) == Listing(s)
  {
    SortSorts(Same, names);
    forall n ensures n in SortBy(Same, names) <==> n in Listing(s) {
      SortHas(Same, names, n);
    }
    SortedUnique(Same, SortBy(Same, names), Listing(s));
  }

  /** What is recorded of a file: its permission bits and its bytes. */
  function EvidenceOf(tree: Tree, name: Text): Evidence
    requires name in tree && tree[name].File?
  {
    Evidence(name, tree[name].mode % 0x200, tree[name].data)
  }

  ghost predicate AllFiles(tree: Tree, names: seq<Text>)
  {
    forall n | n in names :: n in tree && tree[n].File?
  }

  function EvidenceList(tree: Tree, names: seq<Text>): seq<Evidence>
    requires AllFiles(tree, names)
  {
    seq(|names|, i requires 0 <= i < |names| => assert names[i] in names; EvidenceOf(tree, names[i]))
  }

  /** The records that packing is to produce: every selected file once, in path order. */
  ghost function Retained(tree: Tree, selections: seq<Text>): seq<Evidence>
  {
    EvidenceList(tree, Listing(Selected(tree, selections)))
  }

  ghost function MissingInventory(tree: Tree, selections: seq<Text>): seq<Text>
  {
    SortBy(Same, Missing(tree, selections))
  }

  lemma {:induction false} MissingIs(tree: Tree, selections: seq<Text>)
    ensures forall n :: n in Missing(tree, selections) <==> n in selections && n !in tree
    ensures Distinct(selections) ==> Distinct(Missing(tree, selections))
  {
    if selections != [] {
      MissingIs(tree, selections[..|selections| - 1]);
    }
  }

  lemma InventoryIs(tree: Tree, selections: seq<Text>)
    requires Distinct(selections)
    ensures Distinct(MissingInventory(tree, selections))
    ensures forall n :: n in MissingInventory(tree, selections) <==> n in selections && n !in tree
  {
    var missing := Missing(tree, selections);
    MissingIs(tree, selections);
    SortSorts(Same, missing);
    SortedDistinct(Same, SortBy(Same, missing));
    forall n ensures n in SortBy(Same, missing) <==> n in selections && n !in tree {
      SortHas(Same, missing, n);
    }
  }

  lemma PathsRetained(tree: Tree, selections: seq<Text>, paths: seq<Text>)
    requires Distinct(paths) && forall n :: n in paths <==> n in Selected(tree, selections)
    ensures AllFiles(tree, SortBy(Same, paths))
    ensures EvidenceList(tree, SortBy(Same, paths)) == Retained(tree, selections)
  {
    ListingUnique(Selected(tree, selections), paths);
  }

  /** The retained records are the selected files, and nothing else. */
  lemma RetainedAre(tree: Tree, selections: seq<Text>)
    ensures Paths(Retained(tree, selections)) == Selected(tree, selections)
    ensures forall e | e in Retained(tree, selections) :: e.path in Selected(tree, selections) && e.mode <= 0x1FF
    ensures DistinctPaths(Retained(tree, selections))
  {
    var names := Listing(Selected(tree, selections));
    var es := Retained(tree, selections);
    SortedDistinct(Same, names);
    forall i | 0 <= i < |es| ensures es[i].path == names[i] && names[i] in Selected(tree, selections) {
      assert names[i] in names;
    }
    forall n | n in Selected(tree, selections) ensures n in Paths(es) {
      var i :| 0 <= i < |names| && names[i] == n;
      assert es[i] in es && es[i].path == n;
    }
  }

  lemma SelectedAreFiles(tree: Tree, selections: seq<Text>)
    requires ValidTree(tree)
    ensures forall n | n in Selected(tree, selections) :: n in tree && tree[n].File? && n != [] && Joined(n)
    ensures NoParentConflict(Selected(tree, selections))
  {
    forall p, q | p in Selected(tree, selections) && q in Selected(tree, selections) ensures !Under(p, q) {
      assert p in tree && tree[p].File? && q in tree;
    }
  }

  lemma NoneMissing(tree: Tree, missing: seq<Text>, name: Text)
    requires ValidTree(tree) && name in tree && forall p | p in missing :: p !in tree && p != []
    ensures !AtOrUnder(missing, name)
  {
  }

  /** What packing selects is a stream the reader will take apart again, except perhaps for a backslash in a name. */
  lemma SelectionWritable(tree: Tree, output: Option<Text>, selections: seq<Text>)
    requires ValidTree(tree) && SelectionsAllowed(tree, output, selections) && forall s | s in selections :: Joined(s)
    ensures Writable(MissingInventory(tree, selections), Retained(tree, selections))
  {
    var es := Retained(tree, selections);
    var missing := MissingInventory(tree, selections);
    InventoryIs(tree, selections);
    RetainedAre(tree, selections);
    SelectedAreFiles(tree, selections);
    var n :| n in Selected(tree, selections);
    assert n in Paths(es);
    forall p | p in missing ensures Safe(p) && Joined(p) && p !in tree && p != [] {
      assert p in selections && SelectionAllowed(tree, output, p);
    }
    forall e | e in es ensures Recordable(e) && !AtOrUnder(missing, e.path) {
      NoneMissing(tree, missing, e.path);
    }
  }

  /** A selected name is safe unless it holds a backslash. */
  lemma SafeUnlessBackslash(tree: Tree, selections: seq<Text>)
    requires ValidTree(tree)
    ensures (forall e | e in Retained(tree, selections) :: Safe(e.path))
       <==> (forall n | n in Selected(tree, selections) :: BACKSLASH !in n)
  {
    var es := Retained(tree, selections);
    RetainedAre(tree, selections);
    forall n | n in Selected(tree, selections) ensures Safe(n) <==> BACKSLASH !in n {
      assert n in tree;
    }
    forall n | n in Selected(tree, selections) ensures exists e :: e in es && e.path == n {
      assert n in Paths(es);
    }
  }

  lemma BundleLineAt(missing: seq<Text>, es: seq<Evidence>, sha: seq<Byte> -> Text, k: nat)
    requires k < |es|
    ensures var lines := BundleLines(missing, es, sha);
            Concat(lines[..k + 2]) == Concat(lines[..k + 1]) + Line(Obj(RecordMembers(es[k], sha)))
  {
    var lines := BundleLines(missing, es, sha);
    assert lines[..k + 2] == lines[..k + 1] + [lines[k + 1]];
    SnocConcat(lines[..k + 1], lines[k + 1]);
  }

  lemma BundleEnds(missing: seq<Text>, es: seq<Evidence>, sha: seq<Byte> -> Text)
    ensures var lines := BundleLines(missing, es, sha);
            && Concat(lines[..1]) == Line(Obj(HeaderMembers(|es|, missing)))
            && lines[..|es| + 1] == lines
  {
    var header := BundleLines(missing, es, sha)[..1];
    assert header[1..] == [];
  }

  method Write(tree: Tree, names: seq<Text>, missing: seq<Text>, sha: seq<Byte> -> Text) returns (text: string)
    requires AllFiles(tree, names)
    ensures text == Bundle(missing, EvidenceList(tree, names), sha)
  {
    ghost var es := EvidenceList(tree, names);
    BundleEnds(missing, es, sha);
    text := Line(Obj(HeaderMembers(|names|, missing)));
    for k := 0 to |names|
      invariant text == Concat(BundleLines(missing, es, sha)[..k + 1])
    {
      assert names[k] in names;
      BundleLineAt(missing, es, sha, k);
      text := text + Line(Obj(RecordMembers(EvidenceOf(tree, names[k]), sha)));
    }
  }

  /** The round trip of a selection: what is written for it reads back, or is rejected for a backslash in a name. */
  lemma SelectionReads(tree: Tree, output: Option<Text>, selections: seq<Text>, sha: seq<Byte> -> Text)
    requires ValidTree(tree) && IsDigest(sha) && SelectionsAllowed(tree, output, selections)
    requires forall s | s in selections :: Joined(s)
    ensures var missing, es := MissingInventory(tree, selections), Retained(tree, selections);
            Records(Bundle(missing, es, sha), sha)
            == if forall n | n in Selected(tree, selections) :: BACKSLASH !in n then Some((missing, es)) else None
  {
    SelectionWritable(tree, output, selections);
    SafeUnlessBackslash(tree, selections);
    BundleReads(MissingInventory(tree, selections), Retained(tree, selections), sha);
  }

  /**
   * Packing succeeds exactly when the selections are allowed, the output is new, and no selected name holds a
   * backslash; what it writes then reads back as the selected files, each once, in path order.
   */
  method Pack(tree: Tree, output: Option<Text>, outputExists: bool, selections: seq<Text>, sha: seq<Byte> -> Text)
    returns (r: Result<string, PackError>)
    requires ValidTree(tree) && IsDigest(sha) && forall s | s in selections :: Joined(s)
    ensures r.Ok? <==> && SelectionsAllowed(tree, output, selections)
                       && !outputExists
                       && forall n | n in Selected(tree, selections) :: BACKSLASH !in n
    ensures r.Ok? ==> Records(r.value, sha) == Some((MissingInventory(tree, selections), Retained(tree, selections)))
  {
    var selection := Select(tree, output, selections);
    if selection.Err? {
      return Err(selection.error);
    }
    var (paths, missing) := selection.value;
    if outputExists {
      return Err(OutputExists);
    }
    var names := SortBy(Same, paths);
    PathsRetained(tree, selections, paths);
    var text := Write(tree, names, SortBy(Same, missing), sha);
    SelectionReads(tree, output, selections, sha);
    var verified := ReadBundle(text, sha);
    if verified.None? {
      return Err(Unreadable);
    }
    return Ok(text);
  }

  // A directory with a file that cannot be packed.

  const DIRECTORY: Text := [0x64]
  const LEAF: Text := [0x61, BACKSLASH, 0x62]
  const BACKSLASHED: Text := DIRECTORY + [SLASH] + LEAF

  /** The directory d, with a file a\b in it. */
  function Backslashed(data: seq<Byte>): Tree
  {
    map[DIRECTORY := Dir, BACKSLASHED := File(0x1A4, data)]
  }

  lemma {:induction false} OnePart(t: Text)
    requires SLASH !in t
    ensures FirstPart(t) == |t| && Parts(t) == [t]
  {
    if t != [] {
      OnePart(t[1..]);
    }
  }

  lemma TwoParts(a: Text, b: Text)
    requires SLASH !in a && SLASH !in b
    ensures Parts(a + [SLASH] + b) == [a, b]
  {
    var t := a + [SLASH] + b;
    FirstPartOf(a, b);
    OnePart(b);
    assert t[..|a|] == a && t[|a| + 1..] == b;
  }

  lemma {:induction false} FirstPartOf(a: Text, b: Text)
    requires SLASH !in a
    ensures FirstPart(a + [SLASH] + b) == |a|
  {
    if a == [] {
      assert a + [SLASH] + b == [SLASH] + b;
    } else {
      FirstPartOf(a[1..], b);
      assert (a + [SLASH] + b)[1..] == a[1..] + [SLASH] + b;
    }
  }

  lemma BackslashedNames()
    ensures Parts(DIRECTORY) == [DIRECTORY] && Parts(BACKSLASHED) == [DIRECTORY, LEAF]
    ensures Joined(DIRECTORY) && Joined(BACKSLASHED)
  {
    OnePart(DIRECTORY);
    TwoParts(DIRECTORY, LEAF);
    PlainJoined(DIRECTORY);
    PlainJoined(BACKSLASHED);
  }

  lemma OnlyParent(p: Text)
    requires p != [] && Under(p, BACKSLASHED)
    ensures p == DIRECTORY
  {
    assert BACKSLASHED[|p|] == (p + [SLASH])[|p|] == SLASH;
    assert p == BACKSLASHED[..|p|];
  }

  lemma BackslashedValid(data: seq<Byte>)
    ensures ValidTree(Backslashed(data))
  {
    var tree := Backslashed(data);
    BackslashedNames();
    forall p, n | n in tree && p != [] && Under(p, n) ensures p in tree && tree[p].Dir? {
      if n == BACKSLASHED {
        OnlyParent(p);
      }
    }
  }

  lemma BackslashedAllowed(data: seq<Byte>)
    ensures SelectionsAllowed(Backslashed(data), None, [DIRECTORY])
    ensures BACKSLASHED in Selected(Backslashed(data), [DIRECTORY])
  {
    var tree := Backslashed(data);
    BackslashedNames();
    assert DIRECTORY + [SLASH] <= BACKSLASHED;
    assert BACKSLASHED in FilesOf(tree, DIRECTORY) && DIRECTORY in [DIRECTORY];
    assert BACKSLASHED in Selected(tree, [DIRECTORY]);
    assert Safe(DIRECTORY);
    assert !Hidden(DIRECTORY);
    assert !Hidden(BACKSLASHED);
  }

  /** Selecting the directory is allowed, and the bundle made for it is rejected when it is read back. */
  method BackslashRejected(data: seq<Byte>, sha: seq<Byte> -> Text) returns (r: Result<string, PackError>)
    requires IsDigest(sha)
    ensures SelectionsAllowed(Backslashed(data), None, [DIRECTORY])
    ensures r.Err?
  {
    BackslashedValid(data);
    BackslashedNames();
    BackslashedAllowed(data);
    r := Pack(Backslashed(data), None, false, [DIRECTORY], sha);
  }

  // Extraction.

  /** The directory being filled. It does not exist until it is made. */
  class OutputDirectory {
    var present: bool
    var files: map<Text, (nat, seq<Byte>)>
    var dirs: set<Text>

    /** mkdir: fails on anything that is already there. */
    method Make() returns (ok: bool)
      modifies this
      ensures ok == !old(present)
      ensures if ok then present && files == map[] && dirs == {} else unchanged(this)
    {
      if present {
        return false;
      }
      present, files, dirs := true, map[], {};
      return true;
    }

    /** mkdir of every parent that is missing; a file in the way is an error. */
    method MakeParents(path: Text) returns (ok: bool)
      modifies this`dirs
      ensures ok <==> forall i | 0 <= i < |path| && path[i] == SLASH :: path[..i] !in files
      ensures ok ==> dirs == old(dirs) + (set i | 0 <= i < |path| && path[i] == SLASH :: path[..i])
    {
      for k := 0 to |path|
        invariant forall i | 0 <= i < k && path[i] == SLASH :: path[..i] !in files
        invariant dirs == old(dirs) + (set i | 0 <= i < k && path[i] == SLASH :: path[..i])
      {
        if path[k] == SLASH {
          if path[..k] in files {
            return false;
          }
          dirs := dirs + {path[..k]};
        }
      }
      return true;
    }

    /** Exclusive creation: fails on an existing file or directory. */
    method Create(path: Text, mode: nat, data: seq<Byte>) returns (ok: bool)
      modifies this`files
      ensures ok <==> path !in old(files) && path !in dirs
      ensures files == if ok then old(files)[path := (mode, data)] else old(files)
    {
      if path in files || path in dirs {
        return false;
      }
      files := files[path := (mode, data)];
      return true;
    }
  }

  /** The files a list of records stands for. */
  function FileMap(es: seq<Evidence>): map<Text, (nat, seq<Byte>)>
  {
    if es == [] then map[]
    else
      var last := es[|es| - 1];
      FileMap(es[..|es| - 1])[last.path := (last.mode, last.data)]
  }

  /** Every directory on the way to a recorded path. */
  function ParentDirs(es: seq<Evidence>): set<Text>
  {
    set e, i | e in es && 0 <= i < |e.path| && e.path[i] == SLASH :: e.path[..i]
  }

  lemma {:induction false} FileMapKeys(es: seq<Evidence>)
    ensures FileMap(es).Keys == Paths(es)
  {
    if es != [] {
      var init, last := es[..|es| - 1], es[|es| - 1];
      FileMapKeys(init);
      assert es == init + [last];
    }
  }

  lemma ParentsAppend(es: seq<Evidence>, e: Evidence)
    ensures ParentDirs(es + [e])
         == ParentDirs(es) + (set i | 0 <= i < |e.path| && e.path[i] == SLASH :: e.path[..i])
  {
    var all, more := ParentDirs(es + [e]), set i | 0 <= i < |e.path| && e.path[i] == SLASH :: e.path[..i];
    forall d ensures d in all <==> d in ParentDirs(es) + more {
      if d in all {
        var x, i :| x in es + [e] && 0 <= i < |x.path| && x.path[i] == SLASH && d == x.path[..i];
        assert x in es || x == e;
      }
    }
  }

  /** In an accepted bundle no path is a parent directory of another. */
  lemma ParentsAreNotFiles(es: seq<Evidence>)
    requires NoParentConflict(Paths(es))
    ensures forall e | e in es :: e.path !in ParentDirs(es)
    ensures forall e, i | e in es && 0 <= i < |e.path| && e.path[i] == SLASH :: e.path[..i] !in Paths(es)
  {
    forall e, i | e in es && 0 <= i < |e.path| && e.path[i] == SLASH ensures e.path[..i] !in Paths(es) {
      assert Under(e.path[..i], e.path) by {
        assert e.path[..i + 1] == e.path[..i] + [SLASH];
      }
    }
  }

  /**
   * Creating the files one by one never meets an obstacle, in whatever order the records come, and leaves exactly the
   * recorded files and their parent directories.
   */
  method Fill(es: seq<Evidence>, output: OutputDirectory) returns (ok: bool)
    requires output.files == map[] && output.dirs == {}
    requires DistinctPaths(es) && NoParentConflict(Paths(es))
    modifies output
    ensures ok
    ensures output.files == FileMap(es) && output.dirs == ParentDirs(es) && output.present == old(output.present)
  {
    ParentsAreNotFiles(es);
    for k := 0 to |es|
      invariant output.files == FileMap(es[..k]) && output.dirs == ParentDirs(es[..k])
      invariant output.present == old(output.present)
    {
      var e := es[k];
      assert e in es && es[..k + 1] == es[..k] + [e];
      assert (es[..k] + [e])[..k] == es[..k];
      FileMapKeys(es[..k]);
      ParentsAppend(es[..k], e);
      assert Paths(es[..k]) <= Paths(es);
      var made := output.MakeParents(e.path);
      if !made {
        return false;
      }
      assert ParentDirs(es[..k + 1]) <= ParentDirs(es);
      assert e.path !in Paths(es[..k]);
      var created := output.Create(e.path, e.mode, e.data);
      if !created {
        return false;
      }
    }
    assert es[..|es|] == es;
    return true;
  }

  function TotalBytes(es: seq<Evidence>): nat
  {
    if es == [] then 0 else TotalBytes(es[..|es| - 1]) + |es[|es| - 1].data|
  }

  /** The counters of a verified bundle. */
  method Verify(text: string, sha: seq<Byte> -> Text) returns (r: Option<(nat, nat)>)
    ensures r.Some? <==> Records(text, sha).Some?
    ensures r.Some? ==> r.value == (|Records(text, sha).value.1|, TotalBytes(Records(text, sha).value.1))
  {
    var read := ReadBundle(text, sha);
    if read.None? {
      return None;
    }
    var es := read.value.1;
    var count, size := 0, 0;
    while count < |es|
      invariant count <= |es| && size == TotalBytes(es[..count])
    {
      assert es[..count + 1][..count] == es[..count];
      size := size + |es[count].data|;
      count := count + 1;
    }
    assert es[..count] == es;
    return Some((count, size));
  }

  datatype ExtractError = Rejected | TargetExists | Obstructed

  /** The whole bundle is validated first: a rejected one creates nothing, an accepted one is extracted completely. */
  method Extract(text: string, sha: seq<Byte> -> Text, output: OutputDirectory)
    returns (r: Result<(nat, nat), ExtractError>)
    modifies output
    ensures r == if Records(text, sha).None? then Err(Rejected)
                 else if old(output.present) then Err(TargetExists)
                 else Ok((|Records(text, sha).value.1|, TotalBytes(Records(text, sha).value.1)))
    ensures r.Err? ==> unchanged(output)
    ensures r.Ok? ==> && output.present
                      && output.files == FileMap(Records(text, sha).value.1)
                      && output.dirs == ParentDirs(Records(text, sha).value.1)
  {
    var counts := Verify(text, sha);
    if counts.None? {
      return Err(Rejected);
    }
    var made := output.Make();
    if !made {
      return Err(TargetExists);
    }
    AcceptedInOrder(text, sha);
    var read := ReadBundle(text, sha);
    var ok := Fill(read.value.1, output);
    if !ok {
      return Err(Obstructed);
    }
    return Ok(counts.value);
  }

  // End to end.

  lemma {:induction false} FileMapOf(tree: Tree, names: seq<Text>)
    requires AllFiles(tree, names)
    ensures FileMap(EvidenceList(tree, names))
         == map n | n in names :: (tree[n].mode % 0x200, tree[n].data)
  {
    if names != [] {
      var init, last := names[..|names| - 1], names[|names| - 1];
      FileMapOf(tree, init);
      assert EvidenceList(tree, names)[..|names| - 1] == EvidenceList(tree, init);
      assert names == init + [last];
    }
  }

  lemma RetainedFiles(tree: Tree, selections: seq<Text>)
    ensures FileMap(Retained(tree, selections))
         == map n | n in Selected(tree, selections) :: (tree[n].mode % 0x200, tree[n].data)
  {
    FileMapOf(tree, Listing(Selected(tree, selections)));
  }

  /** Packing and extracting recreates exactly the selected files, with their permission bits and bytes. */
  method PackThenExtract(tree: Tree, bundle: Option<Text>, selections: seq<Text>, sha: seq<Byte> -> Text,
                         output: OutputDirectory)
    returns (r: Result<(nat, nat), ExtractError>)
    requires ValidTree(tree) && IsDigest(sha) && (forall s | s in selections :: Joined(s))
    requires SelectionsAllowed(tree, bundle, selections)
    requires forall n | n in Selected(tree, selections) :: BACKSLASH !in n
    requires !output.present
    modifies output
    ensures r.Ok?
    ensures output.files == map n | n in Selected(tree, selections) :: (tree[n].mode % 0x200, tree[n].data)
  {
    var packed := Pack(tree, bundle, false, selections, sha);
    RetainedFiles(tree, selections);
    r := Extract(packed.value, sha, output);
  }
}
