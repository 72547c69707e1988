/** Rewriting imports a second time changes nothing, for exactly the manifests whose paths lead nowhere further. */
module ImportStability {
  import opened Wrappers
  import opened TextSearch
  import opened WordSearch
  import opened TextLines
  import opened Grouping
  import opened ImportLines
  import opened ImportRewriting

  // What a manifest must be like.

  /** Modules are spelled as modules, and members of default imports as identifiers. */
  predicate Lexical(t: Tables)
  {
    && "{" !in t.paths
    && (forall k | k in t.paths :: IsModule(t.paths[k]))
    && (forall f | f in t.owners :: IsModule(Lookup(t.paths, t.owners[f])))
    && (forall k | k in t.defaults :: IsWord(t.defaults[k]))
  }

  /** Importing from where a name has gone leads no further. */
  predicate Settled(t: Tables, origin: string, m: string)
  {
    Target(t, origin, Target(t, origin, m)) == Target(t, origin, m)
  }

  ghost predicate Stable(t: Tables)
  {
    forall origin, m :: Settled(t, origin, m)
  }

  /**
   * The same as a check over the manifest: an assigned path that is itself a key is its own path, and if some other
   * module moves to the path of the checker, every checker function stays there.
   */
  predicate PathsSettled(t: Tables)
  {
    && (forall k | k in t.paths :: Lookup(t.paths, t.paths[k]) == t.paths[k])
    && ((exists k | k in t.paths :: k != CHECKED && t.paths[k] == CHECKED) ==>
          forall f | f in t.owners :: Lookup(t.paths, t.owners[f]) == CHECKED)
  }

  lemma SettledCheck(t: Tables)
    ensures Stable(t) <==> PathsSettled(t)
  {
    if PathsSettled(t) {
      forall origin, m ensures Settled(t, origin, m) {
        PathsSettledTarget(t, origin, m);
      }
    }
    if Stable(t) {
      var other := Longer(t.owners.Keys);
      forall k | k in t.paths ensures Lookup(t.paths, t.paths[k]) == t.paths[k] {
        assert Settled(t, other, k);
      }
      forall k, f | k in t.paths && k != CHECKED && t.paths[k] == CHECKED && f in t.owners
        ensures Lookup(t.paths, t.owners[f]) == CHECKED
      {
        assert Settled(t, f, k);
      }
    }
  }

  lemma PathsSettledTarget(t: Tables, origin: string, m: string)
    requires PathsSettled(t)
    ensures Settled(t, origin, m)
  {
    var o := Owner(t, origin, m);
    var target := Lookup(t.paths, o);
    assert Lookup(t.paths, target) == target;
    if target == CHECKED && origin in t.owners && m != CHECKED {
      if m in t.paths {
        assert t.paths[m] == CHECKED;
      }
    }
  }

  /** An identifier longer than every name in a finite set, and so not in it. */
  lemma {:induction false} Longer(names: set<string>) returns (name: string)
    ensures IsWord(name) && forall n | n in names :: |n| < |name|
    decreases |names|
  {
    if names == {} {
      name := "a";
    } else {
      var x :| x in names;
      var rest := Longer(names - {x});
      name := rest + seq(|x|, i => 'a');
      forall n | n in names ensures |n| < |name| {
        assert n == x || n in names - {x};
      }
    }
  }

  // Groups.

  /** Where a member of a module goes. */
  function Goes(t: Tables, m: string): string -> string
  {
    (member: string) => Target(t, Origin(member), m)
  }

  lemma {:induction false} RegroupedIsGrouped(t: Tables, members: seq<string>, m: string)
    ensures Regrouped(t, members, m) == Grouped(members, Goes(t, m))
  {
    if members != [] {
      RegroupedIsGrouped(t, members[..|members| - 1], m);
    }
  }

  ghost predicate Together(t: Tables, members: seq<string>, m: string, g: Group<string>)
  {
    g.items != [] && forall x | x in g.items :: x in members && Target(t, Origin(x), m) == g.key
  }

  lemma AllTogether(t: Tables, members: seq<string>, m: string)
    ensures forall g | g in Regrouped(t, members, m) :: Together(t, members, m, g)
  {
    RegroupedIsGrouped(t, members, m);
    GroupsOk(members, Goes(t, m));
    forall g | g in Regrouped(t, members, m) ensures Together(t, members, m, g) {
      assert GroupOk(g, members, Goes(t, m));
    }
  }

  /** Members that all go to one module stay together, in order. */
  lemma OneTarget(t: Tables, members: seq<string>, m: string, target: string)
    requires members != [] && forall x | x in members :: Target(t, Origin(x), m) == target
    ensures Regrouped(t, members, m) == [Group(target, members)]
  {
    RegroupedIsGrouped(t, members, m);
    OneGroup(members, Goes(t, m), target);
  }

  // Words, and what they lack.

  lemma WordLacks(s: string, sep: string, i: nat)
    requires i < |sep| && !IsWordChar(sep[i]) && forall j | 0 <= j < |s| :: IsWordChar(s[j])
    ensures Lacks(sep, s)
  {
    forall j | 0 <= j <= |s| ensures !At(sep, s, j) {
      if j + |sep| <= |s| {
        assert s[j..j + |sep|][i] == s[j + i];
      }
    }
    FindNone(sep, s);
  }

  lemma {:induction false} ModuleChars(m: string)
    requires ModuleRun(m) == |m|
    ensures forall i | 0 <= i < |m| :: IsModuleChar(m[i])
  {
    if m != "" {
      ModuleChars(m[1..]);
      forall i | 0 <= i < |m| ensures IsModuleChar(m[i]) {
        if i > 0 {
          assert m[i] == m[1..][i - 1];
        }
      }
    }
  }

  /** A join lacks a character that its parts and the separator lack. */
  lemma {:induction false} JoinLacksChar(sep: string, parts: seq<string>, c: char)
    requires c !in sep && forall part | part in parts :: c !in part
    ensures c !in Join(sep, parts)
  {
    if |parts| > 1 {
      JoinLacksChar(sep, parts[1..], c);
    }
  }

  lemma LacksChar(c: char, s: string)
    ensures Lacks([c], s) <==> c !in s
  {
    if c !in s {
      forall j | 0 <= j <= |s| ensures !At([c], s, j) {
        if j < |s| {
          assert s[j..j + 1][0] == s[j];
        }
      }
      FindNone([c], s);
    } else {
      var j :| 0 <= j < |s| && s[j] == c;
      assert s[j..j + 1] == [c];
      assert At([c], s, j);
    }
  }

  /** The pieces of a split have only characters of the whole. */
  lemma {:induction false} SplitChars(sep: string, s: string, c: char)
    requires sep != "" && c !in s
    ensures forall part | part in Split(sep, s) :: c !in part
    decreases |s|
  {
    match Find(sep, s)
    case None =>
      forall part | part in Split(sep, s) ensures c !in part {
        assert part == s;
      }
    case Some(i) =>
      var rest := s[i + |sep|..];
      SplitChars(sep, rest, c);
      assert c !in s[..i];
      forall part | part in Split(sep, s) ensures c !in part {
        assert part == s[..i] || part in Split(sep, rest);
      }
  }

  // Rewriting a rewritten line gives it back.

  /** An opening brace is not a module, so a line that looks like a named import without being one stays as it is. */
  lemma BraceLineStays(t: Tables, l: string)
    requires "{" !in t.paths && OPEN <= l && ParseNamed(l).None?
    ensures IMPORT <= l && RewriteLine(t, l) == [l]
  {
    var rest := l[|IMPORT|..];
    assert l[..9] == OPEN;
    assert rest[0] == '{' && rest[1] == ' ';
    assert rest[0..1] != " " && rest[1..2] == " ";
    FindIs(" ", rest, 1);
    assert rest[..1] == "{";
    WholePrints(l);
  }

  lemma CommaBorder()
    ensures NoBorder(COMMA)
  {
    assert COMMA[1..] == " " && COMMA[..1] == ",";
  }

  lemma {:induction false} JoinEmpty(members: seq<string>)
    requires members != []
    ensures Join(COMMA, members) == "" <==> members == [""]
  {
    if |members| > 1 {
      assert Join(COMMA, members) == members[0] + COMMA + Join(COMMA, members[1..]);
    } else {
      assert members == [members[0]];
    }
  }

  /** Members without commas and braces, of which one alone is not empty, are read as they were joined. */
  lemma GroupParses(members: seq<string>, m: string, tail: string)
    requires members != [] && members != [""] && IsModule(m) && (tail == "" || !IsModuleChar(tail[0]))
    requires forall x | x in members :: Lacks(COMMA, x) && '}' !in x
    ensures ParseNamed(PrintLine(Named(Join(COMMA, members), m, tail))) == Some(Named(Join(COMMA, members), m, tail))
    ensures Split(COMMA, Join(COMMA, members)) == members
  {
    JoinEmpty(members);
    JoinLacksChar(COMMA, members, '}');
    LacksChar('}', Join(COMMA, members));
    ParsePrintNamed(Join(COMMA, members), m, tail);
    CommaBorder();
    SplitJoin(COMMA, members);
  }

  /** A named line whose members all come from its own module already. */
  lemma NamedStays(t: Tables, members: seq<string>, m: string, tail: string)
    requires "{" !in t.paths && IsModule(m) && (tail == "" || !IsModuleChar(tail[0]))
    requires members != [] && forall x | x in members :: Lacks(COMMA, x) && '}' !in x && Target(t, Origin(x), m) == m
    ensures var l := PrintLine(Named(Join(COMMA, members), m, tail)); IMPORT <= l && RewriteLine(t, l) == [l]
  {
    var x := Named(Join(COMMA, members), m, tail);
    var l := PrintLine(x);
    assert OPEN <= l && IMPORT <= OPEN;
    if members == [""] {
      EmptyInner(m, tail);
      BraceLineStays(t, l);
    } else {
      GroupParses(members, m, tail);
      OneTarget(t, members, m, m);
      assert RewriteParsed(t, x) == [x];
      assert RewriteLine(t, l) == [l];
    }
  }

  lemma EmptyInner(m: string, tail: string)
    ensures ParseNamed(PrintLine(Named("", m, tail))).None?
  {
    var l := PrintLine(Named("", m, tail));
    var rest := l[|OPEN|..];
    assert rest[0] == ' ' && rest[1] == '}';
    assert rest[0..1] != "}" && rest[1..2] == "}";
    FindIs("}", rest, 1);
  }

  lemma RewrittenNamedStays(t: Tables, inner: string, m: string, tail: string, y: ImportLine)
    requires Lexical(t) && Stable(t) && PlainNamed(inner, m, tail)
    requires y in GroupLines(Regrouped(t, Split(COMMA, inner), m), tail)
    ensures IMPORT <= PrintLine(y) && RewriteLine(t, PrintLine(y)) == [PrintLine(y)]
  {
    var members := Split(COMMA, inner);
    var groups := Regrouped(t, members, m);
    var i :| 0 <= i < |groups| && y == Named(Join(COMMA, groups[i].items), groups[i].key, tail);
    var g := groups[i];
    assert g in groups;
    AllTogether(t, members, m);
    SplitLacks(COMMA, inner);
    LacksChar('}', inner);
    SplitChars(COMMA, inner, '}');
    assert g.items[0] in g.items;
    TargetIsModule(t, Origin(g.items[0]), m);
    forall x | x in g.items ensures Target(t, Origin(x), g.key) == g.key {
      assert Settled(t, Origin(x), m);
    }
    NamedStays(t, g.items, g.key, tail);
  }

  lemma TargetIsModule(t: Tables, origin: string, m: string)
    requires Lexical(t) && IsModule(m)
    ensures IsModule(Target(t, origin, m))
  {
  }

  lemma RewrittenWholeStays(t: Tables, l: string)
    requires Lexical(t) && Stable(t) && IMPORT <= l && ParseNamed(l).None? && NoNewline(l)
    ensures var y := RewriteWhole(t, ParseWhole(l).module_, ParseWhole(l).suffix);
            IMPORT <= PrintLine(y) && RewriteLine(t, PrintLine(y)) == [PrintLine(y)]
  {
    var x := ParseWhole(l);
    var m, suffix := x.module_, x.suffix;
    var moved := Lookup(t.paths, m);
    if m in t.defaults && moved != m {
      ConvertedStays(t, m, if suffix.Some? then suffix.value else "");
    } else {
      KeptStays(t, l);
    }
  }

  /** Only a line with an opening brace as its second word can look like a named import. */
  lemma WholeBrace(l: string)
    requires IMPORT <= l
    ensures OPEN <= l ==> ParseWhole(l).module_ == "{"
  {
    if OPEN <= l {
      var rest := l[|IMPORT|..];
      assert l[..9] == OPEN;
      assert rest[0] == '{' && rest[1] == ' ';
      assert rest[0..1] != " " && rest[1..2] == " ";
      FindIs(" ", rest, 1);
      assert rest[..1] == "{";
    }
  }

  lemma WholeModuleNoSpace(l: string)
    requires IMPORT <= l
    ensures Lacks(" ", ParseWhole(l).module_)
  {
    var rest := l[|IMPORT|..];
    match Find(" ", rest)
    case None =>
    case Some(i) => PrefixLacks(" ", rest, i);
  }

  lemma SpaceSplits(m: string, text: string)
    requires Lacks(" ", m)
    ensures var rest := m + " " + text; Find(" ", rest) == Some(|m|) && rest[..|m|] == m && rest[|m| + 1..] == text
  {
    FirstSeparator(" ", m, text);
  }

  lemma WholeOf(rest: string)
    ensures IMPORT <= IMPORT + rest
    ensures ParseWhole(IMPORT + rest)
         == match Find(" ", rest) case None => Whole(rest, None) case Some(i) => Whole(rest[..i], Some(rest[i + 1..]))
  {
    assert (IMPORT + rest)[|IMPORT|..] == rest;
  }

  /** Printing a whole import whose module has no space, and reading it back. */
  lemma WholeReads(m: string, suffix: Option<string>)
    requires Lacks(" ", m)
    ensures IMPORT <= PrintLine(Whole(m, suffix)) && ParseWhole(PrintLine(Whole(m, suffix))) == Whole(m, suffix)
  {
    match suffix
    case None =>
      WholeOf(m);
      assert PrintLine(Whole(m, suffix)) == IMPORT + m;
    case Some(text) =>
      SpaceSplits(m, text);
      WholeOf(m + " " + text);
      Associates(IMPORT, m, " " + text);
      Associates(m, " ", text);
  }

  lemma ModuleNoSpace(m: string)
    requires IsModule(m)
    ensures Lacks(" ", m) && m != "{"
  {
    ModuleChars(m);
    LacksChar(' ', m);
  }

  /** A whole import that does not become a named one reads as the same import of the moved module. */
  lemma KeptReads(t: Tables, l: string)
    requires Lexical(t) && IMPORT <= l && ParseNamed(l).None?
    ensures var x := ParseWhole(l);
            var y := PrintLine(Whole(Lookup(t.paths, x.module_), x.suffix));
            IMPORT <= y && ParseLine(y) == Whole(Lookup(t.paths, x.module_), x.suffix)
  {
    var x := ParseWhole(l);
    var moved := Lookup(t.paths, x.module_);
    if x.module_ == "{" {
      WholePrints(l);
    } else {
      WholeModuleNoSpace(l);
      if x.module_ in t.paths {
        ModuleNoSpace(moved);
      }
      WholeReads(moved, x.suffix);
      WholeBrace(PrintLine(Whole(moved, x.suffix)));
    }
  }

  lemma KeptStays(t: Tables, l: string)
    requires Lexical(t) && Stable(t) && IMPORT <= l && ParseNamed(l).None?
    requires var x := ParseWhole(l); !(x.module_ in t.defaults && Lookup(t.paths, x.module_) != x.module_)
    ensures var x := ParseWhole(l);
            var y := PrintLine(Whole(Lookup(t.paths, x.module_), x.suffix));
            IMPORT <= y && RewriteLine(t, y) == [y]
  {
    var x := ParseWhole(l);
    var moved := Lookup(t.paths, x.module_);
    KeptReads(t, l);
    PathSettled(t, x.module_);
    assert RewriteWhole(t, moved, x.suffix) == Whole(moved, x.suffix);
  }

  lemma PathSettled(t: Tables, m: string)
    requires Stable(t)
    ensures Lookup(t.paths, Lookup(t.paths, m)) == Lookup(t.paths, m)
  {
    SettledCheck(t);
    if m in t.paths {
      assert Lookup(t.paths, t.paths[m]) == t.paths[m];
    }
  }

  // A converted default import.

  lemma ConvertedStays(t: Tables, m: string, suffix: string)
    requires Lexical(t) && Stable(t) && m in t.defaults && Lookup(t.paths, m) != m
    ensures var l := PrintLine(Converted(t.defaults[m], Lookup(t.paths, m), suffix));
            IMPORT <= l && RewriteLine(t, l) == [l]
  {
    var name, moved := t.defaults[m], Lookup(t.paths, m);
    var y := Converted(name, moved, suffix);
    ConvertedMember(name, moved, suffix);
    if '}' in y.inner {
      ConvertedBrace(t, name, moved, suffix);
    } else {
      DefaultSettled(t, name, m);
      assert Join(COMMA, [y.inner]) == y.inner;
      NamedStays(t, [y.inner], moved, y.tail);
    }
  }

  lemma ConvertedBrace(t: Tables, name: string, moved: string, suffix: string)
    requires "{" !in t.paths && IsWord(name) && '}' in Converted(name, moved, suffix).inner
    ensures var l := PrintLine(Converted(name, moved, suffix));
            IMPORT <= l && RewriteLine(t, l) == [l]
  {
    var y := Converted(name, moved, suffix);
    assert '}' !in name;
    AliasNoSpace(suffix);
    BraceInAlias(name, Alias(suffix), moved, y.tail);
    BraceLineStays(t, PrintLine(y));
  }

  lemma DefaultSettled(t: Tables, name: string, m: string)
    requires Stable(t) && m in t.paths && t.paths[m] != m
    ensures Target(t, name, t.paths[m]) == t.paths[m]
  {
    assert Settled(t, name, m);
    PathSettled(t, m);
  }

  lemma AtChar(c: char, s: string, j: nat)
    ensures At([c], s, j) <==> j < |s| && s[j] == c
  {
    if j < |s| {
      assert s[j..j + 1] == [s[j]];
    }
  }

  /** The first brace, when it comes in the second of three pieces. */
  lemma FirstBrace(pre: string, alias: string, post: string) returns (i: nat)
    requires '}' !in pre && '}' in alias
    ensures i < |alias| && alias[i] == '}' && Find("}", pre + alias + post) == Some(|pre| + i)
  {
    i := 0;
    while alias[i] != '}'
      invariant i < |alias| && forall j | 0 <= j < i :: alias[j] != '}'
      invariant exists j | i <= j < |alias| :: alias[j] == '}'
      decreases |alias| - i
    {
      i := i + 1;
    }
    var s := pre + alias + post;
    forall j | 0 <= j < |pre| + i ensures !At("}", s, j) {
      AtChar('}', s, j);
      assert j < |pre| ==> s[j] == pre[j];
    }
    AtChar('}', s, |pre| + i);
    FindIs("}", s, |pre| + i);
  }

  lemma NotFrom(after: string)
    requires |after| < 2 || after[0] != ' ' || after[1] != 'f'
    ensures !(FROM <= after)
  {
  }

  /** A brace that neither ends a word after a space nor comes before a module ends nothing. */
  lemma Unread(rest: string, k: nat)
    requires Find("}", rest) == Some(k)
    requires k == 0 || rest[k - 1] != ' ' || !(FROM <= rest[k + 1..])
    ensures ParseNamed(OPEN + rest).None?
  {
    assert (OPEN + rest)[|OPEN|..] == rest;
  }

  lemma AliasUnread(pre: string, alias: string, post: string)
    requires '}' !in pre && ' ' !in alias && '}' in alias && |post| > 1 && post[1] == '}'
    ensures ParseNamed(OPEN + (pre + alias + post)).None?
  {
    var i := FirstBrace(pre, alias, post);
    var rest, k := pre + alias + post, |pre| + i;
    if i > 0 {
      assert rest[k - 1] == alias[i - 1] && alias[i - 1] in alias;
    } else {
      var after := rest[k + 1..];
      assert after == alias[1..] + post;
      assert |alias| > 1 ==> after[0] == alias[1] && alias[1] in alias;
      assert |alias| == 1 ==> after[1] == post[1];
      NotFrom(after);
    }
    Unread(rest, k);
  }

  lemma NamedText(inner: string, m: string, tail: string)
    ensures PrintLine(Named(inner, m, tail)) == OPEN + (inner + (" }" + (FROM + (m + tail))))
  {
    var after := FROM + (m + tail);
    Regroup(OPEN, inner, m, tail);
    assert inner + " }" + after == inner + (" }" + after);
  }

  /** An alias with a brace: the line it makes is not read as a named import again. */
  lemma BraceInAlias(name: string, alias: string, m: string, tail: string)
    requires IsWord(name) && ' ' !in alias && '}' in alias
    ensures ParseNamed(PrintLine(Named(name + AS + alias, m, tail))).None?
  {
    var pre, post := name + AS, " }" + (FROM + (m + tail));
    assert '}' !in pre;
    AliasUnread(pre, alias, post);
    NamedText(pre + alias, m, tail);
  }

  /** A separator that starts with a space is first found after a word. */
  lemma AfterWord(name: string, rest: string)
    requires IsWord(name)
    ensures Find(AS, name + AS + rest) == Some(|name|)
  {
    var s := name + AS + rest;
    assert s[|name|..|name| + 4] == AS;
    forall j | 0 <= j < |name| ensures !At(AS, s, j) {
      if j + 4 <= |s| {
        assert s[j..j + 4][0] == name[j];
      }
    }
    FindIs(AS, s, |name|);
  }

  lemma NoSpaceNoComma(name: string, alias: string)
    requires IsWord(name) && ' ' !in alias
    ensures Lacks(COMMA, name + AS + alias)
  {
    var s := name + AS + alias;
    forall j | 0 <= j <= |s| ensures !At(COMMA, s, j) {
      if j + 2 <= |s| {
        assert s[j..j + 2][0] == s[j] && s[j..j + 2][1] == s[j + 1];
        if j + 1 >= |name| + 4 {
          assert s[j + 1] == alias[j + 1 - |name| - 4];
        }
      }
    }
    FindNone(COMMA, s);
  }

  /** The member of a converted import: one name, perhaps with an alias that holds no space. */
  lemma ConvertedMember(name: string, m: string, suffix: string)
    requires IsWord(name)
    ensures var y := Converted(name, m, suffix);
            && y.Named? && y.module_ == m && y.inner != ""
            && Lacks(COMMA, y.inner) && Origin(y.inner) == name
            && (y.tail == "" || !IsModuleChar(y.tail[0]))
  {
    WordLacks(name, COMMA, 0);
    WordLacks(name, AS, 0);
    if "as " <= suffix {
      var alias := Alias(suffix);
      AliasNoSpace(suffix);
      NoSpaceNoComma(name, alias);
      AfterWord(name, alias);
      assert (name + AS + alias)[..|name|] == name;
    }
  }

  function Alias(suffix: string): string
    requires "as " <= suffix
  {
    Split(" ", suffix[3..])[0]
  }

  lemma AliasNoSpace(suffix: string)
    requires "as " <= suffix
    ensures ' ' !in Alias(suffix)
  {
    SplitLacks(" ", suffix[3..]);
    assert Alias(suffix) in Split(" ", suffix[3..]);
    LacksChar(' ', Alias(suffix));
  }

  // Whole sources.

  /** A line that rewriting leaves alone. */
  ghost predicate Fixed(t: Tables, l: string)
  {
    IMPORT <= l && NoNewline(l) && RewriteLine(t, l) == [l]
  }

  lemma LineParts(x: ImportLine)
    requires '\n' !in PrintLine(x)
    ensures x.Named? ==> '\n' !in x.inner && '\n' !in x.module_ && '\n' !in x.tail
    ensures x.Whole? ==> '\n' !in x.module_ && (x.suffix.Some? ==> '\n' !in x.suffix.value)
  {
    var l := PrintLine(x);
    match x
    case Named(inner, m, tail) =>
      assert l == OPEN + inner + (" }" + FROM) + m + tail;
      assert forall c | c in inner :: c in l;
      assert forall c | c in m :: c in l;
      assert forall c | c in tail :: c in l;
    case Whole(m, suffix) =>
      assert forall c | c in m :: c in l;
      assert suffix.Some? ==> forall c | c in suffix.value :: c in l;
  }

  lemma PrintedNoNewline(x: ImportLine)
    requires x.Named? ==> '\n' !in x.inner && '\n' !in x.module_ && '\n' !in x.tail
    requires x.Whole? ==> '\n' !in x.module_ && (x.suffix.Some? ==> '\n' !in x.suffix.value)
    ensures NoNewline(PrintLine(x))
  {
    assert '\n' !in OPEN && '\n' !in " }" && '\n' !in FROM && '\n' !in IMPORT && '\n' !in " ";
  }

  lemma ModuleNoNewline(m: string)
    requires IsModule(m)
    ensures '\n' !in m
  {
    ModuleChars(m);
  }

  lemma NamedNoNewline(t: Tables, x: ImportLine, y: ImportLine)
    requires Lexical(t) && x.Named? && IsModule(x.module_) && '\n' !in x.inner && '\n' !in x.tail
    requires y in GroupLines(Regrouped(t, Split(COMMA, x.inner), x.module_), x.tail)
    ensures NoNewline(PrintLine(y))
  {
    var members := Split(COMMA, x.inner);
    var groups := Regrouped(t, members, x.module_);
    var i :| 0 <= i < |groups| && y == Named(Join(COMMA, groups[i].items), groups[i].key, x.tail);
    assert groups[i] in groups;
    AllTogether(t, members, x.module_);
    SplitChars(COMMA, x.inner, '\n');
    GroupNoNewline(t, members, x.module_, groups[i], x.tail);
  }

  lemma GroupNoNewline(t: Tables, members: seq<string>, m: string, g: Group<string>, tail: string)
    requires Lexical(t) && Together(t, members, m, g) && IsModule(m) && '\n' !in tail
    requires forall x | x in members :: '\n' !in x
    ensures NoNewline(PrintLine(Named(Join(COMMA, g.items), g.key, tail)))
  {
    JoinLacksChar(COMMA, g.items, '\n');
    assert g.items[0] in g.items;
    TargetIsModule(t, Origin(g.items[0]), m);
    ModuleNoNewline(g.key);
    PrintedNoNewline(Named(Join(COMMA, g.items), g.key, tail));
  }

  lemma WholeNoNewline(t: Tables, m: string, suffix: Option<string>)
    requires Lexical(t) && '\n' !in m && (suffix.Some? ==> '\n' !in suffix.value)
    ensures NoNewline(PrintLine(RewriteWhole(t, m, suffix)))
  {
    var moved := Lookup(t.paths, m);
    if m in t.paths {
      ModuleNoNewline(moved);
    }
    if m in t.defaults && moved != m {
      var text := if suffix.Some? then suffix.value else "";
      assert '\n' !in t.defaults[m];
      if "as " <= text {
        SplitChars(" ", text[3..], '\n');
        assert Alias(text) in Split(" ", text[3..]);
      }
    }
    PrintedNoNewline(RewriteWhole(t, m, suffix));
  }

  lemma LineNoNewline(t: Tables, l: string, out: string)
    requires Lexical(t) && IMPORT <= l && NoNewline(l) && out in RewriteLine(t, l)
    ensures NoNewline(out)
  {
    PrintParse(l);
    var x := ParseLine(l);
    LineParts(x);
    var ys := RewriteParsed(t, x);
    var i :| 0 <= i < |ys| && out == PrintLine(ys[i]);
    match x
    case Named(_, _, _) =>
      ParsedPlain(l);
      NamedNoNewline(t, x, ys[i]);
    case Whole(m, suffix) =>
      WholeNoNewline(t, m, suffix);
  }

  /** Every line that comes out is left alone by rewriting again. */
  lemma LineSettles(t: Tables, l: string, out: string)
    requires Lexical(t) && Stable(t) && IMPORT <= l && NoNewline(l) && out in RewriteLine(t, l)
    ensures Fixed(t, out)
  {
    LineNoNewline(t, l, out);
    var ys := RewriteParsed(t, ParseLine(l));
    var i :| 0 <= i < |ys| && out == PrintLine(ys[i]);
    match ParseLine(l)
    case Named(inner, m, tail) =>
      ParsedPlain(l);
      RewrittenNamedStays(t, inner, m, tail, ys[i]);
    case Whole(_, _) =>
      RewrittenWholeStays(t, l);
  }

  lemma {:induction false} AllSettle(t: Tables, ls: seq<string>)
    requires Lexical(t) && Stable(t) && AllImports(ls) && forall l | l in ls :: NoNewline(l)
    ensures forall out | out in RewriteAll(t, ls) :: Fixed(t, out)
  {
    if ls != [] {
      AllSettle(t, ls[1..]);
      assert ls[0] in ls;
      forall out | out in RewriteAll(t, ls) ensures Fixed(t, out) {
        if out in RewriteLine(t, ls[0]) {
          LineSettles(t, ls[0], out);
        }
      }
    }
  }

  lemma {:induction false} FixedStay(t: Tables, ls: seq<string>)
    requires forall l | l in ls :: Fixed(t, l)
    ensures AllImports(ls) && RewriteAll(t, ls) == ls
  {
    if ls != [] {
      assert Fixed(t, ls[0]) by {
        assert ls[0] in ls;
      }
      FixedStay(t, ls[1..]);
      assert ls == [ls[0]] + ls[1..];
    }
  }

  /** Rewriting again changes nothing, whatever the source. */
  lemma RewriteIdempotent(t: Tables, source: string)
    requires Lexical(t) && PathsSettled(t)
    ensures Rewrite(t, Rewrite(t, source)) == Rewrite(t, source)
  {
    SettledCheck(t);
    var out := RewriteAll(t, HeadLines(source));
    HeadNoNewline(source);
    AllSettle(t, HeadLines(source));
    FixedStay(t, out);
    AfterHeadPlain(source);
    forall l | l in out ensures NoNewline(l) {
      assert Fixed(t, l);
    }
    HeadReads(out, AfterHead(source));
  }

  // Nothing weaker will do.

  /** Keys are spelled as modules and checker functions as identifiers. */
  predicate Spelled(t: Tables)
  {
    && (forall k | k in t.paths :: IsModule(k) && IsModule(t.paths[k]))
    && (forall f | f in t.owners :: IsWord(f) && IsModule(t.owners[f]))
    && (forall k | k in t.defaults :: IsWord(t.defaults[k]))
  }

  lemma SpelledIsLexical(t: Tables)
    requires Spelled(t)
    ensures Lexical(t)
  {
    assert !IsModule("{");
  }

  /** A name and a module that expose a manifest whose paths lead further. */
  lemma Exposes(t: Tables) returns (f: string, m: string)
    requires Spelled(t) && !PathsSettled(t)
    ensures IsWord(f) && IsModule(m) && !Settled(t, f, m)
  {
    if k :| k in t.paths && Lookup(t.paths, t.paths[k]) != t.paths[k] {
      f := Longer(t.owners.Keys);
      m := k;
    } else {
      m :| m in t.paths && m != CHECKED && t.paths[m] == CHECKED;
      f :| f in t.owners && Lookup(t.paths, t.owners[f]) != CHECKED;
    }
  }

  function OneImport(f: string, m: string): string
  {
    PrintLine(Named(f, m, ""))
  }

  lemma OneImportLine(t: Tables, f: string, m: string)
    requires IsWord(f) && IsModule(m)
    ensures IMPORT <= OneImport(f, m) && NoNewline(OneImport(f, m))
    ensures RewriteLine(t, OneImport(f, m)) == [OneImport(f, Target(t, f, m))]
  {
    WordLacks(f, "}", 0);
    WordLacks(f, COMMA, 0);
    WordLacks(f, AS, 0);
    ParsePrintNamed(f, m, "");
    assert IMPORT <= OPEN && OPEN <= OneImport(f, m);
    ModuleNoNewline(m);
    PrintedNoNewline(Named(f, m, ""));
    OneTarget(t, [f], m, Target(t, f, m));
    assert Split(COMMA, f) == [f];
  }

  lemma OneImportRewritten(t: Tables, f: string, m: string)
    requires IsWord(f) && IsModule(m)
    ensures Rewrite(t, PrintLines([OneImport(f, m)])) == PrintLines([OneImport(f, Target(t, f, m))])
  {
    var l := OneImport(f, m);
    OneImportLine(t, f, m);
    HeadReads([l], "");
    assert PrintLines([l]) + "" == PrintLines([l]);
    OneLine(t, l);
  }

  lemma OneLine(t: Tables, l: string)
    requires IMPORT <= l
    ensures RewriteAll(t, [l]) == RewriteLine(t, l)
  {
    assert [l][1..] == [];
    assert RewriteLine(t, l) + [] == RewriteLine(t, l);
  }

  lemma OneImportInjective(f: string, m: string, n: string)
    requires PrintLines([OneImport(f, m)]) == PrintLines([OneImport(f, n)])
    ensures m == n
  {
    var start := OPEN + f + " }" + FROM;
    var a, b := PrintLines([OneImport(f, m)]), PrintLines([OneImport(f, n)]);
    assert a == start + m + "\n" && b == start + n + "\n";
    assert a[|start|..|a| - 1] == m && b[|start|..|b| - 1] == n;
  }

  /** Re-running settles on every source exactly when the manifest passes the check. */
  lemma IdempotentExactly(t: Tables)
    requires Spelled(t)
    ensures PathsSettled(t) <==> forall source :: Rewrite(t, Rewrite(t, source)) == Rewrite(t, source)
  {
    SpelledIsLexical(t);
    if PathsSettled(t) {
      forall source ensures Rewrite(t, Rewrite(t, source)) == Rewrite(t, source) {
        RewriteIdempotent(t, source);
      }
    } else {
      var f, m := Exposes(t);
      var once := Target(t, f, m);
      var source := PrintLines([OneImport(f, m)]);
      OneImportRewritten(t, f, m);
      OneImportRewritten(t, f, once);
      if Rewrite(t, Rewrite(t, source)) == Rewrite(t, source) {
        OneImportInjective(f, Target(t, f, once), once);
        assert false;
      }
    }
  }
}
