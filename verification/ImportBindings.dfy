/** What the leading imports of a source bind, and that rewriting sends each binding to where its member is now. */
module ImportBindings {
  import opened Wrappers
  import opened TextSearch
  import opened WordSearch
  import opened TextLines
  import opened Grouping
  import opened ImportLines
  import opened ImportRewriting
  import opened ImportStability

  /** One thing imported, a member of a module or a module as a whole, with what follows it on its line. */
  datatype Use = Member(member: string, module_: string, tail: string) | Module(module_: string, suffix: Option<string>)

  function MemberUses(members: seq<string>, m: string, tail: string): seq<Use>
  {
    seq(|members|, i requires 0 <= i < |members| => Member(members[i], m, tail))
  }

  function Uses(x: ImportLine): seq<Use>
  {
    match x
    case Named(inner, m, tail) => MemberUses(Split(COMMA, inner), m, tail)
    case Whole(m, suffix) => [Module(m, suffix)]
  }

  function UsesOf(l: string): seq<Use>
  {
    if IMPORT <= l then Uses(ParseLine(l)) else []
  }

  function Flat(parts: seq<seq<Use>>): seq<Use>
  {
    if parts == [] then [] else parts[0] + Flat(parts[1..])
  }

  function UseParts(ls: seq<string>): seq<seq<Use>>
  {
    seq(|ls|, i requires 0 <= i < |ls| => UsesOf(ls[i]))
  }

  function LineUses(ls: seq<string>): seq<Use>
  {
    Flat(UseParts(ls))
  }

  /** Everything that the leading imports of a source bind. */
  function Bindings(source: string): seq<Use>
  {
    LineUses(HeadLines(source))
  }

  /** The default member under the alias that a suffix gives it, if it gives one. */
  function Renamed(name: string, suffix: string): string
  {
    if "as " <= suffix then name + AS + Alias(suffix) else name
  }

  /** What follows the alias on the line, or the whole suffix. */
  function AfterAlias(suffix: string): string
  {
    Spaced(if "as " <= suffix then AfterSpace(suffix[3..]) else suffix)
  }

  function TextOf(suffix: Option<string>): string
  {
    if suffix.Some? then suffix.value else ""
  }

  /**
   * The same binding after the move: a member keeps its spelling, alias included, and comes from where its owner is;
   * a module that moved is imported from its new path, by the name of its default member when it has one.
   */
  function Retarget(t: Tables, u: Use): Use
  {
    match u
    case Member(member, m, tail) => Member(member, Target(t, Origin(member), m), tail)
    case Module(m, suffix) =>
      var moved := Lookup(t.paths, m);
      if m in t.defaults && moved != m
      then Member(Renamed(t.defaults[m], TextOf(suffix)), moved, AfterAlias(TextOf(suffix)))
      else Module(moved, suffix)
  }

  function RetargetAll(t: Tables, us: seq<Use>): seq<Use>
  {
    seq(|us|, i requires 0 <= i < |us| => Retarget(t, us[i]))
  }

  lemma {:induction false} FlatConcat(a: seq<seq<Use>>, b: seq<seq<Use>>)
    ensures Flat(a + b) == Flat(a) + Flat(b)
  {
    if a == [] {
      assert a + b == b;
    } else {
      FlatConcat(a[1..], b);
      Associates(a[0], Flat(a[1..]), Flat(b));
      assert (a + b)[1..] == a[1..] + b;
    }
  }

  lemma LineUsesConcat(a: seq<string>, b: seq<string>)
    ensures LineUses(a + b) == LineUses(a) + LineUses(b)
  {
    assert UseParts(a + b) == UseParts(a) + UseParts(b);
    FlatConcat(UseParts(a), UseParts(b));
  }

  lemma LineUsesCons(l: string, rest: seq<string>)
    requires IMPORT <= l
    ensures LineUses([l] + rest) == Uses(ParseLine(l)) + LineUses(rest)
  {
    LineUsesConcat([l], rest);
    OneLineUses(l);
  }

  lemma OneLineUses(l: string)
    requires IMPORT <= l
    ensures LineUses([l]) == Uses(ParseLine(l))
  {
    var u := Uses(ParseLine(l));
    assert UseParts([l]) == [u];
    assert Flat([u]) == u + Flat([]) == u;
  }

  /** One group for each module needed, in order; each holds exactly the members that go there, in order. */
  lemma RegroupExact(t: Tables, members: seq<string>, m: string)
    ensures GroupsOf(Regrouped(t, members, m), members, Goes(t, m))
  {
    RegroupedIsGrouped(t, members, m);
    GroupedExactly(members, Goes(t, m));
  }

  // What a converted default import says.

  lemma {:induction false} FirstWord(s: string)
    ensures var word := Split(" ", s)[0];
            && word <= s && ' ' !in word
            && (|word| < |s| ==> s[|word|] == ' ' && AfterSpace(s) == s[|word| + 1..])
            && (|word| == |s| ==> AfterSpace(s) == "")
  {
    SplitLacks(" ", s);
    var word := Split(" ", s)[0];
    assert word in Split(" ", s);
    LacksChar(' ', word);
    if Find(" ", s).Some? {
      AtChar(' ', s, Find(" ", s).value);
    }
  }

  lemma AliasBinds(name: string, alias: string)
    requires IsWord(name) && ' ' !in alias
    ensures Origin(name + AS + alias) == name && Local(name + AS + alias) == alias
  {
    AfterWord(name, alias);
    assert (name + AS + alias)[..|name|] == name && (name + AS + alias)[|name| + |AS|..] == alias;
    forall j | 0 <= j <= |alias| ensures !At(AS, alias, j) {
      if j + |AS| <= |alias| {
        assert alias[j..j + |AS|][0] == alias[j] && alias[j] in alias;
      }
    }
    FindNone(AS, alias);
    assert Split(AS, name + AS + alias) == [name] + [alias];
  }

  /** What follows "as" is an alias and the rest of the line, but for a single trailing space. */
  predicate SaysAlias(suffix: string, alias: string, tail: string)
  {
    && ' ' !in alias && "as " + alias <= suffix
    && var rest := suffix[3 + |alias|..];
       (rest == "" || rest[0] == ' ') && tail == if rest == " " then "" else rest
  }

  lemma AliasRest(suffix: string)
    requires "as " <= suffix
    ensures SaysAlias(suffix, Alias(suffix), Spaced(AfterSpace(suffix[3..])))
  {
    var words, alias := suffix[3..], Alias(suffix);
    FirstWord(words);
    assert suffix == "as " + words && words == alias + words[|alias|..];
    var rest := words[|alias|..];
    assert suffix[3 + |alias|..] == rest;
    if rest != "" {
      assert rest == " " + rest[1..] && rest[1..] == AfterSpace(words);
    }
  }

  /**
   * A default import of a module that moved becomes a named import of its default member: under the alias it had, or
   * else under its own name, with what followed on the line still there.
   */
  lemma ConvertedBinds(name: string, m: string, suffix: string)
    requires IsWord(name)
    ensures var y := Converted(name, m, suffix);
            && y.Named? && y.module_ == m && Origin(y.inner) == name
            && (if "as " <= suffix then SaysAlias(suffix, Local(y.inner), y.tail)
                else Local(y.inner) == name && y.tail == Spaced(suffix))
  {
    if "as " <= suffix {
      AliasRest(suffix);
      AliasBinds(name, Alias(suffix));
    } else {
      WordLacks(name, AS, 0);
      assert Split(AS, name) == [name];
    }
  }

  /** A default member is named as a suffix says: under its alias, or as itself, with the rest of the line after it. */
  predicate SaysDefault(name: string, suffix: string, member: string, tail: string)
  {
    && Origin(member) == name
    && (if "as " <= suffix then member == name + AS + Local(member) && SaysAlias(suffix, Local(member), tail)
        else member == name && tail == if suffix == "" then "" else " " + suffix)
  }

  lemma RenamedSays(name: string, suffix: string)
    requires IsWord(name)
    ensures SaysDefault(name, suffix, Renamed(name, suffix), AfterAlias(suffix))
  {
    if "as " <= suffix {
      AliasRest(suffix);
      AliasBinds(name, Alias(suffix));
    } else {
      WordLacks(name, AS, 0);
      assert Split(AS, name) == [name];
    }
  }

  /** The rewritten import of a whole module says what the binding is to become. */
  lemma RewrittenWhole(t: Tables, m: string, suffix: Option<string>)
    ensures var y, u := RewriteWhole(t, m, suffix), Retarget(t, Module(m, suffix));
            u == if y.Named? then Member(y.inner, y.module_, y.tail) else Module(y.module_, y.suffix)
  {
  }

  // What the groups bind.

  function GroupUses(groups: seq<Group<string>>, tail: string): seq<Use>
  {
    if groups == [] then []
    else MemberUses(groups[0].items, groups[0].key, tail) + GroupUses(groups[1..], tail)
  }

  lemma {:induction false} AddToUses(groups: seq<Group<string>>, m: string, member: string, tail: string)
    ensures multiset(GroupUses(AddTo(groups, m, member), tail))
         == multiset(GroupUses(groups, tail)) + multiset{Member(member, m, tail)}
  {
    if groups == [] {
      assert MemberUses([member], m, tail) == [Member(member, m, tail)];
      assert GroupUses([Group(m, [member])], tail) == [Member(member, m, tail)] + [];
    } else if groups[0].key == m {
      var ms, rest := groups[0].items, groups[1..];
      assert MemberUses(ms + [member], m, tail) == MemberUses(ms, m, tail) + [Member(member, m, tail)];
      assert ([Group(m, ms + [member])] + rest)[1..] == rest;
    } else {
      AddToUses(groups[1..], m, member, tail);
      assert ([groups[0]] + AddTo(groups[1..], m, member))[1..] == AddTo(groups[1..], m, member);
    }
  }

  lemma RetargetSnoc(t: Tables, init: seq<string>, last: string, m: string, tail: string)
    ensures RetargetAll(t, MemberUses(init + [last], m, tail))
         == RetargetAll(t, MemberUses(init, m, tail)) + [Member(last, Target(t, Origin(last), m), tail)]
  {
    assert MemberUses(init + [last], m, tail) == MemberUses(init, m, tail) + [Member(last, m, tail)];
  }

  lemma {:induction false} RegroupedUses(t: Tables, members: seq<string>, m: string, tail: string)
    ensures multiset(GroupUses(Regrouped(t, members, m), tail))
         == multiset(RetargetAll(t, MemberUses(members, m, tail)))
  {
    if members != [] {
      var init, last := members[..|members| - 1], members[|members| - 1];
      RegroupedUses(t, init, m, tail);
      AddToUses(Regrouped(t, init, m), Target(t, Origin(last), m), last, tail);
      RetargetSnoc(t, init, last, m, tail);
      SnocUses(RetargetAll(t, MemberUses(init, m, tail)), Member(last, Target(t, Origin(last), m), tail));
      assert init + [last] == members;
    }
  }

  lemma SnocUses(us: seq<Use>, u: Use)
    ensures multiset(us + [u]) == multiset(us) + multiset{u}
  {
  }

  // Reading the rewritten lines.

  /** A group reads back as its members, unless its only member is the empty one: that line is no named import. */
  lemma GroupReads(members: seq<string>, m: string, tail: string)
    requires members != [] && IsModule(m) && (tail == "" || !IsModuleChar(tail[0]))
    requires forall x | x in members :: Lacks(COMMA, x) && '}' !in x
    ensures var l := PrintLine(Named(Join(COMMA, members), m, tail));
            && IMPORT <= l
            && (members != [""] ==> Uses(ParseLine(l)) == MemberUses(members, m, tail))
            && (members == [""] ==> HasBrace(Uses(ParseLine(l))))
  {
    var l := PrintLine(Named(Join(COMMA, members), m, tail));
    assert IMPORT <= OPEN && OPEN <= l;
    if members == [""] {
      EmptyInner(m, tail);
      ReadsAsBrace(l);
    } else {
      GroupParses(members, m, tail);
    }
  }

  predicate AnyEmpty(groups: seq<Group<string>>)
  {
    exists g | g in groups :: g.items == [""]
  }

  /** Rewriting breaks a line whose empty member is left on its own, or whose alias has a brace. */
  predicate Broken(t: Tables, l: string)
    requires IMPORT <= l
  {
    match ParseLine(l)
    case Named(inner, m, _) => AnyEmpty(Regrouped(t, Split(COMMA, inner), m))
    case Whole(m, suffix) => var u := Retarget(t, Module(m, suffix)); u.Member? && '}' in u.member
  }

  /** A whole import of an opening brace: what a broken line reads as. */
  function Brace(suffix: Option<string>): Use
  {
    Module("{", suffix)
  }

  ghost predicate HasBrace(us: seq<Use>)
  {
    exists s :: Brace(s) in us
  }

  predicate ReadableGroup(g: Group<string>)
  {
    g.items != [] && IsModule(g.key) && forall x | x in g.items :: Lacks(COMMA, x) && '}' !in x
  }

  lemma GroupLinesStep(groups: seq<Group<string>>, tail: string)
    requires groups != []
    ensures PrintAll(GroupLines(groups, tail))
         == [PrintLine(Named(Join(COMMA, groups[0].items), groups[0].key, tail))]
            + PrintAll(GroupLines(groups[1..], tail))
  {
  }

  lemma {:induction false} GroupLinesRead(groups: seq<Group<string>>, tail: string)
    requires (tail == "" || !IsModuleChar(tail[0])) && forall g | g in groups :: ReadableGroup(g)
    ensures var ls := PrintAll(GroupLines(groups, tail));
            && AllImports(ls)
            && (!AnyEmpty(groups) ==> LineUses(ls) == GroupUses(groups, tail))
            && (AnyEmpty(groups) ==> HasBrace(LineUses(ls)))
  {
    if groups != [] {
      var g, rest := groups[0], groups[1..];
      assert g in groups;
      GroupReads(g.items, g.key, tail);
      GroupLinesRead(rest, tail);
      GroupLinesStep(groups, tail);
      var l, after := PrintLine(Named(Join(COMMA, g.items), g.key, tail)), PrintAll(GroupLines(rest, tail));
      LineUsesCons(l, after);
      assert AnyEmpty(groups) <==> g.items == [""] || AnyEmpty(rest);
    }
  }

  lemma NamedReadable(t: Tables, inner: string, m: string, tail: string)
    requires Lexical(t) && PlainNamed(inner, m, tail)
    ensures forall g | g in Regrouped(t, Split(COMMA, inner), m) :: ReadableGroup(g)
  {
    var members := Split(COMMA, inner);
    AllTogether(t, members, m);
    SplitLacks(COMMA, inner);
    LacksChar('}', inner);
    SplitChars(COMMA, inner, '}');
    forall g | g in Regrouped(t, members, m) ensures ReadableGroup(g) {
      assert Together(t, members, m, g);
      assert g.items[0] in g.items;
      TargetIsModule(t, Origin(g.items[0]), m);
    }
  }

  lemma NamedRebinds(t: Tables, l: string)
    requires Lexical(t) && IMPORT <= l && ParseNamed(l).Some?
    ensures AllImports(RewriteLine(t, l))
    ensures var after, want := LineUses(RewriteLine(t, l)), RetargetAll(t, Uses(ParseLine(l)));
            && (!Broken(t, l) ==> multiset(after) == multiset(want))
            && (Broken(t, l) ==> HasBrace(after) && !HasBrace(want))
  {
    var x := ParseNamed(l).value;
    var groups := Regrouped(t, Split(COMMA, x.inner), x.module_);
    ParsedPlain(l);
    NamedReadable(t, x.inner, x.module_, x.tail);
    GroupLinesRead(groups, x.tail);
    RegroupedUses(t, Split(COMMA, x.inner), x.module_, x.tail);
  }

  lemma ConvertedReads(t: Tables, m: string, suffix: string)
    requires Lexical(t) && m in t.defaults && Lookup(t.paths, m) != m
    requires '}' !in Converted(t.defaults[m], Lookup(t.paths, m), suffix).inner
    ensures var y := Converted(t.defaults[m], Lookup(t.paths, m), suffix);
            IMPORT <= PrintLine(y) && Uses(ParseLine(PrintLine(y))) == [Member(y.inner, y.module_, y.tail)]
  {
    var y := Converted(t.defaults[m], Lookup(t.paths, m), suffix);
    ConvertedMember(t.defaults[m], Lookup(t.paths, m), suffix);
    assert Join(COMMA, [y.inner]) == y.inner;
    GroupReads([y.inner], y.module_, y.tail);
    assert MemberUses([y.inner], y.module_, y.tail) == [Member(y.inner, y.module_, y.tail)];
  }

  lemma ConvertedBreaks(name: string, moved: string, suffix: string)
    requires IsWord(name) && '}' in Converted(name, moved, suffix).inner
    ensures var l := PrintLine(Converted(name, moved, suffix));
            IMPORT <= l && HasBrace(Uses(ParseLine(l)))
  {
    var y := Converted(name, moved, suffix);
    BraceAliased(name, moved, suffix);
    AliasNoSpace(suffix);
    BraceInAlias(name, Alias(suffix), moved, y.tail);
    ReadsAsBrace(PrintLine(y));
  }

  lemma BraceAliased(name: string, moved: string, suffix: string)
    requires IsWord(name) && '}' in Converted(name, moved, suffix).inner
    ensures var y := Converted(name, moved, suffix);
            y.Named? && '}' in Alias(suffix) && y == Named(name + AS + Alias(suffix), moved, y.tail)
  {
    assert '}' !in name;
    assert "as " <= suffix;
  }

  lemma ReadsAsBrace(l: string)
    requires OPEN <= l && ParseNamed(l).None?
    ensures IMPORT <= l && HasBrace(Uses(ParseLine(l)))
  {
    assert IMPORT <= OPEN;
    WholeBrace(l);
    assert Brace(ParseWhole(l).suffix) in Uses(ParseLine(l));
  }

  lemma WholeRebinds(t: Tables, l: string)
    requires Lexical(t) && IMPORT <= l && ParseNamed(l).None?
    ensures AllImports(RewriteLine(t, l))
    ensures var after, want := LineUses(RewriteLine(t, l)), RetargetAll(t, Uses(ParseLine(l)));
            && (!Broken(t, l) ==> after == want)
            && (Broken(t, l) ==> HasBrace(after) && !HasBrace(want))
  {
    var x := ParseWhole(l);
    var y := RewriteWhole(t, x.module_, x.suffix);
    var out := PrintLine(y);
    assert RewriteLine(t, l) == [out];
    assert RetargetAll(t, [Module(x.module_, x.suffix)]) == [Retarget(t, Module(x.module_, x.suffix))];
    var text := TextOf(x.suffix);
    RewrittenWhole(t, x.module_, x.suffix);
    if y.Named? && '}' in y.inner {
      ConvertedBreaks(t.defaults[x.module_], Lookup(t.paths, x.module_), text);
    } else if y.Named? {
      ConvertedReads(t, x.module_, text);
    } else {
      KeptReads(t, l);
    }
    OneLineUses(out);
  }

  /**
   * What is to become of an import of a whole module: the module at its new path, with the same suffix, or, when it
   * moved and has a default member, that member, as the suffix names it.
   */
  predicate WholeBecomes(t: Tables, x: ImportLine, u: Use)
    requires x.Whole?
  {
    var path := if x.module_ in t.paths then t.paths[x.module_] else x.module_;
    if x.module_ in t.defaults && path != x.module_
    then u.Member? && u.module_ == path && SaysDefault(t.defaults[x.module_], TextOf(x.suffix), u.member, u.tail)
    else u == Module(path, x.suffix)
  }

  /** An import of a whole module is rewritten to one binding, which is what is to become of it. */
  lemma WholeMoves(t: Tables, l: string)
    requires Lexical(t) && IMPORT <= l && ParseNamed(l).None? && !Broken(t, l)
    ensures |LineUses(RewriteLine(t, l))| == 1 && WholeBecomes(t, ParseWhole(l), LineUses(RewriteLine(t, l))[0])
  {
    var x := ParseWhole(l);
    WholeRebinds(t, l);
    assert RetargetAll(t, Uses(x)) == [Retarget(t, Module(x.module_, x.suffix))];
    if x.module_ in t.defaults {
      RenamedSays(t.defaults[x.module_], TextOf(x.suffix));
    }
  }

  /** The bindings after are those wanted, unless something broke: then some brace is among them once too often. */
  ghost predicate Rebinds(after: seq<Use>, want: seq<Use>, broken: bool)
  {
    && (!broken ==> multiset(after) == multiset(want))
    && (forall s :: multiset(want)[Brace(s)] <= multiset(after)[Brace(s)])
    && (broken ==> exists s :: multiset(want)[Brace(s)] < multiset(after)[Brace(s)])
  }

  lemma RebindsConcat(a: seq<Use>, u: seq<Use>, x: bool, b: seq<Use>, v: seq<Use>, y: bool)
    requires Rebinds(a, u, x) && Rebinds(b, v, y)
    ensures Rebinds(a + b, u + v, x || y)
  {
    if x {
      var s :| multiset(u)[Brace(s)] < multiset(a)[Brace(s)];
      assert multiset(u + v)[Brace(s)] < multiset(a + b)[Brace(s)];
    } else if y {
      var s :| multiset(v)[Brace(s)] < multiset(b)[Brace(s)];
      assert multiset(u + v)[Brace(s)] < multiset(a + b)[Brace(s)];
    }
  }

  lemma LineRebinds(t: Tables, l: string)
    requires Lexical(t) && IMPORT <= l
    ensures AllImports(RewriteLine(t, l))
    ensures Rebinds(LineUses(RewriteLine(t, l)), RetargetAll(t, Uses(ParseLine(l))), Broken(t, l))
  {
    if ParseNamed(l).Some? {
      NamedRebinds(t, l);
    } else {
      WholeRebinds(t, l);
    }
  }

  predicate AnyBroken(t: Tables, ls: seq<string>)
    requires AllImports(ls)
  {
    exists i | 0 <= i < |ls| :: Broken(t, ls[i])
  }

  lemma AnyBrokenStep(t: Tables, ls: seq<string>)
    requires AllImports(ls) && ls != []
    ensures AnyBroken(t, ls) <==> Broken(t, ls[0]) || AnyBroken(t, ls[1..])
  {
    if AnyBroken(t, ls[1..]) {
      var i :| 0 <= i < |ls| - 1 && Broken(t, ls[1..][i]);
      assert Broken(t, ls[i + 1]);
    }
    if AnyBroken(t, ls) && !Broken(t, ls[0]) {
      var i :| 0 <= i < |ls| && Broken(t, ls[i]);
      assert Broken(t, ls[1..][i - 1]);
    }
  }

  ghost predicate AllRebinds(t: Tables, ls: seq<string>)
  {
    && AllImports(ls) && AllImports(RewriteAll(t, ls))
    && Rebinds(LineUses(RewriteAll(t, ls)), RetargetAll(t, LineUses(ls)), AnyBroken(t, ls))
  }

  lemma ImportsConcat(a: seq<string>, b: seq<string>)
    requires AllImports(a) && AllImports(b)
    ensures AllImports(a + b)
  {
  }

  /** What rewriting a line and the lines after it binds, and what it should. */
  lemma OneMoreUses(t: Tables, l: string, rest: seq<string>)
    requires IMPORT <= l && AllImports(rest)
    ensures LineUses(RewriteAll(t, [l] + rest)) == LineUses(RewriteLine(t, l)) + LineUses(RewriteAll(t, rest))
    ensures RetargetAll(t, LineUses([l] + rest)) == RetargetAll(t, Uses(ParseLine(l))) + RetargetAll(t, LineUses(rest))
  {
    RewriteFirst(t, l, rest);
    LineUsesConcat(RewriteLine(t, l), RewriteAll(t, rest));
    LineUsesCons(l, rest);
    RetargetConcat(t, Uses(ParseLine(l)), LineUses(rest));
  }

  lemma OneMoreRebinds(t: Tables, l: string, rest: seq<string>)
    requires Lexical(t) && IMPORT <= l && AllRebinds(t, rest)
    ensures AllRebinds(t, [l] + rest)
  {
    LineRebinds(t, l);
    RewriteFirst(t, l, rest);
    ImportsConcat(RewriteLine(t, l), RewriteAll(t, rest));
    OneMoreUses(t, l, rest);
    RebindsConcat(LineUses(RewriteLine(t, l)), RetargetAll(t, Uses(ParseLine(l))), Broken(t, l),
      LineUses(RewriteAll(t, rest)), RetargetAll(t, LineUses(rest)), AnyBroken(t, rest));
    assert AnyBroken(t, [l] + rest) == (Broken(t, l) || AnyBroken(t, rest)) by {
      AnyBrokenStep(t, [l] + rest);
      assert ([l] + rest)[1..] == rest;
    }
  }

  lemma {:induction false} AllRebind(t: Tables, ls: seq<string>)
    requires Lexical(t) && AllImports(ls)
    ensures AllRebinds(t, ls)
  {
    if ls != [] {
      AllRebind(t, ls[1..]);
      OneMoreRebinds(t, ls[0], ls[1..]);
      assert [ls[0]] + ls[1..] == ls;
    }
  }

  lemma RetargetConcat(t: Tables, u: seq<Use>, v: seq<Use>)
    ensures RetargetAll(t, u + v) == RetargetAll(t, u) + RetargetAll(t, v)
  {
  }

  /** The rewritten source has the rewritten head and the same text after it. */
  lemma RewrittenHead(t: Tables, source: string)
    requires Lexical(t)
    ensures HeadLines(Rewrite(t, source)) == RewriteAll(t, HeadLines(source))
    ensures AfterHead(Rewrite(t, source)) == AfterHead(source)
  {
    HeadNoNewline(source);
    AllRebind(t, HeadLines(source));
    AllNoNewline(t, HeadLines(source));
    AfterHeadPlain(source);
    HeadReads(RewriteAll(t, HeadLines(source)), AfterHead(source));
  }

  lemma {:induction false} AllNoNewline(t: Tables, ls: seq<string>)
    requires Lexical(t) && AllImports(ls) && forall l | l in ls :: NoNewline(l)
    ensures forall out | out in RewriteAll(t, ls) :: NoNewline(out)
  {
    if ls != [] {
      AllNoNewline(t, ls[1..]);
      assert ls[0] in ls;
      forall out | out in RewriteLine(t, ls[0]) ensures NoNewline(out) {
        LineNoNewline(t, ls[0], out);
      }
    }
  }

  /**
   * Every binding is kept, none is added or doubled, each now comes from where its member is, and the body stays as it
   * was; exactly when no line is broken.
   */
  lemma BindingsMove(t: Tables, source: string)
    requires Lexical(t)
    ensures AfterHead(Rewrite(t, source)) == AfterHead(source)
    ensures multiset(Bindings(Rewrite(t, source))) == multiset(RetargetAll(t, Bindings(source))) <==>
              !AnyBroken(t, HeadLines(source))
  {
    RewrittenHead(t, source);
    AllRebind(t, HeadLines(source));
  }

  lemma {:induction false} LineStaysIn(t: Tables, ls: seq<string>, l: string, u: Use)
    requires Lexical(t) && AllImports(ls) && l in ls && u in LineUses(RewriteLine(t, l))
    ensures u in LineUses(RewriteAll(t, ls))
  {
    OneMoreUses(t, ls[0], ls[1..]);
    assert ls == [ls[0]] + ls[1..];
    if l != ls[0] {
      LineStaysIn(t, ls[1..], l, u);
    }
  }

  /** So the rewritten source binds what each of its whole imports is to become. */
  lemma WholeImportMoves(t: Tables, source: string, l: string) returns (u: Use)
    requires Lexical(t) && l in HeadLines(source) && ParseNamed(l).None? && !Broken(t, l)
    ensures u in Bindings(Rewrite(t, source)) && WholeBecomes(t, ParseWhole(l), u)
  {
    RewrittenHead(t, source);
    WholeMoves(t, l);
    u := LineUses(RewriteLine(t, l))[0];
    LineStaysIn(t, HeadLines(source), l, u);
  }
}
