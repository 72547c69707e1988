/** A synthesised header, read again, imports exactly what was picked for it. */
module ExtractedHeaders {
  import opened Wrappers
  import opened TextSearch
  import opened WordSearch
  import opened TextLines
  import opened Grouping
  import opened ImportLines
  import opened ImportRewriting
  import opened ImportStability
  import opened FunctionFragments
  import opened CheckerExtraction
  import opened ExtractionConserves

  /** An entry as named imports spell them. */
  predicate Readable(e: Entry)
  {
    && Lacks(COMMA, e.member) && '}' !in e.member && '\n' !in e.member
    && Local(e.member) == e.local && IsModule(e.module_)
  }

  predicate Importable(e: Entry)
  {
    Readable(e) && e.member != ""
  }

  predicate HeaderGroup(g: Group<string>)
  {
    g.items != [] && IsModule(g.key) && forall x | x in g.items :: Lacks(COMMA, x) && '}' !in x && '\n' !in x
  }

  predicate NoneEmpty(g: Group<string>)
  {
    forall x | x in g.items :: x != ""
  }

  lemma {:induction false} AddToHeaderGroups(groups: seq<Group<string>>, key: string, item: string)
    requires (forall g | g in groups :: HeaderGroup(g)) && HeaderGroup(Group(key, [item]))
    ensures forall g | g in AddTo(groups, key, item) :: HeaderGroup(g)
  {
    if groups != [] && groups[0].key != key {
      AddToHeaderGroups(groups[1..], key, item);
    } else if groups != [] {
      assert item in [item];
      assert HeaderGroup(groups[0]) by {
        assert groups[0] in groups;
      }
      forall g | g in AddTo(groups, key, item) ensures HeaderGroup(g) {
        if g !in groups {
          assert g.items == groups[0].items + [item];
        }
      }
    }
  }

  lemma {:induction false} HeaderGroups(es: seq<Entry>)
    requires forall e | e in es :: Readable(e)
    ensures forall g | g in ImportGroups(es) :: HeaderGroup(g)
  {
    if es != [] {
      var init, last := es[..|es| - 1], es[|es| - 1];
      assert last in es && forall e | e in init :: e in es;
      HeaderGroups(init);
      AddToHeaderGroups(ImportGroups(init), last.module_, last.member);
    }
  }

  lemma {:induction false} AddToNoneEmpty(groups: seq<Group<string>>, key: string, item: string)
    requires (forall g | g in groups :: NoneEmpty(g)) && item != ""
    ensures forall g | g in AddTo(groups, key, item) :: NoneEmpty(g)
  {
    if groups != [] && groups[0].key != key {
      AddToNoneEmpty(groups[1..], key, item);
    } else if groups != [] {
      assert NoneEmpty(groups[0]) by {
        assert groups[0] in groups;
      }
      forall g | g in AddTo(groups, key, item) ensures NoneEmpty(g) {
        if g !in groups {
          assert g.items == groups[0].items + [item];
        }
      }
    }
  }

  lemma {:induction false} NoGroupEmpty(es: seq<Entry>)
    requires forall e | e in es :: e.member != ""
    ensures forall g | g in ImportGroups(es) :: NoneEmpty(g)
  {
    if es != [] {
      var init, last := es[..|es| - 1], es[|es| - 1];
      assert last in es && forall e | e in init :: e in es;
      NoGroupEmpty(init);
      AddToNoneEmpty(ImportGroups(init), last.module_, last.member);
    }
  }

  lemma GroupLinePrints(g: Group<string>)
    requires HeaderGroup(g)
    ensures var l := PrintLine(Named(Join(COMMA, g.items), g.key, "")); IMPORT <= l && NoNewline(l)
  {
    JoinLacksChar(COMMA, g.items, '\n');
    ModuleNoNewline(g.key);
    PrintedNoNewline(Named(Join(COMMA, g.items), g.key, ""));
    assert IMPORT <= OPEN;
  }

  /** A synthesised header is import lines. */
  lemma HeaderPrints(es: seq<Entry>)
    requires forall e | e in es :: Readable(e)
    ensures AllImports(HeaderLines(es)) && forall l | l in HeaderLines(es) :: NoNewline(l)
  {
    var groups := ImportGroups(es);
    HeaderGroups(es);
    forall i | 0 <= i < |groups| ensures IMPORT <= HeaderLines(es)[i] && NoNewline(HeaderLines(es)[i]) {
      assert groups[i] in groups;
      GroupLinePrints(groups[i]);
    }
  }

  function GroupEntries(groups: seq<Group<string>>): seq<Entry>
  {
    if groups == [] then [] else MemberEntries(groups[0].items, groups[0].key) + GroupEntries(groups[1..])
  }

  lemma GroupEntriesCons(g: Group<string>, rest: seq<Group<string>>)
    ensures GroupEntries([g] + rest) == MemberEntries(g.items, g.key) + GroupEntries(rest)
  {
    assert ([g] + rest)[1..] == rest;
  }

  lemma MemberEntriesSnoc(members: seq<string>, member: string, m: string)
    ensures multiset(MemberEntries(members + [member], m))
         == multiset(MemberEntries(members, m)) + multiset{Entry(Local(member), member, m)}
  {
    assert MemberEntries(members + [member], m) == MemberEntries(members, m) + [Entry(Local(member), member, m)];
  }

  lemma {:induction false} AddToEntries(groups: seq<Group<string>>, key: string, member: string)
    ensures multiset(GroupEntries(AddTo(groups, key, member)))
         == multiset(GroupEntries(groups)) + multiset{Entry(Local(member), member, key)}
  {
    if groups == [] {
      GroupEntriesCons(Group(key, [member]), []);
      assert [Group(key, [member])] + [] == [Group(key, [member])];
      assert MemberEntries([member], key) == [Entry(Local(member), member, key)];
    } else {
      var g, rest := groups[0], groups[1..];
      assert groups == [g] + rest;
      GroupEntriesCons(g, rest);
      if g.key == key {
        GroupEntriesCons(Group(key, g.items + [member]), rest);
        MemberEntriesSnoc(g.items, member, key);
      } else {
        AddToEntries(rest, key, member);
        GroupEntriesCons(g, AddTo(rest, key, member));
      }
    }
  }

  lemma GroupEntriesStep(init: seq<Entry>, last: Entry)
    requires multiset(GroupEntries(ImportGroups(init))) == multiset(init) && Local(last.member) == last.local
    ensures multiset(GroupEntries(ImportGroups(init + [last]))) == multiset(init + [last])
  {
    assert (init + [last])[..|init|] == init;
    AddToEntries(ImportGroups(init), last.module_, last.member);
    assert last == Entry(Local(last.member), last.member, last.module_);
    SnocEntries(init, last);
  }

  lemma {:induction false} GroupEntriesAre(es: seq<Entry>)
    requires forall e | e in es :: Local(e.member) == e.local
    ensures multiset(GroupEntries(ImportGroups(es))) == multiset(es)
  {
    if es != [] {
      var init, last := es[..|es| - 1], es[|es| - 1];
      assert last in es && forall e | e in init :: e in es;
      GroupEntriesAre(init);
      GroupEntriesStep(init, last);
      assert init + [last] == es;
    }
  }

  lemma SnocEntries(es: seq<Entry>, e: Entry)
    ensures multiset(es + [e]) == multiset(es) + multiset{e}
  {
  }

  lemma EntriesCons(l: string, x: ImportLine, ls: seq<string>, rest: seq<Entry>)
    requires ParseNamed(l) == Some(x) && HeaderEntries(ls) == Some(rest)
    ensures HeaderEntries([l] + ls) == Some(MemberEntries(Split(COMMA, x.inner), x.module_) + rest)
  {
    assert ([l] + ls)[1..] == ls;
  }

  lemma GroupLinesCons(g: Group<string>, rest: seq<Group<string>>)
    ensures PrintAll(GroupLines([g] + rest, ""))
         == [PrintLine(Named(Join(COMMA, g.items), g.key, ""))] + PrintAll(GroupLines(rest, ""))
  {
  }

  lemma {:induction false} GroupLinesParse(groups: seq<Group<string>>)
    requires forall g | g in groups :: HeaderGroup(g) && NoneEmpty(g)
    ensures HeaderEntries(PrintAll(GroupLines(groups, ""))) == Some(GroupEntries(groups))
  {
    if groups == [] {
      assert PrintAll(GroupLines(groups, "")) == [];
    } else {
      var g, rest := groups[0], groups[1..];
      assert g in groups && groups == [g] + rest;
      GroupLinesParse(rest);
      GroupLineParses(g);
      GroupLinesCons(g, rest);
      var x := Named(Join(COMMA, g.items), g.key, "");
      EntriesCons(PrintLine(x), x, PrintAll(GroupLines(rest, "")), GroupEntries(rest));
    }
  }

  lemma GroupLineParses(g: Group<string>)
    requires HeaderGroup(g) && NoneEmpty(g)
    ensures var l := PrintLine(Named(Join(COMMA, g.items), g.key, ""));
            && ParseNamed(l) == Some(Named(Join(COMMA, g.items), g.key, ""))
            && Split(COMMA, Join(COMMA, g.items)) == g.items
  {
    assert g.items != [""] by {
      assert g.items[0] in g.items;
    }
    GroupParses(g.items, g.key, "");
  }

  /** The header and the body come apart where they were put together. */
  lemma HeaderSeparates(es: seq<Entry>, body: string)
    requires forall e | e in es :: Readable(e)
    requires es == [] ==> !(IMPORT <= body) && !("\n" <= body)
    ensures HeadLines(HeaderText(es) + body) == HeaderLines(es) && Body(HeaderText(es) + body) == body
  {
    HeaderPrints(es);
    if es == [] {
      HeadReads([], body);
      assert HeaderText(es) + body == body && PrintLines([]) + body == body;
      assert HeaderLines(es) == [];
    } else {
      var after := "\n" + body;
      assert after[0] == '\n' && IMPORT[0] == 'i';
      HeadReads(HeaderLines(es), after);
      Associates(PrintLines(HeaderLines(es)), "\n", body);
      assert after[1..] == body && "\n" <= after;
    }
  }

  /** A synthesised header imports what was picked, each entry once. */
  lemma HeaderReads(es: seq<Entry>, body: string)
    requires forall e | e in es :: Importable(e)
    requires es == [] ==> !(IMPORT <= body) && !("\n" <= body)
    ensures Body(HeaderText(es) + body) == body
    ensures var got := HeaderEntries(HeadLines(HeaderText(es) + body));
            got.Some? && multiset(got.value) == multiset(es)
  {
    HeaderGroups(es);
    NoGroupEmpty(es);
    GroupLinesParse(ImportGroups(es));
    HeaderSeparates(es, body);
    GroupEntriesAre(es);
  }

  // What is picked can be imported.

  lemma {:induction false} ParsedEntries(ls: seq<string>, e: Entry)
    requires HeaderEntries(ls).Some? && e in HeaderEntries(ls).value
    requires forall l | l in ls :: NoNewline(l)
    ensures Readable(e)
  {
    if ls != [] {
      var x := ParseNamed(ls[0]).value;
      assert ls[0] in ls;
      if e in MemberEntries(Split(COMMA, x.inner), x.module_) {
        LineReadable(ls[0], e);
      } else {
        ParsedEntries(ls[1..], e);
      }
    }
  }

  lemma ImportLine(l: string)
    requires ParseNamed(l).Some?
    ensures IMPORT <= l
  {
    assert IMPORT <= OPEN;
  }

  lemma LineReadable(l: string, e: Entry)
    requires ParseNamed(l).Some? && NoNewline(l)
    requires var x := ParseNamed(l).value; e in MemberEntries(Split(COMMA, x.inner), x.module_)
    ensures Readable(e)
  {
    var x := ParseNamed(l).value;
    ImportLine(l);
    ParsedPlain(l);
    PrintParse(l);
    LineParts(x);
    SplitLacks(COMMA, x.inner);
    LacksChar('}', x.inner);
    SplitChars(COMMA, x.inner, '}');
    SplitChars(COMMA, x.inner, '\n');
    assert e.member in Split(COMMA, x.inner);
  }

  lemma OwnedImportable(owners: seq<Assignment>, e: Entry)
    requires e in OwnedEntries(owners) && OwnersSpelled(owners)
    ensures Importable(e)
  {
    var i :| 0 <= i < |owners| && e == OwnedEntries(owners)[i];
    assert owners[i] in owners;
    WordLacks(e.member, COMMA, 0);
    WordLacks(e.member, AS, 0);
    assert Split(AS, e.member) == [e.member];
  }

  lemma {:induction false} PickedFrom(pool: seq<Entry>, owner: string, declared: seq<string>, body: string)
    ensures forall e | e in Picked(pool, owner, declared, body) :: e in pool && Wanted(e, owner, declared, body)
  {
    if pool != [] {
      var init, last := pool[..|pool| - 1], pool[|pool| - 1];
      PickedFrom(init, owner, declared, body);
      assert last in pool && forall e | e in init :: e in pool;
    }
  }

  predicate OwnersSpelled(owners: seq<Assignment>)
  {
    forall a | a in owners :: IsWord(a.name) && IsModule(a.owner)
  }

  lemma PickedReadable(files: map<string, string>, owners: seq<Assignment>, owner: string, own: seq<Entry>,
    declared: seq<string>, body: string)
    requires CHECKED in files && HeaderEntries(HeadLines(files[CHECKED])).Some? && OwnersSpelled(owners)
    requires HeaderEntries(HeadLines(Kept(files, owner))) == Some(own)
    ensures forall e | e in Picked(own + Pool(files, owners), owner, declared, body) :: Readable(e)
  {
    PickedFrom(own + Pool(files, owners), owner, declared, body);
    HeadNoNewline(files[CHECKED]);
    HeadNoNewline(Kept(files, owner));
    forall e | e in Picked(own + Pool(files, owners), owner, declared, body) ensures Readable(e) {
      if e in own {
        ParsedEntries(HeadLines(Kept(files, owner)), e);
      } else if e in OwnedEntries(owners) {
        OwnedImportable(owners, e);
      } else {
        ParsedEntries(HeadLines(files[CHECKED]), e);
      }
    }
  }

  /** No import in a header names an empty member. */
  ghost predicate MembersNamed(es: seq<Entry>)
  {
    forall e | e in es :: e.member != ""
  }

  lemma {:induction false} AfterHeadShorter(s: string)
    ensures |AfterHead(s)| <= |s| && (IMPORT <= s ==> |AfterHead(s)| < |s|)
    decreases |s|
  {
    if IMPORT <= s {
      AfterHeadShorter(s[LineLength(s)..]);
    }
  }

  lemma BodyIsAll(s: string)
    requires Body(s) == s
    ensures !(IMPORT <= s) && !("\n" <= s)
  {
    AfterHeadShorter(s);
  }

  /**
   * In the file of an owner, the header and the text come apart as they were put together, and the header imports the
   * picked entries, each once, exactly when something is picked or the text starts neither like an import nor blank.
   */
  lemma OwnerHeaderReads(files: map<string, string>, owners: seq<Assignment>, owner: string, own: seq<Entry>,
    body: string)
    requires CHECKED in files && HeaderEntries(HeadLines(files[CHECKED])).Some? && OwnersSpelled(owners)
    requires HeaderEntries(HeadLines(Kept(files, owner))) == Some(own)
    requires MembersNamed(own) && MembersNamed(Pool(files, owners))
    ensures var picked := Picked(own + Pool(files, owners), owner, Declared(SplitLines(body)), body);
            var text := HeaderText(picked) + body;
            var got := HeaderEntries(HeadLines(text));
            (Body(text) == body && got.Some? && multiset(got.value) == multiset(picked))
            <==> (picked == [] ==> !(IMPORT <= body) && !("\n" <= body))
  {
    var declared := Declared(SplitLines(body));
    var picked := Picked(own + Pool(files, owners), owner, declared, body);
    PickedReadable(files, owners, owner, own, declared, body);
    PickedFrom(own + Pool(files, owners), owner, declared, body);
    if picked == [] ==> !(IMPORT <= body) && !("\n" <= body) {
      HeaderReads(picked, body);
    } else {
      assert HeaderText(picked) + body == body;
      if Body(body) == body {
        BodyIsAll(body);
      }
    }
  }
}
