/** When rewriting a rewritten source leaves it alone: exactly when every binding of it is where it would be sent. */
module SourceSettling {
  import opened Wrappers
  import opened TextSearch
  import opened TextLines
  import opened Grouping
  import opened ImportLines
  import opened ImportRewriting
  import opened ImportStability
  import opened ImportBindings

  /** The binding is where rewriting would send it. */
  predicate Stays(t: Tables, u: Use)
  {
    Retarget(t, u) == u
  }

  ghost predicate AllStay(t: Tables, us: seq<Use>)
  {
    forall u | u in us :: Stays(t, u)
  }

  // One line.

  lemma SoleKey<T>(xs: seq<T>, key: T -> string, g: Group<T>)
    requires Grouped(xs, key) == [g]
    ensures forall x | x in xs :: key(x) == g.key
  {
    GroupedExactly(xs, key);
    assert Keys([g]) == [g.key];
    forall x | x in xs ensures key(x) == g.key {
      HavingItems(xs, key, key(x));
      assert key(x) in KeysOf(xs, key);
    }
  }

  lemma OneKey(t: Tables, members: seq<string>, m: string, g: Group<string>)
    requires Regrouped(t, members, m) == [g]
    ensures forall x | x in members :: Target(t, Origin(x), m) == g.key
  {
    RegroupedIsGrouped(t, members, m);
    SoleKey(members, Goes(t, m), g);
    forall x | x in members ensures Target(t, Origin(x), m) == g.key {
      assert Goes(t, m)(x) == g.key;
    }
  }

  lemma SameModule(inner: string, m: string, n: string, tail: string)
    requires PrintLine(Named(inner, m, tail)) == PrintLine(Named(inner, n, tail))
    ensures m == n
  {
    var start := OPEN + inner + " }" + FROM;
    var a, b := start + m + tail, start + n + tail;
    assert |m| == |n|;
    assert a[|start|..|start| + |m|] == m && b[|start|..|start| + |n|] == n;
  }

  lemma MembersStay(t: Tables, members: seq<string>, m: string, tail: string)
    ensures AllStay(t, MemberUses(members, m, tail)) <==> forall x | x in members :: Target(t, Origin(x), m) == m
  {
    var us := MemberUses(members, m, tail);
    forall i | 0 <= i < |members| ensures Stays(t, us[i]) <==> Target(t, Origin(members[i]), m) == m {
    }
    if AllStay(t, us) {
      forall x | x in members ensures Target(t, Origin(x), m) == m {
        var i :| 0 <= i < |members| && members[i] == x;
        assert us[i] in us;
      }
    }
  }

  lemma NamedLineStays(t: Tables, l: string)
    requires IMPORT <= l && ParseNamed(l).Some?
    ensures RewriteLine(t, l) == [l] <==> AllStay(t, Uses(ParseLine(l)))
  {
    var x := ParseNamed(l).value;
    var members := Split(COMMA, x.inner);
    PrintParse(l);
    JoinSplit(COMMA, x.inner);
    MembersStay(t, members, x.module_, x.tail);
    if AllStay(t, Uses(x)) {
      OneTarget(t, members, x.module_, x.module_);
      assert RewriteLine(t, l) == [PrintLine(Named(x.inner, x.module_, x.tail))];
    }
    if RewriteLine(t, l) == [l] {
      var g := Regrouped(t, members, x.module_)[0];
      assert Regrouped(t, members, x.module_) == [g];
      OneKey(t, members, x.module_, g);
      OneTarget(t, members, x.module_, g.key);
      assert RewriteLine(t, l) == [PrintLine(Named(x.inner, g.key, x.tail))];
      SameModule(x.inner, g.key, x.module_, x.tail);
    }
  }

  lemma SameWhole(m: string, n: string, suffix: Option<string>)
    requires PrintLine(Whole(m, suffix)) == PrintLine(Whole(n, suffix))
    ensures m == n
  {
    var tail := if suffix.Some? then " " + suffix.value else "";
    var a, b := IMPORT + m + tail, IMPORT + n + tail;
    assert |m| == |n|;
    assert a[|IMPORT|..|IMPORT| + |m|] == m && b[|IMPORT|..|IMPORT| + |n|] == n;
  }

  lemma ConvertedDiffers(t: Tables, l: string)
    requires Lexical(t) && IMPORT <= l && ParseNamed(l).None?
    requires RewriteWhole(t, ParseWhole(l).module_, ParseWhole(l).suffix).Named?
    ensures RewriteLine(t, l) != [l]
  {
    var x := ParseWhole(l);
    var y := RewriteWhole(t, x.module_, x.suffix);
    WholeBrace(l);
    assert x.module_ != "{";
    assert RewriteLine(t, l)[0] == PrintLine(y) && OPEN <= PrintLine(y);
  }

  lemma WholeLineStays(t: Tables, l: string)
    requires Lexical(t) && IMPORT <= l && ParseNamed(l).None?
    ensures RewriteLine(t, l) == [l] <==> AllStay(t, Uses(ParseLine(l)))
  {
    var x := ParseWhole(l);
    var u := Module(x.module_, x.suffix);
    var y := RewriteWhole(t, x.module_, x.suffix);
    assert Uses(ParseLine(l)) == [u];
    assert AllStay(t, [u]) <==> Stays(t, u);
    PrintParse(l);
    assert RewriteLine(t, l) == [PrintLine(y)];
    RewrittenWhole(t, x.module_, x.suffix);
    if y.Named? {
      ConvertedDiffers(t, l);
    } else if PrintLine(y) == l {
      SameWhole(y.module_, x.module_, x.suffix);
    }
  }

  lemma LineStays(t: Tables, l: string)
    requires Lexical(t) && IMPORT <= l
    ensures RewriteLine(t, l) == [l] <==> AllStay(t, Uses(ParseLine(l)))
  {
    if ParseNamed(l).Some? {
      NamedLineStays(t, l);
    } else {
      WholeLineStays(t, l);
    }
  }

  // All lines.

  lemma SomeGroup<T>(xs: seq<T>, key: T -> string)
    requires xs != []
    ensures Grouped(xs, key) != []
  {
    GroupedExactly(xs, key);
    HavingItems(xs, key, key(xs[0]));
    assert xs[0] in xs;
  }

  lemma SomeOutput(t: Tables, l: string)
    requires IMPORT <= l
    ensures RewriteLine(t, l) != []
  {
    if ParseNamed(l).Some? {
      var x := ParseNamed(l).value;
      var members := Split(COMMA, x.inner);
      RegroupedIsGrouped(t, members, x.module_);
      SomeGroup(members, Goes(t, x.module_));
    }
  }

  lemma {:induction false} OutputCount(t: Tables, ls: seq<string>)
    requires AllImports(ls)
    ensures |RewriteAll(t, ls)| >= |ls|
  {
    if ls != [] {
      SomeOutput(t, ls[0]);
      OutputCount(t, ls[1..]);
    }
  }

  lemma StaysAppend(t: Tables, us: seq<Use>, vs: seq<Use>)
    ensures AllStay(t, us + vs) <==> AllStay(t, us) && AllStay(t, vs)
  {
    assert forall u | u in us :: u in us + vs;
    assert forall u | u in vs :: u in us + vs;
  }

  /** Lines of a head come out as they were exactly when every binding of them stays. */
  lemma {:induction false} LinesStay(t: Tables, ls: seq<string>)
    requires Lexical(t) && AllImports(ls)
    ensures RewriteAll(t, ls) == ls <==> AllStay(t, LineUses(ls))
  {
    if ls == [] {
      assert LineUses(ls) == [];
    } else {
      var l, rest := ls[0], ls[1..];
      assert ls == [l] + rest;
      LinesStay(t, rest);
      LineStays(t, l);
      LineUsesCons(l, rest);
      StaysAppend(t, Uses(ParseLine(l)), LineUses(rest));
      SomeOutput(t, l);
      OutputCount(t, rest);
      LongerParts(RewriteLine(t, l), RewriteAll(t, rest), l, rest);
    }
  }

  lemma LongerParts(a: seq<string>, b: seq<string>, l: string, rest: seq<string>)
    requires a != [] && |b| >= |rest|
    ensures a + b == [l] + rest <==> a == [l] && b == rest
  {
    if a + b == [l] + rest {
      assert |a| == 1 && a[0] == (a + b)[0];
      assert b == (a + b)[1..] && rest == ([l] + rest)[1..];
    }
  }

  // A source that has been rewritten.

  lemma RewrittenParts(t: Tables, source: string)
    requires Lexical(t)
    ensures var r := Rewrite(t, source); PrintLines(HeadLines(r)) + AfterHead(r) == r
  {
    RewrittenHead(t, source);
  }

  lemma SameLines(a: seq<string>, b: seq<string>, after: string)
    requires AllImports(a) && (forall l | l in a :: NoNewline(l))
    requires AllImports(b) && (forall l | l in b :: NoNewline(l))
    requires !(IMPORT <= after)
    ensures PrintLines(a) + after == PrintLines(b) + after <==> a == b
  {
    HeadReads(a, after);
    HeadReads(b, after);
  }

  /** Rewriting again leaves a rewritten source alone exactly when every binding of it is where it would be sent. */
  lemma RewrittenStays(t: Tables, source: string)
    requires Lexical(t)
    ensures Rewrite(t, Rewrite(t, source)) == Rewrite(t, source) <==> AllStay(t, Bindings(Rewrite(t, source)))
  {
    var r := Rewrite(t, source);
    var ls := HeadLines(r);
    RewrittenParts(t, source);
    LinesStay(t, ls);
    HeadNoNewline(r);
    AllNoNewline(t, ls);
    AllRebind(t, ls);
    AfterHeadPlain(r);
    SameLines(RewriteAll(t, ls), ls, AfterHead(r));
  }

  /** Where no line is broken, that is to say that no binding of the source is sent further than once. */
  lemma SentOnce(t: Tables, source: string)
    requires Lexical(t) && !AnyBroken(t, HeadLines(source))
    ensures Rewrite(t, Rewrite(t, source)) == Rewrite(t, source)
       <==> forall u | u in Bindings(source) :: Stays(t, Retarget(t, u))
  {
    RewrittenStays(t, source);
    BindingsMove(t, source);
    SameElements(Bindings(Rewrite(t, source)), RetargetAll(t, Bindings(source)));
    RetargetsStay(t, Bindings(source));
  }

  lemma RetargetsStay(t: Tables, us: seq<Use>)
    ensures (forall u | u in RetargetAll(t, us) :: Stays(t, u)) <==> (forall u | u in us :: Stays(t, Retarget(t, u)))
  {
    forall i | 0 <= i < |us| ensures RetargetAll(t, us)[i] == Retarget(t, us[i]) && us[i] in us {
    }
  }

  lemma SameElements(a: seq<Use>, b: seq<Use>)
    requires multiset(a) == multiset(b)
    ensures forall u :: u in a <==> u in b
  {
    forall u ensures u in a <==> u in b {
      assert u in a <==> u in multiset(a);
      assert u in b <==> u in multiset(b);
    }
  }
}
