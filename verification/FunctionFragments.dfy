/** The functions of a compiler source, each a run of lines from its declaration to the next. */
module FunctionFragments {
  import opened Wrappers
  import opened TextLines
  import opened ImportLines

  const DEF := "def "

  function NameRun(s: string): (n: nat)
    ensures n <= |s|
  {
    if s != "" && IsNameChar(s[0]) then 1 + NameRun(s[1..]) else 0
  }

  /** The name a line declares, if it starts a function. */
  function FunctionName(line: string): Option<string>
  {
    if !(DEF <= line) then None
    else
      var rest := line[|DEF|..];
      var n := NameRun(rest);
      if n > 0 && IsLower(rest[0]) && n < |rest| && rest[n] == '(' then Some(rest[..n]) else None
  }

  lemma {:induction false} NameRunOf(n: string, rest: string)
    requires NameRun(n) == |n| && (rest == "" || !IsNameChar(rest[0]))
    ensures NameRun(n + rest) == |n|
  {
    if n == "" {
      assert n + rest == rest;
    } else {
      NameRunOf(n[1..], rest);
      assert (n + rest)[1..] == n[1..] + rest;
    }
  }

  lemma {:induction false} FullNameRun(s: string)
    requires forall i | 0 <= i < |s| :: IsNameChar(s[i])
    ensures NameRun(s) == |s|
  {
    if s != "" {
      FullNameRun(s[1..]);
    }
  }

  lemma {:induction false} NameRunChars(s: string)
    ensures forall i | 0 <= i < NameRun(s) :: IsNameChar(s[i])
    ensures NameRun(s) < |s| ==> !IsNameChar(s[NameRun(s)])
  {
    if s != "" && IsNameChar(s[0]) {
      NameRunChars(s[1..]);
      forall i | 0 <= i < NameRun(s) ensures IsNameChar(s[i]) {
        assert i > 0 ==> s[i] == s[1..][i - 1];
      }
    }
  }

  /** A lower-case letter, then lower-case letters, digits and underscores. */
  predicate IsName(s: string)
  {
    s != "" && 'a' <= s[0] <= 'z' && forall i | 0 <= i < |s| :: IsNameChar(s[i])
  }

  /** A line declares a function exactly when it starts with "def ", a name and an opening parenthesis. */
  lemma FunctionNameExact(line: string, name: string)
    ensures FunctionName(line) == Some(name) <==> IsName(name) && "def " + name + "(" <= line
  {
    if FunctionName(line) == Some(name) {
      NameRunChars(line[|DEF|..]);
      assert line[..|DEF| + |name| + 1] == "def " + name + "(";
    }
    if IsName(name) && "def " + name + "(" <= line {
      var rest := line[|DEF|..];
      assert DEF <= line && rest == name + rest[|name|..];
      assert line[|DEF| + |name|] == '(';
      FullNameRun(name);
      NameRunOf(name, rest[|name|..]);
    }
  }

  datatype Fragment = Fragment(name: string, lines: seq<string>)

  /** How many lines come before the first function. */
  function Lead(lines: seq<string>): (n: nat)
    ensures n <= |lines|
  {
    if lines == [] || FunctionName(lines[0]).Some? then 0 else 1 + Lead(lines[1..])
  }

  function Fragments(lines: seq<string>): seq<Fragment>
  {
    if lines == [] then []
    else
      match FunctionName(lines[0])
      case None => Fragments(lines[1..])
      case Some(name) =>
        var n := 1 + Lead(lines[1..]);
        [Fragment(name, lines[..n])] + Fragments(lines[1..])
  }

  function AllLines(fs: seq<Fragment>): seq<string>
  {
    if fs == [] then [] else fs[0].lines + AllLines(fs[1..])
  }

  /** The names declared, in order. */
  function Declared(lines: seq<string>): seq<string>
  {
    if lines == [] then []
    else
      match FunctionName(lines[0])
      case None => Declared(lines[1..])
      case Some(name) => [name] + Declared(lines[1..])
  }

  predicate FragmentOk(f: Fragment)
  {
    && f.lines != [] && FunctionName(f.lines[0]) == Some(f.name)
    && forall i | 0 < i < |f.lines| :: FunctionName(f.lines[i]).None?
  }

  predicate NoFunction(lines: seq<string>)
  {
    forall i | 0 <= i < |lines| :: FunctionName(lines[i]).None?
  }

  lemma {:induction false} LeadNoFunction(lines: seq<string>)
    ensures NoFunction(lines[..Lead(lines)])
    ensures Lead(lines) < |lines| ==> FunctionName(lines[Lead(lines)]).Some?
  {
    if lines != [] && FunctionName(lines[0]).None? {
      LeadNoFunction(lines[1..]);
      var n := Lead(lines);
      assert lines[..n] == [lines[0]] + lines[1..][..n - 1];
    }
  }

  lemma {:induction false} SkipLead(lines: seq<string>)
    ensures Fragments(lines) == Fragments(lines[Lead(lines)..])
  {
    if lines != [] && FunctionName(lines[0]).None? {
      SkipLead(lines[1..]);
      assert lines[1..][Lead(lines[1..])..] == lines[Lead(lines)..];
    } else {
      assert lines[0..] == lines;
    }
  }

  /** The fragments are what they should be, and together they are all the lines after the lead. */
  lemma {:induction false} Partition(lines: seq<string>)
    ensures lines == lines[..Lead(lines)] + AllLines(Fragments(lines))
    ensures forall f | f in Fragments(lines) :: FragmentOk(f)
    decreases |lines|
  {
    if lines != [] {
      Partition(lines[1..]);
      if FunctionName(lines[0]).Some? {
        PartitionStep(lines);
      } else {
        assert lines == [lines[0]] + lines[1..];
        assert lines[..Lead(lines)] == [lines[0]] + lines[1..][..Lead(lines[1..])];
      }
    }
  }

  lemma FirstFragmentOk(first: string, rest: seq<string>)
    requires FunctionName(first).Some?
    ensures FragmentOk(Fragment(FunctionName(first).value, [first] + rest[..Lead(rest)]))
  {
    LeadNoFunction(rest);
  }

  lemma FragmentsCons(first: string, rest: seq<string>)
    requires FunctionName(first).Some?
    ensures var f := Fragment(FunctionName(first).value, [first] + rest[..Lead(rest)]);
            Fragments([first] + rest) == [f] + Fragments(rest)
  {
    var lines := [first] + rest;
    assert lines[1..] == rest && lines[..1 + Lead(rest)] == [first] + rest[..Lead(rest)];
  }

  lemma PartitionStep(lines: seq<string>)
    requires lines != [] && FunctionName(lines[0]).Some?
    requires lines[1..] == lines[1..][..Lead(lines[1..])] + AllLines(Fragments(lines[1..]))
    ensures lines == AllLines(Fragments(lines)) && FragmentOk(Fragments(lines)[0])
    ensures Fragments(lines)[1..] == Fragments(lines[1..])
  {
    var first, rest := lines[0], lines[1..];
    assert lines == [first] + rest;
    FirstFragmentOk(first, rest);
    FragmentsCons(first, rest);
    Associates([first], rest[..Lead(rest)], AllLines(Fragments(rest)));
  }

  lemma {:induction false} LeadOf(pre: seq<string>, rest: seq<string>)
    requires NoFunction(pre) && (rest != [] ==> FunctionName(rest[0]).Some?)
    ensures Lead(pre + rest) == |pre|
  {
    if pre == [] {
      assert pre + rest == rest;
    } else {
      assert (pre + rest)[1..] == pre[1..] + rest;
      LeadOf(pre[1..], rest);
    }
  }

  lemma FirstFragmentReads(f: Fragment, rest: seq<string>)
    requires FragmentOk(f) && (rest != [] ==> FunctionName(rest[0]).Some?)
    ensures Fragments(f.lines + rest) == [f] + Fragments(rest) && Lead(f.lines + rest) == 0
  {
    var first, more := f.lines[0], f.lines[1..];
    assert f.lines == [first] + more;
    Associates([first], more, rest);
    LeadOf(more, rest);
    FragmentsCons(first, more + rest);
    assert (more + rest)[..|more|] == more;
    SkipLead(more + rest);
    assert (more + rest)[|more|..] == rest;
  }

  /** Laying fragments out and reading them gives the same fragments. */
  lemma {:induction false} FragmentsRead(fs: seq<Fragment>)
    requires forall f | f in fs :: FragmentOk(f)
    ensures Fragments(AllLines(fs)) == fs && Lead(AllLines(fs)) == 0
  {
    if fs != [] {
      assert fs[0] in fs;
      FragmentsRead(fs[1..]);
      if fs[1..] != [] {
        assert fs[1] in fs;
      }
      FirstFragmentReads(fs[0], AllLines(fs[1..]));
    }
  }

  // Declarations.

  lemma {:induction false} DeclaredConcat(a: seq<string>, b: seq<string>)
    ensures Declared(a + b) == Declared(a) + Declared(b)
  {
    if a == [] {
      assert a + b == b;
    } else {
      DeclaredConcat(a[1..], b);
      assert (a + b)[1..] == a[1..] + b;
    }
  }

  lemma {:induction false} DeclaredNone(lines: seq<string>)
    requires NoFunction(lines)
    ensures Declared(lines) == []
  {
    if lines != [] {
      DeclaredNone(lines[1..]);
    }
  }

  function Names(fs: seq<Fragment>): seq<string>
  {
    seq(|fs|, i requires 0 <= i < |fs| => fs[i].name)
  }

  lemma {:induction false} DeclaredNames(fs: seq<Fragment>)
    requires forall f | f in fs :: FragmentOk(f)
    ensures Declared(AllLines(fs)) == Names(fs)
  {
    if fs != [] {
      var f := fs[0];
      assert f in fs;
      DeclaredNames(fs[1..]);
      DeclaredConcat(f.lines, AllLines(fs[1..]));
      DeclaredNone(f.lines[1..]);
      assert Declared(f.lines) == [f.name] + Declared(f.lines[1..]);
      assert Names(fs) == [f.name] + Names(fs[1..]);
    }
  }

  /** What a source declares, it declares by its fragments. */
  lemma DeclaredFragments(lines: seq<string>)
    ensures Declared(lines) == Names(Fragments(lines))
  {
    var lead := lines[..Lead(lines)];
    Partition(lines);
    LeadNoFunction(lines);
    DeclaredConcat(lead, AllLines(Fragments(lines)));
    DeclaredNone(lead);
    DeclaredNames(Fragments(lines));
  }
}
