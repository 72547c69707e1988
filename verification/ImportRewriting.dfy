/** Rewriting the leading imports of a compiler source after its modules have moved and its functions changed owner. */
module ImportRewriting {
  import opened Wrappers
  import opened TextSearch
  import opened TextLines
  import opened Grouping
  import opened ImportLines

  const CHECKED := "checked_program"

  /** Where modules went, which module owns each checker function now, and what default imports are called. */
  datatype Tables = Tables(paths: map<string, string>, owners: map<string, string>, defaults: map<string, string>)

  function Lookup(m: map<string, string>, key: string): string
  {
    if key in m then m[key] else key
  }

  function Origin(member: string): string
  {
    Split(AS, member)[0]
  }

  function Local(member: string): string
  {
    var parts := Split(AS, member);
    parts[|parts| - 1]
  }

  /** The module that owns a name imported from a module: only the checker's functions have moved between modules. */
  function Owner(t: Tables, origin: string, m: string): string
  {
    if m == CHECKED then (if origin in t.owners then t.owners[origin] else m) else m
  }

  function Target(t: Tables, origin: string, m: string): string
  {
    Lookup(t.paths, Owner(t, origin, m))
  }

  // Regrouping.

  function Regrouped(t: Tables, members: seq<string>, m: string): seq<Group<string>>
  {
    if members == [] then []
    else
      var last := members[|members| - 1];
      AddTo(Regrouped(t, members[..|members| - 1], m), Target(t, Origin(last), m), last)
  }

  function GroupLines(groups: seq<Group<string>>, tail: string): seq<ImportLine>
  {
    seq(|groups|, i requires 0 <= i < |groups| => Named(Join(COMMA, groups[i].items), groups[i].key, tail))
  }

  // One line.

  /** The text after the first space, if there is one. */
  function AfterSpace(s: string): string
  {
    match Find(" ", s)
    case None => ""
    case Some(i) => s[i + 1..]
  }

  /** A default import whose module moved becomes a named one; an alias is kept, and so is what follows. */
  function Converted(name: string, m: string, suffix: string): ImportLine
  {
    if "as " <= suffix then
      var words := suffix[3..];
      Named(name + AS + Split(" ", words)[0], m, Spaced(AfterSpace(words)))
    else Named(name, m, Spaced(suffix))
  }

  function Spaced(s: string): string
  {
    if s == "" then "" else " " + s
  }

  function RewriteWhole(t: Tables, m: string, suffix: Option<string>): ImportLine
  {
    var moved := Lookup(t.paths, m);
    if m in t.defaults && moved != m
    then Converted(t.defaults[m], moved, if suffix.Some? then suffix.value else "")
    else Whole(moved, suffix)
  }

  function RewriteParsed(t: Tables, x: ImportLine): seq<ImportLine>
  {
    match x
    case Named(inner, m, tail) => GroupLines(Regrouped(t, Split(COMMA, inner), m), tail)
    case Whole(m, suffix) => [RewriteWhole(t, m, suffix)]
  }

  function PrintAll(xs: seq<ImportLine>): seq<string>
  {
    seq(|xs|, i requires 0 <= i < |xs| => PrintLine(xs[i]))
  }

  function RewriteLine(t: Tables, l: string): seq<string>
    requires IMPORT <= l
  {
    PrintAll(RewriteParsed(t, ParseLine(l)))
  }

  predicate AllImports(ls: seq<string>)
  {
    forall i | 0 <= i < |ls| :: IMPORT <= ls[i]
  }

  function RewriteAll(t: Tables, ls: seq<string>): seq<string>
    requires AllImports(ls)
  {
    if ls == [] then [] else RewriteLine(t, ls[0]) + RewriteAll(t, ls[1..])
  }

  // The whole source.

  /** The leading import lines of a source, without their newlines. */
  function HeadLines(source: string): (ls: seq<string>)
    ensures AllImports(ls)
    decreases |source|
  {
    if IMPORT <= source then
      var n := LineLength(source);
      LineKeepsStart(source);
      [Stripped(source[..n])] + HeadLines(source[n..])
    else []
  }

  /** What follows them: a blank line, perhaps, and the body. */
  function AfterHead(source: string): string
    decreases |source|
  {
    if IMPORT <= source then AfterHead(source[LineLength(source)..]) else source
  }

  lemma {:induction false} LongLine(s: string, n: nat)
    requires n <= |s| && NoNewline(s[..n])
    ensures LineLength(s) >= n
  {
    if n > 0 {
      var init, rest := s[..n], s[1..][..n - 1];
      assert init[0] in init && init[0] == s[0];
      forall i | 0 <= i < n - 1 ensures rest[i] != '\n' {
        assert init[i + 1] in init;
      }
      LongLine(s[1..], n - 1);
    }
  }

  lemma LineKeepsStart(source: string)
    requires IMPORT <= source
    ensures IMPORT <= Stripped(source[..LineLength(source)])
  {
    assert source[..7] == IMPORT;
    LongLine(source, 7);
    var line := source[..LineLength(source)];
    assert line[..7] == IMPORT;
    assert line[6] == ' ';
    if |line| > 7 {
      assert line[..|line| - 1][..7] == IMPORT;
    }
  }

  function PrintLines(ls: seq<string>): string
  {
    if ls == [] then "" else ls[0] + "\n" + PrintLines(ls[1..])
  }

  /** The rewritten source: only the import lines at its head change. */
  function Rewrite(t: Tables, source: string): string
  {
    PrintLines(RewriteAll(t, HeadLines(source))) + AfterHead(source)
  }

  // Reading back a printed head.

  lemma {:induction false} HeadReads(ls: seq<string>, rest: string)
    requires AllImports(ls) && (forall l | l in ls :: NoNewline(l)) && !(IMPORT <= rest)
    ensures HeadLines(PrintLines(ls) + rest) == ls && AfterHead(PrintLines(ls) + rest) == rest
  {
    if ls == [] {
      assert PrintLines(ls) + rest == rest;
    } else {
      var l, after := ls[0], PrintLines(ls[1..]) + rest;
      assert l in ls;
      var line := l + "\n";
      assert PrintLines(ls) + rest == line + after;
      assert line[..|line| - 1] == l;
      LineLengthOf(line, after);
      assert forall x | x in ls[1..] :: x in ls;
      HeadReads(ls[1..], rest);
      FirstLineReads(line, l, after);
    }
  }

  lemma FirstLineReads(line: string, l: string, after: string)
    requires line == l + "\n" && IMPORT <= l && LineLength(line + after) == |line|
    ensures HeadLines(line + after) == [l] + HeadLines(after) && AfterHead(line + after) == AfterHead(after)
  {
    var s := line + after;
    assert s[..|line|] == line && s[|line|..] == after;
    assert IMPORT <= s;
    assert line[..|line| - 1] == l;
  }

  lemma {:induction false} AfterHeadPlain(source: string)
    ensures !(IMPORT <= AfterHead(source))
    decreases |source|
  {
    if IMPORT <= source {
      AfterHeadPlain(source[LineLength(source)..]);
    }
  }

  lemma {:induction false} HeadNoNewline(source: string)
    ensures forall l | l in HeadLines(source) :: NoNewline(l)
    decreases |source|
  {
    if IMPORT <= source {
      var n := LineLength(source);
      HeadNoNewline(source[n..]);
      FirstLineNoNewline(source);
    }
  }

  /** One named import: its members, grouped by the module each is to come from now. */
  method RegroupMembers(t: Tables, members: seq<string>, m: string) returns (groups: seq<Group<string>>)
    ensures groups == Regrouped(t, members, m)
  {
    groups := [];
    for k := 0 to |members|
      invariant groups == Regrouped(t, members[..k], m)
    {
      groups := AddTo(groups, Target(t, Origin(members[k]), m), members[k]);
      assert members[..k + 1][..k] == members[..k];
    }
    assert members[..|members|] == members;
  }

  method RewriteOne(t: Tables, line: string) returns (out: seq<string>)
    requires IMPORT <= line
    ensures out == RewriteLine(t, line)
  {
    match ParseLine(line) {
      case Named(inner, m, tail) =>
        var groups := RegroupMembers(t, Split(COMMA, inner), m);
        out := PrintAll(GroupLines(groups, tail));
      case Whole(m, suffix) =>
        out := PrintAll([RewriteWhole(t, m, suffix)]);
    }
  }

  lemma HeadStep(t: Tables, rest: string, done: seq<string>, out: seq<string>)
    requires IMPORT <= rest && IMPORT <= Stripped(rest[..LineLength(rest)])
    requires out == RewriteLine(t, Stripped(rest[..LineLength(rest)]))
    ensures var after := rest[LineLength(rest)..];
            && done + RewriteAll(t, HeadLines(rest)) == (done + out) + RewriteAll(t, HeadLines(after))
            && AfterHead(rest) == AfterHead(after)
  {
    var after := rest[LineLength(rest)..];
    RewriteFirst(t, Stripped(rest[..LineLength(rest)]), HeadLines(after));
    Associates(done, out, RewriteAll(t, HeadLines(after)));
  }

  lemma RewriteFirst(t: Tables, l: string, rest: seq<string>)
    requires IMPORT <= l && AllImports(rest)
    ensures AllImports([l] + rest) && RewriteAll(t, [l] + rest) == RewriteLine(t, l) + RewriteAll(t, rest)
  {
    assert ([l] + rest)[1..] == rest;
  }

  /** The rewriting loop: the import lines at the head one by one; the blank line and the body stay as they are. */
  method RewriteImports(t: Tables, source: string) returns (r: string)
    ensures r == Rewrite(t, source)
  {
    var rest := source;
    var lines: seq<string> := [];
    while IMPORT <= rest
      invariant lines + RewriteAll(t, HeadLines(rest)) == RewriteAll(t, HeadLines(source))
      invariant AfterHead(source) == AfterHead(rest)
      decreases |rest|
    {
      LineKeepsStart(rest);
      var n := LineLength(rest);
      var out := RewriteOne(t, Stripped(rest[..n]));
      HeadStep(t, rest, lines, out);
      lines := lines + out;
      rest := rest[n..];
    }
    assert lines + [] == lines;
    r := PrintLines(lines) + rest;
  }
}
