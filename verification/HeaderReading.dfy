/** Reading the import header of a compiler source, line by line, up to the first line that is something else. */
module HeaderReading {
  import opened Wrappers
  import opened TextSearch
  import opened TextLines
  import opened ImportLines
  import opened WordSearch

  // One import line.

  const BRACE_FROM := "} from "

  /** What follows the members in braces, if there are any. */
  function AfterBraces(s: string): Option<string>
  {
    if s == "" || s[0] != '{' then Some(s)
    else
      match Find("}", s)
      case None => None
      case Some(k) => if BRACE_FROM <= s[k..] then Some(s[k + |BRACE_FROM|..]) else None
  }

  function WordRun(s: string): (n: nat)
    ensures n <= |s|
  {
    if s != "" && IsWordChar(s[0]) then 1 + WordRun(s[1..]) else 0
  }

  predicate StartsWord(s: string)
  {
    s != "" && IsWordChar(s[0]) && !('0' <= s[0] <= '9')
  }

  /** What follows an alias, if there is one. */
  function AfterAlias(s: string): string
  {
    if AS <= s && StartsWord(s[|AS|..]) then s[|AS|..][WordRun(s[|AS|..])..] else s
  }

  /** Nothing, or a comment. */
  predicate IsComment(s: string)
  {
    s == "" || (Indent(s) < |s| && s[Indent(s)] == '#')
  }

  /** The module that a line imports from, if the line is an import that can be read. */
  function ReadImport(line: string): Option<string>
  {
    if !(IMPORT <= line) then None
    else
      match AfterBraces(line[|IMPORT|..])
      case None => None
      case Some(s) =>
        var n := ModuleRun(s);
        if n > 0 && IsLower(s[0]) && IsComment(AfterAlias(s[n..])) then Some(s[..n]) else None
  }

  // What the pattern matches, part by part.

  predicate IsBraces(s: string)
  {
    s == "" || (|s| > |BRACE_FROM| && s[0] == '{' && EndsWith(s, BRACE_FROM) && '}' !in s[..|s| - |BRACE_FROM|])
  }

  predicate IsIdentifier(s: string)
  {
    StartsWord(s) && WordRun(s) == |s|
  }

  predicate IsAlias(s: string)
  {
    s == "" || (AS <= s && IsIdentifier(s[|AS|..]))
  }

  predicate Matches(line: string, braces: string, m: string, alias: string, comment: string)
  {
    && line == IMPORT + (braces + (m + (alias + comment)))
    && IsBraces(braces) && IsModule(m) && IsAlias(alias) && IsComment(comment)
  }

  lemma {:induction false} WordRunStops(w: string, rest: string)
    requires WordRun(w) == |w| && (rest == "" || !IsWordChar(rest[0]))
    ensures WordRun(w + rest) == |w|
  {
    if w == "" {
      assert w + rest == rest;
    } else {
      WordRunStops(w[1..], rest);
      assert (w + rest)[1..] == w[1..] + rest;
    }
  }

  lemma {:induction false} WordRunPrefix(s: string)
    ensures WordRun(s[..WordRun(s)]) == WordRun(s)
  {
    if s != "" && IsWordChar(s[0]) {
      WordRunPrefix(s[1..]);
      assert s[..WordRun(s)][1..] == s[1..][..WordRun(s[1..])];
    }
  }

  lemma CommentSecond(s: string)
    requires IsComment(s) && |s| >= 2 && IsWhite(s[0])
    ensures IsWhite(s[1]) || s[1] == '#'
  {
    assert Indent(s) == 1 + Indent(s[1..]);
  }

  lemma CommentStart(s: string)
    requires IsComment(s) && s != ""
    ensures (IsWhite(s[0]) || s[0] == '#') && !IsModuleChar(s[0]) && !IsWordChar(s[0]) && AfterAlias(s) == s
  {
    if |s| >= 2 && IsWhite(s[0]) {
      CommentSecond(s);
    }
  }

  lemma AliasEnds(alias: string, comment: string)
    requires IsAlias(alias) && IsComment(comment)
    ensures AfterAlias(alias + comment) == comment
  {
    if comment != "" {
      CommentStart(comment);
    }
    if alias == "" {
      assert alias + comment == comment;
    } else {
      var w := alias[|AS|..];
      WordRunStops(w, comment);
      assert (alias + comment)[|AS|..] == w + comment;
      assert (w + comment)[|w|..] == comment;
      assert AS <= alias + comment;
    }
  }

  lemma BracesEnd(braces: string, rest: string)
    requires IsBraces(braces) && rest != "" && rest[0] != '{'
    ensures AfterBraces(braces + rest) == Some(rest)
  {
    if braces == "" {
      assert braces + rest == rest;
    } else {
      var k := |braces| - |BRACE_FROM|;
      var s := braces + rest;
      assert braces[k..] == BRACE_FROM;
      assert s[k..] == BRACE_FROM + rest;
      assert s[k..k + 1] == "}";
      forall j | 0 <= j < k ensures !At("}", s, j) {
        assert s[j] == braces[..k][j];
      }
      FindIs("}", s, k);
      assert s[k + |BRACE_FROM|..] == rest;
    }
  }

  lemma ModuleEnds(s: string, m: string, alias: string, comment: string)
    requires s == m + (alias + comment) && IsModule(m) && IsAlias(alias) && IsComment(comment)
    ensures s != "" && s[0] == m[0] && ModuleRun(s) == |m| && s[..|m|] == m && AfterAlias(s[|m|..]) == comment
  {
    var tail := alias + comment;
    if comment != "" {
      CommentStart(comment);
    }
    assert tail != "" ==> !IsModuleChar(tail[0]);
    ModuleRunOf(m, tail);
    AliasEnds(alias, comment);
    assert s[|m|..] == tail;
  }

  lemma MatchReads(line: string, braces: string, m: string, alias: string, comment: string)
    requires Matches(line, braces, m, alias, comment)
    ensures ReadImport(line) == Some(m)
  {
    var s := m + (alias + comment);
    ModuleEnds(s, m, alias, comment);
    BracesEnd(braces, s);
    assert line[|IMPORT|..] == braces + s;
  }

  lemma BracesRead(s: string) returns (braces: string)
    requires AfterBraces(s).Some?
    ensures IsBraces(braces) && s == braces + AfterBraces(s).value
  {
    if s == "" || s[0] != '{' {
      braces := "";
    } else {
      var k := Find("}", s).value;
      braces := s[..k + |BRACE_FROM|];
      assert s[k..][..|BRACE_FROM|] == BRACE_FROM;
      assert braces[k..] == BRACE_FROM;
      forall j | 0 <= j < k ensures braces[..k][j] != '}' {
        assert !At("}", s, j);
        assert s[j..j + 1] == [s[j]];
      }
      assert k > 0 by {
        assert At("}", s, k);
        assert s[k..k + 1] == "}";
      }
    }
  }

  lemma AliasRead(s: string) returns (alias: string)
    ensures IsAlias(alias) && s == alias + AfterAlias(s)
  {
    if AS <= s && StartsWord(s[|AS|..]) {
      var n := WordRun(s[|AS|..]);
      alias := s[..|AS| + n];
      WordRunPrefix(s[|AS|..]);
      assert alias[|AS|..] == s[|AS|..][..n];
    } else {
      alias := "";
    }
  }

  lemma ModuleReads(s: string, m: string) returns (alias: string, comment: string)
    requires ModuleRun(s) > 0 && IsLower(s[0]) && m == s[..ModuleRun(s)] && IsComment(AfterAlias(s[|m|..]))
    ensures IsModule(m) && IsAlias(alias) && IsComment(comment) && s == m + (alias + comment)
  {
    ModuleRunPrefix(s);
    alias := AliasRead(s[|m|..]);
    comment := AfterAlias(s[|m|..]);
    PrefixSplits(m, s);
  }

  lemma ReadMatches(line: string, m: string) returns (braces: string, alias: string, comment: string)
    requires ReadImport(line) == Some(m)
    ensures Matches(line, braces, m, alias, comment)
  {
    var rest := line[|IMPORT|..];
    braces := BracesRead(rest);
    alias, comment := ModuleReads(AfterBraces(rest).value, m);
    PrefixSplits(IMPORT, line);
  }

  /** Reading finds the module exactly when the line falls into the parts of the pattern, and there is only one. */
  lemma ReadImportExact(line: string, m: string)
    ensures ReadImport(line) == Some(m) <==> exists braces, alias, comment :: Matches(line, braces, m, alias, comment)
  {
    if braces, alias, comment :| Matches(line, braces, m, alias, comment) {
      MatchReads(line, braces, m, alias, comment);
    }
    if ReadImport(line) == Some(m) {
      var braces, alias, comment := ReadMatches(line, m);
    }
  }

  // The header.

  /** A path without suffix, by its parts. */
  type Name = seq<string>

  /** An import: its line, its target, and whether it names a function that registers cases. */
  datatype Import = Import(line: nat, target: Name, registers: bool)

  /** Whether a declaration names a function that registers cases. */
  predicate Registers(line: string)
  {
    var declaration := Split(FROM, line)[0];
    Mentions("describe", declaration) || Mentions("test", declaration)
  }

  function ImportAt(number: nat, m: string, line: string): Import
  {
    Import(number, Split("/", m), Registers(line))
  }

  /** Lines that the header may hold besides imports. */
  predicate Skipped(line: string)
  {
    Blank(line) || line[0] == '#'
  }

  /** The imports of lines, the first of which has a number; none if an import line cannot be read. */
  function ReadLines(lines: seq<string>, number: nat): Option<seq<Import>>
  {
    if lines == [] then Some([])
    else if Skipped(lines[0]) then ReadLines(lines[1..], number + 1)
    else if !(IMPORT <= lines[0]) then Some([])
    else
      match ReadImport(lines[0])
      case None => None
      case Some(m) =>
        match ReadLines(lines[1..], number + 1)
        case None => None
        case Some(rest) => Some([ImportAt(number, m, lines[0])] + rest)
  }

  function ImportHeader(source: string): Option<seq<Import>>
  {
    ReadLines(SourceLines(source), 1)
  }

  function Extended(found: seq<Import>, rest: Option<seq<Import>>): Option<seq<Import>>
  {
    match rest case None => None case Some(more) => Some(found + more)
  }

  /** The header as it is read: line by line, until a line that is something else, or cannot be read. */
  method ReadHeader(source: string) returns (imports: Option<seq<Import>>)
    ensures imports == ImportHeader(source)
  {
    var lines := SourceLines(source);
    var found: seq<Import> := [];
    assert lines[0..] == lines;
    assert ImportHeader(source).Some? ==> found + ImportHeader(source).value == ImportHeader(source).value;
    for k := 0 to |lines|
      invariant Extended(found, ReadLines(lines[k..], k + 1)) == ImportHeader(source)
    {
      var line := lines[k];
      assert lines[k..][0] == line && lines[k..][1..] == lines[k + 1..];
      if Skipped(line) {
        continue;
      }
      if !(IMPORT <= line) {
        assert found + [] == found;
        return Some(found);
      }
      var m := ReadImport(line);
      if m.None? {
        return None;
      }
      Associates(found, [ImportAt(k + 1, m.value, line)],
        if ReadLines(lines[k + 1..], k + 2).Some? then ReadLines(lines[k + 1..], k + 2).value else []);
      found := found + [ImportAt(k + 1, m.value, line)];
    }
    assert found + [] == found;
    imports := Some(found);
  }

  // What is read.

  /** How many lines belong to the header. */
  function HeaderLength(lines: seq<string>): (n: nat)
    ensures n <= |lines|
    ensures forall k | 0 <= k < n :: Skipped(lines[k]) || IMPORT <= lines[k]
    ensures n < |lines| ==> !Skipped(lines[n]) && !(IMPORT <= lines[n])
  {
    if lines != [] && (Skipped(lines[0]) || IMPORT <= lines[0]) then 1 + HeaderLength(lines[1..]) else 0
  }

  /** A line of the header is an import, and can be read. */
  predicate ImportsAt(lines: seq<string>, k: nat)
  {
    k < HeaderLength(lines) && !Skipped(lines[k]) && ReadImport(lines[k]).Some?
  }

  function ImportOfLine(lines: seq<string>, number: nat, k: nat): Import
    requires ImportsAt(lines, k)
  {
    ImportAt(number + k, ReadImport(lines[k]).value, lines[k])
  }

  /** An import is that of its line in the header. */
  predicate IsImportOf(lines: seq<string>, number: nat, i: Import)
  {
    i.line >= number && ImportsAt(lines, i.line - number) && i == ImportOfLine(lines, number, i.line - number)
  }

  /** The imports are those of the import lines of the header, each once, in the order of their numbers. */
  ghost predicate HeaderIs(lines: seq<string>, number: nat, imports: seq<Import>)
  {
    && (forall i, j :: 0 <= i < j < |imports| ==> imports[i].line < imports[j].line)
    && (forall i | i in imports :: IsImportOf(lines, number, i))
    && (forall k: nat | ImportsAt(lines, k) :: ImportOfLine(lines, number, k) in imports)
  }

  lemma LaterLine(lines: seq<string>, number: nat, k: nat)
    requires lines != [] && (Skipped(lines[0]) || IMPORT <= lines[0]) && k > 0
    ensures ImportsAt(lines, k) <==> ImportsAt(lines[1..], k - 1)
    ensures ImportsAt(lines, k) ==> ImportOfLine(lines, number, k) == ImportOfLine(lines[1..], number + 1, k - 1)
  {
  }

  lemma LaterImport(lines: seq<string>, number: nat, i: Import)
    requires lines != [] && (Skipped(lines[0]) || IMPORT <= lines[0]) && IsImportOf(lines[1..], number + 1, i)
    ensures IsImportOf(lines, number, i) && i.line > number
  {
    LaterLine(lines, number, i.line - number);
  }

  lemma HeaderSkips(lines: seq<string>, number: nat, rest: seq<Import>)
    requires lines != [] && Skipped(lines[0]) && HeaderIs(lines[1..], number + 1, rest)
    ensures HeaderIs(lines, number, rest)
  {
    forall i | i in rest ensures IsImportOf(lines, number, i) {
      LaterImport(lines, number, i);
    }
    forall k: nat | ImportsAt(lines, k) ensures ImportOfLine(lines, number, k) in rest {
      LaterLine(lines, number, k);
    }
  }

  lemma FirstImport(lines: seq<string>, number: nat)
    requires lines != [] && !Skipped(lines[0]) && ReadImport(lines[0]).Some?
    ensures var first := ImportAt(number, ReadImport(lines[0]).value, lines[0]);
            && ImportsAt(lines, 0) && first == ImportOfLine(lines, number, 0)
            && first.line == number && IsImportOf(lines, number, first)
  {
  }

  lemma HeaderGrows(lines: seq<string>, number: nat, first: Import, rest: seq<Import>)
    requires lines != [] && IMPORT <= lines[0] && HeaderIs(lines[1..], number + 1, rest)
    requires ImportsAt(lines, 0) && first == ImportOfLine(lines, number, 0)
    requires first.line == number && IsImportOf(lines, number, first)
    ensures HeaderIs(lines, number, [first] + rest)
  {
    var imports := [first] + rest;
    forall i | i in rest ensures IsImportOf(lines, number, i) && i.line > number {
      LaterImport(lines, number, i);
    }
    FirstBefore(first, rest);
    forall k: nat | ImportsAt(lines, k) ensures ImportOfLine(lines, number, k) in imports {
      if k > 0 {
        LaterLine(lines, number, k);
      }
    }
  }

  lemma FirstBefore(first: Import, rest: seq<Import>)
    requires forall i, j :: 0 <= i < j < |rest| ==> rest[i].line < rest[j].line
    requires forall i | i in rest :: first.line < i.line
    ensures var all := [first] + rest; forall i, j :: 0 <= i < j < |all| ==> all[i].line < all[j].line
  {
    var all := [first] + rest;
    forall i, j | 0 <= i < j < |all| ensures all[i].line < all[j].line {
      assert all[j] == rest[j - 1] && rest[j - 1] in rest;
    }
  }

  /** Every import line of the header can be read. */
  predicate HeaderReadable(lines: seq<string>)
  {
    forall k | 0 <= k < HeaderLength(lines) :: Skipped(lines[k]) || ReadImport(lines[k]).Some?
  }

  lemma ReadableStep(lines: seq<string>)
    requires lines != [] && (Skipped(lines[0]) || IMPORT <= lines[0])
    ensures HeaderReadable(lines) <==> (Skipped(lines[0]) || ReadImport(lines[0]).Some?) && HeaderReadable(lines[1..])
  {
    if HeaderReadable(lines) {
      forall k | 0 <= k < HeaderLength(lines[1..]) ensures Skipped(lines[1..][k]) || ReadImport(lines[1..][k]).Some? {
        assert lines[1..][k] == lines[k + 1];
      }
    }
  }

  /**
   * The header is read exactly when each of its import lines can be, and gives the imports of those lines, each once,
   * in order, with their numbers.
   */
  lemma {:induction false} HeaderExact(lines: seq<string>, number: nat)
    ensures ReadLines(lines, number).Some? <==> HeaderReadable(lines)
    ensures ReadLines(lines, number).Some? ==> HeaderIs(lines, number, ReadLines(lines, number).value)
  {
    if lines != [] && (Skipped(lines[0]) || IMPORT <= lines[0]) {
      HeaderExact(lines[1..], number + 1);
      ReadableStep(lines);
      if ReadLines(lines, number).Some? {
        var rest := ReadLines(lines[1..], number + 1).value;
        if Skipped(lines[0]) {
          HeaderSkips(lines, number, rest);
        } else {
          FirstImport(lines, number);
          HeaderGrows(lines, number, ImportAt(number, ReadImport(lines[0]).value, lines[0]), rest);
        }
      }
    }
  }

  // What an import says.

  /** The target is the module's parts between slashes. */
  lemma TargetIs(number: nat, m: string, line: string)
    ensures var target := ImportAt(number, m, line).target;
            Join("/", target) == m && target != [] && forall part | part in target :: Lacks("/", part)
  {
    JoinSplit("/", m);
    SplitLacks("/", m);
  }

  /** Where the declaration of an import ends: at its first " from ", or with the line. */
  function DeclarationEnd(line: string): (n: nat)
    ensures n <= |line|
  {
    match Find(" from ", line) case None => |line| case Some(n) => n
  }

  /** It registers cases when "describe" or "test" stands in the declaration as a whole word. */
  lemma RegistersIs(line: string)
    ensures Registers(line) <==>
              || (exists i: nat :: StandsAt("describe", line[..DeclarationEnd(line)], i))
              || (exists i: nat :: StandsAt("test", line[..DeclarationEnd(line)], i))
  {
    var declaration := line[..DeclarationEnd(line)];
    assert Split(FROM, line)[0] == declaration;
    MentionsWholeWord("describe", declaration);
    MentionsWholeWord("test", declaration);
  }
}
