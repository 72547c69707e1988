/**
 * The import lines at the head of a compiler source: a named import lists members of one module, any other import
 * names a module and may be followed by more text.
 */
module ImportLines {
  import opened Wrappers
  import opened TextSearch
  import opened TextLines

  const IMPORT := "import "
  const OPEN := "import { "
  const FROM := " from "
  const COMMA := ", "
  const AS := " as "

  predicate IsLower(c: char)
  {
    'a' <= c <= 'z'
  }

  predicate IsNameChar(c: char)
  {
    IsLower(c) || '0' <= c <= '9' || c == '_'
  }

  predicate IsModuleChar(c: char)
  {
    IsNameChar(c) || c == '/'
  }

  function ModuleRun(s: string): (n: nat)
    ensures n <= |s|
  {
    if s != "" && IsModuleChar(s[0]) then 1 + ModuleRun(s[1..]) else 0
  }

  /** What the import pattern can match as a module. */
  predicate IsModule(s: string)
  {
    s != "" && IsLower(s[0]) && ModuleRun(s) == |s|
  }

  datatype ImportLine =
    | Named(inner: string, module_: string, tail: string)
    | Whole(module_: string, suffix: Option<string>)

  /** The named-import pattern, matched against the whole line. The member list has no closing brace in it. */
  function ParseNamed(l: string): (r: Option<ImportLine>)
    ensures r.Some? ==> r.value.Named?
  {
    if !(OPEN <= l) then None
    else
      var rest := l[|OPEN|..];
      var close := Find("}", rest);
      if close.None? || close.value < 2 || rest[close.value - 1] != ' ' then None
      else
        var after := rest[close.value + 1..];
        if !(FROM <= after) then None
        else
          var m := after[|FROM|..];
          if m == "" || !IsLower(m[0]) then None
          else Some(Named(rest[..close.value - 1], m[..ModuleRun(m)], m[ModuleRun(m)..]))
  }

  /** Any other import line: the second word, and what follows it. */
  function ParseWhole(l: string): (x: ImportLine)
    requires IMPORT <= l
    ensures x.Whole?
  {
    var rest := l[|IMPORT|..];
    match Find(" ", rest)
    case None => Whole(rest, None)
    case Some(i) => Whole(rest[..i], Some(rest[i + 1..]))
  }

  function ParseLine(l: string): ImportLine
    requires IMPORT <= l
  {
    if ParseNamed(l).Some? then ParseNamed(l).value else ParseWhole(l)
  }

  function PrintLine(x: ImportLine): string
  {
    match x
    case Named(inner, m, tail) => OPEN + inner + " }" + FROM + m + tail
    case Whole(m, suffix) => IMPORT + m + (if suffix.Some? then " " + suffix.value else "")
  }

  // Printing what was parsed gives the line back.

  lemma PrintParse(l: string)
    requires IMPORT <= l
    ensures PrintLine(ParseLine(l)) == l
  {
    if ParseNamed(l).Some? {
      var rest := l[|OPEN|..];
      var k := Find("}", rest).value;
      var after := rest[k + 1..];
      var m := after[|FROM|..];
      BraceSplits(rest, k);
      PrefixSplits(FROM, after);
      PrefixSplits(OPEN, l);
      PrintedParts(l, rest[..k - 1], after, m);
    } else {
      WholePrints(l);
    }
  }

  lemma PrefixSplits(p: string, s: string)
    requires p <= s
    ensures s == p + s[|p|..]
  {
  }

  lemma BraceSplits(rest: string, k: nat)
    requires 0 < k < |rest| && rest[k - 1] == ' ' && At("}", rest, k)
    ensures rest == rest[..k - 1] + " }" + rest[k + 1..]
  {
    assert rest[k..k + 1][0] == '}';
  }

  lemma PrintedParts(l: string, inner: string, after: string, m: string)
    requires l == OPEN + (inner + " }" + after) && after == FROM + m
    ensures l == OPEN + inner + " }" + FROM + m[..ModuleRun(m)] + m[ModuleRun(m)..]
  {
    var a, b := m[..ModuleRun(m)], m[ModuleRun(m)..];
    assert m == a + b;
    assert OPEN + (inner + " }" + (FROM + (a + b))) == OPEN + inner + " }" + FROM + a + b;
  }

  lemma WholePrints(l: string)
    requires IMPORT <= l
    ensures PrintLine(ParseWhole(l)) == l
  {
    var rest := l[|IMPORT|..];
    PrefixSplits(IMPORT, l);
    match Find(" ", rest)
    case None => Ends(IMPORT, rest);
    case Some(i) => SpaceSplits(IMPORT, rest, i);
  }

  lemma Ends(p: string, s: string)
    ensures p + s + "" == p + s
  {
  }

  lemma SpaceSplits(p: string, s: string, i: nat)
    requires At(" ", s, i)
    ensures p + s[..i] + (" " + s[i + 1..]) == p + s
  {
    assert s[i..i + 1][0] == ' ';
    assert s == s[..i] + (" " + s[i + 1..]);
  }

  // Parsing what was printed gives the import back, for a named import whose parts are plain.

  predicate PlainNamed(inner: string, m: string, tail: string)
  {
    inner != "" && Lacks("}", inner) && IsModule(m) && (tail == "" || !IsModuleChar(tail[0]))
  }

  lemma {:induction false} ModuleRunOf(m: string, tail: string)
    requires ModuleRun(m) == |m| && (tail == "" || !IsModuleChar(tail[0]))
    ensures ModuleRun(m + tail) == |m|
  {
    if m == "" {
      assert m + tail == tail;
    } else {
      ModuleRunOf(m[1..], tail);
      assert (m + tail)[1..] == m[1..] + tail;
    }
  }

  lemma BraceFound(inner: string, after: string)
    requires Lacks("}", inner)
    ensures Find("}", inner + " }" + after) == Some(|inner| + 1)
  {
    var s := inner + " ";
    forall j | 0 <= j <= |s| ensures !At("}", s, j) {
      if j < |inner| {
        AtWithin("}", s, inner, j, |inner|);
      } else if j == |inner| {
        assert s[j..j + 1][0] == ' ';
      }
    }
    FindNone("}", s);
    FirstSeparator("}", s, after);
    assert inner + " }" + after == s + "}" + after;
  }

  lemma ParsePrintNamed(inner: string, m: string, tail: string)
    requires PlainNamed(inner, m, tail)
    ensures ParseNamed(PrintLine(Named(inner, m, tail))) == Some(Named(inner, m, tail))
  {
    var after := FROM + (m + tail);
    var rest := inner + " }" + after;
    Regroup(OPEN, inner, m, tail);
    BraceFound(inner, after);
    ModuleRunOf(m, tail);
    assert IsLower((m + tail)[0]);
    RestParses(rest, inner, m, tail);
  }

  lemma Regroup(a: string, inner: string, m: string, tail: string)
    ensures a + inner + " }" + FROM + m + tail == a + (inner + " }" + (FROM + (m + tail)))
  {
  }

  lemma RestParses(rest: string, inner: string, m: string, tail: string)
    requires rest == inner + " }" + (FROM + (m + tail)) && inner != "" && m != ""
    requires Find("}", rest) == Some(|inner| + 1) && ModuleRun(m + tail) == |m| && IsLower((m + tail)[0])
    ensures ParseNamed(OPEN + rest) == Some(Named(inner, m, tail))
  {
    var k := |inner| + 1;
    var after := FROM + (m + tail);
    assert (OPEN + rest)[|OPEN|..] == rest;
    assert rest[k - 1] == ' ' && rest[k + 1..] == after && rest[..k - 1] == inner;
    assert after[|FROM|..] == m + tail;
    assert (m + tail)[..|m|] == m && (m + tail)[|m|..] == tail;
  }

  // What parsing guarantees of its parts.

  lemma {:induction false} ModuleRunPrefix(s: string)
    ensures ModuleRun(s[..ModuleRun(s)]) == ModuleRun(s)
    ensures ModuleRun(s) < |s| ==> !IsModuleChar(s[ModuleRun(s)])
  {
    if s != "" && IsModuleChar(s[0]) {
      ModuleRunPrefix(s[1..]);
      assert s[..ModuleRun(s)][1..] == s[1..][..ModuleRun(s[1..])];
    }
  }

  lemma PrefixLacks(sep: string, s: string, n: nat)
    requires sep != "" && n <= |s| && forall j | 0 <= j < n :: !At(sep, s, j)
    ensures Lacks(sep, s[..n])
  {
    forall j | 0 <= j <= n ensures !At(sep, s[..n], j) {
      if j + |sep| <= n {
        AtWithin(sep, s[..n], s, j, n);
      }
    }
    FindNone(sep, s[..n]);
  }

  lemma ParsedPlain(l: string)
    requires ParseNamed(l).Some?
    ensures var x := ParseNamed(l).value; PlainNamed(x.inner, x.module_, x.tail)
  {
    var rest := l[|OPEN|..];
    var k := Find("}", rest).value;
    var m := rest[k + 1..][|FROM|..];
    PrefixLacks("}", rest, k - 1);
    ModuleRunPrefix(m);
    assert m[..ModuleRun(m)][0] == m[0] by {
      assert IsModuleChar(m[0]);
    }
  }
}
