/** Text as lines: each ends at its newline, and a last one may lack it. */
module TextLines {

  // White space, as stripping takes it away.

  predicate IsWhite(c: char)
  {
    || '\U{9}' <= c <= '\U{D}' || '\U{1C}' <= c <= ' ' || c == '\U{85}' || c == '\U{A0}' || c == '\U{1680}'
    || '\U{2000}' <= c <= '\U{200A}' || c == '\U{2028}' || c == '\U{2029}' || c == '\U{202F}' || c == '\U{205F}'
    || c == '\U{3000}'
  }

  predicate Blank(s: string)
  {
    forall i | 0 <= i < |s| :: IsWhite(s[i])
  }

  /** How much white space a line starts with. */
  function Indent(line: string): (n: nat)
    ensures n <= |line|
  {
    if line != "" && IsWhite(line[0]) then 1 + Indent(line[1..]) else 0
  }

  lemma {:induction false} IndentExact(line: string)
    ensures Blank(line[..Indent(line)])
    ensures Indent(line) < |line| ==> !IsWhite(line[Indent(line)])
  {
    if line != "" && IsWhite(line[0]) {
      IndentExact(line[1..]);
      var n := Indent(line);
      forall i | 0 <= i < n ensures IsWhite(line[..n][i]) {
        assert i > 0 ==> line[i] == line[1..][..n - 1][i - 1];
      }
    }
  }

  // Lines.

  predicate NoNewline(s: string)
  {
    forall c | c in s :: c != '\n'
  }

  function Concat(lines: seq<string>): string
  {
    if lines == [] then "" else lines[0] + Concat(lines[1..])
  }

  /** The length of the first line, its newline included. */
  function LineLength(s: string): (n: nat)
    ensures n <= |s| && (s != "" ==> n > 0)
  {
    if s == "" then 0 else if s[0] == '\n' then 1 else 1 + LineLength(s[1..])
  }

  /** Iterating over a stream by line; a last line may lack its newline. */
  function SplitLines(s: string): seq<string>
  {
    if s == "" then [] else [s[..LineLength(s)]] + SplitLines(s[LineLength(s)..])
  }

  /** A line ends at its only newline. */
  ghost predicate IsLine(s: string)
  {
    s != "" && s[|s| - 1] == '\n' && NoNewline(s[..|s| - 1])
  }

  lemma {:induction false} LineLengthOf(s: string, rest: string)
    requires IsLine(s)
    ensures LineLength(s + rest) == |s|
  {
    if |s| > 1 {
      var init := s[..|s| - 1];
      assert init[0] in init && init[0] == s[0] && s[1..][..|s| - 2] == init[1..];
      forall c | c in init[1..] ensures c != '\n' {
        assert c in init;
      }
      LineLengthOf(s[1..], rest);
      assert (s + rest)[1..] == s[1..] + rest;
    }
  }

  /** The framing is exact: splitting the stream gives the lines back. */
  lemma {:induction false} SplitConcat(lines: seq<string>)
    requires forall s | s in lines :: IsLine(s)
    ensures SplitLines(Concat(lines)) == lines
  {
    if lines != [] {
      var s, rest := lines[0], Concat(lines[1..]);
      SplitConcat(lines[1..]);
      LineLengthOf(s, rest);
      assert (s + rest)[..|s|] == s && (s + rest)[|s|..] == rest;
    }
  }

  /** What splitting gives: only the last line may lack its newline. */
  ghost predicate WellSplit(lines: seq<string>)
  {
    && (forall i | 0 <= i < |lines| - 1 :: IsLine(lines[i]))
    && (lines != [] ==> var last := lines[|lines| - 1]; last != "" && NoNewline(last[..|last| - 1]))
  }

  lemma {:induction false} LineLengthAll(s: string)
    requires s != "" && NoNewline(s[..|s| - 1])
    ensures LineLength(s) == |s|
  {
    if |s| > 1 {
      var init := s[..|s| - 1];
      assert init[0] in init && init[0] == s[0] && s[1..][..|s| - 2] == init[1..];
      assert forall c | c in init[1..] :: c in init;
      LineLengthAll(s[1..]);
    }
  }

  lemma {:induction false} SplitWell(lines: seq<string>)
    requires WellSplit(lines)
    ensures SplitLines(Concat(lines)) == lines
  {
    if |lines| == 1 {
      LineLengthAll(lines[0]);
      assert lines == [lines[0]] && lines[0] + "" == lines[0];
    } else if |lines| > 1 {
      var s, rest := lines[0], Concat(lines[1..]);
      SplitWell(lines[1..]);
      LineLengthOf(s, rest);
      assert (s + rest)[..|s|] == s && (s + rest)[|s|..] == rest;
    }
  }

  lemma {:induction false} FirstLine(s: string)
    requires s != ""
    ensures NoNewline(s[..LineLength(s) - 1])
    ensures LineLength(s) < |s| ==> s[LineLength(s) - 1] == '\n'
  {
    if s[0] != '\n' && |s| > 1 {
      FirstLine(s[1..]);
      var n := LineLength(s);
      assert s[..n - 1] == [s[0]] + s[1..][..n - 2];
    }
  }

  /** Splitting loses nothing. */
  lemma {:induction false} ConcatSplit(s: string)
    ensures Concat(SplitLines(s)) == s && WellSplit(SplitLines(s))
    decreases |s|
  {
    if s != "" {
      var n := LineLength(s);
      ConcatSplit(s[n..]);
      FirstLineSplits(s);
      WellSplitCons(s[..n], SplitLines(s[n..]));
    }
  }

  lemma FirstLineSplits(s: string)
    requires s != ""
    ensures var first := s[..LineLength(s)];
            && s == first + s[LineLength(s)..] && NoNewline(first[..|first| - 1])
            && (LineLength(s) < |s| ==> first[|first| - 1] == '\n')
  {
    FirstLine(s);
    var n := LineLength(s);
    assert s[..n][..n - 1] == s[..n - 1] && s[..n][n - 1] == s[n - 1];
  }

  lemma WellSplitCons(first: string, rest: seq<string>)
    requires first != "" && NoNewline(first[..|first| - 1]) && WellSplit(rest)
    requires rest != [] ==> first[|first| - 1] == '\n'
    ensures WellSplit([first] + rest) && Concat([first] + rest) == first + Concat(rest)
  {
    assert ([first] + rest)[1..] == rest;
  }

  lemma LineSplits(line: string, rest: string)
    requires IsLine(line)
    ensures SplitLines(line + rest) == [line] + SplitLines(rest)
  {
    LineLengthOf(line, rest);
    assert (line + rest)[..|line|] == line && (line + rest)[|line|..] == rest;
  }

  predicate EndsLine(s: string)
  {
    s == "" || s[|s| - 1] == '\n'
  }

  lemma FirstIsLine(s: string, n: nat)
    requires s != "" && EndsLine(s) && n == LineLength(s)
    ensures IsLine(s[..n])
  {
    FirstLine(s);
    var line := s[..n];
    assert line[..n - 1] == s[..n - 1];
    assert line[n - 1] == '\n';
  }

  lemma RestEnds(s: string, n: nat)
    requires EndsLine(s) && n <= |s|
    ensures EndsLine(s[n..])
  {
  }

  lemma {:induction false} EndedLines(s: string)
    requires EndsLine(s)
    ensures forall l | l in SplitLines(s) :: IsLine(l)
    decreases |s|
  {
    if s != "" {
      var n := LineLength(s);
      FirstIsLine(s, n);
      RestEnds(s, n);
      EndedLines(s[n..]);
    }
  }

  lemma {:induction false} LinesSplit(lines: seq<string>, rest: string)
    requires forall l | l in lines :: IsLine(l)
    ensures SplitLines(Concat(lines) + rest) == lines + SplitLines(rest)
  {
    if lines == [] {
      assert "" + rest == rest;
    } else {
      var after := Concat(lines[1..]) + rest;
      assert lines[0] in lines && forall l | l in lines[1..] :: l in lines;
      LinesSplit(lines[1..], rest);
      LineSplits(lines[0], after);
      Associates(lines[0], Concat(lines[1..]), rest);
      Associates([lines[0]], lines[1..], SplitLines(rest));
      assert lines == [lines[0]] + lines[1..];
    }
  }

  lemma Associates<T>(a: seq<T>, b: seq<T>, c: seq<T>)
    ensures a + b + c == a + (b + c)
  {
  }

  /** Text that ends with a newline ends a line where it ends. */
  lemma SplitAppend(a: string, b: string)
    requires EndsLine(a)
    ensures SplitLines(a + b) == SplitLines(a) + SplitLines(b)
  {
    EndedLines(a);
    ConcatSplit(a);
    LinesSplit(SplitLines(a), b);
  }

  lemma {:induction false} ConcatAppend(a: seq<string>, b: seq<string>)
    ensures Concat(a + b) == Concat(a) + Concat(b)
  {
    if a == [] {
      assert a + b == b;
    } else {
      ConcatAppend(a[1..], b);
      Associates(a[0], Concat(a[1..]), Concat(b));
      assert (a + b)[1..] == a[1..] + b;
    }
  }

  lemma ConcatOne(l: string)
    ensures Concat([l]) == l
  {
    assert [l][1..] == [] && l + "" == l;
  }

  lemma SnocConcat(init: seq<string>, last: string)
    ensures Concat(init + [last]) == Concat(init) + last
  {
    ConcatAppend(init, [last]);
    ConcatOne(last);
  }

  // Lines without their newlines.

  /** A line without its newline. */
  function Stripped(line: string): string
  {
    if line != "" && line[|line| - 1] == '\n' then line[..|line| - 1] else line
  }

  function SourceLines(source: string): seq<string>
    decreases |source|
  {
    if source == "" then []
    else [Stripped(source[..LineLength(source)])] + SourceLines(source[LineLength(source)..])
  }

  lemma {:induction false} FirstLineNoNewline(s: string)
    ensures NoNewline(Stripped(s[..LineLength(s)]))
  {
    if s != "" && s[0] != '\n' {
      FirstLineNoNewline(s[1..]);
      var n := LineLength(s);
      var line, rest := s[..n], s[1..][..n - 1];
      assert line == [s[0]] + rest;
      if rest != "" {
        assert line[|line| - 1] == rest[|rest| - 1];
        assert line[..|line| - 1] == [s[0]] + rest[..|rest| - 1];
      }
    }
  }

  function Terminated(lines: seq<string>): seq<string>
  {
    seq(|lines|, i requires 0 <= i < |lines| => lines[i] + "\n")
  }

  lemma TerminatedCons(l: string, rest: seq<string>)
    ensures Concat(Terminated([l] + rest)) == (l + "\n") + Concat(Terminated(rest))
  {
    assert Terminated([l] + rest)[1..] == Terminated(rest);
  }

  /** Closed by a newline, if it was not. */
  function Ended(s: string): string
  {
    if EndsLine(s) then s else s + "\n"
  }

  lemma OneEnded(line: string, rest: string)
    requires line != "" && (line[|line| - 1] == '\n' || rest == "")
    ensures (Stripped(line) + "\n") + Ended(rest) == Ended(line + rest)
  {
    if line[|line| - 1] == '\n' {
      assert Stripped(line) + "\n" == line;
      Associates(line, rest, "\n");
    } else {
      assert line + rest == line;
      assert (line + "\n") + "" == line + "\n";
    }
  }

  /** A source is its lines, each closed by a newline that only the last may have lacked. */
  lemma {:induction false} SourceLinesExact(source: string)
    ensures forall l | l in SourceLines(source) :: NoNewline(l)
    ensures Concat(Terminated(SourceLines(source))) == Ended(source)
    decreases |source|
  {
    if source != "" {
      var n := LineLength(source);
      var line, rest := source[..n], source[n..];
      SourceLinesExact(rest);
      FirstLineNoNewline(source);
      FirstLine(source);
      TerminatedCons(Stripped(line), SourceLines(rest));
      OneEnded(line, rest);
      assert source == line + rest;
    }
  }
}
