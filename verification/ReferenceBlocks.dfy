/** Finding the ref of each reference checkout in a workflow, by the indentation of its lines. */
module ReferenceBlocks {
  import opened Wrappers
  import opened TextLines

  function Leading(line: string, space: char): (n: nat)
    ensures n <= |line|
  {
    if line != "" && line[0] == space then 1 + Leading(line[1..], space) else 0
  }

  function Spaces(n: nat): string
  {
    seq(n, i => ' ')
  }

  const REPOSITORY := "repository:"
  const REFERENCE := "type-rb/type-rb"
  const REF := "ref:"

  function SkipSpaces(s: string): string
  {
    s[Leading(s, ' ')..]
  }

  function SkipQuote(s: string): string
  {
    if s != "" && (s[0] == '\'' || s[0] == '"') then s[1..] else s
  }

  /** What may follow the name of the repository. */
  predicate OnlyComment(s: string)
  {
    var rest := SkipSpaces(SkipQuote(s));
    rest == "" || rest[0] == '#'
  }

  /** What follows a prefix. */
  function After(prefix: string, s: string): Option<string>
  {
    if prefix <= s then Some(s[|prefix|..]) else None
  }

  /** The indentation of a line that checks out the reference repository. */
  function Checkout(line: string): Option<nat>
  {
    var n := Leading(line, ' ');
    match After(REPOSITORY, line[n..])
    case None => None
    case Some(value) =>
      match After(REFERENCE, SkipQuote(SkipSpaces(value)))
      case None => None
      case Some(rest) => if n > 0 && OnlyComment(rest) then Some(n) else None
  }

  function TrimEnd(s: string): string
  {
    if s != "" && s[|s| - 1] == ' ' then TrimEnd(s[..|s| - 1]) else s
  }

  /** The value of a ref at an indentation. */
  function RefAt(line: string, indent: nat): Option<string>
  {
    match After(Spaces(indent) + REF, line)
    case None => None
    case Some(value) => Some(TrimEnd(SkipSpaces(value)))
  }

  /** How checkouts and refs are told from other lines. */
  datatype Recognizer = Recognizer(checkout: string -> Option<nat>, refAt: (string, nat) -> Option<string>)

  function ReferenceLines(): Recognizer
  {
    Recognizer(Checkout, RefAt)
  }

  // Blocks.

  /** Whether a line belongs to a block of an indentation. */
  predicate InBlock(line: string, indent: nat)
  {
    Blank(line) || Indent(line) >= indent
  }

  /** The run of lines around one that belong to its block, as long as it can be. */
  ghost predicate IsWindow(lines: seq<string>, index: nat, indent: nat, start: nat, finish: nat)
  {
    && start <= index < finish <= |lines|
    && (forall k | start <= k < finish :: k != index ==> InBlock(lines[k], indent))
    && (start > 0 ==> !InBlock(lines[start - 1], indent))
    && (finish < |lines| ==> !InBlock(lines[finish], indent))
  }

  lemma WindowUnique(lines: seq<string>, index: nat, indent: nat, a: nat, b: nat, c: nat, d: nat)
    requires IsWindow(lines, index, indent, a, b) && IsWindow(lines, index, indent, c, d)
    ensures a == c && b == d
  {
  }

  function Up(lines: seq<string>, indent: nat, start: nat): (r: nat)
    requires start <= |lines|
    ensures r <= start
  {
    if start > 0 && InBlock(lines[start - 1], indent) then Up(lines, indent, start - 1) else start
  }

  function Down(lines: seq<string>, indent: nat, finish: nat): (r: nat)
    requires finish <= |lines|
    ensures finish <= r <= |lines|
    decreases |lines| - finish
  {
    if finish < |lines| && InBlock(lines[finish], indent) then Down(lines, indent, finish + 1) else finish
  }

  lemma {:induction false} UpStops(lines: seq<string>, indent: nat, start: nat)
    requires start <= |lines|
    ensures var r := Up(lines, indent, start);
            && (forall k | r <= k < start :: InBlock(lines[k], indent))
            && (r > 0 ==> !InBlock(lines[r - 1], indent))
  {
    if start > 0 && InBlock(lines[start - 1], indent) {
      UpStops(lines, indent, start - 1);
    }
  }

  lemma {:induction false} DownStops(lines: seq<string>, indent: nat, finish: nat)
    requires finish <= |lines|
    ensures var r := Down(lines, indent, finish);
            && (forall k | finish <= k < r :: InBlock(lines[k], indent))
            && (r < |lines| ==> !InBlock(lines[r], indent))
    decreases |lines| - finish
  {
    if finish < |lines| && InBlock(lines[finish], indent) {
      DownStops(lines, indent, finish + 1);
    }
  }

  lemma WindowOf(lines: seq<string>, index: nat, indent: nat)
    requires index < |lines|
    ensures IsWindow(lines, index, indent, Up(lines, indent, index), Down(lines, indent, index + 1))
  {
    UpStops(lines, indent, index);
    DownStops(lines, indent, index + 1);
  }

  /** The refs at an indentation, in order. */
  function RefsIn(w: Recognizer, lines: seq<string>, indent: nat): seq<string>
  {
    if lines == [] then []
    else
      var init, last := lines[..|lines| - 1], lines[|lines| - 1];
      match w.refAt(last, indent)
      case None => RefsIn(w, init, indent)
      case Some(value) => RefsIn(w, init, indent) + [value]
  }

  /** A line that checks out the reference repository, and its indentation. */
  datatype Site = Site(index: nat, indent: nat)

  /** The checkouts among the first n lines. */
  function Sites(w: Recognizer, lines: seq<string>, n: nat): (sites: seq<Site>)
    requires n <= |lines|
    ensures forall s | s in sites :: s.index < n
  {
    if n == 0 then []
    else
      Sites(w, lines, n - 1)
      + (match w.checkout(lines[n - 1]) case None => [] case Some(indent) => [Site(n - 1, indent)])
  }

  /** The one ref of a checkout, if there is exactly one. */
  function RefOf(w: Recognizer, lines: seq<string>, s: Site): Option<string>
    requires s.index < |lines|
  {
    var values := RefsIn(w, lines[Up(lines, s.indent, s.index)..Down(lines, s.indent, s.index + 1)], s.indent);
    if |values| == 1 then Some(values[0]) else None
  }

  /** The refs of checkouts; none if some checkout has not exactly one. */
  function RefsOf(w: Recognizer, lines: seq<string>, sites: seq<Site>): Option<seq<string>>
    requires forall s | s in sites :: s.index < |lines|
  {
    if sites == [] then Some([])
    else
      var last := sites[|sites| - 1];
      assert last in sites;
      match RefsOf(w, lines, sites[..|sites| - 1])
      case None => None
      case Some(refs) => if RefOf(w, lines, last).Some? then Some(refs + [RefOf(w, lines, last).value]) else None
  }

  /** The refs of the checkouts among the first n lines. */
  function RefsBefore(w: Recognizer, lines: seq<string>, n: nat): Option<seq<string>>
    requires n <= |lines|
  {
    RefsOf(w, lines, Sites(w, lines, n))
  }

  function References(w: Recognizer, lines: seq<string>): Option<seq<string>>
  {
    RefsBefore(w, lines, |lines|)
  }

  method FindRefs(w: Recognizer, lines: seq<string>, indent: nat) returns (values: seq<string>)
    ensures values == RefsIn(w, lines, indent)
  {
    values := [];
    for k := 0 to |lines|
      invariant values == RefsIn(w, lines[..k], indent)
    {
      assert lines[..k + 1][..k] == lines[..k];
      var value := w.refAt(lines[k], indent);
      if value.Some? {
        values := values + [value.value];
      }
    }
    assert lines[..|lines|] == lines;
  }

  /** The window around a checkout, found by moving its ends. */
  method Window(lines: seq<string>, index: nat, indent: nat) returns (start: nat, finish: nat)
    requires index < |lines|
    ensures IsWindow(lines, index, indent, start, finish)
  {
    start, finish := index, index + 1;
    while start > 0 && InBlock(lines[start - 1], indent)
      invariant start <= index && forall k | start <= k < index :: InBlock(lines[k], indent)
    {
      start := start - 1;
    }
    while finish < |lines| && InBlock(lines[finish], indent)
      invariant index < finish <= |lines| && forall k | index < k < finish :: InBlock(lines[k], indent)
    {
      finish := finish + 1;
    }
  }

  method CheckoutRef(w: Recognizer, lines: seq<string>, s: Site) returns (value: Option<string>)
    requires s.index < |lines|
    ensures value == RefOf(w, lines, s)
  {
    var start, finish := Window(lines, s.index, s.indent);
    WindowOf(lines, s.index, s.indent);
    WindowUnique(lines, s.index, s.indent, start, finish,
      Up(lines, s.indent, s.index), Down(lines, s.indent, s.index + 1));
    var values := FindRefs(w, lines[start..finish], s.indent);
    value := if |values| == 1 then Some(values[0]) else None;
  }

  /** One line of the scan: a checkout adds its ref, or stops the scan. */
  method ScanLine(w: Recognizer, lines: seq<string>, index: nat, found: seq<string>) returns (next: Option<seq<string>>)
    requires index < |lines| && RefsBefore(w, lines, index) == Some(found)
    ensures next == RefsBefore(w, lines, index + 1)
  {
    var indent := w.checkout(lines[index]);
    if indent.None? {
      SitesNext(w, lines, index);
      return Some(found);
    }
    var value := CheckoutRef(w, lines, Site(index, indent.value));
    FoundNext(w, lines, index, indent.value, found, value);
    next := if value.Some? then Some(found + [value.value]) else None;
  }

  method ReferencesFor(w: Recognizer, lines: seq<string>) returns (refs: Option<seq<string>>)
    ensures refs == References(w, lines)
  {
    var found: seq<string> := [];
    for index := 0 to |lines|
      invariant RefsBefore(w, lines, index) == Some(found)
    {
      var next := ScanLine(w, lines, index, found);
      if next.None? {
        RefusedStays(w, lines, index + 1, |lines|);
        return None;
      }
      found := next.value;
    }
    refs := Some(found);
  }

  lemma SitesNext(w: Recognizer, lines: seq<string>, n: nat)
    requires n < |lines|
    ensures w.checkout(lines[n]).None? ==> Sites(w, lines, n + 1) == Sites(w, lines, n)
    ensures w.checkout(lines[n]).Some? ==>
              Sites(w, lines, n + 1) == Sites(w, lines, n) + [Site(n, w.checkout(lines[n]).value)]
  {
  }

  lemma RefsSnoc(w: Recognizer, lines: seq<string>, sites: seq<Site>, last: Site)
    requires last.index < |lines| && forall s | s in sites :: s.index < |lines|
    ensures forall s | s in sites + [last] :: s.index < |lines|
    ensures RefsOf(w, lines, sites + [last])
         == match RefsOf(w, lines, sites)
            case None => None
            case Some(refs) => if RefOf(w, lines, last).Some? then Some(refs + [RefOf(w, lines, last).value]) else None
  {
    assert (sites + [last])[..|sites|] == sites;
  }

  lemma FoundNext(w: Recognizer, lines: seq<string>, n: nat, indent: nat, found: seq<string>, value: Option<string>)
    requires n < |lines| && w.checkout(lines[n]) == Some(indent) && RefOf(w, lines, Site(n, indent)) == value
    requires RefsBefore(w, lines, n) == Some(found)
    ensures RefsBefore(w, lines, n + 1) == if value.Some? then Some(found + [value.value]) else None
  {
    SitesNext(w, lines, n);
    RefsSnoc(w, lines, Sites(w, lines, n), Site(n, indent));
  }

  lemma {:induction false} RefusedLonger(w: Recognizer, lines: seq<string>, a: seq<Site>, b: seq<Site>)
    requires forall s | s in a + b :: s.index < |lines|
    requires (forall s | s in a :: s.index < |lines|) && RefsOf(w, lines, a).None?
    ensures RefsOf(w, lines, a + b).None?
  {
    if b == [] {
      assert a + b == a;
    } else {
      var init := b[..|b| - 1];
      assert a + b == a + init + [b[|b| - 1]];
      RefusedLonger(w, lines, a, init);
      RefsSnoc(w, lines, a + init, b[|b| - 1]);
    }
  }

  lemma {:induction false} SitesPrefix(w: Recognizer, lines: seq<string>, k: nat, n: nat)
    requires k <= n <= |lines|
    ensures Sites(w, lines, k) <= Sites(w, lines, n)
  {
    if k < n {
      SitesPrefix(w, lines, k, n - 1);
    }
  }

  lemma RefusedPrefix(w: Recognizer, lines: seq<string>, a: seq<Site>, all: seq<Site>)
    requires a <= all && (forall s | s in all :: s.index < |lines|) && (forall s | s in a :: s.index < |lines|)
    requires RefsOf(w, lines, a).None?
    ensures RefsOf(w, lines, all).None?
  {
    assert a + all[|a|..] == all;
    RefusedLonger(w, lines, a, all[|a|..]);
  }

  lemma RefusedStays(w: Recognizer, lines: seq<string>, k: nat, n: nat)
    requires k <= n <= |lines| && RefsBefore(w, lines, k).None?
    ensures RefsBefore(w, lines, n).None?
  {
    SitesPrefix(w, lines, k, n);
    RefusedPrefix(w, lines, Sites(w, lines, k), Sites(w, lines, n));
  }

  // What a scan that succeeds has found.

  lemma {:induction false} NoRefs(w: Recognizer, lines: seq<string>, indent: nat)
    ensures RefsIn(w, lines, indent) == [] <==> forall j | 0 <= j < |lines| :: w.refAt(lines[j], indent).None?
  {
    if lines != [] {
      NoRefs(w, lines[..|lines| - 1], indent);
    }
  }

  /** The only line of several that has a ref. */
  ghost predicate OnlyRef(w: Recognizer, lines: seq<string>, indent: nat, k: nat, value: string)
  {
    && k < |lines| && w.refAt(lines[k], indent) == Some(value)
    && forall j | 0 <= j < |lines| && j != k :: w.refAt(lines[j], indent).None?
  }

  lemma {:induction false} OneRef(w: Recognizer, lines: seq<string>, indent: nat) returns (k: nat)
    requires |RefsIn(w, lines, indent)| == 1
    ensures OnlyRef(w, lines, indent, k, RefsIn(w, lines, indent)[0])
  {
    var init, last := lines[..|lines| - 1], lines[|lines| - 1];
    if w.refAt(last, indent).Some? {
      NoRefs(w, init, indent);
      k := |lines| - 1;
    } else {
      k := OneRef(w, init, indent);
    }
  }

  lemma {:induction false} OnlyRefFound(w: Recognizer, lines: seq<string>, indent: nat, k: nat, value: string)
    requires OnlyRef(w, lines, indent, k, value)
    ensures RefsIn(w, lines, indent) == [value]
  {
    var init, last := lines[..|lines| - 1], lines[|lines| - 1];
    if k == |lines| - 1 {
      NoRefs(w, init, indent);
    } else {
      OnlyRefFound(w, init, indent, k, value);
    }
  }

  /** The ref of a checkout is the only one, at its indentation, in its own block; the block is unique. */
  ghost predicate IsRefOf(w: Recognizer, lines: seq<string>, s: Site, value: string)
  {
    exists start: nat, finish: nat, k: nat :: IsRefIn(w, lines, s, start, finish, k, value)
  }

  ghost predicate IsRefIn(w: Recognizer, lines: seq<string>, s: Site, start: nat, finish: nat, k: nat, value: string)
  {
    IsWindow(lines, s.index, s.indent, start, finish) && OnlyRef(w, lines[start..finish], s.indent, k, value)
  }

  lemma RefOfIs(w: Recognizer, lines: seq<string>, s: Site, value: string)
    requires s.index < |lines|
    ensures RefOf(w, lines, s) == Some(value) <==> IsRefOf(w, lines, s, value)
  {
    var a, b := Up(lines, s.indent, s.index), Down(lines, s.indent, s.index + 1);
    WindowOf(lines, s.index, s.indent);
    if RefOf(w, lines, s) == Some(value) {
      var k := OneRef(w, lines[a..b], s.indent);
      assert IsRefIn(w, lines, s, a, b, k, value);
    }
    if start: nat, finish: nat, k: nat :| IsRefIn(w, lines, s, start, finish, k, value) {
      WindowUnique(lines, s.index, s.indent, start, finish, a, b);
      OnlyRefFound(w, lines[a..b], s.indent, k, value);
    }
  }

  /** One value for each site, in order, each its ref. */
  ghost predicate AreRefsOf(w: Recognizer, lines: seq<string>, sites: seq<Site>, refs: seq<string>)
  {
    |refs| == |sites| && forall k | 0 <= k < |refs| :: IsRefOf(w, lines, sites[k], refs[k])
  }

  lemma OneMoreRef(w: Recognizer, lines: seq<string>, sites: seq<Site>, last: Site, refs: seq<string>, value: string)
    ensures AreRefsOf(w, lines, sites + [last], refs + [value])
       <==> AreRefsOf(w, lines, sites, refs) && IsRefOf(w, lines, last, value)
  {
    var all, values := sites + [last], refs + [value];
    if AreRefsOf(w, lines, all, values) {
      assert IsRefOf(w, lines, all[|sites|], values[|refs|]);
      forall k | 0 <= k < |refs| ensures IsRefOf(w, lines, sites[k], refs[k]) {
        assert IsRefOf(w, lines, all[k], values[k]);
      }
    }
    if AreRefsOf(w, lines, sites, refs) && IsRefOf(w, lines, last, value) {
      forall k | 0 <= k < |values| ensures IsRefOf(w, lines, all[k], values[k]) {
        if k < |refs| {
          assert IsRefOf(w, lines, sites[k], refs[k]);
        }
      }
    }
  }

  lemma {:induction false} RefsExact(w: Recognizer, lines: seq<string>, sites: seq<Site>, refs: seq<string>)
    requires forall s | s in sites :: s.index < |lines|
    ensures RefsOf(w, lines, sites) == Some(refs) <==> AreRefsOf(w, lines, sites, refs)
  {
    if sites != [] && refs != [] {
      var init, last := sites[..|sites| - 1], sites[|sites| - 1];
      var before, value := refs[..|refs| - 1], refs[|refs| - 1];
      assert last in sites && init + [last] == sites && before + [value] == refs;
      RefsExact(w, lines, init, before);
      RefOfIs(w, lines, last, value);
      OneMoreRef(w, lines, init, last, before, value);
      if RefsOf(w, lines, init).Some? && RefOf(w, lines, last).Some? {
        SnocEqual(RefsOf(w, lines, init).value, RefOf(w, lines, last).value, before, value);
      }
    } else {
      RefsCount(w, lines, sites);
    }
  }

  lemma SnocEqual(a: seq<string>, x: string, b: seq<string>, y: string)
    ensures a + [x] == b + [y] <==> a == b && x == y
  {
    if a + [x] == b + [y] {
      assert a == (a + [x])[..|a|] && b == (b + [y])[..|b|];
      assert (a + [x])[|a|] == x && (b + [y])[|b|] == y;
    }
  }

  lemma {:induction false} RefsCount(w: Recognizer, lines: seq<string>, sites: seq<Site>)
    requires forall s | s in sites :: s.index < |lines|
    ensures RefsOf(w, lines, sites).Some? ==> |RefsOf(w, lines, sites).value| == |sites|
  {
    if sites != [] {
      RefsCount(w, lines, sites[..|sites| - 1]);
    }
  }

  /** A scan succeeds with one ref for each checkout, in order, each the only one in the block of its checkout. */
  lemma ReferencesExact(w: Recognizer, lines: seq<string>, refs: seq<string>)
    ensures References(w, lines) == Some(refs) <==> AreRefsOf(w, lines, Sites(w, lines, |lines|), refs)
  {
    RefsExact(w, lines, Sites(w, lines, |lines|), refs);
  }

  /**
   * The refs of a workflow, from its text: one for each checkout of the reference repository, in order, each the only
   * one in the block of its checkout; refused when there are none such.
   */
  method ReferenceRefs(source: string) returns (refs: Option<seq<string>>)
    ensures var w, lines := ReferenceLines(), SourceLines(source);
            var sites := Sites(w, lines, |lines|);
            && (refs.Some? ==> AreRefsOf(w, lines, sites, refs.value))
            && (refs.None? ==> forall values :: !AreRefsOf(w, lines, sites, values))
  {
    var w, lines := ReferenceLines(), SourceLines(source);
    refs := ReferencesFor(w, lines);
    forall values
      ensures References(w, lines) == Some(values) <==> AreRefsOf(w, lines, Sites(w, lines, |lines|), values)
    {
      ReferencesExact(w, lines, values);
    }
  }

  /** The checkouts are the lines that check out the repository, in order. */
  lemma {:induction false} SitesExact(w: Recognizer, lines: seq<string>, n: nat)
    requires n <= |lines|
    ensures forall s | s in Sites(w, lines, n) :: s.index < n && w.checkout(lines[s.index]) == Some(s.indent)
    ensures forall i | 0 <= i < n && w.checkout(lines[i]).Some? ::
              Site(i, w.checkout(lines[i]).value) in Sites(w, lines, n)
    ensures forall j, k | 0 <= j < k < |Sites(w, lines, n)| :: Sites(w, lines, n)[j].index < Sites(w, lines, n)[k].index
  {
    if n > 0 {
      SitesExact(w, lines, n - 1);
      forall i | 0 <= i < n && w.checkout(lines[i]).Some?
        ensures Site(i, w.checkout(lines[i]).value) in Sites(w, lines, n)
      {
      }
    }
  }

  // The lines that are recognised.

  lemma {:induction false} SpacesLead(n: nat, rest: string)
    requires rest == "" || rest[0] != ' '
    ensures Leading(Spaces(n) + rest, ' ') == n && SkipSpaces(Spaces(n) + rest) == rest
  {
    if n == 0 {
      assert Spaces(0) + rest == rest;
    } else {
      SpacesLead(n - 1, rest);
      assert (Spaces(n) + rest)[1..] == Spaces(n - 1) + rest;
    }
    assert (Spaces(n) + rest)[n..] == rest;
  }

  lemma AfterPrefix(prefix: string, rest: string)
    ensures After(prefix, prefix + rest) == Some(rest)
  {
  }

  lemma {:induction false} TrimSpaces(value: string, n: nat)
    requires value == "" || value[|value| - 1] != ' '
    ensures TrimEnd(value + Spaces(n)) == value
  {
    if n == 0 {
      assert value + Spaces(0) == value;
    } else {
      TrimSpaces(value, n - 1);
      assert (value + Spaces(n))[..|value| + n - 1] == value + Spaces(n - 1);
    }
  }

  /** A ref reads back, without the spaces around it. */
  lemma RefReads(indent: nat, before: nat, value: string, after: nat)
    requires value != "" && value[0] != ' ' && value[|value| - 1] != ' '
    ensures RefAt(Spaces(indent) + REF + (Spaces(before) + (value + Spaces(after))), indent) == Some(value)
  {
    var text := Spaces(before) + (value + Spaces(after));
    AfterPrefix(Spaces(indent) + REF, text);
    SpacesLead(before, value + Spaces(after));
    TrimSpaces(value, after);
  }

  // Blocks of one indentation.

  /** A line that checks out the repository belongs to a block of its own indentation. */
  lemma {:induction false} SpacesIndent(line: string)
    ensures Indent(line) >= Leading(line, ' ')
  {
    if line != "" && line[0] == ' ' {
      SpacesIndent(line[1..]);
    }
  }

  /** The blocks of two checkouts of one indentation are the same, or apart. */
  lemma BlocksSameOrApart(lines: seq<string>, i: nat, j: nat, a: nat, b: nat, c: nat, d: nat)
    requires i < j < |lines| && Checkout(lines[i]).Some? && Checkout(lines[j]) == Checkout(lines[i])
    requires IsWindow(lines, i, Checkout(lines[i]).value, a, b) && IsWindow(lines, j, Checkout(lines[i]).value, c, d)
    ensures (a == c && b == d) || b <= c
  {
    var indent := Checkout(lines[i]).value;
    SpacesIndent(lines[i]);
    SpacesIndent(lines[j]);
    if b > c {
      forall k | i < k <= j ensures InBlock(lines[k], indent) {
        assert k < b || k >= c;
      }
      WindowReaches(lines, i, j, indent, a, b);
      WindowUnique(lines, j, indent, a, b, c, d);
    }
  }

  lemma WindowReaches(lines: seq<string>, i: nat, j: nat, indent: nat, a: nat, b: nat)
    requires IsWindow(lines, i, indent, a, b) && i < j < |lines| && InBlock(lines[i], indent)
    requires forall k | i < k <= j :: InBlock(lines[k], indent)
    ensures IsWindow(lines, j, indent, a, b)
  {
  }
}
