/** What the generated functions return: the tables as they are read back from the block and from the spliced file. */
module GeneratedData {
  import opened Wrappers
  import opened TextSearch
  import opened TextLines
  import opened DiagnosticRanges
  import opened MarkerSplice
  import opened DiagnosticTable

  // Reading a generated function.

  const RETURN := "\treturn \""

  /** The text that a line returns in quotation marks. */
  function Quoted(line: string): Option<string>
  {
    if RETURN <= line && |line| > |RETURN| && line[|line| - 1] == '"'
    then Some(line[|RETURN|..|line| - 1])
    else None
  }

  /** What the function of a name returns: the text on the line after its definition. */
  function Returned(lines: seq<string>, name: string): Option<string>
  {
    if |lines| < 2 then None
    else if lines[0] == "def _diagnostic_" + name + "_data(): String" then Quoted(lines[1])
    else Returned(lines[1..], name)
  }

  /** The same for a text with generated data, from its first begin marker on. */
  function DataOf(text: string, name: string): Option<string>
  {
    match Find(BEGIN, text)
    case None => None
    case Some(i) => Returned(Split("\n", text[i..]), name)
  }

  lemma QuotedReads(value: string)
    ensures Quoted(RETURN + value + "\"") == Some(value)
  {
    var line := RETURN + value + "\"";
    assert line[|RETURN|..|line| - 1] == value;
    assert RETURN <= line;
  }

  lemma {:induction false} ReturnedAfter(pre: seq<string>, name: string, value: string, rest: seq<string>)
    requires forall l | l in pre :: l != Header(name)
    ensures Returned(pre + ([Header(name), RETURN + value + "\""] + rest), name) == Some(value)
  {
    var after := [Header(name), RETURN + value + "\""] + rest;
    if pre == [] {
      assert pre + after == after;
      QuotedReads(value);
    } else {
      assert pre[0] in pre && forall l | l in pre[1..] :: l in pre;
      ReturnedAfter(pre[1..], name, value, rest);
      assert (pre + after)[1..] == pre[1..] + after;
    }
  }

  // The lines of a block, and of what follows it.

  lemma {:induction false} JoinTail(sep: string, parts: seq<string>, x: string, y: string)
    ensures Join(sep, parts + [x]) + y == Join(sep, parts + [x + y])
  {
    if parts != [] {
      JoinTail(sep, parts[1..], x, y);
      assert (parts + [x])[1..] == parts[1..] + [x] && (parts + [x + y])[1..] == parts[1..] + [x + y];
      Associates(parts[0] + sep, Join(sep, parts[1..] + [x]), y);
    }
  }

  lemma JoinMore(sep: string, first: string, rest: seq<string>)
    requires rest != []
    ensures Join(sep, [first] + rest) == first + sep + Join(sep, rest)
  {
    assert ([first] + rest)[1..] == rest;
  }

  predicate Splits(sep: string, parts: seq<string>, t: string)
    requires sep != ""
  {
    Split(sep, Join(sep, parts + [t])) == parts + Split(sep, t)
  }

  lemma SplitMore(sep: string, first: string, rest: seq<string>, t: string)
    requires NoBorder(sep) && Lacks(sep, first) && Splits(sep, rest, t)
    ensures Splits(sep, [first] + rest, t)
  {
    Associates([first], rest, [t]);
    JoinMore(sep, first, rest + [t]);
    SplitFirst(sep, first, Join(sep, rest + [t]));
    Associates([first], rest, Split(sep, t));
  }

  lemma SplitNone(sep: string, t: string)
    requires sep != ""
    ensures Splits(sep, [], t)
  {
    assert [] + [t] == [t] && [] + Split(sep, t) == Split(sep, t);
  }

  lemma {:induction false} SplitJoinTail(sep: string, parts: seq<string>, t: string)
    requires NoBorder(sep) && forall part | part in parts :: Lacks(sep, part)
    ensures Splits(sep, parts, t)
  {
    if parts == [] {
      SplitNone(sep, t);
    } else {
      assert parts[0] in parts && forall part | part in parts[1..] :: part in parts;
      SplitJoinTail(sep, parts[1..], t);
      SplitMore(sep, parts[0], parts[1..], t);
      assert [parts[0]] + parts[1..] == parts;
    }
  }

  lemma LacksBreak(s: string)
    requires NoNewline(s)
    ensures Lacks("\n", s)
  {
    forall j | 0 <= j <= |s| ensures !At("\n", s, j) {
      if j < |s| {
        assert s[j..j + 1][0] == s[j] && s[j] in s;
      }
    }
    FindNone("\n", s);
  }

  lemma NoBreakJoin(a: string, b: string)
    requires NoNewline(a) && NoNewline(b)
    ensures NoNewline(a + b)
  {
  }

  lemma HexNoBreak(s: string)
    requires AllHex(s)
    ensures NoNewline(s)
  {
  }

  lemma OriginNoBreak()
    ensures NoNewline("#" + ORIGIN)
  {
    NoBreakJoin(" Generated by ", "tools/json-diagnostic-data.py");
    NoBreakJoin(" Generated by " + "tools/json-diagnostic-data.py", "; do not edit by hand.");
    NoBreakJoin("#", ORIGIN);
  }

  lemma LegendNoBreak()
    ensures NoNewline("#" + LEGEND)
  {
    NoBreakJoin(" Ordered ranges ", "encode six hexadecimal digits ");
    NoBreakJoin(" Ordered ranges " + "encode six hexadecimal digits ", "for each bound.");
    NoBreakJoin("#", LEGEND);
  }

  lemma VersionNoBreak(version: string)
    requires NoNewline(version)
    ensures NoNewline(VersionComment(version))
  {
    NoBreakJoin("# Go Unicode ", version);
    NoBreakJoin("# Go Unicode " + version, ": printable runes and whitespace.");
  }

  lemma HeaderNoBreak(name: string)
    requires NoNewline(name)
    ensures NoNewline(Header(name))
  {
    NoBreakJoin("def _diagnostic_", name);
    NoBreakJoin("def _diagnostic_" + name, "_data(): String");
  }

  lemma ReturnNoBreak(value: string)
    requires NoNewline(value)
    ensures NoNewline(RETURN + value + "\"")
  {
    NoBreakJoin(RETURN, value);
    NoBreakJoin(RETURN + value, "\"");
  }

  lemma BeginNoBreak()
    ensures NoNewline(BEGIN)
  {
    forall c | c in BEGIN ensures c != '\n' {
      var i :| 0 <= i < |BEGIN| && BEGIN[i] == c;
      MarkerOneLine(i);
    }
  }

  /** The lines of a block, all but the last, which the end marker stands on. */
  function Lines(version: string, printable: string, space: string): seq<string>
  {
    [BEGIN, "#" + ORIGIN, VersionComment(version), "#" + LEGEND, "",
     Header("printable"), RETURN + printable + "\"", "end", "",
     Header("space"), RETURN + space + "\"", "end"]
  }

  lemma BlockIsLines(version: string, printable: string, space: string, after: string)
    ensures Block(version, printable, space) + after
         == Join("\n", Lines(version, printable, space) + [END + after])
  {
    var lines := Lines(version, printable, space);
    assert BlockLines(version, printable, space) == lines + [""];
    JoinTail("\n", lines, "", END);
    JoinTail("\n", lines, END, after);
    assert "" + END == END;
  }

  /** A version that is one line without a number sign. */
  predicate Plain(version: string)
  {
    NoHash(version) && NoNewline(version)
  }

  lemma LinesLack(version: string, printable: string, space: string)
    requires Plain(version) && AllHex(printable) && AllHex(space)
    ensures forall l | l in Lines(version, printable, space) :: Lacks("\n", l)
  {
    var lines := Lines(version, printable, space);
    BeginNoBreak();
    OriginNoBreak();
    VersionNoBreak(version);
    LegendNoBreak();
    HeaderNoBreak("printable");
    HeaderNoBreak("space");
    HexNoBreak(printable);
    HexNoBreak(space);
    ReturnNoBreak(printable);
    ReturnNoBreak(space);
    forall i | 0 <= i < |lines| ensures NoNewline(lines[i]) {
    }
    forall l | l in lines ensures Lacks("\n", l) {
      LacksBreak(l);
    }
  }

  lemma ReturnedIn(lines: seq<string>, tail: seq<string>, name: string, value: string, k: nat)
    requires k + 2 <= |lines| && lines[k] == Header(name) && lines[k + 1] == RETURN + value + "\""
    requires forall i | 0 <= i < k :: lines[i] != Header(name)
    ensures Returned(lines + tail, name) == Some(value)
  {
    ReturnedAfter(lines[..k], name, value, lines[k + 2..] + tail);
    assert lines + tail == lines[..k] + ([lines[k], lines[k + 1]] + (lines[k + 2..] + tail));
  }

  /** The lines before a definition are others. */
  lemma OtherLines(version: string, printable: string, space: string)
    ensures var lines := Lines(version, printable, space);
            && (forall i | 0 <= i < 5 :: lines[i] != Header("printable"))
            && (forall i | 0 <= i < 9 :: lines[i] != Header("space"))
  {
    var lines := Lines(version, printable, space);
    assert Header("printable")[0] == 'd' && Header("space")[0] == 'd';
    assert Header("printable")[16] == 'p' && Header("space")[16] == 's';
    assert BEGIN[0] == '#' && VersionComment(version)[0] == '#';
    assert (RETURN + printable + "\"")[0] == '\t';
  }

  lemma LinesAfter(version: string, printable: string, space: string, after: string)
    requires Plain(version) && AllHex(printable) && AllHex(space)
    ensures Split("\n", Block(version, printable, space) + after)
         == Lines(version, printable, space) + Split("\n", END + after)
  {
    BlockIsLines(version, printable, space, after);
    LinesLack(version, printable, space);
    SplitJoinTail("\n", Lines(version, printable, space), END + after);
  }

  lemma BlockReads(version: string, printable: string, space: string, after: string)
    requires Plain(version) && AllHex(printable) && AllHex(space)
    ensures var lines := Split("\n", Block(version, printable, space) + after);
            Returned(lines, "printable") == Some(printable) && Returned(lines, "space") == Some(space)
  {
    var lines, tail := Lines(version, printable, space), Split("\n", END + after);
    LinesAfter(version, printable, space, after);
    OtherLines(version, printable, space);
    ReturnedIn(lines, tail, "printable", printable, 5);
    ReturnedIn(lines, tail, "space", space, 9);
  }

  lemma DataAt(before: string, block: string, after: string, name: string)
    requires Find(BEGIN, before + block + after) == Some(|before|)
    ensures DataOf(before + block + after, name) == Returned(Split("\n", block + after), name)
  {
    assert (before + block + after)[|before|..] == block + after;
  }

  /** Wherever a block stands with its begin marker the first of the text, both tables are read from it. */
  lemma TablesRead(version: string, printable: string, space: string, before: string, after: string)
    requires Plain(version) && AllHex(printable) && AllHex(space)
    requires Find(BEGIN, before + Block(version, printable, space) + after) == Some(|before|)
    ensures var text := before + Block(version, printable, space) + after;
            DataOf(text, "printable") == Some(printable) && DataOf(text, "space") == Some(space)
  {
    BlockReads(version, printable, space, after);
    DataAt(before, Block(version, printable, space), after, "printable");
    DataAt(before, Block(version, printable, space), after, "space");
  }

  // After an update.

  /** An updated text holds the block, and its first begin marker is that of the block. */
  lemma UpdatedHolds(block: string, current: string) returns (before: string, after: string)
    requires IsBlock(block) && Update(block, current).Some?
    ensures Update(block, current) == Some(before + block + after)
    ensures Find(BEGIN, before + block + after) == Some(|before|)
  {
    if Find(BEGIN, current).Some? {
      var rest;
      before, rest, after := Replaces(BEGIN, END, block, block, current);
      Joins(before, block, after);
      StillFirst(before, rest, block + after);
    } else {
      var body := RStrip(current);
      before, after := body + "\n\n", "\n";
      PrefixHasNone(BEGIN, body, current);
      AppendedIsFirst(body, block, after);
    }
  }

  /** What the generated functions of an updated text return is what was rendered. */
  lemma UpdatedReads(version: string, printable: string, space: string, current: string)
    requires Plain(version) && AllHex(printable) && AllHex(space)
    requires Update(Block(version, printable, space), current).Some?
    ensures var text := Update(Block(version, printable, space), current).value;
            DataOf(text, "printable") == Some(printable) && DataOf(text, "space") == Some(space)
  {
    RenderedIsBlock(version, printable, space);
    var before, after := UpdatedHolds(Block(version, printable, space), current);
    TablesRead(version, printable, space, before, after);
  }

  // The whole regeneration.

  /** An encoded table that decodes, twelve characters a range, to the maximal ranges of a predicate. */
  ghost predicate TableOf(encoded: string, p: Predicate)
  {
    && Decoded(encoded).Some?
    && ScanDone(Decoded(encoded).value, p)
    && |encoded| == 12 * |Decoded(encoded).value|
    && AllHex(encoded)
  }

  lemma EncodedTableOf(ranges: seq<Range>, p: Predicate)
    requires ScanDone(ranges, p)
    ensures TableOf(Encoded(ranges), p)
  {
    EncodingReads(ranges);
  }

  lemma RepresentedFlags(first: Predicate, second: Predicate, a: seq<Range>, b: seq<Range>)
    requires Represents(a, first) && Represents(b, second)
    ensures TableFlags(a, b) == Flags(first, second)
  {
  }

  lemma HoldsSomewhere(p: Predicate, ranges: seq<Range>)
    requires ScanDone(ranges, p)
    ensures Holds(p) <==> ranges != []
  {
    if ranges != [] {
      RangeIsRun(ranges, p, 0);
      assert p(ranges[0].low);
    }
    if Holds(p) {
      var x :| 0 <= x < RUNES && p(x);
      assert Covers(ranges, x);
    }
  }

  /** A generated function of a text returns the table of a predicate. */
  ghost predicate Returns(text: string, name: string, p: Predicate)
  {
    DataOf(text, name).Some? && TableOf(DataOf(text, name).value, p)
  }

  lemma BlockAlone(version: string, printable: string, space: string)
    requires Plain(version) && AllHex(printable) && AllHex(space)
    ensures var text := Block(version, printable, space);
            DataOf(text, "printable") == Some(printable) && DataOf(text, "space") == Some(space)
  {
    RenderedIsBlock(version, printable, space);
    BlockReads(version, printable, space, "");
    DataAtStart(Block(version, printable, space), "printable");
    DataAtStart(Block(version, printable, space), "space");
  }

  lemma DataAtStart(text: string, name: string)
    requires BEGIN <= text
    ensures DataOf(text, name) == Returned(Split("\n", text + ""), name)
  {
    StartsFirst(BEGIN, text);
    assert text[0..] == text && text + "" == text;
  }

  lemma StartsFirst(p: string, s: string)
    requires p <= s
    ensures Find(p, s) == Some(0)
  {
    assert s[0..|p|] == p;
    FindIs(p, s, 0);
  }

  /**
   * Exporting two predicates and rendering the result succeeds exactly when each holds somewhere. (An empty table
   * arrives as null, which cannot be iterated over.) The rendered tables decode to the one list of maximal ranges of
   * each predicate.
   */
  method Regenerate(version: string, first: Predicate, second: Predicate, sha: seq<bv8> -> string)
    returns (r: Result<string, RenderError>)
    ensures r.Ok? <==> Holds(first) && Holds(second)
    ensures r.Ok? ==> exists a, b :: r.value == Block(version, a, b) && TableOf(a, first) && TableOf(b, second)
    ensures r.Ok? && Plain(version) ==> Returns(r.value, "printable", first) && Returns(r.value, "space", second)
  {
    var e, printable, space := ExportTables(first, second, sha);
    HoldsSomewhere(first, printable);
    HoldsSomewhere(second, space);
    RepresentedFlags(first, second, printable, space);
    r := Render(version, e, sha);
    EncodedTableOf(printable, first);
    EncodedTableOf(space, second);
    if Plain(version) {
      BlockAlone(version, Encoded(printable), Encoded(space));
    }
  }

  /** So a predicate that holds nowhere cannot be regenerated. */
  method NowhereFails(version: string, second: Predicate, sha: seq<bv8> -> string)
    returns (r: Result<string, RenderError>)
    ensures r.Err?
  {
    r := Regenerate(version, x => false, second, sha);
  }

  datatype RunError = NotRendered(error: RenderError) | NoEndMarker

  /**
   * A whole run: the data is exported, rendered and put into the file. It succeeds exactly when each predicate holds
   * somewhere and the file has an end marker after its first begin marker, if it has that; then the functions in the
   * file return the tables of the predicates.
   */
  method RegenerateFile(version: string, first: Predicate, second: Predicate, sha: seq<bv8> -> string, current: string)
    returns (r: Result<string, RunError>)
    ensures r.Ok? <==>
              && Holds(first) && Holds(second)
              && !exists i :: 0 <= i <= |current| && FirstAt(BEGIN, current, i)
                              && forall k | i + |BEGIN| <= k <= |current| :: !At(END, current, k)
    ensures r.Ok? && Plain(version) ==> Returns(r.value, "printable", first) && Returns(r.value, "space", second)
  {
    var block := Regenerate(version, first, second, sha);
    if block.Err? {
      return Err(NotRendered(block.error));
    }
    UpdateFails(block.value, current);
    var updated := Update(block.value, current);
    if updated.None? {
      return Err(NoEndMarker);
    }
    if Plain(version) {
      ghost var a, b :| block.value == Block(version, a, b) && TableOf(a, first) && TableOf(b, second);
      UpdatedReads(version, a, b, current);
    }
    return Ok(updated.value);
  }

  /** Running the whole tool again on its own output leaves the file as it is. */
  lemma RerunChangesNothing(version: string, first: Predicate, second: Predicate, a: string, b: string, current: string)
    requires NoHash(version) && TableOf(a, first) && TableOf(b, second)
    requires Update(Block(version, a, b), current).Some?
    ensures Update(Block(version, a, b), Update(Block(version, a, b), current).value)
         == Update(Block(version, a, b), current)
  {
    RenderedIsBlock(version, a, b);
    UpdateIdempotent(Block(version, a, b), current);
  }
}
