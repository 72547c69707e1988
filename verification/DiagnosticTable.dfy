/** Rendering exported ranges as a block of source text, and what the encoded text decodes to. */
module DiagnosticTable {
  import opened Wrappers
  import Json
  import opened TextSearch
  import opened DiagnosticRanges
  import opened MarkerSplice

  datatype RenderError = MissingTable | InvalidRange | DigestDiffers

  // Hexadecimal digits of fixed width for each bound; the generator uses six.

  const WIDTH: nat := 6

  predicate NoHash(s: string)
  {
    forall c | c in s :: c != '#'
  }

  predicate IsLowerHex(c: char)
  {
    '0' <= c <= '9' || 'a' <= c <= 'f'
  }

  predicate AllHex(s: string)
  {
    forall c | c in s :: IsLowerHex(c)
  }

  function HexDigits(n: nat, width: nat): (s: string)
    ensures |s| == width
  {
    if width == 0 then "" else HexDigits(n / 16, width - 1) + [Json.HexDigit(n % 16)]
  }

  function EncodeRange(r: Range): (s: string)
    ensures |s| == 12
  {
    HexDigits(r.low, WIDTH) + HexDigits(r.high, WIDTH)
  }

  /** The concatenation of the rows. */
  function Rows(row: Range -> string, ranges: seq<Range>): string
  {
    if ranges == [] then "" else Rows(row, ranges[..|ranges| - 1]) + row(ranges[|ranges| - 1])
  }

  function Encoded(ranges: seq<Range>): string
  {
    Rows(EncodeRange, ranges)
  }

  function HexNumber(s: string): Option<nat>
  {
    if s == "" then Some(0)
    else
      match (HexNumber(s[..|s| - 1]), Json.HexValue(s[|s| - 1]))
      case (Some(high), Some(digit)) => Some(high * 16 + digit)
      case _ => None
  }

  function DecodeRange(s: string): Option<Range>
    requires |s| == 12
  {
    match (HexNumber(s[..WIDTH]), HexNumber(s[WIDTH..]))
    case (Some(a), Some(b)) => Some(Range(a, b))
    case _ => None
  }

  /** Reading a table back: twelve characters a range. */
  function Decoded(s: string): Option<seq<Range>>
  {
    if s == "" then Some([])
    else if |s| < 12 then None
    else
      match (Decoded(s[..|s| - 12]), DecodeRange(s[|s| - 12..]))
      case (Some(ranges), Some(r)) => Some(ranges + [r])
      case _ => None
  }

  lemma HexDigitReads(n: nat)
    requires n < 16
    ensures Json.HexValue(Json.HexDigit(n)) == Some(n)
    ensures IsLowerHex(Json.HexDigit(n))
  {
  }

  function Power16(width: nat): nat
  {
    if width == 0 then 1 else 16 * Power16(width - 1)
  }

  lemma {:induction false} HexDigitsRead(n: nat, width: nat)
    requires n < Power16(width)
    ensures HexNumber(HexDigits(n, width)) == Some(n)
  {
    if width > 0 {
      HexDigitsRead(n / 16, width - 1);
      HexDigitReads(n % 16);
      HexAppend(HexDigits(n / 16, width - 1), Json.HexDigit(n % 16), n / 16, n % 16);
    }
  }

  lemma HexAppend(s: string, c: char, high: nat, digit: nat)
    requires HexNumber(s) == Some(high) && Json.HexValue(c) == Some(digit)
    ensures HexNumber(s + [c]) == Some(high * 16 + digit)
  {
    assert (s + [c])[..|s|] == s;
  }

  lemma {:induction false} HexDigitsLower(n: nat, width: nat)
    ensures AllHex(HexDigits(n, width))
  {
    if width > 0 {
      HexDigitsLower(n / 16, width - 1);
      HexDigitReads(n % 16);
    }
  }

  lemma DecodeAppend(s: string, t: string, ranges: seq<Range>, r: Range)
    requires |t| == 12 && Decoded(s) == Some(ranges) && DecodeRange(t) == Some(r)
    ensures Decoded(s + t) == Some(ranges + [r])
  {
    assert (s + t)[..|s|] == s && (s + t)[|s|..] == t;
  }

  /** Six digits hold every code point. */
  lemma RangeReads(r: Range)
    requires r.low <= MAX_RUNE && r.high <= MAX_RUNE
    ensures DecodeRange(EncodeRange(r)) == Some(r) && AllHex(EncodeRange(r))
  {
    var low, high := HexDigits(r.low, WIDTH), HexDigits(r.high, WIDTH);
    assert Power16(WIDTH) == 0x100_0000;
    HexDigitsRead(r.low, WIDTH);
    HexDigitsRead(r.high, WIDTH);
    HexDigitsLower(r.low, WIDTH);
    HexDigitsLower(r.high, WIDTH);
    assert (low + high)[..WIDTH] == low && (low + high)[WIDTH..] == high;
  }

  /** Rows of twelve characters that read as their range make a table that reads as the ranges. */
  lemma {:induction false} RowsRead(row: Range -> string, ranges: seq<Range>)
    requires forall r | r in ranges :: |row(r)| == 12 && DecodeRange(row(r)) == Some(r) && AllHex(row(r))
    ensures |Rows(row, ranges)| == 12 * |ranges|
    ensures Decoded(Rows(row, ranges)) == Some(ranges)
    ensures AllHex(Rows(row, ranges))
  {
    if ranges != [] {
      var init, last := ranges[..|ranges| - 1], ranges[|ranges| - 1];
      RowsRead(row, init);
      DecodeAppend(Rows(row, init), row(last), init, last);
      assert init + [last] == ranges;
    }
  }

  /** The encoding is lossless and of fixed width. */
  lemma EncodingReads(ranges: seq<Range>)
    requires Ordered(ranges)
    ensures |Encoded(ranges)| == 12 * |ranges| && Decoded(Encoded(ranges)) == Some(ranges) && AllHex(Encoded(ranges))
  {
    forall r | r in ranges ensures DecodeRange(EncodeRange(r)) == Some(r) && AllHex(EncodeRange(r)) {
      var k :| 0 <= k < |ranges| && ranges[k] == r;
      RangeReads(r);
    }
    RowsRead(EncodeRange, ranges);
  }

  // The block.

  const ORIGIN := " Generated by " + "tools/json-diagnostic-data.py" + "; do not edit by hand."
  const LEGEND := " Ordered ranges " + "encode six hexadecimal digits " + "for each bound."

  function VersionComment(version: string): string
  {
    "# Go Unicode " + version + ": printable runes and whitespace."
  }

  function Header(name: string): string
  {
    "def _diagnostic_" + name + "_data(): String"
  }

  function BlockLines(version: string, printable: string, space: string): seq<string>
  {
    [ BEGIN,
      "#" + ORIGIN,
      VersionComment(version),
      "#" + LEGEND,
      "",
      Header("printable"), "\treturn \"" + printable + "\"", "end", "",
      Header("space"), "\treturn \"" + space + "\"", "end", "" ]
  }

  function Block(version: string, printable: string, space: string): string
  {
    Join("\n", BlockLines(version, printable, space)) + END
  }

  // Rendering.

  /** The flags that one more range sets. */
  method MarkRange(flags: array<bv8>, bit: nat, r: Range)
    requires bit < 2 && flags.Length == RUNES && 0 <= r.low <= r.high <= MAX_RUNE
    modifies flags
    ensures forall x | 0 <= x < RUNES :: flags[x] == Mark(old(flags[x]), bit, r.low <= x <= r.high)
  {
    var point := r.low;
    while point < r.high + 1
      invariant r.low <= point <= r.high + 1
      invariant forall x | 0 <= x < RUNES :: flags[x] == Mark(old(flags[x]), bit, r.low <= x < point)
    {
      flags[point] := Mark(flags[point], bit, true);
      point := point + 1;
    }
  }

  lemma MarkCovers(flags: bv8, bit: nat, ranges: seq<Range>, r: Range, x: int)
    requires bit < 2
    ensures Mark(Mark(flags, bit, Covers(ranges, x)), bit, r.low <= x <= r.high)
         == Mark(flags, bit, Covers(ranges + [r], x))
  {
    CoversAppend(ranges, r, x);
  }

  /** Adds one range to what the flags say of the ranges so far. */
  method ExtendFlags(flags: array<bv8>, bit: nat, r: Range, ghost done: seq<Range>, ghost before: seq<bv8>)
    requires bit < 2 && flags.Length == RUNES == |before| && 0 <= r.low <= r.high <= MAX_RUNE
    requires forall x | 0 <= x < RUNES :: flags[x] == Mark(before[x], bit, Covers(done, x))
    modifies flags
    ensures forall x | 0 <= x < RUNES :: flags[x] == Mark(before[x], bit, Covers(done + [r], x))
  {
    MarkRange(flags, bit, r);
    forall x | 0 <= x < RUNES ensures flags[x] == Mark(before[x], bit, Covers(done + [r], x)) {
      MarkCovers(before[x], bit, done, r, x);
    }
  }

  lemma EncodedNext(ranges: seq<Range>, k: nat)
    requires k < |ranges| && Ordered(ranges[..k])
    requires (if k == 0 then -1 else ranges[k - 1].high) < ranges[k].low <= ranges[k].high <= MAX_RUNE
    ensures ranges[..k + 1] == ranges[..k] + [ranges[k]] && Ordered(ranges[..k + 1])
    ensures Encoded(ranges[..k + 1]) == Encoded(ranges[..k]) + EncodeRange(ranges[k])
  {
    assert ranges[..k + 1][..k] == ranges[..k];
  }

  /** One table: every range is checked against the previous one, encoded, and marked in the flags. */
  method RenderTable(ranges: seq<Range>, bit: nat, flags: array<bv8>) returns (r: Result<string, RenderError>)
    requires bit < 2 && flags.Length == RUNES
    modifies flags
    ensures r.Ok? <==> Ordered(ranges)
    ensures r.Ok? ==> r.value == Encoded(ranges)
    ensures r.Ok? ==> forall x | 0 <= x < RUNES :: flags[x] == Mark(old(flags[x]), bit, Covers(ranges, x))
  {
    var previous := -1;
    var encoded := "";
    ghost var before := flags[..];
    for k := 0 to |ranges|
      invariant Ordered(ranges[..k])
      invariant previous == if k == 0 then -1 else ranges[k - 1].high
      invariant encoded == Encoded(ranges[..k])
      invariant forall x | 0 <= x < RUNES :: flags[x] == Mark(before[x], bit, Covers(ranges[..k], x))
    {
      var range := ranges[k];
      if !(previous < range.low <= range.high <= MAX_RUNE) {
        return Err(InvalidRange);
      }
      previous := range.high;
      EncodedNext(ranges, k);
      ExtendFlags(flags, bit, range, ranges[..k], before);
      encoded := encoded + EncodeRange(range);
    }
    assert ranges[..|ranges|] == ranges;
    return Ok(encoded);
  }

  lemma FlagsComplete(flags: seq<bv8>, first: seq<Range>, second: seq<Range>)
    requires |flags| == RUNES
    requires forall x | 0 <= x < RUNES :: flags[x] == Mark(Mark(0, 0, Covers(first, x)), 1, Covers(second, x))
    ensures flags == TableFlags(first, second)
  {
    forall x | 0 <= x < RUNES ensures flags[x] == TableFlags(first, second)[x] {
      MarksMakeBits(Covers(first, x), Covers(second, x));
    }
  }

  predicate Renderable(e: Export, sha: seq<bv8> -> string)
  {
    && |e.tables| >= 2 && e.tables[0].Ranges? && e.tables[1].Ranges?
    && Ordered(e.tables[0].ranges) && Ordered(e.tables[1].ranges)
    && sha(TableFlags(e.tables[0].ranges, e.tables[1].ranges)) == e.digest
  }

  /** Rendering succeeds exactly on two ordered tables whose expansion has the exported digest. */
  method Render(version: string, e: Export, sha: seq<bv8> -> string) returns (r: Result<string, RenderError>)
    ensures r.Ok? <==> Renderable(e, sha)
    ensures r.Ok? ==> r.value == Block(version, Encoded(e.tables[0].ranges), Encoded(e.tables[1].ranges))
  {
    var flags := new bv8[RUNES](_ => 0);
    if |e.tables| < 1 || e.tables[0].Null? {
      return Err(MissingTable);
    }
    var printable := RenderTable(e.tables[0].ranges, 0, flags);
    if printable.Err? {
      return Err(printable.error);
    }
    if |e.tables| < 2 || e.tables[1].Null? {
      return Err(MissingTable);
    }
    var space := RenderTable(e.tables[1].ranges, 1, flags);
    if space.Err? {
      return Err(space.error);
    }
    FlagsComplete(flags[..], e.tables[0].ranges, e.tables[1].ranges);
    if sha(flags[..]) != e.digest {
      return Err(DigestDiffers);
    }
    return Ok(Block(version, printable.value, space.value));
  }

  // The rendered text is a block: its end marker occurs only at its end.

  /** Every number sign starts a comment that does not go on as an end marker would. */
  predicate NoEndMarker(s: string)
  {
    forall i | 0 <= i < |s| && s[i] == '#' :: i + 2 < |s| && s[i + 2] != 'E'
  }

  lemma NoEndMarkerJoin(a: string, b: string)
    requires NoEndMarker(a) && NoEndMarker(b)
    ensures NoEndMarker(a + b)
  {
    var s := a + b;
    forall i | 0 <= i < |s| && s[i] == '#' ensures i + 2 < |s| && s[i + 2] != 'E' {
      if i < |a| {
        assert s[i] == a[i] && s[i + 2] == a[i + 2];
      } else {
        assert s[i] == b[i - |a|] && s[i + 2] == b[i - |a| + 2];
      }
    }
  }

  lemma NoHashNoEndMarker(s: string)
    requires NoHash(s)
    ensures NoEndMarker(s)
  {
    forall i | 0 <= i < |s| ensures s[i] != '#' {
      assert s[i] in s;
    }
  }

  lemma NotAnEndMarker(s: string, k: nat)
    requires k + 2 < |s| && (s[k] != '#' || s[k + 2] != 'E')
    ensures !At(END, s, k)
  {
    assert END[0] == '#' && END[2] == 'E';
    if k + |END| <= |s| {
      var window := s[k..k + |END|];
      assert window[0] == s[k] && window[2] == s[k + 2];
    }
  }

  lemma EndMarkerLast(mid: string)
    requires NoEndMarker(mid)
    ensures Find(END, mid + END) == Some(|mid|)
  {
    var s := mid + END;
    forall k | 0 <= k < |mid| ensures !At(END, s, k) {
      NotAnEndMarker(s, k);
    }
    AtEnd(mid, END);
    FindIs(END, s, |mid|);
  }

  lemma AtEnd(a: string, b: string)
    ensures At(b, a + b, |a|)
  {
    assert (a + b)[|a|..|a| + |b|] == b;
  }

  lemma {:induction false} JoinNoEndMarker(lines: seq<string>)
    requires forall line | line in lines :: NoEndMarker(line)
    ensures NoEndMarker(Join("\n", lines))
  {
    if |lines| > 1 {
      JoinNoEndMarker(lines[1..]);
      NoHashNoEndMarker("\n");
      NoEndMarkerJoin(lines[0], "\n");
      NoEndMarkerJoin(lines[0] + "\n", Join("\n", lines[1..]));
    }
  }

  lemma CommentNoEndMarker(s: string)
    requires |s| > 2 && s[2] != 'E' && NoHash(s[1..])
    ensures NoEndMarker(s)
  {
    forall i | 0 < i < |s| ensures s[i] != '#' {
      assert s[1..][i - 1] in s[1..];
    }
  }

  lemma QuotedNoHash(s: string)
    requires NoHash(s)
    ensures NoEndMarker("\treturn \"" + s + "\"")
  {
    NoHashNoEndMarker("\treturn \"" + s + "\"");
  }

  lemma CommentLine(rest: string)
    requires |rest| > 1 && rest[1] != 'E' && NoHash(rest)
    ensures NoEndMarker("#" + rest)
  {
    var s := "#" + rest;
    assert s[1..] == rest;
    CommentNoEndMarker(s);
  }

  lemma VersionLine(version: string)
    requires NoHash(version)
    ensures NoEndMarker(VersionComment(version))
  {
    CommentLine(" Go Unicode " + version + ": printable runes and whitespace.");
    assert "#" + (" Go Unicode " + version + ": printable runes and whitespace.") == VersionComment(version);
  }

  lemma NoHashJoin(a: string, b: string)
    requires NoHash(a) && NoHash(b)
    ensures NoHash(a + b)
  {
  }

  lemma OriginNoHash()
    ensures NoHash(ORIGIN)
  {
    NoHashJoin(" Generated by ", "tools/json-diagnostic-data.py");
    NoHashJoin(" Generated by " + "tools/json-diagnostic-data.py", "; do not edit by hand.");
  }

  lemma LegendNoHash()
    ensures NoHash(LEGEND)
  {
    NoHashJoin(" Ordered ranges ", "encode six hexadecimal digits ");
    NoHashJoin(" Ordered ranges " + "encode six hexadecimal digits ", "for each bound.");
  }

  lemma FixedLines()
    ensures NoEndMarker("#" + ORIGIN) && NoEndMarker("#" + LEGEND)
  {
    assert ORIGIN[1] == 'G' && LEGEND[1] == 'O';
    OriginNoHash();
    LegendNoHash();
    CommentLine(ORIGIN);
    CommentLine(LEGEND);
  }

  lemma HeaderLine(name: string)
    requires NoHash(name)
    ensures NoEndMarker(Header(name))
  {
    NoHashJoin("def _diagnostic_", name);
    NoHashJoin("def _diagnostic_" + name, "_data(): String");
    NoHashNoEndMarker(Header(name));
  }

  lemma CodeLines()
    ensures NoEndMarker(Header("printable")) && NoEndMarker(Header("space")) && NoEndMarker("end") && NoEndMarker("")
  {
    HeaderLine("printable");
    HeaderLine("space");
  }

  /** What is rendered is a block in the sense of the splice, for any version without a number sign. */
  lemma RenderedIsBlock(version: string, printable: string, space: string)
    requires NoHash(version) && AllHex(printable) && AllHex(space)
    ensures IsBlock(Block(version, printable, space))
  {
    var lines := BlockLines(version, printable, space);
    var rest := lines[1..];
    VersionLine(version);
    FixedLines();
    CodeLines();
    QuotedNoHash(printable);
    QuotedNoHash(space);
    forall line | line in rest ensures NoEndMarker(line) {
      var i :| 0 <= i < |rest| && rest[i] == line;
      assert line == lines[i + 1];
    }
    JoinNoEndMarker(rest);
    NoHashNoEndMarker("\n");
    var mid := "\n" + Join("\n", rest);
    NoEndMarkerJoin("\n", Join("\n", rest));
    EndMarkerLast(mid);
    JoinFirst(lines);
    BlockParts(Block(version, printable, space), mid);
  }

  lemma JoinFirst(lines: seq<string>)
    requires |lines| > 1
    ensures Join("\n", lines) == lines[0] + ("\n" + Join("\n", lines[1..]))
  {
  }

  lemma BlockParts(block: string, mid: string)
    requires block == BEGIN + mid + END && Find(END, mid + END) == Some(|mid|)
    ensures IsBlock(block)
  {
    CutPrefix(BEGIN, mid, END);
  }

  lemma CutPrefix(a: string, b: string, c: string)
    ensures a <= a + b + c && (a + b + c)[|a|..] == b + c
  {
  }
}
