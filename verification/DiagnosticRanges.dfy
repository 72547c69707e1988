/**
 * Character properties as ordered ranges: the exporter's scan of a predicate, and the table that is rendered from it.
 */
module DiagnosticRanges {
  import opened Wrappers

  const MAX_RUNE: nat := 0x10FFFF
  const RUNES: nat := 0x110000

  datatype Range = Range(low: nat, high: nat)

  /** A table as it is transferred: a list that never received a range arrives as null. */
  datatype Table = Null | Ranges(ranges: seq<Range>)

  type Predicate = int -> bool

  datatype Export = Export(tables: seq<Table>, digest: string)

  // What a list of ranges stands for.

  predicate Covers(ranges: seq<Range>, x: int)
  {
    exists k | 0 <= k < |ranges| :: ranges[k].low <= x <= ranges[k].high
  }

  /** Ordered, disjoint and within the code space: what render insists on. */
  predicate Ordered(ranges: seq<Range>)
  {
    forall k | 0 <= k < |ranges| ::
      && 0 <= ranges[k].low <= ranges[k].high <= MAX_RUNE
      && (k > 0 ==> ranges[k - 1].high < ranges[k].low)
  }

  /** Besides, no two ranges touch: each is maximal. */
  predicate Separated(ranges: seq<Range>)
  {
    forall k | 0 < k < |ranges| :: ranges[k - 1].high + 1 < ranges[k].low
  }

  /** The ranges say of every code point what the predicate says. */
  ghost predicate Represents(ranges: seq<Range>, p: Predicate)
  {
    forall x | 0 <= x < RUNES :: Covers(ranges, x) <==> p(x)
  }

  ghost predicate Holds(p: Predicate)
  {
    exists x | 0 <= x < RUNES :: p(x)
  }

  function Bits(first: bool, second: bool): bv8
  {
    (if first then 1 else 0) | (if second then 2 else 0)
  }

  /** The flag byte of every code point. */
  function Flags(first: Predicate, second: Predicate): seq<bv8>
  {
    seq(RUNES, x => Bits(first(x), second(x)))
  }

  function TableFlags(first: seq<Range>, second: seq<Range>): seq<bv8>
  {
    seq(RUNES, x => Bits(Covers(first, x), Covers(second, x)))
  }

  function Bit(bit: nat): bv8
    requires bit < 2
  {
    if bit == 0 then 1 else 2
  }

  /** A flag byte with a bit set, or as it was. */
  function Mark(flags: bv8, bit: nat, yes: bool): bv8
    requires bit < 2
  {
    if yes then flags | Bit(bit) else flags
  }

  lemma MarksMakeBits(first: bool, second: bool)
    ensures Mark(Mark(0, 0, first), 1, second) == Bits(first, second)
  {
  }

  // The exporter.

  lemma CoversAppend(ranges: seq<Range>, r: Range, x: int)
    ensures Covers(ranges + [r], x) <==> Covers(ranges, x) || r.low <= x <= r.high
  {
    var all := ranges + [r];
    if Covers(ranges, x) {
      var k :| 0 <= k < |ranges| && ranges[k].low <= x <= ranges[k].high;
      assert all[k] == ranges[k];
    }
    if r.low <= x <= r.high {
      assert all[|ranges|] == r;
    }
  }

  /** The scan before it looks at a point: everything below is covered, or lies in the range that is open. */
  ghost predicate ScanState(ranges: seq<Range>, start: int, p: Predicate, point: int)
  {
    && Ordered(ranges) && Separated(ranges)
    && (start >= 0 ==> start < point && forall x | start <= x < point :: p(x))
    && (ranges != [] ==> ranges[|ranges| - 1].high + 1 < (if start >= 0 then start else point))
    && (forall x | 0 <= x < point :: p(x) <==> Covers(ranges, x) || (start >= 0 && start <= x))
  }

  /** Opening a range at a point where the predicate begins to hold, or going on. */
  lemma GoOn(ranges: seq<Range>, start: int, p: Predicate, point: int)
    requires 0 <= point <= MAX_RUNE && ScanState(ranges, start, p, point)
    ensures p(point) ==> ScanState(ranges, if start < 0 then point else start, p, point + 1)
    ensures !p(point) && start < 0 ==> ScanState(ranges, start, p, point + 1)
  {
    NotCovered(ranges, point, point);
  }

  /** Beyond the last range nothing is covered. */
  lemma {:induction false} NotCovered(ranges: seq<Range>, bound: int, x: int)
    requires Ordered(ranges) && bound <= x && (ranges != [] ==> ranges[|ranges| - 1].high < bound)
    ensures !Covers(ranges, x)
  {
    forall k | 0 <= k < |ranges| ensures ranges[k].high < x {
      HighsIncrease(ranges, k);
    }
  }

  lemma {:induction false} HighsIncrease(ranges: seq<Range>, k: nat)
    requires Ordered(ranges) && k < |ranges|
    ensures ranges[k].high <= ranges[|ranges| - 1].high
    decreases |ranges| - k
  {
    if k + 1 < |ranges| {
      HighsIncrease(ranges, k + 1);
    }
  }

  /** The scan is over when the point past the end has been looked at. */
  ghost predicate ScanDone(ranges: seq<Range>, p: Predicate)
  {
    Ordered(ranges) && Separated(ranges) && Represents(ranges, p)
  }

  /** Closing the open range at a point where the predicate no longer holds. */
  lemma CloseRange(ranges: seq<Range>, start: int, p: Predicate, point: int)
    requires 0 <= start < point <= MAX_RUNE + 1 && ScanState(ranges, start, p, point)
    requires point <= MAX_RUNE ==> !p(point)
    ensures var all := ranges + [Range(start, point - 1)];
            if point <= MAX_RUNE then ScanState(all, -1, p, point + 1) else ScanDone(all, p)
  {
    var all := ranges + [Range(start, point - 1)];
    forall x ensures Covers(all, x) <==> Covers(ranges, x) || start <= x <= point - 1 {
      CoversAppend(ranges, Range(start, point - 1), x);
    }
    assert Ordered(all) && Separated(all);
    NotCovered(all, point, point);
  }

  /**
   * One predicate's scan, with a last point past the end that closes an open range. The bit is set in the flags of
   * exactly the code points that satisfy the predicate.
   */
  method Scan(p: Predicate, bit: nat, flags: array<bv8>) returns (ranges: seq<Range>)
    requires bit < 2 && flags.Length == RUNES
    modifies flags
    ensures ScanDone(ranges, p)
    ensures forall x | 0 <= x < RUNES :: flags[x] == Mark(old(flags[x]), bit, p(x))
  {
    ranges := [];
    var start := -1;
    var point := 0;
    while point <= MAX_RUNE + 1
      invariant 0 <= point <= MAX_RUNE + 2
      invariant point <= MAX_RUNE + 1 ==> ScanState(ranges, start, p, point)
      invariant point == MAX_RUNE + 2 ==> ScanDone(ranges, p)
      invariant forall x | 0 <= x < RUNES ::
                  flags[x] == Mark(old(flags[x]), bit, x < point && p(x))
    {
      var yes := point <= MAX_RUNE && p(point);
      if point <= MAX_RUNE {
        GoOn(ranges, start, p, point);
      }
      if yes {
        flags[point] := Mark(flags[point], bit, true);
        if start < 0 {
          start := point;
        }
      }
      if !yes && start >= 0 {
        CloseRange(ranges, start, p, point);
        ranges := ranges + [Range(start, point - 1)];
        start := -1;
      }
      point := point + 1;
    }
  }

  function AsTable(ranges: seq<Range>): Table
  {
    if ranges == [] then Null else Ranges(ranges)
  }

  /** Both scans over one flag array, and its digest. */
  method ExportTables(first: Predicate, second: Predicate, sha: seq<bv8> -> string)
    returns (e: Export, ghost printable: seq<Range>, ghost space: seq<Range>)
    ensures ScanDone(printable, first) && ScanDone(space, second)
    ensures e == Export([AsTable(printable), AsTable(space)], sha(Flags(first, second)))
  {
    var flags := new bv8[RUNES](_ => 0);
    var ranges0 := Scan(first, 0, flags);
    var ranges1 := Scan(second, 1, flags);
    assert flags[..] == Flags(first, second) by {
      forall x | 0 <= x < RUNES ensures flags[x] == Bits(first(x), second(x)) {
        MarksMakeBits(first(x), second(x));
      }
    }
    e := Export([AsTable(ranges0), AsTable(ranges1)], sha(flags[..]));
    printable, space := ranges0, ranges1;
  }

  // The ranges are the maximal runs of the predicate, so there is one list only.

  ghost predicate IsRun(p: Predicate, r: Range)
  {
    && 0 <= r.low <= r.high <= MAX_RUNE
    && (forall x | r.low <= x <= r.high :: p(x))
    && (r.low > 0 ==> !p(r.low - 1))
    && (r.high < MAX_RUNE ==> !p(r.high + 1))
  }

  lemma {:induction false} LowsIncrease(ranges: seq<Range>, i: nat, j: nat)
    requires Ordered(ranges) && i < j < |ranges|
    ensures ranges[i].high < ranges[j].low
    decreases j - i
  {
    if i + 1 < j {
      LowsIncrease(ranges, i, j - 1);
    }
  }

  lemma RangeIsRun(ranges: seq<Range>, p: Predicate, k: nat)
    requires ScanDone(ranges, p) && k < |ranges|
    ensures IsRun(p, ranges[k])
  {
    var r := ranges[k];
    forall x | r.low <= x <= r.high ensures p(x) {
      assert Covers(ranges, x);
    }
    if r.low > 0 && Covers(ranges, r.low - 1) {
      var i :| 0 <= i < |ranges| && ranges[i].low <= r.low - 1 <= ranges[i].high;
      GapBetween(ranges, i, k);
    }
    if r.high < MAX_RUNE && Covers(ranges, r.high + 1) {
      var i :| 0 <= i < |ranges| && ranges[i].low <= r.high + 1 <= ranges[i].high;
      GapBetween(ranges, k, i);
    }
  }

  lemma GapBetween(ranges: seq<Range>, i: nat, j: nat)
    requires Ordered(ranges) && Separated(ranges) && i < |ranges| && j < |ranges|
    ensures i < j ==> ranges[i].high + 1 < ranges[j].low
    ensures j < i ==> ranges[j].high < ranges[i].low
  {
    if i < j {
      if i + 1 < j {
        LowsIncrease(ranges, i, j - 1);
      }
    } else if j < i {
      LowsIncrease(ranges, j, i);
    }
  }

  lemma RunIsRange(ranges: seq<Range>, p: Predicate, r: Range)
    requires ScanDone(ranges, p) && IsRun(p, r)
    ensures r in ranges
  {
    assert Covers(ranges, r.low);
    var k :| 0 <= k < |ranges| && ranges[k].low <= r.low <= ranges[k].high;
    RangeIsRun(ranges, p, k);
  }

  /** Ordered, separated ranges that say the same are the same. */
  lemma RangesUnique(a: seq<Range>, b: seq<Range>, p: Predicate)
    requires ScanDone(a, p) && ScanDone(b, p)
    ensures a == b
  {
    forall r ensures r in a <==> r in b {
      if r in a {
        var k :| 0 <= k < |a| && a[k] == r;
        RangeIsRun(a, p, k);
        RunIsRange(b, p, r);
      } else if r in b {
        var k :| 0 <= k < |b| && b[k] == r;
        RangeIsRun(b, p, k);
        RunIsRange(a, p, r);
      }
    }
    SameRanges(a, b);
  }

  lemma {:induction false} SameRanges(a: seq<Range>, b: seq<Range>)
    requires Ordered(a) && Ordered(b) && forall r :: r in a <==> r in b
    ensures a == b
  {
    assert b != [] ==> b[0] in a;
    if a != [] {
      assert a[0] in b;
      FirstIsLeast(a, b[0]);
      FirstIsLeast(b, a[0]);
      assert a[0] == b[0];
      forall r ensures r in a[1..] <==> r in b[1..] {
        TailLacksFirst(a, r);
        TailLacksFirst(b, r);
      }
      SameRanges(a[1..], b[1..]);
    }
  }

  lemma FirstIsLeast(s: seq<Range>, r: Range)
    requires Ordered(s) && r in s
    ensures r == s[0] || s[0].high < r.low
  {
    var k :| 0 <= k < |s| && s[k] == r;
    if k > 0 {
      LowsIncrease(s, 0, k);
    }
  }

  lemma TailLacksFirst(s: seq<Range>, r: Range)
    requires Ordered(s) && s != []
    ensures r in s[1..] <==> r in s && r != s[0]
  {
    if r in s[1..] {
      var k :| 0 <= k < |s[1..]| && s[1..][k] == r;
      LowsIncrease(s, 0, k + 1);
    }
  }
}
