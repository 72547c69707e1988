/**
 * The reciprocal decimal power table: for each registered power p, two words that hold 10^p, scaled by a power of two
 * to 128 bits and rounded up, as high * 2^64 - low.
 */
module DecimalPowers {
  import opened Wrappers
  import opened Powers
  import opened PowerConstants

  const MIN_POWER := -292
  const MAX_POWER := 324

  function Positive(x: int): (r: nat)
  {
    if x > 0 then x else 0
  }

  /** The fixed-point logarithm: an arithmetic shift right by 15 is floor division. */
  function BinaryExponent(p: int): int
  {
    p * 108853 / 32768
  }

  /** 10^p * 2^shift as a fraction of naturals. */
  function Scaled(p: int, shift: int): (r: (nat, nat))
    ensures r.1 > 0
  {
    PowPositive(10, Positive(-p));
    PowPositive(2, Positive(-shift));
    (Pow(10, Positive(p)) * Pow(2, Positive(shift)), Pow(10, Positive(-p)) * Pow(2, Positive(-shift)))
  }

  function RoundedUp(p: int, e: int): int
  {
    var (numerator, denominator) := Scaled(p, 127 - e);
    (numerator + denominator - 1) / denominator
  }

  function PairAt(p: int, e: int): (int, int)
  {
    var rounded := RoundedUp(p, e);
    var high := (rounded + WORD - 1) / WORD;
    (high, high * WORD - rounded)
  }

  /** The pair for one power; None is the failed range assertion. */
  function PowerPair(p: int): Option<(int, int)>
  {
    var (high, low) := PairAt(p, BinaryExponent(p));
    if 0 <= high < WORD && 0 <= low < WORD then Some((high, low)) else None
  }

  /** The two sides of the comparison of 10^p with 2^f. */
  function DecimalSide(p: int, f: int): nat
  {
    Pow(10, Positive(p)) * Pow(2, Positive(-f))
  }

  function BinarySide(p: int, f: int): nat
  {
    Pow(2, Positive(f)) * Pow(10, Positive(-p))
  }

  /** 2^f <= 10^p, with both sides cleared of negative exponents. */
  predicate PowerOfTwoBelow(f: int, p: int)
  {
    BinarySide(p, f) <= DecimalSide(p, f)
  }

  /** 2^e <= 10^p < 2^(e+1). */
  predicate IsFloorLog(p: int, e: int)
  {
    PowerOfTwoBelow(e, p) && !PowerOfTwoBelow(e + 1, p)
  }

  /** c is the least integer that is not below 10^p * 2^(127-e); so the rounding error is in [0, 1). */
  predicate IsCeiling(c: int, p: int, e: int)
  {
    var (n, d) := Scaled(p, 127 - e);
    (c - 1) * d < n <= c * d
  }

  // Comparing 10^p with 2^f is comparing the scaled fraction with 2^k.

  lemma ScaleFactor(p: int, f: int, k: nat) returns (s: nat)
    ensures s > 0
    ensures Scaled(p, k - f).0 == DecimalSide(p, f) * s
    ensures Pow(2, k) * Scaled(p, k - f).1 == BinarySide(p, f) * s
  {
    var top, bottom := Pow(10, Positive(p)), Pow(10, Positive(-p));
    PowPositive(2, k);
    if f < 0 {
      s := Pow(2, k);
      PowAdd(2, -f, k);
      Associate(top, Pow(2, -f), s);
      assert Scaled(p, k - f) == (top * Pow(2, k - f), bottom * 1);
      Commute(s, bottom);
    } else if f <= k {
      s := Pow(2, k - f);
      PowPositive(2, k - f);
      PowAdd(2, f, k - f);
      assert Scaled(p, k - f) == (top * s, bottom * 1);
      Factor(Pow(2, f), s, bottom);
    } else {
      s := 1;
      PowAdd(2, k, f - k);
      assert Scaled(p, k - f) == (top * 1, bottom * Pow(2, f - k));
      Factor(Pow(2, k), Pow(2, f - k), bottom);
      Associate(Pow(2, k), bottom, Pow(2, f - k));
    }
  }

  lemma Commute(a: int, b: int)
    ensures a * b == b * a
  {
  }

  lemma Factor(a: int, b: int, c: int)
    ensures (a * b) * c == (a * c) * b
  {
    Exchange(a, b, c, 1);
  }

  lemma ScaledOrder(p: int, f: int, k: nat)
    ensures PowerOfTwoBelow(f, p) <==> Pow(2, k) * Scaled(p, k - f).1 <= Scaled(p, k - f).0
  {
    var s := ScaleFactor(p, f, k);
    ScaleOrder(BinarySide(p, f), DecimalSide(p, f), s);
  }

  lemma CeilingDivision(n: nat, d: nat)
    requires d > 0
    ensures ((n + d - 1) / d - 1) * d < n <= (n + d - 1) / d * d
  {
    var c := (n + d - 1) / d;
    assert n + d - 1 == c * d + (n + d - 1) % d;
    assert (c - 1) * d == c * d - d;
  }

  lemma RoundedUpIsCeiling(p: int, e: int)
    ensures IsCeiling(RoundedUp(p, e), p, e)
  {
    var (n, d) := Scaled(p, 127 - e);
    CeilingDivision(n, d);
  }

  lemma CeilingBounds(n: nat, d: nat, c: int, low: nat, high: nat)
    requires d > 0 && (c - 1) * d < n <= c * d
    ensures low * d <= n ==> low <= c
    ensures n <= high * d ==> c <= high
  {
    if low * d <= n {
      ScaleOrder(low, c, d);
    }
    if n <= high * d {
      ScaleOrder(high, c - 1, d);
    }
  }

  /**
   * Exactness: when e is the binary exponent of 10^p, high * 2^64 - low is the scaled power rounded up, low is a word,
   * and high has its top bit set and exceeds a word by one at most.
   */
  lemma PairExact(p: int, e: int)
    requires IsFloorLog(p, e)
    ensures var (high, low) := PairAt(p, e);
            && IsCeiling(high * WORD - low, p, e)
            && 0 <= low < WORD
            && WORD / 2 <= high <= WORD
  {
    var (n, d) := Scaled(p, 127 - e);
    RoundedUpIsCeiling(p, e);
    ScaledOrder(p, e, 127);
    ScaledOrder(p, e + 1, 128);
    WordPowers();
    CeilingBounds(n, d, RoundedUp(p, e), Pow(2, 127), Pow(2, 128));
  }

  lemma WordPowers()
    ensures Pow(2, 64) == WORD && Pow(2, 127) == WORD / 2 * WORD && Pow(2, 128) == WORD * WORD
  {
    assert Pow(2, 8) == 0x100;
    Twice(2, 8, 0x100);
    Twice(2, 16, 0x1_0000);
    Twice(2, 32, 0x1_0000_0000);
    assert Pow(2, 64) == 2 * Pow(2, 63);
    PowAdd(2, 63, 64);
    PowAdd(2, 64, 64);
  }

  /** Nothing else represents the scaled power: a pair with a word for low and the exact ceiling is generated. */
  lemma PairUnique(p: int, e: int, high: int, low: int)
    requires 0 <= low < WORD && IsCeiling(high * WORD - low, p, e)
    ensures PairAt(p, e) == (high, low)
  {
    var (n, d) := Scaled(p, 127 - e);
    var c, r := high * WORD - low, RoundedUp(p, e);
    RoundedUpIsCeiling(p, e);
    CeilingUnique(n, d, c, r);
    assert (r + WORD - 1) / WORD == high;
  }

  lemma CeilingUnique(n: nat, d: nat, c: int, r: int)
    requires d > 0 && (c - 1) * d < n <= c * d && (r - 1) * d < n <= r * d
    ensures c == r
  {
    ScaleOrder(c, r - 1, d);
    ScaleOrder(r, c - 1, d);
  }

  // The fixed-point logarithm.

  /** No fraction with a denominator up to 642 lies strictly between the neighbours 485/146 and 1651/497. */
  lemma NoFractionBetween(n: int, p: int)
    requires 0 < p <= 642
    ensures 146 * n <= 485 * p || 497 * n >= 1651 * p
  {
  }

  /** 2^x stays below 10^y, by a part in 2^64, when x/y is at most 485/146. */
  lemma BelowByLowerBracket(x: nat, y: nat)
    requires y > 0 && 146 * x <= 485 * y
    ensures Pow(2, x) * WORD <= (WORD - 1) * Pow(10, y)
  {
    PowTimes(2, x, 146);
    PowTimes(2, 485, y);
    PowExponentMonotone(2, x * 146, 485 * y);
    PowTimes(10, 146, y);
    PowTimes(10, y, 146);
    assert y * 146 == 146 * y;
    LowerBracket();
    RootGap(Pow(2, x), Pow(10, y), 146, Pow(2, 485), Pow(10, 146), y, WORD);
  }

  /** 10^y stays below 2^x, by a part in 2^64, when x/y is at least 1651/497. */
  lemma BelowByUpperBracket(x: nat, y: nat)
    requires y > 0 && 497 * x >= 1651 * y
    ensures Pow(10, y) * WORD <= (WORD - 1) * Pow(2, x)
  {
    PowTimes(10, y, 497);
    PowTimes(10, 497, y);
    assert y * 497 == 497 * y;
    PowTimes(2, 1651, y);
    PowTimes(2, x, 497);
    PowExponentMonotone(2, 1651 * y, x * 497);
    UpperBracket();
    RootGap(Pow(10, y), Pow(2, x), 497, Pow(10, 497), Pow(2, 1651), y, WORD);
  }

  lemma Strict(x: nat, y: nat)
    requires x * WORD <= (WORD - 1) * y && y > 0
    ensures x < y
  {
  }

  lemma ExponentBrackets(p: int)
    requires 0 < p <= 642
    ensures var e := BinaryExponent(p); e >= 0 && 146 * e <= 485 * p && 1651 * p <= 497 * (e + 1)
    ensures var e := BinaryExponent(-p); e < 0 && 146 * (-e - 1) <= 485 * p && 1651 * p <= 497 * -e
  {
    NoFractionBetween(BinaryExponent(p), p);
    NoFractionBetween(BinaryExponent(p) + 1, p);
    NoFractionBetween(-BinaryExponent(-p), p);
    NoFractionBetween(-BinaryExponent(-p) - 1, p);
  }

  lemma WithinReachAbove(p: int, e: int)
    requires p > 0 && e >= 0 && 146 * e <= 485 * p && 1651 * p <= 497 * (e + 1)
    ensures IsFloorLog(p, e)
    ensures DecimalSide(p, e + 1) * WORD <= (WORD - 1) * BinarySide(p, e + 1)
  {
    BelowByLowerBracket(e, p);
    BelowByUpperBracket(e + 1, p);
    PowPositive(10, p);
    PowPositive(2, e + 1);
    Strict(Pow(2, e), Pow(10, p));
    Strict(Pow(10, p), Pow(2, e + 1));
  }

  lemma WithinReachBelow(q: int, m: int)
    requires q > 0 && m > 0 && 146 * (m - 1) <= 485 * q && 1651 * q <= 497 * m
    ensures IsFloorLog(-q, -m)
    ensures DecimalSide(-q, 1 - m) * WORD <= (WORD - 1) * BinarySide(-q, 1 - m)
  {
    BelowByUpperBracket(m, q);
    BelowByLowerBracket(m - 1, q);
    PowPositive(10, q);
    PowPositive(2, m);
    Strict(Pow(10, q), Pow(2, m));
    Strict(Pow(2, m - 1), Pow(10, q));
    SidesBelow(q, m);
    SidesBelow(q, m - 1);
  }

  /** For a negative power and a negative exponent only one factor is left on each side. */
  lemma SidesBelow(q: int, m: int)
    requires q >= 0 && m >= 0
    ensures DecimalSide(-q, -m) == Pow(2, m) && BinarySide(-q, -m) == Pow(10, q)
  {
    assert Pow(10, 0) == 1 && Pow(2, 0) == 1;
  }

  /** What a power within reach gives: the exponent is the logarithm, and 10^p is a part in 2^64 below 2^(e+1). */
  lemma WithinReach(p: int)
    requires -642 <= p <= 642
    ensures IsFloorLog(p, BinaryExponent(p))
    ensures var f := BinaryExponent(p) + 1; DecimalSide(p, f) * WORD <= (WORD - 1) * BinarySide(p, f)
  {
    if p > 0 {
      ExponentBrackets(p);
      WithinReachAbove(p, BinaryExponent(p));
    } else if p < 0 {
      ExponentBrackets(-p);
      WithinReachBelow(-p, -BinaryExponent(p));
    }
  }

  /** The formula is the exact binary exponent of 10^p for every power up to 642 in magnitude. */
  lemma ExponentExact(p: int)
    requires -642 <= p <= 642
    ensures IsFloorLog(p, BinaryExponent(p))
  {
    WithinReach(p);
  }

  /** 643 is the first power, on either side, for which the formula is one too large or too small. */
  lemma ExponentFailsBeyond()
    ensures !IsFloorLog(643, BinaryExponent(643))
    ensures !IsFloorLog(-643, BinaryExponent(-643))
  {
    TenTo643();
    assert BinaryExponent(643) == 2136;
    assert BinaryExponent(-643) == -2137;
  }

  /** Every power up to 642 in magnitude passes the word assertion; the registered table is well inside. */
  lemma PairFits(p: int)
    requires -642 <= p <= 642
    ensures PowerPair(p) == Some(PairAt(p, BinaryExponent(p)))
    ensures WORD / 2 <= PowerPair(p).value.0
  {
    var e := BinaryExponent(p);
    WithinReach(p);
    PairExact(p, e);
    var (n, d) := Scaled(p, 127 - e);
    var s := ScaleFactor(p, e + 1, 128);
    FitArithmetic(DecimalSide(p, e + 1), BinarySide(p, e + 1), s, n, d);
    RoundedUpIsCeiling(p, e);
    CeilingBounds(n, d, RoundedUp(p, e), 0, (WORD - 1) * WORD);
  }

  lemma FitArithmetic(a: nat, b: nat, s: nat, n: nat, d: nat)
    requires a * WORD <= (WORD - 1) * b && n == a * s
    requires Pow(2, 128) * d == b * s
    ensures n <= (WORD - 1) * WORD * d
  {
    WordPowers();
    calc {
      n * WORD;
      { Exchange(a, s, WORD, 1); }
      (a * WORD) * s;
    <= { ProductMonotone(a * WORD, (WORD - 1) * b, s, s); }
      ((WORD - 1) * b) * s;
      { Associate(WORD - 1, b, s); }
      (WORD - 1) * (WORD * WORD * d);
      ((WORD - 1) * WORD * d) * WORD;
    }
  }

  // The table.

  function SignedWord(value: int): int
  {
    if value < WORD / 2 then value else value - WORD
  }

  /** The two words of one row, in the order they are written. */
  function Row(p: int): seq<int>
  {
    var (high, low) := PairAt(p, BinaryExponent(p));
    [SignedWord(high), SignedWord(low)]
  }

  function Rows(from: int, upTo: int): (words: seq<int>)
    requires from <= upTo
    ensures |words| == 2 * (upTo - from)
    decreases upTo - from
  {
    if from == upTo then [] else Row(from) + Rows(from + 1, upTo)
  }

  /** The words of the generated data block. */
  function GeneratedWords(): seq<int>
  {
    Rows(MIN_POWER, MAX_POWER + 1)
  }

  /** What a reader of a signed 64-bit word takes it to be as an unsigned one. */
  function UnsignedWord(word: int): int
  {
    word % WORD
  }

  lemma {:induction false} RowAt(from: int, upTo: int, p: int)
    requires from <= p < upTo
    ensures Rows(from, upTo)[2 * (p - from)] == Row(p)[0]
    ensures Rows(from, upTo)[2 * (p - from) + 1] == Row(p)[1]
    decreases upTo - from
  {
    var row, rest := Row(from), Rows(from + 1, upTo);
    assert Rows(from, upTo) == row + rest && |row| == 2;
    if from < p {
      RowAt(from + 1, upTo, p);
      PairBefore(row, rest, 2 * (p - from - 1));
    }
  }

  lemma PairBefore(row: seq<int>, rest: seq<int>, k: nat)
    requires |row| == 2 && k + 1 < |rest|
    ensures (row + rest)[k + 2] == rest[k] && (row + rest)[k + 3] == rest[k + 1]
  {
  }

  lemma SignedWordReads(value: int)
    requires 0 <= value < WORD
    ensures -(WORD / 2) <= SignedWord(value) < WORD / 2 && UnsignedWord(SignedWord(value)) == value
  {
  }

  /**
   * Reading a generated block back: the row of p, with each word read as unsigned, is a normalised pair whose value
   * high * 2^64 - low is 10^p scaled to 128 bits at its true binary exponent and rounded up.
   */
  lemma RowsReadBack(from: int, upTo: int, p: int)
    requires -642 <= from <= p < upTo <= 643
    ensures var k := 2 * (p - from);
            var words := Rows(from, upTo);
            var e := BinaryExponent(p);
            var high, low := UnsignedWord(words[k]), UnsignedWord(words[k + 1]);
            && -(WORD / 2) <= words[k] < WORD / 2
            && -(WORD / 2) <= words[k + 1] < WORD / 2
            && PowerPair(p) == Some((high, low))
            && WORD / 2 <= high
            && IsFloorLog(p, e)
            && IsCeiling(high * WORD - low, p, e)
  {
    var e := BinaryExponent(p);
    ExponentExact(p);
    PairFits(p);
    PairExact(p, e);
    RowAt(from, upTo, p);
    SignedWordReads(PairAt(p, e).0);
    SignedWordReads(PairAt(p, e).1);
  }

  /** Every row of the generated table is the pair of its power. */
  lemma GeneratedReads(p: int)
    requires MIN_POWER <= p <= MAX_POWER
    ensures var k := 2 * (p - MIN_POWER);
            var words := GeneratedWords();
            k + 1 < |words| && PowerPair(p) == Some((UnsignedWord(words[k]), UnsignedWord(words[k + 1])))
  {
    RowAt(MIN_POWER, MAX_POWER + 1, p);
    RowsReadBack(MIN_POWER, MAX_POWER + 1, p);
  }
}
