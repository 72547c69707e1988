/**
 * What the numbers of a document stand for: the exact value of a decimal spelling, and the floats that Python reads
 * and prints. Which double is nearest to a spelling is left to the reader of floats; what the tools rely on is stated.
 */
module Numbers {
  import opened Json
  import opened JsonRoundTrip

  // Decimal spellings.

  /** value times ten to the power e. */
  function Scaled(value: real, e: int): real
    decreases if e < 0 then -e else e
  {
    if e == 0 then value else if e > 0 then Scaled(value * 10.0, e - 1) else Scaled(value / 10.0, e + 1)
  }

  function ExponentValue(s: string): int
  {
    if |s| < 2 then 0
    else if s[1] == '-' then -DigitsValue(s[2..])
    else if s[1] == '+' then DigitsValue(s[2..])
    else DigitsValue(s[1..])
  }

  /** The number that is spelled, without its sign. */
  function Magnitude(s: string): real
  {
    var tail := Tail(Unsigned(s));
    var fraction := FractionPart(tail);
    Scaled(DigitsValue(WholePart(Unsigned(s)) + fraction) as real, ExponentValue(ExponentPart(tail)) - |fraction|)
  }

  predicate IsNegative(s: string)
  {
    s != "" && s[0] == '-'
  }

  /**
   * The spelling is read as the float equal to n, a power of two: it lies between the midpoints to the neighbouring
   * doubles, which are n / 2^53 below and n / 2^52 above, and both midpoints round to n.
   */
  predicate Denotes(s: string, n: nat)
  {
    && IsFloatText(s)
    && !IsNegative(s)
    && n as real - n as real / 18014398509481984.0 <= Magnitude(s) <= n as real + n as real / 9007199254740992.0
  }

  // Floats.

  datatype Double = Finite(negative: bool, magnitude: real) | Infinite(negative: bool) | NotANumber

  /** How Python reads the spelling of a float, and how it prints one. */
  datatype Floats = Floats(parse: string -> Double, repr: Double -> string)

  function Canonical(fl: Floats, s: string): string
  {
    fl.repr(fl.parse(s))
  }

  /** What is printed for a float that was read is read as that float. */
  predicate ReprReads(fl: Floats, s: string)
  {
    IsFloatLexeme(Canonical(fl, s)) && fl.parse(Canonical(fl, s)) == fl.parse(s)
  }

  /** The spelling is that of a whole number within the range where all are doubles. */
  predicate SpellsWhole(s: string, n: nat)
  {
    IsFloatText(s) && n <= 9007199254740992 && Magnitude(s) == n as real
  }

  /** Printing is read back, small whole numbers are read exactly, and the constants are read as what they name. */
  ghost predicate Sound(fl: Floats)
  {
    && (forall s | IsFloatLexeme(s) :: ReprReads(fl, s))
    && (forall s, n: nat | SpellsWhole(s, n) :: fl.parse(s) == Finite(IsNegative(s), n as real))
    && fl.parse("NaN") == NotANumber
    && fl.parse("Infinity") == Infinite(false)
    && fl.parse("-Infinity") == Infinite(true)
  }

  // Spellings with a point.

  lemma {:induction false} DigitRunOf(s: string, rest: string)
    requires AllDigits(s) && (rest == "" || !IsDigit(rest[0]))
    ensures DigitRun(s + rest) == |s| && NumberRun(s + rest) == |s| + NumberRun(rest)
  {
    if s == "" {
      assert s + rest == rest;
    } else {
      DigitRunOf(s[1..], rest);
      assert (s + rest)[1..] == s[1..] + rest;
    }
  }

  lemma DigitsThen(s: string, rest: string)
    requires AllDigits(s) && (rest == "" || !IsDigit(rest[0]))
    ensures WholePart(s + rest) == s && Tail(s + rest) == rest && NumberRun(s + rest) == |s| + NumberRun(rest)
  {
    DigitRunOf(s, rest);
  }

  lemma PointThen(fraction: string)
    requires AllDigits(fraction)
    ensures var tail := ['.'] + fraction;
            FractionPart(tail) == fraction && ExponentPart(tail) == "" && NumberRun(tail) == |tail|
  {
    DigitsThen(fraction, "");
    assert fraction + "" == fraction && (['.'] + fraction)[1..] == fraction;
  }

  lemma PointParts(whole: string, fraction: string, s: string)
    requires IsWholeText(whole) && AllDigits(fraction) && s == whole + (['.'] + fraction)
    ensures s != "" && IsDigit(s[0]) && Unsigned(s) == s && NumberRun(s) == |s|
    ensures WholePart(s) == whole && Tail(s) == ['.'] + fraction
  {
    DigitsThen(whole, ['.'] + fraction);
    PointThen(fraction);
    assert IsDigit(whole[0]);
  }

  lemma PartsSpell(whole: string, fraction: string, tail: string, s: string)
    requires Unsigned(s) == s && WholePart(s) == whole && Tail(s) == tail && tail != ""
    requires HasPoint(tail) && FractionPart(tail) == fraction && ExponentPart(tail) == ""
    requires IsWholeText(whole) && fraction != ""
    ensures IsFloatText(s) && Magnitude(s) == Scaled(DigitsValue(whole + fraction) as real, -|fraction|)
  {
  }

  /** Digits, a point and digits spell the number that all of them count, divided by ten for each after the point. */
  lemma PointSpells(whole: string, fraction: string, s: string)
    requires IsWholeText(whole) && fraction != "" && AllDigits(fraction) && s == whole + (['.'] + fraction)
    ensures IsFloatLexeme(s) && IsFloatText(s) && !IsNegative(s)
    ensures Magnitude(s) == Scaled(DigitsValue(whole + fraction) as real, -|fraction|)
  {
    PointParts(whole, fraction, s);
    PointThen(fraction);
    PartsSpell(whole, fraction, ['.'] + fraction, s);
  }

  /** A sign in front changes nothing but the sign. */
  lemma SignSpells(s: string)
    requires IsFloatText(s) && IsFloatLexeme(s) && !IsNegative(s)
    ensures var t := ['-'] + s;
            IsFloatLexeme(t) && IsFloatText(t) && IsNegative(t) && Magnitude(t) == Magnitude(s)
  {
    assert (['-'] + s)[1..] == s;
    assert IsDigit(WholePart(s)[0]);
  }

  lemma DigitPair(c: char, d: char)
    ensures DigitsValue([c, d]) == (c as int - '0' as int) * 10 + (d as int - '0' as int)
  {
    assert [c, d][..1] == [c] && [c][..0] == [];
    assert DigitsValue([c]) == c as int - '0' as int;
  }

  lemma PointSpellsWhole(whole: string, fraction: string, n: nat, s: string)
    requires IsWholeText(whole) && fraction != "" && AllDigits(fraction) && n <= 9007199254740992
    requires Scaled(DigitsValue(whole + fraction) as real, -|fraction|) == n as real
    requires s == whole + (['.'] + fraction)
    ensures IsFloatLexeme(s) && SpellsWhole(s, n) && !IsNegative(s)
  {
    PointSpells(whole, fraction, s);
  }

  lemma OneSpelled()
    ensures IsFloatLexeme("1.0") && SpellsWhole("1.0", 1) && !IsNegative("1.0")
  {
    DigitPair('1', '0');
    assert "1" + "0" == "10";
    PointSpellsWhole("1", "0", 1, "1.0");
  }

  lemma HundredHundredths()
    ensures Scaled(DigitsValue("100") as real, -2) == 1.0
  {
    DigitPair('1', '0');
    assert "100"[..2] == "10";
    assert DigitsValue("100") == 100;
    assert Scaled(100.0, -2) == Scaled(10.0, -1);
  }

  lemma OneSpelledLonger()
    ensures IsFloatLexeme("1.00") && SpellsWhole("1.00", 1) && !IsNegative("1.00")
  {
    HundredHundredths();
    assert "1" + "00" == "100";
    PointSpellsWhole("1", "00", 1, "1.00");
  }

  lemma ZeroSpelled()
    ensures IsFloatLexeme("0.0") && SpellsWhole("0.0", 0) && !IsNegative("0.0")
    ensures IsFloatLexeme("-0.0") && SpellsWhole("-0.0", 0) && IsNegative("-0.0")
  {
    DigitPair('0', '0');
    assert "0" + "0" == "00";
    PointSpellsWhole("0", "0", 0, "0.0");
    SignSpells("0.0");
    assert ['-'] + "0.0" == "-0.0";
  }

  // Floats that keep only whole numbers are sound: what is asked of floats is consistent.

  function WholeOrZero(r: real): nat
  {
    if r >= 0.0 && r == r.Floor as real then r.Floor else 0
  }

  function ParseWhole(s: string): Double
  {
    if s == "NaN" then NotANumber
    else if s == "Infinity" then Infinite(false)
    else if s == "-Infinity" then Infinite(true)
    else Finite(IsNegative(s), WholeOrZero(Magnitude(s)) as real)
  }

  function ReprWhole(x: Double): string
  {
    match x
    case NotANumber => "NaN"
    case Infinite(negative) => if negative then "-Infinity" else "Infinity"
    case Finite(negative, magnitude) =>
      var s := Digits(WholeOrZero(magnitude)) + (['.'] + "0");
      if negative then ['-'] + s else s
  }

  function WholeFloats(): Floats
  {
    Floats(ParseWhole, ReprWhole)
  }

  lemma TenthOf(digits: string)
    ensures Scaled(DigitsValue(digits + "0") as real, -1) == DigitsValue(digits) as real
  {
    var value := DigitsValue(digits);
    assert (digits + "0")[..|digits|] == digits;
    assert DigitsValue(digits + "0") == value * 10;
    assert Scaled(value as real * 10.0, -1) == value as real * 10.0 / 10.0;
  }

  lemma WholeOf(n: nat)
    ensures WholeOrZero(n as real) == n
  {
    assert (n as real).Floor == n;
  }

  lemma WholePrints(n: nat)
    ensures var s := Digits(n) + (['.'] + "0");
            && s != "" && IsDigit(s[0]) && IsFloatLexeme(s) && IsFloatText(s) && !IsNegative(s)
            && Magnitude(s) == n as real
  {
    DigitsRead(n);
    PointSpells(Digits(n), "0", Digits(n) + (['.'] + "0"));
    TenthOf(Digits(n));
    assert IsDigit(Digits(n)[0]);
  }

  lemma NotConstant(s: string)
    requires IsFloatText(s)
    ensures !IsFloatConstant(s)
  {
  }

  lemma SpelledReads(s: string, n: nat)
    requires IsFloatText(s) && Magnitude(s) == n as real
    ensures ParseWhole(s) == Finite(IsNegative(s), n as real)
  {
    NotConstant(s);
    WholeOf(n);
  }

  lemma WholeReads(negative: bool, n: nat)
    ensures var x := Finite(negative, n as real); IsFloatLexeme(ReprWhole(x)) && ParseWhole(ReprWhole(x)) == x
  {
    var s := Digits(n) + (['.'] + "0");
    WholeOf(n);
    WholePrints(n);
    if negative {
      SignSpells(s);
      SpelledReads(['-'] + s, n);
    } else {
      SpelledReads(s, n);
    }
  }

  lemma WholeReprReads(s: string)
    ensures ReprReads(WholeFloats(), s)
  {
    var x := ParseWhole(s);
    if x.Finite? {
      WholeReads(x.negative, WholeOrZero(Magnitude(s)));
    }
  }

  /** There are floats of which all this holds. */
  lemma SoundFloats()
    ensures Sound(WholeFloats())
  {
    forall s | IsFloatLexeme(s) ensures ReprReads(WholeFloats(), s) {
      WholeReprReads(s);
    }
    forall s, n: nat | SpellsWhole(s, n) ensures ParseWhole(s) == Finite(IsNegative(s), n as real) {
      SpelledReads(s, n);
    }
  }
}
