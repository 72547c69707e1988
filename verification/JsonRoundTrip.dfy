/**
 * Decoding what the printer wrote. The decoder gives back the document itself, except that a high surrogate directly
 * followed by a low one comes back as the single code point the two stand for.
 */
module JsonRoundTrip {
  import opened Wrappers
  import opened Json

  // What decoding does to string values.

  function JoinedText(t: Text): Text
  {
    if t == [] then []
    else if |t| >= 2 && IsHigh(t[0]) && IsLow(t[1]) then [Pair(t[0], t[1])] + JoinedText(t[2..])
    else [t[0]] + JoinedText(t[1..])
  }

  function JoinedDoc(d: Doc): Doc
    decreases d, 0
  {
    match d
    case Str(t) => Str(JoinedText(t))
    case Arr(items) => Arr(JoinedItems(items))
    case Obj(members) => Obj(JoinedMembers(members))
    case _ => d
  }

  function JoinedItems(items: seq<Doc>): (r: seq<Doc>)
    ensures |r| == |items|
    decreases items, 1
  {
    if items == [] then [] else [JoinedDoc(items[0])] + JoinedItems(items[1..])
  }

  function JoinedMembers(members: seq<Member>): (r: seq<Member>)
    ensures |r| == |members|
    decreases members, 1
  {
    if members == [] then []
    else [Member(JoinedText(members[0].key), JoinedDoc(members[0].value))] + JoinedMembers(members[1..])
  }

  /** Every float is spelled as one. */
  ghost predicate FloatsValid(d: Doc)
  {
    match d
    case Float(lexeme) => IsFloatLexeme(lexeme)
    case Arr(items) => forall e | e in items :: FloatsValid(e)
    case Obj(members) => forall m: Member | m in members :: FloatsValid(m.value)
    case _ => true
  }

  // Strings.

  lemma HexDigitValue(n: nat)
    requires n < 16
    ensures HexValue(HexDigit(n)) == Some(n)
  {
  }

  lemma HexParts(unit: nat)
    requires unit < 0x10000
    ensures unit == unit / 4096 * 4096 + unit / 256 % 16 * 256 + unit / 16 % 16 * 16 + unit % 16
    ensures unit / 4096 < 16
  {
    assert unit / 256 == unit / 4096 * 16 + unit / 256 % 16;
    assert unit / 16 == unit / 256 * 16 + unit / 16 % 16;
  }

  lemma EscapeReads(unit: nat, rest: string)
    requires unit < 0x10000
    ensures var s := UnicodeEscapeTo(unit, rest);
            |s| == 6 + |rest| && s[0] == '\\' && s[1] == 'u' && s[6..] == rest && Hex4(s[2..]) == Some(unit)
  {
    var s := UnicodeEscapeTo(unit, rest);
    var a, b, c, d := unit / 4096, unit / 256 % 16, unit / 16 % 16, unit % 16;
    HexParts(unit);
    HexDigitValue(a);
    HexDigitValue(b);
    HexDigitValue(c);
    HexDigitValue(d);
    assert s[2..][0] == HexDigit(a) && s[2..][1] == HexDigit(b) && s[2..][2] == HexDigit(c) && s[2..][3] == HexDigit(d);
  }

  /** A low surrogate escape is read as such; any other escape is not. */
  lemma UnitEscape(unit: nat, rest: string)
    requires unit < 0x10000
    ensures LowEscape(UnicodeEscapeTo(unit, rest)) == if IsLow(unit) then Some(unit) else None
  {
    EscapeReads(unit, rest);
  }

  /** How a code point that starts with a \\u escape is read. */
  lemma UnitReads(unit: nat, rest: string)
    requires unit < 0x10000
    ensures ParseCode(UnicodeEscapeTo(unit, rest))
         == if IsHigh(unit) && LowEscape(rest).Some? then Some((Pair(unit, LowEscape(rest).value), rest[6..]))
            else Some((unit, rest))
  {
    EscapeReads(unit, rest);
    var s := UnicodeEscapeTo(unit, rest);
    assert s[6..] == rest;
    if IsHigh(unit) && LowEscape(rest).Some? {
      assert s[12..] == rest[6..];
    }
  }

  lemma LowEscapeOf(t: Text, rest: string)
    ensures LowEscape(EscapeTo(t, rest)) == if t != [] && IsLow(t[0]) then Some(t[0]) else None
  {
    if t != [] {
      CodeLowEscape(t[0], EscapeTo(t[1..], rest));
    }
  }

  lemma CodeLowEscape(c: CodePoint, after: string)
    ensures LowEscape(EscapeCodeTo(c, after)) == if IsLow(c) then Some(c) else None
  {
    if c >= 0x10000 {
      UnitEscape(HighSurrogate(c), UnicodeEscapeTo(LowSurrogate(c), after));
    } else {
      UnitEscape(c, after);
    }
  }

  lemma PairReads(high: nat, low: nat, rest: string)
    requires IsHigh(high) && IsLow(low)
    ensures ParseCode(UnicodeEscapeTo(high, UnicodeEscapeTo(low, rest))) == Some((Pair(high, low), rest))
  {
    var second := UnicodeEscapeTo(low, rest);
    UnitReads(high, second);
    UnitEscape(low, rest);
    assert second[6..] == rest;
  }

  lemma SurrogatesPair(c: CodePoint)
    requires c >= 0x10000
    ensures var high, low := HighSurrogate(c), LowSurrogate(c); IsHigh(high) && IsLow(low) && Pair(high, low) == c
  {
  }

  lemma CodeReads(c: CodePoint, rest: string)
    requires IsHigh(c) ==> LowEscape(rest).None?
    ensures ParseCode(EscapeCodeTo(c, rest)) == Some((c, rest))
  {
    var s := EscapeCodeTo(c, rest);
    if c >= 0x10000 {
      SurrogatesPair(c);
      PairReads(HighSurrogate(c), LowSurrogate(c), rest);
    } else if 0x20 <= c <= 0x7E && c != 0x22 && c != 0x5C {
      assert s[1..] == rest;
    } else if c == 0x22 || c == 0x5C || c == 0x0A || c == 0x0D || c == 0x09 || c == 0x0C || c == 0x08 {
      assert s[2..] == rest;
    } else {
      UnitReads(c, rest);
    }
  }

  lemma EscapeCodeStart(c: CodePoint, rest: string)
    ensures EscapeCodeTo(c, rest) != "" && EscapeCodeTo(c, rest)[0] != '"'
  {
  }

  lemma TextStep(c: CodePoint, s: string, rest: string, t: Text, after: string)
    requires s != "" && s[0] != '"' && ParseCode(s) == Some((c, rest)) && ParseText(rest) == Some((t, after))
    ensures ParseText(s) == Some(([c] + t, after))
  {
  }

  lemma {:induction false} TextReads(t: Text, rest: string)
    ensures ParseText(EscapeTo(t, rest)) == Some((JoinedText(t), rest))
    decreases |t|
  {
    var s := EscapeTo(t, rest);
    if t == [] {
      assert s[1..] == rest;
    } else if |t| >= 2 && IsHigh(t[0]) && IsLow(t[1]) {
      var after := EscapeTo(t[2..], rest);
      assert t[1..][1..] == t[2..];
      assert EscapeTo(t[1..], rest) == EscapeCodeTo(t[1], after);
      assert s == UnicodeEscapeTo(t[0], UnicodeEscapeTo(t[1], after));
      EscapeCodeStart(t[0], UnicodeEscapeTo(t[1], after));
      PairReads(t[0], t[1], after);
      TextReads(t[2..], rest);
      TextStep(Pair(t[0], t[1]), s, after, JoinedText(t[2..]), rest);
    } else {
      var after := EscapeTo(t[1..], rest);
      LowEscapeOf(t[1..], rest);
      CodeReads(t[0], after);
      TextReads(t[1..], rest);
      EscapeCodeStart(t[0], after);
      TextStep(t[0], s, after, JoinedText(t[1..]), rest);
    }
  }

  // Numbers.

  /** What may follow a number without becoming part of it. */
  predicate EndsNumber(rest: string)
  {
    rest == "" || !IsNumberChar(rest[0])
  }

  lemma {:induction false} NumberRunOf(s: string, rest: string)
    requires NumberRun(s) == |s| && EndsNumber(rest)
    ensures NumberRun(s + rest) == |s|
  {
    if s == "" {
      assert s + rest == rest;
    } else {
      NumberRunOf(s[1..], rest);
      assert (s + rest)[1..] == s[1..] + rest;
    }
  }

  lemma {:induction false} DigitRunAppend(s: string, c: char)
    requires AllDigits(s) && IsDigit(c)
    ensures AllDigits(s + [c])
  {
    if s != "" {
      DigitRunAppend(s[1..], c);
      assert (s + [c])[1..] == s[1..] + [c];
    }
  }

  lemma ZeroText(s: string)
    requires IsWholeText(s)
    ensures s[0] == '0' ==> DigitsValue(s) == 0
  {
    if |s| == 1 {
      assert s[..0] == "";
    }
  }

  lemma {:induction false} DigitsRead(n: nat)
    ensures IsWholeText(Digits(n)) && DigitsValue(Digits(n)) == n
  {
    if n < 10 {
      var s := [Digit(n)];
      assert s[1..] == "";
      assert s[..0] == "";
    } else {
      DigitsRead(n / 10);
      var s := Digits(n / 10);
      DigitRunAppend(s, Digit(n % 10));
      assert (s + [Digit(n % 10)])[..|s|] == s;
      ZeroText(s);
    }
  }

  lemma {:induction false} DigitsAreNumberChars(s: string)
    requires AllDigits(s)
    ensures NumberRun(s) == |s|
  {
    if s != "" {
      DigitsAreNumberChars(s[1..]);
    }
  }

  lemma IntTextIs(i: int)
    ensures var s := IntText(i); IsIntText(s) && IntValue(s) == i && NumberRun(s) == |s|
  {
    var n: nat := if i < 0 then -i else i;
    DigitsRead(n);
    DigitsAreNumberChars(Digits(n));
    assert i < 0 ==> IntText(i)[1..] == Digits(n);
    assert IsDigit(Digits(n)[0]);
  }

  lemma IntReads(i: int, rest: string)
    requires EndsNumber(rest)
    ensures ParseValue(IntText(i) + rest) == Some((Int(i), rest))
  {
    var s := IntText(i);
    IntTextIs(i);
    NumberRunOf(s, rest);
    assert (s + rest)[..|s|] == s && (s + rest)[|s|..] == rest;
    DigitFollowsSign(s);
  }

  lemma FloatReads(lexeme: string, rest: string)
    requires FloatsValid(Float(lexeme)) && EndsNumber(rest)
    ensures ParseValue(lexeme + rest) == Some((Float(lexeme), rest))
  {
    if IsFloatConstant(lexeme) {
      ConstantsRead(rest);
    } else {
      NumberRunOf(lexeme, rest);
      var s := lexeme + rest;
      assert s[..|lexeme|] == lexeme && s[|lexeme|..] == rest;
      FloatIsNotInt(lexeme);
      DigitFollowsSign(lexeme);
    }
  }

  lemma ConstantsRead(rest: string)
    ensures ParseValue("NaN" + rest) == Some((Float("NaN"), rest))
    ensures ParseValue("Infinity" + rest) == Some((Float("Infinity"), rest))
    ensures ParseValue("-Infinity" + rest) == Some((Float("-Infinity"), rest))
  {
    assert ("NaN" + rest)[3..] == rest;
    assert ("Infinity" + rest)[8..] == rest;
    assert ("-Infinity" + rest)[9..] == rest;
  }

  /** No number starts like the negative constant. */
  lemma DigitFollowsSign(s: string)
    requires IsFloatText(s) || IsIntText(s)
    ensures s != "" && (s[0] == '-' ==> |s| > 1 && IsDigit(s[1]))
  {
  }

  lemma FloatIsNotInt(s: string)
    requires IsFloatText(s)
    ensures !IsIntText(s) && s != "" && (IsDigit(s[0]) || s[0] == '-')
  {
  }

  // Documents.

  lemma PrintStarts(d: Doc, rest: string)
    requires FloatsValid(d)
    ensures var s := PrintTo(d, rest); s != "" && !IsSpace(s[0]) && s[0] != ']' && s[0] != '}'
  {
    if d.Int? {
      DigitsRead(if d.i < 0 then -d.i else d.i);
    }
  }

  lemma ArrayReads(inner: string, items: seq<Doc>, rest: string)
    requires inner != "" && !IsSpace(inner[0]) && inner[0] != ']'
    requires ParseItems(inner) == Some((items, rest))
    ensures ParseValue(['['] + inner) == Some((Arr(items), rest))
  {
    var s := ['['] + inner;
    assert s[1..] == inner;
    assert SkipSpace(inner) == inner;
  }

  lemma ObjectReads(inner: string, members: seq<Member>, rest: string)
    requires inner != "" && !IsSpace(inner[0]) && inner[0] != '}'
    requires ParseMembers(inner) == Some((members, rest))
    ensures ParseValue(['{'] + inner) == Some((Obj(members), rest))
  {
    var s := ['{'] + inner;
    assert s[1..] == inner;
    assert SkipSpace(inner) == inner;
  }

  lemma EmptyReads(rest: string)
    ensures ParseValue("[]" + rest) == Some((Arr([]), rest))
    ensures ParseValue("{}" + rest) == Some((Obj([]), rest))
  {
    assert ("[]" + rest)[1..] == [']'] + rest && ([']'] + rest)[1..] == rest;
    assert ("{}" + rest)[1..] == ['}'] + rest && (['}'] + rest)[1..] == rest;
  }

  lemma WordsRead(rest: string)
    ensures ParseValue("null" + rest) == Some((Null, rest))
    ensures ParseValue("true" + rest) == Some((Bool(true), rest))
    ensures ParseValue("false" + rest) == Some((Bool(false), rest))
  {
    assert ("null" + rest)[4..] == rest;
    assert ("true" + rest)[4..] == rest;
    assert ("false" + rest)[5..] == rest;
  }

  lemma StringReads(t: Text, rest: string)
    ensures ParseValue(['"'] + EscapeTo(t, rest)) == Some((Str(JoinedText(t)), rest))
  {
    TextReads(t, rest);
    assert (['"'] + EscapeTo(t, rest))[1..] == EscapeTo(t, rest);
  }

  /** Decoding a printed document gives it back, joined, and leaves exactly what followed. */
  lemma {:induction false} ValueReads(d: Doc, rest: string)
    requires FloatsValid(d) && EndsNumber(rest)
    ensures ParseValue(PrintTo(d, rest)) == Some((JoinedDoc(d), rest))
    decreases d, 0
  {
    if d.Arr? && d.items != [] {
      var items := d.items;
      var tail := PrintItemsTo(items[1..], rest);
      ItemsRead(items, rest);
      PrintStarts(items[0], tail);
      ArrayReads(PrintTo(items[0], tail), JoinedItems(items), rest);
    } else if d.Obj? && d.members != [] {
      MembersRead(d.members, rest);
      var inner := PrintMemberTo(d.members, rest);
      ObjectReads(inner, JoinedMembers(d.members), rest);
    } else {
      LeafReads(d, rest);
    }
  }

  lemma LeafReads(d: Doc, rest: string)
    requires FloatsValid(d) && EndsNumber(rest)
    requires (d.Arr? ==> d.items == []) && (d.Obj? ==> d.members == [])
    ensures ParseValue(PrintTo(d, rest)) == Some((JoinedDoc(d), rest))
  {
    match d
    case Null => WordsRead(rest);
    case Bool(b) => WordsRead(rest);
    case Int(i) => IntReads(i, rest);
    case Float(lexeme) => FloatReads(lexeme, rest);
    case Str(t) => StringReads(t, rest);
    case Arr(items) => EmptyReads(rest);
    case Obj(members) => EmptyReads(rest);
  }

  lemma {:induction false} ItemsRead(items: seq<Doc>, rest: string)
    requires items != [] && (forall e | e in items :: FloatsValid(e))
    ensures ParseItems(PrintTo(items[0], PrintItemsTo(items[1..], rest))) == Some((JoinedItems(items), rest))
    decreases items, 1
  {
    var next := items[1..];
    var tail := PrintItemsTo(next, rest);
    ValueReads(items[0], tail);
    if next != [] {
      ItemsRead(next, rest);
      PrintStarts(next[0], PrintItemsTo(next[1..], rest));
    }
    assert JoinedItems(items) == [JoinedDoc(items[0])] + JoinedItems(next);
    ItemStep(PrintTo(items[0], tail), JoinedDoc(items[0]), tail, rest, JoinedItems(next));
  }

  /** One step of the item loop, given how the item and the later items read. */
  lemma ItemStep(value: string, d: Doc, tail: string, rest: string, later: seq<Doc>)
    requires ParseValue(value) == Some((d, tail))
    requires tail != ""
    requires later == [] ==> tail == [']'] + rest
    requires later != [] ==> tail[0] == ',' && tail[1..] != "" && !IsSpace(tail[1])
    requires later != [] ==> ParseItems(tail[1..]) == Some((later, rest))
    ensures ParseItems(value) == Some(([d] + later, rest))
  {
    assert SkipSpace(tail) == tail;
    if later == [] {
      assert tail[1..] == rest && [d] + later == [d];
    } else {
      assert SkipSpace(tail[1..]) == tail[1..];
    }
  }

  lemma {:induction false} MembersRead(members: seq<Member>, rest: string)
    requires members != [] && (forall m: Member | m in members :: FloatsValid(m.value))
    ensures ParseMembers(PrintMemberTo(members, rest)) == Some((JoinedMembers(members), rest))
    decreases members, 1
  {
    var key, d, next := members[0].key, members[0].value, members[1..];
    var tail := PrintMembersTo(next, rest);
    var value := PrintTo(d, tail);
    assert members[0] in members;
    TextReads(key, [':'] + value);
    PrintStarts(d, tail);
    ValueReads(d, tail);
    if next != [] {
      MembersRead(next, rest);
      assert tail == [','] + PrintMemberTo(next, rest);
    }
    assert JoinedMembers(members) == [Member(JoinedText(key), JoinedDoc(d))] + JoinedMembers(next);
    MemberStep(EscapeTo(key, [':'] + value), JoinedText(key), value, JoinedDoc(d), tail, rest, JoinedMembers(next));
  }

  /** One step of the member loop, given how the key, the value and the later members read. */
  lemma MemberStep(body: string, key: Text, value: string, d: Doc, tail: string, rest: string, later: seq<Member>)
    requires ParseText(body) == Some((key, [':'] + value))
    requires value != "" && !IsSpace(value[0]) && ParseValue(value) == Some((d, tail))
    requires tail != ""
    requires later == [] ==> tail == ['}'] + rest
    requires later != [] ==> tail[0] == ',' && tail[1..] != "" && !IsSpace(tail[1])
    requires later != [] ==> ParseMembers(tail[1..]) == Some((later, rest))
    ensures ParseMembers(['"'] + body) == Some(([Member(key, d)] + later, rest))
  {
    var s := ['"'] + body;
    assert s[1..] == body;
    ColonThen(value);
    assert SkipSpace(tail) == tail;
    if later == [] {
      assert tail[1..] == rest && [Member(key, d)] + later == [Member(key, d)];
    } else {
      assert SkipSpace(tail[1..]) == tail[1..];
    }
  }

  lemma ColonThen(value: string)
    requires value != "" && !IsSpace(value[0])
    ensures var colon := [':'] + value;
            SkipSpace(colon) == colon && colon[0] == ':' && SkipSpace(colon[1..]) == value
  {
    var colon := [':'] + value;
    assert SkipSpace(colon) == colon && colon[1..] == value && SkipSpace(value) == value;
  }

  /** The round trip: loading printed text gives the document with its surrogate pairs joined. */
  lemma LoadPrinted(d: Doc)
    requires FloatsValid(d)
    ensures Load(Print(d)) == Some(JoinedDoc(d))
  {
    ValueReads(d, "");
    PrintStarts(d, "");
  }

  // Two documents print alike exactly when they decode alike.

  lemma PairSplits(high: nat, low: nat)
    requires IsHigh(high) && IsLow(low)
    ensures Pair(high, low) >= 0x10000
    ensures HighSurrogate(Pair(high, low)) == high && LowSurrogate(Pair(high, low)) == low
  {
  }

  lemma {:induction false} JoinedTextPrints(t: Text, rest: string)
    ensures EscapeTo(JoinedText(t), rest) == EscapeTo(t, rest)
    decreases |t|
  {
    if |t| >= 2 && IsHigh(t[0]) && IsLow(t[1]) {
      JoinedTextPrints(t[2..], rest);
      PairSplits(t[0], t[1]);
      assert t[1..][1..] == t[2..];
      var after := EscapeTo(t[2..], rest);
      assert EscapeTo(t[1..], rest) == EscapeCodeTo(t[1], after);
      assert JoinedText(t)[1..] == JoinedText(t[2..]);
    } else if t != [] {
      JoinedTextPrints(t[1..], rest);
      assert JoinedText(t)[1..] == JoinedText(t[1..]);
    }
  }

  lemma {:induction false} JoinedPrints(d: Doc, rest: string)
    ensures PrintTo(JoinedDoc(d), rest) == PrintTo(d, rest)
    decreases d, 0
  {
    match d
    case Str(t) => JoinedTextPrints(t, rest);
    case Arr(items) =>
      if items != [] {
        JoinedItemsPrint(items[1..], rest);
        JoinedPrints(items[0], PrintItemsTo(items[1..], rest));
        assert JoinedItems(items)[1..] == JoinedItems(items[1..]);
      }
    case Obj(members) =>
      if members != [] {
        JoinedMemberPrints(members, rest);
      }
    case _ =>
  }

  lemma {:induction false} JoinedItemsPrint(items: seq<Doc>, rest: string)
    ensures PrintItemsTo(JoinedItems(items), rest) == PrintItemsTo(items, rest)
    decreases items, 1
  {
    if items != [] {
      JoinedItemsPrint(items[1..], rest);
      JoinedPrints(items[0], PrintItemsTo(items[1..], rest));
      assert JoinedItems(items)[1..] == JoinedItems(items[1..]);
    }
  }

  lemma {:induction false} JoinedMemberPrints(members: seq<Member>, rest: string)
    requires members != []
    ensures PrintMemberTo(JoinedMembers(members), rest) == PrintMemberTo(members, rest)
    decreases members, 0
  {
    var next := members[1..];
    if next != [] {
      JoinedMemberPrints(next, rest);
    }
    var tail := PrintMembersTo(next, rest);
    assert PrintMembersTo(JoinedMembers(next), rest) == tail;
    JoinedPrints(members[0].value, tail);
    JoinedTextPrints(members[0].key, [':'] + PrintTo(members[0].value, tail));
    assert JoinedMembers(members)[1..] == JoinedMembers(next);
  }

  /** Printing is injective up to the joining of surrogate pairs, and no further. */
  lemma PrintInjective(a: Doc, b: Doc)
    requires FloatsValid(a) && FloatsValid(b)
    ensures Print(a) == Print(b) <==> JoinedDoc(a) == JoinedDoc(b)
  {
    LoadPrinted(a);
    LoadPrinted(b);
    JoinedPrints(a, "");
    JoinedPrints(b, "");
  }

  // What decoding can produce.

  lemma {:induction false} DecodedTextJoined(s: string)
    requires ParseText(s).Some?
    ensures var t := ParseText(s).value.0;
            JoinedText(t) == t && (t != [] && IsLow(t[0]) ==> LowEscape(s).Some?)
    decreases |s|
  {
    if s[0] != '"' {
      var (c, rest) := ParseCode(s).value;
      DecodedTextJoined(rest);
      var t := ParseText(s).value.0;
      assert t == [c] + ParseText(rest).value.0;
      assert t[1..] == ParseText(rest).value.0;
      DecodedCode(s);
    }
  }

  /** A low surrogate comes only from its escape, and a lone high one only when no low escape follows. */
  lemma DecodedCode(s: string)
    requires ParseCode(s).Some?
    ensures var (c, rest) := ParseCode(s).value;
            (IsLow(c) ==> LowEscape(s).Some?) && (IsHigh(c) ==> LowEscape(rest).None?)
  {
  }

  /** Decoded documents are already joined, and their floats are numbers. */
  lemma {:induction false} DecodedJoined(s: string)
    requires ParseValue(s).Some?
    ensures var d := ParseValue(s).value.0; JoinedDoc(d) == d && FloatsValid(d)
    decreases |s|, 0
  {
    if IsDigit(s[0]) || s[0] == '-' {
      var n := NumberRun(s);
      NumberRunPrefix(s);
    } else if s[0] == '"' {
      DecodedTextJoined(s[1..]);
    } else if s[0] == '[' {
      var t := SkipSpace(s[1..]);
      if !(t != "" && t[0] == ']') {
        DecodedItemsJoined(t);
      }
    } else if s[0] == '{' {
      var t := SkipSpace(s[1..]);
      if !(t != "" && t[0] == '}') {
        DecodedMembersJoined(t);
      }
    }
  }

  lemma {:induction false} NumberRunPrefix(s: string)
    ensures NumberRun(s[..NumberRun(s)]) == NumberRun(s)
  {
    if s != "" && IsNumberChar(s[0]) {
      NumberRunPrefix(s[1..]);
      assert s[..NumberRun(s)][1..] == s[1..][..NumberRun(s[1..])];
    }
  }

  lemma {:induction false} DecodedItemsJoined(s: string)
    requires ParseItems(s).Some?
    ensures var items := ParseItems(s).value.0; JoinedItems(items) == items && forall e | e in items :: FloatsValid(e)
    decreases |s|, 1
  {
    DecodedJoined(s);
    var (d, rest) := ParseValue(s).value;
    var t := SkipSpace(rest);
    var items := ParseItems(s).value.0;
    if t[0] == ',' {
      DecodedItemsJoined(SkipSpace(t[1..]));
      assert items[1..] == ParseItems(SkipSpace(t[1..])).value.0;
      assert items == [d] + items[1..];
    } else {
      assert items == [d] && items[1..] == [];
    }
  }

  lemma {:induction false} DecodedMembersJoined(s: string)
    requires ParseMembers(s).Some?
    ensures var members := ParseMembers(s).value.0;
            JoinedMembers(members) == members && forall m: Member | m in members :: FloatsValid(m.value)
    decreases |s|, 1
  {
    DecodedTextJoined(s[1..]);
    var (key, rest) := ParseText(s[1..]).value;
    var colon := SkipSpace(rest);
    DecodedJoined(SkipSpace(colon[1..]));
    var (d, rest1) := ParseValue(SkipSpace(colon[1..])).value;
    var t := SkipSpace(rest1);
    var members := ParseMembers(s).value.0;
    if t[0] == ',' {
      DecodedMembersJoined(SkipSpace(t[1..]));
      assert members[1..] == ParseMembers(SkipSpace(t[1..])).value.0;
      assert members == [Member(key, d)] + members[1..];
    } else {
      assert members == [Member(key, d)] && members[1..] == [];
    }
  }

  /** So on decoded documents printing is injective outright, and loading undoes it exactly. */
  lemma DecodedPrintInjective(s: string, t: string)
    requires Load(s).Some? && Load(t).Some?
    ensures Print(Load(s).value) == Print(Load(t).value) <==> Load(s) == Load(t)
    ensures Load(Print(Load(s).value)) == Load(s)
  {
    DecodedJoined(SkipSpace(s));
    DecodedJoined(SkipSpace(t));
    PrintInjective(Load(s).value, Load(t).value);
    LoadPrinted(Load(s).value);
  }
}
