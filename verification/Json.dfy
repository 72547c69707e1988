/**
 * JSON text: the compact printer that escapes everything outside printable ASCII, and the decoder that reads it.
 *
 * A string value is a sequence of code points that may include lone surrogates, as Python's are. The printer writes a
 * code point beyond the basic plane as two surrogate escapes; the decoder joins a high escape with a low one that
 * follows it.
 */
module Json {
  import opened Wrappers

  type CodePoint = n: nat | n <= 0x10FFFF

  type Text = seq<CodePoint>

  /** A document as written: an object is its members in order, repeated keys included; a float is its spelling. */
  datatype Doc =
    | Null
    | Bool(b: bool)
    | Int(i: int)
    | Float(lexeme: string)
    | Str(text: Text)
    | Arr(items: seq<Doc>)
    | Obj(members: seq<Member>)

  datatype Member = Member(key: Text, value: Doc)

  /** The code points of a string. */
  function Codes(s: string): (t: Text)
    ensures |t| == |s|
  {
    seq(|s|, i requires 0 <= i < |s| => s[i] as int)
  }

  // Printing. Each printer takes what follows, so that no reassociation is ever needed.

  function HexDigit(n: nat): (c: char)
    requires n < 16
  {
    "0123456789abcdef"[n]
  }

  function UnicodeEscapeTo(unit: nat, rest: string): string
    requires unit < 0x10000
  {
    ['\\', 'u', HexDigit(unit / 4096), HexDigit(unit / 256 % 16), HexDigit(unit / 16 % 16), HexDigit(unit % 16)] + rest
  }

  function HighSurrogate(c: CodePoint): nat
    requires c >= 0x10000
  {
    0xD800 + (c - 0x10000) / 0x400
  }

  function LowSurrogate(c: CodePoint): nat
    requires c >= 0x10000
  {
    0xDC00 + (c - 0x10000) % 0x400
  }

  function EscapeCodeTo(c: CodePoint, rest: string): string
  {
    if c == 0x22 then ['\\', '"'] + rest
    else if c == 0x5C then ['\\', '\\'] + rest
    else if c == 0x0A then ['\\', 'n'] + rest
    else if c == 0x0D then ['\\', 'r'] + rest
    else if c == 0x09 then ['\\', 't'] + rest
    else if c == 0x0C then ['\\', 'f'] + rest
    else if c == 0x08 then ['\\', 'b'] + rest
    else if 0x20 <= c <= 0x7E then [c as char] + rest
    else if c < 0x10000 then UnicodeEscapeTo(c, rest)
    else UnicodeEscapeTo(HighSurrogate(c), UnicodeEscapeTo(LowSurrogate(c), rest))
  }

  /** The body of a string literal, its closing quote, and what follows. */
  function EscapeTo(t: Text, rest: string): string
  {
    if t == [] then ['"'] + rest else EscapeCodeTo(t[0], EscapeTo(t[1..], rest))
  }

  function Digit(n: nat): char
    requires n < 10
  {
    "0123456789"[n]
  }

  function Digits(n: nat): (s: string)
    ensures |s| > 0
  {
    if n < 10 then [Digit(n)] else Digits(n / 10) + [Digit(n % 10)]
  }

  function IntText(i: int): string
  {
    if i < 0 then ['-'] + Digits(-i) else Digits(i)
  }

  function PrintTo(d: Doc, rest: string): string
    decreases d, 0
  {
    match d
    case Null => "null" + rest
    case Bool(b) => (if b then "true" else "false") + rest
    case Int(i) => IntText(i) + rest
    case Float(lexeme) => lexeme + rest
    case Str(t) => ['"'] + EscapeTo(t, rest)
    case Arr(items) =>
      if items == [] then "[]" + rest else ['['] + PrintTo(items[0], PrintItemsTo(items[1..], rest))
    case Obj(members) =>
      if members == [] then "{}" + rest else ['{'] + PrintMemberTo(members, rest)
  }

  function PrintItemsTo(items: seq<Doc>, rest: string): string
    decreases items, 1
  {
    if items == [] then [']'] + rest else [','] + PrintTo(items[0], PrintItemsTo(items[1..], rest))
  }

  function PrintMembersTo(members: seq<Member>, rest: string): string
    decreases members, 1
  {
    if members == [] then ['}'] + rest else [','] + PrintMemberTo(members, rest)
  }

  /** The first member, then the others. */
  function PrintMemberTo(members: seq<Member>, rest: string): string
    requires members != []
    decreases members, 0
  {
    ['"'] + EscapeTo(members[0].key, [':'] + PrintTo(members[0].value, PrintMembersTo(members[1..], rest)))
  }

  function Print(d: Doc): string
  {
    PrintTo(d, "")
  }

  // Decoding.

  predicate IsSpace(c: char)
  {
    c == ' ' || c == '\t' || c == '\n' || c == '\r'
  }

  function SkipSpace(s: string): (r: string)
    ensures |r| <= |s|
  {
    if s != "" && IsSpace(s[0]) then SkipSpace(s[1..]) else s
  }

  function HexValue(c: char): Option<nat>
  {
    if '0' <= c <= '9' then Some(c as int - '0' as int)
    else if 'a' <= c <= 'f' then Some(c as int - 'a' as int + 10)
    else if 'A' <= c <= 'F' then Some(c as int - 'A' as int + 10)
    else None
  }

  /** Four hexadecimal digits at the front. */
  function Hex4(s: string): (r: Option<nat>)
    ensures r.Some? ==> |s| >= 4 && r.value < 0x10000
  {
    if |s| < 4 then None
    else
      match (HexValue(s[0]), HexValue(s[1]), HexValue(s[2]), HexValue(s[3]))
      case (Some(a), Some(b), Some(c), Some(d)) =>
        if a < 16 && b < 16 && c < 16 && d < 16 then Some(a * 4096 + b * 256 + c * 16 + d) else None
      case _ => None
  }

  predicate IsHigh(c: nat)
  {
    0xD800 <= c <= 0xDBFF
  }

  predicate IsLow(c: nat)
  {
    0xDC00 <= c <= 0xDFFF
  }

  function Pair(high: nat, low: nat): CodePoint
    requires IsHigh(high) && IsLow(low)
  {
    0x10000 + (high - 0xD800) * 0x400 + (low - 0xDC00)
  }

  /** The low surrogate escape at the front, if there is one. */
  function LowEscape(s: string): (r: Option<nat>)
    ensures r.Some? ==> |s| >= 6 && IsLow(r.value)
  {
    if |s| >= 2 && s[0] == '\\' && s[1] == 'u' && Hex4(s[2..]).Some? && IsLow(Hex4(s[2..]).value)
    then Hex4(s[2..]) else None
  }

  function SimpleEscape(c: char): Option<CodePoint>
  {
    if c == '"' then Some(0x22)
    else if c == '\\' then Some(0x5C)
    else if c == '/' then Some(0x2F)
    else if c == 'b' then Some(0x08)
    else if c == 'f' then Some(0x0C)
    else if c == 'n' then Some(0x0A)
    else if c == 'r' then Some(0x0D)
    else if c == 't' then Some(0x09)
    else None
  }

  /** One code point at the front of a string body, and what follows it; None at a closing quote or an error. */
  function ParseCode(s: string): (r: Option<(CodePoint, string)>)
    ensures r.Some? ==> |r.value.1| < |s|
  {
    if s == "" || s[0] == '"' || s[0] < ' ' then None
    else if s[0] != '\\' then Some((s[0] as int, s[1..]))
    else if |s| < 2 then None
    else if s[1] == 'u' then
      match Hex4(s[2..])
      case None => None
      case Some(unit) =>
        if IsHigh(unit) && LowEscape(s[6..]).Some?
        then Some((Pair(unit, LowEscape(s[6..]).value), s[12..]))
        else Some((unit, s[6..]))
    else
      match SimpleEscape(s[1])
      case None => None
      case Some(c) => Some((c, s[2..]))
  }

  /** A string body up to its closing quote. */
  function ParseText(s: string): (r: Option<(Text, string)>)
    ensures r.Some? ==> |r.value.1| < |s|
    decreases |s|
  {
    if s != "" && s[0] == '"' then Some(([], s[1..]))
    else
      match ParseCode(s)
      case None => None
      case Some((c, rest)) =>
        match ParseText(rest)
        case None => None
        case Some((t, after)) => Some(([c] + t, after))
  }

  predicate IsDigit(c: char)
  {
    '0' <= c <= '9'
  }

  predicate IsNumberChar(c: char)
  {
    IsDigit(c) || c == '-' || c == '+' || c == '.' || c == 'e' || c == 'E'
  }

  function NumberRun(s: string): (n: nat)
    ensures n <= |s|
  {
    if s != "" && IsNumberChar(s[0]) then 1 + NumberRun(s[1..]) else 0
  }

  function DigitRun(s: string): (n: nat)
    ensures n <= |s|
  {
    if s != "" && IsDigit(s[0]) then 1 + DigitRun(s[1..]) else 0
  }

  predicate AllDigits(s: string)
  {
    DigitRun(s) == |s|
  }

  function Unsigned(s: string): string
  {
    if s != "" && s[0] == '-' then s[1..] else s
  }

  predicate IsWholeText(s: string)
  {
    s != "" && AllDigits(s) && (s[0] == '0' ==> |s| == 1)
  }

  predicate IsIntText(s: string)
  {
    IsWholeText(Unsigned(s))
  }

  predicate IsExponent(s: string)
  {
    && |s| >= 2
    && (s[0] == 'e' || s[0] == 'E')
    && var t := if s[1] == '+' || s[1] == '-' then s[2..] else s[1..]; t != "" && AllDigits(t)
  }

  // The parts of a number without its sign: digits, and then a point with more digits, an exponent, or both.

  function WholePart(u: string): string
  {
    u[..DigitRun(u)]
  }

  function Tail(u: string): string
  {
    u[DigitRun(u)..]
  }

  predicate HasPoint(tail: string)
  {
    tail != "" && tail[0] == '.'
  }

  function FractionPart(tail: string): string
  {
    if HasPoint(tail) then WholePart(tail[1..]) else ""
  }

  function ExponentPart(tail: string): string
  {
    if HasPoint(tail) then Tail(tail[1..]) else tail
  }

  /** A number with a fraction or an exponent. */
  predicate IsFloatText(s: string)
  {
    var tail := Tail(Unsigned(s));
    && IsWholeText(WholePart(Unsigned(s)))
    && tail != ""
    && (HasPoint(tail) ==> FractionPart(tail) != "")
    && (ExponentPart(tail) == "" || IsExponent(ExponentPart(tail)))
  }

  /** A float as a document spells it: a number, or one of the constants that the decoder knows besides. */
  predicate IsFloatLexeme(s: string)
  {
    IsFloatConstant(s) || (IsFloatText(s) && NumberRun(s) == |s|)
  }

  predicate IsFloatConstant(s: string)
  {
    s == "NaN" || s == "Infinity" || s == "-Infinity"
  }

  /** What decimal digits count. */
  function DigitsValue(s: string): int
  {
    if s == "" then 0 else DigitsValue(s[..|s| - 1]) * 10 + (s[|s| - 1] as int - '0' as int)
  }

  function IntValue(s: string): int
    requires IsIntText(s)
  {
    if s[0] == '-' then -DigitsValue(s[1..]) else DigitsValue(s)
  }

  function ParseNumber(s: string): (r: Option<(Doc, string)>)
    ensures r.Some? ==> |r.value.1| < |s|
  {
    var n := NumberRun(s);
    if IsIntText(s[..n]) then Some((Int(IntValue(s[..n])), s[n..]))
    else if IsFloatText(s[..n]) then Some((Float(s[..n]), s[n..]))
    else None
  }

  function ParseWord(s: string, word: string, d: Doc): (r: Option<(Doc, string)>)
    requires word != ""
    ensures r.Some? ==> |r.value.1| < |s|
  {
    if word <= s then Some((d, s[|word|..])) else None
  }

  function ParseString(s: string): (r: Option<(Doc, string)>)
    ensures r.Some? ==> |r.value.1| < |s|
  {
    match ParseText(s)
    case None => None
    case Some((t, rest)) => Some((Str(t), rest))
  }

  function ParseValue(s: string): (r: Option<(Doc, string)>)
    ensures r.Some? ==> |r.value.1| < |s|
    decreases |s|, 0
  {
    if s == "" then None
    else if s[0] == '-' && |s| > 1 && s[1] == 'I' then ParseWord(s, "-Infinity", Float("-Infinity"))
    else if IsDigit(s[0]) || s[0] == '-' then ParseNumber(s)
    else if s[0] == '"' then ParseString(s[1..])
    else if s[0] == '[' then ParseArray(SkipSpace(s[1..]))
    else if s[0] == '{' then ParseObject(SkipSpace(s[1..]))
    else if s[0] == 'n' then ParseWord(s, "null", Null)
    else if s[0] == 't' then ParseWord(s, "true", Bool(true))
    else if s[0] == 'f' then ParseWord(s, "false", Bool(false))
    else if s[0] == 'N' then ParseWord(s, "NaN", Float("NaN"))
    else if s[0] == 'I' then ParseWord(s, "Infinity", Float("Infinity"))
    else None
  }

  /** An array after its opening bracket. */
  function ParseArray(s: string): (r: Option<(Doc, string)>)
    ensures r.Some? ==> |r.value.1| < |s|
    decreases |s|, 2
  {
    if s != "" && s[0] == ']' then Some((Arr([]), s[1..]))
    else
      match ParseItems(s)
      case None => None
      case Some((items, rest)) => Some((Arr(items), rest))
  }

  /** An object after its opening brace. */
  function ParseObject(s: string): (r: Option<(Doc, string)>)
    ensures r.Some? ==> |r.value.1| < |s|
    decreases |s|, 2
  {
    if s != "" && s[0] == '}' then Some((Obj([]), s[1..]))
    else
      match ParseMembers(s)
      case None => None
      case Some((members, rest)) => Some((Obj(members), rest))
  }

  /** One or more items and the closing bracket. */
  function ParseItems(s: string): (r: Option<(seq<Doc>, string)>)
    ensures r.Some? ==> |r.value.1| < |s|
    decreases |s|, 1
  {
    match ParseValue(s)
    case None => None
    case Some((d, rest)) =>
      var t := SkipSpace(rest);
      if t == "" then None
      else if t[0] == ']' then Some(([d], t[1..]))
      else if t[0] != ',' then None
      else
        match ParseItems(SkipSpace(t[1..]))
        case None => None
        case Some((items, after)) => Some(([d] + items, after))
  }

  /** One or more members and the closing brace. */
  function ParseMembers(s: string): (r: Option<(seq<Member>, string)>)
    ensures r.Some? ==> |r.value.1| < |s|
    decreases |s|, 1
  {
    if s == "" || s[0] != '"' then None
    else
      match ParseText(s[1..])
      case None => None
      case Some((key, rest)) =>
        var colon := SkipSpace(rest);
        if colon == "" || colon[0] != ':' then None
        else
          match ParseValue(SkipSpace(colon[1..]))
          case None => None
          case Some((d, rest1)) =>
            var t := SkipSpace(rest1);
            if t == "" then None
            else if t[0] == '}' then Some(([Member(key, d)], t[1..]))
            else if t[0] != ',' then None
            else
              match ParseMembers(SkipSpace(t[1..]))
              case None => None
              case Some((members, after)) => Some(([Member(key, d)] + members, after))
  }

  /** A whole document, with white space around it. */
  function Load(s: string): Option<Doc>
  {
    match ParseValue(SkipSpace(s))
    case None => None
    case Some((d, rest)) => if SkipSpace(rest) == "" then Some(d) else None
  }
}
