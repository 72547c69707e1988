/** One canonical document per line: what a line decodes to, and how a stream of lines splits again. */
module JsonLines {
  import opened Wrappers
  import opened Json
  import opened JsonRoundTrip
  import opened TextOrder
  import opened CanonicalJson
  import opened TextLines

  /** json.dumps with sorted keys and compact separators, and a newline. */
  function Line(d: Doc): string
  {
    Dumps(d) + "\n"
  }

  // Printing is append-only and writes no newline.

  lemma {:induction false} EscapeAppend(t: Text, r: string, rest: string)
    ensures EscapeTo(t, r + rest) == EscapeTo(t, r) + rest
  {
    if t == [] {
      assert ['"'] + (r + rest) == (['"'] + r) + rest;
    } else {
      EscapeAppend(t[1..], r, rest);
      EscapeCodeAppend(t[0], EscapeTo(t[1..], r), rest);
    }
  }

  lemma UnitAppend(u: nat, r: string, rest: string)
    requires u < 0x10000
    ensures UnicodeEscapeTo(u, r + rest) == UnicodeEscapeTo(u, r) + rest
  {
  }

  lemma Reassociate(a: string, b: string, c: string)
    ensures a + (b + c) == (a + b) + c
  {
  }

  lemma ShortEscapeAppend(c: CodePoint, r: string, rest: string)
    requires c == 0x22 || c == 0x5C || c == 0x0A || c == 0x0D || c == 0x09 || c == 0x0C || c == 0x08
    ensures EscapeCodeTo(c, r + rest) == EscapeCodeTo(c, r) + rest
  {
    Reassociate(EscapeCodeTo(c, "")[..2], r, rest);
  }

  lemma EscapeCodeAppend(c: CodePoint, r: string, rest: string)
    ensures EscapeCodeTo(c, r + rest) == EscapeCodeTo(c, r) + rest
  {
    if c == 0x22 || c == 0x5C || c == 0x0A || c == 0x0D || c == 0x09 || c == 0x0C || c == 0x08 {
      ShortEscapeAppend(c, r, rest);
    } else if 0x20 <= c <= 0x7E {
      Reassociate([c as char], r, rest);
    } else if c >= 0x10000 {
      UnitAppend(LowSurrogate(c), r, rest);
      UnitAppend(HighSurrogate(c), UnicodeEscapeTo(LowSurrogate(c), r), rest);
    } else {
      UnitAppend(c, r, rest);
    }
  }

  lemma {:induction false} PrintAppend(d: Doc, r: string, rest: string)
    ensures PrintTo(d, r + rest) == PrintTo(d, r) + rest
    decreases d, 0
  {
    match d
    case Null => Reassociate("null", r, rest);
    case Bool(b) => Reassociate(if b then "true" else "false", r, rest);
    case Int(i) => Reassociate(IntText(i), r, rest);
    case Float(lexeme) => Reassociate(lexeme, r, rest);
    case Str(t) =>
      EscapeAppend(t, r, rest);
      Reassociate(['"'], EscapeTo(t, r), rest);
    case Arr(items) =>
      if items == [] {
        Reassociate("[]", r, rest);
      } else {
        ItemsAppend(items[1..], r, rest);
        var tail := PrintItemsTo(items[1..], r);
        PrintAppend(items[0], tail, rest);
        Reassociate(['['], PrintTo(items[0], tail), rest);
      }
    case Obj(members) =>
      if members == [] {
        Reassociate("{}", r, rest);
      } else {
        MemberAppend(members, r, rest);
        Reassociate(['{'], PrintMemberTo(members, r), rest);
      }
  }

  lemma {:induction false} ItemsAppend(items: seq<Doc>, r: string, rest: string)
    ensures PrintItemsTo(items, r + rest) == PrintItemsTo(items, r) + rest
    decreases items, 1
  {
    if items == [] {
      Reassociate([']'], r, rest);
    } else {
      ItemsAppend(items[1..], r, rest);
      var tail := PrintItemsTo(items[1..], r);
      PrintAppend(items[0], tail, rest);
      Reassociate([','], PrintTo(items[0], tail), rest);
    }
  }

  lemma {:induction false} MemberAppend(members: seq<Member>, r: string, rest: string)
    requires members != []
    ensures PrintMemberTo(members, r + rest) == PrintMemberTo(members, r) + rest
    decreases members, 0
  {
    var m, next := members[0], members[1..];
    var tail := PrintMembersTo(next, r);
    if next == [] {
      Reassociate(['}'], r, rest);
    } else {
      MemberAppend(next, r, rest);
      Reassociate([','], PrintMemberTo(next, r), rest);
    }
    assert PrintMembersTo(next, r + rest) == tail + rest;
    PrintAppend(m.value, tail, rest);
    var value := PrintTo(m.value, tail);
    Reassociate([':'], value, rest);
    EscapeAppend(m.key, [':'] + value, rest);
    Reassociate(['"'], EscapeTo(m.key, [':'] + value), rest);
  }

  lemma {:induction false} EscapeNoNewline(t: Text, rest: string)
    requires NoNewline(rest)
    ensures NoNewline(EscapeTo(t, rest))
  {
    if t != [] {
      EscapeNoNewline(t[1..], rest);
      CodeNoNewline(t[0], EscapeTo(t[1..], rest));
    }
  }

  lemma UnitNoNewline(u: nat, rest: string)
    requires u < 0x10000 && NoNewline(rest)
    ensures NoNewline(UnicodeEscapeTo(u, rest))
  {
    HexDigitNotNewline(u / 4096);
    HexDigitNotNewline(u / 256 % 16);
    HexDigitNotNewline(u / 16 % 16);
    HexDigitNotNewline(u % 16);
  }

  lemma HexDigitNotNewline(n: nat)
    requires n < 16
    ensures HexDigit(n) != '\n'
  {
    HexDigitValue(n);
  }

  lemma CodeNoNewline(c: CodePoint, rest: string)
    requires NoNewline(rest)
    ensures NoNewline(EscapeCodeTo(c, rest))
  {
    if c >= 0x10000 {
      UnitNoNewline(LowSurrogate(c), rest);
      UnitNoNewline(HighSurrogate(c), UnicodeEscapeTo(LowSurrogate(c), rest));
    } else {
      UnitNoNewline(c, rest);
    }
  }

  lemma {:induction false} NumberNoNewline(s: string)
    requires NumberRun(s) == |s|
    ensures NoNewline(s)
  {
    if s != "" {
      NumberNoNewline(s[1..]);
      assert s == [s[0]] + s[1..];
    }
  }

  lemma {:induction false} PrintNoNewline(d: Doc, rest: string)
    requires FloatsValid(d) && NoNewline(rest)
    ensures NoNewline(PrintTo(d, rest))
    decreases d, 0
  {
    match d
    case Int(i) =>
      var n: nat := if i < 0 then -i else i;
      DigitsRead(n);
      DigitsAreNumberChars(Digits(n));
      NumberNoNewline(Digits(n));
    case Float(lexeme) =>
      if !IsFloatConstant(lexeme) {
        NumberNoNewline(lexeme);
      }
    case Str(t) => EscapeNoNewline(t, rest);
    case Arr(items) =>
      if items != [] {
        ItemsNoNewline(items[1..], rest);
        PrintNoNewline(items[0], PrintItemsTo(items[1..], rest));
      }
    case Obj(members) =>
      if members != [] {
        MemberNoNewline(members, rest);
      }
    case _ =>
  }

  lemma {:induction false} ItemsNoNewline(items: seq<Doc>, rest: string)
    requires NoNewline(rest) && forall e | e in items :: FloatsValid(e)
    ensures NoNewline(PrintItemsTo(items, rest))
    decreases items, 1
  {
    if items != [] {
      ItemsNoNewline(items[1..], rest);
      PrintNoNewline(items[0], PrintItemsTo(items[1..], rest));
    }
  }

  lemma {:induction false} MemberNoNewline(members: seq<Member>, rest: string)
    requires members != [] && NoNewline(rest) && forall m: Member | m in members :: FloatsValid(m.value)
    ensures NoNewline(PrintMemberTo(members, rest))
    decreases members, 0
  {
    var m, next := members[0], members[1..];
    if next != [] {
      MemberNoNewline(next, rest);
    }
    assert m in members;
    PrintNoNewline(m.value, PrintMembersTo(next, rest));
    EscapeNoNewline(m.key, [':'] + PrintTo(m.value, PrintMembersTo(next, rest)));
  }

  /** A line decodes to the canonical form of what was written. */
  lemma LineReads(d: Doc)
    requires Loaded(d)
    ensures Load(Line(d)) == Some(Canon(d))
  {
    var c := Canon(d);
    CanonLoaded(d);
    LoadedJoined(c);
    PrintAppend(c, "", "\n");
    assert "" + "\n" == "\n";
    ValueReads(c, "\n");
    PrintStarts(c, "\n");
    assert SkipSpace("\n") == SkipSpace("");
  }

  lemma LineIsLine(d: Doc)
    requires Loaded(d)
    ensures IsLine(Line(d))
  {
    CanonLoaded(d);
    LoadedJoined(Canon(d));
    PrintNoNewline(Canon(d), "");
    assert Line(d)[..|Line(d)| - 1] == Dumps(d);
  }
}
