/** Which lines of a workflow are checkouts of the reference repository, and which give a ref: the two line patterns. */
module WorkflowLines {
  import opened Wrappers
  import opened ReferenceBlocks

  lemma {:induction false} LeadSplits(s: string)
    ensures s == Spaces(Leading(s, ' ')) + SkipSpaces(s)
    ensures SkipSpaces(s) == "" || SkipSpaces(s)[0] != ' '
  {
    if s != "" && s[0] == ' ' {
      LeadSplits(s[1..]);
      var n := Leading(s, ' ');
      assert Spaces(n) == [' '] + Spaces(n - 1);
      assert SkipSpaces(s) == SkipSpaces(s[1..]);
      assert s == [' '] + s[1..];
    } else {
      assert Spaces(0) + s == s && s[0..] == s;
    }
  }

  lemma {:induction false} TrimSplits(s: string) returns (n: nat)
    ensures s == TrimEnd(s) + Spaces(n)
    ensures TrimEnd(s) == "" || TrimEnd(s)[|TrimEnd(s)| - 1] != ' '
    ensures s != "" && s[0] != ' ' ==> TrimEnd(s) != "" && TrimEnd(s)[0] == s[0]
  {
    if s != "" && s[|s| - 1] == ' ' {
      var init := s[..|s| - 1];
      var k := TrimSplits(init);
      n := k + 1;
      assert Spaces(n) == Spaces(k) + [' '];
      assert s == init + [' '];
    } else {
      n := 0;
      assert s + Spaces(0) == s;
    }
  }

  lemma AfterIs(prefix: string, s: string, rest: string)
    ensures After(prefix, s) == Some(rest) <==> s == prefix + rest
  {
    if prefix <= s {
      assert s == prefix + s[|prefix|..];
    }
    AfterPrefix(prefix, rest);
  }

  // Refs.

  predicate Trimmed(value: string)
  {
    value == "" || (value[0] != ' ' && value[|value| - 1] != ' ')
  }

  predicate IsRef(line: string, indent: nat, value: string, before: nat, after: nat)
  {
    Trimmed(value) && line == Spaces(indent) + "ref:" + (Spaces(before) + (value + Spaces(after)))
  }

  lemma RefFound(line: string, indent: nat, value: string, before: nat, after: nat)
    requires IsRef(line, indent, value, before, after)
    ensures RefAt(line, indent) == Some(value)
  {
    if value == "" {
      var text := Spaces(before) + (value + Spaces(after));
      assert text == Spaces(before + after) + "";
      AfterPrefix(Spaces(indent) + REF, text);
      SpacesLead(before + after, "");
    } else {
      RefReads(indent, before, value, after);
    }
  }

  /** A line gives a ref at an indentation exactly when it is spaces, "ref:", and the value between spaces. */
  lemma RefExact(line: string, indent: nat, value: string)
    ensures RefAt(line, indent) == Some(value) <==>
              exists before: nat, after: nat :: IsRef(line, indent, value, before, after)
  {
    if RefAt(line, indent) == Some(value) {
      var text := After(Spaces(indent) + REF, line).value;
      AfterIs(Spaces(indent) + REF, line, text);
      LeadSplits(text);
      var n := TrimSplits(SkipSpaces(text));
      assert IsRef(line, indent, value, Leading(text, ' '), n);
    }
    if before: nat, after: nat :| IsRef(line, indent, value, before, after) {
      RefFound(line, indent, value, before, after);
    }
  }

  // Checkouts.

  predicate IsQuote(s: string)
  {
    s == "" || s == "'" || s == "\""
  }

  predicate IsComment(s: string)
  {
    s == "" || s[0] == '#'
  }

  predicate IsCheckout(line: string, n: nat, a: nat, open: string, close: string, b: nat, comment: string)
  {
    && n > 0 && IsQuote(open) && IsQuote(close) && IsComment(comment)
    && line == Spaces(n)
               + ("repository:" + (Spaces(a) + (open + ("type-rb/type-rb" + (close + (Spaces(b) + comment))))))
  }

  lemma QuoteSplits(s: string) returns (quote: string)
    ensures IsQuote(quote) && s == quote + SkipQuote(s)
  {
    if s != "" && (s[0] == '\'' || s[0] == '"') {
      quote := s[..1];
      assert s == quote + s[1..];
    } else {
      quote := "";
    }
  }

  lemma QuoteSkipped(quote: string, rest: string)
    requires IsQuote(quote) && (rest == "" || (rest[0] != '\'' && rest[0] != '"'))
    ensures SkipQuote(quote + rest) == rest
  {
    assert (quote + rest)[|quote|..] == rest;
    if quote == "" {
      assert quote + rest == rest;
    }
  }

  lemma TailFound(close: string, b: nat, comment: string)
    requires IsQuote(close) && IsComment(comment)
    ensures OnlyComment(close + (Spaces(b) + comment))
  {
    var rest := Spaces(b) + comment;
    assert rest != "" ==> rest[0] == ' ' || rest[0] == '#';
    QuoteSkipped(close, rest);
    SpacesLead(b, comment);
  }

  lemma TailSplits(s: string) returns (close: string, b: nat, comment: string)
    requires OnlyComment(s)
    ensures IsQuote(close) && IsComment(comment) && s == close + (Spaces(b) + comment)
  {
    close := QuoteSplits(s);
    LeadSplits(SkipQuote(s));
    b, comment := Leading(SkipQuote(s), ' '), SkipSpaces(SkipQuote(s));
  }

  lemma NameFound(a: nat, open: string, rest: string)
    requires IsQuote(open)
    ensures SkipQuote(SkipSpaces(Spaces(a) + (open + (REFERENCE + rest)))) == REFERENCE + rest
  {
    var named := REFERENCE + rest;
    assert named[0] == 't';
    SpacesLead(a, open + named);
    QuoteSkipped(open, named);
  }

  lemma NameSplits(value: string, rest: string) returns (a: nat, open: string)
    requires SkipQuote(SkipSpaces(value)) == REFERENCE + rest
    ensures IsQuote(open) && value == Spaces(a) + (open + (REFERENCE + rest))
  {
    LeadSplits(value);
    a := Leading(value, ' ');
    open := QuoteSplits(SkipSpaces(value));
  }

  lemma CheckoutFound(line: string, n: nat, a: nat, open: string, close: string, b: nat, comment: string)
    requires IsCheckout(line, n, a, open, close, b, comment)
    ensures Checkout(line) == Some(n)
  {
    var rest := close + (Spaces(b) + comment);
    var value := Spaces(a) + (open + (REFERENCE + rest));
    var text := REPOSITORY + value;
    assert text[0] == 'r';
    SpacesLead(n, text);
    AfterPrefix(REPOSITORY, value);
    NameFound(a, open, rest);
    AfterPrefix(REFERENCE, rest);
    TailFound(close, b, comment);
  }

  lemma CheckoutSplits(line: string, n: nat)
    returns (a: nat, open: string, close: string, b: nat, comment: string)
    requires Checkout(line) == Some(n)
    ensures IsCheckout(line, n, a, open, close, b, comment)
  {
    LeadSplits(line);
    var value := After(REPOSITORY, line[n..]).value;
    AfterIs(REPOSITORY, line[n..], value);
    var rest := After(REFERENCE, SkipQuote(SkipSpaces(value))).value;
    AfterIs(REFERENCE, SkipQuote(SkipSpaces(value)), rest);
    a, open := NameSplits(value, rest);
    close, b, comment := TailSplits(rest);
  }

  /**
   * A line is a checkout of an indentation exactly when it is as many spaces, some, then "repository:", spaces, the
   * name of the repository, perhaps after a quotation mark and before one, spaces, and perhaps a comment.
   */
  lemma CheckoutExact(line: string, n: nat)
    ensures Checkout(line) == Some(n) <==>
              exists a: nat, open, close, b: nat, comment :: IsCheckout(line, n, a, open, close, b, comment)
  {
    if Checkout(line) == Some(n) {
      var a, open, close, b, comment := CheckoutSplits(line, n);
    }
    if a: nat, open, close, b: nat, comment :| IsCheckout(line, n, a, open, close, b, comment) {
      CheckoutFound(line, n, a, open, close, b, comment);
    }
  }
}
