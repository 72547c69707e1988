/** Replacing the generated block between two markers of a file, or appending it the first time. */
module MarkerSplice {
  import opened Wrappers
  import opened TextSearch
  import opened TextLines

  const BEGIN := "# BEGIN GENERATED JSON DIAGNOSTIC DATA"
  const END := "# END GENERATED JSON DIAGNOSTIC DATA"

  function RStrip(s: string): (r: string)
    ensures r <= s
  {
    if s != "" && IsWhite(s[|s| - 1]) then RStrip(s[..|s| - 1]) else s
  }

  /** What replaces the file; None when a begin marker has no end marker after it. */
  function Update(block: string, current: string): Option<string>
  {
    Splice(BEGIN, END, block, current)
  }

  function Splice(begin: string, end: string, block: string, current: string): Option<string>
  {
    match Find(begin, current)
    case None => Some(RStrip(current) + "\n\n" + block + "\n")
    case Some(i) =>
      match AfterFirst(end, current[i + |begin|..])
      case None => None
      case Some(after) => Some(current[..i] + block + after)
  }

  /** What follows the first occurrence. */
  function AfterFirst(p: string, s: string): Option<string>
  {
    match Find(p, s)
    case None => None
    case Some(j) => Some(s[j + |p|..])
  }

  /** A generated block starts with the begin marker and ends with its only end marker. */
  ghost predicate IsBlock(block: string)
  {
    && BEGIN <= block
    && |block| >= |BEGIN| + |END|
    && Find(END, block[|BEGIN|..]) == Some(|block| - |BEGIN| - |END|)
  }

  /** Updating a text whose first begin marker is that of a block replaces exactly the block. */
  lemma ReplacesBlock(before: string, old_: string, after: string, block: string)
    requires IsBlock(old_) && Find(BEGIN, before + old_ + after) == Some(|before|)
    ensures Update(block, before + old_ + after) == Some(before + block + after)
  {
    var mid := old_[|BEGIN|..];
    Sections(before, old_, after, |BEGIN|);
    EndsFirst(END, mid, mid + after, after);
    SpliceAfter(BEGIN, END, block, before + old_ + after, before, after);
  }

  lemma Sections(a: string, b: string, c: string, n: nat)
    requires n <= |b|
    ensures var s := a + b + c;
            s[..|a|] == a && s[|a| + n..] == b[n..] + c
  {
    var s := a + b + c;
    assert s == a + (b + c) && s[|a| + n..] == (b + c)[n..];
  }

  lemma EndsFirst(p: string, s: string, t: string, after: string)
    requires |s| >= |p| && Find(p, s) == Some(|s| - |p|) && t == s + after
    ensures AfterFirst(p, t) == Some(after)
  {
    FindSame(p, s, t, |s|);
    assert t[|s|..] == after;
  }

  lemma SpliceAt(begin: string, end: string, block: string, s: string, i: nat, after: string)
    requires Find(begin, s) == Some(i) && AfterFirst(end, s[i + |begin|..]) == Some(after)
    ensures Splice(begin, end, block, s) == Some(s[..i] + block + after)
  {
  }

  lemma SpliceAfter(begin: string, end: string, block: string, s: string, before: string, after: string)
    requires Find(begin, s) == Some(|before|) && before == s[..|before|]
    requires AfterFirst(end, s[|before| + |begin|..]) == Some(after)
    ensures Splice(begin, end, block, s) == Some(before + block + after)
  {
    SpliceAt(begin, end, block, s, |before|, after);
  }

  /** What is found first is found where the texts agree that far. */
  lemma FindSame(p: string, s: string, t: string, n: nat)
    requires n <= |s| && n <= |t| && s[..n] == t[..n]
    requires Find(p, s).Some? && Find(p, s).value + |p| <= n
    ensures Find(p, t) == Find(p, s)
  {
    var i := Find(p, s).value;
    forall k | 0 <= k <= i ensures At(p, s, k) <==> At(p, t, k) {
      AtWithin(p, s, t, k, n);
    }
    FindIs(p, t, i);
  }

  /** A begin marker that starts a block in place of another is still the first one. */
  lemma StillFirst(before: string, x: string, y: string)
    requires BEGIN <= x && BEGIN <= y && Find(BEGIN, before + x) == Some(|before|)
    ensures Find(BEGIN, before + y) == Some(|before|)
  {
    SameStart(BEGIN, before, x, y);
  }

  lemma SameStart(p: string, before: string, x: string, y: string)
    requires p <= x && p <= y && Find(p, before + x) == Some(|before|)
    ensures Find(p, before + y) == Some(|before|)
  {
    var n := |before| + |p|;
    assert (before + x)[..n] == before + x[..|p|];
    assert (before + y)[..n] == before + y[..|p|];
    FindSame(p, before + x, before + y, n);
  }

  /** The marker has no line break, so it cannot straddle the blank line before an appended block. */
  lemma AppendedIsFirst(body: string, block: string, rest: string)
    requires BEGIN <= block && Find(BEGIN, body) == None
    ensures Find(BEGIN, body + "\n\n" + block + rest) == Some(|body| + 2)
  {
    var s := body + "\n\n" + block + rest;
    var n := |body| + 2;
    assert s[n..n + |BEGIN|] == BEGIN;
    forall k | 0 <= k < n ensures !At(BEGIN, s, k) {
      if k + |BEGIN| <= |body| {
        assert s[..|body|] == body[..|body|];
        AtWithin(BEGIN, s, body, k, |body|);
      } else {
        MarkerAvoids(s, k, if k <= |body| then |body| else k);
      }
    }
    FindIs(BEGIN, s, n);
  }

  lemma MarkerAvoids(s: string, k: nat, at: nat)
    requires k <= at < |s| && at < k + |BEGIN| && s[at] == '\n'
    ensures !At(BEGIN, s, k)
  {
    if k + |BEGIN| <= |s| {
      var window := s[k..k + |BEGIN|];
      assert window[at - k] == '\n';
      MarkerOneLine(at - k);
      assert window != BEGIN;
    }
  }

  lemma MarkerOneLine(i: nat)
    requires i < |BEGIN|
    ensures BEGIN[i] != '\n'
  {
    assert forall c | c in BEGIN :: c != '\n';
  }

  lemma PrefixHasNone(p: string, body: string, s: string)
    requires body <= s && Find(p, s) == None
    ensures Find(p, body) == None
  {
    forall k | 0 <= k <= |body| ensures !At(p, body, k) {
      if k + |p| <= |body| {
        assert body[..|body|] == s[..|body|];
        AtWithin(p, body, s, k, |body|);
      }
    }
    FindNone(p, body);
  }

  lemma AtFrom(p: string, s: string, n: nat, j: nat)
    requires n <= |s|
    ensures At(p, s[n..], j) <==> At(p, s, n + j)
  {
    if n + j + |p| <= |s| {
      assert s[n..][j..j + |p|] == s[n + j..n + j + |p|];
    }
  }

  lemma NoneFrom(p: string, s: string, n: nat)
    requires n <= |s|
    ensures Find(p, s[n..]) == None <==> forall k | n <= k <= |s| :: !At(p, s, k)
  {
    forall j | 0 <= j <= |s| - n ensures At(p, s[n..], j) <==> At(p, s, n + j) {
      AtFrom(p, s, n, j);
    }
    if Find(p, s[n..]) == None {
      forall k | n <= k <= |s| ensures !At(p, s, k) {
        assert !At(p, s[n..], k - n);
      }
    }
  }

  /** A position where a marker starts, with none before it. */
  predicate FirstAt(p: string, s: string, i: nat)
  {
    At(p, s, i) && forall k | 0 <= k < i :: !At(p, s, k)
  }

  /** The only failure: no end marker starts after the first begin marker. */
  lemma UpdateFails(block: string, current: string)
    ensures Update(block, current) == None
       <==> exists i :: 0 <= i <= |current| && FirstAt(BEGIN, current, i)
                        && forall k | i + |BEGIN| <= k <= |current| :: !At(END, current, k)
  {
    match Find(BEGIN, current)
    case None =>
    case Some(i) =>
      assert FirstAt(BEGIN, current, i);
      NoneFrom(END, current, i + |BEGIN|);
      forall j | 0 <= j <= |current| && FirstAt(BEGIN, current, j) ensures j == i {
        assert !(j < i) && !(i < j);
      }
  }

  /** How a text with both markers comes apart: any update keeps what is before and after. */
  lemma Replaces(begin: string, end: string, first: string, second: string, s: string)
    returns (before: string, rest: string, after: string)
    requires Find(begin, s).Some? && Splice(begin, end, first, s).Some?
    ensures s == before + rest && begin <= rest && Find(begin, s) == Some(|before|)
    ensures Splice(begin, end, first, s) == Some(before + first + after)
    ensures Splice(begin, end, second, s) == Some(before + second + after)
  {
    var i := Find(begin, s).value;
    HasEnd(begin, end, first, s, i);
    before, rest, after := s[..i], s[i..], AfterFirst(end, s[i + |begin|..]).value;
    StartsAt(begin, s, i);
    SpliceAt(begin, end, first, s, i, after);
    SpliceAt(begin, end, second, s, i, after);
  }

  lemma HasEnd(begin: string, end: string, block: string, s: string, i: nat)
    requires Find(begin, s) == Some(i) && Splice(begin, end, block, s).Some?
    ensures AfterFirst(end, s[i + |begin|..]).Some?
  {
  }

  lemma StartsAt(p: string, s: string, i: nat)
    requires At(p, s, i)
    ensures s == s[..i] + s[i..] && p <= s[i..]
  {
    assert s[i..][..|p|] == s[i..i + |p|];
  }

  lemma ReplacedTwice(first: string, second: string, current: string)
    requires IsBlock(first) && Find(BEGIN, current).Some? && Update(first, current).Some?
    ensures Update(second, Update(first, current).value) == Update(second, current)
  {
    var before, rest, after := Replaces(BEGIN, END, first, second, current);
    Joins(before, first, after);
    StillFirst(before, rest, first + after);
    ReplacesBlock(before, first, after, second);
  }

  lemma Joins(a: string, b: string, c: string)
    ensures a + b + c == a + (b + c)
  {
  }

  lemma AppendedThenReplaced(first: string, second: string, current: string)
    requires IsBlock(first) && Find(BEGIN, current).None?
    ensures Update(second, Update(first, current).value) == Update(second, current)
  {
    var body := RStrip(current);
    PrefixHasNone(BEGIN, body, current);
    AppendedIsFirst(body, first, "\n");
    ReplacesBlock(body + "\n\n", first, "\n", second);
  }

  /** Last write wins: a second update leaves no trace of the first, whether that replaced or appended. */
  lemma LastWriteWins(first: string, second: string, current: string)
    requires IsBlock(first) && IsBlock(second) && Update(first, current).Some?
    ensures Update(second, Update(first, current).value) == Update(second, current)
  {
    if Find(BEGIN, current).Some? {
      ReplacedTwice(first, second, current);
    } else {
      AppendedThenReplaced(first, second, current);
    }
  }

  /** Regenerating what is already there changes nothing. */
  lemma UpdateIdempotent(block: string, current: string)
    requires IsBlock(block) && Update(block, current).Some?
    ensures Update(block, Update(block, current).value) == Update(block, current)
  {
    LastWriteWins(block, block, current);
  }

  /**
   * Text outside the markers is kept by a replacement: what precedes the first begin marker, and what follows the
   * first end marker after it.
   */
  lemma ReplacementKeepsOutside(block: string, current: string, i: nat, j: nat)
    requires FirstAt(BEGIN, current, i) && i + |BEGIN| <= j && At(END, current, j)
    requires forall k | i + |BEGIN| <= k < j :: !At(END, current, k)
    ensures Update(block, current) == Some(current[..i] + block + current[j + |END|..])
  {
    Outside(BEGIN, END, block, current, i, j);
  }

  lemma Outside(begin: string, end: string, block: string, current: string, i: nat, j: nat)
    requires FirstAt(begin, current, i) && i + |begin| <= j && At(end, current, j)
    requires forall k | i + |begin| <= k < j :: !At(end, current, k)
    ensures Splice(begin, end, block, current) == Some(current[..i] + block + current[j + |end|..])
  {
    FindIs(begin, current, i);
    AfterFrom(end, current, i + |begin|, j);
    SpliceAt(begin, end, block, current, i, current[j + |end|..]);
  }

  lemma AfterFrom(p: string, s: string, n: nat, j: nat)
    requires n <= j && At(p, s, j) && forall k | n <= k < j :: !At(p, s, k)
    ensures AfterFirst(p, s[n..]) == Some(s[j + |p|..])
  {
    AtFrom(p, s, n, j - n);
    forall k | 0 <= k < j - n ensures !At(p, s[n..], k) {
      AtFrom(p, s, n, k);
    }
    FindIs(p, s[n..], j - n);
    assert s[n..][j - n + |p|..] == s[j + |p|..];
  }

  /** An appended block follows all of the text but its trailing white space. */
  lemma AppendKeepsText(block: string, current: string)
    requires Find(BEGIN, current).None?
    ensures Update(block, current) == Some(RStrip(current) + "\n\n" + block + "\n")
    ensures forall c | c in current[|RStrip(current)|..] :: IsWhite(c)
    ensures RStrip(current) != "" ==> !IsWhite(RStrip(current)[|RStrip(current)| - 1])
  {
    StripsSpace(current);
  }

  lemma {:induction false} StripsSpace(s: string)
    ensures forall c | c in s[|RStrip(s)|..] :: IsWhite(c)
    ensures RStrip(s) != "" ==> !IsWhite(RStrip(s)[|RStrip(s)| - 1])
  {
    if s != "" && IsWhite(s[|s| - 1]) {
      var init := s[..|s| - 1];
      StripsSpace(init);
      assert s[|RStrip(s)|..] == init[|RStrip(init)|..] + [s[|s| - 1]];
    }
  }
}
