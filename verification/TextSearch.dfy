/** Where one string first occurs in another. */
module TextSearch {
  import opened Wrappers

  predicate At(p: string, s: string, i: nat)
  {
    i + |p| <= |s| && s[i..i + |p|] == p
  }

  predicate EndsWith(s: string, suffix: string)
  {
    |s| >= |suffix| && s[|s| - |suffix|..] == suffix
  }

  /** A text ends with a suffix when it is that after something, of which a length may be asked. */
  lemma EndsIs(s: string, suffix: string, n: nat)
    ensures EndsWith(s, suffix) && |s| >= n + |suffix| <==> exists stem :: |stem| >= n && s == stem + suffix
  {
    if EndsWith(s, suffix) && |s| >= n + |suffix| {
      assert s == s[..|s| - |suffix|] + suffix;
    }
  }

  function Find(p: string, s: string): (r: Option<nat>)
    ensures r.Some? ==> At(p, s, r.value) && forall j | 0 <= j < r.value :: !At(p, s, j)
    ensures r.None? ==> forall j | 0 <= j <= |s| :: !At(p, s, j)
  {
    if p <= s then
      assert s[0..|p|] == p;
      Some(0)
    else if s == "" then None
    else
      var r := Find(p, s[1..]);
      assert forall j | 0 < j <= |s| :: At(p, s, j) <==> At(p, s[1..], j - 1) by {
        forall j | 0 < j <= |s| ensures At(p, s, j) <==> At(p, s[1..], j - 1) {
          Shift(p, s, j);
        }
      }
      assert At(p, s, 0) ==> p <= s;
      if r.Some? then Some(r.value + 1) else None
  }

  lemma Shift(p: string, s: string, j: nat)
    requires 0 < j <= |s|
    ensures At(p, s, j) <==> At(p, s[1..], j - 1)
  {
    if j + |p| <= |s| {
      assert s[j..j + |p|] == s[1..][j - 1..j - 1 + |p|];
    }
  }

  /** The first occurrence is the only one before which there is none. */
  lemma FindIs(p: string, s: string, i: nat)
    requires At(p, s, i) && forall j | 0 <= j < i :: !At(p, s, j)
    ensures Find(p, s) == Some(i)
  {
  }

  lemma FindNone(p: string, s: string)
    requires forall j | 0 <= j <= |s| :: !At(p, s, j)
    ensures Find(p, s) == None
  {
  }

  /** An occurrence looks only at its own characters. */
  lemma AtWithin(p: string, s: string, t: string, i: nat, n: nat)
    requires n <= |s| && n <= |t| && s[..n] == t[..n] && i + |p| <= n
    ensures At(p, s, i) <==> At(p, t, i)
  {
    assert s[i..i + |p|] == s[..n][i..i + |p|];
    assert t[i..i + |p|] == t[..n][i..i + |p|];
  }

  // Splitting at a separator, and joining.

  function Split(sep: string, s: string): (parts: seq<string>)
    requires sep != ""
    ensures parts != []
    decreases |s|
  {
    match Find(sep, s)
    case None => [s]
    case Some(i) => [s[..i]] + Split(sep, s[i + |sep|..])
  }

  function Join(sep: string, parts: seq<string>): string
  {
    if parts == [] then ""
    else if |parts| == 1 then parts[0]
    else parts[0] + sep + Join(sep, parts[1..])
  }

  predicate Lacks(sep: string, s: string)
  {
    Find(sep, s) == None
  }

  /** No proper suffix of the separator is also a prefix of it. */
  predicate NoBorder(sep: string)
  {
    sep != "" && forall j | 0 < j < |sep| :: sep[j..] != sep[..|sep| - j]
  }

  lemma {:induction false} JoinSplit(sep: string, s: string)
    requires sep != ""
    ensures Join(sep, Split(sep, s)) == s
    decreases |s|
  {
    if Find(sep, s).Some? {
      var i := Find(sep, s).value;
      JoinSplit(sep, s[i + |sep|..]);
      assert Split(sep, s)[1..] == Split(sep, s[i + |sep|..]);
      assert s == s[..i] + sep + s[i + |sep|..];
    }
  }

  lemma {:induction false} SplitLacks(sep: string, s: string)
    requires sep != ""
    ensures forall part | part in Split(sep, s) :: Lacks(sep, part)
    decreases |s|
  {
    if Find(sep, s).Some? {
      var i := Find(sep, s).value;
      SplitLacks(sep, s[i + |sep|..]);
      forall j | 0 <= j <= i ensures !At(sep, s[..i], j) {
        if j + |sep| <= i {
          AtWithin(sep, s[..i], s, j, i);
        }
      }
      FindNone(sep, s[..i]);
      assert Split(sep, s) == [s[..i]] + Split(sep, s[i + |sep|..]);
    } else {
      forall part | part in Split(sep, s) ensures Lacks(sep, part) {
        assert part == s;
      }
    }
  }

  /** A separator without borders is first found where it was put. */
  lemma FirstSeparator(sep: string, part: string, rest: string)
    requires NoBorder(sep) && Lacks(sep, part)
    ensures Find(sep, part + sep + rest) == Some(|part|)
  {
    var s := part + sep + rest;
    assert s[|part|..|part| + |sep|] == sep;
    forall k | 0 <= k < |part| ensures !At(sep, s, k) {
      if k + |sep| <= |part| {
        AtWithin(sep, s, part, k, |part|);
      } else {
        var j := |part| - k;
        var window := s[k..k + |sep|];
        assert window[j..] == sep[..|sep| - j];
        assert sep[j..] != sep[..|sep| - j];
      }
    }
    FindIs(sep, s, |part|);
  }

  lemma SplitFirst(sep: string, part: string, rest: string)
    requires NoBorder(sep) && Lacks(sep, part)
    ensures Split(sep, part + sep + rest) == [part] + Split(sep, rest)
  {
    FirstSeparator(sep, part, rest);
    var s := part + sep + rest;
    assert s[..|part|] == part && s[|part| + |sep|..] == rest;
  }

  lemma {:induction false} SplitJoin(sep: string, parts: seq<string>)
    requires NoBorder(sep) && parts != [] && forall part | part in parts :: Lacks(sep, part)
    ensures Split(sep, Join(sep, parts)) == parts
  {
    assert parts[0] in parts;
    if |parts| > 1 {
      var rest := parts[1..];
      assert parts == [parts[0]] + rest;
      assert forall part | part in rest :: part in parts;
      SplitJoin(sep, rest);
      SplitFirst(sep, parts[0], Join(sep, rest));
    } else {
      assert parts == [parts[0]];
    }
  }
}
