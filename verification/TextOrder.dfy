/** Sorting by a key that is a string: code-point order, stable insertion, and what a sorted list is determined by. */
module TextOrder {
  import opened Json

  /** Python's order on strings. */
  predicate Less(a: Text, b: Text)
  {
    b != [] && (a == [] || a[0] < b[0] || (a[0] == b[0] && Less(a[1..], b[1..])))
  }

  function Insert<T>(key: T -> Text, x: T, s: seq<T>): seq<T>
  {
    if s != [] && Less(key(s[0]), key(x)) then [s[0]] + Insert(key, x, s[1..]) else [x] + s
  }

  function SortBy<T>(key: T -> Text, s: seq<T>): seq<T>
  {
    if s == [] then [] else Insert(key, s[0], SortBy(key, s[1..]))
  }

  ghost predicate Sorted<T>(key: T -> Text, s: seq<T>)
  {
    forall i, j :: 0 <= i < j < |s| ==> Less(key(s[i]), key(s[j]))
  }

  predicate DistinctBy<T>(key: T -> Text, s: seq<T>)
  {
    forall i, j :: 0 <= i < j < |s| ==> key(s[i]) != key(s[j])
  }

  lemma {:induction false} LessTotal(a: Text, b: Text)
    ensures a == b <==> !Less(a, b) && !Less(b, a)
    ensures !(Less(a, b) && Less(b, a))
  {
    if a != [] && b != [] && a[0] == b[0] {
      LessTotal(a[1..], b[1..]);
      assert a == [a[0]] + a[1..] && b == [b[0]] + b[1..];
    }
  }

  lemma {:induction false} LessTransitive(a: Text, b: Text, c: Text)
    requires Less(a, b) && Less(b, c)
    ensures Less(a, c)
  {
    if a != [] && a[0] == b[0] == c[0] {
      LessTransitive(a[1..], b[1..], c[1..]);
    }
  }

  lemma {:induction false} InsertKeeps<T>(key: T -> Text, x: T, s: seq<T>)
    ensures multiset(Insert(key, x, s)) == multiset{x} + multiset(s)
  {
    if s != [] && Less(key(s[0]), key(x)) {
      InsertKeeps(key, x, s[1..]);
      assert s == [s[0]] + s[1..];
    }
  }

  lemma {:induction false} InsertSorted<T>(key: T -> Text, x: T, s: seq<T>)
    requires Sorted(key, s) && forall y | y in s :: key(y) != key(x)
    ensures Sorted(key, Insert(key, x, s))
  {
    if s != [] {
      LessTotal(key(s[0]), key(x));
      if Less(key(s[0]), key(x)) {
        InsertSorted(key, x, s[1..]);
        var r := Insert(key, x, s[1..]);
        InsertKeeps(key, x, s[1..]);
        forall y | y in r ensures Less(key(s[0]), key(y)) {
          assert y in multiset(r);
          assert y == x || y in s[1..];
        }
      } else {
        forall y | y in s ensures Less(key(x), key(y)) {
          if y != s[0] {
            LessTransitive(key(x), key(s[0]), key(y));
          }
        }
      }
    }
  }

  lemma {:induction false} SortKeeps<T>(key: T -> Text, s: seq<T>)
    ensures multiset(SortBy(key, s)) == multiset(s)
  {
    if s != [] {
      SortKeeps(key, s[1..]);
      InsertKeeps(key, s[0], SortBy(key, s[1..]));
      assert s == [s[0]] + s[1..];
    }
  }

  lemma SortHas<T>(key: T -> Text, s: seq<T>, x: T)
    ensures x in SortBy(key, s) <==> x in s
    ensures |SortBy(key, s)| == |s|
  {
    SortKeeps(key, s);
    assert x in SortBy(key, s) <==> x in multiset(SortBy(key, s));
    assert |multiset(SortBy(key, s))| == |SortBy(key, s)|;
    assert |multiset(s)| == |s|;
  }

  lemma {:induction false} SortSorts<T>(key: T -> Text, s: seq<T>)
    requires DistinctBy(key, s)
    ensures Sorted(key, SortBy(key, s))
  {
    if s != [] {
      SortSorts(key, s[1..]);
      forall y | y in SortBy(key, s[1..]) ensures key(y) != key(s[0]) {
        SortHas(key, s[1..], y);
      }
      InsertSorted(key, s[0], SortBy(key, s[1..]));
    }
  }

  lemma SortedDistinct<T>(key: T -> Text, s: seq<T>)
    requires Sorted(key, s)
    ensures DistinctBy(key, s)
  {
    forall i, j | 0 <= i < j < |s| ensures key(s[i]) != key(s[j]) {
      LessTotal(key(s[i]), key(s[j]));
    }
  }

  /** A sorted list is determined by its elements. */
  lemma {:induction false} SortedUnique<T>(key: T -> Text, a: seq<T>, b: seq<T>)
    requires Sorted(key, a) && Sorted(key, b) && forall x :: x in a <==> x in b
    ensures a == b
  {
    assert b != [] ==> b[0] in a;
    if a != [] {
      assert a[0] in b && b[0] in a;
      assert a[0] == b[0] by {
        LessTotal(key(a[0]), key(b[0]));
      }
      LessTotal(key(a[0]), key(a[0]));
      forall x ensures x in a[1..] <==> x in b[1..] {
        assert x in a[1..] <==> x in a && x != a[0];
        assert x in b[1..] <==> x in b && x != b[0];
      }
      SortedUnique(key, a[1..], b[1..]);
    }
  }

  /** Lists with the same elements, none repeated, sort alike. */
  lemma SameElementsSortAlike<T>(key: T -> Text, a: seq<T>, b: seq<T>)
    requires DistinctBy(key, a) && DistinctBy(key, b) && forall x :: x in a <==> x in b
    ensures SortBy(key, a) == SortBy(key, b)
  {
    SortSorts(key, a);
    SortSorts(key, b);
    forall x ensures x in SortBy(key, a) <==> x in SortBy(key, b) {
      SortHas(key, a, x);
      SortHas(key, b, x);
    }
    SortedUnique(key, SortBy(key, a), SortBy(key, b));
  }
}
