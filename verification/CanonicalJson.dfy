/**
 * The canonical encoding behind the uniqueItems check: members sorted by key, compact separators, ASCII escapes; and
 * the loader that refuses repeated members.
 */
module CanonicalJson {
  import opened Wrappers
  import opened Json
  import opened JsonRoundTrip
  import opened TextOrder

  function MemberKey(m: Member): Text
  {
    m.key
  }

  function Canon(d: Doc): Doc
    decreases d, 0
  {
    match d
    case Arr(items) => Arr(seq(|items|, i requires 0 <= i < |items| => Canon(items[i])))
    case Obj(members) => Obj(SortBy(MemberKey, CanonMembers(members)))
    case _ => d
  }

  function CanonMembers(members: seq<Member>): seq<Member>
    decreases members, 1
  {
    seq(|members|, i requires 0 <= i < |members| => Member(members[i].key, Canon(members[i].value)))
  }

  /** The text that stands for a value. */
  function Dumps(d: Doc): string
  {
    Print(Canon(d))
  }

  function Encoded(items: seq<Doc>): seq<string>
  {
    seq(|items|, i requires 0 <= i < |items| => Dumps(items[i]))
  }

  /** The check: as many distinct encodings as items. */
  predicate UniqueItems(items: seq<Doc>)
  {
    |Encoded(items)| == |(set e | e in Encoded(items))|
  }

  // What the check is for.

  predicate DistinctKeys(members: seq<Member>)
  {
    DistinctBy(MemberKey, members)
  }

  /** Structural equality: as dictionaries, objects are equal when they map equal keys to equal values. */
  predicate Same(v: Doc, w: Doc)
  {
    match (v, w)
    case (Arr(a), Arr(b)) => |a| == |b| && forall i | 0 <= i < |a| :: Same(a[i], b[i])
    case (Obj(a), Obj(b)) =>
      |a| == |b| && forall i | 0 <= i < |a| :: HasSame(a[i], b)
    case (Arr(_), _) => false
    case (Obj(_), _) => false
    case _ => v == w
  }

  /** Some member has an equal key and an equal value. */
  predicate HasSame(m: Member, b: seq<Member>)
  {
    exists j | 0 <= j < |b| :: m.key == b[j].key && Same(m.value, b[j].value)
  }

  /** A value as the strict loader returns it: joined strings, real floats, no repeated member at any depth. */
  ghost predicate Loaded(d: Doc)
  {
    match d
    case Float(lexeme) => FloatsValid(d)
    case Str(t) => JoinedText(t) == t
    case Arr(items) => forall e | e in items :: Loaded(e)
    case Obj(members) =>
      DistinctKeys(members) && forall m: Member | m in members :: JoinedText(m.key) == m.key && Loaded(m.value)
    case _ => true
  }

  // Equal canonical forms are equal values.

  lemma {:induction false} CanonSame(v: Doc, w: Doc)
    requires Loaded(v) && Loaded(w)
    ensures Canon(v) == Canon(w) <==> Same(v, w)
    decreases v
  {
    if v.Arr? && w.Arr? {
      var a, b := v.items, w.items;
      forall i | 0 <= i < |a| && i < |b| ensures Canon(a[i]) == Canon(b[i]) <==> Same(a[i], b[i]) {
        assert a[i] in a && b[i] in b;
        CanonSame(a[i], b[i]);
      }
      var ca := seq(|a|, i requires 0 <= i < |a| => Canon(a[i]));
      var cb := seq(|b|, i requires 0 <= i < |b| => Canon(b[i]));
      assert Canon(v) == Arr(ca) && Canon(w) == Arr(cb);
      if |a| == |b| && forall i | 0 <= i < |a| :: Same(a[i], b[i]) {
        assert ca == cb;
      } else if |a| == |b| {
        var i :| 0 <= i < |a| && !Same(a[i], b[i]);
        assert ca[i] != cb[i];
      }
    } else if v.Obj? && w.Obj? {
      if Canon(v) == Canon(w) {
        EqualCanonSame(v, w.members);
      } else if Same(v, w) {
        SameEqualCanon(v, w.members);
      }
    }
  }

  lemma {:induction false} EqualCanonSame(v: Doc, b: seq<Member>)
    requires v.Obj? && Loaded(v) && Loaded(Obj(b)) && Canon(v) == Canon(Obj(b))
    ensures Same(v, Obj(b))
    decreases v, 0
  {
    var a := v.members;
    SortKeeps(MemberKey, CanonMembers(a));
    SortKeeps(MemberKey, CanonMembers(b));
    SameLength(CanonMembers(a), CanonMembers(b));
    forall i | 0 <= i < |a| ensures HasSame(a[i], b) {
      var j := Counterpart(a, b, i);
      assert a[i] in a && b[j] in b;
      CanonSame(a[i].value, b[j].value);
    }
  }

  lemma {:induction false} SameEqualCanon(v: Doc, b: seq<Member>)
    requires v.Obj? && Loaded(v) && Loaded(Obj(b)) && Same(v, Obj(b))
    ensures Canon(v) == Canon(Obj(b))
    decreases v, 0
  {
    var a := v.members;
    forall i | 0 <= i < |a| ensures CanonMembers(a)[i] in CanonMembers(b) {
      assert HasSame(a[i], b);
      var j :| 0 <= j < |b| && a[i].key == b[j].key && Same(a[i].value, b[j].value);
      assert a[i] in a && b[j] in b;
      CanonSame(a[i].value, b[j].value);
      assert CanonMembers(b)[j] == CanonMembers(a)[i];
    }
    EqualSets(CanonMembers(a), CanonMembers(b));
    SameElementsSortAlike(MemberKey, CanonMembers(a), CanonMembers(b));
  }

  lemma SameLength<T>(a: seq<T>, b: seq<T>)
    requires multiset(a) == multiset(b)
    ensures |a| == |b|
  {
    assert |multiset(a)| == |a| && |multiset(b)| == |b|;
  }

  lemma Counterpart(a: seq<Member>, b: seq<Member>, i: nat) returns (j: nat)
    requires SortBy(MemberKey, CanonMembers(a)) == SortBy(MemberKey, CanonMembers(b)) && i < |a|
    ensures j < |b| && a[i].key == b[j].key && Canon(a[i].value) == Canon(b[j].value)
    ensures |a| == |b|
  {
    var ca, cb := CanonMembers(a), CanonMembers(b);
    SortHas(MemberKey, ca, ca[i]);
    SortHas(MemberKey, cb, ca[i]);
    j :| 0 <= j < |cb| && cb[j] == ca[i];
  }

  /** Pigeonhole: a list of distinct elements inside another of the same length has all of the other's elements. */
  lemma EqualSets(a: seq<Member>, b: seq<Member>)
    requires |a| == |b| && DistinctKeys(a)
    requires forall i | 0 <= i < |a| :: a[i] in b
    ensures forall m: Member :: m in a <==> m in b
  {
    var sa, sb := (set m: Member | m in a), (set m: Member | m in b);
    DistinctCount(a);
    SetBound(b);
    assert sa <= sb;
    SubsetSize(sa, sb);
    forall m: Member ensures m in a <==> m in b {
      assert m in sa <==> m in a;
      assert m in sb <==> m in b;
    }
  }

  lemma SubsetSize<T>(a: set<T>, b: set<T>)
    requires a <= b && |b| <= |a|
    ensures a == b
  {
    assert |b| == |a| + |b - a| by { assert b == a + (b - a); }
    assert b - a == {};
  }

  lemma {:induction false} DistinctCount<T>(s: seq<T>)
    requires forall i, j :: 0 <= i < j < |s| ==> s[i] != s[j]
    ensures |(set x | x in s)| == |s|
  {
    if s != [] {
      var init, last := s[..|s| - 1], s[|s| - 1];
      DistinctCount(init);
      assert (set x | x in s) == (set x | x in init) + {last};
      assert last !in init;
    }
  }

  lemma {:induction false} SetBound<T>(s: seq<T>)
    ensures |(set x | x in s)| <= |s|
  {
    if s != [] {
      var init, last := s[..|s| - 1], s[|s| - 1];
      SetBound(init);
      assert (set x | x in s) == (set x | x in init) + {last};
    }
  }

  lemma {:induction false} RepeatCount<T>(s: seq<T>, i: nat, j: nat)
    requires i < j < |s| && s[i] == s[j]
    ensures |(set x | x in s)| < |s|
  {
    var rest := s[..j] + s[j + 1..];
    SetBound(rest);
    assert (set x | x in s) == (set x | x in rest) by {
      forall x ensures x in s <==> x in rest {
        if x in s {
          var k :| 0 <= k < |s| && s[k] == x;
          var at := if k < j then k else if k == j then i else k - 1;
          assert rest[at] == x;
        }
      }
    }
  }

  // Canonical forms stay printable.

  lemma {:induction false} LoadedJoined(d: Doc)
    requires Loaded(d)
    ensures JoinedDoc(d) == d && FloatsValid(d)
    decreases d, 0
  {
    match d
    case Arr(items) => LoadedItemsJoined(items);
    case Obj(members) => LoadedMembersJoined(members);
    case _ =>
  }

  lemma {:induction false} LoadedItemsJoined(items: seq<Doc>)
    requires forall e | e in items :: Loaded(e)
    ensures JoinedItems(items) == items && forall e | e in items :: FloatsValid(e)
    decreases items, 1
  {
    if items != [] {
      LoadedJoined(items[0]);
      LoadedItemsJoined(items[1..]);
      assert items == [items[0]] + items[1..];
    }
  }

  lemma {:induction false} LoadedMembersJoined(members: seq<Member>)
    requires forall m: Member | m in members :: JoinedText(m.key) == m.key && Loaded(m.value)
    ensures JoinedMembers(members) == members && forall m: Member | m in members :: FloatsValid(m.value)
    decreases members, 1
  {
    if members != [] {
      LoadedJoined(members[0].value);
      LoadedMembersJoined(members[1..]);
      assert members == [members[0]] + members[1..];
    }
  }

  lemma {:induction false} CanonLoaded(d: Doc)
    requires Loaded(d)
    ensures Loaded(Canon(d))
    decreases d
  {
    match d
    case Arr(items) =>
      forall i | 0 <= i < |items| ensures Loaded(Canon(items[i])) {
        assert items[i] in items;
        CanonLoaded(items[i]);
      }
    case Obj(members) =>
      var cm := CanonMembers(members);
        forall i | 0 <= i < |cm| ensures JoinedText(cm[i].key) == cm[i].key && Loaded(cm[i].value) {
        assert members[i] in members;
        CanonLoaded(members[i].value);
      }
      SortSorts(MemberKey, cm);
      SortedDistinct(MemberKey, SortBy(MemberKey, cm));
      forall m: Member | m in SortBy(MemberKey, cm) ensures JoinedText(m.key) == m.key && Loaded(m.value) {
        SortHas(MemberKey, cm, m);
      }
    case _ =>
  }

  /** The canonical encoding stands for the value: equal texts, equal values, in whatever order members were given. */
  lemma DumpsInjective(v: Doc, w: Doc)
    requires Loaded(v) && Loaded(w)
    ensures Dumps(v) == Dumps(w) <==> Same(v, w)
  {
    CanonLoaded(v);
    CanonLoaded(w);
    LoadedJoined(Canon(v));
    LoadedJoined(Canon(w));
    PrintInjective(Canon(v), Canon(w));
    CanonSame(v, w);
  }

  /** uniqueItems accepts exactly the arrays without two structurally equal items. */
  lemma UniqueItemsExact(items: seq<Doc>)
    requires forall e | e in items :: Loaded(e)
    ensures UniqueItems(items) <==> forall i, j :: 0 <= i < j < |items| ==> !Same(items[i], items[j])
  {
    var texts := Encoded(items);
    forall i, j | 0 <= i < j < |items| ensures texts[i] == texts[j] <==> Same(items[i], items[j]) {
      assert items[i] in items && items[j] in items;
      DumpsInjective(items[i], items[j]);
    }
    if forall i, j :: 0 <= i < j < |items| ==> !Same(items[i], items[j]) {
      DistinctCount(texts);
    } else {
      var i, j :| 0 <= i < j < |items| && Same(items[i], items[j]);
      RepeatCount(texts, i, j);
    }
  }

  /**
   * Without joining the claim fails: the two surrogates given separately and the one code point they stand for are
   * different strings with the same encoding. No loaded document holds the former.
   */
  lemma SeparateSurrogatesCollide()
    ensures var a, b := Str([0xD83D, 0xDE00]), Str([0x1F600]); a != b && Dumps(a) == Dumps(b) && !UniqueItems([a, b])
  {
    var a, b := Str([0xD83D, 0xDE00]), Str([0x1F600]);
    assert JoinedText(a.text) == b.text by {
      assert a.text[2..] == [];
      assert b.text == [0x1F600];
    }
    PrintInjective(a, b);
    assert JoinedText(b.text) == b.text;
    assert Canon(a) == a && Canon(b) == b;
    var items := [a, b];
    assert Encoded(items)[0] == Encoded(items)[1];
    RepeatCount(Encoded(items), 0, 1);
  }

  // The loader that refuses repeated members.

  /** The decoder's object hook: a dictionary of the members, or the key that came twice. */
  method RejectDuplicateMembers(pairs: seq<Member>) returns (r: Result<map<Text, Doc>, Text>)
    ensures r.Ok? <==> DistinctKeys(pairs)
    ensures r.Ok? ==> r.value.Keys == (set m: Member | m in pairs :: m.key)
    ensures r.Ok? ==> forall m: Member | m in pairs :: r.value[m.key] == m.value
    ensures r.Err? ==> exists n | 0 <= n < |pairs| ::
              && r.error == pairs[n].key
              && DistinctKeys(pairs[..n])
              && exists i | 0 <= i < n :: pairs[i].key == r.error
  {
    var result: map<Text, Doc> := map[];
    for n := 0 to |pairs|
      invariant DistinctKeys(pairs[..n])
      invariant result.Keys == (set m: Member | m in pairs[..n] :: m.key)
      invariant forall i | 0 <= i < n :: pairs[i].key in result && result[pairs[i].key] == pairs[i].value
    {
      var key, value := pairs[n].key, pairs[n].value;
      if key in result {
        ghost var m: Member :| m in pairs[..n] && m.key == key;
        return Err(key);
      }
      result := result[key := value];
      assert pairs[..n + 1] == pairs[..n] + [pairs[n]];
    }
    assert pairs[..|pairs|] == pairs;
    return Ok(result);
  }

  /** No object of the document repeats a member. */
  predicate NoRepeats(d: Doc)
  {
    match d
    case Arr(items) => forall e | e in items :: NoRepeats(e)
    case Obj(members) => DistinctKeys(members) && forall m: Member | m in members :: NoRepeats(m.value)
    case _ => true
  }

  /** Loading with the hook applied to every object of the document. */
  function LoadStrict(s: string): Option<Doc>
  {
    match Load(s)
    case None => None
    case Some(d) => if NoRepeats(d) then Some(d) else None
  }

  lemma {:induction false} JoinedIsLoaded(d: Doc)
    requires JoinedDoc(d) == d && FloatsValid(d) && NoRepeats(d)
    ensures Loaded(d)
    decreases d
  {
    match d
    case Arr(items) =>
      JoinedItemsEach(items);
      forall e | e in items ensures Loaded(e) {
        JoinedIsLoaded(e);
      }
    case Obj(members) =>
      JoinedMembersEach(members);
      forall m: Member | m in members ensures Loaded(m.value) {
        JoinedIsLoaded(m.value);
      }
    case _ =>
  }

  lemma {:induction false} JoinedItemsEach(items: seq<Doc>)
    requires JoinedItems(items) == items
    ensures forall e | e in items :: JoinedDoc(e) == e
  {
    if items != [] {
      assert JoinedItems(items)[1..] == JoinedItems(items[1..]);
      JoinedItemsEach(items[1..]);
      assert items == [items[0]] + items[1..];
    }
  }

  lemma {:induction false} JoinedMembersEach(members: seq<Member>)
    requires JoinedMembers(members) == members
    ensures forall m: Member | m in members :: JoinedText(m.key) == m.key && JoinedDoc(m.value) == m.value
  {
    if members != [] {
      assert JoinedMembers(members)[1..] == JoinedMembers(members[1..]);
      JoinedMembersEach(members[1..]);
      assert members == [members[0]] + members[1..];
    }
  }
}
