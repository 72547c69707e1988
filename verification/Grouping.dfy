/** Grouping items by a key, as an ordered dictionary of lists does: keys in first-seen order, items in order. */
module Grouping {
  import opened Wrappers
  datatype Group<T> = Group(key: string, items: seq<T>)

  /** setdefault(key, []).append(item) on an ordered dictionary. */
  function AddTo<T>(groups: seq<Group<T>>, key: string, item: T): seq<Group<T>>
  {
    if groups == [] then [Group(key, [item])]
    else if groups[0].key == key then [Group(key, groups[0].items + [item])] + groups[1..]
    else [groups[0]] + AddTo(groups[1..], key, item)
  }

  function Grouped<T>(xs: seq<T>, key: T -> string): seq<Group<T>>
  {
    if xs == [] then []
    else
      var last := xs[|xs| - 1];
      AddTo(Grouped(xs[..|xs| - 1], key), key(last), last)
  }

  // What grouping should be.

  /** The items with a key, in order. */
  function Having<T>(xs: seq<T>, key: T -> string, k: string): seq<T>
  {
    if xs == [] then []
    else
      var last := xs[|xs| - 1];
      Having(xs[..|xs| - 1], key, k) + (if key(last) == k then [last] else [])
  }

  /** The keys, each where it is first seen. */
  function KeysOf<T>(xs: seq<T>, key: T -> string): seq<string>
  {
    if xs == [] then []
    else
      var before, last := KeysOf(xs[..|xs| - 1], key), key(xs[|xs| - 1]);
      before + (if last in before then [] else [last])
  }

  function Keys<T>(groups: seq<Group<T>>): seq<string>
  {
    seq(|groups|, i requires 0 <= i < |groups| => groups[i].key)
  }

  /** One group for each key, in order; each holds exactly the items with that key, in order. */
  predicate GroupsOf<T(==)>(groups: seq<Group<T>>, xs: seq<T>, key: T -> string)
  {
    && Keys(groups) == KeysOf(xs, key)
    && forall i | 0 <= i < |groups| :: groups[i].items == Having(xs, key, groups[i].key)
  }

  // Adding one item.

  /** What adding an item does to groups of distinct keys. */
  ghost predicate Added<T>(groups: seq<Group<T>>, key: string, item: T, out: seq<Group<T>>)
  {
    && Keys(out) == Keys(groups) + (if key in Keys(groups) then [] else [key])
    && |groups| <= |out|
    && (forall i | 0 <= i < |groups| ::
          out[i].items == groups[i].items + (if groups[i].key == key then [item] else []))
    && (|groups| < |out| ==> out[|groups|].items == [item])
  }

  lemma AddedFirst<T>(g: Group<T>, rest: seq<Group<T>>, item: T)
    requires Distinct(Keys([g] + rest))
    ensures Added([g] + rest, g.key, item, [Group(g.key, g.items + [item])] + rest)
  {
    var groups := [g] + rest;
    assert Keys(groups)[0] == g.key;
    forall i | 0 < i < |groups| ensures groups[i].key != g.key {
      assert Keys(groups)[i] != Keys(groups)[0];
    }
    assert Keys([Group(g.key, g.items + [item])] + rest) == Keys(groups);
  }

  lemma AddedLater<T>(g: Group<T>, rest: seq<Group<T>>, key: string, item: T, out: seq<Group<T>>)
    requires g.key != key && Added(rest, key, item, out)
    ensures Added([g] + rest, key, item, [g] + out)
  {
    assert Keys([g] + rest) == [g.key] + Keys(rest);
    assert Keys([g] + out) == [g.key] + Keys(out);
  }

  lemma DistinctRest<T>(groups: seq<Group<T>>)
    requires groups != [] && Distinct(Keys(groups))
    ensures Distinct(Keys(groups[1..]))
  {
    forall i, j | 0 <= i < j < |groups| - 1 ensures Keys(groups[1..])[i] != Keys(groups[1..])[j] {
      assert Keys(groups)[i + 1] != Keys(groups)[j + 1];
    }
  }

  lemma {:induction false} AddToExact<T>(groups: seq<Group<T>>, key: string, item: T)
    requires Distinct(Keys(groups))
    ensures Added(groups, key, item, AddTo(groups, key, item))
  {
    if groups != [] {
      assert groups == [groups[0]] + groups[1..];
      if groups[0].key == key {
        AddedFirst(groups[0], groups[1..], item);
      } else {
        DistinctRest(groups);
        AddToExact(groups[1..], key, item);
        AddedLater(groups[0], groups[1..], key, item, AddTo(groups[1..], key, item));
      }
    }
  }

  // Grouping is exact.

  lemma {:induction false} KeysDistinct<T>(xs: seq<T>, key: T -> string)
    ensures Distinct(KeysOf(xs, key))
    ensures forall k | k !in KeysOf(xs, key) :: Having(xs, key, k) == []
  {
    if xs != [] {
      KeysDistinct(xs[..|xs| - 1], key);
    }
  }

  lemma HavingSnoc<T>(xs: seq<T>, last: T, key: T -> string, k: string)
    ensures Having(xs + [last], key, k) == Having(xs, key, k) + (if key(last) == k then [last] else [])
  {
    assert (xs + [last])[..|xs|] == xs;
  }

  lemma KeysSnoc<T>(xs: seq<T>, last: T, key: T -> string)
    ensures KeysOf(xs + [last], key) == KeysOf(xs, key) + (if key(last) in KeysOf(xs, key) then [] else [key(last)])
  {
    assert (xs + [last])[..|xs|] == xs;
  }

  lemma KeyAt<T>(groups: seq<Group<T>>, i: nat)
    requires i < |groups|
    ensures Keys(groups)[i] == groups[i].key
  {
  }

  lemma AddedKey<T>(groups: seq<Group<T>>, key: string, item: T, out: seq<Group<T>>, i: nat)
    requires Added(groups, key, item, out) && i < |out|
    ensures |out| == |groups| + (if key in Keys(groups) then 0 else 1)
    ensures out[i].key == if i < |groups| then groups[i].key else key
  {
    assert |Keys(out)| == |out| && |Keys(groups)| == |groups|;
    KeyAt(out, i);
    if i < |groups| {
      KeyAt(groups, i);
    }
  }

  /** Each group grows as the items with its key do. */
  lemma ItemsGrow<T>(groups: seq<Group<T>>, last: T, key: T -> string, out: seq<Group<T>>, have: seq<T>, i: nat)
    requires Added(groups, key(last), last, out) && i < |out|
    requires have == if i < |groups| then groups[i].items else []
    ensures out[i].items == have + (if key(last) == out[i].key then [last] else [])
  {
    AddedKey(groups, key(last), last, out, i);
  }

  lemma GroupedStep<T>(groups: seq<Group<T>>, xs: seq<T>, last: T, key: T -> string)
    requires GroupsOf(groups, xs, key)
    ensures GroupsOf(AddTo(groups, key(last), last), xs + [last], key)
  {
    var out := AddTo(groups, key(last), last);
    KeysDistinct(xs, key);
    AddToExact(groups, key(last), last);
    KeysSnoc(xs, last, key);
    forall i | 0 <= i < |out| ensures out[i].items == Having(xs + [last], key, out[i].key) {
      AddedKey(groups, key(last), last, out, i);
      ItemsGrow(groups, last, key, out, Having(xs, key, out[i].key), i);
      HavingSnoc(xs, last, key, out[i].key);
    }
  }

  lemma {:induction false} GroupedExactly<T>(xs: seq<T>, key: T -> string)
    ensures GroupsOf(Grouped(xs, key), xs, key)
  {
    if xs != [] {
      var init, last := xs[..|xs| - 1], xs[|xs| - 1];
      GroupedExactly(init, key);
      GroupedStep(Grouped(init, key), init, last, key);
      assert init + [last] == xs;
    }
  }

  // The items with a key, and the keys, place by place.

  function KeyMark<T>(x: T, key: T -> string, k: string): Option<T>
  {
    if key(x) == k then Some(x) else None
  }

  function KeyMarks<T>(xs: seq<T>, key: T -> string, k: string): seq<Option<T>>
  {
    seq(|xs|, i requires 0 <= i < |xs| => KeyMark(xs[i], key, k))
  }

  /** The items with a key are exactly those, each once, in order. */
  lemma {:induction false} HavingExact<T>(xs: seq<T>, key: T -> string, k: string) returns (at: seq<nat>)
    ensures Gathers(KeyMarks(xs, key, k), at, Having(xs, key, k))
  {
    if xs == [] {
      at := [];
    } else {
      var init, last := xs[..|xs| - 1], xs[|xs| - 1];
      at := HavingExact(init, key, k);
      GathersSnoc(KeyMarks(init, key, k), at, Having(init, key, k), KeyMark(last, key, k));
      assert KeyMarks(xs, key, k) == KeyMarks(init, key, k) + [KeyMark(last, key, k)];
      at := if key(last) == k then at + [|init|] else at;
    }
  }

  /** No earlier item has the key. */
  predicate KeyIsNew<T>(xs: seq<T>, key: T -> string, i: nat)
    requires i < |xs|
  {
    forall j | 0 <= j < i :: key(xs[j]) != key(xs[i])
  }

  function NewMark<T>(xs: seq<T>, key: T -> string, i: nat): Option<string>
    requires i < |xs|
  {
    if KeyIsNew(xs, key, i) then Some(key(xs[i])) else None
  }

  function NewMarks<T>(xs: seq<T>, key: T -> string): seq<Option<string>>
  {
    seq(|xs|, i requires 0 <= i < |xs| => NewMark(xs, key, i))
  }

  lemma {:induction false} KeysHave<T>(xs: seq<T>, key: T -> string, k: string)
    ensures k in KeysOf(xs, key) <==> exists i | 0 <= i < |xs| :: key(xs[i]) == k
  {
    if xs != [] {
      var init, last := xs[..|xs| - 1], xs[|xs| - 1];
      KeysHave(init, key, k);
      if key(last) == k {
        assert key(xs[|xs| - 1]) == k;
      }
      if i :| 0 <= i < |init| && key(init[i]) == k {
        assert key(xs[i]) == k;
      }
    }
  }

  lemma NewSnoc<T>(init: seq<T>, last: T, key: T -> string)
    ensures NewMarks(init + [last], key)
         == NewMarks(init, key) + [if key(last) in KeysOf(init, key) then None else Some(key(last))]
  {
    var xs := init + [last];
    KeysHave(init, key, key(last));
    forall i | 0 <= i < |init| ensures NewMark(xs, key, i) == NewMark(init, key, i) {
      NewPrefix(init, last, key, i);
    }
    NewLast(init, last, key);
  }

  lemma NewPrefix<T>(init: seq<T>, last: T, key: T -> string, i: nat)
    requires i < |init|
    ensures KeyIsNew(init + [last], key, i) <==> KeyIsNew(init, key, i)
  {
    var xs := init + [last];
    if KeyIsNew(xs, key, i) {
      forall j | 0 <= j < i ensures key(init[j]) != key(init[i]) {
        assert key(xs[j]) != key(xs[i]);
      }
    }
    if KeyIsNew(init, key, i) {
      forall j | 0 <= j < i ensures key(xs[j]) != key(xs[i]) {
        assert key(init[j]) != key(init[i]);
      }
    }
  }

  lemma NewLast<T>(init: seq<T>, last: T, key: T -> string)
    ensures KeyIsNew(init + [last], key, |init|) <==> !exists i | 0 <= i < |init| :: key(init[i]) == key(last)
  {
    var xs := init + [last];
    if KeyIsNew(xs, key, |init|) {
      forall i | 0 <= i < |init| ensures key(init[i]) != key(last) {
        assert key(xs[i]) != key(xs[|init|]);
      }
    } else {
      var j :| 0 <= j < |init| && key(xs[j]) == key(xs[|init|]);
      assert key(init[j]) == key(last);
    }
  }

  /** The keys are those of the items, each where no earlier item has it. */
  lemma {:induction false} KeysExact<T>(xs: seq<T>, key: T -> string) returns (at: seq<nat>)
    ensures Gathers(NewMarks(xs, key), at, KeysOf(xs, key))
  {
    if xs == [] {
      at := [];
    } else {
      var init, last := xs[..|xs| - 1], xs[|xs| - 1];
      at := KeysExact(init, key);
      NewSnoc(init, last, key);
      assert init + [last] == xs;
      var mark := if key(last) in KeysOf(init, key) then None else Some(key(last));
      GathersSnoc(NewMarks(init, key), at, KeysOf(init, key), mark);
      at := if mark.Some? then at + [|init|] else at;
    }
  }

  // What the groups hold, item by item.

  ghost predicate GroupOk<T>(g: Group<T>, xs: seq<T>, key: T -> string)
  {
    g.items != [] && forall x | x in g.items :: x in xs && key(x) == g.key
  }

  lemma {:induction false} HavingItems<T>(xs: seq<T>, key: T -> string, k: string)
    ensures forall x | x in Having(xs, key, k) :: x in xs && key(x) == k
    ensures forall x | x in xs && key(x) == k :: x in Having(xs, key, k)
    ensures k in KeysOf(xs, key) <==> Having(xs, key, k) != []
  {
    if xs != [] {
      var init, last := xs[..|xs| - 1], xs[|xs| - 1];
      HavingItems(init, key, k);
      assert forall x | x in xs :: x in init || x == last;
      assert last in xs && forall x | x in init :: x in xs;
    }
  }

  lemma GroupsOk<T>(xs: seq<T>, key: T -> string)
    ensures forall g | g in Grouped(xs, key) :: GroupOk(g, xs, key)
  {
    var groups := Grouped(xs, key);
    GroupedExactly(xs, key);
    forall i | 0 <= i < |groups| ensures GroupOk(groups[i], xs, key) {
      KeyAt(groups, i);
      HavingItems(xs, key, groups[i].key);
    }
  }

  /** Items that all have one key stay together, in order. */
  lemma {:induction false} OneGroup<T>(xs: seq<T>, key: T -> string, k: string)
    requires xs != [] && forall x | x in xs :: key(x) == k
    ensures Grouped(xs, key) == [Group(k, xs)]
  {
    var init, last := xs[..|xs| - 1], xs[|xs| - 1];
    assert last in xs && forall x | x in init :: x in xs;
    if init == [] {
      assert xs == [last];
    } else {
      OneGroup(init, key, k);
      assert init + [last] == xs;
    }
  }
}
