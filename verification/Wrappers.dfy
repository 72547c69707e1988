/**
 * What the other modules share: an optional value, the outcome of a step that may raise, sequences without repeats,
 * conditions that are carried along, and what it is to gather some values of a list in order.
 */
module Wrappers {

  datatype Option<+T> = None | Some(value: T)

  datatype Result<+T, +E> = Ok(value: T) | Err(error: E)

  predicate Distinct<T(==)>(s: seq<T>)
  {
    forall i, j | 0 <= i < j < |s| :: s[i] != s[j]
  }

  /** What is carried along while every step so far is fine holds at the end exactly when every step is. */
  lemma {:induction false} AllSoFar(upTo: seq<bool>, each: seq<bool>, n: nat)
    requires |upTo| == |each| + 1 && n <= |each| && upTo[0]
    requires forall k | 0 <= k < |each| :: upTo[k + 1] == (upTo[k] && each[k])
    ensures upTo[n] <==> forall k | 0 <= k < n :: each[k]
  {
    if n > 0 {
      AllSoFar(upTo, each, n - 1);
    }
  }

  /** What is carried along once some step has found it is there at the end exactly when some step finds it. */
  lemma {:induction false} AnySoFar(upTo: seq<bool>, each: seq<bool>, n: nat)
    requires |upTo| == |each| + 1 && n <= |each| && !upTo[0]
    requires forall k | 0 <= k < |each| :: upTo[k + 1] == (upTo[k] || each[k])
    ensures upTo[n] <==> exists k | 0 <= k < n :: each[k]
  {
    if n > 0 {
      AnySoFar(upTo, each, n - 1);
    }
  }

  predicate Increasing(at: seq<nat>)
  {
    forall j, k | 0 <= j < k < |at| :: at[j] < at[k]
  }

  ghost predicate Taken<T>(marks: seq<Option<T>>, at: seq<nat>, out: seq<T>)
  {
    |at| == |out| && forall k | 0 <= k < |at| :: at[k] < |marks| && marks[at[k]] == Some(out[k])
  }

  predicate Complete<T>(marks: seq<Option<T>>, at: seq<nat>)
  {
    forall i: nat | i < |marks| && marks[i].Some? :: i in at
  }

  /** The values that are there, each once, in order; every one comes from its place. */
  ghost predicate Gathers<T>(marks: seq<Option<T>>, at: seq<nat>, out: seq<T>)
  {
    Increasing(at) && Taken(marks, at, out) && Complete(marks, at)
  }

  lemma GathersSnoc<T>(marks: seq<Option<T>>, at: seq<nat>, out: seq<T>, m: Option<T>)
    requires Gathers(marks, at, out)
    ensures m.None? ==> Gathers(marks + [m], at, out)
    ensures m.Some? ==> Gathers(marks + [m], at + [|marks|], out + [m.value])
  {
  }

  function Shifted(at: seq<nat>): seq<nat>
  {
    seq(|at|, k requires 0 <= k < |at| => at[k] + 1)
  }

  lemma ShiftedHas(at: seq<nat>, i: nat)
    ensures i + 1 in Shifted(at) <==> i in at
    ensures 0 !in Shifted(at)
  {
    if i in at {
      var k :| 0 <= k < |at| && at[k] == i;
      assert Shifted(at)[k] == i + 1;
    }
  }

  lemma CompleteCons<T>(m: Option<T>, marks: seq<Option<T>>, at: seq<nat>)
    requires Complete(marks, at)
    ensures Complete([m] + marks, if m.Some? then [0] + Shifted(at) else Shifted(at))
  {
    var all := [m] + marks;
    forall i: nat | 0 < i < |all| && all[i].Some? ensures i in Shifted(at) {
      assert marks[i - 1].Some?;
      ShiftedHas(at, i - 1);
    }
  }

  lemma IncreasingCons(at: seq<nat>)
    requires Increasing(at)
    ensures Increasing(Shifted(at)) && Increasing([0] + Shifted(at))
  {
  }

  lemma TakenCons<T>(m: Option<T>, marks: seq<Option<T>>, at: seq<nat>, out: seq<T>)
    requires Taken(marks, at, out)
    ensures Taken([m] + marks, Shifted(at), out)
    ensures m.Some? ==> Taken([m] + marks, [0] + Shifted(at), [m.value] + out)
  {
  }

  lemma GathersCons<T>(m: Option<T>, marks: seq<Option<T>>, at: seq<nat>, out: seq<T>)
    requires Gathers(marks, at, out)
    ensures m.None? ==> Gathers([m] + marks, Shifted(at), out)
    ensures m.Some? ==> Gathers([m] + marks, [0] + Shifted(at), [m.value] + out)
  {
    CompleteCons(m, marks, at);
    IncreasingCons(at);
    TakenCons(m, marks, at, out);
  }

  /** Increasing lists with the same elements are the same. */
  lemma {:induction false} SameIncreasing(a: seq<nat>, b: seq<nat>)
    requires Increasing(a) && Increasing(b) && forall i: nat :: i in a <==> i in b
    ensures a == b
  {
    BothEmpty(a, b);
    if a != [] {
      var x, y := a[|a| - 1], b[|b| - 1];
      var p, q := a[..|a| - 1], b[..|b| - 1];
      assert x in b && y in a;
      assert x == y;
      forall i: nat ensures i in p <==> i in q {
        LastIsMost(a, i);
        LastIsMost(b, i);
      }
      SameIncreasing(p, q);
      assert a == p + [x] && b == q + [y];
    }
  }

  lemma BothEmpty(a: seq<nat>, b: seq<nat>)
    requires forall i: nat :: i in a <==> i in b
    ensures a == [] <==> b == []
  {
    if a != [] {
      assert a[0] in b;
    }
    if b != [] {
      assert b[0] in a;
    }
  }

  lemma LastIsMost(a: seq<nat>, i: nat)
    requires Increasing(a) && a != []
    ensures i in a[..|a| - 1] <==> i in a && i != a[|a| - 1]
  {
  }

  lemma GatheredAt<T>(marks: seq<Option<T>>, at: seq<nat>, out: seq<T>, i: nat)
    requires Gathers(marks, at, out)
    ensures i in at <==> i < |marks| && marks[i].Some?
  {
  }

  /** There is only one way to gather the values of a list. */
  lemma GathersOnce<T>(marks: seq<Option<T>>, a: seq<nat>, out: seq<T>, b: seq<nat>, other: seq<T>)
    requires Gathers(marks, a, out) && Gathers(marks, b, other)
    ensures out == other
  {
    forall i: nat ensures i in a <==> i in b {
      GatheredAt(marks, a, out, i);
      GatheredAt(marks, b, other, i);
    }
    SameIncreasing(a, b);
    forall k | 0 <= k < |a| ensures out[k] == other[k] {
      assert Some(out[k]) == Some(other[k]);
    }
  }
}
