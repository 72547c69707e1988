/**
 * What the uniqueItems check decides about the values that the loader returns. A float is kept under the spelling that
 * is printed for it, so two spellings of one float are one value. The check compares encodings, which tell a whole
 * number from a float and a truth value from either; equality, as const and enum use it, does not.
 */
module UniqueValues {
  import opened Wrappers
  import opened Json
  import opened JsonRoundTrip
  import opened CanonicalJson
  import opened Numbers

  // Values.

  /** The document with each float under its printed spelling. */
  function Settle(fl: Floats, d: Doc): Doc
    decreases d, 0
  {
    match d
    case Float(lexeme) => Float(Canonical(fl, lexeme))
    case Arr(items) => Arr(seq(|items|, i requires 0 <= i < |items| => Settle(fl, items[i])))
    case Obj(members) => Obj(SettleMembers(fl, members))
    case _ => d
  }

  function SettleMembers(fl: Floats, members: seq<Member>): seq<Member>
    decreases members, 1
  {
    seq(|members|, i requires 0 <= i < |members| => Member(members[i].key, Settle(fl, members[i].value)))
  }

  predicate Settled(fl: Floats, d: Doc)
  {
    match d
    case Float(lexeme) => Canonical(fl, lexeme) == lexeme
    case Arr(items) => forall e | e in items :: Settled(fl, e)
    case Obj(members) => forall m: Member | m in members :: Settled(fl, m.value)
    case _ => true
  }

  /** The value that strict loading returns. */
  function LoadValue(fl: Floats, s: string): Option<Doc>
  {
    match LoadStrict(s)
    case None => None
    case Some(d) => Some(Settle(fl, d))
  }

  lemma {:induction false} SettleLoaded(fl: Floats, d: Doc)
    requires Sound(fl) && Loaded(d)
    ensures Loaded(Settle(fl, d)) && Settled(fl, Settle(fl, d))
    decreases d
  {
    match d
    case Float(lexeme) => assert ReprReads(fl, lexeme);
    case Arr(items) =>
      forall i | 0 <= i < |items| ensures Loaded(Settle(fl, items[i])) && Settled(fl, Settle(fl, items[i])) {
        assert items[i] in items;
        SettleLoaded(fl, items[i]);
      }
    case Obj(members) =>
      var sm := SettleMembers(fl, members);
      forall i | 0 <= i < |sm|
        ensures JoinedText(sm[i].key) == sm[i].key && Loaded(sm[i].value) && Settled(fl, sm[i].value)
      {
        assert members[i] in members;
        SettleLoaded(fl, members[i].value);
      }
    case _ =>
  }

  lemma LoadedSettled(fl: Floats, s: string)
    requires Sound(fl) && LoadValue(fl, s).Some?
    ensures Loaded(LoadValue(fl, s).value) && Settled(fl, LoadValue(fl, s).value)
  {
    DecodedJoined(SkipSpace(s));
    JoinedIsLoaded(LoadStrict(s).value);
    SettleLoaded(fl, LoadStrict(s).value);
  }

  // Equality.

  /** The amount a number stands for; not-a-number is the one object that the decoder uses for it. */
  datatype Amount = Exactly(r: real) | Above | Below | Undefined

  predicate IsNumber(d: Doc)
  {
    d.Bool? || d.Int? || d.Float?
  }

  function AmountOf(x: Double): Amount
  {
    match x
    case Finite(negative, magnitude) => Exactly(if negative then -magnitude else magnitude)
    case Infinite(negative) => if negative then Below else Above
    case NotANumber => Undefined
  }

  function Amounts(fl: Floats, d: Doc): Amount
    requires IsNumber(d)
  {
    match d
    case Bool(b) => Exactly(if b then 1.0 else 0.0)
    case Int(i) => Exactly(i as real)
    case Float(lexeme) => AmountOf(fl.parse(lexeme))
  }

  /** Equality of values: numbers by amount, truth values being numbers, and dictionaries without regard to order. */
  predicate Equal(fl: Floats, v: Doc, w: Doc)
  {
    match (v, w)
    case (Arr(a), Arr(b)) => |a| == |b| && forall i | 0 <= i < |a| :: Equal(fl, a[i], b[i])
    case (Obj(a), Obj(b)) => |a| == |b| && forall i | 0 <= i < |a| :: HasEqual(fl, a[i], b)
    case (Arr(_), _) => false
    case (Obj(_), _) => false
    case _ => if IsNumber(v) && IsNumber(w) then Amounts(fl, v) == Amounts(fl, w) else v == w
  }

  predicate HasEqual(fl: Floats, m: Member, b: seq<Member>)
  {
    exists j | 0 <= j < |b| :: m.key == b[j].key && Equal(fl, m.value, b[j].value)
  }

  /** What an encoding tells of a number besides its amount; a zero has a sign only as a float. */
  datatype Kind = TruthValue | Whole | Floating(negative: bool)

  function KindOf(fl: Floats, d: Doc): Kind
    requires IsNumber(d)
  {
    match d
    case Bool(b) => TruthValue
    case Int(i) => Whole
    case Float(lexeme) => var x := fl.parse(lexeme); Floating(x.Finite? && x.negative)
  }

  /** Wherever both values hold a number, it is of one kind. */
  predicate Alike(fl: Floats, v: Doc, w: Doc)
  {
    match (v, w)
    case (Arr(a), Arr(b)) => |a| == |b| ==> forall i | 0 <= i < |a| :: Alike(fl, a[i], b[i])
    case (Obj(a), Obj(b)) => forall i | 0 <= i < |a| :: HasAlike(fl, a[i], b)
    case _ => IsNumber(v) && IsNumber(w) ==> KindOf(fl, v) == KindOf(fl, w)
  }

  predicate HasAlike(fl: Floats, m: Member, b: seq<Member>)
  {
    exists j | 0 <= j < |b| :: m.key == b[j].key && Alike(fl, m.value, b[j].value)
  }

  lemma NumberSame(fl: Floats, v: Doc, w: Doc)
    requires Settled(fl, v) && Settled(fl, w) && IsNumber(v) && IsNumber(w)
    ensures Same(v, w) <==> Equal(fl, v, w) && Alike(fl, v, w)
  {
    if v.Float? && w.Float? && Equal(fl, v, w) && Alike(fl, v, w) {
      assert fl.parse(v.lexeme) == fl.parse(w.lexeme);
    }
  }

  /** Structural sameness, which the encoding decides, is equality with numbers of the same kinds. */
  lemma {:induction false} SameExactly(fl: Floats, v: Doc, w: Doc)
    requires Settled(fl, v) && Settled(fl, w) && Loaded(w)
    ensures Same(v, w) <==> Equal(fl, v, w) && Alike(fl, v, w)
    decreases v
  {
    if v.Arr? && w.Arr? {
      var a, b := v.items, w.items;
      forall i | 0 <= i < |a| && i < |b|
        ensures Same(a[i], b[i]) <==> Equal(fl, a[i], b[i]) && Alike(fl, a[i], b[i])
      {
        assert a[i] in a && b[i] in b;
        SameExactly(fl, a[i], b[i]);
      }
    } else if v.Obj? && w.Obj? {
      forall i | 0 <= i < |v.members|
        ensures HasSame(v.members[i], w.members)
           <==> HasEqual(fl, v.members[i], w.members) && HasAlike(fl, v.members[i], w.members)
      {
        assert v.members[i] in v.members;
        MemberSame(fl, v.members[i], w);
      }
    } else if IsNumber(v) && IsNumber(w) {
      NumberSame(fl, v, w);
    }
  }

  lemma {:induction false} MemberSame(fl: Floats, m: Member, w: Doc)
    requires Settled(fl, m.value) && w.Obj? && Settled(fl, w) && Loaded(w)
    ensures HasSame(m, w.members) <==> HasEqual(fl, m, w.members) && HasAlike(fl, m, w.members)
    decreases m, 0
  {
    var b := w.members;
    forall j | 0 <= j < |b|
      ensures Same(m.value, b[j].value) <==> Equal(fl, m.value, b[j].value) && Alike(fl, m.value, b[j].value)
    {
      assert b[j] in b;
      SameExactly(fl, m.value, b[j].value);
    }
    if HasEqual(fl, m, b) && HasAlike(fl, m, b) {
      var j :| 0 <= j < |b| && m.key == b[j].key && Equal(fl, m.value, b[j].value);
      var k :| 0 <= k < |b| && m.key == b[k].key && Alike(fl, m.value, b[k].value);
      assert j == k;
    }
  }

  /** Two loaded values have one encoding exactly when they are equal with numbers of the same kinds. */
  lemma EncodingExact(fl: Floats, v: Doc, w: Doc)
    requires Settled(fl, v) && Settled(fl, w) && Loaded(v) && Loaded(w)
    ensures Dumps(v) == Dumps(w) <==> Equal(fl, v, w) && Alike(fl, v, w)
  {
    DumpsInjective(v, w);
    SameExactly(fl, v, w);
  }

  // The check.

  /** Two of the items are equal. */
  ghost predicate Repeats(fl: Floats, items: seq<Doc>)
  {
    exists i, j :: 0 <= i < j < |items| && Equal(fl, items[i], items[j])
  }

  /** Two of the items are equal, with numbers of the same kinds. */
  ghost predicate RepeatsAlike(fl: Floats, items: seq<Doc>)
  {
    exists i, j :: 0 <= i < j < |items| && Equal(fl, items[i], items[j]) && Alike(fl, items[i], items[j])
  }

  /**
   * For an array in any text: the check rejects it exactly when two items are equal with numbers of the same kinds. As
   * a corollary it is right about equal items if and only if, where some are equal, some are so in the same kinds.
   */
  lemma LoadedUniqueItems(fl: Floats, s: string, items: seq<Doc>)
    requires Sound(fl) && LoadValue(fl, s) == Some(Arr(items))
    ensures UniqueItems(items) <==> !RepeatsAlike(fl, items)
    ensures (UniqueItems(items) <==> !Repeats(fl, items)) <==> (Repeats(fl, items) ==> RepeatsAlike(fl, items))
  {
    LoadedSettled(fl, s);
    forall i, j | 0 <= i < j < |items|
      ensures Same(items[i], items[j]) <==> Equal(fl, items[i], items[j]) && Alike(fl, items[i], items[j])
    {
      assert items[i] in items && items[j] in items;
      SameExactly(fl, items[i], items[j]);
    }
    UniqueItemsExact(items);
  }

  // Arrays of two numbers.

  lemma PairOf<T>(s: seq<T>, a: T, b: T)
    requires |s| == 2 && s[0] == a && s[1] == b
    ensures s == [a, b]
  {
  }

  /** The value of the array of two numbers as it is printed. */
  lemma PairLoads(fl: Floats, a: Doc, b: Doc)
    requires IsNumber(a) && IsNumber(b) && FloatsValid(a) && FloatsValid(b)
    ensures LoadValue(fl, Print(Arr([a, b]))) == Some(Arr([Settle(fl, a), Settle(fl, b)]))
  {
    var d := Arr([a, b]);
    assert a in d.items && b in d.items;
    LoadPrinted(d);
    PairJoined(a, b);
    assert Load(Print(d)) == Some(d);
    assert NoRepeats(a) && NoRepeats(b);
    assert NoRepeats(d);
    PairOf(Settle(fl, d).items, Settle(fl, a), Settle(fl, b));
  }

  lemma PairJoined(a: Doc, b: Doc)
    requires IsNumber(a) && IsNumber(b)
    ensures JoinedItems([a, b]) == [a, b]
  {
    assert [a, b][1..] == [b] && [b][1..] == [];
    assert JoinedItems([b]) == [b] + JoinedItems([b][1..]);
    assert JoinedItems([a, b]) == [a] + JoinedItems([b]);
    PairOf(JoinedItems([a, b]), a, b);
  }

  /** Which arrays of two numbers the check accepts. */
  lemma PairUnique(fl: Floats, a: Doc, b: Doc)
    requires Sound(fl) && IsNumber(a) && IsNumber(b) && FloatsValid(a) && FloatsValid(b)
    ensures var items := [Settle(fl, a), Settle(fl, b)];
            && LoadValue(fl, Print(Arr([a, b]))) == Some(Arr(items))
            && (Repeats(fl, items) <==> Equal(fl, a, b))
            && (UniqueItems(items) <==> !(Equal(fl, a, b) && Alike(fl, a, b)))
  {
    var x, y := Settle(fl, a), Settle(fl, b);
    PairLoads(fl, a, b);
    LoadedUniqueItems(fl, Print(Arr([a, b])), [x, y]);
    SettleKeeps(fl, a);
    SettleKeeps(fl, b);
    assert [x, y][0] == x && [x, y][1] == y;
  }

  lemma SettleKeeps(fl: Floats, d: Doc)
    requires Sound(fl) && IsNumber(d) && FloatsValid(d)
    ensures IsNumber(Settle(fl, d))
    ensures Amounts(fl, Settle(fl, d)) == Amounts(fl, d) && KindOf(fl, Settle(fl, d)) == KindOf(fl, d)
  {
    if d.Float? {
      assert ReprReads(fl, d.lexeme);
    }
  }

  /** A whole number and a spelling of the equal float pass for different items. */
  lemma FloatBesideWhole(fl: Floats, n: nat, s: string)
    requires Sound(fl) && IsFloatLexeme(s) && SpellsWhole(s, n) && !IsNegative(s)
    ensures var items := [Int(n), Settle(fl, Float(s))];
            && LoadValue(fl, Print(Arr([Int(n), Float(s)]))) == Some(Arr(items))
            && Repeats(fl, items)
            && UniqueItems(items)
  {
    PairUnique(fl, Int(n), Float(s));
  }

  /** So do two spellings of zero, when one has a sign. */
  lemma SignedZeros(fl: Floats, s: string, t: string)
    requires Sound(fl) && IsFloatLexeme(s) && SpellsWhole(s, 0) && !IsNegative(s)
    requires IsFloatLexeme(t) && SpellsWhole(t, 0) && IsNegative(t)
    ensures var items := [Settle(fl, Float(s)), Settle(fl, Float(t))];
            && LoadValue(fl, Print(Arr([Float(s), Float(t)]))) == Some(Arr(items))
            && Repeats(fl, items)
            && UniqueItems(items)
  {
    ZeroRead(fl, s);
    ZeroRead(fl, t);
    ZerosDiffer(fl, s, t);
    PairUnique(fl, Float(s), Float(t));
  }

  lemma ZeroRead(fl: Floats, s: string)
    requires Sound(fl) && SpellsWhole(s, 0)
    ensures fl.parse(s) == Finite(IsNegative(s), 0.0)
  {
  }

  lemma ZerosDiffer(fl: Floats, s: string, t: string)
    requires fl.parse(s) == Finite(false, 0.0) && fl.parse(t) == Finite(true, 0.0)
    ensures Equal(fl, Float(s), Float(t)) && !Alike(fl, Float(s), Float(t))
  {
  }

  /** Two spellings of one float are found to be the same. */
  lemma SpelledTwice(fl: Floats, s: string, t: string)
    requires Sound(fl) && IsFloatLexeme(s) && IsFloatLexeme(t) && fl.parse(s) == fl.parse(t)
    ensures var item := Settle(fl, Float(s));
            && LoadValue(fl, Print(Arr([Float(s), Float(t)]))) == Some(Arr([item, item]))
            && !UniqueItems([item, item])
  {
    PairUnique(fl, Float(s), Float(t));
  }

  /** The array [1, 1.0] passes. */
  lemma WholeAndFloatAccepted(fl: Floats)
    requires Sound(fl)
    ensures var items := [Int(1), Settle(fl, Float("1.0"))];
            && LoadValue(fl, Print(Arr([Int(1), Float("1.0")]))) == Some(Arr(items))
            && Repeats(fl, items)
            && UniqueItems(items)
  {
    OneSpelled();
    FloatBesideWhole(fl, 1, "1.0");
  }

  /** So does [1, true]. */
  lemma WholeAndTruthAccepted(fl: Floats)
    requires Sound(fl)
    ensures var items := [Int(1), Bool(true)];
            && LoadValue(fl, Print(Arr(items))) == Some(Arr(items))
            && Repeats(fl, items)
            && UniqueItems(items)
  {
    PairUnique(fl, Int(1), Bool(true));
  }

  /** So does [0.0, -0.0]. */
  lemma ZerosAccepted(fl: Floats)
    requires Sound(fl)
    ensures var items := [Settle(fl, Float("0.0")), Settle(fl, Float("-0.0"))];
            && LoadValue(fl, Print(Arr([Float("0.0"), Float("-0.0")]))) == Some(Arr(items))
            && Repeats(fl, items)
            && UniqueItems(items)
  {
    ZeroSpelled();
    SignedZeros(fl, "0.0", "-0.0");
  }

  /** The array [1.0, 1.00] is rejected. */
  lemma SpellingsRejected(fl: Floats)
    requires Sound(fl)
    ensures var item := Settle(fl, Float("1.0"));
            && LoadValue(fl, Print(Arr([Float("1.0"), Float("1.00")]))) == Some(Arr([item, item]))
            && !UniqueItems([item, item])
  {
    OneSpelled();
    OneSpelledLonger();
    SpelledTwice(fl, "1.0", "1.00");
  }
}
