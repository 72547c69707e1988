/**
 * The preflight of an exported compiler snapshot. It decodes the document while dropping every object that has no
 * "format" member, and counts three catalogs in what is left.
 */
module SnapshotCounts {
  import opened Wrappers
  import opened Json
  import opened Numbers

  /** A decoded value: an object is a dictionary, in which the last of several equal keys wins. */
  datatype Decoded =
    | Absent
    | Scalar(d: Doc)
    | List(items: seq<Decoded>)
    | Dict(entries: map<Text, Decoded>)

  datatype Field = Sources | Types | Functions

  datatype CountError =
    | NotVersionFour
    | NotAnArray(field: Field)
    | NoLimit(field: Field)
    | TooMany(field: Field, count: nat, limit: nat)

  function Name(f: Field): Text
  {
    match f
    case Sources => Codes("sources")
    case Types => Codes("types")
    case Functions => Codes("functions")
  }

  function FormatKey(): Text
  {
    Codes("format")
  }

  // The two decoders differ only in the object hook.

  datatype Hook = Keep | Catalog

  predicate KeepsObject(hook: Hook, members: seq<Member>)
  {
    hook == Keep || exists i | 0 <= i < |members| :: members[i].key == FormatKey()
  }

  function Decode(hook: Hook, d: Doc): Decoded
    decreases d, 0
  {
    match d
    case Null => Absent
    case Arr(items) => List(seq(|items|, i requires 0 <= i < |items| => Decode(hook, items[i])))
    case Obj(members) => if KeepsObject(hook, members) then Dict(Entries(hook, members)) else Absent
    case _ => Scalar(d)
  }

  function Entries(hook: Hook, members: seq<Member>): map<Text, Decoded>
    decreases members, 1
  {
    if members == [] then map[]
    else
      var last := members[|members| - 1];
      Entries(hook, members[..|members| - 1])[last.key := Decode(hook, last.value)]
  }

  /** dict.get: None for a missing key, and for a null. */
  function Get(entries: map<Text, Decoded>, key: Text): Decoded
  {
    if key in entries then entries[key] else Absent
  }

  predicate IsFormat(v: Decoded)
  {
    v == Scalar(Str(Codes("type-rb-bootstrap-snapshot")))
  }

  /** Equality with the number 4, whole or a float. */
  predicate IsFour(v: Decoded)
  {
    v == Scalar(Int(4)) || (v.Scalar? && v.d.Float? && Denotes(v.d.lexeme, 4))
  }

  predicate IsSnapshot(v: Decoded)
  {
    && v.Dict?
    && IsFormat(Get(v.entries, FormatKey()))
    && IsFour(Get(v.entries, Codes("version")))
  }

  /** What one catalog contributes: its count and its limit. */
  function CountField(entries: map<Text, Decoded>, f: Field, limits: Field -> Option<nat>)
    : Result<(nat, nat), CountError>
  {
    var values := Get(entries, Name(f));
    if !values.List? then Err(NotAnArray(f))
    else if limits(f).None? then Err(NoLimit(f))
    else if |values.items| > limits(f).value then Err(TooMany(f, |values.items|, limits(f).value))
    else Ok((|values.items|, limits(f).value))
  }

  const FIELDS: seq<Field> := [Sources, Types, Functions]

  /** The counts of the first k fields; the first failing field decides. */
  function CountFirst(entries: map<Text, Decoded>, k: nat, limits: Field -> Option<nat>)
    : Result<map<Field, (nat, nat)>, CountError>
    requires k <= 3
  {
    if k == 0 then Ok(map[])
    else
      match CountFirst(entries, k - 1, limits)
      case Err(e) => Err(e)
      case Ok(result) =>
        match CountField(entries, FIELDS[k - 1], limits)
        case Err(e) => Err(e)
        case Ok(count) => Ok(result[FIELDS[k - 1] := count])
  }

  function Counts(v: Decoded, limits: Field -> Option<nat>)
    : Result<map<Field, (nat, nat)>, CountError>
  {
    if IsSnapshot(v) then CountFirst(v.entries, 3, limits) else Err(NotVersionFour)
  }

  method CheckCounts(v: Decoded, limits: Field -> Option<nat>)
    returns (r: Result<map<Field, (nat, nat)>, CountError>)
    ensures r == Counts(v, limits)
  {
    if !IsSnapshot(v) {
      return Err(NotVersionFour);
    }
    var result: map<Field, (nat, nat)> := map[];
    for k := 0 to 3
      invariant CountFirst(v.entries, k, limits) == Ok(result)
    {
      var count := CountField(v.entries, FIELDS[k], limits);
      if count.Err? {
        CountFailed(v.entries, k, 3, limits);
        return Err(count.error);
      }
      result := result[FIELDS[k] := count.value];
    }
    return Ok(result);
  }

  lemma {:induction false} CountFailed(entries: map<Text, Decoded>, k: nat, n: nat, limits: Field -> Option<nat>)
    requires k < n <= 3 && CountFirst(entries, k, limits).Ok? && CountField(entries, FIELDS[k], limits).Err?
    ensures CountFirst(entries, n, limits) == Err(CountField(entries, FIELDS[k], limits).error)
  {
    if k + 1 < n {
      CountFailed(entries, k, n - 1, limits);
    }
  }

  /** One field of a result: a list, within its bound, whose length is what the result records. */
  predicate FieldCounted(entries: map<Text, Decoded>, f: Field, limits: Field -> Option<nat>, counted: (nat, nat))
  {
    && Get(entries, Name(f)).List?
    && counted.0 == |Get(entries, Name(f)).items| <= counted.1
    && limits(f) == Some(counted.1)
  }

  lemma {:induction false} CountFirstSound(entries: map<Text, Decoded>, k: nat, limits: Field -> Option<nat>)
    requires k <= 3 && CountFirst(entries, k, limits).Ok?
    ensures var result := CountFirst(entries, k, limits).value;
            && result.Keys == (set f | f in FIELDS[..k])
            && forall f | f in result :: FieldCounted(entries, f, limits, result[f])
  {
    if k > 0 {
      CountFirstSound(entries, k - 1, limits);
      assert FIELDS[..k] == FIELDS[..k - 1] + [FIELDS[k - 1]];
    }
  }

  /** Success means a snapshot of version 4 with all three catalogs counted within their limits. */
  lemma CountsSound(v: Decoded, limits: Field -> Option<nat>)
    requires Counts(v, limits).Ok?
    ensures IsSnapshot(v)
    ensures var result := Counts(v, limits).value;
            && result.Keys == {Sources, Types, Functions}
            && forall f | f in result :: FieldCounted(v.entries, f, limits, result[f])
  {
    CountFirstSound(v.entries, 3, limits);
    assert FIELDS[..3] == FIELDS;
    assert (set f | f in FIELDS) == {Sources, Types, Functions};
  }

  /** A list within a limit that there is. */
  predicate Fits(values: Decoded, limit: Option<nat>)
  {
    values.List? && limit.Some? && |values.items| <= limit.value
  }

  /** What a value under a field is refused for. */
  function Refusal(f: Field, values: Decoded, limit: Option<nat>): CountError
    requires !Fits(values, limit)
  {
    if !values.List? then NotAnArray(f)
    else if limit.None? then NoLimit(f)
    else TooMany(f, |values.items|, limit.value)
  }

  /**
   * A document counts when it is a snapshot in format and version, and its sources, types and functions are lists
   * within their limits; otherwise the first of these that fails refuses it.
   */
  lemma CountsExact(v: Decoded, limits: Field -> Option<nat>)
    ensures IsSnapshot(v) <==>
              && v.Dict? && Codes("format") in v.entries
              && v.entries[Codes("format")] == Scalar(Str(Codes("type-rb-bootstrap-snapshot")))
              && Codes("version") in v.entries && IsFour(v.entries[Codes("version")])
    ensures !IsSnapshot(v) ==> Counts(v, limits) == Err(NotVersionFour)
    ensures IsSnapshot(v) ==>
              var sources, types := Get(v.entries, Codes("sources")), Get(v.entries, Codes("types"));
              var functions := Get(v.entries, Codes("functions"));
              Counts(v, limits) ==
                if !Fits(sources, limits(Sources)) then Err(Refusal(Sources, sources, limits(Sources)))
                else if !Fits(types, limits(Types)) then Err(Refusal(Types, types, limits(Types)))
                else if !Fits(functions, limits(Functions)) then Err(Refusal(Functions, functions, limits(Functions)))
                else Ok(map[Sources := (|sources.items|, limits(Sources).value),
                            Types := (|types.items|, limits(Types).value),
                            Functions := (|functions.items|, limits(Functions).value)])
  {
    if IsSnapshot(v) {
      ThreeFields(v.entries, limits);
    }
  }

  lemma OneField(entries: map<Text, Decoded>, f: Field, limits: Field -> Option<nat>)
    ensures var values := Get(entries, Name(f));
            CountField(entries, f, limits) == if Fits(values, limits(f)) then Ok((|values.items|, limits(f).value))
                                              else Err(Refusal(f, values, limits(f)))
  {
  }

  /** The loop, unrolled. */
  lemma ThreeFields(entries: map<Text, Decoded>, limits: Field -> Option<nat>)
    ensures var a, b, c := CountField(entries, Sources, limits), CountField(entries, Types, limits),
                           CountField(entries, Functions, limits);
            CountFirst(entries, 3, limits) ==
              if a.Err? then Err(a.error) else if b.Err? then Err(b.error) else if c.Err? then Err(c.error)
              else Ok(map[Sources := a.value, Types := b.value, Functions := c.value])
    ensures Name(Sources) == Codes("sources") && Name(Types) == Codes("types") && Name(Functions) == Codes("functions")
  {
    OneField(entries, Sources, limits);
    OneField(entries, Types, limits);
    OneField(entries, Functions, limits);
    assert CountFirst(entries, 0, limits) == Ok(map[]);
    assert FIELDS[0] == Sources && FIELDS[1] == Types && FIELDS[2] == Functions;
    var one, two := CountFirst(entries, 1, limits), CountFirst(entries, 2, limits);
    assert one == match CountField(entries, Sources, limits)
                  case Err(e) => Err(e)
                  case Ok(x) => Ok(map[][Sources := x]);
  }

  /** Of several members with a key the last one is decoded for it. */
  lemma {:induction false} EntriesLast(hook: Hook, members: seq<Member>, key: Text, i: nat)
    requires i < |members| && members[i].key == key && forall j | i < j < |members| :: members[j].key != key
    ensures key in Entries(hook, members) && Entries(hook, members)[key] == Decode(hook, members[i].value)
  {
    if i < |members| - 1 {
      EntriesLast(hook, members[..|members| - 1], key, i);
    }
  }

  // What the catalog decoder may change without the check noticing.

  /** The same as far as a count or a comparison with a scalar can tell. */
  predicate Alike(a: Decoded, b: Decoded)
  {
    if a.List? || b.List? then a.List? && b.List? && |a.items| == |b.items|
    else if a.Scalar? || b.Scalar? then a == b
    else true
  }

  lemma DecodedAlike(d: Doc)
    ensures Alike(Decode(Catalog, d), Decode(Keep, d))
  {
  }

  lemma {:induction false} EntriesAlike(members: seq<Member>, key: Text)
    ensures key in Entries(Catalog, members) <==> key in Entries(Keep, members)
    ensures key in Entries(Keep, members) <==> exists i | 0 <= i < |members| :: members[i].key == key
    ensures Alike(Get(Entries(Catalog, members), key), Get(Entries(Keep, members), key))
  {
    if members != [] {
      var init, last := members[..|members| - 1], members[|members| - 1];
      EntriesAlike(init, key);
      DecodedAlike(last.value);
      if last.key != key && exists i | 0 <= i < |members| :: members[i].key == key {
        var i :| 0 <= i < |members| && members[i].key == key;
        assert init[i].key == key;
      }
    }
  }

  lemma {:induction false} CountsFromAlike(light: map<Text, Decoded>, full: map<Text, Decoded>, k: nat,
                                           limits: Field -> Option<nat>)
    requires k <= 3 && forall f: Field :: Alike(Get(light, Name(f)), Get(full, Name(f)))
    ensures CountFirst(light, k, limits) == CountFirst(full, k, limits)
  {
    if k > 0 {
      CountsFromAlike(light, full, k - 1, limits);
      assert Alike(Get(light, Name(FIELDS[k - 1])), Get(full, Name(FIELDS[k - 1])));
    }
  }

  /** Whatever the document, the discarding decoder leads to the same counts or the same rejection as the full one. */
  lemma CatalogAgrees(d: Doc, limits: Field -> Option<nat>)
    ensures Counts(Decode(Catalog, d), limits) == Counts(Decode(Keep, d), limits)
  {
    if d.Obj? {
      var members := d.members;
      var light, full := Entries(Catalog, members), Entries(Keep, members);
      EntriesAlike(members, FormatKey());
      if KeepsObject(Catalog, members) {
        EntriesAlike(members, Codes("version"));
        forall f: Field ensures Alike(Get(light, Name(f)), Get(full, Name(f))) {
          EntriesAlike(members, Name(f));
        }
        CountsFromAlike(light, full, 3, limits);
      }
    }
  }

  /** What is dropped: below the top level no object survives unless it names a format itself. */
  ghost predicate OnlyFormats(v: Decoded)
  {
    match v
    case List(items) => forall e | e in items :: OnlyFormats(e)
    case Dict(entries) => Codes("format") in entries && forall k | k in entries :: OnlyFormats(entries[k])
    case _ => true
  }

  lemma {:induction false} CatalogKeepsOnlyFormats(d: Doc)
    ensures OnlyFormats(Decode(Catalog, d))
    decreases d, 0
  {
    match d
    case Arr(items) =>
      forall i | 0 <= i < |items| ensures OnlyFormats(Decode(Catalog, items[i])) {
        CatalogKeepsOnlyFormats(items[i]);
      }
    case Obj(members) =>
      EntriesAlike(members, FormatKey());
      EntriesKeepOnlyFormats(members);
    case _ =>
  }

  lemma {:induction false} EntriesKeepOnlyFormats(members: seq<Member>)
    ensures forall k | k in Entries(Catalog, members) :: OnlyFormats(Entries(Catalog, members)[k])
    decreases members, 1
  {
    if members != [] {
      var last := members[|members| - 1];
      EntriesKeepOnlyFormats(members[..|members| - 1]);
      CatalogKeepsOnlyFormats(last.value);
    }
  }
}
