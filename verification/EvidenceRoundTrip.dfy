/** Reading back what was written: the reader accepts a written bundle exactly when its contents are in order. */
module EvidenceRoundTrip {
  import opened Wrappers
  import opened Json
  import opened JsonRoundTrip
  import opened TextOrder
  import opened CanonicalJson
  import opened JsonLines
  import opened TextLines
  import opened Base64
  import opened EvidenceFormat

  /** Nothing for the decoder to join. */
  predicate Joined(t: Text)
  {
    JoinedText(t) == t
  }

  lemma {:induction false} PlainJoined(t: Text)
    requires forall i | 0 <= i < |t| :: !IsHigh(t[i])
    ensures Joined(t)
  {
    if t != [] {
      PlainJoined(t[1..]);
    }
  }

  /** No character is a surrogate. */
  lemma CodesJoined(s: string)
    ensures Joined(Codes(s))
  {
    PlainJoined(Codes(s));
  }

  lemma CodesBack(s: string)
    requires forall c | c in s :: c as int < 128
    ensures IsAscii(Codes(s)) && AsciiOf(Codes(s)) == s
  {
    forall i | 0 <= i < |s| ensures Codes(s)[i] < 128 {
      assert s[i] in s;
    }
  }

  lemma DigestJoined(t: Text)
    requires IsHex64(t)
    ensures Joined(t)
  {
    forall i | 0 <= i < |t| ensures !IsHigh(t[i]) {
      assert t[i] in t;
    }
    PlainJoined(t);
  }

  lemma DataReads(data: seq<Byte>)
    ensures DecodeText(Codes(Encode(data))) == Some(data) && Joined(Codes(Encode(data)))
  {
    EncodeAscii(data);
    CodesBack(Encode(data));
    CodesJoined(Encode(data));
    DecodeEncode(data);
  }

  lemma {:induction false} LookupIn(members: seq<Member>, m: Member)
    requires DistinctKeys(members) && m in members
    ensures MemberValue(members, m.key) == Some(m.value)
  {
    var init, last := members[..|members| - 1], members[|members| - 1];
    var k :| 0 <= k < |members| && members[k] == m;
    if k < |members| - 1 {
      assert MemberKey(members[k]) != MemberKey(last);
      assert init[k] == m;
      LookupIn(init, m);
    }
  }

  lemma SortedLookup(members: seq<Member>, m: Member)
    requires DistinctKeys(members) && m in members
    ensures MemberValue(SortBy(MemberKey, members), m.key) == Some(m.value)
  {
    SortSorts(MemberKey, members);
    SortedDistinct(MemberKey, SortBy(MemberKey, members));
    SortHas(MemberKey, members, m);
    LookupIn(SortBy(MemberKey, members), m);
  }

  lemma SortedKeys(members: seq<Member>)
    ensures Keys(SortBy(MemberKey, members)) == Keys(members)
  {
    forall m: Member ensures m in SortBy(MemberKey, members) <==> m in members {
      SortHas(MemberKey, members, m);
    }
  }

  // A record.

  lemma RecordKeys(e: Evidence, sha: seq<Byte> -> Text)
    ensures DistinctKeys(RecordMembers(e, sha))
    ensures Keys(RecordMembers(e, sha))
         == {Codes("path"), Codes("mode"), Codes("bytes"), Codes("sha256"), Codes("base64")}
  {
    var ms := RecordMembers(e, sha);
    assert Codes("path")[0] == 'p' as int && Codes("mode")[0] == 'm' as int;
    assert Codes("sha256")[0] == 's' as int && Codes("base64")[0] == 'b' as int;
    assert Keys(ms) == {ms[0].key, ms[1].key, ms[2].key, ms[3].key, ms[4].key};
  }

  ghost predicate Recordable(e: Evidence)
  {
    Joined(e.path) && e.mode <= 0x1FF
  }

  /** A member that is its own canonical form and prints. */
  ghost predicate Settled(m: Member)
  {
    Joined(m.key) && Loaded(m.value) && Canon(m.value) == m.value
  }

  lemma SettledObject(ms: seq<Member>)
    requires DistinctKeys(ms) && forall m: Member | m in ms :: Settled(m)
    ensures Loaded(Obj(ms)) && CanonMembers(ms) == ms
  {
    forall i | 0 <= i < |ms| ensures CanonMembers(ms)[i] == ms[i] {
      assert ms[i] in ms;
      assert Settled(ms[i]);
    }
  }

  /** An object of settled members is read back with its members sorted. */
  lemma ObjectLineReads(ms: seq<Member>)
    requires Loaded(Obj(ms)) && CanonMembers(ms) == ms
    ensures AsObject(Load(Line(Obj(ms)))) == Some(SortBy(MemberKey, ms))
    ensures IsLine(Line(Obj(ms)))
  {
    LineReads(Obj(ms));
    LineIsLine(Obj(ms));
  }

  lemma SettledText(key: string, t: Text)
    requires Joined(t)
    ensures Settled(Member(Codes(key), Str(t)))
  {
    CodesJoined(key);
  }

  lemma SettledInt(key: string, i: int)
    ensures Settled(Member(Codes(key), Int(i)))
  {
    CodesJoined(key);
  }

  lemma FiveSettled(a: Member, b: Member, c: Member, d: Member, e: Member)
    requires Settled(a) && Settled(b) && Settled(c) && Settled(d) && Settled(e) && DistinctKeys([a, b, c, d, e])
    ensures Loaded(Obj([a, b, c, d, e])) && CanonMembers([a, b, c, d, e]) == [a, b, c, d, e]
  {
    SettledObject([a, b, c, d, e]);
  }

  lemma FourSettled(a: Member, b: Member, c: Member, d: Member)
    requires Settled(a) && Settled(b) && Settled(c) && Settled(d) && DistinctKeys([a, b, c, d])
    ensures Loaded(Obj([a, b, c, d])) && CanonMembers([a, b, c, d]) == [a, b, c, d]
  {
    SettledObject([a, b, c, d]);
  }

  lemma RecordLoaded(e: Evidence, sha: seq<Byte> -> Text)
    requires IsDigest(sha) && Recordable(e)
    ensures Loaded(Obj(RecordMembers(e, sha)))
    ensures CanonMembers(RecordMembers(e, sha)) == RecordMembers(e, sha)
  {
    var ms := RecordMembers(e, sha);
    RecordKeys(e, sha);
    DataReads(e.data);
    assert IsHex64(sha(e.data));
    DigestJoined(sha(e.data));
    SettledText("path", e.path);
    SettledInt("mode", e.mode);
    SettledInt("bytes", |e.data|);
    SettledText("sha256", sha(e.data));
    SettledText("base64", Codes(Encode(e.data)));
    FiveSettled(ms[0], ms[1], ms[2], ms[3], ms[4]);
  }

  lemma RecordFields(e: Evidence, sha: seq<Byte> -> Text, ms: seq<Member>)
    requires ms == SortBy(MemberKey, RecordMembers(e, sha))
    ensures AsText(MemberValue(ms, Codes("path"))) == Some(e.path)
    ensures AsInt(MemberValue(ms, Codes("mode"))) == Some(e.mode)
    ensures AsInt(MemberValue(ms, Codes("bytes"))) == Some(|e.data|)
    ensures AsText(MemberValue(ms, Codes("sha256"))) == Some(sha(e.data))
    ensures AsText(MemberValue(ms, Codes("base64"))) == Some(Codes(Encode(e.data)))
  {
    var raw := RecordMembers(e, sha);
    RecordKeys(e, sha);
    SortedLookup(raw, raw[0]);
    SortedLookup(raw, raw[1]);
    SortedLookup(raw, raw[2]);
    SortedLookup(raw, raw[3]);
    SortedLookup(raw, raw[4]);
  }

  /** A written record reads back as itself when its path is safe, and not at all otherwise. */
  lemma RecordReads(e: Evidence, sha: seq<Byte> -> Text)
    requires IsDigest(sha) && Recordable(e)
    ensures ReadRecord(Line(Obj(RecordMembers(e, sha))), sha) == if Safe(e.path) then Some(e) else None
  {
    var raw := RecordMembers(e, sha);
    var ms := SortBy(MemberKey, raw);
    RecordLoaded(e, sha);
    ObjectLineReads(raw);
    RecordKeys(e, sha);
    SortedKeys(raw);
    RecordFields(e, sha, ms);
    FieldsMakeRecord(e, sha, ms);
  }

  lemma FieldsMakeRecord(e: Evidence, sha: seq<Byte> -> Text, ms: seq<Member>)
    requires IsDigest(sha) && Recordable(e)
    requires Keys(ms) == {Codes("path"), Codes("mode"), Codes("bytes"), Codes("sha256"), Codes("base64")}
    requires AsText(MemberValue(ms, Codes("path"))) == Some(e.path)
    requires AsInt(MemberValue(ms, Codes("mode"))) == Some(e.mode)
    requires AsInt(MemberValue(ms, Codes("bytes"))) == Some(|e.data|)
    requires AsText(MemberValue(ms, Codes("sha256"))) == Some(sha(e.data))
    requires AsText(MemberValue(ms, Codes("base64"))) == Some(Codes(Encode(e.data)))
    ensures RecordOf(ms, sha) == if Safe(e.path) then Some(e) else None
  {
    DataReads(e.data);
    assert IsHex64(sha(e.data));
  }

  // The header.

  lemma HeaderKeys(files: nat, missing: seq<Text>)
    ensures DistinctKeys(HeaderMembers(files, missing))
    ensures Keys(HeaderMembers(files, missing))
         == {Codes("format"), Codes("schemaVersion"), Codes("files"), Codes("missing")}
  {
    var ms := HeaderMembers(files, missing);
    assert Keys(ms) == {ms[0].key, ms[1].key, ms[2].key, ms[3].key};
  }

  lemma NamesCanon(missing: seq<Text>)
    requires forall p | p in missing :: Joined(p)
    ensures Loaded(Arr(NameDocs(missing))) && Canon(Arr(NameDocs(missing))) == Arr(NameDocs(missing))
  {
    var docs := NameDocs(missing);
    forall d | d in docs ensures Loaded(d) {
      var i :| 0 <= i < |docs| && docs[i] == d;
      assert missing[i] in missing;
    }
    var canon := seq(|docs|, i requires 0 <= i < |docs| => Canon(docs[i]));
    assert Canon(Arr(docs)) == Arr(canon);
    assert canon == docs;
  }

  lemma {:induction false} NamesRead(missing: seq<Text>)
    requires forall p | p in missing :: Safe(p)
    ensures Names(NameDocs(missing)) == Some(missing)
  {
    if missing != [] {
      forall p | p in missing[1..] ensures Safe(p) {
        assert p in missing;
      }
      NamesRead(missing[1..]);
      assert NameDocs(missing)[1..] == NameDocs(missing[1..]);
      assert missing == [missing[0]] + missing[1..];
    }
  }

  lemma HeaderLoaded(files: nat, missing: seq<Text>)
    requires forall p | p in missing :: Joined(p)
    ensures Loaded(Obj(HeaderMembers(files, missing)))
    ensures CanonMembers(HeaderMembers(files, missing)) == HeaderMembers(files, missing)
  {
    var ms := HeaderMembers(files, missing);
    HeaderKeys(files, missing);
    NamesCanon(missing);
    CodesJoined("typerb-evidence-jsonl");
    SettledText("format", Codes("typerb-evidence-jsonl"));
    SettledInt("schemaVersion", 1);
    SettledInt("files", files);
    CodesJoined("missing");
    FourSettled(ms[0], ms[1], ms[2], ms[3]);
  }

  lemma HeaderReads(files: nat, missing: seq<Text>)
    requires files > 0 && Distinct(missing) && forall p | p in missing :: Safe(p) && Joined(p)
    ensures ReadHeader(Line(Obj(HeaderMembers(files, missing)))) == Some((files, missing))
  {
    var raw := HeaderMembers(files, missing);
    var ms := SortBy(MemberKey, raw);
    HeaderLoaded(files, missing);
    ObjectLineReads(raw);
    HeaderKeys(files, missing);
    SortedKeys(raw);
    HeaderFields(files, missing, ms);
    NamesRead(missing);
    FieldsMakeHeader(files, missing, ms);
  }

  lemma FieldsMakeHeader(files: nat, missing: seq<Text>, ms: seq<Member>)
    requires files > 0 && Distinct(missing) && Names(NameDocs(missing)) == Some(missing)
    requires Keys(ms) == {Codes("format"), Codes("schemaVersion"), Codes("files"), Codes("missing")}
    requires MemberValue(ms, Codes("format")) == Some(Str(Codes("typerb-evidence-jsonl")))
    requires MemberValue(ms, Codes("schemaVersion")) == Some(Int(1))
    requires MemberValue(ms, Codes("files")) == Some(Int(files))
    requires MemberValue(ms, Codes("missing")) == Some(Arr(NameDocs(missing)))
    ensures HeaderOf(ms) == Some((files, missing))
  {
  }

  lemma HeaderFields(files: nat, missing: seq<Text>, ms: seq<Member>)
    requires ms == SortBy(MemberKey, HeaderMembers(files, missing))
    ensures MemberValue(ms, Codes("format")) == Some(Str(Codes("typerb-evidence-jsonl")))
    ensures MemberValue(ms, Codes("schemaVersion")) == Some(Int(1))
    ensures MemberValue(ms, Codes("files")) == Some(Int(files))
    ensures MemberValue(ms, Codes("missing")) == Some(Arr(NameDocs(missing)))
  {
    var raw := HeaderMembers(files, missing);
    HeaderKeys(files, missing);
    SortedLookup(raw, raw[0]);
    SortedLookup(raw, raw[1]);
    SortedLookup(raw, raw[2]);
    SortedLookup(raw, raw[3]);
  }

  // The stream.

  predicate DistinctPaths(es: seq<Evidence>)
  {
    forall i, j :: 0 <= i < j < |es| ==> es[i].path != es[j].path
  }

  lemma HeaderIsLine(files: nat, missing: seq<Text>)
    requires forall p | p in missing :: Joined(p)
    ensures IsLine(Line(Obj(HeaderMembers(files, missing))))
  {
    HeaderLoaded(files, missing);
    ObjectLineReads(HeaderMembers(files, missing));
  }

  lemma RecordIsLine(e: Evidence, sha: seq<Byte> -> Text)
    requires IsDigest(sha) && Recordable(e)
    ensures IsLine(Line(Obj(RecordMembers(e, sha))))
  {
    RecordLoaded(e, sha);
    ObjectLineReads(RecordMembers(e, sha));
  }

  lemma RecordsAreLines(es: seq<Evidence>, sha: seq<Byte> -> Text)
    requires IsDigest(sha) && forall e | e in es :: Recordable(e)
    ensures forall s | s in RecordLines(es, sha) :: IsLine(s)
  {
    forall i | 0 <= i < |es| ensures IsLine(RecordLines(es, sha)[i]) {
      assert es[i] in es;
      RecordIsLine(es[i], sha);
    }
  }

  lemma BundleSplits(missing: seq<Text>, es: seq<Evidence>, sha: seq<Byte> -> Text)
    requires IsDigest(sha) && (forall p | p in missing :: Joined(p)) && forall e | e in es :: Recordable(e)
    ensures SplitLines(Bundle(missing, es, sha)) == BundleLines(missing, es, sha)
  {
    HeaderIsLine(|es|, missing);
    RecordsAreLines(es, sha);
    SplitConcat(BundleLines(missing, es, sha));
  }

  /** The record lines read back, from any point of the stream, exactly when every remaining record is admissible. */
  predicate SafeFrom(es: seq<Evidence>, n: nat)
  {
    forall i | n <= i < |es| :: Safe(es[i].path)
  }

  lemma SafeStep(es: seq<Evidence>, n: nat)
    requires n < |es|
    ensures SafeFrom(es, n) <==> Safe(es[n].path) && SafeFrom(es, n + 1)
  {
  }

  lemma NextPath(es: seq<Evidence>, n: nat)
    requires n < |es| && DistinctPaths(es)
    ensures es[..n] + [es[n]] == es[..n + 1] && es[n].path !in Paths(es[..n])
  {
  }

  lemma {:induction false} RecordsRead(missing: seq<Text>, es: seq<Evidence>, n: nat, sha: seq<Byte> -> Text)
    requires IsDigest(sha) && n <= |es| && (forall e | e in es :: Recordable(e)) && DistinctPaths(es)
    requires forall e | e in es :: !AtOrUnder(missing, e.path)
    ensures ReadRecords(RecordLines(es, sha)[n..], missing, es[..n], sha) == if SafeFrom(es, n) then Some(es) else None
    decreases |es| - n
  {
    if n == |es| {
      assert RecordLines(es, sha)[n..] == [] && es[..n] == es;
    } else {
      assert es[n] in es;
      RecordReads(es[n], sha);
      NextPath(es, n);
      RecordsRead(missing, es, n + 1, sha);
      RecordLineAt(es, n, sha);
      SafeStep(es, n);
      ReadOne(Line(Obj(RecordMembers(es[n], sha))), RecordLines(es, sha)[n + 1..], missing, es[..n], sha);
    }
  }

  lemma ReadOne(raw: string, rest: seq<string>, missing: seq<Text>, done: seq<Evidence>, sha: seq<Byte> -> Text)
    ensures ReadRecords([raw] + rest, missing, done, sha)
         == var e := ReadRecord(raw, sha);
            if e.None? || !Admissible(missing, Paths(done), e.value) then None
            else ReadRecords(rest, missing, done + [e.value], sha)
  {
    assert ([raw] + rest)[1..] == rest;
  }

  lemma RecordLineAt(es: seq<Evidence>, n: nat, sha: seq<Byte> -> Text)
    requires n < |es|
    ensures RecordLines(es, sha)[n..] == [Line(Obj(RecordMembers(es[n], sha)))] + RecordLines(es, sha)[n + 1..]
  {
  }

  /** The stream a writer may produce: what pack guarantees about its own selection. */
  ghost predicate Writable(missing: seq<Text>, es: seq<Evidence>)
  {
    && es != [] && DistinctPaths(es) && NoParentConflict(Paths(es))
    && Distinct(missing)
    && (forall p | p in missing :: Safe(p) && Joined(p))
    && (forall e | e in es :: Recordable(e) && !AtOrUnder(missing, e.path))
  }

  /** The bundle round trip: reading gives back exactly what was written, or rejects it for an unsafe path. */
  lemma BundleReads(missing: seq<Text>, es: seq<Evidence>, sha: seq<Byte> -> Text)
    requires IsDigest(sha) && Writable(missing, es)
    ensures Records(Bundle(missing, es, sha), sha)
         == if forall e | e in es :: Safe(e.path) then Some((missing, es)) else None
  {
    BundleSplits(missing, es, sha);
    HeaderReads(|es|, missing);
    RecordsRead(missing, es, 0, sha);
    var lines := BundleLines(missing, es, sha);
    assert lines[1..] == RecordLines(es, sha) == RecordLines(es, sha)[0..];
    assert es[..0] == [];
  }

  /** What acceptance means, whatever the stream: the facts the extraction relies on. */
  lemma AcceptedInOrder(text: string, sha: seq<Byte> -> Text)
    requires Records(text, sha).Some?
    ensures var (missing, es) := Records(text, sha).value;
            && es != [] && DistinctPaths(es) && NoParentConflict(Paths(es)) && Distinct(missing)
            && (forall e | e in es :: Safe(e.path) && e.mode <= 0x1FF && !AtOrUnder(missing, e.path))
  {
    var lines := SplitLines(text);
    var (files, missing) := ReadHeader(lines[0]).value;
    AcceptedRecords(lines[1..], missing, [], sha);
  }

  ghost predicate RecordsInOrder(missing: seq<Text>, es: seq<Evidence>)
  {
    && DistinctPaths(es)
    && forall e | e in es :: Safe(e.path) && e.mode <= 0x1FF && !AtOrUnder(missing, e.path)
  }

  lemma {:induction false} AcceptedRecords(lines: seq<string>, missing: seq<Text>, done: seq<Evidence>,
                                           sha: seq<Byte> -> Text)
    requires RecordsInOrder(missing, done) && ReadRecords(lines, missing, done, sha).Some?
    ensures RecordsInOrder(missing, ReadRecords(lines, missing, done, sha).value)
    decreases |lines|
  {
    if lines != [] {
      var e := ReadRecord(lines[0], sha).value;
      assert forall d | d in done :: d.path in Paths(done);
      AcceptedRecords(lines[1..], missing, done + [e], sha);
    }
  }
}
