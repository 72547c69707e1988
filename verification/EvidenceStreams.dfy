/** What the reader of bundles accepts, stated over the lines of a stream and the members of their objects. */
module EvidenceStreams {
  import opened Wrappers
  import opened Json
  import opened TextLines
  import opened Base64
  import opened EvidenceFormat
  import opened EvidenceRoundTrip
  import EvidenceBundle

  // Members.

  /** The last member with a key decides. */
  ghost predicate HasValue(members: seq<Member>, key: Text, d: Doc)
  {
    exists i | 0 <= i < |members| ::
      members[i] == Member(key, d) && forall j | i < j < |members| :: members[j].key != key
  }

  lemma {:induction false} MemberValueIs(members: seq<Member>, key: Text, d: Doc)
    ensures MemberValue(members, key) == Some(d) <==> HasValue(members, key, d)
  {
    if members != [] {
      var init, last := members[..|members| - 1], members[|members| - 1];
      MemberValueIs(init, key, d);
      if last.key == key {
        if HasValue(members, key, d) {
          var i :| 0 <= i < |members| && members[i] == Member(key, d)
                   && forall j | i < j < |members| :: members[j].key != key;
          assert i == |members| - 1;
        }
        if last.value == d {
          assert members[|members| - 1] == Member(key, d);
        }
      } else {
        SameBefore(init, last, key, d);
        assert members == init + [last];
      }
    }
  }

  lemma SameBefore(init: seq<Member>, last: Member, key: Text, d: Doc)
    requires last.key != key
    ensures HasValue(init + [last], key, d) <==> HasValue(init, key, d)
  {
    var members := init + [last];
    if HasValue(init, key, d) {
      var i :| 0 <= i < |init| && init[i] == Member(key, d) && forall j | i < j < |init| :: init[j].key != key;
      assert members[i] == Member(key, d);
    }
    if HasValue(members, key, d) {
      var i :| 0 <= i < |members| && members[i] == Member(key, d)
               && forall j | i < j < |members| :: members[j].key != key;
      assert init[i] == Member(key, d);
      forall j | i < j < |init| ensures init[j].key != key {
        assert members[j].key != key;
      }
    }
  }

  // Paths.

  /** A stretch of a path without slashes, from its start or a slash to a slash or its end. */
  predicate IsPart(t: Text, i: nat, j: nat)
  {
    && i <= j <= |t| && (i == 0 || t[i - 1] == SLASH) && (j == |t| || t[j] == SLASH)
    && forall k | i <= k < j :: t[k] != SLASH
  }

  lemma {:induction false} FirstPartIs(t: Text)
    ensures IsPart(t, 0, FirstPart(t))
  {
    if t != [] && t[0] != SLASH {
      FirstPartIs(t[1..]);
      var n := FirstPart(t);
      forall k | 0 <= k < n ensures t[k] != SLASH {
        assert k > 0 ==> t[k] == t[1..][k - 1];
      }
      assert n < |t| ==> t[n] == t[1..][n - 1];
    }
  }

  lemma LaterPart(t: Text, n: nat, i: nat, j: nat)
    requires IsPart(t, 0, n) && n < |t| && n < i <= j
    ensures IsPart(t, i, j) <==> IsPart(t[n + 1..], i - n - 1, j - n - 1)
    ensures IsPart(t, i, j) ==> t[i..j] == t[n + 1..][i - n - 1..j - n - 1]
  {
    var rest := t[n + 1..];
    forall k | n < k < |t| ensures t[k] == rest[k - n - 1] {
    }
  }

  lemma EarlierPart(t: Text, n: nat, i: nat, j: nat)
    requires IsPart(t, 0, n) && IsPart(t, i, j) && i <= n
    ensures i == 0 && j == n
  {
  }

  ghost predicate HasPart(t: Text, part: Text)
  {
    exists i: nat, j: nat :: IsPart(t, i, j) && part == t[i..j]
  }

  lemma PartShifts(t: Text, n: nat, part: Text)
    requires IsPart(t, 0, n) && n < |t| && HasPart(t[n + 1..], part)
    ensures HasPart(t, part)
  {
    var rest := t[n + 1..];
    var i: nat, j: nat :| IsPart(rest, i, j) && part == rest[i..j];
    LaterPart(t, n, i + n + 1, j + n + 1);
    assert IsPart(t, i + n + 1, j + n + 1);
  }

  lemma PartFound(t: Text, n: nat, part: Text)
    requires IsPart(t, 0, n) && n < |t| && HasPart(t, part) && part != t[..n]
    ensures HasPart(t[n + 1..], part)
  {
    var i: nat, j: nat :| IsPart(t, i, j) && part == t[i..j];
    assert t[0..n] == t[..n];
    assert i > n by {
      if i <= n {
        EarlierPart(t, n, i, j);
        assert false;
      }
    }
    LaterPart(t, n, i, j);
    assert IsPart(t[n + 1..], i - n - 1, j - n - 1);
  }

  lemma OnlyPart(t: Text, part: Text)
    requires IsPart(t, 0, |t|)
    ensures HasPart(t, part) <==> part == t
  {
    assert t[0..|t|] == t;
    if HasPart(t, part) {
      var i: nat, j: nat :| IsPart(t, i, j) && part == t[i..j];
      EarlierPart(t, |t|, i, j);
    }
  }

  lemma FirstIsPart(t: Text, n: nat)
    requires IsPart(t, 0, n)
    ensures HasPart(t, t[..n])
  {
    assert t[0..n] == t[..n];
  }

  /** Splitting a path at its slashes gives exactly those. */
  lemma {:induction false} PartsAre(t: Text, part: Text)
    ensures part in Parts(t) <==> HasPart(t, part)
    decreases |t|
  {
    var n := FirstPart(t);
    FirstPartIs(t);
    if n == |t| {
      OnlyPart(t, part);
    } else {
      PartsAre(t[n + 1..], part);
      FirstIsPart(t, n);
      if HasPart(t[n + 1..], part) {
        PartShifts(t, n, part);
      } else if HasPart(t, part) && part != t[..n] {
        PartFound(t, n, part);
      }
    }
  }

  /** A path is safe without backslashes and NULs when no part of it is empty, a dot or two dots. */
  lemma SafeExact(t: Text)
    ensures Safe(t) <==>
              && t != [] && BACKSLASH !in t && NUL !in t
              && forall part | HasPart(t, part) :: part != [] && part != [DOT] && part != [DOT, DOT]
  {
    forall part ensures part in Parts(t) <==> HasPart(t, part) {
      PartsAre(t, part);
    }
  }

  // Lines.

  ghost predicate OnlyKeys(members: seq<Member>, keys: set<Text>)
  {
    forall m: Member | m in members :: m.key in keys
  }

  const RECORD_KEYS: set<Text> :=
    {Codes("path"), Codes("mode"), Codes("bytes"), Codes("sha256"), Codes("base64")}

  const HEADER_KEYS: set<Text> := {Codes("format"), Codes("schemaVersion"), Codes("files"), Codes("missing")}

  /** Text in ASCII that stands for data in base64. */
  ghost predicate Base64Of(t: Text, data: seq<Byte>)
  {
    IsAscii(t) && StandsFor(AsciiOf(t), data)
  }

  ghost predicate HasBytes(members: seq<Member>, data: seq<Byte>)
  {
    exists t :: HasValue(members, Codes("base64"), Str(t)) && Base64Of(t, data)
  }

  /** The members of a record tell of a file, with the size and the digest that its data has. */
  ghost predicate TellsOf(members: seq<Member>, sha: seq<Byte> -> Text, e: Evidence)
  {
    OnlyKeys(members, RECORD_KEYS) && ValuesTell(members, sha, e)
  }

  ghost predicate ValuesTell(members: seq<Member>, sha: seq<Byte> -> Text, e: Evidence)
  {
    && HasValue(members, Codes("path"), Str(e.path)) && Safe(e.path)
    && HasValue(members, Codes("mode"), Int(e.mode)) && e.mode <= 0x1FF
    && HasValue(members, Codes("bytes"), Int(|e.data|))
    && HasValue(members, Codes("sha256"), Str(sha(e.data))) && IsHex64(sha(e.data))
    && HasBytes(members, e.data)
  }

  ghost predicate HasVersion(members: seq<Member>)
  {
    exists d :: HasValue(members, Codes("schemaVersion"), d) && IsVersionOne(Some(d))
  }

  /** The members of a header announce a number of files and the missing paths. */
  ghost predicate Announces(members: seq<Member>, files: nat, missing: seq<Text>)
  {
    && OnlyKeys(members, HEADER_KEYS)
    && HasValue(members, Codes("format"), Str(Codes("typerb-evidence-jsonl"))) && HasVersion(members)
    && HasValue(members, Codes("files"), Int(files)) && files > 0
    && HasValue(members, Codes("missing"), Arr(NameDocs(missing)))
    && Distinct(missing) && forall p | p in missing :: Safe(p)
  }

  ghost predicate RecordLine(line: string, sha: seq<Byte> -> Text, e: Evidence)
  {
    exists members :: Load(line) == Some(Obj(members)) && TellsOf(members, sha, e)
  }

  ghost predicate HeaderLine(line: string, files: nat, missing: seq<Text>)
  {
    exists members :: Load(line) == Some(Obj(members)) && Announces(members, files, missing)
  }

  lemma HasKey(members: seq<Member>, key: Text)
    ensures MemberValue(members, key).Some? <==> key in Keys(members)
  {
    if MemberValue(members, key).Some? {
      MemberValueIs(members, key, MemberValue(members, key).value);
      var i :| 0 <= i < |members| && members[i] == Member(key, MemberValue(members, key).value);
      assert members[i] in members;
    }
    if key in Keys(members) {
      SomeValue(members, key);
    }
  }

  lemma {:induction false} SomeValue(members: seq<Member>, key: Text)
    requires key in Keys(members)
    ensures MemberValue(members, key).Some?
  {
    var init, last := members[..|members| - 1], members[|members| - 1];
    if last.key != key {
      var m: Member :| m in members && m.key == key;
      assert m in init;
      SomeValue(init, key);
    }
  }

  lemma KeysExact(members: seq<Member>, keys: set<Text>)
    requires forall k | k in keys :: MemberValue(members, k).Some?
    ensures Keys(members) == keys <==> OnlyKeys(members, keys)
  {
    forall k | k in keys ensures k in Keys(members) {
      HasKey(members, k);
    }
  }

  /** The conditions on a record, in terms of reading its members. */
  predicate Reads(members: seq<Member>, sha: seq<Byte> -> Text, e: Evidence)
  {
    Keys(members) == RECORD_KEYS && ValuesRead(members, sha, e)
  }

  predicate ValuesRead(members: seq<Member>, sha: seq<Byte> -> Text, e: Evidence)
  {
    && MemberValue(members, Codes("path")) == Some(Str(e.path)) && Safe(e.path)
    && MemberValue(members, Codes("mode")) == Some(Int(e.mode)) && e.mode <= 0x1FF
    && MemberValue(members, Codes("bytes")) == Some(Int(|e.data|))
    && MemberValue(members, Codes("sha256")) == Some(Str(sha(e.data))) && IsHex64(sha(e.data))
    && BytesRead(members, e.data)
  }

  predicate BytesRead(members: seq<Member>, data: seq<Byte>)
  {
    && MemberValue(members, Codes("base64")).Some? && MemberValue(members, Codes("base64")).value.Str?
    && DecodeText(MemberValue(members, Codes("base64")).value.text) == Some(data)
  }

  lemma RecordReadsSo(members: seq<Member>, sha: seq<Byte> -> Text, e: Evidence)
    ensures RecordOf(members, sha) == Some(e) <==> Reads(members, sha, e)
  {
  }

  /** Reading a record finds exactly the file that its members tell of. */
  lemma RecordExact(members: seq<Member>, sha: seq<Byte> -> Text, e: Evidence)
    ensures RecordOf(members, sha) == Some(e) <==> TellsOf(members, sha, e)
  {
    RecordReadsSo(members, sha, e);
    ValuesExact(members, sha, e);
    if ValuesRead(members, sha, e) {
      RecordKeysFound(members);
    }
  }

  lemma ValuesExact(members: seq<Member>, sha: seq<Byte> -> Text, e: Evidence)
    ensures ValuesRead(members, sha, e) <==> ValuesTell(members, sha, e)
  {
    MemberValueIs(members, Codes("path"), Str(e.path));
    MemberValueIs(members, Codes("mode"), Int(e.mode));
    MemberValueIs(members, Codes("bytes"), Int(|e.data|));
    MemberValueIs(members, Codes("sha256"), Str(sha(e.data)));
    BytesExact(members, e.data);
  }

  lemma RecordKeysFound(members: seq<Member>)
    requires MemberValue(members, Codes("path")).Some? && MemberValue(members, Codes("mode")).Some?
    requires MemberValue(members, Codes("bytes")).Some? && MemberValue(members, Codes("sha256")).Some?
    requires MemberValue(members, Codes("base64")).Some?
    ensures Keys(members) == RECORD_KEYS <==> OnlyKeys(members, RECORD_KEYS)
  {
    forall k | k in RECORD_KEYS ensures MemberValue(members, k).Some? {
    }
    KeysExact(members, RECORD_KEYS);
  }

  lemma BytesExact(members: seq<Member>, data: seq<Byte>)
    ensures HasBytes(members, data) <==> BytesRead(members, data)
  {
    var d := MemberValue(members, Codes("base64"));
    if d.Some? && d.value.Str? {
      MemberValueIs(members, Codes("base64"), d.value);
      DecodeTextExact(d.value.text, data);
    }
    if HasBytes(members, data) {
      BytesFound(members, data);
    }
  }

  lemma BytesFound(members: seq<Member>, data: seq<Byte>)
    requires HasBytes(members, data)
    ensures BytesRead(members, data)
  {
    var t :| HasValue(members, Codes("base64"), Str(t)) && Base64Of(t, data);
    MemberValueIs(members, Codes("base64"), Str(t));
    DecodeTextExact(t, data);
  }

  lemma DecodeTextExact(t: Text, data: seq<Byte>)
    ensures DecodeText(t) == Some(data) <==> Base64Of(t, data)
  {
    if IsAscii(t) {
      DecodeExact(AsciiOf(t), data);
    }
  }

  lemma RecordLineExact(line: string, sha: seq<Byte> -> Text, e: Evidence)
    ensures ReadRecord(line, sha) == Some(e) <==> RecordLine(line, sha, e)
  {
    if Load(line).Some? && Load(line).value.Obj? {
      RecordExact(Load(line).value.members, sha, e);
    }
  }

  lemma {:induction false} NamesExact(docs: seq<Doc>, names: seq<Text>)
    ensures Names(docs) == Some(names) <==> docs == NameDocs(names) && forall p | p in names :: Safe(p)
  {
    if docs == [] {
      assert names != [] ==> |NameDocs(names)| > 0;
    } else if names != [] {
      NamesExact(docs[1..], names[1..]);
      assert docs == [docs[0]] + docs[1..] && names == [names[0]] + names[1..];
      NameDocsCons(names[0], names[1..]);
      assert names[0] in names && forall p | p in names :: p == names[0] || p in names[1..];
    }
  }

  lemma NameDocsCons(name: Text, rest: seq<Text>)
    ensures NameDocs([name] + rest) == [Str(name)] + NameDocs(rest)
  {
  }

  predicate NamesRead(members: seq<Member>, missing: seq<Text>)
  {
    && MemberValue(members, Codes("missing")).Some? && MemberValue(members, Codes("missing")).value.Arr?
    && Names(MemberValue(members, Codes("missing")).value.items) == Some(missing)
  }

  ghost predicate NamesTold(members: seq<Member>, missing: seq<Text>)
  {
    HasValue(members, Codes("missing"), Arr(NameDocs(missing))) && forall p | p in missing :: Safe(p)
  }

  lemma MissingExact(members: seq<Member>, missing: seq<Text>)
    ensures NamesRead(members, missing) <==> NamesTold(members, missing)
  {
    MemberValueIs(members, Codes("missing"), Arr(NameDocs(missing)));
    var d := MemberValue(members, Codes("missing"));
    if d.Some? && d.value.Arr? {
      NamesExact(d.value.items, missing);
    }
  }

  predicate VersionRead(members: seq<Member>)
  {
    IsVersionOne(MemberValue(members, Codes("schemaVersion")))
  }

  lemma VersionExact(members: seq<Member>)
    ensures VersionRead(members) <==> HasVersion(members)
  {
    var d := MemberValue(members, Codes("schemaVersion"));
    if d.Some? {
      MemberValueIs(members, Codes("schemaVersion"), d.value);
    }
    if HasVersion(members) {
      var v :| HasValue(members, Codes("schemaVersion"), v) && IsVersionOne(Some(v));
      MemberValueIs(members, Codes("schemaVersion"), v);
    }
  }

  lemma HeaderReadsSo(members: seq<Member>, files: nat, missing: seq<Text>)
    ensures HeaderOf(members) == Some((files, missing)) <==>
              && Keys(members) == HEADER_KEYS
              && MemberValue(members, Codes("format")) == Some(Str(Codes("typerb-evidence-jsonl")))
              && VersionRead(members)
              && MemberValue(members, Codes("files")) == Some(Int(files)) && files > 0
              && NamesRead(members, missing) && Distinct(missing)
  {
  }

  lemma HeaderKeysFound(members: seq<Member>)
    requires MemberValue(members, Codes("format")).Some? && MemberValue(members, Codes("schemaVersion")).Some?
    requires MemberValue(members, Codes("files")).Some? && MemberValue(members, Codes("missing")).Some?
    ensures Keys(members) == HEADER_KEYS <==> OnlyKeys(members, HEADER_KEYS)
  {
    forall k | k in HEADER_KEYS ensures MemberValue(members, k).Some? {
    }
    KeysExact(members, HEADER_KEYS);
  }

  /** Reading a header finds exactly what its members announce. */
  lemma HeaderExact(members: seq<Member>, files: nat, missing: seq<Text>)
    ensures HeaderOf(members) == Some((files, missing)) <==> Announces(members, files, missing)
  {
    HeaderReadsSo(members, files, missing);
    MemberValueIs(members, Codes("format"), Str(Codes("typerb-evidence-jsonl")));
    MemberValueIs(members, Codes("files"), Int(files));
    VersionExact(members);
    MissingExact(members, missing);
    if NamesRead(members, missing) && VersionRead(members) && MemberValue(members, Codes("format")).Some?
       && MemberValue(members, Codes("files")).Some?
    {
      HeaderKeysFound(members);
    }
  }

  lemma HeaderLineExact(line: string, files: nat, missing: seq<Text>)
    ensures ReadHeader(line) == Some((files, missing)) <==> HeaderLine(line, files, missing)
  {
    if Load(line).Some? && Load(line).value.Obj? {
      HeaderExact(Load(line).value.members, files, missing);
    }
  }

  // The stream.

  /** Each line tells of its record. */
  ghost predicate RecordLinesTell(lines: seq<string>, sha: seq<Byte> -> Text, es: seq<Evidence>)
  {
    |lines| == |es| && forall k | 0 <= k < |lines| :: LineTells(lines, sha, es, k)
  }

  ghost predicate LineTells(lines: seq<string>, sha: seq<Byte> -> Text, es: seq<Evidence>, k: nat)
    requires k < |lines| && k < |es|
  {
    RecordLine(lines[k], sha, es[k])
  }

  /** Records that are distinct and clear of missing paths, one after another. */
  ghost predicate Joins(missing: seq<Text>, done: seq<Evidence>, es: seq<Evidence>)
  {
    && (forall e, d | e in es && d in done :: e.path != d.path)
    && DistinctPaths(es)
    && forall e | e in es :: !AtOrUnder(missing, e.path)
  }

  lemma JoinsFirst(missing: seq<Text>, done: seq<Evidence>, e: Evidence, rest: seq<Evidence>)
    ensures Joins(missing, done, [e] + rest)
       <==> Admissible(missing, Paths(done), e) && Joins(missing, done + [e], rest)
  {
    var es := [e] + rest;
    if Joins(missing, done, es) {
      assert e in es && forall x | x in rest :: x in es;
      forall x, d | x in rest && d in done + [e] ensures x.path != d.path {
        FirstDiffers(e, rest, x);
      }
      forall i, j | 0 <= i < j < |rest| ensures rest[i].path != rest[j].path {
        assert es[i + 1] == rest[i] && es[j + 1] == rest[j];
      }
    }
    if Admissible(missing, Paths(done), e) && Joins(missing, done + [e], rest) {
      assert e in done + [e] && forall d | d in done :: d in done + [e] && d.path in Paths(done);
      assert forall x | x in es :: x == e || x in rest;
      forall i, j | 0 <= i < j < |es| ensures es[i].path != es[j].path {
        assert es[j] == rest[j - 1] && es[j] in rest;
        assert i > 0 ==> es[i] == rest[i - 1];
      }
    }
  }

  lemma FirstDiffers(e: Evidence, rest: seq<Evidence>, x: Evidence)
    requires DistinctPaths([e] + rest) && x in rest
    ensures x.path != e.path
  {
    var i :| 0 <= i < |rest| && rest[i] == x;
    assert ([e] + rest)[i + 1] == x && ([e] + rest)[0] == e;
  }

  lemma {:induction false} ReadRecordsGrow(lines: seq<string>, missing: seq<Text>, done: seq<Evidence>,
    sha: seq<Byte> -> Text)
    ensures var r := ReadRecords(lines, missing, done, sha);
            r.Some? ==> |r.value| == |done| + |lines| && done <= r.value
    decreases |lines|
  {
    if lines != [] {
      var e := ReadRecord(lines[0], sha);
      if e.Some? && Admissible(missing, Paths(done), e.value) {
        ReadRecordsGrow(lines[1..], missing, done + [e.value], sha);
      }
    }
  }

  lemma FirstRead(line: string, rest: seq<string>, missing: seq<Text>, done: seq<Evidence>, sha: seq<Byte> -> Text,
    e: Evidence, more: seq<Evidence>)
    ensures ReadRecords([line] + rest, missing, done, sha) == Some(done + [e] + more)
       <==> && ReadRecord(line, sha) == Some(e) && Admissible(missing, Paths(done), e)
            && ReadRecords(rest, missing, done + [e], sha) == Some(done + [e] + more)
  {
    ReadOne(line, rest, missing, done, sha);
    var found := ReadRecord(line, sha);
    if found.Some? {
      ReadRecordsGrow(rest, missing, done + [found.value], sha);
      assert (done + [found.value])[|done|] == found.value && (done + [e] + more)[|done|] == e;
    }
  }

  lemma TellLater(line: string, rest: seq<string>, sha: seq<Byte> -> Text, e: Evidence, more: seq<Evidence>, k: nat)
    requires k < |rest| && k < |more|
    ensures LineTells([line] + rest, sha, [e] + more, k + 1) <==> LineTells(rest, sha, more, k)
  {
    assert ([line] + rest)[k + 1] == rest[k] && ([e] + more)[k + 1] == more[k];
  }

  lemma TellFirst(line: string, rest: seq<string>, sha: seq<Byte> -> Text, e: Evidence, more: seq<Evidence>)
    ensures RecordLinesTell([line] + rest, sha, [e] + more)
       <==> LineTells([line] + rest, sha, [e] + more, 0) && RecordLinesTell(rest, sha, more)
  {
    var lines, es := [line] + rest, [e] + more;
    if |rest| == |more| {
      forall k | 0 <= k < |rest| ensures LineTells(lines, sha, es, k + 1) <==> LineTells(rest, sha, more, k) {
        TellLater(line, rest, sha, e, more, k);
      }
      if RecordLinesTell(rest, sha, more) && LineTells(lines, sha, es, 0) {
        forall k | 0 <= k < |lines| ensures LineTells(lines, sha, es, k) {
          assert k > 0 ==> LineTells(rest, sha, more, k - 1);
        }
      }
    }
  }

  lemma {:induction false} ReadRecordsExact(lines: seq<string>, missing: seq<Text>, done: seq<Evidence>,
    sha: seq<Byte> -> Text, es: seq<Evidence>)
    ensures ReadRecords(lines, missing, done, sha) == Some(done + es)
       <==> RecordLinesTell(lines, sha, es) && Joins(missing, done, es)
    decreases |lines|
  {
    ReadRecordsGrow(lines, missing, done, sha);
    if lines != [] && es != [] {
      var line, rest, e, more := lines[0], lines[1..], es[0], es[1..];
      assert lines == [line] + rest && es == [e] + more;
      Associates(done, [e], more);
      FirstRead(line, rest, missing, done, sha, e, more);
      RecordLineExact(line, sha, e);
      ReadRecordsExact(rest, missing, done + [e], sha, more);
      JoinsFirst(missing, done, e, more);
      TellFirst(line, rest, sha, e, more);
    } else if lines == [] && es == [] {
      assert done + es == done;
    }
  }

  /** The lines of an accepted stream: a header, and one record for each file, in order and in place. */
  ghost predicate StreamOf(lines: seq<string>, sha: seq<Byte> -> Text, missing: seq<Text>, es: seq<Evidence>)
  {
    && lines != [] && HeaderLine(lines[0], |es|, missing) && RecordLinesTell(lines[1..], sha, es)
    && DistinctPaths(es) && NoParentConflict(Paths(es))
    && forall e | e in es :: !AtOrUnder(missing, e.path)
  }

  lemma RecordsReadSo(text: string, sha: seq<Byte> -> Text, missing: seq<Text>, es: seq<Evidence>)
    ensures var lines := SplitLines(text);
            Records(text, sha) == Some((missing, es)) <==>
              && lines != [] && ReadHeader(lines[0]) == Some((|es|, missing))
              && ReadRecords(lines[1..], missing, [], sha) == Some(es) && NoParentConflict(Paths(es))
  {
  }

  lemma JoinsNone(missing: seq<Text>, es: seq<Evidence>)
    ensures Joins(missing, [], es) <==> DistinctPaths(es) && forall e | e in es :: !AtOrUnder(missing, e.path)
  {
  }

  /** A stream is accepted, with a list of missing paths and files, exactly when its lines tell of them. */
  lemma RecordsExact(text: string, sha: seq<Byte> -> Text, missing: seq<Text>, es: seq<Evidence>)
    ensures Records(text, sha) == Some((missing, es)) <==> StreamOf(SplitLines(text), sha, missing, es)
  {
    var lines := SplitLines(text);
    RecordsReadSo(text, sha, missing, es);
    JoinsNone(missing, es);
    if lines != [] {
      HeaderLineExact(lines[0], |es|, missing);
      ReadRecordsExact(lines[1..], missing, [], sha, es);
      assert [] + es == es;
    }
  }

  // Corrupted records.

  /** A record whose bytes are not as many, or have not the digest, that it says. */
  ghost predicate Corrupted(line: string, sha: seq<Byte> -> Text)
  {
    exists members, data :: Load(line) == Some(Obj(members)) && HasBytes(members, data) && Misstates(members, sha, data)
  }

  ghost predicate Misstates(members: seq<Member>, sha: seq<Byte> -> Text, data: seq<Byte>)
  {
    !HasValue(members, Codes("bytes"), Int(|data|)) || !HasValue(members, Codes("sha256"), Str(sha(data)))
  }

  lemma OnlyBytes(members: seq<Member>, a: seq<Byte>, b: seq<Byte>)
    requires HasBytes(members, a) && HasBytes(members, b)
    ensures a == b
  {
    BytesFound(members, a);
    BytesFound(members, b);
  }

  /** One such record has the whole stream rejected. */
  lemma CorruptedRejected(text: string, sha: seq<Byte> -> Text, k: nat)
    requires 0 < k < |SplitLines(text)| && Corrupted(SplitLines(text)[k], sha)
    ensures Records(text, sha) == None
  {
    var lines := SplitLines(text);
    if Records(text, sha).Some? {
      var (missing, es) := Records(text, sha).value;
      RecordsExact(text, sha, missing, es);
      assert LineTells(lines[1..], sha, es, k - 1);
      var members, data :| Load(lines[k]) == Some(Obj(members)) && HasBytes(members, data)
                           && Misstates(members, sha, data);
      OnlyBytes(members, data, es[k - 1].data);
      assert false;
    }
  }

  /** So nothing is extracted from it. */
  method ExtractCorrupted(text: string, sha: seq<Byte> -> Text, k: nat, output: EvidenceBundle.OutputDirectory)
    returns (r: Result<(nat, nat), EvidenceBundle.ExtractError>)
    requires 0 < k < |SplitLines(text)| && Corrupted(SplitLines(text)[k], sha)
    modifies output
    ensures r == Err(EvidenceBundle.Rejected) && unchanged(output)
  {
    CorruptedRejected(text, sha, k);
    r := EvidenceBundle.Extract(text, sha, output);
  }

  // What is extracted from the rest.

  /** The files of distinct records are their paths, each with its permission bits and its bytes. */
  lemma {:induction false} FileMapIs(es: seq<Evidence>)
    requires DistinctPaths(es)
    ensures forall p :: p in EvidenceBundle.FileMap(es) <==> exists e | e in es :: e.path == p
    ensures forall e | e in es ::
              e.path in EvidenceBundle.FileMap(es) && EvidenceBundle.FileMap(es)[e.path] == (e.mode, e.data)
  {
    if es != [] {
      var init, last := es[..|es| - 1], es[|es| - 1];
      FileMapIs(init);
      assert last in es && forall e | e in es :: e in init || e == last;
      forall e | e in init ensures e in es && e.path != last.path {
        var i :| 0 <= i < |init| && init[i] == e;
        assert es[i] == e;
      }
    }
  }

  /** The size of a bundle's files: that of each, and of two lists together. */
  lemma {:induction false} TotalBytesAdd(a: seq<Evidence>, b: seq<Evidence>, e: Evidence)
    ensures EvidenceBundle.TotalBytes([]) == 0 && EvidenceBundle.TotalBytes([e]) == |e.data|
    ensures EvidenceBundle.TotalBytes(a + b) == EvidenceBundle.TotalBytes(a) + EvidenceBundle.TotalBytes(b)
  {
    assert [e][..0] == [];
    if b == [] {
      assert a + b == a;
    } else {
      var init := b[..|b| - 1];
      TotalBytesAdd(a, init, e);
      assert (a + b)[..|a + b| - 1] == a + init;
    }
  }
}
