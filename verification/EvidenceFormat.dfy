/**
 * The evidence bundle as a stream of JSON lines: a header with the number of files and the missing selections, then
 * one record per file. Writing, and reading with every check the reader makes.
 */
module EvidenceFormat {
  import opened Wrappers
  import opened Json
  import opened JsonRoundTrip
  import opened Numbers
  import opened TextOrder
  import opened CanonicalJson
  import opened JsonLines
  import opened TextLines
  import opened Base64

  const SLASH: CodePoint := 0x2F
  const BACKSLASH: CodePoint := 0x5C
  const DOT: CodePoint := 0x2E
  const NUL: CodePoint := 0

  /** One retained file: its path, its permission bits and its bytes. */
  datatype Evidence = Evidence(path: Text, mode: nat, data: seq<Byte>)

  // Paths.

  function FirstPart(t: Text): (n: nat)
    ensures n <= |t|
  {
    if t == [] || t[0] == SLASH then 0 else 1 + FirstPart(t[1..])
  }

  function Parts(t: Text): (parts: seq<Text>)
    ensures parts != []
  {
    var n := FirstPart(t);
    if n == |t| then [t] else [t[..n]] + Parts(t[n + 1..])
  }

  predicate PlainPart(part: Text)
  {
    part != [] && part != [DOT] && part != [DOT, DOT]
  }

  predicate PlainParts(t: Text)
  {
    forall part | part in Parts(t) :: PlainPart(part)
  }

  /** safe_path accepts the name. A leading slash makes the first part empty. */
  predicate Safe(t: Text)
  {
    t != [] && BACKSLASH !in t && NUL !in t && PlainParts(t)
  }

  /** p is a proper ancestor of t. */
  predicate Under(p: Text, t: Text)
  {
    p + [SLASH] <= t
  }

  // Writing.

  predicate IsHexDigit(c: CodePoint)
  {
    '0' as int <= c <= '9' as int || 'a' as int <= c <= 'f' as int
  }

  /** Any function to 64 hexadecimal digits may stand for the digest. */
  ghost predicate IsDigest(sha: seq<Byte> -> Text)
  {
    forall data :: IsHex64(sha(data))
  }

  predicate IsHex64(t: Text)
  {
    |t| == 64 && forall c | c in t :: IsHexDigit(c)
  }

  function RecordMembers(e: Evidence, sha: seq<Byte> -> Text): seq<Member>
  {
    [ Member(Codes("path"), Str(e.path)),
      Member(Codes("mode"), Int(e.mode)),
      Member(Codes("bytes"), Int(|e.data|)),
      Member(Codes("sha256"), Str(sha(e.data))),
      Member(Codes("base64"), Str(Codes(Encode(e.data)))) ]
  }

  function NameDocs(names: seq<Text>): seq<Doc>
  {
    seq(|names|, i requires 0 <= i < |names| => Str(names[i]))
  }

  function HeaderMembers(files: nat, missing: seq<Text>): seq<Member>
  {
    [ Member(Codes("format"), Str(Codes("typerb-evidence-jsonl"))),
      Member(Codes("schemaVersion"), Int(1)),
      Member(Codes("files"), Int(files)),
      Member(Codes("missing"), Arr(NameDocs(missing))) ]
  }

  function RecordLines(es: seq<Evidence>, sha: seq<Byte> -> Text): seq<string>
  {
    seq(|es|, i requires 0 <= i < |es| => Line(Obj(RecordMembers(es[i], sha))))
  }

  function BundleLines(missing: seq<Text>, es: seq<Evidence>, sha: seq<Byte> -> Text): seq<string>
  {
    [Line(Obj(HeaderMembers(|es|, missing)))] + RecordLines(es, sha)
  }

  function Bundle(missing: seq<Text>, es: seq<Evidence>, sha: seq<Byte> -> Text): string
  {
    Concat(BundleLines(missing, es, sha))
  }

  // Reading.

  /** Member access on the decoded dictionary. */
  function MemberValue(members: seq<Member>, key: Text): Option<Doc>
  {
    if members == [] then None
    else
      var last := members[|members| - 1];
      if last.key == key then Some(last.value) else MemberValue(members[..|members| - 1], key)
  }

  function Keys(members: seq<Member>): set<Text>
  {
    set m: Member | m in members :: m.key
  }

  function Names(docs: seq<Doc>): Option<seq<Text>>
  {
    if docs == [] then Some([])
    else if !docs[0].Str? || !Safe(docs[0].text) then None
    else
      match Names(docs[1..])
      case None => None
      case Some(rest) => Some([docs[0].text] + rest)
  }

  function AsObject(d: Option<Doc>): Option<seq<Member>>
  {
    if d.Some? && d.value.Obj? then Some(d.value.members) else None
  }

  function AsArray(d: Option<Doc>): Option<seq<Doc>>
  {
    if d.Some? && d.value.Arr? then Some(d.value.items) else None
  }

  function AsInt(d: Option<Doc>): Option<int>
  {
    if d.Some? && d.value.Int? then Some(d.value.i) else None
  }

  function AsText(d: Option<Doc>): Option<Text>
  {
    if d.Some? && d.value.Str? then Some(d.value.text) else None
  }

  predicate IsVersionOne(d: Option<Doc>)
  {
    d == Some(Int(1)) || d == Some(Bool(true)) || (d.Some? && d.value.Float? && Denotes(d.value.lexeme, 1))
  }

  /** The header's file count and missing paths. A schema version that equals 1, as 1.0 and true do, is accepted. */
  function HeaderOf(members: seq<Member>): Option<(nat, seq<Text>)>
  {
    var files, docs := AsInt(MemberValue(members, Codes("files"))), AsArray(MemberValue(members, Codes("missing")));
    if Keys(members) != {Codes("format"), Codes("schemaVersion"), Codes("files"), Codes("missing")} then None
    else if MemberValue(members, Codes("format")) != Some(Str(Codes("typerb-evidence-jsonl"))) then None
    else if !IsVersionOne(MemberValue(members, Codes("schemaVersion"))) then None
    else if files.None? || files.value <= 0 || docs.None? then None
    else if Names(docs.value).None? || !Distinct(Names(docs.value).value) then None
    else Some((files.value, Names(docs.value).value))
  }

  function ReadHeader(raw: string): Option<(nat, seq<Text>)>
  {
    var members := AsObject(Load(raw));
    if members.None? then None else HeaderOf(members.value)
  }

  predicate IsAscii(t: Text)
  {
    forall i | 0 <= i < |t| :: t[i] < 128
  }

  function AsciiOf(t: Text): (s: string)
    requires IsAscii(t)
  {
    seq(|t|, i requires 0 <= i < |t| => t[i] as char)
  }

  /** base64.b64decode of a string: anything outside ASCII is an error. */
  function DecodeText(t: Text): Option<seq<Byte>>
  {
    if IsAscii(t) then Decode(AsciiOf(t)) else None
  }

  function RecordOf(members: seq<Member>, sha: seq<Byte> -> Text): Option<Evidence>
  {
    var path, mode := AsText(MemberValue(members, Codes("path"))), AsInt(MemberValue(members, Codes("mode")));
    var bytes, digest := AsInt(MemberValue(members, Codes("bytes"))), AsText(MemberValue(members, Codes("sha256")));
    var encoded := AsText(MemberValue(members, Codes("base64")));
    if Keys(members) != {Codes("path"), Codes("mode"), Codes("bytes"), Codes("sha256"), Codes("base64")} then None
    else if path.None? || !Safe(path.value) || mode.None? || !(0 <= mode.value <= 0x1FF) then None
    else if bytes.None? || digest.None? || !IsHex64(digest.value) then None
    else if encoded.None? || DecodeText(encoded.value).None? then None
    else
      var data := DecodeText(encoded.value).value;
      if |data| == bytes.value && sha(data) == digest.value then Some(Evidence(path.value, mode.value, data)) else None
  }

  function ReadRecord(raw: string, sha: seq<Byte> -> Text): Option<Evidence>
  {
    var members := AsObject(Load(raw));
    if members.None? then None else RecordOf(members.value, sha)
  }

  predicate AtOrUnder(missing: seq<Text>, name: Text)
  {
    exists p | p in missing :: name == p || Under(p, name)
  }

  /** The checks one record faces besides its own form: a new path, and none recorded as missing. */
  predicate Admissible(missing: seq<Text>, seen: set<Text>, e: Evidence)
  {
    e.path !in seen && !AtOrUnder(missing, e.path)
  }

  function Paths(es: seq<Evidence>): set<Text>
  {
    set e: Evidence | e in es :: e.path
  }

  /** The records of the remaining lines, appended to those already read. */
  function ReadRecords(lines: seq<string>, missing: seq<Text>, done: seq<Evidence>, sha: seq<Byte> -> Text)
    : Option<seq<Evidence>>
  {
    if lines == [] then Some(done)
    else
      var e := ReadRecord(lines[0], sha);
      if e.None? || !Admissible(missing, Paths(done), e.value) then None
      else ReadRecords(lines[1..], missing, done + [e.value], sha)
  }

  /** No recorded path is a directory on the way to another. */
  predicate NoParentConflict(paths: set<Text>)
  {
    forall p, q | p in paths && q in paths :: !Under(p, q)
  }

  /** Everything the reader accepts: the missing inventory and the records in stream order. */
  function Records(text: string, sha: seq<Byte> -> Text): Option<(seq<Text>, seq<Evidence>)>
  {
    var lines := SplitLines(text);
    if lines == [] || ReadHeader(lines[0]).None? then None
    else
      var (files, missing) := ReadHeader(lines[0]).value;
      var es := ReadRecords(lines[1..], missing, [], sha);
      if es.None? || |es.value| != files || !NoParentConflict(Paths(es.value)) then None else Some((missing, es.value))
  }

  lemma PathsAppend(es: seq<Evidence>, e: Evidence)
    ensures Paths(es + [e]) == Paths(es) + {e.path}
  {
  }

  /** The reader's loop: records are checked as they come, the totals when the stream ends. */
  method ReadBundle(text: string, sha: seq<Byte> -> Text) returns (r: Option<(seq<Text>, seq<Evidence>)>)
    ensures r == Records(text, sha)
  {
    var lines := SplitLines(text);
    if lines == [] {
      return None;
    }
    var header := ReadHeader(lines[0]);
    if header.None? {
      return None;
    }
    var (files, missing) := header.value;
    var seen: set<Text> := {};
    var es: seq<Evidence> := [];
    var n := 1;
    while n < |lines|
      invariant 1 <= n <= |lines|
      invariant seen == Paths(es)
      invariant ReadRecords(lines[1..], missing, [], sha) == ReadRecords(lines[n..], missing, es, sha)
    {
      var record := ReadRecord(lines[n], sha);
      assert lines[n..][0] == lines[n] && lines[n..][1..] == lines[n + 1..];
      if record.None? || !Admissible(missing, seen, record.value) {
        return None;
      }
      PathsAppend(es, record.value);
      seen := seen + {record.value.path};
      es := es + [record.value];
      n := n + 1;
    }
    if |es| != files || !NoParentConflict(seen) {
      return None;
    }
    return Some((missing, es));
  }
}
