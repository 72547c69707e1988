/** The base64 encoding of section 4 of RFC 4648, and a decoder that accepts only the alphabet and proper padding. */
module Base64 {
  import opened Wrappers

  type Byte = n: nat | n < 256

  function Letter(n: nat): char
    requires n < 64
  {
    if n < 26 then ('A' as int + n) as char
    else if n < 52 then ('a' as int + n - 26) as char
    else if n < 62 then ('0' as int + n - 52) as char
    else if n == 62 then '+' else '/'
  }

  function Value(c: char): (r: Option<nat>)
    ensures r.Some? ==> r.value < 64
  {
    if 'A' <= c <= 'Z' then Some(c as int - 'A' as int)
    else if 'a' <= c <= 'z' then Some(c as int - 'a' as int + 26)
    else if '0' <= c <= '9' then Some(c as int - '0' as int + 52)
    else if c == '+' then Some(62)
    else if c == '/' then Some(63)
    else None
  }

  function Group1(a: Byte): string
  {
    [Letter(a / 4), Letter(a % 4 * 16), '=', '=']
  }

  function Group2(a: Byte, b: Byte): string
  {
    [Letter(a / 4), Letter(a % 4 * 16 + b / 16), Letter(b % 16 * 4), '=']
  }

  function Group3(a: Byte, b: Byte, c: Byte): string
  {
    [Letter(a / 4), Letter(a % 4 * 16 + b / 16), Letter(b % 16 * 4 + c / 64), Letter(c % 64)]
  }

  function Encode(data: seq<Byte>): string
  {
    if data == [] then ""
    else if |data| == 1 then Group1(data[0])
    else if |data| == 2 then Group2(data[0], data[1])
    else Group3(data[0], data[1], data[2]) + Encode(data[3..])
  }

  /** One group of four characters; padding is allowed in the last group only. */
  function Quad(s: string, last: bool): Option<seq<Byte>>
    requires |s| == 4
  {
    match (Value(s[0]), Value(s[1]), Value(s[2]), Value(s[3]))
    case (Some(p), Some(q), Some(r), Some(t)) => Some([p * 4 + q / 16, q % 16 * 16 + r / 4, r % 4 * 64 + t])
    case (Some(p), Some(q), Some(r), None) =>
      if last && s[3] == '=' then Some([p * 4 + q / 16, q % 16 * 16 + r / 4]) else None
    case (Some(p), Some(q), None, None) =>
      if last && s[2] == '=' && s[3] == '=' then Some([p * 4 + q / 16]) else None
    case _ => None
  }

  function Decode(s: string): Option<seq<Byte>>
  {
    if s == "" then Some([])
    else if |s| < 4 then None
    else
      match (Quad(s[..4], |s| == 4), Decode(s[4..]))
      case (Some(head), Some(tail)) => Some(head + tail)
      case _ => None
  }

  lemma LetterValue(n: nat)
    requires n < 64
    ensures Value(Letter(n)) == Some(n)
  {
  }

  lemma SplitByte(a: Byte, b: Byte, c: Byte)
    ensures a / 4 * 4 + (a % 4 * 16 + b / 16) / 16 == a
    ensures (a % 4 * 16 + b / 16) % 16 * 16 + (b % 16 * 4 + c / 64) / 4 == b
    ensures (b % 16 * 4 + c / 64) % 4 * 64 + c % 64 == c
  {
    assert a % 4 * 16 + b / 16 == 16 * (a % 4) + b / 16;
  }

  lemma QuadReads(a: Byte, b: Byte, c: Byte, last: bool)
    ensures |Group3(a, b, c)| == 4 && Quad(Group3(a, b, c), last) == Some([a, b, c])
    ensures |Group2(a, b)| == 4 && Quad(Group2(a, b), true) == Some([a, b])
    ensures |Group1(a)| == 4 && Quad(Group1(a), true) == Some([a])
  {
    LetterValue(a / 4);
    LetterValue(a % 4 * 16);
    LetterValue(a % 4 * 16 + b / 16);
    LetterValue(b % 16 * 4);
    LetterValue(b % 16 * 4 + c / 64);
    LetterValue(c % 64);
    SplitByte(a, b, c);
    SplitByte(a, b, 0);
    SplitByte(a, 0, 0);
  }

  lemma GroupReads(group: string, tail: string, head: seq<Byte>, rest: seq<Byte>)
    requires |group| == 4 && Quad(group, tail == "") == Some(head) && Decode(tail) == Some(rest)
    ensures Decode(group + tail) == Some(head + rest)
  {
    var s := group + tail;
    assert s[..4] == group && s[4..] == tail;
  }

  lemma ShortReads(a: Byte, b: Byte)
    ensures Decode(Group1(a)) == Some([a])
    ensures Decode(Group2(a, b)) == Some([a, b])
  {
    QuadReads(a, b, 0, true);
    LastGroup(Group1(a), [a]);
    LastGroup(Group2(a, b), [a, b]);
  }

  lemma LongReads(a: Byte, b: Byte, c: Byte, tail: string, rest: seq<Byte>)
    requires Decode(tail) == Some(rest)
    ensures Decode(Group3(a, b, c) + tail) == Some([a, b, c] + rest)
  {
    QuadReads(a, b, c, tail == "");
    GroupReads(Group3(a, b, c), tail, [a, b, c], rest);
  }

  lemma ShortEncoding(data: seq<Byte>)
    requires |data| < 3
    ensures Decode(Encode(data)) == Some(data)
  {
    if data != [] {
      ShortReads(data[0], if |data| == 2 then data[1] else 0);
      assert data == if |data| == 1 then [data[0]] else [data[0], data[1]];
    }
  }

  lemma Regroup(data: seq<Byte>)
    requires |data| >= 3
    ensures [data[0], data[1], data[2]] + data[3..] == data
  {
  }

  /** Decoding inverts encoding, for data of any length. */
  lemma {:induction false} DecodeEncode(data: seq<Byte>)
    ensures Decode(Encode(data)) == Some(data)
  {
    if |data| >= 3 {
      DecodeEncode(data[3..]);
      LongReads(data[0], data[1], data[2], Encode(data[3..]), data[3..]);
      Regroup(data);
    } else {
      ShortEncoding(data);
    }
  }

  lemma LastGroup(group: string, data: seq<Byte>)
    requires |group| == 4 && Quad(group, true) == Some(data)
    ensures Decode(group) == Some(data)
  {
    GroupReads(group, "", data, []);
    assert group + "" == group && data + [] == data;
  }

  lemma {:induction false} EncodeAscii(data: seq<Byte>)
    ensures forall c | c in Encode(data) :: c as int < 128
  {
    if |data| >= 3 {
      EncodeAscii(data[3..]);
    }
  }

  // What the encoding is, group by group.

  const UPPER := "ABCDEFGHIJKLMNOPQRSTUVWXYZ"
  const LOWER := "abcdefghijklmnopqrstuvwxyz"
  const REST := "0123456789+/"

  /** The alphabet of the RFC, by position. */
  predicate InAlphabet(c: char, n: nat)
  {
    || (n < 26 && c == UPPER[n])
    || (26 <= n < 52 && c == LOWER[n - 26])
    || (52 <= n < 64 && c == REST[n - 52])
  }

  lemma AlphabetExact(c: char, n: nat)
    ensures Value(c) == Some(n) <==> InAlphabet(c, n)
    ensures n < 64 ==> InAlphabet(Letter(n), n)
  {
    UpperAt(n);
    LowerAt(n);
    RestAt(n);
  }

  lemma UpperAt(n: nat)
    ensures n < 26 ==> UPPER[n] == ('A' as int + n) as char
  {
  }

  lemma LowerAt(n: nat)
    ensures 26 <= n < 52 ==> LOWER[n - 26] == ('a' as int + n - 26) as char
  {
  }

  lemma RestAt(n: nat)
    ensures 52 <= n < 62 ==> REST[n - 52] == ('0' as int + n - 52) as char
    ensures REST[10] == '+' && REST[11] == '/'
  {
  }

  /**
   * Four characters stand for bytes: as many bits as the bytes have agree, from the top; whole groups are equal as
   * numbers of twenty-four bits, and shorter ones, padded, come last.
   */
  predicate GroupStands(s: string, last: bool, bytes: seq<Byte>)
    requires |s| == 4
  {
    && Value(s[0]).Some? && Value(s[1]).Some?
    && var top := Value(s[0]).value * 64 + Value(s[1]).value;
       if |bytes| == 3 then
         && Value(s[2]).Some? && Value(s[3]).Some?
         && top * 4096 + Value(s[2]).value * 64 + Value(s[3]).value
            == bytes[0] as int * 65536 + bytes[1] as int * 256 + bytes[2] as int
       else if |bytes| == 2 then
         && last && Value(s[2]).Some? && s[3] == '='
         && (top * 64 + Value(s[2]).value) / 4 == bytes[0] as int * 256 + bytes[1] as int
       else |bytes| == 1 && last && s[2] == '=' && s[3] == '=' && top / 16 == bytes[0]
  }

  lemma ThreeStand(p: nat, q: nat, r: nat, t: nat, a: nat, b: nat, c: nat)
    requires a < 256 && b < 256 && c < 256 && p < 64 && q < 64 && r < 64 && t < 64
    ensures (p * 64 + q) * 4096 + r * 64 + t == a * 65536 + b * 256 + c
       <==> a == p * 4 + q / 16 && b == q % 16 * 16 + r / 4 && c == r % 4 * 64 + t
  {
    var x, y, z := p * 4 + q / 16, q % 16 * 16 + r / 4, r % 4 * 64 + t;
    assert q == q / 16 * 16 + q % 16 && r == r / 4 * 4 + r % 4;
    assert (p * 64 + q) * 4096 + r * 64 + t == x * 65536 + y * 256 + z;
  }

  lemma TwoStand(p: nat, q: nat, r: nat, a: nat, b: nat)
    requires a < 256 && b < 256 && p < 64 && q < 64 && r < 64
    ensures ((p * 64 + q) * 64 + r) / 4 == a * 256 + b <==> a == p * 4 + q / 16 && b == q % 16 * 16 + r / 4
  {
    var x, y := p * 4 + q / 16, q % 16 * 16 + r / 4;
    assert q == q / 16 * 16 + q % 16 && r == r / 4 * 4 + r % 4;
    assert (p * 64 + q) * 64 + r == (x * 256 + y) * 4 + r % 4;
  }

  lemma OneStands(p: nat, q: nat, a: Byte)
    requires p < 64 && q < 64
    ensures (p * 64 + q) / 16 == a <==> a == p * 4 + q / 16
  {
  }

  lemma QuadExact(s: string, last: bool, bytes: seq<Byte>)
    requires |s| == 4
    ensures Quad(s, last) == Some(bytes) <==> GroupStands(s, last, bytes)
  {
    if Value(s[0]).Some? && Value(s[1]).Some? {
      var p, q := Value(s[0]).value, Value(s[1]).value;
      if |bytes| == 3 && Value(s[2]).Some? && Value(s[3]).Some? {
        ThreeStand(p, q, Value(s[2]).value, Value(s[3]).value, bytes[0], bytes[1], bytes[2]);
        assert bytes == [bytes[0], bytes[1], bytes[2]];
      } else if |bytes| == 2 && Value(s[2]).Some? {
        TwoStand(p, q, Value(s[2]).value, bytes[0], bytes[1]);
        assert bytes == [bytes[0], bytes[1]];
      } else if |bytes| == 1 {
        OneStands(p, q, bytes[0]);
        assert bytes == [bytes[0]];
      }
    }
  }

  /** The text stands for the data: four characters for three bytes, and perhaps fewer at the end. */
  predicate StandsFor(s: string, data: seq<Byte>)
  {
    if s == "" then data == []
    else
      && |s| >= 4 && data != []
      && var n := if |data| < 3 then |data| else 3;
         GroupStands(s[..4], |s| == 4, data[..n]) && StandsFor(s[4..], data[n..])
  }

  lemma GroupSize(s: string, last: bool, bytes: seq<Byte>)
    requires |s| == 4 && GroupStands(s, last, bytes)
    ensures 1 <= |bytes| <= 3 && (!last ==> |bytes| == 3)
  {
  }

  lemma DecodedParts(s: string, head: seq<Byte>, tail: seq<Byte>)
    requires |s| >= 4 && GroupStands(s[..4], |s| == 4, head) && StandsFor(s[4..], tail)
    ensures StandsFor(s, head + tail)
  {
    var data := head + tail;
    GroupSize(s[..4], |s| == 4, head);
    assert |s| == 4 ==> tail == [];
    assert |head| == if |data| < 3 then |data| else 3;
    assert data[..|head|] == head && data[|head|..] == tail;
  }

  /** Decoding finds exactly the data that a text stands for. */
  lemma {:induction false} DecodeExact(s: string, data: seq<Byte>)
    ensures Decode(s) == Some(data) <==> StandsFor(s, data)
    decreases |s|
  {
    if |s| >= 4 {
      if Decode(s) == Some(data) {
        var head, tail := Quad(s[..4], |s| == 4).value, Decode(s[4..]).value;
        DecodeExact(s[4..], tail);
        QuadExact(s[..4], |s| == 4, head);
        DecodedParts(s, head, tail);
      }
      if StandsFor(s, data) {
        var n := if |data| < 3 then |data| else 3;
        DecodeExact(s[4..], data[n..]);
        QuadExact(s[..4], |s| == 4, data[..n]);
        assert data[..n] + data[n..] == data;
      }
    }
  }
}
