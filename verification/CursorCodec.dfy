/** The opaque page cursor: unpadded base64url (section 5 of RFC 4648) over the UTF-8 text
    `at|id`. */
module CursorCodec {
  import opened Options
  import opened Sequences
  import opened Text
  import opened Ordering
  import opened Timeline
  import Utf8

  /** The URL- and filename-safe alphabet. */
  function Letter(n: nat): (ch: char)
    requires n < 64
  {
    if n < 26 then 'A' + n as char
    else if n < 52 then 'a' + (n - 26) as char
    else if n < 62 then '0' + (n - 52) as char
    else if n == 62 then '-'
    else '_'
  }

  /** The decoder also reads the standard alphabet. */
  function Sextet(ch: char): (n: Option<nat>)
    ensures n.Some? ==> n.value < 64
  {
    if 'A' <= ch <= 'Z' then Some(ch as int - 'A' as int)
    else if 'a' <= ch <= 'z' then Some(ch as int - 'a' as int + 26)
    else if '0' <= ch <= '9' then Some(ch as int - '0' as int + 52)
    else if ch == '-' || ch == '+' then Some(62)
    else if ch == '_' || ch == '/' then Some(63)
    else None
  }

  type Six = n: int | 0 <= n < 64

  /** A group of 24 bits as three bytes and as four sextets. */
  function OfBytes(a: int, b: int, c: int): int {
    a * 65536 + b * 256 + c
  }

  function Bytes(v: nat): (r: seq<Byte>)
    requires v < 0x100_0000
    ensures |r| == 3
  {
    [v / 65536, v / 256 % 256, v % 256]
  }

  function OfSextets(w: int, x: int, y: int, z: int): int {
    w * 262144 + x * 4096 + y * 64 + z
  }

  function Sextets(v: nat): (r: seq<Six>)
    requires v < 0x100_0000
    ensures |r| == 4
  {
    [v / 262144, v / 4096 % 64, v / 64 % 64, v % 64]
  }

  /** One or two bytes left over fill their group with zero bits and need two or three
      sextets of it. */
  function ToSextets(b: seq<Byte>): seq<Six> {
    if b == [] then []
    else if |b| == 1 then Sextets(OfBytes(b[0], 0, 0))[..2]
    else if |b| == 2 then Sextets(OfBytes(b[0], b[1], 0))[..3]
    else Sextets(OfBytes(b[0], b[1], b[2])) + ToSextets(b[3..])
  }

  /** A single sextet left over makes no byte. */
  function FromSextets(s: seq<Six>): seq<Byte> {
    if |s| < 2 then []
    else if |s| == 2 then Bytes(OfSextets(s[0], s[1], 0, 0))[..1]
    else if |s| == 3 then Bytes(OfSextets(s[0], s[1], s[2], 0))[..2]
    else Bytes(OfSextets(s[0], s[1], s[2], s[3])) + FromSextets(s[4..])
  }

  function Spell(s: seq<Six>): string {
    if s == [] then "" else [Letter(s[0])] + Spell(s[1..])
  }

  /** Characters outside both alphabets are skipped. */
  function Read(text: string): seq<Six> {
    if text == "" then []
    else match Sextet(text[0])
      case None => Read(text[1..])
      case Some(n) => [n] + Read(text[1..])
  }

  function Encode64(b: seq<Byte>): string {
    Spell(ToSextets(b))
  }

  function Decode64(text: string): seq<Byte> {
    FromSextets(Read(text))
  }

  lemma {:induction false} ReadSpell(s: seq<Six>)
    ensures Read(Spell(s)) == s
  {
    if s != [] {
      ReadSpell(s[1..]);
      assert Spell(s)[1..] == Spell(s[1..]);
      assert Sextet(Letter(s[0])) == Some(s[0]);
    }
  }

  lemma Div256(q: nat, r: nat)
    requires r < 256
    ensures (q * 256 + r) / 256 == q && (q * 256 + r) % 256 == r
  {
  }

  lemma Div64(q: nat)
    ensures q * 64 / 64 == q && q * 64 % 64 == 0
  {
  }

  lemma BytesOfGroup(a: Byte, b: Byte, c: Byte)
    ensures 0 <= OfBytes(a, b, c) < 0x100_0000
    ensures Bytes(OfBytes(a, b, c)) == [a, b, c]
  {
    var v, high := OfBytes(a, b, c), a * 256 + b;
    Div256(high, c);
    Div256(a, b);
    assert v == high * 256 + c;
    Div65536(v);
  }

  lemma Div65536(v: nat)
    ensures v / 65536 == v / 256 / 256
  {
  }

  lemma GroupOfSextets(v: nat)
    requires v < 0x100_0000
    ensures var s := Sextets(v);
            OfSextets(s[0], s[1], s[2], s[3]) == v
  {
    assert v / 64 / 64 == v / 4096 && v / 4096 / 64 == v / 262144;
  }

  lemma LeftOver(a: Byte, b: Byte)
    ensures Sextets(OfBytes(a, 0, 0))[2] == 0 && Sextets(OfBytes(a, 0, 0))[3] == 0
    ensures Sextets(OfBytes(a, b, 0))[3] == 0
  {
    var two, one := a * 1024 + b * 4, a * 16;
    assert OfBytes(a, b, 0) == two * 64;
    Div64(two);
    assert OfBytes(a, 0, 0) == one * 64 * 64;
    Div64(one * 64);
    Div64(one);
  }

  lemma {:induction false} FromToSextets(b: seq<Byte>)
    ensures FromSextets(ToSextets(b)) == b
    decreases |b|
  {
    if |b| == 1 {
      LeftOver(b[0], 0);
      GroupOfSextets(OfBytes(b[0], 0, 0));
      BytesOfGroup(b[0], 0, 0);
    } else if |b| == 2 {
      LeftOver(b[0], b[1]);
      GroupOfSextets(OfBytes(b[0], b[1], 0));
      BytesOfGroup(b[0], b[1], 0);
    } else if |b| >= 3 {
      FromToSextets(b[3..]);
      FirstGroup(OfBytes(b[0], b[1], b[2]), ToSextets(b[3..]));
      BytesOfGroup(b[0], b[1], b[2]);
      assert b == [b[0], b[1], b[2]] + b[3..];
    }
  }

  lemma FirstGroup(v: nat, rest: seq<Six>)
    requires v < 0x100_0000
    ensures FromSextets(Sextets(v) + rest) == Bytes(v) + FromSextets(rest)
  {
    GroupOfSextets(v);
    assert (Sextets(v) + rest)[4..] == rest;
  }

  /** Decoding undoes encoding on every byte string. */
  lemma Base64UrlRoundTrip(b: seq<Byte>)
    ensures Decode64(Encode64(b)) == b
  {
    ReadSpell(ToSextets(b));
    FromToSextets(b);
  }

  /** The URL-safe alphabet of section 5 of RFC 4648: capitals, small letters, digits, dash and
      underscore, each in its usual order. */
  lemma Alphabet(n: Six)
    ensures n < 26 ==> Letter(n) == "ABCDEFGHIJKLMNOPQRSTUVWXYZ"[n]
    ensures 26 <= n < 52 ==> Letter(n) == "abcdefghijklmnopqrstuvwxyz"[n - 26]
    ensures 52 <= n < 62 ==> Letter(n) == "0123456789"[n - 52]
    ensures n >= 62 ==> Letter(n) == "-_"[n - 62]
  {
  }

  /** The test vectors of section 10 of RFC 4648, without their padding. */
  lemma KnownEncodings()
    ensures Encode64([0x66]) == "Zg"
    ensures Encode64([0x66, 0x6F]) == "Zm8"
    ensures Encode64([0x66, 0x6F, 0x6F]) == "Zm9v"
  {
    KnownSextets();
    SpellFour(25, 32, 0, 0);
    SpellFour(25, 38, 60, 0);
    SpellFour(25, 38, 61, 47);
  }

  lemma KnownSextets()
    ensures ToSextets([0x66]) == [25, 32]
    ensures ToSextets([0x66, 0x6F]) == [25, 38, 60]
    ensures ToSextets([0x66, 0x6F, 0x6F]) == [25, 38, 61, 47]
  {
    assert [0x66, 0x6F, 0x6F][3..] == [];
  }

  lemma SpellFour(w: Six, x: Six, y: Six, z: Six)
    ensures Spell([w, x]) == [Letter(w), Letter(x)]
    ensures Spell([w, x, y]) == [Letter(w), Letter(x), Letter(y)]
    ensures Spell([w, x, y, z]) == [Letter(w), Letter(x), Letter(y), Letter(z)]
  {
    SpellTwo(w, x);
    SpellTwo(x, y);
    SpellTwo(y, z);
    SpellCons(w, [x, y]);
    SpellCons(x, [y, z]);
    SpellCons(w, [x, y, z]);
    assert [w] + [x, y] == [w, x, y] && [x] + [y, z] == [x, y, z] && [w] + [x, y, z] == [w, x, y, z];
  }

  lemma SpellTwo(w: Six, x: Six)
    ensures Spell([w, x]) == [Letter(w), Letter(x)]
  {
    SpellCons(x, []);
    SpellCons(w, [x]);
    assert [w] + [x] == [w, x] && [x] + [] == [x];
  }

  lemma SpellCons(n: Six, s: seq<Six>)
    ensures Spell([n] + s) == [Letter(n)] + Spell(s)
  {
    assert ([n] + s)[1..] == s;
  }

  function EncodeCursor(key: Key): string {
    Encode64(Utf8.Encode(key.at + "|" + key.id))
  }

  /** `None` is the malformed-cursor error. */
  function DecodeCursor(raw: string): Option<Key> {
    var decoded := Utf8.Lenient(Decode64(raw));
    var sep := IndexOf(decoded, '|');
    if sep == |decoded| || sep == 0 || sep == |decoded| - 1 then None
    else Some(Key(decoded[..sep], decoded[sep + 1..]))
  }

  /** A cursor survives the wire exactly when both parts are there and the separator is not
      in the first. The id may contain it. */
  lemma CursorRoundTripIff(key: Key)
    ensures DecodeCursor(EncodeCursor(key)) == Some(key)
            <==> key.at != "" && '|' !in key.at && key.id != ""
  {
    var text := key.at + "|" + key.id;
    Base64UrlRoundTrip(Utf8.Encode(text));
    Utf8.LenientEncode(text);
    var sep := IndexOf(text, '|');
    assert text[|key.at|] == '|';
    if '|' !in key.at {
      assert text[..|key.at|] == key.at;
      IndexOfFirst(text, '|', |key.at|);
      assert text[|key.at| + 1..] == key.id;
    }
  }

  /** Whatever the client sends, an accepted cursor is one that survives the wire. */
  lemma AcceptedCursorsRoundTrip(raw: string)
    requires DecodeCursor(raw).Some?
    ensures DecodeCursor(EncodeCursor(DecodeCursor(raw).value)) == DecodeCursor(raw)
  {
    CursorRoundTripIff(DecodeCursor(raw).value);
  }

  /** What timestamps and ids look like: neither is empty, and no timestamp has a `|`. */
  predicate ClearKeys(items: seq<Item>) {
    forall x | x in items :: x.at != "" && '|' !in x.at && x.id != ""
  }

  /** On such items, following the opaque cursors is following the keys they stand for: each
      page's cursor comes back as the key it was made from. */
  lemma {:induction false} PageCursorsSurviveTheWire(all: seq<Item>, limit: nat, before: Option<Key>)
    requires limit >= 1 && Ascending(all) && ClearKeys(all)
    ensures forall page | page in Pages(all, limit, before) && page.nextCursor.Some? ::
              DecodeCursor(EncodeCursor(page.nextCursor.value)) == page.nextCursor
    decreases |Pool(all, before)|
  {
    var page := PageOf(Pool(all, before), limit);
    if page.nextCursor.Some? {
      NextCursorIsAKey(all, limit, before);
      CursorRoundTripIff(page.nextCursor.value);
      NextPoolIsShorter(all, limit, before);
      PageCursorsSurviveTheWire(all, limit, page.nextCursor);
    }
  }

  lemma NextCursorIsAKey(all: seq<Item>, limit: nat, before: Option<Key>)
    requires limit >= 1 && PageOf(Pool(all, before), limit).nextCursor.Some?
    ensures exists x :: x in all && PageOf(Pool(all, before), limit).nextCursor == Some(KeyOf(x))
  {
    var pool := Pool(all, before);
    var x := pool[|pool| - limit];
    if before.Some? {
      OlderThanMembers(all, before.value);
    }
    assert x in pool && x in all;
  }
}
