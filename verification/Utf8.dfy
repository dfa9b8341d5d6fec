/** UTF-8 (RFC 3629) over Unicode scalar values: the strict reading that percent-decoding
    uses, and the lenient one that puts U+FFFD where a byte does not belong. */
module Utf8 {
  import opened Options
  import opened Text

  /** The bytes of one character. */
  function EncodeChar(ch: char): (b: seq<Byte>)
    ensures 1 <= |b| <= 4
  {
    var n := ch as int;
    if n < 0x80 then [n]
    else if n < 0x800 then [0xC0 + n / 64, 0x80 + n % 64]
    else if n < 0x1_0000 then [0xE0 + n / 4096, 0x80 + n / 64 % 64, 0x80 + n % 64]
    else [0xF0 + n / 262144, 0x80 + n / 4096 % 64, 0x80 + n / 64 % 64, 0x80 + n % 64]
  }

  function Encode(s: string): seq<Byte> {
    if s == "" then [] else EncodeChar(s[0]) + Encode(s[1..])
  }

  /** The length that a first byte announces; 0 if it cannot be first. */
  function Announced(lead: Byte): (n: nat)
    ensures n <= 4
  {
    if lead < 0x80 then 1
    else if 0xC2 <= lead < 0xE0 then 2
    else if 0xE0 <= lead < 0xF0 then 3
    else if 0xF0 <= lead < 0xF5 then 4
    else 0
  }

  predicate Continues(b: Byte) {
    0x80 <= b < 0xC0
  }

  /** The second byte is what excludes overlong forms, surrogates and values past
      U+10FFFF. */
  predicate SecondFits(lead: Byte, second: Byte) {
    && Continues(second)
    && (lead == 0xE0 ==> second >= 0xA0)
    && (lead == 0xED ==> second < 0xA0)
    && (lead == 0xF0 ==> second >= 0x90)
    && (lead == 0xF4 ==> second < 0x90)
  }

  /** How many bytes at the front belong to the beginning of some character's encoding. */
  function Fitting(b: seq<Byte>): (n: nat)
    requires b != []
    ensures n <= |b| && n <= Announced(b[0])
  {
    var k := Announced(b[0]);
    if k == 0 then 0
    else if k == 1 || |b| == 1 || !SecondFits(b[0], b[1]) then 1
    else if k == 2 || |b| == 2 || !Continues(b[2]) then 2
    else if k == 3 || |b| == 3 || !Continues(b[3]) then 3
    else 4
  }

  /** The number that lead and continuation bytes spell. */
  function Two(a: int, b: int): int {
    (a - 0xC0) * 64 + (b - 0x80)
  }

  function Three(a: int, b: int, c: int): int {
    (a - 0xE0) * 4096 + (b - 0x80) * 64 + (c - 0x80)
  }

  function Four(a: int, b: int, c: int, d: int): int {
    (a - 0xF0) * 262144 + (b - 0x80) * 4096 + (c - 0x80) * 64 + (d - 0x80)
  }

  /** The character at the front, if a whole one is there. */
  function First(b: seq<Byte>): Option<char>
    requires b != []
  {
    var k := Announced(b[0]);
    if k == 0 || Fitting(b) < k then None
    else if k == 1 then Some(b[0] as char)
    else if k == 2 then Some(Two(b[0], b[1]) as char)
    else if k == 3 then Some(Three(b[0], b[1], b[2]) as char)
    else Some(Four(b[0], b[1], b[2], b[3]) as char)
  }

  lemma Digits64(n: nat)
    ensures n / 4096 == n / 64 / 64 && n / 262144 == n / 64 / 64 / 64
    ensures n == n / 64 * 64 + n % 64
    ensures n / 64 == n / 4096 * 64 + n / 64 % 64
    ensures n / 4096 == n / 262144 * 64 + n / 4096 % 64
  {
  }

  lemma Digits64Of(a: int, b: int, c: int, d: int)
    requires 0 <= a && 0 <= b < 64 && 0 <= c < 64 && 0 <= d < 64
    ensures var n := a * 262144 + b * 4096 + c * 64 + d;
            n / 262144 == a && n / 4096 % 64 == b && n / 64 % 64 == c && n % 64 == d
  {
    var n := a * 262144 + b * 4096 + c * 64 + d;
    assert n / 64 == a * 4096 + b * 64 + c;
    assert n / 4096 == a * 64 + b;
  }

  lemma FirstOfEncoding(ch: char, rest: seq<Byte>)
    ensures var b := EncodeChar(ch) + rest;
            First(b) == Some(ch) && Announced(b[0]) == |EncodeChar(ch)|
  {
    var n := ch as int;
    var b := EncodeChar(ch) + rest;
    Digits64(n);
    if n < 0x80 {
    } else if n < 0x800 {
      assert b[0] == 0xC0 + n / 64 && b[1] == 0x80 + n % 64;
      assert Two(b[0], b[1]) == n;
    } else if n < 0x1_0000 {
      assert b[0] == 0xE0 + n / 4096 && b[1] == 0x80 + n / 64 % 64 && b[2] == 0x80 + n % 64;
      assert Three(b[0], b[1], b[2]) == n;
    } else {
      assert b[0] == 0xF0 + n / 262144 && b[1] == 0x80 + n / 4096 % 64;
      assert b[2] == 0x80 + n / 64 % 64 && b[3] == 0x80 + n % 64;
      assert Four(b[0], b[1], b[2], b[3]) == n;
    }
  }

  lemma EncodingOfFirst(b: seq<Byte>)
    requires b != [] && First(b).Some?
    ensures EncodeChar(First(b).value) == b[..Announced(b[0])]
  {
    var k := Announced(b[0]);
    if k == 2 {
      Digits64Of(0, 0, b[0] - 0xC0, b[1] - 0x80);
      assert Two(b[0], b[1]) / 64 == b[0] - 0xC0;
    } else if k == 3 {
      Digits64Of(0, b[0] - 0xE0, b[1] - 0x80, b[2] - 0x80);
      assert Three(b[0], b[1], b[2]) / 4096 == b[0] - 0xE0;
    } else if k == 4 {
      Digits64Of(b[0] - 0xF0, b[1] - 0x80, b[2] - 0x80, b[3] - 0x80);
    }
  }

  const REPLACEMENT: char := '\U{FFFD}'

  /** Strict: `None` on the first byte that does not belong. */
  function Decode(b: seq<Byte>): Option<string> {
    if b == [] then Some("")
    else match First(b)
      case None => None
      case Some(ch) =>
        match Decode(b[Announced(b[0])..])
        case None => None
        case Some(rest) => Some([ch] + rest)
  }

  /** Lenient: each longest beginning of a character that goes no further, and each byte
      that begins none, becomes one replacement character. */
  function Lenient(b: seq<Byte>): string {
    if b == [] then ""
    else match First(b)
      case Some(ch) => [ch] + Lenient(b[Announced(b[0])..])
      case None => [REPLACEMENT] + Lenient(b[if Fitting(b) == 0 then 1 else Fitting(b)..])
  }

  /** Strict decoding accepts exactly the encodings, and undoes them. */
  lemma {:induction false} DecodeEncode(s: string)
    ensures Decode(Encode(s)) == Some(s)
  {
    if s != "" {
      var b, k := Encode(s), |EncodeChar(s[0])|;
      FirstOfEncoding(s[0], Encode(s[1..]));
      assert b[k..] == Encode(s[1..]);
      DecodeEncode(s[1..]);
      assert s == [s[0]] + s[1..];
    }
  }

  lemma {:induction false} EncodeDecode(b: seq<Byte>)
    requires Decode(b).Some?
    ensures Encode(Decode(b).value) == b
    decreases |b|
  {
    if b != [] {
      var k := Announced(b[0]);
      EncodingOfFirst(b);
      EncodeDecode(b[k..]);
      var rest := Decode(b[k..]).value;
      assert ([First(b).value] + rest)[1..] == rest;
      assert b == b[..k] + b[k..];
    }
  }

  /** The two readings agree wherever the strict one accepts. */
  lemma {:induction false} LenientEncode(s: string)
    ensures Lenient(Encode(s)) == s
  {
    if s != "" {
      var b, k := Encode(s), |EncodeChar(s[0])|;
      FirstOfEncoding(s[0], Encode(s[1..]));
      assert b[k..] == Encode(s[1..]);
      LenientEncode(s[1..]);
    }
  }

  /** Examples of section 7 of RFC 3629. */
  lemma KnownEncodings()
    ensures Encode("A\U{2262}\U{0391}.") == [0x41, 0xE2, 0x89, 0xA2, 0xCE, 0x91, 0x2E]
    ensures Encode("\U{233B4}") == [0xF0, 0xA3, 0x8E, 0xB4]
  {
    OneByOne('A', "\U{2262}\U{0391}.");
    OneByOne('\U{2262}', "\U{0391}.");
    OneByOne('\U{0391}', ".");
    OneByOne('.', "");
    OneByOne('\U{233B4}', "");
  }

  /** How many replacements a malformed text gets (table 3-8 of the Unicode standard): one for
      each longest beginning of a character, and one for each byte that begins none. */
  lemma KnownReplacements()
    ensures Lenient([0xF1, 0x80, 0x80, 0x62]) == [REPLACEMENT, 'b']
    ensures Lenient([0x80, 0xBF]) == [REPLACEMENT, REPLACEMENT]
  {
    assert [0xF1, 0x80, 0x80, 0x62][3..] == [0x62] && [0x62][1..] == [];
    assert [0x80, 0xBF][1..] == [0xBF] && [0xBF][1..] == [];
    assert Lenient([0x62]) == "b";
    assert Lenient([0xBF]) == [REPLACEMENT];
  }

  lemma OneByOne(ch: char, rest: string)
    ensures Encode([ch] + rest) == EncodeChar(ch) + Encode(rest)
  {
    assert ([ch] + rest)[1..] == rest;
  }

  lemma EncodeInjective(a: string, b: string)
    requires Encode(a) == Encode(b)
    ensures a == b
  {
    DecodeEncode(a);
    DecodeEncode(b);
  }

  lemma {:induction false} EncodeLength(s: string)
    ensures |Encode(s)| >= |s|
  {
    if s != "" {
      EncodeLength(s[1..]);
    }
  }
}
