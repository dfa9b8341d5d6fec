/** The local store id of a workspace's lane: its own suffix when that is already lowercase,
    the hexadecimal of the whole id otherwise. */
module LaneId {
  import opened Options
  import opened Text
  import Utf8

  const WORKSPACE := "wsp_"
  const LANE := "proj_hub_"

  predicate LowerAlnum(ch: char) {
    'a' <= ch <= 'z' || '0' <= ch <= '9'
  }

  /** `[a-z0-9]+(?:_[a-z0-9]+)*`, the whole string; `inWord` says that the character before
      was a letter or a digit. */
  predicate Words(s: string, inWord: bool) {
    if s == "" then inWord
    else if LowerAlnum(s[0]) then Words(s[1..], true)
    else s[0] == '_' && inWord && Words(s[1..], false)
  }

  function Hex(b: seq<Byte>): string {
    if b == [] then "" else [HexDigit(b[0] / 16, 'a'), HexDigit(b[0] % 16, 'a')] + Hex(b[1..])
  }

  function HexOf(id: string): string {
    Hex(Utf8.Encode(id))
  }

  /** `None` is the error for an id that no server minted for a workspace. */
  function ServerStoreId(id: string): Option<string> {
    if !(WORKSPACE <= id) then None
    else
      var suffix := id[|WORKSPACE|..];
      if Words(suffix, false) then Some(LANE + suffix) else Some(LANE + HexOf(id))
  }

  /** The pattern read in one glance: lowercase letters, digits and single underscores
      between them. */
  lemma {:induction false} WordsIff(s: string, inWord: bool)
    ensures Words(s, inWord) <==>
            && (forall ch | ch in s :: LowerAlnum(ch) || ch == '_')
            && (s == "" ==> inWord)
            && (s != "" ==> s[|s| - 1] != '_' && (s[0] == '_' ==> inWord))
            && (forall i | 0 <= i < |s| - 1 :: !(s[i] == '_' && s[i + 1] == '_'))
  {
    if s != "" {
      var rest := s[1..];
      WordsIff(rest, LowerAlnum(s[0]));
      assert forall ch | ch in s :: ch == s[0] || ch in rest;
      assert forall ch | ch in rest :: ch in s;
      assert s[0] in s;
      assert forall i | 0 <= i < |rest| :: rest[i] == s[i + 1];
      assert (forall i | 0 <= i < |s| - 1 :: !(s[i] == '_' && s[i + 1] == '_'))
        <==> (rest != "" ==> !(s[0] == '_' && rest[0] == '_'))
             && (forall i | 0 <= i < |rest| - 1 :: !(rest[i] == '_' && rest[i + 1] == '_')) by {
        NoDouble(s);
      }
    }
  }

  lemma NoDouble(s: string)
    requires s != ""
    ensures (forall i | 0 <= i < |s| - 1 :: !(s[i] == '_' && s[i + 1] == '_'))
        <==> (s[1..] != "" ==> !(s[0] == '_' && s[1] == '_'))
             && (forall i | 0 <= i < |s[1..]| - 1 :: !(s[1..][i] == '_' && s[1..][i + 1] == '_'))
  {
    if forall i | 0 <= i < |s[1..]| - 1 :: !(s[1..][i] == '_' && s[1..][i + 1] == '_') {
      forall i | 1 <= i < |s| - 1 ensures !(s[i] == '_' && s[i + 1] == '_') {
        assert s[1..][i - 1] == s[i] && s[1..][i] == s[i + 1];
      }
    }
  }

  lemma {:induction false} HexIsWord(b: seq<Byte>, inWord: bool)
    requires b != [] || inWord
    ensures Words(Hex(b), inWord)
  {
    if b != [] {
      var h, l := HexDigit(b[0] / 16, 'a'), HexDigit(b[0] % 16, 'a');
      HexDigitHasValue(b[0] / 16, 'a');
      HexDigitHasValue(b[0] % 16, 'a');
      HexIsWord(b[1..], true);
      TwoMore(h, l, Hex(b[1..]), inWord);
    }
  }

  lemma TwoMore(h: char, l: char, rest: string, inWord: bool)
    requires LowerAlnum(h) && LowerAlnum(l) && Words(rest, true)
    ensures Words([h, l] + rest, inWord)
  {
    assert ([h, l] + rest)[1..] == [l] + rest;
    assert ([l] + rest)[1..] == rest;
    assert Words([l] + rest, true);
  }

  lemma {:induction false} HexInjective(a: seq<Byte>, b: seq<Byte>)
    requires Hex(a) == Hex(b)
    ensures a == b
  {
    HexLength(a);
    HexLength(b);
    if a != [] && b != [] {
      assert Hex(a)[2..] == Hex(a[1..]) && Hex(b)[2..] == Hex(b[1..]);
      HexInjective(a[1..], b[1..]);
      FirstDigits(a, b);
      assert a == [a[0]] + a[1..] && b == [b[0]] + b[1..];
    }
  }

  lemma FirstDigits(a: seq<Byte>, b: seq<Byte>)
    requires a != [] && b != [] && Hex(a) == Hex(b)
    ensures a[0] == b[0]
  {
    HexDigitHasValue(a[0] / 16, 'a');
    HexDigitHasValue(a[0] % 16, 'a');
    HexDigitHasValue(b[0] / 16, 'a');
    HexDigitHasValue(b[0] % 16, 'a');
    assert Hex(a)[0] == HexDigit(a[0] / 16, 'a') && Hex(a)[1] == HexDigit(a[0] % 16, 'a');
    assert Hex(b)[0] == HexDigit(b[0] / 16, 'a') && Hex(b)[1] == HexDigit(b[0] % 16, 'a');
  }

  lemma {:induction false} HexLength(b: seq<Byte>)
    ensures |Hex(b)| == 2 * |b|
  {
    if b != [] {
      HexLength(b[1..]);
    }
  }

  lemma HexOfInjective(a: string, b: string)
    requires HexOf(a) == HexOf(b)
    ensures a == b
  {
    HexInjective(Utf8.Encode(a), Utf8.Encode(b));
    Utf8.EncodeInjective(a, b);
  }

  lemma {:induction false} WordsAfter(a: string, b: string, inWord: bool)
    requires Words(a, inWord) && Words(b, false)
    ensures Words(a + "_" + b, inWord)
  {
    var all := a + "_" + b;
    if a == "" {
      assert all[1..] == b;
    } else {
      assert all[1..] == a[1..] + "_" + b;
      WordsAfter(a[1..], b, LowerAlnum(a[0]));
    }
  }

  /** Every lane id is one that the embedded engine accepts: it matches the lowercase pattern
      as a whole. */
  lemma LaneIsLowercase(id: string)
    requires WORKSPACE <= id
    ensures ServerStoreId(id).Some?
    ensures Words(ServerStoreId(id).value, false)
    ensures forall ch | ch in ServerStoreId(id).value :: LowerAlnum(ch) || ch == '_'
  {
    var suffix := id[|WORKSPACE|..];
    var tail := if Words(suffix, false) then suffix else HexOf(id);
    Utf8.EncodeLength(id);
    HexIsWord(Utf8.Encode(id), false);
    LaneOfWords(tail);
    WordsIff(LANE + tail, false);
  }

  lemma LaneOfWords(tail: string)
    requires Words(tail, false)
    ensures Words(LANE + tail, false)
  {
    WordsIff("proj_hub", false);
    WordsAfter("proj_hub", tail, false);
    assert LANE + tail == "proj_hub" + "_" + tail;
  }

  /** `shadow` is a plain lowercase id that spells out the hexadecimal of `id`, which is not
      plain. */
  predicate Shadows(shadow: string, id: string) {
    && WORKSPACE <= id && !Words(id[|WORKSPACE|..], false)
    && shadow == WORKSPACE + HexOf(id)
  }

  /** Two workspaces share a lane only if they are one, or one shadows the other. */
  lemma LanesCollideIff(a: string, b: string)
    requires WORKSPACE <= a && WORKSPACE <= b
    ensures ServerStoreId(a) == ServerStoreId(b) <==> a == b || Shadows(a, b) || Shadows(b, a)
  {
    var n := |WORKSPACE|;
    var pa, pb := Words(a[n..], false), Words(b[n..], false);
    assert a == WORKSPACE + a[n..] && b == WORKSPACE + b[n..];
    HexSuffixIsPlain(a);
    HexSuffixIsPlain(b);
    if pa && pb {
      SameTail(a[n..], b[n..]);
    } else if pa {
      SameTail(a[n..], HexOf(b));
    } else if pb {
      SameTail(HexOf(a), b[n..]);
    } else {
      SameTail(HexOf(a), HexOf(b));
      if HexOf(a) == HexOf(b) {
        HexOfInjective(a, b);
      }
    }
  }

  lemma SameTail(x: string, y: string)
    ensures LANE + x == LANE + y <==> x == y
  {
    assert (LANE + x)[|LANE|..] == x && (LANE + y)[|LANE|..] == y;
  }

  lemma HexSuffixIsPlain(id: string)
    requires id != ""
    ensures (WORKSPACE + HexOf(id))[|WORKSPACE|..] == HexOf(id)
    ensures Words(HexOf(id), false)
    ensures |HexOf(id)| >= 2 * |id|
  {
    Utf8.EncodeLength(id);
    HexIsWord(Utf8.Encode(id), false);
    HexLength(Utf8.Encode(id));
  }

  /** A plain suffix is kept as it is; any other id is spelled out, two digits for each byte of
      it, the high one first. */
  lemma LaneSpellsTheId(id: string, k: nat)
    requires "wsp_" <= id && k < |Utf8.Encode(id)|
    ensures Words(id[4..], false) ==> ServerStoreId(id) == Some("proj_hub_" + id[4..])
    ensures !Words(id[4..], false) ==>
              var lane, b := ServerStoreId(id).value, Utf8.Encode(id);
              && |lane| == 9 + 2 * |b| && lane[..9] == "proj_hub_"
              && lane[9 + 2 * k] == "0123456789abcdef"[b[k] / 16]
              && lane[9 + 2 * k + 1] == "0123456789abcdef"[b[k] % 16]
  {
    HexLength(Utf8.Encode(id));
    HexAt(Utf8.Encode(id), k);
  }

  lemma {:induction false} HexAt(b: seq<Byte>, k: nat)
    requires k < |b|
    ensures |Hex(b)| == 2 * |b|
    ensures Hex(b)[2 * k] == "0123456789abcdef"[b[k] / 16] && Hex(b)[2 * k + 1] == "0123456789abcdef"[b[k] % 16]
  {
    HexLength(b);
    if k == 0 {
      HexDigitHasValue(b[0] / 16, 'a');
      HexDigitHasValue(b[0] % 16, 'a');
    } else {
      HexAt(b[1..], k - 1);
      assert Hex(b)[2..] == Hex(b[1..]);
    }
  }

  /** Ids of one length, which all minted ids are, never share a lane. */
  lemma LanesOfOneLengthDiffer(a: string, b: string)
    requires WORKSPACE <= a && WORKSPACE <= b && |a| == |b|
    ensures ServerStoreId(a) == ServerStoreId(b) <==> a == b
  {
    LanesCollideIff(a, b);
    HexSuffixIsPlain(a);
    HexSuffixIsPlain(b);
  }

  /** Without that condition, every id that is not plain has another that shares its lane. */
  lemma EveryMixedIdHasAShadow(id: string)
    requires WORKSPACE <= id && !Words(id[|WORKSPACE|..], false)
    ensures var shadow := WORKSPACE + HexOf(id);
            shadow != id && ServerStoreId(shadow) == ServerStoreId(id)
  {
    HexSuffixIsPlain(id);
    LanesCollideIff(WORKSPACE + HexOf(id), id);
  }
}
