/** A small line codec that obeys the laws of `Ndjson.Lawful`, so that everything proved
    for lawful codecs speaks of something. It brackets the two fields as JSON does. */
module SampleCodec {
  import opened Ndjson
  import opened Sequences

  /** Characters with a meaning of their own are written as a backslash and a letter. */
  function EscapeChar(ch: char): (r: string)
    ensures '\n' !in r && '{' !in r && '}' !in r && ',' !in r
  {
    if ch == '\\' then ['\\', 'b']
    else if ch == '\n' then ['\\', 'n']
    else if ch == '{' then ['\\', 'o']
    else if ch == '}' then ['\\', 'c']
    else if ch == ',' then ['\\', 'm']
    else [ch]
  }

  function Escape(s: string): (r: string)
    ensures '\n' !in r && '{' !in r && '}' !in r && ',' !in r
  {
    if s == "" then "" else EscapeChar(s[0]) + Escape(s[1..])
  }

  function UnescapeLetter(ch: char): char {
    if ch == 'b' then '\\' else if ch == 'n' then '\n' else if ch == 'o' then '{'
    else if ch == 'c' then '}' else ','
  }

  function Unescape(s: string): string {
    if |s| >= 2 && s[0] == '\\' then [UnescapeLetter(s[1])] + Unescape(s[2..])
    else if s == "" then ""
    else [s[0]] + Unescape(s[1..])
  }

  lemma UnescapeFirst(ch: char, rest: string)
    ensures Unescape(EscapeChar(ch) + rest) == [ch] + Unescape(rest)
  {
    var head := EscapeChar(ch);
    assert (head + rest)[|head|..] == rest;
  }

  lemma {:induction false} UnescapeEscape(s: string)
    ensures Unescape(Escape(s)) == s
  {
    if s != "" {
      UnescapeEscape(s[1..]);
      UnescapeFirst(s[0], Escape(s[1..]));
      assert s == [s[0]] + s[1..];
    }
  }

  function Encode(e: Event): string {
    "{" + Escape(e.id) + "," + Escape(e.body) + "}"
  }

  function Decode(line: string): Parsed {
    if |line| < 2 || line[0] != '{' || line[|line| - 1] != '}' then Malformed
    else
      var inner := line[1..|line| - 1];
      var comma := IndexOf(inner, ',');
      if '{' in inner || '}' in inner || comma == |inner| then Malformed
      else Record(Event(Unescape(inner[..comma]), Unescape(inner[comma + 1..])))
  }

  lemma DecodeEncode(e: Event)
    ensures Decode(Encode(e)) == Record(e)
  {
    var id, body := Escape(e.id), Escape(e.body);
    var inner := id + "," + body;
    assert Encode(e)[1..|Encode(e)| - 1] == inner;
    assert inner[..|id|] == id && inner[|id| + 1..] == body;
    IndexOfFirst(inner, ',', |id|);
    UnescapeEscape(e.id);
    UnescapeEscape(e.body);
  }

  lemma CutIsMalformed(e: Event, k: nat)
    requires k < |Encode(e)|
    ensures Decode(Encode(e)[..k]) == Malformed
  {
    var cut := Encode(e)[..k];
    if k >= 2 {
      assert cut[k - 1] == (Escape(e.id) + "," + Escape(e.body))[k - 2];
    }
  }

  lemma GluedIsMalformed(e: Event, e': Event, k: nat)
    requires 0 < k <= |Encode(e)|
    ensures Decode(Encode(e)[..k] + Encode(e')) == Malformed
  {
    var line := Encode(e)[..k] + Encode(e');
    assert line[k] == '{';
    assert line[1..|line| - 1][k - 1] == '{';
  }

  /** The laws can be met. */
  lemma SampleIsLawful()
    ensures Lawful(Codec(Encode, Decode))
  {
    var c := Codec(Encode, Decode);
    forall e: Event ensures '\n' !in c.encode(e) && !Blank(c.encode(e)) {
      assert Encode(e)[0] == '{' && !IsSpace('{');
    }
    forall e: Event ensures c.decode(c.encode(e)) == Record(e) { DecodeEncode(e); }
    forall e: Event, k: nat | k < |c.encode(e)| ensures c.decode(c.encode(e)[..k]) == Malformed {
      CutIsMalformed(e, k);
    }
    forall e: Event, e': Event, k: nat | 0 < k <= |c.encode(e)|
      ensures c.decode(c.encode(e)[..k] + c.encode(e')) == Malformed
    {
      GluedIsMalformed(e, e', k);
    }
  }
}
