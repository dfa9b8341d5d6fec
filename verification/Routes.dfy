/** The web app's routes as paths: percent-encoding (section 2.1 of RFC 3986) of the
    workspace id, and the tab as its own segment. */
module Routes {
  import opened Options
  import opened Sequences
  import opened Text
  import Utf8

  // ------------------------------------------------------------- percent-encoding

  /** What `encodeURIComponent` leaves alone. */
  predicate Unescaped(ch: char) {
    || 'A' <= ch <= 'Z' || 'a' <= ch <= 'z' || '0' <= ch <= '9'
    || ch in {'-', '_', '.', '!', '~', '*', '\'', '(', ')'}
  }

  function Escape(b: seq<Byte>): (r: string)
    ensures |r| == 3 * |b|
    ensures forall ch | ch in r :: ch == '%' || '0' <= ch <= '9' || 'A' <= ch <= 'F'
  {
    if b == [] then ""
    else
      HexDigitHasValue(b[0] / 16, 'A');
      HexDigitHasValue(b[0] % 16, 'A');
      ['%', HexDigit(b[0] / 16, 'A'), HexDigit(b[0] % 16, 'A')] + Escape(b[1..])
  }

  function EncodeComponent(s: string): (r: string)
    ensures '/' !in r
    ensures r == "" <==> s == ""
  {
    if s == "" then ""
    else (if Unescaped(s[0]) then [s[0]] else Escape(Utf8.EncodeChar(s[0]))) + EncodeComponent(s[1..])
  }

  /** The byte that an escape at the front of the text stands for. */
  function EscapedByte(text: string): Option<Byte> {
    if |text| < 3 || text[0] != '%' || HexValue(text[1]).None? || HexValue(text[2]).None? then None
    else Some(HexValue(text[1]).value * 16 + HexValue(text[2]).value)
  }

  /** The next `n` characters' worth of escapes, all of which must be there. */
  function Unescape(text: string, n: nat): Option<seq<Byte>> {
    if n == 0 then Some([])
    else match EscapedByte(text)
      case None => None
      case Some(b) =>
        match Unescape(text[3..], n - 1)
        case None => None
        case Some(rest) => Some([b] + rest)
  }

  /** The character that the escapes at the front spell, and how many escapes it took. The
      first byte says how many follow; together they must be one character's encoding. */
  function EscapedChar(text: string): (r: Option<(char, nat)>)
    ensures r.Some? ==> 0 < 3 * r.value.1 <= |text|
  {
    match EscapedByte(text)
    case None => None
    case Some(lead) =>
      var n := Utf8.Announced(lead);
      if n == 0 || 3 * n > |text| then None
      else match Unescape(text, n)
        case None => None
        case Some(b) =>
          if b == [] || Utf8.First(b).None? then None else Some((Utf8.First(b).value, n))
  }

  /** `None` is the thrown `URIError`. */
  function DecodeComponent(text: string): Option<string> {
    if text == "" then Some("")
    else if text[0] != '%' then Prepend(text[0], DecodeComponent(text[1..]))
    else match EscapedChar(text)
      case None => None
      case Some((ch, n)) => Prepend(ch, DecodeComponent(text[3 * n..]))
  }

  function Prepend(ch: char, rest: Option<string>): Option<string> {
    if rest.None? then None else Some([ch] + rest.value)
  }

  lemma {:induction false} UnescapeEscape(b: seq<Byte>, rest: string)
    ensures Unescape(Escape(b) + rest, |b|) == Some(b)
  {
    if b != [] {
      FirstEscape(b, rest);
      UnescapeEscape(b[1..], rest);
      assert b == [b[0]] + b[1..];
    }
  }

  lemma FirstEscape(b: seq<Byte>, rest: string)
    requires b != []
    ensures EscapedByte(Escape(b) + rest) == Some(b[0])
    ensures (Escape(b) + rest)[3..] == Escape(b[1..]) + rest
  {
    var hi, lo := b[0] / 16, b[0] % 16;
    HexDigitHasValue(hi, 'A');
    HexDigitHasValue(lo, 'A');
    assert b[0] == hi * 16 + lo;
    var front := ['%', HexDigit(hi, 'A'), HexDigit(lo, 'A')];
    ReadEscape(HexDigit(hi, 'A'), HexDigit(lo, 'A'), Escape(b[1..]) + rest);
    assert Escape(b) == front + Escape(b[1..]);
    Associate(front, Escape(b[1..]), rest);
  }

  lemma ReadEscape(h: char, l: char, rest: string)
    requires HexValue(h).Some? && HexValue(l).Some?
    ensures EscapedByte(['%', h, l] + rest) == Some(HexValue(h).value * 16 + HexValue(l).value)
    ensures (['%', h, l] + rest)[3..] == rest
  {
  }

  lemma EscapedCharOfEscape(ch: char, rest: string)
    ensures var b := Utf8.EncodeChar(ch);
            EscapedChar(Escape(b) + rest) == Some((ch, |b|))
  {
    var b := Utf8.EncodeChar(ch);
    UnescapeEscape(b, rest);
    Utf8.FirstOfEncoding(ch, []);
    assert b + [] == b;
    FirstEscape(b, rest);
  }

  /** Decoding undoes encoding on every string. */
  lemma {:induction false} ComponentRoundTrip(s: string)
    ensures DecodeComponent(EncodeComponent(s)) == Some(s)
  {
    if s != "" {
      ComponentRoundTrip(s[1..]);
      DecodeFirst(s[0], EncodeComponent(s[1..]));
      assert s == [s[0]] + s[1..];
    }
  }

  lemma DecodeFirst(ch: char, rest: string)
    ensures DecodeComponent((if Unescaped(ch) then [ch] else Escape(Utf8.EncodeChar(ch))) + rest)
         == Prepend(ch, DecodeComponent(rest))
  {
    if Unescaped(ch) {
      assert ([ch] + rest)[1..] == rest;
    } else {
      var escaped := Escape(Utf8.EncodeChar(ch));
      EscapedCharOfEscape(ch, rest);
      assert (escaped + rest)[|escaped|..] == rest;
      assert (escaped + rest)[0] == '%';
    }
  }

  /** Escapes are those of the bytes, in capitals. */
  lemma KnownEscapes()
    ensures EncodeComponent("/\U{E9}") == "%2F%C3%A9"
  {
    OneByOne('/', "\U{E9}");
    OneByOne('\U{E9}', "");
    assert [0x2F][1..] == [] && [0xC3, 0xA9][1..] == [0xA9] && [0xA9][1..] == [];
    assert Escape([0xA9]) == "%A9";
  }

  lemma OneByOne(ch: char, rest: string)
    ensures EncodeComponent([ch] + rest)
         == (if Unescaped(ch) then [ch] else Escape(Utf8.EncodeChar(ch))) + EncodeComponent(rest)
  {
    assert ([ch] + rest)[1..] == rest;
  }

  // ------------------------------------------------------------------------ routes

  datatype Tab = Timeline | Tasks | Talk | Decisions | Sources | Connect

  function TabName(tab: Tab): (r: string)
    ensures r != "" && '/' !in r
  {
    match tab
    case Timeline => "timeline"
    case Tasks => "tasks"
    case Talk => "talk"
    case Decisions => "decisions"
    case Sources => "sources"
    case Connect => "connect"
  }

  /** A segment that names no tab, like a missing one, means the timeline. */
  function TabOf(segment: string): Tab {
    if segment == "tasks" then Tasks
    else if segment == "talk" then Talk
    else if segment == "decisions" then Decisions
    else if segment == "sources" then Sources
    else if segment == "connect" then Connect
    else Timeline
  }

  datatype Route = Personal | Workspace(id: Option<string>, tab: Tab)

  const BASE := "/app"
  const PERSONAL := "personal"

  /** The non-empty pieces between slashes. */
  function Segments(path: string): (r: seq<string>)
    ensures forall seg | seg in r :: seg != ""
    decreases |path|
  {
    if path == "" then []
    else if path[0] == '/' then Segments(path[1..])
    else
      var k := IndexOf(path, '/');
      [path[..k]] + Segments(path[k..])
  }

  function AfterBase(path: string): string {
    if BASE <= path then path[|BASE|..] else path
  }

  /** `None` is the `URIError` of a first segment that does not decode. */
  function Parse(path: string): Option<Route> {
    var segs := Segments(AfterBase(path));
    if segs == [] then Some(Workspace(None, Timeline))
    else if segs[0] == PERSONAL then Some(Personal)
    else match DecodeComponent(segs[0])
      case None => None
      case Some(id) => Some(Workspace(Some(id), if |segs| < 2 then Timeline else TabOf(segs[1])))
  }

  function ToPath(r: Route): string {
    match r
    case Personal => BASE + "/" + PERSONAL
    case Workspace(None, _) => BASE
    case Workspace(Some(id), tab) => BASE + "/" + EncodeComponent(id) + "/" + TabName(tab)
  }

  lemma SlashSkipped(path: string)
    ensures Segments("/" + path) == Segments(path)
  {
    assert ("/" + path)[1..] == path;
  }

  lemma SegmentThen(seg: string, rest: string)
    requires seg != "" && '/' !in seg && (rest == "" || rest[0] == '/')
    ensures Segments(seg + rest) == [seg] + Segments(rest)
  {
    var path := seg + rest;
    assert path[0] == seg[0] && seg[0] in seg;
    assert path[..|seg|] == seg && path[|seg|..] == rest;
    if rest == "" {
      assert path == seg && '/' !in path;
      var k := IndexOf(path, '/');
      assert k == |path|;
    } else {
      IndexOfFirst(path, '/', |seg|);
    }
  }

  lemma SegmentAlone(seg: string)
    requires seg != "" && '/' !in seg
    ensures Segments("/" + seg) == [seg]
  {
    SlashSkipped(seg);
    SegmentThen(seg, "");
    assert seg + "" == seg;
  }

  lemma TwoSegments(seg: string, last: string)
    requires seg != "" && '/' !in seg && last != "" && '/' !in last
    ensures Segments("/" + seg + "/" + last) == [seg, last]
  {
    assert "/" + seg + "/" + last == "/" + (seg + ("/" + last));
    SlashSkipped(seg + ("/" + last));
    SegmentThen(seg, "/" + last);
    SegmentAlone(last);
  }

  lemma EmptySegmentSkipped(last: string)
    requires last != "" && '/' !in last
    ensures Segments("/" + "" + "/" + last) == [last]
  {
    SegmentAlone(last);
    assert "/" + "" + "/" + last == "/" + ("/" + last);
    SlashSkipped("/" + last);
  }

  lemma SegmentsOfPath(id: string, tab: Tab)
    ensures var segs := Segments(AfterBase(ToPath(Workspace(Some(id), tab))));
            segs == if id == "" then [TabName(tab)] else [EncodeComponent(id), TabName(tab)]
  {
    var enc, name := EncodeComponent(id), TabName(tab);
    var path := BASE + "/" + enc + "/" + name;
    assert AfterBase(path) == "/" + enc + "/" + name;
    if id == "" {
      EmptySegmentSkipped(name);
    } else {
      TwoSegments(enc, name);
    }
  }

  lemma TabNames(tab: Tab)
    ensures TabOf(TabName(tab)) == tab
    ensures DecodeComponent(TabName(tab)) == Some(TabName(tab))
    ensures TabName(tab) != PERSONAL
  {
    PlainDecodes(TabName(tab));
  }

  lemma {:induction false} PlainDecodes(s: string)
    requires '%' !in s
    ensures DecodeComponent(s) == Some(s)
  {
    if s != "" {
      PlainDecodes(s[1..]);
      assert s == [s[0]] + s[1..];
    }
  }

  lemma ParseFixedPaths()
    ensures Parse(ToPath(Personal)) == Some(Personal)
    ensures Parse(BASE) == Some(Workspace(None, Timeline))
  {
    var path := BASE + "/" + PERSONAL;
    SegmentAlone(PERSONAL);
    assert path == BASE + ("/" + PERSONAL);
    assert path[|BASE|..] == "/" + PERSONAL;
    assert AfterBase(path) == "/" + PERSONAL;
    assert AfterBase(BASE) == "";
  }

  /** Parsing undoes path-making on exactly these routes: the personal view, the default
      view, and a workspace whose id is neither empty nor `personal`, on any tab. */
  lemma RouteRoundTripIff(r: Route)
    ensures Parse(ToPath(r)) == Some(r) <==>
            match r
            case Personal => true
            case Workspace(None, tab) => tab == Timeline
            case Workspace(Some(id), _) => id != "" && id != PERSONAL
  {
    ParseFixedPaths();
    if r.Workspace? && r.id.Some? {
      ParseOfWorkspacePath(r.id.value, r.tab);
    }
  }

  /** What becomes of the others: an empty id takes the tab's name for the id, and the id
      `personal` opens the personal view. */
  lemma ParseOfWorkspacePath(id: string, tab: Tab)
    ensures Parse(ToPath(Workspace(Some(id), tab))) == Some(
              if id == "" then Workspace(Some(TabName(tab)), Timeline)
              else if id == PERSONAL then Personal
              else Workspace(Some(id), tab))
  {
    SegmentsOfPath(id, tab);
    TabNames(tab);
    ComponentRoundTrip(id);
    OnlyPersonalEncodesToPersonal(id);
  }

  lemma OnlyPersonalEncodesToPersonal(id: string)
    ensures EncodeComponent(id) == PERSONAL <==> id == PERSONAL
  {
    if EncodeComponent(id) == PERSONAL {
      ComponentRoundTrip(id);
      PlainDecodes(PERSONAL);
    } else {
      PersonalEncodesToItself();
    }
  }

  lemma PersonalEncodesToItself()
    ensures EncodeComponent(PERSONAL) == PERSONAL
  {
    UnescapedEncodes(PERSONAL);
  }

  lemma {:induction false} UnescapedEncodes(s: string)
    requires forall ch | ch in s :: Unescaped(ch)
    ensures EncodeComponent(s) == s
  {
    if s != "" {
      UnescapedEncodes(s[1..]);
      assert s == [s[0]] + s[1..];
    }
  }

  /** The canonical form that the app replaces a path by. */
  function Canonical(path: string): Option<string> {
    match Parse(path)
    case None => None
    case Some(r) => Some(ToPath(r))
  }

  /** `personal`, but not in plain letters. */
  predicate DisguisedPersonal(path: string) {
    var segs := Segments(AfterBase(path));
    segs != [] && segs[0] != PERSONAL && DecodeComponent(segs[0]) == Some(PERSONAL)
  }

  /** Putting a path in canonical form a second time changes nothing, and opens the same
      view, unless the first segment is `personal` in disguise. */
  lemma CanonicalIsIdempotentIff(path: string)
    requires Parse(path).Some?
    ensures Canonical(Canonical(path).value) == Canonical(path) <==> !DisguisedPersonal(path)
    ensures Parse(Canonical(path).value) == Parse(path) <==> !DisguisedPersonal(path)
  {
    var r := Parse(path).value;
    RouteRoundTripIff(r);
    if r.Workspace? && r.id.Some? {
      var segs := Segments(AfterBase(path));
      assert segs[0] in segs;
      DecodedIsNotEmpty(segs[0]);
      ParseOfWorkspacePath(r.id.value, r.tab);
      PersonalPathsDiffer(r.tab);
    }
  }

  /** The ids that servers mint are never `personal` in disguise: for them one rewriting is
      always enough. */
  lemma MintedIdsAreCanonicalOnce(path: string, id: string, tab: Tab)
    requires Parse(path) == Some(Workspace(Some(id), tab)) && "wsp_" <= id
    ensures Canonical(Canonical(path).value) == Canonical(path)
    ensures Parse(Canonical(path).value) == Parse(path)
  {
    assert id[0] == 'w' && PERSONAL[0] == 'p';
    CanonicalIsIdempotentIff(path);
  }

  lemma DecodedIsNotEmpty(s: string)
    requires s != "" && DecodeComponent(s).Some?
    ensures DecodeComponent(s).value != ""
  {
  }

  lemma PersonalPathsDiffer(tab: Tab)
    ensures ToPath(Workspace(Some(PERSONAL), tab)) != ToPath(Personal)
  {
    PersonalEncodesToItself();
    assert |ToPath(Workspace(Some(PERSONAL), tab))| > |ToPath(Personal)|;
  }

  /** Such paths exist: one escaped letter is enough. */
  lemma EscapedLetterDisguises(tab: Tab)
    ensures DisguisedPersonal("/app/%70ersonal/" + TabName(tab))
  {
    var seg, name := "%70ersonal", TabName(tab);
    var path := "/app/%70ersonal/" + name;
    assert path == BASE + ("/" + seg + "/" + name);
    assert AfterBase(path) == "/" + seg + "/" + name;
    EscapedLetterDecodes(seg);
    TwoSegments(seg, name);
  }

  lemma EscapedLetterDecodes(seg: string)
    requires seg == "%70ersonal"
    ensures DecodeComponent(seg) == Some(PERSONAL) && seg != PERSONAL && '/' !in seg
  {
    var rest := "ersonal";
    EscapedP();
    assert "%70" + rest == seg && seg[3..] == rest;
    EscapedCharOfEscape('p', rest);
    PlainDecodes(rest);
    assert ['p'] + rest == PERSONAL;
  }

  lemma EscapedP()
    ensures Utf8.EncodeChar('p') == [0x70] && Escape([0x70]) == "%70"
  {
    var b: seq<Byte> := [0x70];
    assert b[1..] == [];
    assert HexDigit(7, 'A') == '7' && HexDigit(0, 'A') == '0';
  }
}
