/** The ndjson file of one project as the relay reads it back: lines, the line codec,
    and the index that hydration builds from a file. */
module Ndjson {

  /** An event is opaque to the relay except for its id. */
  datatype Event = Event(id: string, body: string)

  /** What parsing one line can yield. `NullValue` is the JSON text `null`, on which
      reading the id throws; `NoStringId` is any other value without a string id. */
  datatype Parsed = Malformed | NullValue | NoStringId | Record(event: Event)

  datatype Codec = Codec(encode: Event -> string, decode: string -> Parsed)

  /** The laws of JSON text that the log relies on: an encoding is one non-blank line
      that parses back, and neither a cut encoding nor a cut encoding with another
      encoding glued to it parses. */
  ghost predicate Lawful(c: Codec) {
    && (forall e: Event :: '\n' !in c.encode(e) && !Blank(c.encode(e)))
    && (forall e: Event :: c.decode(c.encode(e)) == Record(e))
    && (forall e: Event, k: nat | k < |c.encode(e)| :: c.decode(c.encode(e)[..k]) == Malformed)
    && (forall e: Event, e': Event, k: nat | 0 < k <= |c.encode(e)| ::
          c.decode(c.encode(e)[..k] + c.encode(e')) == Malformed)
  }

  /** The code points that `trim` removes. */
  predicate IsSpace(ch: char) {
    var n := ch as int;
    || 0x9 <= n <= 0xD || n == 0x20 || n == 0xA0 || n == 0x1680
    || 0x2000 <= n <= 0x200A || n == 0x2028 || n == 0x2029
    || n == 0x202F || n == 0x205F || n == 0x3000 || n == 0xFEFF
  }

  predicate Blank(line: string) {
    forall ch | ch in line :: IsSpace(ch)
  }

  /** Putting one more character in front of an already split text. */
  function Glue(ch: char, lines: seq<string>): seq<string>
    requires |lines| > 0
  {
    if ch == '\n' then [""] + lines else [[ch] + lines[0]] + lines[1..]
  }

  /** `raw.split('\n')`: always at least one piece. */
  function Split(raw: string): (lines: seq<string>)
    ensures |lines| > 0
  {
    if raw == "" then [""] else Glue(raw[0], Split(raw[1..]))
  }

  /** Splitting undone: the pieces joined with newlines between them. */
  function Join(lines: seq<string>): string
    requires |lines| > 0
  {
    if |lines| == 1 then lines[0] else lines[0] + "\n" + Join(lines[1..])
  }

  /** `Split` is the one way to cut a text at its newlines. */
  lemma {:induction false} SplitIsInverseOfJoin(raw: string)
    ensures Join(Split(raw)) == raw
    ensures forall line | line in Split(raw) :: '\n' !in line
  {
    if raw != "" {
      SplitIsInverseOfJoin(raw[1..]);
      assert raw == [raw[0]] + raw[1..];
      assert Split(raw)[1..] == if raw[0] == '\n' then Split(raw[1..]) else Split(raw[1..])[1..];
    }
  }

  lemma {:induction false} SplitNoNewline(line: string)
    requires '\n' !in line
    ensures Split(line) == [line]
  {
    if line != "" {
      SplitNoNewline(line[1..]);
      assert line == [line[0]] + line[1..];
    }
  }

  lemma {:induction false} SplitConcat(a: string, b: string)
    ensures Split(a + "\n" + b) == Split(a) + Split(b)
  {
    if a == "" {
      assert (a + "\n" + b)[1..] == b;
    } else {
      SplitConcat(a[1..], b);
      SplitCons(a[0], a[1..] + "\n" + b);
      SplitCons(a[0], a[1..]);
      assert a == [a[0]] + a[1..];
      assert a + "\n" + b == [a[0]] + (a[1..] + "\n" + b);
      GlueConcat(a[0], Split(a[1..]), Split(b));
    }
  }

  lemma SplitCons(ch: char, raw: string)
    ensures Split([ch] + raw) == Glue(ch, Split(raw))
  {
    assert ([ch] + raw)[1..] == raw;
  }

  lemma GlueConcat(ch: char, a: seq<string>, b: seq<string>)
    requires |a| > 0
    ensures Glue(ch, a + b) == Glue(ch, a) + b
  {
  }

  /** The unfinished last line of a file: empty exactly when the file is empty or
      ends in a newline. */
  function Tail(file: string): string {
    var lines := Split(file);
    lines[|lines| - 1]
  }

  predicate Terminated(file: string) {
    file == "" || file[|file| - 1] == '\n'
  }

  function Stable(file: string): string {
    if file == "" then ""
    else if file[|file| - 1] == '\n' then file
    else Stable(file[..|file| - 1])
  }

  /** A file is its terminated part followed by its tail. */
  lemma {:induction false} StableThenTail(file: string)
    ensures Terminated(Stable(file))
    ensures file == Stable(file) + Tail(file)
    ensures '\n' !in Tail(file)
    ensures Tail(file) == "" <==> Terminated(file)
  {
    if file == "" {
    } else if file[|file| - 1] == '\n' {
      var a := file[..|file| - 1];
      assert file == a + "\n" + "";
      SplitConcat(a, "");
    } else {
      var a, last := file[..|file| - 1], file[|file| - 1];
      StableThenTail(a);
      TailExtend(Stable(a), Tail(a));
      assert file == Stable(a) + (Tail(a) + [last]);
      TailExtend(Stable(a), Tail(a) + [last]);
    }
  }

  lemma TailExtend(base: string, t: string)
    requires Terminated(base) && '\n' !in t
    ensures Tail(base + t) == t
  {
    SplitNoNewline(t);
    if base == "" {
      assert base + t == t;
    } else {
      var a := base[..|base| - 1];
      assert base + t == a + "\n" + t;
      SplitConcat(a, t);
    }
  }

  // ---------------------------------------------------------------- hydration

  function Ids(events: seq<Event>): set<string> {
    set e | e in events :: e.id
  }

  /** Hydration either reads the whole file, or rejects at a line holding `null`
      having indexed the lines before it. */
  datatype Hydration = Loaded(events: seq<Event>) | Rejected(events: seq<Event>)

  /** The index that a run over `lines` builds on top of `acc`. */
  function Scan(c: Codec, lines: seq<string>, acc: seq<Event>): Hydration {
    if lines == [] then Loaded(acc)
    else if Blank(lines[0]) then Scan(c, lines[1..], acc)
    else match c.decode(lines[0])
      case Malformed => Scan(c, lines[1..], acc)
      case NullValue => Rejected(acc)
      case NoStringId => Scan(c, lines[1..], acc)
      case Record(e) =>
        if e.id in Ids(acc) then Scan(c, lines[1..], acc) else Scan(c, lines[1..], acc + [e])
  }

  function Load(c: Codec, file: string): Hydration {
    Scan(c, Split(file), [])
  }

  lemma {:induction false} ScanConcat(c: Codec, a: seq<string>, b: seq<string>, acc: seq<Event>)
    ensures Scan(c, a + b, acc) ==
            match Scan(c, a, acc)
            case Loaded(mid) => Scan(c, b, mid)
            case Rejected(mid) => Rejected(mid)
    decreases |a|
  {
    if a == [] {
      assert a + b == b;
    } else {
      assert (a + b)[1..] == a[1..] + b;
      ScanConcat(c, a[1..], b, acc);
      match c.decode(a[0])
      case Record(e) => ScanConcat(c, a[1..], b, acc + [e]);
      case _ =>
    }
  }

  /** Reading a file whose first part ends at a line boundary reads that part, then
      goes on with the rest. */
  lemma LoadConcat(c: Codec, base: string, more: string)
    requires Terminated(base)
    ensures Load(c, base + more) ==
            match Load(c, base)
            case Loaded(mid) => Scan(c, Split(more), mid)
            case Rejected(mid) => Rejected(mid)
  {
    if base == "" {
      assert base + more == more;
      assert Split(base) == [""];
      assert Scan(c, [""], []) == Loaded([]) by {
        assert [""][1..] == [];
      }
    } else {
      var a := base[..|base| - 1];
      assert base + more == a + "\n" + more;
      assert base == a + "\n" + "";
      SplitConcat(a, more);
      SplitConcat(a, "");
      ScanConcat(c, Split(a), Split(more), []);
      ScanConcat(c, Split(a), [""], []);
      BlankLine(c, Scan(c, Split(a), []).events);
    }
  }

  lemma BlankLine(c: Codec, acc: seq<Event>)
    ensures Scan(c, [""], acc) == Loaded(acc)
  {
    assert Blank([""][0]) && [""][1..] == [];
  }

  predicate Distinct(events: seq<Event>) {
    forall i, j | 0 <= i < j < |events| :: events[i].id != events[j].id
  }

  /** Whatever the file holds, its index has no id twice, and only grows. */
  lemma {:induction false} ScanDistinct(c: Codec, lines: seq<string>, acc: seq<Event>)
    requires Distinct(acc)
    ensures Distinct(Scan(c, lines, acc).events)
    ensures acc <= Scan(c, lines, acc).events
    decreases |lines|
  {
    if lines != [] {
      ScanDistinct(c, lines[1..], acc);
      match c.decode(lines[0])
      case Record(e) =>
        if e.id !in Ids(acc) {
          assert forall x | x in acc :: x.id in Ids(acc);
          ScanDistinct(c, lines[1..], acc + [e]);
        }
      case _ =>
    }
  }
}
