/** What appended text means to a later hydration: whole, cut at any character, or
    glued to an unfinished line. */
module LogFile {
  import opened Ndjson
  import opened FirstWins
  import opened Sequences

  /** The text one append writes: an encoding and a newline per event. */
  function Text(c: Codec, events: seq<Event>): string {
    if events == [] then "" else c.encode(events[0]) + "\n" + Text(c, events[1..])
  }

  /** How many events are readable once the first `w` characters of the text are on
      disk. The last of them may still lack its newline. */
  function Landed(c: Codec, events: seq<Event>, w: nat): (n: nat)
    ensures n <= |events|
  {
    if events == [] || w < |c.encode(events[0])| then 0
    else if w == |c.encode(events[0])| then 1
    else 1 + Landed(c, events[1..], w - |c.encode(events[0])| - 1)
  }

  /** A beginning of some encoding, possibly empty, possibly all of it. */
  ghost predicate IsFragment(c: Codec, t: string) {
    exists e: Event, k: nat | k <= |c.encode(e)| :: t == c.encode(e)[..k]
  }

  lemma FragmentOf(c: Codec, e: Event, k: nat)
    requires k <= |c.encode(e)|
    ensures IsFragment(c, c.encode(e)[..k])
  {
  }

  lemma ScanOneLine(c: Codec, line: string, acc: seq<Event>)
    ensures Scan(c, [line], acc) ==
            if Blank(line) then Loaded(acc)
            else match c.decode(line)
              case NullValue => Rejected(acc)
              case Record(e) => Loaded(acc + if e.id in Ids(acc) then [] else [e])
              case _ => Loaded(acc)
  {
    assert [line][1..] == [];
    assert acc + [] == acc;
  }

  /** One complete line, then the rest of the text. */
  lemma ScanLine(c: Codec, e: Event, rest: string, acc: seq<Event>)
    requires Lawful(c)
    ensures Scan(c, Split(c.encode(e) + "\n" + rest), acc)
         == Scan(c, Split(rest), acc + if e.id in Ids(acc) then [] else [e])
  {
    var line := c.encode(e);
    SplitConcat(line, rest);
    SplitNoNewline(line);
    ScanConcat(c, [line], Split(rest), acc);
    ScanOneLine(c, line, acc);
  }

  /** A line of which only the first `w` characters were written. */
  lemma ScanCutLine(c: Codec, e: Event, w: nat, acc: seq<Event>)
    requires Lawful(c) && w <= |c.encode(e)|
    ensures Scan(c, Split(c.encode(e)[..w]), acc)
         == Loaded(acc + if w < |c.encode(e)| || e.id in Ids(acc) then [] else [e])
    ensures Tail(c.encode(e)[..w]) == c.encode(e)[..w]
  {
    var cut := c.encode(e)[..w];
    SplitNoNewline(cut);
    ScanOneLine(c, cut, acc);
    assert acc + [] == acc;
    if w == |c.encode(e)| {
      assert cut == c.encode(e);
    }
  }

  lemma FreshOne(seen: set<string>, e: Event)
    ensures Fresh(seen, [e]) == if e.id in seen then [] else [e]
  {
    assert [e][1..] == [];
  }

  /** The step of `ScanCutText`: the first event is absorbed, the rest follows. */
  lemma FreshCons(acc: seq<Event>, e: Event, rest: seq<Event>)
    ensures var acc' := acc + if e.id in Ids(acc) then [] else [e];
            acc + Fresh(Ids(acc), [e] + rest) == acc' + Fresh(Ids(acc'), rest)
  {
    assert ([e] + rest)[1..] == rest;
    if e.id in Ids(acc) {
      assert acc + [] == acc;
    } else {
      IdsSnoc(acc, e);
      Associate(acc, [e], Fresh(Ids(acc + [e]), rest));
    }
  }

  lemma IdsSnoc(acc: seq<Event>, e: Event)
    ensures Ids(acc + [e]) == Ids(acc) + {e.id}
  {
    IdsConcat(acc, [e]);
    IdsHead([e]);
    assert [e][1..] == [];
  }

  /** The events that a file's lines hold, in order, those stored twice included. */
  function Records(c: Codec, lines: seq<string>): seq<Event> {
    if lines == [] then []
    else
      var parsed := if Blank(lines[0]) then Malformed else c.decode(lines[0]);
      (if parsed.Record? then [parsed.event] else []) + Records(c, lines[1..])
  }

  /** Hydration in one sentence: it rejects exactly when some line that is not blank holds
      `null`, and otherwise indexes the first occurrence of each id among the lines' events,
      skipping what does not parse or has no id. */
  lemma LoadIsFirstWins(c: Codec, file: string)
    ensures Load(c, file).Loaded? <==> forall line | line in Split(file) :: Blank(line) || c.decode(line) != NullValue
    ensures Load(c, file).Loaded? ==> Load(c, file).events == FirstOccurrences(Records(c, Split(file)))
  {
    ScanIsFirstWins(c, Split(file), []);
    FreshIsFirstOccurrences(Records(c, Split(file)));
    assert Ids([]) == {} && forall s: seq<Event> :: [] + s == s;
  }

  lemma {:induction false} ScanIsFirstWins(c: Codec, lines: seq<string>, acc: seq<Event>)
    ensures Scan(c, lines, acc).Loaded? <==> forall line | line in lines :: Blank(line) || c.decode(line) != NullValue
    ensures Scan(c, lines, acc).Loaded? ==>
              Scan(c, lines, acc).events == acc + Fresh(Ids(acc), Records(c, lines))
    decreases |lines|
  {
    if lines == [] {
      assert acc + [] == acc;
    } else {
      var parsed := if Blank(lines[0]) then Malformed else c.decode(lines[0]);
      var rest := lines[1..];
      assert forall line :: line in lines <==> line == lines[0] || line in rest;
      if parsed.Record? {
        ScanIsFirstWins(c, rest, acc + if parsed.event.id in Ids(acc) then [] else [parsed.event]);
        FreshCons(acc, parsed.event, Records(c, rest));
        assert acc + [] == acc;
      } else {
        ScanIsFirstWins(c, rest, acc);
        assert [] + Records(c, rest) == Records(c, rest);
      }
    }
  }

  lemma CutPastFirstLine(c: Codec, events: seq<Event>, w: nat)
    requires events != [] && |c.encode(events[0])| < w <= |Text(c, events)|
    ensures var v := w - |c.encode(events[0])| - 1;
            && Text(c, events)[..w] == c.encode(events[0]) + "\n" + Text(c, events[1..])[..v]
            && events[..Landed(c, events, w)]
               == [events[0]] + events[1..][..Landed(c, events[1..], v)]
            && Tail(Text(c, events)[..w]) == Tail(Text(c, events[1..])[..v])
  {
    var v := w - |c.encode(events[0])| - 1;
    assert Text(c, events)[..w] == c.encode(events[0]) + "\n" + Text(c, events[1..])[..v];
    SplitConcat(c.encode(events[0]), Text(c, events[1..])[..v]);
  }

  /** Hydrating text cut at character `w` indexes exactly the landed events, and leaves
      a beginning of one encoding as the tail. */
  lemma {:induction false} ScanCutText(c: Codec, events: seq<Event>, w: nat, acc: seq<Event>)
    requires Lawful(c) && w <= |Text(c, events)|
    ensures Scan(c, Split(Text(c, events)[..w]), acc)
         == Loaded(acc + Fresh(Ids(acc), events[..Landed(c, events, w)]))
    ensures IsFragment(c, Tail(Text(c, events)[..w]))
    decreases |events|
  {
    if events == [] {
      BlankLine(c, acc);
      FragmentOf(c, Event("", ""), 0);
      assert acc + [] == acc;
    } else if w <= |c.encode(events[0])| {
      ScanCutFirst(c, events, w, acc);
    } else {
      CutPastFirstLine(c, events, w);
      ScanCutText(c, events[1..], w - |c.encode(events[0])| - 1,
                  acc + if events[0].id in Ids(acc) then [] else [events[0]]);
      ScanCutRest(c, events, w, acc);
    }
  }

  /** A whole first line and then a cut text of which the claim is known. */
  lemma ScanCutRest(c: Codec, events: seq<Event>, w: nat, acc: seq<Event>)
    requires Lawful(c) && events != [] && |c.encode(events[0])| < w <= |Text(c, events)|
    requires var v := w - |c.encode(events[0])| - 1;
             var rest, acc' := events[1..], acc + if events[0].id in Ids(acc) then [] else [events[0]];
             Scan(c, Split(Text(c, rest)[..v]), acc')
             == Loaded(acc' + Fresh(Ids(acc'), rest[..Landed(c, rest, v)]))
    ensures Scan(c, Split(Text(c, events)[..w]), acc)
         == Loaded(acc + Fresh(Ids(acc), events[..Landed(c, events, w)]))
  {
    var v := w - |c.encode(events[0])| - 1;
    CutPastFirstLine(c, events, w);
    ScanLine(c, events[0], Text(c, events[1..])[..v], acc);
    FreshCons(acc, events[0], events[1..][..Landed(c, events[1..], v)]);
  }

  lemma ScanCutFirst(c: Codec, events: seq<Event>, w: nat, acc: seq<Event>)
    requires Lawful(c) && events != [] && w <= |c.encode(events[0])| && w <= |Text(c, events)|
    ensures Scan(c, Split(Text(c, events)[..w]), acc)
         == Loaded(acc + Fresh(Ids(acc), events[..Landed(c, events, w)]))
    ensures IsFragment(c, Tail(Text(c, events)[..w]))
  {
    assert Text(c, events)[..w] == c.encode(events[0])[..w];
    FragmentOf(c, events[0], w);
    ScanCutLine(c, events[0], w, acc);
    FreshOne(Ids(acc), events[0]);
    assert events[..1] == [events[0]];
  }

  lemma {:induction false} LandedWhole(c: Codec, events: seq<Event>)
    ensures Landed(c, events, |Text(c, events)|) == |events|
  {
    if events != [] {
      LandedWhole(c, events[1..]);
    }
  }

  lemma {:induction false} TextTerminated(c: Codec, events: seq<Event>)
    ensures Terminated(Text(c, events))
    ensures Text(c, events) == "" <==> events == []
  {
    if events != [] {
      TextTerminated(c, events[1..]);
    }
  }

  lemma ScanText(c: Codec, events: seq<Event>, acc: seq<Event>)
    requires Lawful(c)
    ensures Scan(c, Split(Text(c, events)), acc) == Loaded(acc + Fresh(Ids(acc), events))
  {
    var whole := Text(c, events);
    ScanCutText(c, events, |whole|, acc);
    LandedWhole(c, events);
    assert whole[..|whole|] == whole;
    assert events[..|events|] == events;
  }

  lemma TerminatedConcat(base: string, more: string)
    requires Terminated(base) && Terminated(more)
    ensures Terminated(base + more)
  {
  }

  lemma TailConcat(base: string, more: string)
    requires Terminated(base)
    ensures Tail(base + more) == Tail(more)
  {
    StableThenTail(more);
    assert base + more == (base + Stable(more)) + Tail(more);
    TerminatedConcat(base, Stable(more));
    TailExtend(base + Stable(more), Tail(more));
  }

  /** A write cut at character `w` onto a file that ends at a line boundary. */
  lemma LoadCutWrite(c: Codec, base: string, events: seq<Event>, w: nat)
    requires Lawful(c) && Terminated(base) && w <= |Text(c, events)| && Load(c, base).Loaded?
    ensures Load(c, base + Text(c, events)[..w]) == Loaded(
              Load(c, base).events + Fresh(Ids(Load(c, base).events), events[..Landed(c, events, w)]))
    ensures IsFragment(c, Tail(base + Text(c, events)[..w]))
  {
    var cut := Text(c, events)[..w];
    LoadConcat(c, base, cut);
    ScanCutText(c, events, w, Load(c, base).events);
    TailConcat(base, cut);
  }

  /** An encoding glued to this unfinished line gives a line that does not parse. */
  predicate GlueIsLost(c: Codec, t: string, e: Event) {
    t == "" || c.decode(t + c.encode(e)) == Malformed
  }

  lemma FragmentGlueIsLost(c: Codec, t: string, e: Event)
    requires Lawful(c) && IsFragment(c, t)
    ensures GlueIsLost(c, t, e)
  {
    var torn: Event, k: nat :| k <= |c.encode(torn)| && t == c.encode(torn)[..k];
    if t != "" {
      assert c.decode(c.encode(torn)[..k] + c.encode(e)) == Malformed;
    }
  }

  lemma ScanGluedText(c: Codec, t: string, events: seq<Event>, acc: seq<Event>)
    requires Lawful(c) && t != "" && '\n' !in t && events != [] && GlueIsLost(c, t, events[0])
    ensures Scan(c, Split(t + Text(c, events)), acc) == Loaded(acc + Fresh(Ids(acc), events[1..]))
  {
    var glued, rest := t + c.encode(events[0]), Text(c, events[1..]);
    assert t + Text(c, events) == glued + "\n" + rest;
    ScanOneLine(c, glued, acc);
    SplitConcat(glued, rest);
    SplitNoNewline(glued);
    ScanConcat(c, [glued], Split(rest), acc);
    ScanText(c, events[1..], acc);
  }

  /** A whole write onto a file with an unfinished last line: the line that gets glued
      to it is lost, and so is the unfinished line even if it was a whole encoding. */
  lemma LoadTornWrite(c: Codec, base: string, t: string, events: seq<Event>)
    requires Lawful(c) && Terminated(base) && Load(c, base).Loaded?
    requires t != "" && '\n' !in t && events != [] && GlueIsLost(c, t, events[0])
    ensures var held := Load(c, base).events;
            Load(c, base + t + Text(c, events)) == Loaded(held + Fresh(Ids(held), events[1..]))
  {
    assert base + t + Text(c, events) == base + (t + Text(c, events));
    LoadConcat(c, base, t + Text(c, events));
    ScanGluedText(c, t, events, Load(c, base).events);
  }

  /** A torn last line contributes at most one event. */
  lemma LoadTail(c: Codec, file: string)
    requires Lawful(c) && Load(c, file).Loaded?
    ensures Load(c, Stable(file)).Loaded?
    ensures |Load(c, file).events| <= |Load(c, Stable(file)).events| + 1
    ensures Load(c, Stable(file)).events <= Load(c, file).events
  {
    StableThenTail(file);
    LoadConcat(c, Stable(file), Tail(file));
    SplitNoNewline(Tail(file));
    ScanOneLine(c, Tail(file), Load(c, Stable(file)).events);
  }

  lemma {:induction false} FreshLength(seen: set<string>, batch: seq<Event>)
    ensures |Fresh(seen, batch)| <= |batch|
    decreases |batch|
  {
    if batch != [] {
      FreshLength(seen, batch[1..]);
      FreshLength(seen + {batch[0].id}, batch[1..]);
    }
  }

  lemma FreshPastOld(seen: set<string>, before: seq<Event>, rest: seq<Event>)
    requires Ids(before) <= seen && Distinct(rest) && seen !! Ids(rest)
    ensures Fresh(seen, before + rest) == rest
  {
    FreshConcat(seen, before, rest);
    FreshOfOld(seen, before);
    assert seen + Ids(before) == seen;
    FreshOfNew(seen, rest);
  }

  // ------------------------------- what an append leaves, from any memory and any file

  /** The events on the finished lines of a file. */
  function Lines(c: Codec, file: string): seq<Event> {
    Load(c, Stable(file)).events
  }

  /** The events of an append that a later hydration can read: with an unfinished last line,
      all but the first. */
  function Readable(kept: seq<Event>, file: string): seq<Event>
    requires kept != []
  {
    if Terminated(file) then kept else kept[1..]
  }

  lemma LoadAfterAppend(c: Codec, file: string, kept: seq<Event>)
    requires Lawful(c) && Load(c, file).Loaded? && kept != [] && GlueIsLost(c, Tail(file), kept[0])
    ensures var lines := Lines(c, file);
            Load(c, file + Text(c, kept)) == Loaded(lines + Fresh(Ids(lines), Readable(kept, file)))
  {
    StableThenTail(file);
    LoadTail(c, file);
    if Terminated(file) {
      assert Stable(file) == file;
      LoadConcat(c, file, Text(c, kept));
      ScanText(c, kept, Lines(c, file));
    } else {
      LoadTornWrite(c, Stable(file), Tail(file), kept);
    }
  }

  /** Whatever memory and file hold when an append stores something, as long as a line glued to
      the file's unfinished one does not parse, as after any single torn write: afterwards every id that
      memory claims is in the file's index if and only if memory claimed no more than the
      finished lines before, and the file ended at a line boundary or the event that would be
      glued to the fragment is on a finished line already. */
  lemma AppendClaimsIff(c: Codec, file: string, events: seq<Event>, batch: seq<Event>)
    requires Lawful(c) && Load(c, file).Loaded? && Fresh(Ids(events), batch) != []
    requires GlueIsLost(c, Tail(file), Fresh(Ids(events), batch)[0])
    ensures var kept, lines := Fresh(Ids(events), batch), Ids(Lines(c, file));
            Ids(events + kept) <= Ids(Load(c, file + Text(c, kept)).events)
            <==> Ids(events) <= lines && (Terminated(file) || kept[0].id in lines)
  {
    var kept, lines := Fresh(Ids(events), batch), Lines(c, file);
    FreshIds(Ids(events), batch);
    LoadAfterAppend(c, file, kept);
    ClaimedIff(events, kept, lines, Terminated(file));
  }

  lemma ClaimedIff(events: seq<Event>, kept: seq<Event>, lines: seq<Event>, whole: bool)
    requires kept != [] && Distinct(kept) && Ids(kept) !! Ids(events)
    ensures Ids(events + kept) <= Ids(lines + Fresh(Ids(lines), if whole then kept else kept[1..]))
            <==> Ids(events) <= Ids(lines) && (whole || kept[0].id in Ids(lines))
  {
    var rest := if whole then kept else kept[1..];
    FreshIds(Ids(lines), rest);
    IdsConcat(events, kept);
    IdsConcat(lines, Fresh(Ids(lines), rest));
    IdsHead(kept);
    assert Ids(lines) + (Ids(rest) - Ids(lines)) == Ids(lines) + Ids(rest);
    assert kept[0].id !in Ids(kept[1..]);
  }

  /** Under the same freedom: file and memory agree after the append if and only if the
      finished lines hold memory's events and then a beginning of what the append stores, not
      empty when the last line is unfinished. */
  lemma AppendAgreesIff(c: Codec, file: string, events: seq<Event>, batch: seq<Event>)
    requires Lawful(c) && Load(c, file).Loaded? && Fresh(Ids(events), batch) != []
    requires GlueIsLost(c, Tail(file), Fresh(Ids(events), batch)[0])
    ensures var kept, lines := Fresh(Ids(events), batch), Lines(c, file);
            Load(c, file + Text(c, kept)) == Loaded(events + kept)
            <==> && events <= lines && lines[|events|..] <= kept
                 && (Terminated(file) || events != lines)
  {
    var kept, lines := Fresh(Ids(events), batch), Lines(c, file);
    FreshIds(Ids(events), batch);
    LoadAfterAppend(c, file, kept);
    ExtendedIff(events, kept, lines, Terminated(file));
  }

  /** And memory is a beginning of the file's index after it if and only if, besides, the
      finished lines may also hold more than that. */
  lemma AppendKeepsPrefixIff(c: Codec, file: string, events: seq<Event>, batch: seq<Event>)
    requires Lawful(c) && Load(c, file).Loaded? && Fresh(Ids(events), batch) != []
    requires GlueIsLost(c, Tail(file), Fresh(Ids(events), batch)[0])
    ensures var kept, lines := Fresh(Ids(events), batch), Lines(c, file);
            events + kept <= Load(c, file + Text(c, kept)).events
            <==> && events <= lines && (lines[|events|..] <= kept || kept <= lines[|events|..])
                 && (Terminated(file) || events != lines)
  {
    var kept, lines := Fresh(Ids(events), batch), Lines(c, file);
    FreshIds(Ids(events), batch);
    LoadAfterAppend(c, file, kept);
    ExtendedIff(events, kept, lines, Terminated(file));
  }

  lemma ExtendedIff(events: seq<Event>, kept: seq<Event>, lines: seq<Event>, whole: bool)
    requires kept != [] && Distinct(kept) && Ids(kept) !! Ids(events)
    ensures var after := lines + Fresh(Ids(lines), if whole then kept else kept[1..]);
            && (after == events + kept
                <==> events <= lines && lines[|events|..] <= kept && (whole || events != lines))
            && (events + kept <= after
                <==> && events <= lines && (lines[|events|..] <= kept || kept <= lines[|events|..])
                     && (whole || events != lines))
  {
    var rest := if whole then kept else kept[1..];
    var more := Fresh(Ids(lines), rest);
    if events <= lines {
      ExtendedByExtra(events, lines[|events|..], kept, whole);
      assert lines == events + lines[|events|..];
    } else {
      assert Ids(rest) <= Ids(kept) by { IdsHead(kept); }
      if events + kept <= lines + more {
        NothingInserted(events, kept, lines, rest);
      }
    }
  }

  lemma ExtendedByExtra(events: seq<Event>, extra: seq<Event>, kept: seq<Event>, whole: bool)
    requires kept != [] && Distinct(kept) && Ids(kept) !! Ids(events)
    ensures var lines := events + extra;
            var after := lines + Fresh(Ids(lines), if whole then kept else kept[1..]);
            && (after == events + kept <==> extra <= kept && (whole || extra != []))
            && (events + kept <= after <==> (extra <= kept || kept <= extra) && (whole || extra != []))
  {
    ExtraThenMore(events, extra, kept, whole);
    Prepended(events, extra, Fresh(Ids(events + extra), if whole then kept else kept[1..]), kept);
  }

  lemma Prepended(events: seq<Event>, extra: seq<Event>, more: seq<Event>, kept: seq<Event>)
    ensures events + extra + more == events + kept <==> extra + more == kept
    ensures events + kept <= events + extra + more <==> kept <= extra + more
  {
    SamePrefix(events, extra + more, kept);
    assert events + extra + more == events + (extra + more);
  }

  lemma SamePrefix(events: seq<Event>, a: seq<Event>, b: seq<Event>)
    ensures events + a == events + b <==> a == b
    ensures events + b <= events + a <==> b <= a
  {
    assert (events + a)[|events|..] == a && (events + b)[|events|..] == b;
    if events + b <= events + a {
      assert (events + a)[..|events + b|] == events + b;
      assert a[..|b|] == (events + a)[|events|..|events + b|];
    }
  }

  /** What an append stores cannot take the place of something memory holds. */
  lemma NothingInserted(events: seq<Event>, kept: seq<Event>, lines: seq<Event>, rest: seq<Event>)
    requires Ids(kept) !! Ids(events) && Ids(rest) <= Ids(kept)
    requires events + kept <= lines + Fresh(Ids(lines), rest)
    ensures events <= lines
  {
    var more := Fresh(Ids(lines), rest);
    FreshIds(Ids(lines), rest);
    assert (events + kept)[..|events|] == events;
    if |lines| < |events| {
      Overlap(events, lines, more);
    }
  }

  lemma Overlap(events: seq<Event>, lines: seq<Event>, more: seq<Event>)
    requires events <= lines + more && |lines| < |events|
    ensures more != [] && more[0].id in Ids(events) && more[0].id in Ids(more)
  {
    assert more[0] == (lines + more)[|lines|] == events[|lines|];
    assert more[0] in events && more[0] in more;
  }

  lemma ExtraThenMore(events: seq<Event>, extra: seq<Event>, kept: seq<Event>, whole: bool)
    requires kept != [] && Distinct(kept) && Ids(kept) !! Ids(events)
    ensures var all := extra + Fresh(Ids(events + extra), if whole then kept else kept[1..]);
            && (all == kept <==> extra <= kept && (whole || extra != []))
            && (kept <= all <==> (extra <= kept || kept <= extra) && (whole || extra != []))
  {
    var rest := if whole then kept else kept[1..];
    FreshLength(Ids(events + extra), rest);
    if extra <= kept && (whole || extra != []) {
      MoreIsRemainder(events, extra, kept, whole);
    }
    ComparablePrefixes(extra, Fresh(Ids(events + extra), rest), kept);
  }

  lemma ComparablePrefixes(extra: seq<Event>, more: seq<Event>, kept: seq<Event>)
    ensures kept <= extra + more ==> kept <= extra || extra <= kept
    ensures kept <= extra ==> kept <= extra + more
    ensures extra + more == kept ==> extra <= kept
  {
    if kept <= extra + more {
      assert (extra + more)[..|kept|] == kept;
      assert |kept| <= |extra| ==> extra[..|kept|] == kept;
      assert |kept| > |extra| ==> kept[..|extra|] == extra;
    }
  }

  lemma MoreIsRemainder(events: seq<Event>, extra: seq<Event>, kept: seq<Event>, whole: bool)
    requires kept != [] && Distinct(kept) && Ids(kept) !! Ids(events)
    requires extra <= kept && (whole || extra != [])
    ensures Fresh(Ids(events + extra), if whole then kept else kept[1..]) == kept[|extra|..]
  {
    var rest := kept[|extra|..];
    assert kept == extra + rest;
    RemainderApart(events, extra, rest);
    if whole {
      FreshPastOld(Ids(events + extra), extra, rest);
    } else {
      IdsHead(extra);
      assert kept[1..] == extra[1..] + rest;
      FreshPastOld(Ids(events + extra), extra[1..], rest);
    }
  }

  lemma RemainderApart(events: seq<Event>, extra: seq<Event>, rest: seq<Event>)
    requires Distinct(extra + rest) && Ids(extra + rest) !! Ids(events)
    ensures Ids(extra) <= Ids(events + extra) && Distinct(rest) && Ids(events + extra) !! Ids(rest)
  {
    IdsConcat(events, extra);
    IdsConcat(extra, rest);
    DistinctParts(extra, rest);
  }

  lemma DistinctParts(a: seq<Event>, b: seq<Event>)
    requires Distinct(a + b)
    ensures Distinct(a) && Distinct(b) && Ids(a) !! Ids(b)
  {
    var all := a + b;
    forall i, j | 0 <= i < |a| && 0 <= j < |b| ensures a[i].id != b[j].id {
      assert all[i] == a[i] && all[|a| + j] == b[j];
    }
    forall i, j | 0 <= i < j < |b| ensures b[i].id != b[j].id {
      assert all[|a| + i] == b[i] && all[|a| + j] == b[j];
    }
    forall i, j | 0 <= i < j < |a| ensures a[i].id != a[j].id {
      assert all[i] == a[i] && all[j] == a[j];
    }
  }

  /** With memory and file in step, an append that has something to store keeps them in
      step if and only if the file ends at a line boundary before it. */
  lemma AppendKeepsStepIff(c: Codec, file: string, events: seq<Event>, batch: seq<Event>)
    requires Lawful(c) && Load(c, file) == Loaded(events) && IsFragment(c, Tail(file))
    requires Fresh(Ids(events), batch) != []
    ensures var kept := Fresh(Ids(events), batch);
            Load(c, file + Text(c, kept)) == Loaded(events + kept) <==> Terminated(file)
  {
    LoadTail(c, file);
    StableThenTail(file);
    FragmentGlueIsLost(c, Tail(file), Fresh(Ids(events), batch)[0]);
    AppendAgreesIff(c, file, events, batch);
  }

  /** With an unfinished last line, the first event of the next append is not in the file's
      index afterwards. */
  lemma TornAppendDropsFirst(c: Codec, file: string, events: seq<Event>, batch: seq<Event>)
    requires Lawful(c) && Load(c, file) == Loaded(events) && IsFragment(c, Tail(file))
    requires Fresh(Ids(events), batch) != [] && !Terminated(file)
    ensures var kept := Fresh(Ids(events), batch);
            var after := Load(c, file + Text(c, kept));
            after.Loaded? && kept[0].id !in Ids(after.events)
  {
    var kept := Fresh(Ids(events), batch);
    LoadTail(c, file);
    StableThenTail(file);
    var held := Load(c, Stable(file)).events;
    FragmentGlueIsLost(c, Tail(file), kept[0]);
    LoadTornWrite(c, Stable(file), Tail(file), kept);
    FreshIds(Ids(events), batch);
    FreshIds(Ids(held), kept[1..]);
    IdsConcat(held, Fresh(Ids(held), kept[1..]));
    assert kept[0].id in Ids(kept);
    assert kept[0].id !in Ids(kept[1..]);
    assert Ids(held) <= Ids(events);
  }
}
