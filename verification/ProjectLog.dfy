/** The relay's per-project log as the object it is: a file, and an index grown in place. */
module ProjectLog {
  import opened Ndjson
  import opened FirstWins
  import opened LogFile
  import opened RelayMachine
  import Watermark

  class Log {
    const codec: Codec
    var file: string
    var events: seq<Event>
    var seen: set<string>

    ghost predicate Valid()
      reads this
    {
      seen == Ids(events) && Distinct(events)
    }

    /** This object between two jobs, as a state of the machine. */
    ghost function Snapshot(): State
      reads this
    {
      Empty().(file := file, events := events)
    }

    constructor (codec: Codec, file: string)
      ensures Valid() && this.codec == codec && this.file == file && events == []
    {
      this.codec := codec;
      this.file := file;
      this.events := [];
      this.seen := {};
    }

    /** Builds the index of the file; `ok` is false when reading a line throws. */
    method Hydrate() returns (ok: bool)
      requires Valid() && events == []
      modifies `events, `seen
      ensures Valid()
      ensures events == Load(codec, file).events
      ensures ok <==> Load(codec, file).Loaded?
    {
      var lines := Split(file);
      var i := 0;
      while i < |lines|
        invariant 0 <= i <= |lines|
        invariant Valid()
        invariant Scan(codec, lines, []) == Scan(codec, lines[i..], events)
      {
        assert lines[i..][0] == lines[i] && lines[i..][1..] == lines[i + 1..];
        if !Blank(lines[i]) {
          match codec.decode(lines[i]) {
            case NullValue => return false;
            case Record(e) =>
              if e.id !in seen {
                IdsConcat(events, [e]);
                assert Ids([e]) == {e.id};
                DistinctConcat(events, [e]);
                seen := seen + {e.id};
                events := events + [e];
              }
            case _ =>
          }
        }
        i := i + 1;
      }
      return true;
    }

    /** The first half of a job: the events of the batch not stored yet. */
    method FilterBatch(batch: seq<Event>) returns (kept: seq<Event>)
      requires Valid()
      ensures kept == Fresh(Ids(events), batch)
    {
      kept := [];
      var batchIds: set<string> := {};
      assert seen + batchIds == seen && batch[0..] == batch;
      for i := 0 to |batch|
        invariant Fresh(seen, batch) == kept + Fresh(seen + batchIds, batch[i..])
        invariant batchIds == Ids(kept)
      {
        var event := batch[i];
        assert batch[i..][0] == event && batch[i..][1..] == batch[i + 1..];
        if event.id !in seen && event.id !in batchIds {
          KeepOne(seen, kept, event);
          batchIds := batchIds + {event.id};
          kept := kept + [event];
        }
      }
    }

    /** The second half, after the write: memory takes the events over. */
    method Publish(kept: seq<Event>)
      requires Valid() && Distinct(kept) && Ids(kept) !! Ids(events)
      modifies `events, `seen
      ensures Valid() && events == old(events) + kept
    {
      assert events + kept[..0] == events;
      for i := 0 to |kept|
        invariant events == old(events) + kept[..i]
        invariant seen == Ids(events)
      {
        IdsConcat(events, [kept[i]]);
        assert Ids([kept[i]]) == {kept[i].id};
        seen := seen + {kept[i].id};
        events := events + [kept[i]];
      }
      assert kept[..|kept|] == kept;
      DistinctConcat(old(events), kept);
    }

    /** One append whose write succeeds: what it stores and reports, and that it takes the
        machine's steps. */
    method Append(batch: seq<Event>) returns (accepted: seq<string>)
      requires Valid()
      modifies `file, `events, `seen
      ensures Valid()
      ensures events == old(events) + Fresh(Ids(old(events)), batch)
      ensures file == old(file) + Text(codec, Fresh(Ids(old(events)), batch))
      ensures accepted == IdList(Fresh(Ids(old(events)), batch))
      ensures var was := old(Snapshot());
              Run(codec, was, AppendSteps(codec, was, batch))
              == Snapshot().(done := [Job(batch, accepted)])
    {
      AppendRun(codec, Snapshot(), batch);
      var kept := FilterBatch(batch);
      if |kept| == 0 {
        assert IdList(kept) == [] && file + "" == file && events + [] == events;
        return [];
      }
      file := file + Text(codec, kept);
      FreshIds(Ids(events), batch);
      Publish(kept);
      return IdList(kept);
    }

    /** Everything stored after `since`, or everything when `since` is absent or unknown. */
    method Read(since: string) returns (got: seq<Event>)
      requires Valid()
      ensures got == Watermark.ReadSince(events, since)
    {
      if since == "" {
        return events;
      }
      var index := 0;
      while index < |events| && events[index].id != since
        invariant 0 <= index <= |events|
        invariant forall j | 0 <= j < index :: events[j].id != since
      {
        index := index + 1;
      }
      if index == |events| {
        return events;
      }
      Watermark.PositionIsUnique(events, index);
      return events[index + 1..];
    }
  }

  lemma KeepOne(seen: set<string>, kept: seq<Event>, e: Event)
    ensures Ids(kept + [e]) == Ids(kept) + {e.id}
    ensures seen + (Ids(kept) + {e.id}) == seen + Ids(kept) + {e.id}
    ensures forall rest :: kept + ([e] + rest) == (kept + [e]) + rest
  {
    IdsConcat(kept, [e]);
    assert Ids([e]) == {e.id};
  }

  /** Restarting over the file an object left behind rebuilds its index, provided the file
      was in step with memory. */
  method ReopenAfterAppend(codec: Codec, file: string, batch: seq<Event>)
    returns (before: seq<Event>, after: seq<Event>)
    requires Lawful(codec) && Load(codec, file).Loaded? && Terminated(file)
    ensures before == Load(codec, file).events + Fresh(Ids(Load(codec, file).events), batch)
    ensures after == before
  {
    var log := new Log(codec, file);
    var ok := log.Hydrate();
    var accepted := log.Append(batch);
    before := log.events;
    var again := new Log(codec, log.file);
    ok := again.Hydrate();
    after := again.events;
    LoadCutWrite(codec, file, Fresh(Ids(Load(codec, file).events), batch),
                 |Text(codec, Fresh(Ids(Load(codec, file).events), batch))|);
    ScanAfterAppend(codec, file, batch);
  }

  lemma ScanAfterAppend(c: Codec, file: string, batch: seq<Event>)
    requires Lawful(c) && Load(c, file).Loaded? && Terminated(file)
    ensures var held := Load(c, file).events;
            var kept := Fresh(Ids(held), batch);
            Load(c, file + Text(c, kept)) == Loaded(held + kept)
  {
    var held := Load(c, file).events;
    var kept := Fresh(Ids(held), batch);
    FreshIds(Ids(held), batch);
    LoadConcat(c, file, Text(c, kept));
    ScanText(c, kept, held);
    FreshOfNew(Ids(held), kept);
  }
}
