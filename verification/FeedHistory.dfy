/** What the feed shows, read off the steps of a run: which pages arrived for which workspace,
    and nothing else. */
module FeedHistory {
  import opened Options
  import opened Ordering
  import opened Timeline
  import opened PaginatedFeed

  /** A reply with a page for the open workspace `ws` is delivered. */
  predicate PageDelivered(sys: System, step: Step, ws: string) {
    && step.Deliver? && step.id in sys.net && sys.net[step.id].Served?
    && sys.net[step.id].req.ws == ws && sys.client.active == Some(ws)
  }

  predicate FirstPageDelivered(sys: System, step: Step, ws: string) {
    PageDelivered(sys, step, ws) && sys.net[step.id].req.before.None?
  }

  /** The first page of `ws` that was delivered last while `ws` was open; nothing when there was
      none. */
  function LastFirstPage(size: nat, start: System, steps: seq<Step>, ws: string): seq<Item>
    requires size >= 1
    decreases |steps|
  {
    if steps == [] then []
    else
      var before, step := steps[..|steps| - 1], steps[|steps| - 1];
      var sys := Run(size, start, before);
      if FirstPageDelivered(sys, step, ws) then sys.net[step.id].page.items
      else LastFirstPage(size, start, before, ws)
  }

  /** What the run put on the screen: an opened workspace starts from its last first page, a
      first page replaces what is there, an older page is merged beneath it. */
  function Painted(size: nat, start: System, steps: seq<Step>): seq<Item>
    requires size >= 1
    decreases |steps|
  {
    if steps == [] then []
    else
      var before, step := steps[..|steps| - 1], steps[|steps| - 1];
      var sys := Run(size, start, before);
      if step.Activate? then LastFirstPage(size, start, before, step.ws)
      else if sys.client.active.Some? && PageDelivered(sys, step, sys.client.active.value) then
        if FirstPageDelivered(sys, step, sys.client.active.value) then sys.net[step.id].page.items
        else Merge(Painted(size, start, before), sys.net[step.id].page.items)
      else Painted(size, start, before)
  }

  lemma RunLast(size: nat, start: System, steps: seq<Step>)
    requires size >= 1 && steps != []
    ensures Run(size, start, steps) == Next(size, Run(size, start, steps[..|steps| - 1]), steps[|steps| - 1])
  {
    var n := |steps| - 1;
    assert steps == steps[..n] + [steps[n]];
    RunConcat(size, start, steps[..n], [steps[n]]);
    var sys := Run(size, start, steps[..n]);
    assert Run(size, sys, [steps[n]]) == Run(size, Next(size, sys, steps[n]), [steps[n]][1..]);
    assert [steps[n]][1..] == [];
  }

  lemma CacheStep(size: nat, sys: System, step: Step, ws: string)
    requires size >= 1
    ensures Cached(Next(size, sys, step).client, ws)
         == if FirstPageDelivered(sys, step, ws) then sys.net[step.id].page.items else Cached(sys.client, ws)
  {
  }

  lemma {:induction false} CacheIsLastFirstPage(size: nat, server: map<string, seq<Item>>, steps: seq<Step>, ws: string)
    requires size >= 1
    ensures Cached(Run(size, Init(server), steps).client, ws) == LastFirstPage(size, Init(server), steps, ws)
    decreases |steps|
  {
    if steps != [] {
      var before := steps[..|steps| - 1];
      RunLast(size, Init(server), steps);
      CacheIsLastFirstPage(size, server, before, ws);
      CacheStep(size, Run(size, Init(server), before), steps[|steps| - 1], ws);
    }
  }

  lemma PaintStep(size: nat, sys: System, step: Step)
    requires size >= 1
    ensures var items := Next(size, sys, step).client.items;
            items == if step.Activate? then Cached(sys.client, step.ws)
                     else if sys.client.active.Some? && PageDelivered(sys, step, sys.client.active.value) then
                       if FirstPageDelivered(sys, step, sys.client.active.value) then sys.net[step.id].page.items
                       else Merge(sys.client.items, sys.net[step.id].page.items)
                     else sys.client.items
  {
  }

  /** Over every run from the start, the items are what the run painted. */
  lemma {:induction false} ShownIsPainted(size: nat, server: map<string, seq<Item>>, steps: seq<Step>)
    requires size >= 1
    ensures Run(size, Init(server), steps).client.items == Painted(size, Init(server), steps)
    decreases |steps|
  {
    if steps != [] {
      var before, step := steps[..|steps| - 1], steps[|steps| - 1];
      RunLast(size, Init(server), steps);
      ShownIsPainted(size, server, before);
      PaintStep(size, Run(size, Init(server), before), step);
      if step.Activate? {
        CacheIsLastFirstPage(size, server, before, step.ws);
      }
    }
  }

  /** Opening a workspace shows its last first page at once, or nothing: never anything of the
      workspace that was open before. */
  lemma OpeningShowsLastFirstPage(size: nat, server: map<string, seq<Item>>, steps: seq<Step>, ws: string)
    requires size >= 1
    ensures var c := Run(size, Init(server), steps + [Activate(ws)]).client;
            && c.active == Some(ws) && c.items == LastFirstPage(size, Init(server), steps, ws)
            && !c.hasMore && c.cursor.None? && !c.loadingOlder
  {
    var all := steps + [Activate(ws)];
    assert all[..|all| - 1] == steps;
    RunLast(size, Init(server), all);
    CacheIsLastFirstPage(size, server, steps, ws);
  }

  lemma WithinPrefix(size: nat, start: System, steps: seq<Step>)
    requires size >= 1 && steps != [] && WithinActivations(size, start, steps)
    ensures WithinActivations(size, start, steps[..|steps| - 1])
    ensures WithinActivation(Run(size, start, steps[..|steps| - 1]), steps[|steps| - 1])
    decreases |steps|
  {
    if |steps| > 1 {
      WithinPrefix(size, Next(size, start, steps[0]), steps[1..]);
      assert steps[..|steps| - 1][1..] == steps[1..][..|steps[1..]| - 1];
    } else {
      assert steps[..0] == [];
    }
  }

  /** Within activations, that is what is shown until the visit's own first page arrives. */
  lemma {:induction false} ShownUntilTheFirstPage(size: nat, server: map<string, seq<Item>>, steps: seq<Step>)
    requires size >= 1 && forall ws | ws in server :: UniqueIds(server[ws])
    requires WithinActivations(size, Init(server), steps)
    ensures var sys := Run(size, Init(server), steps);
            sys.base.None? && sys.client.active.Some? ==>
              sys.client.items == LastFirstPage(size, Init(server), steps, sys.client.active.value)
    decreases |steps|
  {
    if steps != [] {
      var before, step := steps[..|steps| - 1], steps[|steps| - 1];
      var sys := Run(size, Init(server), before);
      RunLast(size, Init(server), steps);
      WithinPrefix(size, Init(server), steps);
      ShownUntilTheFirstPage(size, server, before);
      InitInv(size, server);
      ActivationHoldsSuffix(size, Init(server), before);
      if step.Activate? {
        OpeningShowsLastFirstPage(size, server, before, step.ws);
        assert before + [step] == steps;
      } else {
        WaitingStep(size, sys, step);
      }
    }
  }

  lemma WaitingStep(size: nat, sys: System, step: Step)
    requires size >= 1 && Inv(size, sys) && WithinActivation(sys, step) && !step.Activate?
    ensures var sys' := Next(size, sys, step);
            sys'.base.None? && sys'.client.active.Some? ==>
              && sys.base.None? && sys'.client.active == sys.client.active
              && sys'.client.items == sys.client.items
              && !FirstPageDelivered(sys, step, sys.client.active.value)
  {
    if step.Deliver? && step.id in sys.net && sys.client.active == Some(sys.net[step.id].req.ws) {
      assert Current(sys, step.id) && FlightFits(size, sys, step.id);
    }
  }

  // ------------------------------------------------ whose items they are

  ghost predicate AllIn(items: seq<Item>, timeline: seq<Item>) {
    forall x | x in items :: x in timeline
  }

  /** Pages on their way, pages kept and items shown belong to their workspace. */
  ghost predicate Belongs(sys: System) {
    && Sound(sys)
    && (forall id | id in sys.net && sys.net[id].Served? ::
          AllIn(sys.net[id].page.items, Memories(sys, sys.net[id].req.ws)))
    && (forall ws | ws in sys.client.cache :: AllIn(sys.client.cache[ws], Memories(sys, ws)))
    && (if sys.client.active.None? then sys.client.items == []
        else AllIn(sys.client.items, Memories(sys, sys.client.active.value)))
  }

  lemma MemoriesGrow(size: nat, sys: System, step: Step, ws: string)
    requires size >= 1
    ensures AllIn(Memories(sys, ws), Memories(Next(size, sys, step), ws))
    ensures !step.Arrive? ==> Memories(Next(size, sys, step), ws) == Memories(sys, ws)
  {
  }

  lemma ServeBelongs(size: nat, sys: System, id: nat)
    requires size >= 1 && Belongs(sys) && id in sys.net && sys.net[id].Sent?
    ensures Belongs(Next(size, sys, Serve(id)))
  {
    var sys', req := Next(size, sys, Serve(id)), sys.net[id].req;
    StepStaysSound(size, sys, Serve(id));
    ReadReturnsTheNewest(Memories(sys, req.ws), Some(size), req.before);
    assert AllIn(sys'.net[id].page.items, Memories(sys', req.ws));
  }

  lemma DeliverBelongs(size: nat, sys: System, id: nat)
    requires size >= 1 && Belongs(sys) && id in sys.net && sys.net[id].Served?
    ensures Belongs(Next(size, sys, Deliver(id)))
  {
    var sys' := Next(size, sys, Deliver(id));
    StepStaysSound(size, sys, Deliver(id));
    DeliveredCache(size, sys, id);
    DeliveredItems(size, sys, id);
    assert sys'.server == sys.server && sys'.net == sys.net - {id};
    assert forall ws :: Memories(sys', ws) == Memories(sys, ws);
  }

  lemma DeliveredCache(size: nat, sys: System, id: nat)
    requires size >= 1 && Belongs(sys) && id in sys.net && sys.net[id].Served?
    ensures var cache := Next(size, sys, Deliver(id)).client.cache;
            forall ws | ws in cache :: AllIn(cache[ws], Memories(sys, ws))
  {
  }

  lemma DeliveredItems(size: nat, sys: System, id: nat)
    requires size >= 1 && Belongs(sys) && id in sys.net && sys.net[id].Served?
    ensures var c := Next(size, sys, Deliver(id)).client;
            && c.active == sys.client.active
            && if c.active.None? then c.items == [] else AllIn(c.items, Memories(sys, c.active.value))
  {
    PaintStep(size, sys, Deliver(id));
    MergeIsUnion(sys.client.items, sys.net[id].page.items);
  }

  lemma StepStaysBelongs(size: nat, sys: System, step: Step)
    requires size >= 1 && Belongs(sys)
    ensures Belongs(Next(size, sys, step))
  {
    StepStaysSound(size, sys, step);
    forall ws ensures AllIn(Memories(sys, ws), Memories(Next(size, sys, step), ws)) {
      MemoriesGrow(size, sys, step, ws);
    }
    match step
    case Serve(id) => if id in sys.net && sys.net[id].Sent? { ServeBelongs(size, sys, id); }
    case Deliver(id) => if id in sys.net && sys.net[id].Served? { DeliverBelongs(size, sys, id); }
    case Arrive(_, _) =>
    case Activate(_) =>
    case LoadOlder =>
    case Lose(_) =>
  }

  /** Over every run from the start, stale replies included: every item shown is a memory of the
      workspace that is open. */
  lemma {:induction false} ShownBelongsToTheOpenWorkspace(size: nat, sys: System, steps: seq<Step>)
    requires size >= 1 && Belongs(sys)
    ensures Belongs(Run(size, sys, steps))
    ensures var s := Run(size, sys, steps);
            forall x | x in s.client.items :: s.client.active.Some? && x in Memories(s, s.client.active.value)
    decreases |steps|
  {
    if steps != [] {
      StepStaysBelongs(size, sys, steps[0]);
      ShownBelongsToTheOpenWorkspace(size, Next(size, sys, steps[0]), steps[1..]);
    }
  }

  lemma InitBelongs(server: map<string, seq<Item>>)
    requires forall ws | ws in server :: UniqueIds(server[ws])
    ensures Belongs(Init(server))
  {
  }

  /** The two together, from the start. */
  lemma FeedShowsItsWorkspace(size: nat, server: map<string, seq<Item>>, steps: seq<Step>)
    requires size >= 1 && forall ws | ws in server :: UniqueIds(server[ws])
    ensures var s := Run(size, Init(server), steps);
            && s.client.items == Painted(size, Init(server), steps)
            && forall x | x in s.client.items :: s.client.active.Some? && x in Memories(s, s.client.active.value)
  {
    InitBelongs(server);
    ShownIsPainted(size, server, steps);
    ShownBelongsToTheOpenWorkspace(size, Init(server), steps);
  }

  // ------------------------------------------------ reading to the end

  /** Opening a workspace, and then asking `n` times for older items, each reply arriving before
      the next request. */
  function Reading(ws: string, id: nat, n: nat): seq<Step> {
    if n == 0 then [Activate(ws), Serve(id), Deliver(id)]
    else Reading(ws, id, n - 1) + [LoadOlder, Serve(id + n), Deliver(id + n)]
  }

  /** The newest `k` items of the timeline. */
  function Newest(b: seq<Item>, k: nat): seq<Item> {
    if k >= |b| then b else b[|b| - k..]
  }

  /** Of timeline `b`, exactly the items from `from` on are shown, and the client knows it. */
  ghost predicate ShowsFrom(sys: System, ws: string, b: seq<Item>, from: nat) {
    && from <= |b| && Log(sys, ws) == b
    && sys.client.active == Some(ws) && sys.client.items == b[from..] && !sys.client.loadingOlder
    && sys.client.hasMore == (from > 0)
    && (from > 0 ==> from < |b| && sys.client.cursor == Some(KeyOf(b[from])))
    && (from == 0 ==> sys.client.cursor.None?)
    && forall id | id in sys.net :: id < sys.nextId
  }

  function Beneath(from: nat, size: nat): nat {
    if from > size then from - size else 0
  }

  lemma FirstRound(size: nat, sys: System, ws: string)
    requires size >= 1 && forall id | id in sys.net :: id < sys.nextId
    ensures var s := Run(size, sys, Reading(ws, sys.nextId, 0));
            && ShowsFrom(s, ws, Log(sys, ws), Beneath(|Log(sys, ws)|, size)) && s.nextId == sys.nextId + 1
  {
    OpenRun(size, sys, ws);
    var b := Log(sys, ws);
    PageSlice(size, b, |b|);
    assert b[..|b|] == b;
    SameServerSameLog(sys, Run(size, sys, Reading(ws, sys.nextId, 0)), ws);
  }

  lemma NextRound(size: nat, sys: System, ws: string, b: seq<Item>, from: nat, id: nat)
    requires size >= 1 && ShowsFrom(sys, ws, b, from) && Ascending(b) && UniqueIds(b)
    requires if from > 0 then id == sys.nextId else id >= sys.nextId
    ensures var s := Run(size, sys, [LoadOlder, Serve(id), Deliver(id)]);
            && ShowsFrom(s, ws, b, Beneath(from, size))
            && s.nextId == if from > 0 then sys.nextId + 1 else sys.nextId
  {
    if from == 0 {
      ThreeSteps(size, sys, LoadOlder, Serve(id), Deliver(id));
    } else {
      var p := Beneath(from, size);
      LoadOlderRun(size, sys);
      PoolAtOwnKey(b, from);
      PageSlice(size, b, from);
      MergeIsContiguousIff(b, from, p, from);
      SameServerSameLog(sys, Run(size, sys, [LoadOlder, Serve(id), Deliver(id)]), ws);
    }
  }

  /** Where the items start after the first page and `n` older ones. */
  function StartAfter(total: nat, size: nat, n: nat): nat {
    if n == 0 then Beneath(total, size) else Beneath(StartAfter(total, size, n - 1), size)
  }

  lemma {:induction false} StartAfterIs(total: nat, size: nat, n: nat)
    ensures StartAfter(total, size, n) == if total > (n + 1) * size then total - (n + 1) * size else 0
  {
    if n > 0 {
      StartAfterIs(total, size, n - 1);
      assert (n + 1) * size == n * size + size;
    }
  }

  /** After the rounds asked for so far: what is shown, and which request number is next. */
  ghost predicate RoundsDone(size: nat, sys: System, ws: string, b: seq<Item>, n: nat, s: System) {
    var from := StartAfter(|b|, size, n);
    && ShowsFrom(s, ws, b, from)
    && (if from > 0 then s.nextId == sys.nextId + n + 1 else s.nextId <= sys.nextId + n + 1)
  }

  lemma {:induction false} RoundByRound(size: nat, sys: System, ws: string, n: nat)
    requires size >= 1 && Ascending(Log(sys, ws)) && UniqueIds(Log(sys, ws))
    requires forall id | id in sys.net :: id < sys.nextId
    ensures RoundsDone(size, sys, ws, Log(sys, ws), n, Run(size, sys, Reading(ws, sys.nextId, n)))
  {
    if n == 0 {
      FirstRound(size, sys, ws);
    } else {
      var before, id := Reading(ws, sys.nextId, n - 1), sys.nextId + n;
      var round := [LoadOlder, Serve(id), Deliver(id)];
      RoundByRound(size, sys, ws, n - 1);
      assert Reading(ws, sys.nextId, n) == before + round;
      RunConcat(size, sys, before, round);
      OneMoreRound(size, sys, ws, Log(sys, ws), n, Run(size, sys, before));
    }
  }

  lemma OneMoreRound(size: nat, sys: System, ws: string, b: seq<Item>, n: nat, s: System)
    requires size >= 1 && n >= 1 && Ascending(b) && UniqueIds(b) && RoundsDone(size, sys, ws, b, n - 1, s)
    ensures var id := sys.nextId + n;
            RoundsDone(size, sys, ws, b, n, Run(size, s, [LoadOlder, Serve(id), Deliver(id)]))
  {
    var from, id := StartAfter(|b|, size, n - 1), sys.nextId + n;
    assert from > 0 ==> id == s.nextId;
    assert StartAfter(|b|, size, n) == Beneath(from, size);
    NextRound(size, s, ws, b, from, id);
  }

  /** Reading on shows more and more: after `n` requests for older items exactly the newest
      `n + 1` pages' worth, in order, and more is offered if and only if there is more. */
  lemma ReadingOnShowsTheNewest(size: nat, sys: System, ws: string, n: nat)
    requires size >= 1 && UniqueIds(Memories(sys, ws)) && forall id | id in sys.net :: id < sys.nextId
    ensures var c := Run(size, sys, Reading(ws, sys.nextId, n)).client;
            && c.active == Some(ws) && c.items == Newest(Log(sys, ws), (n + 1) * size)
            && (c.hasMore <==> |Log(sys, ws)| > (n + 1) * size)
  {
    var b := Log(sys, ws);
    SortedTimeline(Memories(sys, ws));
    SortUnique(Memories(sys, ws));
    RoundByRound(size, sys, ws, n);
    StartAfterIs(|b|, size, n);
    assert b[0..] == b;
  }
}
