/** The paginated feed of the web client as a machine: activations, one older fetch at a
    time, and replies that come back in any order or not at all. */
module PaginatedFeed {
  import opened Options
  import opened Ordering
  import opened Timeline

  datatype Request = Request(ws: string, activation: nat, before: Option<Key>)

  /** A request on its way. `log` records which timeline a reply was cut from; the client
      never sees it, nor the activation number. */
  datatype Flight =
    | Sent(req: Request)
    | Served(req: Request, page: Page, log: seq<Item>)
    | Failed(req: Request)

  datatype Client = Client(
    active: Option<string>, activation: nat, items: seq<Item>, hasMore: bool,
    cursor: Option<Key>, loadingOlder: bool, cache: map<string, seq<Item>>)

  /** `base` is the timeline that the current activation's first reply was cut from. */
  datatype System = System(
    server: map<string, seq<Item>>, client: Client, net: map<nat, Flight>, nextId: nat,
    base: Option<seq<Item>>)

  datatype Step =
    | Arrive(ws: string, item: Item)
    | Activate(ws: string)
    | LoadOlder
    | Serve(id: nat)
    | Lose(id: nat)
    | Deliver(id: nat)

  function Memories(sys: System, ws: string): seq<Item> {
    if ws in sys.server then sys.server[ws] else []
  }

  function Log(sys: System, ws: string): seq<Item> {
    Sort(KeyOf, Memories(sys, ws))
  }

  function Cached(c: Client, ws: string): seq<Item> {
    if ws in c.cache then c.cache[ws] else []
  }

  function Next(size: nat, sys: System, step: Step): System
    requires size >= 1
  {
    var c := sys.client;
    match step
    case Arrive(ws, item) =>
      if HasId(Memories(sys, ws), item.id) then sys
      else sys.(server := sys.server[ws := Memories(sys, ws) + [item]])
    case Activate(ws) =>
      sys.(client := Client(Some(ws), c.activation + 1, Cached(c, ws), false, None, false, c.cache),
           net := sys.net[sys.nextId := Sent(Request(ws, c.activation + 1, None))],
           nextId := sys.nextId + 1, base := None)
    case LoadOlder =>
      if !c.hasMore || c.loadingOlder || c.cursor.None? || c.active.None? then sys
      else sys.(client := c.(loadingOlder := true),
                net := sys.net[sys.nextId := Sent(Request(c.active.value, c.activation, c.cursor))],
                nextId := sys.nextId + 1)
    case Serve(id) =>
      if id !in sys.net || !sys.net[id].Sent? then sys
      else
        var req := sys.net[id].req;
        var page := ReadTimeline(Memories(sys, req.ws), Some(size), req.before).value;
        sys.(net := sys.net[id := Served(req, page, Log(sys, req.ws))])
    case Lose(id) =>
      if id !in sys.net then sys else sys.(net := sys.net[id := Failed(sys.net[id].req)])
    case Deliver(id) =>
      if id !in sys.net || sys.net[id].Sent? then sys
      else
        var flight := sys.net[id];
        var landed := sys.(net := sys.net - {id});
        if c.active != Some(flight.req.ws) then landed
        else if flight.req.before.None? then
          if flight.Failed? then landed
          else landed.(client := c.(cache := c.cache[flight.req.ws := flight.page.items],
                                    items := flight.page.items, hasMore := flight.page.hasMore,
                                    cursor := flight.page.nextCursor),
                       base := Some(flight.log))
        else
          if flight.Failed? then landed.(client := c.(loadingOlder := false))
          else landed.(client := c.(items := Merge(c.items, flight.page.items),
                                    hasMore := flight.page.hasMore,
                                    cursor := flight.page.nextCursor, loadingOlder := false))
  }

  function Run(size: nat, sys: System, steps: seq<Step>): System
    requires size >= 1
    decreases |steps|
  {
    if steps == [] then sys else Run(size, Next(size, sys, steps[0]), steps[1..])
  }

  // --------------------------------------------------------------- within one activation

  predicate Current(sys: System, id: nat) {
    id in sys.net && sys.net[id].req.activation == sys.client.activation
  }

  /** Newer than every cursor the current activation holds or is about to receive. */
  ghost predicate NewerThanCursors(sys: System, item: Item) {
    && (sys.client.cursor.Some? ==> Before(sys.client.cursor.value, KeyOf(item)))
    && (forall id | Current(sys, id) && sys.net[id].Served? && sys.net[id].page.nextCursor.Some? ::
          Before(sys.net[id].page.nextCursor.value, KeyOf(item)))
  }

  /** The activation condition: no reply of an earlier activation of the same workspace is
      delivered into this one, and what arrives in the open workspace is newer than the
      cursors in use. */
  ghost predicate WithinActivation(sys: System, step: Step) {
    match step
    case Deliver(id) =>
      id in sys.net && sys.client.active == Some(sys.net[id].req.ws) ==> Current(sys, id)
    case Arrive(ws, item) => sys.client.active == Some(ws) ==> NewerThanCursors(sys, item)
    case _ => true
  }

  ghost predicate WithinActivations(size: nat, sys: System, steps: seq<Step>)
    requires size >= 1
    decreases |steps|
  {
    steps == [] || (WithinActivation(sys, steps[0])
                    && WithinActivations(size, Next(size, sys, steps[0]), steps[1..]))
  }

  function From(sys: System): int
    requires sys.base.Some?
  {
    |sys.base.value| - |sys.client.items|
  }

  /** The client holds exactly the suffix of the timeline that starts at its cursor. */
  ghost predicate HoldsSuffix(sys: System) {
    var c := sys.client;
    sys.base.Some? && c.active.Some? &&
    var b := sys.base.value;
    && Ascending(b) && UniqueIds(b)
    && 0 <= From(sys) && c.items == b[From(sys)..]
    && c.hasMore == (From(sys) > 0)
    && (From(sys) == 0 ==> c.cursor.None?)
    && (From(sys) > 0 ==>
          && From(sys) < |b| && c.cursor == Some(KeyOf(b[From(sys)]))
          && Pool(Log(sys, c.active.value), c.cursor) == b[..From(sys)])
  }

  ghost predicate Waiting(sys: System) {
    sys.base.None? && sys.client.cursor.None? && !sys.client.hasMore && !sys.client.loadingOlder
  }

  /** A page about to be delivered was cut from `pool`, and what lies below it is still
      what lay below it then. */
  ghost predicate PageFits(size: nat, sys: System, page: Page, pool: seq<Item>)
    requires size >= 1 && sys.client.active.Some?
  {
    && page == PageOf(pool, size)
    && (page.nextCursor.Some? ==>
          Pool(Log(sys, sys.client.active.value), page.nextCursor) == Pool(pool, page.nextCursor))
  }

  ghost predicate FlightFits(size: nat, sys: System, id: nat)
    requires size >= 1 && Current(sys, id) && sys.client.active.Some?
  {
    var f := sys.net[id];
    && sys.client.active == Some(f.req.ws)
    && (sys.base.None? ==>
          && f.req.before.None?
          && (f.Served? ==> Ascending(f.log) && UniqueIds(f.log) && PageFits(size, sys, f.page, f.log)))
    && (sys.base.Some? ==>
          && HoldsSuffix(sys) && sys.client.loadingOlder && sys.client.hasMore
          && f.req.before == sys.client.cursor
          && (f.Served? ==> PageFits(size, sys, f.page, sys.base.value[..From(sys)])))
  }

  ghost predicate Inv(size: nat, sys: System)
    requires size >= 1
  {
    && (forall ws :: UniqueIds(Memories(sys, ws)))
    && (forall id | id in sys.net ::
          id < sys.nextId && sys.net[id].req.activation <= sys.client.activation)
    && (sys.client.active.None? ==> sys.client.activation == 0 && sys.net == map[] && Waiting(sys))
    && (sys.client.active.Some? ==>
          && (Waiting(sys) || HoldsSuffix(sys))
          && (forall id, id' | Current(sys, id) && Current(sys, id') :: id == id')
          && (forall id | Current(sys, id) :: FlightFits(size, sys, id))
          && (sys.client.loadingOlder ==> exists id :: Current(sys, id)))
  }

  function Init(server: map<string, seq<Item>>): System {
    System(server, Client(None, 0, [], false, None, false, map[]), map[], 0, None)
  }

  lemma ArriveKeepsInv(size: nat, sys: System, ws: string, item: Item)
    requires size >= 1 && Inv(size, sys) && WithinActivation(sys, Arrive(ws, item))
    ensures Inv(size, Next(size, sys, Arrive(ws, item)))
  {
    var sys' := Next(size, sys, Arrive(ws, item));
    if sys' != sys {
      var memories := Memories(sys, ws);
      assert UniqueIds(memories + [item]);
      forall w ensures UniqueIds(Memories(sys', w)) {
        assert w != ws ==> Memories(sys', w) == Memories(sys, w);
      }
      if sys.client.active.Some? {
        forall c | Before(c, KeyOf(item)) || sys.client.active != Some(ws)
          ensures Pool(Log(sys', sys.client.active.value), Some(c)) == Pool(Log(sys, sys.client.active.value), Some(c))
        {
          if sys.client.active == Some(ws) {
            PoolAfterArrival(memories, item, c);
          } else {
            assert Memories(sys', sys.client.active.value) == Memories(sys, sys.client.active.value);
          }
        }
        assert HoldsSuffix(sys) ==> HoldsSuffix(sys');
        assert forall id :: Current(sys', id) <==> Current(sys, id);
        forall id | Current(sys', id) ensures FlightFits(size, sys', id) {
          assert Current(sys, id) && FlightFits(size, sys, id);
        }
        if sys.client.loadingOlder {
          var id :| Current(sys, id);
          assert Current(sys', id);
        }
      }
    }
  }

  lemma PoolAfterArrival(a: seq<Item>, item: Item, c: Key)
    requires UniqueIds(a + [item]) && UniqueIds(a) && Before(c, KeyOf(item))
    ensures Pool(Sort(KeyOf, a + [item]), Some(c)) == Pool(Sort(KeyOf, a), Some(c))
  {
    forall x | Before(KeyOf(x), c) ensures x in a + [item] <==> x in a {
      BeforeIsTotal(KeyOf(x), c);
    }
    PoolDependsOnOlderItems(a + [item], a, c);
  }

  lemma ServeKeepsInv(size: nat, sys: System, id: nat)
    requires size >= 1 && Inv(size, sys)
    ensures Inv(size, Next(size, sys, Serve(id)))
  {
    var sys' := Next(size, sys, Serve(id));
    if sys' != sys {
      var req := sys.net[id].req;
      var log := Log(sys, req.ws);
      SortedTimeline(Memories(sys, req.ws));
      assert forall w :: Memories(sys', w) == Memories(sys, w);
      assert forall w :: Log(sys', w) == Log(sys, w);
      assert HoldsSuffix(sys) ==> HoldsSuffix(sys');
      assert forall k :: Current(sys', k) <==> Current(sys, k);
      forall k | Current(sys', k) ensures FlightFits(size, sys', k) {
        assert Current(sys, k) && FlightFits(size, sys, k);
        if k == id {
          ServedPageFits(size, sys, id);
        }
      }
      if sys.client.loadingOlder {
        var k :| Current(sys, k);
        assert Current(sys', k);
      }
    }
  }

  /** A page served now fits, whether it is the first or an older one. */
  lemma ServedPageFits(size: nat, sys: System, id: nat)
    requires size >= 1 && sys.client.active.Some? && Current(sys, id) && FlightFits(size, sys, id)
    requires UniqueIds(Memories(sys, sys.net[id].req.ws))
    ensures var req := sys.net[id].req;
            var page := ReadTimeline(Memories(sys, req.ws), Some(size), req.before).value;
            && Ascending(Log(sys, req.ws)) && UniqueIds(Log(sys, req.ws))
            && PageFits(size, sys, page, if sys.base.None? then Log(sys, req.ws) else sys.base.value[..From(sys)])
  {
    var req := sys.net[id].req;
    var log := Log(sys, req.ws);
    SortedTimeline(Memories(sys, req.ws));
    SortUnique(Memories(sys, req.ws));
    var pool := Pool(log, req.before);
    var page := PageOf(pool, size);
    if sys.base.Some? && page.nextCursor.Some? {
      NextPoolIsShorter(log, size, req.before);
      PoolAtOwnKey(pool, |pool| - size);
    }
  }

  lemma DeliverFirstKeepsInv(size: nat, sys: System, id: nat)
    requires size >= 1 && Inv(size, sys) && Current(sys, id) && sys.client.active.Some?
    requires sys.net[id].req.before.None? && sys.net[id].Served?
    ensures HoldsSuffix(Next(size, sys, Deliver(id)))
    ensures !Next(size, sys, Deliver(id)).client.loadingOlder
  {
    assert FlightFits(size, sys, id);
    var sys' := Next(size, sys, Deliver(id));
    var b, page := sys.net[id].log, sys.net[id].page;
    assert Memories(sys', sys.client.active.value) == Memories(sys, sys.client.active.value);
    if |b| > size {
      PoolAtOwnKey(b, |b| - size);
      assert From(sys') == |b| - size;
    } else {
      assert From(sys') == 0 && b[0..] == b;
    }
  }

  lemma DeliverOlderKeepsInv(size: nat, sys: System, id: nat)
    requires size >= 1 && Inv(size, sys) && Current(sys, id) && sys.client.active.Some?
    requires sys.net[id].req.before.Some? && sys.net[id].Served?
    ensures HoldsSuffix(Next(size, sys, Deliver(id)))
    ensures !Next(size, sys, Deliver(id)).client.loadingOlder
  {
    assert FlightFits(size, sys, id);
    var sys' := Next(size, sys, Deliver(id));
    var b, from, page := sys.base.value, From(sys), sys.net[id].page;
    assert Memories(sys', sys.client.active.value) == Memories(sys, sys.client.active.value);
    var p := if from > size then from - size else 0;
    assert page.items == b[p..from];
    MergeIsContiguousIff(b, from, p, from);
    assert sys'.client.items == b[p..] && From(sys') == p;
    if p > 0 {
      assert b[..from][p] == b[p];
      PoolAtOwnKey(b[..from], p);
      assert b[..from][..p] == b[..p];
    }
  }

  lemma DeliverKeepsInv(size: nat, sys: System, id: nat)
    requires size >= 1 && Inv(size, sys) && WithinActivation(sys, Deliver(id))
    ensures Inv(size, Next(size, sys, Deliver(id)))
  {
    var sys' := Next(size, sys, Deliver(id));
    if sys' != sys {
      assert forall w :: Memories(sys', w) == Memories(sys, w);
      assert forall k :: Current(sys', k) <==> Current(sys, k) && k != id;
      if Current(sys, id) {
        assert FlightFits(size, sys, id);
        if sys.net[id].Served? {
          if sys.net[id].req.before.None? {
            DeliverFirstKeepsInv(size, sys, id);
          } else {
            DeliverOlderKeepsInv(size, sys, id);
          }
        }
      } else {
        assert sys' == sys.(net := sys.net - {id});
        forall k | Current(sys', k) ensures FlightFits(size, sys', k) {
          assert Current(sys, k) && FlightFits(size, sys, k);
        }
        if sys.client.loadingOlder {
          var k :| Current(sys, k);
          assert Current(sys', k);
        }
      }
    }
  }

  lemma LoseKeepsInv(size: nat, sys: System, id: nat)
    requires size >= 1 && Inv(size, sys)
    ensures Inv(size, Next(size, sys, Lose(id)))
  {
    var sys' := Next(size, sys, Lose(id));
    assert forall w :: Memories(sys', w) == Memories(sys, w);
    forall k | Current(sys', k) ensures Current(sys, k) {}
    forall k | sys.client.active.Some? && Current(sys', k) ensures FlightFits(size, sys', k) {
      assert FlightFits(size, sys, k);
    }
    if sys.client.active.Some? && sys.client.loadingOlder {
      var k :| Current(sys, k);
      assert Current(sys', k);
    }
  }

  lemma RequestKeepsInv(size: nat, sys: System, step: Step)
    requires size >= 1 && Inv(size, sys) && (step.Activate? || step == LoadOlder)
    ensures Inv(size, Next(size, sys, step))
  {
    var sys' := Next(size, sys, step);
    if sys' != sys {
      assert forall w :: Memories(sys', w) == Memories(sys, w);
      assert Current(sys', sys.nextId);
      if step == LoadOlder {
        assert forall id :: !Current(sys, id);
      }
      forall id | Current(sys', id) ensures id == sys.nextId {
        assert id != sys.nextId && step == LoadOlder ==> Current(sys, id);
      }
    }
  }

  /** Over any run within activations, replies in any order and failures allowed: the items
      are the ascending, id-unique suffix of the timeline from the cursor, at most one
      request of the activation is under way, and `hasMore` is false after the first reply
      exactly when the whole timeline of that reply is held. */
  lemma {:induction false} ActivationHoldsSuffix(size: nat, sys: System, steps: seq<Step>)
    requires size >= 1 && Inv(size, sys) && WithinActivations(size, sys, steps)
    ensures var sys' := Run(size, sys, steps);
            && Inv(size, sys')
            && (forall id, id' | Current(sys', id) && Current(sys', id') :: id == id')
            && (sys'.base.Some? ==>
                  && HoldsSuffix(sys') && Ascending(sys'.client.items)
                  && UniqueIds(sys'.client.items)
                  && (!sys'.client.hasMore <==> sys'.client.items == sys'.base.value))
    decreases |steps|
  {
    if steps == [] {
      if sys.base.Some? {
        assert HoldsSuffix(sys);
        assert sys.base.value[0..] == sys.base.value;
      }
    } else {
      match steps[0] {
        case Arrive(ws, item) => ArriveKeepsInv(size, sys, ws, item);
        case Serve(id) => ServeKeepsInv(size, sys, id);
        case Lose(id) => LoseKeepsInv(size, sys, id);
        case Deliver(id) => DeliverKeepsInv(size, sys, id);
        case _ => RequestKeepsInv(size, sys, steps[0]);
      }
      ActivationHoldsSuffix(size, Next(size, sys, steps[0]), steps[1..]);
    }
  }

  lemma InitInv(size: nat, server: map<string, seq<Item>>)
    requires size >= 1 && forall ws | ws in server :: UniqueIds(server[ws])
    ensures Inv(size, Init(server))
  {
  }

  // ------------------------------------------------------------- across activations

  predicate Tidy(items: seq<Item>) {
    Ascending(items) && UniqueIds(items)
  }

  /** Everything the client shows, keeps or is about to receive is in order. */
  ghost predicate Sound(sys: System) {
    && (forall ws :: UniqueIds(Memories(sys, ws)))
    && (forall id | id in sys.net && sys.net[id].Served? :: Tidy(sys.net[id].page.items))
    && Tidy(sys.client.items)
    && (forall ws | ws in sys.client.cache :: Tidy(sys.client.cache[ws]))
  }

  lemma ServeIsTidy(size: nat, memories: seq<Item>, before: Option<Key>)
    requires size >= 1 && UniqueIds(memories)
    ensures Tidy(ReadTimeline(memories, Some(size), before).value.items)
  {
    var all := Sort(KeyOf, memories);
    SortedTimeline(memories);
    SortUnique(memories);
    if before.Some? {
      OlderThanKeepsOrder(all, before.value);
      OlderThanUnique(all, before.value);
    }
  }

  lemma {:induction false} OlderThanUnique(all: seq<Item>, cursor: Key)
    requires UniqueIds(all)
    ensures UniqueIds(OlderThan(all, cursor))
  {
    if all != [] {
      OlderThanUnique(all[1..], cursor);
      OlderThanMembers(all[1..], cursor);
      forall x | x in OlderThan(all[1..], cursor) ensures x.id != all[0].id {
        var j :| 0 <= j < |all[1..]| && all[1..][j] == x;
        assert all[j + 1] == x;
      }
    }
  }

  lemma ArriveStaysSound(size: nat, sys: System, ws: string, item: Item)
    requires size >= 1 && Sound(sys)
    ensures Sound(Next(size, sys, Arrive(ws, item)))
  {
    var sys' := Next(size, sys, Arrive(ws, item));
    if sys' != sys {
      assert UniqueIds(Memories(sys, ws) + [item]);
      forall w ensures UniqueIds(Memories(sys', w)) {
        assert w != ws ==> Memories(sys', w) == Memories(sys, w);
      }
    }
  }

  lemma SameServerSameMemories(a: System, b: System)
    requires a.server == b.server && forall ws :: UniqueIds(Memories(a, ws))
    ensures forall ws :: UniqueIds(Memories(b, ws))
  {
    assert forall ws :: Memories(b, ws) == Memories(a, ws);
  }

  lemma StepStaysSound(size: nat, sys: System, step: Step)
    requires size >= 1 && Sound(sys)
    ensures Sound(Next(size, sys, step))
  {
    var sys' := Next(size, sys, step);
    if step.Arrive? {
      ArriveStaysSound(size, sys, step.ws, step.item);
    } else {
      SameServerSameMemories(sys, sys');
      if step.Serve? && step.id in sys.net {
        ServeIsTidy(size, Memories(sys, sys.net[step.id].req.ws), sys.net[step.id].req.before);
      } else if step.Deliver? && step.id in sys.net && sys.net[step.id].Served? {
        MergeIsUnion(sys.client.items, sys.net[step.id].page.items);
        MergeUnique(sys.client.items, sys.net[step.id].page.items);
      }
    }
  }

  /** Over every run at all, with replies of earlier activations and arrivals anywhere in the
      timeline, what the client shows is ascending and holds no id twice. */
  lemma {:induction false} AlwaysInOrder(size: nat, sys: System, steps: seq<Step>)
    requires size >= 1 && Sound(sys)
    ensures Sound(Run(size, sys, steps))
    ensures Ascending(Run(size, sys, steps).client.items) && UniqueIds(Run(size, sys, steps).client.items)
    decreases |steps|
  {
    if steps != [] {
      StepStaysSound(size, sys, steps[0]);
      AlwaysInOrder(size, Next(size, sys, steps[0]), steps[1..]);
    }
  }

  /** From the start, on any server whose memories have unique ids: what is shown is always in
      order, and within activations it is the suffix from the cursor. */
  lemma FeedFromTheStart(size: nat, server: map<string, seq<Item>>, steps: seq<Step>)
    requires size >= 1 && forall ws | ws in server :: UniqueIds(server[ws])
    ensures var sys := Run(size, Init(server), steps);
            && Ascending(sys.client.items) && UniqueIds(sys.client.items)
            && (WithinActivations(size, Init(server), steps) && sys.base.Some? ==>
                  HoldsSuffix(sys) && (!sys.client.hasMore <==> sys.client.items == sys.base.value))
  {
    InitInv(size, server);
    AlwaysInOrder(size, Init(server), steps);
    if WithinActivations(size, Init(server), steps) {
      ActivationHoldsSuffix(size, Init(server), steps);
    }
  }

  // ------------------------------------------------- across activations: the gap

  /** An older page for the open workspace arrives that was asked for at item `q`, in this
      activation or an earlier one. The client still holds the suffix from its cursor if and
      only if what it held starts at `q` or inside the page, and nothing has arrived since
      beneath the page's first item. Comparing the request's cursor and the page's first key
      with the cursor held tells the former. */
  lemma OlderPageFitsIff(size: nat, sys: System, id: nat, q: nat)
    requires size >= 1 && HoldsSuffix(sys) && q < |sys.base.value|
    requires id in sys.net && sys.net[id].Served? && sys.client.active == Some(sys.net[id].req.ws)
    requires sys.net[id].req.before == Some(KeyOf(sys.base.value[q]))
    requires sys.net[id].page == PageOf(sys.base.value[..q], size)
    ensures var b, p := sys.base.value, if q > size then q - size else 0;
            HoldsSuffix(Next(size, sys, Deliver(id)))
            <==> p <= From(sys) <= q
                 && (p > 0 ==> Pool(Log(sys, sys.net[id].req.ws), Some(KeyOf(b[p]))) == b[..p])
  {
    var b, p := sys.base.value, if q > size then q - size else 0;
    var sys' := Next(size, sys, Deliver(id));
    PageSlice(size, b, q);
    MergeIsContiguousIff(b, From(sys), p, q);
    OlderPageDelivered(size, sys, id);
    SameServerSameLog(sys, sys', sys.net[id].req.ws);
    SuffixAtCursorIff(sys', p);
  }

  lemma PageSlice(size: nat, b: seq<Item>, q: nat)
    requires size >= 1 && q <= |b|
    ensures var p := if q > size then q - size else 0;
            PageOf(b[..q], size) == Page(b[p..q], p > 0, if p > 0 then Some(KeyOf(b[p])) else None)
  {
    var p := if q > size then q - size else 0;
    assert b[..q][p..] == b[p..q];
  }

  lemma OlderPageDelivered(size: nat, sys: System, id: nat)
    requires size >= 1 && id in sys.net && sys.net[id].Served? && sys.net[id].req.before.Some?
    requires sys.client.active == Some(sys.net[id].req.ws)
    ensures var sys', page := Next(size, sys, Deliver(id)), sys.net[id].page;
            && sys'.server == sys.server && sys'.base == sys.base && sys'.client.active == sys.client.active
            && sys'.client.items == Merge(sys.client.items, page.items)
            && sys'.client.hasMore == page.hasMore && sys'.client.cursor == page.nextCursor
  {
  }

  /** Whose cursor and `hasMore` say that everything from item `p` is held: it is so if and
      only if the items are that suffix, and beneath it lies what lay there. */
  lemma SuffixAtCursorIff(sys: System, p: nat)
    requires sys.base.Some? && sys.client.active.Some? && p <= |sys.base.value|
    requires Ascending(sys.base.value) && UniqueIds(sys.base.value)
    requires sys.client.hasMore == (p > 0) && (p > 0 ==> p < |sys.base.value|)
    requires sys.client.cursor == if p > 0 then Some(KeyOf(sys.base.value[p])) else None
    ensures HoldsSuffix(sys)
            <==> && sys.client.items == sys.base.value[p..]
                 && (p > 0 ==> Pool(Log(sys, sys.client.active.value), sys.client.cursor) == sys.base.value[..p])
  {
    var b := sys.base.value;
    if HoldsSuffix(sys) && p > 0 {
      var from := From(sys);
      if from < p { BeforeIsTotal(KeyOf(b[from]), KeyOf(b[p])); }
      if p < from { BeforeIsTotal(KeyOf(b[p]), KeyOf(b[from])); }
    }
  }

  lemma {:induction false} RunConcat(size: nat, sys: System, a: seq<Step>, b: seq<Step>)
    requires size >= 1
    ensures Run(size, sys, a + b) == Run(size, Run(size, sys, a), b)
    decreases |a|
  {
    if a == [] {
      assert a + b == b;
    } else {
      assert (a + b)[1..] == a[1..] + b;
      RunConcat(size, Next(size, sys, a[0]), a[1..], b);
    }
  }

  lemma ThreeSteps(size: nat, sys: System, a: Step, b: Step, d: Step)
    requires size >= 1
    ensures Run(size, sys, [a, b, d]) == Next(size, Next(size, Next(size, sys, a), b), d)
  {
    var s1 := Next(size, sys, a);
    var s2 := Next(size, s1, b);
    assert [a, b, d][1..] == [b, d] && [b, d][1..] == [d] && [d][1..] == [];
    assert Run(size, s1, [b, d]) == Run(size, s2, [d]);
    assert Run(size, s2, [d]) == Run(size, Next(size, s2, d), []);
  }

  /** Opening a workspace and getting its first page, with anything else under way. */
  lemma OpenRun(size: nat, sys: System, ws: string)
    requires size >= 1 && sys.nextId !in sys.net
    ensures var page := PageOf(Log(sys, ws), size);
            Run(size, sys, [Activate(ws), Serve(sys.nextId), Deliver(sys.nextId)])
            == sys.(client := Client(Some(ws), sys.client.activation + 1, page.items, page.hasMore,
                                     page.nextCursor, false, sys.client.cache[ws := page.items]),
                    nextId := sys.nextId + 1, base := Some(Log(sys, ws)))
  {
    var id := sys.nextId;
    ThreeSteps(size, sys, Activate(ws), Serve(id), Deliver(id));
    var s1 := Next(size, sys, Activate(ws));
    var s2 := Next(size, s1, Serve(id));
    FirstPageServed(size, s1, id, Request(ws, sys.client.activation + 1, None));
    assert Log(s1, ws) == Log(sys, ws);
    assert s2.net - {id} == sys.net;
  }

  lemma FirstPageServed(size: nat, sys: System, id: nat, req: Request)
    requires size >= 1 && id in sys.net && sys.net[id] == Sent(req) && req.before == None
    ensures Next(size, sys, Serve(id))
         == sys.(net := sys.net[id := Served(req, PageOf(Log(sys, req.ws), size), Log(sys, req.ws))])
  {
  }

  /** Loading one older page, with anything else under way. */
  lemma LoadOlderRun(size: nat, sys: System)
    requires size >= 1 && sys.nextId !in sys.net
    requires sys.client.active.Some? && sys.client.hasMore && !sys.client.loadingOlder && sys.client.cursor.Some?
    ensures var page := PageOf(Pool(Log(sys, sys.client.active.value), sys.client.cursor), size);
            Run(size, sys, [LoadOlder, Serve(sys.nextId), Deliver(sys.nextId)])
            == sys.(client := sys.client.(items := Merge(sys.client.items, page.items),
                                          hasMore := page.hasMore, cursor := page.nextCursor),
                    nextId := sys.nextId + 1)
  {
    var id, ws := sys.nextId, sys.client.active.value;
    ThreeSteps(size, sys, LoadOlder, Serve(id), Deliver(id));
    var s1 := Next(size, sys, LoadOlder);
    var s2 := Next(size, s1, Serve(id));
    assert Memories(s1, ws) == Memories(sys, ws);
    assert s2.net - {id} == sys.net;
  }

  /** Leaving with an older fetch under way and coming back before it answers: it is
      answered, and delivered, in the new activation. */
  function LeaveAndReturn(ws: string, other: string): seq<Step> {
    [LoadOlder, Activate(other), Serve(2)]
  }

  lemma LeaveRun(size: nat, sys: System, ws: string, other: string)
    requires size >= 1 && sys.net == map[] && sys.nextId == 2
    requires sys.client.active == Some(ws) && sys.client.hasMore && !sys.client.loadingOlder
    requires sys.client.cursor.Some?
    ensures var s' := Run(size, sys, LeaveAndReturn(ws, other));
            var page := PageOf(Pool(Log(sys, ws), sys.client.cursor), size);
            && s'.server == sys.server && s'.nextId == 4
            && s'.net.Keys == {2, 3}
            && s'.net[2] == Served(Request(ws, sys.client.activation, sys.client.cursor), page, Log(sys, ws))
  {
    ThreeSteps(size, sys, LoadOlder, Activate(other), Serve(2));
    var s1 := Next(size, sys, LoadOlder);
    var s2 := Next(size, s1, Activate(other));
    assert s2.net.Keys == {2, 3};
    assert Memories(s2, ws) == Memories(sys, ws);
  }

  function GapSteps(ws: string, other: string): seq<Step> {
    [Activate(ws), Serve(0), Deliver(0)] + SECOND_PAGE + LeaveAndReturn(ws, other)
    + [Activate(ws), Serve(4), Deliver(4)] + [Deliver(2)]
  }

  const SECOND_PAGE: seq<Step> := [LoadOlder, Serve(1), Deliver(1)]

  lemma FirstPageLoaded(size: nat, s0: System, ws: string, b: seq<Item>)
    requires size >= 1 && s0.net == map[] && s0.nextId == 0
    requires b == Log(s0, ws) && |b| > size
    ensures var s1 := Run(size, s0, [Activate(ws), Serve(0), Deliver(0)]);
            && s1.server == s0.server && s1.net == map[] && s1.nextId == 1
            && s1.client.active == Some(ws) && s1.client.hasMore && !s1.client.loadingOlder
            && s1.client.cursor == Some(KeyOf(b[|b| - size]))
  {
    OpenRun(size, s0, ws);
  }

  lemma SecondPageLoaded(size: nat, s1: System, ws: string, b: seq<Item>)
    requires size >= 1 && s1.net == map[] && s1.nextId == 1
    requires b == Log(s1, ws) && Ascending(b) && |b| > 2 * size
    requires s1.client.active == Some(ws) && s1.client.hasMore && !s1.client.loadingOlder
    requires s1.client.cursor == Some(KeyOf(b[|b| - size]))
    ensures var s2 := Run(size, s1, SECOND_PAGE);
            && s2.server == s1.server && s2.net == map[] && s2.nextId == 2
            && s2.client.active == Some(ws) && s2.client.hasMore && !s2.client.loadingOlder
            && s2.client.cursor == Some(KeyOf(b[|b| - 2 * size]))
  {
    LoadOlderRun(size, s1);
    PageBelow(size, b);
  }

  lemma PageBelow(size: nat, b: seq<Item>)
    requires size >= 1 && Ascending(b) && |b| > 2 * size
    ensures var page := PageOf(Pool(b, Some(KeyOf(b[|b| - size]))), size);
            page.hasMore && page.nextCursor == Some(KeyOf(b[|b| - 2 * size]))
  {
    PoolAtOwnKey(b, |b| - size);
    PageSlice(size, b, |b| - size);
  }

  /** Reopening the workspace, and only then getting an older page asked for before. */
  lemma StalePageDelivered(size: nat, s3: System, ws: string, b: seq<Item>, req: Request, page: Page)
    requires size >= 1 && s3.nextId == 4 && s3.net.Keys == {2, 3}
    requires b == Log(s3, ws) && |b| > size
    requires req.ws == ws && req.before.Some? && s3.net[2] == Served(req, page, b)
    ensures var c := Next(size, Run(size, s3, [Activate(ws), Serve(4), Deliver(4)]), Deliver(2)).client;
            && c.active == Some(ws) && c.items == Merge(b[|b| - size..], page.items)
            && c.hasMore == page.hasMore && c.cursor == page.nextCursor
  {
    OpenRun(size, s3, ws);
    var s4 := Run(size, s3, [Activate(ws), Serve(4), Deliver(4)]);
    assert s4.net[2] == Served(req, page, b);
    assert s4.client.items == b[|b| - size..];
  }

  lemma GapRun(size: nat, s0: System, ws: string, other: string)
    requires size >= 1
    ensures var s1 := Run(size, s0, [Activate(ws), Serve(0), Deliver(0)]);
            var s3 := Run(size, Run(size, s1, SECOND_PAGE), LeaveAndReturn(ws, other));
            Run(size, s0, GapSteps(ws, other))
            == Next(size, Run(size, s3, [Activate(ws), Serve(4), Deliver(4)]), Deliver(2))
  {
    var open, leave := [Activate(ws), Serve(0), Deliver(0)], LeaveAndReturn(ws, other);
    var back := [Activate(ws), Serve(4), Deliver(4)];
    RunConcat(size, s0, open, SECOND_PAGE);
    RunConcat(size, s0, open + SECOND_PAGE, leave);
    RunConcat(size, s0, open + SECOND_PAGE + leave, back);
    RunConcat(size, s0, open + SECOND_PAGE + leave + back, [Deliver(2)]);
    var s4 := Run(size, s0, open + SECOND_PAGE + leave + back);
    assert [Deliver(2)][1..] == [];
    assert Run(size, s4, [Deliver(2)]) == Run(size, Next(size, s4, Deliver(2)), []);
  }

  /** The first visit: two pages loaded, a third asked for, another workspace opened. */
  lemma FirstVisit(size: nat, s0: System, ws: string, other: string, b: seq<Item>) returns (act: nat)
    requires size >= 1 && s0.net == map[] && s0.nextId == 0
    requires b == Log(s0, ws) && Ascending(b) && |b| > 2 * size
    ensures var s1 := Run(size, s0, [Activate(ws), Serve(0), Deliver(0)]);
            var s3 := Run(size, Run(size, s1, SECOND_PAGE), LeaveAndReturn(ws, other));
            var before := Some(KeyOf(b[|b| - 2 * size]));
            && s3.server == s0.server && s3.nextId == 4 && s3.net.Keys == {2, 3}
            && s3.net[2] == Served(Request(ws, act, before), PageOf(Pool(b, before), size), b)
  {
    FirstPageLoaded(size, s0, ws, b);
    var s1 := Run(size, s0, [Activate(ws), Serve(0), Deliver(0)]);
    SameServerSameLog(s0, s1, ws);
    SecondPageLoaded(size, s1, ws, b);
    var s2 := Run(size, s1, SECOND_PAGE);
    SameServerSameLog(s0, s2, ws);
    LeaveRun(size, s2, ws, other);
    act := s2.client.activation;
  }

  /** What the stale page does to the items. */
  ghost predicate HasGap(size: nat, b: seq<Item>, c: Client)
    requires size >= 1 && |b| > 2 * size
  {
    var n := |b|;
    var p := if n > 3 * size then n - 3 * size else 0;
    && c.items == Merge(b[n - size..], b[p..n - 2 * size])
    && (forall k | n - 2 * size <= k < n - size :: b[k] !in c.items)
    && c.hasMore == (p > 0)
    && c.cursor == if p > 0 then Some(KeyOf(b[p])) else None
  }

  lemma StalePageLeavesGap(size: nat, b: seq<Item>, c: Client, p: nat)
    requires size >= 1 && |b| > 2 * size && Ascending(b) && UniqueIds(b)
    requires p == if |b| > 3 * size then |b| - 3 * size else 0
    requires c.items == Merge(b[|b| - size..], b[p..|b| - 2 * size])
    requires c.hasMore == (p > 0) && c.cursor == if p > 0 then Some(KeyOf(b[p])) else None
    ensures HasGap(size, b, c)
  {
    SlicesLeaveGap(b, |b| - size, p, |b| - 2 * size, c.items);
  }

  lemma SlicesLeaveGap(b: seq<Item>, from: nat, p: nat, q: nat, items: seq<Item>)
    requires Slice(b, p, q) && q <= from <= |b| && items == Merge(b[from..], b[p..q])
    ensures forall k | q <= k < from :: b[k] !in items
  {
    MergeOfSlices(b, from, p, q);
  }

  lemma StaleRun(size: nat, s0: System, ws: string, other: string, b: seq<Item>)
    requires size >= 1 && s0.net == map[] && s0.nextId == 0
    requires b == Log(s0, ws) && Ascending(b) && |b| > 2 * size
    ensures var c := Run(size, s0, GapSteps(ws, other)).client;
            var page := PageOf(Pool(b, Some(KeyOf(b[|b| - 2 * size]))), size);
            && c.active == Some(ws) && c.items == Merge(b[|b| - size..], page.items)
            && c.hasMore == page.hasMore && c.cursor == page.nextCursor
  {
    var act := FirstVisit(size, s0, ws, other, b);
    GapRun(size, s0, ws, other);
    var s1 := Run(size, s0, [Activate(ws), Serve(0), Deliver(0)]);
    var s3 := Run(size, Run(size, s1, SECOND_PAGE), LeaveAndReturn(ws, other));
    SameServerSameLog(s0, s3, ws);
    var before := Some(KeyOf(b[|b| - 2 * size]));
    StalePageDelivered(size, s3, ws, b, Request(ws, act, before), PageOf(Pool(b, before), size));
  }

  /** For every page size and every timeline longer than two pages: after leaving with the
      third page under way and returning, that page lands beneath the first one. The second
      page is missing from the items, and the cursor is already below it. */
  lemma ReturningLeavesAGap(size: nat, s0: System, ws: string, other: string, b: seq<Item>)
    requires size >= 1 && s0.net == map[] && s0.nextId == 0 && other != ws
    requires UniqueIds(Memories(s0, ws)) && b == Log(s0, ws) && |b| > 2 * size
    ensures var c := Run(size, s0, GapSteps(ws, other)).client;
            c.active == Some(ws) && HasGap(size, b, c)
  {
    SortedTimeline(Memories(s0, ws));
    SortUnique(Memories(s0, ws));
    StaleRun(size, s0, ws, other, b);
    ClientOfStalePage(size, b, Run(size, s0, GapSteps(ws, other)).client);
  }

  lemma ClientOfStalePage(size: nat, b: seq<Item>, c: Client)
    requires size >= 1 && |b| > 2 * size && Ascending(b) && UniqueIds(b)
    requires var page := PageOf(Pool(b, Some(KeyOf(b[|b| - 2 * size]))), size);
             && c.items == Merge(b[|b| - size..], page.items)
             && c.hasMore == page.hasMore && c.cursor == page.nextCursor
    ensures HasGap(size, b, c)
  {
    var q := |b| - 2 * size;
    StalePage(size, b, q);
    var p := if q > size then q - size else 0;
    StalePageLeavesGap(size, b, c, p);
  }

  lemma SameServerSameLog(a: System, b: System, ws: string)
    requires a.server == b.server
    ensures Log(a, ws) == Log(b, ws)
  {
  }

  lemma StalePage(size: nat, b: seq<Item>, q: nat)
    requires size >= 1 && Ascending(b) && q < |b|
    ensures var p := if q > size then q - size else 0;
            PageOf(Pool(b, Some(KeyOf(b[q]))), size)
            == Page(b[p..q], p > 0, if p > 0 then Some(KeyOf(b[p])) else None)
  {
    PoolAtOwnKey(b, q);
    PageSlice(size, b, q);
  }

  // -------------------------------------- across activations: two older requests at once

  /** One step of the machine, written as a relation for the run below. */
  predicate Steps(size: nat, sys: System, step: Step, sys': System)
    requires size >= 1
  {
    sys' == Next(size, sys, step)
  }

  /** For every page size and every timeline longer than a page: leaving with an older page under
      way, returning, asking for it again, and only then seeing the first request fail, lets a
      third one start. Two older requests of the one visit are then under way. */
  lemma ReturningAllowsTwoOlderRequests(size: nat, s0: System, ws: string, other: string)
    returns (s1: System, s2: System, s3: System, s4: System, s5: System, s6: System, s7: System, s8: System)
    requires size >= 1 && s0.net == map[] && s0.nextId == 0 && other != ws
    requires |Log(s0, ws)| > size
    ensures s1 == Run(size, s0, [Activate(ws), Serve(0), Deliver(0)])
    ensures Steps(size, s1, LoadOlder, s2) && Steps(size, s2, Activate(other), s3)
    ensures s4 == Run(size, s3, [Activate(ws), Serve(3), Deliver(3)])
    ensures Steps(size, s4, LoadOlder, s5) && Steps(size, s5, Lose(1), s6) && Steps(size, s6, Deliver(1), s7)
    ensures Steps(size, s7, LoadOlder, s8)
    ensures Current(s8, 4) && s8.net[4].Sent? && s8.net[4].req.before.Some?
    ensures Current(s8, 5) && s8.net[5].Sent? && s8.net[5].req.before.Some?
  {
    s1 := FirstPageHeld(size, s0, ws);
    s2 := Next(size, s1, LoadOlder);
    s3 := Next(size, s2, Activate(other));
    assert s3.server == s0.server && s3.nextId == 3 && 3 !in s3.net;
    SameServerSameLog(s0, s3, ws);
    s4 := FirstPageHeld(size, s3, ws);
    assert s4.net == s3.net && s4.net[1] == Sent(s2.net[1].req);
    s5 := Next(size, s4, LoadOlder);
    s6, s7 := StaleFailure(size, s5, ws, 1);
    s8 := Next(size, s7, LoadOlder);
  }

  lemma FirstPageHeld(size: nat, sys: System, ws: string) returns (sys': System)
    requires size >= 1 && sys.nextId !in sys.net && |Log(sys, ws)| > size
    ensures sys' == Run(size, sys, [Activate(ws), Serve(sys.nextId), Deliver(sys.nextId)])
    ensures sys'.server == sys.server && sys'.net == sys.net && sys'.nextId == sys.nextId + 1
    ensures sys'.client.active == Some(ws) && sys'.client.hasMore && sys'.client.cursor.Some?
    ensures !sys'.client.loadingOlder
  {
    OpenRun(size, sys, ws);
    sys' := Run(size, sys, [Activate(ws), Serve(sys.nextId), Deliver(sys.nextId)]);
  }

  /** The failure of an older request, of whichever visit, clears the flag. */
  lemma StaleFailure(size: nat, sys: System, ws: string, id: nat) returns (lost: System, sys': System)
    requires size >= 1 && sys.client.active == Some(ws)
    requires id in sys.net && sys.net[id].req.ws == ws && sys.net[id].req.before.Some?
    ensures Steps(size, sys, Lose(id), lost) && Steps(size, lost, Deliver(id), sys')
    ensures sys' == sys.(net := sys.net - {id}, client := sys.client.(loadingOlder := false))
  {
    lost := Next(size, sys, Lose(id));
    sys' := Next(size, lost, Deliver(id));
    assert sys'.net == sys.net - {id};
  }
}
