/** The feed's client as it runs: state set piece by piece when a workspace is opened, older
    items are asked for, or a reply arrives. Each handler is tied to the machine's step. */
module FeedClient {
  import opened Options
  import opened Ordering
  import opened Timeline
  import Machine = PaginatedFeed

  class Feed {
    var active: Option<string>
    var items: seq<Item>
    var hasMore: bool
    var cursor: Option<Key>
    var loadingOlder: bool
    var cache: map<string, seq<Item>>
    /** How many times a workspace was opened: what the client does not keep track of. */
    ghost var activation: nat

    ghost function Snapshot(): Machine.Client
      reads this
    {
      Machine.Client(active, activation, items, hasMore, cursor, loadingOlder, cache)
    }

    constructor ()
      ensures Snapshot() == Machine.Client(None, 0, [], false, None, false, map[])
    {
      active, items, hasMore := None, [], false;
      cursor, loadingOlder, cache := None, false, map[];
      activation := 0;
    }

    /** The effect that runs when a workspace is opened. */
    method Activate(ws: string)
      modifies this
      ensures forall size: nat, sys: Machine.System | size >= 1 && sys.client == old(Snapshot()) ::
                Machine.Next(size, sys, Machine.Activate(ws)).client == Snapshot()
    {
      active := Some(ws);
      activation := activation + 1;
      items := if ws in cache then cache[ws] else [];
      hasMore := false;
      loadingOlder := false;
      cursor := None;
    }

    /** The first page of `ws` arrived; a reply for another workspace is dropped. */
    method FirstPageArrived(ws: string, page: Page)
      modifies this
      ensures forall size: nat, sys: Machine.System, id: nat |
                size >= 1 && sys.client == old(Snapshot()) && Answers(sys, id, ws, true, Some(page)) ::
                Machine.Next(size, sys, Machine.Deliver(id)).client == Snapshot()
    {
      if active == Some(ws) {
        cache := cache[ws := page.items];
        items := page.items;
        hasMore := page.hasMore;
        cursor := page.nextCursor;
      }
    }

    /** `ask` is the cursor of the request to send, if one is to be sent. */
    method LoadOlder() returns (ask: Option<Key>)
      requires active.Some?
      modifies this
      ensures forall size: nat, sys: Machine.System | size >= 1 && sys.client == old(Snapshot()) ::
                var sys' := Machine.Next(size, sys, Machine.LoadOlder);
                && sys'.client == Snapshot()
                && sys'.net == (if ask.None? then sys.net
                                else sys.net[sys.nextId := Machine.Sent(
                                       Machine.Request(active.value, activation, ask))])
      ensures old(loadingOlder) ==> ask.None?
    {
      if !hasMore || loadingOlder || cursor.None? {
        return None;
      }
      loadingOlder := true;
      return cursor;
    }

    method OlderPageArrived(ws: string, page: Page)
      modifies this
      ensures forall size: nat, sys: Machine.System, id: nat |
                size >= 1 && sys.client == old(Snapshot()) && Answers(sys, id, ws, false, Some(page)) ::
                Machine.Next(size, sys, Machine.Deliver(id)).client == Snapshot()
    {
      if active == Some(ws) {
        items := MergeOlderPage(items, page.items);
        hasMore := page.hasMore;
        cursor := page.nextCursor;
        loadingOlder := false;
      }
    }

    /** A failed older fetch keeps what there is, and lets another one start. */
    method OlderPageFailed(ws: string)
      modifies this
      ensures forall size: nat, sys: Machine.System, id: nat |
                size >= 1 && sys.client == old(Snapshot()) && Answers(sys, id, ws, false, None) ::
                Machine.Next(size, sys, Machine.Deliver(id)).client == Snapshot()
    {
      if active == Some(ws) {
        loadingOlder := false;
      }
    }
  }

  /** Request `id` of the network was made for `ws`, for the first page or an older one, and
      is answered by this page or by a failure. */
  predicate Answers(sys: Machine.System, id: nat, ws: string, first: bool, page: Option<Page>) {
    && id in sys.net && !sys.net[id].Sent?
    && sys.net[id].req.ws == ws && (sys.net[id].req.before.None? <==> first)
    && (if page.None? then sys.net[id].Failed? else sys.net[id].Served? && sys.net[id].page == page.value)
  }
}
