/** Backward pagination: the replica's window over the sorted timeline, and the client's
    merge of an older page. */
module Timeline {
  import opened Options
  import opened Ordering

  datatype Item = Item(id: string, at: string, body: string)

  function KeyOf(i: Item): Key {
    Key(i.at, i.id)
  }

  predicate UniqueIds(items: seq<Item>) {
    forall i, j | 0 <= i < j < |items| :: items[i].id != items[j].id
  }

  predicate Ascending(items: seq<Item>) {
    Sorted(KeyOf, items)
  }

  datatype Page = Page(items: seq<Item>, hasMore: bool, nextCursor: Option<Key>)

  /** The items strictly older than the cursor, in order. */
  function Pool(all: seq<Item>, before: Option<Key>): seq<Item> {
    if before.None? then all else OlderThan(all, before.value)
  }

  function OlderThan(all: seq<Item>, cursor: Key): seq<Item> {
    if all == [] then []
    else (if Before(KeyOf(all[0]), cursor) then [all[0]] else []) + OlderThan(all[1..], cursor)
  }

  /** `pool.slice(-limit)` with what the reply says about it. */
  function PageOf(pool: seq<Item>, limit: nat): Page
    requires limit >= 1
  {
    var page := if limit >= |pool| then pool else pool[|pool| - limit..];
    var hasMore := |pool| > |page|;
    Page(page, hasMore, if hasMore && page != [] then Some(KeyOf(page[0])) else None)
  }

  const DEFAULT_LIMIT := 50

  /** A read of the timeline; `None` is the error for a limit below one. */
  function ReadTimeline(memories: seq<Item>, limit: Option<int>, before: Option<Key>): Option<Page> {
    if limit.Some? && limit.value < 1 then None
    else
      var n := if limit.None? then DEFAULT_LIMIT else limit.value;
      Some(PageOf(Pool(Sort(KeyOf, memories), before), n))
  }

  // ------------------------------------------------------------------- the pool

  lemma {:induction false} OlderThanMembers(all: seq<Item>, cursor: Key)
    ensures forall x :: x in OlderThan(all, cursor) <==> x in all && Before(KeyOf(x), cursor)
  {
    if all != [] {
      OlderThanMembers(all[1..], cursor);
      assert forall x :: x in all <==> x == all[0] || x in all[1..];
    }
  }

  /** Everything in `a` is older than the cursor, nothing in `b` is. */
  lemma {:induction false} OlderThanSplit(a: seq<Item>, b: seq<Item>, cursor: Key)
    requires forall x | x in a :: Before(KeyOf(x), cursor)
    requires forall x | x in b :: !Before(KeyOf(x), cursor)
    ensures OlderThan(a + b, cursor) == a
  {
    if a == [] {
      assert a + b == b;
      if b != [] {
        OlderThanSplit(a, b[1..], cursor);
        assert a + b[1..] == b[1..];
      }
    } else {
      assert (a + b)[1..] == a[1..] + b;
      OlderThanSplit(a[1..], b, cursor);
    }
  }

  /** Cutting an ascending log at one of its own items. */
  lemma PoolAtOwnKey(all: seq<Item>, k: nat)
    requires Ascending(all) && k < |all|
    ensures Pool(all, Some(KeyOf(all[k]))) == all[..k]
  {
    assert all == all[..k] + all[k..];
    forall x | x in all[k..] ensures !Before(KeyOf(x), KeyOf(all[k])) {
      var j :| k <= j < |all| && all[j] == x;
      BeforeIsTotal(KeyOf(all[j]), KeyOf(all[k]));
    }
    OlderThanSplit(all[..k], all[k..], KeyOf(all[k]));
  }

  /** Cutting twice, the second time at an older cursor, is cutting once. */
  lemma {:induction false} PoolOfPool(all: seq<Item>, c: Key, c': Key)
    requires Before(c', c)
    ensures OlderThan(OlderThan(all, c), c') == OlderThan(all, c')
  {
    if all != [] {
      PoolOfPool(all[1..], c, c');
      if Before(KeyOf(all[0]), c') {
        BeforeIsTransitive(KeyOf(all[0]), c', c);
      }
      var rest := OlderThan(all[1..], c);
      if Before(KeyOf(all[0]), c) {
        assert OlderThan(all, c) == [all[0]] + rest && ([all[0]] + rest)[1..] == rest;
      } else {
        assert OlderThan(all, c) == [] + rest == rest;
      }
    }
  }

  lemma {:induction false} OlderThanKeepsOrder(all: seq<Item>, cursor: Key)
    requires Ascending(all)
    ensures Ascending(OlderThan(all, cursor))
  {
    if all != [] {
      OlderThanKeepsOrder(all[1..], cursor);
      OlderThanMembers(all[1..], cursor);
    }
  }

  lemma AscendingHasNoDuplicates(items: seq<Item>)
    requires Ascending(items)
    ensures forall i, j | 0 <= i < j < |items| :: items[i] != items[j]
  {
    forall i, j | 0 <= i < j < |items| ensures items[i] != items[j] {
      BeforeIsTotal(KeyOf(items[i]), KeyOf(items[j]));
    }
  }

  /** An ascending sequence is determined by its members. */
  lemma {:induction false} AscendingByMembers(a: seq<Item>, b: seq<Item>)
    requires Ascending(a) && Ascending(b)
    requires forall x :: x in a <==> x in b
    ensures a == b
  {
    AscendingHasNoDuplicates(a);
    AscendingHasNoDuplicates(b);
    forall x ensures multiset(a)[x] == multiset(b)[x] {
      CountDistinct(a, x);
      CountDistinct(b, x);
    }
    SortedIsUnique(KeyOf, a, b);
  }

  lemma SortedTimeline(memories: seq<Item>)
    requires UniqueIds(memories)
    ensures Ascending(Sort(KeyOf, memories))
    ensures forall x :: x in Sort(KeyOf, memories) <==> x in memories
    ensures |Sort(KeyOf, memories)| == |memories|
  {
    SortSorts(KeyOf, memories);
    var s := Sort(KeyOf, memories);
    assert forall x :: x in s <==> x in multiset(s);
    assert forall x :: x in memories <==> x in multiset(memories);
    assert |multiset(s)| == |multiset(memories)|;
  }

  /** What lies beneath a cursor does not change when only newer items come or go. */
  lemma PoolDependsOnOlderItems(a: seq<Item>, b: seq<Item>, cursor: Key)
    requires UniqueIds(a) && UniqueIds(b)
    requires forall x | Before(KeyOf(x), cursor) :: x in a <==> x in b
    ensures Pool(Sort(KeyOf, a), Some(cursor)) == Pool(Sort(KeyOf, b), Some(cursor))
  {
    SortedTimeline(a);
    SortedTimeline(b);
    OlderThanKeepsOrder(Sort(KeyOf, a), cursor);
    OlderThanKeepsOrder(Sort(KeyOf, b), cursor);
    OlderThanMembers(Sort(KeyOf, a), cursor);
    OlderThanMembers(Sort(KeyOf, b), cursor);
    AscendingByMembers(OlderThan(Sort(KeyOf, a), cursor), OlderThan(Sort(KeyOf, b), cursor));
  }

  /** Items newer than the cursor that arrive between two requests change no older page. */
  lemma NewerArrivalsChangeNoOlderPage(a: seq<Item>, arrivals: seq<Item>, limit: Option<int>, cursor: Key)
    requires UniqueIds(a + arrivals)
    requires forall x | x in arrivals :: Before(cursor, KeyOf(x))
    ensures ReadTimeline(a + arrivals, limit, Some(cursor)) == ReadTimeline(a, limit, Some(cursor))
  {
    assert UniqueIds(a) by {
      assert forall i | 0 <= i < |a| :: a[i] == (a + arrivals)[i];
    }
    forall x | Before(KeyOf(x), cursor) ensures x in a + arrivals <==> x in a {
      BeforeIsTotal(KeyOf(x), cursor);
    }
    PoolDependsOnOlderItems(a + arrivals, a, cursor);
  }

  // ------------------------------------------------ what a read returns, declared

  /** An item that a read with this cursor may return. */
  ghost predicate Eligible(memories: seq<Item>, before: Option<Key>, x: Item) {
    x in memories && (before.Some? ==> Older(KeyOf(x), before.value))
  }

  /** A read returns the newest eligible items, oldest first: as many as the limit allows, none
      of those left out newer than one returned. It says there is more exactly when something is
      left out, and then points at the oldest item returned. */
  lemma ReadReturnsTheNewest(memories: seq<Item>, limit: Option<int>, before: Option<Key>)
    requires UniqueIds(memories)
    ensures var n := if limit.None? then 50 else limit.value;
            var r := ReadTimeline(memories, limit, before);
            && (r.None? <==> n < 1)
            && (n >= 1 ==>
                  var page := r.value;
                  && |page.items| <= n
                  && (forall i, j | 0 <= i < j < |page.items| :: Older(KeyOf(page.items[i]), KeyOf(page.items[j])))
                  && (forall x | x in page.items :: Eligible(memories, before, x))
                  && (forall x, y | Eligible(memories, before, x) && x !in page.items && y in page.items ::
                        Older(KeyOf(x), KeyOf(y)))
                  && (page.hasMore <==> exists x :: Eligible(memories, before, x) && x !in page.items)
                  && (page.hasMore ==> |page.items| == n && page.nextCursor == Some(KeyOf(page.items[0])))
                  && (!page.hasMore ==> page.nextCursor.None?))
  {
    var n := if limit.None? then DEFAULT_LIMIT else limit.value;
    if n >= 1 {
      var pool := Pool(Sort(KeyOf, memories), before);
      PoolIsEligible(memories, before);
      PageIsTheEnd(pool, n, PageOf(pool, n));
    }
  }

  lemma PoolIsEligible(memories: seq<Item>, before: Option<Key>)
    requires UniqueIds(memories)
    ensures var pool := Pool(Sort(KeyOf, memories), before);
            Ascending(pool) && forall x :: x in pool <==> Eligible(memories, before, x)
  {
    var all := Sort(KeyOf, memories);
    SortedTimeline(memories);
    if before.Some? {
      OlderThanKeepsOrder(all, before.value);
      OlderThanMembers(all, before.value);
      forall x ensures Before(KeyOf(x), before.value) <==> Older(KeyOf(x), before.value) {
        BeforeIff(KeyOf(x), before.value);
      }
    }
  }

  lemma PageIsTheEnd(pool: seq<Item>, n: nat, page: Page)
    requires n >= 1 && Ascending(pool) && page == PageOf(pool, n)
    ensures |page.items| <= n
    ensures forall i, j | 0 <= i < j < |page.items| :: Older(KeyOf(page.items[i]), KeyOf(page.items[j]))
    ensures forall x | x in page.items :: x in pool
    ensures forall x, y | x in pool && x !in page.items && y in page.items :: Older(KeyOf(x), KeyOf(y))
    ensures page.hasMore <==> exists x :: x in pool && x !in page.items
    ensures page.hasMore ==> |page.items| == n && page.nextCursor == Some(KeyOf(page.items[0]))
    ensures !page.hasMore ==> page.nextCursor.None?
  {
    var from := if n >= |pool| then 0 else |pool| - n;
    assert page.items == pool[from..];
    forall i, j | 0 <= i < j < |pool| ensures Older(KeyOf(pool[i]), KeyOf(pool[j])) {
      BeforeIff(KeyOf(pool[i]), KeyOf(pool[j]));
    }
    forall m | from <= m < |pool| ensures pool[m] in page.items {
      assert page.items[m - from] == pool[m];
    }
    forall x, y | x in pool && x !in page.items && y in page.items ensures Older(KeyOf(x), KeyOf(y)) {
      var i :| 0 <= i < |pool| && pool[i] == x;
      var j :| 0 <= j < |page.items| && page.items[j] == y;
      assert i < from && pool[from + j] == y;
    }
    if page.hasMore {
      AscendingHasNoDuplicates(pool);
      assert pool[0] in pool && pool[0] !in page.items;
    }
  }

  // --------------------------------------------------- following the cursor down

  /** The pages a reader gets by following `nextCursor` from no cursor, newest first. */
  function Pages(all: seq<Item>, limit: nat, before: Option<Key>): seq<Page>
    requires limit >= 1 && Ascending(all)
    decreases |Pool(all, before)|
  {
    var page := PageOf(Pool(all, before), limit);
    if page.nextCursor.None? then [page]
    else
      NextPoolIsShorter(all, limit, before);
      [page] + Pages(all, limit, page.nextCursor)
  }

  lemma NextPoolIsShorter(all: seq<Item>, limit: nat, before: Option<Key>)
    requires limit >= 1 && Ascending(all)
    requires PageOf(Pool(all, before), limit).nextCursor.Some?
    ensures var pool := Pool(all, before);
            var next := PageOf(pool, limit).nextCursor;
            |pool| > limit && Pool(all, next) == pool[..|pool| - limit]
  {
    var pool := Pool(all, before);
    var k := |pool| - limit;
    var c' := KeyOf(pool[k]);
    if before.Some? {
      OlderThanKeepsOrder(all, before.value);
      OlderThanMembers(all, before.value);
      assert pool[k] in pool;
      PoolOfPool(all, before.value, c');
    }
    PoolAtOwnKey(pool, k);
  }

  /** The pages put back in order, oldest page first. */
  function Reassemble(pages: seq<Page>): seq<Item> {
    if pages == [] then [] else Reassemble(pages[1..]) + pages[0].items
  }

  /** `pages` is `n / limit` rounded up, but at least one. */
  predicate IsPageCount(pages: nat, n: nat, limit: nat) {
    && pages >= 1
    && n <= pages * limit
    && (n > 0 ==> (pages - 1) * limit < n)
    && (n == 0 ==> pages == 1)
  }

  lemma OneMorePage(pages: nat, n: nat, limit: nat)
    requires 0 < limit < n && IsPageCount(pages, n - limit, limit)
    ensures IsPageCount(pages + 1, n, limit)
  {
    assert (pages + 1) * limit == pages * limit + limit;
    assert pages * limit == (pages - 1) * limit + limit;
  }

  /** Following the cursor visits every older item exactly once, in the fewest pages. */
  lemma {:induction false} PagesCoverThePool(all: seq<Item>, limit: nat, before: Option<Key>)
    requires limit >= 1 && Ascending(all)
    ensures Reassemble(Pages(all, limit, before)) == Pool(all, before)
    ensures IsPageCount(|Pages(all, limit, before)|, |Pool(all, before)|, limit)
    decreases |Pool(all, before)|
  {
    var pool := Pool(all, before);
    var page := PageOf(pool, limit);
    if page.nextCursor.None? {
      LastPage(all, limit, before);
    } else {
      NextPoolIsShorter(all, limit, before);
      PagesCoverThePool(all, limit, page.nextCursor);
      PageOnTop(pool, limit, Pages(all, limit, page.nextCursor));
    }
  }

  lemma PageOnTop(pool: seq<Item>, limit: nat, rest: seq<Page>)
    requires 1 <= limit < |pool|
    requires Reassemble(rest) == pool[..|pool| - limit] && IsPageCount(|rest|, |pool| - limit, limit)
    ensures var pages := [PageOf(pool, limit)] + rest;
            Reassemble(pages) == pool && IsPageCount(|pages|, |pool|, limit)
  {
    ReassembleCons(PageOf(pool, limit), rest);
    assert pool[..|pool| - limit] + pool[|pool| - limit..] == pool;
    OneMorePage(|rest|, |pool|, limit);
  }

  lemma ReassembleCons(page: Page, rest: seq<Page>)
    ensures Reassemble([page] + rest) == Reassemble(rest) + page.items
  {
    assert ([page] + rest)[1..] == rest;
  }

  lemma LastPage(all: seq<Item>, limit: nat, before: Option<Key>)
    requires limit >= 1 && Ascending(all)
    requires PageOf(Pool(all, before), limit).nextCursor.None?
    ensures Reassemble(Pages(all, limit, before)) == Pool(all, before)
    ensures IsPageCount(|Pages(all, limit, before)|, |Pool(all, before)|, limit)
  {
    var page := PageOf(Pool(all, before), limit);
    assert [page][1..] == [] && Reassemble([page][1..]) == [];
    assert [] + page.items == page.items;
  }

  // -------------------------------------------------------------------- merging

  /** `Map.set`: an id already present keeps its place and gets the new value. */
  function Put(m: seq<Item>, it: Item): seq<Item> {
    if m == [] then [it]
    else if m[0].id == it.id then [it] + m[1..]
    else [m[0]] + Put(m[1..], it)
  }

  function PutAll(m: seq<Item>, items: seq<Item>): seq<Item>
    decreases |items|
  {
    if items == [] then m else PutAll(Put(m, items[0]), items[1..])
  }

  /** Union by id, the items already loaded winning, in ascending order. */
  function Merge(existing: seq<Item>, older: seq<Item>): seq<Item> {
    Sort(KeyOf, PutAll(PutAll([], older), existing))
  }

  lemma {:induction false} PutMembers(m: seq<Item>, it: Item)
    requires UniqueIds(m)
    ensures UniqueIds(Put(m, it))
    ensures forall x :: x in Put(m, it) <==> x == it || (x in m && x.id != it.id)
  {
    if m != [] {
      assert forall x :: x in m <==> x == m[0] || x in m[1..];
      PutMembers(m[1..], it);
      assert forall x | x in Put(m[1..], it) :: x == it || x in m[1..];
    }
  }

  predicate HasId(items: seq<Item>, id: string) {
    exists i | 0 <= i < |items| :: items[i].id == id
  }

  lemma {:induction false} PutAllMembers(m: seq<Item>, items: seq<Item>)
    requires UniqueIds(m) && UniqueIds(items)
    ensures UniqueIds(PutAll(m, items))
    ensures forall x :: x in PutAll(m, items) <==> x in items || (x in m && !HasId(items, x.id))
    decreases |items|
  {
    if items != [] {
      PutMembers(m, items[0]);
      PutAllMembers(Put(m, items[0]), items[1..]);
      assert forall x :: x in items <==> x == items[0] || x in items[1..];
      forall id ensures HasId(items, id) <==> id == items[0].id || HasId(items[1..], id) {
        if HasId(items[1..], id) {
          var i :| 0 <= i < |items[1..]| && items[1..][i].id == id;
          assert items[i + 1].id == id;
        }
        if HasId(items, id) && id != items[0].id {
          var i :| 0 <= i < |items| && items[i].id == id;
          assert items[1..][i - 1].id == id;
        }
      }
      assert !HasId(items[1..], items[0].id);
    }
  }

  /** The merge holds exactly the loaded items and those of the page whose ids were not
      loaded yet, ascending. Nothing here depends on the order of either argument. */
  lemma MergeIsUnion(existing: seq<Item>, older: seq<Item>)
    requires UniqueIds(existing) && UniqueIds(older)
    ensures Ascending(Merge(existing, older))
    ensures forall x :: x in Merge(existing, older)
              <==> x in existing || (x in older && !HasId(existing, x.id))
  {
    PutAllMembers([], older);
    PutAllMembers(PutAll([], older), existing);
    SortedTimeline(PutAll(PutAll([], older), existing));
  }

  /** Sorting keeps ids apart. */
  lemma SortUnique(items: seq<Item>)
    requires UniqueIds(items)
    ensures UniqueIds(Sort(KeyOf, items))
  {
    var s := Sort(KeyOf, items);
    SortedTimeline(items);
    AscendingHasNoDuplicates(s);
    forall i, j | 0 <= i < j < |s| ensures s[i].id != s[j].id {
      assert s[i] in items && s[j] in items;
    }
  }

  lemma MergeUnique(existing: seq<Item>, older: seq<Item>)
    requires UniqueIds(existing) && UniqueIds(older)
    ensures UniqueIds(Merge(existing, older))
  {
    PutAllMembers([], older);
    PutAllMembers(PutAll([], older), existing);
    SortUnique(PutAll(PutAll([], older), existing));
  }

  lemma MergeIgnoresArrivalOrder(existing: seq<Item>, older: seq<Item>, existing': seq<Item>, older': seq<Item>)
    requires UniqueIds(existing) && UniqueIds(older) && UniqueIds(existing') && UniqueIds(older')
    requires forall x :: x in existing <==> x in existing'
    requires forall x :: x in older <==> x in older'
    ensures Merge(existing, older) == Merge(existing', older')
  {
    MergeIsUnion(existing, older);
    MergeIsUnion(existing', older');
    forall id ensures HasId(existing, id) <==> HasId(existing', id) {
      if HasId(existing, id) {
        var i :| 0 <= i < |existing| && existing[i].id == id;
        assert existing[i] in existing';
      }
      if HasId(existing', id) {
        var i :| 0 <= i < |existing'| && existing'[i].id == id;
        assert existing'[i] in existing;
      }
    }
    AscendingByMembers(Merge(existing, older), Merge(existing', older'));
  }

  /** Exchanging the two arguments matters exactly when some id is in both with different
      contents: the loaded copy wins. */
  lemma MergeCommutesIff(a: seq<Item>, b: seq<Item>)
    requires UniqueIds(a) && UniqueIds(b)
    ensures Merge(a, b) == Merge(b, a) <==> forall x, y | x in a && y in b && x.id == y.id :: x == y
  {
    MergeIsUnion(a, b);
    MergeIsUnion(b, a);
    if forall x, y | x in a && y in b && x.id == y.id :: x == y {
      forall x ensures x in Merge(a, b) <==> x in Merge(b, a) {
        AgreedCopy(a, b, x);
        AgreedCopy(b, a, x);
      }
      AscendingByMembers(Merge(a, b), Merge(b, a));
    } else {
      var x, y :| x in a && y in b && x.id == y.id && x != y;
      assert x in Merge(a, b) && y in Merge(b, a);
      MergeUnique(a, b);
      if y in Merge(a, b) {
        UniqueIdsSameItem(Merge(a, b), x, y);
      }
    }
  }

  lemma AgreedCopy(a: seq<Item>, b: seq<Item>, x: Item)
    requires forall x, y | x in a && y in b && x.id == y.id :: x == y
    ensures x in b ==> x in a || !HasId(a, x.id)
  {
    if x in b && HasId(a, x.id) {
      var i :| 0 <= i < |a| && a[i].id == x.id;
      assert a[i] in a && a[i] == x;
    }
  }

  lemma UniqueIdsSameItem(items: seq<Item>, x: Item, y: Item)
    requires UniqueIds(items) && x in items && y in items && x.id == y.id
    ensures x == y
  {
    var i :| 0 <= i < |items| && items[i] == x;
    var j :| 0 <= j < |items| && items[j] == y;
    assert i == j;
  }

  /** Two copies of one memory that differ in their text are such a pair. */
  lemma MergePrefersLoaded(id: string, at: string, loaded: string, late: string)
    requires loaded != late
    ensures Merge([Item(id, at, loaded)], [Item(id, at, late)]) == [Item(id, at, loaded)]
    ensures Merge([Item(id, at, late)], [Item(id, at, loaded)]) == [Item(id, at, late)]
  {
    MergeWithCopy(Item(id, at, loaded), Item(id, at, late));
    MergeWithCopy(Item(id, at, late), Item(id, at, loaded));
  }

  lemma MergeWithCopy(x: Item, y: Item)
    requires x.id == y.id
    ensures Merge([x], [y]) == [x]
  {
    MergeIsUnion([x], [y]);
    assert [x][0].id == y.id;
    AscendingByMembers(Merge([x], [y]), [x]);
  }

  predicate Slice(b: seq<Item>, lo: nat, hi: nat) {
    lo <= hi <= |b| && Ascending(b) && UniqueIds(b)
  }

  lemma MergeOfSlices(b: seq<Item>, from: nat, p: nat, q: nat)
    requires Slice(b, p, q) && from <= |b|
    ensures Ascending(Merge(b[from..], b[p..q]))
    ensures forall k | 0 <= k < |b| :: b[k] in Merge(b[from..], b[p..q]) <==> k >= from || p <= k < q
    ensures forall x | x in Merge(b[from..], b[p..q]) :: x in b
  {
    var existing, older := b[from..], b[p..q];
    MergeIsUnion(existing, older);
    AscendingHasNoDuplicates(b);
    forall k | 0 <= k < |b| ensures b[k] in Merge(existing, older) <==> k >= from || p <= k < q {
      if k >= from { assert existing[k - from] == b[k]; }
      if p <= k < q { assert older[k - p] == b[k]; }
    }
  }

  /** An older page brings the client to "everything from the page's start" if and only if
      the page reaches up to what is loaded and does not start inside it. */
  lemma MergeIsContiguousIff(b: seq<Item>, from: nat, p: nat, q: nat)
    requires Slice(b, p, q) && from <= |b|
    ensures Merge(b[from..], b[p..q]) == b[p..] <==> p <= from <= q
  {
    var merged := Merge(b[from..], b[p..q]);
    MergeOfSlices(b, from, p, q);
    if p <= from <= q {
      forall x ensures x in merged <==> x in b[p..] {
        if x in merged || x in b[p..] {
          var k :| 0 <= k < |b| && b[k] == x;
          if x in b[p..] {
            var j :| 0 <= j < |b[p..]| && b[p..][j] == x;
            assert b[p + j] in merged;
          }
          if k >= p { assert b[p..][k - p] == x; }
        }
      }
      AscendingByMembers(merged, b[p..]);
    } else if from > q {
      assert b[q] !in merged && b[p..][q - p] == b[q];
    } else {
      AscendingHasNoDuplicates(b);
      assert b[from] in merged && b[from] !in b[p..];
    }
  }

  /** The merge as the client computes it: two loops filling a map, then a sort. */
  method MergeOlderPage(existing: seq<Item>, older: seq<Item>) returns (merged: seq<Item>)
    ensures merged == Merge(existing, older)
  {
    var byId: seq<Item> := [];
    for i := 0 to |older|
      invariant PutAll([], older) == PutAll(byId, older[i..])
    {
      assert older[i..][0] == older[i] && older[i..][1..] == older[i + 1..];
      byId := Put(byId, older[i]);
    }
    for i := 0 to |existing|
      invariant PutAll(PutAll([], older), existing) == PutAll(byId, existing[i..])
    {
      assert existing[i..][0] == existing[i] && existing[i..][1..] == existing[i + 1..];
      byId := Put(byId, existing[i]);
    }
    return Sort(KeyOf, byId);
  }
}
