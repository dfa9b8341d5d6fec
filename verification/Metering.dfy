/** Usage metering: daily counters per store, the traffic total of a window, and its split
    over the accounts that own the stores. */
module Metering {
  import opened Options
  import opened Tables

  datatype Traffic = Traffic(requests: nat, bytesIn: nat, bytesOut: nat)

  /** The three counters, so that a sum can be stated once for each of them. */
  datatype Meter = Requests | BytesIn | BytesOut

  function Read(t: Traffic, m: Meter): nat {
    match m
    case Requests => t.requests
    case BytesIn => t.bytesIn
    case BytesOut => t.bytesOut
  }

  function Plus(a: Traffic, b: Traffic): (r: Traffic)
    ensures forall m :: Read(r, m) == Read(a, m) + Read(b, m)
  {
    Traffic(a.requests + b.requests, a.bytesIn + b.bytesIn, a.bytesOut + b.bytesOut)
  }

  /** One row of the daily table; `day` counts UTC days. */
  datatype UsageRow = UsageRow(day: int, store: StoreId, used: Traffic)

  /** One metered request. */
  datatype Call = Call(day: int, store: StoreId, bytesIn: nat, bytesOut: nat)

  function Cost(c: Call): Traffic {
    Traffic(1, c.bytesIn, c.bytesOut)
  }

  predicate SameKey(r: UsageRow, c: Call) {
    r.day == c.day && r.store == c.store
  }

  /** The upsert on the primary key (day, store). */
  function Record(rows: seq<UsageRow>, c: Call): seq<UsageRow> {
    if rows == [] then [UsageRow(c.day, c.store, Cost(c))]
    else if SameKey(rows[0], c) then [rows[0].(used := Plus(rows[0].used, Cost(c)))] + rows[1..]
    else [rows[0]] + Record(rows[1..], c)
  }

  function RecordAll(rows: seq<UsageRow>, calls: seq<Call>): seq<UsageRow>
    decreases |calls|
  {
    if calls == [] then rows else RecordAll(Record(rows, calls[0]), calls[1..])
  }

  predicate OneRowPerKey(rows: seq<UsageRow>) {
    forall i, j | 0 <= i < j < |rows| :: rows[i].day != rows[j].day || rows[i].store != rows[j].store
  }

  /** What is counted, within a window of days: everything, one store, the stores billed to
      one account, or the stores billed to none of the accounts. */
  datatype Scope =
    | Everything(since: int)
    | OneStore(since: int, store: StoreId)
    | BilledTo(since: int, owner: map<StoreId, Account>, account: Account)
    | Unbilled(since: int, owner: map<StoreId, Account>, accounts: seq<Account>)
  {
    predicate Covers(day: int, s: StoreId) {
      day >= since &&
      match this
      case Everything(_) => true
      case OneStore(_, store) => s == store
      case BilledTo(_, owner, account) => s in owner && owner[s] == account
      case Unbilled(_, owner, accounts) => s !in owner || owner[s] !in accounts
    }

    /** The part of an amount that falls in this scope. */
    function Of(day: int, s: StoreId, amount: nat): nat {
      if Covers(day, s) then amount else 0
    }
  }

  function SumRows(rows: seq<UsageRow>, scope: Scope, m: Meter): nat {
    if rows == [] then 0
    else scope.Of(rows[0].day, rows[0].store, Read(rows[0].used, m)) + SumRows(rows[1..], scope, m)
  }

  function SumCalls(calls: seq<Call>, scope: Scope, m: Meter): nat {
    if calls == [] then 0
    else scope.Of(calls[0].day, calls[0].store, Read(Cost(calls[0]), m)) + SumCalls(calls[1..], scope, m)
  }

  lemma SumRowsCons(row: UsageRow, rows: seq<UsageRow>, scope: Scope, m: Meter)
    ensures SumRows([row] + rows, scope, m)
         == scope.Of(row.day, row.store, Read(row.used, m)) + SumRows(rows, scope, m)
  {
    assert ([row] + rows)[1..] == rows;
  }

  lemma {:induction false} SumRowsSnoc(rows: seq<UsageRow>, row: UsageRow, scope: Scope, m: Meter)
    ensures SumRows(rows + [row], scope, m)
         == SumRows(rows, scope, m) + scope.Of(row.day, row.store, Read(row.used, m))
  {
    if rows == [] {
      assert rows + [row] == [row] + [];
      SumRowsCons(row, [], scope, m);
    } else {
      assert (rows + [row])[1..] == rows[1..] + [row];
      SumRowsSnoc(rows[1..], row, scope, m);
    }
  }

  lemma {:induction false} RecordAddsCost(rows: seq<UsageRow>, c: Call, scope: Scope, m: Meter)
    ensures SumRows(Record(rows, c), scope, m)
         == SumRows(rows, scope, m) + scope.Of(c.day, c.store, Read(Cost(c), m))
  {
    if rows == [] {
      SumRowsCons(UsageRow(c.day, c.store, Cost(c)), [], scope, m);
    } else if SameKey(rows[0], c) {
      SumRowsCons(rows[0].(used := Plus(rows[0].used, Cost(c))), rows[1..], scope, m);
    } else {
      RecordAddsCost(rows[1..], c, scope, m);
      SumRowsCons(rows[0], Record(rows[1..], c), scope, m);
    }
  }

  lemma {:induction false} RecordKeepsKey(rows: seq<UsageRow>, c: Call)
    requires OneRowPerKey(rows)
    ensures OneRowPerKey(Record(rows, c))
    ensures forall r | r in Record(rows, c) ::
              SameKey(r, c) || exists i | 0 <= i < |rows| :: rows[i].day == r.day && rows[i].store == r.store
  {
    if rows != [] && !SameKey(rows[0], c) {
      RecordKeepsKey(rows[1..], c);
      var rest := Record(rows[1..], c);
      forall r | r in rest
        ensures SameKey(r, c) || exists i | 1 <= i < |rows| :: rows[i].day == r.day && rows[i].store == r.store
      {
        if !SameKey(r, c) {
          var i :| 0 <= i < |rows[1..]| && rows[1..][i].day == r.day && rows[1..][i].store == r.store;
          assert rows[i + 1].day == r.day && rows[i + 1].store == r.store;
        }
      }
    }
  }

  /** Over any run of metered requests, for any window and any set of stores: each counter's
      total is the sum of the calls, and the table has one row per day and store. */
  lemma {:induction false} MeteringIsConserved(rows: seq<UsageRow>, calls: seq<Call>, scope: Scope, m: Meter)
    requires OneRowPerKey(rows)
    ensures SumRows(RecordAll(rows, calls), scope, m) == SumRows(rows, scope, m) + SumCalls(calls, scope, m)
    ensures OneRowPerKey(RecordAll(rows, calls))
    decreases |calls|
  {
    if calls != [] {
      RecordAddsCost(rows, calls[0], scope, m);
      RecordKeepsKey(rows, calls[0]);
      MeteringIsConserved(Record(rows, calls[0]), calls[1..], scope, m);
    }
  }

  // ----------------------------------------------------- what a row of the table says

  function RowOf(rows: seq<UsageRow>, day: int, store: StoreId): Option<Traffic> {
    if rows == [] then None
    else if rows[0].day == day && rows[0].store == store then Some(rows[0].used)
    else RowOf(rows[1..], day, store)
  }

  /** The requests of one day for one store. */
  function CallsOn(calls: seq<Call>, day: int, store: StoreId): seq<Call> {
    if calls == [] then []
    else (if calls[0].day == day && calls[0].store == store then [calls[0]] else [])
         + CallsOn(calls[1..], day, store)
  }

  function TotalIn(calls: seq<Call>): nat {
    if calls == [] then 0 else calls[0].bytesIn + TotalIn(calls[1..])
  }

  function TotalOut(calls: seq<Call>): nat {
    if calls == [] then 0 else calls[0].bytesOut + TotalOut(calls[1..])
  }

  /** The row that requests add up to, on top of one that may be there. */
  function AddedUp(row: Option<Traffic>, calls: seq<Call>): Option<Traffic> {
    if calls == [] then row
    else
      var before := if row.None? then Traffic(0, 0, 0) else row.value;
      Some(Traffic(before.requests + |calls|, before.bytesIn + TotalIn(calls), before.bytesOut + TotalOut(calls)))
  }

  lemma OneCall(c: Call, day: int, store: StoreId)
    ensures CallsOn([c], day, store) == if c.day == day && c.store == store then [c] else []
    ensures TotalIn([c]) == c.bytesIn && TotalOut([c]) == c.bytesOut
  {
    assert [c][1..] == [];
  }

  lemma {:induction false} RecordAddsToOneRow(rows: seq<UsageRow>, c: Call, day: int, store: StoreId)
    ensures RowOf(Record(rows, c), day, store) == AddedUp(RowOf(rows, day, store), CallsOn([c], day, store))
  {
    var row := UsageRow(c.day, c.store, Cost(c));
    OneCall(c, day, store);
    if rows == [] {
      assert RowOf([row], day, store) == if row.day == day && row.store == store then Some(row.used) else None;
    } else if !SameKey(rows[0], c) {
      RecordAddsToOneRow(rows[1..], c, day, store);
      assert ([rows[0]] + Record(rows[1..], c))[1..] == Record(rows[1..], c);
    } else {
      assert Record(rows, c)[1..] == rows[1..];
    }
  }

  lemma AddedUpTwice(row: Option<Traffic>, c: Call, calls: seq<Call>)
    ensures AddedUp(AddedUp(row, [c]), calls) == AddedUp(row, [c] + calls)
  {
    OneCall(c, c.day, c.store);
    assert ([c] + calls)[1..] == calls;
    assert TotalIn([c] + calls) == c.bytesIn + TotalIn(calls);
    assert TotalOut([c] + calls) == c.bytesOut + TotalOut(calls);
    if calls == [] {
      assert [c] + calls == [c];
    }
  }

  lemma AddedUpCons(row: Option<Traffic>, c: Call, calls: seq<Call>, day: int, store: StoreId)
    ensures AddedUp(AddedUp(row, CallsOn([c], day, store)), CallsOn(calls, day, store))
         == AddedUp(row, CallsOn([c] + calls, day, store))
  {
    OneCall(c, day, store);
    if c.day == day && c.store == store {
      AddedUpTwice(row, c, CallsOn(calls, day, store));
    } else {
      assert CallsOn([c] + calls, day, store) == CallsOn(calls, day, store);
    }
  }

  /** Whatever was metered before, after any requests a store's row for a day holds their number
      and their bytes in each direction on top of what it held, and there is no row without a
      request. */
  lemma {:induction false} RowsTellTheCalls(rows: seq<UsageRow>, calls: seq<Call>, day: int, store: StoreId)
    ensures RowOf(RecordAll(rows, calls), day, store)
         == AddedUp(RowOf(rows, day, store), CallsOn(calls, day, store))
    decreases |calls|
  {
    if calls != [] {
      RecordAddsToOneRow(rows, calls[0], day, store);
      RowsTellTheCalls(Record(rows, calls[0]), calls[1..], day, store);
      AddedUpCons(RowOf(rows, day, store), calls[0], calls[1..], day, store);
      assert calls == [calls[0]] + calls[1..];
    }
  }

  // ------------------------------------------------------------------- billing

  /** Who a store bills to: its creator, or the account of a personal store. */
  function OwnerMap(stores: seq<(StoreId, Account)>, personal: seq<(StoreId, Account)>): map<StoreId, Account> {
    SetAll(SetAll(map[], stores), personal)
  }

  function SetAll(m: map<StoreId, Account>, rows: seq<(StoreId, Account)>): map<StoreId, Account>
    decreases |rows|
  {
    if rows == [] then m else SetAll(m[rows[0].0 := rows[0].1], rows[1..])
  }

  predicate UniqueAccounts(accounts: seq<Account>) {
    forall i, j | 0 <= i < j < |accounts| :: accounts[i] != accounts[j]
  }

  /** What the accounts are billed together: each for the stores it owns. */
  function SumBills(rows: seq<UsageRow>, since: int, owner: map<StoreId, Account>,
                    accounts: seq<Account>, m: Meter): nat
  {
    if accounts == [] then 0
    else SumRows(rows, BilledTo(since, owner, accounts[0]), m) + SumBills(rows, since, owner, accounts[1..], m)
  }

  lemma {:induction false} BillsOfNothing(since: int, owner: map<StoreId, Account>, accounts: seq<Account>, m: Meter)
    ensures SumBills([], since, owner, accounts, m) == 0
  {
    if accounts != [] {
      BillsOfNothing(since, owner, accounts[1..], m);
    }
  }

  /** One more row adds to one bill at most. */
  lemma {:induction false} BillsOneMoreRow(row: UsageRow, rows: seq<UsageRow>, since: int,
                                           owner: map<StoreId, Account>, accounts: seq<Account>, m: Meter)
    requires UniqueAccounts(accounts)
    ensures SumBills([row] + rows, since, owner, accounts, m)
         == SumBills(rows, since, owner, accounts, m)
            + if row.day >= since && row.store in owner && owner[row.store] in accounts
              then Read(row.used, m) else 0
    decreases |accounts|
  {
    if accounts != [] {
      BillsOneMoreRow(row, rows, since, owner, accounts[1..], m);
      SumRowsCons(row, rows, BilledTo(since, owner, accounts[0]), m);
      assert forall a :: a in accounts <==> a == accounts[0] || a in accounts[1..];
    }
  }

  /** The bills, together with the usage of stores that bill to nobody, are the window's
      traffic total: nothing is billed twice and nothing is lost. */
  lemma {:induction false} BillingIsConserved(rows: seq<UsageRow>, since: int,
                                              owner: map<StoreId, Account>, accounts: seq<Account>, m: Meter)
    requires UniqueAccounts(accounts)
    ensures SumBills(rows, since, owner, accounts, m) + SumRows(rows, Unbilled(since, owner, accounts), m)
         == SumRows(rows, Everything(since), m)
  {
    if rows == [] {
      BillsOfNothing(since, owner, accounts, m);
    } else {
      BillingIsConserved(rows[1..], since, owner, accounts, m);
      assert rows == [rows[0]] + rows[1..];
      BillsOneMoreRow(rows[0], rows[1..], since, owner, accounts, m);
    }
  }

  // ---------------------------------------------------------- the loops in place

  /** The rows of the window. */
  function UsageSince(rows: seq<UsageRow>, since: int): seq<UsageRow> {
    if rows == [] then []
    else (if rows[0].day >= since then [rows[0]] else []) + UsageSince(rows[1..], since)
  }

  /** Every sum over the window's rows is the window's sum over the table. */
  lemma {:induction false} SumOfWindow(rows: seq<UsageRow>, scope: Scope, m: Meter)
    ensures SumRows(UsageSince(rows, scope.since), scope, m) == SumRows(rows, scope, m)
  {
    if rows != [] {
      SumOfWindow(rows[1..], scope, m);
      if rows[0].day >= scope.since {
        SumRowsCons(rows[0], UsageSince(rows[1..], scope.since), scope, m);
      } else {
        assert UsageSince(rows, scope.since) == UsageSince(rows[1..], scope.since);
      }
    }
  }

  lemma {:induction false} WindowDays(rows: seq<UsageRow>, since: int)
    ensures forall r :: r in UsageSince(rows, since) <==> r in rows && r.day >= since
  {
    if rows != [] {
      WindowDays(rows[1..], since);
    }
  }

  /** A running total that agrees with the sum over `rows` on every counter. */
  ghost predicate Totals(t: Traffic, rows: seq<UsageRow>, scope: Scope) {
    forall m :: Read(t, m) == SumRows(rows, scope, m)
  }

  lemma TotalsSnoc(t: Traffic, rows: seq<UsageRow>, row: UsageRow, scope: Scope)
    requires Totals(t, rows, scope)
    ensures scope.Covers(row.day, row.store) ==> Totals(Plus(t, row.used), rows + [row], scope)
    ensures !scope.Covers(row.day, row.store) ==> Totals(t, rows + [row], scope)
  {
    forall m ensures SumRows(rows + [row], scope, m)
                  == SumRows(rows, scope, m) + scope.Of(row.day, row.store, Read(row.used, m)) {
      SumRowsSnoc(rows, row, scope, m);
    }
  }

  lemma TotalsOfWindow(t: Traffic, rows: seq<UsageRow>, scope: Scope)
    requires Totals(t, UsageSince(rows, scope.since), scope)
    ensures Totals(t, rows, scope)
  {
    forall m ensures Read(t, m) == SumRows(rows, scope, m) {
      SumOfWindow(rows, scope, m);
    }
  }

  class UsageTable {
    var rows: seq<UsageRow>

    constructor ()
      ensures rows == []
    {
      rows := [];
    }

    method RecordUsage(c: Call)
      modifies this
      ensures rows == Record(old(rows), c)
    {
      var i := 0;
      while i < |rows| && !SameKey(rows[i], c)
        invariant 0 <= i <= |rows|
        invariant Record(rows, c) == rows[..i] + Record(rows[i..], c)
      {
        assert rows[i..][1..] == rows[i + 1..] && rows[..i + 1] == rows[..i] + [rows[i]];
        i := i + 1;
      }
      if i < |rows| {
        assert rows[i..][1..] == rows[i + 1..];
        rows := rows[..i] + ([rows[i].(used := Plus(rows[i].used, Cost(c)))] + rows[i + 1..]);
      } else {
        rows := rows[..i] + [UsageRow(c.day, c.store, Cost(c))];
      }
    }

    method TrafficSince(since: int) returns (total: Traffic)
      ensures Totals(total, rows, Everything(since))
    {
      total := Traffic(0, 0, 0);
      var usage := UsageSince(rows, since);
      WindowDays(rows, since);
      for i := 0 to |usage|
        invariant Totals(total, usage[..i], Everything(since))
      {
        assert usage[i] in usage && usage[..i + 1] == usage[..i] + [usage[i]];
        TotalsSnoc(total, usage[..i], usage[i], Everything(since));
        total := Plus(total, usage[i].used);
      }
      assert usage[..|usage|] == usage;
      TotalsOfWindow(total, rows, Everything(since));
    }
  }

  datatype Bill = Bill(account: Account, used: Traffic)

  /** The bill of each account, in order: the total of exactly the stores it owns. */
  ghost predicate BillsFor(bills: seq<Bill>, rows: seq<UsageRow>, since: int, owner: map<StoreId, Account>,
                           accounts: seq<Account>) {
    && |bills| == |accounts|
    && forall k | 0 <= k < |accounts| ::
         bills[k].account == accounts[k] && Totals(bills[k].used, rows, BilledTo(since, owner, accounts[k]))
  }

  function SumUsed(bills: seq<Bill>, m: Meter): nat {
    if bills == [] then 0 else Read(bills[0].used, m) + SumUsed(bills[1..], m)
  }

  lemma {:induction false} BillsAddUp(bills: seq<Bill>, rows: seq<UsageRow>, since: int,
                                      owner: map<StoreId, Account>, accounts: seq<Account>, m: Meter)
    requires BillsFor(bills, rows, since, owner, accounts)
    ensures SumUsed(bills, m) == SumBills(rows, since, owner, accounts, m)
    decreases |bills|
  {
    if bills != [] {
      BillsAddUp(bills[1..], rows, since, owner, accounts[1..], m);
    }
  }

  /** End to end: after any run of metered requests, the bills plus the usage that bills to
      nobody are the sum of the requests in the window. */
  lemma BillsCoverTheCalls(calls: seq<Call>, bills: seq<Bill>, since: int, owner: map<StoreId, Account>,
                           accounts: seq<Account>, m: Meter)
    requires UniqueAccounts(accounts)
    requires BillsFor(bills, RecordAll([], calls), since, owner, accounts)
    ensures SumUsed(bills, m) + SumCalls(calls, Unbilled(since, owner, accounts), m)
         == SumCalls(calls, Everything(since), m)
  {
    var rows := RecordAll([], calls);
    BillsAddUp(bills, rows, since, owner, accounts, m);
    BillingIsConserved(rows, since, owner, accounts, m);
    MeteringIsConserved([], calls, Unbilled(since, owner, accounts), m);
    MeteringIsConserved([], calls, Everything(since), m);
  }

  lemma {:induction false} SetAllKeys(m: map<StoreId, Account>, rows: seq<(StoreId, Account)>, s: StoreId)
    ensures s in SetAll(m, rows) <==> s in m || exists r | r in rows :: r.0 == s
    decreases |rows|
  {
    if rows != [] {
      SetAllKeys(m[rows[0].0 := rows[0].1], rows[1..], s);
      assert forall r :: r in rows <==> r == rows[0] || r in rows[1..];
    }
  }

  /** What bills to nobody: a store without a row, among the workspaces or the personal stores. */
  lemma StoresWithoutRowsBillToNobody(stores: seq<(StoreId, Account)>, personal: seq<(StoreId, Account)>, s: StoreId)
    ensures s in OwnerMap(stores, personal)
            <==> (exists r | r in stores :: r.0 == s) || (exists r | r in personal :: r.0 == s)
  {
    SetAllKeys(map[], stores, s);
    SetAllKeys(SetAll(map[], stores), personal, s);
  }

  lemma {:induction false} LastRowDecides(m: map<StoreId, Account>, rows: seq<(StoreId, Account)>, s: StoreId, i: nat)
    requires i < |rows| && rows[i].0 == s && forall j | i < j < |rows| :: rows[j].0 != s
    ensures s in SetAll(m, rows) && SetAll(m, rows)[s] == rows[i].1
    decreases |rows|
  {
    if i > 0 {
      LastRowDecides(m[rows[0].0 := rows[0].1], rows[1..], s, i - 1);
    } else {
      assert forall r | r in rows[1..] :: r.0 != s;
      OtherRowsKeep(m[s := rows[0].1], rows[1..], s);
    }
  }

  lemma {:induction false} OtherRowsKeep(m: map<StoreId, Account>, rows: seq<(StoreId, Account)>, s: StoreId)
    requires forall r | r in rows :: r.0 != s
    ensures s in SetAll(m, rows) <==> s in m
    ensures s in m ==> SetAll(m, rows)[s] == m[s]
    decreases |rows|
  {
    if rows != [] {
      assert rows[0] in rows;
      OtherRowsKeep(m[rows[0].0 := rows[0].1], rows[1..], s);
    }
  }

  /** Whom a store bills to: the account of its last row among the personal stores, and where it
      has none there, of its last row among the workspaces. */
  lemma BillsToItsLastRow(stores: seq<(StoreId, Account)>, personal: seq<(StoreId, Account)>, s: StoreId, i: nat)
    ensures i < |personal| && personal[i].0 == s && (forall j | i < j < |personal| :: personal[j].0 != s) ==>
              s in OwnerMap(stores, personal) && OwnerMap(stores, personal)[s] == personal[i].1
    ensures i < |stores| && stores[i].0 == s && (forall j | i < j < |stores| :: stores[j].0 != s)
            && (forall r | r in personal :: r.0 != s) ==>
              s in OwnerMap(stores, personal) && OwnerMap(stores, personal)[s] == stores[i].1
  {
    if i < |personal| && personal[i].0 == s && forall j | i < j < |personal| :: personal[j].0 != s {
      LastRowDecides(SetAll(map[], stores), personal, s, i);
    }
    if i < |stores| && stores[i].0 == s && (forall j | i < j < |stores| :: stores[j].0 != s)
       && (forall r | r in personal :: r.0 != s)
    {
      LastRowDecides(map[], stores, s, i);
      OtherRowsKeep(SetAll(map[], stores), personal, s);
    }
  }

  lemma {:induction false} LastRow(rows: seq<(StoreId, Account)>, s: StoreId) returns (i: nat)
    requires exists r :: r in rows && r.0 == s
    ensures i < |rows| && rows[i].0 == s && forall j | i < j < |rows| :: rows[j].0 != s
  {
    var last := |rows| - 1;
    if rows[last].0 == s {
      i := last;
    } else {
      assert forall r | r in rows :: r == rows[last] || r in rows[..last];
      i := LastRow(rows[..last], s);
    }
  }

  /** The billing loop: each row of the window is added to the bill of the store's owner, or
      skipped when the store has no owner among the accounts. */
  method GatherBilling(rows: seq<UsageRow>, since: int, stores: seq<(StoreId, Account)>,
                       personal: seq<(StoreId, Account)>, accounts: seq<Account>)
    returns (bills: seq<Bill>)
    requires UniqueAccounts(accounts)
    ensures BillsFor(bills, rows, since, OwnerMap(stores, personal), accounts)
  {
    var owner: map<StoreId, Account> := map[];
    for i := 0 to |stores|
      invariant SetAll(map[], stores) == SetAll(owner, stores[i..])
    {
      assert stores[i..][0] == stores[i] && stores[i..][1..] == stores[i + 1..];
      owner := owner[stores[i].0 := stores[i].1];
    }
    for i := 0 to |personal|
      invariant OwnerMap(stores, personal) == SetAll(owner, personal[i..])
    {
      assert personal[i..][0] == personal[i] && personal[i..][1..] == personal[i + 1..];
      owner := owner[personal[i].0 := personal[i].1];
    }
    WindowDays(rows, since);
    bills := AddUp(UsageSince(rows, since), since, owner, accounts);
    forall k | 0 <= k < |accounts| ensures Totals(bills[k].used, rows, BilledTo(since, owner, accounts[k])) {
      TotalsOfWindow(bills[k].used, rows, BilledTo(since, owner, accounts[k]));
    }
  }

  method AddUp(usage: seq<UsageRow>, since: int, owner: map<StoreId, Account>, accounts: seq<Account>)
    returns (bills: seq<Bill>)
    requires UniqueAccounts(accounts) && forall u | u in usage :: u.day >= since
    ensures BillsFor(bills, usage, since, owner, accounts)
  {
    bills := seq(|accounts|, k requires 0 <= k < |accounts| => Bill(accounts[k], Traffic(0, 0, 0)));
    for i := 0 to |usage|
      invariant BillsFor(bills, usage[..i], since, owner, accounts)
    {
      var u := usage[i];
      assert u in usage && usage[..i + 1] == usage[..i] + [u];
      forall k | 0 <= k < |accounts|
        ensures var scope := BilledTo(since, owner, accounts[k]);
                && (scope.Covers(u.day, u.store) ==> Totals(Plus(bills[k].used, u.used), usage[..i + 1], scope))
                && (!scope.Covers(u.day, u.store) ==> Totals(bills[k].used, usage[..i + 1], scope))
      {
        TotalsSnoc(bills[k].used, usage[..i], u, BilledTo(since, owner, accounts[k]));
      }
      if u.store in owner {
        var k := FindAccount(accounts, owner[u.store]);
        if k < |accounts| {
          bills := bills[k := bills[k].(used := Plus(bills[k].used, u.used))];
        }
      }
    }
    assert usage[..|usage|] == usage;
  }

  function FindAccount(accounts: seq<Account>, a: Account): (k: nat)
    ensures k <= |accounts|
    ensures k < |accounts| ==> accounts[k] == a
    ensures k == |accounts| ==> a !in accounts
  {
    if accounts == [] || accounts[0] == a then 0 else 1 + FindAccount(accounts[1..], a)
  }
}
