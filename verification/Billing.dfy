/** Who is billed, in the states that the handlers reach. */
module Billing {
  import opened Metering
  import opened Tables
  import Workspace

  /** The rows that the two queries over the tables return. */
  ghost predicate OwnerRows(t: Tables, stores: seq<(StoreId, Account)>, personal: seq<(StoreId, Account)>) {
    && (forall x :: x in stores <==> x.0 in t.stores && t.stores[x.0].createdBy == x.1)
    && (forall x :: x in personal <==> x.1 in t.personal && t.personal[x.1] == x.0)
  }

  /** In every reached state the usage of a sidecar bills to nobody, nor does that of a workspace
      that is not there any more; that of every other workspace bills to its creator, and that of
      a personal store to the account whose it is. */
  lemma SidecarsBillToNobody(now: int, steps: seq<Workspace.Step>, stores: seq<(StoreId, Account)>,
                             personal: seq<(StoreId, Account)>, s: StoreId)
    requires OwnerRows(Workspace.Reached(now, steps).t, stores, personal)
    ensures var t := Workspace.Reached(now, steps).t;
            && (s in t.derived ==> s !in OwnerMap(stores, personal))
            && (s.Wsp? ==> (s in OwnerMap(stores, personal) <==> s in t.stores))
            && (s in t.stores ==> OwnerMap(stores, personal)[s] == t.stores[s].createdBy)
            && (s in t.personal.Values ==>
                  && s in OwnerMap(stores, personal) && OwnerMap(stores, personal)[s] in t.personal
                  && t.personal[OwnerMap(stores, personal)[s]] == s)
  {
    var t := Workspace.Reached(now, steps).t;
    StoresWithoutRowsBillToNobody(stores, personal, s);
    assert forall a | a in t.personal :: t.personal[a].Psm?;
    if s in t.stores {
      assert (s, t.stores[s].createdBy) in stores;
      var i := LastRow(stores, s);
      assert stores[i] in stores;
      assert forall r | r in personal :: r.0.Psm?;
      BillsToItsLastRow(stores, personal, s, i);
    }
    if s in t.personal.Values {
      var a :| a in t.personal && t.personal[a] == s;
      assert (s, a) in personal;
      var i := LastRow(personal, s);
      assert personal[i] in personal;
      BillsToItsLastRow(stores, personal, s, i);
    }
  }
}
