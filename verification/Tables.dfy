/** The control-plane tables of the gateway, as maps with their keys, and the operations
    of the data-access layer on them. */
module Tables {
  import opened Options

  /** The prefix of a server-minted id fixes what kind of store it names. */
  datatype StoreId = Wsp(tag: string) | Psm(tag: string) | Der(tag: string) | Other(tag: string)

  datatype Account = Account(id: string)
  datatype Role = Owner | Member
  datatype Store = Store(inviteReachable: bool, createdBy: Account)

  /** An invite row; its key in the table stands for both its id and its token hash. */
  datatype Invite = Invite(store: StoreId, maxUses: Option<nat>, used: nat, expiresAt: Option<int>, revoked: bool)

  datatype Tables = Tables(
    stores: map<StoreId, Store>,
    members: map<(StoreId, Account), Role>,
    invites: map<string, Invite>,
    derived: map<StoreId, (StoreId, string)>,
    personal: map<Account, StoreId>,
    sources: map<(StoreId, string), Account>)

  function EmptyTables(): Tables {
    Tables(map[], map[], map[], map[], map[], map[])
  }

  function MemberRole(t: Tables, s: StoreId, a: Account): Option<Role> {
    if (s, a) in t.members then Some(t.members[(s, a)]) else None
  }

  function MembersOf(t: Tables, s: StoreId): (r: set<Account>)
    ensures forall a :: a in r <==> (s, a) in t.members
  {
    set k | k in t.members && k.0 == s :: k.1
  }

  function OwnersOf(t: Tables, s: StoreId): (r: set<Account>)
    ensures forall a :: a in r <==> (s, a) in t.members && t.members[(s, a)] == Owner
  {
    set k | k in t.members && k.0 == s && t.members[k] == Owner :: k.1
  }

  // ------------------------------------------------------------ stores and members

  /** Two inserts in one transaction; an id already taken rolls both back. */
  function CreateStore(t: Tables, id: StoreId, owner: Account): Tables {
    if id in t.stores || (id, owner) in t.members then t
    else t.(stores := t.stores[id := Store(false, owner)],
            members := t.members[(id, owner) := Owner])
  }

  /** Adds a member, keeping the role of an existing one. */
  function AddMember(t: Tables, s: StoreId, a: Account, role: Role): Tables {
    if (s, a) in t.members || s !in t.stores then t
    else t.(members := t.members[(s, a) := role])
  }

  datatype Change = Done | LastOwner | NotAMember

  function RemoveMember(t: Tables, s: StoreId, a: Account): (Tables, Change) {
    match MemberRole(t, s, a)
    case None => (t, NotAMember)
    case Some(role) =>
      if role == Owner && |OwnersOf(t, s)| == 1 && |MembersOf(t, s)| > 1 then (t, LastOwner)
      else (t.(members := t.members - {(s, a)}), Done)
  }

  function SetRole(t: Tables, s: StoreId, a: Account, role: Role): (Tables, Change) {
    match MemberRole(t, s, a)
    case None => (t, NotAMember)
    case Some(current) =>
      if current == Owner && role == Member && |OwnersOf(t, s)| == 1 then (t, LastOwner)
      else (t.(members := t.members[(s, a) := role]), Done)
  }

  // ---------------------------------------------------------------------- invites

  /** Insert and flag flip in one transaction; the insert fails when the store is gone or
      the key is taken. */
  function MintInvite(t: Tables, key: string, s: StoreId, maxUses: Option<nat>, expiresAt: Option<int>): Tables {
    if s !in t.stores || key in t.invites then t
    else t.(invites := t.invites[key := Invite(s, maxUses, 0, expiresAt, false)],
            stores := t.stores[s := t.stores[s].(inviteReachable := true)])
  }

  function RevokeInvite(t: Tables, s: StoreId, key: string): (Tables, bool) {
    if key !in t.invites || t.invites[key].store != s then (t, false)
    else (t.(invites := t.invites[key := t.invites[key].(revoked := true)]), true)
  }

  /** Revoked, expired or exhausted at `now`; a row that does not exist is dead too. */
  predicate Dead(t: Tables, key: string, now: int) {
    key in t.invites ==>
      var i := t.invites[key];
      || i.revoked
      || (i.expiresAt.Some? && i.expiresAt.value <= now)
      || (i.maxUses.Some? && i.used >= i.maxUses.value)
  }

  datatype Redeemed = Refused | Joined(store: StoreId, role: Role, alreadyMember: bool)

  function RedeemInvite(t: Tables, key: string, a: Account, now: int): (Tables, Redeemed) {
    if key !in t.invites || Dead(t, key, now) then (t, Refused)
    else
      var s := t.invites[key].store;
      match MemberRole(t, s, a)
      case Some(role) => (t, Joined(s, role, true))
      case None =>
        if s !in t.stores then (t, Refused) else
        var added := AddMember(t, s, a, Member);
        (added.(invites := t.invites[key := t.invites[key].(used := t.invites[key].used + 1)]),
         Joined(s, Member, false))
  }

  // ------------------------------------------------- sidecars, sources, teardown

  ghost predicate HasSidecar(t: Tables, parent: StoreId, kind: string) {
    exists d :: d in t.derived && t.derived[d] == (parent, kind)
  }

  ghost function OpenSidecar(t: Tables, parent: StoreId, kind: string, id: StoreId): Tables {
    if HasSidecar(t, parent, kind) || id in t.derived then t
    else t.(derived := t.derived[id := (parent, kind)])
  }

  /** The rows that a `DELETE ... WHERE store_id = s` leaves in each table. */
  function InvitesElsewhere(invites: map<string, Invite>, s: StoreId): map<string, Invite> {
    map k | k in invites && invites[k].store != s :: invites[k]
  }

  function MembersElsewhere(members: map<(StoreId, Account), Role>, s: StoreId): map<(StoreId, Account), Role> {
    map k | k in members && k.0 != s :: members[k]
  }

  function SidecarsElsewhere(derived: map<StoreId, (StoreId, string)>, s: StoreId): map<StoreId, (StoreId, string)> {
    map d | d in derived && derived[d].0 != s :: derived[d]
  }

  function OpenPersonal(t: Tables, a: Account, id: StoreId): Tables {
    if a in t.personal || id in t.personal.Values then t
    else t.(personal := t.personal[a := id])
  }

  /** First registration wins; registering again under the same account changes no owner. */
  function RegisterSource(t: Tables, s: StoreId, project: string, a: Account): (Tables, bool) {
    if (s, project) in t.sources then (t, t.sources[(s, project)] == a)
    else if s !in t.stores then (t, false)
    else (t.(sources := t.sources[(s, project) := a]), true)
  }

  /** The answer is whether the source store is the account's afterwards. */
  lemma RegisteredIff(t: Tables, s: StoreId, project: string, a: Account)
    ensures var r := RegisterSource(t, s, project, a);
            r.1 <==> (s, project) in r.0.sources && r.0.sources[(s, project)] == a
  {
  }

  /** Rows that carry a foreign key to the store. */
  predicate Referenced(t: Tables, s: StoreId) {
    || (exists k | k in t.members :: k.0 == s)
    || (exists k | k in t.invites :: t.invites[k].store == s)
    || (exists k | k in t.sources :: k.0 == s)
  }

  /** `DELETE FROM stores`: refused by the foreign keys while rows refer to the store. */
  function DeleteStoreRow(t: Tables, s: StoreId): Option<Tables> {
    if s in t.stores && Referenced(t, s) then None else Some(t.(stores := t.stores - {s}))
  }

  /** The teardown, statement by statement, in one transaction: a refused statement rolls
      everything back. */
  function DeleteStore(t: Tables, s: StoreId): (Tables, bool) {
    var t1 := t.(invites := InvitesElsewhere(t.invites, s));
    var t2 := t1.(members := MembersElsewhere(t1.members, s));
    var t3 := t2.(derived := SidecarsElsewhere(t2.derived, s));
    match DeleteStoreRow(t3, s)
    case None => (t, false)
    case Some(t4) => (t4, true)
  }

  /** What the teardown promises: all of the store's rows or none, and which of the two. */
  lemma DeleteStoreAllOrNothing(t: Tables, s: StoreId)
    requires s in t.stores
    ensures var r := DeleteStore(t, s);
            && (r.1 <==> forall k | k in t.sources :: k.0 != s)
            && (!r.1 ==> r.0 == t)
            && (r.1 ==>
                  && s !in r.0.stores && !Referenced(r.0, s)
                  && (forall d | d in r.0.derived :: r.0.derived[d].0 != s)
                  && r.0.personal == t.personal && r.0.sources == t.sources
                  && (forall x | x != s ::
                        && (x in r.0.stores <==> x in t.stores)
                        && (x in t.stores ==> r.0.stores[x] == t.stores[x])
                        && MembersOf(r.0, x) == MembersOf(t, x)
                        && OwnersOf(r.0, x) == OwnersOf(t, x))
                  && (forall k | k in t.invites && t.invites[k].store != s ::
                        k in r.0.invites && r.0.invites[k] == t.invites[k])
                  && (forall d | d in t.derived && t.derived[d].0 != s ::
                        d in r.0.derived && r.0.derived[d] == t.derived[d]))
  {
  }

  // ------------------------------------------------------------- the last owner

  lemma {:induction false} SubsetSize<T>(a: set<T>, b: set<T>)
    requires a <= b
    ensures |a| <= |b|
  {
    if a != {} {
      var x :| x in a;
      SubsetSize(a - {x}, b - {x});
    }
  }

  /** Counting to one. */
  lemma SizeOne<T>(s: set<T>, x: T)
    requires x in s
    ensures |s| == 1 <==> s == {x}
    ensures |s| > 1 <==> s != {x}
  {
    SubsetSize({x}, s);
    if y :| y in s && y != x {
      SubsetSize({x, y}, s);
    }
  }

  lemma RosterAfterRemoval(t: Tables, s: StoreId, a: Account)
    requires (s, a) in t.members
    ensures var t' := t.(members := t.members - {(s, a)});
            && MembersOf(t', s) == MembersOf(t, s) - {a}
            && OwnersOf(t', s) == OwnersOf(t, s) - {a}
  {
  }

  /** Removing a member never leaves others behind without an owner, and is refused only
      when it would. */
  lemma RemoveMemberKeepsAnOwner(t: Tables, s: StoreId, a: Account)
    ensures var r := RemoveMember(t, s, a);
            && (r.1 == NotAMember <==> (s, a) !in t.members)
            && (r.1 == LastOwner <==> OwnersOf(t, s) == {a} && MembersOf(t, s) != {a})
            && (r.1 != Done ==> r.0 == t)
            && (r.1 == Done ==> (MembersOf(r.0, s) == MembersOf(t, s) - {a}
                                 && OwnersOf(r.0, s) == OwnersOf(t, s) - {a}))
            && (OwnersOf(t, s) != {} ==> OwnersOf(r.0, s) != {} || MembersOf(r.0, s) == {})
  {
    if (s, a) in t.members {
      SizeOne(MembersOf(t, s), a);
      if t.members[(s, a)] == Owner {
        SizeOne(OwnersOf(t, s), a);
      }
      RosterAfterRemoval(t, s, a);
    } else {
      assert a !in OwnersOf(t, s) && a !in MembersOf(t, s);
    }
  }

  lemma RosterAfterRoleChange(t: Tables, s: StoreId, a: Account, role: Role)
    requires (s, a) in t.members
    ensures var t' := t.(members := t.members[(s, a) := role]);
            && MembersOf(t', s) == MembersOf(t, s)
            && OwnersOf(t', s) == if role == Owner then OwnersOf(t, s) + {a} else OwnersOf(t, s) - {a}
  {
  }

  /** Changing a role never leaves a store that had an owner without one. */
  lemma SetRoleKeepsAnOwner(t: Tables, s: StoreId, a: Account, role: Role)
    ensures var r := SetRole(t, s, a, role);
            && (r.1 == NotAMember <==> (s, a) !in t.members)
            && (r.1 == LastOwner <==> OwnersOf(t, s) == {a} && role == Member)
            && (r.1 != Done ==> r.0 == t)
            && (r.1 == Done ==> (MembersOf(r.0, s) == MembersOf(t, s)
                                 && OwnersOf(r.0, s) == if role == Owner then OwnersOf(t, s) + {a}
                                                        else OwnersOf(t, s) - {a}))
            && (OwnersOf(t, s) != {} ==> OwnersOf(r.0, s) != {})
  {
    if (s, a) in t.members {
      if t.members[(s, a)] == Owner {
        SizeOne(OwnersOf(t, s), a);
      }
      RosterAfterRoleChange(t, s, a, role);
    } else {
      assert a !in OwnersOf(t, s);
    }
  }
}
