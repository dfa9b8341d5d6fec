/** The data-access layer as it runs: tables changed in place, statement by statement. */
module WorkspaceDb {
  import opened Options
  import T = Tables

  class Db {
    var stores: map<T.StoreId, T.Store>
    var members: map<(T.StoreId, T.Account), T.Role>
    var invites: map<string, T.Invite>
    var derived: map<T.StoreId, (T.StoreId, string)>
    var personal: map<T.Account, T.StoreId>
    var sources: map<(T.StoreId, string), T.Account>

    function Snapshot(): T.Tables
      reads this
    {
      T.Tables(stores, members, invites, derived, personal, sources)
    }

    constructor ()
      ensures Snapshot() == T.EmptyTables()
    {
      stores, members, invites := map[], map[], map[];
      derived, personal, sources := map[], map[], map[];
    }

    method CreateStore(id: T.StoreId, owner: T.Account)
      modifies `stores, `members
      ensures Snapshot() == T.CreateStore(old(Snapshot()), id, owner)
      ensures id !in old(stores) && (id, owner) !in old(members) ==>
                T.OwnersOf(Snapshot(), id) == T.OwnersOf(old(Snapshot()), id) + {owner}
    {
      if id in stores || (id, owner) in members {
        return;
      }
      stores := stores[id := T.Store(false, owner)];
      members := members[(id, owner) := T.Owner];
    }

    /** An insert that a member's existing row wins against, whatever role is asked for. */
    method AddMember(s: T.StoreId, a: T.Account, role: T.Role)
      modifies `members
      ensures Snapshot() == T.AddMember(old(Snapshot()), s, a, role)
      ensures (s, a) in old(members) ==> members == old(members)
      ensures s in stores ==>
                && T.MembersOf(Snapshot(), s) == T.MembersOf(old(Snapshot()), s) + {a}
                && ((s, a) !in old(members) ==> T.MemberRole(Snapshot(), s, a) == Some(role))
      ensures forall x, b | x != s || b != a ::
                T.MemberRole(Snapshot(), x, b) == T.MemberRole(old(Snapshot()), x, b)
    {
      if (s, a) !in members && s in stores {
        members := members[(s, a) := role];
      }
    }

    /** Refused exactly when `a` is the only owner and others would be left behind. */
    method RemoveMember(s: T.StoreId, a: T.Account) returns (change: T.Change)
      modifies `members
      ensures (Snapshot(), change) == T.RemoveMember(old(Snapshot()), s, a)
      ensures change == T.LastOwner <==>
                T.OwnersOf(old(Snapshot()), s) == {a} && T.MembersOf(old(Snapshot()), s) != {a}
      ensures T.OwnersOf(old(Snapshot()), s) != {} ==>
                T.OwnersOf(Snapshot(), s) != {} || T.MembersOf(Snapshot(), s) == {}
    {
      T.RemoveMemberKeepsAnOwner(Snapshot(), s, a);
      var role := T.MemberRole(Snapshot(), s, a);
      if role.None? {
        return T.NotAMember;
      }
      if role.value == T.Owner && |T.OwnersOf(Snapshot(), s)| == 1 && |T.MembersOf(Snapshot(), s)| > 1 {
        return T.LastOwner;
      }
      members := members - {(s, a)};
      return T.Done;
    }

    method SetRole(s: T.StoreId, a: T.Account, role: T.Role) returns (change: T.Change)
      modifies `members
      ensures (Snapshot(), change) == T.SetRole(old(Snapshot()), s, a, role)
      ensures change == T.LastOwner <==> T.OwnersOf(old(Snapshot()), s) == {a} && role == T.Member
      ensures T.OwnersOf(old(Snapshot()), s) != {} ==> T.OwnersOf(Snapshot(), s) != {}
    {
      T.SetRoleKeepsAnOwner(Snapshot(), s, a, role);
      var current := T.MemberRole(Snapshot(), s, a);
      if current.None? {
        return T.NotAMember;
      }
      if current.value == T.Owner && role == T.Member && |T.OwnersOf(Snapshot(), s)| == 1 {
        return T.LastOwner;
      }
      members := members[(s, a) := role];
      return T.Done;
    }

    /** A fresh key on an existing store lives until it expires, unless it allows no use; the
        store is shared from then on, and no other invite or store changes. */
    method MintInvite(key: string, s: T.StoreId, maxUses: Option<nat>, expiresAt: Option<int>)
      modifies `invites, `stores
      ensures Snapshot() == T.MintInvite(old(Snapshot()), key, s, maxUses, expiresAt)
      ensures s in old(stores) && key !in old(invites) ==>
                && key in invites && invites[key] == T.Invite(s, maxUses, 0, expiresAt, false)
                && stores[s].inviteReachable
                && (forall now :: !T.Dead(Snapshot(), key, now)
                      <==> (expiresAt.Some? ==> now < expiresAt.value) && maxUses != Some(0))
      ensures forall k | k in old(invites) :: k in invites && invites[k] == old(invites)[k]
      ensures invites.Keys <= old(invites.Keys) + {key} && stores.Keys == old(stores.Keys)
      ensures forall x | x in stores && x != s :: stores[x] == old(stores)[x]
    {
      if s !in stores || key in invites {
        return;
      }
      invites := invites[key := T.Invite(s, maxUses, 0, expiresAt, false)];
      stores := stores[s := stores[s].(inviteReachable := true)];
    }

    method RevokeInvite(s: T.StoreId, key: string) returns (known: bool)
      modifies `invites
      ensures (Snapshot(), known) == T.RevokeInvite(old(Snapshot()), s, key)
      ensures known <==> key in old(invites) && old(invites)[key].store == s
      ensures known ==> forall now :: T.Dead(Snapshot(), key, now)
      ensures invites.Keys == old(invites.Keys)
      ensures forall k | k in invites && (k != key || !known) :: invites[k] == old(invites)[k]
      ensures known ==> invites[key] == old(invites)[key].(revoked := true)
    {
      if key !in invites || invites[key].store != s {
        return false;
      }
      invites := invites[key := invites[key].(revoked := true)];
      return true;
    }

    /** A dead invite changes nothing; a live one adds at most the caller and pays one use
        for it. */
    method RedeemInvite(key: string, a: T.Account, now: int) returns (r: T.Redeemed)
      modifies `members, `invites
      ensures (Snapshot(), r) == T.RedeemInvite(old(Snapshot()), key, a, now)
      ensures key in old(invites) && T.Dead(old(Snapshot()), key, now) ==> Snapshot() == old(Snapshot())
      ensures r.Joined? <==>
                && key in old(invites) && !T.Dead(old(Snapshot()), key, now)
                && (old(invites)[key].store in stores || (old(invites)[key].store, a) in old(members))
      ensures r.Joined? && !r.alreadyMember ==>
                && r.store == old(invites)[key].store && (r.store, a) !in old(members)
                && members == old(members)[(r.store, a) := T.Member]
                && invites == old(invites)[key := old(invites)[key].(used := old(invites)[key].used + 1)]
      ensures r.Refused? || r.alreadyMember ==> members == old(members) && invites == old(invites)
      ensures r.Joined? ==> T.MemberRole(Snapshot(), r.store, a) == Some(r.role)
    {
      if key !in invites {
        return T.Refused;
      }
      var row := invites[key];
      if row.revoked {
        return T.Refused;
      }
      if row.expiresAt.Some? && row.expiresAt.value <= now {
        return T.Refused;
      }
      if row.maxUses.Some? && row.used >= row.maxUses.value {
        return T.Refused;
      }
      var existing := T.MemberRole(Snapshot(), row.store, a);
      if existing.Some? {
        return T.Joined(row.store, existing.value, true);
      }
      if row.store !in stores {
        return T.Refused;
      }
      AddMember(row.store, a, T.Member);
      invites := invites[key := row.(used := row.used + 1)];
      return T.Joined(row.store, T.Member, false);
    }

    /** One sidecar per parent and kind: asking again, with any other id drawn, finds it. */
    method GetOrCreateDerivedStore(parent: T.StoreId, kind: string, drawn: T.StoreId)
      returns (sidecar: Option<T.StoreId>)
      modifies `derived
      ensures Snapshot() == T.OpenSidecar(old(Snapshot()), parent, kind, drawn)
      ensures sidecar.Some? ==> sidecar.value in derived && derived[sidecar.value] == (parent, kind)
      ensures drawn !in old(derived) ==>
                sidecar.Some? && forall other :: T.OpenSidecar(Snapshot(), parent, kind, other) == Snapshot()
    {
      if existing :| existing in derived && derived[existing] == (parent, kind) {
        return Some(existing);
      }
      if drawn in derived {
        return None;
      }
      derived := derived[drawn := (parent, kind)];
      return Some(drawn);
    }

    /** The teardown transaction: the last delete is refused while a source store refers to
        the row, and then every table is put back. */
    method DeleteStore(s: T.StoreId) returns (ok: bool)
      requires s in stores
      modifies `stores, `members, `invites, `derived
      ensures (Snapshot(), ok) == T.DeleteStore(old(Snapshot()), s)
      ensures !ok ==> Snapshot() == old(Snapshot())
    {
      var before := Snapshot();
      invites := T.InvitesElsewhere(invites, s);
      members := T.MembersElsewhere(members, s);
      derived := T.SidecarsElsewhere(derived, s);
      if T.Referenced(Snapshot(), s) {
        invites, members, derived := before.invites, before.members, before.derived;
        return false;
      }
      stores := stores - {s};
      return true;
    }
  }
}
