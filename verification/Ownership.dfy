/** Who owns a workspace over whole runs of the handlers: exactly when a store loses its owner,
    when it comes to have members and none of them owns it, and when it gets one back. */
module Ownership {
  import opened Options
  import opened Tables
  import opened Policy
  import opened Workspace

  // ----------------------------------------------------------------- ownership

  predicate Ownerless(t: Tables, x: StoreId) {
    x in t.stores && OwnersOf(t, x) == {}
  }

  predicate Deserted(t: Tables, x: StoreId) {
    x in t.stores && MembersOf(t, x) == {}
  }

  /** Of a store: it does not lose its last owner while it has members, and it does not
      gain an owner when it has none. */
  ghost predicate KeepsOwner(t: Tables, t': Tables, x: StoreId) {
    Ownerless(t', x) && !Deserted(t', x) ==> Ownerless(t, x)
  }

  ghost predicate GainsNoOwner(t: Tables, t': Tables, x: StoreId) {
    Ownerless(t, x) ==> OwnersOf(t', x) == {}
  }

  lemma RemoveAndOwners(t: Tables, store: StoreId, a: Account, x: StoreId)
    ensures var t' := RemoveMember(t, store, a).0;
            KeepsOwner(t, t', x) && GainsNoOwner(t, t', x)
  {
    RemoveMemberKeepsAnOwner(t, store, a);
    var t' := RemoveMember(t, store, a).0;
    if x != store {
      assert OwnersOf(t', x) == OwnersOf(t, x) && MembersOf(t', x) == MembersOf(t, x);
    }
  }

  lemma RoleChangeAndOwners(t: Tables, store: StoreId, a: Account, role: Role, x: StoreId)
    ensures var t' := SetRole(t, store, a, role).0;
            && KeepsOwner(t, t', x)
            && (Ownerless(t, x) ==>
                  (OwnersOf(t', x) != {} <==> store == x && role == Owner && a in MembersOf(t, x)))
  {
    SetRoleKeepsAnOwner(t, store, a, role);
    var t' := SetRole(t, store, a, role).0;
    if x != store {
      SetRoleElsewhere(t, store, a, role, x);
    } else if role == Owner && a in MembersOf(t, x) {
      assert a in OwnersOf(t', x);
    }
  }

  lemma CreateAndOwners(t: Tables, id: StoreId, a: Account, x: StoreId)
    requires id !in t.stores
    ensures var t' := CreateStore(t, id, a);
            KeepsOwner(t, t', x) && GainsNoOwner(t, t', x)
  {
    var t' := CreateStore(t, id, a);
    if x != id {
      assert OwnersOf(t', x) == OwnersOf(t, x) && MembersOf(t', x) == MembersOf(t, x);
    } else if t' != t {
      assert a in OwnersOf(t', x);
    }
  }

  lemma RedeemAndOwners(t: Tables, key: string, a: Account, now: int, x: StoreId)
    ensures var t' := RedeemInvite(t, key, a, now).0;
            KeepsOwner(t, t', x) && GainsNoOwner(t, t', x)
  {
    var t' := RedeemInvite(t, key, a, now).0;
    assert OwnersOf(t', x) == OwnersOf(t, x);
  }

  lemma SameRosterKeepsOwner(t: Tables, t': Tables, x: StoreId)
    requires t'.members == t.members && t'.stores.Keys == t.stores.Keys
    ensures KeepsOwner(t, t', x) && GainsNoOwner(t, t', x)
  {
  }

  /** Every step but the arrival of a role change. */
  lemma StepAndOwners(s: State, step: Step, x: StoreId)
    requires Inv(s) && ParentsAreSources(s.t) && !step.FinishSetRole?
    ensures KeepsOwner(s.t, Next(s, step).t, x) && GainsNoOwner(s.t, Next(s, step).t, x)
  {
    match step
    case Remove(p, store, target) =>
      RemoveAndOwners(s.t, store, target, x);
      SameRosterKeepsOwner(s.t, s.t, x);
    case Join(p, key) =>
      RedeemAndOwners(s.t, key, p.account, s.now, x);
      SameRosterKeepsOwner(s.t, s.t, x);
    case CreateWorkspace(p, id) => CreateStepAndOwners(s, p, id, x);
    case Delete(_, _) =>
    case FinishSetRole(_, _) =>
    case _ =>
      RosterUntouched(s, step);
      SameRosterKeepsOwner(s.t, Next(s, step).t, x);
  }

  lemma CreateStepAndOwners(s: State, p: Principal, id: StoreId, x: StoreId)
    requires Inv(s) && ParentsAreSources(s.t)
    ensures var t' := Next(s, CreateWorkspace(p, id)).t;
            KeepsOwner(s.t, t', x) && GainsNoOwner(s.t, t', x)
  {
    SameRosterKeepsOwner(s.t, s.t, x);
    if id !in s.created {
      CreateAndOwners(s.t, id, p.account, x);
    }
  }

  /** A step can leave a store with members and no owner only if it had no owner before. */
  lemma StepKeepsAnOwner(s: State, step: Step, x: StoreId)
    requires Inv(s) && ParentsAreSources(s.t)
    ensures KeepsOwner(s.t, Next(s, step).t, x)
  {
    if step.FinishSetRole? {
      if step.req in s.pending && s.pending[step.req].RolePending? {
        var r := s.pending[step.req];
        RoleChangeAndOwners(s.t, r.store, r.target, step.role, x);
      }
    } else {
      StepAndOwners(s, step, x);
    }
  }

  // ------------------------------------ exactly when the owner goes, and members stay

  /** The only member of the store, who then is its owner, leaves it. */
  ghost predicate LoneDeparture(s: State, step: Step, x: StoreId) {
    && step.Remove? && step.store == x && step.target == step.p.account
    && !step.p.readOnly && step.p.scope.None?
    && x in s.t.stores && MembersOf(s.t, x) == {step.p.account}
  }

  /** Somebody joins a store that has no member. */
  ghost predicate StrandingJoin(s: State, step: Step, x: StoreId)
    requires ParentsAreSources(s.t)
  {
    && step.Join? && step.key in s.t.invites && s.t.invites[step.key].store == x
    && Admits(s, step, step.key) && Deserted(s.t, x)
  }

  /** It has members, and none of them owns it. */
  predicate Headless(t: Tables, x: StoreId) {
    Ownerless(t, x) && !Deserted(t, x)
  }

  lemma RemovalOfOwnersIff(t: Tables, store: StoreId, a: Account, x: StoreId)
    requires OwnersOf(t, x) != {}
    ensures var t' := RemoveMember(t, store, a).0;
            OwnersOf(t', x) == {} <==> store == x && MembersOf(t, x) == {a}
  {
    RemoveMemberKeepsAnOwner(t, store, a);
    var t' := RemoveMember(t, store, a).0;
    if x != store {
      assert OwnersOf(t', x) == OwnersOf(t, x);
    } else {
      assert (x, a) in t.members <==> a in MembersOf(t, x);
    }
  }

  lemma RemoveStepLosesOwnerIff(s: State, p: Principal, store: StoreId, target: Account, x: StoreId)
    requires Inv(s) && ParentsAreSources(s.t) && x in s.t.stores && OwnersOf(s.t, x) != {}
    ensures Ownerless(Next(s, Remove(p, store, target)).t, x)
            <==> LoneDeparture(s, Remove(p, store, target), x)
  {
    RemovalOfOwnersIff(s.t, store, target, x);
    if MembersOf(s.t, x) == {target} && target != p.account {
      assert p.account !in MembersOf(s.t, x);
    }
    if MembersOf(s.t, x) == {p.account} {
      assert p.account in MembersOf(s.t, x);
    }
  }

  lemma OtherStepsKeepOwner(s: State, step: Step, x: StoreId)
    requires Inv(s) && ParentsAreSources(s.t) && x in s.t.stores && OwnersOf(s.t, x) != {}
    requires !step.Remove?
    ensures !Ownerless(Next(s, step).t, x)
  {
    if step.Join? {
      RedeemKeepsOwners(s, step.p, step.key, x);
    } else if step.CreateWorkspace? {
      CreateKeepsOwners(s, step.p, step.id, x);
    } else if step.Delete? {
      DeleteStepKeepsOwners(s, step.p, step.store, x);
    } else if step.FinishSetRole? {
      RoleStepKeepsOwners(s, step.req, step.role, x);
    } else {
      RosterUntouched(s, step);
    }
  }

  lemma RedeemKeepsOwners(s: State, p: Principal, key: string, x: StoreId)
    requires Inv(s) && ParentsAreSources(s.t)
    ensures OwnersOf(Next(s, Join(p, key)).t, x) == OwnersOf(s.t, x)
  {
    JoinAddsOneMember(s, p, key);
  }

  lemma DeleteStepKeepsOwners(s: State, p: Principal, store: StoreId, x: StoreId)
    requires Inv(s) && ParentsAreSources(s.t)
    ensures var t' := Next(s, Delete(p, store)).t;
            x in t'.stores ==> OwnersOf(t', x) == OwnersOf(s.t, x) && MembersOf(t', x) == MembersOf(s.t, x)
  {
    if MayAdmin(s, p, store) {
      DeleteKeepsOwners(s.t, store, x);
    }
  }

  lemma RoleStepKeepsOwners(s: State, req: nat, role: Role, x: StoreId)
    requires Inv(s) && ParentsAreSources(s.t)
    ensures var t' := Next(s, FinishSetRole(req, role)).t;
            (OwnersOf(s.t, x) != {} ==> OwnersOf(t', x) != {}) && MembersOf(t', x) == MembersOf(s.t, x)
  {
    if req in s.pending && s.pending[req].RolePending? {
      SetRoleKeepsOwners(s.t, s.pending[req].store, s.pending[req].target, role, x);
    }
  }

  lemma CreateKeepsOwners(s: State, p: Principal, id: StoreId, x: StoreId)
    requires Inv(s) && ParentsAreSources(s.t) && x in s.t.stores
    ensures OwnersOf(Next(s, CreateWorkspace(p, id)).t, x) == OwnersOf(s.t, x)
    ensures MembersOf(Next(s, CreateWorkspace(p, id)).t, x) == MembersOf(s.t, x)
  {
  }

  lemma DeleteKeepsOwners(t: Tables, store: StoreId, x: StoreId)
    requires store in t.stores
    ensures var t' := DeleteStore(t, store).0;
            x in t'.stores ==> x in t.stores && OwnersOf(t', x) == OwnersOf(t, x) && MembersOf(t', x) == MembersOf(t, x)
  {
    DeleteStoreAllOrNothing(t, store);
  }

  lemma SetRoleKeepsOwners(t: Tables, store: StoreId, a: Account, role: Role, x: StoreId)
    ensures var t' := SetRole(t, store, a, role).0;
            (OwnersOf(t, x) != {} ==> OwnersOf(t', x) != {}) && MembersOf(t', x) == MembersOf(t, x)
  {
    if x == store {
      SetRoleKeepsAnOwner(t, store, a, role);
    } else {
      SetRoleElsewhere(t, store, a, role, x);
    }
  }

  lemma SetRoleElsewhere(t: Tables, store: StoreId, a: Account, role: Role, x: StoreId)
    requires x != store
    ensures var t' := SetRole(t, store, a, role).0;
            OwnersOf(t', x) == OwnersOf(t, x) && MembersOf(t', x) == MembersOf(t, x)
  {
  }

  /** A store that has an owner, or does not exist, is ownerless after a step if and only if the
      step is its only member's departure. */
  lemma OwnerLostIff(s: State, step: Step, x: StoreId)
    requires Inv(s) && ParentsAreSources(s.t) && !Ownerless(s.t, x)
    ensures Ownerless(Next(s, step).t, x) <==> LoneDeparture(s, step, x)
  {
    if x !in s.t.stores {
      NewStoresHaveOwners(s, step, x);
    } else if step.Remove? {
      RemoveStepLosesOwnerIff(s, step.p, step.store, step.target, x);
    } else {
      OtherStepsKeepOwner(s, step, x);
    }
  }

  lemma NewStoresHaveOwners(s: State, step: Step, x: StoreId)
    requires Inv(s) && ParentsAreSources(s.t) && x !in s.t.stores
    ensures !Ownerless(Next(s, step).t, x)
  {
    match step
    case CreateWorkspace(p, id) => CreatedHasOwner(s, p, id, x);
    case Delete(_, _) =>
    case Remove(_, _, _) =>
    case FinishSetRole(_, _) =>
    case Join(p, key) => JoinAddsOneMember(s, p, key);
    case _ => RosterUntouched(s, step);
  }

  lemma CreatedHasOwner(s: State, p: Principal, id: StoreId, x: StoreId)
    requires Inv(s) && ParentsAreSources(s.t) && x !in s.t.stores
    ensures !Ownerless(Next(s, CreateWorkspace(p, id)).t, x)
  {
    if x in Next(s, CreateWorkspace(p, id)).t.stores {
      assert p.account in OwnersOf(Next(s, CreateWorkspace(p, id)).t, x);
    }
  }

  /** A store that is not in that state has members and no owner after a step if and only if the
      step is a join of the empty store. */
  lemma HeadlessIff(s: State, step: Step, x: StoreId)
    requires Inv(s) && ParentsAreSources(s.t) && !Headless(s.t, x)
    ensures Headless(Next(s, step).t, x) <==> StrandingJoin(s, step, x)
  {
    StepKeepsAnOwner(s, step, x);
    if step.Join? {
      JoinToDeserted(s, step.p, step.key, x);
    } else if Deserted(s.t, x) {
      DesertedStays(s, step, x);
    }
  }

  lemma JoinToDeserted(s: State, p: Principal, key: string, x: StoreId)
    requires Inv(s) && ParentsAreSources(s.t) && !Headless(s.t, x)
    ensures Headless(Next(s, Join(p, key)).t, x) <==> StrandingJoin(s, Join(p, key), x)
  {
    var s' := Next(s, Join(p, key));
    JoinAddsOneMember(s, p, key);
    if s' != s {
      var store := s.t.invites[key].store;
      assert (store, p.account) in s'.t.members && s'.t.members != s.t.members;
      assert p.account in MembersOf(s'.t, store);
      assert OwnersOf(s'.t, x) == OwnersOf(s.t, x);
      if x != store {
        assert MembersOf(s'.t, x) == MembersOf(s.t, x);
      }
    }
  }

  lemma DesertedStays(s: State, step: Step, x: StoreId)
    requires Inv(s) && ParentsAreSources(s.t) && Deserted(s.t, x) && !step.Join?
    ensures Deserted(Next(s, step).t, x)
  {
    if step.CreateWorkspace? {
      CreateKeepsOwners(s, step.p, step.id, x);
    } else if step.Delete? {
      DeleteKeepsDeserted(s, step.p, step.store, x);
    } else if step.FinishSetRole? {
      RoleStepKeepsOwners(s, step.req, step.role, x);
    } else if step.Remove? {
      RemovalKeepsDeserted(s.t, step.store, step.target, x);
    } else {
      RosterUntouched(s, step);
    }
  }

  lemma DeleteKeepsDeserted(s: State, p: Principal, store: StoreId, x: StoreId)
    requires Inv(s) && ParentsAreSources(s.t) && Deserted(s.t, x)
    ensures Deserted(Next(s, Delete(p, store)).t, x)
  {
    if MayAdmin(s, p, store) {
      assert p.account in MembersOf(s.t, store);
      DeleteStoreAllOrNothing(s.t, store);
    }
  }

  lemma RemovalKeepsDeserted(t: Tables, store: StoreId, a: Account, x: StoreId)
    requires MembersOf(t, x) == {}
    ensures MembersOf(RemoveMember(t, store, a).0, x) == {}
  {
    assert forall b :: (x, b) !in t.members by {
      assert forall b :: (x, b) in t.members ==> b in MembersOf(t, x);
    }
  }

  /** At some moment of the run the store has no owner; members and no owner. */
  ghost predicate EverOwnerless(s: State, steps: seq<Step>, x: StoreId)
    requires Inv(s) && ParentsAreSources(s.t)
    decreases |steps|
  {
    Ownerless(s.t, x) || (steps != [] && (StepKeepsInv(s, steps[0]); EverOwnerless(Next(s, steps[0]), steps[1..], x)))
  }

  ghost predicate EverHeadless(s: State, steps: seq<Step>, x: StoreId)
    requires Inv(s) && ParentsAreSources(s.t)
    decreases |steps|
  {
    Headless(s.t, x) || (steps != [] && (StepKeepsInv(s, steps[0]); EverHeadless(Next(s, steps[0]), steps[1..], x)))
  }

  /** Some step of the run is the only member's departure; a join of the empty store. */
  ghost predicate HasLoneDeparture(s: State, steps: seq<Step>, x: StoreId)
    requires Inv(s) && ParentsAreSources(s.t)
    decreases |steps|
  {
    steps != [] && (|| LoneDeparture(s, steps[0], x)
                    || (StepKeepsInv(s, steps[0]); HasLoneDeparture(Next(s, steps[0]), steps[1..], x)))
  }

  ghost predicate HasStrandingJoin(s: State, steps: seq<Step>, x: StoreId)
    requires Inv(s) && ParentsAreSources(s.t)
    decreases |steps|
  {
    steps != [] && (|| StrandingJoin(s, steps[0], x)
                    || (StepKeepsInv(s, steps[0]); HasStrandingJoin(Next(s, steps[0]), steps[1..], x)))
  }

  /** Over whole runs: a store has members and no owner at some moment if and only if some step
      is a join that finds it without members. */
  lemma {:induction false} EverHeadlessIff(s: State, steps: seq<Step>, x: StoreId)
    requires Inv(s) && ParentsAreSources(s.t) && !Headless(s.t, x)
    ensures EverHeadless(s, steps, x) <==> HasStrandingJoin(s, steps, x)
    decreases |steps|
  {
    if steps != [] {
      StepKeepsInv(s, steps[0]);
      HeadlessIff(s, steps[0], x);
      if !StrandingJoin(s, steps[0], x) {
        EverHeadlessIff(Next(s, steps[0]), steps[1..], x);
      }
    }
  }

  /** Over whole runs: a store loses its owner at some moment if and only if some step is its
      only member's departure. So a store found without an owner, with members or without, had
      no member at all at some moment. */
  lemma {:induction false} OwnerlessWasDeserted(s: State, steps: seq<Step>, x: StoreId)
    requires Inv(s) && ParentsAreSources(s.t) && !Ownerless(s.t, x)
    ensures EverOwnerless(s, steps, x) <==> HasLoneDeparture(s, steps, x)
    ensures Ownerless(Run(s, steps).t, x) ==>
              exists n | 0 <= n <= |steps| :: Deserted(Run(s, steps[..n]).t, x)
    decreases |steps|
  {
    if steps != [] {
      StepKeepsInv(s, steps[0]);
      OwnerLostIff(s, steps[0], x);
      if LoneDeparture(s, steps[0], x) {
        StepKeepsAnOwner(s, steps[0], x);
        RunOne(s, steps);
        assert Deserted(Run(s, steps[..1]).t, x);
      } else {
        OwnerlessWasDeserted(Next(s, steps[0]), steps[1..], x);
        if Ownerless(Run(s, steps).t, x) {
          var n :| 0 <= n <= |steps[1..]| && Deserted(Run(Next(s, steps[0]), steps[1..][..n]).t, x);
          RunPrefix(s, steps, n);
        }
      }
    }
  }

  // --------------------------------------------- whether anybody can still come in

  /** An invite to the store is alive, or one is being minted. */
  ghost predicate Enterable(s: State, x: StoreId) {
    || (exists key :: key in s.t.invites && s.t.invites[key].store == x && !Dead(s.t, key, s.now))
    || (exists req :: req in s.pending && s.pending[req].MintPending? && s.pending[req].store == x)
  }

  lemma ClosedStaysClosed(s: State, step: Step, x: StoreId)
    requires Inv(s) && ParentsAreSources(s.t) && Deserted(s.t, x) && !Enterable(s, x)
    ensures Deserted(Next(s, step).t, x) && !Enterable(Next(s, step), x)
  {
    if step.Join? {
      JoinOfClosed(s, step.p, step.key, x);
    } else {
      DesertedStays(s, step, x);
    }
    InvitesStayDead(s, step, x);
  }

  lemma JoinOfClosed(s: State, p: Principal, key: string, x: StoreId)
    requires Inv(s) && ParentsAreSources(s.t) && Deserted(s.t, x) && !Enterable(s, x)
    ensures Deserted(Next(s, Join(p, key)).t, x)
  {
    JoinAddsOneMember(s, p, key);
    var s' := Next(s, Join(p, key));
    if s' != s {
      assert s.t.invites[key].store != x;
      assert MembersOf(s'.t, x) == MembersOf(s.t, x);
    }
  }

  lemma InvitesStayDead(s: State, step: Step, x: StoreId)
    requires Inv(s) && ParentsAreSources(s.t) && !Enterable(s, x)
    ensures var s' := Next(s, step);
            forall key | key in s'.t.invites && s'.t.invites[key].store == x :: Dead(s'.t, key, s'.now)
  {
    var s' := Next(s, step);
    forall key | key in s'.t.invites && s'.t.invites[key].store == x ensures Dead(s'.t, key, s'.now) {
      InviteWasThere(s, step, key, x);
      DeadStaysDead(s, step, key);
    }
  }

  /** An invite of a store for which no mint is pending is not new. */
  lemma InviteWasThere(s: State, step: Step, key: string, x: StoreId)
    requires Inv(s) && ParentsAreSources(s.t) && !Enterable(s, x)
    requires key in Next(s, step).t.invites && Next(s, step).t.invites[key].store == x
    ensures key in s.t.invites && s.t.invites[key].store == x
  {
    if step.Join? {
      JoinAddsOneMember(s, step.p, step.key);
    } else if step.FinishMint? {
      MintedForPending(s, step, key);
    } else if step.Revoke? {
      RevokeAddsNoInvite(s, step, key);
    } else if step.Delete? {
      DeleteAddsNoInvite(s.t, step.store, key);
    } else {
      InvitesUntouched(s, step);
    }
  }

  lemma MintedForPending(s: State, step: Step, key: string)
    requires ParentsAreSources(s.t) && step.FinishMint? && key in Next(s, step).t.invites
    ensures || (key in s.t.invites && Next(s, step).t.invites[key] == s.t.invites[key])
            || (step.req in s.pending && s.pending[step.req].MintPending?
                && Next(s, step).t.invites[key].store == s.pending[step.req].store)
  {
  }

  lemma RevokeAddsNoInvite(s: State, step: Step, key: string)
    requires ParentsAreSources(s.t) && step.Revoke? && key in Next(s, step).t.invites
    ensures key in s.t.invites && Next(s, step).t.invites[key].store == s.t.invites[key].store
  {
  }

  lemma DeleteAddsNoInvite(t: Tables, store: StoreId, key: string)
    ensures var t' := DeleteStore(t, store).0;
            key in t'.invites ==> key in t.invites && t'.invites[key] == t.invites[key]
  {
  }

  lemma {:induction false} ClosedForGood(s: State, steps: seq<Step>, x: StoreId)
    requires Inv(s) && ParentsAreSources(s.t) && Deserted(s.t, x) && !Enterable(s, x)
    ensures Deserted(Run(s, steps).t, x)
    decreases |steps|
  {
    if steps != [] {
      StepKeepsInv(s, steps[0]);
      ClosedStaysClosed(s, steps[0], x);
      ClosedForGood(Next(s, steps[0]), steps[1..], x);
    }
  }

  lemma LiveInviteAdmits(s: State, key: string, x: StoreId)
    requires Inv(s) && ParentsAreSources(s.t) && Deserted(s.t, x)
    requires key in s.t.invites && s.t.invites[key].store == x && !Dead(s.t, key, s.now)
    ensures Headless(Next(s, Join(ANYBODY, key)).t, x)
  {
    JoinAddsOneMember(s, ANYBODY, key);
    assert ANYBODY.account !in MembersOf(s.t, x);
    assert (x, ANYBODY.account) !in s.t.members;
    JoinToDeserted(s, ANYBODY, key, x);
    assert (x, ANYBODY.account) in Next(s, Join(ANYBODY, key)).t.members;
  }

  const ANYBODY := Principal(Account("a"), false, None)

  /** A key not drawn yet. */
  lemma UndrawnKey(drawn: set<string>) returns (key: string)
    ensures key !in drawn
  {
    var n := LongerThan(drawn);
    key := seq(n, i => 'k');
  }

  lemma {:induction false} LongerThan(drawn: set<string>) returns (n: nat)
    ensures forall k | k in drawn :: |k| < n
    decreases |drawn|
  {
    if drawn == {} {
      n := 0;
    } else {
      var k :| k in drawn;
      var m := LongerThan(drawn - {k});
      n := if m > |k| then m else |k| + 1;
      assert forall l | l in drawn :: l == k || l in drawn - {k};
    }
  }

  /** A store without members can come to have members and no owner, by some continuation, if
      and only if an invite to it is alive or one is being minted. */
  lemma DesertedEndsHeadlessIff(s: State, x: StoreId)
    requires Inv(s) && ParentsAreSources(s.t) && Deserted(s.t, x)
    ensures (exists steps :: EndsHeadless(s, steps, x)) <==> Enterable(s, x)
  {
    if Enterable(s, x) {
      var steps := WayIn(s, x);
      assert EndsHeadless(s, steps, x);
    } else {
      forall steps ensures !EndsHeadless(s, steps, x) {
        ClosedForGood(s, steps, x);
      }
    }
  }

  ghost predicate EndsHeadless(s: State, steps: seq<Step>, x: StoreId)
    requires Inv(s) && ParentsAreSources(s.t)
  {
    Headless(Run(s, steps).t, x)
  }

  lemma WayIn(s: State, x: StoreId) returns (steps: seq<Step>)
    requires Inv(s) && ParentsAreSources(s.t) && Deserted(s.t, x) && Enterable(s, x)
    ensures Headless(Run(s, steps).t, x)
  {
    if key :| key in s.t.invites && s.t.invites[key].store == x && !Dead(s.t, key, s.now) {
      steps := [Join(ANYBODY, key)];
      LiveInviteAdmits(s, key, x);
      RunOne(s, steps);
      assert steps[..1] == steps;
    } else {
      var req :| req in s.pending && s.pending[req].MintPending? && s.pending[req].store == x;
      var key := UndrawnKey(s.minted);
      var mint := FinishMint(req, key, None, None);
      StepKeepsInv(s, mint);
      var s' := Next(s, mint);
      LiveInviteAdmits(s', key, x);
      RunOne(s', [Join(ANYBODY, key)]);
      assert [Join(ANYBODY, key)][..1] == [Join(ANYBODY, key)];
      steps := [mint, Join(ANYBODY, key)];
      assert steps[1..] == [Join(ANYBODY, key)];
    }
  }

  /** What the only member could check before leaving: the store can come to have members and no
      owner afterwards if and only if an invite to it is alive or one is being minted. */
  lemma LeavingStrandsIff(s: State, step: Step, x: StoreId)
    requires Inv(s) && ParentsAreSources(s.t) && !Ownerless(s.t, x) && LoneDeparture(s, step, x)
    ensures Inv(Next(s, step)) && ParentsAreSources(Next(s, step).t)
    ensures (exists steps :: EndsHeadless(Next(s, step), steps, x)) <==> Enterable(s, x)
  {
    StepKeepsInv(s, step);
    OwnerLostIff(s, step, x);
    StepKeepsAnOwner(s, step, x);
    RemovalChangesMembersOnly(s, step);
    DesertedEndsHeadlessIff(Next(s, step), x);
  }

  lemma RemovalChangesMembersOnly(s: State, step: Step)
    requires ParentsAreSources(s.t) && step.Remove?
    ensures var s' := Next(s, step);
            s' == s.(t := s.t.(members := s'.t.members))
  {
  }

  lemma RunPrefix(s: State, steps: seq<Step>, n: nat)
    requires Inv(s) && ParentsAreSources(s.t) && n < |steps|
    ensures Inv(Next(s, steps[0])) && ParentsAreSources(Next(s, steps[0]).t)
    ensures Run(s, steps[..n + 1]) == Run(Next(s, steps[0]), steps[1..][..n])
  {
    StepKeepsInv(s, steps[0]);
    assert steps[..n + 1][1..] == steps[1..][..n];
  }

  lemma RunOne(s: State, steps: seq<Step>)
    requires steps != [] && Inv(s) && ParentsAreSources(s.t)
    ensures Inv(Next(s, steps[0])) && ParentsAreSources(Next(s, steps[0]).t)
    ensures Run(s, steps[..1]) == Next(s, steps[0])
  {
    StepKeepsInv(s, steps[0]);
    assert steps[..1][1..] == [];
    assert Run(Next(s, steps[0]), []) == Next(s, steps[0]);
  }

  /** The one way an ownerless store gets an owner: the body of a role change that was
      authorized while the store still had one arrives, names `owner`, and finds its target
      a member. */
  lemma OwnerlessRegainsOwnerIff(s: State, step: Step, x: StoreId)
    requires Inv(s) && ParentsAreSources(s.t) && Ownerless(s.t, x)
    ensures OwnersOf(Next(s, step).t, x) != {}
            <==> && step.FinishSetRole? && step.role == Owner
                 && step.req in s.pending && s.pending[step.req].RolePending?
                 && s.pending[step.req].store == x
                 && s.pending[step.req].target in MembersOf(s.t, x)
  {
    if step.FinishSetRole? {
      if step.req in s.pending && s.pending[step.req].RolePending? {
        var r := s.pending[step.req];
        RoleChangeAndOwners(s.t, r.store, r.target, step.role, x);
      }
    } else {
      StepAndOwners(s, step, x);
    }
  }

  /** Whoever started a role change still owns the store when its body arrives. */
  ghost predicate Prompt(s: State, step: Step) {
    step.FinishSetRole? && step.req in s.pending && s.pending[step.req].RolePending? ==>
      s.pending[step.req].p.account in OwnersOf(s.t, s.pending[step.req].store)
  }

  ghost predicate PromptRun(s: State, steps: seq<Step>)
    requires Inv(s) && ParentsAreSources(s.t)
    decreases |steps|
  {
    steps == [] ||
    (&& Prompt(s, steps[0])
     && (StepKeepsInv(s, steps[0]); PromptRun(Next(s, steps[0]), steps[1..])))
  }

  lemma OwnerlessStays(s: State, step: Step, x: StoreId)
    requires Inv(s) && ParentsAreSources(s.t) && Ownerless(s.t, x) && Prompt(s, step)
    ensures Ownerless(Next(s, step).t, x)
  {
    OwnerlessRegainsOwnerIff(s, step, x);
    match step
    case Delete(p, store) =>
      if MayAdmin(s, p, store) {
        assert p.account in OwnersOf(s.t, store);
        DeleteStoreAllOrNothing(s.t, store);
      }
    case _ =>
  }

  /** When role changes are prompt in that sense, an ownerless store stays, and stays
      ownerless, for good: nobody can administer it, delete it or hand it over. */
  lemma {:induction false} OwnerlessForGood(s: State, steps: seq<Step>, x: StoreId)
    requires Inv(s) && ParentsAreSources(s.t) && Ownerless(s.t, x) && PromptRun(s, steps)
    ensures Ownerless(Run(s, steps).t, x)
    decreases |steps|
  {
    if steps != [] {
      StepKeepsInv(s, steps[0]);
      OwnerlessStays(s, steps[0], x);
      OwnerlessForGood(Next(s, steps[0]), steps[1..], x);
    }
  }

  // ------------------------------------ the role change that arrives late, as a run

  const OPEN_KEY: string := "k"

  ghost predicate Steps(s: State, step: Step, s': State) {
    Inv(s) && ParentsAreSources(s.t) && Inv(s') && ParentsAreSources(s'.t) && s' == Next(s, step)
  }

  lemma TakeStep(s: State, step: Step) returns (s': State)
    requires Inv(s) && ParentsAreSources(s.t)
    ensures Steps(s, step, s')
  {
    StepKeepsInv(s, step);
    s' := Next(s, step);
  }

  lemma FirstInvite(alice: Principal, x: StoreId, now: int) returns (s1: State, s2: State, s3: State)
    requires FullPower(alice) && x.Wsp?
    ensures Steps(Init(now), CreateWorkspace(alice, x), s1)
    ensures Steps(s1, BeginMint(alice, x), s2)
    ensures Steps(s2, FinishMint(0, OPEN_KEY, None, None), s3)
    ensures s3.pending == map[] && s3.nextId == 1 && s3.now == now
    ensures s3.t.stores.Keys == {x} && s3.t.members == map[(x, alice.account) := Owner]
    ensures s3.t.invites == map[OPEN_KEY := Invite(x, None, 0, None, false)]
  {
    InitInv(now);
    s1 := TakeStep(Init(now), CreateWorkspace(alice, x));
    s2 := TakeStep(s1, BeginMint(alice, x));
    assert s2.pending == map[0 := MintPending(alice, x)];
    s3 := TakeStep(s2, FinishMint(0, OPEN_KEY, None, None));
  }

  lemma LeaveAndJoin(alice: Principal, bob: Principal, x: StoreId, s3: State)
    returns (s4: State, s5: State, s6: State)
    requires FullPower(alice) && FullPower(bob) && alice.account != bob.account
    requires Inv(s3) && ParentsAreSources(s3.t) && s3.pending == map[] && s3.nextId == 1
    requires s3.t.stores.Keys == {x} && s3.t.members == map[(x, alice.account) := Owner]
    requires s3.t.invites == map[OPEN_KEY := Invite(x, None, 0, None, false)]
    ensures Steps(s3, BeginSetRole(alice, x, bob.account), s4)
    ensures Steps(s4, Remove(alice, x, alice.account), s5)
    ensures Steps(s5, Join(bob, OPEN_KEY), s6)
    ensures s6.pending == map[1 := RolePending(alice, x, bob.account)]
    ensures x in s6.t.stores && s6.t.members == map[(x, bob.account) := Member]
  {
    s4 := TakeStep(s3, BeginSetRole(alice, x, bob.account));
    s5 := TakeStep(s4, Remove(alice, x, alice.account));
    LoneOwnerLeaves(s4, alice, x);
    s6 := TakeStep(s5, Join(bob, OPEN_KEY));
    FirstJoins(s5, bob, x);
  }

  lemma SoleOwnerRemoved(t: Tables, x: StoreId, a: Account)
    requires t.members == map[(x, a) := Owner]
    ensures RemoveMember(t, x, a) == (t.(members := map[]), Done)
    ensures MemberRole(t, x, a) == Some(Owner)
  {
    assert MembersOf(t, x) == {a} by { assert (x, a) in t.members; }
    assert t.members - {(x, a)} == map[];
  }

  lemma LoneOwnerLeaves(s: State, p: Principal, x: StoreId)
    requires Inv(s) && ParentsAreSources(s.t) && FullPower(p)
    requires s.t.members == map[(x, p.account) := Owner]
    ensures var s' := Next(s, Remove(p, x, p.account));
            s' == s.(t := s.t.(members := map[]))
  {
    SoleOwnerRemoved(s.t, x, p.account);
  }

  lemma FirstJoins(s: State, p: Principal, x: StoreId)
    requires Inv(s) && ParentsAreSources(s.t) && FullPower(p) && x in s.t.stores
    requires s.t.members == map[]
    requires s.t.invites == map[OPEN_KEY := Invite(x, None, 0, None, false)]
    ensures var s' := Next(s, Join(p, OPEN_KEY));
            && s'.t.members == map[(x, p.account) := Member]
            && s'.t.stores == s.t.stores && s'.pending == s.pending
  {
  }

  lemma LoneMemberPromoted(s: State, p: Principal, a: Account, x: StoreId)
    requires Inv(s) && ParentsAreSources(s.t)
    requires s.pending == map[1 := RolePending(p, x, a)]
    requires x in s.t.stores && s.t.members == map[(x, a) := Member]
    ensures Ownerless(s.t, x) && !Deserted(s.t, x)
    ensures OwnersOf(Next(s, FinishSetRole(1, Owner)).t, x) == {a}
  {
    assert a in MembersOf(s.t, x);
    assert OwnersOf(s.t, x) == {};
    SetRoleKeepsAnOwner(s.t, x, a, Owner);
  }

  /** Alice creates a workspace and an invite, asks for Bob's promotion, and leaves before
      the body of that request arrives; Bob joins meanwhile. The store then has a member and
      no owner, and the late body gives it one. */
  lemma LateRoleChangeGivesAnOwner(alice: Principal, bob: Principal, x: StoreId, now: int)
    returns (s1: State, s2: State, s3: State, s4: State, s5: State, s6: State, s7: State)
    requires FullPower(alice) && FullPower(bob) && alice.account != bob.account && x.Wsp?
    ensures Steps(Init(now), CreateWorkspace(alice, x), s1)
    ensures Steps(s1, BeginMint(alice, x), s2)
    ensures Steps(s2, FinishMint(0, OPEN_KEY, None, None), s3)
    ensures Steps(s3, BeginSetRole(alice, x, bob.account), s4)
    ensures Steps(s4, Remove(alice, x, alice.account), s5)
    ensures Steps(s5, Join(bob, OPEN_KEY), s6)
    ensures Ownerless(s6.t, x) && !Deserted(s6.t, x)
    ensures Steps(s6, FinishSetRole(1, Owner), s7)
    ensures OwnersOf(s7.t, x) == {bob.account}
  {
    s1, s2, s3 := FirstInvite(alice, x, now);
    s4, s5, s6 := LeaveAndJoin(alice, bob, x, s3);
    LoneMemberPromoted(s6, alice, bob.account, x);
    s7 := TakeStep(s6, FinishSetRole(1, Owner));
  }

  // ------------------------------------------- the teardown that rolls back, as a run

  /** Alice creates a workspace, registers a source store in it, and deletes the workspace: she
      may, and nothing happens. */
  lemma TeardownRollsBack(alice: Principal, x: StoreId, project: string, now: int)
    returns (s1: State, s2: State, s3: State)
    requires FullPower(alice) && x.Wsp?
    ensures Steps(Init(now), CreateWorkspace(alice, x), s1)
    ensures Steps(s1, BeginSource(alice, x), s2)
    ensures Steps(s2, FinishSource(0, project), s3)
    ensures x in s3.t.stores && MayAdmin(s3, alice, x)
    ensures Next(s3, Delete(alice, x)) == s3
  {
    InitInv(now);
    s1 := TakeStep(Init(now), CreateWorkspace(alice, x));
    s2 := TakeStep(s1, BeginSource(alice, x));
    SourceAdmitted(s1, alice, x);
    s3 := TakeStep(s2, FinishSource(0, project));
    SourceStored(s2, alice, x, project);
  }

  lemma SourceAdmitted(s: State, p: Principal, x: StoreId)
    requires Inv(s) && ParentsAreSources(s.t) && FullPower(p) && x.Wsp? && x in s.t.stores
    requires MemberRole(s.t, x, p.account) == Some(Owner)
    ensures Next(s, BeginSource(p, x)) == Await(s, SourcePending(p, x))
  {
  }

  lemma SourceStored(s: State, p: Principal, x: StoreId, project: string)
    requires Inv(s) && ParentsAreSources(s.t) && 0 in s.pending && s.pending[0] == SourcePending(p, x)
    requires x in s.t.stores
    ensures var s' := Next(s, FinishSource(0, project));
            && (x, project) in s'.t.sources && s'.t.stores == s.t.stores && s'.t.members == s.t.members
  {
  }

}
