/** The control plane as a machine. Handlers that read a request body are two steps, since
    other requests run between the authorization and the write; the others are one. */
module Workspace {
  import opened Options
  import opened Tables
  import opened Policy

  /** A request that passed its authorization and is waiting for its body. */
  datatype Pending =
    | MintPending(p: Principal, store: StoreId)
    | RolePending(p: Principal, store: StoreId, target: Account)
    | SourcePending(p: Principal, store: StoreId)

  /** `grants` counts, for each invite ever minted, the members it added; `minted` and
      `created` remember the ids already drawn, which random ids do not repeat. */
  datatype State = State(
    t: Tables, now: int, pending: map<nat, Pending>, nextId: nat,
    grants: multiset<string>, minted: set<string>, created: set<StoreId>)

  datatype Step =
    | Tick(ms: nat)
    | CreateWorkspace(p: Principal, id: StoreId)
    | BeginMint(p: Principal, store: StoreId)
    | FinishMint(req: nat, key: string, maxUses: Option<int>, expiresAt: Option<int>)
    | Revoke(p: Principal, store: StoreId, key: string)
    | Join(p: Principal, key: string)
    | BeginSetRole(p: Principal, store: StoreId, target: Account)
    | FinishSetRole(req: nat, role: Role)
    | Remove(p: Principal, store: StoreId, target: Account)
    | Delete(p: Principal, store: StoreId)
    | BeginSource(p: Principal, store: StoreId)
    | FinishSource(req: nat, project: string)
    | Sidecar(p: Principal, parent: StoreId, kind: string, id: StoreId)
    | Personal(p: Principal, id: StoreId)

  function Init(now: int): State {
    State(EmptyTables(), now, map[], 0, multiset{}, {}, {})
  }

  function Await(s: State, req: Pending): State {
    s.(pending := s.pending[s.nextId := req], nextId := s.nextId + 1)
  }

  predicate MayAdmin(s: State, p: Principal, store: StoreId)
    requires ParentsAreSources(s.t)
  {
    Authorize(s.t, p, WorkspaceResource(store), Admin) == Allow
  }

  ghost function Next(s: State, step: Step): State
    requires ParentsAreSources(s.t)
  {
    match step
    case Tick(ms) => s.(now := s.now + ms)
    case CreateWorkspace(p, id) =>
      if p.readOnly || p.scope.Some? || !id.Wsp? || id in s.created then s
      else s.(t := CreateStore(s.t, id, p.account), created := s.created + {id})
    case BeginMint(p, store) =>
      if MayAdmin(s, p, store) then Await(s, MintPending(p, store)) else s
    case FinishMint(req, key, maxUses, expiresAt) =>
      if req !in s.pending || !s.pending[req].MintPending? then s
      else
        var done := s.(pending := s.pending - {req});
        if maxUses.Some? && maxUses.value <= 0 then done
        else if expiresAt.Some? && expiresAt.value <= s.now then done
        else if key in s.minted then done
        else done.(t := MintInvite(s.t, key, s.pending[req].store,
                                   if maxUses.None? then None else Some(maxUses.value), expiresAt),
                   minted := s.minted + {key})
    case Revoke(p, store, key) =>
      if MayAdmin(s, p, store) then s.(t := RevokeInvite(s.t, store, key).0) else s
    case Join(p, key) =>
      if p.readOnly || p.scope.Some? then s
      else
        var r := RedeemInvite(s.t, key, p.account, s.now);
        s.(t := r.0, grants := if r.0.members != s.t.members then s.grants + multiset{key} else s.grants)
    case BeginSetRole(p, store, target) =>
      if MayAdmin(s, p, store) then Await(s, RolePending(p, store, target)) else s
    case FinishSetRole(req, role) =>
      if req !in s.pending || !s.pending[req].RolePending? then s
      else s.(pending := s.pending - {req},
              t := SetRole(s.t, s.pending[req].store, s.pending[req].target, role).0)
    case Remove(p, store, target) =>
      if p.readOnly || p.scope.Some? then s
      else
        var role := MemberRole(s.t, store, p.account);
        if role.None? || (target != p.account && role != Some(Owner)) then s
        else s.(t := RemoveMember(s.t, store, target).0)
    case Delete(p, store) =>
      if MayAdmin(s, p, store) then s.(t := DeleteStore(s.t, store).0) else s
    case BeginSource(p, store) =>
      if Authorize(s.t, p, StoreResource(store), Write) == Allow then Await(s, SourcePending(p, store)) else s
    case FinishSource(req, project) =>
      if req !in s.pending || !s.pending[req].SourcePending? then s
      else s.(pending := s.pending - {req},
              t := RegisterSource(s.t, s.pending[req].store, project, s.pending[req].p.account).0)
    case Sidecar(p, parent, kind, id) =>
      if !(parent.Wsp? || parent.Psm?) || !id.Der? then s
      else if Authorize(s.t, p, StoreResource(parent), Read) != Allow then s
      else s.(t := OpenSidecar(s.t, parent, kind, id))
    case Personal(p, id) =>
      if p.scope.Some? || !id.Psm? then s else s.(t := OpenPersonal(s.t, p.account, id))
  }

  // -------------------------------------------------------- what every state keeps

  ghost predicate ForeignKeys(t: Tables) {
    && (forall k | k in t.members :: k.0 in t.stores)
    && (forall k | k in t.invites :: t.invites[k].store in t.stores)
    && (forall k | k in t.sources :: k.0 in t.stores)
  }

  /** Every sidecar hangs off a store that exists, and that is not a sidecar. */
  ghost predicate SidecarParents(t: Tables) {
    && (forall x | x in t.stores :: x.Wsp?)
    && (forall a | a in t.personal :: t.personal[a].Psm?)
    && (forall d | d in t.derived ::
          d.Der? && (t.derived[d].0 in t.stores || exists a :: a in t.personal && t.personal[a] == t.derived[d].0))
  }

  ghost predicate InviteAccounts(s: State) {
    forall k | k in s.t.invites ::
      var i := s.t.invites[k];
      && k in s.minted
      && i.used == s.grants[k]
      && (i.maxUses.Some? ==> i.used <= i.maxUses.value)
  }

  ghost predicate PrivateStores(t: Tables) {
    forall x | x in t.stores && !t.stores[x].inviteReachable ::
      && (forall k | k in t.invites :: t.invites[k].store != x)
      && (forall a | (x, a) in t.members :: a == t.stores[x].createdBy && t.members[(x, a)] == Owner)
  }

  ghost predicate Inv(s: State) {
    && ForeignKeys(s.t) && SidecarParents(s.t) && InviteAccounts(s) && PrivateStores(s.t)
    && s.t.stores.Keys <= s.created
    && (forall k | k !in s.minted :: s.grants[k] == 0)
    && (forall r | r in s.pending :: r < s.nextId)
  }

  /** The steps that only authorize, or let time pass. */
  predicate Waits(step: Step) {
    step.Tick? || step.BeginMint? || step.BeginSetRole? || step.BeginSource?
  }

  lemma WaitingChangesNoTable(s: State, step: Step)
    requires ParentsAreSources(s.t) && Waits(step)
    ensures var s' := Next(s, step);
            && s'.t == s.t && s'.grants == s.grants && s'.minted == s.minted && s'.created == s.created
            && s'.now >= s.now
  {
  }

  /** The steps that touch neither the roster nor the invites. */
  predicate TouchesData(step: Step) {
    step.FinishSource? || step.Sidecar? || step.Personal?
  }

  lemma DataStepsKeepRoster(s: State, step: Step)
    requires ParentsAreSources(s.t) && TouchesData(step)
    ensures var s' := Next(s, step);
            && s'.t.stores == s.t.stores && s'.t.members == s.t.members && s'.t.invites == s.t.invites
            && s'.grants == s.grants && s'.minted == s.minted && s'.created == s.created
            && s'.now == s.now
  {
  }

  lemma RosterUntouched(s: State, step: Step)
    requires ParentsAreSources(s.t)
    requires !step.Remove? && !step.Join? && !step.CreateWorkspace? && !step.Delete? && !step.FinishSetRole?
    ensures Next(s, step).t.members == s.t.members && Next(s, step).t.stores.Keys == s.t.stores.Keys
  {
    if Waits(step) {
      WaitingChangesNoTable(s, step);
    } else if TouchesData(step) {
      DataStepsKeepRoster(s, step);
    }
  }

  lemma SourceKeepsForeignKeys(s: State, step: Step)
    requires ForeignKeys(s.t) && ParentsAreSources(s.t) && TouchesData(step)
    ensures ForeignKeys(Next(s, step).t)
  {
  }

  lemma InviteStepKeepsForeignKeys(s: State, step: Step)
    requires ForeignKeys(s.t) && ParentsAreSources(s.t)
    requires step.FinishMint? || step.Revoke? || step.Join?
    ensures ForeignKeys(Next(s, step).t)
  {
  }

  lemma StepKeepsForeignKeys(s: State, step: Step)
    requires Inv(s) && ParentsAreSources(s.t)
    ensures ForeignKeys(Next(s, step).t)
  {
    if Waits(step) {
      WaitingChangesNoTable(s, step);
    } else if TouchesData(step) {
      SourceKeepsForeignKeys(s, step);
    } else if step.FinishMint? || step.Revoke? || step.Join? {
      InviteStepKeepsForeignKeys(s, step);
    }
  }

  lemma StepKeepsCreated(s: State, step: Step)
    requires Inv(s) && ParentsAreSources(s.t)
    ensures Next(s, step).t.stores.Keys <= Next(s, step).created
  {
    if Waits(step) {
      WaitingChangesNoTable(s, step);
    } else if TouchesData(step) {
      DataStepsKeepRoster(s, step);
    }
  }

  lemma PersonalKeepsSidecars(t: Tables, a: Account, id: StoreId)
    requires SidecarParents(t) && id.Psm?
    ensures SidecarParents(OpenPersonal(t, a, id))
  {
    var t' := OpenPersonal(t, a, id);
    forall d | d in t'.derived && t'.derived[d].0 !in t'.stores
      ensures exists b :: b in t'.personal && t'.personal[b] == t'.derived[d].0
    {
      var b :| b in t.personal && t.personal[b] == t.derived[d].0;
      assert b in t'.personal && t'.personal[b] == t'.derived[d].0;
    }
  }

  lemma DataStepKeepsSidecars(s: State, step: Step)
    requires ForeignKeys(s.t) && SidecarParents(s.t) && ParentsAreSources(s.t) && TouchesData(step)
    ensures SidecarParents(Next(s, step).t)
  {
    match step
    case Sidecar(p, parent, kind, id) =>
    case Personal(p, id) => if id.Psm? { PersonalKeepsSidecars(s.t, p.account, id); }
    case FinishSource(_, _) =>
  }

  lemma StoreStepKeepsSidecars(s: State, step: Step)
    requires SidecarParents(s.t) && ParentsAreSources(s.t)
    requires step.CreateWorkspace? || step.Delete? || step.FinishMint?
    ensures SidecarParents(Next(s, step).t)
  {
  }

  lemma StepKeepsSidecars(s: State, step: Step)
    requires Inv(s) && ParentsAreSources(s.t)
    ensures SidecarParents(Next(s, step).t)
  {
    if Waits(step) {
      WaitingChangesNoTable(s, step);
    } else if TouchesData(step) {
      DataStepKeepsSidecars(s, step);
    } else if step.CreateWorkspace? || step.Delete? || step.FinishMint? {
      StoreStepKeepsSidecars(s, step);
    }
  }

  /** A join leaves everything as it is, or adds exactly one row: the caller, as a member of the
      invite's store. It does so if and only if the key is unrestricted, the invite is alive and
      the caller is not a member yet, and pays one use of the invite for it. */
  lemma JoinAddsOneMember(s: State, p: Principal, key: string)
    requires ForeignKeys(s.t) && ParentsAreSources(s.t)
    ensures var s' := Next(s, Join(p, key));
            var admits := && !p.readOnly && p.scope.None? && key in s.t.invites && !Dead(s.t, key, s.now)
                          && (s.t.invites[key].store, p.account) !in s.t.members;
            if admits then
              var i := s.t.invites[key];
              s' == s.(t := s.t.(members := s.t.members[(i.store, p.account) := Member],
                                 invites := s.t.invites[key := i.(used := i.used + 1)]),
                       grants := s.grants + multiset{key})
            else s' == s
  {
    var r := RedeemInvite(s.t, key, p.account, s.now);
    if r.0 != s.t {
      assert (s.t.invites[key].store, p.account) in r.0.members;
    }
  }

  lemma JoinKeepsInvites(s: State, p: Principal, key: string)
    requires Inv(s) && ParentsAreSources(s.t)
    ensures InviteAccounts(Next(s, Join(p, key)))
    ensures forall k | k !in s.minted :: Next(s, Join(p, key)).grants[k] == 0
  {
    JoinAddsOneMember(s, p, key);
  }

  lemma MintKeepsInvites(s: State, req: nat, key: string, maxUses: Option<int>, expiresAt: Option<int>)
    requires Inv(s) && ParentsAreSources(s.t)
    ensures InviteAccounts(Next(s, FinishMint(req, key, maxUses, expiresAt)))
  {
  }

  lemma StepKeepsInvites(s: State, step: Step)
    requires Inv(s) && ParentsAreSources(s.t)
    ensures InviteAccounts(Next(s, step))
    ensures forall k | k !in Next(s, step).minted :: Next(s, step).grants[k] == 0
  {
    if step.Join? {
      JoinKeepsInvites(s, step.p, step.key);
    } else if step.FinishMint? {
      MintKeepsInvites(s, step.req, step.key, step.maxUses, step.expiresAt);
    } else if !step.Delete? && !step.Revoke? {
      InvitesUntouched(s, step);
    }
  }

  lemma InvitesUntouched(s: State, step: Step)
    requires ParentsAreSources(s.t)
    requires !step.Join? && !step.FinishMint? && !step.Delete? && !step.Revoke?
    ensures var s' := Next(s, step);
            && s'.t.invites == s.t.invites && s'.grants == s.grants && s'.minted == s.minted
            && s'.now >= s.now
  {
    if Waits(step) {
      WaitingChangesNoTable(s, step);
    } else if TouchesData(step) {
      DataStepsKeepRoster(s, step);
    }
  }

  lemma RoleChangeKeepsPrivate(t: Tables, x: StoreId, a: Account, role: Role)
    requires ForeignKeys(t) && PrivateStores(t)
    ensures PrivateStores(SetRole(t, x, a, role).0)
  {
    SetRoleKeepsAnOwner(t, x, a, role);
    if (x, a) in t.members && !t.stores[x].inviteReachable && role == Member {
      assert OwnersOf(t, x) == {a} by {
        assert a == t.stores[x].createdBy && a in OwnersOf(t, x);
      }
    }
  }

  lemma MintKeepsPrivate(t: Tables, key: string, x: StoreId, maxUses: Option<nat>, expiresAt: Option<int>)
    requires ForeignKeys(t) && PrivateStores(t)
    ensures PrivateStores(MintInvite(t, key, x, maxUses, expiresAt))
  {
  }

  lemma InviteStepKeepsPrivate(s: State, step: Step)
    requires ForeignKeys(s.t) && PrivateStores(s.t) && ParentsAreSources(s.t)
    requires step.FinishMint? || step.Revoke? || step.Join?
    ensures PrivateStores(Next(s, step).t)
  {
    if step.FinishMint? && step.req in s.pending {
      MintKeepsPrivate(s.t, step.key, s.pending[step.req].store,
                       if step.maxUses.None? || step.maxUses.value < 0 then None else Some(step.maxUses.value),
                       step.expiresAt);
    }
  }

  lemma RosterStepKeepsPrivate(s: State, step: Step)
    requires ForeignKeys(s.t) && PrivateStores(s.t) && ParentsAreSources(s.t)
    requires s.t.stores.Keys <= s.created
    requires step.CreateWorkspace? || step.FinishSetRole? || step.Remove? || step.Delete?
    ensures PrivateStores(Next(s, step).t)
  {
    if step.FinishSetRole? && step.req in s.pending && s.pending[step.req].RolePending? {
      RoleChangeKeepsPrivate(s.t, s.pending[step.req].store, s.pending[step.req].target, step.role);
    }
  }

  lemma StepKeepsPrivateStores(s: State, step: Step)
    requires Inv(s) && ParentsAreSources(s.t)
    ensures PrivateStores(Next(s, step).t)
  {
    if Waits(step) {
      WaitingChangesNoTable(s, step);
    } else if TouchesData(step) {
      DataStepsKeepRoster(s, step);
    } else if step.FinishMint? || step.Revoke? || step.Join? {
      InviteStepKeepsPrivate(s, step);
    } else {
      RosterStepKeepsPrivate(s, step);
    }
  }

  lemma StepKeepsInv(s: State, step: Step)
    requires Inv(s) && ParentsAreSources(s.t)
    ensures Inv(Next(s, step)) && ParentsAreSources(Next(s, step).t)
  {
    StepKeepsForeignKeys(s, step);
    StepKeepsCreated(s, step);
    StepKeepsSidecars(s, step);
    StepKeepsInvites(s, step);
    StepKeepsPrivateStores(s, step);
  }

  ghost function Run(s: State, steps: seq<Step>): (s': State)
    requires Inv(s) && ParentsAreSources(s.t)
    ensures Inv(s') && ParentsAreSources(s'.t)
    decreases |steps|
  {
    if steps == [] then s
    else
      StepKeepsInv(s, steps[0]);
      Run(Next(s, steps[0]), steps[1..])
  }

  lemma InitInv(now: int)
    ensures Inv(Init(now)) && ParentsAreSources(Init(now).t)
  {
  }

  ghost function Reached(now: int, steps: seq<Step>): (s: State)
    ensures Inv(s) && ParentsAreSources(s.t)
  {
    InitInv(now);
    Run(Init(now), steps)
  }

  /** A join with this key changed the members table. */
  ghost predicate Admits(s: State, step: Step, key: string)
    requires ParentsAreSources(s.t)
  {
    step.Join? && step.key == key && Next(s, step).t.members != s.t.members
  }

  /** How many joins of a run with this key changed the members table. */
  ghost function Admissions(s: State, steps: seq<Step>, key: string): nat
    requires Inv(s) && ParentsAreSources(s.t)
    decreases |steps|
  {
    if steps == [] then 0
    else
      StepKeepsInv(s, steps[0]);
      (if Admits(s, steps[0], key) then 1 else 0) + Admissions(Next(s, steps[0]), steps[1..], key)
  }

  lemma AdmissionIsAGrant(s: State, step: Step, key: string)
    requires Inv(s) && ParentsAreSources(s.t)
    ensures Next(s, step).grants[key] == s.grants[key] + if Admits(s, step, key) then 1 else 0
  {
    if step.Join? {
      JoinAddsOneMember(s, step.p, step.key);
    }
  }

  lemma {:induction false} GrantsCountAdmissions(s: State, steps: seq<Step>, key: string)
    requires Inv(s) && ParentsAreSources(s.t)
    ensures Run(s, steps).grants[key] == s.grants[key] + Admissions(s, steps, key)
    decreases |steps|
  {
    if steps != [] {
      StepKeepsInv(s, steps[0]);
      AdmissionIsAGrant(s, steps[0], key);
      GrantsCountAdmissions(Next(s, steps[0]), steps[1..], key);
    }
  }

  /** In every state reached from the empty tables: an invite's count is the number of joins
      of the run that added a member with it, and never more than allowed; a store that was never shared has
      no invite and no member but its creator as owner; every sidecar hangs off an existing
      workspace or personal store. */
  lemma ReachableStates(now: int, steps: seq<Step>)
    ensures Inv(Init(now)) && ParentsAreSources(Init(now).t)
    ensures var s := Reached(now, steps);
            && (forall k | k in s.t.invites ::
                  var i, added := s.t.invites[k], Admissions(Init(now), steps, k);
                  i.used == added && (i.maxUses.Some? ==> added <= i.maxUses.value))
            && PrivateStores(s.t)
            && SidecarParents(s.t)
            && ForeignKeys(s.t)
  {
    InitInv(now);
    forall k ensures Reached(now, steps).grants[k] == Admissions(Init(now), steps, k) {
      GrantsCountAdmissions(Init(now), steps, k);
    }
  }

  /** The data-plane gate in every reached state, in terms of rows: the events really belong to
      a workspace that exists and has the caller as a member, or to the caller's own personal
      store; the key may write if writing is asked for; and a scoped key lists the workspace. */
  lemma ReachedGate(now: int, steps: seq<Step>, p: Principal, id: StoreId, action: Action)
    ensures var t := Reached(now, steps).t;
            var source := if id in t.derived then t.derived[id].0 else id;
            Authorize(t, p, StoreResource(id), action) == Allow
            <==> && (|| (source.Wsp? && source in t.stores && (source, p.account) in t.members)
                     || (p.account in t.personal && t.personal[p.account] == source))
                 && (action == Read || !p.readOnly)
                 && (p.scope.Some? ==> source.Wsp? && source in p.scope.value)
  {
    var t := Reached(now, steps).t;
    DataPlaneGate(t, p, id, action);
  }

  /** Every sidecar of a reached state hangs off a workspace or a personal store that exists,
      so the gate asks once more and no deeper, and answers what it answers for that store. */
  lemma ReachedSidecars(now: int, steps: seq<Step>, d: StoreId, p: Principal, action: Action)
    requires d in Reached(now, steps).t.derived
    ensures var t := Reached(now, steps).t;
            var parent := t.derived[d].0;
            && !parent.Der? && (parent in t.stores || exists a :: a in t.personal && t.personal[a] == parent)
            && Authorize(t, p, StoreResource(d), action) == Authorize(t, p, StoreResource(parent), action)
  {
    var t := Reached(now, steps).t;
    assert d.Der?;
  }

  /** The same request made with another key. */
  function By(step: Step, p: Principal): Step {
    match step
    case CreateWorkspace(_, id) => CreateWorkspace(p, id)
    case BeginMint(_, store) => BeginMint(p, store)
    case Revoke(_, store, key) => Revoke(p, store, key)
    case Join(_, key) => Join(p, key)
    case BeginSetRole(_, store, target) => BeginSetRole(p, store, target)
    case Remove(_, store, target) => Remove(p, store, target)
    case Delete(_, store) => Delete(p, store)
    case BeginSource(_, store) => BeginSource(p, store)
    case Sidecar(_, parent, kind, id) => Sidecar(p, parent, kind, id)
    case Personal(_, id) => Personal(p, id)
    case Tick(ms) => step
    case FinishMint(_, _, _, _) => step
    case FinishSetRole(_, _) => step
    case FinishSource(_, _) => step
  }

  /** In every reached state: a request made with a narrower key of the same account is refused,
      or does what it does with the wider one. A request that waits for its body is admitted
      with the wider key too. */
  lemma ReachedNarrowing(now: int, steps: seq<Step>, step: Step, p: Principal, q: Principal)
    requires Narrower(q, p)
    ensures var s := Reached(now, steps);
            || Next(s, By(step, q)) == s
            || Next(s, By(step, q)) == Next(s, By(step, p))
            || (Waits(step) && Next(s, By(step, q)).t == s.t && Next(s, By(step, p)).nextId == s.nextId + 1)
  {
    var s := Reached(now, steps);
    if step.BeginMint? || step.Revoke? || step.BeginSetRole? || step.Delete? {
      NarrowAdmin(s, p, q, step.store);
    } else if step.BeginSource? {
      NarrowStore(s, p, q, step.store, Write);
    } else if step.Sidecar? {
      NarrowStore(s, p, q, step.parent, Read);
    }
  }

  lemma NarrowAdmin(s: State, p: Principal, q: Principal, store: StoreId)
    requires ParentsAreSources(s.t) && Narrower(q, p)
    ensures MayAdmin(s, q, store) ==> MayAdmin(s, p, store)
  {
    if MayAdmin(s, q, store) {
      NarrowingNeverGrants(s.t, p, q, WorkspaceResource(store), Admin);
    }
  }

  lemma NarrowStore(s: State, p: Principal, q: Principal, store: StoreId, action: Action)
    requires ParentsAreSources(s.t) && Narrower(q, p)
    ensures Authorize(s.t, q, StoreResource(store), action) == Allow ==>
              Authorize(s.t, p, StoreResource(store), action) == Allow
  {
    if Authorize(s.t, q, StoreResource(store), action) == Allow {
      NarrowingNeverGrants(s.t, p, q, StoreResource(store), action);
    }
  }

  // -------------------------------------------------------------- dead invites

  lemma DeleteStoreKeepsDead(t: Tables, x: StoreId, key: string, now: int)
    requires Dead(t, key, now)
    ensures Dead(DeleteStore(t, x).0, key, now)
  {
  }

  lemma MintKeepsDead(s: State, step: Step, key: string)
    requires ParentsAreSources(s.t) && key in s.minted && Dead(s.t, key, s.now) && step.FinishMint?
    ensures var s' := Next(s, step);
            key in s'.minted && Dead(s'.t, key, s'.now) && s'.grants == s.grants
  {
  }

  lemma RevokeKeepsDead(s: State, step: Step, key: string)
    requires ParentsAreSources(s.t) && key in s.minted && Dead(s.t, key, s.now) && step.Revoke?
    ensures var s' := Next(s, step);
            key in s'.minted && Dead(s'.t, key, s'.now) && s'.grants == s.grants
  {
  }

  lemma DeadStaysDead(s: State, step: Step, key: string)
    requires Inv(s) && ParentsAreSources(s.t) && key in s.minted && Dead(s.t, key, s.now)
    ensures var s' := Next(s, step);
            key in s'.minted && Dead(s'.t, key, s'.now) && s'.grants[key] == s.grants[key]
  {
    if step.Join? {
      JoinAddsOneMember(s, step.p, step.key);
    } else if step.Delete? {
      DeleteStoreKeepsDead(s.t, step.store, key, s.now);
    } else if step.FinishMint? {
      MintKeepsDead(s, step, key);
    } else if step.Revoke? {
      RevokeKeepsDead(s, step, key);
    } else {
      InvitesUntouched(s, step);
    }
  }

  /** A revoked, expired, exhausted or deleted invite stays dead whatever happens, and no join
      with its key, at any later moment, changes any table. */
  lemma {:induction false} DeadInviteNeverAdmits(s: State, steps: seq<Step>, key: string)
    requires Inv(s) && ParentsAreSources(s.t) && key in s.minted && Dead(s.t, key, s.now)
    ensures Run(s, steps).grants[key] == s.grants[key] && Admissions(s, steps, key) == 0
    ensures forall p :: Next(Run(s, steps), Join(p, key)) == Run(s, steps)
    decreases |steps|
  {
    if steps == [] {
      forall p ensures Next(s, Join(p, key)) == s {
        JoinAddsOneMember(s, p, key);
      }
    } else {
      StepKeepsInv(s, steps[0]);
      DeadStaysDead(s, steps[0], key);
      AdmissionIsAGrant(s, steps[0], key);
      DeadInviteNeverAdmits(Next(s, steps[0]), steps[1..], key);
    }
  }
}
