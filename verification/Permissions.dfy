/** Who may cause which change of which row, step by step: for each table, the steps after which
    a row is new, gone or different, in terms of the rows that stood there before. */
module Permissions {
  import opened Options
  import opened Tables
  import opened Policy
  import opened Workspace

  // ------------------------------------------------------------ the permitted acts

  /** An unrestricted key of an owner of the store. */
  predicate OwnersKey(t: Tables, p: Principal, x: StoreId) {
    FullPower(p) && p.account in OwnersOf(t, x)
  }

  /** A member leaves, or an owner removes one; the only owner stays while there are others. */
  predicate PermittedRemoval(s: State, step: Step, x: StoreId, a: Account) {
    && step.Remove? && step.store == x && step.target == a && FullPower(step.p)
    && (step.p.account == a || step.p.account in OwnersOf(s.t, x))
    && !(OwnersOf(s.t, x) == {a} && MembersOf(s.t, x) != {a})
  }

  /** An owner deletes the store, and no source store is registered in it. */
  predicate OwnersDeletion(s: State, step: Step, x: StoreId) {
    && step.Delete? && step.store == x && OwnersKey(s.t, step.p, x)
    && forall k | k in s.t.sources :: k.0 != x
  }

  /** The account makes a new workspace, which it owns. */
  predicate Creation(s: State, step: Step, x: StoreId) {
    && step.CreateWorkspace? && step.id == x && x.Wsp? && x !in s.created && FullPower(step.p)
  }

  /** Not revoked, not expired and not used up. */
  predicate Alive(i: Invite, now: int) {
    && !i.revoked
    && (i.expiresAt.Some? ==> now < i.expiresAt.value)
    && (i.maxUses.Some? ==> i.used < i.maxUses.value)
  }

  /** Somebody who is not a member presents the key of a live invite to the store. */
  predicate Entrance(s: State, step: Step, x: StoreId) {
    && step.Join? && FullPower(step.p)
    && step.key in s.t.invites && s.t.invites[step.key].store == x && Alive(s.t.invites[step.key], s.now)
    && step.p.account !in MembersOf(s.t, x)
  }

  /** The body of a role change that is waiting arrives, and does not demote the only owner. */
  predicate RoleArrives(s: State, step: Step, x: StoreId, a: Account) {
    && step.FinishSetRole? && step.req in s.pending && s.pending[step.req].RolePending?
    && s.pending[step.req].store == x && s.pending[step.req].target == a
    && !(OwnersOf(s.t, x) == {a} && step.role == Member)
  }

  /** The body of a mint that is waiting arrives, is valid, and finds its store. */
  predicate MintArrives(s: State, step: Step, x: StoreId) {
    && step.FinishMint? && step.req in s.pending && s.pending[step.req].MintPending?
    && s.pending[step.req].store == x && x in s.t.stores && step.key !in s.minted
    && (step.maxUses.Some? ==> step.maxUses.value > 0)
    && (step.expiresAt.Some? ==> s.now < step.expiresAt.value)
  }

  /** An owner revokes the invite, which belongs to the store. */
  predicate OwnersRevocation(s: State, step: Step, key: string) {
    && step.Revoke? && step.key == key && key in s.t.invites
    && s.t.invites[key].store == step.store && OwnersKey(s.t, step.p, step.store)
  }

  /** The body of a source-store registration that is waiting arrives and finds its store. */
  predicate SourceArrives(s: State, step: Step, x: StoreId, project: string) {
    && step.FinishSource? && step.req in s.pending && s.pending[step.req].SourcePending?
    && s.pending[step.req].store == x && step.project == project && x in s.t.stores
  }

  /** The account may enter the store, by the rows: as a member of the workspace, or as the one
      whose personal store it is, where `x` is a sidecar's parent or the store itself. A scoped
      key lists the workspace. */
  predicate MayEnter(t: Tables, p: Principal, x: StoreId) {
    var source := if x in t.derived then t.derived[x].0 else x;
    && (|| (source.Wsp? && (source, p.account) in t.members)
        || (p.account in t.personal && t.personal[p.account] == source))
    && (p.scope.Some? ==> source.Wsp? && source in p.scope.value)
  }

  /** Somebody who may enter the parent asks for a sidecar it does not have yet. */
  ghost predicate SidecarOpens(s: State, step: Step, d: StoreId) {
    && step.Sidecar? && step.id == d && d.Der? && (step.parent.Wsp? || step.parent.Psm?)
    && MayEnter(s.t, step.p, step.parent)
    && !exists e :: e in s.t.derived && s.t.derived[e] == (step.parent, step.kind)
  }

  predicate PersonalOpens(s: State, step: Step, a: Account) {
    && step.Personal? && step.p.account == a && step.p.scope.None?
    && step.id.Psm? && step.id !in s.t.personal.Values
  }

  // ---------------------------------------------------------------- one step each

  lemma OwnerAdministers(s: State, p: Principal, x: StoreId)
    requires ParentsAreSources(s.t)
    ensures MayAdmin(s, p, x) <==> OwnersKey(s.t, p, x)
  {
    ControlPlaneGate(s.t, p, x, Admin);
  }

  lemma EntranceByRows(t: Tables, p: Principal, x: StoreId, action: Action)
    requires ForeignKeys(t) && SidecarParents(t) && ParentsAreSources(t)
    ensures Authorize(t, p, StoreResource(x), action) == Allow
            <==> MayEnter(t, p, x) && (action == Read || !p.readOnly)
  {
    DataPlaneGate(t, p, x, action);
  }

  lemma RemovalOfRow(s: State, step: Step, x: StoreId, a: Account)
    requires ParentsAreSources(s.t) && step.Remove? && (x, a) in s.t.members
    ensures (x, a) !in Next(s, step).t.members <==> PermittedRemoval(s, step, x, a)
  {
    assert step.p.account in OwnersOf(s.t, x) <==> MemberRole(s.t, x, step.p.account) == Some(Owner);
    RowRemoved(s.t, step.store, step.target, x, a);
  }

  lemma RowRemoved(t: Tables, store: StoreId, target: Account, x: StoreId, a: Account)
    requires (x, a) in t.members
    ensures (x, a) !in RemoveMember(t, store, target).0.members
            <==> x == store && a == target && !(OwnersOf(t, x) == {a} && MembersOf(t, x) != {a})
  {
    RemoveMemberKeepsAnOwner(t, x, a);
  }

  lemma RemovalChangesNoOther(s: State, step: Step, k: (StoreId, Account))
    requires ParentsAreSources(s.t) && step.Remove?
    ensures k in Next(s, step).t.members ==> k in s.t.members && Next(s, step).t.members[k] == s.t.members[k]
  {
  }

  lemma DeletionOfRows(s: State, step: Step)
    requires ForeignKeys(s.t) && ParentsAreSources(s.t) && step.Delete?
    ensures var (t, t') := (s.t, Next(s, step).t);
            if OwnersDeletion(s, step, step.store) then
              t' == Tables(t.stores - {step.store}, MembersElsewhere(t.members, step.store),
                           InvitesElsewhere(t.invites, step.store), SidecarsElsewhere(t.derived, step.store),
                           t.personal, t.sources)
            else t' == t
  {
    OwnerAdministers(s, step.p, step.store);
    if MayAdmin(s, step.p, step.store) {
      assert (step.store, step.p.account) in s.t.members;
      DeleteStoreAllOrNothing(s.t, step.store);
    }
  }

  lemma RoleOfRow(s: State, step: Step)
    requires ParentsAreSources(s.t) && step.FinishSetRole?
    ensures var (t, t') := (s.t, Next(s, step).t);
            && t'.members.Keys == t.members.Keys
            && forall x, a | (x, a) in t.members ::
                 t'.members[(x, a)] == if RoleArrives(s, step, x, a) then step.role else t.members[(x, a)]
  {
    if step.req in s.pending && s.pending[step.req].RolePending? {
      SetRoleKeepsAnOwner(s.t, s.pending[step.req].store, s.pending[step.req].target, step.role);
    }
  }

  lemma CreationOfRow(s: State, step: Step)
    requires Inv(s) && ParentsAreSources(s.t) && step.CreateWorkspace?
    ensures var (t, t', x) := (s.t, Next(s, step).t, step.id);
            t' == if Creation(s, step, x) then
                    t.(stores := t.stores[x := Store(false, step.p.account)],
                       members := t.members[(x, step.p.account) := Owner])
                  else t
  {
  }

  lemma EntranceOfRow(s: State, step: Step)
    requires ForeignKeys(s.t) && ParentsAreSources(s.t) && step.Join?
    ensures var (t, t') := (s.t, Next(s, step).t);
            t' == if step.key in t.invites && Entrance(s, step, t.invites[step.key].store) then
                    var i := t.invites[step.key];
                    t.(members := t.members[(i.store, step.p.account) := Member],
                       invites := t.invites[step.key := i.(used := i.used + 1)])
                  else t
  {
    JoinAddsOneMember(s, step.p, step.key);
  }

  lemma MintOfRow(s: State, step: Step)
    requires Inv(s) && ParentsAreSources(s.t) && step.FinishMint?
    ensures var (t, t') := (s.t, Next(s, step).t);
            t' == if step.req in s.pending && MintArrives(s, step, s.pending[step.req].store) then
                    var x := s.pending[step.req].store;
                    t.(invites := t.invites[step.key := MintedRow(step, x)],
                       stores := t.stores[x := t.stores[x].(inviteReachable := true)])
                  else t
  {
  }

  /** An invite as it is when new. */
  function MintedRow(step: Step, x: StoreId): Invite
    requires step.FinishMint? && (step.maxUses.Some? ==> step.maxUses.value > 0)
  {
    Invite(x, match step.maxUses case None => None case Some(n) => Some(n), 0, step.expiresAt, false)
  }

  lemma RevocationOfRow(s: State, step: Step)
    requires ParentsAreSources(s.t) && step.Revoke?
    ensures var (t, t') := (s.t, Next(s, step).t);
            t' == if OwnersRevocation(s, step, step.key) then
                    t.(invites := t.invites[step.key := t.invites[step.key].(revoked := true)])
                  else t
  {
    OwnerAdministers(s, step.p, step.store);
  }

  // ------------------------------------------------------------------ memberships

  /** A member's row goes if and only if an owner removes it or its account leaves, and others
      are not left without an owner, or an owner deletes the store. */
  lemma MemberLeavesIff(s: State, step: Step, x: StoreId, a: Account)
    requires Inv(s) && ParentsAreSources(s.t) && (x, a) in s.t.members
    ensures (x, a) !in Next(s, step).t.members
            <==> PermittedRemoval(s, step, x, a) || OwnersDeletion(s, step, x)
  {
    if step.Remove? {
      RemovalOfRow(s, step, x, a);
    } else if step.Delete? {
      DeletionOfRows(s, step);
    } else if step.FinishSetRole? {
      RoleOfRow(s, step);
    } else if step.CreateWorkspace? {
      CreationOfRow(s, step);
    } else if step.Join? {
      EntranceOfRow(s, step);
    } else {
      RosterUntouched(s, step);
    }
  }

  /** An account becomes a member if and only if it makes the workspace, as its owner, or enters
      with a live invite, as no more than a member. */
  lemma MemberAppearsIff(s: State, step: Step, x: StoreId, a: Account)
    requires Inv(s) && ParentsAreSources(s.t) && (x, a) !in s.t.members
    ensures var m := Next(s, step).t.members;
            && ((x, a) in m && m[(x, a)] == Owner <==> Creation(s, step, x) && step.p.account == a)
            && ((x, a) in m && m[(x, a)] == Member <==> Entrance(s, step, x) && step.p.account == a)
  {
    if step.Remove? {
      RemovalChangesNoOther(s, step, (x, a));
    } else if step.Delete? {
      DeletionOfRows(s, step);
    } else if step.FinishSetRole? {
      RoleOfRow(s, step);
    } else if step.CreateWorkspace? {
      CreationOfRow(s, step);
    } else if step.Join? {
      EntranceOfRow(s, step);
    } else {
      RosterUntouched(s, step);
    }
  }

  /** A member who stays has another role afterwards if and only if a role change that was
      waiting arrives and says so. */
  lemma RoleChangesIff(s: State, step: Step, x: StoreId, a: Account)
    requires Inv(s) && ParentsAreSources(s.t) && (x, a) in s.t.members && (x, a) in Next(s, step).t.members
    ensures Next(s, step).t.members[(x, a)]
         == if RoleArrives(s, step, x, a) then step.role else s.t.members[(x, a)]
  {
    if step.Remove? {
      RemovalChangesNoOther(s, step, (x, a));
    } else if step.Delete? {
      DeletionOfRows(s, step);
    } else if step.FinishSetRole? {
      RoleOfRow(s, step);
    } else if step.CreateWorkspace? {
      CreationOfRow(s, step);
    } else if step.Join? {
      EntranceOfRow(s, step);
    } else {
      RosterUntouched(s, step);
    }
  }

  // ------------------------------------------------------------ invites and stores

  /** An invite is new if and only if a mint that was waiting arrives, and stands as it was asked
      for; it is gone if and only if an owner deletes its store; and otherwise changes only by
      an owner's revocation or by somebody's entrance, which costs one use. */
  lemma InviteRowsIff(s: State, step: Step, key: string)
    requires Inv(s) && ParentsAreSources(s.t)
    ensures var (i, i') := (s.t.invites, Next(s, step).t.invites);
            if key !in i then
              && (key in i' <==> step.FinishMint? && step.key == key && step.req in s.pending
                                 && MintArrives(s, step, s.pending[step.req].store))
              && (key in i' ==> i'[key] == MintedRow(step, s.pending[step.req].store))
            else
              && (key !in i' <==> OwnersDeletion(s, step, i[key].store))
              && (key in i' ==>
                    i'[key] == if OwnersRevocation(s, step, key) then i[key].(revoked := true)
                               else if Entrance(s, step, i[key].store) && step.key == key then
                                 i[key].(used := i[key].used + 1)
                               else i[key])
  {
    if step.FinishMint? {
      MintOfRow(s, step);
    } else if step.Delete? {
      DeletionOfRows(s, step);
    } else if step.Revoke? {
      RevocationOfRow(s, step);
    } else if step.Join? {
      EntranceOfRow(s, step);
    } else {
      InvitesUntouched(s, step);
    }
  }

  /** A store is new if and only if an account makes it, not shared; it is gone if and only if an
      owner deletes it; and otherwise changes only in that an invite to it arrives, which shares
      it. */
  lemma StoreRowsIff(s: State, step: Step, x: StoreId)
    requires Inv(s) && ParentsAreSources(s.t)
    ensures var (r, r') := (s.t.stores, Next(s, step).t.stores);
            if x !in r then
              && (x in r' <==> Creation(s, step, x))
              && (x in r' ==> r'[x] == Store(false, step.p.account))
            else
              && (x !in r' <==> OwnersDeletion(s, step, x))
              && (x in r' ==> r'[x] == if MintArrives(s, step, x) then r[x].(inviteReachable := true) else r[x])
  {
    if step.FinishMint? {
      MintOfRow(s, step);
    } else if step.Delete? {
      DeletionOfRows(s, step);
    } else if step.CreateWorkspace? {
      CreationOfRow(s, step);
    } else if step.Join? {
      EntranceOfRow(s, step);
    }
  }

  // -------------------------------------------------------- an invite's limit, over runs

  /** The invite, if it is still there, allows `m` uses, and has had no more than those. */
  ghost predicate LimitKept(s: State, key: string, m: nat) {
    key in s.minted && s.grants[key] <= m && (key in s.t.invites ==> s.t.invites[key].maxUses == Some(m))
  }

  lemma StepKeepsLimit(s: State, step: Step, key: string, m: nat)
    requires Inv(s) && ParentsAreSources(s.t) && LimitKept(s, key, m)
    ensures LimitKept(Next(s, step), key, m)
  {
    AdmissionIsAGrant(s, step, key);
    InviteRowsIff(s, step, key);
    if step.Join? {
      JoinAddsOneMember(s, step.p, step.key);
    }
    MintedStays(s, step);
  }

  lemma MintedStays(s: State, step: Step)
    requires ParentsAreSources(s.t)
    ensures s.minted <= Next(s, step).minted
  {
    if !step.Join? && !step.FinishMint? && !step.Delete? && !step.Revoke? {
      InvitesUntouched(s, step);
    }
  }

  lemma {:induction false} LimitIsKept(s: State, steps: seq<Step>, key: string, m: nat)
    requires Inv(s) && ParentsAreSources(s.t) && LimitKept(s, key, m)
    ensures LimitKept(Run(s, steps), key, m)
    decreases |steps|
  {
    if steps != [] {
      StepKeepsInv(s, steps[0]);
      StepKeepsLimit(s, steps[0], key, m);
      LimitIsKept(Next(s, steps[0]), steps[1..], key, m);
    }
  }

  /** An invite minted for `m` uses adds at most `m` members to its store, over any later run. */
  lemma MintedForAtMost(s: State, mint: Step, x: StoreId, m: nat, steps: seq<Step>)
    requires Inv(s) && ParentsAreSources(s.t) && MintArrives(s, mint, x) && mint.maxUses == Some(m)
    ensures Inv(Next(s, mint)) && ParentsAreSources(Next(s, mint).t)
    ensures Admissions(Next(s, mint), steps, mint.key) <= m
  {
    StepKeepsInv(s, mint);
    MintOfRow(s, mint);
    AdmissionIsAGrant(s, mint, mint.key);
    LimitIsKept(Next(s, mint), steps, mint.key, m);
    GrantsCountAdmissions(Next(s, mint), steps, mint.key);
  }

  // ------------------------------------------- source stores, sidecars, personal stores

  /** A source store, once registered, belongs to its account for good; a new one belongs to the
      account whose registration was waiting. */
  lemma SourceRowsIff(s: State, step: Step, x: StoreId, project: string)
    requires Inv(s) && ParentsAreSources(s.t)
    ensures var (r, r') := (s.t.sources, Next(s, step).t.sources);
            if (x, project) in r then (x, project) in r' && r'[(x, project)] == r[(x, project)]
            else
              && ((x, project) in r' <==> SourceArrives(s, step, x, project))
              && ((x, project) in r' ==> r'[(x, project)] == s.pending[step.req].p.account)
  {
    if step.Delete? {
      DeletionOfRows(s, step);
    } else if Waits(step) {
      WaitingChangesNoTable(s, step);
    } else if step.Join? {
      EntranceOfRow(s, step);
    }
  }

  /** A sidecar is new if and only if somebody who may enter its parent asks for the first of its
      kind, hangs off that parent for good, and goes with it. */
  lemma SidecarRowsIff(s: State, step: Step, d: StoreId)
    requires Inv(s) && ParentsAreSources(s.t)
    ensures var (r, r') := (s.t.derived, Next(s, step).t.derived);
            if d !in r then
              && (d in r' <==> SidecarOpens(s, step, d))
              && (d in r' ==> r'[d] == (step.parent, step.kind))
            else
              && (d !in r' <==> OwnersDeletion(s, step, r[d].0))
              && (d in r' ==> r'[d] == r[d])
  {
    if step.Delete? {
      DeletionOfRows(s, step);
    } else if step.Sidecar? {
      SidecarOfRow(s, step);
    } else {
      SidecarsUntouched(s, step);
    }
  }

  lemma SidecarOfRow(s: State, step: Step)
    requires Inv(s) && ParentsAreSources(s.t) && step.Sidecar?
    ensures var (t, t') := (s.t, Next(s, step).t);
            t' == if step.id !in t.derived && SidecarOpens(s, step, step.id) then
                    t.(derived := t.derived[step.id := (step.parent, step.kind)])
                  else t
  {
    EntranceByRows(s.t, step.p, step.parent, Read);
  }

  lemma SidecarsUntouched(s: State, step: Step)
    requires ParentsAreSources(s.t) && !step.Delete? && !step.Sidecar?
    ensures Next(s, step).t.derived == s.t.derived
  {
    if Waits(step) {
      WaitingChangesNoTable(s, step);
    }
  }

  /** An account has one personal store, for good, from the first time it asks. */
  lemma PersonalRowsIff(s: State, step: Step, a: Account)
    requires Inv(s) && ParentsAreSources(s.t)
    ensures var (r, r') := (s.t.personal, Next(s, step).t.personal);
            if a in r then a in r' && r'[a] == r[a]
            else
              && (a in r' <==> PersonalOpens(s, step, a))
              && (a in r' ==> r'[a] == step.id)
  {
    if step.Delete? {
      DeletionOfRows(s, step);
    } else if Waits(step) {
      WaitingChangesNoTable(s, step);
    }
  }

  // ----------------------------------------------------------------------- the clock

  function Elapsed(steps: seq<Step>): nat {
    if steps == [] then 0 else (if steps[0].Tick? then steps[0].ms else 0) + Elapsed(steps[1..])
  }

  /** An invite that expires `ms` from now has expired after any run that takes that long. */
  lemma InviteExpires(s: State, steps: seq<Step>, key: string, ms: nat)
    requires Inv(s) && ParentsAreSources(s.t) && key in s.t.invites && key in Run(s, steps).t.invites
    requires s.t.invites[key].expiresAt == Some(s.now + ms) && Elapsed(steps) >= ms
    ensures !Alive(Run(s, steps).t.invites[key], Run(s, steps).now)
  {
    ExpiryStays(s, steps, key);
  }

  lemma {:induction false} ExpiryStays(s: State, steps: seq<Step>, key: string)
    requires Inv(s) && ParentsAreSources(s.t) && key in s.minted
    ensures var s' := Run(s, steps);
            && s'.now == s.now + Elapsed(steps) && key in s'.minted
            && (key in s'.t.invites ==> key in s.t.invites
                                        && s'.t.invites[key].expiresAt == s.t.invites[key].expiresAt)
    decreases |steps|
  {
    if steps != [] {
      StepKeepsInv(s, steps[0]);
      MintedStays(s, steps[0]);
      InviteRowsIff(s, steps[0], key);
      ExpiryStays(Next(s, steps[0]), steps[1..], key);
    }
  }

  // --------------------------------------------------------------- waiting requests

  /** The request of the step is admitted to wait as `r`: an owner's key asks to mint or to
      change a role, or the key of somebody who may enter and write asks to register. */
  predicate Admitted(s: State, step: Step, r: Pending) {
    match r
    case MintPending(p, x) => step == BeginMint(p, x) && OwnersKey(s.t, p, x)
    case RolePending(p, x, a) => step == BeginSetRole(p, x, a) && OwnersKey(s.t, p, x)
    case SourcePending(p, x) => step == BeginSource(p, x) && !p.readOnly && MayEnter(s.t, p, x)
  }

  /** The body that the request waits for. */
  predicate Arrives(s: State, step: Step, n: nat)
    requires n in s.pending
  {
    match s.pending[n]
    case MintPending(_, _) => step.FinishMint? && step.req == n
    case RolePending(_, _, _) => step.FinishSetRole? && step.req == n
    case SourcePending(_, _) => step.FinishSource? && step.req == n
  }

  /** A request waits from when it is admitted, unchanged, until its own body arrives. */
  lemma WaitingRowsIff(s: State, step: Step, n: nat)
    requires Inv(s) && ParentsAreSources(s.t)
    ensures var (r, r') := (s.pending, Next(s, step).pending);
            if n in r then
              && (n !in r' <==> Arrives(s, step, n))
              && (n in r' ==> r'[n] == r[n])
            else
              forall q :: n in r' && r'[n] == q <==> n == s.nextId && Admitted(s, step, q)
  {
    if step.BeginMint? || step.BeginSetRole? {
      OwnerAdministers(s, step.p, step.store);
    } else if step.BeginSource? {
      EntranceByRows(s.t, step.p, step.store, Write);
    }
  }

  /** The step was taken, as the one after the first `i` of the run, and admitted the request. */
  ghost predicate AdmittedAt(now: int, steps: seq<Step>, i: nat, r: Pending)
    requires i < |steps|
  {
    Admitted(Reached(now, steps[..i]), steps[i], r)
  }

  /** Every request that waits in a reached state was admitted by a step of the run, at a moment
      when its author owned the store, or could enter it and write. */
  lemma {:induction false} WaitingWasAdmitted(now: int, steps: seq<Step>, n: nat) returns (i: nat)
    requires n in Reached(now, steps).pending
    ensures i < |steps| && AdmittedAt(now, steps, i, Reached(now, steps).pending[n])
    decreases |steps|
  {
    InitInv(now);
    assert steps != [];
    var last := |steps| - 1;
    RunSplitsLast(Init(now), steps);
    assert Reached(now, steps) == Next(Reached(now, steps[..last]), steps[last]);
    if n in Reached(now, steps[..last]).pending {
      i := WaitingWasAdmitted(now, steps[..last], n);
      KeptWaiting(now, steps, i, n);
    } else {
      WaitingRowsIff(Reached(now, steps[..last]), steps[last], n);
      i := last;
    }
  }

  lemma KeptWaiting(now: int, steps: seq<Step>, i: nat, n: nat)
    requires i < |steps| - 1 && n in Reached(now, steps[..|steps| - 1]).pending
    requires AdmittedAt(now, steps[..|steps| - 1], i, Reached(now, steps[..|steps| - 1]).pending[n])
    requires Reached(now, steps) == Next(Reached(now, steps[..|steps| - 1]), steps[|steps| - 1])
    requires n in Reached(now, steps).pending
    ensures AdmittedAt(now, steps, i, Reached(now, steps).pending[n])
  {
    WaitingRowsIff(Reached(now, steps[..|steps| - 1]), steps[|steps| - 1], n);
    assert steps[..|steps| - 1][..i] == steps[..i];
  }

  lemma {:induction false} RunSplitsLast(s: State, steps: seq<Step>)
    requires Inv(s) && ParentsAreSources(s.t) && steps != []
    ensures Run(s, steps) == Next(Run(s, steps[..|steps| - 1]), steps[|steps| - 1])
    decreases |steps|
  {
    StepKeepsInv(s, steps[0]);
    var last := |steps| - 1;
    if last == 0 {
      assert steps[..0] == [] && steps[1..] == [];
      assert Run(Next(s, steps[0]), []) == Next(s, steps[0]);
    } else {
      RunSplitsLast(Next(s, steps[0]), steps[1..]);
      assert steps[1..][..last - 1] == steps[..last][1..];
    }
  }
}
