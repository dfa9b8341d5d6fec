/** The single authorization gate. */
module Policy {
  import opened Options
  import opened Tables

  /** Who is acting: a session, or a key that may be read-only and may be scoped to some
      stores. */
  datatype Principal = Principal(account: Account, readOnly: bool, scope: Option<set<StoreId>>)

  /** A session, or a key that is neither read-only nor scoped. */
  predicate FullPower(p: Principal) {
    !p.readOnly && p.scope.None?
  }

  datatype Action = Read | Write | Admin
  datatype Resource = StoreResource(id: StoreId) | WorkspaceResource(id: StoreId)
  datatype Decision = Allow | Deny(status: int)

  /** No sidecar hangs off a sidecar: what makes the recursion below end. */
  ghost predicate ParentsAreSources(t: Tables) {
    forall d | d in t.derived :: t.derived[d].0.Wsp? || t.derived[d].0.Psm?
  }

  function Authorize(t: Tables, p: Principal, res: Resource, action: Action): Decision
    requires ParentsAreSources(t)
    decreases res.id.Der?
  {
    if action != Read && p.readOnly then Deny(403)
    else match res
      case StoreResource(Der(_)) =>
        if res.id !in t.derived then Deny(403)
        else Authorize(t, p, StoreResource(t.derived[res.id].0), action)
      case StoreResource(Psm(_)) =>
        if p.account !in t.personal || t.personal[p.account] != res.id then Deny(403)
        else if p.scope.Some? then Deny(403)
        else Allow
      case StoreResource(Wsp(_)) =>
        if MemberRole(t, res.id, p.account).None? then Deny(403)
        else if p.scope.Some? && res.id !in p.scope.value then Deny(403)
        else Allow
      case StoreResource(Other(_)) => Deny(403)
      case WorkspaceResource(s) =>
        if p.scope.Some? then Deny(403)
        else match MemberRole(t, s, p.account)
          case None => Deny(404)
          case Some(role) => if action == Admin && role != Owner then Deny(403) else Allow
  }

  /** What an account may reach at all, whatever key it uses. */
  ghost predicate Reaches(t: Tables, a: Account, id: StoreId)
    requires ParentsAreSources(t)
    decreases id.Der?
  {
    match id
    case Wsp(_) => a in MembersOf(t, id)
    case Psm(_) => a in t.personal && t.personal[a] == id
    case Der(_) => id in t.derived && Reaches(t, a, t.derived[id].0)
    case Other(_) => false
  }

  /** The data-plane gate in one sentence: the account reaches the store, the key may write
      if writing is asked for, and a scoped key lists the store the events really belong to,
      which is never a personal one. */
  lemma DataPlaneGate(t: Tables, p: Principal, id: StoreId, action: Action)
    requires ParentsAreSources(t)
    ensures var source := if id.Der? && id in t.derived then t.derived[id].0 else id;
            Authorize(t, p, StoreResource(id), action) == Allow
            <==> && Reaches(t, p.account, id)
                 && (action == Read || !p.readOnly)
                 && (p.scope.Some? ==> source.Wsp? && source in p.scope.value)
    ensures Authorize(t, p, StoreResource(id), action) in {Allow, Deny(403)}
    decreases id.Der?
  {
    if id.Der? && id in t.derived {
      DataPlaneGate(t, p, t.derived[id].0, action);
    }
  }

  /** The control-plane gate: an unscoped key of a member, of an owner to administer, that may
      write unless reading. Whoever is not a member is told no more than that nothing is
      there. */
  lemma ControlPlaneGate(t: Tables, p: Principal, s: StoreId, action: Action)
    requires ParentsAreSources(t)
    ensures var d := Authorize(t, p, WorkspaceResource(s), action);
            var usable := p.scope.None? && (action == Read || !p.readOnly);
            && (d == Allow <==> usable && (if action == Admin then p.account in OwnersOf(t, s)
                                           else p.account in MembersOf(t, s)))
            && (d == Deny(404) <==> usable && p.account !in MembersOf(t, s))
            && d in {Allow, Deny(403), Deny(404)}
  {
  }

  /** `q` is `p` made read-only, or scoped, or scoped further. */
  predicate Narrower(q: Principal, p: Principal) {
    && q.account == p.account
    && (p.readOnly ==> q.readOnly)
    && (p.scope.Some? ==> q.scope.Some? && q.scope.value <= p.scope.value)
  }

  /** Narrowing a key never turns a refusal into a grant. */
  lemma NarrowingNeverGrants(t: Tables, p: Principal, q: Principal, res: Resource, action: Action)
    requires ParentsAreSources(t) && Narrower(q, p)
    requires Authorize(t, q, res, action) == Allow
    ensures Authorize(t, p, res, action) == Allow
  {
    match res
    case StoreResource(id) =>
      DataPlaneGate(t, p, id, action);
      DataPlaneGate(t, q, id, action);
    case WorkspaceResource(_) =>
  }
}
