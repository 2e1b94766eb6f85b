/** Stored role profiles and the transaction that replaces one. */
module RoleStore {
  import opened Permissions

  /** The build's catalog, default sets and the permission that lets a role be an editor. */
  datatype Policy<P(==)> = Policy(catalog: Catalog<P>, defaults: map<Role, set<P>>, manage: P)

  /** Every role has a default set, and it is closed. */
  predicate WellFormed<P(==)>(b: Policy<P>) {
    forall r: Role :: r in b.defaults && Closed(b.catalog, b.defaults[r])
  }

  datatype Profile = Profile(customized: bool, revision: nat)

  /** The tables role_permission_profiles and role_permissions. */
  datatype Tables<P(==)> = Tables(profiles: map<Role, Profile>, rows: map<Role, map<P, bool>>)

  predicate Assignable<P(==)>(b: Policy<P>, p: P, role: Role) {
    p in b.catalog && role in b.catalog[p].assignableTo
  }

  /** The rows that still mean something to this build. */
  function Recognised<P(==)>(b: Policy<P>, rows: map<P, bool>, role: Role): map<P, bool> {
    map p | p in b.catalog :: p in rows && rows[p] && Assignable(b, p, role)
  }

  predicate Customized<P(==)>(t: Tables<P>, role: Role) {
    role != Owner && role in t.profiles && t.profiles[role].customized
  }

  function Revision<P(==)>(t: Tables<P>, role: Role): nat {
    if role != Owner && role in t.profiles then t.profiles[role].revision else 0
  }

  function RowsOf<P(==)>(t: Tables<P>, role: Role): map<P, bool> {
    if role in t.rows then t.rows[role] else map[]
  }

  /** The permissions a role holds: the defaults, or for a customized profile the
      greatest closed part of its recognised rows. */
  ghost function Effective<P(!new)>(b: Policy<P>, t: Tables<P>, role: Role): set<P>
    requires WellFormed(b)
  {
    if Customized(t, role) then GreatestClosed(b.catalog, Granted(Recognised(b, RowsOf(t, role), role)))
    else b.defaults[role]
  }

  lemma EffectiveIsClosed<P(!new)>(b: Policy<P>, t: Tables<P>, role: Role)
    requires WellFormed(b)
    ensures Closed(b.catalog, Effective(b, t, role))
    ensures Effective(b, t, role) <= b.catalog.Keys
  {
    GreatestClosedIsGreatest(b.catalog, Granted(Recognised(b, RowsOf(t, role), role)));
    assert forall p :: p in Effective(b, t, role) ==> Supported(b.catalog, Effective(b, t, role), p);
  }

  // ----- the update transaction ----------------------------------------------

  /** A request; a target the build does not know is None. */
  datatype Target = Known(role: Role) | Unknown
  datatype Request<P> = Request(actor: Role, target: Target, permissions: seq<P>, revision: int)
  datatype Response = Forbidden | BadRequest | Conflict | Unchanged | Committed

  predicate CanEdit(actor: Role, target: Target) {
    && target.Known? && target.role != Owner
    && (actor == Owner || (actor == Admin && (target.role == Member || target.role == Viewer)))
  }

  predicate ValidDesired<P(==)>(b: Policy<P>, target: Role, requested: seq<P>) {
    && (forall i :: 0 <= i < |requested| ==> Assignable(b, requested[i], target))
    && Closed(b.catalog, Desired(requested))
  }

  function Desired<P(==)>(requested: seq<P>): set<P> {
    set p | p in requested
  }

  /** Only the Owner may hand out what neither the actor nor the target holds. */
  ghost predicate MayGrant<P(!new)>(b: Policy<P>, t: Tables<P>, actor: Role, target: Role, desired: set<P>)
    requires WellFormed(b)
  {
    actor == Owner
    || (b.manage in Effective(b, t, actor)
        && desired <= Effective(b, t, actor) + Effective(b, t, target))
  }

  ghost function Respond<P(!new)>(b: Policy<P>, t: Tables<P>, q: Request<P>): Response
    requires WellFormed(b)
  {
    if !CanEdit(q.actor, q.target) then Forbidden
    else if q.revision < 0 || !ValidDesired(b, q.target.role, q.permissions) then BadRequest
    else if Revision(t, q.target.role) != q.revision then Conflict
    else if !MayGrant(b, t, q.actor, q.target.role, Desired(q.permissions)) then Forbidden
    else if Effective(b, t, q.target.role) == Desired(q.permissions) then Unchanged
    else Committed
  }

  /** The rows written: one for every permission of the catalog. */
  function Written<P(==)>(b: Policy<P>, desired: set<P>): map<P, bool> {
    map p | p in b.catalog :: p in desired
  }

  ghost function After<P(!new)>(b: Policy<P>, t: Tables<P>, q: Request<P>): Tables<P>
    requires WellFormed(b)
  {
    if Respond(b, t, q).Committed? then
      var role := q.target.role;
      Tables(t.profiles[role := Profile(true, Revision(t, role) + 1)],
             t.rows[role := Written(b, Desired(q.permissions))])
    else t
  }

  class Store<P(==, !new)> {
    const policy: Policy<P>
    var profiles: map<Role, Profile>
    var rows: map<Role, map<P, bool>>

    ghost function View(): Tables<P>
      reads this
    {
      Tables(profiles, rows)
    }

    constructor (policy: Policy<P>)
      ensures this.policy == policy && View() == Tables(map[], map[])
    {
      this.policy := policy;
      profiles, rows := map[], map[];
    }

    /** `loadRolePermissionState`. */
    method Load(role: Role) returns (held: set<P>, revision: nat, known: bool)
      requires WellFormed(policy)
      ensures held == Effective(policy, View(), role) && revision == Revision(View(), role)
      ensures known <==> role != Owner && role in profiles
    {
      held, revision, known := policy.defaults[role], 0, false;
      if role == Owner || role !in profiles { return; }
      revision, known := profiles[role].revision, true;
      if !profiles[role].customized { return; }
      var stored := if role in rows then rows[role] else map[];
      var permissions := EnforceDependencies(policy.catalog, Recognised(policy, stored, role));
      held := Granted(permissions);
    }

    /** `validateDesiredPermissions`. */
    method Validate(target: Role, requested: seq<P>) returns (ok: bool, desired: set<P>)
      ensures ok <==> ValidDesired(policy, target, requested)
      ensures ok ==> desired == Desired(requested)
    {
      desired := {};
      for i := 0 to |requested|
        invariant desired == Desired(requested[..i])
        invariant forall j :: 0 <= j < i ==> Assignable(policy, requested[j], target)
      {
        if !Assignable(policy, requested[i], target) { return false, desired; }
        assert requested[..i + 1] == requested[..i] + [requested[i]];
        desired := desired + {requested[i]};
      }
      assert requested[..|requested|] == requested;
      ok := forall p | p in desired :: Supported(policy.catalog, desired, p);
    }

    /** The transaction of `handleRolePermissionsUpdate`. */
    method Update(q: Request<P>) returns (r: Response)
      requires WellFormed(policy)
      modifies this
      ensures r == Respond(policy, old(View()), q)
      ensures View() == After(policy, old(View()), q)
    {
      if !CanEdit(q.actor, q.target) { return Forbidden; }
      if q.revision < 0 { return BadRequest; }
      var target := q.target.role;
      var ok, desired := Validate(target, q.permissions);
      if !ok { return BadRequest; }
      var current, revision, known := Load(target);
      if revision != q.revision { return Conflict; }
      if q.actor != Owner {
        var actorHeld, _, _ := Load(q.actor);
        if policy.manage !in actorHeld || !(desired <= actorHeld + current) { return Forbidden; }
      }
      if current == desired { return Unchanged; }
      if known {
        profiles := profiles[target := Profile(true, revision + 1)];
      } else {
        profiles := profiles[target := Profile(true, 1)];
      }
      rows := rows[target := Written(policy, desired)];
      r := Committed;
    }
  }

  // ----- one request ---------------------------------------------------------

  /** A commit stores exactly the requested set, one revision after the one the
      request was checked against, and touches no other role. */
  lemma CommitRoundTrip<P(!new)>(b: Policy<P>, t: Tables<P>, q: Request<P>)
    requires WellFormed(b) && Respond(b, t, q).Committed?
    ensures var u := After(b, t, q);
            && Effective(b, u, q.target.role) == Desired(q.permissions)
            && Revision(u, q.target.role) == Revision(t, q.target.role) + 1 == q.revision + 1
            && forall r: Role :: r != q.target.role ==>
                 Effective(b, u, r) == Effective(b, t, r) && Revision(u, r) == Revision(t, r)
  {
    var role, desired := q.target.role, Desired(q.permissions);
    assert Granted(Recognised(b, Written(b, desired), role)) == desired by {
      forall p | p in desired ensures Assignable(b, p, role) {
        var i :| 0 <= i < |q.permissions| && q.permissions[i] == p;
      }
    }
    ClosedIsOwnGreatest(b.catalog, desired);
  }

  /** A request is committed if and only if the actor may edit the role (the Owner any but
      the Owner's, the Admin a Member's or Viewer's, holding the permission to), it asks
      for known permissions that can be given to the role, each with its requirements, the
      Admin hands out nothing that neither role holds, it was made against the current
      revision, and it changes something. */
  lemma CommitIff<P(!new)>(b: Policy<P>, t: Tables<P>, actor: Role, role: Role, permissions: seq<P>, revision: int)
    requires WellFormed(b)
    ensures Respond(b, t, Request(actor, Known(role), permissions, revision)).Committed? <==>
            && role != Owner
            && (actor == Owner
                || (actor == Admin && role in {Member, Viewer} && b.manage in Effective(b, t, Admin)
                    && forall p :: p in permissions ==> p in Effective(b, t, Admin) || p in Effective(b, t, role)))
            && (forall p :: p in permissions ==>
                  && p in b.catalog && role in b.catalog[p].assignableTo
                  && forall i :: 0 <= i < |b.catalog[p].requirements| ==> b.catalog[p].requirements[i] in permissions)
            && revision == Revision(t, role) && Effective(b, t, role) != set p | p in permissions
  {
    hide Effective, ValidDesired;
    AsksAssignable(b, role, permissions);
    var held := Effective(b, t, actor) + Effective(b, t, role);
    assert Desired(permissions) <= held <==> forall p :: p in permissions ==> p in held;
  }

  lemma AsksAssignable<P(!new)>(b: Policy<P>, role: Role, permissions: seq<P>)
    ensures ValidDesired(b, role, permissions) <==>
            forall p :: p in permissions ==>
              && p in b.catalog && role in b.catalog[p].assignableTo
              && forall i :: 0 <= i < |b.catalog[p].requirements| ==> b.catalog[p].requirements[i] in permissions
  {
    forall p | p in permissions && ValidDesired(b, role, permissions)
      ensures p in b.catalog && role in b.catalog[p].assignableTo
              && forall i :: 0 <= i < |b.catalog[p].requirements| ==> b.catalog[p].requirements[i] in permissions
    {
      assert p in Desired(permissions) && Supported(b.catalog, Desired(permissions), p);
      var i :| 0 <= i < |permissions| && permissions[i] == p;
      assert Assignable(b, permissions[i], role);
    }
  }

  /** Why a request is not committed, the first reason of this order: not an editor; not a
      valid request; out of date; not the editor's to grant; nothing to change. */
  lemma Refusals<P(!new)>(b: Policy<P>, t: Tables<P>, q: Request<P>)
    requires WellFormed(b)
    ensures (|| q.target.Unknown? || q.target.role == Owner || q.actor in {Member, Viewer}
             || (q.actor == Admin && q.target.role == Admin)) ==> Respond(b, t, q) == Forbidden
    ensures q.actor == Owner && q.target.Known? && q.target.role != Owner ==>
              var role := q.target.role;
              Respond(b, t, q) ==
              if q.revision < 0 || !ValidDesired(b, role, q.permissions) then BadRequest
              else if q.revision != Revision(t, role) then Conflict
              else if Effective(b, t, role) == Desired(q.permissions) then Unchanged
              else Committed
    ensures q.actor == Admin && q.target.Known? && q.target.role in {Member, Viewer} ==>
              var owners := Respond(b, t, q.(actor := Owner));
              Respond(b, t, q) ==
              if owners in {BadRequest, Conflict} then owners
              else if b.manage in Effective(b, t, Admin)
                      && (forall p :: p in q.permissions ==>
                            p in Effective(b, t, Admin) + Effective(b, t, q.target.role))
              then owners else Forbidden
  {
    hide Effective, ValidDesired;
  }

  /** What a role holds: the defaults unless its profile is a customized one; then a set of
      known permissions stored for it that can be given to it, each with its requirements,
      and every other such set is part of it. */
  lemma EffectiveMeans<P(!new)>(b: Policy<P>, t: Tables<P>, role: Role)
    requires WellFormed(b)
    ensures role == Owner || role !in t.profiles || !t.profiles[role].customized ==>
              Effective(b, t, role) == b.defaults[role]
    ensures role != Owner && role in t.profiles && t.profiles[role].customized ==>
              && (forall p :: p in Effective(b, t, role) ==> Offered(b, t, role, p))
              && forall s: set<P> :: (forall p :: p in s ==> Offered(b, t, role, p)) && Closed(b.catalog, s) ==>
                   s <= Effective(b, t, role)
    ensures Revision(t, role) == if role == Owner || role !in t.profiles then 0 else t.profiles[role].revision
  {
    if role != Owner && role in t.profiles && t.profiles[role].customized {
      var granted := Granted(Recognised(b, RowsOf(t, role), role));
      GreatestClosedIsGreatest(b.catalog, granted);
      assert forall p :: p in granted <==> Offered(b, t, role, p);
    }
  }

  /** Stored as allowed, known and assignable to the role. */
  predicate Offered<P(==)>(b: Policy<P>, t: Tables<P>, role: Role, p: P) {
    && role in t.rows && p in t.rows[role] && t.rows[role][p]
    && p in b.catalog && role in b.catalog[p].assignableTo
  }

  // ----- whole runs ----------------------------------------------------------

  ghost function Final<P(!new)>(b: Policy<P>, t: Tables<P>, run: seq<Request<P>>): Tables<P>
    requires WellFormed(b)
    decreases |run|
  {
    if run == [] then t else Final(b, After(b, t, run[0]), run[1..])
  }

  /** The requests of a run that commit to a role, oldest first. */
  ghost function Commits<P(!new)>(b: Policy<P>, t: Tables<P>, run: seq<Request<P>>, role: Role): seq<Request<P>>
    requires WellFormed(b)
    decreases |run|
  {
    if run == [] then []
    else
      (if Respond(b, t, run[0]).Committed? && run[0].target == Known(role) then [run[0]] else [])
      + Commits(b, After(b, t, run[0]), run[1..], role)
  }

  /** No lost update: over any run, the commits to a role carry consecutive
      revisions, from the one stored at the start to just below the one stored at
      the end, so each was made against the state its predecessor left. */
  lemma {:induction false} CommitsAreConsecutive<P(!new)>(b: Policy<P>, t: Tables<P>, run: seq<Request<P>>, role: Role)
    requires WellFormed(b) && role != Owner
    ensures var commits := Commits(b, t, run, role);
            && Revision(Final(b, t, run), role) == Revision(t, role) + |commits|
            && forall i :: 0 <= i < |commits| ==> commits[i].revision == Revision(t, role) + i
    decreases |run|
  {
    if run != [] {
      if Respond(b, t, run[0]).Committed? { CommitRoundTrip(b, t, run[0]); }
      CommitsAreConsecutive(b, After(b, t, run[0]), run[1..], role);
    }
  }

  /** What a role holds after a run is what its last commit asked for. */
  lemma {:induction false} LastCommitHolds<P(!new)>(b: Policy<P>, t: Tables<P>, run: seq<Request<P>>, role: Role)
    requires WellFormed(b)
    ensures var commits := Commits(b, t, run, role);
            Effective(b, Final(b, t, run), role) ==
              if commits == [] then Effective(b, t, role) else Desired(commits[|commits| - 1].permissions)
    decreases |run|
  {
    if run != [] {
      if Respond(b, t, run[0]).Committed? { CommitRoundTrip(b, t, run[0]); }
      LastCommitHolds(b, After(b, t, run[0]), run[1..], role);
    }
  }

  /** Without the Owner's help nobody gains a permission that neither the role nor
      the Admin role held to begin with, and the Admin role itself stays as it was. */
  lemma {:induction false} NoEscalation<P(!new)>(b: Policy<P>, t: Tables<P>, run: seq<Request<P>>, role: Role)
    requires WellFormed(b)
    requires forall i :: 0 <= i < |run| ==> run[i].actor != Owner
    ensures Effective(b, Final(b, t, run), role) <= Effective(b, t, role) + Effective(b, t, Admin)
    ensures Effective(b, Final(b, t, run), Admin) == Effective(b, t, Admin)
    decreases |run|
  {
    if run != [] {
      if Respond(b, t, run[0]).Committed? { CommitRoundTrip(b, t, run[0]); }
      NoEscalation(b, After(b, t, run[0]), run[1..], role);
    }
  }
}
