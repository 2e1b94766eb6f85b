/** Recovery codes under interleaved logins: a code lets one login through, and is
    lost in no other way than by that login or by being replaced. */
module RecoveryCodes {
  /** A recovery code of a user, by its hash. */
  datatype Code = Code(user: int, hash: int)

  datatype State = State(
    unused: set<Code>,        // rows with used_at NULL
    replaced: set<Code>,      // rows deleted by issuing new codes
    checked: map<int, Code>,  // logins between the availability check and the update
    logins: seq<Code>)        // logins let through by a recovery code

  datatype Action =
    // the reads of a login: whether password and account passed, and the code offered
    | Check(request: int, code: Code, passed: bool)
    // UPDATE ... WHERE used_at IS NULL: succeeds if a row changed
    | Consume(request: int)
    | Issue(user: int, codes: set<Code>)

  function Issued(s: State): set<Code> {
    s.unused + s.replaced + set c | c in s.logins
  }

  predicate Enabled(s: State, a: Action) {
    match a
    case Check(request, _, _) => request !in s.checked
    case Consume(request) => request in s.checked
    case Issue(user, codes) => codes !! Issued(s) && forall c :: c in codes ==> c.user == user
  }

  function Apply(s: State, a: Action): State
    requires Enabled(s, a)
  {
    match a
    case Check(request, code, passed) =>
      if passed && code in s.unused then s.(checked := s.checked[request := code]) else s
    case Consume(request) =>
      var code := s.checked[request];
      var t := s.(checked := s.checked - {request});
      if code in s.unused then t.(unused := s.unused - {code}, logins := s.logins + [code]) else t
    case Issue(user, codes) =>
      var stale := set c | c in s.unused && c.user == user;
      s.(unused := s.unused - stale + codes, replaced := s.replaced + stale)
  }

  predicate Legal(s: State, run: seq<Action>)
    decreases |run|
  {
    run == [] || (Enabled(s, run[0]) && Legal(Apply(s, run[0]), run[1..]))
  }

  function After(s: State, run: seq<Action>): State
    requires Legal(s, run)
    decreases |run|
  {
    if run == [] then s else After(Apply(s, run[0]), run[1..])
  }

  /** The codes the run hands out. */
  function HandedOut(run: seq<Action>): set<Code> {
    if run == [] then {} else (if run[0].Issue? then run[0].codes else {}) + HandedOut(run[1..])
  }

  /** Every code is in one place only. */
  predicate Apart(s: State) {
    && s.unused !! s.replaced
    && (forall c :: c in s.logins ==> c !in s.unused && c !in s.replaced)
    && (forall i, j :: 0 <= i < j < |s.logins| ==> s.logins[i] != s.logins[j])
  }

  lemma ApartStep(s: State, a: Action)
    requires Apart(s) && Enabled(s, a)
    ensures Apart(Apply(s, a))
    ensures Issued(Apply(s, a)) == Issued(s) + if a.Issue? then a.codes else {}
  {
    if a.Issue? {
      assert forall c :: c in a.codes ==> c !in Issued(s);
    } else if a.Consume? && s.checked[a.request] in s.unused {
      var code, t := s.checked[a.request], Apply(s, a);
      assert t.logins[|s.logins|] == code && forall c :: c in s.logins ==> c in t.logins;
    }
  }

  /** However logins and reissues interleave, each code lets at most one login
      through, and every code ever issued is still usable, let one login through, or
      was replaced: a login that fails on its password costs nothing. */
  lemma {:induction false} CodeWorksOnce(s: State, run: seq<Action>)
    requires Apart(s) && Legal(s, run)
    ensures Apart(After(s, run))
    ensures Issued(After(s, run)) == Issued(s) + HandedOut(run)
    ensures var t := After(s, run);
            && (forall i, j :: 0 <= i < j < |t.logins| ==> t.logins[i] != t.logins[j])
            && (forall c :: c in t.logins ==> c !in t.unused && c !in t.replaced)
            && (forall c :: c in t.unused ==> c !in t.replaced)
    decreases |run|
  {
    if run != [] {
      ApartStep(s, run[0]);
      CodeWorksOnce(Apply(s, run[0]), run[1..]);
    }
  }

  /** No code lets a login through that was not offered, in this run or before it, by a
      login whose password and account passed. */
  lemma {:induction false} OnlyPassedLogins(s: State, run: seq<Action>, c: Code)
    requires Legal(s, run) && c in After(s, run).logins
    ensures || c in s.logins || (exists r :: r in s.checked && s.checked[r] == c)
            || exists i :: 0 <= i < |run| && run[i].Check? && run[i].passed && run[i].code == c
    decreases |run|
  {
    if run != [] {
      var t := Apply(s, run[0]);
      OnlyPassedLogins(t, run[1..], c);
      if i :| 0 <= i < |run[1..]| && run[1..][i].Check? && run[1..][i].passed && run[1..][i].code == c {
        assert run[i + 1] == run[1..][i];
      }
      if r :| r in t.checked && t.checked[r] == c && !(r in s.checked && s.checked[r] == c) {
        assert run[0].Check? && run[0].passed && run[0].code == c;
      }
    }
  }

  /** A login on a code that is still unused goes through and uses it up; one that fails on
      its password changes nothing. */
  lemma LoginOutcome(s: State, request: int, code: Code)
    requires request !in s.checked
    ensures Apply(s, Check(request, code, false)) == s
    ensures code in s.unused ==>
              var t := Apply(s, Check(request, code, true));
              && Enabled(t, Consume(request))
              && Apply(t, Consume(request)) == s.(unused := s.unused - {code}, logins := s.logins + [code])
    ensures code !in s.unused ==> Apply(s, Check(request, code, true)) == s
  {
    if code in s.unused {
      assert Apply(s, Check(request, code, true)).checked - {request} == s.checked;
    }
  }

  /** New codes replace the unused ones of their user and no one else's. */
  lemma IssueOutcome(s: State, user: int, codes: set<Code>, c: Code)
    requires Apart(s) && Enabled(s, Issue(user, codes))
    ensures var t := Apply(s, Issue(user, codes));
            && t.logins == s.logins && t.checked == s.checked
            && (c in t.unused <==> c in codes || (c in s.unused && c.user != user))
            && (c in t.replaced <==> c in s.replaced || (c in s.unused && c.user == user))
  {
  }
}

/** Invitations under interleaved activations: each leaves at most one account. */
module Invitations {
  import opened Text

  datatype Invitation = Invitation(usedBy: Option<int>, revoked: bool, expires: int)

  /** Where an activation stands between its database statements. */
  datatype Step =
    | Admitted(invitation: int)                  // CheckInvitation passed
    | Created(invitation: int, user: int)        // the account exists, the claim not yet made
    | Losing(invitation: int, user: int)         // the claim failed, the account is to be deleted

  datatype State = State(
    invitations: map<int, Invitation>,
    accounts: map<int, int>,      // accounts made from invitations: user to invitation
    requests: map<int, Step>)

  datatype Action =
    | Check(request: int, invitation: int, now: int)
    | Abandon(request: int)   // the code did not match, or the account could not be made
    | Create(request: int, user: int)
    | Claim(request: int)
    | Remove(request: int)
    | Revoke(invitation: int)

  predicate Enabled(s: State, a: Action) {
    match a
    case Check(request, _, _) => request !in s.requests
    case Abandon(request) => request in s.requests && s.requests[request].Admitted?
    case Create(request, user) => request in s.requests && s.requests[request].Admitted? && user !in s.accounts
    case Claim(request) => request in s.requests && s.requests[request].Created?
    case Remove(request) => request in s.requests && s.requests[request].Losing?
    case Revoke(_) => true
  }

  predicate Open(s: State, id: int) {
    id in s.invitations && !s.invitations[id].revoked && s.invitations[id].usedBy.None?
  }

  function Apply(s: State, a: Action): State
    requires Enabled(s, a)
  {
    match a
    case Check(request, id, now) =>
      if Open(s, id) && now <= s.invitations[id].expires then s.(requests := s.requests[request := Admitted(id)]) else s
    case Abandon(request) => s.(requests := s.requests - {request})
    case Create(request, user) =>
      var id := s.requests[request].invitation;
      s.(accounts := s.accounts[user := id], requests := s.requests[request := Created(id, user)])
    case Claim(request) =>
      // UPDATE ... WHERE used_by IS NULL AND revoked=0
      var id, user := s.requests[request].invitation, s.requests[request].user;
      if Open(s, id) then
        s.(invitations := s.invitations[id := s.invitations[id].(usedBy := Some(user))],
           requests := s.requests - {request})
      else s.(requests := s.requests[request := Losing(id, user)])
    case Remove(request) =>
      s.(accounts := s.accounts - {s.requests[request].user}, requests := s.requests - {request})
    case Revoke(id) =>
      if id in s.invitations then s.(invitations := s.invitations[id := s.invitations[id].(revoked := true)]) else s
  }

  predicate Legal(s: State, run: seq<Action>)
    decreases |run|
  {
    run == [] || (Enabled(s, run[0]) && Legal(Apply(s, run[0]), run[1..]))
  }

  function After(s: State, run: seq<Action>): State
    requires Legal(s, run)
    decreases |run|
  {
    if run == [] then s else After(Apply(s, run[0]), run[1..])
  }

  /** The account is the one that claimed its invitation. */
  predicate Owns(s: State, user: int) {
    user in s.accounts && s.accounts[user] in s.invitations
    && s.invitations[s.accounts[user]].usedBy == Some(user)
  }

  /** The request made the account and has not decided about it yet. */
  predicate Undecided(s: State, request: int, user: int) {
    request in s.requests && !s.requests[request].Admitted? && s.requests[request].user == user
  }

  /** Every account claimed its invitation or has the request that will decide. */
  ghost predicate AccountsExplained(s: State) {
    forall u :: u in s.accounts ==> Owns(s, u) || exists r :: Undecided(s, r, u)
  }

  predicate RequestsOwnAccounts(s: State) {
    forall r :: r in s.requests && !s.requests[r].Admitted? ==>
      s.requests[r].user in s.accounts && s.accounts[s.requests[r].user] == s.requests[r].invitation
      && !Owns(s, s.requests[r].user)
  }

  predicate OneRequestEach(s: State) {
    forall p, r :: (p in s.requests && r in s.requests && p != r
      && !s.requests[p].Admitted? && !s.requests[r].Admitted?) ==> s.requests[p].user != s.requests[r].user
  }

  predicate ClaimsKept(s: State) {
    forall i :: i in s.invitations && s.invitations[i].usedBy.Some? ==>
      s.invitations[i].usedBy.value in s.accounts && s.accounts[s.invitations[i].usedBy.value] == i
  }

  ghost predicate Inv(s: State) {
    AccountsExplained(s) && RequestsOwnAccounts(s) && OneRequestEach(s) && ClaimsKept(s)
  }

  lemma ExplainedStep(s: State, a: Action)
    requires Inv(s) && Enabled(s, a)
    ensures AccountsExplained(Apply(s, a))
  {
    var t := Apply(s, a);
    forall u | u in t.accounts
      ensures Owns(t, u) || exists r :: Undecided(t, r, u)
    {
      if u in s.accounts && !Owns(s, u) {
        var r :| Undecided(s, r, u);
        assert Owns(t, u) || Undecided(t, r, u);
      } else if u !in s.accounts {
        assert Undecided(t, a.request, u);
      }
    }
  }

  lemma OwnAccountsStep(s: State, a: Action)
    requires Inv(s) && Enabled(s, a)
    ensures RequestsOwnAccounts(Apply(s, a)) && OneRequestEach(Apply(s, a))
  {
    hide AccountsExplained;
  }

  lemma ClaimsStep(s: State, a: Action)
    requires Inv(s) && Enabled(s, a)
    ensures ClaimsKept(Apply(s, a))
  {
  }

  lemma {:induction false} InvRun(s: State, run: seq<Action>)
    requires Inv(s) && Legal(s, run)
    ensures Inv(After(s, run))
    decreases |run|
  {
    hide AccountsExplained, RequestsOwnAccounts, OneRequestEach, ClaimsKept;
    if run != [] {
      ExplainedStep(s, run[0]);
      OwnAccountsStep(s, run[0]);
      ClaimsStep(s, run[0]);
      InvRun(Apply(s, run[0]), run[1..]);
    }
  }

  /** However activations and revocations interleave, once no request with an account is
      left undecided the accounts made from an invitation are exactly the one that
      claimed it; requests may still be admitted, or have been given up. */
  lemma OneAccountEach(s: State, run: seq<Action>, user: int, id: int)
    requires s.requests == map[] && s.accounts == map[]
    requires forall i :: i in s.invitations ==> s.invitations[i].usedBy.None?
    requires Legal(s, run) && id in After(s, run).invitations
    requires forall r :: r in After(s, run).requests ==> After(s, run).requests[r].Admitted?
    ensures user in After(s, run).accounts && After(s, run).accounts[user] == id
            <==> After(s, run).invitations[id].usedBy == Some(user)
  {
    InvRun(s, run);
  }

  /** An activation is admitted exactly for an invitation that exists, is not used, revoked
      or expired; undisturbed it then leaves an account that claimed it. */
  lemma ActivationOutcome(s: State, request: int, id: int, user: int, now: int)
    requires request !in s.requests && user !in s.accounts
    ensures var t := Apply(s, Check(request, id, now));
            if id in s.invitations && s.invitations[id].usedBy.None? && !s.invitations[id].revoked
               && now <= s.invitations[id].expires
            then
              && Enabled(t, Create(request, user)) && Enabled(Apply(t, Create(request, user)), Claim(request))
              && var u := Apply(Apply(t, Create(request, user)), Claim(request));
                 && u.requests == s.requests && u.accounts == s.accounts[user := id]
                 && u.invitations == s.invitations[id := s.invitations[id].(usedBy := Some(user))]
            else t == s
  {
    assert s.requests - {request} == s.requests;
  }

  /** A claimed or revoked invitation is settled: no later run changes who used it,
      not even by a request admitted before. */
  lemma {:induction false} SettledStays(s: State, run: seq<Action>, id: int)
    requires Legal(s, run) && id in s.invitations
    requires s.invitations[id].revoked || s.invitations[id].usedBy.Some?
    ensures id in After(s, run).invitations
    ensures After(s, run).invitations[id].revoked || After(s, run).invitations[id].usedBy.Some?
    ensures After(s, run).invitations[id].usedBy == s.invitations[id].usedBy
    decreases |run|
  {
    if run != [] { SettledStays(Apply(s, run[0]), run[1..], id); }
  }
}
