/**
 Account invitations and activation (crates/jeryu-core/src/engine/auth.rs).

 An invitation reserves a login. Its secret buys short-lived challenges, at most
 five attempts in all, and one challenge turns the invitation into an account.
 */
module Invitations {
  import opened Common
  import opened Accounts

  const MAX_ATTEMPTS: nat := 5
  const MAX_TTL: int := 24 * 60 * 60
  const CHALLENGE_TTL: int := 10 * 60

  type Team = (string, string)

  datatype Invitation = Invitation(
    login: Login, secretHash: string, role: Role, teams: set<Team>, expires: int,
    consumedAt: Option<int>, revokedAt: Option<int>, attempts: nat, bootstrap: bool)

  datatype Challenge = Challenge(invitation: nat, expires: int, consumedAt: Option<int>)

  /** `teams` holds the members of each team, `challenges` is keyed by challenge hash. */
  datatype Registry = Registry(
    accounts: map<Login, Account>, organizations: set<Login>, teams: map<Team, set<Login>>,
    invitations: map<nat, Invitation>, challenges: map<string, Challenge>, bootstrapConsumed: bool)

  datatype Failure = Malformed | Expiry | Conflict | NoTeam | Refused | Storage

  // ----- states of an invitation -----

  predicate Open(i: Invitation) {
    i.consumedAt.None? && i.revokedAt.None?
  }

  predicate Live(i: Invitation, now: int) {
    Open(i) && i.expires > now
  }

  predicate HasAdmin(r: Registry) {
    exists l :: l in r.accounts && r.accounts[l].role == Admin
  }

  predicate LiveFor(r: Registry, id: nat, login: Login, now: int) {
    id in r.invitations && r.invitations[id].login == login && Live(r.invitations[id], now)
  }

  predicate LiveBootstrap(r: Registry, id: nat, now: int) {
    id in r.invitations && r.invitations[id].bootstrap && Live(r.invitations[id], now)
  }

  /** Every open invitation past its expiry is revoked. */
  function RevokeExpired(invitations: map<nat, Invitation>, now: int): map<nat, Invitation> {
    map id | id in invitations ::
      if Open(invitations[id]) && invitations[id].expires <= now then invitations[id].(revokedAt := Some(now))
      else invitations[id]
  }

  function WithMember(teams: map<Team, set<Login>>, wanted: set<Team>, login: Login): map<Team, set<Login>> {
    map t | t in teams :: if t in wanted then teams[t] + {login} else teams[t]
  }

  // ----- what each call does -----

  /** `id` and the secret are fresh; `wellFormed` is the outcome of the checks on names. */
  function Create(r: Registry, id: nat, proposed: Invitation, wellFormed: bool, now: int, persisted: bool)
    : (Registry, Result<nat, Failure>)
  {
    if !wellFormed then (r, Err(Malformed))
    else if proposed.expires <= now || proposed.expires > now + MAX_TTL then (r, Err(Expiry))
    else if proposed.login in r.accounts || proposed.login in r.organizations then (r, Err(Conflict))
    else if proposed.bootstrap && (r.bootstrapConsumed || HasAdmin(r)) then (r, Err(Conflict))
    else if !(proposed.teams <= r.teams.Keys) then (r, Err(NoTeam))
    else if exists o :: o in r.invitations && LiveFor(r, o, proposed.login, now) then (r, Err(Conflict))
    else if proposed.bootstrap && exists o :: o in r.invitations && LiveBootstrap(r, o, now) then (r, Err(Conflict))
    else if !persisted then (r, Err(Storage))
    else
      (r.(invitations := RevokeExpired(r.invitations, now)
            [id := proposed.(consumedAt := None, revokedAt := None, attempts := 0)]), Ok(id))
  }

  function Revoke(r: Registry, id: nat, now: int, persisted: bool): (Registry, Result<bool, Failure>) {
    if !persisted then (r, Err(Storage))
    else if id in r.invitations && Open(r.invitations[id]) then
      (r.(invitations := r.invitations[id := r.invitations[id].(revokedAt := Some(now))]), Ok(true))
    else (r, Ok(false))
  }

  /**
   One attempt against the live invitation `id`. The attempt is counted and kept
   even when the secret is wrong and the call fails.
   */
  function Attempt(r: Registry, id: nat, suppliedHash: string, challengeHash: string, now: int, persisted: bool)
    : (Registry, Result<string, Failure>)
    requires id in r.invitations
  {
    var i := r.invitations[id];
    if i.attempts >= MAX_ATTEMPTS then (r, Err(Refused))
    else if !persisted then (r, Err(Storage))
    else
      var counted := r.(invitations := r.invitations[id := i.(attempts := i.attempts + 1)]);
      if suppliedHash != i.secretHash then (counted, Err(Refused))
      else
        (counted.(challenges := r.challenges[challengeHash := Challenge(id, now + CHALLENGE_TTL, None)]),
         Ok(challengeHash))
  }

  /** Whether a challenge may be turned into an account now. */
  predicate Completable(r: Registry, challenge: string, now: int) {
    && challenge in r.challenges
    && r.challenges[challenge].consumedAt.None? && r.challenges[challenge].expires > now
    && var id := r.challenges[challenge].invitation;
    && id in r.invitations
    && var i := r.invitations[id];
    && Live(i, now) && i.attempts <= MAX_ATTEMPTS
    && i.login !in r.accounts
    && i.teams <= r.teams.Keys
    && (i.bootstrap ==> !r.bootstrapConsumed && !HasAdmin(r))
  }

  /** The password check and the hashing come first and need no lock. */
  function Complete(r: Registry, challenge: string, passwordHash: Option<string>, now: int, persisted: bool)
    : (Registry, Result<Login, Failure>)
  {
    if passwordHash.None? then (r, Err(Malformed))
    else if !Completable(r, challenge, now) then (r, Err(Refused))
    else if !persisted then (r, Err(Storage))
    else
      var c := r.challenges[challenge];
      var i := r.invitations[c.invitation];
      (Registry(r.accounts[i.login := Account(passwordHash.value, i.role, PendingMfa, 0, false)],
                r.organizations,
                WithMember(r.teams, i.teams, i.login),
                r.invitations[c.invitation := i.(consumedAt := Some(now))],
                r.challenges[challenge := c.(consumedAt := Some(now))],
                r.bootstrapConsumed || i.bootstrap),
       Ok(i.login))
  }

  // ----- when the calls succeed -----

  /** Neither spent nor revoked, and not run out. */
  predicate StillGood(i: Invitation, now: int) {
    i.consumedAt == None && i.revokedAt == None && now < i.expires
  }

  /** The invitation can still be taken up now, said of its record and of the registry around it. */
  predicate StandsOpen(r: Registry, i: Invitation, now: int) {
    && StillGood(i, now) && i.attempts <= 5
    && i.login !in r.accounts && (forall t | t in i.teams :: t in r.teams)
    && (i.bootstrap ==> !r.bootstrapConsumed && forall l | l in r.accounts :: r.accounts[l].role != Admin)
  }

  /**
   A completion succeeds if and only if the password was hashed, the challenge
   is unspent and not run out, its invitation stands open and the state is stored.
   */
  lemma CompletesExactlyWhen(r: Registry, challenge: string, passwordHash: Option<string>, now: int, persisted: bool)
    ensures Complete(r, challenge, passwordHash, now, persisted).1.Ok? <==>
      && passwordHash.Some? && persisted
      && challenge in r.challenges
      && r.challenges[challenge].consumedAt == None && now < r.challenges[challenge].expires
      && r.challenges[challenge].invitation in r.invitations
      && StandsOpen(r, r.invitations[r.challenges[challenge].invitation], now)
  {
    hide WithMember;
  }

  /**
   An invitation is created if and only if it is well formed, lasts at most a
   day, nothing has its login, its teams exist, no good one is for the login,
   and, for a bootstrap, there is neither an administrator nor a good bootstrap.
   */
  lemma CreatesExactlyWhen(r: Registry, id: nat, proposed: Invitation, wellFormed: bool, now: int, persisted: bool)
    ensures Create(r, id, proposed, wellFormed, now, persisted).1.Ok? <==>
      && wellFormed && persisted && now < proposed.expires <= now + 24 * 60 * 60
      && proposed.login !in r.accounts && proposed.login !in r.organizations
      && (forall t | t in proposed.teams :: t in r.teams)
      && (forall o | o in r.invitations && r.invitations[o].login == proposed.login ::
            !StillGood(r.invitations[o], now))
      && (proposed.bootstrap ==>
            && !r.bootstrapConsumed && (forall l | l in r.accounts :: r.accounts[l].role != Admin)
            && forall o | o in r.invitations && r.invitations[o].bootstrap :: !StillGood(r.invitations[o], now))
  {
  }

  /** It comes in without an attempt; of the others exactly the unspent ones that have run out are revoked. */
  lemma CreationSweeps(r: Registry, id: nat, proposed: Invitation, wellFormed: bool, now: int, persisted: bool)
    requires Create(r, id, proposed, wellFormed, now, persisted).1.Ok? && id !in r.invitations
    ensures var r' := Create(r, id, proposed, wellFormed, now, persisted).0;
      && r' == r.(invitations := r'.invitations) && r'.invitations.Keys == r.invitations.Keys + {id}
      && r'.invitations[id] == proposed.(consumedAt := None, revokedAt := None, attempts := 0)
      && forall o | o in r.invitations ::
           var was := r.invitations[o];
           r'.invitations[o] == if was.consumedAt == None && was.revokedAt == None && was.expires <= now
                                then was.(revokedAt := Some(now)) else was
  {
    hide LiveFor, LiveBootstrap, HasAdmin;
  }

  /** A revocation takes what is neither spent nor revoked, run out or not, and tells whether it did. */
  lemma RevokesExactlyWhen(r: Registry, id: nat, now: int, persisted: bool)
    ensures var (r', outcome) := Revoke(r, id, now, persisted);
      var takes := id in r.invitations && r.invitations[id].consumedAt == None && r.invitations[id].revokedAt == None;
      && outcome == (if persisted then Ok(takes) else Err(Storage))
      && r' == if persisted && takes
               then r.(invitations := r.invitations[id := r.invitations[id].(revokedAt := Some(now))]) else r
  {
  }

  // ----- the invariant -----

  function ChallengesOf(r: Registry, id: nat): set<string> {
    set c | c in r.challenges && r.challenges[c].invitation == id
  }

  ghost predicate OneOpenPerLogin(r: Registry) {
    forall i, j | i in r.invitations && j in r.invitations && Open(r.invitations[i]) && Open(r.invitations[j])
                  && r.invitations[i].login == r.invitations[j].login :: i == j
  }

  ghost predicate OneOpenBootstrap(r: Registry) {
    forall i, j | i in r.invitations && j in r.invitations && Open(r.invitations[i]) && Open(r.invitations[j])
                  && r.invitations[i].bootstrap && r.invitations[j].bootstrap :: i == j
  }

  ghost predicate AttemptsBoundChallenges(r: Registry) {
    forall id | id in r.invitations ::
      r.invitations[id].attempts <= MAX_ATTEMPTS && |ChallengesOf(r, id)| <= r.invitations[id].attempts
  }

  ghost predicate ConsumedHaveAccounts(r: Registry) {
    forall id | id in r.invitations && r.invitations[id].consumedAt.Some? ::
      && r.invitations[id].login in r.accounts
      && (r.invitations[id].bootstrap ==> r.bootstrapConsumed)
  }

  ghost predicate OneConsumedBootstrap(r: Registry) {
    forall i, j | i in r.invitations && j in r.invitations
                  && r.invitations[i].consumedAt.Some? && r.invitations[j].consumedAt.Some?
                  && r.invitations[i].bootstrap && r.invitations[j].bootstrap :: i == j
  }

  /** A challenge belongs to an invitation, and is spent only together with it. */
  ghost predicate ChallengesMatch(r: Registry) {
    && (forall c | c in r.challenges :: r.challenges[c].invitation in r.invitations)
    && (forall c | c in r.challenges && r.challenges[c].consumedAt.Some? ::
          r.invitations[r.challenges[c].invitation].consumedAt == r.challenges[c].consumedAt)
    && (forall c, d | c in r.challenges && d in r.challenges && r.challenges[c].consumedAt.Some?
                      && r.challenges[d].consumedAt.Some?
                      && r.challenges[c].invitation == r.challenges[d].invitation :: c == d)
  }

  ghost predicate Inv(r: Registry) {
    && OneOpenPerLogin(r) && OneOpenBootstrap(r) && AttemptsBoundChallenges(r)
    && ConsumedHaveAccounts(r) && OneConsumedBootstrap(r) && ChallengesMatch(r)
  }

  /** So the search for a live invitation of a login has one possible answer. */
  lemma LiveIsUnique(r: Registry, id: nat, login: Login, now: int)
    requires OneOpenPerLogin(r) && LiveFor(r, id, login, now)
    ensures forall other :: LiveFor(r, other, login, now) ==> other == id
  {
  }

  // ----- the service -----

  class ForgeCore {
    var accounts: map<Login, Account>
    var organizations: set<Login>
    var teams: map<Team, set<Login>>
    var invitations: map<nat, Invitation>
    var challenges: map<string, Challenge>
    var bootstrapConsumed: bool

    constructor ()
      ensures Value() == Registry(map[], {}, map[], map[], map[], false)
    {
      accounts, organizations, teams := map[], {}, map[];
      invitations, challenges, bootstrapConsumed := map[], map[], false;
    }

    function Value(): Registry
      reads this
    {
      Registry(accounts, organizations, teams, invitations, challenges, bootstrapConsumed)
    }

    method Restore(previous: Registry)
      modifies this
      ensures Value() == previous
    {
      accounts, organizations, teams := previous.accounts, previous.organizations, previous.teams;
      invitations, challenges := previous.invitations, previous.challenges;
      bootstrapConsumed := previous.bootstrapConsumed;
    }

    method TeamsExist(wanted: set<Team>) returns (all: bool)
      ensures all <==> wanted <= teams.Keys
    {
      var rest := wanted;
      while rest != {}
        invariant rest <= wanted && wanted - rest <= teams.Keys
      {
        var team :| team in rest;
        if team !in teams {
          return false;
        }
        rest := rest - {team};
      }
      assert wanted - rest == wanted;
      all := true;
    }

    method RevokeAllExpired(now: int)
      modifies `invitations
      ensures invitations == RevokeExpired(old(invitations), now)
    {
      var expired := set id | id in invitations && Open(invitations[id]) && invitations[id].expires <= now;
      var rest := expired;
      while rest != {}
        invariant rest <= expired
        invariant invitations.Keys == old(invitations).Keys
        invariant forall id | id in old(invitations) ::
          invitations[id] == (if id in expired - rest then old(invitations)[id].(revokedAt := Some(now))
                              else old(invitations)[id])
      {
        var id :| id in rest;
        invitations := invitations[id := invitations[id].(revokedAt := Some(now))];
        rest := rest - {id};
      }
    }

    method CreateAccountInvitation(id: nat, proposed: Invitation, wellFormed: bool, now: int, persisted: bool)
      returns (r: Result<nat, Failure>)
      modifies this
      ensures (Value(), r) == Create(old(Value()), id, proposed, wellFormed, now, persisted)
    {
      if !wellFormed {
        return Err(Malformed);
      }
      if proposed.expires <= now {
        return Err(Expiry);
      }
      if proposed.expires > now + MAX_TTL {
        return Err(Expiry);
      }
      if proposed.login in accounts || proposed.login in organizations {
        return Err(Conflict);
      }
      if proposed.bootstrap && (bootstrapConsumed || exists l :: l in accounts && accounts[l].role == Admin) {
        return Err(Conflict);
      }
      var known := TeamsExist(proposed.teams);
      if !known {
        return Err(NoTeam);
      }
      if exists o :: o in invitations && LiveFor(Value(), o, proposed.login, now) {
        return Err(Conflict);
      }
      if proposed.bootstrap && exists o :: o in invitations && LiveBootstrap(Value(), o, now) {
        return Err(Conflict);
      }
      var previous := Value();
      RevokeAllExpired(now);
      invitations := invitations[id := proposed.(consumedAt := None, revokedAt := None, attempts := 0)];
      if !persisted {
        Restore(previous);
        return Err(Storage);
      }
      r := Ok(id);
    }

    method RevokeAccountInvitation(id: nat, now: int, persisted: bool) returns (r: Result<bool, Failure>)
      modifies this
      ensures (Value(), r) == Revoke(old(Value()), id, now, persisted)
    {
      var previous := Value();
      var revoked := false;
      if id in invitations && Open(invitations[id]) {
        invitations := invitations[id := invitations[id].(revokedAt := Some(now))];
        revoked := true;
      }
      if !persisted {
        Restore(previous);
        return Err(Storage);
      }
      r := Ok(revoked);
    }

    /** The search finds the one live invitation of the login, if there is one. */
    method StartAccountActivation(login: Login, wellFormed: bool, suppliedHash: string, challengeHash: string,
                                  now: int, persisted: bool)
      returns (r: Result<string, Failure>)
      requires Inv(Value())
      modifies this
      ensures (!wellFormed || forall id :: !LiveFor(old(Value()), id, login, now)) ==> r == Err(Refused)
      ensures (!wellFormed || forall id :: !LiveFor(old(Value()), id, login, now)) ==> Value() == old(Value())
      ensures forall id | LiveFor(old(Value()), id, login, now) ::
        wellFormed ==> (Value(), r) == Attempt(old(Value()), id, suppliedHash, challengeHash, now, persisted)
    {
      if !wellFormed {
        return Err(Refused);
      }
      if !exists id :: id in invitations && invitations[id].login == login && Live(invitations[id], now) {
        assert forall id :: !LiveFor(Value(), id, login, now);
        return Err(Refused);
      }
      var id :| id in invitations && invitations[id].login == login && Live(invitations[id], now);
      var previous := Value();
      assert previous == old(Value()) && LiveFor(previous, id, login, now);
      LiveIsUnique(previous, id, login, now);
      hide Inv, LiveFor;
      var invitation := invitations[id];
      if invitation.attempts >= MAX_ATTEMPTS {
        return Err(Refused);
      }
      invitations := invitations[id := invitation.(attempts := invitation.attempts + 1)];
      if suppliedHash != invitation.secretHash {
        if !persisted {
          Restore(previous);
          return Err(Storage);
        }
        assert Value() == previous.(invitations := invitations);
        return Err(Refused);
      }
      challenges := challenges[challengeHash := Challenge(id, now + CHALLENGE_TTL, None)];
      if !persisted {
        Restore(previous);
        return Err(Storage);
      }
      r := Ok(challengeHash);
    }

    method AddToTeams(wanted: set<Team>, login: Login)
      requires wanted <= teams.Keys
      modifies `teams
      ensures teams == WithMember(old(teams), wanted, login)
    {
      var rest := wanted;
      while rest != {}
        invariant rest <= wanted
        invariant teams.Keys == old(teams).Keys
        invariant forall t | t in old(teams) ::
          teams[t] == (if t in wanted - rest then old(teams)[t] + {login} else old(teams)[t])
      {
        var team :| team in rest;
        if login !in teams[team] {
          teams := teams[team := teams[team] + {login}];
        }
        rest := rest - {team};
      }
    }

    method CompleteAccountActivation(challenge: string, passwordHash: Option<string>, now: int, persisted: bool)
      returns (r: Result<Login, Failure>)
      modifies this
      ensures (Value(), r) == Complete(old(Value()), challenge, passwordHash, now, persisted)
    {
      if passwordHash.None? {
        return Err(Malformed);
      }
      if challenge !in challenges || challenges[challenge].consumedAt.Some? || challenges[challenge].expires <= now {
        return Err(Refused);
      }
      var record := challenges[challenge];
      if record.invitation !in invitations {
        return Err(Refused);
      }
      var invitation := invitations[record.invitation];
      if !Live(invitation, now) || invitation.attempts > MAX_ATTEMPTS {
        return Err(Refused);
      }
      if invitation.login in accounts {
        return Err(Refused);
      }
      var known := TeamsExist(invitation.teams);
      if !known {
        return Err(Refused);
      }
      if invitation.bootstrap && (bootstrapConsumed || exists l :: l in accounts && accounts[l].role == Admin) {
        return Err(Refused);
      }
      var previous := Value();
      challenges := challenges[challenge := record.(consumedAt := Some(now))];
      invitations := invitations[record.invitation := invitation.(consumedAt := Some(now))];
      AddToTeams(invitation.teams, invitation.login);
      if invitation.bootstrap {
        bootstrapConsumed := true;
      }
      accounts := accounts[invitation.login := Account(passwordHash.value, invitation.role, PendingMfa, 0, false)];
      if !persisted {
        Restore(previous);
        return Err(Storage);
      }
      r := Ok(invitation.login);
    }
  }
}
