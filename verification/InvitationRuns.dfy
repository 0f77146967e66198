/**
 Every run of invitation calls (crates/jeryu-core/src/engine/auth.rs), mixed with
 whatever else creates accounts, organizations and teams meanwhile.
 */
module InvitationRuns {
  import opened Common
  import opened Accounts
  import opened Invitations

  datatype Action =
    | Invite(id: nat, proposed: Invitation, wellFormed: bool, now: int, persisted: bool)
    | RevokeOne(id: nat, now: int, persisted: bool)
    | Start(id: nat, suppliedHash: string, challengeHash: string, now: int, persisted: bool)
    | Finish(challenge: string, passwordHash: Option<string>, now: int, persisted: bool)
    | Elsewhere(accounts: map<Login, Account>, organizations: set<Login>, teams: map<Team, set<Login>>)

  /** `finished` lists the challenges whose activation succeeded, in order, with their invitations. */
  datatype World = World(registry: Registry, finished: seq<(string, nat)>)

  /**
   Ids and challenges are freshly drawn, an activation starts at the live
   invitation it found, and no account is ever removed.
   */
  predicate Possible(r: Registry, a: Action) {
    match a
    case Invite(id, _, _, _, _) => id !in r.invitations
    case Start(id, _, challengeHash, now, _) =>
      id in r.invitations && Live(r.invitations[id], now) && challengeHash !in r.challenges
    case Elsewhere(accounts, _, _) => r.accounts.Keys <= accounts.Keys
    case _ => true
  }

  function After(r: Registry, a: Action): Registry
    requires Possible(r, a)
  {
    match a
    case Invite(id, proposed, wellFormed, now, persisted) => Create(r, id, proposed, wellFormed, now, persisted).0
    case RevokeOne(id, now, persisted) => Revoke(r, id, now, persisted).0
    case Start(id, supplied, challenge, now, persisted) => Attempt(r, id, supplied, challenge, now, persisted).0
    case Finish(challenge, hash, now, persisted) => Complete(r, challenge, hash, now, persisted).0
    case Elsewhere(accounts, organizations, teams) =>
      r.(accounts := accounts, organizations := organizations, teams := teams)
  }

  predicate Finishes(r: Registry, a: Action) {
    a.Finish? && Complete(r, a.challenge, a.passwordHash, a.now, a.persisted).1.Ok?
  }

  function Apply(w: World, a: Action): World
    requires Possible(w.registry, a)
  {
    World(After(w.registry, a),
          if Finishes(w.registry, a) then w.finished + [(a.challenge, w.registry.challenges[a.challenge].invitation)]
          else w.finished)
  }

  predicate PossibleRun(w: World, actions: seq<Action>)
    decreases |actions|
  {
    actions == [] || (Possible(w.registry, actions[0]) && PossibleRun(Apply(w, actions[0]), actions[1..]))
  }

  function Run(w: World, actions: seq<Action>): World
    requires PossibleRun(w, actions)
    decreases |actions|
  {
    if actions == [] then w else Run(Apply(w, actions[0]), actions[1..])
  }

  const START: World := World(Registry(map[], {}, map[], map[], map[], false), [])

  // ----- one action keeps the invariant -----

  /** Invitations keep their login and purpose, and none opens again. */
  ghost predicate OnlyCloses(r: Registry, r': Registry) {
    forall id | id in r'.invitations :: id in r.invitations
      && r'.invitations[id].login == r.invitations[id].login
      && r'.invitations[id].bootstrap == r.invitations[id].bootstrap
      && (Open(r'.invitations[id]) ==> Open(r.invitations[id]))
  }

  lemma ClosingKeepsOpenUnique(r: Registry, r': Registry)
    requires OneOpenPerLogin(r) && OneOpenBootstrap(r) && OnlyCloses(r, r')
    ensures OneOpenPerLogin(r') && OneOpenBootstrap(r')
  {
    hide Open;
  }

  lemma SameChallengesStayBounded(r: Registry, r': Registry)
    requires AttemptsBoundChallenges(r) && r'.invitations.Keys == r.invitations.Keys
    requires forall c | c in r'.challenges :: c in r.challenges
               && r'.challenges[c].invitation == r.challenges[c].invitation
    requires r'.challenges.Keys == r.challenges.Keys
    requires forall id | id in r.invitations ::
               r.invitations[id].attempts <= r'.invitations[id].attempts <= MAX_ATTEMPTS
    ensures AttemptsBoundChallenges(r')
  {
    assert forall id :: ChallengesOf(r', id) == ChallengesOf(r, id);
  }

  /** Nothing is consumed, and challenges stay as they are. */
  ghost predicate ConsumesNothing(r: Registry, r': Registry) {
    && r'.challenges == r.challenges && r'.accounts == r.accounts && r'.bootstrapConsumed == r.bootstrapConsumed
    && r'.invitations.Keys == r.invitations.Keys
    && (forall id | id in r.invitations ::
          && r'.invitations[id].login == r.invitations[id].login
          && r'.invitations[id].bootstrap == r.invitations[id].bootstrap
          && r'.invitations[id].consumedAt == r.invitations[id].consumedAt
          && r.invitations[id].attempts <= r'.invitations[id].attempts
          && (Open(r'.invitations[id]) ==> Open(r.invitations[id])))
  }

  lemma ConsumingNothingKeepsMatches(r: Registry, r': Registry)
    requires ConsumedHaveAccounts(r) && OneConsumedBootstrap(r) && ChallengesMatch(r) && ConsumesNothing(r, r')
    ensures ConsumedHaveAccounts(r') && OneConsumedBootstrap(r') && ChallengesMatch(r')
  {
    hide Open;
  }

  lemma ConsumingNothingKeepsInv(r: Registry, r': Registry)
    requires Inv(r) && ConsumesNothing(r, r')
    requires forall id | id in r'.invitations :: r'.invitations[id].attempts <= MAX_ATTEMPTS
    ensures Inv(r')
  {
    hide OneOpenPerLogin, OneOpenBootstrap, AttemptsBoundChallenges, Open;
    hide ConsumedHaveAccounts, OneConsumedBootstrap, ChallengesMatch;
    ClosingKeepsOpenUnique(r, r');
    SameChallengesStayBounded(r, r');
    ConsumingNothingKeepsMatches(r, r');
  }

  // -- a new invitation --

  /** The registry before the new invitation goes in: expired ones are revoked. */
  lemma CreateIsRevokeThenAdd(r: Registry, id: nat, proposed: Invitation, wellFormed: bool, now: int, persisted: bool)
    requires id !in r.invitations
    ensures var r' := Create(r, id, proposed, wellFormed, now, persisted).0;
      r' == r || (var swept := r.(invitations := RevokeExpired(r.invitations, now));
                  && r' == swept.(invitations := swept.invitations
                                    [id := proposed.(consumedAt := None, revokedAt := None, attempts := 0)])
                  && (forall o :: !LiveFor(r, o, proposed.login, now))
                  && (proposed.bootstrap ==> forall o :: !LiveBootstrap(r, o, now)))
  {
    hide Live, RevokeExpired;
  }

  lemma SweptIsClosed(r: Registry, now: int)
    requires Inv(r)
    ensures var swept := r.(invitations := RevokeExpired(r.invitations, now));
      && Inv(swept)
      && (forall o | o in swept.invitations && Open(swept.invitations[o]) ::
            swept.invitations[o] == r.invitations[o] && Live(r.invitations[o], now))
  {
    var swept := r.(invitations := RevokeExpired(r.invitations, now));
    assert ConsumesNothing(r, swept) by { hide Inv; }
    assert forall id | id in swept.invitations :: swept.invitations[id].attempts <= MAX_ATTEMPTS by {
      hide OneOpenPerLogin, OneOpenBootstrap, ConsumedHaveAccounts, OneConsumedBootstrap, ChallengesMatch;
    }
    ConsumingNothingKeepsInv(r, swept) by { hide RevokeExpired; }
    hide Inv;
  }

  function Added(r: Registry, id: nat, added: Invitation): Registry {
    r.(invitations := r.invitations[id := added])
  }

  lemma AddingKeepsOneOpen(r: Registry, id: nat, added: Invitation)
    requires OneOpenPerLogin(r) && id !in r.invitations
    requires forall o | o in r.invitations && Open(r.invitations[o]) :: r.invitations[o].login != added.login
    ensures OneOpenPerLogin(Added(r, id, added))
  {
    hide Open;
  }

  lemma AddingKeepsOneBootstrap(r: Registry, id: nat, added: Invitation)
    requires OneOpenBootstrap(r) && id !in r.invitations
    requires added.bootstrap ==> forall o | o in r.invitations && Open(r.invitations[o]) :: !r.invitations[o].bootstrap
    ensures OneOpenBootstrap(Added(r, id, added))
  {
    hide Open;
  }

  lemma AddingKeepsConsumed(r: Registry, id: nat, added: Invitation)
    requires ConsumedHaveAccounts(r) && OneConsumedBootstrap(r) && id !in r.invitations && added.consumedAt.None?
    ensures ConsumedHaveAccounts(Added(r, id, added)) && OneConsumedBootstrap(Added(r, id, added))
  {
  }

  lemma AddingKeepsMatch(r: Registry, id: nat, added: Invitation)
    requires ChallengesMatch(r) && id !in r.invitations
    ensures ChallengesMatch(Added(r, id, added))
  {
  }

  lemma AddingKeepsBounds(r: Registry, id: nat, added: Invitation)
    requires AttemptsBoundChallenges(r) && ChallengesMatch(r) && id !in r.invitations && added.attempts == 0
    ensures AttemptsBoundChallenges(Added(r, id, added))
  {
    var r' := Added(r, id, added);
    assert ChallengesOf(r', id) == {};
    forall other | other in r.invitations ensures |ChallengesOf(r', other)| <= r.invitations[other].attempts {
      assert ChallengesOf(r', other) == ChallengesOf(r, other);
    }
  }

  lemma AddingKeepsInv(r: Registry, id: nat, added: Invitation)
    requires Inv(r) && id !in r.invitations && Open(added) && added.attempts == 0
    requires forall o | o in r.invitations && Open(r.invitations[o]) :: r.invitations[o].login != added.login
    requires added.bootstrap ==> forall o | o in r.invitations && Open(r.invitations[o]) :: !r.invitations[o].bootstrap
    ensures Inv(Added(r, id, added))
  {
    hide OneOpenPerLogin, OneOpenBootstrap, ConsumedHaveAccounts, OneConsumedBootstrap, ChallengesMatch;
    hide AttemptsBoundChallenges, Added;
    AddingKeepsOneOpen(r, id, added);
    AddingKeepsOneBootstrap(r, id, added);
    AddingKeepsConsumed(r, id, added);
    AddingKeepsMatch(r, id, added);
    AddingKeepsBounds(r, id, added);
  }

  lemma CreateKeepsInv(r: Registry, id: nat, proposed: Invitation, wellFormed: bool, now: int, persisted: bool)
    requires Inv(r) && id !in r.invitations
    ensures Inv(Create(r, id, proposed, wellFormed, now, persisted).0)
  {
    CreateIsRevokeThenAdd(r, id, proposed, wellFormed, now, persisted);
    SweptIsClosed(r, now);
    hide Inv, Create, RevokeExpired;
    var r' := Create(r, id, proposed, wellFormed, now, persisted).0;
    if r' != r {
      var swept := r.(invitations := RevokeExpired(r.invitations, now));
      var added := proposed.(consumedAt := None, revokedAt := None, attempts := 0);
      forall o | o in swept.invitations && Open(swept.invitations[o])
        ensures swept.invitations[o].login != added.login
        ensures added.bootstrap ==> !swept.invitations[o].bootstrap
      {
        assert !LiveFor(r, o, proposed.login, now);
        assert proposed.bootstrap ==> !LiveBootstrap(r, o, now);
      }
      AddingKeepsInv(swept, id, added);
    }
  }

  // -- a revocation --

  lemma RevokingConsumesNothing(r: Registry, id: nat, now: int, persisted: bool)
    ensures ConsumesNothing(r, Revoke(r, id, now, persisted).0)
  {
  }

  lemma InvBoundsAttempts(r: Registry)
    requires Inv(r)
    ensures forall o | o in r.invitations :: r.invitations[o].attempts <= MAX_ATTEMPTS
  {
    hide OneOpenPerLogin, OneOpenBootstrap, ConsumedHaveAccounts, OneConsumedBootstrap, ChallengesMatch;
  }

  lemma RevokeKeepsInv(r: Registry, id: nat, now: int, persisted: bool)
    requires Inv(r)
    ensures Inv(Revoke(r, id, now, persisted).0)
  {
    hide Inv;
    var r' := Revoke(r, id, now, persisted).0;
    RevokingConsumesNothing(r, id, now, persisted);
    InvBoundsAttempts(r);
    assert forall o | o in r'.invitations :: r'.invitations[o].attempts <= MAX_ATTEMPTS;
    hide Revoke;
    ConsumingNothingKeepsInv(r, r');
  }

  // -- an attempt --

  lemma CountingKeepsInv(r: Registry, id: nat)
    requires Inv(r) && id in r.invitations && Open(r.invitations[id]) && r.invitations[id].attempts < MAX_ATTEMPTS
    ensures Inv(Counted(r, id))
    ensures |ChallengesOf(Counted(r, id), id)| < Counted(r, id).invitations[id].attempts
  {
    hide OneOpenPerLogin, OneOpenBootstrap, ConsumedHaveAccounts, OneConsumedBootstrap, ChallengesMatch;
    var r' := Counted(r, id);
    assert ChallengesOf(r', id) == ChallengesOf(r, id);
    ConsumingNothingKeepsInv(r, r') by { hide ChallengesOf; }
    hide Inv;
  }

  function Counted(r: Registry, id: nat): Registry
    requires id in r.invitations
  {
    r.(invitations := r.invitations[id := r.invitations[id].(attempts := r.invitations[id].attempts + 1)])
  }

  lemma IssuingKeepsInv(r: Registry, id: nat, challenge: string, expires: int)
    requires Inv(r) && id in r.invitations && challenge !in r.challenges
    requires |ChallengesOf(r, id)| < r.invitations[id].attempts
    ensures Inv(r.(challenges := r.challenges[challenge := Challenge(id, expires, None)]))
  {
    var r' := r.(challenges := r.challenges[challenge := Challenge(id, expires, None)]);
    hide OneOpenPerLogin, OneOpenBootstrap, ConsumedHaveAccounts, OneConsumedBootstrap;
    hide ChallengesMatch, AttemptsBoundChallenges;
    SameInvitationsKeepRest(r, r');
    IssuingKeepsMatch(r, id, challenge, expires);
    IssuingKeepsBounds(r, id, challenge, expires);
  }

  lemma IssuingKeepsMatch(r: Registry, id: nat, challenge: string, expires: int)
    requires ChallengesMatch(r) && id in r.invitations && challenge !in r.challenges
    ensures ChallengesMatch(r.(challenges := r.challenges[challenge := Challenge(id, expires, None)]))
  {
  }

  lemma IssuingKeepsBounds(r: Registry, id: nat, challenge: string, expires: int)
    requires AttemptsBoundChallenges(r) && id in r.invitations && challenge !in r.challenges
    requires |ChallengesOf(r, id)| < r.invitations[id].attempts
    ensures AttemptsBoundChallenges(r.(challenges := r.challenges[challenge := Challenge(id, expires, None)]))
  {
    var r' := r.(challenges := r.challenges[challenge := Challenge(id, expires, None)]);
    forall other | other in r.invitations
      ensures |ChallengesOf(r', other)| <= r.invitations[other].attempts
    {
      ChallengesAfterIssue(r, id, challenge, expires, other);
      hide ChallengesOf;
    }
  }

  lemma ChallengesAfterIssue(r: Registry, id: nat, challenge: string, expires: int, other: nat)
    requires challenge !in r.challenges
    ensures var r' := r.(challenges := r.challenges[challenge := Challenge(id, expires, None)]);
      ChallengesOf(r', other) == ChallengesOf(r, other) + if other == id then {challenge} else {}
  {
  }

  lemma SameInvitationsKeepRest(r: Registry, r': Registry)
    requires OneOpenPerLogin(r) && OneOpenBootstrap(r) && ConsumedHaveAccounts(r) && OneConsumedBootstrap(r)
    requires r' == r.(challenges := r'.challenges)
    ensures OneOpenPerLogin(r') && OneOpenBootstrap(r') && ConsumedHaveAccounts(r') && OneConsumedBootstrap(r')
  {
  }

  lemma AttemptKeepsInv(r: Registry, id: nat, supplied: string, challenge: string, now: int, persisted: bool)
    requires Inv(r) && id in r.invitations && Live(r.invitations[id], now) && challenge !in r.challenges
    ensures Inv(Attempt(r, id, supplied, challenge, now, persisted).0)
  {
    hide Inv, ChallengesOf;
    if r.invitations[id].attempts < MAX_ATTEMPTS {
      CountingKeepsInv(r, id);
      IssuingKeepsInv(Counted(r, id), id, challenge, now + CHALLENGE_TTL);
    }
  }

  // -- a completion --

  lemma CompleteKeepsOpen(r: Registry, challenge: string, hash: Option<string>, now: int, persisted: bool)
    requires OneOpenPerLogin(r) && OneOpenBootstrap(r) && AttemptsBoundChallenges(r)
    ensures var r' := Complete(r, challenge, hash, now, persisted).0;
      OneOpenPerLogin(r') && OneOpenBootstrap(r') && AttemptsBoundChallenges(r')
  {
    var r' := Complete(r, challenge, hash, now, persisted).0;
    hide WithMember;
    ClosingKeepsOpenUnique(r, r');
    SameChallengesStayBounded(r, r') by { hide OneOpenPerLogin, OneOpenBootstrap; }
    hide OneOpenPerLogin, OneOpenBootstrap, AttemptsBoundChallenges;
  }

  lemma CompleteKeepsConsumed(r: Registry, challenge: string, hash: Option<string>, now: int, persisted: bool)
    requires ConsumedHaveAccounts(r) && OneConsumedBootstrap(r)
    ensures var r' := Complete(r, challenge, hash, now, persisted).0;
      ConsumedHaveAccounts(r') && OneConsumedBootstrap(r')
  {
    hide WithMember, HasAdmin;
  }

  lemma CompleteKeepsMatch(r: Registry, challenge: string, hash: Option<string>, now: int, persisted: bool)
    requires ChallengesMatch(r)
    ensures ChallengesMatch(Complete(r, challenge, hash, now, persisted).0)
  {
    hide WithMember, HasAdmin;
  }

  lemma CompleteKeepsInv(r: Registry, challenge: string, hash: Option<string>, now: int, persisted: bool)
    requires Inv(r)
    ensures Inv(Complete(r, challenge, hash, now, persisted).0)
  {
    hide Complete, OneOpenPerLogin, OneOpenBootstrap, AttemptsBoundChallenges;
    hide ConsumedHaveAccounts, OneConsumedBootstrap, ChallengesMatch;
    CompleteKeepsOpen(r, challenge, hash, now, persisted);
    CompleteKeepsConsumed(r, challenge, hash, now, persisted);
    CompleteKeepsMatch(r, challenge, hash, now, persisted);
  }

  lemma AccountsElsewhereKeepInv(r: Registry, r': Registry)
    requires Inv(r) && r.accounts.Keys <= r'.accounts.Keys
    requires r' == r.(accounts := r'.accounts, organizations := r'.organizations, teams := r'.teams)
    ensures Inv(r')
  {
    assert forall id :: ChallengesOf(r', id) == ChallengesOf(r, id);
  }

  lemma AfterKeepsInv(r: Registry, a: Action)
    requires Inv(r) && Possible(r, a)
    ensures Inv(After(r, a))
  {
    hide Inv, Create, Revoke, Attempt, Complete;
    match a {
      case Invite(id, proposed, wellFormed, now, persisted) =>
        CreateKeepsInv(r, id, proposed, wellFormed, now, persisted);
      case RevokeOne(id, now, persisted) =>
        RevokeKeepsInv(r, id, now, persisted);
      case Start(id, supplied, challenge, now, persisted) =>
        AttemptKeepsInv(r, id, supplied, challenge, now, persisted);
      case Finish(challenge, hash, now, persisted) =>
        CompleteKeepsInv(r, challenge, hash, now, persisted);
      case Elsewhere(_, _, _) =>
        AccountsElsewhereKeepInv(r, After(r, a));
    }
  }

  // ----- consumption is for good -----

  /** Consumed invitations and challenges stay as they are, and attempts are never taken back. */
  ghost predicate Advances(r: Registry, r': Registry) {
    && (forall id | id in r.invitations :: id in r'.invitations
          && r'.invitations[id].login == r.invitations[id].login
          && r'.invitations[id].bootstrap == r.invitations[id].bootstrap
          && r.invitations[id].attempts <= r'.invitations[id].attempts
          && (r.invitations[id].consumedAt.Some? ==> r'.invitations[id] == r.invitations[id])
          && (r.invitations[id].revokedAt.Some? ==> r'.invitations[id] == r.invitations[id]))
    && (forall c | c in r.challenges :: c in r'.challenges
          && r'.challenges[c].invitation == r.challenges[c].invitation
          && (r.challenges[c].consumedAt.Some? ==> r'.challenges[c] == r.challenges[c]))
    && (r.bootstrapConsumed ==> r'.bootstrapConsumed)
  }

  lemma CreateAdvances(r: Registry, id: nat, proposed: Invitation, wellFormed: bool, now: int, persisted: bool)
    requires id !in r.invitations
    ensures Advances(r, Create(r, id, proposed, wellFormed, now, persisted).0)
  {
    CreateIsRevokeThenAdd(r, id, proposed, wellFormed, now, persisted);
    hide Create, LiveFor, LiveBootstrap;
  }

  lemma CompleteAdvances(r: Registry, challenge: string, hash: Option<string>, now: int, persisted: bool)
    ensures Advances(r, Complete(r, challenge, hash, now, persisted).0)
  {
    hide HasAdmin, WithMember;
  }

  lemma RevokeAdvances(r: Registry, id: nat, now: int, persisted: bool)
    ensures Advances(r, Revoke(r, id, now, persisted).0)
  {
  }

  lemma AttemptAdvances(r: Registry, id: nat, supplied: string, challenge: string, now: int, persisted: bool)
    requires id in r.invitations && Live(r.invitations[id], now) && challenge !in r.challenges
    ensures Advances(r, Attempt(r, id, supplied, challenge, now, persisted).0)
  {
  }

  lemma AfterAdvances(r: Registry, a: Action)
    requires Possible(r, a)
    ensures Advances(r, After(r, a))
  {
    hide Create, Revoke, Attempt, Complete;
    match a {
      case Invite(id, proposed, wellFormed, now, persisted) =>
        CreateAdvances(r, id, proposed, wellFormed, now, persisted);
        hide Advances;
      case RevokeOne(id, now, persisted) =>
        RevokeAdvances(r, id, now, persisted);
        hide Advances;
      case Start(id, supplied, challenge, now, persisted) =>
        AttemptAdvances(r, id, supplied, challenge, now, persisted);
        hide Advances;
      case Finish(challenge, hash, now, persisted) =>
        CompleteAdvances(r, challenge, hash, now, persisted);
        hide Advances;
      case Elsewhere(_, _, _) =>
    }
  }

  /** A past success: its challenge and its invitation are consumed. */
  predicate Spent(r: Registry, success: (string, nat)) {
    && success.0 in r.challenges && r.challenges[success.0].consumedAt.Some?
    && r.challenges[success.0].invitation == success.1
    && success.1 in r.invitations && r.invitations[success.1].consumedAt.Some?
  }

  ghost predicate AllDistinct(finished: seq<(string, nat)>) {
    forall j, k | 0 <= j < k < |finished| :: finished[j].0 != finished[k].0 && finished[j].1 != finished[k].1
  }

  /** Each past success is spent, and no two share a challenge or an invitation. */
  ghost predicate HistoryInv(w: World) {
    && (forall k | 0 <= k < |w.finished| :: Spent(w.registry, w.finished[k]))
    && AllDistinct(w.finished)
  }

  lemma SpentStays(r: Registry, r': Registry, success: (string, nat))
    requires Spent(r, success) && Advances(r, r')
    ensures Spent(r', success)
  {
  }

  /** What a success consumes was not consumed before, and is afterwards. */
  lemma FinishConsumes(r: Registry, a: Action)
    requires ChallengesMatch(r) && Finishes(r, a)
    ensures a.challenge in r.challenges && r.challenges[a.challenge].consumedAt.None?
    ensures var id := r.challenges[a.challenge].invitation;
      && id in r.invitations && r.invitations[id].consumedAt.None?
      && id in After(r, a).invitations && After(r, a).invitations[id].consumedAt.Some?
      && a.challenge in After(r, a).challenges && After(r, a).challenges[a.challenge].consumedAt.Some?
      && After(r, a).challenges[a.challenge].invitation == id
  {
    hide HasAdmin, WithMember;
  }

  lemma AddingKeepsDistinct(finished: seq<(string, nat)>, success: (string, nat))
    requires AllDistinct(finished)
    requires forall k | 0 <= k < |finished| :: finished[k].0 != success.0 && finished[k].1 != success.1
    ensures AllDistinct(finished + [success])
  {
  }

  lemma ApplyKeepsHistory(w: World, a: Action)
    requires Inv(w.registry) && HistoryInv(w) && Possible(w.registry, a)
    ensures HistoryInv(Apply(w, a))
  {
    var w' := Apply(w, a);
    AfterAdvances(w.registry, a);
    if Finishes(w.registry, a) {
      FinishConsumes(w.registry, a);
      var success := (a.challenge, w.registry.challenges[a.challenge].invitation);
      assert Spent(w'.registry, success);
      hide Inv, Possible, After, Finishes, Advances;
      forall k | 0 <= k < |w.finished| ensures w.finished[k].0 != success.0 && w.finished[k].1 != success.1 {
        assert Spent(w.registry, w.finished[k]);
      }
      AddingKeepsDistinct(w.finished, success);
    }
    hide Inv, Possible, After, Finishes, Advances, AllDistinct;
    forall k | 0 <= k < |w.finished| ensures Spent(w'.registry, w.finished[k]) {
      SpentStays(w.registry, w'.registry, w.finished[k]);
    }
    hide Spent;
  }

  lemma {:induction false} RunKeepsInv(w: World, actions: seq<Action>)
    requires Inv(w.registry) && HistoryInv(w) && PossibleRun(w, actions)
    ensures Inv(Run(w, actions).registry) && HistoryInv(Run(w, actions))
    decreases |actions|
  {
    hide Inv, HistoryInv, After, Finishes;
    if actions != [] {
      AfterKeepsInv(w.registry, actions[0]);
      ApplyKeepsHistory(w, actions[0]);
      RunKeepsInv(Apply(w, actions[0]), actions[1..]);
    }
  }

  // ----- the theorems -----

  /**
   In every reachable state a login has at most one open invitation, there is
   at most one open bootstrap invitation, no invitation sees more than five
   attempts or more challenges than attempts, and a consumed one has its account.
   */
  lemma InvitationsStayInBounds(actions: seq<Action>)
    requires PossibleRun(START, actions)
    ensures var r := Run(START, actions).registry;
      && OneOpenPerLogin(r) && OneOpenBootstrap(r) && AttemptsBoundChallenges(r) && ConsumedHaveAccounts(r)
      && forall id | id in r.invitations :: r.invitations[id].attempts <= 5
  {
    RunKeepsInv(START, actions);
  }

  /**
   Over a whole run no invitation and no challenge completes an activation
   twice, and at most one bootstrap owner is ever activated.
   */
  lemma ActivationsHappenOnce(actions: seq<Action>, j: nat, k: nat)
    requires PossibleRun(START, actions)
    requires j < k < |Run(START, actions).finished|
    ensures var w := Run(START, actions);
      && w.finished[j].0 != w.finished[k].0 && w.finished[j].1 != w.finished[k].1
      && w.finished[j].1 in w.registry.invitations && w.finished[k].1 in w.registry.invitations
      && !(w.registry.invitations[w.finished[j].1].bootstrap && w.registry.invitations[w.finished[k].1].bootstrap)
  {
    RunKeepsInv(START, actions);
    hide Run;
  }

  // ----- what an attempt and an activation are worth -----

  /** Only the invitation's own secret buys a challenge, for ten minutes, and only five attempts are ever counted. */
  lemma OnlyTheSecretBuysAChallenge(r: Registry, id: nat, supplied: string, challenge: string, now: int,
                                    persisted: bool)
    requires id in r.invitations && challenge !in r.challenges
    ensures var (r', outcome) := Attempt(r, id, supplied, challenge, now, persisted);
      var counts := persisted && r.invitations[id].attempts < 5;
      && (outcome.Ok? <==> counts && supplied == r.invitations[id].secretHash)
      && (challenge in r'.challenges <==> outcome.Ok?)
      && (outcome.Ok? ==> r'.challenges[challenge] == Challenge(id, now + 10 * 60, None))
      && r'.invitations[id] == r.invitations[id].(attempts := r.invitations[id].attempts + if counts then 1 else 0)
      && r'.invitations.Keys == r.invitations.Keys
      && r' == r.(invitations := r'.invitations, challenges := r'.challenges)
      && (forall c | c in r.challenges :: c in r'.challenges && r'.challenges[c] == r.challenges[c])
      && (forall other | other in r.invitations && other != id :: r'.invitations[other] == r.invitations[other])
  {
  }

  /** An activation grants the intended role and teams to a pending account, and nothing to anyone else. */
  lemma ActivationGrantsWhatWasIntended(r: Registry, challenge: string, hash: Option<string>, now: int, persisted: bool)
    requires Complete(r, challenge, hash, now, persisted).1.Ok?
    ensures challenge in r.challenges && r.challenges[challenge].invitation in r.invitations
    ensures var r' := Complete(r, challenge, hash, now, persisted).0;
      var id := r.challenges[challenge].invitation;
      var i := r.invitations[id];
      && i.login !in r.accounts && hash.Some?
      && Complete(r, challenge, hash, now, persisted).1 == Ok(i.login)
      && r'.accounts == r.accounts[i.login := Account(hash.value, i.role, PendingMfa, 0, false)]
      && r'.organizations == r.organizations && r'.teams.Keys == r.teams.Keys
      && (forall t | t in r.teams :: r'.teams[t] == r.teams[t] + (if t in i.teams then {i.login} else {}))
      && r'.invitations == r.invitations[id := i.(consumedAt := Some(now))]
      && r'.challenges == r.challenges[challenge := r.challenges[challenge].(consumedAt := Some(now))]
      && (r'.bootstrapConsumed <==> r.bootstrapConsumed || i.bootstrap)
  {
    hide HasAdmin;
  }

  /** The action buys challenge `c`: one of the first five attempts, with the secret of a live invitation. */
  predicate Buys(r: Registry, a: Action, c: string)
    requires Possible(r, a)
  {
    && a.Start? && a.challengeHash == c && Live(r.invitations[a.id], a.now)
    && a.suppliedHash == r.invitations[a.id].secretHash && r.invitations[a.id].attempts < 5
    && c in After(r, a).challenges && After(r, a).challenges[c] == Challenge(a.id, a.now + 10 * 60, None)
  }

  predicate BoughtDuring(w: World, actions: seq<Action>, c: string)
    requires PossibleRun(w, actions)
    decreases |actions|
  {
    actions != []
    && (Buys(w.registry, actions[0], c) || BoughtDuring(Apply(w, actions[0]), actions[1..], c))
  }

  lemma OnlyStartsAddChallenges(r: Registry, a: Action, c: string)
    requires Possible(r, a) && !a.Start?
    ensures c in After(r, a).challenges ==> c in r.challenges
  {
    hide HasAdmin, WithMember, LiveFor, LiveBootstrap, RevokeExpired;
  }

  lemma NewChallengesAreBought(r: Registry, a: Action, c: string)
    requires Possible(r, a) && c !in r.challenges && c in After(r, a).challenges
    ensures Buys(r, a, c)
  {
    if a.Start? {
      OnlyTheSecretBuysAChallenge(r, a.id, a.suppliedHash, a.challengeHash, a.now, a.persisted);
    } else {
      OnlyStartsAddChallenges(r, a, c);
    }
  }

  /**
   Over every run, each challenge there is was bought with the secret of a live
   invitation, in one of the five attempts it allows, for ten minutes.
   */
  lemma {:induction false} EveryChallengeWasBought(w: World, actions: seq<Action>, c: string)
    requires PossibleRun(w, actions) && c !in w.registry.challenges
    ensures c in Run(w, actions).registry.challenges ==> BoughtDuring(w, actions, c)
    decreases |actions|
  {
    if actions != [] {
      if c in After(w.registry, actions[0]).challenges {
        NewChallengesAreBought(w.registry, actions[0], c);
        hide After, Buys, Finishes;
      } else {
        hide After, Buys, Finishes;
        EveryChallengeWasBought(Apply(w, actions[0]), actions[1..], c);
      }
    }
  }

  /** The action turns the challenge into the account and the memberships its invitation intended, and no more. */
  predicate Activates(r: Registry, a: Action, success: (string, nat))
    requires Possible(r, a)
  {
    && a.Finish? && a.challenge == success.0 && a.challenge in r.challenges
    && r.challenges[a.challenge].invitation == success.1 && success.1 in r.invitations
    && StandsOpen(r, r.invitations[success.1], a.now) && a.now < r.challenges[a.challenge].expires
    && var i, r' := r.invitations[success.1], After(r, a);
    && i.login !in r.accounts && i.login in r'.accounts
    && r'.accounts[i.login].role == i.role && r'.accounts[i.login].status == PendingMfa
    && r'.teams.Keys == r.teams.Keys
    && (forall t | t in r.teams :: r'.teams[t] == r.teams[t] + (if t in i.teams then {i.login} else {}))
    && (forall l | l in r.accounts :: l in r'.accounts && r'.accounts[l] == r.accounts[l])
  }

  predicate ActivatedDuring(w: World, actions: seq<Action>, success: (string, nat))
    requires PossibleRun(w, actions)
    decreases |actions|
  {
    actions != []
    && (Activates(w.registry, actions[0], success) || ActivatedDuring(Apply(w, actions[0]), actions[1..], success))
  }

  lemma FinishingActivates(r: Registry, a: Action)
    requires Possible(r, a) && Finishes(r, a)
    ensures a.challenge in r.challenges
    ensures Activates(r, a, (a.challenge, r.challenges[a.challenge].invitation))
  {
    CompletesExactlyWhen(r, a.challenge, a.passwordHash, a.now, a.persisted);
    ActivationGrantsWhatWasIntended(r, a.challenge, a.passwordHash, a.now, a.persisted);
    hide WithMember, HasAdmin;
  }

  /**
   Over every run, each success on record created one pending account with the
   intended role, put it into exactly the intended teams and changed no other account.
   */
  lemma {:induction false} EveryActivationWasIntended(w: World, actions: seq<Action>, success: (string, nat))
    requires PossibleRun(w, actions) && success !in w.finished
    ensures success in Run(w, actions).finished ==> ActivatedDuring(w, actions, success)
    decreases |actions|
  {
    if actions != [] {
      if Finishes(w.registry, actions[0]) {
        FinishingActivates(w.registry, actions[0]);
      }
      hide After, Activates, Finishes, Possible;
      if success !in Apply(w, actions[0]).finished {
        EveryActivationWasIntended(Apply(w, actions[0]), actions[1..], success);
      }
    }
  }

  // ----- how long a challenge is good for -----

  /** The run up to an action, that action, and the rest. */
  lemma {:induction false} RunSplits(w: World, actions: seq<Action>, n: nat)
    requires PossibleRun(w, actions) && n < |actions|
    ensures PossibleRun(w, actions[..n]) && PossibleRun(w, actions[..n + 1])
    ensures Possible(Run(w, actions[..n]).registry, actions[n])
    ensures Run(w, actions[..n + 1]) == Apply(Run(w, actions[..n]), actions[n])
    decreases n
  {
    hide Possible, After, Finishes;
    assert actions[..n + 1][0] == actions[0] && actions[..n + 1][1..] == actions[1..][..n];
    if n > 0 {
      assert actions[..n][0] == actions[0] && actions[..n][1..] == actions[1..][..n - 1];
      RunSplits(Apply(w, actions[0]), actions[1..], n - 1);
    } else {
      assert actions[1..][..0] == [];
    }
  }

  /** Action `i` started an activation of invitation `id` and was given challenge `c` for ten minutes. */
  predicate GaveAt(actions: seq<Action>, i: nat, c: string, id: nat, expires: int) {
    && i < |actions| && actions[i].Start? && actions[i].challengeHash == c && actions[i].id == id
    && expires == actions[i].now + 10 * 60
  }

  ghost predicate Given(actions: seq<Action>, n: nat, r: Registry) {
    forall c | c in r.challenges ::
      exists i: nat :: i < n && GaveAt(actions, i, c, r.challenges[c].invitation, r.challenges[c].expires)
  }

  /** What becomes of a challenge: it is new, or is what it was but for being spent. */
  lemma ChallengesKeepTheirTerm(r: Registry, a: Action, c: string)
    requires Possible(r, a) && c in After(r, a).challenges
    ensures var after := After(r, a).challenges[c];
      if c in r.challenges then
        after.invitation == r.challenges[c].invitation && after.expires == r.challenges[c].expires
      else a.Start? && a.challengeHash == c && a.id == after.invitation && after.expires == a.now + 10 * 60
  {
    if c !in r.challenges {
      NewChallengesAreBought(r, a, c);
    } else {
      hide HasAdmin, WithMember, LiveFor, LiveBootstrap, RevokeExpired;
    }
  }

  lemma {:induction false} EveryTermWasGiven(actions: seq<Action>, n: nat)
    requires PossibleRun(START, actions) && n <= |actions|
    ensures PossibleRun(START, actions[..n])
    ensures Given(actions, n, Run(START, actions[..n]).registry)
    decreases n
  {
    if n > 0 {
      RunSplits(START, actions, n - 1);
      EveryTermWasGiven(actions, n - 1);
      var r, a := Run(START, actions[..n - 1]).registry, actions[n - 1];
      hide Possible, PossibleRun, After, Run, Finishes;
      forall c | c in After(r, a).challenges
        ensures exists i: nat :: i < n && GaveAt(actions, i, c, After(r, a).challenges[c].invitation,
                                                 After(r, a).challenges[c].expires)
      {
        ChallengesKeepTheirTerm(r, a, c);
        if c !in r.challenges {
          assert GaveAt(actions, n - 1, c, a.id, a.now + 10 * 60);
        }
      }
    }
  }

  /**
   Over every run, an activation that succeeds spends an unspent challenge some
   earlier action was given less than ten minutes before, of an invitation that
   still stands open.
   */
  lemma EverySuccessSpendsAFreshChallenge(actions: seq<Action>, n: nat)
    requires PossibleRun(START, actions) && n < |actions| && PossibleRun(START, actions[..n])
    requires Finishes(Run(START, actions[..n]).registry, actions[n])
    ensures var r, c, now := Run(START, actions[..n]).registry, actions[n].challenge, actions[n].now;
      && c in r.challenges && r.challenges[c].consumedAt == None && r.challenges[c].invitation in r.invitations
      && StandsOpen(r, r.invitations[r.challenges[c].invitation], now)
      && exists i: nat :: i < n && actions[i].Start? && now < actions[i].now + 10 * 60
           && GaveAt(actions, i, c, r.challenges[c].invitation, actions[i].now + 10 * 60)
  {
    var r, a := Run(START, actions[..n]).registry, actions[n];
    CompletesExactlyWhen(r, a.challenge, a.passwordHash, a.now, a.persisted);
    EveryTermWasGiven(actions, n);
    hide Run, PossibleRun, Complete, StandsOpen;
    var c := a.challenge;
    var i: nat :| i < n && GaveAt(actions, i, c, r.challenges[c].invitation, r.challenges[c].expires);
    assert GaveAt(actions, i, c, r.challenges[c].invitation, actions[i].now + 10 * 60);
  }
}
