/**
 Any interleaving of credential calls (crates/jeryu-core/src/engine/auth.rs).

 Minting a session or a token, and changing a password, read the account under
 one lock and write under a later one. Each locked section is one action here,
 so anything may happen between the two halves of a call.
 */
module AccountRuns {
  import opened Common
  import opened Utf8
  import opened Accounts

  datatype Action =
    | Create(login: Login, account: Account, taken: bool, persisted: bool)
    | ResetPassword(login: Login, password: bytes, hash: Option<string>, persisted: bool)
    | CheckPassword(call: nat, login: Login)
    | ChangePassword(call: nat, hash: Option<string>, persisted: bool)
    | ForceChange(login: Login, forced: bool, persisted: bool)
    | SetStatus(login: Login, to: Status, allowed: Option<set<Status>>, persisted: bool)
    | ReadForMint(call: nat, login: Login)
    | MintSession(call: nat, key: string, expires: int, persisted: bool)
    | MintToken(call: nat, id: nat, secretHash: string, tokenExpires: Option<int>, persisted: bool)
    | RevokeSession(key: string, persisted: bool)
    | RevokeToken(login: Login, id: nat, persisted: bool)

  /** An account as some call read it. */
  datatype Reading = Reading(login: Login, epoch: nat, at: nat)

  /**
   `clock` counts actions. `mints` and `changes` are the calls between their two
   halves. `sessionRead` and `tokenRead` date the reading each credential was
   minted from, `revokedAt` the last committed renewal of each account.
   */
  datatype World = World(
    core: State, clock: nat, mints: map<nat, Reading>, changes: map<nat, Login>,
    sessionRead: map<string, nat>, tokenRead: map<nat, nat>, revokedAt: map<Login, nat>)

  const START: World := World(State(map[], map[], map[]), 0, map[], map[], map[], map[], map[])

  /** What a renewing call does: the state it leaves, and whether the renewal took effect. */
  datatype Renewal = Absent | Renewal(login: Login, core: State, committed: bool)

  function RenewalOf(w: World, a: Action): Renewal {
    match a
    case ResetPassword(login, password, hash, persisted) =>
      var done := Reset(w.core, login, password, hash, persisted);
      Renewal(login, done.0, done.1.Ok?)
    case ChangePassword(call, hash, persisted) =>
      if call !in w.changes then Absent
      else
        var done := CommitChange(w.core, w.changes[call], hash, persisted);
        Renewal(w.changes[call], done.0, done.1.Ok?)
    case ForceChange(login, forced, persisted) =>
      var done := Force(w.core, login, forced, persisted);
      Renewal(login, done.0, done.1.Ok? && forced)
    case SetStatus(login, to, allowed, persisted) =>
      var done := Transition(w.core, login, to, allowed, persisted);
      Renewal(login, done.0, done.1.Ok? && login in w.core.accounts && w.core.accounts[login].status != to)
    case _ => Absent
  }

  /** The action commits a reset, a change, a forced change or a real change of status. */
  predicate Commits(w: World, a: Action, login: Login) {
    RenewalOf(w, a).Renewal? && RenewalOf(w, a).login == login && RenewalOf(w, a).committed
  }

  function Renewed(w: World, r: Renewal): World
    requires r.Renewal?
  {
    w.(clock := w.clock + 1, core := r.core,
       revokedAt := if r.committed then w.revokedAt[r.login := w.clock] else w.revokedAt)
  }

  /** The later half of a minting; a failed store leaves the call where it was. */
  function SessionMinted(w: World, call: nat, key: string, expires: int, persisted: bool): (w': World)
    ensures w'.clock == w.clock && w'.revokedAt == w.revokedAt && w'.changes == w.changes
    ensures w'.core.tokens == w.core.tokens && w'.tokenRead == w.tokenRead && w'.core.accounts == w.core.accounts
  {
    if call !in w.mints || !persisted then w
    else
      var m := w.mints[call];
      w.(core := SessionInserted(w.core, m.login, m.epoch, key, expires, persisted).0,
         mints := w.mints - {call}, sessionRead := w.sessionRead[key := m.at])
  }

  function TokenMinted(w: World, call: nat, id: nat, hash: string, expires: Option<int>, persisted: bool): (w': World)
    ensures w'.clock == w.clock && w'.revokedAt == w.revokedAt && w'.changes == w.changes
    ensures w'.core.sessions == w.core.sessions && w'.sessionRead == w.sessionRead
    ensures w'.core.accounts == w.core.accounts
  {
    if call !in w.mints || !persisted then w
    else
      var m := w.mints[call];
      w.(core := TokenInserted(w.core, id, Token(m.login, m.epoch, hash, expires), persisted).0,
         mints := w.mints - {call}, tokenRead := w.tokenRead[id := m.at])
  }

  /** The actions that renew nothing. */
  function Handled(w: World, a: Action): (w': World)
    ensures w'.clock == w.clock + 1 && w'.revokedAt == w.revokedAt
  {
    var w1 := w.(clock := w.clock + 1);
    match a
    case Create(login, account, taken, persisted) =>
      w1.(core := Created(w.core, login, account, taken, persisted).0)
    case CheckPassword(call, login) =>
      if ActiveAccount(w.core, login).Ok? then w1.(changes := w.changes[call := login]) else w1
    case ReadForMint(call, login) =>
      if ActiveAccount(w.core, login).Ok? then
        w1.(mints := w.mints[call := Reading(login, w.core.accounts[login].epoch, w.clock)])
      else w1
    case MintSession(call, key, expires, persisted) => SessionMinted(w1, call, key, expires, persisted)
    case MintToken(call, id, hash, expires, persisted) => TokenMinted(w1, call, id, hash, expires, persisted)
    case RevokeSession(key, persisted) =>
      if persisted then w1.(core := w.core.(sessions := w.core.sessions - {key})) else w1
    case RevokeToken(login, id, persisted) =>
      if persisted && id in w.core.tokens && w.core.tokens[id].login == login then
        w1.(core := w.core.(tokens := w.core.tokens - {id}))
      else w1
    case _ => w1
  }

  function Apply(w: World, a: Action): World {
    if RenewalOf(w, a).Renewal? then Renewed(w, RenewalOf(w, a)) else Handled(w, a)
  }

  function Run(w: World, actions: seq<Action>): World
    decreases |actions|
  {
    if actions == [] then w else Run(Apply(w, actions[0]), actions[1..])
  }

  // ----- the invariant -----

  /** What was read at step `at` is not ahead of the account, and is behind it exactly after a renewal. */
  predicate Dated(w: World, login: Login, epoch: nat, at: nat) {
    && login in w.core.accounts && at < w.clock
    && epoch <= w.core.accounts[login].epoch
    && (RenewedSince(w, login, at) <==> epoch < w.core.accounts[login].epoch)
  }

  predicate RenewedSince(w: World, login: Login, at: nat) {
    login in w.revokedAt && at <= w.revokedAt[login]
  }

  ghost predicate Inv(w: World) {
    && (forall c | c in w.mints :: Dated(w, w.mints[c].login, w.mints[c].epoch, w.mints[c].at))
    && (forall k | k in w.core.sessions :: k in w.sessionRead
          && Dated(w, w.core.sessions[k].login, w.core.sessions[k].epoch, w.sessionRead[k]))
    && (forall t | t in w.core.tokens :: t in w.tokenRead
          && Dated(w, w.core.tokens[t].login, w.core.tokens[t].epoch, w.tokenRead[t]))
    && (forall l | l in w.revokedAt :: w.revokedAt[l] < w.clock)
  }

  /** Accounts stay, a committed renewal moves on its own epoch only, and credentials can only go. */
  ghost predicate Trims(s: State, s': State, login: Login, committed: bool) {
    && (forall l | l in s.accounts :: l in s'.accounts
          && if l == login && committed then s.accounts[l].epoch < s'.accounts[l].epoch
             else s.accounts[l].epoch == s'.accounts[l].epoch)
    && (forall k | k in s'.sessions :: k in s.sessions && s'.sessions[k] == s.sessions[k])
    && (forall t | t in s'.tokens :: t in s.tokens && s'.tokens[t] == s.tokens[t])
  }

  lemma RenewedTrims(s: State, login: Login, edited: Account, persisted: bool)
    requires login in s.accounts && edited.epoch == s.accounts[login].epoch
    ensures var outcome := Accounts.Renewed(s, login, edited, persisted);
      Trims(s, outcome.0, login, outcome.1.Ok?)
  {
  }

  lemma RenewalsTrim(w: World, a: Action)
    requires RenewalOf(w, a).Renewal?
    ensures var r := RenewalOf(w, a); Trims(w.core, r.core, r.login, r.committed)
  {
    var login := RenewalOf(w, a).login;
    if login in w.core.accounts {
      var account := w.core.accounts[login];
      match a {
        case ResetPassword(_, _, hash, persisted) =>
          if hash.Some? {
            RenewedTrims(w.core, login, account.(passwordHash := hash.value, mustChange := true), persisted);
          }
          hide Accounts.Renewed, CommitChange, Force, Transition;
        case ChangePassword(_, hash, persisted) =>
          if hash.Some? {
            RenewedTrims(w.core, login, account.(passwordHash := hash.value, mustChange := false), persisted);
          }
          hide Accounts.Renewed, Reset, Force, Transition;
        case ForceChange(_, forced, persisted) =>
          RenewedTrims(w.core, login, account.(mustChange := forced), persisted);
          hide Accounts.Renewed, Reset, CommitChange, Transition;
        case SetStatus(_, to, allowed, persisted) =>
          RenewedTrims(w.core, login, account.(status := to), persisted);
          hide Accounts.Renewed, Reset, CommitChange, Force;
      }
    }
  }

  /** An account stays, and its epoch moves on exactly when a renewal commits. */
  lemma EpochsAdvance(w: World, a: Action, login: Login)
    requires login in w.core.accounts
    ensures login in Apply(w, a).core.accounts
    ensures w.core.accounts[login].epoch <= Apply(w, a).core.accounts[login].epoch
    ensures Commits(w, a, login) <==> w.core.accounts[login].epoch < Apply(w, a).core.accounts[login].epoch
  {
    if RenewalOf(w, a).Renewal? {
      RenewalsTrim(w, a);
    }
    hide RenewalOf;
  }

  /** A renewal is dated when it commits; nothing else touches those dates. */
  lemma RenewalsAreDated(w: World, a: Action)
    ensures Apply(w, a).clock == w.clock + 1
    ensures Apply(w, a).revokedAt
         == if RenewalOf(w, a).Renewal? && RenewalOf(w, a).committed then w.revokedAt[RenewalOf(w, a).login := w.clock]
            else w.revokedAt
  {
    hide RenewalOf, Handled;
  }

  lemma StaysDated(w: World, a: Action, login: Login, epoch: nat, at: nat)
    requires Dated(w, login, epoch, at)
    ensures Dated(Apply(w, a), login, epoch, at)
  {
    EpochsAdvance(w, a, login);
    RenewalsAreDated(w, a);
    hide Apply, RenewalOf;
  }

  predicate SessionIsKept(w: World, w': World, k: string) {
    && k in w'.core.sessions && k in w.core.sessions && w'.core.sessions[k] == w.core.sessions[k]
    && (k in w.sessionRead ==> k in w'.sessionRead && w'.sessionRead[k] == w.sessionRead[k])
  }

  predicate SessionIsMinted(w: World, a: Action, w': World, k: string) {
    && k in w'.core.sessions && k in w'.sessionRead && a.MintSession? && a.call in w.mints
    && Reading(w'.core.sessions[k].login, w'.core.sessions[k].epoch, w'.sessionRead[k]) == w.mints[a.call]
  }

  predicate TokenIsKept(w: World, w': World, t: nat) {
    && t in w'.core.tokens && t in w.core.tokens && w'.core.tokens[t] == w.core.tokens[t]
    && (t in w.tokenRead ==> t in w'.tokenRead && w'.tokenRead[t] == w.tokenRead[t])
  }

  predicate TokenIsMinted(w: World, a: Action, w': World, t: nat) {
    && t in w'.core.tokens && t in w'.tokenRead && a.MintToken? && a.call in w.mints
    && Reading(w'.core.tokens[t].login, w'.core.tokens[t].epoch, w'.tokenRead[t]) == w.mints[a.call]
  }

  /** Every session after an action was there before, or is minted from a reading already taken. */
  lemma SessionsComeFromReadings(w: World, a: Action, k: string)
    requires k in Apply(w, a).core.sessions
    ensures SessionIsKept(w, Apply(w, a), k) || SessionIsMinted(w, a, Apply(w, a), k)
  {
    hide RenewalOf, TokenMinted;
    if RenewalOf(w, a).Renewal? {
      RenewalsTrim(w, a);
      hide Handled;
    }
  }

  lemma TokensComeFromReadings(w: World, a: Action, t: nat)
    requires t in Apply(w, a).core.tokens
    ensures TokenIsKept(w, Apply(w, a), t) || TokenIsMinted(w, a, Apply(w, a), t)
  {
    hide RenewalOf, SessionMinted;
    if RenewalOf(w, a).Renewal? {
      RenewalsTrim(w, a);
      hide Handled;
    }
  }

  lemma ReadingsAreOldOrNew(w: World, a: Action, c: nat)
    requires c in Apply(w, a).mints
    ensures var m := Apply(w, a).mints[c];
      || (c in w.mints && m == w.mints[c])
      || (m.login in w.core.accounts && m == Reading(m.login, w.core.accounts[m.login].epoch, w.clock)
          && Apply(w, a).core == w.core && Apply(w, a).revokedAt == w.revokedAt)
  {
    hide RenewalOf;
  }

  lemma RenewalTimesArePast(w: World, a: Action)
    requires forall l | l in w.revokedAt :: w.revokedAt[l] < w.clock
    ensures forall l | l in Apply(w, a).revokedAt :: Apply(w, a).revokedAt[l] < Apply(w, a).clock
  {
    RenewalsAreDated(w, a);
    hide Apply, RenewalOf;
  }

  lemma MintStaysDated(w: World, a: Action, c: nat)
    requires Inv(w) && c in Apply(w, a).mints
    ensures var m := Apply(w, a).mints[c]; Dated(Apply(w, a), m.login, m.epoch, m.at)
  {
    ReadingsAreOldOrNew(w, a, c);
    RenewalsAreDated(w, a);
    hide Apply;
    var m := Apply(w, a).mints[c];
    if c in w.mints && m == w.mints[c] {
      StaysDated(w, a, m.login, m.epoch, m.at);
    }
  }

  lemma SessionStaysDated(w: World, a: Action, k: string)
    requires Inv(w) && k in Apply(w, a).core.sessions
    ensures var w' := Apply(w, a);
      k in w'.sessionRead && Dated(w', w'.core.sessions[k].login, w'.core.sessions[k].epoch, w'.sessionRead[k])
  {
    hide Apply;
    SessionsComeFromReadings(w, a, k);
    var w' := Apply(w, a);
    assert Dated(w, w'.core.sessions[k].login, w'.core.sessions[k].epoch, w'.sessionRead[k]);
    StaysDated(w, a, w'.core.sessions[k].login, w'.core.sessions[k].epoch, w'.sessionRead[k]);
  }

  lemma TokenStaysDated(w: World, a: Action, t: nat)
    requires Inv(w) && t in Apply(w, a).core.tokens
    ensures var w' := Apply(w, a);
      t in w'.tokenRead && Dated(w', w'.core.tokens[t].login, w'.core.tokens[t].epoch, w'.tokenRead[t])
  {
    hide Apply;
    TokensComeFromReadings(w, a, t);
    var w' := Apply(w, a);
    assert Dated(w, w'.core.tokens[t].login, w'.core.tokens[t].epoch, w'.tokenRead[t]);
    StaysDated(w, a, w'.core.tokens[t].login, w'.core.tokens[t].epoch, w'.tokenRead[t]);
  }

  lemma ApplyKeepsInv(w: World, a: Action)
    requires Inv(w)
    ensures Inv(Apply(w, a))
  {
    hide Apply, Dated;
    var w' := Apply(w, a);
    forall c | c in w'.mints ensures Dated(w', w'.mints[c].login, w'.mints[c].epoch, w'.mints[c].at) {
      MintStaysDated(w, a, c);
    }
    forall k | k in w'.core.sessions
      ensures k in w'.sessionRead
      ensures Dated(w', w'.core.sessions[k].login, w'.core.sessions[k].epoch, w'.sessionRead[k])
    {
      SessionStaysDated(w, a, k);
    }
    forall t | t in w'.core.tokens
      ensures t in w'.tokenRead
      ensures Dated(w', w'.core.tokens[t].login, w'.core.tokens[t].epoch, w'.tokenRead[t])
    {
      TokenStaysDated(w, a, t);
    }
    RenewalTimesArePast(w, a);
  }

  lemma {:induction false} RunKeepsInv(w: World, actions: seq<Action>)
    requires Inv(w)
    ensures Inv(Run(w, actions))
    decreases |actions|
  {
    if actions != [] {
      ApplyKeepsInv(w, actions[0]);
      RunKeepsInv(Apply(w, actions[0]), actions[1..]);
    }
  }

  // ----- the theorems -----

  /**
   In every run from an empty service, a credential authenticates exactly when
   it has not expired, its account is active, and no renewal of the account
   committed after the reading it was minted from, whenever it was inserted.
   */
  lemma CredentialsWorkUntilTheNextRenewal(actions: seq<Action>, key: string, id: nat, now: int)
    ensures var w := Run(START, actions);
      key in w.core.sessions ==>
        var session := w.core.sessions[key];
        && key in w.sessionRead && session.login in w.core.accounts
        && (SessionAuthenticates(w.core, key, now) <==>
              session.expires > now && w.core.accounts[session.login].status == Active
              && !RenewedSince(w, session.login, w.sessionRead[key]))
    ensures var w := Run(START, actions);
      id in w.core.tokens ==>
        var token := w.core.tokens[id];
        && id in w.tokenRead && token.login in w.core.accounts
        && (TokenAuthenticates(w.core, id, now) <==>
              Unexpired(token.expires, now) && w.core.accounts[token.login].status == Active
              && !RenewedSince(w, token.login, w.tokenRead[id]))
  {
    RunKeepsInv(START, actions);
    hide Run;
  }

  /**
   Once a renewal of `login` commits, no session or token whose reading came
   before it ever authenticates again, in any continuation of any run.
   */
  lemma RenewalIsForever(before: seq<Action>, renewal: Action, login: Login, after: seq<Action>, key: string, id: nat,
                         now: int)
    requires Commits(Run(START, before), renewal, login)
    ensures var w := Run(START, before);
      var w' := Run(Apply(w, renewal), after);
      && (SessionAuthenticates(w'.core, key, now) && w'.core.sessions[key].login == login ==>
            key in w'.sessionRead && w'.sessionRead[key] > w.clock)
      && (TokenAuthenticates(w'.core, id, now) && w'.core.tokens[id].login == login ==>
            id in w'.tokenRead && w'.tokenRead[id] > w.clock)
  {
    var w := Run(START, before);
    var w1 := Apply(w, renewal);
    RunKeepsInv(START, before);
    ApplyKeepsInv(w, renewal);
    RunKeepsInv(w1, after);
    RenewalsAreRemembered(w1, after, login, w.clock);
    hide Run;
  }

  lemma {:induction false} RenewalsAreRemembered(w: World, actions: seq<Action>, login: Login, t: nat)
    requires t < w.clock && login in w.revokedAt && w.revokedAt[login] >= t
    ensures login in Run(w, actions).revokedAt && Run(w, actions).revokedAt[login] >= t
    decreases |actions|
  {
    if actions != [] {
      RenewalsAreDated(w, actions[0]);
      hide Apply, RenewalOf;
      RenewalsAreRemembered(Apply(w, actions[0]), actions[1..], login, t);
    }
  }

  // ----- what ends a credential -----

  /** What the account of a committed renewal looks like right after it. */
  predicate AsPromised(before: Account, after: Account, a: Action) {
    && after.epoch == before.epoch + 1 && after.role == before.role
    && (a.SetStatus? ==> after.status == a.to && after.passwordHash == before.passwordHash)
    && (!a.SetStatus? ==> after.status == before.status)
    && (a.ForceChange? ==> after.mustChange && after.passwordHash == before.passwordHash)
    && (a.ResetPassword? ==> after.mustChange && Some(after.passwordHash) == a.hash)
    && (a.ChangePassword? ==> !after.mustChange && Some(after.passwordHash) == a.hash)
  }

  /** The renewal a committing action makes, as one edit of the account. */
  lemma CommitIsOneEdit(w: World, a: Action, login: Login) returns (edited: Account, persisted: bool)
    requires Commits(w, a, login)
    ensures login in w.core.accounts && edited.epoch == w.core.accounts[login].epoch
    ensures AsPromised(w.core.accounts[login], edited.(epoch := edited.epoch + 1), a)
    ensures Accounts.Renewed(w.core, login, edited, persisted).1.Ok?
    ensures RenewalOf(w, a).core == Accounts.Renewed(w.core, login, edited, persisted).0
  {
    hide Accounts.Renewed;
    var account := w.core.accounts[login];
    match a {
      case ResetPassword(_, _, hash, stored) =>
        edited, persisted := account.(passwordHash := hash.value, mustChange := true), stored;
      case ChangePassword(_, hash, stored) =>
        edited, persisted := account.(passwordHash := hash.value, mustChange := false), stored;
      case ForceChange(_, forced, stored) => edited, persisted := account.(mustChange := forced), stored;
      case SetStatus(_, to, _, stored) => edited, persisted := account.(status := to), stored;
    }
  }

  /**
   In every run a committed renewal leaves its account with the promised
   fields, no session and no token of it in store, and all else as it was.
   */
  lemma RenewalEndsEveryStoredCredential(before: seq<Action>, renewal: Action, login: Login)
    requires Commits(Run(START, before), renewal, login)
    ensures var s, s' := Run(START, before).core, Apply(Run(START, before), renewal).core;
      && login in s.accounts && login in s'.accounts && AsPromised(s.accounts[login], s'.accounts[login], renewal)
      && (forall k | k in s'.sessions :: s'.sessions[k].login != login)
      && (forall t | t in s'.tokens :: s'.tokens[t].login != login)
      && (forall l | l != login && l in s.accounts :: l in s'.accounts && s'.accounts[l] == s.accounts[l])
  {
    var w := Run(START, before);
    var edited, persisted := CommitIsOneEdit(w, renewal, login);
    RenewalKeepsItsPromise(w.core, login, edited, persisted);
    assert Apply(w, renewal).core == RenewalOf(w, renewal).core;
    hide Apply, Run, RenewalOf, Accounts.Renewed;
  }

  /** An action that may take session `k` of `login` away. */
  /** A stored revocation takes the one session, or the one token of that login, and nothing else; others do nothing. */
  lemma RevocationsTakeTheirOwn(w: World, a: Action)
    ensures a.RevokeSession? ==>
      Apply(w, a).core == if a.persisted then w.core.(sessions := w.core.sessions - {a.key}) else w.core
    ensures a.RevokeToken? ==>
      Apply(w, a).core ==
      if a.persisted && a.id in w.core.tokens && w.core.tokens[a.id].login == a.login
      then w.core.(tokens := w.core.tokens - {a.id}) else w.core
  {
  }

  /** A reading takes place exactly for an active account, whose epoch it remembers. */
  lemma ReadingsExactlyWhen(w: World, a: Action)
    requires (a.ReadForMint? && a.call !in w.mints) || (a.CheckPassword? && a.call !in w.changes)
    ensures var w', active := Apply(w, a), a.login in w.core.accounts && w.core.accounts[a.login].status == Active;
      && w'.core == w.core
      && (a.ReadForMint? ==>
            && (a.call in w'.mints <==> active)
            && (active ==> w'.mints[a.call] == Reading(a.login, w.core.accounts[a.login].epoch, w.clock)))
      && (a.CheckPassword? ==> (a.call in w'.changes <==> active) && (active ==> w'.changes[a.call] == a.login))
  {
  }

  predicate EndsSession(w: World, a: Action, k: string, login: Login) {
    (a.RevokeSession? && a.key == k) || (a.MintSession? && a.key == k) || Commits(w, a, login)
  }

  predicate EndsToken(w: World, a: Action, t: nat, login: Login) {
    (a.RevokeToken? && a.id == t && a.login == login) || (a.MintToken? && a.id == t) || Commits(w, a, login)
  }

  predicate SessionStored(w: World, k: string, session: Session) {
    k in w.core.sessions && w.core.sessions[k] == session
  }

  predicate TokenStored(w: World, t: nat, token: Token) {
    t in w.core.tokens && w.core.tokens[t] == token
  }

  lemma RenewingOthersKeeps(s: State, login: Login, edited: Account, persisted: bool)
    ensures var s' := Accounts.Renewed(s, login, edited, persisted).0;
      && (forall k | k in s.sessions && s.sessions[k].login != login ::
            k in s'.sessions && s'.sessions[k] == s.sessions[k])
      && (forall t | t in s.tokens && s.tokens[t].login != login :: t in s'.tokens && s'.tokens[t] == s.tokens[t])
    ensures Accounts.Renewed(s, login, edited, persisted).1.Err? ==>
      var s' := Accounts.Renewed(s, login, edited, persisted).0; s'.sessions == s.sessions && s'.tokens == s.tokens
  {
  }

  /** A renewing call takes away the credentials of its own account only, and only when it commits. */
  lemma RenewalTakesItsOwn(w: World, a: Action)
    requires RenewalOf(w, a).Renewal?
    ensures var r := RenewalOf(w, a);
      && (!r.committed ==> r.core.sessions == w.core.sessions && r.core.tokens == w.core.tokens)
      && (forall k | k in w.core.sessions && w.core.sessions[k].login != r.login ::
            k in r.core.sessions && r.core.sessions[k] == w.core.sessions[k])
      && (forall t | t in w.core.tokens && w.core.tokens[t].login != r.login ::
            t in r.core.tokens && r.core.tokens[t] == w.core.tokens[t])
  {
    var r := RenewalOf(w, a);
    if r.login in w.core.accounts {
      var account := w.core.accounts[r.login];
      match a {
        case ResetPassword(_, _, hash, stored) =>
          if hash.Some? {
            RenewingOthersKeeps(w.core, r.login, account.(passwordHash := hash.value, mustChange := true), stored);
          }
        case ChangePassword(_, hash, stored) =>
          if hash.Some? {
            RenewingOthersKeeps(w.core, r.login, account.(passwordHash := hash.value, mustChange := false), stored);
          }
        case ForceChange(_, forced, stored) =>
          RenewingOthersKeeps(w.core, r.login, account.(mustChange := forced), stored);
        case SetStatus(_, to, _, stored) =>
          RenewingOthersKeeps(w.core, r.login, account.(status := to), stored);
      }
      hide Accounts.Renewed;
    }
  }

  lemma OnlyItsEndersTakeASession(w: World, a: Action, k: string, session: Session)
    requires SessionStored(w, k, session) && !EndsSession(w, a, k, session.login)
    ensures SessionStored(Apply(w, a), k, session)
  {
    hide RenewalOf;
    if RenewalOf(w, a).Renewal? {
      RenewalTakesItsOwn(w, a);
      hide Handled;
    }
  }

  lemma OnlyItsEndersTakeAToken(w: World, a: Action, t: nat, token: Token)
    requires TokenStored(w, t, token) && !EndsToken(w, a, t, token.login)
    ensures TokenStored(Apply(w, a), t, token)
  {
    hide RenewalOf;
    if RenewalOf(w, a).Renewal? {
      RenewalTakesItsOwn(w, a);
      hide Handled;
    }
  }

  /**
   Over every run a stored session or token stays in store, unless it was
   revoked by name, replaced under its key, or its own account was renewed:
   nothing that happens to other accounts ends it.
   */
  lemma {:induction false} CredentialsEndOnlyForTheirOwnReasons(w: World, actions: seq<Action>, k: string,
                                                               session: Session, t: nat, token: Token)
    ensures SessionStored(w, k, session) && !SessionStored(Run(w, actions), k, session) ==>
      exists i :: 0 <= i < |actions| && EndsSession(Run(w, actions[..i]), actions[i], k, session.login)
    ensures TokenStored(w, t, token) && !TokenStored(Run(w, actions), t, token) ==>
      exists i :: 0 <= i < |actions| && EndsToken(Run(w, actions[..i]), actions[i], t, token.login)
    decreases |actions|
  {
    hide Apply, EndsSession, EndsToken, SessionStored, TokenStored;
    if actions != [] {
      var a, rest := actions[0], actions[1..];
      var w1 := Apply(w, a);
      CredentialsEndOnlyForTheirOwnReasons(w1, rest, k, session, t, token);
      assert actions[..0] == [] && Run(w, actions[..0]) == w;
      if SessionStored(w, k, session) && !EndsSession(w, a, k, session.login) {
        OnlyItsEndersTakeASession(w, a, k, session);
      }
      if TokenStored(w, t, token) && !EndsToken(w, a, t, token.login) {
        OnlyItsEndersTakeAToken(w, a, t, token);
      }
      forall i | 0 <= i < |rest| ensures Run(w1, rest[..i]) == Run(w, actions[..i + 1]) && rest[i] == actions[i + 1] {
        RunAfterFirst(w, actions, i);
      }
      if i :| 0 <= i < |rest| && EndsSession(Run(w1, rest[..i]), rest[i], k, session.login) {
        assert EndsSession(Run(w, actions[..i + 1]), actions[i + 1], k, session.login);
      }
      if i :| 0 <= i < |rest| && EndsToken(Run(w1, rest[..i]), rest[i], t, token.login) {
        assert EndsToken(Run(w, actions[..i + 1]), actions[i + 1], t, token.login);
      }
    }
  }

  lemma RunAfterFirst(w: World, actions: seq<Action>, i: nat)
    requires i < |actions| - 1
    ensures Run(Apply(w, actions[0]), actions[1..][..i]) == Run(w, actions[..i + 1])
  {
    hide Apply;
    assert actions[..i + 1][0] == actions[0] && actions[..i + 1][1..] == actions[1..][..i];
  }
}
