/**
 Account credentials: passwords, sessions and personal access tokens
 (crates/jeryu-core/src/engine/auth.rs).

 Every account carries an epoch. Sessions and tokens copy the epoch their
 issuer read, and authenticate only while the account still has it.
 */
module Accounts {
  import opened Common
  import opened Utf8

  const MAX_EPOCH: nat := 0xFFFF_FFFF_FFFF_FFFF
  const MIN_PASSWORD: nat := 12

  type Login = string

  datatype Role = Admin | User

  datatype Status = PendingActivation | PendingMfa | Active | Disabled | Locked

  /** `epoch` is a u64. */
  datatype Account = Account(passwordHash: string, role: Role, status: Status, epoch: nat, mustChange: bool)

  datatype Session = Session(login: Login, epoch: nat, expires: int)

  datatype Token = Token(login: Login, epoch: nat, hash: string, expires: Option<int>)

  /** Sessions are kept by token hash, personal access tokens by id. */
  datatype State = State(accounts: map<Login, Account>, sessions: map<string, Session>, tokens: map<nat, Token>)

  datatype Error =
    | ShortPassword | NoAccount | LoginTaken | NotActive | WrongPassword | HashFailed
    | EpochOverflow | BadTransition | BadTtl | StorageFailed

  // ----- what each locked section does -----

  function Purged(s: State, login: Login): State {
    s.(sessions := map k | k in s.sessions && s.sessions[k].login != login :: s.sessions[k],
       tokens := map k | k in s.tokens && s.tokens[k].login != login :: s.tokens[k])
  }

  /**
   Write `edited`, move its epoch on, and end every credential of the login.
   When the epoch is at its end the edit has been written and nothing else happens.
   */
  function Renewed(s: State, login: Login, edited: Account, persisted: bool): (State, Result<Account, Error>) {
    if edited.epoch >= MAX_EPOCH then (s.(accounts := s.accounts[login := edited]), Err(EpochOverflow))
    else if !persisted then (s, Err(StorageFailed))
    else
      var renewed := edited.(epoch := edited.epoch + 1);
      (Purged(s.(accounts := s.accounts[login := renewed]), login), Ok(renewed))
  }

  function Reset(s: State, login: Login, password: bytes, hash: Option<string>, persisted: bool)
    : (State, Result<Account, Error>)
  {
    if |password| < MIN_PASSWORD then (s, Err(ShortPassword))
    else if login !in s.accounts then (s, Err(NoAccount))
    else if hash.None? then (s, Err(HashFailed))
    else Renewed(s, login, s.accounts[login].(passwordHash := hash.value, mustChange := true), persisted)
  }

  /** The second half of a password change; the first half verified the current password. */
  function CommitChange(s: State, login: Login, hash: Option<string>, persisted: bool)
    : (State, Result<Account, Error>)
  {
    if login !in s.accounts then (s, Err(NoAccount))
    else if hash.None? then (s, Err(HashFailed))
    else Renewed(s, login, s.accounts[login].(passwordHash := hash.value, mustChange := false), persisted)
  }

  function Force(s: State, login: Login, forced: bool, persisted: bool): (State, Result<Account, Error>) {
    if login !in s.accounts then (s, Err(NoAccount))
    else
      var edited := s.accounts[login].(mustChange := forced);
      if forced then Renewed(s, login, edited, persisted)
      else if !persisted then (s, Err(StorageFailed))
      else (s.(accounts := s.accounts[login := edited]), Ok(edited))
  }

  /** `allowed` lists the statuses the change may start from; `None` allows any. */
  function Transition(s: State, login: Login, to: Status, allowed: Option<set<Status>>, persisted: bool)
    : (State, Result<Account, Error>)
  {
    if login !in s.accounts then (s, Err(NoAccount))
    else if allowed.Some? && s.accounts[login].status !in allowed.value then (s, Err(BadTransition))
    else if s.accounts[login].status == to then (s, Ok(s.accounts[login]))
    else Renewed(s, login, s.accounts[login].(status := to), persisted)
  }

  /** A login an account or an organization already has is never replaced. */
  function Created(s: State, login: Login, account: Account, taken: bool, persisted: bool)
    : (State, Result<Account, Error>)
  {
    if login in s.accounts || taken then (s, Err(LoginTaken))
    else if !persisted then (s, Err(StorageFailed))
    else (s.(accounts := s.accounts[login := account]), Ok(account))
  }

  /** The read that starts the minting of a credential. */
  function ActiveAccount(s: State, login: Login): Result<Account, Error> {
    if login !in s.accounts then Err(NoAccount)
    else if s.accounts[login].status != Active then Err(NotActive)
    else Ok(s.accounts[login])
  }

  // ----- authentication -----

  predicate Current(s: State, login: Login, epoch: nat) {
    login in s.accounts && s.accounts[login].status == Active && s.accounts[login].epoch == epoch
  }

  predicate SessionAuthenticates(s: State, key: string, now: int) {
    && key in s.sessions && s.sessions[key].expires > now
    && Current(s, s.sessions[key].login, s.sessions[key].epoch)
  }

  predicate Unexpired(expires: Option<int>, now: int) {
    expires.None? || expires.value > now
  }

  predicate TokenAuthenticates(s: State, id: nat, now: int) {
    && id in s.tokens && Unexpired(s.tokens[id].expires, now)
    && Current(s, s.tokens[id].login, s.tokens[id].epoch)
  }

  // ----- the service -----

  class ForgeCore {
    var accounts: map<Login, Account>
    var sessions: map<string, Session>
    var tokens: map<nat, Token>

    constructor ()
      ensures Value() == State(map[], map[], map[])
    {
      accounts, sessions, tokens := map[], map[], map[];
    }

    function Value(): State
      reads this
    {
      State(accounts, sessions, tokens)
    }

    method EndCredentials(login: Login)
      modifies `sessions, `tokens
      ensures Value() == Purged(old(Value()), login)
    {
      sessions := map k | k in sessions && sessions[k].login != login :: sessions[k];
      tokens := map k | k in tokens && tokens[k].login != login :: tokens[k];
    }

    method Restore(previous: State)
      modifies this
      ensures Value() == previous
    {
      accounts, sessions, tokens := previous.accounts, previous.sessions, previous.tokens;
    }

    method CreateAccount(login: Login, account: Account, taken: bool, persisted: bool)
      returns (r: Result<Account, Error>)
      modifies this
      ensures (Value(), r) == Created(old(Value()), login, account, taken, persisted)
    {
      if login in accounts || taken {
        return Err(LoginTaken);
      }
      var previous := Value();
      accounts := accounts[login := account];
      if !persisted {
        Restore(previous);
        return Err(StorageFailed);
      }
      r := Ok(account);
    }

    method ResetAccountPassword(login: Login, password: bytes, hash: Option<string>, persisted: bool)
      returns (r: Result<Account, Error>)
      modifies this
      ensures (Value(), r) == Reset(old(Value()), login, password, hash, persisted)
    {
      if |password| < MIN_PASSWORD {
        return Err(ShortPassword);
      }
      if login !in accounts {
        return Err(NoAccount);
      }
      var previous := Value();
      if hash.None? {
        return Err(HashFailed);
      }
      var account := accounts[login].(passwordHash := hash.value, mustChange := true);
      accounts := accounts[login := account];
      if account.epoch >= MAX_EPOCH {
        return Err(EpochOverflow);
      }
      account := account.(epoch := account.epoch + 1);
      accounts := accounts[login := account];
      assert accounts == previous.accounts[login := account];
      EndCredentials(login);
      if !persisted {
        Restore(previous);
        return Err(StorageFailed);
      }
      r := Ok(account);
    }

    /** `verify` says whether a password belongs to a stored hash. */
    method CheckCurrentPassword(verify: (bytes, string) -> bool, login: Login, current: bytes, next: bytes)
      returns (r: Result<Account, Error>)
      ensures r.Ok? <==> |next| >= 12 && login in accounts && accounts[login].status == Active
                         && verify(current, accounts[login].passwordHash)
      ensures r.Ok? ==> r.value == accounts[login] && r == ActiveAccount(Value(), login)
    {
      if |next| < MIN_PASSWORD {
        return Err(ShortPassword);
      }
      if login !in accounts {
        return Err(NoAccount);
      }
      var account := accounts[login];
      if account.status != Active {
        return Err(NotActive);
      }
      if !verify(current, account.passwordHash) {
        return Err(WrongPassword);
      }
      r := Ok(account);
    }

    /** The login was checked before; accounts are never removed. */
    method CommitPasswordChange(login: Login, hash: Option<string>, persisted: bool)
      returns (r: Result<Account, Error>)
      requires login in accounts
      modifies this
      ensures (Value(), r) == CommitChange(old(Value()), login, hash, persisted)
    {
      var previous := Value();
      if hash.None? {
        return Err(HashFailed);
      }
      var account := accounts[login].(passwordHash := hash.value, mustChange := false);
      accounts := accounts[login := account];
      if account.epoch >= MAX_EPOCH {
        return Err(EpochOverflow);
      }
      account := account.(epoch := account.epoch + 1);
      accounts := accounts[login := account];
      assert accounts == previous.accounts[login := account];
      EndCredentials(login);
      if !persisted {
        Restore(previous);
        return Err(StorageFailed);
      }
      r := Ok(account);
    }

    method ForcePasswordChange(login: Login, forced: bool, persisted: bool) returns (r: Result<Account, Error>)
      modifies this
      ensures (Value(), r) == Force(old(Value()), login, forced, persisted)
    {
      if login !in accounts {
        return Err(NoAccount);
      }
      var previous := Value();
      var account := accounts[login].(mustChange := forced);
      accounts := accounts[login := account];
      if forced {
        if account.epoch >= MAX_EPOCH {
          return Err(EpochOverflow);
        }
        account := account.(epoch := account.epoch + 1);
        accounts := accounts[login := account];
        assert accounts == previous.accounts[login := account];
        EndCredentials(login);
      }
      if !persisted {
        Restore(previous);
        return Err(StorageFailed);
      }
      r := Ok(account);
    }

    method TransitionAccountStatus(login: Login, to: Status, allowed: Option<set<Status>>, persisted: bool)
      returns (r: Result<Account, Error>)
      modifies this
      ensures (Value(), r) == Transition(old(Value()), login, to, allowed, persisted)
    {
      if login !in accounts {
        return Err(NoAccount);
      }
      var previous := Value();
      var account := accounts[login];
      if allowed.Some? && account.status !in allowed.value {
        return Err(BadTransition);
      }
      if account.status == to {
        return Ok(account);
      }
      account := account.(status := to);
      accounts := accounts[login := account];
      if account.epoch >= MAX_EPOCH {
        return Err(EpochOverflow);
      }
      account := account.(epoch := account.epoch + 1);
      accounts := accounts[login := account];
      assert accounts == previous.accounts[login := account];
      EndCredentials(login);
      if !persisted {
        Restore(previous);
        return Err(StorageFailed);
      }
      r := Ok(account);
    }

    method SessionForToken(key: string, now: int) returns (r: Option<(Account, Session)>)
      ensures r.Some? <==> SessionAuthenticates(Value(), key, now)
      ensures r.Some? ==> r.value == (accounts[sessions[key].login], sessions[key])
    {
      if key !in sessions {
        return None;
      }
      var session := sessions[key];
      if session.expires <= now || session.login !in accounts {
        return None;
      }
      var account := accounts[session.login];
      if account.status != Active || account.epoch != session.epoch {
        return None;
      }
      r := Some((account, session));
    }

    /** Any one unexpired record with the hash is looked at, and only that one. */
    method AuthenticatePersonalAccessToken(hash: string, now: int) returns (r: Option<Account>)
      ensures r.Some? ==> exists id :: TokenAuthenticates(Value(), id, now) && tokens[id].hash == hash
                                       && r.value == accounts[tokens[id].login]
      ensures r.None? ==> (forall id :: TokenAuthenticates(Value(), id, now) ==> tokens[id].hash != hash)
                          || exists id :: id in tokens && tokens[id].hash == hash
                               && Unexpired(tokens[id].expires, now) && !TokenAuthenticates(Value(), id, now)
    {
      if forall id | id in tokens :: tokens[id].hash == hash ==> !Unexpired(tokens[id].expires, now) {
        return None;
      }
      var id :| id in tokens && tokens[id].hash == hash && Unexpired(tokens[id].expires, now);
      var token := tokens[id];
      if token.login !in accounts || accounts[token.login].status != Active
         || accounts[token.login].epoch != token.epoch {
        assert !TokenAuthenticates(Value(), id, now);
        return None;
      }
      assert TokenAuthenticates(Value(), id, now);
      r := Some(accounts[token.login]);
    }

    /** The later half of minting a session; `account` was read under an earlier lock. */
    method InsertSession(login: Login, account: Account, key: string, expires: int, persisted: bool)
      returns (r: Result<Session, Error>)
      modifies this
      ensures (Value(), r) == SessionInserted(old(Value()), login, account.epoch, key, expires, persisted)
    {
      var previous := Value();
      var session := Session(login, account.epoch, expires);
      sessions := sessions[key := session];
      if !persisted {
        Restore(previous);
        return Err(StorageFailed);
      }
      r := Ok(session);
    }

    /** The later half of minting a personal access token. */
    method InsertToken(login: Login, account: Account, id: nat, hash: string, expires: Option<int>, persisted: bool)
      returns (r: Result<Token, Error>)
      modifies this
      ensures (Value(), r) == TokenInserted(old(Value()), id, Token(login, account.epoch, hash, expires), persisted)
    {
      var previous := Value();
      var token := Token(login, account.epoch, hash, expires);
      tokens := tokens[id := token];
      if !persisted {
        Restore(previous);
        return Err(StorageFailed);
      }
      r := Ok(token);
    }
  }

  function SessionInserted(s: State, login: Login, epoch: nat, key: string, expires: int, persisted: bool)
    : (State, Result<Session, Error>)
  {
    if !persisted then (s, Err(StorageFailed))
    else (s.(sessions := s.sessions[key := Session(login, epoch, expires)]), Ok(Session(login, epoch, expires)))
  }

  function TokenInserted(s: State, id: nat, token: Token, persisted: bool): (State, Result<Token, Error>) {
    if !persisted then (s, Err(StorageFailed))
    else (s.(tokens := s.tokens[id := token]), Ok(token))
  }

  // ----- what a failing call leaves behind -----

  /** A renewal that fails has changed something exactly when its edit was made at the last epoch. */
  lemma FailedRenewalIsHarmlessExactlyWhen(s: State, login: Login, edited: Account, persisted: bool)
    requires login in s.accounts && Renewed(s, login, edited, persisted).1.Err?
    ensures Renewed(s, login, edited, persisted).0 == s <==>
            edited.epoch < MAX_EPOCH || edited == s.accounts[login]
  {
    assert s.accounts[login := edited][login] == edited;
    assert s.accounts[login := s.accounts[login]] == s.accounts;
  }

  /**
   A failing reset leaves everything as it was if and only if it stopped before
   the write, the epoch is not the last, or the account already read like that.
   */
  lemma FailedResetIsHarmlessExactlyWhen(s: State, login: Login, password: bytes, hash: Option<string>,
                                         persisted: bool)
    requires Reset(s, login, password, hash, persisted).1.Err?
    ensures Reset(s, login, password, hash, persisted).0 == s <==>
      || |password| < MIN_PASSWORD || login !in s.accounts || hash.None?
      || s.accounts[login].epoch < MAX_EPOCH
      || (s.accounts[login].passwordHash == hash.value && s.accounts[login].mustChange)
    ensures var s' := Reset(s, login, password, hash, persisted).0;
      && (s' != s ==> s'.accounts[login] == s.accounts[login].(passwordHash := hash.value, mustChange := true))
      && (forall key, now :: SessionAuthenticates(s', key, now) <==> SessionAuthenticates(s, key, now))
      && (forall id, now :: TokenAuthenticates(s', id, now) <==> TokenAuthenticates(s, id, now))
  {
    FailedResetKeepsCredentials(s, login, password, hash, persisted);
    if login in s.accounts && hash.Some? {
      FailedEditIsHarmless(s, login, s.accounts[login].(passwordHash := hash.value, mustChange := true), persisted);
      hide Renewed;
    }
  }

  /** The new password is in force then, while every credential of the account still works. */
  lemma FailedResetKeepsCredentials(s: State, login: Login, password: bytes, hash: Option<string>, persisted: bool)
    requires Reset(s, login, password, hash, persisted).1.Err?
    ensures var s' := Reset(s, login, password, hash, persisted).0;
      && (s' != s ==> s'.accounts[login] == s.accounts[login].(passwordHash := hash.value, mustChange := true))
      && (forall key, now :: SessionAuthenticates(s', key, now) <==> SessionAuthenticates(s, key, now))
      && (forall id, now :: TokenAuthenticates(s', id, now) <==> TokenAuthenticates(s, id, now))
  {
  }

  lemma FailedChangeIsHarmlessExactlyWhen(s: State, login: Login, hash: Option<string>, persisted: bool)
    requires CommitChange(s, login, hash, persisted).1.Err?
    ensures CommitChange(s, login, hash, persisted).0 == s <==>
      || login !in s.accounts || hash.None?
      || s.accounts[login].epoch < MAX_EPOCH
      || (s.accounts[login].passwordHash == hash.value && !s.accounts[login].mustChange)
  {
    if login in s.accounts && hash.Some? {
      FailedEditIsHarmless(s, login, s.accounts[login].(passwordHash := hash.value, mustChange := false), persisted);
      hide Renewed;
    }
  }

  /** Lifting the demand for a change moves no epoch, so it fails without a trace. */
  lemma FailedForceIsHarmlessExactlyWhen(s: State, login: Login, forced: bool, persisted: bool)
    requires Force(s, login, forced, persisted).1.Err?
    ensures Force(s, login, forced, persisted).0 == s <==>
      || login !in s.accounts || !forced
      || s.accounts[login].epoch < MAX_EPOCH || s.accounts[login].mustChange
  {
    if login in s.accounts && forced {
      FailedEditIsHarmless(s, login, s.accounts[login].(mustChange := forced), persisted);
      hide Renewed;
    }
  }

  /** A status change that gets as far as the write always differs from the account. */
  lemma FailedTransitionIsHarmlessExactlyWhen(s: State, login: Login, to: Status, allowed: Option<set<Status>>,
                                              persisted: bool)
    requires Transition(s, login, to, allowed, persisted).1.Err?
    ensures Transition(s, login, to, allowed, persisted).0 == s <==>
      || login !in s.accounts || (allowed.Some? && s.accounts[login].status !in allowed.value)
      || s.accounts[login].epoch < MAX_EPOCH
  {
    if login in s.accounts && s.accounts[login].status != to {
      FailedEditIsHarmless(s, login, s.accounts[login].(status := to), persisted);
      hide Renewed;
    }
  }

  lemma FailedEditIsHarmless(s: State, login: Login, edited: Account, persisted: bool)
    requires login in s.accounts
    ensures var (s', r) := Renewed(s, login, edited, persisted);
      r.Err? ==> (s' == s <==> edited.epoch < MAX_EPOCH || edited == s.accounts[login])
  {
    if Renewed(s, login, edited, persisted).1.Err? {
      FailedRenewalIsHarmlessExactlyWhen(s, login, edited, persisted);
    }
  }

  /**
   At the last epoch three failing status changes take an account round: the
   first silences its sessions, and after the third the same old session works.
   */
  lemma FailedStatusChangesReviveOldSessions(s: State, key: string, now: int, persisted: bool)
    requires SessionAuthenticates(s, key, now) && s.accounts[s.sessions[key].login].epoch >= MAX_EPOCH
    ensures var login := s.sessions[key].login;
      var disabled := Transition(s, login, Disabled, None, persisted);
      var pending := Transition(disabled.0, login, PendingMfa, Some({Disabled, Locked}), persisted);
      var active := Transition(pending.0, login, Active, Some({PendingMfa}), persisted);
      && disabled.1.Err? && !SessionAuthenticates(disabled.0, key, now)
      && pending.1.Err? && !SessionAuthenticates(pending.0, key, now)
      && active.1.Err? && SessionAuthenticates(active.0, key, now) && active.0 == s
  {
    var login := s.sessions[key].login;
    var account := s.accounts[login];
    var s1 := Transition(s, login, Disabled, None, persisted).0;
    assert s1 == s.(accounts := s.accounts[login := account.(status := Disabled)]);
    var s2 := Transition(s1, login, PendingMfa, Some({Disabled, Locked}), persisted).0;
    assert s2 == s.(accounts := s.accounts[login := account.(status := PendingMfa)]);
    var s3 := Transition(s2, login, Active, Some({PendingMfa}), persisted).0;
    assert s3.accounts == s.accounts[login := account];
    assert s3.accounts == s.accounts;
  }

  // ----- when the calls succeed, and what they then do -----

  /** The account is as given, with the next epoch; its credentials are gone, and nothing else has changed. */
  predicate IsRenewed(s: State, s': State, login: Login, account: Account) {
    && s'.accounts == s.accounts[login := account]
    && s'.sessions == (map k | k in s.sessions && s.sessions[k].login != login :: s.sessions[k])
    && s'.tokens == map t | t in s.tokens && s.tokens[t].login != login :: s.tokens[t]
  }

  lemma ResetsExactlyWhen(s: State, login: Login, password: bytes, hash: Option<string>, persisted: bool)
    ensures var (s', r) := Reset(s, login, password, hash, persisted);
      && (r.Ok? <==> |password| >= 12 && login in s.accounts && hash.Some?
                     && s.accounts[login].epoch < 0xFFFF_FFFF_FFFF_FFFF && persisted)
      && (r.Ok? ==>
            && r.value == s.accounts[login].(passwordHash := hash.value, mustChange := true,
                                             epoch := s.accounts[login].epoch + 1)
            && IsRenewed(s, s', login, r.value))
  {
  }

  lemma ChangesExactlyWhen(s: State, login: Login, hash: Option<string>, persisted: bool)
    ensures var (s', r) := CommitChange(s, login, hash, persisted);
      && (r.Ok? <==> login in s.accounts && hash.Some? && s.accounts[login].epoch < 0xFFFF_FFFF_FFFF_FFFF && persisted)
      && (r.Ok? ==>
            && r.value == s.accounts[login].(passwordHash := hash.value, mustChange := false,
                                             epoch := s.accounts[login].epoch + 1)
            && IsRenewed(s, s', login, r.value))
  {
  }

  /** Only demanding a change renews; lifting the demand leaves epoch and credentials. */
  lemma ForcesExactlyWhen(s: State, login: Login, forced: bool, persisted: bool)
    ensures var (s', r) := Force(s, login, forced, persisted);
      && (r.Ok? <==> login in s.accounts && (forced ==> s.accounts[login].epoch < 0xFFFF_FFFF_FFFF_FFFF) && persisted)
      && (r.Ok? && forced ==>
            && r.value == s.accounts[login].(mustChange := true, epoch := s.accounts[login].epoch + 1)
            && IsRenewed(s, s', login, r.value))
      && (r.Ok? && !forced ==>
            && r.value == s.accounts[login].(mustChange := false)
            && s' == s.(accounts := s.accounts[login := r.value]))
  {
  }

  /** A status that is already there is a success that changes nothing, stored or not. */
  lemma TransitionsExactlyWhen(s: State, login: Login, to: Status, allowed: Option<set<Status>>, persisted: bool)
    ensures var (s', r) := Transition(s, login, to, allowed, persisted);
      && (r.Ok? <==>
            && login in s.accounts && (allowed.Some? ==> s.accounts[login].status in allowed.value)
            && (s.accounts[login].status == to
                || (s.accounts[login].epoch < 0xFFFF_FFFF_FFFF_FFFF && persisted)))
      && (r.Ok? && s.accounts[login].status == to ==> r.value == s.accounts[login] && s' == s)
      && (r.Ok? && s.accounts[login].status != to ==>
            && r.value == s.accounts[login].(status := to, epoch := s.accounts[login].epoch + 1)
            && IsRenewed(s, s', login, r.value))
  {
  }

  lemma CreatesExactlyWhen(s: State, login: Login, account: Account, taken: bool, persisted: bool)
    ensures var (s', r) := Created(s, login, account, taken, persisted);
      && (r.Ok? <==> login !in s.accounts && !taken && persisted)
      && (r.Ok? ==> r.value == account)
      && s' == if r.Ok? then s.(accounts := s.accounts[login := account]) else s
  {
  }

  /** Only an active account is read for a mint or for a password change, as it is. */
  lemma ReadsExactlyWhen(s: State, login: Login)
    ensures ActiveAccount(s, login).Ok? <==> login in s.accounts && s.accounts[login].status == Active
    ensures ActiveAccount(s, login).Ok? ==> ActiveAccount(s, login).value == s.accounts[login]
  {
  }

  /** A stored mint adds the one credential, with the login, epoch and expiry given, and nothing else. */
  lemma MintsExactlyWhen(s: State, login: Login, epoch: nat, key: string, expires: int, id: nat, token: Token,
                         persisted: bool)
    ensures var (s', r) := SessionInserted(s, login, epoch, key, expires, persisted);
      && (r.Ok? <==> persisted) && (r.Ok? ==> r.value == Session(login, epoch, expires))
      && s' == if persisted then s.(sessions := s.sessions[key := Session(login, epoch, expires)]) else s
    ensures var (s', r) := TokenInserted(s, id, token, persisted);
      && (r.Ok? <==> persisted) && (r.Ok? ==> r.value == token)
      && s' == if persisted then s.(tokens := s.tokens[id := token]) else s
  {
  }

  /** A session or token works for an unexpired record at the epoch of its active account. */
  lemma AuthenticatesExactlyWhen(s: State, key: string, id: nat, now: int)
    ensures SessionAuthenticates(s, key, now) <==>
      && key in s.sessions && now < s.sessions[key].expires && s.sessions[key].login in s.accounts
      && s.accounts[s.sessions[key].login].status == Active
      && s.accounts[s.sessions[key].login].epoch == s.sessions[key].epoch
    ensures TokenAuthenticates(s, id, now) <==>
      && id in s.tokens && (s.tokens[id].expires == None || now < s.tokens[id].expires.value)
      && s.tokens[id].login in s.accounts && s.accounts[s.tokens[id].login].status == Active
      && s.accounts[s.tokens[id].login].epoch == s.tokens[id].epoch
  {
  }

  // ----- what a committed renewal leaves behind -----

  /** Exactly the promised fields, no credential of the account, and every other account as it was. */
  lemma RenewalKeepsItsPromise(s: State, login: Login, edited: Account, persisted: bool)
    requires Renewed(s, login, edited, persisted).1.Ok?
    ensures var s' := Renewed(s, login, edited, persisted).0;
      && (forall k | k in s'.sessions :: s'.sessions[k].login != login)
      && (forall t | t in s'.tokens :: s'.tokens[t].login != login)
      && (forall k | k in s.sessions && s.sessions[k].login != login ::
            k in s'.sessions && s'.sessions[k] == s.sessions[k])
      && (forall t | t in s.tokens && s.tokens[t].login != login :: t in s'.tokens && s'.tokens[t] == s.tokens[t])
      && login in s'.accounts && s'.accounts[login] == edited.(epoch := edited.epoch + 1)
      && (forall l | l != login :: (l in s'.accounts <==> l in s.accounts)
            && (l in s.accounts ==> s'.accounts[l] == s.accounts[l]))
  {
  }
}
