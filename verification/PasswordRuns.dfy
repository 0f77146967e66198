/**
 Password changes between their two halves (crates/jeryu-core/src/engine/auth.rs).

 A change verifies the current password under one lock and writes the new one
 under a later lock, without looking at the old one again. This module watches
 the runs of module AccountRuns for what each change had verified.
 */
module PasswordRuns {
  import opened Common
  import opened Utf8
  import opened Accounts
  import opened AccountRuns

  /** What a change verified, and when. */
  datatype Check = Check(login: Login, hash: string, at: nat)

  /** `checks` are the changes between their halves, `rewrittenAt` dates the last committed reset or change. */
  datatype Watched = Watched(world: World, checks: map<nat, Check>, rewrittenAt: map<Login, nat>)

  const UNWATCHED: Watched := Watched(START, map[], map[])

  /** The action commits a new password for `login`. */
  predicate Rewrites(w: World, a: Action, login: Login) {
    (a.ResetPassword? || a.ChangePassword?) && Commits(w, a, login)
  }

  function Observe(v: Watched, a: Action): Watched {
    var w := v.world;
    Watched(
      Apply(w, a),
      if a.CheckPassword? && ActiveAccount(w.core, a.login).Ok? then
        v.checks[a.call := Check(a.login, w.core.accounts[a.login].passwordHash, w.clock)]
      else v.checks,
      if RenewalOf(w, a).Renewal? && Rewrites(w, a, RenewalOf(w, a).login) then
        v.rewrittenAt[RenewalOf(w, a).login := w.clock]
      else v.rewrittenAt)
  }

  function Watch(v: Watched, actions: seq<Action>): Watched
    decreases |actions|
  {
    if actions == [] then v else Watch(Observe(v, actions[0]), actions[1..])
  }

  /** Watching changes nothing. */
  lemma {:induction false} WatchingIsRunning(v: Watched, actions: seq<Action>)
    ensures Watch(v, actions).world == Run(v.world, actions)
    decreases |actions|
  {
    hide Apply;
    if actions != [] {
      WatchingIsRunning(Observe(v, actions[0]), actions[1..]);
    }
  }

  /** Hashes are salted: a new one is none of those some change has verified. */
  predicate Salted(v: Watched, a: Action) {
    (a.ResetPassword? || a.ChangePassword?) && a.hash.Some? ==>
      forall c | c in v.checks :: v.checks[c].hash != a.hash.value
  }

  predicate AllSalted(v: Watched, actions: seq<Action>)
    decreases |actions|
  {
    actions == [] || (Salted(v, actions[0]) && AllSalted(Observe(v, actions[0]), actions[1..]))
  }

  predicate RewrittenSince(v: Watched, login: Login, at: nat) {
    login in v.rewrittenAt && at <= v.rewrittenAt[login]
  }

  // ----- the invariant -----

  /**
   Below the last epoch, the account still has the verified password exactly
   when no new one was committed since.
   */
  predicate CheckOk(v: Watched, c: Check) {
    && c.login in v.world.core.accounts && c.at < v.world.clock
    && (v.world.core.accounts[c.login].epoch < MAX_EPOCH ==>
          (v.world.core.accounts[c.login].passwordHash == c.hash <==> !RewrittenSince(v, c.login, c.at)))
  }

  ghost predicate WatchInv(v: Watched) {
    && (forall c :: c in v.checks <==> c in v.world.changes)
    && (forall c | c in v.checks :: v.checks[c].login == v.world.changes[c] && CheckOk(v, v.checks[c]))
    && (forall l | l in v.rewrittenAt :: v.rewrittenAt[l] < v.world.clock)
  }

  /** Only a committed reset or change, or a call at the last epoch, writes a password. */
  lemma PasswordsChangeByRewriting(w: World, a: Action, login: Login)
    requires login in w.core.accounts
    ensures login in Apply(w, a).core.accounts
    ensures Apply(w, a).core.accounts[login].epoch < MAX_EPOCH ==>
      w.core.accounts[login].epoch < MAX_EPOCH
    ensures w.core.accounts[login].epoch < MAX_EPOCH ==>
      Apply(w, a).core.accounts[login].passwordHash
      == if Rewrites(w, a, login) && a.hash.Some? then a.hash.value else w.core.accounts[login].passwordHash
    ensures Rewrites(w, a, login) ==> a.hash.Some?
  {
    EpochsAdvance(w, a, login);
    if RenewalOf(w, a).Renewal? {
      RenewalWritesHash(w, a, login);
    }
    hide RenewalOf;
  }

  lemma RenewedAccounts(s: State, login: Login, edited: Account, persisted: bool)
    ensures Accounts.Renewed(s, login, edited, persisted).0.accounts ==
      (if edited.epoch >= MAX_EPOCH then s.accounts[login := edited]
       else if !persisted then s.accounts
       else s.accounts[login := edited.(epoch := edited.epoch + 1)])
    ensures Accounts.Renewed(s, login, edited, persisted).1.Ok? <==> edited.epoch < MAX_EPOCH && persisted
  {
  }

  lemma RenewalWritesHash(w: World, a: Action, login: Login)
    requires RenewalOf(w, a).Renewal? && login in w.core.accounts
    ensures var r := RenewalOf(w, a);
      && login in r.core.accounts
      && (Rewrites(w, a, login) ==> a.hash.Some?)
      && (w.core.accounts[login].epoch < MAX_EPOCH ==>
            r.core.accounts[login].passwordHash
            == if Rewrites(w, a, login) && a.hash.Some? then a.hash.value else w.core.accounts[login].passwordHash)
  {
    var at := RenewalOf(w, a).login;
    if at in w.core.accounts {
      var account := w.core.accounts[at];
      match a {
        case ResetPassword(_, _, hash, stored) =>
          if hash.Some? {
            RenewedAccounts(w.core, at, account.(passwordHash := hash.value, mustChange := true), stored);
          }
        case ChangePassword(_, hash, stored) =>
          if hash.Some? {
            RenewedAccounts(w.core, at, account.(passwordHash := hash.value, mustChange := false), stored);
          }
        case ForceChange(_, forced, stored) =>
          RenewedAccounts(w.core, at, account.(mustChange := forced), stored);
        case SetStatus(_, to, _, stored) => RenewedAccounts(w.core, at, account.(status := to), stored);
      }
      hide Accounts.Renewed;
    }
  }

  lemma CheckStaysOk(v: Watched, a: Action, c: Check)
    requires CheckOk(v, c) && (forall l | l in v.rewrittenAt :: v.rewrittenAt[l] < v.world.clock)
    requires (a.ResetPassword? || a.ChangePassword?) && a.hash.Some? ==> c.hash != a.hash.value
    ensures CheckOk(Observe(v, a), c)
  {
    PasswordsChangeByRewriting(v.world, a, c.login);
    RenewalsAreDated(v.world, a);
    RewritesAreDated(v, a, c.login);
    hide Apply, RenewalOf;
  }

  lemma RewritesAreDated(v: Watched, a: Action, login: Login)
    ensures var v' := Observe(v, a);
      if Rewrites(v.world, a, login) then login in v'.rewrittenAt && v'.rewrittenAt[login] == v.world.clock
      else (login in v'.rewrittenAt <==> login in v.rewrittenAt)
           && (login in v.rewrittenAt ==> v'.rewrittenAt[login] == v.rewrittenAt[login])
  {
    hide Apply, RenewalOf;
  }

  lemma ChangesFollowChecks(v: Watched, a: Action)
    requires forall c :: c in v.checks <==> c in v.world.changes
    requires forall c | c in v.checks :: v.checks[c].login == v.world.changes[c]
    ensures var v' := Observe(v, a);
      && (forall c :: c in v'.checks <==> c in v'.world.changes)
      && (forall c | c in v'.checks :: v'.checks[c].login == v'.world.changes[c])
  {
    CheckingRenewsNothing(v.world, a);
    hide RenewalOf;
  }

  lemma CheckingRenewsNothing(w: World, a: Action)
    ensures a.CheckPassword? ==> RenewalOf(w, a).Absent?
  {
  }

  lemma EveryCheckStaysOk(v: Watched, a: Action, c: nat)
    requires WatchInv(v) && Salted(v, a) && c in Observe(v, a).checks
    ensures CheckOk(Observe(v, a), Observe(v, a).checks[c])
  {
    var v' := Observe(v, a);
    if a.CheckPassword? && ActiveAccount(v.world.core, a.login).Ok? && c == a.call {
      NewCheckIsOk(v, a);
    } else {
      hide CheckOk, Apply, RenewalOf;
      CheckStaysOk(v, a, v.checks[c]);
    }
  }

  lemma RewritesArePast(v: Watched, a: Action)
    requires forall l | l in v.rewrittenAt :: v.rewrittenAt[l] < v.world.clock
    ensures forall l | l in Observe(v, a).rewrittenAt :: Observe(v, a).rewrittenAt[l] < Observe(v, a).world.clock
  {
    RenewalsAreDated(v.world, a);
    hide Apply, RenewalOf;
  }

  lemma ObserveKeepsInv(v: Watched, a: Action)
    requires WatchInv(v) && Salted(v, a)
    ensures WatchInv(Observe(v, a))
  {
    ChangesFollowChecks(v, a);
    RewritesArePast(v, a);
    hide Observe, CheckOk;
    forall c | c in Observe(v, a).checks ensures CheckOk(Observe(v, a), Observe(v, a).checks[c]) {
      EveryCheckStaysOk(v, a, c);
    }
  }

  lemma NewCheckIsOk(v: Watched, a: Action)
    requires a.CheckPassword? && ActiveAccount(v.world.core, a.login).Ok?
    requires forall l | l in v.rewrittenAt :: v.rewrittenAt[l] < v.world.clock
    ensures CheckOk(Observe(v, a), Check(a.login, v.world.core.accounts[a.login].passwordHash, v.world.clock))
  {
  }

  lemma {:induction false} WatchKeepsInv(v: Watched, actions: seq<Action>)
    requires WatchInv(v) && AllSalted(v, actions)
    ensures WatchInv(Watch(v, actions))
    decreases |actions|
  {
    hide WatchInv, Observe, Salted;
    if actions != [] {
      ObserveKeepsInv(v, actions[0]);
      WatchKeepsInv(Observe(v, actions[0]), actions[1..]);
    }
  }

  // ----- the theorems -----

  /**
   In every run, a change that commits replaces exactly the password it had
   verified if and only if no reset or change of that account committed between
   its two halves.
   */
  lemma ChangeReplacesWhatItVerified(actions: seq<Action>, change: Action, login: Login)
    requires AllSalted(UNWATCHED, actions)
    requires change.ChangePassword? && Commits(Watch(UNWATCHED, actions).world, change, login)
    ensures var v := Watch(UNWATCHED, actions);
      && change.call in v.checks && v.checks[change.call].login == login && login in v.world.core.accounts
      && (v.world.core.accounts[login].passwordHash == v.checks[change.call].hash <==>
            !RewrittenSince(v, login, v.checks[change.call].at))
  {
    assert WatchInv(UNWATCHED);
    WatchKeepsInv(UNWATCHED, actions);
    hide Watch, AllSalted, WatchInv, Run;
    var v := Watch(UNWATCHED, actions);
    assert WatchInv(v);
    CommittedChangeIsBelowTheLastEpoch(v.world, change, login);
    assert CheckOk(v, v.checks[change.call]) by { InvOfCheck(v, change.call); }
    InvOfCheck(v, change.call);
  }

  lemma InvOfCheck(v: Watched, c: nat)
    requires WatchInv(v) && c in v.world.changes
    ensures c in v.checks && v.checks[c].login == v.world.changes[c] && CheckOk(v, v.checks[c])
  {
  }

  lemma CommittedChangeIsBelowTheLastEpoch(w: World, change: Action, login: Login)
    requires change.ChangePassword? && Commits(w, change, login)
    ensures change.call in w.changes && w.changes[change.call] == login
    ensures login in w.core.accounts && w.core.accounts[login].epoch < MAX_EPOCH
  {
  }

  /**
   So a change under way overrides a reset: it commits after it, replaces the
   reset password without having verified it, and lifts the demand to change it.
   */
  lemma ChangeUnderWayOverridesReset(w: World, call: nat, login: Login, password: bytes, reset: string, chosen: string)
    requires ActiveAccount(w.core, login).Ok? && w.core.accounts[login].epoch + 1 < MAX_EPOCH
    requires |password| >= MIN_PASSWORD
    ensures var w1 := Apply(w, CheckPassword(call, login));
      var byAdmin := ResetPassword(login, password, Some(reset), true);
      var w2 := Apply(w1, byAdmin);
      var byUser := ChangePassword(call, Some(chosen), true);
      var w3 := Apply(w2, byUser);
      && Commits(w1, byAdmin, login) && Commits(w2, byUser, login)
      && login in w2.core.accounts && login in w3.core.accounts
      && w2.core.accounts[login].passwordHash == reset && w2.core.accounts[login].mustChange
      && w3.core.accounts[login].passwordHash == chosen && !w3.core.accounts[login].mustChange
  {
    var w1 := Apply(w, CheckPassword(call, login));
    assert w1.core == w.core && call in w1.changes && w1.changes[call] == login;
    var w2 := Apply(w1, ResetPassword(login, password, Some(reset), true));
    assert w2.core.accounts[login] == w.core.accounts[login].(passwordHash := reset, mustChange := true,
                                                               epoch := w.core.accounts[login].epoch + 1);
    assert w2.changes == w1.changes;
  }
}
