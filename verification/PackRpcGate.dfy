/**
 The admission gate of pack RPCs (crates/jeryu-gitd/src/pack_rpc.rs): a counting
 semaphore on a mutex and a condition variable, with timeouts.

 Any number of threads take and return slots. The mutex is explicit: a thread
 holds it exactly while it is at `Checking` or `Freeing`. The notification of
 a returned slot is a step of its own, after the unlock.
 */
module PackRpcGate {
  import opened Common

  const MAX_WAIT: nat := 300

  /** What `PackRpcGate::new` makes of its arguments; times are in seconds. */
  datatype Config = Config(limit: nat, wait: nat)

  function NewGate(limit: nat, wait: nat): (c: Config)
    ensures c.limit >= 1 && c.wait <= 300
    ensures limit >= 1 ==> c.limit == limit
    ensures wait <= 300 ==> c.wait == wait
  {
    Config(if limit < 1 then 1 else limit, if wait < MAX_WAIT then wait else MAX_WAIT)
  }

  /**
   `Queued` threads want the mutex to look for a slot, `Returning` ones to give
   theirs back; `Running(n)` was the `n`th to run at once when admitted.
   */
  datatype Pc =
    | Idle
    | Queued(started: nat, deadline: nat)
    | Checking(started: nat, deadline: nat)
    | Asleep(started: nat, deadline: nat)
    | Running(admitted: nat, waited: nat)
    | Refused(waited: nat)
    | Returning
    | Freeing
    | Notifying

  type Thread = nat

  datatype State = State(threads: map<Thread, Pc>, owner: Option<Thread>, running: nat, now: nat)

  predicate HoldsSlot(pc: Pc) {
    pc.Running? || pc.Returning? || pc.Freeing?
  }

  predicate HoldsMutex(pc: Pc) {
    pc.Checking? || pc.Freeing?
  }

  function Slots(s: State): set<Thread> {
    set t | t in s.threads && HoldsSlot(s.threads[t])
  }

  function Moved(s: State, t: Thread, pc: Pc): State {
    s.(threads := s.threads[t := pc])
  }

  function SaturatingSub(a: nat, b: nat): nat {
    if a < b then 0 else a - b
  }

  function Woken(threads: map<Thread, Pc>): map<Thread, Pc> {
    map t | t in threads ::
      if threads[t].Asleep? then Queued(threads[t].started, threads[t].deadline) else threads[t]
  }

  /** One step of thread `t`; a sleeper may wake at any time, by timeout or for no reason. */
  predicate Acts(c: Config, s: State, t: Thread, s': State)
    requires t in s.threads
  {
    match s.threads[t]
    case Idle => s' == Moved(s, t, Queued(s.now, s.now + c.wait))
    case Queued(started, deadline) =>
      s.owner.None? && s' == Moved(s, t, Checking(started, deadline)).(owner := Some(t))
    case Checking(started, deadline) =>
      s' == (if s.running < c.limit then
               Moved(s, t, Running(s.running + 1, SaturatingSub(s.now, started)))
                 .(owner := None, running := s.running + 1)
             else if s.now >= deadline then Moved(s, t, Refused(SaturatingSub(s.now, started))).(owner := None)
             else Moved(s, t, Asleep(started, deadline)).(owner := None))
    case Asleep(started, deadline) => s' == Moved(s, t, Queued(started, deadline))
    case Running(_, _) => s' == Moved(s, t, Returning)
    case Refused(_) => s' == Moved(s, t, Idle)
    case Returning => s.owner.None? && s' == Moved(s, t, Freeing).(owner := Some(t))
    case Freeing => s' == Moved(s, t, Notifying).(owner := None, running := SaturatingSub(s.running, 1))
    case Notifying => s' == s.(threads := Woken(s.threads)[t := Idle])
  }

  ghost predicate Next(c: Config, s: State, s': State) {
    || (exists t: Thread :: t in s.threads && Acts(c, s, t, s'))
    || (exists t: Thread :: t !in s.threads && s' == Moved(s, t, Idle))
    || (exists later: nat :: later >= s.now && s' == s.(now := later))
  }

  ghost predicate Init(s: State) {
    s.threads == map[] && s.owner.None? && s.running == 0
  }

  ghost predicate Reachable(c: Config, run: seq<State>) {
    |run| > 0 && Init(run[0]) && forall k | 0 <= k < |run| - 1 :: Next(c, run[k], run[k + 1])
  }

  // ----- the invariant -----

  /** The counter is the number of slots held, and never passes the limit. */
  ghost predicate CountInv(c: Config, s: State) {
    s.running == |Slots(s)| && s.running <= c.limit
  }

  ghost predicate MutexInv(s: State) {
    && (forall t | t in s.threads :: HoldsMutex(s.threads[t]) <==> s.owner == Some(t))
    && (s.owner.Some? ==> s.owner.value in s.threads)
  }

  predicate IsAsleep(s: State, t: Thread) {
    t in s.threads && s.threads[t].Asleep?
  }

  predicate IsNotifying(s: State, t: Thread) {
    t in s.threads && s.threads[t].Notifying?
  }

  /** Nobody sleeps beside a free slot unless a notification is on its way. */
  ghost predicate WakeInv(c: Config, s: State) {
    (exists t :: IsAsleep(s, t)) && s.running < c.limit ==> exists t :: IsNotifying(s, t)
  }

  predicate WaitOk(c: Config, s: State, pc: Pc) {
    match pc
    case Queued(started, deadline) => started <= s.now && deadline == started + c.wait
    case Checking(started, deadline) => started <= s.now && deadline == started + c.wait
    case Asleep(started, deadline) => started <= s.now && deadline == started + c.wait
    case Refused(waited) => waited >= c.wait
    case Running(admitted, _) => 1 <= admitted <= c.limit
    case _ => true
  }

  ghost predicate WaitInv(c: Config, s: State) {
    forall t | t in s.threads :: WaitOk(c, s, s.threads[t])
  }

  ghost predicate Inv(c: Config, s: State) {
    CountInv(c, s) && MutexInv(s) && WakeInv(c, s) && WaitInv(c, s)
  }

  // ----- one step -----

  /** The slots held after a step, and what the counter says of them. */
  lemma ActsKeepsCount(c: Config, s: State, t: Thread, s': State)
    requires t in s.threads && Acts(c, s, t, s') && CountInv(c, s)
    ensures CountInv(c, s')
  {
    var pc := s.threads[t];
    assert HoldsSlot(pc) <==> t in Slots(s);
    assert forall u | u in s'.threads && u != t ::
        u in s.threads && (HoldsSlot(s'.threads[u]) <==> HoldsSlot(s.threads[u]));
    assert s'.threads.Keys == s.threads.Keys;
    SlotsMoved(s, t, s');
    hide Slots;
  }

  lemma SlotsMoved(s: State, t: Thread, s': State)
    requires t in s.threads && s'.threads.Keys == s.threads.Keys
    requires forall u | u in s.threads && u != t :: HoldsSlot(s'.threads[u]) <==> HoldsSlot(s.threads[u])
    ensures HoldsSlot(s.threads[t]) == HoldsSlot(s'.threads[t]) ==> |Slots(s')| == |Slots(s)|
    ensures !HoldsSlot(s.threads[t]) && HoldsSlot(s'.threads[t]) ==> |Slots(s')| == |Slots(s)| + 1
    ensures HoldsSlot(s.threads[t]) && !HoldsSlot(s'.threads[t]) ==> |Slots(s')| == |Slots(s)| - 1
  {
    hide HoldsSlot;
    assert Slots(s') - {t} == Slots(s) - {t};
    assert HoldsSlot(s.threads[t]) ==> Slots(s) == (Slots(s) - {t}) + {t};
    assert HoldsSlot(s'.threads[t]) ==> Slots(s') == (Slots(s') - {t}) + {t};
    assert !HoldsSlot(s.threads[t]) ==> Slots(s) == Slots(s) - {t};
    assert !HoldsSlot(s'.threads[t]) ==> Slots(s') == Slots(s') - {t};
  }

  lemma ActsKeepsMutex(c: Config, s: State, t: Thread, s': State)
    requires t in s.threads && Acts(c, s, t, s') && MutexInv(s)
    ensures MutexInv(s')
  {
  }

  lemma ActsKeepsWake(c: Config, s: State, t: Thread, s': State)
    requires t in s.threads && Acts(c, s, t, s') && WakeInv(c, s)
    ensures WakeInv(c, s')
  {
    if (exists u :: IsAsleep(s', u)) && s'.running < c.limit {
      if s.threads[t].Freeing? {
        assert IsNotifying(s', t);
      } else {
        var u :| IsAsleep(s', u);
        assert IsAsleep(s, u);
        var n :| IsNotifying(s, n);
        assert IsNotifying(s', n);
      }
    }
  }

  lemma ActsKeepsWait(c: Config, s: State, t: Thread, s': State)
    requires t in s.threads && Acts(c, s, t, s') && WaitInv(c, s)
    ensures WaitInv(c, s')
  {
    assert WaitOk(c, s, s.threads[t]);
  }

  lemma NextKeepsInv(c: Config, s: State, s': State)
    requires Inv(c, s) && Next(c, s, s')
    ensures Inv(c, s')
  {
    if t: Thread :| t in s.threads && Acts(c, s, t, s') {
      ActsKeepsCount(c, s, t, s');
      ActsKeepsMutex(c, s, t, s');
      ActsKeepsWake(c, s, t, s');
      ActsKeepsWait(c, s, t, s');
      hide CountInv, MutexInv, WakeInv, WaitInv, Acts;
    } else {
      hide Acts;
      assert Slots(s') == Slots(s);
      assert forall t :: IsAsleep(s', t) ==> IsAsleep(s, t);
      assert forall t :: IsNotifying(s, t) ==> IsNotifying(s', t);
    }
  }

  lemma {:induction false} RunKeepsInv(c: Config, run: seq<State>, k: nat)
    requires Reachable(c, run) && k < |run|
    ensures Inv(c, run[k])
  {
    if k == 0 {
      assert Slots(run[0]) == {};
    } else {
      RunKeepsInv(c, run, k - 1);
      hide Inv;
      NextKeepsInv(c, run[k - 1], run[k]);
    }
  }

  // ----- the theorems -----

  /**
   In every reachable state the counter equals the slots held and is within the
   limit, the mutex has one holder at most, and no sleeper is forgotten.
   */
  lemma GateIsSafe(c: Config, run: seq<State>, k: nat)
    requires Reachable(c, run) && k < |run|
    ensures var s := run[k];
      && s.running == |Slots(s)| <= c.limit
      && (forall t, u | t in s.threads && u in s.threads && HoldsMutex(s.threads[t]) && HoldsMutex(s.threads[u]) ::
            t == u)
      && (forall t | IsAsleep(s, t) :: s.running == c.limit || exists n :: IsNotifying(s, n))
  {
    RunKeepsInv(c, run, k);
  }

  /** Giving back a slot never saturates: the counter is at least one. */
  lemma ReleaseNeverSaturates(c: Config, run: seq<State>, k: nat, t: Thread)
    requires Reachable(c, run) && k < |run| && t in run[k].threads && run[k].threads[t].Freeing?
    ensures run[k].running >= 1
  {
    RunKeepsInv(c, run, k);
    assert t in Slots(run[k]);
  }

  /** A request is refused only after the whole wait, and only while every slot is held. */
  lemma RefusedOnlyWhenFull(c: Config, run: seq<State>, k: nat, t: Thread)
    requires Reachable(c, run) && k + 1 < |run|
    requires t in run[k].threads && !run[k].threads[t].Refused?
    requires t in run[k + 1].threads && run[k + 1].threads[t].Refused?
    ensures |Slots(run[k])| == c.limit && run[k + 1].threads[t].waited >= c.wait
  {
    RunKeepsInv(c, run, k);
    RunKeepsInv(c, run, k + 1);
    var s, s' := run[k], run[k + 1];
    assert WaitOk(c, s', s'.threads[t]);
    RefusingStep(c, s, t, s');
    hide MutexInv, WakeInv, WaitInv, Slots;
  }

  lemma RefusingStep(c: Config, s: State, t: Thread, s': State)
    requires Next(c, s, s') && t in s.threads && !s.threads[t].Refused? && t in s'.threads && s'.threads[t].Refused?
    ensures s.running >= c.limit
  {
    hide Inv;
  }

  /** A notification leaves nobody asleep. */
  lemma NotifyWakesEverySleeper(c: Config, s: State, t: Thread, s': State, u: Thread)
    requires t in s.threads && s.threads[t].Notifying? && Acts(c, s, t, s') && IsAsleep(s, u)
    ensures u in s'.threads && s'.threads[u] == Queued(s.threads[u].started, s.threads[u].deadline)
  {
  }

  /** Nobody else moves a thread off its notification. */
  lemma NotifiersMoveThemselves(c: Config, s: State, s': State, n: Thread)
    requires Next(c, s, s') && IsNotifying(s, n) && !IsNotifying(s', n)
    ensures Acts(c, s, n, s')
  {
    if t: Thread :| t in s.threads && Acts(c, s, t, s') {
      assert t == n;
    }
  }

  /**
   A sleeper beside a free slot does not wait for its timeout: some thread has a
   notification to give, and by the time it has given it the sleeper was woken.
   */
  lemma SleeperIsWokenByItsNotifier(c: Config, run: seq<State>, k: nat, u: Thread) returns (n: Thread)
    requires Reachable(c, run) && k < |run| && IsAsleep(run[k], u) && run[k].running < c.limit
    ensures IsNotifying(run[k], n)
    ensures forall j | k < j < |run| && !IsNotifying(run[j], n) :: exists i :: k < i <= j && !IsAsleep(run[i], u)
  {
    RunKeepsInv(c, run, k);
    n :| IsNotifying(run[k], n);
    hide Inv;
    forall j | k < j < |run| && !IsNotifying(run[j], n) ensures exists i :: k < i <= j && !IsAsleep(run[i], u) {
      WokenOnTheWay(c, run, k, j, n, u);
    }
  }

  lemma {:induction false} WokenOnTheWay(c: Config, run: seq<State>, k: nat, j: nat, n: Thread, u: Thread)
    requires Reachable(c, run) && k < j < |run| && IsAsleep(run[k], u)
    requires IsNotifying(run[k], n) && !IsNotifying(run[j], n)
    ensures exists i :: k < i <= j && !IsAsleep(run[i], u)
    decreases j - k
  {
    assert Next(c, run[k], run[k + 1]);
    if !IsNotifying(run[k + 1], n) {
      NotifiersMoveThemselves(c, run[k], run[k + 1], n);
      NotifyWakesEverySleeper(c, run[k], n, run[k + 1], u);
      hide Next, Acts;
      assert !IsAsleep(run[k + 1], u);
    } else {
      hide Next;
      if IsAsleep(run[k + 1], u) {
        WokenOnTheWay(c, run, k + 1, j, n, u);
      }
    }
  }

  predicate CanAct(s: State, t: Thread) {
    && t in s.threads && !s.threads[t].Asleep?
    && (s.threads[t].Queued? || s.threads[t].Returning? ==> s.owner.None?)
  }

  /** The gate never hangs on its timeouts: some thread that is not asleep can always move. */
  lemma NoDeadlock(c: Config, run: seq<State>, k: nat)
    requires Reachable(c, run) && k < |run| && c.limit >= 1 && run[k].threads != map[]
    ensures exists t, s' :: CanAct(run[k], t) && Acts(c, run[k], t, s')
  {
    var s := run[k];
    RunKeepsInv(c, run, k);
    var t := Mover(c, s);
    match s.threads[t] {
      case Idle => assert Acts(c, s, t, Moved(s, t, Queued(s.now, s.now + c.wait)));
      case Queued(started, deadline) =>
        assert Acts(c, s, t, Moved(s, t, Checking(started, deadline)).(owner := Some(t)));
      case Checking(started, deadline) =>
        assert s.running < c.limit ==> Acts(c, s, t,
          Moved(s, t, Running(s.running + 1, SaturatingSub(s.now, started))).(owner := None, running := s.running + 1));
        assert s.running >= c.limit && s.now >= deadline ==>
          Acts(c, s, t, Moved(s, t, Refused(SaturatingSub(s.now, started))).(owner := None));
        assert s.running >= c.limit && s.now < deadline ==>
          Acts(c, s, t, Moved(s, t, Asleep(started, deadline)).(owner := None));
      case Running(_, _) => assert Acts(c, s, t, Moved(s, t, Returning));
      case Refused(_) => assert Acts(c, s, t, Moved(s, t, Idle));
      case Returning => assert Acts(c, s, t, Moved(s, t, Freeing).(owner := Some(t)));
      case Freeing =>
        assert Acts(c, s, t, Moved(s, t, Notifying).(owner := None, running := SaturatingSub(s.running, 1)));
      case Notifying => assert Acts(c, s, t, s.(threads := Woken(s.threads)[t := Idle]));
    }
  }

  lemma Mover(c: Config, s: State) returns (t: Thread)
    requires Inv(c, s) && c.limit >= 1 && s.threads != map[]
    ensures CanAct(s, t)
  {
    if s.owner.Some? {
      t := s.owner.value;
      assert HoldsMutex(s.threads[t]);
    } else if Slots(s) != {} {
      t :| t in Slots(s);
    } else {
      assert s.threads.Keys != {};
      t :| t in s.threads.Keys;
      if IsAsleep(s, t) {
        t :| IsNotifying(s, t);
      }
    }
  }
}
