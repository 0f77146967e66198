/**
 Whole histories of deployments (crates/jeryu-core/src/engine/deployments.rs):
 what every sequence of calls keeps, and what supersession buys an environment
 whose callers follow the usual discipline.
 */
module DeploymentRuns {
  import opened Common
  import opened Deployments

  /** A call that succeeded; the others change nothing. */
  datatype Event =
    | Deploy(deployment: Deployment)
    | Post(repo: nat, target: nat, outcome: Outcome, autoInactive: bool)

  predicate Finds(h: History, repo: nat, target: nat) {
    1 <= target <= |h.created| && h.created[target - 1].repo == repo
  }

  function Step(h: History, e: Event): History {
    match e
    case Deploy(d) => h.(created := h.created + [d])
    case Post(repo, target, outcome, autoInactive) =>
      if Finds(h, repo, target) then Posted(h, target, outcome, autoInactive) else h
  }

  function Run(h: History, events: seq<Event>): History
    decreases |events|
  {
    if events == [] then h else Run(Step(h, events[0]), events[1..])
  }

  const EMPTY: History := History([], [])

  // ----- ids and lists -----

  lemma StepKeepsOrder(h: History, e: Event)
    requires Ordered(h)
    ensures Ordered(Step(h, e))
    ensures h.created <= Step(h, e).created && h.log <= Step(h, e).log
  {
    if e.Post? && Finds(h, e.repo, e.target) {
      BatchTouchesEachOnce(h, e.target, e.outcome, e.autoInactive);
    }
  }

  lemma {:induction false} RunKeepsOrder(h: History, events: seq<Event>)
    requires Ordered(h)
    ensures Ordered(Run(h, events))
    ensures h.created <= Run(h, events).created && h.log <= Run(h, events).log
    decreases |events|
  {
    if events != [] {
      StepKeepsOrder(h, events[0]);
      hide Ordered, Step;
      RunKeepsOrder(Step(h, events[0]), events[1..]);
    }
  }

  /**
   After every run the statuses are numbered from 1 in the order they were
   appended, no two alike, and each deployment lists exactly its own, in order.
   */
  lemma IdsCountUp(events: seq<Event>, d: nat)
    ensures var h := Run(EMPTY, events);
      && (forall k | 0 <= k < |h.log| :: h.log[k].id == k + 1 && 1 <= h.log[k].deployment <= |h.created|)
      && (forall s :: s in Of(h.log, d) <==> s in h.log && s.deployment == d)
      && (forall j, k | 0 <= j < k < |Of(h.log, d)| :: Of(h.log, d)[j].id < Of(h.log, d)[k].id)
  {
    RunKeepsOrder(EMPTY, events);
    OfIsFilter(Run(EMPTY, events).log, d);
    hide Run, Of;
  }

  // ----- one live deployment -----

  /** The discipline: no transient deployment there, and every success supersedes. */
  predicate Follows(h: History, e: Event, repo: nat, environment: string) {
    match e
    case Deploy(d) => d.repo == repo && d.environment == environment ==> !d.transient
    case Post(_, target, outcome, autoInactive) =>
      Within(h, target, repo, environment) && outcome == Success ==> autoInactive
  }

  predicate AllFollow(h: History, events: seq<Event>, repo: nat, environment: string)
    decreases |events|
  {
    events == []
    || (Follows(h, events[0], repo, environment) && AllFollow(Step(h, events[0]), events[1..], repo, environment))
  }

  predicate SuccessWithin(h: History, k: nat, repo: nat, environment: string) {
    k < |h.log| && h.log[k].outcome == Success && Within(h, h.log[k].deployment, repo, environment)
  }

  predicate IsLive(h: History, d: nat, repo: nat, environment: string) {
    Within(h, d, repo, environment) && Succeeds(h.log, d)
  }

  ghost predicate NoneTransient(h: History, repo: nat, environment: string) {
    forall d: nat | Within(h, d, repo, environment) :: !h.created[d - 1].transient
  }

  ghost predicate AtMostOneLive(h: History, repo: nat, environment: string) {
    forall d: nat, e: nat | IsLive(h, d, repo, environment) && IsLive(h, e, repo, environment) :: d == e
  }

  ghost predicate LiveIsLast(h: History, repo: nat, environment: string) {
    forall d: nat, k: nat | IsLive(h, d, repo, environment) && SuccessWithin(h, k, repo, environment) ::
      h.log[k].id <= Newest(h.log, d).value.id
  }

  /** At most one deployment there is live, and its success is the last one there ever was. */
  ghost predicate OneLive(h: History, repo: nat, environment: string) {
    && NoneTransient(h, repo, environment) && AtMostOneLive(h, repo, environment) && LiveIsLast(h, repo, environment)
  }

  /** Another lasting deployment of the target's environment whose newest status is a success. */
  predicate IsReplaced(h: History, target: nat, d: nat)
    requires 1 <= target <= |h.created|
  {
    && 1 <= d <= |h.created| && d != target && !h.created[d - 1].transient
    && h.created[d - 1].repo == h.created[target - 1].repo
    && h.created[d - 1].environment == h.created[target - 1].environment
    && Newest(h.log, d).Some? && Newest(h.log, d).value.outcome == Success
  }

  /** What a posted status does to the newest status of any deployment. */
  lemma NewestPosted(h: History, target: nat, outcome: Outcome, autoInactive: bool, d: nat)
    requires Ordered(h) && 1 <= target <= |h.created|
    ensures var log := Posted(h, target, outcome, autoInactive).log;
      var replaced := outcome == Success && autoInactive && IsReplaced(h, target, d);
      && (d == target ==> Newest(log, d) == Some(Status(|h.log| + 1, target, outcome)))
      && (d != target && replaced && 1 <= d ==>
            Newest(log, d).Some? && Newest(log, d).value.outcome == Inactive)
      && (d != target && !replaced ==> Newest(log, d) == Newest(h.log, d))
  {
    var batch := Batch(h, target, outcome, autoInactive);
    BatchTouchesEachOnce(h, target, outcome, autoInactive);
    NewestAfter(h.log, batch, d);
    TouchedAreSuperseded(h, target, outcome, autoInactive, d);
    assert IsReplaced(h, target, d) <==> IsSuperseded(h, target, d);
    hide IsSuperseded, IsReplaced, Ordered, Of, Batch;
  }

  lemma SupersededIsTouched(h: History, target: nat, d: nat)
    requires 1 <= target <= |h.created| && 1 <= d && IsSuperseded(h, target, d)
    ensures var batch := Batch(h, target, Success, true);
      exists k :: 0 <= k < |batch| && batch[k].deployment == d && batch[k].outcome == Inactive
  {
    var ids := Superseded(h, target, |h.created|);
    SupersededAre(h, target, |h.created|);
    hide Superseded, IsSuperseded;
    assert d in ids;
    var k :| 0 <= k < |ids| && ids[k] == d;
    assert Batch(h, target, Success, true)[k + 1] == Status(|h.log| + 2 + k, d, Inactive);
  }

  lemma OthersAreUntouched(h: History, target: nat, outcome: Outcome, autoInactive: bool, d: nat)
    requires 1 <= target <= |h.created| && d != target
    requires !(outcome == Success && autoInactive && IsSuperseded(h, target, d))
    ensures var batch := Batch(h, target, outcome, autoInactive);
      forall k | 0 <= k < |batch| :: batch[k].deployment != d
  {
    var ids := Superseded(h, target, |h.created|);
    SupersededAre(h, target, |h.created|);
    hide Superseded, IsSuperseded;
    var batch := Batch(h, target, outcome, autoInactive);
    forall k | 0 <= k < |batch| ensures batch[k].deployment != d {
      if k > 0 {
        assert batch[k].deployment == ids[k - 1] && ids[k - 1] in ids;
      }
    }
  }

  /** Besides the target, a batch touches exactly what the success supersedes. */
  lemma TouchedAreSuperseded(h: History, target: nat, outcome: Outcome, autoInactive: bool, d: nat)
    requires 1 <= target <= |h.created|
    ensures var batch := Batch(h, target, outcome, autoInactive);
      var replaced := outcome == Success && autoInactive && IsSuperseded(h, target, d);
      && (d != target && replaced && 1 <= d ==>
            exists k :: 0 <= k < |batch| && batch[k].deployment == d && batch[k].outcome == Inactive)
      && (d != target && !replaced ==> forall k | 0 <= k < |batch| :: batch[k].deployment != d)
  {
    hide Batch, IsSuperseded;
    if d != target {
      if !(outcome == Success && autoInactive && IsSuperseded(h, target, d)) {
        OthersAreUntouched(h, target, outcome, autoInactive, d);
      } else if 1 <= d {
        SupersededIsTouched(h, target, d);
      }
    }
  }

  /** Only the target can gain a success; it is the newest entry but for the inactive ones. */
  lemma SuccessesPosted(h: History, target: nat, outcome: Outcome, autoInactive: bool, k: nat, repo: nat,
                        environment: string)
    requires Ordered(h) && 1 <= target <= |h.created|
    requires SuccessWithin(Posted(h, target, outcome, autoInactive), k, repo, environment)
    ensures k <= |h.log|
    ensures k < |h.log| ==> SuccessWithin(h, k, repo, environment)
    ensures k == |h.log| ==> outcome == Success && Within(h, target, repo, environment)
  {
    var batch := Batch(h, target, outcome, autoInactive);
    assert k >= |h.log| ==> Posted(h, target, outcome, autoInactive).log[k] == batch[k - |h.log|];
  }

  lemma PostKeepsOneLive(h: History, target: nat, outcome: Outcome, autoInactive: bool, repo: nat, environment: string)
    requires Ordered(h) && 1 <= target <= |h.created| && OneLive(h, repo, environment)
    requires Within(h, target, repo, environment) && outcome == Success ==> autoInactive
    ensures OneLive(Posted(h, target, outcome, autoInactive), repo, environment)
  {
    var h' := Posted(h, target, outcome, autoInactive);
    BatchTouchesEachOnce(h, target, outcome, autoInactive);
    assert forall d: nat | Within(h', d, repo, environment) :: Within(h, d, repo, environment);
    forall d: nat, e: nat | IsLive(h', d, repo, environment) && IsLive(h', e, repo, environment)
      ensures d == e
    {
      LiveAfterPost(h, target, outcome, autoInactive, repo, environment, d);
      LiveAfterPost(h, target, outcome, autoInactive, repo, environment, e);
    }
    forall d: nat, k: nat | IsLive(h', d, repo, environment) && SuccessWithin(h', k, repo, environment)
      ensures h'.log[k].id <= Newest(h'.log, d).value.id
    {
      LiveAfterPost(h, target, outcome, autoInactive, repo, environment, d);
      SuccessesPosted(h, target, outcome, autoInactive, k, repo, environment);
    }
  }

  /** After a success in the environment only its target is live; otherwise nothing new is. */
  lemma LiveAfterPost(h: History, target: nat, outcome: Outcome, autoInactive: bool, repo: nat, environment: string,
                      d: nat)
    requires Ordered(h) && 1 <= target <= |h.created| && NoneTransient(h, repo, environment)
    requires Within(h, target, repo, environment) && outcome == Success ==> autoInactive
    requires IsLive(Posted(h, target, outcome, autoInactive), d, repo, environment)
    ensures var h' := Posted(h, target, outcome, autoInactive);
      if Within(h, target, repo, environment) && outcome == Success then
        d == target && Newest(h'.log, d).value.id == |h.log| + 1
      else IsLive(h, d, repo, environment) && Newest(h'.log, d) == Newest(h.log, d)
  {
    NewestPosted(h, target, outcome, autoInactive, d);
    assert Within(h, d, repo, environment);
    hide Newest, Batch, Ordered;
  }

  lemma DeployKeepsOneLive(h: History, d: Deployment, repo: nat, environment: string)
    requires Ordered(h) && OneLive(h, repo, environment)
    requires d.repo == repo && d.environment == environment ==> !d.transient
    ensures OneLive(h.(created := h.created + [d]), repo, environment)
  {
    hide Succeeds, Newest, Of;
    var h' := h.(created := h.created + [d]);
    var added := |h.created| + 1;
    NoneListed(h.log, added);
    assert forall e: nat | Within(h', e, repo, environment) && e != added :: Within(h, e, repo, environment);
    assert forall e: nat | IsLive(h', e, repo, environment) :: IsLive(h, e, repo, environment);
    forall k: nat | SuccessWithin(h', k, repo, environment) ensures SuccessWithin(h, k, repo, environment) {
      assert h.log[k].deployment <= |h.created|;
    }
    hide IsLive, SuccessWithin;
  }

  lemma {:induction false} NoneListed(log: seq<Status>, d: nat)
    requires forall k | 0 <= k < |log| :: log[k].deployment != d
    ensures Of(log, d) == [] && !Succeeds(log, d)
  {
    if log != [] {
      NoneListed(log[..|log| - 1], d);
    }
  }

  lemma StepKeepsOneLive(h: History, e: Event, repo: nat, environment: string)
    requires Ordered(h) && OneLive(h, repo, environment) && Follows(h, e, repo, environment)
    ensures OneLive(Step(h, e), repo, environment)
  {
    match e
    case Deploy(d) => DeployKeepsOneLive(h, d, repo, environment);
    case Post(r, target, outcome, autoInactive) =>
      if Finds(h, r, target) {
        PostKeepsOneLive(h, target, outcome, autoInactive, repo, environment);
      }
  }

  lemma {:induction false} RunKeepsOneLive(h: History, events: seq<Event>, repo: nat, environment: string)
    requires Ordered(h) && OneLive(h, repo, environment) && AllFollow(h, events, repo, environment)
    ensures OneLive(Run(h, events), repo, environment)
    decreases |events|
  {
    hide Ordered, OneLive, Step, Follows;
    if events != [] {
      StepKeepsOrder(h, events[0]);
      StepKeepsOneLive(h, events[0], repo, environment);
      RunKeepsOneLive(Step(h, events[0]), events[1..], repo, environment);
    }
  }

  /**
   Under the discipline the summary's current deployment is the only live one,
   and holds the greatest success id ever appended to its environment. The
   rest of the forge may do as it likes.
   */
  lemma CurrentIsTheOnlyLiveDeployment(events: seq<Event>, repo: nat, environment: string, current: Option<nat>)
    requires AllFollow(EMPTY, events, repo, environment)
    requires IsCurrent(Run(EMPTY, events), repo, environment, current)
    ensures var h := Run(EMPTY, events);
      forall d: nat | Within(h, d, repo, environment) :: Succeeds(h.log, d) <==> current == Some(d)
    ensures var h := Run(EMPTY, events);
      current.Some? ==> Newest(h.log, current.value).Some?
    ensures var h := Run(EMPTY, events);
      current.Some? ==> forall k: nat | SuccessWithin(h, k, repo, environment) ::
        h.log[k].id <= Newest(h.log, current.value).value.id
  {
    RunKeepsOneLive(EMPTY, events, repo, environment);
    hide Run, AllFollow;
    var h := Run(EMPTY, events);
    assert forall d: nat | Within(h, d, repo, environment) && Succeeds(h.log, d) :: IsLive(h, d, repo, environment);
    hide Succeeds, Newest;
  }

  /** A success posted without superseding makes its target live and leaves the rest. */
  lemma PlainSuccess(h: History, target: nat, d: nat, repo: nat, environment: string)
    requires Ordered(h) && Finds(h, repo, target)
    ensures var h' := Step(h, Post(repo, target, Success, false));
      && Ordered(h') && h'.created == h.created
      && (IsLive(h', d, repo, environment) <==>
            if d == target then Within(h, d, repo, environment) else IsLive(h, d, repo, environment))
  {
    StepKeepsOrder(h, Post(repo, target, Success, false));
    NewestPosted(h, target, Success, false, d);
    hide Newest, Ordered, Batch;
  }

  lemma BothStayLive(a: Deployment, p1: Event, p2: Event)
    requires a == Deployment(0, "production", false)
    requires p1 == Post(0, 1, Success, false) && p2 == Post(0, 2, Success, false)
    ensures var h := Step(Step(History([a, a], []), p1), p2);
      IsLive(h, 1, 0, "production") && IsLive(h, 2, 0, "production")
  {
    var h2 := History([a, a], []);
    assert Ordered(h2) && Within(h2, 1, 0, "production") && Within(h2, 2, 0, "production");
    PlainSuccess(h2, 1, 1, 0, "production");
    hide Step, IsLive, Ordered;
    PlainSuccess(Step(h2, p1), 2, 1, 0, "production");
    PlainSuccess(Step(h2, p1), 2, 2, 0, "production");
  }

  /** Without the discipline two deployments of one environment can both stay live. */
  lemma DisciplineIsNeeded()
    ensures exists events, d: nat, e: nat ::
      d != e && IsLive(Run(EMPTY, events), d, 0, "production") && IsLive(Run(EMPTY, events), e, 0, "production")
  {
    var a := Deployment(0, "production", false);
    var p1, p2 := Post(0, 1, Success, false), Post(0, 2, Success, false);
    assert Step(Step(EMPTY, Deploy(a)), Deploy(a)) == History([a, a], []);
    BothStayLive(a, p1, p2);
    RunOfFour(Deploy(a), Deploy(a), p1, p2);
    hide Step, Run, IsLive;
    var events := [Deploy(a), Deploy(a), p1, p2];
    assert IsLive(Run(EMPTY, events), 1, 0, "production") && IsLive(Run(EMPTY, events), 2, 0, "production");
  }

  lemma RunOfFour(a: Event, b: Event, c: Event, d: Event)
    ensures Run(EMPTY, [a, b, c, d]) == Step(Step(Step(Step(EMPTY, a), b), c), d)
  {
    hide Step;
    assert [a, b, c, d][1..] == [b, c, d] && [b, c, d][1..] == [c, d] && [c, d][1..] == [d] && [d][1..] == [];
    var h := Step(EMPTY, a);
    assert Run(EMPTY, [a, b, c, d]) == Run(h, [b, c, d]);
    assert Run(h, [b, c, d]) == Run(Step(h, b), [c, d]);
    assert Run(Step(h, b), [c, d]) == Run(Step(Step(h, b), c), [d]);
  }

  /** A post changes nothing in other environments, nor any transient deployment but its target. */
  lemma EnvironmentsAreIsolated(h: History, target: nat, outcome: Outcome, autoInactive: bool, d: nat)
    requires Ordered(h) && 1 <= target <= |h.created| && 1 <= d <= |h.created| && d != target
    requires h.created[d - 1].repo != h.created[target - 1].repo
          || h.created[d - 1].environment != h.created[target - 1].environment
          || h.created[d - 1].transient
    ensures Newest(Posted(h, target, outcome, autoInactive).log, d) == Newest(h.log, d)
  {
    NewestPosted(h, target, outcome, autoInactive, d);
    hide Newest, Posted;
  }
}
