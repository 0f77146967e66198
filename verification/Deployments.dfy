/**
 Deployments and their append-only status trail
 (crates/jeryu-core/src/engine/deployments.rs).

 The service keeps a map of deployments and one list of statuses for each. The
 specification is two plain logs, of deployments and of statuses, from which
 both maps and every id can be read off.
 */
module Deployments {
  import opened Common

  datatype Outcome = Error | Failure | Inactive | InProgress | Queued | Pending | Success

  datatype Deployment = Deployment(repo: nat, environment: string, transient: bool)

  datatype Status = Status(id: nat, deployment: nat, outcome: Outcome)

  /** Everything ever appended; deployment `d` is `created[d - 1]`. */
  datatype History = History(created: seq<Deployment>, log: seq<Status>)

  datatype Failed = NoRepository | NoDeployment | Malformed | StorageFailed

  // ----- reading the logs -----

  /** The statuses of one deployment, oldest first. */
  function Of(log: seq<Status>, d: nat): seq<Status> {
    if log == [] then []
    else Of(log[..|log| - 1], d) + (if log[|log| - 1].deployment == d then [log[|log| - 1]] else [])
  }

  function Newest(log: seq<Status>, d: nat): Option<Status> {
    var own := Of(log, d);
    if own == [] then None else Some(own[|own| - 1])
  }

  predicate Succeeds(log: seq<Status>, d: nat) {
    Newest(log, d).Some? && Newest(log, d).value.outcome == Success
  }

  predicate Within(h: History, d: nat, repo: nat, environment: string) {
    1 <= d <= |h.created| && h.created[d - 1].repo == repo && h.created[d - 1].environment == environment
  }

  /** The id of the last success in a list. */
  function LastSuccess(own: seq<Status>): Option<nat> {
    if own == [] then None
    else if own[|own| - 1].outcome == Success then Some(own[|own| - 1].id)
    else LastSuccess(own[..|own| - 1])
  }

  /** It is a success of the list, the `k`th, and no success of the list is later. */
  lemma {:induction false} LastSuccessIsLast(own: seq<Status>) returns (k: nat)
    ensures LastSuccess(own).None? <==> forall j | 0 <= j < |own| :: own[j].outcome != Success
    ensures LastSuccess(own).Some? ==>
      && k < |own| && own[k].outcome == Success && own[k].id == LastSuccess(own).value
      && forall j | k < j < |own| :: own[j].outcome != Success
    decreases |own|
  {
    k := 0;
    if own != [] {
      var n := |own| - 1;
      if own[n].outcome == Success {
        k := n;
      } else {
        k := LastSuccessIsLast(own[..n]);
        assert forall j | 0 <= j < n :: own[..n][j] == own[j];
      }
    }
  }

  // ----- what an environment runs -----

  ghost predicate IsLatest(h: History, repo: nat, environment: string, latest: Option<nat>) {
    && (latest.None? ==> forall d :: !Within(h, d, repo, environment))
    && (latest.Some? ==> Within(h, latest.value, repo, environment))
    && (latest.Some? ==> forall d: nat | Within(h, d, repo, environment) :: d <= latest.value)
  }

  /** The deployment whose newest status is a success, the newest such success if there are several. */
  ghost predicate IsCurrent(h: History, repo: nat, environment: string, current: Option<nat>) {
    && (current.None? ==> forall d: nat | Within(h, d, repo, environment) :: !Succeeds(h.log, d))
    && (current.Some? ==>
          && Within(h, current.value, repo, environment) && Succeeds(h.log, current.value)
          && forall d: nat | Within(h, d, repo, environment) && Succeeds(h.log, d) ::
               Newest(h.log, d).value.id <= Newest(h.log, current.value).value.id)
  }

  /** Besides the current one, the deployment with the newest success of all. */
  ghost predicate IsPrevious(h: History, repo: nat, environment: string, current: Option<nat>, previous: Option<nat>) {
    && (current.None? ==> previous.None?)
    && (current.Some? && previous.None? ==> forall d: nat | Within(h, d, repo, environment) && d != current.value ::
          LastSuccess(Of(h.log, d)).None?)
    && (previous.Some? ==>
          && current != previous && Within(h, previous.value, repo, environment)
          && LastSuccess(Of(h.log, previous.value)).Some?
          && forall d: nat | Within(h, d, repo, environment) && Some(d) != current && LastSuccess(Of(h.log, d)).Some? ::
               LastSuccess(Of(h.log, d)).value <= LastSuccess(Of(h.log, previous.value)).value)
  }

  predicate Numbered(log: seq<Status>) {
    forall k | 0 <= k < |log| :: log[k].id == k + 1
  }

  /** Ids count up from 1, and statuses belong to deployments already created. */
  predicate Ordered(h: History) {
    Numbered(h.log) && forall k | 0 <= k < |h.log| :: 1 <= h.log[k].deployment <= |h.created|
  }

  // ----- appending -----

  /** The deployments a success of `target` replaces, in order of id, up to `n`. */
  function Superseded(h: History, target: nat, n: nat): seq<nat>
    requires 1 <= target <= |h.created| && n <= |h.created|
  {
    if n == 0 then []
    else Superseded(h, target, n - 1) + (if IsSuperseded(h, target, n) then [n] else [])
  }

  predicate IsSuperseded(h: History, target: nat, d: nat)
    requires 1 <= target <= |h.created|
  {
    && d != target && Within(h, d, h.created[target - 1].repo, h.created[target - 1].environment)
    && !h.created[d - 1].transient && Succeeds(h.log, d)
  }

  function Inactives(ids: seq<nat>, first: nat): seq<Status> {
    seq(|ids|, k requires 0 <= k < |ids| => Status(first + k, ids[k], Inactive))
  }

  /** What one posted status appends. */
  function Batch(h: History, target: nat, outcome: Outcome, autoInactive: bool): seq<Status>
    requires 1 <= target <= |h.created|
  {
    var own := [Status(|h.log| + 1, target, outcome)];
    if outcome == Success && autoInactive then
      own + Inactives(Superseded(h, target, |h.created|), |h.log| + 2)
    else own
  }

  function Posted(h: History, target: nat, outcome: Outcome, autoInactive: bool): History
    requires 1 <= target <= |h.created|
  {
    h.(log := h.log + Batch(h, target, outcome, autoInactive))
  }

  // ----- lemmas about the logs -----

  lemma {:induction false} OfConcat(log: seq<Status>, more: seq<Status>, d: nat)
    ensures Of(log + more, d) == Of(log, d) + Of(more, d)
    decreases |more|
  {
    if more == [] {
      assert log + more == log;
    } else {
      var init := more[..|more| - 1];
      assert (log + more)[..|log + more| - 1] == log + init;
      OfConcat(log, init, d);
    }
  }

  lemma OfSnoc(log: seq<Status>, s: Status, d: nat)
    ensures Of(log + [s], d) == Of(log, d) + (if s.deployment == d then [s] else [])
  {
    assert (log + [s])[..|log + [s]| - 1] == log;
  }

  /** Exactly the statuses of `d` are listed, and in the order of the log. */
  lemma {:induction false} OfIsFilter(log: seq<Status>, d: nat)
    requires Numbered(log)
    ensures forall s :: s in Of(log, d) <==> s in log && s.deployment == d
    ensures forall j, k | 0 <= j < k < |Of(log, d)| :: Of(log, d)[j].id < Of(log, d)[k].id
  {
    if log != [] {
      var init := log[..|log| - 1];
      OfIsFilter(init, d);
      assert log == init + [log[|log| - 1]];
    }
  }

  ghost predicate Ascending(ids: seq<nat>) {
    forall j, k | 0 <= j < k < |ids| :: ids[j] < ids[k]
  }

  lemma {:induction false} SupersededAre(h: History, target: nat, n: nat)
    requires 1 <= target <= |h.created| && n <= |h.created|
    ensures forall d :: d in Superseded(h, target, n) <==> 1 <= d <= n && IsSuperseded(h, target, d)
    ensures Ascending(Superseded(h, target, n))
  {
    if n > 0 {
      SupersededAre(h, target, n - 1);
      hide IsSuperseded;
      var before := Superseded(h, target, n - 1);
      var after := Superseded(h, target, n);
      forall j, k | 0 <= j < k < |after| ensures after[j] < after[k] {
        assert after[j] == before[j] && before[j] in before;
        assert after[k] == if k < |before| then before[k] else n;
      }
    }
  }

  /** A batch continues the numbering and touches each deployment at most once. */
  lemma BatchTouchesEachOnce(h: History, target: nat, outcome: Outcome, autoInactive: bool)
    requires Ordered(h) && 1 <= target <= |h.created|
    ensures Ordered(Posted(h, target, outcome, autoInactive))
    ensures var batch := Batch(h, target, outcome, autoInactive);
      && batch[0] == Status(|h.log| + 1, target, outcome)
      && (forall j, k | 0 <= j < k < |batch| :: batch[j].deployment != batch[k].deployment)
  {
    var ids := Superseded(h, target, |h.created|);
    SupersededAre(h, target, |h.created|);
    forall k | 0 <= k < |ids| ensures ids[k] != target && 1 <= ids[k] <= |h.created| {
      assert ids[k] in ids;
      assert IsSuperseded(h, target, ids[k]);
    }
    hide Superseded, IsSuperseded;
    var batch := Batch(h, target, outcome, autoInactive);
    forall j, k | 0 <= j < k < |batch| ensures batch[j].deployment != batch[k].deployment {
      assert batch[k].deployment == ids[k - 1];
      assert j > 0 ==> batch[j].deployment == ids[j - 1];
    }
  }

  /** A deployment a batch touches gets that status; every other keeps its newest one. */
  lemma {:induction false} NewestAfter(log: seq<Status>, batch: seq<Status>, d: nat)
    requires forall j, k | 0 <= j < k < |batch| :: batch[j].deployment != batch[k].deployment
    ensures forall k | 0 <= k < |batch| && batch[k].deployment == d :: Newest(log + batch, d) == Some(batch[k])
    ensures (forall k | 0 <= k < |batch| :: batch[k].deployment != d) ==> Newest(log + batch, d) == Newest(log, d)
    decreases |batch|
  {
    if batch == [] {
      assert log + batch == log;
    } else {
      var init := batch[..|batch| - 1];
      NewestAfter(log, init, d);
      assert log + batch == (log + init) + [batch[|batch| - 1]];
      assert (log + batch)[..|log + batch| - 1] == log + init;
    }
  }

  // ----- the service -----

  class Forge {
    var deployments: map<nat, Deployment>
    var statuses: map<nat, seq<Status>>
    ghost var history: History

    ghost predicate Valid()
      reads this
    {
      && Ordered(history)
      && (forall d :: d in deployments <==> 1 <= d <= |history.created|)
      && (forall d | d in deployments :: deployments[d] == history.created[d - 1])
      && (forall d :: Listed(d) == Of(history.log, d))
    }

    /** The list the map holds for `d`; a missing list is an empty one. */
    function Listed(d: nat): seq<Status>
      reads this
    {
      if d in statuses then statuses[d] else []
    }

    constructor ()
      ensures Valid() && history == History([], [])
    {
      deployments, statuses, history := map[], map[], History([], []);
    }

    /** One more than the largest key. */
    method NextDeploymentId() returns (id: nat)
      requires Valid()
      ensures id == |history.created| + 1
    {
      if deployments.Keys == {} {
        assert |history.created| > 0 ==> 1 in deployments.Keys;
        return 1;
      }
      assert |history.created| in deployments;
      var last :| last in deployments && forall d | d in deployments :: d <= last;
      id := last + 1;
    }

    static method LargestId(own: seq<Status>, floor: nat) returns (largest: nat)
      ensures largest >= floor && forall s | s in own :: s.id <= largest
      ensures largest == floor || exists s | s in own :: s.id == largest
    {
      largest := floor;
      for i := 0 to |own|
        invariant largest >= floor && forall k | 0 <= k < i :: own[k].id <= largest
        invariant largest == floor || exists s | s in own :: s.id == largest
      {
        if own[i].id > largest {
          largest := own[i].id;
        }
      }
    }

    /** One more than the largest id in any list. */
    method NextDeploymentStatusId() returns (id: nat)
      requires Valid()
      ensures id == |history.log| + 1
    {
      hide Of;
      var largest: nat := 0;
      var rest := statuses.Keys;
      while rest != {}
        invariant rest <= statuses.Keys
        invariant largest <= |history.log|
        invariant forall d, s | d in statuses.Keys - rest && s in statuses[d] :: s.id <= largest
      {
        var d :| d in rest;
        ghost var past := statuses.Keys - rest;
        assert statuses[d] == Listed(d);
        OfIsFilter(history.log, d);
        largest := LargestId(statuses[d], largest);
        rest := rest - {d};
        assert statuses.Keys - rest == past + {d};
      }
      if history.log != [] {
        ghost var last := history.log[|history.log| - 1];
        OfIsFilter(history.log, last.deployment);
        assert last in Listed(last.deployment);
        assert last.id <= largest;
      }
      id := largest + 1;
    }

    /** `repo` is the repository the lookup found; `wellFormed` the outcome of the checks on the request. */
    method CreateDeployment(repo: Option<nat>, environment: string, transient: bool, wellFormed: bool, stored: bool)
      returns (r: Result<nat, Failed>)
      requires Valid()
      modifies this
      ensures Valid()
      ensures r.Ok? <==> wellFormed && repo.Some? && stored
      ensures r.Ok? ==> r.value == |history.created|
      ensures r.Ok? ==>
        history == old(history).(created := old(history).created + [Deployment(repo.value, environment, transient)])
      ensures r.Err? ==> history == old(history) && deployments == old(deployments) && statuses == old(statuses)
    {
      hide Of;
      if !wellFormed {
        return Err(Malformed);
      }
      if repo.None? {
        return Err(NoRepository);
      }
      var id := NextDeploymentId();
      var deployment := Deployment(repo.value, environment, transient);
      if !stored {
        return Err(StorageFailed);
      }
      deployments := deployments[id := deployment];
      history := history.(created := history.created + [deployment]);
      r := Ok(id);
    }

    method AppendStatuses(batch: seq<Status>)
      requires Valid() && Ordered(history.(log := history.log + batch))
      modifies this
      ensures Valid() && deployments == old(deployments)
      ensures history == old(history).(log := old(history).log + batch)
    {
      hide Of;
      ghost var before := history;
      for i := 0 to |batch|
        invariant deployments == old(deployments)
        invariant history == before.(log := before.log + batch[..i])
        invariant forall d :: Listed(d) == Of(history.log, d)
      {
        var status := batch[i];
        ghost var was := history.log;
        assert forall d :: Listed(d) == Of(was, d);
        statuses := statuses[status.deployment := Listed(status.deployment) + [status]];
        assert batch[..i + 1] == batch[..i] + [status];
        history := history.(log := was + [status]);
        assert history.log == before.log + batch[..i + 1];
        forall d ensures Listed(d) == Of(history.log, d) {
          OfSnoc(was, status, d);
        }
      }
      assert batch[..|batch|] == batch;
    }

    /** The map is ordered by id, so its values come in order of creation. */
    method SupersededBy(target: nat) returns (ids: seq<nat>)
      requires Valid() && target in deployments
      ensures ids == Superseded(history, target, |history.created|)
    {
      hide Of, Ordered;
      var deployment := deployments[target];
      ids := [];
      var end := NextDeploymentId();
      for d := 1 to end
        invariant ids == Superseded(history, target, d - 1)
      {
        var other := deployments[d];
        assert Listed(d) == Of(history.log, d);
        if d != target && other.repo == deployment.repo && other.environment == deployment.environment
           && !other.transient {
          var own := if d in statuses then statuses[d] else [];
          if own != [] && own[|own| - 1].outcome == Success {
            ids := ids + [d];
          }
        }
      }
    }

    method CreateDeploymentStatus(repo: Option<nat>, target: nat, outcome: Outcome, autoInactive: bool, stored: bool)
      returns (r: Result<Status, Failed>)
      requires Valid()
      modifies this
      ensures Valid()
      ensures r.Ok? <==>
        stored && repo.Some? && target in old(deployments) && old(deployments)[target].repo == repo.value
      ensures r.Ok? ==> 1 <= target <= |old(history).created|
      ensures r.Ok? ==> r.value == Status(|old(history).log| + 1, target, outcome)
      ensures r.Ok? ==> history == Posted(old(history), target, outcome, autoInactive)
      ensures r.Err? ==> history == old(history) && deployments == old(deployments) && statuses == old(statuses)
    {
      hide Of, Superseded;
      if repo.None? {
        return Err(NoRepository);
      }
      if target !in deployments || deployments[target].repo != repo.value {
        return Err(NoDeployment);
      }
      var id := NextDeploymentStatusId();
      var status := Status(id, target, outcome);
      var pending := [status];
      if outcome == Success && autoInactive {
        var superseded := SupersededBy(target);
        for i := 0 to |superseded|
          invariant pending == [status] + Inactives(superseded[..i], id + 1)
        {
          pending := pending + [Status(id + |pending|, superseded[i], Inactive)];
        }
        assert superseded[..|superseded|] == superseded;
      }
      if !stored {
        return Err(StorageFailed);
      }
      assert pending == Batch(history, target, outcome, autoInactive);
      BatchTouchesEachOnce(history, target, outcome, autoInactive);
      AppendStatuses(pending);
      r := Ok(status);
    }

    /** Newest first, as the source lists them; a later candidate wins only with a larger success. */
    method SummarizeEnvironment(repo: nat, environment: string)
      returns (latest: Option<nat>, current: Option<nat>, previous: Option<nat>)
      requires Valid()
      ensures IsLatest(history, repo, environment, latest)
      ensures IsCurrent(history, repo, environment, current)
      ensures IsPrevious(history, repo, environment, current, previous)
    {
      hide Of, LastSuccess, Ordered;
      latest, current, previous := None, None, None;
      var end := NextDeploymentId();
      for d := end downto 1
        invariant latest.None? ==> forall e: nat | d <= e && Within(history, e, repo, environment) :: false
        invariant latest.Some? ==> d <= latest.value && Within(history, latest.value, repo, environment)
        invariant latest.Some? ==> forall e: nat | Within(history, e, repo, environment) :: e <= latest.value
        invariant current.None? ==> forall e: nat | d <= e && Within(history, e, repo, environment) ::
                    !Succeeds(history.log, e)
        invariant current.Some? ==> Within(history, current.value, repo, environment)
        invariant current.Some? ==> Succeeds(history.log, current.value)
        invariant current.Some? ==>
                    forall e: nat | d <= e && Within(history, e, repo, environment) && Succeeds(history.log, e) ::
                      Newest(history.log, e).value.id <= Newest(history.log, current.value).value.id
      {
        assert Listed(d) == Of(history.log, d);
        if deployments[d].repo == repo && deployments[d].environment == environment {
          assert Within(history, d, repo, environment);
          if latest.None? {
            latest := Some(d);
          }
          var own := if d in statuses then statuses[d] else [];
          if own != [] && own[|own| - 1].outcome == Success {
            assert Succeeds(history.log, d);
            if current.None? || own[|own| - 1].id >= SuccessOf(current.value) {
              current := Some(d);
            }
          }
        }
      }
      previous := PreviousOf(repo, environment, current);
    }

    /** The id of the newest status of a deployment that has one. */
    function SuccessOf(d: nat): (id: nat)
      requires Valid() && Newest(history.log, d).Some?
      reads this
      ensures id == Newest(history.log, d).value.id
    {
      assert Listed(d) == Of(history.log, d);
      Listed(d)[|Listed(d)| - 1].id
    }

    method PreviousOf(repo: nat, environment: string, current: Option<nat>) returns (previous: Option<nat>)
      requires Valid()
      ensures IsPrevious(history, repo, environment, current, previous)
    {
      hide Of, LastSuccess, Ordered;
      previous := None;
      if current.None? {
        return;
      }
      var best: nat := 0;
      var end := NextDeploymentId();
      for d := end downto 1
        invariant previous.None? ==>
                    forall e: nat | d <= e && Within(history, e, repo, environment) && e != current.value ::
                      LastSuccess(Of(history.log, e)).None?
        invariant previous.Some? ==> previous != current && Within(history, previous.value, repo, environment)
        invariant previous.Some? ==> LastSuccess(Of(history.log, previous.value)) == Some(best)
        invariant previous.Some? ==>
                    forall e: nat | d <= e && Within(history, e, repo, environment) && e != current.value
                      && LastSuccess(Of(history.log, e)).Some? :: LastSuccess(Of(history.log, e)).value <= best
      {
        assert Listed(d) == Of(history.log, d);
        if deployments[d].repo == repo && deployments[d].environment == environment && d != current.value {
          var success := LastSuccess(Listed(d));
          if success.Some? && (previous.None? || success.value >= best) {
            previous, best := Some(d), success.value;
          }
        }
      }
    }
  }
}
