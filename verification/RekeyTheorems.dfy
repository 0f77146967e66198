/**
 What the repair of encoded rules conserves (crates/jeryu-core/src/engine/branch_protection.rs).
 */
module RekeyTheorems {
  import opened Common
  import opened Rekey

  /** What planning guarantees of its steps: distinct encoded keys, and the decoded name of each. */
  ghost predicate Sound(plan: seq<Step>) {
    && (forall i, j | 0 <= i < j < |plan| :: plan[i].key != plan[j].key)
    && (forall i | 0 <= i < |plan| ::
          HasEncodedSlash(plan[i].key.branch) && plan[i].decoded == Decode(plan[i].key.branch))
  }

  lemma PlansAreSound(rules: Rules, branches: Branches, order: seq<Key>, plan: seq<Step>)
    requires IsEncodedListing(rules, order) && IsPlan(rules, branches, order, plan)
    ensures Sound(plan)
  {
    forall i | 0 <= i < |plan| ensures plan[i].key == order[i] && plan[i].key in order {
      assert PlanStep(rules, branches, order[i]) == Some(plan[i]);
    }
  }

  // ----- conservation -----

  /** Where the rule of step `i` went. */
  predicate Settled(before: Rules, after: Rules, step: Step, d: Decision) {
    match d
    case Keep(_) =>
      (step.key in after <==> step.key in before) && (step.key in after ==> after[step.key] == before[step.key])
    case Remove =>
      && step.key in before && step.key !in after && before[step.key] == step.seen
      && step.seen.checks == [] && step.Target() in after
    case Move =>
      && step.key in before && step.key !in after && before[step.key] == step.seen
      && step.Target() !in before && step.Target() in after
      && after[step.Target()] == before[step.key].(branch := step.decoded)
  }

  /** A rule that is neither planned for nor newly moved in is as it was. */
  ghost predicate RestUnchanged(before: Rules, plan: seq<Step>, o: Outcome)
    requires |o.decisions| == |plan|
  {
    && (forall k | k in before && (forall i | 0 <= i < |plan| :: plan[i].key != k) ::
          k in o.rules && o.rules[k] == before[k])
    && (forall k | k in o.rules && k !in before :: exists i :: MovedTo(plan, o.decisions, i, k))
    && (forall k | k in o.rules && k in before :: o.rules[k] == before[k])
  }

  predicate MovedTo(plan: seq<Step>, decisions: seq<Decision>, i: int, k: Key) {
    0 <= i < |plan| && i < |decisions| && decisions[i].Move? && plan[i].Target() == k
  }

  function Removals(decisions: seq<Decision>): nat {
    if decisions == [] then 0
    else Removals(decisions[..|decisions| - 1]) + if decisions[|decisions| - 1].Remove? then 1 else 0
  }

  ghost predicate Conserves(before: Rules, plan: seq<Step>, o: Outcome) {
    && |o.decisions| == |plan|
    && |before| == |o.rules| + Removals(o.decisions)
    && (forall i | 0 <= i < |plan| :: Settled(before, o.rules, plan[i], o.decisions[i]))
    && RestUnchanged(before, plan, o)
  }

  lemma SizeAfter(rules: Rules, step: Step, d: Decision)
    requires !d.Keep? ==> step.key in rules
    requires d.Move? ==> step.Target() !in rules && step.Target() != step.key
    ensures |Carry(rules, step, d)| == |rules| - if d.Remove? then 1 else 0
  {
    if !d.Keep? {
      var less := rules - {step.key};
      assert rules.Keys == less.Keys + {step.key};
      assert |rules.Keys| == |less.Keys| + 1;
      if d.Move? {
        assert Carry(rules, step, d).Keys == less.Keys + {step.Target()};
      }
    }
  }

  /** What a decision to move or remove says of the rules it was taken on. */
  lemma DecisionsAreJustified(rules: Rules, repos: Repositories, step: Step)
    ensures var d := Decide(rules, repos, step);
      && (d.Move? ==> step.Target() !in rules)
      && (d.Remove? ==> step.Target() in rules && step.seen.checks == [])
  {
  }

  /** An encoded key is no step's target, and no other step's key. */
  lemma KeysStayApart(plan: seq<Step>, i: nat, j: nat)
    requires Sound(plan) && i < |plan| && j < |plan|
    ensures plan[i].key != plan[j].Target()
    ensures i != j ==> plan[i].key != plan[j].key
  {
    DecodeIsClean(plan[j].key.branch);
  }

  /** Earlier steps stay settled when a later one is carried out. */
  lemma StaysSettled(before: Rules, rules: Rules, repos: Repositories, plan: seq<Step>, i: nat, n: nat, d: Decision)
    requires Sound(plan) && i < n < |plan| && Settled(before, rules, plan[i], d)
    ensures Settled(before, Carry(rules, plan[n], Decide(rules, repos, plan[n])), plan[i], d)
  {
    DecisionsAreJustified(rules, repos, plan[n]);
    KeysStayApart(plan, i, n);
    KeysStayApart(plan, n, i);
    hide Decide, Sound;
  }

  lemma LastIsSettled(before: Rules, rules: Rules, repos: Repositories, plan: seq<Step>, n: nat)
    requires Sound(plan) && n < |plan|
    requires plan[n].key in rules <==> plan[n].key in before
    requires plan[n].key in rules ==> rules[plan[n].key] == before[plan[n].key]
    requires forall k | k in before && !HasEncodedSlash(k.branch) :: k in rules
    ensures var d := Decide(rules, repos, plan[n]);
      Settled(before, Carry(rules, plan[n], d), plan[n], d)
  {
    DecisionsAreJustified(rules, repos, plan[n]);
    KeysStayApart(plan, n, n);
    DecodeIsClean(plan[n].key.branch);
    hide Decide;
  }

  /** The rule that appears is the one moved there. */
  lemma AppearsByMoving(before: Rules, rules: Rules, plan: seq<Step>, decisions: seq<Decision>, d: Decision, k: Key)
    requires plan != [] && |decisions| == |plan| - 1
    requires RestUnchanged(before, plan[..|plan| - 1], Outcome(rules, decisions))
    requires !d.Keep? ==> plan[|plan| - 1].key in rules
    requires k in Carry(rules, plan[|plan| - 1], d) && k !in before
    ensures exists i :: MovedTo(plan, decisions + [d], i, k)
  {
    var n := |plan| - 1;
    if d.Move? && k == plan[n].Target() {
      assert MovedTo(plan, decisions + [d], n, k);
    } else {
      var i :| MovedTo(plan[..n], decisions, i, k);
      assert MovedTo(plan, decisions + [d], i, k);
    }
  }

  /** A key no earlier step has is untouched, and a rule that appeared was moved there. */
  lemma RestAfter(before: Rules, rules: Rules, plan: seq<Step>, decisions: seq<Decision>, d: Decision)
    requires plan != [] && |decisions| == |plan| - 1 && Sound(plan)
    requires RestUnchanged(before, plan[..|plan| - 1], Outcome(rules, decisions))
    requires var step := plan[|plan| - 1];
      (!d.Keep? ==> step.key in rules) && (d.Move? ==> step.Target() !in rules && step.Target() !in before)
    ensures RestUnchanged(before, plan, Outcome(Carry(rules, plan[|plan| - 1], d), decisions + [d]))
  {
    var n := |plan| - 1;
    var init, step := plan[..n], plan[n];
    hide Sound;
    var after := Carry(rules, step, d);
    OldRulesStay(before, rules, plan, decisions, d);
    hide RestUnchanged;
    forall k | k in after && k !in before ensures exists i :: MovedTo(plan, decisions + [d], i, k) {
      AppearsByMoving(before, rules, plan, decisions, d, k);
    }
    hide MovedTo;
    RestFromParts(before, plan, Outcome(after, decisions + [d]));
  }

  lemma RestFromParts(before: Rules, plan: seq<Step>, o: Outcome)
    requires |o.decisions| == |plan|
    requires forall k | k in before && (forall i | 0 <= i < |plan| :: plan[i].key != k) ::
               k in o.rules && o.rules[k] == before[k]
    requires forall k | k in o.rules && k !in before :: exists i :: MovedTo(plan, o.decisions, i, k)
    requires forall k | k in o.rules && k in before :: o.rules[k] == before[k]
    ensures RestUnchanged(before, plan, o)
  {
    hide MovedTo;
  }

  lemma OldRulesStay(before: Rules, rules: Rules, plan: seq<Step>, decisions: seq<Decision>, d: Decision)
    requires plan != [] && |decisions| == |plan| - 1
    requires RestUnchanged(before, plan[..|plan| - 1], Outcome(rules, decisions))
    requires var step := plan[|plan| - 1];
      (!d.Keep? ==> step.key in rules) && (d.Move? ==> step.Target() !in rules && step.Target() !in before)
    ensures var after := Carry(rules, plan[|plan| - 1], d);
      && (forall k | k in before && (forall i | 0 <= i < |plan| :: plan[i].key != k) ::
            k in after && after[k] == before[k])
      && (forall k | k in after && k in before :: after[k] == before[k])
  {
    hide MovedTo;
    var n := |plan| - 1;
    forall k | k in before && (forall i | 0 <= i < |plan| :: plan[i].key != k)
      ensures k in Carry(rules, plan[n], d) && Carry(rules, plan[n], d)[k] == before[k]
    {
      assert forall i | 0 <= i < n :: plan[..n][i] == plan[i] && plan[i].key != k;
      assert plan[n].key != k;
    }
  }

  lemma StepKeepsSettled(rules: Rules, repos: Repositories, plan: seq<Step>, before: Outcome, i: nat)
    requires plan != [] && Sound(plan) && Conserves(rules, plan[..|plan| - 1], before) && i < |plan| - 1
    ensures var o := Continued(before, repos, plan[|plan| - 1]);
      i < |o.decisions| && Settled(rules, o.rules, plan[i], o.decisions[i])
  {
    hide Settled, Carry, Decide, Sound, RestUnchanged, Removals;
    var n := |plan| - 1;
    assert plan[..n][i] == plan[i];
    assert Settled(rules, before.rules, plan[i], before.decisions[i]);
    hide Conserves;
    StaysSettled(rules, before.rules, repos, plan, i, n, before.decisions[i]);
  }

  lemma StepSettles(rules: Rules, repos: Repositories, plan: seq<Step>, before: Outcome)
    requires plan != [] && Sound(plan) && Conserves(rules, plan[..|plan| - 1], before)
    ensures var o := Continued(before, repos, plan[|plan| - 1]);
      |o.decisions| == |plan| && Settled(rules, o.rules, plan[|plan| - 1], o.decisions[|plan| - 1])
  {
    hide Settled, Carry, Decide, Sound, RestUnchanged, Removals;
    var n := |plan| - 1;
    NextKeyIsUntouched(rules, before, plan);
    assert |before.decisions| == n;
    hide Conserves;
    LastIsSettled(rules, before.rules, repos, plan, n);
  }

  lemma StepCounts(rules: Rules, repos: Repositories, plan: seq<Step>, before: Outcome)
    requires plan != [] && Sound(plan) && Conserves(rules, plan[..|plan| - 1], before)
    ensures var o := Continued(before, repos, plan[|plan| - 1]);
      |o.decisions| == |plan| && |rules| == |o.rules| + Removals(o.decisions)
  {
    var n := |plan| - 1;
    var d := Decide(before.rules, repos, plan[n]);
    DecisionsAreJustified(before.rules, repos, plan[n]);
    KeysStayApart(plan, n, n);
    hide Decide, Carry, RestUnchanged, Settled, Sound;
    SizeAfter(before.rules, plan[n], d);
    assert (before.decisions + [d])[..n] == before.decisions;
  }

  lemma StepLeavesTheRest(rules: Rules, repos: Repositories, plan: seq<Step>, before: Outcome)
    requires plan != [] && Sound(plan) && Conserves(rules, plan[..|plan| - 1], before)
    ensures var o := Continued(before, repos, plan[|plan| - 1]);
      |o.decisions| == |plan| && RestUnchanged(rules, plan, o)
  {
    var n := |plan| - 1;
    var d := Decide(before.rules, repos, plan[n]);
    DecisionsAreJustified(before.rules, repos, plan[n]);
    NextKeyIsUntouched(rules, before, plan);
    hide Decide, Carry, RestUnchanged, Settled, Sound;
    RestAfter(rules, before.rules, plan, before.decisions, d);
  }

  lemma StepConserves(rules: Rules, repos: Repositories, plan: seq<Step>, before: Outcome)
    requires plan != [] && Sound(plan) && Conserves(rules, plan[..|plan| - 1], before)
    ensures Conserves(rules, plan, Continued(before, repos, plan[|plan| - 1]))
  {
    StepCounts(rules, repos, plan, before);
    StepLeavesTheRest(rules, repos, plan, before);
    StepSettles(rules, repos, plan, before);
    var o := Continued(before, repos, plan[|plan| - 1]);
    hide Settled, Continued, Sound, RestUnchanged, Removals;
    forall i: nat | i < |plan| - 1 ensures Settled(rules, o.rules, plan[i], o.decisions[i]) {
      StepKeepsSettled(rules, repos, plan, before, i);
    }
  }

  lemma {:induction false} ProcessConserves(rules: Rules, repos: Repositories, plan: seq<Step>)
    requires Sound(plan)
    ensures Conserves(rules, plan, Process(rules, repos, plan))
    decreases |plan|
  {
    if plan != [] {
      var init := plan[..|plan| - 1];
      assert Sound(init);
      hide Sound, Conserves, Decide, Carry;
      ProcessConserves(rules, repos, init);
      StepConserves(rules, repos, plan, Process(rules, repos, init));
    }
  }

  /** The next key, and every plain one, is where it was. */
  lemma NextKeyIsUntouched(rules: Rules, before: Outcome, plan: seq<Step>)
    requires plan != [] && Sound(plan) && Conserves(rules, plan[..|plan| - 1], before)
    ensures var key := plan[|plan| - 1].key;
      (key in before.rules <==> key in rules) && (key in rules ==> before.rules[key] == rules[key])
    ensures forall k | k in rules && !HasEncodedSlash(k.branch) :: k in before.rules && before.rules[k] == rules[k]
    ensures plan[|plan| - 1].Target() in rules ==> plan[|plan| - 1].Target() in before.rules
  {
    var n := |plan| - 1;
    var init := plan[..n];
    var key := plan[n].key;
    forall i | 0 <= i < n ensures init[i].key != key && init[i].Target() != key {
      KeysStayApart(plan, i, n);
      KeysStayApart(plan, n, i);
    }
    forall k | k in rules && !HasEncodedSlash(k.branch) ensures k in before.rules && before.rules[k] == rules[k] {
      assert forall i | 0 <= i < |init| :: init[i] == plan[i] && init[i].key != k;
    }
    DecodeIsClean(key.branch);
    assert !HasEncodedSlash(plan[n].Target().branch);
    hide HasEncodedSlash, Settled;
  }

  // ----- the theorems -----

  /**
   Whatever the rules are by the time of the write, and in any order: the count
   before is the count after and the removals, every plain rule is untouched, a
   moved rule differs in its branch only, and a removed one required no checks
   and leaves a rule for its decoded branch.
   */
  lemma RepairConservesRules(snapshot: Rules, branches: Branches, order: seq<Key>, plan: seq<Step>, rules: Rules,
                             repos: Repositories)
    requires IsEncodedListing(snapshot, order) && IsPlan(snapshot, branches, order, plan)
    ensures var o := Process(rules, repos, plan);
      && |o.decisions| == |plan| && |rules| == |o.rules| + Removals(o.decisions)
      && (forall k | k in rules && !HasEncodedSlash(k.branch) :: k in o.rules && o.rules[k] == rules[k])
      && (forall i | 0 <= i < |plan| :: Settled(rules, o.rules, plan[i], o.decisions[i]))
      && (forall k | k in o.rules && k !in rules :: exists i :: MovedTo(plan, o.decisions, i, k))
      && (forall k | k in o.rules && k in rules :: o.rules[k] == rules[k])
  {
    PlansAreSound(snapshot, branches, order, plan);
    ProcessConserves(rules, repos, plan);
    hide Process, Settled;
    var o := Process(rules, repos, plan);
    forall k | k in rules && !HasEncodedSlash(k.branch) ensures k in o.rules && o.rules[k] == rules[k] {
      assert forall i | 0 <= i < |plan| :: plan[i].key != k;
    }
  }

  /** A decision to keep is taken again: nothing it depends on has changed. */
  lemma KeptStaysKept(rules: Rules, branches: Branches, order: seq<Key>, plan: seq<Step>, repos: Repositories, i: nat)
    requires IsEncodedListing(rules, order) && IsPlan(rules, branches, order, plan) && i < |plan|
    requires var o := Process(rules, repos, plan);
      Conserves(rules, plan, o) && plan[i].key in o.rules
    ensures var o := Process(rules, repos, plan);
      Decide(o.rules, repos, plan[i]).Keep? && o.rules[plan[i].key] == plan[i].seen
  {
    var o := Process(rules, repos, plan);
    assert Settled(rules, o.rules, plan[i], o.decisions[i]);
    assert PlanStep(rules, branches, order[i]) == Some(plan[i]);
    PlansAreSound(rules, branches, order, plan);
    DecisionWasTaken(rules, repos, plan, i);
    hide Process, Conserves, Sound;
  }

  /** Decision `i` was taken on rules that held the key as planned, and whose target, if any, is still there. */
  lemma {:induction false} DecisionWasTaken(rules: Rules, repos: Repositories, plan: seq<Step>, i: nat)
    requires Sound(plan) && i < |plan|
    requires plan[i].key in rules && rules[plan[i].key] == plan[i].seen
    ensures var o := Process(rules, repos, plan);
      i < |o.decisions| && (o.decisions[i].Keep? ==> Decide(o.rules, repos, plan[i]).Keep?)
    decreases |plan|
  {
    var n := |plan| - 1;
    var init := plan[..n];
    var before := Process(rules, repos, init);
    ProcessConserves(rules, repos, init);
    ProcessConserves(rules, repos, plan);
    if i < n {
      DecisionWasTaken(rules, repos, init, i);
      LaterStepsKeep(before.rules, repos, plan, i, n);
    } else {
      NextKeyIsUntouched(rules, before, plan);
    }
  }

  /** Carrying out step `n` does not turn the decision to keep step `i` around. */
  lemma LaterStepsKeep(rules: Rules, repos: Repositories, plan: seq<Step>, i: nat, n: nat)
    requires Sound(plan) && i < n < |plan| && Decide(rules, repos, plan[i]).Keep?
    ensures Decide(Carry(rules, plan[n], Decide(rules, repos, plan[n])), repos, plan[i]).Keep?
  {
    KeysStayApart(plan, i, n);
    KeysStayApart(plan, n, i);
    hide Sound;
  }

  /** A second repair with the same answers from git, and no edits in between, changes nothing. */
  lemma SecondRepairChangesNothing(rules: Rules, repos: Repositories, branches: Branches, order: seq<Key>,
                                   plan: seq<Step>, order2: seq<Key>, plan2: seq<Step>)
    requires IsEncodedListing(rules, order) && IsPlan(rules, branches, order, plan)
    requires var after := Process(rules, repos, plan).rules;
      IsEncodedListing(after, order2) && IsPlan(after, branches, order2, plan2)
    ensures var after := Process(rules, repos, plan).rules;
      && Process(after, repos, plan2).rules == after
      && AllKept(Process(after, repos, plan2).decisions)
  {
    var after := Process(rules, repos, plan).rules;
    hide Process, Decide, HasEncodedSlash, Decode;
    forall j | 0 <= j < |plan2| ensures Decide(after, repos, plan2[j]).Keep? {
      assert PlanStep(after, branches, order2[j]) == Some(plan2[j]);
      assert order2[j] in order2;
      SurvivorIsKeptAgain(rules, repos, branches, order, plan, order2[j], plan2[j]);
    }
    KeepingAllChangesNothing(after, repos, plan2);
  }

  lemma SurvivorIsKeptAgain(rules: Rules, repos: Repositories, branches: Branches, order: seq<Key>, plan: seq<Step>,
                            key: Key, again: Step)
    requires IsEncodedListing(rules, order) && IsPlan(rules, branches, order, plan)
    requires var after := Process(rules, repos, plan).rules;
      key in after && HasEncodedSlash(key.branch) && PlanStep(after, branches, key) == Some(again)
    ensures Decide(Process(rules, repos, plan).rules, repos, again).Keep?
  {
    PlansAreSound(rules, branches, order, plan);
    ProcessConserves(rules, repos, plan);
    var i := SurvivorWasPlanned(rules, repos, branches, order, plan, key);
    KeptStaysKept(rules, branches, order, plan, repos, i);
    SameRuleSameStep(rules, Process(rules, repos, plan).rules, branches, plan[i], again);
    hide *;
  }

  lemma SameRuleSameStep(rules: Rules, after: Rules, branches: Branches, first: Step, again: Step)
    requires first.key in rules && first.key in after && after[first.key] == first.seen
    requires PlanStep(rules, branches, first.key) == Some(first)
    requires PlanStep(after, branches, first.key) == Some(again)
    ensures again == first
  {
    hide Decode;
  }

  /** An encoded key after the repair was one before it, so it was planned for. */
  lemma SurvivorWasPlanned(rules: Rules, repos: Repositories, branches: Branches, order: seq<Key>, plan: seq<Step>,
                           key: Key)
    returns (i: nat)
    requires IsEncodedListing(rules, order) && IsPlan(rules, branches, order, plan) && Sound(plan)
    requires Conserves(rules, plan, Process(rules, repos, plan))
    requires key in Process(rules, repos, plan).rules && HasEncodedSlash(key.branch)
    ensures i < |plan| && plan[i].key == key && key in rules && PlanStep(rules, branches, key) == Some(plan[i])
  {
    var o := Process(rules, repos, plan);
    assert key in rules by {
      MovedKeysArePlain(plan, o.decisions);
      hide Process, Settled, Sound;
    }
    i := PlannedFor(rules, branches, order, plan, key);
    hide *;
  }

  lemma PlannedFor(rules: Rules, branches: Branches, order: seq<Key>, plan: seq<Step>, key: Key) returns (i: nat)
    requires IsEncodedListing(rules, order) && IsPlan(rules, branches, order, plan)
    requires key in rules && HasEncodedSlash(key.branch)
    ensures i < |plan| && plan[i].key == key && PlanStep(rules, branches, key) == Some(plan[i])
  {
    hide HasEncodedSlash, Decode;
    assert key in order;
    i :| 0 <= i < |order| && order[i] == key;
    assert PlanStep(rules, branches, order[i]) == Some(plan[i]);
  }

  lemma MovedKeysArePlain(plan: seq<Step>, decisions: seq<Decision>)
    requires Sound(plan)
    ensures forall i, k :: MovedTo(plan, decisions, i, k) ==> !HasEncodedSlash(k.branch)
  {
    forall i, k | MovedTo(plan, decisions, i, k) ensures !HasEncodedSlash(k.branch) {
      DecodedIsPlain(plan[i].key.branch);
    }
  }

  lemma {:induction false} KeepingAllChangesNothing(rules: Rules, repos: Repositories, plan: seq<Step>)
    requires forall j | 0 <= j < |plan| :: Decide(rules, repos, plan[j]).Keep?
    ensures Process(rules, repos, plan).rules == rules
    ensures AllKept(Process(rules, repos, plan).decisions)
    decreases |plan|
  {
    hide Decide;
    if plan != [] {
      KeepingAllChangesNothing(rules, repos, plan[..|plan| - 1]);
    }
  }

  // ----- which rules are repaired -----

  /**
   What the service knows of the repository, and git of the two names, says that
   the rule is stored under a mistaken name.
   */
  predicate IsMisfiled(repos: Repositories, branches: Branches, key: Key) {
    && (key.owner, key.repo) in repos
    && !repos[(key.owner, key.repo)].archived
    && repos[(key.owner, key.repo)].defaultBranch != key.branch
    && branches(key) == Some(false)
    && branches(key.(branch := Decode(key.branch))) == Some(true)
  }

  /** A rule has the decoded name, at first or by the repair of a key listed before the `i`th. */
  predicate IsTaken(rules: Rules, repos: Repositories, branches: Branches, order: seq<Key>, i: nat, target: Key)
    requires i <= |order|
  {
    target in rules
    || exists j :: 0 <= j < i && order[j].(branch := Decode(order[j].branch)) == target
         && IsMisfiled(repos, branches, order[j])
  }

  /** Decision by decision, said of the rules, the repositories and git's answers. */
  lemma DecidesByTheFacts(rules: Rules, repos: Repositories, branches: Branches, key: Key, step: Step)
    requires key in rules && PlanStep(rules, branches, key) == Some(step)
    ensures forall now: Rules | key in now && now[key] == rules[key] ::
      (if !IsMisfiled(repos, branches, key) then Decide(now, repos, step).Keep?
       else if step.Target() !in now then Decide(now, repos, step).Move?
       else if rules[key].checks == [] then Decide(now, repos, step).Remove?
       else Decide(now, repos, step).Keep?)
  {
    hide Decode;
  }

  /** The rules after each prefix of the plan: which planned keys are left, and which decoded names are taken. */
  ghost predicate IsRepaired(rules: Rules, repos: Repositories, branches: Branches, order: seq<Key>, i: nat, now: Rules)
    requires i <= |order| && forall j | 0 <= j < |order| :: order[j] in rules
  {
    && (forall j | i <= j < |order| :: order[j] in now && now[order[j]] == rules[order[j]])
    && (forall j | 0 <= j < i ::
          (order[j] !in now <==>
             && IsMisfiled(repos, branches, order[j])
             && (rules[order[j]].checks == []
                 || !IsTaken(rules, repos, branches, order, j, order[j].(branch := Decode(order[j].branch))))))
    && (forall k: Key | !HasEncodedSlash(k.branch) :: k in now <==> IsTaken(rules, repos, branches, order, i, k))
  }

  lemma NothingIsRepairedYet(rules: Rules, repos: Repositories, branches: Branches, order: seq<Key>)
    requires IsEncodedListing(rules, order)
    ensures forall j | 0 <= j < |order| :: order[j] in rules
    ensures IsRepaired(rules, repos, branches, order, 0, rules)
  {
    assert forall j | 0 <= j < |order| :: order[j] in order;
    hide IsMisfiled, HasEncodedSlash, Decode;
  }

  lemma OneMoreTaken(rules: Rules, repos: Repositories, branches: Branches, order: seq<Key>, i: nat, k: Key)
    requires i < |order|
    ensures IsTaken(rules, repos, branches, order, i + 1, k) <==>
      || IsTaken(rules, repos, branches, order, i, k)
      || (order[i].(branch := Decode(order[i].branch)) == k && IsMisfiled(repos, branches, order[i]))
  {
    hide IsMisfiled, Decode;
  }

  /** A step touches its own key and its target only. */
  lemma ContinuingTouchesTwo(now: Rules, repos: Repositories, step: Step)
    ensures var d, after := Decide(now, repos, step), Continued(Outcome(now, []), repos, step).rules;
      && (step.key != step.Target() ==>
            && (step.key in after <==> step.key in now && d.Keep?)
            && (step.Target() in after <==> step.Target() in now || d.Move?))
      && forall k | k != step.key && k != step.Target() ::
           (k in after <==> k in now) && (k in now ==> after[k] == now[k])
  {
    hide Decode;
  }

  /** Neither key nor target of a step is another key of the listing. */
  lemma ListingStandsApart(rules: Rules, order: seq<Key>, i: nat)
    requires IsEncodedListing(rules, order) && i < |order|
    ensures var target := order[i].(branch := Decode(order[i].branch));
      && HasEncodedSlash(order[i].branch) && !HasEncodedSlash(target.branch)
      && forall j | 0 <= j < |order| && j != i :: order[j] != order[i] && order[j] != target
  {
    assert order[i] in order;
    DecodeIsClean(order[i].branch);
    assert forall j | 0 <= j < |order| :: order[j] in order;
    hide Decode;
    assert forall j | 0 <= j < |order| :: HasEncodedSlash(order[j].branch);
    hide HasEncodedSlash;
  }

  lemma OneMoreRepaired(rules: Rules, repos: Repositories, branches: Branches, order: seq<Key>, i: nat, now: Rules,
                        step: Step)
    requires IsEncodedListing(rules, order) && i < |order| && forall j | 0 <= j < |order| :: order[j] in rules
    requires IsRepaired(rules, repos, branches, order, i, now)
    requires PlanStep(rules, branches, order[i]) == Some(step)
    ensures IsRepaired(rules, repos, branches, order, i + 1, Continued(Outcome(now, []), repos, step).rules)
  {
    var key, target := order[i], order[i].(branch := Decode(order[i].branch));
    var after := Continued(Outcome(now, []), repos, step).rules;
    assert step.key == key && step.Target() == target && key in now;
    DecidesByTheFacts(rules, repos, branches, key, step);
    ListingStandsApart(rules, order, i);
    ContinuingTouchesTwo(now, repos, step);
    hide IsMisfiled, Decode, Decide, IsTaken, Continued, HasEncodedSlash, IsEncodedListing;
    assert target in now <==> IsTaken(rules, repos, branches, order, i, target);
    forall k: Key | !HasEncodedSlash(k.branch)
      ensures k in after <==> IsTaken(rules, repos, branches, order, i + 1, k)
    {
      OneMoreTaken(rules, repos, branches, order, i, k);
    }
  }

  lemma {:induction false} PrefixRepairs(rules: Rules, repos: Repositories, branches: Branches, order: seq<Key>,
                                         plan: seq<Step>, i: nat)
    requires IsEncodedListing(rules, order) && IsPlan(rules, branches, order, plan) && i <= |plan|
    ensures forall j | 0 <= j < |order| :: order[j] in rules
    ensures IsRepaired(rules, repos, branches, order, i, Process(rules, repos, plan[..i]).rules)
  {
    hide IsRepaired, HasEncodedSlash, Decide, Carry;
    NothingIsRepairedYet(rules, repos, branches, order);
    if i > 0 {
      PrefixRepairs(rules, repos, branches, order, plan, i - 1);
      ProcessOneMore(rules, repos, plan, i - 1);
      OneMoreRepaired(rules, repos, branches, order, i - 1, Process(rules, repos, plan[..i - 1]).rules, plan[i - 1]);
    }
  }

  /**
   A repair whose plan was made from the same rules takes an encoded rule away
   if and only if its repository is known and unarchived, it is not the default
   branch, git has no branch of the encoded name but one of the decoded name,
   and either it requires no checks or no rule has the decoded name, at first or
   by an earlier repair. Every other encoded rule stays as it was.
   */
  lemma RepairTakesExactlyTheMisfiled(rules: Rules, repos: Repositories, branches: Branches, order: seq<Key>,
                                      plan: seq<Step>, i: nat)
    requires IsEncodedListing(rules, order) && IsPlan(rules, branches, order, plan) && i < |order|
    ensures order[i] in rules
    ensures var key, after := order[i], Process(rules, repos, plan).rules;
      var target := key.(branch := Decode(key.branch));
      && (key !in after <==>
            && (key.owner, key.repo) in repos
            && !repos[(key.owner, key.repo)].archived
            && repos[(key.owner, key.repo)].defaultBranch != key.branch
            && branches(key) == Some(false) && branches(target) == Some(true)
            && (rules[key].checks == [] || !IsTaken(rules, repos, branches, order, i, target)))
      && (key in after ==> after[key] == rules[key])
  {
    PrefixRepairs(rules, repos, branches, order, plan, |plan|);
    assert plan[..|plan|] == plan;
    RepairConservesRules(rules, branches, order, plan, rules, repos);
    hide Process, HasEncodedSlash, IsTaken, Decode, Settled;
  }

  function KeysOf(plan: seq<Step>): seq<Key> {
    seq(|plan|, k requires 0 <= k < |plan| => plan[k].key)
  }

  function Listing(r: Report): multiset<Key> {
    multiset(r.moved) + multiset(r.removed) + multiset(r.kept)
  }

  lemma ListedAddsOne(r: Report, key: Key, d: Decision)
    ensures Listing(Listed(r, key, d)) == Listing(r) + multiset{key}
  {
  }

  lemma KeysAddOne(plan: seq<Step>)
    requires plan != []
    ensures multiset(KeysOf(plan)) == multiset(KeysOf(plan[..|plan| - 1])) + multiset{plan[|plan| - 1].key}
  {
    var n := |plan| - 1;
    assert KeysOf(plan) == KeysOf(plan[..n]) + [plan[n].key];
  }

  /** The report lists every planned key exactly once, and as many removed keys as there were removals. */
  lemma {:induction false} ReportListsEveryKeyOnce(plan: seq<Step>, decisions: seq<Decision>)
    requires |plan| == |decisions|
    ensures Listing(ReportOf(plan, decisions)) == multiset(KeysOf(plan))
    ensures |ReportOf(plan, decisions).removed| == Removals(decisions)
    decreases |plan|
  {
    if plan == [] {
      assert KeysOf(plan) == [];
    } else {
      var n := |plan| - 1;
      ReportListsEveryKeyOnce(plan[..n], decisions[..n]);
      ListedAddsOne(ReportOf(plan[..n], decisions[..n]), plan[n].key, decisions[n]);
      KeysAddOne(plan);
      hide Listing, KeysOf;
    }
  }

  /** Each planned key is listed by what was decided for it. */
  lemma {:induction false} ReportSortsByDecision(plan: seq<Step>, decisions: seq<Decision>, key: Key)
    requires |plan| == |decisions|
    ensures var r := ReportOf(plan, decisions);
      && (key in r.moved <==> exists i :: 0 <= i < |plan| && plan[i].key == key && decisions[i].Move?)
      && (key in r.removed <==> exists i :: 0 <= i < |plan| && plan[i].key == key && decisions[i].Remove?)
      && (key in r.kept <==> exists i :: 0 <= i < |plan| && plan[i].key == key && decisions[i].Keep?)
    decreases |plan|
  {
    if plan != [] {
      var n := |plan| - 1;
      ReportSortsByDecision(plan[..n], decisions[..n], key);
      assert forall i | 0 <= i < n :: plan[..n][i] == plan[i] && decisions[..n][i] == decisions[i];
    }
  }
}
