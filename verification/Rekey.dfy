/**
 The repair of branch rules stored under a percent-encoded branch name
 (crates/jeryu-core/src/engine/branch_protection.rs).

 Rules are looked up in git without the lock; every decision is taken again
 under the write lock, against whatever the rules are by then.
 */
module Rekey {
  import opened Common

  datatype Key = Key(owner: string, repo: string, branch: string)

  /** `checks` are the required status checks, `rest` everything else a rule says. */
  datatype Rule = Rule(branch: string, checks: seq<string>, rest: int)

  datatype Repository = Repository(archived: bool, defaultBranch: string)

  datatype Error = AdminRequired | GitFailed | StorageFailed | AuditFailed

  // ----- encoded names -----

  predicate EncodedAt(s: string, i: nat) {
    i + 3 <= |s| && s[i] == '%' && s[i + 1] == '2' && (s[i + 2] == 'f' || s[i + 2] == 'F')
  }

  predicate HasEncodedSlash(s: string) {
    exists i: nat :: i < |s| && EncodedAt(s, i)
  }

  /** Every encoded slash becomes a slash, from left to right. */
  function Decode(s: string): string {
    if s == "" then ""
    else if EncodedAt(s, 0) then "/" + Decode(s[3..])
    else [s[0]] + Decode(s[1..])
  }

  lemma {:induction false} DecodeSkips(s: string, at: nat)
    requires at <= |s| && forall i: nat | i < at :: !EncodedAt(s, i)
    ensures Decode(s) == s[..at] + Decode(s[at..])
    decreases at
  {
    if at == 0 {
      assert s[0..] == s && s[..0] == "";
    } else {
      var t := s[1..];
      forall i: nat | i < at - 1 ensures !EncodedAt(t, i) {
        assert !EncodedAt(s, i + 1);
      }
      DecodeSkips(t, at - 1);
      assert !EncodedAt(s, 0);
      assert t[at - 1..] == s[at..] && [s[0]] + t[..at - 1] == s[..at];
    }
  }

  method Find(s: string) returns (at: Option<nat>)
    ensures at.None? <==> !HasEncodedSlash(s)
    ensures at.Some? ==> EncodedAt(s, at.value) && forall i: nat | i < at.value :: !EncodedAt(s, i)
  {
    var i := 0;
    while i < |s|
      invariant i <= |s| && forall k: nat | k < i :: !EncodedAt(s, k)
    {
      if EncodedAt(s, i) {
        return Some(i);
      }
      i := i + 1;
    }
    at := None;
  }

  method DecodeSlashes(branch: string) returns (r: string)
    ensures r == Decode(branch)
  {
    r := "";
    var rest := branch;
    var at := Find(rest);
    while at.Some?
      invariant r + Decode(rest) == Decode(branch)
      invariant at.None? <==> !HasEncodedSlash(rest)
      invariant at.Some? ==> EncodedAt(rest, at.value) && forall i: nat | i < at.value :: !EncodedAt(rest, i)
      decreases |rest|
    {
      DecodeSkips(rest, at.value);
      assert EncodedAt(rest[at.value..], 0) && rest[at.value..][3..] == rest[at.value + 3..];
      r := r + rest[..at.value] + "/";
      rest := rest[at.value + 3..];
      at := Find(rest);
    }
    PlainDecodesToItself(rest);
    r := r + rest;
  }

  lemma PlainDecodesToItself(s: string)
    requires !HasEncodedSlash(s)
    ensures Decode(s) == s
  {
    DecodeSkips(s, |s|);
    assert s[..|s|] == s && s[|s|..] == "";
  }

  /** A decoded name starts like its source, unless with a decoded slash. */
  lemma DecodeHead(s: string)
    requires Decode(s) != "" && Decode(s)[0] != '/'
    ensures s != "" && Decode(s)[0] == s[0] && Decode(s)[1..] == Decode(s[1..])
  {
  }

  lemma {:induction false} DecodedIsPlain(s: string)
    ensures !HasEncodedSlash(Decode(s))
    decreases |s|
  {
    if s != "" {
      var d := Decode(s);
      var tail := if EncodedAt(s, 0) then s[3..] else s[1..];
      DecodedIsPlain(tail);
      assert d[1..] == Decode(tail);
      assert forall i: nat | 0 < i < |d| :: EncodedAt(d, i) <==> EncodedAt(Decode(tail), i - 1);
      if EncodedAt(d, 0) {
        DecodeHead(s);
        DecodeHead(s[1..]);
        DecodeHead(s[1..][1..]);
      }
    }
  }

  lemma {:induction false} DecodeShrinks(s: string)
    ensures |Decode(s)| <= |s|
    ensures HasEncodedSlash(s) ==> |Decode(s)| < |s|
    decreases |s|
  {
    if s != "" {
      var tail := if EncodedAt(s, 0) then s[3..] else s[1..];
      DecodeShrinks(tail);
      if i: nat :| i < |s| && EncodedAt(s, i) && !EncodedAt(s, 0) {
        assert EncodedAt(tail, i - 1);
      }
    }
  }

  /** Decoding leaves no encoded slash, and changes exactly the names that have one. */
  lemma DecodeIsClean(s: string)
    ensures !HasEncodedSlash(Decode(s)) && Decode(Decode(s)) == Decode(s)
    ensures Decode(s) == s <==> !HasEncodedSlash(s)
  {
    DecodedIsPlain(s);
    PlainDecodesToItself(Decode(s));
    DecodeShrinks(s);
    if !HasEncodedSlash(s) {
      PlainDecodesToItself(s);
    }
  }

  /** An encoded slash is one of two texts, and decodes to a slash wherever it stands. */
  lemma EncodedSlashesDecode(a: string, b: string)
    ensures Decode(a + "%2F" + b) == Decode(a) + "/" + Decode(b)
    ensures Decode(a + "%2f" + b) == Decode(a) + "/" + Decode(b)
  {
    EncodedSlashDecodes(a, "%2F", b);
    EncodedSlashDecodes(a, "%2f", b);
    hide Decode;
  }

  lemma {:induction false} EncodedSlashDecodes(a: string, slash: string, b: string)
    requires slash == "%2F" || slash == "%2f"
    ensures Decode(a + slash + b) == Decode(a) + "/" + Decode(b)
    decreases |a|
  {
    hide Decode, EncodedAt;
    if a == "" {
      NothingAhead(slash, b);
      assert a + slash + b == slash + b;
    } else {
      var s := a + slash + b;
      SlashAhead(a, slash, b);
      var n := if EncodedAt(a, 0) then 3 else 1;
      DecodeOfTheHead(s);
      DecodeOfTheHead(a);
      EncodedIsLong(a);
      var head := if EncodedAt(a, 0) then "/" else [a[0]];
      assert s[n..] == a[n..] + slash + b && s[0] == a[0];
      EncodedSlashDecodes(a[n..], slash, b);
      assert head + (Decode(a[n..]) + "/" + Decode(b)) == head + Decode(a[n..]) + "/" + Decode(b);
    }
  }

  lemma NothingAhead(slash: string, b: string)
    requires slash == "%2F" || slash == "%2f"
    ensures Decode(slash + b) == Decode("") + "/" + Decode(b)
  {
    assert (slash + b)[3..] == b && EncodedAt(slash + b, 0);
  }

  lemma EncodedIsLong(s: string)
    ensures EncodedAt(s, 0) ==> |s| >= 3
  {
  }

  lemma DecodeOfTheHead(s: string)
    requires s != ""
    ensures Decode(s) == if EncodedAt(s, 0) then "/" + Decode(s[3..]) else [s[0]] + Decode(s[1..])
  {
  }

  /** What stands before an encoded slash is encoded or not by itself. */
  lemma SlashAhead(a: string, slash: string, b: string)
    requires a != "" && (slash == "%2F" || slash == "%2f")
    ensures EncodedAt(a + slash + b, 0) <==> EncodedAt(a, 0)
  {
    var s := a + slash + b;
    assert forall i: nat | i < |a| :: s[i] == a[i];
    assert s[|a|] == '%';
  }

  /** Whether `s` is `a`, an encoded slash and `b`. */
  predicate JoinedBySlash(s: string, a: string, b: string) {
    s == a + "%2F" + b || s == a + "%2f" + b
  }

  lemma EncodedNamesHoldAnEncodedSlash(s: string)
    ensures HasEncodedSlash(s) <==> exists a, b :: JoinedBySlash(s, a, b)
  {
    if i: nat :| i < |s| && EncodedAt(s, i) {
      assert s == s[..i] + s[i..i + 3] + s[i + 3..];
      assert s[i..i + 3] == "%2F" || s[i..i + 3] == "%2f";
      assert JoinedBySlash(s, s[..i], s[i + 3..]);
    }
    if a, b :| JoinedBySlash(s, a, b) {
      assert EncodedAt(s, |a|);
    }
  }

  // ----- planning and deciding -----

  datatype Step = Step(key: Key, seen: Rule, decoded: string, encodedExists: bool, decodedExists: bool)
  {
    function Target(): Key {
      key.(branch := decoded)
    }
  }

  datatype Reason =
    | RuleChanged | NoRepository | Archived | DefaultBranch | RealBranch | NoDecodedBranch | ChecksWouldDrop

  datatype Decision = Move | Remove | Keep(reason: Reason)

  type Rules = map<Key, Rule>
  type Repositories = map<(string, string), Repository>

  function Decide(rules: Rules, repos: Repositories, step: Step): (d: Decision)
    ensures !d.Keep? ==> step.key in rules && rules[step.key] == step.seen
  {
    var at := (step.key.owner, step.key.repo);
    if step.key !in rules || rules[step.key] != step.seen then Keep(RuleChanged)
    else if at !in repos then Keep(NoRepository)
    else if repos[at].archived then Keep(Archived)
    else if repos[at].defaultBranch == step.key.branch then Keep(DefaultBranch)
    else if step.encodedExists then Keep(RealBranch)
    else if !step.decodedExists then Keep(NoDecodedBranch)
    else if step.Target() !in rules then Move
    else if step.seen.checks != [] then Keep(ChecksWouldDrop)
    else Remove
  }

  function Carry(rules: Rules, step: Step, d: Decision): Rules
    requires d.Move? ==> step.key in rules
  {
    match d
    case Keep(_) => rules
    case Remove => rules - {step.key}
    case Move => (rules - {step.key})[step.Target() := rules[step.key].(branch := step.decoded)]
  }

  datatype Outcome = Outcome(rules: Rules, decisions: seq<Decision>)

  function Process(rules: Rules, repos: Repositories, plan: seq<Step>): Outcome {
    if plan == [] then Outcome(rules, [])
    else
      var before := Process(rules, repos, plan[..|plan| - 1]);
      var d := Decide(before.rules, repos, plan[|plan| - 1]);
      Outcome(Carry(before.rules, plan[|plan| - 1], d), before.decisions + [d])
  }

  /** Git's answer whether a branch exists; `None` is a failed lookup. */
  type Branches = Key -> Option<bool>

  function PlanStep(rules: Rules, branches: Branches, key: Key): Option<Step>
    requires key in rules
  {
    var decoded := Decode(key.branch);
    var encodedExists := branches(key);
    var decodedExists := branches(key.(branch := decoded));
    if encodedExists.None? || decodedExists.None? then None
    else Some(Step(key, rules[key], decoded, encodedExists.value, decodedExists.value))
  }

  /** The keys to look at, in whatever order the hash map yields them. */
  ghost predicate IsEncodedListing(rules: Rules, order: seq<Key>) {
    && (forall i, j | 0 <= i < j < |order| :: order[i] != order[j])
    && (forall k :: k in order <==> k in rules && HasEncodedSlash(k.branch))
  }

  /** The plan follows the listing, step for step. */
  ghost predicate IsPlan(rules: Rules, branches: Branches, order: seq<Key>, plan: seq<Step>) {
    |plan| == |order|
    && forall i | 0 <= i < |plan| :: order[i] in rules && PlanStep(rules, branches, order[i]) == Some(plan[i])
  }

  datatype Report = Report(moved: seq<Key>, removed: seq<Key>, kept: seq<Key>)

  function Listed(r: Report, key: Key, d: Decision): Report {
    match d
    case Move => r.(moved := r.moved + [key])
    case Remove => r.(removed := r.removed + [key])
    case Keep(_) => r.(kept := r.kept + [key])
  }

  function ReportOf(plan: seq<Step>, decisions: seq<Decision>): Report
    requires |plan| == |decisions|
  {
    if plan == [] then Report([], [], [])
    else
      var n := |plan| - 1;
      Listed(ReportOf(plan[..n], decisions[..n]), plan[n].key, decisions[n])
  }

  lemma {:induction false} ProcessDecidesEach(rules: Rules, repos: Repositories, plan: seq<Step>)
    ensures |Process(rules, repos, plan).decisions| == |plan|
    decreases |plan|
  {
    if plan != [] {
      ProcessDecidesEach(rules, repos, plan[..|plan| - 1]);
    }
  }

  lemma ProcessNothing(rules: Rules, repos: Repositories)
    ensures Process(rules, repos, []) == Outcome(rules, [])
    ensures ReportOf([], []) == Report([], [], []) && AllKept([])
  {
  }

  predicate AllKept(decisions: seq<Decision>) {
    forall k | 0 <= k < |decisions| :: decisions[k].Keep?
  }

  lemma AllKeptOneMore(decisions: seq<Decision>, d: Decision)
    ensures AllKept(decisions + [d]) <==> AllKept(decisions) && d.Keep?
  {
    var all := decisions + [d];
    assert all[|decisions|] == d;
    assert forall k | 0 <= k < |decisions| :: all[k] == decisions[k];
  }

  /** One step more, from the rules the earlier ones left. */
  function Continued(before: Outcome, repos: Repositories, step: Step): Outcome {
    var d := Decide(before.rules, repos, step);
    Outcome(Carry(before.rules, step, d), before.decisions + [d])
  }

  lemma ProcessOneMore(rules: Rules, repos: Repositories, plan: seq<Step>, i: nat)
    requires i < |plan|
    ensures Process(rules, repos, plan[..i + 1]) == Continued(Process(rules, repos, plan[..i]), repos, plan[i])
  {
    assert plan[..i + 1][..i] == plan[..i];
    hide Decide, Carry;
  }

  lemma ReportOneMore(plan: seq<Step>, decisions: seq<Decision>, d: Decision, i: nat)
    requires i < |plan| && |decisions| == i
    ensures ReportOf(plan[..i + 1], decisions + [d]) == Listed(ReportOf(plan[..i], decisions), plan[i].key, d)
  {
    assert plan[..i + 1][..i] == plan[..i] && (decisions + [d])[..i] == decisions;
  }

  // ----- the service -----

  class ForgeCore {
    var rules: Rules
    var repos: Repositories
    var admins: set<string>

    constructor (rules: Rules, repos: Repositories, admins: set<string>)
      ensures this.rules == rules && this.repos == repos && this.admins == admins
    {
      this.rules, this.repos, this.admins := rules, repos, admins;
    }

    /** The lookups, without the lock. A failed lookup gives up before anything is changed. */
    method PlanRekey(actor: string, branches: Branches, order: seq<Key>) returns (r: Result<seq<Step>, Error>)
      requires IsEncodedListing(rules, order)
      ensures actor !in admins ==> r == Err(AdminRequired)
      ensures actor in admins ==> (r.Ok? <==> forall k | 0 <= k < |order| ::
                order[k] in rules && PlanStep(rules, branches, order[k]).Some?)
      ensures r.Ok? ==> IsPlan(rules, branches, order, r.value)
      ensures actor in admins && r.Err? ==> r == Err(GitFailed)
    {
      if actor !in admins {
        return Err(AdminRequired);
      }
      var plan: seq<Step> := [];
      for i := 0 to |order|
        invariant IsPlan(rules, branches, order[..i], plan)
        invariant forall k | 0 <= k < i :: order[k] in rules && PlanStep(rules, branches, order[k]).Some?
      {
        assert order[i] in order;
        var key := order[i];
        var decoded := DecodeSlashes(key.branch);
        var encodedExists := branches(key);
        if encodedExists.None? {
          return Err(GitFailed);
        }
        var decodedExists := branches(key.(branch := decoded));
        if decodedExists.None? {
          return Err(GitFailed);
        }
        plan := plan + [Step(key, rules[key], decoded, encodedExists.value, decodedExists.value)];
      }
      assert order[..|order|] == order;
      r := Ok(plan);
    }

    /**
     The changes, under the write lock, to rules that may differ from those planned
     for. The audit entries come last: when one fails the changes stay.
     */
    method ApplyRekey(plan: seq<Step>, persisted: bool, audited: bool) returns (r: Result<Report, Error>)
      modifies this
      ensures repos == old(repos) && admins == old(admins)
      ensures |Process(old(rules), repos, plan).decisions| == |plan|
      ensures r.Ok? ==> rules == Process(old(rules), repos, plan).rules
      ensures r.Ok? ==> r.value == ReportOf(plan, Process(old(rules), repos, plan).decisions)
      ensures r.Ok? <==> AllKept(Process(old(rules), repos, plan).decisions) || (persisted && audited)
      ensures r.Err? && !persisted ==> r == Err(StorageFailed) && rules == old(rules)
      ensures r.Err? && persisted ==> r == Err(AuditFailed) && rules == Process(old(rules), repos, plan).rules
    {
      hide Decide, Process, ReportOf, AllKept;
      ProcessNothing(rules, repos);
      var previous := rules;
      var report := Report([], [], []);
      var changed := false;
      ghost var decisions: seq<Decision> := [];
      for i := 0 to |plan|
        invariant repos == old(repos) && admins == old(admins) && |decisions| == i
        invariant Process(previous, repos, plan[..i]) == Outcome(rules, decisions)
        invariant report == ReportOf(plan[..i], decisions)
        invariant changed <==> !AllKept(decisions)
        invariant !changed ==> rules == previous
      {
        var step := plan[i];
        var d := Decide(rules, repos, step);
        ProcessOneMore(previous, repos, plan, i);
        ReportOneMore(plan, decisions, d, i);
        AllKeptOneMore(decisions, d);
        match d {
          case Keep(_) => report := report.(kept := report.kept + [step.key]);
          case Remove =>
            rules := rules - {step.key};
            report := report.(removed := report.removed + [step.key]);
            changed := true;
          case Move =>
            var rule := rules[step.key].(branch := step.decoded);
            rules := (rules - {step.key})[step.Target() := rule];
            report := report.(moved := report.moved + [step.key]);
            changed := true;
        }
        decisions := decisions + [d];
      }
      assert plan[..|plan|] == plan;
      if changed && !persisted {
        rules := previous;
        return Err(StorageFailed);
      }
      if changed && !audited {
        return Err(AuditFailed);
      }
      r := Ok(report);
    }
  }
}
