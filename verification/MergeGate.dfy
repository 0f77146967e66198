/**
 The merge gate (crates/jeryu-core/src/branch_protection/evaluate.rs): every
 reason why a pull request may not merge yet, from its reviews, its commits, its
 checks and its code owners.
 */
module MergeGate {
  import opened Common
  import opened Reviews
  import opened CodeOwners

  /** Lists the source orders are sets here; `Satisfied` paths do not appear. */
  datatype Blocker =
    | ShaMismatch(expected: string, actual: string)
    | DraftPullRequest
    | ChangesRequestedBy(reviewers: set<string>)
    | JankuraiProofRequired
    | MissingReview(required: nat, approved: nat)
    | MissingStatusCheck(context: string)
    | FailedStatusCheck(context: string)
    | NonLinearHistory(sha: string)
    | UnsignedCommits(unsigned: seq<string>)
    | MissingCodeOwnerReview(paths: set<string>, owners: set<string>)

  datatype Commit = Commit(sha: string, parents: nat, verified: bool)

  datatype PullRequest = PullRequest(
    author: string, headSha: string, headPatchIds: seq<string>, draft: bool,
    commits: seq<Commit>, changedFiles: seq<string>)

  datatype ProtectionRule = ProtectionRule(
    requiredStatusChecks: seq<string>, requiredApprovals: nat, enforceAdmins: bool,
    requiredLinearHistory: bool, requireSignedCommits: bool, requireJankuraiProof: bool,
    dismissStaleApprovals: bool, requireExactShaApproval: bool)

  datatype Context = Context(
    codeowners: Option<seq<OwnerRule>>, actorIsAdmin: bool, jankuraiProofMandatory: bool)

  /** What the commit statuses and check runs answer for one required context. */
  datatype ContextState = Satisfied | Missing | Failed

  type Answers = string -> ContextState

  const PROOF := "jankurai/proof"

  /** Either strict setting keeps verdicts on their exact head; so does having no rule. */
  function ReachForRule(rule: Option<ProtectionRule>): VerdictReach {
    if rule.Some? && !rule.value.dismissStaleApprovals && !rule.value.requireExactShaApproval
    then UnchangedDiff else ExactHead
  }

  // ----- the gates -----

  function Requesters(e: map<string, Review>): set<string> {
    set a | a in e && e[a].state == ChangesRequested
  }

  function Approvers(e: map<string, Review>): set<string> {
    set a | a in e && e[a].state == Approved
  }

  function When(c: bool, b: Blocker): seq<Blocker> {
    if c then [b] else []
  }

  /** Gates no rule and no administrator can lift. */
  function IntrinsicBlockers(pr: PullRequest, e: map<string, Review>, answers: Answers,
                             requestedSha: Option<string>, context: Context): seq<Blocker>
  {
    (if requestedSha.Some? && requestedSha.value != pr.headSha
     then [ShaMismatch(pr.headSha, requestedSha.value)] else [])
    + When(pr.draft, DraftPullRequest)
    + When(Requesters(e) != {}, ChangesRequestedBy(Requesters(e)))
    + When(context.jankuraiProofMandatory && answers(PROOF) != Satisfied, JankuraiProofRequired)
  }

  function CheckBlockers(required: seq<string>, answers: Answers): seq<Blocker> {
    if required == [] then []
    else
      var c := required[|required| - 1];
      CheckBlockers(required[..|required| - 1], answers)
      + match answers(c) {
          case Satisfied => []
          case Missing => [MissingStatusCheck(c)]
          case Failed => [FailedStatusCheck(c)]
        }
  }

  function FirstMerge(commits: seq<Commit>): Option<Commit> {
    if commits == [] then None
    else if commits[0].parents > 1 then Some(commits[0])
    else FirstMerge(commits[1..])
  }

  function Unsigned(commits: seq<Commit>): seq<string> {
    if commits == [] then []
    else (if commits[0].verified then [] else [commits[0].sha]) + Unsigned(commits[1..])
  }

  /** An owned path none of whose owners approved. */
  predicate Unsatisfied(rules: seq<OwnerRule>, approvers: set<string>, path: string) {
    var owners := OwnersFor(rules, path);
    owners != [] && forall i | 0 <= i < |owners| :: owners[i] !in approvers
  }

  function UnsatisfiedPaths(rules: seq<OwnerRule>, approvers: set<string>, files: seq<string>): set<string> {
    set f | f in files && Unsatisfied(rules, approvers, f)
  }

  function OwnersOf(rules: seq<OwnerRule>, paths: set<string>): set<string> {
    set p, o | p in paths && o in OwnersFor(rules, p) :: o
  }

  function CodeOwnerBlockers(context: Context, approvers: set<string>, files: seq<string>): seq<Blocker> {
    if context.codeowners.None? then []
    else
      var paths := UnsatisfiedPaths(context.codeowners.value, approvers, files);
      When(paths != {}, MissingCodeOwnerReview(paths, OwnersOf(context.codeowners.value, paths)))
  }

  function RuleBlockers(pr: PullRequest, rule: ProtectionRule, e: map<string, Review>, answers: Answers,
                        context: Context): seq<Blocker>
  {
    When(|Approvers(e)| < rule.requiredApprovals, MissingReview(rule.requiredApprovals, |Approvers(e)|))
    + CheckBlockers(rule.requiredStatusChecks, answers)
    + When(rule.requireJankuraiProof && !context.jankuraiProofMandatory && answers(PROOF) != Satisfied,
           JankuraiProofRequired)
    + (if rule.requiredLinearHistory && FirstMerge(pr.commits).Some?
       then [NonLinearHistory(FirstMerge(pr.commits).value.sha)] else [])
    + When(rule.requireSignedCommits && Unsigned(pr.commits) != [], UnsignedCommits(Unsigned(pr.commits)))
    + CodeOwnerBlockers(context, Approvers(e), pr.changedFiles)
  }

  /** The rule does not bind an administrator unless it says so. */
  predicate RuleBinds(protection: Option<ProtectionRule>, context: Context) {
    protection.Some? && !(context.actorIsAdmin && !protection.value.enforceAdmins)
  }

  function BlockersOf(pr: PullRequest, protection: Option<ProtectionRule>, e: map<string, Review>,
                      answers: Answers, requestedSha: Option<string>, context: Context): seq<Blocker>
  {
    IntrinsicBlockers(pr, e, answers, requestedSha, context)
    + if RuleBinds(protection, context) then RuleBlockers(pr, protection.value, e, answers, context) else []
  }

  function EffectiveFor(pr: PullRequest, protection: Option<ProtectionRule>, log: seq<Review>): map<string, Review> {
    Effective(log, pr.headSha, pr.headPatchIds, ReachForRule(protection), Some(pr.author))
  }

  function Blockers(pr: PullRequest, protection: Option<ProtectionRule>, log: seq<Review>,
                    answers: Answers, requestedSha: Option<string>, context: Context): seq<Blocker>
  {
    BlockersOf(pr, protection, EffectiveFor(pr, protection, log), answers, requestedSha, context)
  }

  // ----- the evaluator -----

  method MissingCodeOwners(rules: seq<OwnerRule>, approvers: set<string>, files: seq<string>)
    returns (paths: set<string>, owners: set<string>)
    ensures paths == UnsatisfiedPaths(rules, approvers, files)
    ensures owners == OwnersOf(rules, paths)
  {
    paths, owners := {}, {};
    for i := 0 to |files|
      invariant paths == UnsatisfiedPaths(rules, approvers, files[..i])
      invariant owners == OwnersOf(rules, paths)
    {
      var pathOwners := OwnersFor(rules, files[i]);
      assert files[..i + 1] == files[..i] + [files[i]];
      if pathOwners == [] {
        assert UnsatisfiedPaths(rules, approvers, files[..i + 1]) == paths;
        continue;
      }
      var satisfied := exists j :: 0 <= j < |pathOwners| && pathOwners[j] in approvers;
      if !satisfied {
        paths := paths + {files[i]};
        owners := owners + (set o | o in pathOwners);
        assert owners == OwnersOf(rules, paths);
      }
    }
    assert files[..|files|] == files;
  }

  method EvaluateBranchProtection(pr: PullRequest, protection: Option<ProtectionRule>, log: seq<Review>,
                                  answers: Answers, requestedSha: Option<string>, context: Context)
    returns (blockers: seq<Blocker>)
    ensures blockers == Blockers(pr, protection, log, answers, requestedSha, context)
  {
    hide CheckBlockers, FirstMerge, Unsigned, UnsatisfiedPaths, OwnersOf, Requesters, Approvers;
    var effective := ReduceReviews(log, pr.headSha, pr.headPatchIds, ReachForRule(protection), Some(pr.author));
    blockers := [];
    if requestedSha.Some? && requestedSha.value != pr.headSha {
      blockers := blockers + [ShaMismatch(pr.headSha, requestedSha.value)];
    }
    if pr.draft {
      blockers := blockers + [DraftPullRequest];
    }
    var requesters := Requesters(effective);
    if requesters != {} {
      blockers := blockers + [ChangesRequestedBy(requesters)];
    }
    if context.jankuraiProofMandatory && answers(PROOF) != Satisfied {
      blockers := blockers + [JankuraiProofRequired];
    }
    assert blockers == IntrinsicBlockers(pr, effective, answers, requestedSha, context);
    if protection.None? || (context.actorIsAdmin && !protection.value.enforceAdmins) {
      assert blockers + [] == blockers;
      return;
    }
    var gates := EvaluateRule(pr, protection.value, effective, answers, context);
    blockers := blockers + gates;
  }

  method RequiredChecks(required: seq<string>, answers: Answers) returns (blockers: seq<Blocker>)
    ensures blockers == CheckBlockers(required, answers)
  {
    blockers := [];
    for i := 0 to |required|
      invariant blockers == CheckBlockers(required[..i], answers)
    {
      assert required[..i + 1][..i] == required[..i];
      match answers(required[i]) {
        case Satisfied =>
        case Missing => blockers := blockers + [MissingStatusCheck(required[i])];
        case Failed => blockers := blockers + [FailedStatusCheck(required[i])];
      }
    }
    assert required[..|required|] == required;
  }

  method EvaluateRule(pr: PullRequest, rule: ProtectionRule, effective: map<string, Review>, answers: Answers,
                      context: Context)
    returns (blockers: seq<Blocker>)
    ensures blockers == RuleBlockers(pr, rule, effective, answers, context)
  {
    hide FirstMerge, Unsigned, UnsatisfiedPaths, OwnersOf, Approvers, CheckBlockers;
    blockers := [];
    var approved := |Approvers(effective)|;
    if rule.requiredApprovals > 0 && approved < rule.requiredApprovals {
      blockers := blockers + [MissingReview(rule.requiredApprovals, approved)];
    }
    ghost var gates := When(approved < rule.requiredApprovals, MissingReview(rule.requiredApprovals, approved));
    assert blockers == gates;
    var checks := RequiredChecks(rule.requiredStatusChecks, answers);
    blockers := blockers + checks;
    gates := gates + CheckBlockers(rule.requiredStatusChecks, answers);
    var proof := rule.requireJankuraiProof && !context.jankuraiProofMandatory && answers(PROOF) != Satisfied;
    if proof {
      blockers := blockers + [JankuraiProofRequired];
    }
    gates := gates + When(proof, JankuraiProofRequired);
    assert blockers == gates;
    var merge := FirstMerge(pr.commits);
    if rule.requiredLinearHistory && merge.Some? {
      blockers := blockers + [NonLinearHistory(merge.value.sha)];
    }
    gates := gates + if rule.requiredLinearHistory && FirstMerge(pr.commits).Some?
                     then [NonLinearHistory(FirstMerge(pr.commits).value.sha)] else [];
    assert blockers == gates;
    var unsigned := Unsigned(pr.commits);
    if rule.requireSignedCommits && unsigned != [] {
      blockers := blockers + [UnsignedCommits(unsigned)];
    }
    gates := gates
           + When(rule.requireSignedCommits && Unsigned(pr.commits) != [], UnsignedCommits(Unsigned(pr.commits)));
    assert blockers == gates;
    if context.codeowners.Some? {
      var paths, owners := MissingCodeOwners(context.codeowners.value, Approvers(effective), pr.changedFiles);
      if paths != {} {
        blockers := blockers + [MissingCodeOwnerReview(paths, owners)];
      }
    }
    assert blockers == gates + CodeOwnerBlockers(context, Approvers(effective), pr.changedFiles);
  }

  // ----- an approval never makes matters worse -----

  /** `b'` is `b`, or the same complaint about no more than `b` complained of. */
  predicate NoWorse(b: Blocker, b': Blocker) {
    match (b, b')
    case (ChangesRequestedBy(r), ChangesRequestedBy(r')) => r' <= r
    case (MissingReview(n, a), MissingReview(n', a')) => n' == n && a' >= a
    case (MissingCodeOwnerReview(p, o), MissingCodeOwnerReview(p', o')) => p' <= p && o' <= o
    case _ => b' == b
  }

  ghost predicate NoneWorse(old_: seq<Blocker>, new_: seq<Blocker>) {
    forall b' | b' in new_ :: exists b :: b in old_ && NoWorse(b, b')
  }

  lemma NoneWorseJoins(a: seq<Blocker>, a': seq<Blocker>, b: seq<Blocker>, b': seq<Blocker>)
    requires NoneWorse(a, a') && NoneWorse(b, b')
    ensures NoneWorse(a + b, a' + b')
  {
    forall x' | x' in a' + b' ensures exists x :: x in a + b && NoWorse(x, x') {
      if x' in a' {
        var x :| x in a && NoWorse(x, x');
        assert x in a + b;
      } else {
        var x :| x in b && NoWorse(x, x');
        assert x in a + b;
      }
    }
  }

  lemma SameIsNoneWorse(a: seq<Blocker>)
    ensures NoneWorse(a, a)
  {
    assert forall b | b in a :: NoWorse(b, b);
  }

  /** Fewer requesters and more approvers. */
  predicate Improves(e: map<string, Review>, e': map<string, Review>) {
    Requesters(e') <= Requesters(e) && Approvers(e) <= Approvers(e')
  }

  lemma SmallerSet<T>(a: set<T>, b: set<T>)
    requires a <= b
    ensures |a| <= |b|
  {
    if a != {} {
      var x :| x in a;
      SmallerSet(a - {x}, b - {x});
    }
  }

  lemma CodeOwnersNoneWorse(context: Context, approvers: set<string>, approvers': set<string>, files: seq<string>)
    requires approvers <= approvers'
    ensures NoneWorse(CodeOwnerBlockers(context, approvers, files), CodeOwnerBlockers(context, approvers', files))
  {
    if context.codeowners.Some? {
      var rules := context.codeowners.value;
      var paths, paths' := UnsatisfiedPaths(rules, approvers, files), UnsatisfiedPaths(rules, approvers', files);
      assert paths' <= paths;
      assert OwnersOf(rules, paths') <= OwnersOf(rules, paths);
      if paths' != {} {
        assert NoWorse(CodeOwnerBlockers(context, approvers, files)[0],
                       CodeOwnerBlockers(context, approvers', files)[0]);
      }
    }
  }

  lemma IntrinsicNoneWorse(pr: PullRequest, e: map<string, Review>, e': map<string, Review>, answers: Answers,
                           requestedSha: Option<string>, context: Context)
    requires Improves(e, e')
    ensures NoneWorse(IntrinsicBlockers(pr, e, answers, requestedSha, context),
                      IntrinsicBlockers(pr, e', answers, requestedSha, context))
  {
    hide Requesters, Approvers;
    var a := (if requestedSha.Some? && requestedSha.value != pr.headSha
              then [ShaMismatch(pr.headSha, requestedSha.value)] else []) + When(pr.draft, DraftPullRequest);
    var b, b' := When(Requesters(e) != {}, ChangesRequestedBy(Requesters(e))),
                 When(Requesters(e') != {}, ChangesRequestedBy(Requesters(e')));
    var c := When(context.jankuraiProofMandatory && answers(PROOF) != Satisfied, JankuraiProofRequired);
    assert NoneWorse(b, b') by {
      if b' != [] { assert NoWorse(b[0], b'[0]); }
    }
    SameIsNoneWorse(a);
    SameIsNoneWorse(c);
    NoneWorseJoins(a, a, b, b');
    NoneWorseJoins(a + b, a + b', c, c);
  }

  lemma NoneWorseWith(a: seq<Blocker>, a': seq<Blocker>, same: seq<Blocker>)
    requires NoneWorse(a, a')
    ensures NoneWorse(a + same, a' + same)
  {
    SameIsNoneWorse(same);
    NoneWorseJoins(a, a', same, same);
  }

  lemma NoneWorseAround(a: seq<Blocker>, a': seq<Blocker>, b: seq<Blocker>, c: seq<Blocker>, d: seq<Blocker>,
                        e: seq<Blocker>, f: seq<Blocker>, f': seq<Blocker>)
    requires NoneWorse(a, a') && NoneWorse(f, f')
    ensures NoneWorse(a + b + c + d + e + f, a' + b + c + d + e + f')
  {
    hide NoneWorse;
    NoneWorseWith(a, a', b);
    NoneWorseWith(a + b, a' + b, c);
    NoneWorseWith(a + b + c, a' + b + c, d);
    NoneWorseWith(a + b + c + d, a' + b + c + d, e);
    NoneWorseJoins(a + b + c + d + e, a' + b + c + d + e, f, f');
  }

  lemma RuleNoneWorse(pr: PullRequest, rule: ProtectionRule, e: map<string, Review>, e': map<string, Review>,
                      answers: Answers, context: Context)
    requires Improves(e, e')
    ensures NoneWorse(RuleBlockers(pr, rule, e, answers, context), RuleBlockers(pr, rule, e', answers, context))
  {
    hide Requesters, Approvers, CheckBlockers, FirstMerge, Unsigned, CodeOwnerBlockers;
    SmallerSet(Approvers(e), Approvers(e'));
    var n, n' := |Approvers(e)|, |Approvers(e')|;
    var a, a' := When(n < rule.requiredApprovals, MissingReview(rule.requiredApprovals, n)),
                 When(n' < rule.requiredApprovals, MissingReview(rule.requiredApprovals, n'));
    assert NoneWorse(a, a') by {
      if a' != [] { assert NoWorse(a[0], a'[0]); }
    }
    var checks := CheckBlockers(rule.requiredStatusChecks, answers);
    var proof := When(rule.requireJankuraiProof && !context.jankuraiProofMandatory && answers(PROOF) != Satisfied,
                      JankuraiProofRequired);
    var linear := if rule.requiredLinearHistory && FirstMerge(pr.commits).Some?
                  then [NonLinearHistory(FirstMerge(pr.commits).value.sha)] else [];
    var signed := When(rule.requireSignedCommits && Unsigned(pr.commits) != [], UnsignedCommits(Unsigned(pr.commits)));
    var owners, owners' := CodeOwnerBlockers(context, Approvers(e), pr.changedFiles),
                           CodeOwnerBlockers(context, Approvers(e'), pr.changedFiles);
    CodeOwnersNoneWorse(context, Approvers(e), Approvers(e'), pr.changedFiles);
    NoneWorseAround(a, a', checks, proof, linear, signed, owners, owners');
    hide NoneWorse, NoWorse, When;
  }

  /**
   Appending an approval no recorded dismissal names adds no kind of blocker and
   worsens none, through every gate and every rule.
   */
  lemma ApprovalNeverHurts(pr: PullRequest, protection: Option<ProtectionRule>, log: seq<Review>, a: Review,
                           answers: Answers, requestedSha: Option<string>, context: Context)
    requires a.state == Approved && Untargeted(log, a.id)
    ensures NoneWorse(Blockers(pr, protection, log, answers, requestedSha, context),
                      Blockers(pr, protection, log + [a], answers, requestedSha, context))
  {
    var e, e' := EffectiveFor(pr, protection, log), EffectiveFor(pr, protection, log + [a]);
    AppendedApproval(log, a, pr.headSha, pr.headPatchIds, ReachForRule(protection), Some(pr.author));
    assert Improves(e, e');
    IntrinsicNoneWorse(pr, e, e', answers, requestedSha, context);
    if RuleBinds(protection, context) {
      RuleNoneWorse(pr, protection.value, e, e', answers, context);
    }
    hide IntrinsicBlockers, RuleBlockers, EffectiveFor;
    NoneWorseJoins(
      IntrinsicBlockers(pr, e, answers, requestedSha, context),
      IntrinsicBlockers(pr, e', answers, requestedSha, context),
      if RuleBinds(protection, context) then RuleBlockers(pr, protection.value, e, answers, context) else [],
      if RuleBinds(protection, context) then RuleBlockers(pr, protection.value, e', answers, context) else []);
  }

  lemma FoldOfThree(k: Lens, x: Review, y: Review, z: Review)
    ensures Fold(k, [x, y]) == Step(k, Step(k, map[], x), y)
    ensures Fold(k, [x, y] + [z]) == Step(k, Step(k, Step(k, map[], x), y), z)
  {
    hide Step;
    assert [x, y][..1] == [x] && [x][..0] == [] && ([x, y] + [z])[..2] == [x, y];
    assert Fold(k, [x]) == Step(k, map[], x);
  }

  lemma DistinctLower()
    ensures Lower("ann") != Lower("bob")
  {
    assert Lower("ann")[0] == 'a' && Lower("bob")[0] == 'b';
  }

  const BOBS_APPROVAL := Review(1, "bob", Approved, Some("h"), [], None, None)
  const BOBS_DISMISSAL := Review(2, "bob", Dismissed, Some("h"), [], Some(9), Some(RepositoryAdmin))
  const CAROLS_APPROVAL := Review(9, "carol", Approved, Some("h"), [], None, None)

  lemma FoldsOfTargeted(k: Lens)
    requires k.headSha == "h" && k.prAuthor == Some("ann")
    ensures k.withdrawn == {} && k.dismissingAdmins == {} ==>
      Fold(k, [BOBS_APPROVAL, BOBS_DISMISSAL]) == map["bob" := BOBS_APPROVAL]
    ensures k.withdrawn == {9} && Lower("bob") in k.dismissingAdmins ==>
      Fold(k, [BOBS_APPROVAL, BOBS_DISMISSAL] + [CAROLS_APPROVAL]) == map[]
  {
    DistinctLower();
    FoldOfThree(k, BOBS_APPROVAL, BOBS_DISMISSAL, CAROLS_APPROVAL);
    hide Fold, Lower;
  }

  lemma JudgementsOfTargeted(log: seq<Review>, log': seq<Review>)
    requires log == [BOBS_APPROVAL, BOBS_DISMISSAL] && log' == log + [CAROLS_APPROVAL]
    ensures WithdrawnVerdicts(log) == {} && DismissingAdmins(log) == {}
    ensures WithdrawnVerdicts(log') == {9} && Lower("bob") in DismissingAdmins(log')
  {
    hide Lower;
    assert forall r | r in log' :: r == BOBS_APPROVAL || r == BOBS_DISMISSAL || r == CAROLS_APPROVAL;
    assert BOBS_DISMISSAL in log' && CAROLS_APPROVAL in log';
    assert Withdraws(log', BOBS_DISMISSAL) && IsCrossAuthorDismissal(log', BOBS_DISMISSAL);
  }

  /**
   The condition is needed: an approval whose id a recorded dismissal already
   names turns that dismissal into one of someone else's verdict, and so
   discards the dismissing administrator's own approval.
   */
  lemma TargetedApprovalCanHurt()
    returns (log: seq<Review>, a: Review)
    ensures a.state == Approved && !Untargeted(log, a.id)
    ensures Approvers(Effective(log, "h", [], ExactHead, Some("ann"))) == {"bob"}
    ensures Approvers(Effective(log + [a], "h", [], ExactHead, Some("ann"))) == {}
  {
    log, a := [BOBS_APPROVAL, BOBS_DISMISSAL], CAROLS_APPROVAL;
    assert BOBS_DISMISSAL in log;
    hide WithdrawnVerdicts, DismissingAdmins, Fold, Lower;
    JudgementsOfTargeted(log, log + [a]);
    FoldsOfTargeted(LensOf(log, "h", [], ExactHead, Some("ann")));
    FoldsOfTargeted(LensOf(log + [a], "h", [], ExactHead, Some("ann")));
  }

  // ----- what an empty list of blockers means -----

  /** What the rule asks for, said of the pull request itself. */
  ghost predicate MeetsRule(pr: PullRequest, rule: ProtectionRule, e: map<string, Review>, answers: Answers,
                            context: Context)
  {
    && |Approvers(e)| >= rule.requiredApprovals
    && (forall c | c in rule.requiredStatusChecks :: answers(c) == Satisfied)
    && (rule.requireJankuraiProof && !context.jankuraiProofMandatory ==> answers(PROOF) == Satisfied)
    && (rule.requiredLinearHistory ==> forall c | c in pr.commits :: c.parents <= 1)
    && (rule.requireSignedCommits ==> forall c | c in pr.commits :: c.verified)
    && (context.codeowners.Some? ==> forall f | f in pr.changedFiles :: Owned(context.codeowners.value, e, f))
  }

  /** Someone who owns the file approves, unless nobody owns it. */
  ghost predicate Owned(rules: seq<OwnerRule>, e: map<string, Review>, file: string) {
    OwnersFor(rules, file) == []
    || exists o :: o in OwnersFor(rules, file) && o in e && e[o].state == Approved
  }

  lemma {:induction false} NoCheckBlocksExactlyWhen(required: seq<string>, answers: Answers)
    ensures CheckBlockers(required, answers) == [] <==> forall c | c in required :: answers(c) == Satisfied
    decreases |required|
  {
    if required != [] {
      var init := required[..|required| - 1];
      NoCheckBlocksExactlyWhen(init, answers);
      assert required == init + [required[|required| - 1]];
    }
  }

  lemma {:induction false} HistoryIsClean(commits: seq<Commit>)
    ensures FirstMerge(commits).None? <==> forall c | c in commits :: c.parents <= 1
    ensures Unsigned(commits) == [] <==> forall c | c in commits :: c.verified
    decreases |commits|
  {
    if commits != [] {
      HistoryIsClean(commits[1..]);
      assert commits == [commits[0]] + commits[1..];
    }
  }

  lemma EveryFileIsOwned(rules: seq<OwnerRule>, e: map<string, Review>, files: seq<string>)
    ensures UnsatisfiedPaths(rules, Approvers(e), files) == {} <==> forall f | f in files :: Owned(rules, e, f)
  {
    hide OwnersFor;
    forall f | f in files ensures Unsatisfied(rules, Approvers(e), f) <==> !Owned(rules, e, f) {
      var owners := OwnersFor(rules, f);
      if o :| o in owners && o in e && e[o].state == Approved {
        var i :| 0 <= i < |owners| && owners[i] == o;
        assert o in Approvers(e);
      }
      if i :| 0 <= i < |owners| && owners[i] in Approvers(e) {
        assert owners[i] in owners;
      }
    }
    hide Unsatisfied, Owned;
    if forall f | f in files :: Owned(rules, e, f) {
      assert UnsatisfiedPaths(rules, Approvers(e), files) == {};
    } else {
      var f :| f in files && !Owned(rules, e, f);
      assert f in UnsatisfiedPaths(rules, Approvers(e), files);
    }
  }

  lemma RuleBlocksNothingExactlyWhenMet(pr: PullRequest, rule: ProtectionRule, e: map<string, Review>, answers: Answers,
                                        context: Context)
    ensures RuleBlockers(pr, rule, e, answers, context) == [] <==> MeetsRule(pr, rule, e, answers, context)
  {
    NoCheckBlocksExactlyWhen(rule.requiredStatusChecks, answers);
    HistoryIsClean(pr.commits);
    if context.codeowners.Some? {
      EveryFileIsOwned(context.codeowners.value, e, pr.changedFiles);
    }
    hide CheckBlockers, FirstMerge, Unsigned, UnsatisfiedPaths, OwnersOf, Owned, Approvers;
  }

  /**
   Nothing blocks a merge if and only if the requested head is the head, it is no
   draft, no effective verdict asks for changes, a mandatory proof is there and
   a binding rule is met.
   */
  lemma NothingBlocksExactlyWhenMet(pr: PullRequest, protection: Option<ProtectionRule>, log: seq<Review>,
                                    answers: Answers, requestedSha: Option<string>, context: Context)
    ensures var e := EffectiveFor(pr, protection, log);
      Blockers(pr, protection, log, answers, requestedSha, context) == [] <==>
        && (requestedSha.Some? ==> requestedSha.value == pr.headSha)
        && !pr.draft
        && (forall a | a in e :: e[a].state != ChangesRequested)
        && (context.jankuraiProofMandatory ==> answers(PROOF) == Satisfied)
        && (protection.Some? && (context.actorIsAdmin ==> protection.value.enforceAdmins) ==>
              MeetsRule(pr, protection.value, e, answers, context))
  {
    var e := EffectiveFor(pr, protection, log);
    if RuleBinds(protection, context) {
      RuleBlocksNothingExactlyWhenMet(pr, protection.value, e, answers, context);
    }
    hide RuleBlockers, MeetsRule, EffectiveFor;
    assert Requesters(e) == {} <==> forall a | a in e :: e[a].state != ChangesRequested by {
      if a :| a in e && e[a].state == ChangesRequested {
        assert a in Requesters(e);
      }
    }
    hide Requesters;
  }

  // ----- what each blocker says -----

  lemma {:induction false} FirstMergeIs(commits: seq<Commit>)
    ensures FirstMerge(commits).Some? ==>
      exists i :: 0 <= i < |commits| && commits[i] == FirstMerge(commits).value && commits[i].parents >= 2
                  && forall j | 0 <= j < i :: commits[j].parents <= 1
    decreases |commits|
  {
    if commits != [] && commits[0].parents <= 1 && FirstMerge(commits).Some? {
      FirstMergeIs(commits[1..]);
      var rest := commits[1..];
      var i :| 0 <= i < |rest| && rest[i] == FirstMerge(commits).value && rest[i].parents >= 2
               && forall j | 0 <= j < i :: rest[j].parents <= 1;
      assert commits[i + 1] == rest[i];
      assert forall j | 0 < j < i + 1 :: commits[j] == rest[j - 1];
    }
  }

  lemma {:induction false} UnsignedAre(commits: seq<Commit>)
    ensures forall sha :: sha in Unsigned(commits) <==> exists c :: c in commits && !c.verified && c.sha == sha
    decreases |commits|
  {
    if commits != [] {
      UnsignedAre(commits[1..]);
      assert commits == [commits[0]] + commits[1..];
    }
  }

  /** The rule is there and binds the actor: an administrator only if it says so. */
  predicate Binds(protection: Option<ProtectionRule>, context: Context) {
    protection.Some? && (context.actorIsAdmin ==> protection.value.enforceAdmins)
  }

  /** What a blocker says is so, of the pull request, the verdicts that count and the rule. */
  ghost predicate IsTrue(b: Blocker, pr: PullRequest, protection: Option<ProtectionRule>, e: map<string, Review>,
                         answers: Answers, requestedSha: Option<string>, context: Context)
  {
    match b
    case ShaMismatch(expected, actual) => expected == pr.headSha && requestedSha == Some(actual) && actual != expected
    case DraftPullRequest => pr.draft
    case ChangesRequestedBy(reviewers) =>
      reviewers != {} && forall a :: a in reviewers <==> a in e && e[a].state == ChangesRequested
    case JankuraiProofRequired =>
      answers("jankurai/proof") != Satisfied
      && (context.jankuraiProofMandatory || (Binds(protection, context) && protection.value.requireJankuraiProof))
    case MissingReview(required, approved) =>
      Binds(protection, context) && required == protection.value.requiredApprovals && approved < required
      && approved == |set a | a in e && e[a].state == Approved|
    case MissingStatusCheck(c) =>
      Binds(protection, context) && c in protection.value.requiredStatusChecks && answers(c) == Missing
    case FailedStatusCheck(c) =>
      Binds(protection, context) && c in protection.value.requiredStatusChecks && answers(c) == Failed
    case NonLinearHistory(sha) =>
      Binds(protection, context) && protection.value.requiredLinearHistory
      && exists i :: 0 <= i < |pr.commits| && pr.commits[i].parents >= 2 && pr.commits[i].sha == sha
           && forall j | 0 <= j < i :: pr.commits[j].parents <= 1
    case UnsignedCommits(shas) =>
      Binds(protection, context) && protection.value.requireSignedCommits && shas != []
      && forall sha :: sha in shas <==> exists c :: c in pr.commits && !c.verified && c.sha == sha
    case MissingCodeOwnerReview(paths, owners) =>
      Binds(protection, context) && context.codeowners.Some? && paths != {}
      && (forall f :: f in paths <==> f in pr.changedFiles && !Owned(context.codeowners.value, e, f))
      && forall o :: o in owners <==> exists f :: f in paths && o in OwnersFor(context.codeowners.value, f)
  }

  lemma {:induction false} CheckBlockersAre(required: seq<string>, answers: Answers)
    ensures forall b | b in CheckBlockers(required, answers) ::
      || (b.MissingStatusCheck? && b.context in required && answers(b.context) == Missing)
      || (b.FailedStatusCheck? && b.context in required && answers(b.context) == Failed)
    decreases |required|
  {
    if required != [] {
      CheckBlockersAre(required[..|required| - 1], answers);
      assert required == required[..|required| - 1] + [required[|required| - 1]];
    }
  }

  lemma CodeOwnerBlockersAre(pr: PullRequest, protection: Option<ProtectionRule>, e: map<string, Review>,
                             answers: Answers, requestedSha: Option<string>, context: Context)
    requires Binds(protection, context)
    ensures forall b | b in CodeOwnerBlockers(context, Approvers(e), pr.changedFiles) ::
      IsTrue(b, pr, protection, e, answers, requestedSha, context)
  {
    hide OwnersFor;
    if context.codeowners.Some? {
      var rules := context.codeowners.value;
      forall f ensures Unsatisfied(rules, Approvers(e), f) <==> !Owned(rules, e, f) {
        UnsatisfiedIsNotOwned(rules, e, f);
      }
      hide Unsatisfied, Owned, Approvers;
    }
  }

  lemma UnsatisfiedIsNotOwned(rules: seq<OwnerRule>, e: map<string, Review>, f: string)
    ensures Unsatisfied(rules, Approvers(e), f) <==> !Owned(rules, e, f)
  {
    hide OwnersFor;
    var owners := OwnersFor(rules, f);
    if o :| o in owners && o in e && e[o].state == Approved {
      var i :| 0 <= i < |owners| && owners[i] == o;
      assert o in Approvers(e);
    }
    if i :| 0 <= i < |owners| && owners[i] in Approvers(e) {
      assert owners[i] in owners;
    }
  }

  lemma IntrinsicBlockersAreTrue(pr: PullRequest, protection: Option<ProtectionRule>, e: map<string, Review>,
                                 answers: Answers, requestedSha: Option<string>, context: Context)
    ensures forall b | b in IntrinsicBlockers(pr, e, answers, requestedSha, context) ::
      IsTrue(b, pr, protection, e, answers, requestedSha, context)
  {
    hide Owned, OwnersFor;
  }

  lemma RuleBlockersAreTrue(pr: PullRequest, protection: Option<ProtectionRule>, e: map<string, Review>,
                            answers: Answers, requestedSha: Option<string>, context: Context)
    requires Binds(protection, context)
    ensures forall b | b in RuleBlockers(pr, protection.value, e, answers, context) ::
      IsTrue(b, pr, protection, e, answers, requestedSha, context)
  {
    var rule := protection.value;
    ReviewsAndChecksAreTrue(pr, protection, e, answers, requestedSha, context);
    HistoryAndSignaturesAreTrue(pr, protection, e, answers, requestedSha, context);
    CodeOwnerBlockersAre(pr, protection, e, answers, requestedSha, context);
    hide IsTrue, CheckBlockers, FirstMerge, Unsigned, CodeOwnerBlockers, Approvers;
  }

  lemma ReviewsAndChecksAreTrue(pr: PullRequest, protection: Option<ProtectionRule>, e: map<string, Review>,
                                answers: Answers, requestedSha: Option<string>, context: Context)
    requires Binds(protection, context)
    ensures var rule := protection.value;
      forall b | b in When(|Approvers(e)| < rule.requiredApprovals,
                           MissingReview(rule.requiredApprovals, |Approvers(e)|))
                      + CheckBlockers(rule.requiredStatusChecks, answers)
                      + When(rule.requireJankuraiProof && !context.jankuraiProofMandatory
                             && answers(PROOF) != Satisfied, JankuraiProofRequired) ::
        IsTrue(b, pr, protection, e, answers, requestedSha, context)
  {
    CheckBlockersAre(protection.value.requiredStatusChecks, answers);
    assert Approvers(e) == set a | a in e && e[a].state == Approved;
    hide CheckBlockers, Approvers, Owned, OwnersFor;
  }

  lemma HistoryAndSignaturesAreTrue(pr: PullRequest, protection: Option<ProtectionRule>, e: map<string, Review>,
                                    answers: Answers, requestedSha: Option<string>, context: Context)
    requires Binds(protection, context)
    ensures var rule := protection.value;
      && (rule.requiredLinearHistory && FirstMerge(pr.commits).Some? ==>
            IsTrue(NonLinearHistory(FirstMerge(pr.commits).value.sha), pr, protection, e, answers, requestedSha,
                   context))
      && (rule.requireSignedCommits && Unsigned(pr.commits) != [] ==>
            IsTrue(UnsignedCommits(Unsigned(pr.commits)), pr, protection, e, answers, requestedSha, context))
  {
    FirstMergeIs(pr.commits);
    UnsignedAre(pr.commits);
    hide FirstMerge, Unsigned, Owned, OwnersFor;
  }

  /** Every blocker is true, of the verdicts that count under the rule. */
  lemma BlockersAreTrue(pr: PullRequest, protection: Option<ProtectionRule>, log: seq<Review>, answers: Answers,
                        requestedSha: Option<string>, context: Context, b: Blocker)
    requires b in Blockers(pr, protection, log, answers, requestedSha, context)
    ensures IsTrue(b, pr, protection, EffectiveFor(pr, protection, log), answers, requestedSha, context)
  {
    var e := EffectiveFor(pr, protection, log);
    IntrinsicBlockersAreTrue(pr, protection, e, answers, requestedSha, context);
    if Binds(protection, context) {
      RuleBlockersAreTrue(pr, protection, e, answers, requestedSha, context);
    }
    hide IntrinsicBlockers, RuleBlockers, IsTrue, EffectiveFor;
  }

  // ----- how far back verdicts reach -----

  /** No rule, or one that asks for either strictness. */
  predicate IsStrict(protection: Option<ProtectionRule>) {
    protection.Some? ==> protection.value.dismissStaleApprovals || protection.value.requireExactShaApproval
  }

  /** Patch ids in the bound format, at most 256 of them. */
  predicate IsKnownDiff(ids: seq<string>) {
    0 < |ids| <= 256
    && forall i | 0 <= i < |ids| ::
         |ids[i]| == 67 && ids[i][..3] == "v2:" && forall c | c in ids[i][3..] :: IsHexDigit(c)
  }

  lemma CarriesExactlyWhen(protection: Option<ProtectionRule>, ids: seq<string>)
    ensures CarriesUnchangedDiff(ReachForRule(protection), ids) <==> !IsStrict(protection) && IsKnownDiff(ids)
  {
    forall i | 0 <= i < |ids|
      ensures IsReviewPatchId(ids[i]) <==>
        |ids[i]| == 67 && ids[i][..3] == "v2:" && forall c | c in ids[i][3..] :: IsHexDigit(c)
    {
      assert |ids[i]| >= 3 ==> ("v2:" <= ids[i] <==> ids[i][..3] == "v2:");
      assert |ids[i]| == 67 ==> forall k | 3 <= k < 67 :: ids[i][k] == ids[i][3..][k - 3];
    }
  }

  /** The gates read who approves and who asks for changes, and nothing else of the verdicts. */
  lemma GatesReadTheVerdicts(pr: PullRequest, protection: Option<ProtectionRule>, e: map<string, Review>,
                             e': map<string, Review>, answers: Answers, requestedSha: Option<string>, context: Context)
    requires Requesters(e) == Requesters(e') && Approvers(e) == Approvers(e')
    ensures BlockersOf(pr, protection, e, answers, requestedSha, context)
         == BlockersOf(pr, protection, e', answers, requestedSha, context)
  {
    hide Requesters, Approvers, CheckBlockers, FirstMerge, Unsigned, CodeOwnerBlockers;
  }

  /** The patch ids over which verdicts at other heads count. */
  function Carried(pr: PullRequest, protection: Option<ProtectionRule>): Option<seq<string>> {
    if !IsStrict(protection) && IsKnownDiff(pr.headPatchIds) then Some(pr.headPatchIds) else None
  }

  /**
   Deleting every verdict recorded at another head changes nothing, unless a
   dismissal names it. Only under a rule that asks for neither strictness, for a
   head whose diff is known, those recorded over that diff have to stay.
   */
  lemma GatesReadTheHeadAndItsDiffOnly(pr: PullRequest, protection: Option<ProtectionRule>, log: seq<Review>,
                                       answers: Answers, requestedSha: Option<string>, context: Context)
    ensures Blockers(pr, protection, WithoutStale(log, log, pr.headSha, Carried(pr, protection)), answers,
                     requestedSha, context)
         == Blockers(pr, protection, log, answers, requestedSha, context)
  {
    var carried := Carried(pr, protection);
    CarriesExactlyWhen(protection, pr.headPatchIds);
    StaleRowsJudgeNothing(log, pr.headSha, carried);
    var k := LensOf(log, pr.headSha, pr.headPatchIds, ReachForRule(protection), Some(pr.author));
    StaleRowsAreNotRead(k, log, log, carried);
    hide WithoutStale, WithdrawnVerdicts, DismissingAdmins, Fold, BlockersOf, CarriesUnchangedDiff;
  }

  /**
   Under a rule that asks for neither strictness, for a head whose diff is
   known, a verdict recorded over the same diff at whatever head counts exactly
   as if it were recorded at this one.
   */
  lemma UnchangedDiffCarriesVerdicts(pr: PullRequest, protection: Option<ProtectionRule>, log: seq<Review>, i: nat,
                                     answers: Answers, requestedSha: Option<string>, context: Context)
    requires !IsStrict(protection) && IsKnownDiff(pr.headPatchIds)
    requires i < |log| && (log[i].state == Approved || log[i].state == ChangesRequested)
    requires log[i].headPatchIds == pr.headPatchIds
    ensures Blockers(pr, protection, Rewritten(log, i, pr.headSha), answers, requestedSha, context)
         == Blockers(pr, protection, log, answers, requestedSha, context)
  {
    CarriesExactlyWhen(protection, pr.headPatchIds);
    var k := LensOf(log, pr.headSha, pr.headPatchIds, ReachForRule(protection), Some(pr.author));
    RewritingJudgesNothing(log, i, pr.headSha);
    RewritingKeepsVerdicts(k, log, i, |log|);
    var log' := Rewritten(log, i, pr.headSha);
    assert log[..|log|] == log && log'[..|log|] == log';
    hide WithdrawnVerdicts, DismissingAdmins, Fold, BlockersOf, CarriesUnchangedDiff, Rewritten;
    var e, e' := EffectiveFor(pr, protection, log), EffectiveFor(pr, protection, log');
    assert SameVerdicts(e, e');
    GatesReadTheVerdicts(pr, protection, e, e', answers, requestedSha, context);
  }

  /** Nothing after row `i` touches its verdict, and its author may approve. */
  ghost predicate IsUndisputed(pr: PullRequest, log: seq<Review>, i: nat) {
    && i < |log|
    && (forall j | i < j < |log| :: log[j].author != log[i].author)
    && Untargeted(log, log[i].id)
    && Lower(log[i].author) != Lower(pr.author)
    && (forall d | d in log && Lower(d.author) == Lower(log[i].author) :: d.state != Dismissed)
  }

  /** So such an approval is one of those the rule counts. */
  lemma CarriedApprovalIsCounted(pr: PullRequest, protection: Option<ProtectionRule>, log: seq<Review>, i: nat,
                                 answers: Answers, requestedSha: Option<string>, context: Context)
    requires IsUndisputed(pr, log, i) && log[i].state == Approved
    requires log[i].headSha == Some(pr.headSha)
          || (!IsStrict(protection) && IsKnownDiff(pr.headPatchIds) && log[i].headPatchIds == pr.headPatchIds)
    ensures CountsAnApproval(Blockers(pr, protection, log, answers, requestedSha, context))
  {
    var k := LensOf(log, pr.headSha, pr.headPatchIds, ReachForRule(protection), Some(pr.author));
    CarriesExactlyWhen(protection, pr.headPatchIds);
    assert log[i].id !in k.withdrawn;
    assert Lower(log[i].author) !in k.dismissingAdmins;
    assert Stands(k, log, i);
    EffectiveIsTheLastWord(k, log, log[i].author, log[i]);
    var e := EffectiveFor(pr, protection, log);
    assert log[i].author in Approvers(e);
    hide Fold, LensOf, Stands, Approvers, IsUndisputed, EffectiveFor;
    ApprovalsAreCounted(pr, protection, e, answers, requestedSha, context);
  }

  lemma ApprovalsAreCounted(pr: PullRequest, protection: Option<ProtectionRule>, e: map<string, Review>,
                            answers: Answers, requestedSha: Option<string>, context: Context)
    requires Approvers(e) != {}
    ensures CountsAnApproval(BlockersOf(pr, protection, e, answers, requestedSha, context))
  {
    hide Approvers, Requesters, CheckBlockers, FirstMerge, Unsigned, UnsatisfiedPaths, OwnersOf;
    assert CountsAnApproval(IntrinsicBlockers(pr, e, answers, requestedSha, context));
    if RuleBinds(protection, context) {
      RuleCountsApprovals(pr, protection.value, e, answers, context);
    }
    hide IntrinsicBlockers, RuleBlockers;
  }

  lemma RuleCountsApprovals(pr: PullRequest, rule: ProtectionRule, e: map<string, Review>, answers: Answers,
                            context: Context)
    requires Approvers(e) != {}
    ensures CountsAnApproval(RuleBlockers(pr, rule, e, answers, context))
  {
    hide Approvers, CheckBlockers, FirstMerge, Unsigned, UnsatisfiedPaths, OwnersOf;
    ChecksAskForNoReview(rule.requiredStatusChecks, answers);
    assert CountsAnApproval(CodeOwnerBlockers(context, Approvers(e), pr.changedFiles));
    hide CodeOwnerBlockers;
  }

  /** Whoever is told that reviews are missing is told of one that is there. */
  predicate CountsAnApproval(blockers: seq<Blocker>) {
    forall b | b in blockers && b.MissingReview? :: b.approved >= 1
  }

  lemma {:induction false} ChecksAskForNoReview(required: seq<string>, answers: Answers)
    ensures CountsAnApproval(CheckBlockers(required, answers))
    decreases |required|
  {
    if required != [] {
      ChecksAskForNoReview(required[..|required| - 1], answers);
    }
  }
}
