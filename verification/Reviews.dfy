/**
 Review selection (crates/jeryu-core/src/branch_protection/reviews.rs): which
 rows of a pull request's append-only review log still speak for its head.
 */
module Reviews {
  import opened Common

  datatype ReviewState = Approved | ChangesRequested | Commented | Dismissed

  datatype DismissalAuthority = RepositoryAdmin

  datatype Review = Review(
    id: nat, author: string, state: ReviewState, headSha: Option<string>, headPatchIds: seq<string>,
    dismissedReviewId: Option<nat>, dismissalAuthority: Option<DismissalAuthority>)

  datatype VerdictReach = ExactHead | UnchangedDiff

  const MAX_COMMITS := 256

  /** A digest in the format bound to base, tree and message. */
  predicate IsReviewPatchId(v: string) {
    "v2:" <= v && |v| == 67 && forall i | 3 <= i < |v| :: IsHexDigit(v[i])
  }

  /** An unknown diff is never the same diff. */
  predicate CarriesUnchangedDiff(reach: VerdictReach, headPatchIds: seq<string>) {
    && reach == UnchangedDiff && headPatchIds != [] && |headPatchIds| <= MAX_COMMITS
    && forall i | 0 <= i < |headPatchIds| :: IsReviewPatchId(headPatchIds[i])
  }

  // ----- what the log says about itself -----

  /** `d` records an administrator's dismissal of a verdict someone else wrote. */
  predicate IsCrossAuthorDismissal(log: seq<Review>, d: Review) {
    && d.state == Dismissed && d.headSha.Some? && d.dismissalAuthority == Some(RepositoryAdmin)
    && d.dismissedReviewId.Some?
    && exists r :: r in log && r.id == d.dismissedReviewId.value && r.author != d.author
  }

  /** `d` withdraws the verdict it names: by its author, or by recorded authority. */
  predicate Withdraws(log: seq<Review>, d: Review) {
    && d.state == Dismissed && d.headSha.Some? && d.dismissedReviewId.Some?
    && exists r :: r in log && r.id == d.dismissedReviewId.value
         && (r.author == d.author || d.dismissalAuthority == Some(RepositoryAdmin))
  }

  function WithdrawnVerdicts(log: seq<Review>): set<nat> {
    set d | d in log && Withdraws(log, d) :: d.dismissedReviewId.value
  }

  function DismissingAdmins(log: seq<Review>): set<string> {
    set d | d in log && IsCrossAuthorDismissal(log, d) :: Lower(d.author)
  }

  /** A withdrawn verdict is one of the log that a dismissal names, by its own author or by recorded authority. */
  lemma WithdrawnExactlyWhen(log: seq<Review>, id: nat)
    ensures id in WithdrawnVerdicts(log) <==> exists d, r ::
      && d in log && r in log
      && d.state == Dismissed && d.headSha.Some? && d.dismissedReviewId == Some(id) && r.id == id
      && (r.author == d.author || d.dismissalAuthority == Some(RepositoryAdmin))
  {
  }

  /** An administrator takes sides by dismissing, by recorded authority, a verdict of the log that is someone else's. */
  lemma TakesSidesExactlyWhen(log: seq<Review>, login: string)
    ensures login in DismissingAdmins(log) <==> exists d, r ::
      && d in log && r in log && Lower(d.author) == login
      && d.state == Dismissed && d.headSha.Some? && d.dismissedReviewId == Some(r.id)
      && d.dismissalAuthority == Some(RepositoryAdmin) && r.author != d.author
  {
    hide Lower;
  }

  // ----- the fold -----

  /** Everything the fold compares a row with. */
  datatype Lens = Lens(
    headSha: string, headPatchIds: seq<string>, carries: bool, prAuthor: Option<string>,
    withdrawn: set<nat>, dismissingAdmins: set<string>)

  function LensOf(log: seq<Review>, headSha: string, headPatchIds: seq<string>, reach: VerdictReach,
                  prAuthor: Option<string>): Lens
  {
    Lens(headSha, headPatchIds, CarriesUnchangedDiff(reach, headPatchIds), prAuthor,
         WithdrawnVerdicts(log), DismissingAdmins(log))
  }

  predicate Matches(k: Lens, r: Review) {
    r.headSha == Some(k.headSha) || (k.carries && r.headPatchIds == k.headPatchIds)
  }

  /** An approval by the author, or by an administrator who withdrew someone else's verdict. */
  predicate ApprovalBarred(k: Lens, r: Review) {
    && r.state == Approved
    && ((k.prAuthor.Some? && Lower(r.author) == Lower(k.prAuthor.value)) || Lower(r.author) in k.dismissingAdmins)
  }

  predicate Clears(r: Review, current: Review) {
    if r.dismissedReviewId.Some? then r.dismissedReviewId.value == current.id else current.state == Approved
  }

  function Step(k: Lens, latest: map<string, Review>, r: Review): map<string, Review> {
    if !Matches(k, r) then latest
    else if r.id in k.withdrawn then latest - {r.author}
    else if ApprovalBarred(k, r) then latest
    else
      match r.state
      case Approved => latest[r.author := r]
      case ChangesRequested => latest[r.author := r]
      case Commented => latest
      case Dismissed =>
        if r.author in latest && Clears(r, latest[r.author]) then latest - {r.author} else latest
  }

  function Fold(k: Lens, log: seq<Review>): map<string, Review> {
    if log == [] then map[] else Step(k, Fold(k, log[..|log| - 1]), log[|log| - 1])
  }

  /** The effective verdict of each reviewer. */
  function Effective(log: seq<Review>, headSha: string, headPatchIds: seq<string>, reach: VerdictReach,
                     prAuthor: Option<string>): map<string, Review>
  {
    Fold(LensOf(log, headSha, headPatchIds, reach, prAuthor), log)
  }

  method ReduceReviews(log: seq<Review>, headSha: string, headPatchIds: seq<string>, reach: VerdictReach,
                       prAuthor: Option<string>) returns (latest: map<string, Review>)
    ensures latest == Effective(log, headSha, headPatchIds, reach, prAuthor)
  {
    var k := LensOf(log, headSha, headPatchIds, reach, prAuthor);
    latest := map[];
    for i := 0 to |log|
      invariant latest == Fold(k, log[..i])
    {
      var r := log[i];
      assert log[..i + 1][..i] == log[..i] && log[..i + 1][i] == r;
      if !Matches(k, r) {
        continue;
      }
      if r.id in k.withdrawn {
        latest := latest - {r.author};
        continue;
      }
      if ApprovalBarred(k, r) {
        continue;
      }
      match r.state {
        case Approved => latest := latest[r.author := r];
        case ChangesRequested => latest := latest[r.author := r];
        case Commented =>
        case Dismissed =>
          if r.author in latest && Clears(r, latest[r.author]) {
            latest := latest - {r.author};
          }
      }
    }
    assert log[..|log|] == log;
  }

  // ----- verdicts of the log, at any head, whatever is appended -----

  /** An effective verdict is an explicit one from the log, for this head, not withdrawn and not barred. */
  lemma {:induction false} EffectiveIsQualified(k: Lens, log: seq<Review>, author: string)
    requires author in Fold(k, log)
    ensures var r := Fold(k, log)[author];
      && r in log && r.author == author && Matches(k, r)
      && r.id !in k.withdrawn && !ApprovalBarred(k, r)
      && (r.state == Approved || r.state == ChangesRequested)
  {
    var prefix, r := log[..|log| - 1], log[|log| - 1];
    if author in Fold(k, prefix) && Fold(k, log)[author] == Fold(k, prefix)[author] {
      EffectiveIsQualified(k, prefix, author);
      assert Fold(k, log)[author] in prefix;
    }
  }

  lemma WithdrawnGrows(log: seq<Review>, more: seq<Review>)
    ensures WithdrawnVerdicts(log) <= WithdrawnVerdicts(log + more)
    ensures DismissingAdmins(log) <= DismissingAdmins(log + more)
  {
    forall d | d in log
      ensures d in log + more
      ensures Withdraws(log, d) ==> Withdraws(log + more, d)
      ensures IsCrossAuthorDismissal(log, d) ==> IsCrossAuthorDismissal(log + more, d)
    {
    }
  }

  /** A withdrawn verdict is never effective again: in any later log, at any head, at any reach. */
  lemma WithdrawnStaysWithdrawn(log: seq<Review>, more: seq<Review>, headSha: string,
      headPatchIds: seq<string>, reach: VerdictReach, prAuthor: Option<string>, author: string)
    ensures var e := Effective(log + more, headSha, headPatchIds, reach, prAuthor);
      author in e ==> e[author].id !in WithdrawnVerdicts(log)
  {
    var k := LensOf(log + more, headSha, headPatchIds, reach, prAuthor);
    WithdrawnGrows(log, more);
    if author in Fold(k, log + more) {
      EffectiveIsQualified(k, log + more, author);
    }
  }

  /** Neither an administrator who withdrew someone else's verdict nor the author, when given, approves effectively. */
  lemma BarredApproversStayBarred(log: seq<Review>, more: seq<Review>, headSha: string,
      headPatchIds: seq<string>, reach: VerdictReach, prAuthor: Option<string>, author: string)
    ensures var e := Effective(log + more, headSha, headPatchIds, reach, prAuthor);
      author in e && e[author].state == Approved ==>
        && Lower(author) !in DismissingAdmins(log)
        && (prAuthor.Some? ==> Lower(author) != Lower(prAuthor.value))
  {
    var k := LensOf(log + more, headSha, headPatchIds, reach, prAuthor);
    WithdrawnGrows(log, more);
    if author in Fold(k, log + more) {
      EffectiveIsQualified(k, log + more, author);
    }
  }

  /** After a withdrawn row only later rows speak for its author. */
  lemma {:induction false} OnlyLaterRowsSpeak(k: Lens, log: seq<Review>, i: nat)
    requires i < |log| && Matches(k, log[i]) && log[i].id in k.withdrawn
    ensures var author := log[i].author;
      author in Fold(k, log) ==> exists j :: i < j < |log| && log[j] == Fold(k, log)[author]
  {
    var author, n := log[i].author, |log| - 1;
    var prefix := log[..n];
    if i < n {
      OnlyLaterRowsSpeak(k, prefix, i);
      if author in Fold(k, log) {
        if Fold(k, log)[author] == log[n] {
        } else {
          var j :| i < j < |prefix| && prefix[j] == Fold(k, prefix)[author];
          assert log[j] == Fold(k, log)[author];
        }
      }
    }
  }

  /** Withdrawing a verdict never revives an earlier one of its author, in any extension of the log. */
  lemma NoEarlierVerdictComesBack(log: seq<Review>, more: seq<Review>, headSha: string,
      headPatchIds: seq<string>, reach: VerdictReach, prAuthor: Option<string>, i: nat)
    requires i < |log| && log[i].id in WithdrawnVerdicts(log)
    requires Matches(LensOf(log + more, headSha, headPatchIds, reach, prAuthor), log[i])
    ensures var e := Effective(log + more, headSha, headPatchIds, reach, prAuthor);
      log[i].author in e ==> exists j :: i < j < |log + more| && (log + more)[j] == e[log[i].author]
  {
    WithdrawnGrows(log, more);
    assert (log + more)[i] == log[i];
    OnlyLaterRowsSpeak(LensOf(log + more, headSha, headPatchIds, reach, prAuthor), log + more, i);
  }

  // ----- appending an approval -----

  /** No recorded dismissal names `id`. */
  predicate Untargeted(log: seq<Review>, id: nat) {
    forall d | d in log :: !(d.state == Dismissed && d.dismissedReviewId == Some(id))
  }

  /** A row that dismisses nothing and that no dismissal names leaves every earlier judgement as it was. */
  lemma VerdictKeepsLens(log: seq<Review>, a: Review)
    requires a.state != Dismissed && Untargeted(log, a.id)
    ensures WithdrawnVerdicts(log + [a]) == WithdrawnVerdicts(log)
    ensures DismissingAdmins(log + [a]) == DismissingAdmins(log)
    ensures a.id !in WithdrawnVerdicts(log)
  {
    var log' := log + [a];
    forall d | d in log'
      ensures d in log || d == a
      ensures Withdraws(log', d) ==> d in log && Withdraws(log, d)
      ensures IsCrossAuthorDismissal(log', d) ==> d in log && IsCrossAuthorDismissal(log, d)
    {
    }
    WithdrawnGrows(log, [a]);
  }

  /** It changes at most its own author's verdict, to itself. */
  lemma AppendedApproval(log: seq<Review>, a: Review, headSha: string, headPatchIds: seq<string>,
      reach: VerdictReach, prAuthor: Option<string>)
    requires a.state == Approved && Untargeted(log, a.id)
    ensures var e, e' := Effective(log, headSha, headPatchIds, reach, prAuthor),
                         Effective(log + [a], headSha, headPatchIds, reach, prAuthor);
      e' == e || e' == e[a.author := a]
  {
    VerdictKeepsLens(log, a);
    assert (log + [a])[..|log|] == log;
  }

  // ----- the fold, read off the log -----

  /** Recorded at the head, or over the same diff where that carries. */
  predicate IsRead(k: Lens, r: Review) {
    r.headSha == Some(k.headSha) || (k.carries && r.headPatchIds == k.headPatchIds)
  }

  /**
   A row that can be effective on its own: a rejection, or an approval neither
   by the author of the pull request nor by an administrator who took sides.
   */
  predicate Qualifies(k: Lens, r: Review) {
    && IsRead(k, r) && r.id !in k.withdrawn
    && (r.state == ChangesRequested
        || (r.state == Approved && Lower(r.author) !in k.dismissingAdmins
            && (k.prAuthor.Some? ==> Lower(k.prAuthor.value) != Lower(r.author))))
  }

  /**
   A later row of the same author that ends the standing of `v`: a withdrawn or
   a qualified one, or a dismissal of `v` by name or, without one, of an approval.
   */
  predicate Overrules(k: Lens, r: Review, v: Review) {
    && r.author == v.author && IsRead(k, r)
    && (r.id in k.withdrawn || Qualifies(k, r)
        || (r.state == Dismissed
            && (r.dismissedReviewId == Some(v.id) || (r.dismissedReviewId == None && v.state == Approved))))
  }

  ghost predicate Stands(k: Lens, log: seq<Review>, i: nat) {
    i < |log| && Qualifies(k, log[i]) && forall j | i < j < |log| :: !Overrules(k, log[j], log[i])
  }

  /**
   A verdict is effective if and only if it is a qualified row that no later
   row of its author replaces, withdraws or clears.
   */
  lemma {:induction false} EffectiveIsTheLastWord(k: Lens, log: seq<Review>, author: string, v: Review)
    ensures author in Fold(k, log) && Fold(k, log)[author] == v
       <==> exists i: nat :: Stands(k, log, i) && log[i] == v && v.author == author
    decreases |log|
  {
    if log != [] {
      var n := |log| - 1;
      var init, last := log[..n], log[n];
      EffectiveIsTheLastWord(k, init, author, v);
      StandingOneMore(k, init, last);
      assert init + [last] == log;
      if author in Fold(k, init) {
        EffectiveIsQualified(k, init, author);
      }
      LastWordStep(k, Fold(k, init), last, author, v);
      hide Stands, Step, Qualifies, Overrules, Matches, ApprovalBarred, Clears, IsRead;
      if i: nat :| Stands(k, init, i) && init[i] == v && v.author == author && !Overrules(k, last, v) {
        assert Stands(k, log, i) && log[i] == v;
      }
      if i: nat :| Stands(k, log, i) && log[i] == v && v.author == author {
        assert i < n ==> Stands(k, init, i) && init[i] == v && !Overrules(k, last, v);
      }
    }
  }

  lemma StandingOneMore(k: Lens, init: seq<Review>, last: Review)
    ensures forall i: nat | i < |init| ::
      Stands(k, init + [last], i) <==> Stands(k, init, i) && !Overrules(k, last, init[i])
    ensures Stands(k, init + [last], |init|) <==> Qualifies(k, last)
    ensures forall i: nat :: Stands(k, init, i) ==> i < |init|
    ensures forall i: nat :: Stands(k, init + [last], i) ==> i <= |init|
  {
    hide Qualifies, Overrules;
    var log := init + [last];
    forall i: nat | i < |init|
      ensures Stands(k, log, i) <==> Stands(k, init, i) && !Overrules(k, last, init[i])
    {
      assert log[i] == init[i] && log[|init|] == last;
      assert forall j | i < j < |init| :: log[j] == init[j];
    }
  }

  /** What one row does to the verdict of one author. */
  lemma LastWordStep(k: Lens, latest: map<string, Review>, r: Review, author: string, v: Review)
    requires author in latest ==> latest[author].author == author
    ensures var latest' := Step(k, latest, r);
      (author in latest' && latest'[author] == v) <==>
        (r.author == author && Qualifies(k, r) && r == v)
        || (author in latest && latest[author] == v && !Overrules(k, r, v))
  {
  }

  // ----- verdicts at other heads -----

  /** A verdict recorded at another head, over another diff than the one carried, that no dismissal of the log names. */
  predicate IsStale(log: seq<Review>, r: Review, headSha: string, carried: Option<seq<string>>) {
    && (r.state == Approved || r.state == ChangesRequested)
    && r.headSha != Some(headSha) && Some(r.headPatchIds) != carried && Untargeted(log, r.id)
  }

  /** The rows of `part` that are not stale in `log`. */
  function WithoutStale(log: seq<Review>, part: seq<Review>, headSha: string, carried: Option<seq<string>>)
    : seq<Review>
  {
    if part == [] then []
    else
      WithoutStale(log, part[..|part| - 1], headSha, carried)
      + if IsStale(log, part[|part| - 1], headSha, carried) then [] else [part[|part| - 1]]
  }

  lemma {:induction false} KeptRows(log: seq<Review>, part: seq<Review>, headSha: string, carried: Option<seq<string>>)
    ensures forall r :: r in WithoutStale(log, part, headSha, carried)
                   <==> r in part && !IsStale(log, r, headSha, carried)
    decreases |part|
  {
    hide IsStale;
    if part != [] {
      KeptRows(log, part[..|part| - 1], headSha, carried);
      assert part == part[..|part| - 1] + [part[|part| - 1]];
    }
  }

  lemma StaleRowsJudgeNothing(log: seq<Review>, headSha: string, carried: Option<seq<string>>)
    ensures WithdrawnVerdicts(WithoutStale(log, log, headSha, carried)) == WithdrawnVerdicts(log)
    ensures DismissingAdmins(WithoutStale(log, log, headSha, carried)) == DismissingAdmins(log)
  {
    var kept := WithoutStale(log, log, headSha, carried);
    KeptRows(log, log, headSha, carried);
    hide Lower;
    forall d, r | d in log && d.state == Dismissed && r in log && d.dismissedReviewId == Some(r.id)
      ensures d in kept && r in kept
    {
    }
    hide IsStale, WithoutStale;
    forall d | d in log
      ensures Withdraws(log, d) ==> d in kept && Withdraws(kept, d)
      ensures IsCrossAuthorDismissal(log, d) ==> d in kept && IsCrossAuthorDismissal(kept, d)
    {
    }
  }

  lemma {:induction false} StaleRowsAreNotRead(k: Lens, log: seq<Review>, part: seq<Review>,
                                               carried: Option<seq<string>>)
    requires k.carries ==> carried == Some(k.headPatchIds)
    ensures Fold(k, WithoutStale(log, part, k.headSha, carried)) == Fold(k, part)
    decreases |part|
  {
    if part != [] {
      var init, last := part[..|part| - 1], part[|part| - 1];
      StaleRowsAreNotRead(k, log, init, carried);
      var kept := WithoutStale(log, init, k.headSha, carried);
      assert (kept + [last])[..|kept|] == kept;
      hide Step, Untargeted;
      assert IsStale(log, last, k.headSha, carried) ==> Step(k, Fold(k, init), last) == Fold(k, init) by {
        StaleStep(k, log, Fold(k, init), last, carried);
      }
      assert kept + [] == kept;
    }
  }

  lemma StaleStep(k: Lens, log: seq<Review>, latest: map<string, Review>, r: Review, carried: Option<seq<string>>)
    requires k.carries ==> carried == Some(k.headPatchIds)
    ensures IsStale(log, r, k.headSha, carried) ==> Step(k, latest, r) == latest
  {
  }

  // ----- verdicts carried over an unchanged diff -----

  /** The same verdicts by the same authors. */
  ghost predicate SameVerdicts(e: map<string, Review>, e': map<string, Review>) {
    e.Keys == e'.Keys && forall a | a in e :: e'[a] == e[a].(headSha := e'[a].headSha)
  }

  /** Row `i`, rewritten as recorded at `headSha`. */
  function Rewritten(log: seq<Review>, i: nat, headSha: string): seq<Review>
    requires i < |log|
  {
    log[i := log[i].(headSha := Some(headSha))]
  }

  lemma RewritingJudgesNothing(log: seq<Review>, i: nat, headSha: string)
    requires i < |log| && log[i].state != Dismissed
    ensures WithdrawnVerdicts(Rewritten(log, i, headSha)) == WithdrawnVerdicts(log)
    ensures DismissingAdmins(Rewritten(log, i, headSha)) == DismissingAdmins(log)
  {
    var log' := Rewritten(log, i, headSha);
    hide Lower, Withdraws, IsCrossAuthorDismissal;
    forall d | d in log
      ensures Withdraws(log, d) ==> d in log' && Withdraws(log', d)
      ensures IsCrossAuthorDismissal(log, d) ==> d in log' && IsCrossAuthorDismissal(log', d)
    {
      JudgedAlike(log, log', d);
    }
    forall d | d in log'
      ensures Withdraws(log', d) ==> d in log && Withdraws(log, d)
      ensures IsCrossAuthorDismissal(log', d) ==> d in log && IsCrossAuthorDismissal(log, d)
    {
      JudgedAlike(log', log, d);
    }
  }

  /** Logs that differ in the heads of verdicts only. */
  lemma JudgedAlike(log: seq<Review>, log': seq<Review>, d: Review)
    requires |log'| == |log| && d in log
    requires forall j | 0 <= j < |log| :: log'[j] == log[j].(headSha := log'[j].headSha)
    requires forall j | 0 <= j < |log| && log[j].state == Dismissed :: log'[j] == log[j]
    ensures Withdraws(log, d) ==> d in log' && Withdraws(log', d)
    ensures IsCrossAuthorDismissal(log, d) ==> d in log' && IsCrossAuthorDismissal(log', d)
  {
    var at :| 0 <= at < |log| && log[at] == d;
    assert d.state == Dismissed ==> log'[at] == d;
    forall r | r in log ensures exists r' :: r' in log' && r'.id == r.id && r'.author == r.author {
      var j :| 0 <= j < |log| && log[j] == r;
      assert log'[j] in log';
    }
  }

  lemma {:induction false} RewritingKeepsVerdicts(k: Lens, log: seq<Review>, i: nat, n: nat)
    requires i < |log| && n <= |log| && k.carries
    requires log[i].headPatchIds == k.headPatchIds && (log[i].state == Approved || log[i].state == ChangesRequested)
    ensures SameVerdicts(Fold(k, log[..n]), Fold(k, Rewritten(log, i, k.headSha)[..n]))
    decreases n
  {
    if n > 0 {
      var log' := Rewritten(log, i, k.headSha);
      RewritingKeepsVerdicts(k, log, i, n - 1);
      assert log[..n][..n - 1] == log[..n - 1] && log'[..n][..n - 1] == log'[..n - 1];
      SameVerdictsStep(k, Fold(k, log[..n - 1]), Fold(k, log'[..n - 1]), log[n - 1], log'[n - 1]);
    }
  }

  lemma SameVerdictsStep(k: Lens, e: map<string, Review>, e': map<string, Review>, r: Review, r': Review)
    requires SameVerdicts(e, e') && r' == r.(headSha := r'.headSha)
    requires r' == r || (Matches(k, r) && Matches(k, r') && r.state != Dismissed)
    ensures SameVerdicts(Step(k, e, r), Step(k, e', r'))
  {
    hide Lower;
  }
}
