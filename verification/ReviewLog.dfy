/**
 Writing the review log (crates/jeryu-core/src/engine/reviews.rs): what a review
 or a dismissal has to satisfy before its row is appended, and what that makes
 true of every log written this way.
 */
module ReviewLog {
  import opened Common
  import opened Reviews
  import opened MergeGate

  /** `target` names the verdict a dismissal withdraws. */
  datatype Request = Request(author: string, event: ReviewState, expectedHead: Option<string>, target: Option<nat>)

  /**
   What the rest of the service says: whether the repository may be written and
   the login is well formed, whether the author is an administrator the branch
   lets dismiss others, and whether there is durable storage that takes the
   receipt and the row.
   */
  datatype Grants = Grants(writable: bool, dismissesOthers: bool, durable: bool, receipted: bool, stored: bool)

  datatype Refusal =
    | UseDismiss | NotWritable | SelfApproval | DismissedOthers | HeadChanged | NoTarget | NotAllowed
    | NoDurableStorage | NotAVerdict | NotCounting | NotReceipted | StorageFailed

  // ----- deciding -----

  function Ids(log: seq<Review>): set<nat> {
    set r | r in log :: r.id
  }

  function Find(log: seq<Review>, id: nat): Option<Review> {
    if log == [] then None
    else if log[0].id == id then Some(log[0])
    else Find(log[1..], id)
  }

  /** The author, in any case, has withdrawn someone else's verdict here. */
  predicate HasDismissedOthers(log: seq<Review>, author: string) {
    exists r :: r in log && Lower(r.author) == Lower(author) && IsCrossAuthorDismissal(log, r)
  }

  /** An approval of the actor, at any head, that nothing withdrew. */
  predicate HasStandingApproval(log: seq<Review>, actor: string) {
    exists r :: r in log && r.state == Approved && Lower(r.author) == Lower(actor)
                && r.id !in WithdrawnVerdicts(log)
  }

  predicate CountsHere(log: seq<Review>, pr: PullRequest, id: nat) {
    || (var e := Effective(log, pr.headSha, [], ExactHead, None);
        exists a :: a in e && e[a].id == id)
    || (var e := Effective(log, pr.headSha, pr.headPatchIds, UnchangedDiff, Some(pr.author));
        exists a :: a in e && e[a].id == id)
  }

  /** May `author` withdraw `target`, and if it is not their own, by what authority? */
  function Dismissal(log: seq<Review>, pr: PullRequest, g: Grants, author: string, id: nat)
    : Result<Option<DismissalAuthority>, Refusal>
  {
    match Find(log, id)
    case None => Err(NoTarget)
    case Some(target) =>
      var other := target.author != author;
      if other && (!g.dismissesOthers || Lower(pr.author) == Lower(author) || HasStandingApproval(log, author)) then
        Err(NotAllowed)
      else if other && !g.durable then Err(NoDurableStorage)
      else if target.state != Approved && target.state != ChangesRequested then Err(NotAVerdict)
      else if !CountsHere(log, pr, id) then Err(NotCounting)
      else Ok(if other then Some(RepositoryAdmin) else None)
  }

  /** The row to append; `id` is freshly drawn. */
  function NewRow(log: seq<Review>, pr: PullRequest, g: Grants, q: Request, id: nat): Result<Review, Refusal> {
    if (q.event == Dismissed) != q.target.Some? then Err(UseDismiss)
    else if !g.writable then Err(NotWritable)
    else if q.event == Approved && Lower(pr.author) == Lower(q.author) then Err(SelfApproval)
    else if q.event == Approved && HasDismissedOthers(log, q.author) then Err(DismissedOthers)
    else if q.expectedHead.Some? && q.expectedHead.value != pr.headSha then Err(HeadChanged)
    else
      var authority := if q.target.Some? then Dismissal(log, pr, g, q.author, q.target.value) else Ok(None);
      if authority.Err? then Err(authority.error)
      else if authority.value.Some? && !g.receipted then Err(NotReceipted)
      else if !g.stored then Err(StorageFailed)
      else Ok(Review(id, q.author, q.event, Some(pr.headSha), pr.headPatchIds, q.target, authority.value))
  }

  function Appended(log: seq<Review>, row: Result<Review, Refusal>): seq<Review> {
    if row.Ok? then log + [row.value] else log
  }

  // ----- when a row is recorded -----

  /** Somebody else's verdict that a dismissal of this author names, by recorded authority. */
  ghost predicate TookSidesAgainst(log: seq<Review>, author: string) {
    exists d, r :: d in log && r in log && Lower(d.author) == Lower(author)
      && d.state == Dismissed && d.headSha.Some? && d.dismissalAuthority == Some(RepositoryAdmin)
      && d.dismissedReviewId == Some(r.id) && r.author != d.author
  }

  /** The verdict `t` may be withdrawn by `author`: their own, or another's by an administrator who stands apart. */
  ghost predicate MayWithdraw(log: seq<Review>, pr: PullRequest, g: Grants, author: string, t: Review) {
    && (t.state == Approved || t.state == ChangesRequested)
    && ((exists a :: a in Effective(log, pr.headSha, [], ExactHead, None)
                     && Effective(log, pr.headSha, [], ExactHead, None)[a].id == t.id)
        || (exists a :: a in Effective(log, pr.headSha, pr.headPatchIds, UnchangedDiff, Some(pr.author))
                        && Effective(log, pr.headSha, pr.headPatchIds, UnchangedDiff, Some(pr.author))[a].id == t.id))
    && (t.author != author ==>
          && g.dismissesOthers && g.durable && g.receipted && Lower(pr.author) != Lower(author)
          && forall r | r in log && r.state == Approved && Lower(r.author) == Lower(author) ::
               r.id in WithdrawnVerdicts(log))
  }

  /** The first row with the id, as the scan of the log finds it. */
  predicate IsFirst(log: seq<Review>, i: nat, id: nat) {
    i < |log| && log[i].id == id && forall j | 0 <= j < i :: log[j].id != id
  }

  lemma {:induction false} FindsTheFirst(log: seq<Review>, id: nat)
    ensures Find(log, id).None? <==> forall i: nat :: !IsFirst(log, i, id)
    ensures forall i: nat | IsFirst(log, i, id) :: Find(log, id) == Some(log[i])
    decreases |log|
  {
    if log != [] {
      FindsTheFirst(log[1..], id);
      if log[0].id == id {
        assert IsFirst(log, 0, id);
      } else {
        forall i: nat ensures IsFirst(log, i + 1, id) <==> IsFirst(log[1..], i, id) {
          assert forall j: nat | j < |log| - 1 :: log[1..][j] == log[j + 1];
        }
        forall i: nat | IsFirst(log, i, id) ensures Find(log, id) == Some(log[i]) {
          assert i > 0 && IsFirst(log[1..], i - 1, id);
        }
        if Find(log[1..], id).Some? {
          var i: nat :| IsFirst(log[1..], i, id);
          assert IsFirst(log, i + 1, id);
        }
      }
    }
  }

  lemma TakingSides(log: seq<Review>, author: string)
    ensures HasDismissedOthers(log, author) <==> TookSidesAgainst(log, author)
  {
    hide Lower;
  }

  /**
   A row is recorded if and only if only dismissals name a target, the author of
   the pull request does not approve it, nor whoever took sides against another
   reviewer, the head is the expected one, and what a dismissal names may be
   withdrawn; the row is the request at the present head.
   */
  lemma RecordsExactlyWhen(log: seq<Review>, pr: PullRequest, g: Grants, q: Request, id: nat)
    ensures NewRow(log, pr, g, q, id).Ok? <==>
      && g.writable && g.stored && (q.event == Dismissed <==> q.target.Some?)
      && (q.event == Approved ==> Lower(pr.author) != Lower(q.author) && !TookSidesAgainst(log, q.author))
      && (q.expectedHead.Some? ==> q.expectedHead.value == pr.headSha)
      && (q.target.Some? ==>
            exists i: nat :: IsFirst(log, i, q.target.value) && MayWithdraw(log, pr, g, q.author, log[i]))
    ensures NewRow(log, pr, g, q, id).Ok? ==>
      var row := NewRow(log, pr, g, q, id).value;
      && row == Review(id, q.author, q.event, Some(pr.headSha), pr.headPatchIds, q.target, row.dismissalAuthority)
      && (row.dismissalAuthority.Some? <==>
            q.target.Some? && exists i: nat :: IsFirst(log, i, q.target.value) && log[i].author != q.author)
  {
    TakingSides(log, q.author);
    hide HasDismissedOthers, TookSidesAgainst, Lower, Effective, WithdrawnVerdicts;
    if q.target.Some? {
      FindsTheFirst(log, q.target.value);
      if i: nat :| IsFirst(log, i, q.target.value) {
        assert forall j: nat | IsFirst(log, j, q.target.value) :: j == i;
      }
    }
    hide Find, IsFirst;
  }

  // ----- the service -----

  /** The reviews of one pull request. */
  class PullReviews {
    var log: seq<Review>

    constructor ()
      ensures log == []
    {
      log := [];
    }

    method FindReview(id: nat) returns (r: Option<Review>)
      ensures r == Find(log, id)
    {
      for i := 0 to |log|
        invariant Find(log, id) == Find(log[i..], id)
      {
        if log[i].id == id {
          return Some(log[i]);
        }
        assert log[i..][1..] == log[i + 1..];
      }
      r := None;
    }

    /** `review.author.eq_ignore_ascii_case(author)` and a recorded dismissal of someone else's verdict. */
    method DismissedOthersBefore(author: string) returns (found: bool)
      ensures found <==> HasDismissedOthers(log, author)
    {
      found := false;
      for i := 0 to |log|
        invariant found <==> exists j :: 0 <= j < i && Lower(log[j].author) == Lower(author)
                                         && IsCrossAuthorDismissal(log, log[j])
      {
        if Lower(log[i].author) == Lower(author) && IsCrossAuthorDismissal(log, log[i]) {
          found := true;
        }
      }
    }

    method MayDismiss(pr: PullRequest, g: Grants, author: string, id: nat)
      returns (r: Result<Option<DismissalAuthority>, Refusal>)
      ensures r == Dismissal(log, pr, g, author, id)
    {
      hide HasStandingApproval, CountsHere, Find;
      var target := FindReview(id);
      if target.None? {
        return Err(NoTarget);
      }
      var authority: Option<DismissalAuthority> := None;
      if target.value.author != author {
        if !g.dismissesOthers || Lower(pr.author) == Lower(author) || HasStandingApproval(log, author) {
          return Err(NotAllowed);
        }
        if !g.durable {
          return Err(NoDurableStorage);
        }
        authority := Some(RepositoryAdmin);
      }
      if target.value.state != Approved && target.value.state != ChangesRequested {
        return Err(NotAVerdict);
      }
      if !CountsHere(log, pr, id) {
        return Err(NotCounting);
      }
      r := Ok(authority);
    }

    method RecordReview(pr: PullRequest, g: Grants, q: Request, id: nat) returns (r: Result<Review, Refusal>)
      modifies this
      ensures r == NewRow(old(log), pr, g, q, id)
      ensures log == if r.Ok? then old(log) + [r.value] else old(log)
    {
      hide HasDismissedOthers, Dismissal;
      if (q.event == Dismissed) != q.target.Some? {
        return Err(UseDismiss);
      }
      if !g.writable {
        return Err(NotWritable);
      }
      if q.event == Approved && Lower(pr.author) == Lower(q.author) {
        return Err(SelfApproval);
      }
      if q.event == Approved {
        var dismissed := DismissedOthersBefore(q.author);
        if dismissed {
          return Err(DismissedOthers);
        }
      }
      if q.expectedHead.Some? && q.expectedHead.value != pr.headSha {
        return Err(HeadChanged);
      }
      var authority: Option<DismissalAuthority> := None;
      if q.target.Some? {
        var allowed := MayDismiss(pr, g, q.author, q.target.value);
        if allowed.Err? {
          return Err(allowed.error);
        }
        authority := allowed.value;
      }
      if authority.Some? && !g.receipted {
        return Err(NotReceipted);
      }
      var previous := log;
      var row := Review(id, q.author, q.event, Some(pr.headSha), pr.headPatchIds, q.target, authority);
      log := log + [row];
      if !g.stored {
        log := previous;
        return Err(StorageFailed);
      }
      r := Ok(row);
    }
  }

  // ----- every log written this way -----

  /** A call, at whatever head the pull request then has. */
  datatype Call = Call(pr: PullRequest, g: Grants, q: Request, id: nat)

  function Record(log: seq<Review>, c: Call): seq<Review> {
    Appended(log, NewRow(log, c.pr, c.g, c.q, c.id))
  }

  function Run(log: seq<Review>, calls: seq<Call>): seq<Review>
    decreases |calls|
  {
    if calls == [] then log else Run(Record(log, calls[0]), calls[1..])
  }

  /** Review ids are drawn at random, so no row has the new one yet. */
  predicate Fresh(log: seq<Review>, c: Call) {
    c.id !in Ids(log)
  }

  predicate AllFresh(log: seq<Review>, calls: seq<Call>)
    decreases |calls|
  {
    calls == [] || (Fresh(log, calls[0]) && AllFresh(Record(log, calls[0]), calls[1..]))
  }

  /** Whatever a row dismisses is itself in the log. Rows that name nothing may come from anywhere. */
  ghost predicate TargetsRecorded(log: seq<Review>) {
    forall r | r in log && r.dismissedReviewId.Some? :: r.dismissedReviewId.value in Ids(log)
  }

  lemma {:induction false} FoundIsRecorded(log: seq<Review>, id: nat)
    ensures Find(log, id).Some? ==> Find(log, id).value in log && Find(log, id).value.id == id
    ensures Find(log, id).None? <==> id !in Ids(log)
  {
    if log != [] {
      FoundIsRecorded(log[1..], id);
      assert log == [log[0]] + log[1..];
    }
  }

  lemma RowTargetsRecorded(log: seq<Review>, c: Call)
    requires NewRow(log, c.pr, c.g, c.q, c.id).Ok?
    ensures var row := NewRow(log, c.pr, c.g, c.q, c.id).value;
      row.dismissedReviewId.Some? ==> row.dismissedReviewId.value in Ids(log)
  {
    if c.q.target.Some? {
      FoundIsRecorded(log, c.q.target.value);
    }
    hide Ids, Find;
  }

  lemma RecordKeepsTargets(log: seq<Review>, c: Call)
    requires TargetsRecorded(log)
    ensures TargetsRecorded(Record(log, c))
  {
    var row := NewRow(log, c.pr, c.g, c.q, c.id);
    if row.Ok? {
      RowTargetsRecorded(log, c);
      hide NewRow;
      assert forall r | r in log + [row.value] :: r in log || r == row.value;
      assert Ids(log) <= Ids(log + [row.value]);
    }
  }

  lemma {:induction false} RunKeepsTargets(log: seq<Review>, calls: seq<Call>)
    requires TargetsRecorded(log)
    ensures TargetsRecorded(Run(log, calls))
    decreases |calls|
  {
    hide TargetsRecorded, Record;
    if calls != [] {
      RecordKeepsTargets(log, calls[0]);
      RunKeepsTargets(Record(log, calls[0]), calls[1..]);
    }
  }

  /** So no recorded dismissal can name a row that is yet to come. */
  lemma FreshIsUntargeted(log: seq<Review>, id: nat)
    requires TargetsRecorded(log) && id !in Ids(log)
    ensures Untargeted(log, id)
  {
  }

  // ----- what a recorded row does -----

  /**
   A recorded approval never makes matters worse for the merge of any pull
   request state under any rule: in every log written here no condition on
   dismissals is left.
   */
  lemma RecordedApprovalNeverHurts(log: seq<Review>, calls: seq<Call>, c: Call, pr: PullRequest,
                                   protection: Option<ProtectionRule>, answers: Answers,
                                   requestedSha: Option<string>, context: Context)
    requires TargetsRecorded(log) && AllFresh(log, calls + [c]) && c.q.event == Approved
    ensures var before := Run(log, calls);
      NoneWorse(Blockers(pr, protection, before, answers, requestedSha, context),
                Blockers(pr, protection, Record(before, c), answers, requestedSha, context))
  {
    var before := Run(log, calls);
    RunKeepsTargets(log, calls);
    LastIsFresh(log, calls, c);
    FreshIsUntargeted(before, c.id);
    var row := NewRow(before, c.pr, c.g, c.q, c.id);
    if row.Ok? {
      assert row.value.state == Approved && row.value.id == c.id;
      hide NewRow, Blockers;
      ApprovalNeverHurts(pr, protection, before, row.value, answers, requestedSha, context);
    } else {
      hide NewRow;
      SameIsNoneWorse(Blockers(pr, protection, before, answers, requestedSha, context));
    }
  }

  lemma {:induction false} LastIsFresh(log: seq<Review>, calls: seq<Call>, c: Call)
    requires AllFresh(log, calls + [c])
    ensures Fresh(Run(log, calls), c)
    decreases |calls|
  {
    hide Fresh, Record;
    if calls != [] {
      assert (calls + [c])[0] == calls[0] && (calls + [c])[1..] == calls[1..] + [c];
      LastIsFresh(Record(log, calls[0]), calls[1..], c);
    } else {
      assert calls + [c] == [c];
    }
  }

  /**
   A recorded approval or rejection counts at once, at the head it was written
   against, and changes nobody else's verdict. In particular the checks on
   self approval and on separation of duties leave no recorded approval dead.
   */
  lemma RecordedVerdictCountsAtOnce(log: seq<Review>, c: Call, reach: VerdictReach)
    requires TargetsRecorded(log) && Fresh(log, c)
    requires c.q.event == Approved || c.q.event == ChangesRequested
    requires NewRow(log, c.pr, c.g, c.q, c.id).Ok?
    ensures var row := NewRow(log, c.pr, c.g, c.q, c.id).value;
      Effective(log + [row], c.pr.headSha, c.pr.headPatchIds, reach, Some(c.pr.author))
      == Effective(log, c.pr.headSha, c.pr.headPatchIds, reach, Some(c.pr.author))[c.q.author := row]
  {
    var row := NewRow(log, c.pr, c.g, c.q, c.id).value;
    FreshIsUntargeted(log, c.id);
    VerdictKeepsLens(log, row);
    NotBarredUnlessDismisser(log, c.q.author);
    hide WithdrawnVerdicts, DismissingAdmins, HasDismissedOthers;
    assert (log + [row])[..|log|] == log;
  }

  lemma NotBarredUnlessDismisser(log: seq<Review>, author: string)
    ensures Lower(author) in DismissingAdmins(log) <==> HasDismissedOthers(log, author)
  {
    hide IsCrossAuthorDismissal, Lower;
  }

  // ----- a dismissal only removes -----

  ghost predicate SubMap(a: map<string, Review>, b: map<string, Review>) {
    forall k | k in a :: k in b && a[k] == b[k]
  }

  /** `k'` judges like `k` but for one more withdrawn verdict, and for one more barred author without approvals. */
  ghost predicate Stricter(k: Lens, k': Lens, log: seq<Review>) {
    && k' == k.(withdrawn := k'.withdrawn, dismissingAdmins := k'.dismissingAdmins)
    && k.withdrawn <= k'.withdrawn && k.dismissingAdmins <= k'.dismissingAdmins
    && (forall r | r in log && r.state == Approved && Lower(r.author) in k'.dismissingAdmins - k.dismissingAdmins ::
          r.id in k.withdrawn)
  }

  lemma StricterStep(k: Lens, k': Lens, log: seq<Review>, r: Review, m: map<string, Review>, m': map<string, Review>)
    requires Stricter(k, k', log) && r in log && SubMap(m', m)
    ensures SubMap(Step(k', m', r), Step(k, m, r))
  {
    hide Lower, Clears;
  }

  lemma {:induction false} StricterFold(k: Lens, k': Lens, log: seq<Review>, n: nat)
    requires Stricter(k, k', log) && n <= |log|
    ensures SubMap(Fold(k', log[..n]), Fold(k, log[..n]))
    decreases n
  {
    hide Step, Stricter, SubMap;
    if n > 0 {
      assert log[..n][..n - 1] == log[..n - 1] && log[..n][n - 1] == log[n - 1];
      StricterFold(k, k', log, n - 1);
      StricterStep(k, k', log, log[n - 1], Fold(k, log[..n - 1]), Fold(k', log[..n - 1]));
    } else {
      NothingIsASubMap();
    }
  }

  lemma NothingIsASubMap()
    ensures SubMap(map[], map[])
  {
  }

  /** How a recorded dismissal changes what the log says about itself. */
  lemma DismissalTightensLens(log: seq<Review>, c: Call, headSha: string, headPatchIds: seq<string>,
                              reach: VerdictReach, prAuthor: Option<string>)
    requires TargetsRecorded(log) && Fresh(log, c) && c.q.event == Dismissed
    requires NewRow(log, c.pr, c.g, c.q, c.id).Ok?
    ensures var row := NewRow(log, c.pr, c.g, c.q, c.id).value;
      && Stricter(LensOf(log, headSha, headPatchIds, reach, prAuthor),
                  LensOf(log + [row], headSha, headPatchIds, reach, prAuthor), log)
      && row.dismissedReviewId == c.q.target && c.q.target.Some?
      && c.q.target.value in WithdrawnVerdicts(log + [row])
  {
    var row := NewRow(log, c.pr, c.g, c.q, c.id).value;
    var target := Find(log, c.q.target.value).value;
    FoundIsRecorded(log, c.q.target.value);
    WithdrawnGrows(log, [row]);
    RowWithdrawsItsTarget(log, row, target);
    OnlyTheRowBars(log, row);
    if row.dismissalAuthority.None? {
      assert DismissingAdmins(log + [row]) <= DismissingAdmins(log) + {};
    }
    hide WithdrawnVerdicts, DismissingAdmins, Find, CountsHere, Lower;
  }

  lemma RowWithdrawsItsTarget(log: seq<Review>, row: Review, target: Review)
    requires target in log && row.state == Dismissed && row.headSha.Some? && row.dismissedReviewId == Some(target.id)
    requires target.author == row.author || row.dismissalAuthority == Some(RepositoryAdmin)
    ensures target.id in WithdrawnVerdicts(log + [row])
  {
    var log' := log + [row];
    assert row in log' && target in log';
    assert Withdraws(log', row);
  }

  /** A new row can bar its own author only, and only by administrator authority. */
  lemma OnlyTheRowBars(log: seq<Review>, row: Review)
    requires TargetsRecorded(log) && row.id !in Ids(log)
    ensures DismissingAdmins(log + [row])
         <= DismissingAdmins(log) + if row.dismissalAuthority.Some? then {Lower(row.author)} else {}
  {
    var log' := log + [row];
    forall d | d in log' && IsCrossAuthorDismissal(log', d)
      ensures d == row || (d in log && IsCrossAuthorDismissal(log, d))
      ensures d == row ==> row.dismissalAuthority.Some?
    {
      if d in log {
        var r :| r in log' && r.id == d.dismissedReviewId.value && r.author != d.author;
        assert d.dismissedReviewId.value in Ids(log);
        assert r != row;
      }
    }
  }

  /**
   As the source promises, a recorded dismissal can only remove an approval or
   a rejection, never add one: at every head, at every reach, whoever asks, the
   verdicts that count afterwards counted before, and the dismissed one is gone.
   */
  lemma RecordedDismissalOnlyRemoves(log: seq<Review>, c: Call, headSha: string, headPatchIds: seq<string>,
                                     reach: VerdictReach, prAuthor: Option<string>)
    requires TargetsRecorded(log) && Fresh(log, c) && c.q.event == Dismissed
    requires NewRow(log, c.pr, c.g, c.q, c.id).Ok?
    ensures var row := NewRow(log, c.pr, c.g, c.q, c.id).value;
      var e, e' := Effective(log, headSha, headPatchIds, reach, prAuthor),
                   Effective(log + [row], headSha, headPatchIds, reach, prAuthor);
      && SubMap(e', e)
      && forall a | a in e' :: Some(e'[a].id) != c.q.target
  {
    var row := NewRow(log, c.pr, c.g, c.q, c.id).value;
    assert row.state == Dismissed;
    var k, k' := LensOf(log, headSha, headPatchIds, reach, prAuthor),
                 LensOf(log + [row], headSha, headPatchIds, reach, prAuthor);
    DismissalTightensLens(log, c, headSha, headPatchIds, reach, prAuthor);
    StricterFold(k, k', log, |log|);
    assert log[..|log|] == log && (log + [row])[..|log|] == log;
    hide NewRow, Stricter, WithdrawnVerdicts, DismissingAdmins;
    DismissedRowOnlyRemoves(k', Fold(k', log), row);
    forall a | a in Fold(k', log + [row]) ensures Fold(k', log + [row])[a].id !in k'.withdrawn {
      EffectiveIsQualified(k', log + [row], a);
      hide Step;
    }
    hide Step;
  }

  lemma DismissedRowOnlyRemoves(k: Lens, m: map<string, Review>, row: Review)
    requires row.state == Dismissed
    ensures SubMap(Step(k, m, row), m)
  {
    hide Matches, Clears;
  }

  /**
   The check for a standing approval is what makes that so: without it an
   administrator's dismissal would silence their own approval, and an earlier
   rejection of theirs would count again.
   */
  lemma StandingApprovalMatters()
    returns (k: Lens, k': Lens, log: seq<Review>)
    ensures k' == k.(dismissingAdmins := {"bob"}) && k.dismissingAdmins == {}
    ensures |log| == 2 && log[0].state == ChangesRequested && log[1].state == Approved
    ensures log[0].author == "bob" == log[1].author
    ensures Fold(k, log) == map["bob" := log[1]] && Fold(k', log) == map["bob" := log[0]]
  {
    var rejects := Review(1, "bob", ChangesRequested, Some("h"), [], None, None);
    var approves := Review(2, "bob", Approved, Some("h"), [], None, None);
    k := Lens("h", [], false, None, {}, {});
    k' := k.(dismissingAdmins := {"bob"});
    log := [rejects, approves];
    assert log[..1] == [rejects] && log[..1][..0] == [];
    assert Lower("bob") == "bob";
    assert Fold(k, log[..1]) == Step(k, map[], rejects) == map["bob" := rejects];
    assert Fold(k', log[..1]) == Step(k', map[], rejects) == map["bob" := rejects];
  }
}
