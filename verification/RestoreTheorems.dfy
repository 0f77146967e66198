/**
 What the report of a restore is worth (crates/jeryu-mirror/src/restore.rs).
 */
module RestoreTheorems {
  import opened Common
  import opened Restore

  // ----- a dry run predicts the real one -----

  /** The same outcome, with the report labelled dry or not. */
  function Relabel(r: Result<Report, Failure>, dry: bool): Result<Report, Failure> {
    match r
    case Ok(report) => Ok(report.(dryRun := dry))
    case Err(_) => r
  }

  lemma {:induction false} KindsIgnoreLabel(r: Report, o: Options, repo: Repository, kinds: seq<Kind>, dry: bool)
    ensures WithKinds(r.(dryRun := dry), o.(dryRun := dry), repo, kinds) == WithKinds(r, o, repo, kinds).(dryRun := dry)
    decreases |kinds|
  {
    if kinds != [] {
      KindsIgnoreLabel(r, o, repo, kinds[..|kinds| - 1], dry);
    }
  }

  lemma RepositoryIgnoresLabel(r: Report, o: Options, repo: Repository, dry: bool)
    ensures WithRepository(r.(dryRun := dry), o.(dryRun := dry), repo) == WithRepository(r, o, repo).(dryRun := dry)
  {
    var start := r.(commands := r.commands + [CreateRepository(repo.FullName())], repositories := r.repositories + 1);
    KindsIgnoreLabel(start, o, repo, RESTORED, dry);
    hide WithKinds;
  }

  /**
   From one target, a dry run and a real one fail alike or report the same but
   for the label: `PlanRestore` returns this plan in both modes.
   */
  lemma {:induction false} DryRunPredictsRealRun(archive: seq<Repository>, existing: set<string>, o: Options, dry: bool)
    ensures Plan(archive, existing, o.(dryRun := dry)) == Relabel(Plan(archive, existing, o), dry)
    ensures Sorted(Plan(archive, existing, o.(dryRun := dry))) == Relabel(Sorted(Plan(archive, existing, o)), dry)
  {
    hide WithRepository, FirstDuplicate, SortDedup;
    if archive != [] {
      var init, repo := archive[..|archive| - 1], archive[|archive| - 1];
      DryRunPredictsRealRun(init, existing, o, dry);
      var before := Plan(init, existing, o);
      if before.Ok? {
        RepositoryIgnoresLabel(before.value, o, repo, dry);
      }
    }
  }

  /** The two runs themselves: the second, real one reports what the first, dry one promised. */
  method DryThenReal(archive: seq<Repository>, target: InMemoryRestoreTarget, o: Options)
    returns (dry: Result<Report, Failure>, done: Result<Report, Failure>)
    modifies target
    ensures done == Relabel(dry, false)
    ensures dry.Ok? ==> dry.value.dryRun
    ensures done.Ok? ==>
      target.repositories == old(target.repositories) + Names(Planned(archive, old(target.repositories), o))
    ensures done.Ok? ==> forall k | IsCreated(k) ::
      target.Recorded(k) == old(target.Recorded(k)) + done.value.counts.Of(k)
  {
    hide Plan, Planned, Sorted, StopsAt;
    dry := PlanRestore(archive, target, o.(dryRun := true));
    done := PlanRestore(archive, target, o.(dryRun := false));
    DryRunPredictsRealRun(archive, old(target.repositories), o.(dryRun := true), false);
    DryRunPredictsRealRun(archive, old(target.repositories), o.(dryRun := true), true);
    PlannedIgnoresLabel(archive, old(target.repositories), o, false);
    assert o.(dryRun := true).(dryRun := false) == o.(dryRun := false);
    assert o.(dryRun := true).(dryRun := true) == o.(dryRun := true);
  }

  lemma {:induction false} PlannedIgnoresLabel(archive: seq<Repository>, existing: set<string>, o: Options, dry: bool)
    ensures Planned(archive, existing, o.(dryRun := dry)) == Planned(archive, existing, o)
  {
    if archive != [] {
      PlannedIgnoresLabel(archive[..|archive| - 1], existing, o, dry);
    }
  }

  // ----- when it fails -----

  /** An earlier repository has the same owner and name, put together. */
  ghost predicate Repeats(archive: seq<Repository>, i: nat) {
    i < |archive|
    && exists j: nat :: j < i
         && archive[j].owner + "/" + archive[j].name == archive[i].owner + "/" + archive[i].name
  }

  predicate ShareAKey(items: seq<Item>, i: nat, j: nat) {
    i < j < |items| && items[i].key == items[j].key
  }

  /** Two items of one list share a key, whether the list would be restored or not. */
  ghost predicate HasDuplicates(repo: Repository) {
    exists i, j ::
      || ShareAKey(repo.branches, i, j) || ShareAKey(repo.issues, i, j) || ShareAKey(repo.pullRequests, i, j)
      || ShareAKey(repo.releases, i, j) || ShareAKey(repo.artifacts, i, j) || ShareAKey(repo.webhooks, i, j)
      || ShareAKey(repo.apps, i, j)
  }

  /** The target may not have the repository, and does. */
  predicate IsThere(o: Options, existing: set<string>, repo: Repository) {
    o.requireEmpty && repo.owner + "/" + repo.name in existing
  }

  ghost predicate Faulty(archive: seq<Repository>, existing: set<string>, o: Options, i: nat) {
    Repeats(archive, i) || (i < |archive| && !IsThere(o, existing, archive[i]) && HasDuplicates(archive[i]))
  }

  lemma RepeatsByName(archive: seq<Repository>, i: nat)
    ensures Repeats(archive, i) <==> i < |archive| && archive[i].FullName() in Names(archive[..i])
  {
    if i < |archive| {
      var init := archive[..i];
      assert forall j: nat | j < i :: init[j] == archive[j];
      if archive[i].FullName() in Names(init) {
        var j :| 0 <= j < |init| && init[j].FullName() == archive[i].FullName();
        assert archive[j].owner + "/" + archive[j].name == archive[i].owner + "/" + archive[i].name;
      }
    }
  }

  lemma ThereIsBlocked(o: Options, existing: set<string>, repo: Repository)
    ensures Blocked(o, existing, repo) <==> IsThere(o, existing, repo)
  {
  }

  lemma SharedKeys(repo: Repository)
    ensures HasDuplicates(repo) <==> exists kind: Kind :: !Unique(repo.Items(kind))
  {
    if kind: Kind :| !Unique(repo.Items(kind)) {
      var items := repo.Items(kind);
      var i: nat, j: nat :| i < j < |items| && items[i].key == items[j].key;
      assert ShareAKey(items, i, j);
    }
    if i, j :| ShareAKey(repo.branches, i, j) || ShareAKey(repo.issues, i, j) || ShareAKey(repo.pullRequests, i, j)
               || ShareAKey(repo.releases, i, j) || ShareAKey(repo.artifacts, i, j)
               || ShareAKey(repo.webhooks, i, j) || ShareAKey(repo.apps, i, j) {
      assert !Unique(repo.Items(Branch)) || !Unique(repo.Items(Issue)) || !Unique(repo.Items(PullRequest))
          || !Unique(repo.Items(Release)) || !Unique(repo.Items(Artifact)) || !Unique(repo.Items(Webhook))
          || !Unique(repo.Items(App));
    }
  }

  lemma {:induction false} FirstDuplicateFinds(repo: Repository, kinds: seq<Kind>)
    ensures FirstDuplicate(repo, kinds).Some? <==> exists kind :: kind in kinds && !Unique(repo.Items(kind))
  {
    if kinds != [] {
      FirstDuplicateFinds(repo, kinds[1..]);
      hide Unique;
      assert kinds == [kinds[0]] + kinds[1..];
    }
  }

  lemma EveryListIsChecked(repo: Repository)
    ensures FirstDuplicate(repo, CHECKED).Some? <==> HasDuplicates(repo)
  {
    FirstDuplicateFinds(repo, CHECKED);
    SharedKeys(repo);
    hide Unique, FirstDuplicate, HasDuplicates;
    forall kind: Kind ensures kind in CHECKED {
      match kind
      case Issue => assert CHECKED[0] == kind;
      case PullRequest => assert CHECKED[1] == kind;
      case Release => assert CHECKED[2] == kind;
      case Artifact => assert CHECKED[3] == kind;
      case Webhook => assert CHECKED[4] == kind;
      case App => assert CHECKED[5] == kind;
      case Branch => assert CHECKED[6] == kind;
    }
  }

  /** A restore fails exactly on a repeated repository, or a repeated key in one it would create. */
  lemma {:induction false} FailsExactlyOnDuplicates(archive: seq<Repository>, existing: set<string>, o: Options)
    ensures Plan(archive, existing, o).Err? <==> exists i: nat :: Faulty(archive, existing, o, i)
  {
    if archive != [] {
      var last := |archive| - 1;
      var init := archive[..last];
      FailsExactlyOnDuplicates(init, existing, o);
      EveryListIsChecked(archive[last]);
      FaultsBefore(archive, init, existing, o);
      RepeatsByName(archive, last);
      ThereIsBlocked(o, existing, archive[last]);
      assert Faulty(archive, existing, o, last) <==>
          archive[last].FullName() in Names(init)
          || (!Blocked(o, existing, archive[last]) && FirstDuplicate(archive[last], CHECKED).Some?);
      hide WithRepository, FirstDuplicate, HasDuplicates, Names, Faulty, Blocked, Repeats, IsThere;
      if i: nat :| Faulty(init, existing, o, i) {
        assert Faulty(archive, existing, o, i);
      }
    }
  }

  lemma FaultsBefore(archive: seq<Repository>, init: seq<Repository>, existing: set<string>, o: Options)
    requires archive != [] && init == archive[..|archive| - 1]
    ensures forall i: nat | i < |init| :: Faulty(init, existing, o, i) <==> Faulty(archive, existing, o, i)
    ensures forall i: nat :: Faulty(init, existing, o, i) ==> i < |init|
    ensures forall i: nat :: Faulty(archive, existing, o, i) ==> i < |archive|
  {
    hide HasDuplicates, IsThere;
    forall i: nat | i < |init| ensures Faulty(init, existing, o, i) <==> Faulty(archive, existing, o, i) {
      assert forall j: nat | j <= i :: init[j] == archive[j];
    }
  }

  lemma FaultsOfAPrefix(archive: seq<Repository>, n: nat, existing: set<string>, o: Options, i: nat)
    requires n <= |archive|
    ensures Faulty(archive[..n], existing, o, i) <==> i < n && Faulty(archive, existing, o, i)
  {
    hide HasDuplicates, IsThere;
    if i < n {
      assert forall j: nat | j <= i :: archive[..n][j] == archive[j];
    }
  }

  /** A run that fails stops at the first repository that is at fault. */
  lemma StopsAtTheFirstFault(archive: seq<Repository>, existing: set<string>, o: Options, i: nat)
    ensures StopsAt(archive, existing, o, i) <==>
      i < |archive| && Faulty(archive, existing, o, i) && forall j: nat | j < i :: !Faulty(archive, existing, o, j)
  {
    if i < |archive| {
      FailsExactlyOnDuplicates(archive[..i], existing, o);
      FailsExactlyOnDuplicates(archive[..i + 1], existing, o);
      hide Plan, Faulty;
      forall j: nat
        ensures Faulty(archive[..i], existing, o, j) <==> j < i && Faulty(archive, existing, o, j)
        ensures Faulty(archive[..i + 1], existing, o, j) <==> j <= i && Faulty(archive, existing, o, j)
      {
        FaultsOfAPrefix(archive, i, existing, o, j);
        FaultsOfAPrefix(archive, i + 1, existing, o, j);
      }
      if Plan(archive[..i], existing, o).Err? {
        var k: nat :| Faulty(archive[..i], existing, o, k);
        assert k < i && Faulty(archive, existing, o, k);
      } else {
        assert forall j: nat | j < i :: !Faulty(archive[..i], existing, o, j);
        if Plan(archive[..i + 1], existing, o).Err? {
          var k: nat :| Faulty(archive[..i + 1], existing, o, k);
          assert Faulty(archive, existing, o, k) && k <= i;
        } else {
          assert !Faulty(archive[..i + 1], existing, o, i);
        }
      }
    }
  }

  // ----- what it counts -----

  /** What is restored of each list: artifacts, webhooks and apps each by their own option. */
  function Restored(o: Options, repo: Repository, kind: Kind): seq<Item> {
    match kind
    case Branch => repo.branches
    case Issue => repo.issues
    case PullRequest => repo.pullRequests
    case Release => repo.releases
    case Artifact => if o.artifacts then repo.artifacts else []
    case Webhook => if o.webhooks then repo.webhooks else []
    case App => if o.apps then repo.apps else []
  }

  lemma RestoredIsCovered(o: Options, repo: Repository, kind: Kind)
    ensures Covered(o, repo, kind) == Restored(o, repo, kind)
  {
  }

  function Sum(repos: seq<Repository>, o: Options, kind: Kind): nat {
    if repos == [] then 0 else Sum(repos[..|repos| - 1], o, kind) + |Restored(o, repos[|repos| - 1], kind)|
  }

  lemma {:induction false} KindsAddCommands(r: Report, o: Options, repo: Repository, kinds: seq<Kind>)
    ensures var r' := WithKinds(r, o, repo, kinds);
      && |r'.commands| - r'.counts.Total() == |r.commands| - r.counts.Total()
      && r'.repositories == r.repositories && r'.blockers == r.blockers
    decreases |kinds|
  {
    if kinds != [] {
      KindsAddCommands(r, o, repo, kinds[..|kinds| - 1]);
    }
  }

  lemma RepositoryAdds(r: Report, o: Options, repo: Repository)
    ensures var r' := WithRepository(r, o, repo);
      && r'.repositories == r.repositories + 1 && r'.blockers == r.blockers
      && (forall kind :: r'.counts.Of(kind) == r.counts.Of(kind) + |Restored(o, repo, kind)|)
      && |r'.commands| - r'.repositories - r'.counts.Total() == |r.commands| - r.repositories - r.counts.Total()
  {
    hide WithKinds;
    CountsAfter(r, o, repo);
    forall kind ensures Covered(o, repo, kind) == Restored(o, repo, kind) {
      RestoredIsCovered(o, repo, kind);
    }
    hide Covered, Restored;
    KindsAddCommands(r.(commands := r.commands + [CreateRepository(repo.FullName())],
                        repositories := r.repositories + 1), o, repo, RESTORED);
  }

  /**
   Every repository is planned or blocked; the counters are the items of the
   planned ones, and there is one command for each thing counted.
   */
  lemma {:induction false} ReportCountsWhatIsPlanned(archive: seq<Repository>, existing: set<string>, o: Options)
    requires Plan(archive, existing, o).Ok?
    ensures var r := Plan(archive, existing, o).value;
      var planned := Planned(archive, existing, o);
      && r.repositories == |planned| && r.repositories + |r.blockers| == |archive|
      && (forall kind :: r.counts.Of(kind) == Sum(planned, o, kind))
      && |r.commands| == r.repositories + r.counts.Total()
  {
    hide WithRepository, FirstDuplicate, Covered, Restored, Names;
    if archive != [] {
      var init, repo := archive[..|archive| - 1], archive[|archive| - 1];
      ReportCountsWhatIsPlanned(init, existing, o);
      var before := Plan(init, existing, o).value;
      if !Blocked(o, existing, repo) {
        var planned := Planned(archive, existing, o);
        assert planned[..|planned| - 1] == Planned(init, existing, o) && planned[|planned| - 1] == repo;
        assert Plan(archive, existing, o).value == WithRepository(before, o, repo);
        hide Plan, Planned, Blocked;
        RepositoryAdds(before, o, repo);
      } else {
        assert Planned(archive, existing, o) == Planned(init, existing, o);
        hide Planned, Sum;
      }
    }
  }

  // ----- what it lists -----

  function Lines(kind: Kind, name: string, items: seq<Item>): seq<Command> {
    seq(|items|, k requires 0 <= k < |items| => RestoreItem(kind, name, items[k].title))
  }

  /** The creation of one repository, then its items, list by list. */
  function LinesOf(o: Options, repo: Repository): seq<Command> {
    var name := repo.owner + "/" + repo.name;
    [CreateRepository(name)]
    + (Lines(Branch, name, repo.branches) + Lines(Issue, name, repo.issues)
       + Lines(PullRequest, name, repo.pullRequests) + Lines(Release, name, repo.releases)
       + Lines(Artifact, name, if o.artifacts then repo.artifacts else [])
       + Lines(Webhook, name, if o.webhooks then repo.webhooks else [])
       + Lines(App, name, if o.apps then repo.apps else []))
  }

  function AllLines(o: Options, existing: set<string>, archive: seq<Repository>): seq<Command> {
    if archive == [] then []
    else
      var repo := archive[|archive| - 1];
      AllLines(o, existing, archive[..|archive| - 1]) + if IsThere(o, existing, repo) then [] else LinesOf(o, repo)
  }

  function NamesThere(o: Options, existing: set<string>, archive: seq<Repository>): seq<string> {
    if archive == [] then []
    else
      var repo := archive[|archive| - 1];
      NamesThere(o, existing, archive[..|archive| - 1])
      + if IsThere(o, existing, repo) then [repo.owner + "/" + repo.name] else []
  }

  function KindLines(o: Options, repo: Repository, kinds: seq<Kind>): seq<Command> {
    if kinds == [] then []
    else KindLines(o, repo, kinds[..|kinds| - 1])
         + CommandsFor(kinds[|kinds| - 1], repo.FullName(), Covered(o, repo, kinds[|kinds| - 1]))
  }

  lemma {:induction false} KindsAddLines(r: Report, o: Options, repo: Repository, kinds: seq<Kind>)
    ensures WithKinds(r, o, repo, kinds).commands == r.commands + KindLines(o, repo, kinds)
    decreases |kinds|
  {
    hide Covered, SecretsOf;
    if kinds != [] {
      KindsAddLines(r, o, repo, kinds[..|kinds| - 1]);
    }
  }

  lemma OneKindMore(o: Options, repo: Repository, kinds: seq<Kind>, kind: Kind)
    ensures KindLines(o, repo, kinds + [kind])
         == KindLines(o, repo, kinds) + Lines(kind, repo.FullName(), Restored(o, repo, kind))
  {
    assert (kinds + [kind])[..|kinds|] == kinds;
    RestoredIsCovered(o, repo, kind);
  }

  lemma LinesOfPlainKinds(o: Options, repo: Repository)
    ensures var name := repo.FullName();
      KindLines(o, repo, [Branch] + [Issue] + [PullRequest] + [Release])
      == Lines(Branch, name, repo.branches) + Lines(Issue, name, repo.issues)
         + Lines(PullRequest, name, repo.pullRequests) + Lines(Release, name, repo.releases)
  {
    var name := repo.FullName();
    assert KindLines(o, repo, []) == [] && [] + [Branch] == [Branch];
    assert [] + Lines(Branch, name, repo.branches) == Lines(Branch, name, repo.branches);
    hide Lines, KindLines;
    OneKindMore(o, repo, [], Branch);
    OneKindMore(o, repo, [Branch], Issue);
    OneKindMore(o, repo, [Branch] + [Issue], PullRequest);
    OneKindMore(o, repo, [Branch] + [Issue] + [PullRequest], Release);
  }

  /** The lists come in this order. */
  lemma LinesOfAllKinds(o: Options, repo: Repository)
    ensures [CreateRepository(repo.FullName())] + KindLines(o, repo, RESTORED) == LinesOf(o, repo)
  {
    hide Lines, KindLines;
    LinesOfPlainKinds(o, repo);
    OneKindMore(o, repo, [Branch] + [Issue] + [PullRequest] + [Release], Artifact);
    OneKindMore(o, repo, [Branch] + [Issue] + [PullRequest] + [Release] + [Artifact], Webhook);
    OneKindMore(o, repo, [Branch] + [Issue] + [PullRequest] + [Release] + [Artifact] + [Webhook], App);
    assert [Branch] + [Issue] + [PullRequest] + [Release] + [Artifact] + [Webhook] + [App] == RESTORED;
  }

  /** The report lists, in order, the commands of every repository it goes on to create and the names of the others. */
  lemma {:induction false} ReportIsTheList(archive: seq<Repository>, existing: set<string>, o: Options)
    requires Plan(archive, existing, o).Ok?
    ensures Plan(archive, existing, o).value.commands == AllLines(o, existing, archive)
    ensures Plan(archive, existing, o).value.blockers == NamesThere(o, existing, archive)
    ensures Plan(archive, existing, o).value.dryRun == o.dryRun
    decreases |archive|
  {
    hide FirstDuplicate, Names;
    if archive != [] {
      var init, repo := archive[..|archive| - 1], archive[|archive| - 1];
      ReportIsTheList(init, existing, o);
      ThereIsBlocked(o, existing, repo);
      RepositoryAddsLines(Plan(init, existing, o).value, o, repo);
      hide WithRepository, LinesOf, IsThere, Blocked;
      assert AllLines(o, existing, init) + [] == AllLines(o, existing, init);
      assert NamesThere(o, existing, init) + [] == NamesThere(o, existing, init);
    }
  }

  lemma RepositoryAddsLines(r: Report, o: Options, repo: Repository)
    ensures var r' := WithRepository(r, o, repo);
      r'.commands == r.commands + LinesOf(o, repo) && r'.blockers == r.blockers && r'.dryRun == r.dryRun
  {
    var started := r.(commands := r.commands + [CreateRepository(repo.FullName())], repositories := r.repositories + 1);
    KindsAddLines(started, o, repo, RESTORED);
    LinesOfAllKinds(o, repo);
    KindsAddCommands(started, o, repo, RESTORED);
    KindsKeepLabel(started, o, repo, RESTORED);
    hide WithKinds, KindLines, LinesOf;
    assert r.commands + [CreateRepository(repo.FullName())] + KindLines(o, repo, RESTORED)
        == r.commands + ([CreateRepository(repo.FullName())] + KindLines(o, repo, RESTORED));
  }

  lemma {:induction false} KindsKeepLabel(r: Report, o: Options, repo: Repository, kinds: seq<Kind>)
    ensures WithKinds(r, o, repo, kinds).dryRun == r.dryRun
    decreases |kinds|
  {
    if kinds != [] {
      KindsKeepLabel(r, o, repo, kinds[..|kinds| - 1]);
    }
  }

  // ----- the secrets -----

  /** Some planned repository has a restored webhook or app that needs the secret `s`. */
  ghost predicate Needed(planned: seq<Repository>, o: Options, s: string) {
    exists i, kind, k :: 0 <= i < |planned| && NeedsAt(planned[i], o, kind, k, s)
  }

  predicate NeedsAt(repo: Repository, o: Options, kind: Kind, k: int, s: string) {
    || (kind.Webhook? && o.webhooks && 0 <= k < |repo.webhooks| && repo.webhooks[k].secret == Some(s))
    || (kind.App? && o.apps && 0 <= k < |repo.apps| && repo.apps[k].secret == Some(s))
  }

  lemma {:induction false} SecretsOfAre(kind: Kind, items: seq<Item>, s: string)
    ensures s in SecretsOf(kind, items) <==>
            (kind.Webhook? || kind.App?) && exists k :: 0 <= k < |items| && items[k].secret == Some(s)
  {
    if items != [] {
      var init := items[..|items| - 1];
      SecretsOfAre(kind, init, s);
      assert forall k | 0 <= k < |init| :: init[k] == items[k];
    }
  }

  lemma KindAddsSecrets(o: Options, repo: Repository, kind: Kind, s: string)
    ensures s in SecretsOf(kind, Covered(o, repo, kind)) <==> exists k :: NeedsAt(repo, o, kind, k, s)
  {
    var items := Covered(o, repo, kind);
    SecretsOfAre(kind, items, s);
    RestoredIsCovered(o, repo, kind);
    hide SecretsOf, Covered;
    if kind.Webhook? || kind.App? {
      if k :| 0 <= k < |items| && items[k].secret == Some(s) {
        assert NeedsAt(repo, o, kind, k, s);
      }
    }
  }

  lemma {:induction false} KindsAddSecrets(r: Report, o: Options, repo: Repository, kinds: seq<Kind>, s: string)
    ensures s in WithKinds(r, o, repo, kinds).secrets <==>
            s in r.secrets || exists kind, k :: kind in kinds && NeedsAt(repo, o, kind, k, s)
    decreases |kinds|
  {
    if kinds != [] {
      var init, last := kinds[..|kinds| - 1], kinds[|kinds| - 1];
      KindsAddSecrets(r, o, repo, init, s);
      KindAddsSecrets(o, repo, last, s);
      assert kinds == init + [last];
      hide SecretsOf, Covered;
      assert WithKinds(r, o, repo, kinds).secrets
          == WithKinds(r, o, repo, init).secrets + SecretsOf(last, Covered(o, repo, last));
      hide NeedsAt, WithKinds;
    }
  }

  lemma {:induction false} PlanCollectsSecrets(archive: seq<Repository>, existing: set<string>, o: Options, s: string)
    requires Plan(archive, existing, o).Ok?
    ensures s in Plan(archive, existing, o).value.secrets <==> Needed(Planned(archive, existing, o), o, s)
  {
    if archive != [] {
      var init, repo := archive[..|archive| - 1], archive[|archive| - 1];
      PlanCollectsSecrets(init, existing, o, s);
      var before := Plan(init, existing, o).value;
      if !Blocked(o, existing, repo) {
        var started := before.(commands := before.commands + [CreateRepository(repo.FullName())],
                               repositories := before.repositories + 1);
        KindsAddSecrets(started, o, repo, RESTORED, s);
        EveryKindIsRestored();
        NeededGrows(Planned(init, existing, o), repo, o, s);
        assert Planned(archive, existing, o) == Planned(init, existing, o) + [repo];
        hide NeedsAt, WithKinds, Needed;
      } else {
        assert Planned(archive, existing, o) == Planned(init, existing, o);
      }
    }
  }

  lemma NeededGrows(planned: seq<Repository>, repo: Repository, o: Options, s: string)
    ensures Needed(planned + [repo], o, s) <==>
            Needed(planned, o, s) || exists kind, k :: NeedsAt(repo, o, kind, k, s)
  {
    hide NeedsAt;
    var all := planned + [repo];
    if i, kind, k :| 0 <= i < |planned| && NeedsAt(planned[i], o, kind, k, s) {
      assert NeedsAt(all[i], o, kind, k, s);
    }
    if kind, k :| NeedsAt(repo, o, kind, k, s) {
      assert NeedsAt(all[|planned|], o, kind, k, s);
    }
    if i, kind, k :| 0 <= i < |all| && NeedsAt(all[i], o, kind, k, s) {
      assert i < |planned| ==> NeedsAt(planned[i], o, kind, k, s);
    }
  }

  /** The reported secrets are the needed ones, each once and in order; no other list is. */
  lemma SecretListIsExact(archive: seq<Repository>, existing: set<string>, o: Options, other: seq<string>)
    requires Plan(archive, existing, o).Ok?
    ensures var secrets := Sorted(Plan(archive, existing, o)).value.secrets;
      && StrictlySorted(secrets)
      && (forall s :: s in secrets <==> Needed(Planned(archive, existing, o), o, s))
      && (StrictlySorted(other) && (forall s :: s in other <==> Needed(Planned(archive, existing, o), o, s)) ==>
            other == secrets)
  {
    var raw := Plan(archive, existing, o).value.secrets;
    SortDedupIsTheSortedSet(raw);
    forall s ensures s in raw <==> Needed(Planned(archive, existing, o), o, s) {
      PlanCollectsSecrets(archive, existing, o, s);
    }
    hide Plan, Needed, Planned, SortDedup, StrictlySorted;
    if StrictlySorted(other) && forall s :: s in other <==> Needed(Planned(archive, existing, o), o, s) {
      SortedListIsUnique(other, SortDedup(raw));
    }
  }

  // ----- how the target grows -----

  lemma {:induction false} PlannedNamesAreDistinct(archive: seq<Repository>, existing: set<string>, o: Options)
    requires Plan(archive, existing, o).Ok?
    ensures |Names(Planned(archive, existing, o))| == |Planned(archive, existing, o)|
  {
    if archive != [] {
      var init, repo := archive[..|archive| - 1], archive[|archive| - 1];
      PlannedNamesAreDistinct(init, existing, o);
      if !Blocked(o, existing, repo) {
        PlannedGrow(archive, |archive| - 1, existing, o);
        PlannedAreNamed(init, existing, o);
        assert archive[..|archive|] == archive;
        assert |Planned(archive, existing, o)| == |Planned(init, existing, o)| + 1;
        hide WithRepository, FirstDuplicate, Names, Planned;
      } else {
        assert Planned(archive, existing, o) == Planned(init, existing, o);
      }
    }
  }

  /**
   A real run adds as many repositories as it planned exactly when none of them
   was there before, which a required empty target guarantees.
   */
  lemma TargetGrowsByThePlan(archive: seq<Repository>, existing: set<string>, o: Options)
    requires Plan(archive, existing, o).Ok?
    ensures var names := Names(Planned(archive, existing, o));
      && (|existing + names| == |existing| + Plan(archive, existing, o).value.repositories <==> names !! existing)
      && (o.requireEmpty ==> names !! existing)
  {
    var names := Names(Planned(archive, existing, o));
    PlannedNamesAreDistinct(archive, existing, o);
    ReportCountsWhatIsPlanned(archive, existing, o);
    if o.requireEmpty {
      PlannedAreNotBlocked(archive, existing, o);
    }
    hide Plan, Planned, Names;
    GrowsByAllExactlyWhenNew(existing, names);
  }

  lemma GrowsByAllExactlyWhenNew<T>(a: set<T>, b: set<T>)
    ensures |a + b| == |a| + |b| <==> b !! a
  {
    assert a + b == a + (b - a);
    assert |a + b| == |a| + |b - a|;
    assert b == (b - a) + (b * a);
    assert |b| == |b - a| + |b * a|;
  }

  lemma {:induction false} PlannedAreNotBlocked(archive: seq<Repository>, existing: set<string>, o: Options)
    requires o.requireEmpty
    ensures Names(Planned(archive, existing, o)) !! existing
  {
    if archive != [] {
      var init := archive[..|archive| - 1];
      PlannedAreNotBlocked(init, existing, o);
      if Blocked(o, existing, archive[|archive| - 1]) {
        assert Planned(archive, existing, o) == Planned(init, existing, o);
      } else {
        PlannedGrow(archive, |archive| - 1, existing, o);
        assert archive[..|archive|] == archive;
      }
    }
  }

  // ----- the order of the commands -----

  /** Every item is restored after its repository is created. */
  ghost predicate CreatedFirst(commands: seq<Command>) {
    forall i | 0 <= i < |commands| && commands[i].RestoreItem? ::
      CreateRepository(commands[i].repo) in commands[..i]
  }

  lemma AppendingItemsKeepsOrder(commands: seq<Command>, kind: Kind, name: string, items: seq<Item>)
    requires CreatedFirst(commands) && CreateRepository(name) in commands
    ensures CreatedFirst(commands + CommandsFor(kind, name, items))
  {
    var all := commands + CommandsFor(kind, name, items);
    forall i | 0 <= i < |all| && all[i].RestoreItem? ensures CreateRepository(all[i].repo) in all[..i] {
      if i < |commands| {
        assert all[..i] == commands[..i];
      } else {
        var j :| 0 <= j < |commands| && commands[j] == CreateRepository(name);
        assert all[..i][j] == commands[j];
      }
    }
  }

  lemma {:induction false} KindsKeepOrder(r: Report, o: Options, repo: Repository, kinds: seq<Kind>)
    requires CreatedFirst(r.commands) && CreateRepository(repo.FullName()) in r.commands
    ensures var r' := WithKinds(r, o, repo, kinds);
      CreatedFirst(r'.commands) && CreateRepository(repo.FullName()) in r'.commands
    decreases |kinds|
  {
    if kinds != [] {
      var init, last := kinds[..|kinds| - 1], kinds[|kinds| - 1];
      KindsKeepOrder(r, o, repo, init);
      AppendingItemsKeepsOrder(WithKinds(r, o, repo, init).commands, last, repo.FullName(), Covered(o, repo, last));
      hide CreatedFirst, Covered;
    }
  }

  lemma {:induction false} RepositoriesComeFirst(archive: seq<Repository>, existing: set<string>, o: Options)
    requires Plan(archive, existing, o).Ok?
    ensures CreatedFirst(Plan(archive, existing, o).value.commands)
  {
    if archive != [] {
      var init, repo := archive[..|archive| - 1], archive[|archive| - 1];
      RepositoriesComeFirst(init, existing, o);
      var before := Plan(init, existing, o).value;
      var created := before.commands + [CreateRepository(repo.FullName())];
      assert CreatedFirst(created) by {
        assert forall i | 0 <= i < |before.commands| :: created[i] == before.commands[i]
                                                        && created[..i] == before.commands[..i];
      }
      assert created[|before.commands|] == CreateRepository(repo.FullName());
      hide CreatedFirst, FirstDuplicate, WithKinds;
      KindsKeepOrder(before.(commands := created, repositories := before.repositories + 1), o, repo, RESTORED);
    }
  }
}
