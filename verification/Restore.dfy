/**
 Planning and running a restore (crates/jeryu-mirror/src/restore.rs).

 A dry run reports what a real run would do. The real run asks its target which
 repositories exist while it is creating them.
 */
module Restore {
  import opened Common

  datatype Kind = Branch | Issue | PullRequest | Release | Artifact | Webhook | App

  /** `key` must be unique in its list, `title` goes into the command, `secret` must be supplied again by hand. */
  datatype Item = Item(key: string, title: string, secret: Option<string>)

  datatype Repository = Repository(
    owner: string, name: string, branches: seq<Item>, issues: seq<Item>, pullRequests: seq<Item>,
    releases: seq<Item>, artifacts: seq<Item>, webhooks: seq<Item>, apps: seq<Item>)
  {
    function FullName(): string {
      owner + "/" + name
    }

    function Items(kind: Kind): seq<Item> {
      match kind
      case Branch => branches
      case Issue => issues
      case PullRequest => pullRequests
      case Release => releases
      case Artifact => artifacts
      case Webhook => webhooks
      case App => apps
    }
  }

  datatype Options = Options(dryRun: bool, requireEmpty: bool, webhooks: bool, apps: bool, artifacts: bool)

  datatype Command = CreateRepository(repo: string) | RestoreItem(kind: Kind, repo: string, title: string)

  datatype Counts = Counts(branches: nat, issues: nat, pullRequests: nat, releases: nat, artifacts: nat,
                           webhooks: nat, apps: nat)
  {
    function Of(kind: Kind): nat {
      match kind
      case Branch => branches
      case Issue => issues
      case PullRequest => pullRequests
      case Release => releases
      case Artifact => artifacts
      case Webhook => webhooks
      case App => apps
    }

    function Plus(kind: Kind, n: nat): (c: Counts)
      ensures forall k :: c.Of(k) == Of(k) + if k == kind then n else 0
    {
      match kind
      case Branch => this.(branches := branches + n)
      case Issue => this.(issues := issues + n)
      case PullRequest => this.(pullRequests := pullRequests + n)
      case Release => this.(releases := releases + n)
      case Artifact => this.(artifacts := artifacts + n)
      case Webhook => this.(webhooks := webhooks + n)
      case App => this.(apps := apps + n)
    }

    function Total(): nat {
      branches + issues + pullRequests + releases + artifacts + webhooks + apps
    }
  }

  datatype Report = Report(dryRun: bool, repositories: nat, counts: Counts, secrets: seq<string>,
                           commands: seq<Command>, blockers: seq<string>)

  datatype Failure = DuplicateRepository(name: string) | DuplicateItem(kind: Kind)

  const RESTORED: seq<Kind> := [Branch, Issue, PullRequest, Release, Artifact, Webhook, App]
  const CHECKED: seq<Kind> := [Issue, PullRequest, Release, Artifact, Webhook, App, Branch]

  // ----- what a restore does, whoever runs it -----

  predicate Unique(items: seq<Item>) {
    forall i, j | 0 <= i < j < |items| :: items[i].key != items[j].key
  }

  predicate Wanted(o: Options, kind: Kind) {
    match kind
    case Artifact => o.artifacts
    case Webhook => o.webhooks
    case App => o.apps
    case _ => true
  }

  /** The items of one kind a restore of this repository covers. */
  function Covered(o: Options, repo: Repository, kind: Kind): seq<Item> {
    if Wanted(o, kind) then repo.Items(kind) else []
  }

  function CommandsFor(kind: Kind, name: string, items: seq<Item>): seq<Command> {
    seq(|items|, k requires 0 <= k < |items| => RestoreItem(kind, name, items[k].title))
  }

  /** Only webhooks and app installations name secrets. */
  function SecretsOf(kind: Kind, items: seq<Item>): seq<string> {
    if items == [] then []
    else
      SecretsOf(kind, items[..|items| - 1])
        + (if (kind.Webhook? || kind.App?) && items[|items| - 1].secret.Some? then [items[|items| - 1].secret.value]
           else [])
  }

  function WithItems(r: Report, kind: Kind, name: string, items: seq<Item>): Report {
    r.(counts := r.counts.Plus(kind, |items|),
       commands := r.commands + CommandsFor(kind, name, items),
       secrets := r.secrets + SecretsOf(kind, items))
  }

  function WithKind(r: Report, o: Options, repo: Repository, kind: Kind): Report {
    WithItems(r, kind, repo.FullName(), Covered(o, repo, kind))
  }

  function WithKinds(r: Report, o: Options, repo: Repository, kinds: seq<Kind>): Report {
    if kinds == [] then r
    else WithKind(WithKinds(r, o, repo, kinds[..|kinds| - 1]), o, repo, kinds[|kinds| - 1])
  }

  function WithRepository(r: Report, o: Options, repo: Repository): Report {
    WithKinds(r.(commands := r.commands + [CreateRepository(repo.FullName())], repositories := r.repositories + 1),
              o, repo, RESTORED)
  }

  /** The first list with two items of one key, in the order they are checked. */
  function FirstDuplicate(repo: Repository, kinds: seq<Kind>): Option<Kind> {
    if kinds == [] then None
    else if !Unique(repo.Items(kinds[0])) then Some(kinds[0])
    else FirstDuplicate(repo, kinds[1..])
  }

  function Names(repos: seq<Repository>): set<string> {
    set k | 0 <= k < |repos| :: repos[k].FullName()
  }

  predicate Blocked(o: Options, existing: set<string>, repo: Repository) {
    o.requireEmpty && repo.FullName() in existing
  }

  /** The plan for a target that holds the repositories `existing`; whether the run is dry only labels it. */
  function Plan(repos: seq<Repository>, existing: set<string>, o: Options): Result<Report, Failure> {
    if repos == [] then Ok(Report(o.dryRun, 0, Counts(0, 0, 0, 0, 0, 0, 0), [], [], []))
    else
      var before := Plan(repos[..|repos| - 1], existing, o);
      var repo := repos[|repos| - 1];
      if before.Err? then before
      else if repo.FullName() in Names(repos[..|repos| - 1]) then Err(DuplicateRepository(repo.FullName()))
      else if Blocked(o, existing, repo) then
        Ok(before.value.(blockers := before.value.blockers + [repo.FullName()]))
      else if FirstDuplicate(repo, CHECKED).Some? then Err(DuplicateItem(FirstDuplicate(repo, CHECKED).value))
      else Ok(WithRepository(before.value, o, repo))
  }

  /** The repositories a restore goes on to create. */
  function Planned(repos: seq<Repository>, existing: set<string>, o: Options): seq<Repository> {
    if repos == [] then []
    else
      Planned(repos[..|repos| - 1], existing, o)
        + (if Blocked(o, existing, repos[|repos| - 1]) then [] else [repos[|repos| - 1]])
  }

  // ----- the secret list -----

  /** Strictly earlier in the order of strings. */
  predicate Before(a: string, b: string) {
    b != "" && (a == "" || a[0] < b[0] || (a[0] == b[0] && Before(a[1..], b[1..])))
  }

  predicate StrictlySorted(names: seq<string>) {
    forall i, j | 0 <= i < j < |names| :: Before(names[i], names[j])
  }

  function Insert(sorted: seq<string>, name: string): seq<string> {
    if sorted == [] then [name]
    else if name == sorted[0] then sorted
    else if Before(name, sorted[0]) then [name] + sorted
    else [sorted[0]] + Insert(sorted[1..], name)
  }

  /** `sort` followed by `dedup`. */
  function SortDedup(names: seq<string>): seq<string> {
    if names == [] then [] else Insert(SortDedup(names[1..]), names[0])
  }

  lemma {:induction false} BeforeIsAnOrder(a: string, b: string, c: string)
    ensures !Before(a, a)
    ensures Before(a, b) || a == b || Before(b, a)
    ensures Before(a, b) && Before(b, c) ==> Before(a, c)
  {
    if a != "" && b != "" {
      BeforeIsAnOrder(a[1..], b[1..], if c == "" then "" else c[1..]);
      assert a == [a[0]] + a[1..] && b == [b[0]] + b[1..];
    } else if a != "" {
      BeforeIsAnOrder(a[1..], "", "");
    }
  }

  lemma {:induction false} InsertKeepsSorted(sorted: seq<string>, name: string)
    requires StrictlySorted(sorted)
    ensures StrictlySorted(Insert(sorted, name))
    ensures forall s :: s in Insert(sorted, name) <==> s in sorted || s == name
  {
    if sorted != [] {
      BeforeIsAnOrder(name, sorted[0], "");
      if Before(name, sorted[0]) {
        forall j | 0 <= j < |sorted| ensures Before(name, sorted[j]) {
          BeforeIsAnOrder(name, sorted[0], sorted[j]);
        }
      } else if name != sorted[0] {
        var tail := Insert(sorted[1..], name);
        InsertKeepsSorted(sorted[1..], name);
        assert sorted == [sorted[0]] + sorted[1..];
        forall j | 0 <= j < |tail| ensures Before(sorted[0], tail[j]) {
          assert tail[j] in tail;
          assert tail[j] in sorted[1..] ==> exists k | 0 < k < |sorted| :: sorted[k] == tail[j];
        }
      }
    }
  }

  /** The list names each secret once, in order, and there is only one such list. */
  lemma {:induction false} SortDedupIsTheSortedSet(names: seq<string>)
    ensures StrictlySorted(SortDedup(names))
    ensures forall s :: s in SortDedup(names) <==> s in names
  {
    if names != [] {
      SortDedupIsTheSortedSet(names[1..]);
      InsertKeepsSorted(SortDedup(names[1..]), names[0]);
      assert names == [names[0]] + names[1..];
    }
  }

  lemma TailIsTheRest(a: seq<string>, s: string)
    requires StrictlySorted(a) && a != []
    ensures s in a[1..] <==> s in a && s != a[0]
  {
    assert a == [a[0]] + a[1..];
    BeforeIsAnOrder(s, s, s);
    if s in a[1..] {
      var k :| 0 <= k < |a| - 1 && a[1..][k] == s;
      assert a[k + 1] == s && Before(a[0], a[k + 1]);
    }
  }

  lemma {:induction false} SortedListIsUnique(a: seq<string>, b: seq<string>)
    requires StrictlySorted(a) && StrictlySorted(b) && forall s :: s in a <==> s in b
    ensures a == b
  {
    assert forall k | 0 <= k < |a| :: a[k] in b;
    assert forall k | 0 <= k < |b| :: b[k] in a;
    if a != [] && b != [] {
      BeforeIsAnOrder(a[0], b[0], a[0]);
      assert a[0] == b[0];
      forall s ensures s in a[1..] <==> s in b[1..] {
        TailIsTheRest(a, s);
        TailIsTheRest(b, s);
      }
      SortedListIsUnique(a[1..], b[1..]);
    }
  }

  // ----- the run -----

  class InMemoryRestoreTarget {
    var repositories: set<string>
    var issueCount: nat
    var pullRequestCount: nat
    var releaseCount: nat
    var artifactCount: nat
    var branchCount: nat

    constructor (repositories: set<string>)
      ensures this.repositories == repositories
      ensures forall kind :: Recorded(kind) == 0
    {
      this.repositories := repositories;
      issueCount, pullRequestCount, releaseCount, artifactCount, branchCount := 0, 0, 0, 0, 0;
    }

    /** How many items of a kind were ever created; webhooks and apps are only reported. */
    function Recorded(kind: Kind): nat
      reads this
    {
      match kind
      case Branch => branchCount
      case Issue => issueCount
      case PullRequest => pullRequestCount
      case Release => releaseCount
      case Artifact => artifactCount
      case Webhook => 0
      case App => 0
    }

    predicate HasRepository(name: string)
      reads this
    {
      name in repositories
    }

    method CreateRepository(name: string)
      modifies this
      ensures repositories == old(repositories) + {name}
      ensures forall kind :: Recorded(kind) == old(Recorded(kind))
    {
      repositories := repositories + {name};
    }

    method Create(kind: Kind)
      modifies this
      ensures repositories == old(repositories)
      ensures forall k :: Recorded(k) == old(Recorded(k)) + if k == kind && IsCreated(kind) then 1 else 0
    {
      match kind {
        case Branch => branchCount := branchCount + 1;
        case Issue => issueCount := issueCount + 1;
        case PullRequest => pullRequestCount := pullRequestCount + 1;
        case Release => releaseCount := releaseCount + 1;
        case Artifact => artifactCount := artifactCount + 1;
        case Webhook =>
        case App =>
      }
    }
  }

  predicate IsCreated(kind: Kind) {
    !kind.Webhook? && !kind.App?
  }

  /** Webhooks and apps are listed in the report and not created. */
  lemma CreatedKinds()
    ensures forall kind :: IsCreated(kind) <==> kind in {Branch, Issue, PullRequest, Release, Artifact}
  {
  }

  method EnsureUnique(items: seq<Item>) returns (unique: bool)
    ensures unique <==> Unique(items)
  {
    var seen: set<string> := {};
    for i := 0 to |items|
      invariant Unique(items[..i])
      invariant forall k: string :: k in seen <==> exists j :: 0 <= j < i && items[j].key == k
    {
      if items[i].key in seen {
        return false;
      }
      seen := seen + {items[i].key};
    }
    assert items[..|items|] == items;
    unique := true;
  }

  /** The first of the lists, in the order they are checked, that repeats a key. */
  method CheckLists(repo: Repository) returns (r: Option<Kind>)
    ensures r == FirstDuplicate(repo, CHECKED)
  {
    for i := 0 to |CHECKED|
      invariant FirstDuplicate(repo, CHECKED) == FirstDuplicate(repo, CHECKED[i..])
    {
      var unique := EnsureUnique(repo.Items(CHECKED[i]));
      assert CHECKED[i..][1..] == CHECKED[i + 1..];
      if !unique {
        return Some(CHECKED[i]);
      }
    }
    r := None;
  }

  lemma WithOneMore(r: Report, kind: Kind, name: string, items: seq<Item>, i: nat)
    requires i < |items|
    ensures WithItems(r, kind, name, items[..i + 1])
         == WithItems(WithItems(r, kind, name, items[..i]), kind, name, [items[i]])
  {
    CommandsOneMore(kind, name, items, i);
    SecretsOneMore(kind, items, i);
    PlusPlus(r.counts, kind, i, 1);
    hide CommandsFor, SecretsOf;
  }

  lemma CommandsOneMore(kind: Kind, name: string, items: seq<Item>, i: nat)
    requires i < |items|
    ensures CommandsFor(kind, name, items[..i + 1])
         == CommandsFor(kind, name, items[..i]) + CommandsFor(kind, name, [items[i]])
  {
  }

  lemma SecretsOneMore(kind: Kind, items: seq<Item>, i: nat)
    requires i < |items|
    ensures SecretsOf(kind, items[..i + 1]) == SecretsOf(kind, items[..i]) + SecretsOf(kind, [items[i]])
  {
    var some, one, more := items[..i], [items[i]], items[..i + 1];
    assert more[..i] == some && more[i] == items[i] && one[..0] == [];
    assert SecretsOf(kind, []) == [];
  }

  lemma PlusPlus(c: Counts, kind: Kind, m: nat, n: nat)
    ensures c.Plus(kind, m).Plus(kind, n) == c.Plus(kind, m + n)
  {
    match kind
    case _ =>
  }

  /** The loop over the items of one kind. */
  method RestoreItems(report: Report, o: Options, repo: Repository, kind: Kind, target: InMemoryRestoreTarget)
    returns (r: Report)
    modifies target
    ensures r == WithKind(report, o, repo, kind)
    ensures target.repositories == old(target.repositories)
    ensures forall k :: target.Recorded(k) == old(target.Recorded(k))
              + if k == kind && IsCreated(k) && !o.dryRun then |Covered(o, repo, kind)| else 0
  {
    hide WithItems, IsCreated;
    r := report;
    var name := repo.FullName();
    var items := Covered(o, repo, kind);
    WithNothing(report, kind, name);
    for i := 0 to |items|
      invariant r == WithItems(report, kind, name, items[..i])
      invariant target.repositories == old(target.repositories)
      invariant forall k :: target.Recorded(k) == old(target.Recorded(k))
                  + if k == kind && IsCreated(k) && !o.dryRun then i else 0
    {
      WithOneMore(report, kind, name, items, i);
      r := PlanItem(r, kind, name, items[i]);
      if !o.dryRun {
        target.Create(kind);
      }
    }
    assert items[..|items|] == items;
  }

  lemma WithNothing(r: Report, kind: Kind, name: string)
    ensures WithItems(r, kind, name, []) == r
  {
    assert r.counts.Plus(kind, 0) == r.counts by {
      assert forall k :: r.counts.Plus(kind, 0).Of(k) == r.counts.Of(k);
    }
  }

  /** One turn of such a loop: a command, a count, and the secret of a webhook or an app. */
  method PlanItem(report: Report, kind: Kind, name: string, item: Item) returns (r: Report)
    ensures r == WithItems(report, kind, name, [item])
  {
    r := report.(commands := report.commands + [RestoreItem(kind, name, item.title)],
                 counts := report.counts.Plus(kind, 1));
    assert [item][..0] == [] && SecretsOf(kind, []) == [];
    assert CommandsFor(kind, name, [item]) == [RestoreItem(kind, name, item.title)];
    if (kind.Webhook? || kind.App?) && item.secret.Some? {
      r := r.(secrets := r.secrets + [item.secret.value]);
    }
  }

  /** The loops of one repository, one kind after the other. */
  method RestoreKinds(report: Report, o: Options, repo: Repository, kinds: seq<Kind>, target: InMemoryRestoreTarget)
    returns (r: Report)
    requires forall i, j | 0 <= i < j < |kinds| :: kinds[i] != kinds[j]
    modifies target
    ensures r == WithKinds(report, o, repo, kinds)
    ensures target.repositories == old(target.repositories)
    ensures forall k :: target.Recorded(k) == old(target.Recorded(k))
              + if k in kinds && IsCreated(k) && !o.dryRun then |Covered(o, repo, k)| else 0
  {
    hide WithKind, IsCreated, Covered;
    r := report;
    for i := 0 to |kinds|
      invariant r == WithKinds(report, o, repo, kinds[..i])
      invariant target.repositories == old(target.repositories)
      invariant forall k :: target.Recorded(k) == old(target.Recorded(k))
                  + if k in kinds[..i] && IsCreated(k) && !o.dryRun then |Covered(o, repo, k)| else 0
    {
      assert kinds[..i + 1] == kinds[..i] + [kinds[i]] && kinds[i] !in kinds[..i];
      assert kinds[..i + 1][..i] == kinds[..i];
      r := RestoreItems(r, o, repo, kinds[i], target);
    }
    assert kinds[..|kinds|] == kinds;
  }

  /** One repository, once it passed the checks. */
  method RestoreRepository(report: Report, o: Options, repo: Repository, target: InMemoryRestoreTarget)
    returns (r: Report)
    modifies target
    ensures r == WithRepository(report, o, repo)
    ensures target.repositories == old(target.repositories) + if o.dryRun then {} else {repo.FullName()}
    ensures forall k :: target.Recorded(k) == old(target.Recorded(k))
              + if IsCreated(k) && !o.dryRun then |Covered(o, repo, k)| else 0
  {
    hide WithKinds, IsCreated, Covered;
    r := report.(commands := report.commands + [CreateRepository(repo.FullName())],
                 repositories := report.repositories + 1);
    if !o.dryRun {
      target.CreateRepository(repo.FullName());
    }
    EveryKindIsRestored();
    r := RestoreKinds(r, o, repo, RESTORED, target);
  }

  lemma EveryKindIsRestored()
    ensures forall k :: k in RESTORED
  {
    forall k ensures k in RESTORED {
      match k
      case Branch => assert RESTORED[0] == k;
      case Issue => assert RESTORED[1] == k;
      case PullRequest => assert RESTORED[2] == k;
      case Release => assert RESTORED[3] == k;
      case Artifact => assert RESTORED[4] == k;
      case Webhook => assert RESTORED[5] == k;
      case App => assert RESTORED[6] == k;
    }
  }

  function Sorted(r: Result<Report, Failure>): Result<Report, Failure> {
    if r.Err? then r else Ok(r.value.(secrets := SortDedup(r.value.secrets)))
  }

  /** Everything before repository `i` can be planned, and it cannot. */
  predicate StopsAt(archive: seq<Repository>, existing: set<string>, o: Options, i: nat) {
    i < |archive| && Plan(archive[..i], existing, o).Ok? && Plan(archive[..i + 1], existing, o).Err?
  }

  /**
   The whole restore: the outcome is the plan for the target as it was before
   the run, though a real run has created repositories by the time it asks. A
   real run that fails leaves what it had created before the repository at fault.
   */
  method PlanRestore(archive: seq<Repository>, target: InMemoryRestoreTarget, o: Options)
    returns (r: Result<Report, Failure>)
    modifies target
    ensures r == Sorted(Plan(archive, old(target.repositories), o))
    ensures o.dryRun ==> target.repositories == old(target.repositories)
    ensures o.dryRun ==> forall k :: target.Recorded(k) == old(target.Recorded(k))
    ensures r.Ok? && !o.dryRun ==>
      target.repositories == old(target.repositories) + Names(Planned(archive, old(target.repositories), o))
    ensures r.Ok? && !o.dryRun ==> forall k | IsCreated(k) ::
      target.Recorded(k) == old(target.Recorded(k)) + r.value.counts.Of(k)
    ensures forall k | !IsCreated(k) :: target.Recorded(k) == old(target.Recorded(k))
    ensures r.Err? && !o.dryRun ==> exists i: nat | StopsAt(archive, old(target.repositories), o, i) ::
      && target.repositories == old(target.repositories) + Names(Planned(archive[..i], old(target.repositories), o))
      && forall k | IsCreated(k) ::
           target.Recorded(k)
           == old(target.Recorded(k)) + Plan(archive[..i], old(target.repositories), o).value.counts.Of(k)
  {
    hide IsCreated, FirstDuplicate, WithRepository;
    var report := Report(o.dryRun, 0, Counts(0, 0, 0, 0, 0, 0, 0), [], [], []);
    var seen: set<string> := {};
    ghost var existing := target.repositories;
    for i := 0 to |archive|
      invariant seen == Names(archive[..i])
      invariant Plan(archive[..i], existing, o) == Ok(report)
      invariant target.repositories == existing + if o.dryRun then {} else Names(Planned(archive[..i], existing, o))
      invariant forall k :: target.Recorded(k) == old(target.Recorded(k))
                  + if IsCreated(k) && !o.dryRun then report.counts.Of(k) else 0
    {
      var repo := archive[i];
      assert archive[..i + 1][..i] == archive[..i];
      PlanStepsFrom(archive, i, existing, o);
      if repo.FullName() in seen {
        assert StopsAt(archive, existing, o, i);
        return Err(DuplicateRepository(repo.FullName()));
      }
      seen := seen + {repo.FullName()};
      NamesGrow(archive, i);
      PlannedAreNamed(archive[..i], existing, o);
      if o.requireEmpty && target.HasRepository(repo.FullName()) {
        report := report.(blockers := report.blockers + [repo.FullName()]);
        assert Planned(archive[..i + 1], existing, o) == Planned(archive[..i], existing, o);
      } else {
        var duplicate := CheckLists(repo);
        if duplicate.Some? {
          assert StopsAt(archive, existing, o, i);
          return Err(DuplicateItem(duplicate.value));
        }
        CountsAfter(report, o, repo);
        report := RestoreRepository(report, o, repo, target);
        PlannedGrow(archive, i, existing, o);
      }
    }
    assert archive[..|archive|] == archive;
    report := report.(secrets := SortDedup(report.secrets));
    r := Ok(report);
  }

  /** A failure on a prefix is the failure of the whole. */
  lemma {:induction false} PlanStepsFrom(archive: seq<Repository>, i: nat, existing: set<string>, o: Options)
    requires i < |archive|
    ensures Plan(archive[..i + 1], existing, o).Err? ==>
      Plan(archive, existing, o) == Plan(archive[..i + 1], existing, o)
    decreases |archive|
  {
    if i + 1 < |archive| {
      var init := archive[..|archive| - 1];
      assert init[..i + 1] == archive[..i + 1];
      PlanStepsFrom(init, i, existing, o);
    } else {
      assert archive[..i + 1] == archive;
    }
  }

  lemma NamesGrow(archive: seq<Repository>, i: nat)
    requires i < |archive|
    ensures Names(archive[..i + 1]) == Names(archive[..i]) + {archive[i].FullName()}
  {
    var a, b := archive[..i], archive[..i + 1];
    forall n ensures n in Names(b) <==> n in Names(a) + {archive[i].FullName()} {
      if n in Names(a) {
        var k :| 0 <= k < |a| && a[k].FullName() == n;
        assert b[k] == a[k];
      }
      if n in Names(b) {
        var k :| 0 <= k < |b| && b[k].FullName() == n;
        assert k < i ==> a[k] == b[k];
      }
      assert b[i] == archive[i];
    }
  }

  lemma {:induction false} PlannedAreNamed(archive: seq<Repository>, existing: set<string>, o: Options)
    ensures Names(Planned(archive, existing, o)) <= Names(archive)
  {
    if archive != [] {
      var init, last := archive[..|archive| - 1], archive[|archive| - 1];
      PlannedAreNamed(init, existing, o);
      NamesGrow(archive, |archive| - 1);
      assert archive[..|archive|] == archive;
      if !Blocked(o, existing, last) {
        var planned := Planned(archive, existing, o);
        assert planned[..|planned| - 1] == Planned(init, existing, o) && planned[..|planned|] == planned;
        NamesGrow(planned, |planned| - 1);
      } else {
        assert Planned(archive, existing, o) == Planned(init, existing, o);
      }
    }
  }

  lemma PlannedGrow(archive: seq<Repository>, i: nat, existing: set<string>, o: Options)
    requires i < |archive| && !Blocked(o, existing, archive[i])
    ensures Names(Planned(archive[..i + 1], existing, o))
         == Names(Planned(archive[..i], existing, o)) + {archive[i].FullName()}
  {
    assert archive[..i + 1][..i] == archive[..i];
    var planned := Planned(archive[..i + 1], existing, o);
    assert planned[..|planned| - 1] == Planned(archive[..i], existing, o) && planned[..|planned|] == planned;
    NamesGrow(planned, |planned| - 1);
  }

  /** A repository adds to each counter the items of that kind it covers. */
  lemma CountsAfter(report: Report, o: Options, repo: Repository)
    ensures forall k :: WithRepository(report, o, repo).counts.Of(k) == report.counts.Of(k) + |Covered(o, repo, k)|
  {
    var started := report.(commands := report.commands + [CreateRepository(repo.FullName())],
                           repositories := report.repositories + 1);
    WithKindsCounts(started, o, repo, RESTORED);
    EveryKindIsRestored();
  }

  lemma {:induction false} WithKindsCounts(r: Report, o: Options, repo: Repository, kinds: seq<Kind>)
    requires forall i, j | 0 <= i < j < |kinds| :: kinds[i] != kinds[j]
    ensures forall k :: WithKinds(r, o, repo, kinds).counts.Of(k)
                     == r.counts.Of(k) + if k in kinds then |Covered(o, repo, k)| else 0
    decreases |kinds|
  {
    if kinds != [] {
      var init := kinds[..|kinds| - 1];
      WithKindsCounts(r, o, repo, init);
      assert kinds == init + [kinds[|kinds| - 1]];
      assert kinds[|kinds| - 1] !in init;
    }
  }
}
