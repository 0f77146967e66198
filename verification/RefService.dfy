/**
 The ref service (crates/jeryu-gitd/src/refs.rs) and its protection rules
 (crates/jeryu-gitd/src/protection.rs), one call at a time. The steps of the
 calls interleave in RefInterleaving.
 */
module RefService {
  import opened Common
  import opened CommitGraph

  const MAIN := "refs/heads/main"
  const TAGS := "refs/tags/"
  const MIRROR := "system:mirror"
  const MAX_SYMREF_DEPTH := 8

  /** How far git itself follows symbolic refs when it writes through one. */
  const GIT_SYMREF_DEPTH := 5

  datatype Operation = Create | Update | Delete

  datatype Error =
    | InvalidName | NotWritable | CircularSymref | GitFailed | ProtectedRefDenied | UpdateFailed | RecordFailed
    | ZeroOid | NotACommit | NonFastForwardRequired | MergeConflict

  // ----- protection rules -----

  datatype Rule = Rule(pattern: string, denyDelete: bool, denyForce: bool, bypassActors: seq<string>)

  datatype Change = Change(actor: string, refName: string, operation: Operation, force: bool)

  const DEFAULT_RULES: seq<Rule> := [
    Rule(MAIN, true, true, [MIRROR]),
    Rule("refs/tags/*", true, true, [])
  ]

  predicate MatchesPattern(pattern: string, value: string) {
    pattern == value || (pattern != "" && pattern[|pattern| - 1] == '*' && pattern[..|pattern| - 1] <= value)
  }

  predicate RuleAllows(rule: Rule, change: Change) {
    || !MatchesPattern(rule.pattern, change.refName)
    || change.actor in rule.bypassActors
    || (!(rule.denyDelete && change.operation == Delete) && !(rule.denyForce && change.force))
  }

  /** Every rule is consulted; the first refusal ends the call. */
  predicate RulesAllow(rules: seq<Rule>, change: Change) {
    forall i | 0 <= i < |rules| :: RuleAllows(rules[i], change)
  }

  /** The default rules, spelled out: main may be moved freely only by the mirror, tags by nobody. */
  lemma DefaultRulesAllow(change: Change)
    ensures RulesAllow(DEFAULT_RULES, change) <==>
      && (change.refName == MAIN && change.actor != MIRROR ==> change.operation != Delete && !change.force)
      && (TAGS <= change.refName ==> change.operation != Delete && !change.force)
  {
    assert "refs/tags/*"[..10] == TAGS;
    assert MatchesPattern("refs/tags/*", change.refName) <==>
      TAGS <= change.refName || change.refName == "refs/tags/*";
    assert TAGS <= "refs/tags/*";
    assert !MatchesPattern(MAIN, TAGS);
    assert RuleAllows(DEFAULT_RULES[0], change) <==>
      (change.refName == MAIN && change.actor != MIRROR ==> change.operation != Delete && !change.force);
    assert RuleAllows(DEFAULT_RULES[1], change) <==>
      (TAGS <= change.refName ==> change.operation != Delete && !change.force);
  }

  // ----- what one call decides before it writes -----

  function OperationOf(newOid: string, oldOid: Option<string>): Operation {
    if IsZeroOid(newOid) then Delete else if oldOid.Some? then Update else Create
  }

  /** Whether git is asked if the old oid is an ancestor of the new one. */
  predicate AsksAncestry(name: string, newOid: string, oldOid: Option<string>) {
    && oldOid.Some? && !IsZeroOid(oldOid.value) && !IsZeroOid(newOid)
    && !(TAGS <= name) && HEADS <= name
  }

  /** `isAncestor` is git's answer for the two ids. */
  predicate IsForce(name: string, newOid: string, oldOid: Option<string>, isAncestor: bool) {
    if oldOid.None? || IsZeroOid(oldOid.value) || IsZeroOid(newOid) then false
    else if TAGS <= name then true
    else if HEADS <= name then !isAncestor
    else false
  }

  /** The direct ref git writes when it is given `name`. */
  function Written(symrefs: map<string, string>, name: string, depth: nat): Option<string>
    decreases depth
  {
    if name !in symrefs then Some(name)
    else if depth == 0 || symrefs[name] == "" then None
    else Written(symrefs, symrefs[name], depth - 1)
  }

  function WrittenRef(symrefs: map<string, string>, name: string): Option<string> {
    Written(symrefs, name, GIT_SYMREF_DEPTH)
  }

  /** The predecessor git compares with: no value, all zeroes or an empty one stand for an absent ref. */
  predicate StillHolds(names: Names, s: Store, name: string, oldOid: Option<string>) {
    if oldOid.None? || IsZeroOid(oldOid.value) || oldOid.value == "" then name !in s.refs
    else name in s.refs && Named(names, s, oldOid.value) == Some(s.refs[name])
  }

  /** `git update-ref name new old`, with `name` direct. */
  predicate SwapSucceeds(names: Names, s: Store, name: string, newOid: string, oldOid: Option<string>) {
    && StillHolds(names, s, name, oldOid)
    && (IsZeroOid(newOid)
        || (Named(names, s, newOid).Some? && CanHold(s, name, Named(names, s, newOid).value)))
  }

  function Swapped(names: Names, s: Store, name: string, newOid: string): Store
    requires IsZeroOid(newOid) || Named(names, s, newOid).Some?
  {
    s.(refs := if IsZeroOid(newOid) then s.refs - {name} else s.refs[name := Named(names, s, newOid).value])
  }

  predicate UpdateSucceeds(names: Names, s: Store, symrefs: map<string, string>, name: string, newOid: string,
                           oldOid: Option<string>) {
    var written := WrittenRef(symrefs, name);
    written.Some? && SwapSucceeds(names, s, written.value, newOid, oldOid)
  }

  function Updated(names: Names, s: Store, symrefs: map<string, string>, name: string, newOid: string): Store
    requires WrittenRef(symrefs, name).Some? && (IsZeroOid(newOid) || Named(names, s, newOid).Some?)
  {
    Swapped(names, s, WrittenRef(symrefs, name).value, newOid)
  }

  /** A fully qualified name; `wellFormed` is git's own check of ref names. */
  predicate ValidRefName(wellFormed: string -> bool, name: string) {
    && '\0' !in name && !("-" <= name) && "refs/" <= name && Slashes(name) >= 2 && wellFormed(name)
  }

  function Slashes(s: string): nat {
    if s == "" then 0 else (if s[0] == '/' then 1 else 0) + Slashes(s[1..])
  }

  /**
   Git's part in one update. An answer is `None` when git does not start, and a
   "no" may just as well come from a git that exits with an error. `hops` are
   the answers to "is this name a symbolic ref", `ancestry` the one to "is the
   old id an ancestor of the new one", should that be asked. `recorded` is the
   service's own bookkeeping after the write.
   */
  datatype Git = Git(hops: nat -> Option<bool>, ancestry: Option<bool>, carriedOut: bool, recorded: bool)

  predicate SaysYes(answer: Option<bool>) {
    answer.Some? && answer.value
  }

  predicate SaysNo(answer: Option<bool>) {
    answer.Some? && !answer.value
  }

  /** Where the service takes a chain of symbolic refs to end, within `depth` hops. */
  function Resolve(wellFormed: string -> bool, symrefs: map<string, string>, hops: nat -> Option<bool>, name: string,
                   depth: nat)
    : Result<string, Error>
    decreases depth
  {
    if depth == 0 then Err(CircularSymref)
    else if hops(depth).None? then Err(GitFailed)
    else if !hops(depth).value || name !in symrefs || symrefs[name] == "" || symrefs[name] == name then Ok(name)
    else if !ValidRefName(wellFormed, symrefs[name]) then Err(InvalidName)
    else Resolve(wellFormed, symrefs, hops, symrefs[name], depth - 1)
  }

  lemma ResolveNeverDenies(wellFormed: string -> bool, symrefs: map<string, string>, hops: nat -> Option<bool>,
                           name: string, depth: nat)
    ensures Resolve(wellFormed, symrefs, hops, name, depth) != Err(ProtectedRefDenied)
    decreases depth
  {
    if depth > 0 && name in symrefs {
      ResolveNeverDenies(wellFormed, symrefs, hops, symrefs[name], depth - 1);
    }
  }

  // ----- judged and written -----

  /** Git denies no symbolic ref of the chain from `name` on. */
  predicate AnswersTruly(symrefs: map<string, string>, hops: nat -> Option<bool>, name: string, depth: nat)
    decreases depth
  {
    depth > 0 && name in symrefs ==>
      SaysYes(hops(depth)) && AnswersTruly(symrefs, hops, symrefs[name], depth - 1)
  }

  /** Git writes nothing through a ref that points to itself or to nothing. */
  lemma {:induction false} LoopsLeadNowhere(symrefs: map<string, string>, name: string, depth: nat)
    requires name in symrefs && (symrefs[name] == name || symrefs[name] == "")
    ensures Written(symrefs, name, depth).None?
    decreases depth
  {
    if depth > 0 && symrefs[name] == name {
      LoopsLeadNowhere(symrefs, name, depth - 1);
    }
  }

  /** After true answers the service stops at the very ref git writes, however the chain was entered. */
  lemma {:induction false} TrueAnswersJudgeWhatIsWritten(
      wellFormed: string -> bool, symrefs: map<string, string>, hops: nat -> Option<bool>, name: string, depth: nat,
      gitDepth: nat)
    requires AnswersTruly(symrefs, hops, name, depth)
    ensures var target := Resolve(wellFormed, symrefs, hops, name, depth);
      && (target.Ok? && Written(symrefs, name, gitDepth).Some? ==>
            Written(symrefs, name, gitDepth) == Some(target.value))
      && (target.Ok? && WrittenRef(symrefs, target.value).Some? ==>
            WrittenRef(symrefs, target.value) == Some(target.value))
    decreases depth
  {
    hide ValidRefName;
    if depth > 0 && name in symrefs {
      if symrefs[name] == name || symrefs[name] == "" {
        LoopsLeadNowhere(symrefs, name, gitDepth);
        LoopsLeadNowhere(symrefs, name, GIT_SYMREF_DEPTH);
      } else if gitDepth > 0 {
        TrueAnswersJudgeWhatIsWritten(wellFormed, symrefs, hops, symrefs[name], depth - 1, gitDepth - 1);
      } else {
        TrueAnswersJudgeWhatIsWritten(wellFormed, symrefs, hops, symrefs[name], depth - 1, 0);
      }
    }
  }

  /** Git says of each name of the chain whether it is a symbolic ref, and the chain is one the service follows. */
  predicate AnswersFully(wellFormed: string -> bool, symrefs: map<string, string>, hops: nat -> Option<bool>,
                         name: string, depth: nat)
    decreases depth
  {
    depth > 0 ==>
      && hops(depth) == Some(name in symrefs)
      && (name in symrefs ==>
            && symrefs[name] != "" && symrefs[name] != name && ValidRefName(wellFormed, symrefs[name])
            && AnswersFully(wellFormed, symrefs, hops, symrefs[name], depth - 1))
  }

  /** Then the service finds the direct ref behind fewer than `depth` symbolic ones; longer ones are circular to it. */
  lemma {:induction false} FollowsChainsOfItsLength(wellFormed: string -> bool, symrefs: map<string, string>,
                                                    hops: nat -> Option<bool>, name: string, depth: nat)
    requires AnswersFully(wellFormed, symrefs, hops, name, depth)
    ensures Resolve(wellFormed, symrefs, hops, name, depth) ==
      if depth > 0 && Written(symrefs, name, depth - 1).Some? then Ok(Written(symrefs, name, depth - 1).value)
      else Err(CircularSymref)
    decreases depth
  {
    hide ValidRefName;
    if depth > 0 && name in symrefs {
      FollowsChainsOfItsLength(wellFormed, symrefs, hops, symrefs[name], depth - 1);
    }
  }

  /** Chains of up to seven symbolic refs are followed. */
  lemma FollowsSevenHops(repo: Repository, name: string, git: Git)
    requires AnswersFully(repo.wellFormed, repo.symrefs, git.hops, name, 8)
    ensures repo.Target(name, git) ==
      if Written(repo.symrefs, name, 7).Some? then Ok(Written(repo.symrefs, name, 7).value) else Err(CircularSymref)
  {
    FollowsChainsOfItsLength(repo.wellFormed, repo.symrefs, git.hops, name, 8);
    hide Resolve, AnswersFully;
  }

  /** A name is valid if it is below `refs/`, one level down at least, and git accepts it. */
  lemma {:induction false} SlashesAreCounted(s: string)
    ensures Slashes(s) >= 1 <==> '/' in s
    ensures Slashes(s) >= 2 <==> exists i: nat, j: nat :: i < j < |s| && s[i] == '/' && s[j] == '/'
    decreases |s|
  {
    if s != "" {
      SlashesAreCounted(s[1..]);
      assert forall k: nat | k < |s| - 1 :: s[1..][k] == s[k + 1];
      assert s == [s[0]] + s[1..];
      if s[0] == '/' && '/' in s[1..] {
        var j :| 0 <= j < |s| - 1 && s[1..][j] == '/';
        assert s[j + 1] == '/';
      }
      if i: nat, j: nat :| i < j < |s| - 1 && s[1..][i] == '/' && s[1..][j] == '/' {
        assert s[i + 1] == '/' && s[j + 1] == '/';
      }
      if i: nat, j: nat :| i < j < |s| && s[i] == '/' && s[j] == '/' {
        assert s[1..][j - 1] == '/';
        assert i > 0 ==> s[1..][i - 1] == '/';
      }
    }
  }

  lemma NamesAreValidExactlyWhen(wellFormed: string -> bool, name: string)
    ensures ValidRefName(wellFormed, name) <==>
      && '\0' !in name && |name| > 5 && name[..5] == "refs/" && wellFormed(name)
      && exists i: nat, j: nat :: i < j < |name| && name[i] == '/' && name[j] == '/'
  {
    SlashesAreCounted(name);
    hide Slashes;
    if "refs/" <= name {
      assert name[..5] == "refs/";
      assert name[0] == 'r' && name[1] == 'e' && name[2] == 'f' && name[3] == 's';
    }
  }

  /** Whatever the service follows a chain to is the name it was given or a valid one. */
  lemma {:induction false} ResolvedNamesAreValid(wellFormed: string -> bool, symrefs: map<string, string>,
                                                 hops: nat -> Option<bool>, name: string, depth: nat)
    ensures var target := Resolve(wellFormed, symrefs, hops, name, depth);
      target.Ok? ==> target.value == name || ValidRefName(wellFormed, target.value)
    decreases depth
  {
    hide ValidRefName;
    if depth > 0 && name in symrefs {
      ResolvedNamesAreValid(wellFormed, symrefs, hops, symrefs[name], depth - 1);
    }
  }

  /** A change with a predecessor counts as forced on tags, and on branches unless the ancestry was confirmed. */
  lemma ForcesExactlyWhen(name: string, newOid: string, oldOid: Option<string>, yes: bool)
    ensures var replaced := oldOid.Some? && !IsZeroOid(oldOid.value) && !IsZeroOid(newOid);
      && (AsksAncestry(name, newOid, oldOid) <==> replaced && "refs/heads/" <= name)
      && (IsForce(name, newOid, oldOid, yes) <==>
            replaced && ("refs/tags/" <= name || ("refs/heads/" <= name && !yes)))
      && (OperationOf(newOid, oldOid) ==
            if IsZeroOid(newOid) then Delete else if oldOid.Some? then Update else Create)
  {
    hide IsZeroOid;
    HeadsAreNotTags(name);
  }

  /** The checks of an update, one by one. */
  lemma DecidesExactlyWhen(rules: seq<Rule>, repo: Repository, actor: string, name: string, newOid: string,
                           oldOid: Option<string>, git: Git)
    ensures Decide(rules, repo, actor, name, newOid, oldOid, git).Ok? <==>
      && ValidRefName(repo.wellFormed, name) && repo.writable
      && repo.Target(name, git).Ok?
      && var target := repo.Target(name, git).value;
      && (AsksAncestry(target, newOid, oldOid) ==> git.ancestry.Some?)
      && forall rule | rule in rules ::
           RuleAllows(rule, Change(actor, target, OperationOf(newOid, oldOid),
                                   IsForce(target, newOid, oldOid, SaysYes(git.ancestry))))
  {
    hide ValidRefName, Resolve, RuleAllows, OperationOf, IsForce, AsksAncestry;
  }

  /** Nobody but the mirror deletes it or moves it off its line, and nobody does so to a tag. */
  predicate KeepsToTheRules(actor: string, written: string, newOid: string, oldOid: Option<string>, git: Git) {
    var deletes := IsZeroOid(newOid);
    var moves := oldOid.Some? && !IsZeroOid(oldOid.value);
    && (written == "refs/heads/main" && actor != "system:mirror" ==>
          !deletes && (moves ==> git.ancestry == Some(true)))
    && ("refs/tags/" <= written ==> !deletes && !moves)
  }

  /**
   Whatever alias an update is given, when git answers truly what the default
   rules let through keeps to them at the ref that is written.
   */
  lemma NoAliasGetsAroundTheRules(repo: Repository, actor: string, name: string, newOid: string,
                                  oldOid: Option<string>, git: Git)
    requires AnswersTruly(repo.symrefs, git.hops, name, MAX_SYMREF_DEPTH)
    requires Decide(DEFAULT_RULES, repo, actor, name, newOid, oldOid, git).Ok?
    ensures var target := Decide(DEFAULT_RULES, repo, actor, name, newOid, oldOid, git).value;
      && (WrittenRef(repo.symrefs, target).Some? ==>
            KeepsToTheRules(actor, WrittenRef(repo.symrefs, target).value, newOid, oldOid, git))
      && (WrittenRef(repo.symrefs, name).Some? ==>
            KeepsToTheRules(actor, WrittenRef(repo.symrefs, name).value, newOid, oldOid, git))
  {
    var target := Decide(DEFAULT_RULES, repo, actor, name, newOid, oldOid, git).value;
    TrueAnswersJudgeWhatIsWritten(repo.wellFormed, repo.symrefs, git.hops, name, MAX_SYMREF_DEPTH, GIT_SYMREF_DEPTH);
    hide ValidRefName, Resolve, RulesAllow, IsZeroOid, WrittenRef;
    DefaultRulesAllow(Change(actor, target, OperationOf(newOid, oldOid),
                             IsForce(target, newOid, oldOid, SaysYes(git.ancestry))));
    HeadsAreNotTags(target);
    assert HEADS <= MAIN;
  }

  // ----- the service -----

  /** The bare repository and how git reads it. */
  class Repository {
    var store: Store
    const symrefs: map<string, string>
    const wellFormed: string -> bool
    const names: Names
    const writable: bool

    constructor (store: Store, symrefs: map<string, string>, wellFormed: string -> bool, names: Names, writable: bool)
      ensures this.store == store && this.symrefs == symrefs
      ensures this.wellFormed == wellFormed && this.names == names && this.writable == writable
    {
      this.store, this.symrefs := store, symrefs;
      this.wellFormed, this.names, this.writable := wellFormed, names, writable;
    }

    function Target(name: string, git: Git): Result<string, Error> {
      Resolve(wellFormed, symrefs, git.hops, name, MAX_SYMREF_DEPTH)
    }
  }

  method ResolveSymbolicRef(repo: Repository, name: string, hops: nat -> Option<bool>)
    returns (r: Result<string, Error>)
    ensures r == Resolve(repo.wellFormed, repo.symrefs, hops, name, MAX_SYMREF_DEPTH)
  {
    var current := name;
    for hop := 0 to MAX_SYMREF_DEPTH
      invariant Resolve(repo.wellFormed, repo.symrefs, hops, name, MAX_SYMREF_DEPTH)
             == Resolve(repo.wellFormed, repo.symrefs, hops, current, MAX_SYMREF_DEPTH - hop)
    {
      var answer := hops(MAX_SYMREF_DEPTH - hop);
      if answer.None? {
        return Err(GitFailed);
      }
      if !answer.value || current !in repo.symrefs {
        return Ok(current);
      }
      var target := repo.symrefs[current];
      if target == "" || target == current {
        return Ok(current);
      }
      if !ValidRefName(repo.wellFormed, target) {
        return Err(InvalidName);
      }
      current := target;
    }
    r := Err(CircularSymref);
  }

  /** The name an update is judged under, or why it may not write. */
  function Decide(rules: seq<Rule>, repo: Repository, actor: string, name: string, newOid: string,
                  oldOid: Option<string>, git: Git)
    : Result<string, Error>
  {
    if !ValidRefName(repo.wellFormed, name) then Err(InvalidName)
    else if !repo.writable then Err(NotWritable)
    else
      match repo.Target(name, git)
      case Err(e) => Err(e)
      case Ok(target) =>
        var force := IsForce(target, newOid, oldOid, SaysYes(git.ancestry));
        if AsksAncestry(target, newOid, oldOid) && git.ancestry.None? then Err(GitFailed)
        else if RulesAllow(rules, Change(actor, target, OperationOf(newOid, oldOid), force)) then Ok(target)
        else Err(ProtectedRefDenied)
  }

  method EvaluateRules(rules: seq<Rule>, change: Change) returns (allowed: bool)
    ensures allowed <==> RulesAllow(rules, change)
  {
    for i := 0 to |rules|
      invariant RulesAllow(rules[..i], change)
    {
      if !RuleAllows(rules[i], change) {
        return false;
      }
    }
    assert rules[..|rules|] == rules;
    allowed := true;
  }

  /** A failed record leaves the ref moved. */
  method UpdateRef(rules: seq<Rule>, repo: Repository, actor: string, name: string, newOid: string,
                   oldOid: Option<string>, git: Git)
    returns (r: Result<(), Error>)
    modifies repo
    ensures var decided := Decide(rules, repo, actor, name, newOid, oldOid, git);
      var s := old(repo.store);
      if decided.Err? then r == Err(decided.error) && repo.store == s
      else if !git.carriedOut || !UpdateSucceeds(repo.names, s, repo.symrefs, decided.value, newOid, oldOid) then
        r == Err(UpdateFailed) && repo.store == s
      else
        && repo.store == Updated(repo.names, s, repo.symrefs, decided.value, newOid)
        && r == if git.recorded then Ok(()) else Err(RecordFailed)
  {
    hide ValidRefName, Resolve, RulesAllow, IsForce, AsksAncestry, IsZeroOid, StillHolds, Swapped, WrittenRef;
    if !ValidRefName(repo.wellFormed, name) {
      return Err(InvalidName);
    }
    if !repo.writable {
      return Err(NotWritable);
    }
    var resolved := ResolveSymbolicRef(repo, name, git.hops);
    if resolved.Err? {
      return Err(resolved.error);
    }
    var target := resolved.value;
    if AsksAncestry(target, newOid, oldOid) && git.ancestry.None? {
      return Err(GitFailed);
    }
    var force := IsForce(target, newOid, oldOid, SaysYes(git.ancestry));
    var change := Change(actor, target, OperationOf(newOid, oldOid), force);
    var allowed := EvaluateRules(rules, change);
    if !allowed {
      return Err(ProtectedRefDenied);
    }
    if !git.carriedOut || !UpdateSucceeds(repo.names, repo.store, repo.symrefs, target, newOid, oldOid) {
      return Err(UpdateFailed);
    }
    repo.store := Updated(repo.names, repo.store, repo.symrefs, target, newOid);
    r := if git.recorded then Ok(()) else Err(RecordFailed);
  }

  // ----- the merge -----

  datatype Merged = Merged(mergeOid: string, fastForward: bool)

  /**
   Git's part in a merge, before the update: does the base name a commit, does
   the head, is the base an ancestor of the head, and the commit git writes with
   both as parents, `None` on a conflict.
   */
  datatype MergeGit = MergeGit(baseFound: Option<bool>, headFound: Option<bool>, ff: Option<bool>, merged: Option<Oid>)

  /** What git says yes to is so, and it writes the commit it was asked for under its own whole id. */
  ghost predicate Honest(names: Names, s: Store, base: string, head: string, g: MergeGit) {
    && (SaysYes(g.baseFound) ==> CommitOf(names, s, base).Some?)
    && (SaysYes(g.headFound) ==> CommitOf(names, s, head).Some?)
    && (SaysYes(g.ff) ==> IsAncestorNow(names, s, base, head))
    && (g.merged.Some? ==> WritesMerge(names, s, base, head, g.merged.value))
  }

  predicate WritesMerge(names: Names, s: Store, base: string, head: string, oid: Oid) {
    && CommitOf(names, s, base).Some? && CommitOf(names, s, head).Some?
    && IsFullOid(oid) && !IsZeroOid(oid) && oid !in s.others
    && (oid in s.commits ==> s.commits[oid] == MergeParents(names, s, base, head))
  }

  function MergeParents(names: Names, s: Store, base: string, head: string): seq<Oid>
    requires CommitOf(names, s, base).Some? && CommitOf(names, s, head).Some?
  {
    [CommitOf(names, s, base).value, CommitOf(names, s, head).value]
  }

  /** What a merge may go on to write, before the ref is looked at. */
  function MergeResult(repo: Repository, baseRef: string, base: string, head: string, requireFastForward: bool,
                       g: MergeGit): Result<string, Error>
  {
    if !ValidRefName(repo.wellFormed, baseRef) then Err(InvalidName)
    else if !repo.writable then Err(NotWritable)
    else if IsZeroOid(base) || IsZeroOid(head) then Err(ZeroOid)
    else if g.baseFound.None? then Err(GitFailed)
    else if !g.baseFound.value then Err(NotACommit)
    else if g.headFound.None? then Err(GitFailed)
    else if !g.headFound.value then Err(NotACommit)
    else if g.ff.None? then Err(GitFailed)
    else if requireFastForward && !g.ff.value then Err(NonFastForwardRequired)
    else if g.ff.value then Ok(head)
    else if g.merged.None? then Err(MergeConflict)
    else Ok(g.merged.value)
  }

  /**
   A merge has something to write if and only if git found both commits, told
   whether the one is an ancestor of the other, and that is so where it has to
   be or a merge commit could be made.
   */
  lemma MergesExactlyWhen(repo: Repository, baseRef: string, base: string, head: string, requireFastForward: bool,
                          g: MergeGit)
    ensures var result := MergeResult(repo, baseRef, base, head, requireFastForward, g);
      && (result.Ok? <==>
            && ValidRefName(repo.wellFormed, baseRef) && repo.writable && !IsZeroOid(base) && !IsZeroOid(head)
            && SaysYes(g.baseFound) && SaysYes(g.headFound)
            && (SaysYes(g.ff) || (SaysNo(g.ff) && !requireFastForward && g.merged.Some?)))
      && (result.Ok? ==> result.value == if SaysYes(g.ff) then head else g.merged.value)
  {
    hide ValidRefName, IsZeroOid;
  }

  /** The repository when the merge comes to its update. */
  function Prepared(repo: Repository, s: Store, baseRef: string, base: string, head: string, requireFastForward: bool,
                    g: MergeGit): Store
    requires g.merged.Some? ==> WritesMerge(repo.names, s, base, head, g.merged.value)
  {
    if MergeResult(repo, baseRef, base, head, requireFastForward, g).Ok? && !g.ff.value then
      s.(commits := s.commits[g.merged.value := MergeParents(repo.names, s, base, head)])
    else s
  }

  /** A merge judged under `target` counts as a force update on tags, and on branches after a "no". */
  predicate MergeIsForce(target: string, git: Git) {
    TAGS <= target || (HEADS <= target && SaysNo(git.ancestry))
  }

  /** The default rules deny it on tags, and on main after a "no" to anyone but the mirror. */
  predicate MergeIsDenied(target: string, actor: string, git: Git) {
    TAGS <= target || (target == MAIN && actor != MIRROR && SaysNo(git.ancestry))
  }

  /** Everything of a merge before its update. */
  method PrepareMerge(repo: Repository, baseRef: string, base: string, head: string, requireFastForward: bool,
                      g: MergeGit)
    returns (r: Result<string, Error>)
    requires Honest(repo.names, repo.store, base, head, g)
    modifies repo
    ensures r == MergeResult(repo, baseRef, base, head, requireFastForward, g)
    ensures repo.store == Prepared(repo, old(repo.store), baseRef, base, head, requireFastForward, g)
  {
    hide ValidRefName, IsZeroOid, IsFullOid, CommitOf;
    if !ValidRefName(repo.wellFormed, baseRef) {
      return Err(InvalidName);
    }
    if !repo.writable {
      return Err(NotWritable);
    }
    if IsZeroOid(base) || IsZeroOid(head) {
      return Err(ZeroOid);
    }
    if g.baseFound.None? {
      return Err(GitFailed);
    }
    if !g.baseFound.value {
      return Err(NotACommit);
    }
    if g.headFound.None? {
      return Err(GitFailed);
    }
    if !g.headFound.value {
      return Err(NotACommit);
    }
    if g.ff.None? {
      return Err(GitFailed);
    }
    if requireFastForward && !g.ff.value {
      return Err(NonFastForwardRequired);
    }
    if g.ff.value {
      return Ok(head);
    }
    if g.merged.None? {
      return Err(MergeConflict);
    }
    var parents := MergeParents(repo.names, repo.store, base, head);
    repo.store := repo.store.(commits := repo.store.commits[g.merged.value := parents]);
    r := Ok(g.merged.value);
  }

  /**
   The server-side merge, which succeeds exactly when there is something to
   write, git answers when it is asked again, the rules allow the move, the ref
   still holds the base and the write is carried out and recorded.
   */
  method MergePull(rules: seq<Rule>, repo: Repository, actor: string, baseRef: string, base: string, head: string,
                   requireFastForward: bool, g: MergeGit, git: Git)
    returns (r: Result<Merged, Error>)
    requires StoreOk(repo.store) && Honest(repo.names, repo.store, base, head, g)
    modifies repo
    ensures Grows(old(repo.store), repo.store)
    ensures var result := MergeResult(repo, baseRef, base, head, requireFastForward, g);
      var target := repo.Target(baseRef, git);
      var s := Prepared(repo, old(repo.store), baseRef, base, head, requireFastForward, g);
      && (r.Ok? <==>
            && result.Ok? && target.Ok? && git.carriedOut && git.recorded
            && (AsksAncestry(target.value, result.value, Some(base)) ==> git.ancestry.Some?)
            && RulesAllow(rules, Change(actor, target.value, Update, MergeIsForce(target.value, git)))
            && UpdateSucceeds(repo.names, s, repo.symrefs, target.value, result.value, Some(base)))
      && (r.Ok? ==>
            && r.value == Merged(result.value, SaysYes(g.ff))
            && repo.store == Updated(repo.names, s, repo.symrefs, target.value, result.value))
      && (rules == DEFAULT_RULES ==>
            (r == Err(ProtectedRefDenied) <==> result.Ok? && target.Ok? && MergeIsDenied(target.value, actor, git)))
    ensures r.Ok? ==> MovesRef(repo, old(repo.store), repo.store, repo.Target(baseRef, git), base, head)
    ensures r.Ok? && requireFastForward ==> r.value.fastForward
    ensures r.Err? && r.error != RecordFailed ==> repo.store.refs == old(repo.store.refs)
  {
    hide Resolve, RulesAllow, HoldsBoth, Decide, ValidRefName, IsZeroOid, IsFullOid, CommitOf, StoreOk;
    hide MovesRef, UpdateSucceeds, WrittenRef, Named, MergeIsDenied, MergeIsForce, AsksAncestry, Prepared, WritesMerge;
    ghost var s0 := repo.store;
    var prepared := PrepareMerge(repo, baseRef, base, head, requireFastForward, g);
    PreparedHoldsBoth(repo, s0, baseRef, base, head, requireFastForward, g);
    if prepared.Err? {
      PreparingNeverDenies(repo, baseRef, base, head, requireFastForward, g);
      return Err(prepared.error);
    }
    var mergeOid := prepared.value;
    ghost var s := repo.store;
    ResultIsWritable(repo, s0, baseRef, base, head, requireFastForward, g);
    MergeIsDecided(rules, repo, actor, baseRef, mergeOid, base, git);
    MergeIsDeniedExactlyWhen(repo, actor, baseRef, mergeOid, base, git);
    var updated := UpdateRef(rules, repo, actor, baseRef, mergeOid, Some(base), git);
    if updated.Err? {
      return Err(updated.error);
    }
    UpdatingMovesRef(repo, s0, s, repo.Target(baseRef, git), mergeOid, base, head);
    r := Ok(Merged(mergeOid, g.ff.value));
  }

  /** The ref at the end of the chain held the base and now holds what has both commits in its history. */
  ghost predicate MovesRef(repo: Repository, s: Store, s': Store, target: Result<string, Error>, base: string,
                           head: string)
  {
    && target.Ok? && WrittenRef(repo.symrefs, target.value).Some?
    && var ref := WrittenRef(repo.symrefs, target.value).value;
    && ref in s.refs && ref in s'.refs && (IsFullOid(base) ==> s.refs[ref] == base)
    && s'.refs == s.refs[ref := s'.refs[ref]] && HoldsBoth(repo.names, s, s', s'.refs[ref], base, head)
  }

  /** `v` has the commits of both revisions, as they read in `s`, in its history. */
  ghost predicate HoldsBoth(names: Names, s: Store, s': Store, v: Oid, base: string, head: string) {
    && CommitOf(names, s, base).Some? && Descends(s', CommitOf(names, s, base).value, v)
    && CommitOf(names, s, head).Some? && Descends(s', CommitOf(names, s, head).value, v)
  }

  /** What a merge writes has both commits in its history. */
  lemma PreparedHoldsBoth(repo: Repository, s: Store, baseRef: string, base: string, head: string,
                          requireFastForward: bool, g: MergeGit)
    requires StoreOk(s) && Honest(repo.names, s, base, head, g)
    ensures var s' := Prepared(repo, s, baseRef, base, head, requireFastForward, g);
      var result := MergeResult(repo, baseRef, base, head, requireFastForward, g);
      && Grows(s, s') && s'.refs == s.refs && StoreOk(s')
      && (result.Ok? && Named(repo.names, s', result.value).Some? ==>
            HoldsBoth(repo.names, s, s', Named(repo.names, s', result.value).value, base, head))
  {
    hide IsZeroOid, IsFullOid, ValidRefName;
    var s' := Prepared(repo, s, baseRef, base, head, requireFastForward, g);
    var result := MergeResult(repo, baseRef, base, head, requireFastForward, g);
    if result.Ok? {
      var x, y := CommitOf(repo.names, s, base).value, CommitOf(repo.names, s, head).value;
      if g.ff.value {
        AncestorOfItself(s.commits, y);
      } else {
        ParentIsAncestor(s'.commits, x, g.merged.value);
        ParentIsAncestor(s'.commits, y, g.merged.value);
      }
    }
  }

  lemma PreparingNeverDenies(repo: Repository, baseRef: string, base: string, head: string, requireFastForward: bool,
                             g: MergeGit)
    ensures var result := MergeResult(repo, baseRef, base, head, requireFastForward, g);
      result != Err(ProtectedRefDenied) && result != Err(RecordFailed)
  {
    hide ValidRefName, IsZeroOid;
  }

  lemma ResultIsWritable(repo: Repository, s: Store, baseRef: string, base: string, head: string,
                         requireFastForward: bool, g: MergeGit)
    requires StoreOk(s) && Honest(repo.names, s, base, head, g)
    ensures var result := MergeResult(repo, baseRef, base, head, requireFastForward, g);
      result.Ok? ==>
        && ValidRefName(repo.wellFormed, baseRef) && repo.writable && !IsZeroOid(base) && !IsZeroOid(result.value)
        && g.ff.Some? && (requireFastForward ==> g.ff.value)
  {
    hide ValidRefName, IsZeroOid, CommitOf;
  }

  lemma UpdatingMovesRef(repo: Repository, s0: Store, s: Store, target: Result<string, Error>, mergeOid: string,
                         base: string, head: string)
    requires CommitOf(repo.names, s0, base).Some?
    requires s.refs == s0.refs && target.Ok? && !IsZeroOid(base) && !IsZeroOid(mergeOid)
    requires UpdateSucceeds(repo.names, s, repo.symrefs, target.value, mergeOid, Some(base))
    requires Named(repo.names, s, mergeOid).Some? ==>
      HoldsBoth(repo.names, s0, s, Named(repo.names, s, mergeOid).value, base, head)
    ensures MovesRef(repo, s0, Updated(repo.names, s, repo.symrefs, target.value, mergeOid), target, base, head)
  {
  }

  /** What the policy makes of a merge. */
  lemma MergeIsDecided(rules: seq<Rule>, repo: Repository, actor: string, name: string, newOid: string, base: string,
                       git: Git)
    requires !IsZeroOid(newOid) && !IsZeroOid(base) && ValidRefName(repo.wellFormed, name) && repo.writable
    ensures var target := repo.Target(name, git);
      var decided := Decide(rules, repo, actor, name, newOid, Some(base), git);
      && (decided.Ok? <==>
            && target.Ok? && (AsksAncestry(target.value, newOid, Some(base)) ==> git.ancestry.Some?)
            && RulesAllow(rules, Change(actor, target.value, Update, MergeIsForce(target.value, git))))
      && (decided.Ok? ==> decided == target)
  {
    hide RulesAllow, IsZeroOid, ValidRefName, Resolve;
    var target := repo.Target(name, git);
    if target.Ok? {
      HeadsAreNotTags(target.value);
    }
  }

  lemma HeadsAreNotTags(name: string)
    ensures HEADS <= name ==> !(TAGS <= name)
  {
    assert HEADS[5] != TAGS[5];
  }

  /**
   Under the default rules a merge is denied if and only if it is judged as a
   move of a tag, or of main by anyone but the mirror after git answered "no".
   */
  lemma MergeIsDeniedExactlyWhen(repo: Repository, actor: string, name: string, newOid: string, base: string,
                                 git: Git)
    requires !IsZeroOid(newOid) && !IsZeroOid(base) && ValidRefName(repo.wellFormed, name) && repo.writable
    ensures var target := repo.Target(name, git);
      Decide(DEFAULT_RULES, repo, actor, name, newOid, Some(base), git) == Err(ProtectedRefDenied)
      <==> target.Ok? && MergeIsDenied(target.value, actor, git)
  {
    hide IsZeroOid, ValidRefName, Resolve, RulesAllow;
    ResolveNeverDenies(repo.wellFormed, repo.symrefs, git.hops, name, MAX_SYMREF_DEPTH);
    var target := repo.Target(name, git);
    if target.Ok? {
      var force := IsForce(target.value, newOid, Some(base), SaysYes(git.ancestry));
      DefaultRulesAllow(Change(actor, target.value, OperationOf(newOid, Some(base)), force));
      assert HEADS <= MAIN;
      HeadsAreNotTags(target.value);
    }
  }

  /**
   With whole object ids the answer is a truthful "yes", so a "no" that denies a
   merge of main, or counts it as forced elsewhere, comes from a git that failed.
   */
  lemma MergeAncestryHolds(repo: Repository, s: Store, baseRef: string, base: string, head: string,
                           requireFastForward: bool, g: MergeGit)
    requires StoreOk(s) && Honest(repo.names, s, base, head, g) && IsFullOid(base)
    ensures var result := MergeResult(repo, baseRef, base, head, requireFastForward, g);
      result.Ok? ==>
        IsAncestorNow(repo.names, Prepared(repo, s, baseRef, base, head, requireFastForward, g), base, result.value)
  {
    PreparedHoldsBoth(repo, s, baseRef, base, head, requireFastForward, g);
    hide IsZeroOid, ValidRefName;
    var s' := Prepared(repo, s, baseRef, base, head, requireFastForward, g);
    var result := MergeResult(repo, baseRef, base, head, requireFastForward, g);
    if result.Ok? {
      PeeledStays(s, s', base);
      PeeledStays(s, s', CommitOf(repo.names, s, base).value);
    }
  }
}
