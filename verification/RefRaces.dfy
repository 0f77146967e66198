/**
 Runs that show why module RefInterleaving asks what it asks of the writers of
 main (crates/jeryu-gitd/src/refs.rs): ids that are names, git's failures, and
 symbolic refs.
 */
module RefRaces {
  import opened Common
  import opened CommitGraph
  import opened RefService
  import opened RefInterleaving

  const TOPIC := "refs/heads/topic"

  /** Git reads the name of a ref as what the ref holds. */
  function ByName(rev: string, s: Store): Option<Oid> {
    if rev in s.refs then Some(s.refs[rev]) else None
  }

  function SetupWith(symrefs: map<string, string>): Setup {
    Setup(name => true, ByName, symrefs, true)
  }

  predicate IsObject(a: Oid) {
    IsFullOid(a) && !IsZeroOid(a)
  }

  /** Three whole ids of three objects. */
  predicate Distinct(a: Oid, b: Oid, c: Oid) {
    && IsObject(a) && IsObject(b) && IsObject(c)
    && a != b && b != c && a != c
  }

  // ----- building runs -----

  function At(s: State, id: nat, pc: Pc): State {
    s.(calls := s.calls[id := pc])
  }

  /** The run leads from `s` to `t`. */
  ghost predicate Leads(k: Setup, run: seq<State>, s: State, t: State) {
    Steps(k, run) && run[0] == s && run[|run| - 1] == t
  }

  /** One call arrives and asks its questions while nothing else happens. */
  lemma CallRuns(k: Setup, s: State, id: nat, pcs: seq<Pc>) returns (run: seq<State>)
    requires id !in s.calls && |pcs| > 0 && Arrives(pcs[0])
    requires forall i | 0 <= i < |pcs| - 1 :: CallStep(k, s.store, s.store, pcs[i], pcs[i + 1])
    ensures Leads(k, run, s, At(s, id, pcs[|pcs| - 1])) && At(s, id, pcs[0]) in run
  {
    run := [s] + seq(|pcs|, i requires 0 <= i < |pcs| => At(s, id, pcs[i]));
    assert run[1] == At(s, id, pcs[0]);
    forall i | 0 <= i < |run| - 1 ensures Next(k, run[i], run[i + 1]) {
      if i == 0 {
        assert run[1].calls == s.calls[id := pcs[0]];
      } else {
        hide CallStep;
        assert run[i + 1].calls == run[i].calls[id := pcs[i]];
        assert CallStep(k, run[i].store, run[i + 1].store, run[i].calls[id], pcs[i]);
      }
    }
  }

  lemma Joined(k: Setup, a: seq<State>, b: seq<State>, s: State, t: State, u: State) returns (run: seq<State>)
    requires Leads(k, a, s, t) && Leads(k, b, t, u)
    ensures Leads(k, run, s, u) && t in run && forall x | x in a :: x in run
  {
    hide Next;
    run := a + b[1..];
    assert run[|a| - 1] == t;
    forall i | 0 <= i < |run| - 1 ensures Next(k, run[i], run[i + 1]) {
      if i < |a| - 1 {
        assert run[i] == a[i] && run[i + 1] == a[i + 1];
      } else {
        assert run[i] == b[i - |a| + 1] && run[i + 1] == b[i - |a| + 2];
      }
    }
  }

  /** The update passes every check in the repository as it is. */
  ghost predicate Passes(k: Setup, s: Store, u: UpdateCall, target: string, yes: bool) {
    && ValidRefName(k.wellFormed, u.name) && k.writable && ResolvesTo(k, u.name, target, u.name !in k.symrefs)
    && (yes && u.oldOid.Some? ==> IsAncestorNow(k.names, s, u.oldOid.value, u.newOid))
    && RulesAllow(DEFAULT_RULES, ChangeOf(u, target, yes))
  }

  /** An update comes as far as its write. */
  lemma UpdateIsAllowed(k: Setup, s: State, id: nat, u: UpdateCall, target: string, yes: bool)
    returns (run: seq<State>)
    requires id !in s.calls && Passes(k, s.store, u, target, yes)
    ensures Leads(k, run, s, At(s, id, Allowed(u, target, u.name !in k.symrefs, None)))
  {
    hide ValidRefName, ResolvesTo, RulesAllow, Leads, IsAncestorNow;
    var truly := u.name !in k.symrefs;
    run := CallRuns(k, s, id, [UpdateStart(u, None), Resolved(u, target, truly, None),
                               ForceKnown(u, target, truly, yes, None), Allowed(u, target, truly, None)]);
  }

  lemma WriteHappens(k: Setup, s: State, id: nat) returns (run: seq<State>)
    requires id in s.calls && s.calls[id].Allowed?
    requires var pc := s.calls[id]; UpdateSucceeds(k.names, s.store, k.symrefs, pc.target, pc.u.newOid, pc.u.oldOid)
    ensures var pc := s.calls[id];
      Leads(k, run, s, State(Updated(k.names, s.store, k.symrefs, pc.target, pc.u.newOid), s.calls[id := Done(Moved)]))
  {
    var pc := s.calls[id];
    hide UpdateSucceeds, Updated;
    var t := State(Updated(k.names, s.store, k.symrefs, pc.target, pc.u.newOid), s.calls[id := Done(Moved)]);
    assert CallStep(k, s.store, t.store, s.calls[id], Done(Moved));
    run := [s, t];
  }

  lemma TakenAsDirect(k: Setup, name: string)
    ensures ResolvesTo(k, name, name, name !in k.symrefs)
  {
    var hops := (depth: nat) => Some(false);
    assert Resolve(k.wellFormed, k.symrefs, hops, name, MAX_SYMREF_DEPTH) == Ok(name);
  }

  lemma {:induction false} SlashesAdd(a: string, b: string)
    ensures Slashes(a + b) == Slashes(a) + Slashes(b)
  {
    if a == "" {
      assert a + b == b;
    } else {
      SlashesAdd(a[1..], b);
      assert (a + b)[1..] == a[1..] + b;
    }
  }

  lemma HeadsHasTwoSlashes()
    ensures Slashes(HEADS) == 2
  {
    assert Slashes("refs/") == 1 && Slashes("heads/") == 1 && HEADS == "refs/" + "heads/";
    SlashesAdd("refs/", "heads/");
  }

  lemma BranchIsValid(wellFormed: string -> bool, branch: string)
    requires wellFormed(HEADS + branch) && '\0' !in branch
    ensures ValidRefName(wellFormed, HEADS + branch)
  {
    hide Slashes;
    HeadsHasTwoSlashes();
    SlashesAdd(HEADS, branch);
    assert '\0' !in HEADS && HEADS[0] == 'r';
    assert "refs/" <= HEADS <= HEADS + branch;
  }

  // ----- who is no ancestor -----

  lemma AncestorThroughAParent(g: Graph, a: Oid, b: Oid)
    requires Ancestor(g, a, b) && a != b
    ensures b in g && exists p :: p in g[b] && Ancestor(g, a, p)
  {
    var path :| IsPath(g, path) && path[0] == a && path[|path| - 1] == b;
    var init := path[..|path| - 1];
    assert IsPath(g, init) && init[0] == a;
    assert init[|init| - 1] in g[b] && Ancestor(g, a, init[|init| - 1]);
  }

  lemma RootsHaveNoAncestors(g: Graph, a: Oid, b: Oid)
    requires b in g && g[b] == [] && a != b
    ensures !Ancestor(g, a, b)
  {
    if Ancestor(g, a, b) {
      AncestorThroughAParent(g, a, b);
    }
  }

  /** Two children of one root. */
  lemma SiblingsAreUnrelated(g: Graph, a: Oid, b: Oid, c: Oid)
    requires a in g && b in g && g[a] == [] && g[b] == [a] && c != a && c != b
    ensures !Ancestor(g, c, b)
  {
    if Ancestor(g, c, b) {
      AncestorThroughAParent(g, c, b);
      RootsHaveNoAncestors(g, c, a);
    }
  }

  // ----- one call overtaken by another -----

  /** After `first` has brought `x` to its write, `y` passes its checks and writes, then `x` writes. */
  lemma Overtaken(k: Setup, s: Store, first: seq<State>, x: Pc, y: UpdateCall, targetY: string, yesY: bool)
    returns (run: seq<State>, i: nat)
    requires StoreOk(s) && x.Allowed? && Passes(k, s, y, targetY, yesY)
    requires Leads(k, first, State(s, map[]), At(State(s, map[]), 0, x))
    requires UpdateSucceeds(k.names, s, k.symrefs, targetY, y.newOid, y.oldOid)
    requires var mid := Updated(k.names, s, k.symrefs, targetY, y.newOid);
      UpdateSucceeds(k.names, mid, k.symrefs, x.target, x.u.newOid, x.u.oldOid)
    ensures var mid := Updated(k.names, s, k.symrefs, targetY, y.newOid);
      && Run(k, run) && i < |run| && run[0].store == s && run[i].store == mid
      && run[|run| - 1].store == Updated(k.names, mid, k.symrefs, x.target, x.u.newOid)
      && forall t | t in first :: t in run
  {
    hide WrittenRef, SwapSucceeds, Swapped, Passes, StoreOk, Leads, Named, IsZeroOid;
    SwapsNewId(k, s, targetY, y);
    SwapsNewId(k, Updated(k.names, s, k.symrefs, targetY, y.newOid), x.target, x.u);
    var mid := Updated(k.names, s, k.symrefs, targetY, y.newOid);
    var s0 := State(s, map[]);
    var s1 := At(s0, 0, x);
    var s2 := At(s1, 1, Allowed(y, targetY, y.name !in k.symrefs, None));
    var s3 := State(mid, s2.calls[1 := Done(Moved)]);
    var s4 := State(Updated(k.names, mid, k.symrefs, x.target, x.u.newOid), s3.calls[0 := Done(Moved)]);
    var next := UpdateIsAllowed(k, s1, 1, y, targetY, yesY);
    run := Joined(k, first, next, s0, s1, s2);
    next := WriteHappens(k, s2, 1);
    run := Joined(k, run, next, s0, s2, s3);
    next := WriteHappens(k, s3, 0);
    run := Joined(k, run, next, s0, s3, s4);
    LeadsIsARun(k, run, s0, s4);
    i :| 0 <= i < |run| && run[i] == s3;
  }

  lemma SwapsNewId(k: Setup, s: Store, target: string, u: UpdateCall)
    requires UpdateSucceeds(k.names, s, k.symrefs, target, u.newOid, u.oldOid)
    ensures IsZeroOid(u.newOid) || Named(k.names, s, u.newOid).Some?
  {
    hide Named, IsZeroOid, WrittenRef;
  }

  lemma LeadsIsARun(k: Setup, run: seq<State>, s: State, t: State)
    requires Leads(k, run, s, t) && s.calls == map[] && StoreOk(s.store)
    ensures Run(k, run) && run[0] == s && run[|run| - 1] == t
  {
    hide Next;
  }

  // ----- the runs -----

  /** Under the default rules a branch other than main is free, and main may be fast-forwarded. */
  lemma BranchUpdatePasses(k: Setup, s: Store, u: UpdateCall, branch: string, target: string, yes: bool)
    requires u.name == HEADS + branch && '\0' !in branch && k.wellFormed(u.name) && k.writable
    requires target == u.name && u.oldOid.Some? && !IsZeroOid(u.oldOid.value) && !IsZeroOid(u.newOid)
    requires yes ==> IsAncestorNow(k.names, s, u.oldOid.value, u.newOid)
    requires target == MAIN ==> yes
    ensures Passes(k, s, u, target, yes)
  {
    hide IsZeroOid, IsAncestorNow, ValidRefName, RulesAllow, ResolvesTo;
    BranchIsValid(k.wellFormed, branch);
    TakenAsDirect(k, target);
    assert HEADS <= target;
    HeadsAreNotTags(target);
    DefaultRulesAllow(ChangeOf(u, target, yes));
  }

  lemma BranchesAreNames()
    ensures MAIN == HEADS + "main" && TOPIC == HEADS + "topic" && MAIN != TOPIC
    ensures !IsFullOid(MAIN) && !IsZeroOid(MAIN) && !IsFullOid(TOPIC) && !IsZeroOid(TOPIC)
  {
    assert |MAIN| == 15 && |TOPIC| == 16;
  }

  /** A write of a direct ref that holds what the old id reads as. */
  lemma SwapOfADirectRef(k: Setup, s: Store, u: UpdateCall, target: string, oid: Oid)
    requires target !in k.symrefs && target in s.refs && oid in s.commits && !IsZeroOid(u.newOid)
    requires u.oldOid.Some? && !IsZeroOid(u.oldOid.value) && Named(k.names, s, u.oldOid.value) == Some(s.refs[target])
    requires Named(k.names, s, u.newOid) == Some(oid)
    ensures UpdateSucceeds(k.names, s, k.symrefs, target, u.newOid, u.oldOid)
    ensures Updated(k.names, s, k.symrefs, target, u.newOid) == s.(refs := s.refs[target := oid])
  {
    hide IsZeroOid;
    assert WrittenRef(k.symrefs, target) == Some(target);
  }

  /** How the ids of these runs read. */
  lemma Reads(k: Setup, s: Store, rev: string, oid: Oid)
    requires k.names == ByName && oid in s.commits
    requires (IsFullOid(rev) && oid == rev) || (!IsFullOid(rev) && rev != "" && rev in s.refs && oid == s.refs[rev])
    ensures Named(k.names, s, rev) == Some(oid) && CommitOf(k.names, s, rev) == Some(oid)
  {
    hide IsFullOid;
  }

  /** Main moved from `x` to `y`, which does not descend from it. */
  lemma MovedAside(s: Store, s': Store, x: Oid, y: Oid)
    requires MAIN in s.refs && s.refs[MAIN] == x && MAIN in s'.refs && s'.refs[MAIN] == y
    requires x in s'.commits && y in s'.commits && !Ancestor(s'.commits, x, y)
    ensures !MainAdvances(s, s')
  {
  }

  /**
   A new id that is the name of a branch: alice fast-forwards main to a topic,
   bob forces the topic elsewhere after her policy check, and main follows it to
   a commit that does not descend from the old one.
   */
  lemma NewIdByName(a: Oid, b: Oid, c: Oid) returns (k: Setup, run: seq<State>)
    requires Distinct(a, b, c)
    ensures Run(k, run) && k.symrefs == map[]
    ensures !MainAdvances(run[0].store, run[|run| - 1].store)
  {
    hide IsFullOid, IsZeroOid, Named, CommitOf, Run, MainAdvances, Passes, UpdateSucceeds, Updated, Leads;
    k := SetupWith(map[]);
    var s := Store(map[a := [], b := [a], c := []], map[], map[MAIN := a, TOPIC := b]);
    var alice, bob := UpdateCall("alice", MAIN, TOPIC, Some(a)), UpdateCall("bob", TOPIC, c, Some(b));
    BranchesAreNames();
    Reads(k, s, a, a);
    Reads(k, s, b, b);
    Reads(k, s, c, c);
    Reads(k, s, TOPIC, b);
    ParentIsAncestor(s.commits, a, b);
    BranchUpdatePasses(k, s, alice, "main", MAIN, true);
    BranchUpdatePasses(k, s, bob, "topic", TOPIC, false);
    SwapOfADirectRef(k, s, bob, TOPIC, c);
    var mid := s.(refs := s.refs[TOPIC := c]);
    Reads(k, mid, a, a);
    Reads(k, mid, TOPIC, c);
    SwapOfADirectRef(k, mid, alice, MAIN, c);
    var i: nat;
    run := UpdateIsAllowed(k, State(s, map[]), 0, alice, MAIN, true);
    run, i := Overtaken(k, s, run, Allowed(alice, MAIN, true, None), bob, TOPIC, false);
    RootsHaveNoAncestors(s.commits, a, c);
    MovedAside(s, mid.(refs := mid.refs[MAIN := c]), a, c);
  }

  /**
   A base that is the name of main itself: the merge does not fail when main
   advances after its policy check, because whatever main then holds is taken
   for the predecessor, and main loses it.
   */
  lemma MergeBaseByName(a: Oid, b: Oid, c: Oid) returns (k: Setup, run: seq<State>, i: nat)
    requires Distinct(a, b, c)
    ensures Run(k, run) && k.symrefs == map[]
    ensures exists t :: t in run && t.calls == map[0 := MergeStart(MergeCall("alice", MAIN, MAIN, b, true))]
    ensures i < |run| && !MainAdvances(run[i].store, run[|run| - 1].store)
  {
    hide IsFullOid, IsZeroOid, Named, CommitOf, Run, MainAdvances, Passes, UpdateSucceeds, Updated, Leads;
    hide ValidRefName, RulesAllow, ResolvesTo;
    k := SetupWith(map[]);
    var s := Store(map[a := [], b := [a], c := [a]], map[], map[MAIN := a]);
    var m := MergeCall("alice", MAIN, MAIN, b, true);
    var alice, bob := UpdateCall("alice", MAIN, b, Some(MAIN)), UpdateCall("bob", MAIN, c, Some(a));
    BranchesAreNames();
    Reads(k, s, a, a);
    Reads(k, s, b, b);
    Reads(k, s, c, c);
    Reads(k, s, MAIN, a);
    ParentIsAncestor(s.commits, a, b);
    ParentIsAncestor(s.commits, a, c);
    BranchIsValid(k.wellFormed, "main");
    TakenAsDirect(k, MAIN);
    MainAndTheAnswer(alice, true);
    run := MergeRuns(k, State(s, map[]), 0, m, alice, true);
    BranchUpdatePasses(k, s, bob, "main", MAIN, true);
    SwapOfADirectRef(k, s, bob, MAIN, c);
    var mid := s.(refs := s.refs[MAIN := c]);
    Reads(k, mid, b, b);
    Reads(k, mid, MAIN, c);
    SwapOfADirectRef(k, mid, alice, MAIN, b);
    run, i := Overtaken(k, s, run, Allowed(alice, MAIN, true, Some(m)), bob, MAIN, true);
    SiblingsAreUnrelated(s.commits, a, b, c);
    MovedAside(mid, mid.(refs := mid.refs[MAIN := b]), c, b);
  }

  /**
   A symbolic ref: when the question whether `alias` is one fails, the update is
   judged as one of a free branch, and git writes through it to main.
   */
  lemma AliasTakenAsDirect(a: Oid, b: Oid, c: Oid) returns (k: Setup, run: seq<State>)
    requires Distinct(a, b, c)
    ensures Run(k, run) && k.symrefs == map[TOPIC := MAIN]
    ensures !MainAdvances(run[0].store, run[|run| - 1].store)
  {
    hide IsFullOid, IsZeroOid, Named, CommitOf, Run, MainAdvances, Passes, UpdateSucceeds, Updated, WrittenRef, Leads;
    k := SetupWith(map[TOPIC := MAIN]);
    var s := Store(map[a := [], c := []], map[], map[MAIN := a]);
    var alice := UpdateCall("alice", TOPIC, c, Some(a));
    BranchesAreNames();
    Reads(k, s, a, a);
    Reads(k, s, c, c);
    BranchUpdatePasses(k, s, alice, "topic", TOPIC, false);
    var s0 := State(s, map[]);
    var s1 := At(s0, 0, Allowed(alice, TOPIC, false, None));
    run := UpdateIsAllowed(k, s0, 0, alice, TOPIC, false);
    SwapOfADirectRef(k, s, alice, MAIN, c);
    ThroughAnAlias(k, s, alice, TOPIC, MAIN);
    var next := WriteHappens(k, s1, 0);
    var s2 := State(s.(refs := s.refs[MAIN := c]), s1.calls[0 := Done(Moved)]);
    run := Joined(k, run, next, s0, s1, s2);
    LeadsIsARun(k, run, s0, s2);
    RootsHaveNoAncestors(s.commits, a, c);
    MovedAside(s, s2.store, a, c);
  }

  /** Git writes through a symbolic ref as it writes the ref itself. */
  lemma ThroughAnAlias(k: Setup, s: Store, u: UpdateCall, name: string, target: string)
    requires name in k.symrefs && k.symrefs[name] == target && target != "" && target !in k.symrefs
    requires UpdateSucceeds(k.names, s, k.symrefs, target, u.newOid, u.oldOid)
    ensures UpdateSucceeds(k.names, s, k.symrefs, name, u.newOid, u.oldOid)
    ensures Updated(k.names, s, k.symrefs, name, u.newOid) == Updated(k.names, s, k.symrefs, target, u.newOid)
  {
    hide Named, IsZeroOid, SwapSucceeds;
    assert WrittenRef(k.symrefs, name) == WrittenRef(k.symrefs, target);
  }

  /** A fast-forward of main with whole object ids that is denied, because git fails at the second question. */
  lemma FastForwardOfMainDenied(a: Oid, b: Oid) returns (k: Setup, run: seq<State>)
    requires IsObject(a) && IsObject(b) && a != b
    ensures var m := MergeCall("alice", MAIN, a, b, true);
      && Run(k, run) && Descends(run[0].store, a, b) && MAIN in run[0].store.refs && run[0].store.refs[MAIN] == a
      && run[|run| - 1] == State(run[0].store, map[0 := Done(Denied)])
      && exists t :: t in run && t.calls == map[0 := MergeStart(m)]
  {
    hide IsFullOid, IsZeroOid, Named, CommitOf, ValidRefName, RulesAllow, ResolvesTo, Leads, Run;
    k := SetupWith(map[]);
    var s := Store(map[a := [], b := [a]], map[], map[MAIN := a]);
    var m := MergeCall("alice", MAIN, a, b, true);
    var u := UpdateCall("alice", MAIN, b, Some(a));
    Reads(k, s, a, a);
    Reads(k, s, b, b);
    ParentIsAncestor(s.commits, a, b);
    BranchesAreNames();
    BranchIsValid(k.wellFormed, "main");
    TakenAsDirect(k, MAIN);
    MainAndTheAnswer(u, false);
    run := MergeRuns(k, State(s, map[]), 0, m, u, false);
    LeadsIsARun(k, run, State(s, map[]), At(State(s, map[]), 0, Done(Denied)));
  }

  /** Git's answer decides whether anyone but the mirror may move main. */
  lemma MainAndTheAnswer(u: UpdateCall, yes: bool)
    requires u.actor != MIRROR && u.oldOid.Some? && !IsZeroOid(u.oldOid.value) && !IsZeroOid(u.newOid)
    ensures RulesAllow(DEFAULT_RULES, ChangeOf(u, MAIN, yes)) <==> yes
  {
    hide IsZeroOid, RulesAllow;
    assert HEADS <= MAIN;
    HeadsAreNotTags(MAIN);
    DefaultRulesAllow(ChangeOf(u, MAIN, yes));
  }

  /** A fast-forward comes as far as the answer to its second ancestry question lets it. */
  lemma MergeRuns(k: Setup, s: State, id: nat, m: MergeCall, u: UpdateCall, yes: bool) returns (run: seq<State>)
    requires id !in s.calls && u == UpdateCall(m.actor, m.baseRef, m.head, Some(m.base))
    requires ValidRefName(k.wellFormed, m.baseRef) && k.writable && ResolvesTo(k, m.baseRef, MAIN, true)
    requires !IsZeroOid(m.base) && !IsZeroOid(m.head) && IsAncestorNow(k.names, s.store, m.base, m.head)
    requires RulesAllow(DEFAULT_RULES, ChangeOf(u, MAIN, yes)) <==> yes
    ensures Leads(k, run, s, At(s, id, if yes then Allowed(u, MAIN, true, Some(m)) else Done(Denied)))
    ensures At(s, id, MergeStart(m)) in run
  {
    hide IsZeroOid, ValidRefName, RulesAllow, ResolvesTo, Leads;
    run := CallRuns(k, s, id, [MergeStart(m), BaseVerified(m), HeadVerified(m), AncestryKnown(m, true),
                               UpdateStart(u, Some(m)), Resolved(u, MAIN, true, Some(m)),
                               ForceKnown(u, MAIN, true, yes, Some(m)),
                               if yes then Allowed(u, MAIN, true, Some(m)) else Done(Denied)]);
  }
}
