/**
 Any number of ref updates and merges at once (crates/jeryu-gitd/src/refs.rs).

 Each call is cut at every question it asks git. Nothing locks the policy check
 and the write together: between any two steps of a call, other calls and
 uploads of new objects may run, and a name may come to mean something else.
 Only the final compare-and-swap is atomic.
 */
module RefInterleaving {
  import opened Common
  import opened CommitGraph
  import opened RefService

  datatype UpdateCall = UpdateCall(actor: string, name: string, newOid: string, oldOid: Option<string>)

  datatype MergeCall = MergeCall(actor: string, baseRef: string, base: string, head: string, requireFastForward: bool)

  /** `Refused` is every error but a denial by the rules, also one that follows the write. */
  datatype Outcome = Moved | Denied | Refused

  /**
   Where a call is; `merge` remembers the merge an update finishes, `truly` that
   git denied no symbolic ref on the way, `yes` what it said of the ancestry.
   */
  datatype Pc =
    | MergeStart(m: MergeCall)
    | BaseVerified(m: MergeCall)
    | HeadVerified(m: MergeCall)
    | AncestryKnown(m: MergeCall, ff: bool)
    | UpdateStart(u: UpdateCall, merge: Option<MergeCall>)
    | Resolved(u: UpdateCall, target: string, truly: bool, merge: Option<MergeCall>)
    | ForceKnown(u: UpdateCall, target: string, truly: bool, yes: bool, merge: Option<MergeCall>)
    | Allowed(u: UpdateCall, target: string, truly: bool, merge: Option<MergeCall>)
    | Done(outcome: Outcome)

  datatype State = State(store: Store, calls: map<nat, Pc>)

  /** Fixed for a run: git's name check and reading of revisions, the symbolic refs, and whether one may write. */
  datatype Setup = Setup(wellFormed: string -> bool, names: Names, symrefs: map<string, string>, writable: bool)

  // ----- steps -----

  predicate AsksGit(pc: Pc) {
    match pc
    case Resolved(u, target, _, _) => AsksAncestry(target, u.newOid, u.oldOid)
    case ForceKnown(_, _, _, _, _) => false
    case Done(_) => false
    case _ => true
  }

  /** A resolution some answers of git lead to. */
  ghost predicate ResolvesTo(k: Setup, name: string, target: string, truly: bool) {
    exists hops ::
      && Resolve(k.wellFormed, k.symrefs, hops, name, MAX_SYMREF_DEPTH) == Ok(target)
      && (truly <==> AnswersTruly(k.symrefs, hops, name, MAX_SYMREF_DEPTH))
  }

  /** The call goes on. Whatever git says yes to is so; a "no" says nothing, as git may have failed. */
  ghost predicate GoesOn(k: Setup, s: Store, s': Store, pc: Pc, pc': Pc) {
    match pc
    case MergeStart(m) =>
      && s' == s && pc' == BaseVerified(m)
      && ValidRefName(k.wellFormed, m.baseRef) && k.writable && !IsZeroOid(m.base) && !IsZeroOid(m.head)
      && CommitOf(k.names, s, m.base).Some?
    case BaseVerified(m) => s' == s && pc' == HeadVerified(m) && CommitOf(k.names, s, m.head).Some?
    case HeadVerified(m) =>
      && s' == s && pc'.AncestryKnown? && pc'.m == m
      && (pc'.ff ==> IsAncestorNow(k.names, s, m.base, m.head))
    case AncestryKnown(m, ff) =>
      && (m.requireFastForward ==> ff)
      && pc'.UpdateStart? && pc'.merge == Some(m)
      && pc'.u == UpdateCall(m.actor, m.baseRef, pc'.u.newOid, Some(m.base))
      && if ff then s' == s && pc'.u.newOid == m.head
         else
           && WritesMerge(k.names, s, m.base, m.head, pc'.u.newOid)
           && s' == s.(commits := s.commits[pc'.u.newOid := MergeParents(k.names, s, m.base, m.head)])
    case UpdateStart(u, merge) =>
      && s' == s && pc'.Resolved? && pc' == Resolved(u, pc'.target, pc'.truly, merge)
      && ValidRefName(k.wellFormed, u.name) && k.writable && ResolvesTo(k, u.name, pc'.target, pc'.truly)
    case Resolved(u, target, truly, merge) =>
      && s' == s && pc'.ForceKnown? && pc' == ForceKnown(u, target, truly, pc'.yes, merge)
      && (pc'.yes && u.oldOid.Some? ==> IsAncestorNow(k.names, s, u.oldOid.value, u.newOid))
    case ForceKnown(u, target, truly, yes, merge) =>
      && s' == s
      && pc' == (if RulesAllow(DEFAULT_RULES, ChangeOf(u, target, yes)) then Allowed(u, target, truly, merge)
                 else Done(Denied))
    case Allowed(u, target, _, _) =>
      && UpdateSucceeds(k.names, s, k.symrefs, target, u.newOid, u.oldOid)
      && s' == Updated(k.names, s, k.symrefs, target, u.newOid)
      && pc' in {Done(Moved), Done(Refused)}
    case Done(_) => false
  }

  function ChangeOf(u: UpdateCall, target: string, yes: bool): Change {
    Change(u.actor, target, OperationOf(u.newOid, u.oldOid), IsForce(target, u.newOid, u.oldOid, yes))
  }

  /** Every question may end the call: by its answer, or because git does not start. */
  ghost predicate CallStep(k: Setup, s: Store, s': Store, pc: Pc, pc': Pc) {
    || GoesOn(k, s, s', pc, pc')
    || (AsksGit(pc) && s' == s && pc' == Done(Refused))
  }

  /** Uploads are content addressed: a new object, or one that is already there. */
  ghost predicate UploadsCommit(s: Store, s': Store, oid: Oid, parents: seq<Oid>) {
    && !IsZeroOid(oid) && oid !in s.others && (oid in s.commits ==> s.commits[oid] == parents)
    && s' == s.(commits := s.commits[oid := parents])
  }

  ghost predicate UploadsOther(s: Store, s': Store, oid: Oid, peeled: Option<Oid>) {
    && !IsZeroOid(oid) && oid !in s.commits && (oid in s.others ==> s.others[oid] == peeled)
    && (peeled.Some? ==> peeled.value in s.commits)
    && s' == s.(others := s.others[oid := peeled])
  }

  ghost predicate Uploads(s: Store, s': Store) {
    || (exists oid, parents :: UploadsCommit(s, s', oid, parents))
    || (exists oid, peeled :: UploadsOther(s, s', oid, peeled))
  }

  /** A new request, by anyone and with any ids. */
  predicate Arrives(pc: Pc) {
    (pc.UpdateStart? && pc.merge == None) || pc.MergeStart?
  }

  ghost predicate Next(k: Setup, s: State, s': State) {
    || (exists id: nat, pc' :: id in s.calls && s'.calls == s.calls[id := pc']
          && CallStep(k, s.store, s'.store, s.calls[id], pc'))
    || (s'.calls == s.calls && Uploads(s.store, s'.store))
    || (exists id: nat, pc :: id !in s.calls && Arrives(pc) && s' == s.(calls := s.calls[id := pc]))
  }

  ghost predicate Steps(k: Setup, run: seq<State>) {
    run != [] && forall i | 0 <= i < |run| - 1 :: Next(k, run[i], run[i + 1])
  }

  ghost predicate Init(s: State) {
    s.calls == map[] && StoreOk(s.store)
  }

  ghost predicate Run(k: Setup, run: seq<State>) {
    Steps(k, run) && Init(run[0])
  }

  // ----- the invariant -----

  /** What a merge with whole object ids has established of the commit it goes on to write. */
  ghost predicate MergeFacts(s: Store, m: MergeCall, u: UpdateCall) {
    && u.oldOid == Some(m.base) && u.actor == m.actor && u.name == m.baseRef
    && !IsZeroOid(m.base) && !IsZeroOid(u.newOid)
    && (IsFullOid(m.base) && IsFullOid(m.head) ==>
          IsFullOid(u.newOid) && Descends(s, m.base, u.newOid) && Descends(s, m.head, u.newOid))
  }

  predicate HasFullIds(u: UpdateCall) {
    IsFullOid(u.newOid) && (u.oldOid.Some? ==> IsFullOid(u.oldOid.value))
  }

  /** Of whole object ids a "yes" stays true. */
  ghost predicate YesIsSettled(s: Store, u: UpdateCall, yes: bool) {
    yes && HasFullIds(u) && u.oldOid.Some? ==> Descends(s, u.oldOid.value, u.newOid)
  }

  /** What a passed policy check still guarantees when the write happens, however much later. */
  ghost predicate WriteIsSafe(s: Store, u: UpdateCall, target: string) {
    && (TAGS <= target ==> !IsZeroOid(u.newOid) && (u.oldOid.None? || IsZeroOid(u.oldOid.value)))
    && (target == MAIN && u.actor != MIRROR ==>
          && !IsZeroOid(u.newOid)
          && (HasFullIds(u) && u.oldOid.Some? && !IsZeroOid(u.oldOid.value) ==>
                Descends(s, u.oldOid.value, u.newOid)))
  }

  predicate HasIds(m: MergeCall) {
    !IsZeroOid(m.base) && !IsZeroOid(m.head)
  }

  ghost predicate UpdateInv(s: Store, u: UpdateCall, merge: Option<MergeCall>) {
    merge.Some? ==> MergeFacts(s, merge.value, u)
  }

  ghost predicate CallInv(k: Setup, s: Store, pc: Pc) {
    match pc
    case MergeStart(_) => true
    case BaseVerified(m) => HasIds(m)
    case HeadVerified(m) => HasIds(m)
    case AncestryKnown(m, ff) =>
      HasIds(m) && (ff && IsFullOid(m.base) && IsFullOid(m.head) ==> Descends(s, m.base, m.head))
    case UpdateStart(u, merge) => UpdateInv(s, u, merge)
    case Resolved(u, target, truly, merge) => UpdateInv(s, u, merge) && ResolvesTo(k, u.name, target, truly)
    case ForceKnown(u, target, truly, yes, merge) =>
      UpdateInv(s, u, merge) && ResolvesTo(k, u.name, target, truly) && YesIsSettled(s, u, yes)
    case Allowed(u, target, truly, merge) =>
      UpdateInv(s, u, merge) && ResolvesTo(k, u.name, target, truly) && WriteIsSafe(s, u, target)
    case Done(_) => true
  }

  ghost predicate Inv(k: Setup, s: State) {
    StoreOk(s.store) && forall id | id in s.calls :: CallInv(k, s.store, s.calls[id])
  }

  /** What may become of the objects, of main and of the tags. */
  ghost predicate MainAdvances(s: Store, s': Store) {
    MAIN in s.refs ==> MAIN in s'.refs && Descends(s', s.refs[MAIN], s'.refs[MAIN])
  }

  predicate TagsStay(s: Store, s': Store) {
    forall t | t in s.refs && TAGS <= t :: t in s'.refs && s'.refs[t] == s.refs[t]
  }

  // ----- who may write main and the tags -----

  /**
   A call about to write main had true answers on the way there, and neither
   comes from the mirror nor names its commits by anything but whole object ids.
   */
  predicate CarefulWithMain(k: Setup, pc: Pc) {
    pc.Allowed? && WrittenRef(k.symrefs, pc.target) == Some(MAIN) ==>
      pc.truly && pc.u.actor != MIRROR && HasFullIds(pc.u)
  }

  /** A call about to write a tag had true answers on the way there. */
  predicate CarefulWithTags(k: Setup, pc: Pc) {
    var written := if pc.Allowed? then WrittenRef(k.symrefs, pc.target) else None;
    written.Some? && TAGS <= written.value ==> pc.truly
  }

  ghost predicate AllCarefulWithMain(k: Setup, run: seq<State>) {
    forall i, id | 0 <= i < |run| && id in run[i].calls :: CarefulWithMain(k, run[i].calls[id])
  }

  ghost predicate AllCarefulWithTags(k: Setup, run: seq<State>) {
    forall i, id | 0 <= i < |run| && id in run[i].calls :: CarefulWithTags(k, run[i].calls[id])
  }

  // ----- preservation -----

  lemma CallInvSurvives(k: Setup, s: Store, s': Store, pc: Pc)
    requires CallInv(k, s, pc) && Grows(s, s') && StoreOk(s) && StoreOk(s')
    ensures CallInv(k, s', pc)
  {
    forall a, b | Descends(s, a, b) ensures Descends(s', a, b) {
      DescendsStays(s, s', a, b);
    }
    forall o | Peeled(s, o).Some? ensures Peeled(s', o).Some? {
      PeeledStays(s, s', o);
    }
    hide Descends, Peeled, IsFullOid, IsZeroOid, StoreOk, Grows, ResolvesTo;
  }

  /** Objects are only added, whatever happens. */
  lemma StepGrows(k: Setup, s: Store, s': Store, pc: Pc, pc': Pc)
    requires StoreOk(s) && CallStep(k, s, s', pc, pc')
    ensures Grows(s, s') && StoreOk(s')
  {
    hide IsZeroOid, IsFullOid, ValidRefName, RulesAllow, WrittenRef, ResolvesTo;
    if s' != s {
      if pc.Allowed? {
        SwapKeepsStore(k, s, pc);
      } else {
        assert pc.AncestryKnown?;
      }
    }
  }

  lemma SwapKeepsStore(k: Setup, s: Store, pc: Pc)
    requires StoreOk(s) && pc.Allowed? && UpdateSucceeds(k.names, s, k.symrefs, pc.target, pc.u.newOid, pc.u.oldOid)
    ensures StoreOk(Updated(k.names, s, k.symrefs, pc.target, pc.u.newOid))
    ensures Grows(s, Updated(k.names, s, k.symrefs, pc.target, pc.u.newOid))
  {
    hide IsZeroOid, IsFullOid, WrittenRef;
  }

  lemma UploadGrows(s: Store, s': Store)
    requires StoreOk(s) && Uploads(s, s')
    ensures Grows(s, s') && StoreOk(s') && s'.refs == s.refs
  {
    hide IsZeroOid;
  }

  lemma MergeStepKeepsFacts(k: Setup, s: Store, s': Store, pc: Pc, pc': Pc)
    requires StoreOk(s) && pc.AncestryKnown? && CallInv(k, s, pc) && GoesOn(k, s, s', pc, pc')
    ensures CallInv(k, s', pc')
  {
    hide IsZeroOid, IsFullOid;
    var m, oid := pc.m, pc'.u.newOid;
    if IsFullOid(m.base) && IsFullOid(m.head) {
      if pc.ff {
        AncestorOfItself(s.commits, Peeled(s, m.head).value);
      } else {
        var x, y := Peeled(s, m.base).value, Peeled(s, m.head).value;
        ParentIsAncestor(s'.commits, x, oid);
        ParentIsAncestor(s'.commits, y, oid);
      }
    }
  }

  lemma AnswerStepSettles(k: Setup, s: Store, s': Store, pc: Pc, pc': Pc)
    requires (pc.Resolved? || pc.HeadVerified?) && CallInv(k, s, pc) && GoesOn(k, s, s', pc, pc')
    ensures CallInv(k, s', pc')
  {
    hide IsZeroOid, ResolvesTo;
  }

  lemma PolicyStepIsSafe(k: Setup, s: Store, s': Store, pc: Pc, pc': Pc)
    requires pc.ForceKnown? && CallInv(k, s, pc) && GoesOn(k, s, s', pc, pc')
    ensures CallInv(k, s', pc')
  {
    hide IsZeroOid, IsFullOid, RulesAllow, ResolvesTo;
    DefaultRulesAllow(ChangeOf(pc.u, pc.target, pc.yes));
    HeadsAreNotTags(MAIN);
    assert HEADS <= MAIN;
  }

  lemma CallStepKeeps(k: Setup, s: Store, s': Store, pc: Pc, pc': Pc)
    requires StoreOk(s) && CallInv(k, s, pc) && CallStep(k, s, s', pc, pc')
    ensures CallInv(k, s', pc')
  {
    hide IsZeroOid, IsFullOid, ValidRefName, RulesAllow, ResolvesTo, UpdateSucceeds, Updated, WritesMerge;
    if !(AsksGit(pc) && pc' == Done(Refused)) {
      match pc
      case AncestryKnown(_, _) => MergeStepKeepsFacts(k, s, s', pc, pc');
      case Resolved(_, _, _, _) => AnswerStepSettles(k, s, s', pc, pc');
      case HeadVerified(_) => AnswerStepSettles(k, s, s', pc, pc');
      case ForceKnown(_, _, _, _, _) => PolicyStepIsSafe(k, s, s', pc, pc');
      case _ =>
    }
  }

  lemma OthersSurvive(k: Setup, s: State, s': State, moved: set<nat>)
    requires Inv(k, s) && Grows(s.store, s'.store) && StoreOk(s'.store)
    requires forall id | id in s'.calls && id !in moved :: id in s.calls && s'.calls[id] == s.calls[id]
    ensures forall id | id in s'.calls && id !in moved :: CallInv(k, s'.store, s'.calls[id])
  {
    hide CallInv, StoreOk, Grows;
    forall id | id in s'.calls && id !in moved ensures CallInv(k, s'.store, s'.calls[id]) {
      CallInvSurvives(k, s.store, s'.store, s.calls[id]);
    }
  }

  lemma ArrivingIsOk(k: Setup, s: Store, pc: Pc)
    requires Arrives(pc)
    ensures CallInv(k, s, pc)
  {
  }

  /** Every step of every interleaving keeps the invariant and every object. */
  lemma NextKeeps(k: Setup, s: State, s': State)
    requires Inv(k, s) && Next(k, s, s')
    ensures Inv(k, s') && Grows(s.store, s'.store)
  {
    hide CallStep, CallInv, StoreOk, Grows, Uploads;
    if id: nat, pc' :| id in s.calls && s'.calls == s.calls[id := pc']
                       && CallStep(k, s.store, s'.store, s.calls[id], pc') {
      StepGrows(k, s.store, s'.store, s.calls[id], pc');
      CallStepKeeps(k, s.store, s'.store, s.calls[id], pc');
      OthersSurvive(k, s, s', {id});
    } else if s'.calls == s.calls && Uploads(s.store, s'.store) {
      UploadGrows(s.store, s'.store);
      OthersSurvive(k, s, s', {});
    } else {
      var id: nat, pc :| id !in s.calls && Arrives(pc) && s' == s.(calls := s.calls[id := pc]);
      GrowsByNothing(s.store);
      ArrivingIsOk(k, s'.store, pc);
      OthersSurvive(k, s, s', {id});
    }
  }

  lemma GrowsByNothing(s: Store)
    ensures Grows(s, s)
  {
  }

  // ----- main and the tags, one step -----

  lemma SameRefsAdvance(s: Store, s': Store)
    requires StoreOk(s) && Grows(s, s') && s'.refs == s.refs
    ensures MainAdvances(s, s') && TagsStay(s, s')
  {
    hide IsZeroOid;
    if MAIN in s.refs {
      assert HEADS <= MAIN;
      AncestorOfItself(s'.commits, s.refs[MAIN]);
    }
  }

  /** What true answers lead to is the ref that is written. */
  lemma JudgedAsWritten(k: Setup, s: Store, pc: Pc)
    requires pc.Allowed? && CallInv(k, s, pc) && pc.truly && WrittenRef(k.symrefs, pc.target).Some?
    ensures WrittenRef(k.symrefs, pc.target) == Some(pc.target)
  {
    hide Resolve, WrittenRef, AnswersTruly, UpdateInv, WriteIsSafe;
    var hops :| Resolve(k.wellFormed, k.symrefs, hops, pc.u.name, MAX_SYMREF_DEPTH) == Ok(pc.target)
                && AnswersTruly(k.symrefs, hops, pc.u.name, MAX_SYMREF_DEPTH);
    TrueAnswersJudgeWhatIsWritten(k.wellFormed, k.symrefs, hops, pc.u.name, MAX_SYMREF_DEPTH, 0);
  }

  /** The write happens only while the ref still holds what the policy judged. */
  lemma CarefulSwapAdvancesMain(k: Setup, s: Store, pc: Pc)
    requires StoreOk(s) && pc.Allowed? && CallInv(k, s, pc) && CarefulWithMain(k, pc)
    requires UpdateSucceeds(k.names, s, k.symrefs, pc.target, pc.u.newOid, pc.u.oldOid)
    ensures MainAdvances(s, Updated(k.names, s, k.symrefs, pc.target, pc.u.newOid))
  {
    if pc.truly {
      JudgedAsWritten(k, s, pc);
    }
    hide IsZeroOid, IsFullOid, ResolvesTo, MergeFacts, WrittenRef;
    assert HEADS <= MAIN;
    if MAIN in s.refs {
      AncestorOfItself(s.commits, s.refs[MAIN]);
    }
  }

  lemma CarefulSwapKeepsTags(k: Setup, s: Store, pc: Pc)
    requires pc.Allowed? && CallInv(k, s, pc) && CarefulWithTags(k, pc)
    requires UpdateSucceeds(k.names, s, k.symrefs, pc.target, pc.u.newOid, pc.u.oldOid)
    ensures TagsStay(s, Updated(k.names, s, k.symrefs, pc.target, pc.u.newOid))
  {
    if pc.truly {
      JudgedAsWritten(k, s, pc);
    }
    hide IsZeroOid, IsFullOid, ResolvesTo, MergeFacts, WrittenRef;
  }

  /** A step writes refs only at the write of an allowed call. */
  lemma OnlyAllowedCallsWrite(k: Setup, s: State, s': State) returns (id: nat)
    requires Next(k, s, s') && s'.store.refs != s.store.refs
    ensures id in s.calls && s.calls[id].Allowed?
    ensures var pc := s.calls[id];
      && UpdateSucceeds(k.names, s.store, k.symrefs, pc.target, pc.u.newOid, pc.u.oldOid)
      && s'.store == Updated(k.names, s.store, k.symrefs, pc.target, pc.u.newOid)
  {
    hide ResolvesTo, ValidRefName, RulesAllow, UpdateSucceeds, Updated, IsZeroOid, IsFullOid;
    var i: nat, pc' :| i in s.calls && s'.calls == s.calls[i := pc']
                       && CallStep(k, s.store, s'.store, s.calls[i], pc');
    id := i;
  }

  lemma NextAdvancesMain(k: Setup, s: State, s': State)
    requires Inv(k, s) && Next(k, s, s') && forall id | id in s.calls :: CarefulWithMain(k, s.calls[id])
    ensures MainAdvances(s.store, s'.store)
  {
    NextKeeps(k, s, s');
    if s'.store.refs == s.store.refs {
      SameRefsAdvance(s.store, s'.store);
    } else {
      var id := OnlyAllowedCallsWrite(k, s, s');
      hide Next, CarefulWithMain, CallInv, MainAdvances;
      CarefulSwapAdvancesMain(k, s.store, s.calls[id]);
    }
  }

  lemma NextKeepsTags(k: Setup, s: State, s': State)
    requires Inv(k, s) && Next(k, s, s') && forall id | id in s.calls :: CarefulWithTags(k, s.calls[id])
    ensures TagsStay(s.store, s'.store)
  {
    NextKeeps(k, s, s');
    if s'.store.refs == s.store.refs {
      SameRefsAdvance(s.store, s'.store);
    } else {
      var id := OnlyAllowedCallsWrite(k, s, s');
      hide Next, CarefulWithTags, CallInv, TagsStay;
      CarefulSwapKeepsTags(k, s.store, s.calls[id]);
    }
  }

  // ----- whole runs -----

  lemma {:induction false} RunKeepsInv(k: Setup, run: seq<State>, i: nat)
    requires Run(k, run) && i < |run|
    ensures Inv(k, run[i])
  {
    if i > 0 {
      RunKeepsInv(k, run, i - 1);
      hide Inv, Next;
      NextKeeps(k, run[i - 1], run[i]);
    }
  }

  lemma AdvancesOverTwo(s: Store, t: Store, u: Store)
    requires MainAdvances(s, t) && MainAdvances(t, u) && Grows(t, u) && StoreOk(t) && StoreOk(u)
    ensures MainAdvances(s, u)
  {
    if MAIN in s.refs {
      var a, b, c := s.refs[MAIN], t.refs[MAIN], u.refs[MAIN];
      DescendsStays(t, u, a, b);
      AncestorIsTransitive(u.commits, Peeled(u, a).value, Peeled(u, b).value, Peeled(u, c).value);
    }
  }

  lemma {:induction false} ObjectsOnlyGrow(k: Setup, run: seq<State>, i: nat, j: nat)
    requires Run(k, run) && i <= j < |run|
    ensures Grows(run[i].store, run[j].store)
    decreases j - i
  {
    if i < j {
      ObjectsOnlyGrow(k, run, i, j - 1);
      RunKeepsInv(k, run, j - 1);
      hide Inv, Next;
      NextKeeps(k, run[j - 1], run[j]);
    }
  }

  /**
   In every run whose writers of main are careful, main is never deleted once
   present and only moves to descendants.
   */
  lemma {:induction false} MainOnlyAdvances(k: Setup, run: seq<State>, i: nat, j: nat)
    requires Run(k, run) && AllCarefulWithMain(k, run) && i <= j < |run|
    ensures MainAdvances(run[i].store, run[j].store)
    decreases j - i
  {
    hide MainAdvances, Next, CarefulWithMain;
    RunKeepsInv(k, run, i);
    if i == j {
      GrowsByNothing(run[i].store);
      SameRefsAdvance(run[i].store, run[i].store);
    } else {
      MainOnlyAdvances(k, run, i, j - 1);
      RunKeepsInv(k, run, j - 1);
      RunKeepsInv(k, run, j);
      NextKeeps(k, run[j - 1], run[j]);
      NextAdvancesMain(k, run[j - 1], run[j]);
      hide CallInv, StoreOk, Grows;
      AdvancesOverTwo(run[i].store, run[j - 1].store, run[j].store);
    }
  }

  /**
   In every run whose writers of tags were judged as such, no tag ever moves or
   disappears, whoever asks and however the ids are given.
   */
  lemma {:induction false} TagsNeverMove(k: Setup, run: seq<State>, i: nat, j: nat)
    requires Run(k, run) && AllCarefulWithTags(k, run) && i <= j < |run|
    ensures TagsStay(run[i].store, run[j].store)
    decreases j - i
  {
    hide Next, CarefulWithTags;
    if i < j {
      TagsNeverMove(k, run, i, j - 1);
      RunKeepsInv(k, run, j - 1);
      hide Inv;
      NextKeepsTags(k, run[j - 1], run[j]);
    }
  }

  // ----- what a caller can do -----

  /** A request by anyone but the mirror, with whole object ids, for a ref that is not symbolic. */
  predicate IsPlain(k: Setup, pc: Pc) {
    match pc
    case MergeStart(m) => IsPlainMerge(k, m)
    case BaseVerified(m) => IsPlainMerge(k, m)
    case HeadVerified(m) => IsPlainMerge(k, m)
    case AncestryKnown(m, _) => IsPlainMerge(k, m)
    case UpdateStart(u, merge) => IsPlainUpdate(k, u, merge)
    case Resolved(u, _, _, merge) => IsPlainUpdate(k, u, merge)
    case ForceKnown(u, _, _, _, merge) => IsPlainUpdate(k, u, merge)
    case Allowed(u, _, _, merge) => IsPlainUpdate(k, u, merge)
    case Done(_) => true
  }

  predicate IsPlainMerge(k: Setup, m: MergeCall) {
    m.actor != MIRROR && IsFullOid(m.base) && IsFullOid(m.head) && m.baseRef !in k.symrefs
  }

  predicate IsPlainUpdate(k: Setup, u: UpdateCall, merge: Option<MergeCall>) {
    if merge.Some? then IsPlainMerge(k, merge.value)
    else u.actor != MIRROR && HasFullIds(u) && u.name !in k.symrefs
  }

  /** Plain requests, which a caller can tell beforehand, are careful whatever git answers. */
  lemma PlainCallsAreCareful(k: Setup, run: seq<State>)
    requires Run(k, run) && forall i, id | 0 <= i < |run| && id in run[i].calls :: IsPlain(k, run[i].calls[id])
    ensures AllCarefulWithMain(k, run) && AllCarefulWithTags(k, run)
  {
    hide IsPlain, CarefulWithMain, CarefulWithTags;
    forall i, id | 0 <= i < |run| && id in run[i].calls
      ensures CarefulWithMain(k, run[i].calls[id]) && CarefulWithTags(k, run[i].calls[id])
    {
      RunKeepsInv(k, run, i);
      PlainCallIsCareful(k, run[i].store, run[i].calls[id]);
    }
  }

  lemma PlainCallIsCareful(k: Setup, s: Store, pc: Pc)
    requires CallInv(k, s, pc) && IsPlain(k, pc)
    ensures CarefulWithMain(k, pc) && CarefulWithTags(k, pc)
  {
    hide IsFullOid, IsZeroOid, Descends;
    if pc.Allowed? {
      assert pc.u.name !in k.symrefs && pc.truly;
    }
  }

  // ----- merges -----

  /** Every commit ever reachable from main stays reachable from it. */
  lemma ReachableStaysReachable(k: Setup, run: seq<State>, i: nat, j: nat, c: Oid)
    requires Run(k, run) && AllCarefulWithMain(k, run) && i <= j < |run|
    requires MAIN in run[i].store.refs && Descends(run[i].store, c, run[i].store.refs[MAIN])
    ensures MAIN in run[j].store.refs && Descends(run[j].store, c, run[j].store.refs[MAIN])
  {
    var s, s' := run[i].store, run[j].store;
    MainOnlyAdvances(k, run, i, j);
    ObjectsOnlyGrow(k, run, i, j);
    RunKeepsInv(k, run, i);
    RunKeepsInv(k, run, j);
    hide StoreOk, Grows, Run, AllCarefulWithMain, CallInv;
    DescendsStays(s, s', c, s.refs[MAIN]);
    AncestorIsTransitive(s'.commits, Peeled(s', c).value, Peeled(s', s.refs[MAIN]).value,
                         Peeled(s', s'.refs[MAIN]).value);
  }

  lemma MovedCallWrote(k: Setup, s: State, s': State, id: nat)
    requires Next(k, s, s') && id in s.calls && s.calls[id].Allowed? && id in s'.calls && s'.calls[id] == Done(Moved)
    ensures var pc := s.calls[id];
      && UpdateSucceeds(k.names, s.store, k.symrefs, pc.target, pc.u.newOid, pc.u.oldOid)
      && s'.store == Updated(k.names, s.store, k.symrefs, pc.target, pc.u.newOid)
  {
    hide UpdateSucceeds, Updated, Uploads, ResolvesTo, ValidRefName, RulesAllow;
  }

  /** A merge of whole object ids that wrote main leaves its base and its head in main's history for good. */
  lemma MergedHeadStays(k: Setup, run: seq<State>, i: nat, j: nat, id: nat)
    requires Run(k, run) && AllCarefulWithMain(k, run) && i < j < |run| && id in run[i].calls
    requires var pc := run[i].calls[id];
      && pc.Allowed? && pc.merge.Some? && WrittenRef(k.symrefs, pc.target) == Some(MAIN)
      && IsFullOid(pc.merge.value.base) && IsFullOid(pc.merge.value.head)
      && id in run[i + 1].calls && run[i + 1].calls[id] == Done(Moved)
    ensures var m := run[i].calls[id].merge.value;
      && MAIN in run[j].store.refs
      && Descends(run[j].store, m.head, run[j].store.refs[MAIN])
      && Descends(run[j].store, m.base, run[j].store.refs[MAIN])
  {
    var s, s', pc := run[i].store, run[i + 1].store, run[i].calls[id];
    RunKeepsInv(k, run, i);
    MovedCallWrote(k, run[i], run[i + 1], id);
    assert s'.refs[MAIN] == pc.u.newOid && s' == s.(refs := s'.refs);
    assert CallInv(k, s, pc);
    hide Next, Run, AllCarefulWithMain, StoreOk, UpdateSucceeds, Updated, WrittenRef, IsFullOid;
    ReachableStaysReachable(k, run, i + 1, j, pc.merge.value.head);
    ReachableStaysReachable(k, run, i + 1, j, pc.merge.value.base);
  }

  /**
   A merge is denied if and only if it is judged as a move of a tag, or of main
   by anyone but the mirror after git answered "no" to the ancestry question.
   */
  lemma MergeIsDeniedExactlyWhen(k: Setup, run: seq<State>, i: nat, id: nat)
    requires Run(k, run) && i + 1 < |run| && id in run[i].calls && id in run[i + 1].calls
    requires run[i].calls[id].ForceKnown? && run[i].calls[id].merge.Some? && run[i + 1].calls[id] != run[i].calls[id]
    ensures var pc := run[i].calls[id];
      run[i + 1].calls[id] == Done(Denied) <==>
        TAGS <= pc.target || (pc.target == MAIN && pc.u.actor != MIRROR && !pc.yes)
  {
    var pc := run[i].calls[id];
    RunKeepsInv(k, run, i);
    assert CallInv(k, run[i].store, pc);
    PolicyStepOfACall(k, run[i], run[i + 1], id);
    hide Run, CallInv, RulesAllow, IsZeroOid;
    DefaultRulesAllow(ChangeOf(pc.u, pc.target, pc.yes));
    HeadsAreNotTags(pc.target);
    assert HEADS <= MAIN;
  }

  lemma PolicyStepOfACall(k: Setup, s: State, s': State, id: nat)
    requires Next(k, s, s') && id in s.calls && id in s'.calls && s'.calls[id] != s.calls[id]
    requires s.calls[id].ForceKnown?
    ensures var pc := s.calls[id];
      s'.calls[id] == (if RulesAllow(DEFAULT_RULES, ChangeOf(pc.u, pc.target, pc.yes))
                       then Allowed(pc.u, pc.target, pc.truly, pc.merge) else Done(Denied))
  {
    hide RulesAllow, Uploads;
  }

  /**
   With whole object ids the truth is "yes" whenever a merge asks again, so only
   a git that fails makes a merge of main denied.
   */
  lemma TheTruthIsYes(k: Setup, run: seq<State>, i: nat, id: nat)
    requires Run(k, run) && i < |run| && id in run[i].calls
    requires var pc := run[i].calls[id];
      pc.Resolved? && pc.merge.Some? && IsFullOid(pc.merge.value.base) && IsFullOid(pc.merge.value.head)
    ensures var u := run[i].calls[id].u;
      u.oldOid.Some? && IsAncestorNow(k.names, run[i].store, u.oldOid.value, u.newOid)
  {
    RunKeepsInv(k, run, i);
    assert CallInv(k, run[i].store, run[i].calls[id]);
    hide IsFullOid;
  }
}
