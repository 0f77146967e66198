/**
 The pack RPCs of any number of threads and the records they leave
 (crates/jeryu-gitd/src/pack_rpc.rs): runs of module PackRpcGate in which every
 thread also carries its accounting record, as module PackRpcAdmission does for
 one call alone.

 A record is emitted after the slot is given back, so between the two a thread
 owes one.
 */
module PackRpcLedger {
  import opened Common
  import opened PackRpcGate
  import opened PackRpcAdmission

  /** One RPC under way: waiting for a slot, holding one, streaming without one, or ended and not yet recorded. */
  datatype Call =
    | Waiting(bytesIn: nat)
    | Holding(record: Record)
    | Streaming(record: Record)
    | Owing(record: Record)

  /** `admitted`, `refused` and `streamed` count the RPCs that came to be so. */
  datatype Ledger = Ledger(gate: State, calls: map<Thread, Call>, records: seq<Record>,
                           admitted: nat, refused: nat, streamed: nat)

  function Closed(record: Record, result: Option<nat>): Record {
    match result
    case Some(bytes) => record.(bytesOut := bytes, outcome := Served)
    case None => record.(outcome := Failed)
  }

  // ----- steps -----

  /** A thread enters the gate for a new RPC. */
  predicate Enters(c: Config, l: Ledger, t: Thread, bytesIn: nat, l': Ledger) {
    && t in l.gate.threads && l.gate.threads[t].Idle? && t !in l.calls
    && Acts(c, l.gate, t, l'.gate)
    && l' == l.(gate := l'.gate, calls := l.calls[t := Waiting(bytesIn)])
  }

  /** A thread moves on in the gate; whether its RPC succeeds, `result` tells. */
  predicate Moves(c: Config, l: Ledger, t: Thread, result: Option<nat>, l': Ledger) {
    && t in l.gate.threads && !l.gate.threads[t].Idle? && t in l.calls
    && Acts(c, l.gate, t, l'.gate) && t in l'.gate.threads
    && var call := l.calls[t];
    && match l'.gate.threads[t]
       case Running(n, _) =>
         && call.Waiting?
         && l' == l.(gate := l'.gate, admitted := l.admitted + 1,
                     calls := l.calls[t := Holding(Record(c.limit, n, call.bytesIn, 0, Busy))])
       case Refused(_) =>
         && call.Waiting?
         && l' == l.(gate := l'.gate, refused := l.refused + 1,
                     calls := l.calls[t := Owing(Record(c.limit, 0, call.bytesIn, 0, Busy))])
       case Returning =>
         && call.Holding?
         && l' == l.(gate := l'.gate, calls := l.calls[t := Owing(Closed(call.record, result))])
       case _ => l' == l.(gate := l'.gate)
  }

  predicate StartsStreaming(l: Ledger, t: Thread, bytesIn: nat, l': Ledger) {
    && t in l.gate.threads && l.gate.threads[t].Idle? && t !in l.calls
    && l' == l.(streamed := l.streamed + 1, calls := l.calls[t := Streaming(Record(0, 0, bytesIn, 0, Busy))])
  }

  predicate StopsStreaming(l: Ledger, t: Thread, result: Option<nat>, l': Ledger) {
    && t in l.calls && l.calls[t].Streaming?
    && l' == l.(calls := l.calls[t := Owing(Closed(l.calls[t].record, result))])
  }

  predicate Emits(l: Ledger, t: Thread, l': Ledger) {
    && t in l.gate.threads && l.gate.threads[t].Idle? && t in l.calls && l.calls[t].Owing?
    && l' == l.(calls := l.calls - {t}, records := l.records + [l.calls[t].record])
  }

  /** A new thread, or time that goes by. */
  ghost predicate Elsewhere(c: Config, l: Ledger, l': Ledger) {
    && l' == l.(gate := l'.gate)
    && ((exists t: Thread :: t !in l.gate.threads && t !in l.calls && l'.gate == Moved(l.gate, t, Idle))
        || (exists later: nat :: later >= l.gate.now && l'.gate == l.gate.(now := later)))
  }

  /** A step of one thread. */
  ghost predicate Does(c: Config, l: Ledger, t: Thread, l': Ledger) {
    || (exists bytesIn: nat :: Enters(c, l, t, bytesIn, l'))
    || (exists result: Option<nat> :: Moves(c, l, t, result, l'))
    || (exists bytesIn: nat :: StartsStreaming(l, t, bytesIn, l'))
    || (exists result: Option<nat> :: StopsStreaming(l, t, result, l'))
    || Emits(l, t, l')
  }

  ghost predicate Follows(c: Config, l: Ledger, l': Ledger) {
    (exists t: Thread :: Does(c, l, t, l')) || Elsewhere(c, l, l')
  }

  ghost predicate Begins(l: Ledger) {
    Init(l.gate) && l == Ledger(l.gate, map[], [], 0, 0, 0)
  }

  ghost predicate Occurs(c: Config, run: seq<Ledger>) {
    |run| > 0 && Begins(run[0]) && forall k | 0 <= k < |run| - 1 :: Follows(c, run[k], run[k + 1])
  }

  // ----- what the ledger counts -----

  datatype Kind = OfRefusal | OfSlot | OfStream

  function KindOf(record: Record): Kind {
    if record.limit == 0 then OfStream else if record.outcome == Busy then OfRefusal else OfSlot
  }

  /** The kind of record an RPC under way will leave, once that is settled. */
  function WillBe(call: Call): Option<Kind> {
    match call
    case Waiting(_) => None
    case Holding(_) => Some(OfSlot)
    case Streaming(_) => Some(OfStream)
    case Owing(record) => Some(KindOf(record))
  }

  function Emitted(records: seq<Record>, kind: Kind): nat {
    if records == [] then 0
    else Emitted(records[..|records| - 1], kind) + if KindOf(records[|records| - 1]) == kind then 1 else 0
  }

  function Unrecorded(calls: map<Thread, Call>, kind: Kind): set<Thread> {
    set t | t in calls && WillBe(calls[t]) == Some(kind)
  }

  function Tally(l: Ledger, kind: Kind): nat {
    match kind
    case OfRefusal => l.refused
    case OfSlot => l.admitted
    case OfStream => l.streamed
  }

  // ----- the invariant -----

  /** What a record says is so. */
  predicate RecordOk(c: Config, r: Record) {
    match KindOf(r)
    case OfRefusal => r.limit == c.limit && r.running == 0 && r.bytesOut == 0
    case OfSlot => r.limit == c.limit && 1 <= r.running <= c.limit && (r.outcome == Failed ==> r.bytesOut == 0)
    case OfStream => r.running == 0 && r.outcome != Busy && (r.outcome == Failed ==> r.bytesOut == 0)
  }

  /** A call stands where its thread does in the gate. */
  predicate CallOk(c: Config, pc: Pc, call: Option<Call>) {
    match call
    case None => pc.Idle?
    case Some(Waiting(_)) => pc.Queued? || pc.Checking? || pc.Asleep?
    case Some(Holding(r)) => pc.Running? && r == Record(c.limit, pc.admitted, r.bytesIn, 0, Busy)
    case Some(Streaming(r)) => pc.Idle? && r == Record(0, 0, r.bytesIn, 0, Busy)
    case Some(Owing(r)) =>
      && RecordOk(c, r)
      && (pc.Idle? || (pc.Refused? && KindOf(r) == OfRefusal)
          || ((pc.Returning? || pc.Freeing? || pc.Notifying?) && KindOf(r) == OfSlot))
  }

  function CallAt(l: Ledger, t: Thread): Option<Call> {
    if t in l.calls then Some(l.calls[t]) else None
  }

  ghost predicate CallsOk(c: Config, l: Ledger) {
    && l.calls.Keys <= l.gate.threads.Keys
    && forall t | t in l.gate.threads :: CallOk(c, l.gate.threads[t], CallAt(l, t))
  }

  ghost predicate Balanced(l: Ledger) {
    forall kind :: Emitted(l.records, kind) + |Unrecorded(l.calls, kind)| == Tally(l, kind)
  }

  ghost predicate RecordsOk(c: Config, l: Ledger) {
    forall i | 0 <= i < |l.records| :: RecordOk(c, l.records[i])
  }

  ghost predicate LedgerInv(c: Config, l: Ledger) {
    Inv(c, l.gate) && CallsOk(c, l) && Balanced(l) && RecordsOk(c, l)
  }

  // ----- the gate below -----

  /** What the ledger does is a run of the gate; emitting and streaming pass it by. */
  lemma FollowsTheGate(c: Config, l: Ledger, l': Ledger)
    requires Follows(c, l, l')
    ensures Next(c, l.gate, l'.gate)
  {
    hide Acts, Woken;
    assert l.gate.(now := l.gate.now) == l.gate;
  }

  lemma GateOf(c: Config, run: seq<Ledger>)
    requires Occurs(c, run)
    ensures Reachable(c, seq(|run|, k requires 0 <= k < |run| => run[k].gate))
  {
    hide Follows, Next;
    forall k | 0 <= k < |run| - 1 ensures Next(c, run[k].gate, run[k + 1].gate) {
      FollowsTheGate(c, run[k], run[k + 1]);
    }
  }

  // ----- every call stays where its thread is -----

  /** Only the thread that acts may be elsewhere afterwards; sleepers may be woken to the queue. */
  lemma OthersStand(c: Config, s: State, t: Thread, s': State, u: Thread, call: Option<Call>)
    requires t in s.threads && Acts(c, s, t, s') && u in s.threads && u != t && CallOk(c, s.threads[u], call)
    ensures u in s'.threads && CallOk(c, s'.threads[u], call)
  {
    hide RecordOk;
  }

  lemma ActorStaysKnown(c: Config, s: State, t: Thread, s': State)
    requires t in s.threads && Acts(c, s, t, s')
    ensures s'.threads.Keys == s.threads.Keys
  {
  }

  /** A step in the gate keeps every call in its place once it keeps the actor's own. */
  lemma ActingKeepsCalls(c: Config, l: Ledger, t: Thread, l': Ledger)
    requires CallsOk(c, l) && t in l.gate.threads && Acts(c, l.gate, t, l'.gate)
    requires forall u | u != t :: CallAt(l', u) == CallAt(l, u)
    requires t in l'.gate.threads ==> CallOk(c, l'.gate.threads[t], CallAt(l', t))
    ensures CallsOk(c, l')
  {
    hide Acts, CallOk;
    ActorStaysKnown(c, l.gate, t, l'.gate);
    forall u | u in l'.gate.threads ensures CallOk(c, l'.gate.threads[u], CallAt(l', u)) {
      if u != t {
        OthersStand(c, l.gate, t, l'.gate, u, CallAt(l, u));
      }
    }
    forall u | u in l'.calls ensures u in l'.gate.threads {
      if u != t {
        assert CallAt(l', u) == CallAt(l, u);
      }
    }
  }

  lemma EnteringKeepsCalls(c: Config, l: Ledger, t: Thread, bytesIn: nat, l': Ledger)
    requires CallsOk(c, l) && Enters(c, l, t, bytesIn, l')
    ensures CallsOk(c, l')
  {
    ActingKeepsCalls(c, l, t, l') by { hide RecordOk; }
  }

  lemma MovingKeepsCalls(c: Config, l: Ledger, t: Thread, result: Option<nat>, l': Ledger)
    requires c.limit >= 1 && Inv(c, l.gate) && CallsOk(c, l) && Moves(c, l, t, result, l')
    ensures CallsOk(c, l')
  {
    MoverStands(c, l, t, result, l');
    hide Acts, CallOk, RecordOk, Inv;
    ActingKeepsCalls(c, l, t, l');
  }

  lemma MoverStands(c: Config, l: Ledger, t: Thread, result: Option<nat>, l': Ledger)
    requires c.limit >= 1 && Inv(c, l.gate) && CallsOk(c, l) && Moves(c, l, t, result, l')
    ensures t in l'.gate.threads && CallOk(c, l'.gate.threads[t], CallAt(l', t))
  {
    assert CallOk(c, l.gate.threads[t], CallAt(l, t));
    assert WaitOk(c, l.gate, l.gate.threads[t]);
    hide CountInv, MutexInv, WakeInv, WaitInv;
  }

  /** Steps that leave the gate alone. */
  lemma LedgerStepKeepsCalls(c: Config, l: Ledger, t: Thread, l': Ledger)
    requires CallsOk(c, l) && l'.gate == l.gate && t in l.gate.threads
    requires forall u | u != t :: CallAt(l', u) == CallAt(l, u)
    requires CallOk(c, l.gate.threads[t], CallAt(l', t))
    ensures CallsOk(c, l')
  {
    hide CallOk;
    forall u | u in l'.calls ensures u in l'.gate.threads {
      assert CallAt(l', u).Some?;
    }
  }

  lemma ElsewhereKeepsCalls(c: Config, l: Ledger, l': Ledger)
    requires CallsOk(c, l) && Elsewhere(c, l, l')
    ensures CallsOk(c, l')
  {
    hide RecordOk;
  }

  lemma StreamStartKeepsCalls(c: Config, l: Ledger, t: Thread, bytesIn: nat, l': Ledger)
    requires CallsOk(c, l) && StartsStreaming(l, t, bytesIn, l')
    ensures CallsOk(c, l')
  {
    LedgerStepKeepsCalls(c, l, t, l');
  }

  lemma StreamEndKeepsCalls(c: Config, l: Ledger, t: Thread, result: Option<nat>, l': Ledger)
    requires CallsOk(c, l) && StopsStreaming(l, t, result, l')
    ensures CallsOk(c, l')
  {
    assert t in l.gate.threads;
    assert CallOk(c, l.gate.threads[t], CallAt(l, t));
    LedgerStepKeepsCalls(c, l, t, l');
  }

  lemma EmittingKeepsCalls(c: Config, l: Ledger, t: Thread, l': Ledger)
    requires CallsOk(c, l) && RecordsOk(c, l) && Emits(l, t, l')
    ensures CallsOk(c, l') && RecordsOk(c, l')
  {
    assert CallOk(c, l.gate.threads[t], CallAt(l, t));
    LedgerStepKeepsCalls(c, l, t, l');
  }

  // ----- the balance -----

  lemma UnrecordedAfter(calls: map<Thread, Call>, t: Thread, call: Call, kind: Kind)
    ensures var before := t in calls && WillBe(calls[t]) == Some(kind);
      |Unrecorded(calls[t := call], kind)|
      == |Unrecorded(calls, kind)| - (if before then 1 else 0) + (if WillBe(call) == Some(kind) then 1 else 0)
  {
    hide WillBe;
    var was, now := Unrecorded(calls, kind), Unrecorded(calls[t := call], kind);
    assert was - {t} == now - {t};
    assert t in was ==> was == (was - {t}) + {t};
    assert t !in was ==> was == was - {t};
    assert t in now ==> now == (now - {t}) + {t};
    assert t !in now ==> now == now - {t};
  }

  lemma UnrecordedWithout(calls: map<Thread, Call>, t: Thread, kind: Kind)
    requires t in calls
    ensures |Unrecorded(calls - {t}, kind)|
         == |Unrecorded(calls, kind)| - if WillBe(calls[t]) == Some(kind) then 1 else 0
  {
    hide WillBe;
    var was, now := Unrecorded(calls, kind), Unrecorded(calls - {t}, kind);
    assert now == was - {t};
    assert t in was ==> was == now + {t};
  }

  /** A call moves on to one that will leave another kind of record or none yet. */
  lemma BalanceMoves(l: Ledger, t: Thread, call: Call, l': Ledger)
    requires Balanced(l) && l'.records == l.records && l'.calls == l.calls[t := call]
    requires forall kind ::
      && var before := t in l.calls && WillBe(l.calls[t]) == Some(kind);
      && Tally(l', kind) - Tally(l, kind)
         == (if WillBe(call) == Some(kind) then 1 else 0) - (if before then 1 else 0)
    ensures Balanced(l')
  {
    hide WillBe, Unrecorded;
    forall kind ensures Emitted(l'.records, kind) + |Unrecorded(l'.calls, kind)| == Tally(l', kind) {
      UnrecordedAfter(l.calls, t, call, kind);
    }
  }

  lemma EmittingKeepsBalance(l: Ledger, t: Thread, l': Ledger)
    requires Balanced(l) && Emits(l, t, l')
    ensures Balanced(l')
  {
    forall kind ensures Emitted(l'.records, kind) + |Unrecorded(l'.calls, kind)| == Tally(l', kind) {
      UnrecordedWithout(l.calls, t, kind);
      assert l'.records[..|l'.records| - 1] == l.records;
      hide Unrecorded;
    }
  }

  lemma MovingKeepsBalance(c: Config, l: Ledger, t: Thread, result: Option<nat>, l': Ledger)
    requires c.limit >= 1 && CallsOk(c, l) && Balanced(l) && Moves(c, l, t, result, l')
    ensures Balanced(l')
  {
    assert CallOk(c, l.gate.threads[t], CallAt(l, t));
    hide Acts, Balanced, CallsOk;
    if l'.calls != l.calls {
      BalanceMoves(l, t, l'.calls[t], l');
    } else {
      SameBalance(l, l');
    }
  }

  lemma SameBalance(l: Ledger, l': Ledger)
    requires Balanced(l) && l'.records == l.records && l'.calls == l.calls
    requires forall kind :: Tally(l', kind) == Tally(l, kind)
    ensures Balanced(l')
  {
  }

  lemma DoingKeepsBalance(c: Config, l: Ledger, t: Thread, l': Ledger)
    requires c.limit >= 1 && CallsOk(c, l) && Balanced(l) && Does(c, l, t, l')
    ensures Balanced(l')
  {
    hide Balanced, Acts, CallOk, Unrecorded;
    if bytesIn: nat :| Enters(c, l, t, bytesIn, l') {
      BalanceMoves(l, t, Waiting(bytesIn), l');
    } else if result: Option<nat> :| Moves(c, l, t, result, l') {
      MovingKeepsBalance(c, l, t, result, l');
    } else if bytesIn: nat :| StartsStreaming(l, t, bytesIn, l') {
      BalanceMoves(l, t, l'.calls[t], l');
    } else if result: Option<nat> :| StopsStreaming(l, t, result, l') {
      assert CallOk(c, l.gate.threads[t], CallAt(l, t));
      StreamEndKeepsBalance(c, l, t, result, l');
    } else {
      EmittingKeepsBalance(l, t, l');
    }
  }

  lemma StreamEndKeepsBalance(c: Config, l: Ledger, t: Thread, result: Option<nat>, l': Ledger)
    requires CallsOk(c, l) && Balanced(l) && StopsStreaming(l, t, result, l')
    ensures Balanced(l')
  {
    assert t in l.gate.threads && CallOk(c, l.gate.threads[t], CallAt(l, t));
    hide Balanced, CallsOk;
    BalanceMoves(l, t, l'.calls[t], l');
  }

  lemma DoingKeepsCalls(c: Config, l: Ledger, t: Thread, l': Ledger)
    requires c.limit >= 1 && Inv(c, l.gate) && CallsOk(c, l) && RecordsOk(c, l) && Does(c, l, t, l')
    ensures CallsOk(c, l') && RecordsOk(c, l')
  {
    hide CallsOk, Inv, Acts;
    if bytesIn: nat :| Enters(c, l, t, bytesIn, l') {
      EnteringKeepsCalls(c, l, t, bytesIn, l');
    } else if result: Option<nat> :| Moves(c, l, t, result, l') {
      MovingKeepsCalls(c, l, t, result, l');
    } else if bytesIn: nat :| StartsStreaming(l, t, bytesIn, l') {
      StreamStartKeepsCalls(c, l, t, bytesIn, l');
    } else if result: Option<nat> :| StopsStreaming(l, t, result, l') {
      StreamEndKeepsCalls(c, l, t, result, l');
    } else {
      EmittingKeepsCalls(c, l, t, l');
    }
  }

  lemma FollowingKeepsInv(c: Config, l: Ledger, l': Ledger)
    requires c.limit >= 1 && LedgerInv(c, l) && Follows(c, l, l')
    ensures LedgerInv(c, l')
  {
    FollowsTheGate(c, l, l');
    NextKeepsInv(c, l.gate, l'.gate);
    hide Inv, CallsOk, Does, RecordOk, Next;
    if t: Thread :| Does(c, l, t, l') {
      hide Balanced, RecordsOk;
      DoingKeepsCalls(c, l, t, l');
      DoingKeepsBalance(c, l, t, l');
    } else {
      ElsewhereKeepsCalls(c, l, l');
      SameBalance(l, l');
    }
  }

  lemma {:induction false} RunKeepsLedger(c: Config, run: seq<Ledger>, k: nat)
    requires c.limit >= 1 && Occurs(c, run) && k < |run|
    ensures LedgerInv(c, run[k])
  {
    if k == 0 {
      BeginningIsOk(c, run[0]);
    } else {
      RunKeepsLedger(c, run, k - 1);
      hide LedgerInv, Follows;
      FollowingKeepsInv(c, run[k - 1], run[k]);
    }
  }

  lemma BeginningIsOk(c: Config, l: Ledger)
    requires Begins(l)
    ensures LedgerInv(c, l)
  {
    assert Slots(l.gate) == {};
    assert forall kind :: Unrecorded(l.calls, kind) == {};
  }

  // ----- the theorems -----

  /**
   In every reachable state, of each kind of RPC there are as many records as
   came to be of that kind, but for those under way or owed; the gate's counter
   is the number of slots not yet given back; and every record is true.
   */
  lemma RecordsBalance(c: Config, run: seq<Ledger>, k: nat, kind: Kind)
    requires c.limit >= 1 && Occurs(c, run) && k < |run|
    ensures Emitted(run[k].records, kind) + |Unrecorded(run[k].calls, kind)| == Tally(run[k], kind)
    ensures run[k].gate.running == |Slots(run[k].gate)| <= c.limit
    ensures forall i | 0 <= i < |run[k].records| :: RecordOk(c, run[k].records[i])
  {
    RunKeepsLedger(c, run, k);
  }

  /** Once nothing is under way every RPC has exactly its one record, and the gate is empty. */
  lemma EveryRpcIsRecordedOnce(c: Config, run: seq<Ledger>, k: nat)
    requires c.limit >= 1 && Occurs(c, run) && k < |run| && run[k].calls == map[]
    ensures var l := run[k];
      && l.gate.running == 0
      && Emitted(l.records, OfRefusal) == l.refused && Emitted(l.records, OfSlot) == l.admitted
      && Emitted(l.records, OfStream) == l.streamed
      && |l.records| == l.refused + l.admitted + l.streamed
  {
    var l := run[k];
    RunKeepsLedger(c, run, k);
    assert forall kind :: Unrecorded(l.calls, kind) == {};
    forall t ensures t !in Slots(l.gate) {
      assert t in l.gate.threads ==> CallOk(c, l.gate.threads[t], CallAt(l, t));
    }
    assert Slots(l.gate) == {};
    EmittedAddsUp(l.records);
  }

  lemma {:induction false} EmittedAddsUp(records: seq<Record>)
    ensures |records| == Emitted(records, OfRefusal) + Emitted(records, OfSlot) + Emitted(records, OfStream)
  {
    if records != [] {
      EmittedAddsUp(records[..|records| - 1]);
    }
  }
}
