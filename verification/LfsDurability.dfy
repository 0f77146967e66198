/**
 What survives a power loss (crates/jeryu-gitd/src/lfs.rs).

 Renaming an object is not enough: its directory entry has to reach the disk,
 and so have the directories above it. `sync_dir` brings the entries of one
 directory there; nothing syncs the directories themselves.
 */
module LfsDurability {
  import opened Common
  import opened Utf8
  import opened LfsStore
  import opened LfsPublish

  /** Whenever power fails now, the object comes back. */
  ghost predicate Survives(s: State, oid: string) {
    forall s' | LosesPower(s, s') :: Final(oid) in s'.files
  }

  /** The least a power loss may leave. */
  function WorstLoss(s: State): State {
    var left := map f | f in s.disk && f.Final? && Directory(f.oid) in s.settled :: s.disk[f];
    State(left, map[], map[], left, s.settled, s.syncs)
  }

  lemma WorstLossIsALoss(s: State)
    ensures LosesPower(s, WorstLoss(s))
  {
  }

  /** An object survives every power loss if and only if its entry and the directories above it are on disk. */
  lemma SurvivesExactlyWhen(s: State, oid: string)
    ensures Survives(s, oid) <==> IsDurable(s, oid)
  {
    WorstLossIsALoss(s);
    assert Final(oid) in WorstLoss(s).files <==> IsDurable(s, oid);
  }

  // ----- durable for good -----

  lemma NextKeepsDurable(hash: bytes -> string, s: State, s': State, oid: string)
    requires Inv(hash, s) && Next(hash, s, s') && IsDurable(s, oid)
    ensures IsDurable(s', oid)
  {
    hide ContentOk, NameOk;
    if w: nat :| Acts(hash, s, w, s') {
      assert OwnIsAhead(s.puts[w]);
      ActsOnDisk(hash, s, w, s');
      hide Acts;
    } else {
      hide Acts;
    }
  }

  /** Once durable an object stays so, and is there, in every continuation with any number of crashes and losses. */
  lemma {:induction false} DurableForGood(hash: bytes -> string, run: seq<State>, i: nat, j: nat, oid: string)
    requires Reachable(hash, run) && i <= j < |run| && IsDurable(run[i], oid)
    ensures IsDurable(run[j], oid) && Final(oid) in run[j].files
    decreases j - i
  {
    hide Inv, Next, IsDurable;
    if i < j {
      DurableForGood(hash, run, i, j - 1, oid);
      RunKeepsInv(hash, run, j - 1);
      NextKeepsDurable(hash, run[j - 1], run[j], oid);
    }
    RunKeepsInv(hash, run, j);
    DurableIsThere(hash, run[j], oid);
  }

  lemma DurableIsThere(hash: bytes -> string, s: State, oid: string)
    requires Inv(hash, s) && IsDurable(s, oid)
    ensures Final(oid) in s.files
  {
    hide ContentOk, NameOk, Genuine;
  }

  // ----- how an entry reaches the disk -----

  /** A put has just synced the directory of `oid`, while the object was there. */
  ghost predicate SyncedAt(s: State, s': State, oid: string) {
    && s.syncs && Final(oid) in s.files
    && exists w :: w in s.puts && w in s'.puts && s.puts[w].stage.SyncingDirectory?
                   && s'.puts[w].stage == Returned(true) && Directory(s.puts[w].job.oid) == Directory(oid)
  }

  lemma StepOnDisk(hash: bytes -> string, s: State, s': State, oid: string)
    requires Inv(hash, s) && Next(hash, s, s') && !LosesPower(s, s')
    ensures Final(oid) in s'.disk <==> Final(oid) in s.disk || SyncedAt(s, s', oid)
  {
    hide ContentOk, NameOk;
    if w: nat :| Acts(hash, s, w, s') {
      assert OwnIsAhead(s.puts[w]);
      ActsOnDisk(hash, s, w, s');
      OnlyTheActorMoves(hash, s, w, s');
      hide Acts;
    } else {
      hide Acts;
      OthersReturnNothing(s, s');
    }
  }

  lemma OnlyTheActorMoves(hash: bytes -> string, s: State, w: nat, s': State)
    requires Inv(hash, s) && Acts(hash, s, w, s')
    ensures forall v | v != w :: (v in s'.puts <==> v in s.puts) && (v in s.puts ==> s'.puts[v] == s.puts[v])
  {
    assert Ready(hash, s, w) by { hide NameOk, ContentOk; }
    ActsIsOk(hash, s, w, s');
    hide Acts, Ready, NameOk, ContentOk;
  }

  lemma OthersReturnNothing(s: State, s': State)
    requires Spawns(s, s') || Begins(s, s') || Dies(s, s')
    ensures s'.disk == s.disk
    ensures forall v | v in s'.puts && v in s.puts :: s'.puts[v] == s.puts[v]
  {
  }

  /**
   Between two power losses an entry is on disk if and only if it was there at
   first or some put has synced its directory since the object was there.
   */
  lemma {:induction false} OnDiskExactlyWhenSynced(hash: bytes -> string, run: seq<State>, i: nat, k: nat, oid: string)
    requires Reachable(hash, run) && i <= k < |run|
    requires forall j | i <= j < k :: !LosesPower(run[j], run[j + 1])
    ensures Final(oid) in run[k].disk <==>
      Final(oid) in run[i].disk || exists j :: i <= j < k && SyncedAt(run[j], run[j + 1], oid)
    decreases k - i
  {
    hide LosesPower, SyncedAt, Next, Inv, Init;
    if i < k {
      OnDiskExactlyWhenSynced(hash, run, i, k - 1, oid);
      assert Next(hash, run[k - 1], run[k]);
      RunKeepsInv(hash, run, k - 1);
      StepOnDisk(hash, run[k - 1], run[k], oid);
    }
  }

  /**
   The object of a put that renamed it and returned well survives a power loss
   if and only if the directories above it are on disk, where directories can
   be synced.
   */
  lemma OwnObjectSurvivesExactlyWhen(hash: bytes -> string, run: seq<State>, k: nat, w: nat)
    requires Reachable(hash, run) && k < |run| && run[k].syncs
    requires w in run[k].puts && run[k].puts[w].own && run[k].puts[w].stage == Returned(true)
    ensures var oid := run[k].puts[w].job.oid;
      && Final(oid) in run[k].disk
      && (Survives(run[k], oid) <==> Directory(oid) in run[k].settled)
  {
    RunKeepsInv(hash, run, k);
    SurvivesExactlyWhen(run[k], run[k].puts[w].job.oid);
    hide Survives;
  }

  // ----- objects of successful puts that may vanish -----

  ghost predicate Leads(hash: bytes -> string, run: seq<State>, s: State, t: State) {
    && run != [] && run[0] == s && run[|run| - 1] == t
    && forall k | 0 <= k < |run| - 1 :: Next(hash, run[k], run[k + 1])
  }

  lemma Joined(hash: bytes -> string, a: seq<State>, b: seq<State>, s: State, t: State, u: State)
    returns (run: seq<State>)
    requires Leads(hash, a, s, t) && Leads(hash, b, t, u)
    ensures Leads(hash, run, s, u)
  {
    hide Next;
    run := a + b[1..];
    forall i | 0 <= i < |run| - 1 ensures Next(hash, run[i], run[i + 1]) {
      if i < |a| - 1 {
        assert run[i] == a[i] && run[i + 1] == a[i + 1];
      } else {
        assert run[i] == b[i - |a| + 1] && run[i + 1] == b[i - |a| + 2];
      }
    }
  }

  lemma Then(hash: bytes -> string, run0: seq<State>, s: State, t: State, u: State) returns (run: seq<State>)
    requires Leads(hash, run0, s, t) && Next(hash, t, u)
    ensures Leads(hash, run, s, u)
  {
    hide Next;
    run := Joined(hash, run0, [t, u], s, t, u);
  }

  function Fresh(job: Job): Put {
    Put(0, job, Choosing, None, [], 0, false, false)
  }

  /** The name the next put of process 0 takes. */
  function NextName(s: State, job: Job): Path
    requires 0 in s.processes
  {
    Temp(job.oid, s.processes[0].pid, 0, s.processes[0].counter)
  }

  /** A put of process 0 that has its temporary file, with these bytes. */
  function Working(s: State, w: nat, job: Job, stage: Stage, data: bytes, synced: bool): State
    requires 0 in s.processes
  {
    var tmp := NextName(s, job);
    With(s, w, Put(0, job, stage, Some(tmp), data, 0, false, false))
      .(files := s.files[tmp := File(data, synced, job.max)],
        processes := s.processes[0 := s.processes[0].(counter := s.processes[0].counter + 1)])
  }

  function Wrote(s: State, w: nat, p: Put, file: File): State
    requires p.tmp.Some?
  {
    With(s, w, p).(files := s.files[p.tmp.value := file])
  }

  predicate InStage(s: State, w: nat, p: Put) {
    w in s.puts && s.puts[w] == p && p.process in s.processes && p.tmp.Some?
  }

  lemma Opened(hash: bytes -> string, s: State, w: nat, p: Put)
    requires InStage(s, w, p) && p.stage.Opening? && p.tmp.value !in s.files
    ensures Acts(hash, s, w, Wrote(s, w, p.(stage := Writing, seen := []), File([], false, p.job.max)))
  {
  }

  lemma Took(hash: bytes -> string, s: State, w: nat, p: Put, data: bytes)
    requires InStage(s, w, p) && p.stage.Writing? && p.seen == [] && |data| <= p.job.max
    ensures Acts(hash, s, w, Wrote(s, w, p.(seen := data), File(data, false, p.job.max)))
  {
    assert [] + data == data;
    assert Wrote(s, w, p.(seen := data), File(data, false, p.job.max)) == Grown(s, w, p, data);
  }

  lemma Finished(hash: bytes -> string, s: State, w: nat, p: Put)
    requires InStage(s, w, p) && p.stage.Writing?
    ensures Acts(hash, s, w, Wrote(s, w, p.(stage := Synced), File(p.seen, true, p.job.max)))
  {
  }

  lemma Checked(hash: bytes -> string, s: State, w: nat, p: Put)
    requires InStage(s, w, p) && p.stage.Synced? && Matches(hash, p.job.oid, p.job.expected, p.job.max, p.seen)
    ensures Acts(hash, s, w, With(s, w, p.(stage := Verified)))
  {
  }

  /** A put of process 0 starts and has the name of its temporary file. */
  lemma Starts(hash: bytes -> string, s: State, w: nat, job: Job) returns (run: seq<State>, p: Put, t: State)
    requires 0 in s.processes && w !in s.puts && job.expected.None?
    ensures p == Fresh(job).(stage := Opening, tmp := Some(NextName(s, job)))
    ensures t == With(s, w, p).(processes := s.processes[0 := s.processes[0].(counter := s.processes[0].counter + 1)])
    ensures Leads(hash, run, s, t)
  {
    p := Fresh(job).(stage := Opening, tmp := Some(NextName(s, job)));
    t := With(s, w, p).(processes := s.processes[0 := s.processes[0].(counter := s.processes[0].counter + 1)]);
    var s1 := With(s, w, Fresh(job));
    assert BeginsAt(s, s1, w, 0, job, false);
    assert With(s1, w, p) == With(s, w, p);
    assert Acts(hash, s1, w, t);
    hide Acts, Spawns, Dies, LosesPower, BeginsAt;
    run := [s, s1, t];
  }

  /** It writes its bytes in one chunk. */
  lemma Fills(hash: bytes -> string, s: State, w: nat, job: Job, data: bytes) returns (run: seq<State>)
    requires 0 in s.processes && w !in s.puts && NextName(s, job) !in s.files
    requires job.expected.None? && |data| <= job.max
    ensures Leads(hash, run, s, Working(s, w, job, Writing, data, false))
  {
    hide Leads, Acts;
    var first, p, s2 := Starts(hash, s, w, job);
    var s3 := Wrote(s2, w, p.(stage := Writing, seen := []), File([], false, job.max));
    Opened(hash, s2, w, p);
    var s4 := Wrote(s3, w, p.(stage := Writing, seen := data), File(data, false, job.max));
    Took(hash, s3, w, p.(stage := Writing, seen := []), data);
    var t := Working(s, w, job, Writing, data, false);
    assert s4.files == t.files && s4.puts == t.puts;
    ActsIsNext(hash, s2, w, s3);
    ActsIsNext(hash, s3, w, s4);
    hide Next;
    run := Then(hash, first, s, s2, s3);
    run := Then(hash, run, s, s3, s4);
  }

  lemma ActsIsNext(hash: bytes -> string, s: State, w: nat, s': State)
    requires Acts(hash, s, w, s')
    ensures Next(hash, s, s')
  {
    hide Acts;
  }

  /** A put of process 0 that starts, receives its bytes and finds them good. */
  lemma Receives(hash: bytes -> string, s: State, w: nat, job: Job, data: bytes) returns (run: seq<State>)
    requires 0 in s.processes && w !in s.puts && NextName(s, job) !in s.files
    requires job.expected.None? && Matches(hash, job.oid, job.expected, job.max, data)
    ensures Leads(hash, run, s, Working(s, w, job, Verified, data, true))
  {
    hide Leads, Acts;
    run := Fills(hash, s, w, job, data);
    var s4 := Working(s, w, job, Writing, data, false);
    var p := s4.puts[w];
    var s5 := Wrote(s4, w, p.(stage := Synced), File(data, true, job.max));
    Finished(hash, s4, w, p);
    var s6 := With(s5, w, p.(stage := Verified));
    Checked(hash, s5, w, p.(stage := Synced));
    var t := Working(s, w, job, Verified, data, true);
    assert s6.files == t.files && s6.puts == t.puts;
    ActsIsNext(hash, s4, w, s5);
    ActsIsNext(hash, s5, w, s6);
    hide Next;
    run := Then(hash, run, s, s4, s5);
    run := Then(hash, run, s, s5, s6);
  }

  // ----- the two families -----

  /** Power is on, nothing is under way, and process 0 runs. */
  function Idle(settled: set<string>): State {
    State(map[], map[0 := Process(0, 0)], map[], map[], settled, true)
  }

  lemma IdleIsReachable(hash: bytes -> string, settled: set<string>) returns (run: seq<State>)
    ensures Leads(hash, run, Idle(settled).(processes := map[]), Idle(settled))
    ensures Init(hash, Idle(settled).(processes := map[]))
  {
    var s := Idle(settled).(processes := map[]);
    var id: nat, pid: nat := 0, 0;
    assert id !in s.processes && Idle(settled) == s.(processes := s.processes[id := Process(pid, 0)]);
    assert Spawns(s, Idle(settled));
    hide Spawns, Acts, Begins, Dies, LosesPower;
    run := [s, Idle(settled)];
  }

  lemma Publishing(hash: bytes -> string, s: State, w: nat, p: Put) returns (run: seq<State>)
    requires InStage(s, w, p) && p.stage.Verified? && p.tmp.value in s.files
    ensures Leads(hash, run, s, Renamed(s, w, p))
  {
    var t := With(s, w, p.(stage := Renaming));
    assert Acts(hash, s, w, t);
    assert Acts(hash, t, w, Renamed(s, w, p)) by {
      assert Renamed(s, w, p) == Renamed(t, w, p.(stage := Renaming));
    }
    hide Acts, Spawns, Begins, Dies, LosesPower;
    run := [s, t, Renamed(s, w, p)];
  }

  /** A put that renames its file while no directory above it is on disk: it returns well, and all may be lost. */
  lemma NewDirectoryMayVanish(hash: bytes -> string, oid: string, data: bytes) returns (run: seq<State>)
    requires hash(data) == oid
    ensures Reachable(hash, run)
    ensures var s := run[|run| - 1];
      && s.syncs && 0 in s.puts && s.puts[0].own && s.puts[0].stage == Returned(true) && s.puts[0].job.oid == oid
      && Final(oid) in s.files && !Survives(s, oid)
  {
    hide Survives, IsDurable, Leads, Next;
    var s, job := Idle({}), Job(oid, None, |data|);
    var first := IdleIsReachable(hash, {});
    var run1 := Receives(hash, s, 0, job, data);
    var s1 := Working(s, 0, job, Verified, data, true);
    var p := s1.puts[0];
    var run2 := Publishing(hash, s1, 0, p);
    var s2 := Renamed(s1, 0, p);
    var s3 := AfterSync(s2, 0, s2.puts[0]);
    SyncIsAStep(hash, s2, 0);
    run := Joined(hash, first, run1, s.(processes := map[]), s, s1);
    run := Joined(hash, run, run2, s.(processes := map[]), s1, s2);
    run := Then(hash, run, s.(processes := map[]), s2, s3);
    LeadsReaches(hash, run, s.(processes := map[]), s3);
    NotSettledNotDurable(s3, oid);
    SurvivesExactlyWhen(s3, oid);
  }

  lemma NotSettledNotDurable(s: State, oid: string)
    requires Directory(oid) !in s.settled || Final(oid) !in s.disk
    ensures !IsDurable(s, oid)
  {
  }

  lemma SyncIsAStep(hash: bytes -> string, s: State, w: nat)
    requires w in s.puts && InStage(s, w, s.puts[w]) && s.puts[w].stage.SyncingDirectory?
    ensures Next(hash, s, AfterSync(s, w, s.puts[w]))
  {
    hide InDirectory;
    assert Acts(hash, s, w, AfterSync(s, w, s.puts[w]));
    hide Acts, Spawns, Begins, Dies, LosesPower;
  }

  lemma LeadsReaches(hash: bytes -> string, run: seq<State>, s: State, t: State)
    requires Leads(hash, run, s, t) && Init(hash, s)
    ensures Reachable(hash, run) && run[|run| - 1] == t
  {
    hide Next, Init;
  }

  /**
   A put that finds the object already there returns well without a sync: when
   the put that renamed the file has not synced the directory yet, the object
   of the successful one may be lost, even from a directory that is on disk.
   */
  lemma DuplicateMayVanish(hash: bytes -> string, oid: string, data: bytes) returns (run: seq<State>)
    requires hash(data) == oid
    ensures Reachable(hash, run)
    ensures var s := run[|run| - 1];
      && s.syncs && Directory(oid) in s.settled
      && 1 in s.puts && s.puts[1].stage == Returned(true) && s.puts[1].job.oid == oid
      && Final(oid) in s.files && !Survives(s, oid)
  {
    hide Survives, IsDurable, Leads, Next;
    var s, job := Idle({Directory(oid)}), Job(oid, None, |data|);
    var s0 := s.(processes := map[]);
    var first := IdleIsReachable(hash, {Directory(oid)});
    var run1 := Receives(hash, s, 0, job, data);
    var s1 := Working(s, 0, job, Verified, data, true);
    var run2 := Publishing(hash, s1, 0, s1.puts[0]);
    var s2 := Renamed(s1, 0, s1.puts[0]);
    var run3 := Receives(hash, s2, 1, job, data);
    var s3 := Working(s2, 1, job, Verified, data, true);
    var run4, s4 := DuplicateReturns(hash, s3, 1);
    run := Joined(hash, first, run1, s0, s, s1);
    run := Joined(hash, run, run2, s0, s1, s2);
    run := Joined(hash, run, run3, s0, s2, s3);
    run := Joined(hash, run, run4, s0, s3, s4);
    LeadsReaches(hash, run, s0, s4);
    NotSettledNotDurable(s4, oid);
    SurvivesExactlyWhen(s4, oid);
  }

  lemma DuplicateReturns(hash: bytes -> string, s: State, w: nat) returns (run: seq<State>, t: State)
    requires w in s.puts && InStage(s, w, s.puts[w]) && s.puts[w].stage.Verified?
    requires s.puts[w].tmp.value.Temp? && Final(s.puts[w].job.oid) in s.files
    ensures Leads(hash, run, s, t)
    ensures t == With(s, w, s.puts[w].(stage := Returned(true))).(files := s.files - {s.puts[w].tmp.value})
  {
    var p := s.puts[w];
    var found := With(s, w, p.(stage := Duplicate));
    t := With(s, w, p.(stage := Returned(true))).(files := s.files - {p.tmp.value});
    assert Acts(hash, s, w, found);
    assert With(found, w, p.(stage := Returned(true))) == With(s, w, p.(stage := Returned(true)));
    assert Acts(hash, found, w, t);
    hide Acts, Spawns, Begins, Dies, LosesPower;
    run := [s, found, t];
  }
}
