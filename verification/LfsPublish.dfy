/**
 Any number of puts at once, in any number of processes, with a crash possible
 at any step (crates/jeryu-gitd/src/lfs.rs).

 A call to the file system is one step. A process may die between any two
 steps, and the machine may lose power: then files never synced hold anything.
 */
module LfsPublish {
  import opened Common
  import opened Utf8
  import opened LfsStore

  /** `synced` files keep their bytes through a power loss; `limit` is the size limit of the put that wrote it. */
  datatype File = File(data: bytes, synced: bool, limit: nat)

  /** A running process: its id and its counter of temporary names. */
  datatype Process = Process(pid: nat, counter: nat)

  datatype Job = Job(oid: string, expected: Option<nat>, max: nat)

  datatype Stage =
    | Choosing | Opening | Writing | Synced | Verified | Duplicate | Renaming | SyncingDirectory | Failing
    | Returned(ok: bool)

  /**
   `seen` is what has been hashed; `kept` says that removing the temporary file
   failed, `own` that the put has renamed its file to the object.
   */
  datatype Put = Put(process: nat, job: Job, stage: Stage, tmp: Option<Path>, seen: bytes, attempts: nat, kept: bool,
                     own: bool)

  /**
   `disk` holds the objects whose directory entries have reached the disk, and
   `settled` the directories that have themselves, with those above them.
   `syncs` is whether the file system can sync a directory at all.
   */
  datatype State = State(files: map<Path, File>, processes: map<nat, Process>, puts: map<nat, Put>,
                         disk: map<Path, File>, settled: set<string>, syncs: bool)

  /** Two directories of two characters each stand above an object. */
  function Directory(oid: string): string {
    if |oid| < 4 then oid else oid[..4]
  }

  /** The entries a sync of the directory of `oid` brings to the disk. */
  function InDirectory(files: map<Path, File>, oid: string): map<Path, File> {
    map f | f in files && f.Final? && Directory(f.oid) == Directory(oid) :: files[f]
  }

  // ----- steps -----

  function With(s: State, w: nat, p: Put): State {
    s.(puts := s.puts[w := p])
  }

  ghost predicate Chooses(s: State, w: nat, p: Put, s': State)
    requires p.process in s.processes
  {
    var process := s.processes[p.process];
    if p.attempts >= TEMP_NAME_ATTEMPTS then s' == With(s, w, p.(stage := Returned(false)))
    else exists now: nat ::
      s' == With(s, w, p.(stage := Opening, tmp := Some(Temp(p.job.oid, process.pid, now, process.counter))))
              .(processes := s.processes[p.process := process.(counter := process.counter + 1)])
  }

  /** `create_new` never opens a file that is already there, and may fail for other reasons. */
  predicate Opens(s: State, w: nat, p: Put, s': State)
    requires p.tmp.Some?
  {
    || s' == With(s, w, p.(stage := Returned(false), tmp := None))
    || s' == (if p.tmp.value in s.files then
                With(s, w, p.(stage := Choosing, tmp := None, attempts := p.attempts + 1))
              else
                With(s, w, p.(stage := Writing, seen := []))
                  .(files := s.files[p.tmp.value := File([], false, p.job.max)]))
  }

  function Grown(s: State, w: nat, p: Put, chunk: bytes): State
    requires p.tmp.Some?
  {
    With(s, w, p.(seen := p.seen + chunk)).(files := s.files[p.tmp.value := File(p.seen + chunk, false, p.job.max)])
  }

  /** A failure half-way leaves any bytes behind. */
  function Broken(s: State, w: nat, p: Put, left: bytes): State
    requires p.tmp.Some?
  {
    With(s, w, p.(stage := Failing)).(files := s.files[p.tmp.value := File(left, false, p.job.max)])
  }

  /** A chunk within the limit, the end of the input and a good sync, or any failure. */
  ghost predicate Writes(s: State, w: nat, p: Put, s': State)
    requires p.tmp.Some?
  {
    || (exists chunk: bytes :: |p.seen| + |chunk| <= p.job.max && s' == Grown(s, w, p, chunk))
    || s' == With(s, w, p.(stage := Synced)).(files := s.files[p.tmp.value := File(p.seen, true, p.job.max)])
    || (exists left: bytes :: s' == Broken(s, w, p, left))
  }

  /** The temporary file has become the object. */
  function Renamed(s: State, w: nat, p: Put): State
    requires p.tmp.Some? && p.tmp.value in s.files
  {
    With(s, w, p.(stage := SyncingDirectory, own := true))
      .(files := (s.files - {p.tmp.value})[Final(p.job.oid) := s.files[p.tmp.value]])
  }

  predicate Publishes(s: State, w: nat, p: Put, s': State)
    requires p.tmp.Some?
  {
    s' == With(s, w, p.(stage := Failing)) || (p.tmp.value in s.files && s' == Renamed(s, w, p))
  }

  predicate Checks(hash: bytes -> string, s: State, w: nat, p: Put, s': State) {
    if p.stage.Synced? then
      s' == With(s, w, p.(stage := if Matches(hash, p.job.oid, p.job.expected, p.job.max, p.seen) then Verified
                                   else Failing))
    else
      // The question whether the object exists may fail, which counts as a no.
      || s' == With(s, w, p.(stage := Renaming))
      || (Final(p.job.oid) in s.files && s' == With(s, w, p.(stage := Duplicate)))
  }

  /** The put returns and its temporary file goes. */
  predicate Removes(s: State, w: nat, p: Put, ok: bool, s': State)
    requires p.tmp.Some?
  {
    s' == With(s, w, p.(stage := Returned(ok))).(files := s.files - {p.tmp.value})
  }

  /** A file system that cannot sync a directory counts as one that did. */
  function AfterSync(s: State, w: nat, p: Put): State {
    With(s, w, p.(stage := Returned(true)))
      .(disk := if s.syncs then s.disk + InDirectory(s.files, p.job.oid) else s.disk)
  }

  predicate SyncsDirectory(s: State, w: nat, p: Put, s': State) {
    s' == AfterSync(s, w, p)
  }

  predicate Ends(s: State, w: nat, p: Put, s': State)
    requires p.tmp.Some?
  {
    match p.stage
    case Duplicate => Removes(s, w, p, true, s') || s' == With(s, w, p.(stage := Failing))
    case SyncingDirectory => SyncsDirectory(s, w, p, s') || s' == With(s, w, p.(stage := Failing))
    case Failing => Removes(s, w, p, false, s') || s' == With(s, w, p.(stage := Returned(false), kept := true))
    case _ => false
  }

  ghost predicate Acts(hash: bytes -> string, s: State, w: nat, s': State) {
    && w in s.puts && s.puts[w].process in s.processes
    && var p := s.puts[w];
    && (p.tmp.None? ==> p.stage.Choosing?)
    && match p.stage
       case Choosing => Chooses(s, w, p, s')
       case Opening => Opens(s, w, p, s')
       case Writing => Writes(s, w, p, s')
       case Renaming => Publishes(s, w, p, s')
       case Synced => Checks(hash, s, w, p, s')
       case Verified => Checks(hash, s, w, p, s')
       case _ => Ends(s, w, p, s')
  }

  /** A new process, whose id no running one has. */
  ghost predicate Spawns(s: State, s': State) {
    exists id: nat, pid: nat :: id !in s.processes && (forall q | q in s.processes :: s.processes[q].pid != pid)
      && s' == s.(processes := s.processes[id := Process(pid, 0)])
  }

  /** An expected size over the limit is refused at once, and the directory may not be there to make. */
  predicate BeginsAt(s: State, s': State, w: nat, q: nat, job: Job, refused: bool) {
    && w !in s.puts && q in s.processes
    && (job.expected.Some? && job.expected.value > job.max ==> refused)
    && s' == With(s, w, Put(q, job, if refused then Returned(false) else Choosing, None, [], 0, false, false))
  }

  ghost predicate Begins(s: State, s': State) {
    exists w: nat, q: nat, job: Job, refused: bool :: BeginsAt(s, s', w, q, job, refused)
  }

  ghost predicate Dies(s: State, s': State) {
    exists q: nat :: q in s.processes
      && s' == s.(processes := s.processes - {q}, puts := map w | w in s.puts && s.puts[w].process != q :: s.puts[w])
  }

  /** What a power loss may make of an object: the file that replaced it, the one on disk, or nothing. */
  predicate ComesBack(s: State, f: Path, file: File) {
    || (f in s.files && (s.files[f].synced ==> file == s.files[f]))
    || (f in s.disk && file == s.disk[f])
  }

  /** The entry and the directories above it are on disk. */
  predicate IsDurable(s: State, oid: string) {
    Final(oid) in s.disk && Directory(oid) in s.settled
  }

  /**
   Temporary files may come back in any state unless synced; objects come back
   if they are durable and may otherwise. What came back is on disk.
   */
  ghost predicate LosesPower(s: State, s': State) {
    && s'.processes == map[] && s'.puts == map[] && s'.syncs == s.syncs
    && (forall f | f in s'.files && f.Temp? && f in s.files && s.files[f].synced :: s'.files[f] == s.files[f])
    && (forall f | f in s'.files && f.Final? :: ComesBack(s, f, s'.files[f]))
    && (forall oid | IsDurable(s, oid) :: Final(oid) in s'.files)
    && s'.disk == (map f | f in s'.files && f.Final? :: s'.files[f])
    && s.settled <= s'.settled
    && (forall oid | Final(oid) in s'.files :: Directory(oid) in s'.settled)
  }

  ghost predicate Next(hash: bytes -> string, s: State, s': State) {
    || (exists w: nat :: Acts(hash, s, w, s'))
    || Spawns(s, s') || Begins(s, s') || Dies(s, s') || LosesPower(s, s')
  }

  /** Before any put: good objects, and whatever temporary files an earlier crash left. */
  ghost predicate Init(hash: bytes -> string, s: State) {
    s.processes == map[] && s.puts == map[] && ObjectsGenuine(hash, s) && DiskOk(hash, s)
  }

  ghost predicate Reachable(hash: bytes -> string, run: seq<State>) {
    && |run| > 0 && Init(hash, run[0])
    && forall k | 0 <= k < |run| - 1 :: Next(hash, run[k], run[k + 1])
  }

  // ----- the invariant -----

  ghost predicate PidsDistinct(s: State) {
    forall p, q | p in s.processes && q in s.processes && s.processes[p].pid == s.processes[q].pid :: p == q
  }

  /** A put's name carries its process and a number its process has used up. */
  predicate NameOk(s: State, p: Put) {
    && p.process in s.processes
    && (p.stage.Choosing? ==> p.tmp.None?)
    && (p.tmp.None? ==> p.stage.Choosing? || p.stage == Returned(false))
    && (p.tmp.Some? ==> p.tmp.value.Temp? && p.tmp.value.pid == s.processes[p.process].pid
                        && p.tmp.value.unique < s.processes[p.process].counter)
  }

  ghost predicate NamesOk(s: State) {
    forall w | w in s.puts :: NameOk(s, s.puts[w])
  }

  ghost predicate NamesDistinct(s: State) {
    forall w, v | w in s.puts && v in s.puts && s.puts[w].tmp.Some? && s.puts[w].tmp == s.puts[v].tmp :: w == v
  }

  /** What a put may rely on in the files, stage by stage. */
  predicate ContentOk(hash: bytes -> string, files: map<Path, File>, p: Put) {
    p.tmp.Some? ==>
      var tmp := p.tmp.value;
      match p.stage
      case Writing =>
        tmp in files && files[tmp].data == p.seen && files[tmp].limit == p.job.max && |p.seen| <= p.job.max
      case Synced => tmp in files && files[tmp] == File(p.seen, true, p.job.max) && |p.seen| <= p.job.max
      case Verified => tmp in files && files[tmp] == File(p.seen, true, p.job.max) && Fits(hash, p)
      case Renaming => tmp in files && files[tmp] == File(p.seen, true, p.job.max) && Fits(hash, p)
      case Duplicate => Final(p.job.oid) in files
      case SyncingDirectory => tmp !in files && Final(p.job.oid) in files
      case Returned(ok) => (!p.kept ==> tmp !in files) && (ok ==> Final(p.job.oid) in files)
      case _ => true
  }

  predicate Fits(hash: bytes -> string, p: Put) {
    Matches(hash, p.job.oid, p.job.expected, p.job.max, p.seen)
  }

  ghost predicate ContentsOk(hash: bytes -> string, s: State) {
    forall w | w in s.puts :: ContentOk(hash, s.files, s.puts[w])
  }

  predicate IsGenuine(hash: bytes -> string, oid: string, file: File) {
    file.synced && hash(file.data) == oid && |file.data| <= file.limit
  }

  predicate Genuine(hash: bytes -> string, s: State, oid: string) {
    Final(oid) in s.files ==> IsGenuine(hash, oid, s.files[Final(oid)])
  }

  ghost predicate ObjectsGenuine(hash: bytes -> string, s: State) {
    forall oid :: Genuine(hash, s, oid)
  }

  /** What is on disk is an object that is there, with bytes just as good. */
  ghost predicate DiskOk(hash: bytes -> string, s: State) {
    forall f | f in s.disk :: f.Final? && f in s.files && IsGenuine(hash, f.oid, s.disk[f])
  }

  predicate OwnIsAhead(p: Put) {
    p.own ==> p.stage.SyncingDirectory? || p.stage.Failing? || p.stage.Returned?
  }

  /** A put that renamed its file and returned well has synced the entry, where that can be done. */
  ghost predicate OwnSynced(s: State) {
    && (forall w | w in s.puts :: OwnIsAhead(s.puts[w]))
    && (forall w | w in s.puts && s.puts[w].own && s.puts[w].stage == Returned(true) && s.syncs ::
          Final(s.puts[w].job.oid) in s.disk)
  }

  ghost predicate Inv(hash: bytes -> string, s: State) {
    && PidsDistinct(s) && NamesOk(s) && NamesDistinct(s) && ContentsOk(hash, s) && ObjectsGenuine(hash, s)
    && DiskOk(hash, s) && OwnSynced(s)
  }

  // ----- one step of one put -----

  /** What a step can touch: its own put, its own temporary file, its own object, its process's counter. */
  ghost predicate Local(s: State, w: nat, s': State) {
    && w in s.puts && w in s'.puts
    && var p, p' := s.puts[w], s'.puts[w];
    && s'.puts == s.puts[w := p']
    && p'.process == p.process && p'.job == p.job && p.process in s.processes
    && s'.processes.Keys == s.processes.Keys
    && (forall q | q in s.processes :: s'.processes[q].pid == s.processes[q].pid
          && s.processes[q].counter <= s'.processes[q].counter)
    && (p'.tmp == p.tmp || p'.tmp.None?
        || (p'.tmp.value.Temp? && p'.tmp.value.pid == s.processes[p.process].pid
            && s.processes[p.process].counter == p'.tmp.value.unique < s'.processes[p.process].counter))
    && (forall f | f != Final(p.job.oid) && Some(f) != p.tmp ::
          (f in s'.files <==> f in s.files) && (f in s.files ==> s'.files[f] == s.files[f]))
    && (Final(p.job.oid) in s.files ==> Final(p.job.oid) in s'.files)
  }

  /** The put itself is where it should be after its step. */
  ghost predicate OwnOk(hash: bytes -> string, s: State, w: nat, s': State) {
    Local(s, w, s') && NameOk(s', s'.puts[w]) && ContentOk(hash, s'.files, s'.puts[w])
  }

  ghost predicate Ready(hash: bytes -> string, s: State, w: nat) {
    w in s.puts && NameOk(s, s.puts[w]) && ContentOk(hash, s.files, s.puts[w])
  }

  lemma ChoosingIsOk(hash: bytes -> string, s: State, w: nat, s': State)
    requires Ready(hash, s, w) && s.puts[w].stage.Choosing? && Chooses(s, w, s.puts[w], s')
    ensures OwnOk(hash, s, w, s')
  {
    hide Fits;
  }

  lemma OpeningIsOk(hash: bytes -> string, s: State, w: nat, s': State)
    requires Ready(hash, s, w) && s.puts[w].stage.Opening? && Opens(s, w, s.puts[w], s')
    ensures OwnOk(hash, s, w, s')
  {
    var p := s.puts[w];
    hide OwnOk, NameOk;
    if p.tmp.value !in s.files && s' != With(s, w, p.(stage := Returned(false), tmp := None)) {
      RewritingIsOk(hash, s, w, p.(stage := Writing, seen := []), File([], false, p.job.max));
    } else {
      LettingGoIsOk(hash, s, w, s'.puts[w]);
    }
  }

  /** The put has no temporary file any more, or not yet. */
  lemma LettingGoIsOk(hash: bytes -> string, s: State, w: nat, p': Put)
    requires Ready(hash, s, w)
    requires p' == s.puts[w].(stage := p'.stage, tmp := None, attempts := p'.attempts)
    requires p'.stage.Choosing? || p'.stage == Returned(false)
    ensures OwnOk(hash, s, w, With(s, w, p'))
  {
    hide Fits;
  }

  lemma WritingIsOk(hash: bytes -> string, s: State, w: nat, s': State)
    requires Ready(hash, s, w) && s.puts[w].stage.Writing? && Writes(s, w, s.puts[w], s')
    ensures OwnOk(hash, s, w, s')
  {
    var p := s.puts[w];
    hide OwnOk, NameOk, Fits;
    assert |p.seen| <= p.job.max;
    var synced := File(p.seen, true, p.job.max);
    if s' == With(s, w, p.(stage := Synced)).(files := s.files[p.tmp.value := synced]) {
      RewritingIsOk(hash, s, w, p.(stage := Synced), synced);
    } else if chunk: bytes :| |p.seen| + |chunk| <= p.job.max && s' == Grown(s, w, p, chunk) {
      RewritingIsOk(hash, s, w, p.(seen := p.seen + chunk), File(p.seen + chunk, false, p.job.max));
    } else {
      var left: bytes :| s' == Broken(s, w, p, left);
      RewritingIsOk(hash, s, w, p.(stage := Failing), File(left, false, p.job.max));
    }
  }

  /** The put writes its temporary file. */
  lemma RewritingIsOk(hash: bytes -> string, s: State, w: nat, p': Put, file: File)
    requires Ready(hash, s, w) && s.puts[w].tmp.Some? && s.puts[w].process in s.processes
    requires p' == s.puts[w].(stage := p'.stage, seen := p'.seen) && !p'.stage.Choosing?
    requires ContentOk(hash, s.files[s.puts[w].tmp.value := file], p')
    ensures OwnOk(hash, s, w, With(s, w, p').(files := s.files[s.puts[w].tmp.value := file]))
  {
    hide ContentOk;
  }

  lemma PublishingIsOk(hash: bytes -> string, s: State, w: nat, s': State)
    requires Ready(hash, s, w) && s.puts[w].stage.Renaming? && Publishes(s, w, s.puts[w], s')
    ensures OwnOk(hash, s, w, s')
  {
    hide Fits;
  }

  lemma CheckingIsOk(hash: bytes -> string, s: State, w: nat, s': State)
    requires Ready(hash, s, w) && (s.puts[w].stage.Synced? || s.puts[w].stage.Verified?)
    requires Checks(hash, s, w, s.puts[w], s')
    ensures OwnOk(hash, s, w, s')
  {
    hide Matches;
  }

  /** Only the put moves on; the files stay as they are. */
  lemma MovingOnIsOk(hash: bytes -> string, s: State, w: nat, p': Put, disk: map<Path, File>)
    requires Ready(hash, s, w) && s.puts[w].tmp.Some? && s.puts[w].process in s.processes
    requires p' == s.puts[w].(stage := p'.stage, kept := p'.kept) && !p'.stage.Choosing?
    requires ContentOk(hash, s.files, p')
    ensures OwnOk(hash, s, w, With(s, w, p').(disk := disk))
  {
    hide ContentOk;
  }

  lemma RemovingIsOk(hash: bytes -> string, s: State, w: nat, ok: bool, s': State)
    requires Ready(hash, s, w) && s.puts[w].tmp.Some? && s.puts[w].process in s.processes
    requires (ok ==> Final(s.puts[w].job.oid) in s.files) && Removes(s, w, s.puts[w], ok, s')
    ensures OwnOk(hash, s, w, s')
  {
    hide Fits;
  }

  /** What the stages that end a put rely on. */
  lemma FinalIsThere(hash: bytes -> string, s: State, w: nat)
    requires Ready(hash, s, w) && s.puts[w].tmp.Some?
    ensures var p := s.puts[w];
      && p.process in s.processes
      && (p.stage.Duplicate? || p.stage.SyncingDirectory? ==> Final(p.job.oid) in s.files)
      && (p.stage.SyncingDirectory? ==> ContentOk(hash, s.files, p.(stage := Returned(true))))
      && ContentOk(hash, s.files, p.(stage := Failing))
      && ContentOk(hash, s.files, p.(stage := Returned(false), kept := true))
  {
    hide Fits;
  }

  lemma EndingIsOk(hash: bytes -> string, s: State, w: nat, s': State)
    requires Ready(hash, s, w) && s.puts[w].tmp.Some? && Ends(s, w, s.puts[w], s')
    ensures OwnOk(hash, s, w, s')
  {
    var p := s.puts[w];
    FinalIsThere(hash, s, w);
    hide OwnOk, Ready, NameOk, ContentOk, Removes, SyncsDirectory;
    if Removes(s, w, p, p.stage.Duplicate?, s') {
      RemovingIsOk(hash, s, w, p.stage.Duplicate?, s');
    } else if SyncsDirectory(s, w, p, s') && p.stage.SyncingDirectory? {
      SyncingIsOk(hash, s, w, s');
    } else {
      MovingOnIsOk(hash, s, w, if p.stage.Failing? then p.(stage := Returned(false), kept := true)
                               else p.(stage := Failing), s.disk);
    }
  }

  lemma SyncingIsOk(hash: bytes -> string, s: State, w: nat, s': State)
    requires w in s.puts && Ready(hash, s, w) && s.puts[w].tmp.Some? && s.puts[w].process in s.processes
    requires SyncsDirectory(s, w, s.puts[w], s')
    requires ContentOk(hash, s.files, s.puts[w].(stage := Returned(true)))
    ensures OwnOk(hash, s, w, s')
  {
    hide OwnOk, Ready, NameOk, ContentOk, InDirectory;
    MovingOnIsOk(hash, s, w, s.puts[w].(stage := Returned(true)), s'.disk);
  }

  lemma ActsIsOk(hash: bytes -> string, s: State, w: nat, s': State)
    requires Ready(hash, s, w) && Acts(hash, s, w, s')
    ensures OwnOk(hash, s, w, s')
  {
    hide Ready, OwnOk, Chooses, Opens, Writes, Publishes, Checks, Ends;
    match s.puts[w].stage {
      case Choosing => ChoosingIsOk(hash, s, w, s');
      case Opening => OpeningIsOk(hash, s, w, s');
      case Writing => WritingIsOk(hash, s, w, s');
      case Renaming => PublishingIsOk(hash, s, w, s');
      case Synced => CheckingIsOk(hash, s, w, s');
      case Verified => CheckingIsOk(hash, s, w, s');
      case _ => EndingIsOk(hash, s, w, s');
    }
  }

  lemma LocalKeepsNames(s: State, w: nat, s': State)
    requires Local(s, w, s') && PidsDistinct(s) && NamesOk(s) && NamesDistinct(s) && NameOk(s', s'.puts[w])
    ensures PidsDistinct(s') && NamesOk(s') && NamesDistinct(s')
  {
    forall v | v in s'.puts ensures NameOk(s', s'.puts[v]) {
      assert v != w ==> s'.puts[v] == s.puts[v] && NameOk(s, s.puts[v]);
    }
    forall v | v in s'.puts && v != w && s'.puts[w].tmp.Some? ensures s'.puts[v].tmp != s'.puts[w].tmp {
      assert s'.puts[v] == s.puts[v] && NameOk(s, s.puts[v]);
      assert NameOk(s, s.puts[w]);
    }
  }

  /** Other puts see no change in what they rely on. */
  lemma LocalKeepsOthers(hash: bytes -> string, s: State, w: nat, s': State, v: nat)
    requires Local(s, w, s') && NamesOk(s) && NamesDistinct(s) && v in s.puts && v != w
    requires ContentOk(hash, s.files, s.puts[v])
    ensures ContentOk(hash, s'.files, s'.puts[v])
  {
    hide Fits;
    assert NameOk(s, s.puts[v]) && NameOk(s, s.puts[w]);
  }

  lemma ActsKeepsObjects(hash: bytes -> string, s: State, w: nat, s': State, oid: string)
    requires Acts(hash, s, w, s') && NameOk(s, s.puts[w]) && ContentOk(hash, s.files, s.puts[w])
    requires Genuine(hash, s, oid)
    ensures Genuine(hash, s', oid)
  {
  }

  /** Only the sync of a directory brings entries to the disk, and only after it a put with its own object returns. */
  ghost predicate DiskStep(s: State, w: nat, s': State) {
    && w in s.puts && w in s'.puts && s'.settled == s.settled && s'.syncs == s.syncs
    && OwnIsAhead(s'.puts[w])
    && if s.puts[w].stage.SyncingDirectory? && s'.puts[w].stage == Returned(true) then
         && s'.files == s.files
         && s'.disk == if s.syncs then s.disk + InDirectory(s.files, s.puts[w].job.oid) else s.disk
       else s'.disk == s.disk && !(s'.puts[w].own && s'.puts[w].stage == Returned(true))
  }

  lemma WritesOffDisk(s: State, w: nat, s': State)
    requires w in s.puts && OwnIsAhead(s.puts[w]) && s.puts[w].stage.Writing? && s.puts[w].tmp.Some?
    requires Writes(s, w, s.puts[w], s')
    ensures DiskStep(s, w, s')
  {
  }

  lemma ChecksOffDisk(hash: bytes -> string, s: State, w: nat, s': State)
    requires w in s.puts && OwnIsAhead(s.puts[w]) && (s.puts[w].stage.Synced? || s.puts[w].stage.Verified?)
    requires Checks(hash, s, w, s.puts[w], s')
    ensures DiskStep(s, w, s')
  {
    hide Matches;
  }

  lemma EndsOnDisk(s: State, w: nat, s': State)
    requires w in s.puts && OwnIsAhead(s.puts[w]) && s.puts[w].tmp.Some? && Ends(s, w, s.puts[w], s')
    ensures DiskStep(s, w, s')
  {
    var p := s.puts[w];
    hide InDirectory, DiskStep;
    if p.stage.SyncingDirectory? && SyncsDirectory(s, w, p, s') {
      SyncsOnDisk(s, w, s');
    } else if !p.stage.SyncingDirectory? && Removes(s, w, p, p.stage.Duplicate?, s') {
      RemovesOffDisk(s, w, p.stage.Duplicate?, s');
    } else {
      FailsOffDisk(s, w, s');
    }
  }

  lemma SyncsOnDisk(s: State, w: nat, s': State)
    requires w in s.puts && s.puts[w].stage.SyncingDirectory? && SyncsDirectory(s, w, s.puts[w], s')
    ensures DiskStep(s, w, s')
  {
    hide InDirectory;
  }

  lemma RemovesOffDisk(s: State, w: nat, ok: bool, s': State)
    requires w in s.puts && OwnIsAhead(s.puts[w]) && s.puts[w].tmp.Some? && Removes(s, w, s.puts[w], ok, s')
    requires ok ==> s.puts[w].stage.Duplicate?
    requires !s.puts[w].stage.SyncingDirectory?
    ensures DiskStep(s, w, s')
  {
    hide InDirectory;
  }

  lemma FailsOffDisk(s: State, w: nat, s': State)
    requires w in s.puts
    requires var p := s.puts[w];
      s' == With(s, w, p.(stage := Failing)) || s' == With(s, w, p.(stage := Returned(false), kept := true))
    ensures DiskStep(s, w, s')
  {
    hide InDirectory;
  }

  lemma OpensOffDisk(s: State, w: nat, s': State)
    requires w in s.puts && OwnIsAhead(s.puts[w]) && s.puts[w].process in s.processes
    requires (s.puts[w].stage.Choosing? && Chooses(s, w, s.puts[w], s'))
          || (s.puts[w].stage.Opening? && s.puts[w].tmp.Some? && Opens(s, w, s.puts[w], s'))
          || (s.puts[w].stage.Renaming? && s.puts[w].tmp.Some? && Publishes(s, w, s.puts[w], s'))
    ensures DiskStep(s, w, s')
  {
  }

  lemma ActsOnDisk(hash: bytes -> string, s: State, w: nat, s': State)
    requires Acts(hash, s, w, s') && OwnIsAhead(s.puts[w])
    ensures DiskStep(s, w, s')
  {
    hide DiskStep, Chooses, Opens, Writes, Publishes, Checks, Ends;
    match s.puts[w].stage {
      case Writing => WritesOffDisk(s, w, s');
      case Choosing => OpensOffDisk(s, w, s');
      case Opening => OpensOffDisk(s, w, s');
      case Renaming => OpensOffDisk(s, w, s');
      case Synced => ChecksOffDisk(hash, s, w, s');
      case Verified => ChecksOffDisk(hash, s, w, s');
      case _ => EndsOnDisk(s, w, s');
    }
  }

  lemma ActsKeepsDisk(hash: bytes -> string, s: State, w: nat, s': State)
    requires DiskStep(s, w, s') && ObjectsGenuine(hash, s) && DiskOk(hash, s)
    requires Local(s, w, s') && NameOk(s, s.puts[w])
    ensures DiskOk(hash, s') && (forall f | f in s.disk :: f in s'.disk)
  {
    hide IsGenuine;
    assert forall f | f in s.files && f.Final? :: Genuine(hash, s, f.oid);
  }

  lemma ActsKeepsOwn(hash: bytes -> string, s: State, w: nat, s': State)
    requires DiskStep(s, w, s') && OwnSynced(s) && Ready(hash, s, w) && Local(s, w, s')
    requires forall f | f in s.disk :: f in s'.disk
    ensures OwnSynced(s')
  {
    var f := Final(s.puts[w].job.oid);
    assert s.puts[w].stage.SyncingDirectory? && s.puts[w].tmp.Some? ==> f in s.files by { hide Fits; }
    assert s.puts[w].stage.SyncingDirectory? ==> s.puts[w].tmp.Some? by { hide ContentOk; }
    assert f in s.files ==> f in InDirectory(s.files, s.puts[w].job.oid);
    hide Ready, InDirectory;
  }

  lemma ActsKeepsInv(hash: bytes -> string, s: State, w: nat, s': State)
    requires Inv(hash, s) && Acts(hash, s, w, s')
    ensures Inv(hash, s')
  {
    assert Ready(hash, s, w) by { hide NameOk, ContentOk; }
    ActsIsOk(hash, s, w, s');
    hide Fits, IsGenuine;
    ActsOnDisk(hash, s, w, s');
    ActsKeepsDisk(hash, s, w, s');
    ActsKeepsOwn(hash, s, w, s');
    hide Acts, NameOk, ContentOk, Genuine, PidsDistinct, NamesOk, NamesDistinct, Local, DiskOk, OwnSynced;
    LocalKeepsNames(s, w, s');
    forall v | v in s'.puts ensures ContentOk(hash, s'.files, s'.puts[v]) {
      if v != w {
        LocalKeepsOthers(hash, s, w, s', v);
      }
    }
    forall oid ensures Genuine(hash, s', oid) {
      ActsKeepsObjects(hash, s, w, s', oid);
    }
  }

  // ----- the other steps -----

  lemma SpawningKeepsInv(hash: bytes -> string, s: State, s': State)
    requires Inv(hash, s) && Spawns(s, s')
    ensures Inv(hash, s')
  {
    assert forall oid :: Genuine(hash, s, oid) ==> Genuine(hash, s', oid);
    assert PidsDistinct(s');
    hide PidsDistinct, Genuine;
    assert forall w | w in s.puts :: NameOk(s, s.puts[w]) && NameOk(s', s'.puts[w]);
    hide NameOk, ContentOk;
  }

  lemma NewPutKeepsNames(s: State, s': State, w: nat, q: nat, job: Job, refused: bool)
    requires NamesOk(s) && NamesDistinct(s) && PidsDistinct(s) && BeginsAt(s, s', w, q, job, refused)
    ensures NamesOk(s') && NamesDistinct(s') && PidsDistinct(s')
  {
    forall v | v in s'.puts ensures NameOk(s', s'.puts[v]) {
      assert v in s.puts ==> NameOk(s, s.puts[v]);
    }
  }

  lemma NewPutKeepsContents(hash: bytes -> string, s: State, s': State, w: nat, q: nat, job: Job, refused: bool)
    requires ContentsOk(hash, s) && BeginsAt(s, s', w, q, job, refused)
    ensures ContentsOk(hash, s')
  {
    hide Fits;
    forall v | v in s'.puts ensures ContentOk(hash, s'.files, s'.puts[v]) {
      assert v in s.puts ==> ContentOk(hash, s.files, s.puts[v]);
    }
  }

  lemma BeginningKeepsInv(hash: bytes -> string, s: State, s': State)
    requires Inv(hash, s) && Begins(s, s')
    ensures Inv(hash, s')
  {
    var w: nat, q: nat, job: Job, refused: bool :| BeginsAt(s, s', w, q, job, refused);
    hide PidsDistinct, NamesOk, NamesDistinct, ContentsOk, Genuine;
    NewPutKeepsNames(s, s', w, q, job, refused);
    NewPutKeepsContents(hash, s, s', w, q, job, refused);
    assert s'.files == s.files && s'.disk == s.disk;
    hide BeginsAt;
    SameObjectsStayGenuine(hash, s, s');
  }

  /** Fewer processes, and of the puts only those of the processes that are left. */
  ghost predicate Fewer(s: State, s': State) {
    && s'.files == s.files && s'.disk == s.disk && s'.settled == s.settled && s'.syncs == s.syncs
    && (forall q | q in s'.processes :: q in s.processes && s'.processes[q] == s.processes[q])
    && (forall w | w in s'.puts :: w in s.puts && s'.puts[w] == s.puts[w] && s'.puts[w].process in s'.processes)
  }

  lemma DyingLeavesFewer(s: State, s': State)
    requires NamesOk(s) && Dies(s, s')
    ensures Fewer(s, s')
  {
    assert forall w | w in s.puts :: NameOk(s, s.puts[w]);
  }

  lemma FewerKeepsNames(s: State, s': State)
    requires Fewer(s, s') && PidsDistinct(s) && NamesDistinct(s) && NamesOk(s)
    ensures PidsDistinct(s') && NamesDistinct(s') && NamesOk(s')
  {
    forall w | w in s'.puts ensures NameOk(s', s'.puts[w]) {
      assert NameOk(s, s.puts[w]);
    }
  }

  lemma DyingKeepsInv(hash: bytes -> string, s: State, s': State)
    requires Inv(hash, s) && Dies(s, s')
    ensures Inv(hash, s')
  {
    DyingLeavesFewer(s, s');
    hide Dies;
    FewerKeepsNames(s, s');
    SameObjectsStayGenuine(hash, s, s');
    hide PidsDistinct, NamesDistinct, NamesOk, Genuine, ContentOk;
  }

  lemma SameObjectsStayGenuine(hash: bytes -> string, s: State, s': State)
    requires s'.files == s.files && s'.disk == s.disk
    ensures forall oid :: Genuine(hash, s, oid) ==> Genuine(hash, s', oid)
    ensures DiskOk(hash, s) ==> DiskOk(hash, s')
  {
  }

  lemma LosingPowerKeepsInv(hash: bytes -> string, s: State, s': State)
    requires Inv(hash, s) && LosesPower(s, s')
    ensures Inv(hash, s')
  {
    hide NameOk, ContentOk, IsGenuine;
    forall oid ensures Genuine(hash, s', oid) {
      assert Genuine(hash, s, oid);
      if Final(oid) in s'.files {
        assert ComesBack(s, Final(oid), s'.files[Final(oid)]);
        ComingBackIsGenuine(hash, s, oid, s'.files[Final(oid)]);
      }
    }
    assert forall f | f in s'.disk :: Genuine(hash, s', f.oid);
    hide Genuine;
  }

  lemma ComingBackIsGenuine(hash: bytes -> string, s: State, oid: string, file: File)
    requires Genuine(hash, s, oid) && DiskOk(hash, s) && ComesBack(s, Final(oid), file)
    ensures IsGenuine(hash, oid, file)
  {
  }

  lemma NextKeepsInv(hash: bytes -> string, s: State, s': State)
    requires Inv(hash, s) && Next(hash, s, s')
    ensures Inv(hash, s')
  {
    hide Inv, Acts, Spawns, Begins, Dies, LosesPower;
    if w: nat :| Acts(hash, s, w, s') {
      ActsKeepsInv(hash, s, w, s');
    } else if Spawns(s, s') {
      SpawningKeepsInv(hash, s, s');
    } else if Begins(s, s') {
      BeginningKeepsInv(hash, s, s');
    } else if Dies(s, s') {
      DyingKeepsInv(hash, s, s');
    } else {
      LosingPowerKeepsInv(hash, s, s');
    }
  }

  lemma {:induction false} RunKeepsInv(hash: bytes -> string, run: seq<State>, k: nat)
    requires Reachable(hash, run) && k < |run|
    ensures Inv(hash, run[k])
  {
    if k > 0 {
      hide Inv, Next;
      RunKeepsInv(hash, run, k - 1);
      NextKeepsInv(hash, run[k - 1], run[k]);
    }
  }

  // ----- the theorems -----

  /**
   In every reachable state, whatever sits under an object's path hashes to its
   name and is within the limit of the put that wrote it.
   */
  lemma PublishedObjectsAreGenuine(hash: bytes -> string, run: seq<State>, k: nat, oid: string)
    requires Reachable(hash, run) && k < |run| && Final(oid) in run[k].files
    ensures hash(run[k].files[Final(oid)].data) == oid
    ensures |run[k].files[Final(oid)].data| <= run[k].files[Final(oid)].limit
  {
    RunKeepsInv(hash, run, k);
    assert Genuine(hash, run[k], oid);
  }

  /** No two puts ever have the same temporary file. */
  lemma NoSharedTemporaryFile(hash: bytes -> string, run: seq<State>, k: nat, w: nat, v: nat)
    requires Reachable(hash, run) && k < |run| && w in run[k].puts && v in run[k].puts && w != v
    requires run[k].puts[w].tmp.Some?
    ensures run[k].puts[w].tmp != run[k].puts[v].tmp
  {
    RunKeepsInv(hash, run, k);
  }

  /**
   A put that has returned leaves none of its temporary file, unless removing
   it failed; one that returned well leaves its object.
   */
  lemma ReturnedPutsLeaveNothingBehind(hash: bytes -> string, run: seq<State>, k: nat, w: nat)
    requires Reachable(hash, run) && k < |run| && w in run[k].puts && run[k].puts[w].stage.Returned?
    ensures var p := run[k].puts[w];
      && (p.tmp.Some? && p.tmp.value in run[k].files ==> p.kept)
      && (p.stage.ok ==> Final(p.job.oid) in run[k].files)
  {
    RunKeepsInv(hash, run, k);
    assert NameOk(run[k], run[k].puts[w]) && ContentOk(hash, run[k].files, run[k].puts[w]);
  }
}
