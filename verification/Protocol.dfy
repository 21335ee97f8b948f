/**
 * internal/store/lock.go as a transition system: any number of processes and threads work on one state file, any step
 * can be followed by any other thread's step, any process can die at any point, and any system call can fail.
 */
module Protocol {
  import opened Prelude
  import opened Schema
  import opened WordList
  import opened StoreSpec
  import opened History

  datatype Op = Write(w: WriteOp) | Read(r: ReadOp) {

    function Mode(): Mode {
      if Write? then Exclusive else Shared
    }

    function Check(): Option<Error> {
      if Write? then CheckArgs(w) else None
    }
  }

  type Outcome = Result<Response, Error>

  /** How far a call has come. */
  datatype Phase =
    | Waiting                                         // for the mutex
    | HasMutex                                        // and waits for the file lock
    | HasLock                                         // and has not read the file yet
    | Loaded(st: State)
    | Ran(now: int, resp: Response, st: State)        // the closure succeeded on the loaded state
    | TempOpen(now: int, resp: Response, st: State)   // the temporary file exists and is being written
    | TempWritten(now: int, resp: Response, st: State)
    | Closing(out: Outcome)                           // the body is over; releases the file lock next
    | Leaving(out: Outcome)                           // releases the mutex next
    | Returned(out: Outcome)
    | Crashed
  {
    predicate HoldsMutex() {
      !Waiting? && !Returned? && !Crashed?
    }

    predicate HoldsLock() {
      HasLock? || Loaded? || Ran? || HasTemp() || Closing?
    }

    predicate HasTemp() {
      TempOpen? || TempWritten?
    }

    predicate Finished() {
      Returned? || Crashed?
    }
  }

  /**
   * A call of a store operation. `start` is the length of the log when it began, `at` the position in the log of the
   * state it read, `commit` its own entry in the log.
   */
  datatype Call = Call(process: nat, op: Op, phase: Phase, start: nat, at: nat, commit: Option<nat>)

  datatype System = System(
    words: seq<string>,
    init: FileState,            // the state file at the start
    file: FileState,            // the state file now
    temps: set<nat>,            // calls whose temporary file exists
    mutex: map<nat, nat>,       // process to the call that holds its mutex
    locks: map<nat, Mode>,      // calls that hold the file lock
    leaked: map<nat, Mode>,     // calls whose release failed: the lock stays until the process ends
    calls: map<nat, Call>,
    dead: set<nat>,             // crashed processes
    log: seq<Commit>)           // committed writes in rename order
  {
    function Hist(): History {
      History(words, if Load(init).Ok? then Load(init).value else EMPTY_STATE, log)
    }

    /** The call at a new phase. */
    function Move(c: nat, phase: Phase): System
      requires c in calls
    {
      this.(calls := calls[c := calls[c].(phase := phase)])
    }

    /**
     * Another process holds the file lock in a conflicting mode, so a request must wait. A holder in the same process
     * does not force it to: that request may succeed.
     */
    predicate BlockedBy(c: nat, holders: map<nat, Mode>)
      requires c in calls
    {
      exists d | d in holders && d in calls ::
        calls[d].process != calls[c].process && (calls[c].op.Mode().Exclusive? || holders[d].Exclusive?)
    }

    /** Some process, perhaps its own, holds the file lock in a conflicting mode, so a request may have to wait. */
    predicate ConflictsWith(c: nat, holders: map<nat, Mode>)
      requires c in calls
    {
      exists d | d in holders && d in calls :: calls[c].op.Mode().Exclusive? || holders[d].Exclusive?
    }
  }

  datatype Step =
    | Begin(c: nat, process: nat, op: Op)
    | TakeMutex(c: nat)
    | TakeLock(c: nat)
    | LockError(c: nat)
    | LoadFile(c: nat)
    | ReadError(c: nat)
    | RunClosure(c: nat, now: int)
    | OpenTemp(c: nat)
    | WriteTemp(c: nat)
    | SaveError(c: nat)
    | Rename(c: nat)
    | DropLock(c: nat)
    | DropError(c: nat)
    | DropMutex(c: nat)
    | Crash(process: nat)
  {
    /** Steps of the normal course: no crash, no failing call, no new call. */
    predicate Normal() {
      !Begin? && !Crash? && !LockError? && !ReadError? && !SaveError? && !DropError?
    }
  }

  predicate Enabled(s: System, step: Step) {
    if step.Begin? then step.c !in s.calls && step.process !in s.dead
    else if step.Crash? then step.process !in s.dead
    else
      && step.c in s.calls
      && var call := s.calls[step.c];
         match step
         case TakeMutex(c) => call.phase.Waiting? && call.process !in s.mutex
         case TakeLock(c) => call.phase.HasMutex? && !s.BlockedBy(c, s.locks) && !s.BlockedBy(c, s.leaked)
         case LockError(c) => call.phase.HasMutex?
         case LoadFile(c) => call.phase.HasLock?
         case ReadError(c) => call.phase.HasLock?
         case RunClosure(c, _) => call.phase.Loaded?
         case OpenTemp(c) => call.phase.Ran?
         case WriteTemp(c) => call.phase.TempOpen?
         case SaveError(c) => call.phase.Ran? || call.phase.HasTemp()
         case Rename(c) => call.phase.TempWritten? && call.op.Write?
         case DropLock(c) => call.phase.Closing?
         case DropError(c) => call.phase.Closing?
         case DropMutex(c) => call.phase.Leaving?
  }

  /**
   * Whether a step can be taken for sure. Enabled says that a request for the file lock can be granted; while a holder
   * of its own process conflicts it may just as well wait.
   */
  predicate Certain(s: System, step: Step) {
    && Enabled(s, step)
    && (step.TakeLock? ==> !s.ConflictsWith(step.c, s.locks) && !s.ConflictsWith(step.c, s.leaked))
  }

  function After(s: System, step: Step): System
    requires |s.words| > 0 && Enabled(s, step)
  {
    match step
    case Begin(c, p, op) =>
      var phase := match op.Check() case Some(e) => Returned(Err(e)) case None => Waiting;
      s.(calls := s.calls[c := Call(p, op, phase, |s.log|, |s.log|, None)])
    case TakeMutex(c) =>
      s.Move(c, HasMutex).(mutex := s.mutex[s.calls[c].process := c])
    case TakeLock(c) =>
      s.Move(c, HasLock).(locks := s.locks[c := s.calls[c].op.Mode()])
    case LockError(c) =>
      s.Move(c, Leaving(Err(AcquireFailed)))
    case LoadFile(c) =>
      var phase := match Load(s.file) case Ok(st) => Loaded(st) case Err(e) => Closing(Err(e));
      s.(calls := s.calls[c := s.calls[c].(phase := phase, at := |s.log|)])
    case ReadError(c) =>
      s.Move(c, Closing(Err(ReadFailed)))
    case RunClosure(c, now) =>
      var st := s.calls[c].phase.st;
      s.Move(c,
        match s.calls[c].op
        case Read(r) => Closing(Query(r, st))
        case Write(w) =>
          match Apply(s.words, w, now, st)
          case Ok(e) => Ran(now, e.resp, e.post)
          case Err(e) => Closing(Err(e)))
    case OpenTemp(c) =>
      var ph := s.calls[c].phase;
      s.Move(c, TempOpen(ph.now, ph.resp, ph.st)).(temps := s.temps + {c})
    case WriteTemp(c) =>
      var ph := s.calls[c].phase;
      s.Move(c, TempWritten(ph.now, ph.resp, ph.st))
    case SaveError(c) =>
      s.Move(c, Closing(Err(SaveFailed))).(temps := s.temps - {c})
    case Rename(c) =>
      var ph := s.calls[c].phase;
      s.(file := Some(Save(ph.st)),
         temps := s.temps - {c},
         log := s.log + [Commit(c, s.calls[c].op.w, ph.now, ph.resp)],
         calls := s.calls[c := s.calls[c].(phase := Closing(Ok(ph.resp)), commit := Some(|s.log|))])
    case DropLock(c) =>
      s.Move(c, Leaving(s.calls[c].phase.out)).(locks := s.locks - {c})
    case DropError(c) =>
      var out := s.calls[c].phase.out;
      s.Move(c, Leaving(if out.Ok? then Err(ReleaseFailed) else out))
       .(locks := s.locks - {c}, leaked := s.leaked[c := s.calls[c].op.Mode()])
    case DropMutex(c) =>
      s.Move(c, Returned(s.calls[c].phase.out)).(mutex := s.mutex - {s.calls[c].process})
    case Crash(p) =>
      var victims := set c | c in s.calls && s.calls[c].process == p;
      s.(mutex := s.mutex - {p},
         locks := s.locks - victims,
         leaked := s.leaked - victims,
         dead := s.dead + {p},
         calls := map c | c in s.calls ::
           if c in victims && !s.calls[c].phase.Returned? then s.calls[c].(phase := Crashed) else s.calls[c])
  }

  predicate Initial(s: System) {
    && ValidWords(s.words)
    && s.file == s.init
    && s.temps == {} && s.mutex == map[] && s.locks == map[] && s.leaked == map[] && s.calls == map[]
    && s.dead == {} && s.log == []
  }

  // ----- the invariant

  ghost predicate MutexInv(s: System) {
    && (forall p | p in s.mutex ::
          s.mutex[p] in s.calls && s.calls[s.mutex[p]].process == p && s.calls[s.mutex[p]].phase.HoldsMutex())
    && (forall c | c in s.calls && s.calls[c].phase.HoldsMutex() ::
          s.calls[c].process in s.mutex && s.mutex[s.calls[c].process] == c)
    && (forall c | c in s.calls :: s.calls[c].process in s.dead ==> s.calls[c].phase.Finished())
    && (forall c | c in s.calls :: s.calls[c].phase.Crashed? ==> s.calls[c].process in s.dead)
  }

  ghost predicate HolderInv(s: System) {
    && (forall c :: c in s.locks <==> c in s.calls && s.calls[c].phase.HoldsLock())
    && (forall c | c in s.locks :: s.locks[c] == s.calls[c].op.Mode())
  }

  ghost predicate Exclusion(locks: map<nat, Mode>) {
    forall c, d | c in locks && d in locks && c != d :: locks[c].Shared? && locks[d].Shared?
  }

  ghost predicate LeakInv(s: System) {
    forall c | c in s.leaked ::
      c in s.calls && s.calls[c].process !in s.dead && (s.calls[c].phase.Leaving? || s.calls[c].phase.Returned?)
  }

  ghost predicate LockInv(s: System) {
    HolderInv(s) && Exclusion(s.locks) && LeakInv(s)
  }

  /** Only a crash leaves a temporary file behind. */
  ghost predicate TempInv(s: System) {
    forall c | c in s.temps :: c in s.calls && (s.calls[c].phase.HasTemp() || s.calls[c].phase.Crashed?)
  }

  /** The file is the replay of the log. */
  ghost predicate FileInv(s: System) {
    && s.Hist().Legal()
    && (s.log == [] ==> s.file == s.init)
    && (s.log != [] ==> Load(s.init).Ok? && s.file == Some(Save(s.Hist().Now())))
  }

  /** What a call loaded, and what it is about to write, still belongs to the file as it is. */
  ghost predicate DataOk(s: System, call: Call)
    requires |s.words| > 0
  {
    match call.phase
    case Loaded(st) => Load(s.file) == Ok(st) && call.at == |s.log|
    case Ran(now, resp, st) => Prepared(s, call, now, resp, st)
    case TempOpen(now, resp, st) => Prepared(s, call, now, resp, st)
    case TempWritten(now, resp, st) => Prepared(s, call, now, resp, st)
    case _ => true
  }

  ghost predicate Prepared(s: System, call: Call, now: int, resp: Response, st: State)
    requires |s.words| > 0
  {
    && call.op.Write? && call.at == |s.log|
    && Load(s.file).Ok? && Apply(s.words, call.op.w, now, Load(s.file).value) == Ok(Effect(resp, st))
  }

  /** An outcome is what the log gives at the call's position. */
  ghost predicate Explained(s: System, call: Call, out: Outcome)
    requires |s.words| > 0 && call.at <= |s.log|
  {
    match out
    case Ok(resp) =>
      (match call.op
       case Read(r) => Load(s.init).Ok? && Query(r, s.Hist().At(call.at)) == Ok(resp)
       case Write(_) => call.commit == Some(call.at) && call.at < |s.log| && s.log[call.at].resp == resp)
    case Err(e) =>
      if call.commit.Some? then e.ReleaseFailed?
      else
        || (e.Environmental() && !(call.op.Write? && e.ReleaseFailed?))
        || call.op.Check() == Some(e)
        || Load(s.init) == Err(e)
        || (Load(s.init).Ok? && call.op.Read? && Query(call.op.r, s.Hist().At(call.at)) == Err(e))
        || (Load(s.init).Ok? && call.op.Write? && Apply(s.words, call.op.w, 0, s.Hist().At(call.at)) == Err(e))
  }

  ghost predicate CallOk(s: System, c: nat, call: Call)
    requires |s.words| > 0
  {
    && call.start <= call.at <= |s.log|
    && (call.commit.Some? ==>
          && call.commit == Some(call.at) && call.at < |s.log| && call.op.Write?
          && s.log[call.at].caller == c && s.log[call.at].op == call.op.w
          && (call.phase.Closing? || call.phase.Leaving? || call.phase.Finished()))
    && (call.phase.Closing? || call.phase.Leaving? || call.phase.Returned? ==> Explained(s, call, call.phase.out))
  }

  ghost predicate CallInv(s: System)
    requires |s.words| > 0
  {
    && (forall c | c in s.calls :: CallOk(s, c, s.calls[c]))
    && (forall k | 0 <= k < |s.log| :: s.log[k].caller in s.calls && s.calls[s.log[k].caller].commit == Some(k))
  }

  ghost predicate DataInv(s: System)
    requires |s.words| > 0
  {
    forall c | c in s.calls :: DataOk(s, s.calls[c])
  }

  ghost predicate Inv(s: System) {
    && ValidWords(s.words)
    && MutexInv(s) && LockInv(s) && TempInv(s)
    && FileInv(s) && DataInv(s) && CallInv(s)
  }

  // ----- every step keeps it

  lemma InitialInv(s: System)
    requires Initial(s)
    ensures Inv(s)
  {
  }

  /** t differs from s in one call only, whose process and operation stay. */
  ghost predicate OnlyMoved(s: System, t: System, c: nat) {
    && c in s.calls && c in t.calls && t.calls == s.calls[c := t.calls[c]]
    && t.calls[c].process == s.calls[c].process && t.calls[c].op == s.calls[c].op
    && t.calls[c].start == s.calls[c].start
    && t.dead == s.dead && t.words == s.words && t.init == s.init
  }

  /** A step of one call leaves every other call alone and takes or gives up only its own locks. */
  lemma OrdinaryStep(s: System, step: Step)
    requires |s.words| > 0 && Enabled(s, step) && !step.Begin? && !step.Crash?
    ensures
      var t, c := After(s, step), step.c;
      var before, after := s.calls[c].phase, t.calls[c].phase;
      && OnlyMoved(s, t, c) && !before.Finished() && !after.Crashed?
      && (if step.TakeMutex? then
            t.mutex == s.mutex[s.calls[c].process := c] && !before.HoldsMutex() && after.HoldsMutex()
          else if step.DropMutex? then
            t.mutex == s.mutex - {s.calls[c].process} && before.HoldsMutex() && !after.HoldsMutex()
          else t.mutex == s.mutex && before.HoldsMutex() && after.HoldsMutex())
      && (if step.TakeLock? then
            t.locks == s.locks[c := s.calls[c].op.Mode()] && !before.HoldsLock() && after.HoldsLock()
          else if step.DropLock? || step.DropError? then
            t.locks == s.locks - {c} && before.HoldsLock() && !after.HoldsLock()
          else t.locks == s.locks && before.HoldsLock() == after.HoldsLock())
      && (if step.DropError? then t.leaked == s.leaked[c := s.calls[c].op.Mode()] && after.Leaving?
          else t.leaked == s.leaked && (before.Leaving? ==> after.Returned?))
      && (t.temps == s.temps || (after.HasTemp() && t.temps == s.temps + {c}) || t.temps == s.temps - {c})
      && (before.HasTemp() && !after.HasTemp() ==> t.temps == s.temps - {c})
  {
  }

  lemma MoveKeepsMutexInv(s: System, step: Step)
    requires |s.words| > 0 && MutexInv(s) && Enabled(s, step) && !step.Begin? && !step.Crash?
    ensures MutexInv(After(s, step))
  {
    OrdinaryStep(s, step);
    var t, c := After(s, step), step.c;
    MutexInvMoved(s, t, c);
  }

  lemma MutexInvMoved(s: System, t: System, c: nat)
    requires MutexInv(s) && OnlyMoved(s, t, c) && !s.calls[c].phase.Finished() && !t.calls[c].phase.Crashed?
    requires
      var p, before, after := s.calls[c].process, s.calls[c].phase, t.calls[c].phase;
      if !before.HoldsMutex() then p !in s.mutex && after.HoldsMutex() && t.mutex == s.mutex[p := c]
      else if after.HoldsMutex() then t.mutex == s.mutex
      else t.mutex == s.mutex - {p} && after.Finished()
    ensures MutexInv(t)
  {
  }

  lemma CrashKeepsMutexInv(s: System, p: nat)
    requires |s.words| > 0 && MutexInv(s) && Enabled(s, Crash(p))
    ensures MutexInv(After(s, Crash(p)))
  {
  }

  lemma BeginKeepsMutexInv(s: System, step: Step)
    requires |s.words| > 0 && MutexInv(s) && step.Begin? && Enabled(s, step)
    ensures MutexInv(After(s, step))
  {
  }

  lemma MoveKeepsLockInv(s: System, step: Step)
    requires |s.words| > 0 && MutexInv(s) && LockInv(s) && TempInv(s)
    requires Enabled(s, step) && !step.Begin? && !step.Crash?
    ensures LockInv(After(s, step)) && TempInv(After(s, step))
  {
    OrdinaryStep(s, step);
    var t, c := After(s, step), step.c;
    if step.TakeLock? {
      NoConflictWhenUnblocked(s, c);
    }
    HolderInvMoved(s, t, c);
    LeakInvMoved(s, t, c);
    TempInvFromParts(s, t, c);
  }

  lemma HolderInvMoved(s: System, t: System, c: nat)
    requires HolderInv(s) && OnlyMoved(s, t, c)
    requires
      var before, after := s.calls[c].phase, t.calls[c].phase;
      if before.HoldsLock() == after.HoldsLock() then t.locks == s.locks
      else if before.HoldsLock() then t.locks == s.locks - {c}
      else t.locks == s.locks[c := s.calls[c].op.Mode()]
    ensures HolderInv(t)
  {
  }

  lemma LeakInvMoved(s: System, t: System, c: nat)
    requires MutexInv(s) && LeakInv(s) && OnlyMoved(s, t, c) && !s.calls[c].phase.Finished()
    requires t.leaked == s.leaked || (t.leaked == s.leaked[c := s.calls[c].op.Mode()] && t.calls[c].phase.Leaving?)
    requires s.calls[c].phase.Leaving? ==> t.calls[c].phase.Returned?
    ensures LeakInv(t)
  {
  }

  lemma TempInvFromParts(s: System, t: System, c: nat)
    requires TempInv(s) && OnlyMoved(s, t, c) && !s.calls[c].phase.Finished()
    requires
      || t.temps == s.temps
      || (t.calls[c].phase.HasTemp() && t.temps == s.temps + {c})
      || t.temps == s.temps - {c}
    requires s.calls[c].phase.HasTemp() && !t.calls[c].phase.HasTemp() ==> t.temps == s.temps - {c}
    ensures TempInv(t)
  {
  }

  /** A crash finishes exactly the unreturned calls of its process and drops exactly its locks. */
  ghost predicate CrashedIn(s: System, t: System, p: nat) {
    && t.calls.Keys == s.calls.Keys
    && (forall c | c in s.calls ::
          t.calls[c] == if s.calls[c].process == p && !s.calls[c].phase.Returned? then s.calls[c].(phase := Crashed)
                        else s.calls[c])
    && (forall c :: c in t.locks <==> c in s.locks && !(c in s.calls && s.calls[c].process == p))
    && (forall c | c in t.locks :: t.locks[c] == s.locks[c])
    && (forall c | c in t.leaked :: c in s.leaked && !(c in s.calls && s.calls[c].process == p))
    && t.dead == s.dead + {p} && t.temps == s.temps
  }

  lemma CrashShape(s: System, p: nat)
    requires |s.words| > 0 && Enabled(s, Crash(p))
    ensures CrashedIn(s, After(s, Crash(p)), p)
  {
  }

  lemma HolderInvCrashed(s: System, t: System, p: nat)
    requires HolderInv(s) && CrashedIn(s, t, p)
    ensures HolderInv(t)
  {
  }

  lemma CrashKeepsLockInv(s: System, p: nat)
    requires |s.words| > 0 && LockInv(s) && TempInv(s) && Enabled(s, Crash(p))
    ensures LockInv(After(s, Crash(p))) && TempInv(After(s, Crash(p)))
  {
    CrashShape(s, p);
    HolderInvCrashed(s, After(s, Crash(p)), p);
  }

  lemma BeginKeepsLockInv(s: System, step: Step)
    requires |s.words| > 0 && MutexInv(s) && LockInv(s) && TempInv(s) && step.Begin? && Enabled(s, step)
    ensures LockInv(After(s, step)) && TempInv(After(s, step))
  {
  }

  /** A granted request conflicts with no holder: other processes are checked, and the mutex excludes its own. */
  lemma NoConflictWhenUnblocked(s: System, c: nat)
    requires MutexInv(s) && LockInv(s) && Enabled(s, TakeLock(c))
    ensures forall d | d in s.locks :: s.locks[d].Shared? && s.calls[c].op.Mode().Shared?
  {
    forall d | d in s.locks ensures s.locks[d].Shared? && s.calls[c].op.Mode().Shared? {
      assert s.calls[d].phase.HoldsMutex() && s.calls[c].phase.HoldsMutex();
      assert s.calls[d].process != s.calls[c].process;
    }
  }

  /** A file that loads, loads as the replayed state. */
  lemma FileIsReplay(s: System)
    requires FileInv(s)
    ensures Load(s.file).Ok? ==> Load(s.file).value == s.Hist().Now()
    ensures Load(s.file).Err? ==> Load(s.init) == Load(s.file)
  {
    if s.log != [] {
      VersionNeverChanges(s.Hist(), |s.log|);
    }
  }

  lemma RenameExtends(s: System, c: nat)
    requires Inv(s) && Enabled(s, Rename(c))
    ensures
      var t := After(s, Rename(c));
      && t.Hist().Legal() && t.Hist().Now() == s.calls[c].phase.st && Load(s.init).Ok?
      && forall n | 0 <= n <= |s.log| :: t.Hist().At(n) == s.Hist().At(n)
  {
    FileIsReplay(s);
    var ph := s.calls[c].phase;
    assert DataOk(s, s.calls[c]);
    var entry := Commit(c, s.calls[c].op.w, ph.now, ph.resp);
    ExtendKeepsLegal(s.Hist(), entry, ph.st);
    assert After(s, Rename(c)).Hist() == s.Hist().Extend(entry);
  }

  lemma StepKeepsFileInv(s: System, step: Step)
    requires Inv(s) && Enabled(s, step)
    ensures FileInv(After(s, step))
  {
    if step.Rename? {
      RenameExtends(s, step.c);
    } else {
      assert After(s, step).Hist() == s.Hist();
    }
  }

  /** A step of a call other than a rename leaves what it prepared valid. */
  lemma MoveKeepsDataOk(s: System, step: Step)
    requires FileInv(s) && Enabled(s, step) && !step.Begin? && !step.Crash? && !step.Rename?
    requires DataOk(s, s.calls[step.c])
    ensures DataOk(After(s, step), After(s, step).calls[step.c])
    ensures After(s, step).file == s.file && After(s, step).log == s.log
  {
  }

  /** A rename finds no other call with loaded data: its call holds the lock exclusively. */
  lemma RenameKeepsDataInv(s: System, c: nat)
    requires ValidWords(s.words) && LockInv(s) && DataInv(s) && Enabled(s, Rename(c))
    ensures DataInv(After(s, Rename(c)))
  {
    var t := After(s, Rename(c));
    assert s.locks[c].Exclusive?;
    forall d | d in t.calls ensures DataOk(t, t.calls[d]) {
      assert d != c ==> d !in s.locks;
    }
  }

  lemma DataOkSurvives(s: System, t: System, c: nat)
    requires |s.words| > 0 && c in s.calls && DataOk(s, s.calls[c])
    requires t.words == s.words && t.file == s.file && t.log == s.log && c in t.calls
    requires t.calls[c] == s.calls[c] || t.calls[c].phase.Crashed?
    ensures DataOk(t, t.calls[c])
  {
  }

  lemma MoveKeepsDataInv(s: System, step: Step)
    requires ValidWords(s.words) && FileInv(s) && DataInv(s)
    requires Enabled(s, step) && !step.Begin? && !step.Crash? && !step.Rename?
    ensures DataInv(After(s, step))
  {
    var t := After(s, step);
    OrdinaryStep(s, step);
    assert DataOk(s, s.calls[step.c]);
    MoveKeepsDataOk(s, step);
    forall c | c in t.calls && c != step.c ensures DataOk(t, t.calls[c]) {
      DataOkSurvives(s, t, c);
    }
  }

  lemma StepKeepsDataInv(s: System, step: Step)
    requires ValidWords(s.words) && FileInv(s) && LockInv(s) && DataInv(s) && Enabled(s, step)
    ensures DataInv(After(s, step))
  {
    if step.Rename? {
      RenameKeepsDataInv(s, step.c);
    } else if step.Begin? || step.Crash? {
      forall c | c in s.calls ensures DataOk(After(s, step), After(s, step).calls[c]) {
        DataOkSurvives(s, After(s, step), c);
      }
    } else {
      MoveKeepsDataInv(s, step);
    }
  }

  /** The call that renames becomes the last entry of the log. */
  lemma RenameKeepsOwnCall(s: System, c: nat)
    requires Inv(s) && Enabled(s, Rename(c))
    ensures CallOk(After(s, Rename(c)), c, After(s, Rename(c)).calls[c])
  {
    assert DataOk(s, s.calls[c]) && CallOk(s, c, s.calls[c]);
    var t := After(s, Rename(c));
    assert t.calls[c].at == |s.log| && t.log[|s.log|].caller == c;
  }

  /** A longer log explains what the shorter one did. */
  lemma CallOkExtends(s: System, t: System, c: nat)
    requires |s.words| > 0 && c in s.calls && CallOk(s, c, s.calls[c])
    requires t.words == s.words && t.init == s.init && c in t.calls && t.calls[c] == s.calls[c]
    requires s.log <= t.log && forall n | 0 <= n <= |s.log| :: t.Hist().At(n) == s.Hist().At(n)
    ensures CallOk(t, c, t.calls[c])
  {
  }

  /** Every entry of the log still belongs to the call that made it. */
  lemma RenameKeepsCallers(s: System, c: nat)
    requires ValidWords(s.words) && CallInv(s) && Enabled(s, Rename(c))
    ensures
      var t := After(s, Rename(c));
      forall k | 0 <= k < |t.log| :: t.log[k].caller in t.calls && t.calls[t.log[k].caller].commit == Some(k)
  {
    var t := After(s, Rename(c));
    forall k | 0 <= k < |t.log| ensures t.log[k].caller in t.calls && t.calls[t.log[k].caller].commit == Some(k) {
      if k < |s.log| {
        assert t.log[k] == s.log[k] && CallOk(s, s.log[k].caller, s.calls[s.log[k].caller]);
      }
    }
  }

  lemma RenameKeepsCallInv(s: System, c: nat)
    requires Inv(s) && Enabled(s, Rename(c))
    ensures CallInv(After(s, Rename(c)))
  {
    var t := After(s, Rename(c));
    RenameExtends(s, c);
    RenameKeepsOwnCall(s, c);
    RenameKeepsCallers(s, c);
    OrdinaryStep(s, Rename(c));
    forall d | d in t.calls && d != c ensures CallOk(t, d, t.calls[d]) {
      CallOkExtends(s, t, d);
    }
  }

  /** Without a rename the log stays, so only the call that moved has anything new to explain. */
  lemma MoveKeepsCallOk(s: System, step: Step)
    requires FileInv(s) && Enabled(s, step) && !step.Begin? && !step.Crash? && !step.Rename?
    requires CallOk(s, step.c, s.calls[step.c]) && DataOk(s, s.calls[step.c])
    ensures CallOk(After(s, step), step.c, After(s, step).calls[step.c])
    ensures After(s, step).log == s.log && After(s, step).calls[step.c].commit == s.calls[step.c].commit
  {
    FileIsReplay(s);
    var t := After(s, step);
    assert t.Hist() == s.Hist();
    var call := s.calls[step.c];
    if step.RunClosure? && call.op.Write? {
      ApplyErrorsFromState(s.words, call.op.w, step.now, 0, call.phase.st);
    }
  }

  lemma CallOkSurvives(s: System, t: System, c: nat)
    requires |s.words| > 0 && c in s.calls && CallOk(s, c, s.calls[c])
    requires t.words == s.words && t.init == s.init && t.log == s.log && c in t.calls
    requires t.calls[c] == s.calls[c] || t.calls[c] == s.calls[c].(phase := Crashed)
    ensures CallOk(t, c, t.calls[c])
  {
    assert t.Hist() == s.Hist();
  }

  lemma MoveKeepsCallInv(s: System, step: Step)
    requires ValidWords(s.words) && FileInv(s) && DataInv(s) && CallInv(s)
    requires Enabled(s, step) && !step.Begin? && !step.Crash? && !step.Rename?
    ensures CallInv(After(s, step))
  {
    OrdinaryStep(s, step);
    assert CallOk(s, step.c, s.calls[step.c]) && DataOk(s, s.calls[step.c]);
    MoveKeepsCallOk(s, step);
    var t := After(s, step);
    forall c | c in t.calls && c != step.c ensures CallOk(t, c, t.calls[c]) {
      CallOkSurvives(s, t, c);
    }
  }

  lemma OtherKeepsCallInv(s: System, step: Step)
    requires ValidWords(s.words) && CallInv(s) && Enabled(s, step) && (step.Begin? || step.Crash?)
    ensures CallInv(After(s, step))
  {
    var t := After(s, step);
    forall c | c in s.calls ensures CallOk(t, c, t.calls[c]) && t.calls[c].commit == s.calls[c].commit {
      CallOkSurvives(s, t, c);
    }
  }

  lemma StepKeepsCallInv(s: System, step: Step)
    requires Inv(s) && Enabled(s, step)
    ensures |After(s, step).words| > 0 && CallInv(After(s, step))
  {
    if step.Rename? {
      RenameKeepsCallInv(s, step.c);
    } else if step.Begin? || step.Crash? {
      OtherKeepsCallInv(s, step);
    } else {
      MoveKeepsCallInv(s, step);
    }
  }

  lemma StepKeepsInv(s: System, step: Step)
    requires Inv(s) && Enabled(s, step)
    ensures Inv(After(s, step))
  {
    if step.Begin? {
      BeginKeepsMutexInv(s, step);
      BeginKeepsLockInv(s, step);
    } else if step.Crash? {
      CrashKeepsMutexInv(s, step.process);
      CrashKeepsLockInv(s, step.process);
    } else {
      MoveKeepsMutexInv(s, step);
      MoveKeepsLockInv(s, step);
    }
    StepKeepsFileInv(s, step);
    StepKeepsDataInv(s, step);
    StepKeepsCallInv(s, step);
  }
}
