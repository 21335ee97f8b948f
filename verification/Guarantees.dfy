/** What the protocol guarantees over whole runs. */
module Guarantees {
  import opened Prelude
  import opened Schema
  import opened WordList
  import opened IdGen
  import opened StoreSpec
  import opened History
  import opened Protocol

  // ----- runs

  ghost predicate Leads(s: System, step: Step, t: System) {
    |s.words| > 0 && Enabled(s, step) && t == After(s, step)
  }

  /** A finite stretch of steps from any state. */
  ghost predicate Stretch(states: seq<System>, steps: seq<Step>) {
    && |states| == |steps| + 1
    && forall i | 0 <= i < |steps| :: Leads(states[i], steps[i], states[i + 1])
  }

  ghost predicate Run(states: seq<System>, steps: seq<Step>) {
    Stretch(states, steps) && Initial(states[0])
  }

  lemma StretchStep(a: seq<System>, x: seq<Step>, step: Step, t: System) returns (states: seq<System>, steps: seq<Step>)
    requires Stretch(a, x) && Leads(a[|x|], step, t)
    ensures Stretch(states, steps) && states[0] == a[0] && states[|steps|] == t && steps == x + [step]
  {
    states, steps := a + [t], x + [step];
    forall i | 0 <= i < |steps| ensures Leads(states[i], steps[i], states[i + 1]) {
      if i < |x| {
        assert Leads(a[i], x[i], a[i + 1]);
      }
    }
  }

  lemma {:induction false} StretchKeepsInv(states: seq<System>, steps: seq<Step>, i: nat)
    requires Stretch(states, steps) && Inv(states[0]) && i < |states|
    ensures Inv(states[i])
  {
    if i > 0 {
      StretchKeepsInv(states, steps, i - 1);
      assert Leads(states[i - 1], steps[i - 1], states[i]);
      StepKeepsInv(states[i - 1], steps[i - 1]);
    }
  }

  lemma RunInv(states: seq<System>, steps: seq<Step>, i: nat)
    requires Run(states, steps) && i < |states|
    ensures Inv(states[i])
  {
    InitialInv(states[0]);
    StretchKeepsInv(states, steps, i);
  }

  /** A returned call is never touched again. */
  lemma StepShape(s: System, step: Step, c: nat)
    requires |s.words| > 0 && Enabled(s, step)
    ensures
      var t := After(s, step);
      && s.log <= t.log && t.words == s.words && t.init == s.init
      && (c in s.calls ==>
            && c in t.calls && t.calls[c].start == s.calls[c].start && t.calls[c].op == s.calls[c].op
            && (s.calls[c].phase.Returned? ==> t.calls[c] == s.calls[c]))
  {
  }

  /** The log only grows, and calls keep their identity. */
  lemma {:induction false} RunShape(states: seq<System>, steps: seq<Step>, i: nat, j: nat, c: nat)
    requires Stretch(states, steps) && i <= j < |states|
    ensures states[i].log <= states[j].log && states[j].words == states[i].words && states[j].init == states[i].init
    ensures c in states[i].calls ==>
              && c in states[j].calls && states[j].calls[c].start == states[i].calls[c].start
              && states[j].calls[c].op == states[i].calls[c].op
              && (states[i].calls[c].phase.Returned? ==> states[j].calls[c] == states[i].calls[c])
  {
    if i < j {
      RunShape(states, steps, i, j - 1, c);
      assert Leads(states[j - 1], steps[j - 1], states[j]);
      StepShape(states[j - 1], steps[j - 1], c);
    }
  }

  // ----- no update is lost

  /**
   * After any run the file is the replay of the committed writes in rename order (or still the original file when
   * there are none), and every entry is its operation applied to the state its predecessor left.
   */
  lemma FileIsReplayOfCommits(states: seq<System>, steps: seq<Step>, i: nat)
    requires Run(states, steps) && i < |states|
    ensures
      var s := states[i];
      var h := s.Hist();
      && ValidWords(s.words)
      && (s.log == [] ==> s.file == states[0].file)
      && (s.log != [] ==> s.file == Some(Save(h.Now())) && Load(s.file) == Ok(h.Now()))
      && forall k | 0 <= k < |s.log| ::
           Apply(s.words, s.log[k].op, s.log[k].now, h.At(k)) == Ok(Effect(s.log[k].resp, h.At(k + 1)))
  {
    RunInv(states, steps, i);
    RunShape(states, steps, 0, i, 0);
    var s := states[i];
    FileIsReplay(s);
    if s.log != [] {
      VersionNeverChanges(s.Hist(), |s.log|);
    }
    forall k | 0 <= k < |s.log|
      ensures Apply(s.words, s.log[k].op, s.log[k].now, s.Hist().At(k)) == Ok(Effect(s.log[k].resp, s.Hist().At(k + 1)))
    {
      assert s.Hist().LegalAt(k);
    }
  }

  /**
   * A file that does not decode or has another version is left alone for good: in every run that starts from it the
   * file never changes, nothing is ever committed, and every call that returns without a failing system call of its
   * own reports exactly that error, or the error in its arguments.
   */
  lemma RefusedFilesStay(states: seq<System>, steps: seq<Step>, i: nat)
    requires Run(states, steps) && i < |states| && Refusal(states[0].init).Some?
    ensures states[i].log == [] && states[i].file == states[0].init
    ensures forall c | c in states[i].calls && states[i].calls[c].phase.Returned? ::
              var out := states[i].calls[c].phase.out;
              && out.Err?
              && (out.error.Environmental() || out.error == Refusal(states[0].init).value
                  || states[i].calls[c].op.Check() == Some(out.error))
  {
    RunInv(states, steps, i);
    RunShape(states, steps, 0, i, 0);
    LoadsOrRefuses(states[0].init);
    forall c | c in states[i].calls && states[i].calls[c].phase.Returned?
      ensures CallOk(states[i], c, states[i].calls[c])
    {
    }
  }

  /** Only a rename changes the file, and it appends exactly its own call's write to the log. */
  lemma FileChangesWithLog(s: System, step: Step)
    requires Inv(s) && Enabled(s, step)
    ensures
      var t := After(s, step);
      if t.log == s.log then t.file == s.file
      else step.Rename? && |t.log| == |s.log| + 1 && s.log < t.log && t.log[|s.log|].caller == step.c
           && Load(t.file) == Ok(t.Hist().Now())
  {
    if step.Rename? {
      StepKeepsInv(s, step);
      FileIsReplay(After(s, step));
      RenameExtends(s, step.c);
      VersionNeverChanges(After(s, step).Hist(), |s.log| + 1);
    }
  }

  // ----- every call takes effect at one moment between its start and its return

  /** What a returned outcome means on a log, at one position of it. */
  ghost predicate TakesEffectAt(s: System, c: nat, out: Outcome, at: nat)
    requires c in s.calls && at <= |s.log|
  {
    var op := s.calls[c].op;
    && |s.words| > 0
    && match out
    case Ok(resp) =>
      if op.Read? then Load(s.init).Ok? && Query(op.r, s.Hist().At(at)) == Ok(resp)
      else at < |s.log| && s.log[at].caller == c && s.log[at].op == op.w && s.log[at].resp == resp
    case Err(e) =>
      || e.Environmental()
      || op.Check() == Some(e)
      || Load(s.init) == Err(e)
      || (Load(s.init).Ok?
          && if op.Read? then Query(op.r, s.Hist().At(at)) == Err(e)
             else Apply(s.words, op.w, 0, s.Hist().At(at)) == Err(e))
  }

  /**
   * Linearizability: a call begun at step i and returned by state j has an outcome the log gives at some position
   * between the length of the log when it began and its length when it returned. So a read never sees a partial
   * state, nor one older than the log at its beginning; a successful write is that very entry of the log.
   */
  lemma CallsAreLinearizable(states: seq<System>, steps: seq<Step>, i: nat, j: nat, c: nat)
    requires Run(states, steps) && i < j < |states|
    requires steps[i].Begin? && steps[i].c == c
    requires c in states[j].calls && states[j].calls[c].phase.Returned?
    ensures exists at | |states[i].log| <= at <= |states[j].log| ::
              TakesEffectAt(states[j], c, states[j].calls[c].phase.out, at)
  {
    assert Leads(states[i], steps[i], states[i + 1]);
    RunShape(states, steps, i + 1, j, c);
    RunInv(states, steps, j);
    var s := states[j];
    assert CallOk(s, c, s.calls[c]);
    assert s.calls[c].start == |states[i].log|;
    assert TakesEffectAt(s, c, s.calls[c].phase.out, s.calls[c].at);
  }

  /** A committed write is an entry of every later log. */
  lemma CommittedEntryStays(states: seq<System>, steps: seq<Step>, w: nat, done: nat, j: nat) returns (k: nat)
    requires Run(states, steps) && done <= j < |states|
    requires w in states[done].calls && states[done].calls[w].op.Write? && states[done].calls[w].commit.Some?
    ensures k < |states[done].log| <= |states[j].log|
    ensures states[j].log[k].caller == w && states[j].log[k].op == states[done].calls[w].op.w
  {
    RunInv(states, steps, done);
    RunShape(states, steps, done, j, w);
    assert CallOk(states[done], w, states[done].calls[w]);
    k := states[done].calls[w].at;
    assert states[j].log[k] == states[done].log[k];
  }

  /** A call begun at a step reads at or after the end of the log there. */
  lemma ReadsNoEarlier(states: seq<System>, steps: seq<Step>, r: nat, begun: nat, j: nat)
    requires Run(states, steps) && begun < j < |states|
    requires steps[begun].Begin? && steps[begun].c == r && r in states[j].calls
    ensures Inv(states[j]) && |states[begun].log| <= states[j].calls[r].at <= |states[j].log|
  {
    RunInv(states, steps, j);
    assert Leads(states[begun], steps[begun], states[begun + 1]);
    RunShape(states, steps, begun + 1, j, r);
    assert CallOk(states[j], r, states[j].calls[r]);
  }

  /**
   * A write committed before a read began, whether it has returned or not and whatever its release did, is in the log
   * before the position the read sees.
   */
  lemma ReadsSeeCommittedWrites(
      states: seq<System>, steps: seq<Step>, w: nat, done: nat, r: nat, begun: nat, j: nat)
    requires Run(states, steps) && done <= begun < j < |states|
    requires w in states[done].calls && states[done].calls[w].op.Write? && states[done].calls[w].commit.Some?
    requires steps[begun].Begin? && steps[begun].c == r
    requires r in states[j].calls && states[j].calls[r].op.Read?
    requires states[j].calls[r].phase.Returned? && states[j].calls[r].phase.out.Ok?
    ensures |states[j].words| > 0
    ensures exists at, k | 0 <= k < at <= |states[j].log| ::
              && states[j].log[k].caller == w && states[j].log[k].op == states[done].calls[w].op.w
              && Query(states[j].calls[r].op.r, states[j].Hist().At(at)) == states[j].calls[r].phase.out
  {
    RunShape(states, steps, done, begun, w);
    var k := CommittedEntryStays(states, steps, w, done, j);
    ReadsNoEarlier(states, steps, r, begun, j);
    assert CallOk(states[j], r, states[j].calls[r]);
    assert k < |states[done].log| <= |states[begun].log| <= states[j].calls[r].at;
  }

  /**
   * A returned call is in the log, once, exactly when it is a write that reports success or only failed to release
   * the lock afterwards; so every other error left the file as it was, and a read never changes it.
   */
  lemma ErrorsLeaveNoTrace(s: System, c: nat)
    requires Inv(s) && c in s.calls && s.calls[c].phase.Returned?
    ensures
      var call := s.calls[c];
      && (call.commit.Some? <==> call.op.Write? && (call.phase.out.Ok? || call.phase.out == Err(ReleaseFailed)))
      && (call.commit.Some? <==> exists k | 0 <= k < |s.log| :: s.log[k].caller == c)
      && (forall k, l | 0 <= k < |s.log| && 0 <= l < |s.log| && s.log[k].caller == c == s.log[l].caller :: k == l)
      && (forall k | 0 <= k < |s.log| && s.log[k].caller == c ::
            s.log[k].op == call.op.w && (call.phase.out.Ok? ==> call.phase.out == Ok(s.log[k].resp)))
  {
    var call := s.calls[c];
    assert CallOk(s, c, call);
    forall k | 0 <= k < |s.log| && s.log[k].caller == c ensures call.commit == Some(k) {
    }
    if call.op.Write? && call.phase.out == Err(ReleaseFailed) {
      ApplyErrorsFromState(s.words, call.op.w, 0, 0, s.Hist().At(call.at));
    }
  }

  // ----- mutual exclusion

  /**
   * Between taking and dropping the file lock a writer is alone, even against calls of its own process, although the
   * file lock itself never stops those; and what it or any reader loaded is still what the file holds.
   */
  lemma WritersAreAlone(s: System, c: nat, d: nat)
    requires Inv(s) && c in s.calls && d in s.calls && c != d
    requires s.calls[c].phase.HoldsLock() && s.calls[d].phase.HoldsLock()
    ensures s.calls[c].op.Read? && s.calls[d].op.Read?
    ensures s.calls[c].process != s.calls[d].process
    ensures s.calls[c].phase.Loaded? && s.calls[d].phase.Loaded? ==> s.calls[c].phase.st == s.calls[d].phase.st
    ensures s.calls[c].phase.Loaded? ==> Load(s.file) == Ok(s.calls[c].phase.st)
  {
    assert c in s.locks && d in s.locks;
    assert DataOk(s, s.calls[c]) && DataOk(s, s.calls[d]);
  }

  /** Two Register calls of one process, at the given phases. */
  function Duo(words: seq<string>, one: Phase, two: Phase, temps: set<nat>, locks: map<nat, Mode>): System {
    var op := Write(Register("token", "condition"));
    System(words, None, None, temps, map[0 := 1], locks, map[],
           map[1 := Call(0, op, one, 0, 0, None), 2 := Call(0, op, two, 0, 0, None)], {}, [])
  }

  lemma DuoLoads(words: seq<string>)
    requires ValidWords(words)
    ensures
      var x := Exclusive;
      var first, both := map[1 := x], map[1 := x, 2 := x];
      var l := Loaded(EMPTY_STATE);
      && Leads(Duo(words, HasMutex, HasMutex, {}, map[]), TakeLock(1), Duo(words, HasLock, HasMutex, {}, first))
      && Leads(Duo(words, HasLock, HasMutex, {}, first), LoadFile(1), Duo(words, l, HasMutex, {}, first))
      && Leads(Duo(words, l, HasMutex, {}, first), TakeLock(2), Duo(words, l, HasLock, {}, both))
      && Leads(Duo(words, l, HasLock, {}, both), LoadFile(2), Duo(words, l, l, {}, both))
  {
  }

  lemma DuoRuns(words: seq<string>)
    requires ValidWords(words)
    ensures
      var both := map[1 := Exclusive, 2 := Exclusive];
      var l := Loaded(EMPTY_STATE);
      var r, st := Registered(words[0]), State(1, 1, map[words[0] := Pending(words[0], "condition", "token", 0)]);
      var p := Ran(0, r, st);
      && Leads(Duo(words, l, l, {}, both), RunClosure(1, 0), Duo(words, p, l, {}, both))
      && Leads(Duo(words, p, l, {}, both), RunClosure(2, 0), Duo(words, p, p, {}, both))
  {
  }

  lemma DuoRenames(words: seq<string>) returns (one: System, two: System)
    requires ValidWords(words)
    ensures
      var r, st := Registered(words[0]), State(1, 1, map[words[0] := Pending(words[0], "condition", "token", 0)]);
      var w := TempWritten(0, r, st);
      Leads(Duo(words, w, w, {1, 2}, map[1 := Exclusive, 2 := Exclusive]), Rename(1), one) && Leads(one, Rename(2), two)
    ensures |two.log| == 2 && two.log[0].resp == two.log[1].resp == Registered(words[0])
    ensures Load(two.file).Ok? && Load(two.file).value.counter == 1 && |Load(two.file).value.records| == 1
  {
    var r, st := Registered(words[0]), State(1, 1, map[words[0] := Pending(words[0], "condition", "token", 0)]);
    var w := TempWritten(0, r, st);
    one := After(Duo(words, w, w, {1, 2}, map[1 := Exclusive, 2 := Exclusive]), Rename(1));
    two := After(one, Rename(2));
  }

  lemma DuoWrites(words: seq<string>)
    requires ValidWords(words)
    ensures
      var both := map[1 := Exclusive, 2 := Exclusive];
      var r, st := Registered(words[0]), State(1, 1, map[words[0] := Pending(words[0], "condition", "token", 0)]);
      var p, o, w := Ran(0, r, st), TempOpen(0, r, st), TempWritten(0, r, st);
      && Leads(Duo(words, p, p, {}, both), OpenTemp(1), Duo(words, o, p, {1}, both))
      && Leads(Duo(words, o, p, {1}, both), WriteTemp(1), Duo(words, w, p, {1}, both))
      && Leads(Duo(words, w, p, {1}, both), OpenTemp(2), Duo(words, w, o, {1, 2}, both))
      && Leads(Duo(words, w, o, {1, 2}, both), WriteTemp(2), Duo(words, w, w, {1, 2}, both))
  {
  }

  /**
   * The mutex carries the weight: were two calls of one process past it together, the file lock would stop neither,
   * both would work on the same loaded state, and the second rename would overwrite the first registration. Both
   * calls would return the same id.
   */
  lemma WithoutMutexAnUpdateIsLost(words: seq<string>) returns (states: seq<System>, steps: seq<Step>)
    requires ValidWords(words)
    ensures Stretch(states, steps) && states[0] == Duo(words, HasMutex, HasMutex, {}, map[])
    ensures
      var t := states[|steps|];
      && |t.log| == 2 && t.log[0].resp == t.log[1].resp == Registered(words[0])
      && Load(t.file).Ok? && Load(t.file).value.counter == 1 && |Load(t.file).value.records| == 1
  {
    DuoLoads(words);
    DuoRuns(words);
    DuoWrites(words);
    var first, both := map[1 := Exclusive], map[1 := Exclusive, 2 := Exclusive];
    var l := Loaded(EMPTY_STATE);
    var r, st := Registered(words[0]), State(1, 1, map[words[0] := Pending(words[0], "condition", "token", 0)]);
    var p, o, w := Ran(0, r, st), TempOpen(0, r, st), TempWritten(0, r, st);
    states, steps := [Duo(words, HasMutex, HasMutex, {}, map[])], [];
    states, steps := StretchStep(states, steps, TakeLock(1), Duo(words, HasLock, HasMutex, {}, first));
    states, steps := StretchStep(states, steps, LoadFile(1), Duo(words, l, HasMutex, {}, first));
    states, steps := StretchStep(states, steps, TakeLock(2), Duo(words, l, HasLock, {}, both));
    states, steps := StretchStep(states, steps, LoadFile(2), Duo(words, l, l, {}, both));
    states, steps := StretchStep(states, steps, RunClosure(1, 0), Duo(words, p, l, {}, both));
    states, steps := StretchStep(states, steps, RunClosure(2, 0), Duo(words, p, p, {}, both));
    states, steps := StretchStep(states, steps, OpenTemp(1), Duo(words, o, p, {1}, both));
    states, steps := StretchStep(states, steps, WriteTemp(1), Duo(words, w, p, {1}, both));
    states, steps := StretchStep(states, steps, OpenTemp(2), Duo(words, w, o, {1, 2}, both));
    states, steps := StretchStep(states, steps, WriteTemp(2), Duo(words, w, w, {1, 2}, both));
    var one, two := DuoRenames(words);
    states, steps := StretchStep(states, steps, Rename(1), one);
    states, steps := StretchStep(states, steps, Rename(2), two);
  }

  /** Readers do not wait for readers: a reader's request is granted for sure when only readers hold the lock. */
  lemma ReadersOverlap(s: System, c: nat)
    requires Inv(s) && c in s.calls && s.calls[c].phase.HasMutex? && s.calls[c].op.Read?
    requires forall d | d in s.locks :: s.calls[d].op.Read?
    requires forall d | d in s.leaked :: s.leaked[d].Shared?
    ensures Certain(s, TakeLock(c))
  {
  }

  // ----- ids

  /** No two Register calls return the same id, across processes, crashes, purges and caller-supplied ids. */
  lemma RegisterCallsGetDistinctIds(s: System, c: nat, d: nat)
    requires Inv(s) && c in s.calls && d in s.calls && c != d
    requires s.calls[c].op.Write? && s.calls[c].op.w.Register? && s.calls[d].op.Write? && s.calls[d].op.w.Register?
    requires s.calls[c].phase.Returned? && s.calls[c].phase.out.Ok?
    requires s.calls[d].phase.Returned? && s.calls[d].phase.out.Ok?
    requires s.Hist().Registrations(|s.log|) <= TWO_64
    ensures s.calls[c].phase.out.value.Registered? && s.calls[d].phase.out.value.Registered?
    ensures s.calls[c].phase.out.value.id != s.calls[d].phase.out.value.id
  {
    var h := s.Hist();
    assert CallOk(s, c, s.calls[c]) && CallOk(s, d, s.calls[d]);
    var k, l := s.calls[c].at, s.calls[d].at;
    assert k != l;
    if k < l {
      RegisterEntriesDiffer(h, k, l);
    } else {
      RegisterEntriesDiffer(h, l, k);
    }
  }

  /** Starting without a state file, every reachable document is well formed and its records are the log's. */
  lemma ReachableDocuments(s: System, id: string)
    requires Inv(s) && s.init == None
    ensures Fresh(s.Hist())
    ensures Load(s.file) == Ok(s.Hist().Now()) && WellFormed(s.Hist().Now())
    ensures RecordIsFromLog(s.Hist(), id, |s.log|)
    ensures s.Hist().AllRegistrations(|s.log|) ==
            |s.Hist().Now().records| + s.Hist().RemovedTotal(|s.log|) + s.Hist().Replacements(|s.log|)
  {
    FileIsReplay(s);
    VersionNeverChanges(s.Hist(), |s.log|);
    StatesWellFormed(s.Hist(), |s.log|);
    RecordsComeFromTheLog(s.Hist(), id, |s.log|);
    RegistrationsAccountedFor(s.Hist(), |s.log|);
  }

  // ----- progress

  /** No step of the normal course is possible: the run must stop. */
  ghost predicate MustStop(s: System) {
    forall step: Step | step.Normal() :: !Enabled(s, step)
  }

  /** No step of the normal course is certain: the run may stop, if requests behind their own process wait. */
  ghost predicate MayStop(s: System) {
    forall step: Step | step.Normal() :: !Certain(s, step)
  }

  /** The call waits for the file lock, which a failed release has left with another process. */
  predicate WaitsForLeak(s: System, c: nat) {
    c in s.calls && s.calls[c].phase.HasMutex? && s.BlockedBy(c, s.leaked)
  }

  /** The call waits for the file lock, which a failed release has left with some process, perhaps its own. */
  predicate WaitsForAnyLeak(s: System, c: nat) {
    c in s.calls && s.calls[c].phase.HasMutex? && s.ConflictsWith(c, s.leaked)
  }

  /** The call waits behind a lock leaked by another process, itself or through the holder of its process's mutex. */
  predicate BehindLeak(s: System, c: nat)
    requires c in s.calls
  {
    || WaitsForLeak(s, c)
    || (s.calls[c].phase.Waiting? && s.calls[c].process in s.mutex && WaitsForLeak(s, s.mutex[s.calls[c].process]))
  }

  /** The same for a lock leaked by any process. */
  predicate BehindAnyLeak(s: System, c: nat)
    requires c in s.calls
  {
    || WaitsForAnyLeak(s, c)
    || (s.calls[c].phase.Waiting? && s.calls[c].process in s.mutex && WaitsForAnyLeak(s, s.mutex[s.calls[c].process]))
  }

  /** The next normal step of a call that holds the lock or is past it. */
  function NextStep(s: System, c: nat): Step
    requires c in s.calls && (s.calls[c].phase.HoldsLock() || s.calls[c].phase.Leaving?)
  {
    match s.calls[c].phase
    case HasLock => LoadFile(c)
    case Loaded(_) => RunClosure(c, 0)
    case Ran(_, _, _) => OpenTemp(c)
    case TempOpen(_, _, _) => WriteTemp(c)
    case TempWritten(_, _, _) => Rename(c)
    case Closing(_) => DropLock(c)
    case _ => DropMutex(c)
  }

  lemma NextStepCertain(s: System, c: nat)
    requires Inv(s) && c in s.calls && (s.calls[c].phase.HoldsLock() || s.calls[c].phase.Leaving?)
    ensures Certain(s, NextStep(s, c)) && NextStep(s, c).Normal()
  {
    assert DataOk(s, s.calls[c]);
  }

  /** A call that holds its mutex in a state without certain steps waits for a leak. */
  lemma StoppedHolder(s: System, c: nat)
    requires Inv(s) && MayStop(s) && c in s.calls && s.calls[c].phase.HoldsMutex()
    ensures WaitsForAnyLeak(s, c) && s.locks == map[]
  {
    if !s.calls[c].phase.HasMutex? {
      NextStepCertain(s, c);
    }
    if s.locks != map[] {
      var d :| d in s.locks;
      NextStepCertain(s, d);
    }
    assert !Certain(s, TakeLock(c)) by {
      assert TakeLock(c).Normal();
    }
  }

  lemma StoppedCall(s: System, c: nat)
    requires Inv(s) && MayStop(s) && c in s.calls && !s.calls[c].phase.Finished()
    ensures BehindAnyLeak(s, c) && s.locks == map[]
  {
    if s.calls[c].phase.Waiting? {
      assert TakeMutex(c).Normal() && !Certain(s, TakeMutex(c));
      StoppedHolder(s, s.mutex[s.calls[c].process]);
    } else {
      StoppedHolder(s, c);
    }
  }

  /** Behind a leak no normal step of the call is certain, or even possible when another process left it. */
  lemma BehindAnyLeakStops(s: System, step: Step)
    requires Inv(s) && step.Normal()
    requires step.c in s.calls && !s.calls[step.c].phase.Finished() ==> BehindAnyLeak(s, step.c)
    ensures !Certain(s, step)
  {
  }

  lemma BehindLeakStops(s: System, step: Step)
    requires Inv(s) && step.Normal()
    requires step.c in s.calls && !s.calls[step.c].phase.Finished() ==> BehindLeak(s, step.c)
    ensures !Enabled(s, step)
  {
  }

  /** A run may stop exactly when every unfinished call waits behind a lock that some failed release left behind. */
  lemma MayStopIffBehindAnyLeak(s: System)
    requires Inv(s)
    ensures MayStop(s) <==> forall c | c in s.calls && !s.calls[c].phase.Finished() :: BehindAnyLeak(s, c)
  {
    if MayStop(s) {
      forall c | c in s.calls && !s.calls[c].phase.Finished() ensures BehindAnyLeak(s, c) {
        StoppedCall(s, c);
      }
    }
    if forall c | c in s.calls && !s.calls[c].phase.Finished() :: BehindAnyLeak(s, c) {
      forall step: Step | step.Normal() ensures !Certain(s, step) {
        BehindAnyLeakStops(s, step);
      }
    }
  }

  lemma MustStopHolder(s: System, c: nat)
    requires Inv(s) && MustStop(s) && c in s.calls && s.calls[c].phase.HoldsMutex()
    ensures WaitsForLeak(s, c)
  {
    StoppedHolder(s, c);
    assert !Enabled(s, TakeLock(c)) by {
      assert TakeLock(c).Normal();
    }
  }

  /** It must stop exactly when those locks were left by other processes than the waiting ones. */
  lemma MustStopIffBehindLeak(s: System)
    requires Inv(s)
    ensures MustStop(s) <==> forall c | c in s.calls && !s.calls[c].phase.Finished() :: BehindLeak(s, c)
  {
    if MustStop(s) {
      forall c | c in s.calls && !s.calls[c].phase.Finished() ensures BehindLeak(s, c) {
        StoppedCall(s, c);
        MustStopHolder(s, if s.calls[c].phase.Waiting? then s.mutex[s.calls[c].process] else c);
      }
    }
    if forall c | c in s.calls && !s.calls[c].phase.Finished() :: BehindLeak(s, c) {
      forall step: Step | step.Normal() ensures !Enabled(s, step) {
        BehindLeakStops(s, step);
      }
    }
  }

  /** Call 1 of process 0 has returned without releasing its shared lock. */
  function Leaky(words: seq<string>, calls: map<nat, Call>, mutex: map<nat, nat>): System {
    System(words, None, None, {}, mutex, map[], map[1 := Shared],
           map[1 := Call(0, Read(List), Returned(Err(ReleaseFailed)), 0, 0, None)] + calls, {}, [])
  }

  /** The same with call 2, a registration by process 1, at the given phase. */
  function LeakyWith(words: seq<string>, phase: Phase, mutex: map<nat, nat>): System {
    Leaky(words, map[2 := Call(1, Write(Register("token", "condition")), phase, 0, 0, None)], mutex)
  }

  /** One reader of process 0, before its release. */
  function Reader(words: seq<string>, phase: Phase, mutex: map<nat, nat>, locks: map<nat, Mode>): System {
    System(words, None, None, {}, mutex, locks, map[], map[1 := Call(0, Read(List), phase, 0, 0, None)], {}, [])
  }

  lemma ReaderSteps(words: seq<string>, start: System)
    requires ValidWords(words) && start == System(words, None, None, {}, map[], map[], map[], map[], {}, [])
    ensures
      var m, l := map[0 := 1], map[1 := Shared];
      && Initial(start)
      && Leads(start, Begin(1, 0, Read(List)), Reader(words, Waiting, map[], map[]))
      && Leads(Reader(words, Waiting, map[], map[]), TakeMutex(1), Reader(words, HasMutex, m, map[]))
      && Leads(Reader(words, HasMutex, m, map[]), TakeLock(1), Reader(words, HasLock, m, l))
      && Leads(Reader(words, HasLock, m, l), LoadFile(1), Reader(words, Loaded(EMPTY_STATE), m, l))
      && Leads(Reader(words, Loaded(EMPTY_STATE), m, l), RunClosure(1, 0),
               Reader(words, Closing(Ok(Listed(map[]))), m, l))
  {
  }

  lemma WriterSteps(words: seq<string>, leaving: System, idle: System, waiting: System)
    requires ValidWords(words)
    requires leaving == Reader(words, Leaving(Err(ReleaseFailed)), map[0 := 1], map[]).(leaked := map[1 := Shared])
    requires idle == Leaky(words, map[], map[])
    requires waiting == LeakyWith(words, Waiting, map[])
    ensures Leads(Reader(words, Closing(Ok(Listed(map[]))), map[0 := 1], map[1 := Shared]), DropError(1), leaving)
    ensures Leads(leaving, DropMutex(1), idle)
    ensures Leads(idle, Begin(2, 1, Write(Register("token", "condition"))), waiting)
    ensures Leads(waiting, TakeMutex(2),
                  LeakyWith(words, HasMutex, map[1 := 2]))
  {
  }

  lemma ReaderLeaks(words: seq<string>) returns (states: seq<System>, steps: seq<Step>)
    requires ValidWords(words)
    ensures Run(states, steps)
    ensures states[|steps|] == Reader(words, Closing(Ok(Listed(map[]))), map[0 := 1], map[1 := Shared])
  {
    var m, l := map[0 := 1], map[1 := Shared];
    var start := System(words, None, None, {}, map[], map[], map[], map[], {}, []);
    ReaderSteps(words, start);
    states, steps := [start], [];
    states, steps := StretchStep(states, steps, Begin(1, 0, Read(List)), Reader(words, Waiting, map[], map[]));
    states, steps := StretchStep(states, steps, TakeMutex(1), Reader(words, HasMutex, m, map[]));
    states, steps := StretchStep(states, steps, TakeLock(1), Reader(words, HasLock, m, l));
    states, steps := StretchStep(states, steps, LoadFile(1), Reader(words, Loaded(EMPTY_STATE), m, l));
    states, steps := StretchStep(states, steps, RunClosure(1, 0), Reader(words, Closing(Ok(Listed(map[]))), m, l));
  }

  lemma LeakyMustStop(words: seq<string>, s: System)
    requires s == LeakyWith(words, HasMutex, map[1 := 2])
    ensures MustStop(s) && 2 in s.calls && !s.calls[2].phase.Finished()
  {
    assert s.BlockedBy(2, s.leaked) by {
      assert 1 in s.leaked && 1 in s.calls;
    }
  }

  /** Such a stop is reachable: a reader's failed release keeps a writer of another process waiting. */
  lemma FailedReleaseBlocks(words: seq<string>) returns (states: seq<System>, steps: seq<Step>)
    requires ValidWords(words)
    ensures Run(states, steps)
    ensures MustStop(states[|steps|])
    ensures exists c | c in states[|steps|].calls :: !states[|steps|].calls[c].phase.Finished()
  {
    var a, x := ReaderLeaks(words);
    var op := Write(Register("token", "condition"));
    var leaving := Reader(words, Leaving(Err(ReleaseFailed)), map[0 := 1], map[]).(leaked := map[1 := Shared]);
    var idle := Leaky(words, map[], map[]);
    var waiting := LeakyWith(words, Waiting, map[]);
    var blocked := LeakyWith(words, HasMutex, map[1 := 2]);
    WriterSteps(words, leaving, idle, waiting);
    states, steps := StretchStep(a, x, DropError(1), leaving);
    states, steps := StretchStep(states, steps, DropMutex(1), idle);
    states, steps := StretchStep(states, steps, Begin(2, 1, op), waiting);
    states, steps := StretchStep(states, steps, TakeMutex(2), blocked);
    LeakyMustStop(words, states[|steps|]);
  }

  /**
   * Without failed releases some call can always go on for certain: whichever way requests behind their own process
   * turn out, and without a lock or a mutex that anybody holds.
   */
  lemma NoDeadlock(s: System, c: nat) returns (step: Step)
    requires Inv(s) && s.leaked == map[] && c in s.calls && !s.calls[c].phase.Finished()
    ensures step.Normal() && Certain(s, step)
    ensures step.TakeLock? ==> s.locks == map[]
  {
    if s.locks != map[] {
      step := LockHolderGoesOn(s);
    } else if s.calls[c].phase.HoldsMutex() {
      step := HolderGoesOn(s, c);
    } else if s.calls[c].process in s.mutex {
      step := HolderGoesOn(s, s.mutex[s.calls[c].process]);
    } else {
      step := TakeMutex(c);
    }
  }

  lemma LockHolderGoesOn(s: System) returns (step: Step)
    requires Inv(s) && s.locks != map[]
    ensures step.Normal() && !step.TakeLock? && Certain(s, step)
  {
    var d :| d in s.locks;
    NextStepCertain(s, d);
    return NextStep(s, d);
  }

  lemma HolderGoesOn(s: System, c: nat) returns (step: Step)
    requires Inv(s) && s.leaked == map[] && s.locks == map[] && c in s.calls && s.calls[c].phase.HoldsMutex()
    ensures step.Normal() && Certain(s, step)
  {
    if s.calls[c].phase.HasMutex? {
      return TakeLock(c);
    }
    NextStepCertain(s, c);
    return NextStep(s, c);
  }

  /** Nothing is left to do and nothing is left behind, except by crashed calls. */
  ghost predicate Settled(s: System) {
    && (forall c | c in s.calls :: s.calls[c].phase.Finished())
    && s.mutex == map[] && s.locks == map[]
    && (forall c | c in s.temps :: c in s.calls && s.calls[c].phase.Crashed?)
  }

  /** Where a run may stop without a leaked lock, everything is settled. */
  lemma StopsSettled(s: System)
    requires Inv(s) && MayStop(s) && s.leaked == map[]
    ensures Settled(s)
  {
    forall c | c in s.calls ensures s.calls[c].phase.Finished() {
      if !s.calls[c].phase.Finished() {
        var step := NoDeadlock(s, c);
      }
    }
  }

  // ----- termination

  /** An upper bound on the steps a call still has to make. */
  function Remaining(ph: Phase): nat {
    match ph
    case Waiting => 9
    case HasMutex => 8
    case HasLock => 7
    case Loaded(_) => 6
    case Ran(_, _, _) => 5
    case TempOpen(_, _, _) => 4
    case TempWritten(_, _, _) => 3
    case Closing(_) => 2
    case Leaving(_) => 1
    case Returned(_) => 0
    case Crashed => 0
  }

  /** The bound for all calls whose number is below n. */
  function Work(calls: map<nat, Call>, n: nat): nat {
    if n == 0 then 0 else Work(calls, n - 1) + if n - 1 in calls then Remaining(calls[n - 1].phase) else 0
  }

  lemma {:induction false} WorkDropsAt(before: map<nat, Call>, after: map<nat, Call>, c: nat, n: nat)
    requires c in before && c in after && after == before[c := after[c]]
    requires Remaining(after[c].phase) < Remaining(before[c].phase)
    ensures if c < n then Work(after, n) < Work(before, n) else Work(after, n) == Work(before, n)
  {
    if n > 0 {
      WorkDropsAt(before, after, c, n - 1);
    }
  }

  lemma {:induction false} WorkNeverGrows(before: map<nat, Call>, after: map<nat, Call>, n: nat)
    requires after.Keys == before.Keys
    requires forall c | c in before :: Remaining(after[c].phase) <= Remaining(before[c].phase)
    ensures Work(after, n) <= Work(before, n)
  {
    if n > 0 {
      WorkNeverGrows(before, after, n - 1);
    }
  }

  /** Every step but a crash or a new call uses up work; a crash adds none. */
  lemma StepUsesWork(s: System, step: Step, n: nat)
    requires |s.words| > 0 && Enabled(s, step) && !step.Begin?
    requires forall c | c in s.calls :: c < n
    ensures After(s, step).calls.Keys == s.calls.Keys
    ensures if step.Crash? then Work(After(s, step).calls, n) <= Work(s.calls, n)
            else Work(After(s, step).calls, n) < Work(s.calls, n)
  {
    if step.Crash? {
      CrashShape(s, step.process);
      WorkNeverGrows(s.calls, After(s, step).calls, n);
    } else {
      OrdinaryStep(s, step);
      WorkDropsAt(s.calls, After(s, step).calls, step.c, n);
    }
  }

  function CallSteps(steps: seq<Step>): nat {
    if steps == [] then 0 else CallSteps(steps[..|steps| - 1]) + if steps[|steps| - 1].Crash? then 0 else 1
  }

  /** A stretch without new calls makes only so many steps, whatever fails and whoever crashes. */
  lemma {:induction false} StretchesEnd(states: seq<System>, steps: seq<Step>, n: nat)
    requires Stretch(states, steps) && forall i | 0 <= i < |steps| :: !steps[i].Begin?
    requires forall c | c in states[0].calls :: c < n
    ensures states[|steps|].calls.Keys == states[0].calls.Keys
    ensures CallSteps(steps) + Work(states[|steps|].calls, n) <= Work(states[0].calls, n)
    decreases |steps|
  {
    if steps != [] {
      var m := |steps| - 1;
      assert Leads(states[m], steps[m], states[m + 1]);
      forall i | 0 <= i < m ensures Leads(states[..m + 1][i], steps[..m][i], states[..m + 1][i + 1]) {
        assert Leads(states[i], steps[i], states[i + 1]);
      }
      StretchesEnd(states[..m + 1], steps[..m], n);
      StepUsesWork(states[m], steps[m], n);
    }
  }

  // ----- every run without new calls settles

  /** No release fails in these steps. */
  predicate NoFailedRelease(steps: seq<Step>) {
    forall i | 0 <= i < |steps| :: !steps[i].DropError?
  }

  /** Only a failed release leaks a lock. */
  lemma StepLeaksNothing(s: System, step: Step)
    requires |s.words| > 0 && Enabled(s, step) && s.leaked == map[] && !step.DropError?
    ensures After(s, step).leaked == map[]
  {
  }

  lemma {:induction false} StretchLeaksNothing(states: seq<System>, steps: seq<Step>, i: nat)
    requires Stretch(states, steps) && states[0].leaked == map[] && NoFailedRelease(steps) && i < |states|
    ensures states[i].leaked == map[]
  {
    if i > 0 {
      StretchLeaksNothing(states, steps, i - 1);
      assert Leads(states[i - 1], steps[i - 1], states[i]);
      StepLeaksNothing(states[i - 1], steps[i - 1]);
    }
  }

  /**
   * Every maximal stretch without new calls and failed releases ends with everything settled, whoever crashes and
   * whatever else fails in it: where it may stop, all calls are finished and all mutexes and locks are free. And it
   * does stop, after no more steps of calls than there was work at its start.
   */
  lemma MaximalStretchesSettle(states: seq<System>, steps: seq<Step>, n: nat)
    requires Stretch(states, steps) && Inv(states[0]) && states[0].leaked == map[] && NoFailedRelease(steps)
    requires forall i | 0 <= i < |steps| :: !steps[i].Begin?
    requires forall c | c in states[0].calls :: c < n
    ensures MayStop(states[|steps|]) ==> Settled(states[|steps|])
    ensures CallSteps(steps) <= Work(states[0].calls, n)
  {
    StretchKeepsInv(states, steps, |steps|);
    StretchLeaksNothing(states, steps, |steps|);
    StretchesEnd(states, steps, n);
    if MayStop(states[|steps|]) {
      StopsSettled(states[|steps|]);
    }
  }

  /** A stretch of steps of the normal course that are certain where they are taken. */
  ghost predicate CertainStretch(states: seq<System>, steps: seq<Step>) {
    Stretch(states, steps) && forall i | 0 <= i < |steps| :: steps[i].Normal() && Certain(states[i], steps[i])
  }

  lemma Prepend(s: System, step: Step, rest: seq<System>, more: seq<Step>)
    returns (states: seq<System>, steps: seq<Step>)
    requires CertainStretch(rest, more) && Leads(s, step, rest[0]) && step.Normal() && Certain(s, step)
    ensures CertainStretch(states, steps) && states[0] == s && states[|steps|] == rest[|more|]
  {
    states, steps := [s] + rest, [step] + more;
    forall i | 0 <= i < |steps|
      ensures Leads(states[i], steps[i], states[i + 1]) && steps[i].Normal() && Certain(states[i], steps[i])
    {
      if i > 0 {
        assert Leads(rest[i - 1], more[i - 1], rest[i]) && more[i - 1].Normal() && Certain(rest[i - 1], more[i - 1]);
      }
    }
  }

  lemma OneStepOn(s: System, c: nat, n: nat) returns (step: Step, t: System)
    requires Inv(s) && s.leaked == map[] && c in s.calls && !s.calls[c].phase.Finished()
    requires forall d | d in s.calls :: d < n
    ensures step.Normal() && Certain(s, step) && Leads(s, step, t)
    ensures Inv(t) && t.leaked == map[] && t.calls.Keys == s.calls.Keys && Work(t.calls, n) < Work(s.calls, n)
  {
    step := NoDeadlock(s, c);
    t := After(s, step);
    StepKeepsInv(s, step);
    StepUsesWork(s, step, n);
    StepLeaksNothing(s, step);
  }

  /** From any state without leaked locks, normal steps that are certain lead to a settled one. */
  lemma {:induction false} NormalStepsSettle(s: System, n: nat) returns (states: seq<System>, steps: seq<Step>)
    requires Inv(s) && s.leaked == map[] && forall c | c in s.calls :: c < n
    ensures CertainStretch(states, steps) && states[0] == s && Settled(states[|steps|])
    decreases Work(s.calls, n)
  {
    if c :| c in s.calls && !s.calls[c].phase.Finished() {
      var step, t := OneStepOn(s, c, n);
      var rest, more := NormalStepsSettle(t, n);
      states, steps := Prepend(s, step, rest, more);
    } else {
      states, steps := [s], [];
      FinishedIsSettled(s);
    }
  }

  lemma FinishedIsSettled(s: System)
    requires Inv(s) && forall c | c in s.calls :: s.calls[c].phase.Finished()
    ensures Settled(s)
  {
    assert forall c :: c !in s.locks;
  }
}
