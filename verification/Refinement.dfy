/**
 * The two views of a call agree: what the methods of Store.dfy compute for a call, with its failing system calls, is
 * what the protocol's steps do when no other call gets in between.
 */
module Refinement {
  import opened Prelude
  import opened Schema
  import opened StoreSpec
  import opened Protocol
  import opened Guarantees
  import S = Store

  /** Some stretch of steps leads from s to t. */
  ghost predicate Reaches(s: System, t: System) {
    exists states, steps :: Stretch(states, steps) && states[0] == s && states[|steps|] == t
  }

  lemma ReachesSelf(s: System)
    ensures Reaches(s, s)
  {
    assert Stretch([s], []);
  }

  lemma ReachesBy(s: System, m: System, step: Step) returns (t: System)
    requires Reaches(s, m) && |m.words| > 0 && Enabled(m, step)
    ensures t == After(m, step) && Reaches(s, t)
  {
    t := After(m, step);
    var a, x :| Stretch(a, x) && a[0] == s && a[|x|] == m;
    assert Leads(m, step, t);
    var states, steps := StretchStep(a, x, step, t);
  }

  /** The call can start at once: its process is idle and nobody holds the file lock. */
  ghost predicate Uncontended(s: System, c: nat, p: nat) {
    |s.words| > 0 && c !in s.calls && p !in s.dead && p !in s.mutex && s.locks == map[] && s.leaked == map[]
  }

  /** The call at the given phase, the file as given, and its mutex its own. */
  ghost predicate Stands(s: System, c: nat, p: nat, op: Op, phase: Phase, words: seq<string>, file: FileState) {
    && s.words == words && s.file == file && p !in s.dead
    && c in s.calls && s.calls[c].op == op && s.calls[c].process == p && s.calls[c].phase == phase
  }

  /** From holding the lock to the end of a write's body. */
  lemma WriteBodySteps(s: System, m: System, c: nat, p: nat, op: WriteOp, file: FileState, env: S.Env)
    returns (t: System)
    requires Reaches(s, m) && |m.words| > 0 && Stands(m, c, p, Write(op), HasLock, m.words, file)
    ensures Reaches(s, t)
    ensures
      var (r, after) := S.ExclusiveBody(m.words, file, op, env);
      Stands(t, c, p, Write(op), Closing(r), m.words, after)
  {
    if S.Read(file, env) == Err(ReadFailed) {
      t := ReachesBy(s, m, ReadError(c));
    } else {
      t := ReachesBy(s, m, LoadFile(c));
      if Load(file).Ok? {
        t := ReachesBy(s, t, RunClosure(c, env.now));
        if Apply(m.words, op, env.now, Load(file).value).Ok? {
          t := WriteSaveSteps(s, t, c, p, op, file, env);
        }
      }
    }
  }

  lemma WriteSaveSteps(s: System, m: System, c: nat, p: nat, op: WriteOp, file: FileState, env: S.Env)
    returns (t: System)
    requires Reaches(s, m) && |m.words| > 0 && Load(file).Ok? && Apply(m.words, op, env.now, Load(file).value).Ok?
    requires
      var e := Apply(m.words, op, env.now, Load(file).value).value;
      Stands(m, c, p, Write(op), Ran(env.now, e.resp, e.post), m.words, file)
    ensures Reaches(s, t)
    ensures
      var e := Apply(m.words, op, env.now, Load(file).value).value;
      if env.SaveFails() then Stands(t, c, p, Write(op), Closing(Err(SaveFailed)), m.words, file)
      else Stands(t, c, p, Write(op), Closing(Ok(e.resp)), m.words, Some(Save(e.post)))
  {
    if env.SaveFails() {
      t := ReachesBy(s, m, SaveError(c));
    } else {
      t := ReachesBy(s, m, OpenTemp(c));
      t := ReachesBy(s, t, WriteTemp(c));
      t := ReachesBy(s, t, Rename(c));
    }
  }

  lemma ReadBodySteps(s: System, m: System, c: nat, p: nat, op: ReadOp, file: FileState, env: S.Env) returns (t: System)
    requires Reaches(s, m) && |m.words| > 0 && Stands(m, c, p, Read(op), HasLock, m.words, file) && !env.acquireFails
    ensures Reaches(s, t)
    ensures Stands(t, c, p, Read(op), Closing(S.SharedBody(file, op, env)), m.words, file)
  {
    if S.Read(file, env) == Err(ReadFailed) {
      t := ReachesBy(s, m, ReadError(c));
    } else {
      t := ReachesBy(s, m, LoadFile(c));
      if Load(file).Ok? {
        t := ReachesBy(s, t, RunClosure(c, env.now));
      }
    }
  }

  /** From the call to holding the lock. */
  lemma OpeningSteps(s: System, c: nat, p: nat, op: Op) returns (t: System)
    requires Uncontended(s, c, p) && op.Check() == None
    ensures Reaches(s, t) && Stands(t, c, p, op, HasMutex, s.words, s.file) && t.locks == map[] && t.leaked == map[]
  {
    ReachesSelf(s);
    t := ReachesBy(s, s, Begin(c, p, op));
    t := ReachesBy(s, t, TakeMutex(c));
  }

  lemma ClosingSteps(s: System, m: System, c: nat, p: nat, op: Op, out: Outcome, file: FileState, env: S.Env)
    returns (t: System)
    requires Reaches(s, m) && |m.words| > 0 && Stands(m, c, p, op, Closing(out), m.words, file)
    ensures Reaches(s, t) && Stands(t, c, p, op, Returned(S.Release(out, env)), m.words, file)
  {
    if env.releaseFails {
      t := ReachesBy(s, m, DropError(c));
    } else {
      t := ReachesBy(s, m, DropLock(c));
    }
    t := ReachesBy(s, t, DropMutex(c));
  }

  /** Every write of the sequential store is a run of the protocol with the same outcome and the same file. */
  lemma WriteCallIsARun(s: System, c: nat, p: nat, op: WriteOp, env: S.Env) returns (t: System)
    requires Uncontended(s, c, p)
    ensures Reaches(s, t)
    ensures
      var (r, after) := S.WriteCall(s.words, s.file, op, env);
      Stands(t, c, p, Write(op), Returned(r), s.words, after)
  {
    if CheckArgs(op).Some? {
      ReachesSelf(s);
      t := ReachesBy(s, s, Begin(c, p, Write(op)));
      return;
    }
    t := OpeningSteps(s, c, p, Write(op));
    if env.acquireFails {
      t := ReachesBy(s, t, LockError(c));
      t := ReachesBy(s, t, DropMutex(c));
    } else {
      t := ReachesBy(s, t, TakeLock(c));
      t := WriteBodySteps(s, t, c, p, op, s.file, env);
      var (r, after) := S.ExclusiveBody(s.words, s.file, op, env);
      t := ClosingSteps(s, t, c, p, Write(op), r, after, env);
    }
  }

  /** Likewise every read; its error is the one the method reports, and the file does not change. */
  lemma ReadCallIsARun(s: System, c: nat, p: nat, op: ReadOp, env: S.Env) returns (t: System)
    requires Uncontended(s, c, p)
    ensures Reaches(s, t)
    ensures Stands(t, c, p, Read(op), Returned(S.Release(S.SharedBody(s.file, op, env), env)), s.words, s.file)
  {
    t := OpeningSteps(s, c, p, Read(op));
    if env.acquireFails {
      t := ReachesBy(s, t, LockError(c));
      t := ReachesBy(s, t, DropMutex(c));
    } else {
      t := ReachesBy(s, t, TakeLock(c));
      t := ReadBodySteps(s, t, c, p, op, s.file, env);
      t := ClosingSteps(s, t, c, p, Read(op), S.SharedBody(s.file, op, env), s.file, env);
    }
  }
}
