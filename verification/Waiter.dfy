/** internal/cli/status.go joined with the wait script: what a waiter's `continue` says about the log. */
module Waiter {
  import opened Prelude
  import opened Schema
  import opened StoreSpec
  import opened History
  import opened Protocol
  import opened Guarantees
  import opened ChainWait

  /** runStatus: the exit status for the outcome of Get. */
  function StatusCode(out: Outcome): int {
    match out
    case Ok(Found(r)) =>
      if r.status == STATUS_RESOLVED then 0
      else if r.status == STATUS_PENDING then 2
      else 1
    case _ => 1
  }

  /** Call c is a finished `status id` process that exited with code; one that was killed did not exit with 0. */
  predicate PollOf(s: System, c: nat, id: string, code: int) {
    && c in s.calls && s.calls[c].op == Read(Get(id))
    && match s.calls[c].phase
       case Returned(out) => code == StatusCode(out)
       case Crashed => code != CODE_RESOLVED
       case _ => false
  }

  /** Every error exits with 1, and so does a record with any other status; 0 and 2 are for the two statuses alone. */
  lemma StatusCodes(out: Outcome)
    ensures StatusCode(out) == 0 <==> out.Ok? && out.value.Found? && out.value.record.status == "resolved"
    ensures StatusCode(out) == 2 <==> out.Ok? && out.value.Found? && out.value.record.status == "pending"
    ensures StatusCode(out) == 0 || StatusCode(out) == 1 || StatusCode(out) == 2
  {
  }

  /** While the file is refused, every status process that returns exits with 1. */
  lemma PollOfRefusedFile(states: seq<System>, steps: seq<Step>, i: nat, c: nat, id: string, code: int)
    requires Run(states, steps) && i < |states| && Refusal(states[0].init).Some?
    requires PollOf(states[i], c, id, code) && states[i].calls[c].phase.Returned?
    ensures code == 1
  {
    RefusedFilesStay(states, steps, i);
  }

  /**
   * The three exit statuses, read off the log at the position of the poll: 0 exactly when the id was registered, not
   * purged since, and resolved since; 2 exactly when registered and neither purged nor resolved since; 1 otherwise.
   */
  lemma PollReportsTheLog(s: System, c: nat, id: string, code: int)
    requires Inv(s) && s.init == None && PollOf(s, c, id, code)
    requires s.calls[c].phase.Returned? && (s.calls[c].phase.out.Err? ==> !s.calls[c].phase.out.error.Environmental())
    ensures s.calls[c].at <= |s.log|
    ensures
      var h, at := s.Hist(), s.calls[c].at;
      code == if !h.Live(id, at) then 1 else if h.ResolvedBy(id, at).Some? then 0 else 2
  {
    assert CallOk(s, c, s.calls[c]);
    RecordsComeFromTheLog(s.Hist(), id, s.calls[c].at);
  }

  /**
   * A poll that reads after a Resolve of its id was committed reports it, unless its own system calls fail or the
   * record was purged or registered again before the state it reads.
   */
  lemma PollAfterResolutionReportsIt(s: System, c: nat, id: string, code: int, j: nat)
    requires Inv(s) && PollOf(s, c, id, code)
    requires s.calls[c].phase.Returned? && (s.calls[c].phase.out.Err? ==> !s.calls[c].phase.out.error.Environmental())
    requires j < s.calls[c].at && j < |s.log| && s.log[j].op.Resolve? && s.log[j].op.id == id
    requires forall k | j < k < s.calls[c].at && k < |s.log| :: !Disturbs(s.Hist(), k, id)
    ensures code == 0
  {
    var call := s.calls[c];
    assert CallOk(s, c, call);
    ResolutionLasts(s.Hist(), id, j, call.at);
  }

  // ----- waiters in a run

  /**
   * One execution of `status id` by the script. Asked: it reached the store, as call c begun at step begun and finished
   * by state done. NoAnswer: it ended before that (no binary, no state directory, a usage error), and not with 0.
   */
  datatype Poll = Asked(c: nat, begun: nat, done: nat) | NoAnswer

  ghost predicate PollInRun(states: seq<System>, steps: seq<Step>, p: Poll, id: string, code: int)
    requires |states| == |steps| + 1
  {
    match p
    case Asked(c, begun, done) =>
      && begun < done < |states|
      && steps[begun].Begin? && steps[begun].c == c && steps[begun].op == Read(Get(id))
      && PollOf(states[done], c, id, code)
    case NoAnswer => code != CODE_RESOLVED
  }

  /** The script makes its polls one after the other. */
  predicate InOrder(polls: seq<Poll>) {
    forall i, k | 0 <= i < k < |polls| && polls[i].Asked? && polls[k].Asked? :: polls[i].done <= polls[k].begun
  }

  /** A whole waiter inside a run of the protocol: its polls, their exit statuses, its clock and its outcome. */
  ghost predicate WaiterRun(
      states: seq<System>, steps: seq<Step>, id: string,
      polls: seq<Poll>, codes: seq<int>, budget: nat, start: int, now: seq<int>, r: WaitOutcome)
  {
    && Run(states, steps)
    && |polls| == |codes| == |now| && InOrder(polls)
    && (forall i | 0 <= i < |polls| :: PollInRun(states, steps, polls[i], id, codes[i]))
    && IsOutcome(budget, start, codes, now, r)
  }

  /** The position a poll reads lies between the lengths of the log at its beginning and its end. */
  lemma PollPosition(states: seq<System>, steps: seq<Step>, p: Poll, id: string, code: int)
    requires Run(states, steps) && PollInRun(states, steps, p, id, code) && p.Asked?
    ensures Inv(states[p.done])
    ensures |states[p.begun].log| <= states[p.done].calls[p.c].at <= |states[p.done].log|
  {
    ReadsNoEarlier(states, steps, p.c, p.begun, p.done);
  }

  /**
   * A waiter exits with 0, and prints `continue`, only if its last poll saw, at a moment between the poll's beginning
   * and end, an id whose latest registration in the log is followed by a Resolve that carries its token or is forced.
   */
  lemma ContinueMeansResolved(
      states: seq<System>, steps: seq<Step>, id: string,
      polls: seq<Poll>, codes: seq<int>, budget: nat, start: int, now: seq<int>, r: WaitOutcome)
    requires WaiterRun(states, steps, id, polls, codes, budget, start, now, r)
    requires states[0].init == None && r.ExitCode() == Some(0)
    ensures r.Continue? && polls[r.poll].Asked?
    ensures
      var p := polls[r.poll];
      exists i, j, at | |states[p.begun].log| <= at <= |states[p.done].log| ::
        ResolvedSince(states[p.done].Hist(), id, i, j, at)
  {
    assert PollInRun(states, steps, polls[r.poll], id, codes[r.poll]);
    var p := polls[r.poll];
    PollPosition(states, steps, p, id, codes[r.poll]);
    RunShape(states, steps, 0, p.done, 0);
    var s := states[p.done];
    assert CallOk(s, p.c, s.calls[p.c]);
    SeenResolvedWasResolved(s.Hist(), id, s.calls[p.c].at);
    var i, j :| ResolvedSince(s.Hist(), id, i, j, s.calls[p.c].at);
  }

  /**
   * Any poll that begins when a Resolve of its id has been committed ends the wait with `continue`, whichever waiter
   * makes it, if no earlier poll ended it, its own system calls succeed, and the record is neither purged nor
   * registered again before the state it reads.
   */
  lemma WaitersContinueAfterResolution(
      states: seq<System>, steps: seq<Step>, id: string,
      polls: seq<Poll>, codes: seq<int>, budget: nat, start: int, now: seq<int>, r: WaitOutcome,
      m: nat, j: nat)
    requires WaiterRun(states, steps, id, polls, codes, budget, start, now, r) && m < |polls| && polls[m].Asked?
    requires
      var p := polls[m];
      var phase := states[p.done].calls[p.c].phase;
      phase.Returned? && (phase.out.Err? ==> !phase.out.error.Environmental())
    requires
      var log := states[polls[m].begun].log;
      j < |log| && log[j].op.Resolve? && log[j].op.id == id
    requires
      var s := states[polls[m].done];
      forall k | j < k < s.calls[polls[m].c].at && k < |s.log| :: !Disturbs(s.Hist(), k, id)
    requires r.Polling? || r.poll >= m
    ensures r == Continue(m)
  {
    var p := polls[m];
    assert PollInRun(states, steps, p, id, codes[m]);
    PollPosition(states, steps, p, id, codes[m]);
    RunShape(states, steps, p.begun, p.done, 0);
    PollAfterResolutionReportsIt(states[p.done], p.c, id, codes[m], j);
    assert !GoesOn(budget, start, codes, now, m);
  }
}
