/** internal/store/lock.go and store.go: the store as the objects it is built from. */
module Store {
  import opened Prelude
  import opened Schema
  import opened IdGen
  import opened WordList
  import opened StoreSpec
  import opened AtomicWrite

  /** Everything a call takes from its surroundings: which system calls fail, a temporary name, and the clock. */
  datatype Env = Env(
    acquireFails: bool,
    readFails: bool,      // os.ReadFile fails, other than because the file is missing
    marshalFails: bool,
    tmp: string,
    faults: WriteFaults,
    releaseFails: bool,
    now: int)
  {
    predicate SaveFails() {
      marshalFails || faults != NO_FAULTS
    }
  }

  // ----- one call as a function of the file it finds

  function Read(file: FileState, env: Env): Result<State, Error> {
    if env.readFails then Err(ReadFailed) else Load(file)
  }

  /** Releasing the lock can only spoil a success. */
  function Release<T>(r: Result<T, Error>, env: Env): Result<T, Error> {
    if r.Ok? && env.releaseFails then Err(ReleaseFailed) else r
  }

  /** What happens between taking and releasing the exclusive lock. */
  function ExclusiveBody(words: seq<string>, file: FileState, op: WriteOp, env: Env)
    : (Result<Response, Error>, FileState)
    requires |words| > 0
  {
    match Read(file, env)
    case Err(e) => (Err(e), file)
    case Ok(st) =>
      match Apply(words, op, env.now, st)
      case Err(e) => (Err(e), file)
      case Ok(e) => if env.SaveFails() then (Err(SaveFailed), file) else (Ok(e.resp), Some(Save(e.post)))
  }

  function ExclusiveCall(words: seq<string>, file: FileState, op: WriteOp, env: Env)
    : (Result<Response, Error>, FileState)
    requires |words| > 0
  {
    if env.acquireFails then (Err(AcquireFailed), file)
    else
      var (r, after) := ExclusiveBody(words, file, op, env);
      (Release(r, env), after)
  }

  function WriteCall(words: seq<string>, file: FileState, op: WriteOp, env: Env): (Result<Response, Error>, FileState)
    requires |words| > 0
  {
    match CheckArgs(op)
    case Some(e) => (Err(e), file)
    case None => ExclusiveCall(words, file, op, env)
  }

  /** What a reading closure produces, before the lock is released. */
  function SharedBody(file: FileState, op: ReadOp, env: Env): Result<Response, Error> {
    if env.acquireFails then Err(AcquireFailed)
    else
      match Read(file, env)
      case Err(e) => Err(e)
      case Ok(st) => Query(op, st)
  }

  /** An environment in which every call succeeds. */
  predicate Smooth(env: Env) {
    !env.acquireFails && !env.readFails && !env.SaveFails() && !env.releaseFails
  }

  /** The failures a caller can name: each decides the call in this order, and all but the last leave the file alone. */
  lemma FailuresDecide(words: seq<string>, file: FileState, op: WriteOp, rop: ReadOp, env: Env)
    requires |words| > 0
    ensures
      var (r, after) := WriteCall(words, file, op, env);
      if CheckArgs(op).Some? then r == Err(CheckArgs(op).value) && after == file
      else if env.acquireFails then r == Err(AcquireFailed) && after == file
      else if env.readFails then r == Err(ReadFailed) && after == file
      else if Refusal(file).Some? then r == Err(Refusal(file).value) && after == file
      else if Apply(words, op, env.now, Load(file).value).Err? then
        r == Err(Apply(words, op, env.now, Load(file).value).error) && after == file
      else if env.marshalFails || env.faults != WriteFaults(false, false, false, false, false, false) then
        r == Err(SaveFailed) && after == file
      else env.releaseFails ==> r == Err(ReleaseFailed)
    ensures
      var r := SharedBody(file, rop, env);
      if env.acquireFails then r == Err(AcquireFailed)
      else if env.readFails then r == Err(ReadFailed)
      else if Refusal(file).Some? then r == Err(Refusal(file).value)
      else true
  {
    LoadsOrRefuses(file);
  }

  /**
   * A call either commits its operation or leaves the file alone: it commits exactly when its arguments, the lock, the
   * read, the operation on the loaded state and the save all go well, and then only the release can still turn the
   * result into an error. A committed file loads back as the new state.
   */
  lemma CallCommitsOrLeavesFile(words: seq<string>, file: FileState, op: WriteOp, env: Env)
    requires |words| > 0
    ensures
      var (r, after) := WriteCall(words, file, op, env);
      var committed := CheckArgs(op).None? && !env.acquireFails && Read(file, env).Ok? && !env.SaveFails()
                       && Apply(words, op, env.now, Read(file, env).value).Ok?;
      && (!committed ==> after == file && r.Err? && r != Err(ReleaseFailed))
      && (committed ==>
            var e := Apply(words, op, env.now, Load(file).value).value;
            && after == Some(Save(e.post)) && Load(after) == Ok(e.post)
            && r == if env.releaseFails then Err(ReleaseFailed) else Ok(e.resp))
  {
    if Load(file).Ok? && Apply(words, op, env.now, Load(file).value).Ok? {
      SavedStateLoads(file, Apply(words, op, env.now, Load(file).value).value.post);
    }
  }

  // ----- objects

  /** The decoded state a closure mutates. */
  class LoadedState {
    var version: Word64
    var counter: Word64
    var records: map<string, Record>

    constructor (st: State)
      ensures Value() == st
    {
      version, counter, records := st.version, st.counter, st.records;
    }

    function Value(): State
      reads this
    {
      State(version, counter, records)
    }
  }

  /** The loop of List over a map whose iteration order is unspecified. */
  method Collect(records: map<string, Record>) returns (out: seq<Record>)
    ensures Enumerates(out, records)
  {
    out := [];
    ghost var keys: seq<string> := [];
    var unvisited := records.Keys;
    while unvisited != {}
      invariant unvisited <= records.Keys
      invariant Distinct(keys) && |keys| == |out|
      invariant forall k :: k in keys <==> k in records && k !in unvisited
      invariant forall i | 0 <= i < |keys| :: keys[i] in records && out[i] == records[keys[i]]
      decreases unvisited
    {
      var id :| id in unvisited;
      unvisited := unvisited - {id};
      out := out + [records[id]];
      keys := keys + [id];
    }
    assert Enumeration(keys, out, records);
  }

  method ValidateId(id: string) returns (err: Option<Error>)
    ensures err == if ValidId(id) then None else Some(InvalidId(id))
  {
    var n := |id|;
    if n == 0 || n > 64 {
      return Some(InvalidId(id));
    }
    for i := 0 to n
      invariant forall k | 0 <= k < i :: IsSlugChar(id[k])
      invariant i > 0 ==> IsSlugHead(id[0])
    {
      var c := id[i];
      var ok := 'a' <= c <= 'z' || '0' <= c <= '9';
      if i > 0 {
        ok := ok || c == '.' || c == '_' || c == '-';
      }
      if !ok {
        assert i == 0 ==> !IsSlugHead(id[0]);
        assert i > 0 ==> !IsSlugChar(id[i]);
        return Some(InvalidId(id));
      }
    }
    return None;
  }

  class Store {
    const words: seq<string>
    const path: string
    const dir: Directory
    var mu: bool
    var flock: Option<Mode>

    constructor (words: seq<string>, path: string, dir: Directory)
      ensures this.words == words && this.path == path && this.dir == dir && !mu && flock == None
    {
      this.words, this.path, this.dir := words, path, dir;
      mu, flock := false, None;
    }

    /** No call is in progress on this store; the temporary name is one os.CreateTemp can pick. */
    predicate Idle(env: Env)
      reads this, dir
    {
      |words| > 0 && !mu && env.tmp != path && env.tmp !in dir.files && env.tmp !in dir.handles
    }

    // ----- locks: the mutex is always taken before the file lock

    method LockMutex()
      requires !mu
      modifies this`mu
      ensures mu
    {
      mu := true;
    }

    method UnlockMutex()
      requires mu
      modifies this`mu
      ensures !mu
    {
      mu := false;
    }

    method AcquireFlock(mode: Mode, fails: bool) returns (ok: bool)
      requires mu
      modifies this`flock
      ensures ok == !fails && flock == if ok then Some(mode) else old(flock)
    {
      ok := !fails;
      if ok {
        flock := Some(mode);
      }
    }

    method ReleaseFlock(fails: bool) returns (ok: bool)
      requires mu && flock.Some?
      modifies this`flock
      ensures ok == !fails && flock == if ok then None else old(flock)
    {
      ok := !fails;
      if ok {
        flock := None;
      }
    }

    // ----- load and save

    method LoadState(env: Env) returns (st: LoadedState?, err: Option<Error>)
      requires mu && flock.Some?
      ensures match Read(dir.Lookup(path), env)
              case Ok(v) => st != null && fresh(st) && st.Value() == v && err == None
              case Err(e) => st == null && err == Some(e)
    {
      if env.readFails {
        return null, Some(ReadFailed);
      }
      if path !in dir.files {
        st := new LoadedState(EMPTY_STATE);
        return st, None;
      }
      match dir.files[path] {
        case Corrupt =>
          return null, Some(CorruptJson);
        case Doc(version, counter, records) =>
          if version != SCHEMA_VERSION {
            return null, Some(SchemaVersion(version));
          }
          st := new LoadedState(State(version, counter, if records.None? then map[] else records.value));
          return st, None;
      }
    }

    method SaveState(st: LoadedState, env: Env) returns (err: Option<Error>)
      requires mu && flock == Some(Exclusive)
      requires env.tmp != path && env.tmp !in dir.files && env.tmp !in dir.handles
      modifies dir
      ensures dir.handles == old(dir.handles)
      ensures err == if env.SaveFails() then Some(SaveFailed) else None
      ensures dir.files == if err == None then old(dir.files)[path := Save(st.Value())] else old(dir.files)
    {
      if env.marshalFails {
        return Some(SaveFailed);
      }
      err := WriteStateAtomic(dir, path, Save(st.Value()), env.tmp, env.faults);
    }

    // ----- the closures, on the loaded state in place

    method RegisterIn(st: LoadedState, token: string, condition: string, now: int) returns (id: string)
      requires |words| > 0
      modifies st
      ensures Apply(words, StoreSpec.Register(token, condition), now, old(st.Value())) ==
              Ok(Effect(Registered(id), st.Value()))
    {
      id := Allocate(words, st.counter);
      st.counter := (st.counter + 1) % TWO_64;
      st.records := st.records[id := Record(id, condition, STATUS_PENDING, token, now, None)];
    }

    method RegisterWithIdIn(st: LoadedState, token: string, id: string, condition: string, now: int)
      returns (err: Option<Error>)
      requires |words| > 0
      modifies st
      ensures match Apply(words, StoreSpec.RegisterWithId(token, id, condition), now, old(st.Value()))
              case Ok(e) => err == None && st.Value() == e.post
              case Err(e) => err == Some(e) && st.Value() == old(st.Value())
    {
      if id in st.records {
        return Some(IdTaken(id));
      }
      st.records := st.records[id := Record(id, condition, STATUS_PENDING, token, now, None)];
      return None;
    }

    method ResolveIn(st: LoadedState, id: string, token: string, force: bool, now: int) returns (err: Option<Error>)
      requires |words| > 0
      modifies st
      ensures match Apply(words, StoreSpec.Resolve(id, token, force), now, old(st.Value()))
              case Ok(e) => err == None && st.Value() == e.post
              case Err(e) => err == Some(e) && st.Value() == old(st.Value())
    {
      if id !in st.records {
        return Some(UnknownId);
      }
      var r := st.records[id];
      if r.status == STATUS_RESOLVED {
        return Some(AlreadyResolved);
      }
      if !force {
        if token != r.ownerToken {
          return Some(NotOwner);
        }
      }
      r := r.(status := STATUS_RESOLVED);
      r := r.(resolvedAt := Some(now));
      st.records := st.records[id := r];
      return None;
    }

    /** The loop over the map deletes while it iterates, in whatever order the keys come. */
    method PurgeResolvedIn(st: LoadedState) returns (removed: nat)
      modifies st`records
      ensures st.records == old(st.records) - ResolvedIds(old(st.records))
      ensures removed == |ResolvedIds(old(st.records))|
    {
      ghost var before := st.records;
      var unvisited := st.records.Keys;
      ghost var gone: set<string> := {};
      removed := 0;
      while unvisited != {}
        invariant unvisited <= before.Keys
        invariant forall k :: k in gone <==> k in before && k !in unvisited && before[k].status == STATUS_RESOLVED
        invariant removed == |gone|
        invariant st.records == before - gone
        decreases unvisited
      {
        var id :| id in unvisited;
        unvisited := unvisited - {id};
        var r := st.records[id];
        if r.status == STATUS_RESOLVED {
          st.records := st.records - {id};
          removed := removed + 1;
          assert id !in gone;
          gone := gone + {id};
        }
      }
      assert gone == ResolvedIds(before);
    }

    method PurgeIn(st: LoadedState, opts: PurgeOptions, now: int) returns (removed: nat, err: Option<Error>)
      requires |words| > 0 && Targets(opts) == 1
      modifies st
      ensures match Apply(words, StoreSpec.Purge(opts), now, old(st.Value()))
              case Ok(e) => err == None && st.Value() == e.post && e.resp == Removed(removed)
              case Err(e) => err == Some(e) && st.Value() == old(st.Value()) && removed == 0
    {
      removed := 0;
      if opts.id != "" {
        if opts.id !in st.records {
          return 0, Some(UnknownId);
        }
        st.records := st.records - {opts.id};
        removed := 1;
      } else if opts.all {
        removed := |st.records|;
        assert st.records - st.records.Keys == map[];
        st.records := map[];
      } else if opts.resolved {
        removed := PurgeResolvedIn(st);
      }
      return removed, None;
    }

    method RunClosure(st: LoadedState, op: WriteOp, now: int) returns (r: Result<Response, Error>)
      requires |words| > 0 && CheckArgs(op) == None
      modifies st
      ensures match Apply(words, op, now, old(st.Value()))
              case Ok(e) => r == Ok(e.resp) && st.Value() == e.post
              case Err(e) => r == Err(e) && st.Value() == old(st.Value())
    {
      var err: Option<Error>;
      match op {
        case Register(token, condition) =>
          var id := RegisterIn(st, token, condition, now);
          return Ok(Registered(id));
        case RegisterWithId(token, id, condition) =>
          err := RegisterWithIdIn(st, token, id, condition, now);
          return if err == None then Ok(Done) else Err(err.value);
        case Resolve(id, token, force) =>
          err := ResolveIn(st, id, token, force, now);
          return if err == None then Ok(Done) else Err(err.value);
        case Purge(opts) =>
          var removed;
          removed, err := PurgeIn(st, opts, now);
          return if err == None then Ok(Removed(removed)) else Err(err.value);
      }
    }

    // ----- lock.go

    method ExclusiveCycle(op: WriteOp, env: Env) returns (r: Result<Response, Error>)
      requires mu && flock == Some(Exclusive) && |words| > 0 && CheckArgs(op) == None
      requires env.tmp != path && env.tmp !in dir.files && env.tmp !in dir.handles
      modifies dir
      ensures dir.handles == old(dir.handles)
      ensures (r, dir.Lookup(path)) == ExclusiveBody(words, old(dir.Lookup(path)), op, env)
      ensures dir.files - {path} == old(dir.files) - {path}
    {
      var st, err := LoadState(env);
      if err != None {
        return Err(err.value);
      }
      r := RunClosure(st, op, env.now);
      if r.Err? {
        return;
      }
      var serr := SaveState(st, env);
      if serr != None {
        r := Err(serr.value);
      }
    }

    method WithLockedState(op: WriteOp, env: Env) returns (r: Result<Response, Error>)
      requires Idle(env) && CheckArgs(op) == None
      modifies this, dir
      ensures !mu && (flock == None || env.releaseFails || env.acquireFails)
      ensures dir.handles == old(dir.handles)
      ensures (r, dir.Lookup(path)) == ExclusiveCall(words, old(dir.Lookup(path)), op, env)
      ensures dir.files - {path} == old(dir.files) - {path}
    {
      LockMutex();
      var ok := AcquireFlock(Exclusive, env.acquireFails);
      if !ok {
        UnlockMutex();
        return Err(AcquireFailed);
      }
      r := ExclusiveCycle(op, env);
      ok := ReleaseFlock(env.releaseFails);
      if !ok && r.Ok? {
        r := Err(ReleaseFailed);
      }
      UnlockMutex();
    }

    /** The closure of a read only copies out of the loaded state, so it is the query itself. */
    method WithSharedLock(op: ReadOp, env: Env) returns (seen: Result<Response, Error>, err: Option<Error>)
      requires Idle(env)
      modifies this
      ensures !mu && (flock == None || env.releaseFails || env.acquireFails)
      ensures seen == SharedBody(dir.Lookup(path), op, env)
      ensures err == match Release(seen, env) case Ok(_) => None case Err(e) => Some(e)
    {
      LockMutex();
      var ok := AcquireFlock(Shared, env.acquireFails);
      if !ok {
        UnlockMutex();
        return Err(AcquireFailed), Some(AcquireFailed);
      }
      var st, lerr := LoadState(env);
      if lerr != None {
        seen, err := Err(lerr.value), lerr;
      } else {
        seen := Query(op, st.Value());
        err := if seen.Err? then Some(seen.error) else None;
      }
      ok := ReleaseFlock(env.releaseFails);
      if !ok && err == None {
        err := Some(ReleaseFailed);
      }
      UnlockMutex();
    }

    // ----- the exported operations

    method Register(token: string, condition: string, env: Env) returns (id: string, err: Option<Error>)
      requires Idle(env)
      modifies this, dir
      ensures !mu && dir.handles == old(dir.handles) && dir.files - {path} == old(dir.files) - {path}
      ensures
        var (r, after) := WriteCall(words, old(dir.Lookup(path)), StoreSpec.Register(token, condition), env);
        dir.Lookup(path) == after && match r
                                     case Ok(resp) => resp == Registered(id) && err == None
                                     case Err(e) => id == "" && err == Some(e)
    {
      var r := WithLockedState(StoreSpec.Register(token, condition), env);
      if r.Err? {
        return "", Some(r.error);
      }
      return r.value.id, None;
    }

    method RegisterWithId(token: string, id: string, condition: string, env: Env) returns (err: Option<Error>)
      requires Idle(env)
      modifies this, dir
      ensures !mu && dir.handles == old(dir.handles) && dir.files - {path} == old(dir.files) - {path}
      ensures
        var (r, after) := WriteCall(words, old(dir.Lookup(path)), StoreSpec.RegisterWithId(token, id, condition), env);
        dir.Lookup(path) == after && err == match r case Ok(_) => None case Err(e) => Some(e)
    {
      err := ValidateId(id);
      if err != None {
        return;
      }
      var r := WithLockedState(StoreSpec.RegisterWithId(token, id, condition), env);
      return if r.Err? then Some(r.error) else None;
    }

    method Resolve(id: string, token: string, force: bool, env: Env) returns (err: Option<Error>)
      requires Idle(env)
      modifies this, dir
      ensures !mu && dir.handles == old(dir.handles) && dir.files - {path} == old(dir.files) - {path}
      ensures
        var (r, after) := WriteCall(words, old(dir.Lookup(path)), StoreSpec.Resolve(id, token, force), env);
        dir.Lookup(path) == after && err == match r case Ok(_) => None case Err(e) => Some(e)
    {
      var r := WithLockedState(StoreSpec.Resolve(id, token, force), env);
      return if r.Err? then Some(r.error) else None;
    }

    method Purge(opts: PurgeOptions, env: Env) returns (removed: nat, err: Option<Error>)
      requires Idle(env)
      modifies this, dir
      ensures !mu && dir.handles == old(dir.handles) && dir.files - {path} == old(dir.files) - {path}
      ensures
        var (r, after) := WriteCall(words, old(dir.Lookup(path)), StoreSpec.Purge(opts), env);
        dir.Lookup(path) == after && match r
                                     case Ok(resp) => resp == Removed(removed) && err == None
                                     case Err(e) => removed == 0 && err == Some(e)
    {
      var targets := 0;
      if opts.id != "" {
        targets := targets + 1;
      }
      if opts.all {
        targets := targets + 1;
      }
      if opts.resolved {
        targets := targets + 1;
      }
      if targets != 1 {
        return 0, Some(PurgeArgRequired);
      }
      var r := WithLockedState(StoreSpec.Purge(opts), env);
      if r.Err? {
        return 0, Some(r.error);
      }
      return r.value.count, None;
    }

    /** Go's zero value when nothing was found; the record is also handed out when only the release fails. */
    method Get(id: string, env: Env) returns (out: Record, err: Option<Error>)
      requires Idle(env)
      modifies this
      ensures !mu
      ensures match SharedBody(dir.Lookup(path), StoreSpec.Get(id), env)
              case Ok(resp) => resp == Found(out) && err == if env.releaseFails then Some(ReleaseFailed) else None
              case Err(e) => out == Record("", "", "", "", 0, None) && err == Some(e)
    {
      var seen;
      seen, err := WithSharedLock(StoreSpec.Get(id), env);
      out := if seen.Ok? then seen.value.record else Record("", "", "", "", 0, None);
    }

    method List(env: Env) returns (out: seq<Record>, err: Option<Error>)
      requires Idle(env)
      modifies this
      ensures !mu
      ensures match SharedBody(dir.Lookup(path), StoreSpec.List, env)
              case Ok(resp) =>
                Enumerates(out, resp.records) && err == if env.releaseFails then Some(ReleaseFailed) else None
              case Err(e) => out == [] && err == Some(e)
    {
      var seen;
      seen, err := WithSharedLock(StoreSpec.List, env);
      out := [];
      if seen.Ok? {
        out := Collect(seen.value.records);
      }
    }
  }
}
