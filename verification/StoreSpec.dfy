/**
 * internal/store/store.go on values: what each operation's closure does to a decoded state. The class in Store.dfy is
 * proved against these functions and the log and protocol modules are stated with them.
 */
module StoreSpec {
  import opened Prelude
  import opened Schema
  import opened IdGen

  datatype PurgeOptions = PurgeOptions(id: string, all: bool, resolved: bool)

  datatype WriteOp =
    | Register(token: string, condition: string)
    | RegisterWithId(token: string, id: string, condition: string)
    | Resolve(id: string, token: string, force: bool)
    | Purge(opts: PurgeOptions)

  datatype ReadOp = Get(id: string) | List

  datatype Response =
    | Registered(id: string)
    | Done
    | Removed(count: nat)
    | Found(record: Record)
    | Listed(records: map<string, Record>)

  datatype Effect = Effect(resp: Response, post: State)

  /** The file lock an operation runs under. */
  datatype Mode = Shared | Exclusive

  // ----- checks made before any lock is taken

  predicate IsSlugHead(c: char) {
    'a' <= c <= 'z' || '0' <= c <= '9'
  }

  predicate IsSlugChar(c: char) {
    IsSlugHead(c) || c == '.' || c == '_' || c == '-'
  }

  predicate ValidId(id: string) {
    1 <= |id| <= 64 && IsSlugHead(id[0]) && forall i | 0 <= i < |id| :: IsSlugChar(id[i])
  }

  function Targets(opts: PurgeOptions): nat {
    (if opts.id != "" then 1 else 0) + (if opts.all then 1 else 0) + (if opts.resolved then 1 else 0)
  }

  function CheckArgs(op: WriteOp): Option<Error> {
    match op
    case RegisterWithId(_, id, _) => if ValidId(id) then None else Some(InvalidId(id))
    case Purge(opts) => if Targets(opts) == 1 then None else Some(PurgeArgRequired)
    case _ => None
  }

  // ----- the closures

  function ResolvedIds(records: map<string, Record>): set<string> {
    set id | id in records && records[id].status == STATUS_RESOLVED
  }

  /** The ids a purge removes when its arguments pass and a named id exists. */
  function PurgeSet(opts: PurgeOptions, records: map<string, Record>): set<string> {
    if opts.id != "" then {opts.id}
    else if opts.all then records.Keys
    else if opts.resolved then ResolvedIds(records)
    else {}
  }

  function Apply(words: seq<string>, op: WriteOp, now: int, st: State): Result<Effect, Error>
    requires |words| > 0
  {
    match op
    case Register(token, condition) =>
      var id := Allocate(words, st.counter);
      Ok(Effect(Registered(id), State(
        st.version,
        (st.counter + 1) % TWO_64,
        st.records[id := Pending(id, condition, token, now)])))
    case RegisterWithId(token, id, condition) =>
      if id in st.records then Err(IdTaken(id))
      else Ok(Effect(Done, st.(records := st.records[id := Pending(id, condition, token, now)])))
    case Resolve(id, token, force) =>
      if id !in st.records then Err(UnknownId)
      else
        var r := st.records[id];
        if r.status == STATUS_RESOLVED then Err(AlreadyResolved)
        else if !force && token != r.ownerToken then Err(NotOwner)
        else Ok(Effect(Done, st.(records := st.records[id := r.(status := STATUS_RESOLVED, resolvedAt := Some(now))])))
    case Purge(opts) =>
      if opts.id != "" && opts.id !in st.records then Err(UnknownId)
      else
        var gone := PurgeSet(opts, st.records);
        Ok(Effect(Removed(|gone|), st.(records := st.records - gone)))
  }

  function Query(op: ReadOp, st: State): Result<Response, Error> {
    match op
    case Get(id) => if id in st.records then Ok(Found(st.records[id])) else Err(UnknownId)
    case List => Ok(Listed(st.records))
  }

  /** out lists the values of records under some order of the keys: what a map iteration yields. */
  ghost predicate Enumeration(keys: seq<string>, out: seq<Record>, records: map<string, Record>) {
    && Distinct(keys) && |keys| == |out|
    && (forall k :: k in records <==> k in keys)
    && (forall i | 0 <= i < |keys| :: keys[i] in records && out[i] == records[keys[i]])
  }

  ghost predicate Enumerates(out: seq<Record>, records: map<string, Record>) {
    exists keys :: Enumeration(keys, out, records)
  }

  /** Which error an operation meets does not depend on the clock, and errors are never environmental. */
  lemma ApplyErrorsFromState(words: seq<string>, op: WriteOp, now: int, later: int, st: State)
    requires |words| > 0
    ensures Apply(words, op, now, st).Err? ==>
              && Apply(words, op, later, st) == Apply(words, op, now, st)
              && !Apply(words, op, now, st).error.Environmental()
  {
  }
}
