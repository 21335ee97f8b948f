/** internal/store/schema.go and errors.go, with the decoding and encoding halves of loadState and saveState. */
module Schema {
  import opened Prelude

  const SCHEMA_VERSION: Word64 := 1

  const STATUS_PENDING := "pending"
  const STATUS_RESOLVED := "resolved"

  // Times are instants on one integer axis.
  datatype Record = Record(
    id: string,
    condition: string,
    status: string,
    ownerToken: string,
    createdAt: int,
    resolvedAt: Option<int>)

  datatype State = State(version: Word64, counter: Word64, records: map<string, Record>)

  const EMPTY_STATE := State(SCHEMA_VERSION, 0, map[])

  // What a file holds: bytes that do not decode, or a decoded document whose records may be null or absent.
  datatype Content = Corrupt | Doc(version: Word64, counter: Word64, records: Option<map<string, Record>>)

  // None is a missing file.
  type FileState = Option<Content>

  datatype Error =
    | UnknownId
    | AlreadyResolved
    | NotOwner
    | SchemaVersion(got: Word64)
    | CorruptJson
    | PurgeArgRequired
    | IdTaken(id: string)
    | InvalidId(id: string)
    | AcquireFailed   // flock.Lock or flock.RLock failed
    | ReadFailed      // os.ReadFile failed, other than because the file is missing
    | SaveFailed      // marshalling or the atomic write failed
    | ReleaseFailed   // flock.Unlock failed after an otherwise successful call
  {
    /** Errors that come from the surroundings of a call rather than from the state it saw. */
    predicate Environmental() {
      AcquireFailed? || ReadFailed? || SaveFailed? || ReleaseFailed?
    }
  }

  /** The decoding half of loadState. */
  function Load(file: FileState): Result<State, Error> {
    match file
    case None => Ok(EMPTY_STATE)
    case Some(Corrupt) => Err(CorruptJson)
    case Some(Doc(v, c, rs)) =>
      if v != SCHEMA_VERSION then Err(SchemaVersion(v))
      else Ok(State(v, c, if rs.Some? then rs.value else map[]))
  }

  /** The encoding half of saveState. */
  function Save(st: State): Content {
    Doc(st.version, st.counter, Some(st.records))
  }

  /** The error that loading this file must end in, read off the file; None for a file that must load. */
  function Refusal(file: FileState): Option<Error> {
    match file
    case None => None
    case Some(Corrupt) => Some(CorruptJson)
    case Some(Doc(v, _, _)) => if v == 1 then None else Some(SchemaVersion(v))
  }

  /** The file is, or by being missing stands for, a version 1 document with this counter and these records. */
  predicate Holds(file: FileState, counter: Word64, records: map<string, Record>) {
    match file
    case None => counter == 0 && records == map[]
    case Some(Corrupt) => false
    case Some(Doc(v, c, rs)) => v == 1 && c == counter && (if rs.None? then records == map[] else records == rs.value)
  }

  /** Exactly the files that are not refused load, and as the document they hold. */
  lemma LoadsOrRefuses(file: FileState)
    ensures Refusal(file).Some? ==> Load(file) == Err(Refusal(file).value)
    ensures Refusal(file).None? ==>
              Load(file).Ok? && Load(file).value.version == 1
              && Holds(file, Load(file).value.counter, Load(file).value.records)
    ensures forall c: Word64, rs :: Holds(file, c, rs) ==> Load(file) == Ok(State(1, c, rs))
  {
  }

  /** What is saved after a successful load is accepted and comes back unchanged. */
  lemma SavedStateLoads(file: FileState, st: State)
    requires Load(file).Ok? && st.version == Load(file).value.version
    ensures Load(Some(Save(st))) == Ok(st)
    ensures st.version == SCHEMA_VERSION && Save(st).records.Some?
  {
  }

  function Pending(id: string, condition: string, token: string, now: int): Record {
    Record(id, condition, STATUS_PENDING, token, now, None)
  }
}
