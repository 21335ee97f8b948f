/**
 * The log of committed writes, in the order of their renames, and what it says about the state. Everything the store
 * promises over its lifetime is a statement about this log.
 */
module History {
  import opened Prelude
  import opened Schema
  import opened WordList
  import opened IdGen
  import opened StoreSpec

  /** One committed write: the call that made it, its operation, the clock its closure read, and its response. */
  datatype Commit = Commit(caller: nat, op: WriteOp, now: int, resp: Response) {

    /** The id this write registers, if it is a registration. */
    function Registers(): Option<string> {
      if op.Register? && resp.Registered? then Some(resp.id)
      else if op.RegisterWithId? then Some(op.id)
      else None
    }
  }

  datatype History = History(words: seq<string>, init: State, log: seq<Commit>) {

    /** The state after the first n commits. */
    function At(n: nat): State
      requires |words| > 0 && n <= |log|
      decreases n
    {
      if n == 0 then init
      else
        match Apply(words, log[n - 1].op, log[n - 1].now, At(n - 1))
        case Ok(e) => e.post
        case Err(_) => At(n - 1)
    }

    function Now(): State
      requires |words| > 0
    {
      At(|log|)
    }

    /** Entry k is its operation applied to the state just before it, with the response it reported. */
    ghost predicate LegalAt(k: nat)
      requires |words| > 0 && k < |log|
    {
      Apply(words, log[k].op, log[k].now, At(k)) == Ok(Effect(log[k].resp, At(k + 1)))
    }

    ghost predicate Legal() {
      && ValidWords(words)
      && forall k | 0 <= k < |log| :: LegalAt(k)
    }

    function Extend(c: Commit): History {
      this.(log := log + [c])
    }

    // ----- registrations and the counter

    /** How many of the first n commits are plain registrations. */
    function Registrations(n: nat): nat
      requires n <= |log|
    {
      if n == 0 then 0 else Registrations(n - 1) + if log[n - 1].op.Register? then 1 else 0
    }

    /** The ids returned by the Register calls among the first n commits, in order. */
    function RegisterIds(n: nat): seq<string>
      requires n <= |log|
    {
      if n == 0 then []
      else if log[n - 1].op.Register? && log[n - 1].resp.Registered? then RegisterIds(n - 1) + [log[n - 1].resp.id]
      else RegisterIds(n - 1)
    }

    // ----- a record read off the log, one id at a time

    /** The latest registration of id among the first n commits. */
    function LatestRegistration(id: string, n: nat): (k: Option<nat>)
      requires n <= |log|
      ensures k.Some? ==> k.value < n && log[k.value].Registers() == Some(id)
    {
      if n == 0 then None
      else if log[n - 1].Registers() == Some(id) then Some(n - 1)
      else LatestRegistration(id, n - 1)
    }

    /** The Resolve commit of id after its latest registration among the first n commits. */
    function ResolvedBy(id: string, n: nat): (k: Option<nat>)
      requires n <= |log|
      ensures k.Some? ==> k.value < n && log[k.value].op.Resolve? && log[k.value].op.id == id
    {
      if n == 0 then None
      else if log[n - 1].Registers() == Some(id) then None
      else if log[n - 1].op.Resolve? && log[n - 1].op.id == id then Some(n - 1)
      else ResolvedBy(id, n - 1)
    }

    /** Whether entry k's purge covers id, which was resolved or not when it ran. */
    predicate PurgeCovers(k: nat, id: string, resolved: bool)
      requires k < |log|
    {
      && log[k].op.Purge?
      && var opts := log[k].op.opts;
         if opts.id != "" then opts.id == id else opts.all || (opts.resolved && resolved)
    }

    /** Whether id is registered and not purged since, among the first n commits. */
    predicate Live(id: string, n: nat)
      requires n <= |log|
    {
      if n == 0 then false
      else if log[n - 1].Registers() == Some(id) then true
      else Live(id, n - 1) && !PurgeCovers(n - 1, id, ResolvedBy(id, n - 1).Some?)
    }

    /** The record the log describes for a live id. */
    function RecordFromLog(id: string, n: nat): Record
      requires n <= |log| && LatestRegistration(id, n).Some?
    {
      var c := log[LatestRegistration(id, n).value];
      match ResolvedBy(id, n)
      case None => Record(id, c.op.condition, "pending", c.op.token, c.now, None)
      case Some(j) => Record(id, c.op.condition, "resolved", c.op.token, c.now, Some(log[j].now))
    }

    // ----- accounting

    /** Registrations of both kinds among the first n commits. */
    function AllRegistrations(n: nat): nat
      requires n <= |log|
    {
      if n == 0 then 0
      else AllRegistrations(n - 1) + if log[n - 1].op.Register? || log[n - 1].op.RegisterWithId? then 1 else 0
    }

    /** The removed counts reported by the purges among the first n commits, added up. */
    function RemovedTotal(n: nat): nat
      requires n <= |log|
    {
      if n == 0 then 0
      else RemovedTotal(n - 1) + if log[n - 1].resp.Removed? then log[n - 1].resp.count else 0
    }

    /** Entry k is a Register whose id was already live. */
    predicate ReplacesAt(k: nat)
      requires |words| > 0 && k < |log|
    {
      log[k].op.Register? && log[k].resp.Registered? && log[k].resp.id in At(k).records
    }

    function Replacements(n: nat): nat
      requires |words| > 0 && n <= |log|
    {
      if n == 0 then 0 else Replacements(n - 1) + if ReplacesAt(n - 1) then 1 else 0
    }
  }

  // ----- extending a log

  lemma {:induction false} ExtendKeepsStates(h: History, c: Commit, n: nat)
    requires |h.words| > 0 && n <= |h.log|
    ensures h.Extend(c).At(n) == h.At(n)
  {
    if n > 0 {
      ExtendKeepsStates(h, c, n - 1);
    }
  }

  /** A write that succeeds on the current state extends a legal log, and nothing before it changes. */
  lemma ExtendKeepsLegal(h: History, c: Commit, post: State)
    requires h.Legal()
    requires Apply(h.words, c.op, c.now, h.Now()) == Ok(Effect(c.resp, post))
    ensures h.Extend(c).Legal()
    ensures h.Extend(c).Now() == post
    ensures forall n | 0 <= n <= |h.log| :: h.Extend(c).At(n) == h.At(n)
  {
    var g := h.Extend(c);
    forall n | 0 <= n <= |h.log| ensures g.At(n) == h.At(n) {
      ExtendKeepsStates(h, c, n);
    }
    forall k | 0 <= k < |g.log| ensures g.LegalAt(k) {
      if k < |h.log| {
        assert h.LegalAt(k);
        assert g.log[k] == h.log[k];
      }
    }
  }

  lemma {:induction false} VersionNeverChanges(h: History, n: nat)
    requires h.Legal() && n <= |h.log|
    ensures h.At(n).version == h.init.version
  {
    if n > 0 {
      VersionNeverChanges(h, n - 1);
    }
  }

  // ----- ids returned by Register

  lemma WrapNext(total: nat, counter: nat)
    requires counter == total % TWO_64
    ensures (counter + 1) % TWO_64 == (total + 1) % TWO_64
  {
  }

  /** One entry moves the counter by one exactly if it is a Register. */
  lemma EntryCounter(h: History, k: nat)
    requires h.Legal() && k < |h.log|
    ensures h.At(k + 1).counter == if h.log[k].op.Register? then (h.At(k).counter + 1) % TWO_64 else h.At(k).counter
  {
    assert h.LegalAt(k);
  }

  /** The counter counts registrations, modulo 2^64. */
  lemma {:induction false} CounterCounts(h: History, n: nat)
    requires h.Legal() && n <= |h.log|
    ensures h.At(n).counter == (h.init.counter + h.Registrations(n)) % TWO_64
  {
    if n > 0 {
      CounterCounts(h, n - 1);
      EntryCounter(h, n - 1);
      WrapNext(h.init.counter + h.Registrations(n - 1), h.At(n - 1).counter);
    }
  }

  /** Before 2^64 is reached the counter is exact. */
  lemma CounterExact(h: History, n: nat)
    requires h.Legal() && n <= |h.log| && h.init.counter + h.Registrations(n) < TWO_64
    ensures h.At(n).counter == h.init.counter + h.Registrations(n)
  {
    CounterCounts(h, n);
  }

  /** While 2^64 is not reached the counter never decreases. */
  lemma {:induction false} CounterNeverDecreases(h: History, m: nat, n: nat)
    requires h.Legal() && m <= n <= |h.log|
    requires h.init.counter + h.Registrations(n) < TWO_64
    ensures h.At(m).counter <= h.At(n).counter
  {
    RegistrationsGrow(h, m, n);
    CounterExact(h, m);
    CounterExact(h, n);
  }

  lemma {:induction false} RegistrationsGrow(h: History, m: nat, n: nat)
    requires m <= n <= |h.log|
    ensures h.Registrations(m) <= h.Registrations(n)
  {
    if m < n {
      RegistrationsGrow(h, m, n - 1);
    }
  }

  /** The i-th Register returns the id of the i-th counter value. */
  lemma {:induction false} RegisterIdsAreAllocated(h: History, n: nat)
    requires h.Legal() && n <= |h.log|
    ensures |h.RegisterIds(n)| == h.Registrations(n)
    ensures forall i | 0 <= i < |h.RegisterIds(n)| ::
              h.RegisterIds(n)[i] == Allocate(h.words, (h.init.counter + i) % TWO_64)
  {
    if n > 0 {
      assert h.LegalAt(n - 1);
      RegisterIdsAreAllocated(h, n - 1);
      CounterCounts(h, n - 1);
    }
  }

  lemma WrapApart(c: nat, i: nat, j: nat)
    requires i < j < i + TWO_64
    ensures (c + i) % TWO_64 != (c + j) % TWO_64
  {
    var q, r := (c + i) / TWO_64, (c + j) / TWO_64;
    assert c + i == TWO_64 * q + (c + i) % TWO_64 && c + j == TWO_64 * r + (c + j) % TWO_64;
    assert q == r || r >= q + 1;
  }

  /**
   * Ids are never reissued, whatever is purged in between: the ids returned by all Register commits are pairwise
   * distinct exactly as long as there are no more than 2^64 of them.
   */
  lemma RegisterIdsDistinct(h: History, n: nat)
    requires h.Legal() && n <= |h.log|
    ensures Distinct(h.RegisterIds(n)) <==> h.Registrations(n) <= TWO_64
  {
    var ids := h.RegisterIds(n);
    RegisterIdsAreAllocated(h, n);
    if |ids| <= TWO_64 {
      forall i, j | 0 <= i < j < |ids| ensures ids[i] != ids[j] {
        WrapApart(h.init.counter, i, j);
        if ids[i] == ids[j] {
          AllocateInjective(h.words, (h.init.counter + i) % TWO_64, (h.init.counter + j) % TWO_64);
        }
      }
    } else {
      assert (h.init.counter + TWO_64) % TWO_64 == (h.init.counter + 0) % TWO_64;
      assert ids[0] == ids[TWO_64];
    }
  }

  // ----- the records are what the log says

  /** A log that starts from a store without records. */
  ghost predicate Fresh(h: History) {
    h.Legal() && h.init.records == map[]
  }

  lemma LogStep(h: History, id: string, n: nat)
    requires Fresh(h) && 0 < n <= |h.log|
    requires RecordIsFromLog(h, id, n - 1)
    ensures RecordIsFromLog(h, id, n)
  {
    assert h.LegalAt(n - 1);
    var c := h.log[n - 1];
    var pre, post := h.At(n - 1), h.At(n);
    match c.op {
      case Register(_, _) =>
      case RegisterWithId(_, _, _) =>
      case Resolve(rid, _, _) =>
        if rid == id {
          assert id in pre.records && pre.records[id].status != STATUS_RESOLVED;
          assert h.ResolvedBy(id, n - 1) == None;
        }
      case Purge(opts) =>
        assert post.records == pre.records - PurgeSet(opts, pre.records);
        if id in pre.records {
          assert id in ResolvedIds(pre.records) <==> h.ResolvedBy(id, n - 1).Some?;
        }
    }
  }

  ghost predicate RecordIsFromLog(h: History, id: string, n: nat)
    requires |h.words| > 0 && n <= |h.log|
  {
    && (id in h.At(n).records <==> h.Live(id, n))
    && (h.Live(id, n) ==> h.LatestRegistration(id, n).Some? && h.At(n).records[id] == h.RecordFromLog(id, n))
  }

  /**
   * In every state the records are those the log describes: an id is present exactly when it was registered and not
   * purged since, and its record carries the owner, condition and creation time of its latest registration and the
   * resolution made since then, if any.
   */
  lemma {:induction false} RecordsComeFromTheLog(h: History, id: string, n: nat)
    requires Fresh(h) && n <= |h.log|
    ensures RecordIsFromLog(h, id, n)
  {
    if n > 0 {
      RecordsComeFromTheLog(h, id, n - 1);
      LogStep(h, id, n);
    }
  }

  /** Keys equal ids, the status is one of the two, and the resolution time is set exactly when resolved. */
  predicate WellFormed(st: State) {
    forall id | id in st.records ::
      var r := st.records[id];
      && r.id == id
      && (r.status == "pending" || r.status == "resolved")
      && (r.resolvedAt.Some? <==> r.status == "resolved")
  }

  lemma {:induction false} StatesWellFormed(h: History, n: nat)
    requires Fresh(h) && n <= |h.log|
    ensures WellFormed(h.At(n))
  {
    forall id | id in h.At(n).records
      ensures h.LatestRegistration(id, n).Some? && h.At(n).records[id] == h.RecordFromLog(id, n)
    {
      RecordsComeFromTheLog(h, id, n);
    }
  }

  /** The token a Resolve must carry is the one of the latest registration in the log. */
  lemma ResolveCarriesLatestToken(h: History, k: nat)
    requires Fresh(h) && k < |h.log| && h.log[k].op.Resolve?
    ensures h.LatestRegistration(h.log[k].op.id, k).Some?
    ensures h.log[k].op.force || h.log[k].op.token == h.log[h.LatestRegistration(h.log[k].op.id, k).value].op.token
    ensures h.ResolvedBy(h.log[k].op.id, k) == None
  {
    assert h.LegalAt(k);
    RecordsComeFromTheLog(h, h.log[k].op.id, k);
  }

  // ----- what the log says of the next write

  /**
   * The four answers of Resolve, read off the log: the id is not live, it is resolved already, the token is not that of
   * its latest registration and force is off, or else it succeeds.
   */
  lemma ResolveAnswers(h: History, n: nat, id: string, token: string, force: bool, now: int)
    requires Fresh(h) && n <= |h.log|
    ensures h.Live(id, n) ==> h.LatestRegistration(id, n).Some?
    ensures
      var r := Apply(h.words, Resolve(id, token, force), now, h.At(n));
      if !h.Live(id, n) then r == Err(UnknownId)
      else if h.ResolvedBy(id, n).Some? then r == Err(AlreadyResolved)
      else if force || token == h.log[h.LatestRegistration(id, n).value].op.token then r.Ok? && r.value.resp == Done
      else r == Err(NotOwner)
  {
    RecordsComeFromTheLog(h, id, n);
  }

  /** The two answers of a registration with an id, and the two of a purge by id. */
  lemma IdAnswers(h: History, n: nat, id: string, token: string, condition: string, now: int)
    requires Fresh(h) && n <= |h.log|
    ensures
      var r := Apply(h.words, RegisterWithId(token, id, condition), now, h.At(n));
      if h.Live(id, n) then r == Err(IdTaken(id)) else r.Ok? && r.value.resp == Done
    ensures id != "" ==>
      var r := Apply(h.words, Purge(PurgeOptions(id, false, false)), now, h.At(n));
      if h.Live(id, n) then r.Ok? && r.value.resp == Removed(1) else r == Err(UnknownId)
  {
    RecordsComeFromTheLog(h, id, n);
  }

  // ----- when Register replaces a live record

  /** Entry j is a caller's registration of id, and no entry between it and entry k purges the id. */
  predicate SlugUnpurged(h: History, id: string, j: nat, k: nat)
    requires k <= |h.log|
  {
    && j < k && h.log[j].op.RegisterWithId? && h.log[j].op.id == id
    && forall m | j < m < k :: !h.PurgeCovers(m, id, h.ResolvedBy(id, m).Some?)
  }

  /** An id stays live from a registration on until an entry purges it. */
  lemma {:induction false} LiveUntilPurged(h: History, id: string, j: nat, k: nat)
    requires j < k <= |h.log| && h.log[j].Registers() == Some(id)
    requires forall m | j < m < k :: !h.PurgeCovers(m, id, h.ResolvedBy(id, m).Some?)
    ensures h.Live(id, k)
  {
    if k > j + 1 {
      LiveUntilPurged(h, id, j, k - 1);
    }
  }

  /** A live id was purged by no entry after its latest registration. */
  lemma {:induction false} UnpurgedWhileLive(h: History, id: string, k: nat)
    requires k <= |h.log| && h.Live(id, k) && h.LatestRegistration(id, k).Some?
    ensures forall m | h.LatestRegistration(id, k).value < m < k :: !h.PurgeCovers(m, id, h.ResolvedBy(id, m).Some?)
  {
    if h.log[k - 1].Registers() != Some(id) {
      UnpurgedWhileLive(h, id, k - 1);
    }
  }

  lemma {:induction false} RegisterIdPosition(h: History, j: nat, n: nat)
    requires h.Legal() && j < n <= |h.log| && h.log[j].op.Register?
    ensures h.Registrations(j) < h.Registrations(n) && h.log[j].resp.Registered?
    ensures h.log[j].resp.id == Allocate(h.words, (h.init.counter + h.Registrations(j)) % TWO_64)
  {
    assert h.LegalAt(j);
    CounterCounts(h, j);
    RegistrationsGrow(h, j + 1, n);
  }

  /** Two Register entries never carry the same id while no more than 2^64 have been made. */
  lemma RegisterEntriesDiffer(h: History, j: nat, k: nat)
    requires h.Legal() && j < k < |h.log| && h.log[j].op.Register? && h.log[k].op.Register?
    requires h.Registrations(|h.log|) <= TWO_64
    ensures h.log[j].resp.Registered? && h.log[k].resp.Registered? && h.log[j].resp.id != h.log[k].resp.id
  {
    RegisterIdPosition(h, j, k);
    RegisterIdPosition(h, k, |h.log|);
    var a, b := h.Registrations(j), h.Registrations(k);
    WrapApart(h.init.counter, a, b);
    if h.log[j].resp.id == h.log[k].resp.id {
      AllocateInjective(h.words, (h.init.counter + a) % TWO_64, (h.init.counter + b) % TWO_64);
    }
  }

  /**
   * The documentation calls the allocated ids and the caller-supplied ids independent. They are not: Register checks
   * nothing and replaces a live record, and it does so exactly when an earlier entry is a caller's registration of the
   * allocated id that no entry since has purged.
   */
  lemma ReplacesIffSlugUnpurged(h: History, k: nat)
    requires Fresh(h) && k < |h.log| && h.log[k].op.Register?
    requires h.Registrations(|h.log|) <= TWO_64
    ensures h.log[k].resp.Registered?
    ensures h.ReplacesAt(k) <==> exists j | 0 <= j < k :: SlugUnpurged(h, h.log[k].resp.id, j, k)
  {
    RegisterIdPosition(h, k, |h.log|);
    var id := h.log[k].resp.id;
    RecordsComeFromTheLog(h, id, k);
    if h.ReplacesAt(k) {
      var j := h.LatestRegistration(id, k).value;
      if h.log[j].op.Register? {
        RegisterEntriesDiffer(h, j, k);
        assert false;
      }
      UnpurgedWhileLive(h, id, k);
      assert SlugUnpurged(h, id, j, k);
    }
    if j :| 0 <= j < k && SlugUnpurged(h, id, j, k) {
      LiveUntilPurged(h, id, j, k);
    }
  }

  /**
   * What a caller can check: an id that Register has not yet to hand out when the caller registers it is never
   * returned, so never replaced, by a later Register.
   */
  lemma SafeSlugIsNeverReturned(h: History, j: nat, k: nat)
    requires h.Legal() && j < k < |h.log| && h.log[j].op.RegisterWithId? && h.log[k].op.Register?
    requires h.init.counter + h.Registrations(|h.log|) <= TWO_64
    requires !YetToBeAllocated(h.words, h.At(j).counter, h.log[j].op.id)
    ensures h.log[k].resp.Registered? && h.log[k].resp.id != h.log[j].op.id
  {
    RegistrationsGrow(h, j, k);
    RegistrationsGrow(h, k + 1, |h.log|);
    CounterExact(h, j);
    CounterExact(h, k);
    RegisterEntry(h, k);
    if h.log[k].resp.id == h.log[j].op.id {
      YetToBeAllocatedIff(h.words, h.At(j).counter, h.log[j].op.id);
    }
  }

  /** g continues h. */
  ghost predicate Continues(g: History, h: History) {
    g.Legal() && g.words == h.words && g.init == h.init && h.log <= g.log
  }

  /** The other half: a live id that Register has yet to hand out is replaced in some continuation. */
  lemma {:induction false} UnsafeSlugCanBeReplaced(h: History, id: string, caller: nat) returns (g: History)
    requires h.Legal() && id in h.Now().records && YetToBeAllocated(h.words, h.Now().counter, id)
    requires h.init.counter + h.Registrations(|h.log|) < TWO_64
    ensures Continues(g, h) && |g.log| > |h.log| && g.init.counter + g.Registrations(|g.log|) <= TWO_64
    ensures g.ReplacesAt(|g.log| - 1) && g.log[|g.log| - 1].resp.id == id
    decreases TWO_64 - h.init.counter - h.Registrations(|h.log|)
  {
    g := OneRegisterCloser(h, id, caller);
    if !g.ReplacesAt(|h.log|) || g.log[|h.log|].resp.id != id {
      g := UnsafeSlugCanBeReplaced(g, id, caller);
    }
  }

  /** One more Register replaces the id or leaves it live and yet to be handed out. */
  lemma OneRegisterCloser(h: History, id: string, caller: nat) returns (g: History)
    requires h.Legal() && id in h.Now().records && YetToBeAllocated(h.words, h.Now().counter, id)
    requires h.init.counter + h.Registrations(|h.log|) < TWO_64
    ensures Continues(g, h) && |g.log| == |h.log| + 1 && g.Registrations(|g.log|) == h.Registrations(|h.log|) + 1
    ensures
      || (g.ReplacesAt(|h.log|) && g.log[|h.log|].resp.id == id)
      || (id in g.Now().records && YetToBeAllocated(g.words, g.Now().counter, id)
          && g.init.counter + g.Registrations(|g.log|) < TWO_64)
  {
    CounterExact(h, |h.log|);
    g := RegisterOnce(h, caller);
    YetToBeAllocatedIff(h.words, h.Now().counter, id);
    var i: Word64 :| h.Now().counter <= i && Allocate(h.words, i) == id;
    if i != h.Now().counter {
      YetToBeAllocatedIff(h.words, g.Now().counter, id);
    }
  }

  /** One more Register, by anybody, on the current state. */
  lemma RegisterOnce(h: History, caller: nat) returns (g: History)
    requires h.Legal()
    ensures Continues(g, h) && |g.log| == |h.log| + 1 && g.Registrations(|g.log|) == h.Registrations(|h.log|) + 1
    ensures h.Now().counter + 1 < TWO_64 ==> g.Now().counter == h.Now().counter + 1
    ensures h.Now().records.Keys <= g.Now().records.Keys
    ensures g.log[|h.log|].op.Register? && g.log[|h.log|].resp == Registered(Allocate(h.words, h.Now().counter))
    ensures g.At(|h.log|) == h.Now()
  {
    var now := h.Now();
    var next := Allocate(h.words, now.counter);
    var c := Commit(caller, Register("", ""), 0, Registered(next));
    var post := State(now.version, (now.counter + 1) % TWO_64, now.records[next := Pending(next, "", "", 0)]);
    ExtendKeepsLegal(h, c, post);
    ExtendCountsOne(h, c);
    g := h.Extend(c);
  }

  lemma {:induction false} RegistrationsOfExtension(h: History, c: Commit, n: nat)
    requires n <= |h.log|
    ensures h.Extend(c).Registrations(n) == h.Registrations(n)
  {
    if n > 0 {
      RegistrationsOfExtension(h, c, n - 1);
    }
  }

  lemma ExtendCountsOne(h: History, c: Commit)
    requires c.op.Register?
    ensures h.Extend(c).Registrations(|h.log| + 1) == h.Registrations(|h.log|) + 1
  {
    RegistrationsOfExtension(h, c, |h.log|);
  }

  /**
   * So a caller's live registration can be lost to Register, before the counter wraps, if and only if its id is one
   * that Register has yet to hand out.
   */
  lemma SlugAtRiskIff(h: History, id: string)
    requires h.Legal() && id in h.Now().records && h.log != []
    requires h.log[|h.log| - 1].op.RegisterWithId? && h.log[|h.log| - 1].op.id == id
    requires h.init.counter + h.Registrations(|h.log|) < TWO_64
    ensures YetToBeAllocated(h.words, h.Now().counter, id) <==>
            exists g: History, k: nat ::
              && Continues(g, h) && |h.log| <= k < |g.log| && g.init.counter + g.Registrations(|g.log|) <= TWO_64
              && g.ReplacesAt(k) && g.log[k].resp.id == id
  {
    if YetToBeAllocated(h.words, h.Now().counter, id) {
      var g := UnsafeSlugCanBeReplaced(h, id, 0);
      assert Continues(g, h) && g.ReplacesAt(|g.log| - 1);
    }
    if g: History, k: nat :|
        && Continues(g, h) && |h.log| <= k < |g.log| && g.init.counter + g.Registrations(|g.log|) <= TWO_64
        && g.ReplacesAt(k) && g.log[k].resp.id == id {
      var j := |h.log| - 1;
      PrefixStates(g, h, j);
      assert g.log[j] == h.log[j];
      assert h.LegalAt(j);
      assert h.At(j).counter == h.Now().counter;
      if !YetToBeAllocated(g.words, g.At(j).counter, id) {
        SafeSlugIsNeverReturned(g, j, k);
      }
    }
  }

  lemma {:induction false} PrefixStates(g: History, h: History, n: nat)
    requires Continues(g, h) && n <= |h.log|
    ensures g.At(n) == h.At(n)
  {
    if n > 0 {
      PrefixStates(g, h, n - 1);
      assert g.log[n - 1] == h.log[n - 1];
    }
  }

  /** The smallest log in which a registration is lost to Register: a slug equal to the first word. */
  lemma SlugIsReplaced(words: seq<string>, caller: nat, token: string, condition: string)
    requires ValidWords(words)
    ensures
      var h := History(words, EMPTY_STATE, [
        Commit(caller, RegisterWithId(token, words[0], condition), 0, Done),
        Commit(caller, Register(token, condition), 1, Registered(words[0]))]);
      Fresh(h) && h.ReplacesAt(1) && h.Now().records.Keys == {words[0]} && h.AllRegistrations(2) == 2
  {
    var h := History(words, EMPTY_STATE, [
      Commit(caller, RegisterWithId(token, words[0], condition), 0, Done),
      Commit(caller, Register(token, condition), 1, Registered(words[0]))]);
    assert h.LegalAt(0);
    assert h.LegalAt(1);
    assert h.AllRegistrations(1) == 1;
  }

  lemma RegisterTakesCounter(h: History, j: nat, n: nat)
    requires h.Legal() && j < n <= |h.log| && h.log[j].op.Register?
    requires h.init.counter + h.Registrations(n) < TWO_64
    ensures h.init.counter <= h.At(j).counter < h.At(n).counter
    ensures h.log[j].Registers() == Some(Allocate(h.words, h.At(j).counter))
  {
    RegistrationsGrow(h, j + 1, n);
    CounterExact(h, j);
    CounterExact(h, n);
    RegisterEntry(h, j);
  }

  lemma RegisterEntry(h: History, k: nat)
    requires h.Legal() && k < |h.log| && h.log[k].op.Register?
    ensures h.log[k].Registers() == Some(Allocate(h.words, h.At(k).counter))
  {
    assert h.LegalAt(k);
  }

  /**
   * The registration that wrote a live record: either a Register, and then the id is that of a counter value below the
   * counter, namely the one that entry found, or a caller's registration of that id.
   */
  lemma LiveIdOrigin(h: History, n: nat, id: string)
    requires Fresh(h) && n <= |h.log| && id in h.At(n).records
    requires h.init.counter + h.Registrations(n) < TWO_64
    ensures h.LatestRegistration(id, n).Some?
    ensures
      var j := h.LatestRegistration(id, n).value;
      var c, r := h.log[j], h.At(n).records[id];
      && r.ownerToken == c.op.token && r.condition == c.op.condition && r.createdAt == c.now
      && if c.op.Register? then
           h.init.counter <= h.At(j).counter < h.At(n).counter && id == Allocate(h.words, h.At(j).counter)
         else c.op.RegisterWithId? && c.op.id == id
  {
    RecordsComeFromTheLog(h, id, n);
    var j := h.LatestRegistration(id, n).value;
    if h.log[j].op.Register? {
      RegisterTakesCounter(h, j, n);
    }
  }

  // ----- accounting

  lemma PurgedSizes(records: map<string, Record>, gone: set<string>)
    requires gone <= records.Keys
    ensures |records - gone| + |gone| == |records|
  {
    assert (records - gone).Keys == records.Keys - gone;
    assert |(records - gone).Keys| == |records.Keys| - |gone|;
  }

  lemma AddedSize(records: map<string, Record>, id: string, r: Record)
    ensures |records[id := r]| == |records| + if id in records then 0 else 1
  {
    assert records[id := r].Keys == records.Keys + {id};
    if id in records {
      assert records[id := r].Keys == records.Keys;
    }
  }

  /** Every registration is still live, was counted by a purge, or was replaced by Register. */
  lemma {:induction false} RegistrationsAccountedFor(h: History, n: nat)
    requires Fresh(h) && n <= |h.log|
    ensures h.AllRegistrations(n) == |h.At(n).records| + h.RemovedTotal(n) + h.Replacements(n)
  {
    if n > 0 {
      RegistrationsAccountedFor(h, n - 1);
      assert h.LegalAt(n - 1);
      var c := h.log[n - 1];
      var pre := h.At(n - 1);
      match c.op {
        case Register(t, d) =>
          AddedSize(pre.records, c.resp.id, Pending(c.resp.id, d, t, c.now));
        case RegisterWithId(t, id, d) =>
          AddedSize(pre.records, id, Pending(id, d, t, c.now));
        case Resolve(id, _, _) =>
          AddedSize(pre.records, id, h.At(n).records[id]);
        case Purge(opts) =>
          PurgedSizes(pre.records, PurgeSet(opts, pre.records));
      }
    }
  }

  // ----- what happens to a record between two moments

  /** Entry j is the one Resolve of id in [m, n), and the record at n is the one at m with that resolution. */
  ghost predicate ResolvedBetween(h: History, id: string, m: nat, j: nat, n: nat)
    requires |h.words| > 0 && n <= |h.log|
  {
    && m <= j < n && h.log[j].op.Resolve? && h.log[j].op.id == id
    && (forall k | m <= k < n && k != j :: !(h.log[k].op.Resolve? && h.log[k].op.id == id))
    && id in h.At(m).records && id in h.At(n).records
    && h.At(m).records[id].status != STATUS_RESOLVED
    && (h.log[j].op.force || h.log[j].op.token == h.At(m).records[id].ownerToken)
    && h.At(n).records[id] == h.At(m).records[id].(status := STATUS_RESOLVED, resolvedAt := Some(h.log[j].now))
  }

  /** No entry in [m, n) resolves id, and the record at n is the one at m. */
  ghost predicate UntouchedBetween(h: History, id: string, m: nat, n: nat)
    requires |h.words| > 0 && n <= |h.log|
  {
    && m <= n && id in h.At(m).records && id in h.At(n).records
    && (forall k | m <= k < n :: !(h.log[k].op.Resolve? && h.log[k].op.id == id))
    && h.At(n).records[id] == h.At(m).records[id]
  }

  lemma EntryOnRecord(h: History, id: string, k: nat)
    requires h.Legal() && k < |h.log| && h.log[k].Registers() != Some(id) && id in h.At(k + 1).records
    ensures id in h.At(k).records
    ensures
      var c, before, after := h.log[k], h.At(k).records[id], h.At(k + 1).records[id];
      if c.op.Resolve? && c.op.id == id then
        && before.status != STATUS_RESOLVED && (c.op.force || c.op.token == before.ownerToken)
        && after == before.(status := STATUS_RESOLVED, resolvedAt := Some(c.now))
      else after == before
  {
    assert h.LegalAt(k);
  }

  lemma UntouchedSoFar(h: History, id: string, m: nat, p: nat)
    requires h.Legal() && p < |h.log| && UntouchedBetween(h, id, m, p)
    requires h.log[p].Registers() != Some(id) && id in h.At(p + 1).records
    ensures UntouchedBetween(h, id, m, p + 1) || ResolvedBetween(h, id, m, p, p + 1)
  {
    EntryOnRecord(h, id, p);
  }

  lemma ResolvedSoFar(h: History, id: string, m: nat, j: nat, p: nat)
    requires h.Legal() && p < |h.log| && ResolvedBetween(h, id, m, j, p)
    requires h.log[p].Registers() != Some(id) && id in h.At(p + 1).records
    ensures ResolvedBetween(h, id, m, j, p + 1)
  {
    EntryOnRecord(h, id, p);
  }

  /**
   * A record that is there at n and was not registered since m was there at m, and since then it is either untouched
   * or resolved exactly once, by its owner or by force, with no other field changed.
   */
  lemma {:induction false} SurvivorsOnlyResolve(h: History, id: string, m: nat, n: nat)
    requires h.Legal() && m <= n <= |h.log| && id in h.At(n).records
    requires forall k | m <= k < n :: h.log[k].Registers() != Some(id)
    ensures UntouchedBetween(h, id, m, n) || exists j :: ResolvedBetween(h, id, m, j, n)
  {
    if m < n {
      var p := n - 1;
      EntryOnRecord(h, id, p);
      SurvivorsOnlyResolve(h, id, m, p);
      if UntouchedBetween(h, id, m, p) {
        UntouchedSoFar(h, id, m, p);
      } else {
        var j :| ResolvedBetween(h, id, m, j, p);
        ResolvedSoFar(h, id, m, j, p);
      }
    }
  }

  // ----- how long a resolution lasts

  /** Entry k purges id or registers it again. */
  predicate Disturbs(h: History, k: nat, id: string)
    requires k < |h.log|
  {
    h.log[k].Registers() == Some(id) || h.PurgeCovers(k, id, true)
  }

  /** A resolved record stays resolved until an entry purges it or registers its id again. */
  lemma {:induction false} ResolutionLasts(h: History, id: string, j: nat, n: nat)
    requires h.Legal() && j < n <= |h.log|
    requires h.log[j].op.Resolve? && h.log[j].op.id == id
    requires forall k | j < k < n :: !Disturbs(h, k, id)
    ensures id in h.At(n).records && h.At(n).records[id].status == STATUS_RESOLVED
  {
    assert h.LegalAt(n - 1);
    if n > j + 1 {
      ResolutionLasts(h, id, j, n - 1);
      assert !Disturbs(h, n - 1, id);
      var c := h.log[n - 1];
      if c.op.Purge? {
        assert id !in PurgeSet(c.op.opts, h.At(n - 1).records);
      }
    }
  }

  /** Entry i is the latest registration of id before n; entry j, after it, resolves it with its token or by force. */
  ghost predicate ResolvedSince(h: History, id: string, i: nat, j: nat, n: nat) {
    && i < j < n <= |h.log|
    && h.log[i].Registers() == Some(id)
    && (forall k | i < k < n :: h.log[k].Registers() != Some(id))
    && h.log[j].op.Resolve? && h.log[j].op.id == id
    && (h.log[j].op.force || h.log[j].op.token == h.log[i].op.token)
  }

  /** A record seen resolved was resolved in the log after its latest registration. */
  lemma SeenResolvedWasResolved(h: History, id: string, n: nat)
    requires Fresh(h) && n <= |h.log|
    requires id in h.At(n).records && h.At(n).records[id].status == STATUS_RESOLVED
    ensures exists i, j :: ResolvedSince(h, id, i, j, n)
  {
    RecordsComeFromTheLog(h, id, n);
    var i, j := h.LatestRegistration(id, n).value, h.ResolvedBy(id, n).value;
    OrderOfLatest(h, id, n);
    ResolveCarriesLatestToken(h, j);
    LatestRegistrationBefore(h, id, j, n);
    assert ResolvedSince(h, id, i, j, n);
  }

  lemma {:induction false} OrderOfLatest(h: History, id: string, n: nat)
    requires n <= |h.log| && h.LatestRegistration(id, n).Some? && h.ResolvedBy(id, n).Some?
    ensures h.LatestRegistration(id, n).value < h.ResolvedBy(id, n).value
    ensures forall k | h.LatestRegistration(id, n).value < k < n :: h.log[k].Registers() != Some(id)
  {
    if !(h.log[n - 1].op.Resolve? && h.log[n - 1].op.id == id) {
      OrderOfLatest(h, id, n - 1);
    } else {
      NoLaterRegistration(h, id, n);
    }
  }

  lemma {:induction false} NoLaterRegistration(h: History, id: string, n: nat)
    requires n <= |h.log| && h.LatestRegistration(id, n).Some?
    ensures forall k | h.LatestRegistration(id, n).value < k < n :: h.log[k].Registers() != Some(id)
  {
    if h.log[n - 1].Registers() != Some(id) {
      NoLaterRegistration(h, id, n - 1);
    }
  }

  lemma {:induction false} LatestRegistrationBefore(h: History, id: string, j: nat, n: nat)
    requires j <= n <= |h.log| && h.LatestRegistration(id, n).Some? && h.LatestRegistration(id, n).value < j
    ensures h.LatestRegistration(id, j) == h.LatestRegistration(id, n)
  {
    if j < n {
      LatestRegistrationBefore(h, id, j, n - 1);
    }
  }
}
