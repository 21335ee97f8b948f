/**
 * What each call answers, and what it leaves in the file, stated on documents, on what Get and List show, and on the
 * log; never through the closures.
 */
module Verdicts {
  import opened Prelude
  import opened Schema
  import opened IdGen
  import opened StoreSpec
  import opened History
  import opened S = Store

  // ----- reads

  /** Get and List show exactly the records of the document. */
  lemma ReadsShowTheDocument(file: FileState, counter: Word64, records: map<string, Record>, id: string, env: Env)
    requires Holds(file, counter, records) && Smooth(env)
    ensures SharedBody(file, List, env) == Ok(Listed(records))
    ensures SharedBody(file, Get(id), env) == if id in records then Ok(Found(records[id])) else Err(UnknownId)
  {
    LoadsOrRefuses(file);
  }

  /** A file that does not decode or has another version is refused by every call and left as it is. */
  lemma RefusedFileAnswers(words: seq<string>, file: FileState, op: WriteOp, rop: ReadOp, env: Env)
    requires |words| > 0 && Smooth(env)
    requires file == Some(Corrupt) || (file.Some? && file.value.Doc? && file.value.version != 1)
    ensures
      var refusal := if file == Some(Corrupt) then CorruptJson else SchemaVersion(file.value.version);
      && SharedBody(file, rop, env) == Err(refusal)
      && (CheckArgs(op) == None ==> WriteCall(words, file, op, env) == (Err(refusal), file))
      && (CheckArgs(op) != None ==> WriteCall(words, file, op, env) == (Err(CheckArgs(op).value), file))
  {
    FailuresDecide(words, file, op, rop, env);
  }

  // ----- registrations

  /** Register always succeeds: the id of the counter, the counter one on, and the caller's pending record. */
  lemma RegisterAnswers(
      words: seq<string>, file: FileState, counter: Word64, records: map<string, Record>,
      token: string, condition: string, env: Env)
    requires |words| > 0 && Holds(file, counter, records) && Smooth(env)
    ensures
      var id := Allocate(words, counter);
      var next := if counter == TWO_64 - 1 then 0 else counter + 1;
      WriteCall(words, file, Register(token, condition), env) ==
      (Ok(Registered(id)),
       Some(Doc(1, next, Some(records[id := Record(id, condition, "pending", token, env.now, None)]))))
  {
    LoadsOrRefuses(file);
  }

  /** The slug grammar, letter by letter. */
  lemma SlugAlphabet(id: string)
    ensures ValidId(id) <==>
            && 1 <= |id| <= 64
            && (forall c | c in id :: c in "abcdefghijklmnopqrstuvwxyz0123456789._-")
            && id[0] !in "._-"
  {
    forall c: char ensures IsSlugChar(c) <==> c in "abcdefghijklmnopqrstuvwxyz0123456789._-" {
      SlugCharAlphabet(c);
    }
    if 1 <= |id| <= 64 {
      assert forall i | 0 <= i < |id| :: id[i] in id;
      assert IsSlugHead(id[0]) <==> IsSlugChar(id[0]) && id[0] !in "._-";
    }
  }

  lemma SlugCharAlphabet(c: char)
    ensures IsSlugChar(c) <==> c in "abcdefghijklmnopqrstuvwxyz0123456789._-"
  {
    var abc := "abcdefghijklmnopqrstuvwxyz0123456789._-";
    if IsSlugChar(c) {
      var i := if 'a' <= c <= 'z' then (c - 'a') as int
               else if '0' <= c <= '9' then 26 + (c - '0') as int
               else if c == '.' then 36 else if c == '_' then 37 else 38;
      assert abc[i] == c;
    }
  }

  /** A slug is refused for its grammar, then for being taken, and else registered with the counter untouched. */
  lemma RegisterWithIdAnswers(
      words: seq<string>, file: FileState, counter: Word64, records: map<string, Record>,
      token: string, id: string, condition: string, env: Env)
    requires |words| > 0 && Holds(file, counter, records) && Smooth(env)
    ensures
      var valid := 1 <= |id| <= 64 && id[0] !in "._-"
                   && forall c | c in id :: c in "abcdefghijklmnopqrstuvwxyz0123456789._-";
      WriteCall(words, file, RegisterWithId(token, id, condition), env) ==
      if !valid then (Err(InvalidId(id)), file)
      else if id in records then (Err(IdTaken(id)), file)
      else (Ok(Done),
            Some(Doc(1, counter, Some(records[id := Record(id, condition, "pending", token, env.now, None)]))))
  {
    LoadsOrRefuses(file);
    SlugAlphabet(id);
  }

  // ----- Resolve

  /**
   * Resolve of a document: unknown id, resolved already, a foreign token without force; and else it succeeds, the
   * owner's token being enough, and changes the status and the resolution time of that record only.
   */
  lemma ResolveAnswersOn(
      words: seq<string>, file: FileState, counter: Word64, records: map<string, Record>,
      id: string, token: string, force: bool, env: Env)
    requires |words| > 0 && Holds(file, counter, records) && Smooth(env)
    ensures
      WriteCall(words, file, Resolve(id, token, force), env) ==
      if id !in records then (Err(UnknownId), file)
      else if records[id].status == "resolved" then (Err(AlreadyResolved), file)
      else if token != records[id].ownerToken && !force then (Err(NotOwner), file)
      else
        var r := records[id];
        (Ok(Done), Some(Doc(1, counter, Some(records[id :=
           Record(r.id, r.condition, "resolved", r.ownerToken, r.createdAt, Some(env.now))]))))
  {
    LoadsOrRefuses(file);
  }

  /** The same answers read off the log that led to the document. */
  lemma ResolveAnswersFromLog(h: History, n: nat, file: FileState, id: string, token: string, force: bool, env: Env)
    requires Fresh(h) && n <= |h.log| && Holds(file, h.At(n).counter, h.At(n).records) && Smooth(env)
    ensures h.Live(id, n) ==> h.LatestRegistration(id, n).Some?
    ensures
      var (r, after) := WriteCall(h.words, file, Resolve(id, token, force), env);
      && (r == Ok(Done) <==>
            && h.Live(id, n) && h.ResolvedBy(id, n) == None
            && (force || token == h.log[h.LatestRegistration(id, n).value].op.token))
      && (r == Err(UnknownId) <==> !h.Live(id, n))
      && (r == Err(AlreadyResolved) <==> h.Live(id, n) && h.ResolvedBy(id, n) != None)
      && (r == Err(NotOwner) <==>
            && h.Live(id, n) && h.ResolvedBy(id, n) == None
            && !force && token != h.log[h.LatestRegistration(id, n).value].op.token)
      && (r != Ok(Done) ==> after == file)
  {
    LoadsOrRefuses(file);
    RecordsComeFromTheLog(h, id, n);
    ResolveAnswersOn(h.words, file, h.At(n).counter, h.At(n).records, id, token, force, env);
  }

  // ----- Purge

  /** Anything but exactly one target is refused before the file is touched, whatever the surroundings do. */
  lemma PurgeNeedsOneTarget(words: seq<string>, file: FileState, opts: PurgeOptions, env: Env)
    requires |words| > 0
    requires
      || (opts.id == "" && !opts.all && !opts.resolved)
      || (opts.id != "" && opts.all) || (opts.id != "" && opts.resolved) || (opts.all && opts.resolved)
    ensures WriteCall(words, file, Purge(opts), env) == (Err(PurgeArgRequired), file)
  {
  }

  /** A purge by id removes exactly that record when List shows it, and otherwise says the id is unknown. */
  lemma PurgeIdAnswers(
      words: seq<string>, file: FileState, counter: Word64, records: map<string, Record>, id: string, env: Env)
    requires |words| > 0 && Holds(file, counter, records) && Smooth(env) && id != ""
    ensures SharedBody(file, List, env) == Ok(Listed(records))
    ensures
      WriteCall(words, file, Purge(PurgeOptions(id, false, false)), env) ==
      if id in records then (Ok(Removed(1)), Some(Doc(1, counter, Some(map k | k in records && k != id :: records[k]))))
      else (Err(UnknownId), file)
  {
    ReadsShowTheDocument(file, counter, records, id, env);
    LoadsOrRefuses(file);
    assert records - {id} == map k | k in records && k != id :: records[k];
  }

  /** A purge of everything counts what List shows and leaves nothing but the counter. */
  lemma PurgeAllAnswers(
      words: seq<string>, file: FileState, counter: Word64, records: map<string, Record>, env: Env)
    requires |words| > 0 && Holds(file, counter, records) && Smooth(env)
    ensures SharedBody(file, List, env) == Ok(Listed(records))
    ensures
      WriteCall(words, file, Purge(PurgeOptions("", true, false)), env) ==
      (Ok(Removed(|records|)), Some(Doc(1, counter, Some(map[]))))
  {
    ReadsShowTheDocument(file, counter, records, "", env);
    LoadsOrRefuses(file);
    assert records - records.Keys == map[];
    assert |records.Keys| == |records|;
  }

  /** A purge of the resolved removes and counts exactly the records List shows with that status. */
  lemma PurgeResolvedAnswers(
      words: seq<string>, file: FileState, counter: Word64, records: map<string, Record>, env: Env)
    requires |words| > 0 && Holds(file, counter, records) && Smooth(env)
    ensures SharedBody(file, List, env) == Ok(Listed(records))
    ensures
      var (r, after) := WriteCall(words, file, Purge(PurgeOptions("", false, true)), env);
      && r == Ok(Removed(|set k | k in records && records[k].status == "resolved"|))
      && after == Some(Doc(1, counter, Some(map k | k in records && records[k].status != "resolved" :: records[k])))
  {
    ReadsShowTheDocument(file, counter, records, "", env);
    LoadsOrRefuses(file);
    assert ResolvedIds(records) == set k | k in records && records[k].status == "resolved";
    assert records - ResolvedIds(records) == map k | k in records && records[k].status != "resolved" :: records[k];
  }

  // ----- writes and reads together

  /** The document a successful write leaves is one that holds: so every read after it shows the new records. */
  lemma WritesAreRead(
      words: seq<string>, file: FileState, counter: Word64, records: map<string, Record>, op: WriteOp, env: Env,
      id: string, later: Env)
    requires |words| > 0 && Holds(file, counter, records) && Smooth(env) && Smooth(later)
    requires WriteCall(words, file, op, env).0.Ok?
    ensures
      var after := WriteCall(words, file, op, env).1;
      && after.Some? && after.value.Doc? && after.value.records.Some?
      && SharedBody(after, List, later) == Ok(Listed(after.value.records.value))
      && SharedBody(after, Get(id), later) ==
         if id in after.value.records.value then Ok(Found(after.value.records.value[id])) else Err(UnknownId)
  {
    LoadsOrRefuses(file);
    var after := WriteCall(words, file, op, env).1;
    ReadsShowTheDocument(after, after.value.counter, after.value.records.value, id, later);
  }
}
