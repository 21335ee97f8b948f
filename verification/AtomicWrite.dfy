/** internal/store/atomic_windows.go: replacing the state file through a temporary file. */
module AtomicWrite {
  import opened Prelude
  import opened Schema

  /** Which of the calls fail. */
  datatype WriteFaults = WriteFaults(create: bool, write: bool, sync: bool, close: bool, chmod: bool, rename: bool)

  const NO_FAULTS := WriteFaults(false, false, false, false, false, false)

  /**
   * A directory and the open handles on its files. `past` lists what the directory held after every single effect,
   * so it lists what a crash at any moment would have left behind.
   */
  class Directory {
    var files: map<string, Content>
    var handles: set<string>
    ghost var past: seq<map<string, Content>>
    ghost var renames: nat

    constructor ()
      ensures files == map[] && handles == {} && past == [] && renames == 0
    {
      files, handles := map[], {};
      past, renames := [], 0;
    }

    function Lookup(path: string): FileState
      reads this
    {
      if path in files then Some(files[path]) else None
    }

    /** A new empty file with an open handle. Its name is unused: os.CreateTemp retries until one is. */
    method CreateTemp(name: string, fails: bool) returns (ok: bool)
      requires name !in files && name !in handles
      modifies this
      ensures ok == !fails && renames == old(renames)
      ensures ok ==> files == old(files)[name := Corrupt] && handles == old(handles) + {name}
      ensures ok ==> past == old(past) + [files]
      ensures !ok ==> files == old(files) && handles == old(handles) && past == old(past)
    {
      ok := !fails;
      if ok {
        files := files[name := Corrupt];
        handles := handles + {name};
        past := past + [files];
      }
    }

    /** Bytes arrive piecemeal: a failed or interrupted write leaves something that does not decode. */
    method Write(name: string, data: Content, fails: bool) returns (ok: bool)
      requires name in files && name in handles
      modifies this
      ensures ok == !fails && renames == old(renames) && handles == old(handles)
      ensures files == old(files)[name := if ok then data else Corrupt]
      ensures past == old(past) + [old(files)[name := Corrupt]] + if ok then [files] else []
    {
      files := files[name := Corrupt];
      past := past + [files];
      ok := !fails;
      if ok {
        files := files[name := data];
        past := past + [files];
      }
    }

    /** Sync and Chmod change neither names nor bytes. */
    method Touch(name: string, fails: bool) returns (ok: bool)
      modifies this
      ensures ok == !fails && renames == old(renames) && handles == old(handles) && files == old(files)
      ensures past == old(past) + [files]
    {
      past := past + [files];
      ok := !fails;
    }

    /** Closing releases the handle even when it reports an error. */
    method Close(name: string, fails: bool) returns (ok: bool)
      requires name in handles
      modifies this
      ensures ok == !fails && renames == old(renames) && handles == old(handles) - {name} && files == old(files)
      ensures past == old(past) + [files]
    {
      handles := handles - {name};
      past := past + [files];
      ok := !fails;
    }

    /** One atomic step; refused while a handle on the source is open. */
    method Rename(from: string, to: string, fails: bool) returns (ok: bool)
      requires from in files && from != to
      modifies this
      ensures ok == (!fails && from !in old(handles)) && handles == old(handles)
      ensures ok ==> files == old(files)[to := old(files)[from]] - {from} && renames == old(renames) + 1
      ensures !ok ==> files == old(files) && renames == old(renames)
      ensures past == old(past) + [files]
    {
      ok := !fails && from !in handles;
      if ok {
        files := files[to := files[from]] - {from};
        renames := renames + 1;
      }
      past := past + [files];
    }

    /** Removing an open file is refused; removing a missing one does nothing. */
    method Remove(name: string)
      modifies this
      ensures files == (if name in old(handles) then old(files) else old(files) - {name})
      ensures handles == old(handles) && renames == old(renames)
      ensures past == old(past) + [files]
    {
      if name !in handles {
        files := files - {name};
      }
      past := past + [files];
    }
  }

  /** Apart from the temporary file, now is before with the target either untouched or holding exactly data. */
  ghost predicate OldOrNew(
      before: map<string, Content>, path: string, data: Content, tmp: string, now: map<string, Content>)
  {
    now - {tmp} == before || now - {tmp} == before[path := data]
  }

  /** The steps from the first write to the rename; every early return has closed the handle. */
  method FillAndRename(dir: Directory, path: string, data: Content, tmp: string, faults: WriteFaults)
    returns (err: Option<Error>)
    requires tmp != path && tmp in dir.files && tmp in dir.handles
    modifies dir
    ensures dir.handles == old(dir.handles) - {tmp}
    ensures err == None ==> dir.files == old(dir.files)[path := data] - {tmp} && dir.renames == old(dir.renames) + 1
    ensures err != None ==> dir.files - {tmp} == old(dir.files) - {tmp} && dir.renames == old(dir.renames)
    ensures err == (if faults.(create := false) == NO_FAULTS then None else Some(SaveFailed))
    ensures |old(dir.past)| <= |dir.past| && dir.past[..|old(dir.past)|] == old(dir.past)
    ensures forall k | |old(dir.past)| <= k < |dir.past| ::
              OldOrNew(old(dir.files) - {tmp}, path, data, tmp, dir.past[k])
  {
    ghost var before := dir.files - {tmp};
    var ok := dir.Write(tmp, data, faults.write);
    assert dir.files - {tmp} == before;
    if !ok {
      var _ := dir.Close(tmp, false);
      return Some(SaveFailed);
    }
    ok := dir.Touch(tmp, faults.sync);
    if !ok {
      var _ := dir.Close(tmp, false);
      return Some(SaveFailed);
    }
    ok := dir.Close(tmp, faults.close);
    if !ok {
      return Some(SaveFailed);
    }
    ok := dir.Touch(tmp, faults.chmod);
    if !ok {
      return Some(SaveFailed);
    }
    ok := dir.Rename(tmp, path, faults.rename);
    if !ok {
      return Some(SaveFailed);
    }
    assert dir.files - {tmp} == before[path := data];
    return None;
  }

  /**
   * Success means the rename happened and the target holds exactly the new bytes; failure means the directory is as it
   * was. No handle and no temporary file outlive the call, and no crash point in between shows anything but the old or
   * the new bytes in the target.
   */
  method WriteStateAtomic(dir: Directory, path: string, data: Content, tmp: string, faults: WriteFaults)
    returns (err: Option<Error>)
    requires tmp != path && tmp !in dir.files && tmp !in dir.handles
    modifies dir
    ensures dir.handles == old(dir.handles)
    ensures err == None ==> dir.files == old(dir.files)[path := data] && dir.renames == old(dir.renames) + 1
    ensures err != None ==> dir.files == old(dir.files) && dir.renames == old(dir.renames)
    ensures err == (if faults == NO_FAULTS then None else Some(SaveFailed))
    ensures |old(dir.past)| <= |dir.past| && dir.past[..|old(dir.past)|] == old(dir.past)
    ensures forall k | |old(dir.past)| <= k < |dir.past| :: OldOrNew(old(dir.files), path, data, tmp, dir.past[k])
  {
    ghost var before := dir.files;
    var created := dir.CreateTemp(tmp, faults.create);
    if !created {
      return Some(SaveFailed);
    }
    assert dir.files - {tmp} == before;
    err := FillAndRename(dir, path, data, tmp, faults);
    dir.Remove(tmp);
    if err == None {
      assert dir.files == before[path := data];
      assert dir.files - {tmp} == dir.files;
    } else {
      assert dir.files == before;
      assert dir.files - {tmp} == before;
    }
  }
}
