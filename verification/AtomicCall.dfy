/**
 One call of the atomic write without interference: as the program makes it, on files that are just bytes under
 names, and as a run of the machine in `AtomicWrite`. Both have the same outcome, whatever the system refuses.
 */
module AtomicCall {
  import opened Wrappers
  import opened Staging
  import opened AtomicWrite

  type Files = map<Name, Bytes>

  /** Which requests of a call the system refuses, and how many bytes it takes before it refuses to write. */
  datatype Faults = Faults(parent: bool, create: bool, room: nat, sync: bool, rename: bool, remove: bool)
  {
    predicate Creates() {
      !parent && !create
    }

    predicate Fills(contents: Bytes) {
      |contents| <= room && !sync
    }
  }

  /** Whether a call succeeds on these files. */
  predicate Succeeds(before: Files, dest: Name, contents: Bytes, tag: string, faults: Faults) {
    StagingName(dest, tag) !in before && faults.Creates() && faults.Fills(contents) && !faults.rename
  }

  /** The bytes that fit. */
  function Taken(contents: Bytes, room: nat): Bytes {
    if |contents| <= room then contents else contents[..room]
  }

  /** The files in the end, once the staging file has been created: a failure leaves at most that file behind. */
  function AfterCreation(before: Files, staging: Name, dest: Name, contents: Bytes, faults: Faults): Files {
    if faults.Fills(contents) && !faults.rename then before[dest := contents]
    else if faults.Fills(contents) && !faults.remove then before
    else before[staging := Taken(contents, faults.room)]
  }

  /** The files when the call is over. */
  function Outcome(before: Files, dest: Name, contents: Bytes, tag: string, faults: Faults): Files {
    var staging := StagingName(dest, tag);
    if staging in before || !faults.Creates() then before
    else AfterCreation(before, staging, dest, contents, faults)
  }

  /**
   In plain words. A call succeeds if the staging name is free, nothing is refused and the bytes fit; then the
   destination has the bytes and nothing else differs. A failed call changes at most the staging name, which it
   leaves in use only if the file could not be filled, or neither renamed nor removed, and then with a leading piece
   of the bytes.
   */
  predicate IsResult(before: Files, after: Files, dest: Name, contents: Bytes, staging: Name, faults: Faults,
                     ok: bool) {
    var created := staging !in before && !faults.parent && !faults.create;
    var filled := created && |contents| <= faults.room && !faults.sync;
    && (ok <==> filled && !faults.rename)
    && (ok ==> after == before[dest := contents])
    && (!ok ==> after - {staging} == before - {staging})
    && (!created ==> after == before)
    && (created && !ok ==> (staging in after <==> !filled || faults.remove))
    && (created && !ok && staging in after ==>
          after[staging] <= contents && (|after[staging]| == |contents| || |after[staging]| == faults.room))
  }

  class FileSystem {
    var files: Files

    /** The call as written. */
    method WriteAtomic(dest: Name, contents: Bytes, tag: string, faults: Faults) returns (ok: bool)
      modifies this
      ensures ok <==> Succeeds(old(files), dest, contents, tag, faults)
      ensures files == Outcome(old(files), dest, contents, tag, faults)
      ensures !ok && dest in old(files) ==> dest in files && files[dest] == old(files)[dest]
      ensures IsResult(old(files), files, dest, contents, StagingName(dest, tag), faults, ok)
    {
      StagingIsNotDestination(dest, tag);
      if faults.parent {
        return false;
      }
      var staging := StagingName(dest, tag);
      if staging in files || faults.create {
        return false;
      }
      var filled := FillStaging(staging, contents, faults);
      if !filled {
        return false;
      }
      if faults.rename {
        if !faults.remove {
          files := files - {staging};
        }
        return false;
      }
      var bytes := files[staging];
      files := (files - {staging})[dest := bytes];
      return true;
    }

    /** Create, write and sync the staging file. */
    method FillStaging(staging: Name, contents: Bytes, faults: Faults) returns (ok: bool)
      requires staging !in files
      modifies this
      ensures ok <==> faults.Fills(contents)
      ensures files == old(files)[staging := Taken(contents, faults.room)]
    {
      files := files[staging := []];
      var n := 0;
      while n < |contents|
        invariant n <= |contents| && n <= faults.room
        invariant files == old(files)[staging := contents[..n]]
      {
        if n >= faults.room {
          return false;
        }
        n := n + 1;
        files := files[staging := contents[..n]];
      }
      assert contents[..n] == contents;
      ok := !faults.sync;
    }
  }

  // ---------------------------------------------------------------------------------------------
  // The call as a run of the machine
  // ---------------------------------------------------------------------------------------------

  /** The bytes under each name. */
  function FilesIn(dir: Directory, data: map<Inode, Bytes>): Files {
    map name | name in dir && dir[name] in data :: data[dir[name]]
  }

  function FilesOf(s: World): Files {
    FilesIn(s.dir, s.data)
  }

  /** `name` is the only name of file `i`. */
  ghost predicate OnlyName(dir: Directory, data: map<Inode, Bytes>, name: Name, i: Inode) {
    && name in dir && dir[name] == i && i in data
    && forall other :: other in dir && dir[other] == i ==> other == name
  }

  lemma RenamedFiles(dir: Directory, data: map<Inode, Bytes>, staging: Name, dest: Name, before: Files, bytes: Bytes)
    requires staging in dir && dir[staging] in data && data[dir[staging]] == bytes && staging != dest
    requires FilesIn(dir, data) == before[staging := bytes] && staging !in before
    ensures FilesIn((dir - {staging})[dest := dir[staging]], data) == before[dest := bytes]
  {
    RemovedFiles(dir, data, staging, before, bytes);
    assert FilesIn((dir - {staging})[dest := dir[staging]], data) == FilesIn(dir - {staging}, data)[dest := bytes];
  }

  lemma RemovedName(dir: Directory, data: map<Inode, Bytes>, name: Name)
    ensures FilesIn(dir - {name}, data) == FilesIn(dir, data) - {name}
  {
  }

  lemma RemovedFiles(dir: Directory, data: map<Inode, Bytes>, staging: Name, before: Files, bytes: Bytes)
    requires FilesIn(dir, data) == before[staging := bytes] && staging !in before
    ensures FilesIn(dir - {staging}, data) == before
  {
    RemovedName(dir, data, staging);
    assert before[staging := bytes] - {staging} == before;
  }

  lemma WrittenFiles(dir: Directory, data: map<Inode, Bytes>, staging: Name, i: Inode, bytes: Bytes)
    requires OnlyName(dir, data, staging, i)
    ensures FilesIn(dir, data[i := bytes]) == FilesIn(dir, data)[staging := bytes]
    ensures OnlyName(dir, data[i := bytes], staging, i)
  {
  }

  /** Writer `w` is over, and the files are `files`. */
  ghost predicate Ends(s: World, w: nat, files: Files, ok: bool) {
    w in s.writers && s.writers[w].phase == Returned(ok) && FilesOf(s) == files
  }

  /** Writer `w` holds its staging file with these bytes in it, next to the files there were before. */
  ghost predicate Stages(s: World, w: nat, before: Files, written: Bytes) {
    && w in s.writers && s.writers[w].phase.HoldsStaging()
    && var phase := s.writers[w].phase;
       && phase.staging !in before && phase.staging != s.writers[w].dest
       && OnlyName(s.dir, s.data, phase.staging, phase.inode)
       && s.data[phase.inode] == written && FilesOf(s) == before[phase.staging := written]
  }

  lemma SyncedCallEnds(s: World, w: nat, before: Files, faults: Faults) returns (steps: seq<Step>)
    requires w in s.writers && s.writers[w].phase.Synced? && Stages(s, w, before, s.writers[w].contents)
    ensures var Writer(dest, contents, phase) := s.writers[w];
            && IsRun(s, steps)
            && Ends(Run(s, steps), w,
                    if !faults.rename then before[dest := contents]
                    else if !faults.remove then before else before[phase.staging := contents],
                    !faults.rename)
  {
    var Writer(dest, contents, phase) := s.writers[w];
    if !faults.rename {
      RenamedFiles(s.dir, s.data, phase.staging, dest, before, contents);
      OneMoreStep(s, Rename(w), []);
      steps := [Rename(w)] + [];
    } else {
      var s1 := Apply(s, Refuse(w));
      var last := if faults.remove then Refuse(w) else Discard(w);
      RemovedFiles(s.dir, s.data, phase.staging, before, contents);
      OneMoreStep(s1, last, []);
      OneMoreStep(s, Refuse(w), [last] + []);
      steps := [Refuse(w)] + ([last] + []);
    }
  }

  lemma FilledCallEnds(s: World, w: nat, before: Files, faults: Faults) returns (steps: seq<Step>)
    requires w in s.writers && s.writers[w].phase.Writing?
    requires Stages(s, w, before, Taken(s.writers[w].contents, faults.room))
    ensures var Writer(dest, contents, phase) := s.writers[w];
            && IsRun(s, steps)
            && Ends(Run(s, steps), w, AfterCreation(before, phase.staging, dest, contents, faults),
                    faults.Fills(contents) && !faults.rename)
  {
    if faults.Fills(s.writers[w].contents) {
      var s1 := Apply(s, Sync(w));
      var rest := SyncedCallEnds(s1, w, before, faults);
      OneMoreStep(s, Sync(w), rest);
      steps := [Sync(w)] + rest;
    } else {
      OneMoreStep(s, Refuse(w), []);
      steps := [Refuse(w)] + [];
    }
  }

  lemma CreatedCallEnds(s: World, w: nat, before: Files, faults: Faults) returns (steps: seq<Step>)
    requires w in s.writers && s.writers[w].phase.Writing? && Stages(s, w, before, [])
    ensures var Writer(dest, contents, phase) := s.writers[w];
            && IsRun(s, steps)
            && Ends(Run(s, steps), w, AfterCreation(before, phase.staging, dest, contents, faults),
                    faults.Fills(contents) && !faults.rename)
  {
    var Writer(_, contents, phase) := s.writers[w];
    var taken := Taken(contents, faults.room);
    if taken == [] {
      steps := FilledCallEnds(s, w, before, faults);
    } else {
      var append := Append(w, |taken|);
      var s1 := Apply(s, append);
      WrittenFiles(s.dir, s.data, phase.staging, phase.inode, taken);
      assert before[phase.staging := []][phase.staging := taken] == before[phase.staging := taken];
      var rest := FilledCallEnds(s1, w, before, faults);
      OneMoreStep(s, append, rest);
      steps := [append] + rest;
    }
  }

  lemma CreatedFiles(dir: Directory, data: map<Inode, Bytes>, staging: Name, inode: Inode)
    requires staging !in dir && inode !in data && forall name :: name in dir ==> dir[name] in data
    ensures FilesIn(dir[staging := inode], data[inode := []]) == FilesIn(dir, data)[staging := []]
    ensures OnlyName(dir[staging := inode], data[inode := []], staging, inode)
  {
  }

  /** One call made without interference is a run of the machine, with the outcome `WriteAtomic` has. */
  lemma CallIsRun(s: World, w: nat, tag: string, inode: Inode, faults: Faults) returns (steps: seq<Step>)
    requires w in s.writers && s.writers[w].phase.Ready? && inode !in s.data
    requires forall name :: name in s.dir ==> s.dir[name] in s.data
    ensures var Writer(dest, contents, _) := s.writers[w];
            && IsRun(s, steps)
            && Ends(Run(s, steps), w, Outcome(FilesOf(s), dest, contents, tag, faults),
                    Succeeds(FilesOf(s), dest, contents, tag, faults))
  {
    var Writer(dest, contents, _) := s.writers[w];
    var staging, before := StagingName(dest, tag), FilesOf(s);
    if !faults.Creates() {
      OneMoreStep(s, Refuse(w), []);
      steps := [Refuse(w)] + [];
    } else {
      var create := Create(w, tag, inode);
      var s1 := Apply(s, create);
      var rest := [];
      if staging !in s.dir {
        StagingIsNotDestination(dest, tag);
        CreatedFiles(s.dir, s.data, staging, inode);
        rest := CreatedCallEnds(s1, w, before, faults);
      }
      OneMoreStep(s, create, rest);
      steps := [create] + rest;
    }
  }
}
