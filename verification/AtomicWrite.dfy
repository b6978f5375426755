/**
 Atomic file replacement: stage the bytes in a file created exclusively, sync it, rename it over the destination.

 Any number of writers and readers interleave at every system call. A writer may be refused by any call, may be
 killed anywhere, may draw a staging name that is in use, and may write its bytes in any number of pieces. The
 machine itself may lose power: then every process is gone, unsynced file contents become arbitrary, and the
 directory falls back to any state it has had, because the directory is never synced.
 */
module AtomicWrite {
  import opened Wrappers
  import opened Staging

  // ---------------------------------------------------------------------------------------------
  // The machine
  // ---------------------------------------------------------------------------------------------

  datatype Phase =
    | Ready
    | Writing(staging: Name, inode: Inode)
    | Synced(staging: Name, inode: Inode)
    | Discarding(staging: Name, inode: Inode)    // the rename was refused
    | Returned(ok: bool)
    | Dead
  {
    predicate HoldsStaging() {
      Writing? || Synced? || Discarding?
    }
  }

  datatype Writer = Writer(dest: Name, contents: Bytes, phase: Phase)

  datatype World = World(
    dir: Directory,
    data: map<Inode, Bytes>,
    durable: set<Inode>,
    past: set<Directory>,
    writers: map<nat, Writer>,
    readers: map<nat, Reader>)

  datatype Step =
    | Create(w: nat, tag: string, inode: Inode)
    | Append(w: nat, upTo: nat)
    | Sync(w: nat)
    | Rename(w: nat)
    | Refuse(w: nat)                 // the call the writer is about to make fails
    | Discard(w: nat)
    | Kill(w: nat)
    | OpenFile(r: nat, name: Name)
    | ReadMore(r: nat, upTo: nat)
    | EndOfFile(r: nat)
    | PowerLoss(dir: Directory, data: map<Inode, Bytes>)

  ghost predicate Enabled(s: World, step: Step) {
    match step
    case Create(w, _, inode) => w in s.writers && s.writers[w].phase.Ready? && inode !in s.data
    case Append(w, upTo) =>
      && w in s.writers && s.writers[w].phase.Writing?
      && s.writers[w].phase.inode in s.data
      && |s.data[s.writers[w].phase.inode]| < upTo <= |s.writers[w].contents|
    case Sync(w) =>
      && w in s.writers && s.writers[w].phase.Writing?
      && s.writers[w].phase.inode in s.data
      && |s.data[s.writers[w].phase.inode]| == |s.writers[w].contents|
    case Rename(w) => w in s.writers && s.writers[w].phase.Synced? && s.writers[w].phase.staging in s.dir
    case Refuse(w) => w in s.writers && (s.writers[w].phase.Ready? || s.writers[w].phase.HoldsStaging())
    case Discard(w) => w in s.writers && s.writers[w].phase.Discarding?
    case Kill(w) => w in s.writers
    case OpenFile(r, name) => r !in s.readers && (name in s.dir ==> s.dir[name] in s.data)
    case ReadMore(r, upTo) =>
      && r in s.readers && s.readers[r].Reading? && s.readers[r].inode in s.data
      && |s.readers[r].got| < upTo <= |s.data[s.readers[r].inode]|
    case EndOfFile(r) =>
      && r in s.readers && s.readers[r].Reading? && s.readers[r].inode in s.data
      && |s.readers[r].got| >= |s.data[s.readers[r].inode]|
    case PowerLoss(dir, data) =>
      && dir in s.past && data.Keys == s.data.Keys
      && (forall i :: i in s.durable && i in data ==> data[i] == s.data[i])
  }

  function WithPhase(s: World, w: nat, phase: Phase): World
    requires w in s.writers
  {
    s.(writers := s.writers[w := s.writers[w].(phase := phase)])
  }

  function WithDir(s: World, dir: Directory): World {
    s.(dir := dir, past := s.past + {dir})
  }

  function BytesAt(s: World, name: Name): Option<Bytes> {
    if name in s.dir && s.dir[name] in s.data then Some(s.data[s.dir[name]]) else None
  }

  ghost function Apply(s: World, step: Step): World
    requires Enabled(s, step)
  {
    match step
    case Create(w, tag, inode) =>
      var staging := StagingName(s.writers[w].dest, tag);
      if staging in s.dir then WithPhase(s, w, Returned(false))
      else WithDir(WithPhase(s, w, Writing(staging, inode)), s.dir[staging := inode]).(data := s.data[inode := []])
    case Append(w, upTo) =>
      s.(data := s.data[s.writers[w].phase.inode := s.writers[w].contents[..upTo]])
    case Sync(w) =>
      var Writing(staging, inode) := s.writers[w].phase;
      WithPhase(s, w, Synced(staging, inode)).(durable := s.durable + {inode})
    case Rename(w) =>
      var staging := s.writers[w].phase.staging;
      WithDir(WithPhase(s, w, Returned(true)), (s.dir - {staging})[s.writers[w].dest := s.dir[staging]])
    case Refuse(w) =>
      var phase := s.writers[w].phase;
      WithPhase(s, w, if phase.Synced? then Discarding(phase.staging, phase.inode) else Returned(false))
    case Discard(w) =>
      WithDir(WithPhase(s, w, Returned(false)), s.dir - {s.writers[w].phase.staging})
    case Kill(w) => WithPhase(s, w, Dead)
    case OpenFile(r, name) =>
      var reader := if name in s.dir
                    then Reading(name, s.dir[name], [], BytesAt(s, name))
                    else Finished(name, None, None);
      s.(readers := s.readers[r := reader])
    case ReadMore(r, upTo) =>
      s.(readers := s.readers[r := s.readers[r].(got := s.data[s.readers[r].inode][..upTo])])
    case EndOfFile(r) =>
      var Reading(name, _, got, atOpen) := s.readers[r];
      s.(readers := s.readers[r := Finished(name, Some(got), atOpen)])
    case PowerLoss(dir, data) =>
      World(dir, data, s.durable, s.past,
            map w | w in s.writers :: if s.writers[w].phase.Ready? then s.writers[w] else s.writers[w].(phase := Dead),
            map r | r in s.readers && s.readers[r].Finished? :: s.readers[r])
  }

  // ---------------------------------------------------------------------------------------------
  // The invariant
  // ---------------------------------------------------------------------------------------------

  /** What a reader of `name` may be given: what was there at first, or the whole argument of one call. */
  ghost predicate Whole(init: World, name: Name, bytes: Bytes) {
    || BytesAt(init, name) == Some(bytes)
    || exists w :: w in init.writers && init.writers[w].dest == name && init.writers[w].contents == bytes
  }

  ghost predicate Init(s: World, dests: set<Name>) {
    && Separate(dests)
    && (forall w :: w in s.writers ==> s.writers[w].phase.Ready? && s.writers[w].dest in dests)
    && s.readers == map[]
    && s.past == {s.dir}
    && s.durable == s.data.Keys
    && (forall name :: name in s.dir ==> s.dir[name] in s.data)
  }

  /** In every directory the disk can fall back to, each destination names a finished, synced file. */
  ghost predicate DirectoryWhole(init: World, s: World, dests: set<Name>, dir: Directory) {
    && (forall name :: name in dir ==> dir[name] in s.data)
    && (forall d :: d in dests && d in dir ==> dir[d] in s.durable && Whole(init, d, s.data[dir[d]]))
    && (forall d :: d in dests && d in init.dir ==> d in dir)
  }

  ghost predicate WriterOwns(s: World, dests: set<Name>, w: nat)
    requires w in s.writers
  {
    var phase := s.writers[w].phase;
    phase.HoldsStaging() ==>
      && phase.staging !in dests
      && phase.staging in s.dir && s.dir[phase.staging] == phase.inode
      && phase.inode in s.data
      && (phase.Writing? ==> phase.inode !in s.durable && s.data[phase.inode] <= s.writers[w].contents)
      && (phase.Synced? ==> phase.inode in s.durable && s.data[phase.inode] == s.writers[w].contents)
  }

  /** Two writers under way never share a staging name or a file. */
  predicate Apart(p: Phase, q: Phase) {
    p.HoldsStaging() && q.HoldsStaging() ==> p.staging != q.staging && p.inode != q.inode
  }

  ghost predicate ReaderSees(init: World, s: World, dests: set<Name>, reader: Reader) {
    reader.name in dests ==>
      if reader.Reading? then
        && reader.inode in s.data && reader.inode in s.durable
        && reader.got <= s.data[reader.inode]
        && reader.atOpen == Some(s.data[reader.inode])
        && Whole(init, reader.name, s.data[reader.inode])
      else
        && reader.bytes == reader.atOpen
        && (reader.bytes.Some? ==> Whole(init, reader.name, reader.bytes.value))
        && (reader.bytes.None? ==> reader.name !in init.dir)
  }

  ghost predicate DirectoriesWhole(init: World, s: World, dests: set<Name>) {
    s.dir in s.past && forall dir :: dir in s.past ==> DirectoryWhole(init, s, dests, dir)
  }

  ghost predicate WritersFixed(init: World, s: World, dests: set<Name>) {
    && s.writers.Keys == init.writers.Keys
    && forall w :: w in s.writers ==>
         && s.writers[w].dest == init.writers[w].dest && s.writers[w].contents == init.writers[w].contents
         && s.writers[w].dest in dests
  }

  ghost predicate WritersOwn(s: World, dests: set<Name>) {
    && (forall w :: w in s.writers ==> WriterOwns(s, dests, w))
    && (forall v, w :: v in s.writers && w in s.writers && v != w ==> Apart(s.writers[v].phase, s.writers[w].phase))
  }

  ghost predicate ReadersSee(init: World, s: World, dests: set<Name>) {
    forall r :: r in s.readers ==> ReaderSees(init, s, dests, s.readers[r])
  }

  ghost predicate Inv(init: World, s: World, dests: set<Name>) {
    && s.durable <= s.data.Keys
    && DirectoriesWhole(init, s, dests) && WritersFixed(init, s, dests) && WritersOwn(s, dests)
    && ReadersSee(init, s, dests)
  }

  lemma StepKeepsSynced(s: World, step: Step)
    requires Enabled(s, step) && s.durable <= s.data.Keys
    requires step.Append? ==> s.writers[step.w].phase.inode !in s.durable
    ensures var s' := Apply(s, step);
            && s.durable <= s'.durable && s.data.Keys <= s'.data.Keys
            && forall i :: i in s.durable ==> s'.data[i] == s.data[i]
  {
  }

  lemma SyncedFilesNeverChange(init: World, s: World, step: Step, dests: set<Name>)
    requires Inv(init, s, dests) && Enabled(s, step)
    ensures var s' := Apply(s, step);
            && s.durable <= s'.durable && s.data.Keys <= s'.data.Keys
            && forall i :: i in s.durable ==> s'.data[i] == s.data[i]
  {
    if step.Append? {
      assert WriterOwns(s, dests, step.w);
    }
    StepKeepsSynced(s, step);
  }

  /** A directory that was whole stays so while synced files do not change. */
  lemma WholeDirectoryKept(init: World, s: World, s': World, dests: set<Name>, dir: Directory)
    requires DirectoryWhole(init, s, dests, dir)
    requires s.durable <= s'.durable && s.data.Keys <= s'.data.Keys
    requires forall i :: i in s.durable ==> i in s.data && s'.data[i] == s.data[i]
    ensures DirectoryWhole(init, s', dests, dir)
  {
  }

  lemma CreatedDirectoryWhole(init: World, s: World, step: Step, dests: set<Name>)
    requires Enabled(s, step) && step.Create? && DirectoryWhole(init, Apply(s, step), dests, s.dir)
    requires StagingName(s.writers[step.w].dest, step.tag) !in dests
    ensures DirectoryWhole(init, Apply(s, step), dests, Apply(s, step).dir)
  {
  }

  lemma RenamedDirectoryWhole(init: World, s: World, step: Step, dests: set<Name>)
    requires Enabled(s, step) && step.Rename? && DirectoryWhole(init, Apply(s, step), dests, s.dir)
    requires WritersFixed(init, s, dests) && WriterOwns(s, dests, step.w)
    ensures DirectoryWhole(init, Apply(s, step), dests, Apply(s, step).dir)
  {
    var writer := s.writers[step.w];
    assert Whole(init, writer.dest, writer.contents) by {
      assert init.writers[step.w].dest == writer.dest;
    }
  }

  lemma DiscardedDirectoryWhole(init: World, s: World, step: Step, dests: set<Name>)
    requires Enabled(s, step) && step.Discard? && DirectoryWhole(init, Apply(s, step), dests, s.dir)
    requires WriterOwns(s, dests, step.w)
    ensures DirectoryWhole(init, Apply(s, step), dests, Apply(s, step).dir)
  {
  }

  lemma NewDirectoryWhole(init: World, s: World, step: Step, dests: set<Name>)
    requires Separate(dests) && Enabled(s, step) && WritersFixed(init, s, dests) && WritersOwn(s, dests)
    requires forall dir :: dir in s.past + {s.dir} ==> DirectoryWhole(init, Apply(s, step), dests, dir)
    ensures DirectoryWhole(init, Apply(s, step), dests, Apply(s, step).dir)
  {
    match step
    case Create(_, _, _) => CreatedDirectoryWhole(init, s, step, dests);
    case Rename(w) =>
      assert WriterOwns(s, dests, w);
      RenamedDirectoryWhole(init, s, step, dests);
    case Discard(w) =>
      assert WriterOwns(s, dests, w);
      DiscardedDirectoryWhole(init, s, step, dests);
    case _ =>
  }

  predicate IsWriterStep(step: Step) {
    !step.PowerLoss? && !step.OpenFile? && !step.ReadMore? && !step.EndOfFile?
  }

  lemma ActingWriterKept(s: World, step: Step, dests: set<Name>, w: nat)
    requires Separate(dests) && Enabled(s, step) && w in s.writers && s.writers[w].dest in dests
    requires WriterOwns(s, dests, w) && s.durable <= s.data.Keys
    requires IsWriterStep(step) && step.w == w
    ensures WriterOwns(Apply(s, step), dests, w)
  {
    if step.Create? {
      assert StagingName(s.writers[w].dest, step.tag) !in dests;
    }
  }

  lemma OtherWriterKept(s: World, step: Step, dests: set<Name>, v: nat, w: nat)
    requires Enabled(s, step) && w in s.writers && v in s.writers && v != w
    requires s.writers[v].dest in dests && WriterOwns(s, dests, v) && WriterOwns(s, dests, w)
    requires Apart(s.writers[v].phase, s.writers[w].phase)
    requires IsWriterStep(step) && step.w == v
    ensures WriterOwns(Apply(s, step), dests, w)
  {
  }

  lemma QuietWriterKept(s: World, step: Step, dests: set<Name>, w: nat)
    requires Enabled(s, step) && w in s.writers && WriterOwns(s, dests, w) && !IsWriterStep(step)
    ensures WriterOwns(Apply(s, step), dests, w)
  {
  }

  lemma WriterKept(init: World, s: World, step: Step, dests: set<Name>, w: nat)
    requires Separate(dests) && Enabled(s, step) && w in s.writers
    requires WritersFixed(init, s, dests) && WritersOwn(s, dests) && s.durable <= s.data.Keys
    ensures w in Apply(s, step).writers && WriterOwns(Apply(s, step), dests, w)
  {
    assert WriterOwns(s, dests, w);
    if !IsWriterStep(step) {
      QuietWriterKept(s, step, dests, w);
    } else if step.w == w {
      ActingWriterKept(s, step, dests, w);
    } else {
      OtherWriterKept(s, step, dests, step.w, w);
    }
  }

  lemma WritersStayApart(s: World, step: Step, dests: set<Name>, v: nat, w: nat)
    requires WritersOwn(s, dests) && Enabled(s, step) && v != w
    requires v in Apply(s, step).writers && w in Apply(s, step).writers
    ensures Apart(Apply(s, step).writers[v].phase, Apply(s, step).writers[w].phase)
  {
    assert Apart(s.writers[v].phase, s.writers[w].phase);
    assert WriterOwns(s, dests, v) && WriterOwns(s, dests, w);
  }

  lemma BystanderKept(init: World, s: World, s': World, dests: set<Name>, reader: Reader)
    requires ReaderSees(init, s, dests, reader)
    requires s.durable <= s'.durable && s.data.Keys <= s'.data.Keys
    requires forall i :: i in s.durable ==> i in s.data && s'.data[i] == s.data[i]
    ensures ReaderSees(init, s', dests, reader)
  {
  }

  lemma OpenedReaderSees(init: World, s: World, step: Step, dests: set<Name>)
    requires Enabled(s, step) && step.OpenFile? && DirectoryWhole(init, s, dests, s.dir)
    ensures ReaderSees(init, s, dests, Apply(s, step).readers[step.r])
  {
  }

  lemma ReadingReaderSees(init: World, s: World, step: Step, dests: set<Name>)
    requires Enabled(s, step) && (step.ReadMore? || step.EndOfFile?)
    requires ReaderSees(init, s, dests, s.readers[step.r])
    ensures ReaderSees(init, s, dests, Apply(s, step).readers[step.r])
  {
    var reader := s.readers[step.r];
    if step.EndOfFile? && reader.name in dests {
      assert reader.got == s.data[reader.inode];
    }
  }

  lemma ReaderKept(init: World, s: World, step: Step, dests: set<Name>, r: nat)
    requires Inv(init, s, dests) && Enabled(s, step) && r in Apply(s, step).readers
    ensures ReaderSees(init, Apply(s, step), dests, Apply(s, step).readers[r])
  {
    var s' := Apply(s, step);
    SyncedFilesNeverChange(init, s, step, dests);
    assert ReaderSees(init, s, dests, s'.readers[r]) by {
      if step.OpenFile? && step.r == r {
        assert DirectoryWhole(init, s, dests, s.dir);
        OpenedReaderSees(init, s, step, dests);
      } else {
        assert ReaderSees(init, s, dests, s.readers[r]);
        if (step.ReadMore? || step.EndOfFile?) && step.r == r {
          ReadingReaderSees(init, s, step, dests);
        }
      }
    }
    BystanderKept(init, s, s', dests, s'.readers[r]);
  }

  lemma WriterStaysFixed(s: World, step: Step, w: nat)
    requires Enabled(s, step)
    ensures var s' := Apply(s, step);
            && (w in s'.writers <==> w in s.writers)
            && (w in s.writers ==>
                  s'.writers[w].dest == s.writers[w].dest && s'.writers[w].contents == s.writers[w].contents)
  {
  }

  lemma WritersStayFixed(init: World, s: World, step: Step, dests: set<Name>)
    requires WritersFixed(init, s, dests) && Enabled(s, step)
    ensures WritersFixed(init, Apply(s, step), dests)
  {
    var s' := Apply(s, step);
    forall w ensures w in s'.writers <==> w in init.writers {
      WriterStaysFixed(s, step, w);
    }
    forall w | w in s'.writers
      ensures && s'.writers[w].dest == init.writers[w].dest && s'.writers[w].contents == init.writers[w].contents
              && s'.writers[w].dest in dests
    {
      WriterStaysFixed(s, step, w);
    }
  }

  lemma DirectoriesKept(init: World, s: World, step: Step, dests: set<Name>)
    requires Separate(dests) && Inv(init, s, dests) && Enabled(s, step)
    ensures DirectoriesWhole(init, Apply(s, step), dests)
  {
    var s' := Apply(s, step);
    SyncedFilesNeverChange(init, s, step, dests);
    forall dir | dir in s.past ensures DirectoryWhole(init, s', dests, dir) {
      assert DirectoryWhole(init, s, dests, dir);
      WholeDirectoryKept(init, s, s', dests, dir);
    }
    NewDirectoryWhole(init, s, step, dests);
  }

  lemma StepKeepsInv(init: World, s: World, step: Step, dests: set<Name>)
    requires Separate(dests) && Inv(init, s, dests) && Enabled(s, step)
    ensures Inv(init, Apply(s, step), dests)
  {
    var s' := Apply(s, step);
    DirectoriesKept(init, s, step, dests);
    WritersStayFixed(init, s, step, dests);
    assert WritersOwn(s', dests) by {
      forall w | w in s'.writers ensures WriterOwns(s', dests, w) {
        WriterStaysFixed(s, step, w);
        WriterKept(init, s, step, dests, w);
      }
      forall v, w | v in s'.writers && w in s'.writers && v != w
        ensures Apart(s'.writers[v].phase, s'.writers[w].phase)
      {
        WritersStayApart(s, step, dests, v, w);
      }
    }
    assert ReadersSee(init, s', dests) by {
      forall r | r in s'.readers ensures ReaderSees(init, s', dests, s'.readers[r]) {
        ReaderKept(init, s, step, dests, r);
      }
    }
  }

  // ---------------------------------------------------------------------------------------------
  // What every run guarantees
  // ---------------------------------------------------------------------------------------------

  ghost predicate IsRun(s: World, steps: seq<Step>)
    decreases |steps|
  {
    steps != [] ==> Enabled(s, steps[0]) && IsRun(Apply(s, steps[0]), steps[1..])
  }

  ghost function Run(s: World, steps: seq<Step>): World
    requires IsRun(s, steps)
    decreases |steps|
  {
    if steps == [] then s else Run(Apply(s, steps[0]), steps[1..])
  }

  lemma InitMeetsInv(init: World, dests: set<Name>)
    requires Init(init, dests)
    ensures Inv(init, init, dests)
  {
    assert forall w :: w in init.writers ==> WriterOwns(init, dests, w);
  }

  lemma {:induction false} RunKeepsInv(init: World, s: World, steps: seq<Step>, dests: set<Name>)
    requires Separate(dests) && Inv(init, s, dests) && IsRun(s, steps)
    ensures Inv(init, Run(s, steps), dests)
    decreases |steps|
  {
    if steps != [] {
      StepKeepsInv(init, s, steps[0], dests);
      RunKeepsInv(init, Apply(s, steps[0]), steps[1..], dests);
    }
  }

  /**
   A finished read of a destination returns exactly the bytes the file had when it was opened, and these are its
   first bytes or the whole argument of one call; it finds no file only if there was none to begin with.
   */
  lemma ReadsAreWhole(init: World, steps: seq<Step>, dests: set<Name>, r: nat)
    requires Init(init, dests) && IsRun(init, steps)
    requires var s := Run(init, steps); r in s.readers && s.readers[r].Finished? && s.readers[r].name in dests
    ensures var reader := Run(init, steps).readers[r];
            && reader.bytes == reader.atOpen
            && (reader.bytes.Some? ==> Whole(init, reader.name, reader.bytes.value))
            && (reader.bytes.None? ==> reader.name !in init.dir)
  {
    InitMeetsInv(init, dests);
    RunKeepsInv(init, init, steps, dests);
    var s := Run(init, steps);
    assert ReaderSees(init, s, dests, s.readers[r]);
  }

  /** In every reachable state, also just after a crash, a destination holds whole bytes. */
  lemma DestinationsStayWhole(init: World, steps: seq<Step>, dests: set<Name>, d: Name)
    requires Init(init, dests) && IsRun(init, steps) && d in dests
    ensures var bytes := BytesAt(Run(init, steps), d);
            && (bytes.Some? ==> Whole(init, d, bytes.value))
            && (bytes.None? ==> d !in init.dir)
  {
    InitMeetsInv(init, dests);
    RunKeepsInv(init, init, steps, dests);
    var s := Run(init, steps);
    assert DirectoryWhole(init, s, dests, s.dir);
  }

  /** A successful rename puts the caller's own bytes in place and touches no other destination. */
  lemma RenameInstallsOwnBytes(init: World, steps: seq<Step>, dests: set<Name>, w: nat)
    requires Init(init, dests) && IsRun(init, steps) && Enabled(Run(init, steps), Rename(w))
    ensures var s := Run(init, steps);
            var s' := Apply(s, Rename(w));
            && w in init.writers
            && BytesAt(s', init.writers[w].dest) == Some(init.writers[w].contents)
            && forall d :: d in dests && d != init.writers[w].dest ==> BytesAt(s', d) == BytesAt(s, d)
  {
    InitMeetsInv(init, dests);
    RunKeepsInv(init, init, steps, dests);
    assert WriterOwns(Run(init, steps), dests, w);
  }

  lemma StepKeepsDestination(s: World, dests: set<Name>, step: Step, d: Name)
    requires Enabled(s, step) && d in dests && !step.PowerLoss?
    requires d in s.dir ==> s.dir[d] in s.data && s.dir[d] in s.durable
    requires IsWriterStep(step) ==> s.writers[step.w].dest in dests && WriterOwns(s, dests, step.w)
    requires step.Create? ==> StagingName(s.writers[step.w].dest, step.tag) !in dests
    requires step.Rename? ==> s.writers[step.w].dest != d
    ensures BytesAt(Apply(s, step), d) == BytesAt(s, d)
  {
  }

  /** Nothing but a rename onto it, or a power loss, changes what a destination holds. */
  lemma OnlyRenameChangesDestination(init: World, steps: seq<Step>, dests: set<Name>, step: Step, d: Name)
    requires Init(init, dests) && IsRun(init, steps) && Enabled(Run(init, steps), step)
    requires d in dests && !step.PowerLoss?
    requires step.Rename? ==> Run(init, steps).writers[step.w].dest != d
    ensures BytesAt(Apply(Run(init, steps), step), d) == BytesAt(Run(init, steps), d)
  {
    InitMeetsInv(init, dests);
    RunKeepsInv(init, init, steps, dests);
    var s := Run(init, steps);
    assert DirectoryWhole(init, s, dests, s.dir);
    StepKeepsDestination(s, dests, step, d);
  }

  // ---------------------------------------------------------------------------------------------
  // What the machine allows
  // ---------------------------------------------------------------------------------------------

  lemma SingleStep(s: World, step: Step)
    requires Enabled(s, step)
    ensures IsRun(s, [step]) && Run(s, [step]) == Apply(s, step)
  {
    var s', rest := Apply(s, step), [step][1..];
    assert rest == [] && IsRun(s', rest) && Run(s', rest) == s';
  }

  lemma OneMoreStep(s: World, step: Step, steps: seq<Step>)
    requires Enabled(s, step) && IsRun(Apply(s, step), steps)
    ensures IsRun(s, [step] + steps) && Run(s, [step] + steps) == Run(Apply(s, step), steps)
  {
    assert ([step] + steps)[1..] == steps;
  }

  lemma {:induction false} RunSplits(s: World, steps: seq<Step>, k: nat)
    requires IsRun(s, steps) && k <= |steps|
    ensures IsRun(s, steps[..k]) && IsRun(Run(s, steps[..k]), steps[k..])
    ensures Run(s, steps) == Run(Run(s, steps[..k]), steps[k..])
    decreases |steps|
  {
    if k == 0 {
      assert steps[..0] == [] && steps[0..] == steps;
    } else {
      var s1, tail := Apply(s, steps[0]), steps[1..];
      RunSplits(s1, tail, k - 1);
      OneMoreStep(s, steps[0], tail[..k - 1]);
      assert [steps[0]] + tail[..k - 1] == steps[..k] && tail[k - 1..] == steps[k..];
      assert Run(s, steps) == Run(s1, tail);
    }
  }

  lemma StepKeepsPast(s: World, step: Step)
    requires Enabled(s, step) && s.dir in s.past
    ensures s.past <= Apply(s, step).past && Apply(s, step).dir in Apply(s, step).past
  {
  }

  lemma {:induction false} RunKeepsPast(s: World, steps: seq<Step>)
    requires IsRun(s, steps) && s.dir in s.past
    ensures s.past <= Run(s, steps).past && Run(s, steps).dir in Run(s, steps).past
    decreases |steps|
  {
    if steps != [] {
      StepKeepsPast(s, steps[0]);
      RunKeepsPast(Apply(s, steps[0]), steps[1..]);
    }
  }

  /** The directory is never synced: after any run, a power loss can bring back that of any moment of the run. */
  lemma LossGoesBack(init: World, steps: seq<Step>, dests: set<Name>, k: nat)
    requires Init(init, dests) && IsRun(init, steps) && k <= |steps|
    ensures IsRun(init, steps[..k])
    ensures var f := Run(init, steps);
            var loss := PowerLoss(Run(init, steps[..k]).dir, f.data);
            && Enabled(f, loss)
            && Apply(f, loss).dir == Run(init, steps[..k]).dir && Apply(f, loss).data == f.data
  {
    RunSplits(init, steps, k);
    RunKeepsPast(init, steps[..k]);
    RunKeepsPast(Run(init, steps[..k]), steps[k..]);
  }

  /** With it, a file that was not synced can come back with any bytes. */
  lemma LossIsArbitrary(init: World, steps: seq<Step>, dests: set<Name>, k: nat, w: nat, bytes: Bytes)
    requires Init(init, dests) && IsRun(init, steps) && k <= |steps|
    requires w in Run(init, steps).writers && Run(init, steps).writers[w].phase.Writing?
    ensures IsRun(init, steps[..k])
    ensures var f := Run(init, steps);
            var data := f.data[f.writers[w].phase.inode := bytes];
            var loss := PowerLoss(Run(init, steps[..k]).dir, data);
            Enabled(f, loss) && Apply(f, loss).dir == Run(init, steps[..k]).dir && Apply(f, loss).data == data
  {
    LossGoesBack(init, steps, dests, k);
    InitMeetsInv(init, dests);
    RunKeepsInv(init, init, steps, dests);
    assert WriterOwns(Run(init, steps), dests, w);
  }

  /**
   A step is one process's own: a writer's step leaves all other writers and all readers as they are, a reader's step
   all files and writers and all other readers. Only a sync makes a file
   safe.
   */
  lemma StepsAreLocal(s: World, step: Step)
    requires Enabled(s, step) && !step.PowerLoss?
    ensures var s' := Apply(s, step);
            if IsWriterStep(step) then
              && s'.readers == s.readers && s'.writers - {step.w} == s.writers - {step.w}
              && s'.durable == if step.Sync? then s.durable + {s.writers[step.w].phase.inode} else s.durable
            else
              && s'.readers - {step.r} == s.readers - {step.r}
              && s'.dir == s.dir && s'.data == s.data && s'.durable == s.durable && s'.writers == s.writers
  {
  }

  /** A kill ends one writer and touches no file; a power loss ends all that had begun, and all readers under way. */
  lemma EndingRules(s: World, step: Step)
    requires Enabled(s, step) && (step.Kill? || step.PowerLoss?)
    ensures var s' := Apply(s, step);
            && s'.durable == s.durable && s'.past == s.past && s'.writers.Keys == s.writers.Keys
            && (step.Kill? ==> s'.dir == s.dir && s'.data == s.data && s'.writers[step.w].phase == Dead)
            && (step.PowerLoss? ==>
                  && s'.dir == step.dir && s'.data == step.data
                  && (forall r :: r in s'.readers <==> r in s.readers && s.readers[r].Finished?)
                  && (forall r :: r in s'.readers ==> s'.readers[r] == s.readers[r])
                  && forall w :: w in s.writers ==>
                       s'.writers[w].phase == if s.writers[w].phase.Ready? then Ready else Dead)
  {
  }

  /** The dead do nothing more, in any run. */
  lemma {:induction false} DeadStayDead(s: World, steps: seq<Step>, w: nat)
    requires IsRun(s, steps) && w in s.writers && s.writers[w].phase == Dead
    ensures w in Run(s, steps).writers && Run(s, steps).writers[w].phase == Dead
    decreases |steps|
  {
    if steps != [] {
      DeadStayDead(Apply(s, steps[0]), steps[1..], w);
    }
  }

  /** No writer ever waits for another: in every reachable state each can make its next call. */
  lemma WriterCanGoOn(init: World, steps: seq<Step>, dests: set<Name>, w: nat, tag: string, inode: Inode, upTo: nat)
    requires Init(init, dests) && IsRun(init, steps) && w in Run(init, steps).writers
    ensures var f := Run(init, steps);
            var Writer(_, contents, phase) := f.writers[w];
            && (phase.Ready? && inode !in f.data ==> Enabled(f, Create(w, tag, inode)))
            && (phase.Writing? ==> phase.inode in f.data && f.data[phase.inode] <= contents)
            && (phase.Writing? && |f.data[phase.inode]| < upTo <= |contents| ==> Enabled(f, Append(w, upTo)))
            && (phase.Writing? && f.data[phase.inode] == contents ==> Enabled(f, Sync(w)))
            && (phase.Synced? ==> Enabled(f, Rename(w)))
            && (phase.Discarding? ==> Enabled(f, Discard(w)))
  {
    InitMeetsInv(init, dests);
    RunKeepsInv(init, init, steps, dests);
    assert WriterOwns(Run(init, steps), dests, w);
  }

  /** Whatever call a writer is about to make can be refused, and then the destinations stay as they are. */
  lemma CallsCanBeRefused(s: World, w: nat)
    requires w in s.writers && !s.writers[w].phase.Returned? && !s.writers[w].phase.Dead?
    ensures Enabled(s, Refuse(w))
    ensures var s' := Apply(s, Refuse(w));
            && s'.dir == s.dir && s'.data == s.data && w in s'.writers
            && (s'.writers[w].phase.Discarding? <==> s.writers[w].phase.Synced?)
            && (!s'.writers[w].phase.Discarding? ==> s'.writers[w].phase == Returned(false))
  {
  }

  /** A reader that has read a first piece of its file can go on to the end, and then has all of it. */
  lemma ReadCanFinish(s: World, r: nat) returns (steps: seq<Step>)
    requires r in s.readers && s.readers[r].Reading? && s.readers[r].inode in s.data
    requires s.readers[r].got <= s.data[s.readers[r].inode]
    ensures IsRun(s, steps)
    ensures var s' := Run(s, steps);
            && s'.dir == s.dir && s'.data == s.data && r in s'.readers
            && s'.readers[r] == Finished(s.readers[r].name, Some(s.data[s.readers[r].inode]), s.readers[r].atOpen)
  {
    var bytes := s.data[s.readers[r].inode];
    if s.readers[r].got == bytes {
      SingleStep(s, EndOfFile(r));
      steps := [EndOfFile(r)];
    } else {
      var s1 := Apply(s, ReadMore(r, |bytes|));
      assert bytes[..|bytes|] == bytes;
      SingleStep(s1, EndOfFile(r));
      OneMoreStep(s, ReadMore(r, |bytes|), [EndOfFile(r)]);
      steps := [ReadMore(r, |bytes|)] + [EndOfFile(r)];
    }
  }

  /** Anyone can read any name at any time, and alone gets what is there. */
  lemma AnyoneCanRead(s: World, r: nat, name: Name) returns (steps: seq<Step>)
    requires r !in s.readers && (name in s.dir ==> s.dir[name] in s.data)
    ensures IsRun(s, steps)
    ensures var s' := Run(s, steps);
            && s'.dir == s.dir && s'.data == s.data && r in s'.readers
            && s'.readers[r] == Finished(name, BytesAt(s, name), BytesAt(s, name))
  {
    var s1 := Apply(s, OpenFile(r, name));
    if name in s.dir {
      var rest := ReadCanFinish(s1, r);
      OneMoreStep(s, OpenFile(r, name), rest);
      steps := [OpenFile(r, name)] + rest;
    } else {
      SingleStep(s, OpenFile(r, name));
      steps := [OpenFile(r, name)];
    }
  }

  /** A call reports success by its rename and by no other step. */
  lemma OnlyRenameSucceeds(s: World, step: Step, w: nat)
    requires Enabled(s, step) && w in s.writers && s.writers[w].phase != Returned(true)
    ensures w in Apply(s, step).writers
    ensures Apply(s, step).writers[w].phase == Returned(true) <==> step == Rename(w)
  {
  }
}
