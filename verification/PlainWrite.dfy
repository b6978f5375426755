/**
 The file write on other systems than Unix: the staging file is opened for writing, which creates it or empties the
 file that is there, it is filled and closed, never synced, and renamed over the destination.

 Writers and readers interleave as in `AtomicWrite`, with the same refusals, kills and power losses. Since two
 writers can now hold one file, each keeps its own position in it. Destinations stay whole as long as nobody opens
 a staging file that another writer is about to rename, and no power loss follows a rename; the last part of the
 module shows that either one is enough to break a destination.
 */
module PlainWrite {
  import opened Wrappers
  import opened Staging

  // ---------------------------------------------------------------------------------------------
  // The machine
  // ---------------------------------------------------------------------------------------------

  datatype Phase =
    | Ready
    | Writing(staging: Name, inode: Inode, pos: nat)
    | Written(staging: Name, inode: Inode)
    | Discarding(staging: Name)        // the rename was refused
    | Returned(ok: bool)
    | Dead
  {
    /** May still rename its staging file. */
    predicate IsLive() {
      Writing? || Written?
    }
  }

  datatype Writer = Writer(dest: Name, contents: Bytes, phase: Phase)

  datatype World = World(
    dir: Directory,
    data: map<Inode, Bytes>,
    durable: set<Inode>,
    past: set<Directory>,
    writers: map<nat, Writer>,
    readers: map<nat, Reader>)

  datatype Step =
    | Open(w: nat, tag: string, inode: Inode)
    | Write(w: nat, upTo: nat)
    | Close(w: nat)
    | Rename(w: nat)
    | Refuse(w: nat)                 // the call the writer is about to make fails
    | Discard(w: nat)
    | Kill(w: nat)
    | OpenFile(r: nat, name: Name)
    | ReadMore(r: nat, upTo: nat)
    | EndOfFile(r: nat)
    | PowerLoss(dir: Directory, data: map<Inode, Bytes>)
  {
    predicate IsWriters() {
      !OpenFile? && !ReadMore? && !EndOfFile? && !PowerLoss?
    }
  }

  /** A write at a position of its own; a gap before it is filled with zeros. */
  function WriteAt(bytes: Bytes, pos: nat, chunk: Bytes): Bytes {
    (if pos <= |bytes| then bytes[..pos] else bytes + seq(pos - |bytes|, _ => 0))
    + chunk
    + (if pos + |chunk| <= |bytes| then bytes[pos + |chunk|..] else [])
  }

  function BytesAt(s: World, name: Name): Option<Bytes> {
    if name in s.dir && s.dir[name] in s.data then Some(s.data[s.dir[name]]) else None
  }

  ghost predicate Enabled(s: World, step: Step) {
    match step
    case Open(w, _, inode) => w in s.writers && s.writers[w].phase.Ready? && inode !in s.data
    case Write(w, upTo) =>
      && w in s.writers && s.writers[w].phase.Writing? && s.writers[w].phase.inode in s.data
      && s.writers[w].phase.pos < upTo <= |s.writers[w].contents|
    case Close(w) =>
      && w in s.writers && s.writers[w].phase.Writing?
      && s.writers[w].phase.pos == |s.writers[w].contents|
    case Rename(w) => w in s.writers && s.writers[w].phase.Written? && s.writers[w].phase.staging in s.dir
    case Refuse(w) =>
      w in s.writers && var phase := s.writers[w].phase; phase.Ready? || phase.IsLive() || phase.Discarding?
    case Discard(w) => w in s.writers && s.writers[w].phase.Discarding?
    case Kill(w) => w in s.writers
    case OpenFile(r, name) => r !in s.readers && (name in s.dir ==> s.dir[name] in s.data)
    case ReadMore(r, upTo) =>
      && r in s.readers && s.readers[r].Reading? && s.readers[r].inode in s.data
      && |s.readers[r].got| < upTo <= |s.data[s.readers[r].inode]|
    case EndOfFile(r) =>
      && r in s.readers && s.readers[r].Reading? && s.readers[r].inode in s.data
      && |s.readers[r].got| >= |s.data[s.readers[r].inode]|
    case PowerLoss(dir, data) =>
      && dir in s.past && data.Keys == s.data.Keys
      && (forall i :: i in s.durable && i in data ==> data[i] == s.data[i])
  }

  function WithPhase(s: World, w: nat, phase: Phase): World
    requires w in s.writers
  {
    s.(writers := s.writers[w := s.writers[w].(phase := phase)])
  }

  function WithDir(s: World, dir: Directory): World {
    s.(dir := dir, past := s.past + {dir})
  }

  /** The file an open gets: the one under the staging name, or else a new one. */
  function Opened(s: World, staging: Name, inode: Inode): Inode {
    if staging in s.dir then s.dir[staging] else inode
  }

  ghost function Apply(s: World, step: Step): World
    requires Enabled(s, step)
  {
    match step
    case Open(w, tag, inode) =>
      var staging := StagingName(s.writers[w].dest, tag);
      var i := Opened(s, staging, inode);
      WithDir(WithPhase(s, w, Writing(staging, i, 0)), s.dir[staging := i])
      .(data := s.data[i := []], durable := s.durable - {i})
    case Write(w, upTo) =>
      var Writing(staging, i, pos) := s.writers[w].phase;
      WithPhase(s, w, Writing(staging, i, upTo))
      .(data := s.data[i := WriteAt(s.data[i], pos, s.writers[w].contents[pos..upTo])], durable := s.durable - {i})
    case Close(w) =>
      WithPhase(s, w, Written(s.writers[w].phase.staging, s.writers[w].phase.inode))
    case Rename(w) =>
      var staging := s.writers[w].phase.staging;
      WithDir(WithPhase(s, w, Returned(true)), (s.dir - {staging})[s.writers[w].dest := s.dir[staging]])
    case Refuse(w) =>
      var phase := s.writers[w].phase;
      WithPhase(s, w, if phase.Written? then Discarding(phase.staging) else Returned(false))
    case Discard(w) =>
      WithDir(WithPhase(s, w, Returned(false)), s.dir - {s.writers[w].phase.staging})
    case Kill(w) => WithPhase(s, w, Dead)
    case OpenFile(r, name) =>
      var reader := if name in s.dir
                    then Reading(name, s.dir[name], [], BytesAt(s, name))
                    else Finished(name, None, None);
      s.(readers := s.readers[r := reader])
    case ReadMore(r, upTo) =>
      s.(readers := s.readers[r := s.readers[r].(got := s.data[s.readers[r].inode][..upTo])])
    case EndOfFile(r) =>
      var Reading(name, _, got, atOpen) := s.readers[r];
      s.(readers := s.readers[r := Finished(name, Some(got), atOpen)])
    case PowerLoss(dir, data) =>
      World(dir, data, s.durable, s.past,
            map w | w in s.writers :: if s.writers[w].phase.Ready? then s.writers[w] else s.writers[w].(phase := Dead),
            map r | r in s.readers && s.readers[r].Finished? :: s.readers[r])
  }

  ghost predicate IsRun(s: World, steps: seq<Step>)
    decreases |steps|
  {
    steps != [] ==> Enabled(s, steps[0]) && IsRun(Apply(s, steps[0]), steps[1..])
  }

  ghost function Run(s: World, steps: seq<Step>): World
    requires IsRun(s, steps)
    decreases |steps|
  {
    if steps == [] then s else Run(Apply(s, steps[0]), steps[1..])
  }

  // ---------------------------------------------------------------------------------------------
  // The condition
  // ---------------------------------------------------------------------------------------------

  predicate IsUsing(s: World, v: nat, staging: Name) {
    v in s.writers && s.writers[v].phase.IsLive() && s.writers[v].phase.staging == staging
  }

  /** The step opens the staging file of another writer that may still rename it. */
  ghost predicate Clashes(s: World, step: Step)
    requires Enabled(s, step)
  {
    step.Open? && exists v :: IsUsing(s, v, StagingName(s.writers[step.w].dest, step.tag)) && v != step.w
  }

  /** No clash, and no power loss after a rename; `renamed` says whether there has been one before. */
  ghost predicate IsCareful(s: World, steps: seq<Step>, renamed: bool)
    decreases |steps|
  {
    steps != [] ==>
      && Enabled(s, steps[0]) && !Clashes(s, steps[0]) && !(renamed && steps[0].PowerLoss?)
      && IsCareful(Apply(s, steps[0]), steps[1..], renamed || steps[0].Rename?)
  }

  // ---------------------------------------------------------------------------------------------
  // The invariant
  // ---------------------------------------------------------------------------------------------

  ghost predicate Whole(init: World, name: Name, bytes: Bytes) {
    || BytesAt(init, name) == Some(bytes)
    || exists w :: w in init.writers && init.writers[w].dest == name && init.writers[w].contents == bytes
  }

  /** Every name has a file, and no two names share one. */
  ghost predicate NoLinks(dir: Directory, data: map<Inode, Bytes>) {
    && (forall name :: name in dir ==> dir[name] in data)
    && (forall a, b :: a in dir && b in dir && dir[a] == dir[b] ==> a == b)
  }

  ghost predicate Init(s: World, dests: set<Name>) {
    && Separate(dests)
    && (forall w :: w in s.writers ==> s.writers[w].phase.Ready? && s.writers[w].dest in dests)
    && s.readers == map[]
    && s.past == {s.dir}
    && s.durable == s.data.Keys
    && NoLinks(s.dir, s.data)
  }

  ghost predicate DirectoryWhole(init: World, s: World, dests: set<Name>) {
    && NoLinks(s.dir, s.data)
    && (forall d :: d in dests && d in s.dir ==> Whole(init, d, s.data[s.dir[d]]))
    && (forall d :: d in dests && d in init.dir ==> d in s.dir)
  }

  ghost predicate WritersFixed(init: World, s: World, dests: set<Name>) {
    && s.writers.Keys == init.writers.Keys
    && forall w :: w in s.writers ==>
         && s.writers[w].dest == init.writers[w].dest && s.writers[w].contents == init.writers[w].contents
         && s.writers[w].dest in dests
  }

  /** A live writer's file has no name but its staging name and holds what was written so far. */
  ghost predicate Owns(s: World, dests: set<Name>, writer: Writer) {
    var phase := writer.phase;
    && (phase.IsLive() || phase.Discarding? ==> phase.staging !in dests)
    && (phase.IsLive() ==>
      && phase.inode in s.data && phase.inode !in s.durable
      && (forall name :: name in s.dir ==> (s.dir[name] == phase.inode <==> name == phase.staging))
      && (phase.Writing? ==> phase.pos <= |writer.contents| && s.data[phase.inode] == writer.contents[..phase.pos])
      && (phase.Written? ==> s.data[phase.inode] == writer.contents))
  }

  predicate Apart(p: Phase, q: Phase) {
    p.IsLive() && q.IsLive() ==> p.staging != q.staging && p.inode != q.inode
  }

  ghost predicate WritersOwn(s: World, dests: set<Name>) {
    && (forall w :: w in s.writers ==> Owns(s, dests, s.writers[w]))
    && (forall v, w :: v in s.writers && w in s.writers && v != w ==> Apart(s.writers[v].phase, s.writers[w].phase))
  }

  /** No live writer has file `i`, and no name that a writer could open. */
  ghost predicate Settled(s: World, dests: set<Name>, i: Inode) {
    && i in s.data
    && (forall w :: w in s.writers && s.writers[w].phase.IsLive() ==> s.writers[w].phase.inode != i)
    && (forall name :: name in s.dir && s.dir[name] == i ==> name in dests)
  }

  ghost predicate ReaderSees(init: World, s: World, dests: set<Name>, reader: Reader) {
    reader.name in dests ==>
      if reader.Reading? then
        && Settled(s, dests, reader.inode)
        && reader.got <= s.data[reader.inode]
        && reader.atOpen == Some(s.data[reader.inode])
        && Whole(init, reader.name, s.data[reader.inode])
      else
        && reader.bytes == reader.atOpen
        && (reader.bytes.Some? ==> Whole(init, reader.name, reader.bytes.value))
        && (reader.bytes.None? ==> reader.name !in init.dir)
  }

  ghost predicate ReadersSee(init: World, s: World, dests: set<Name>) {
    forall r :: r in s.readers ==> ReaderSees(init, s, dests, s.readers[r])
  }

  /** The directory has the destinations it began with. */
  ghost predicate Unrenamed(init: World, s: World, dests: set<Name>, dir: Directory) {
    && NoLinks(dir, s.data)
    && (forall d :: d in dests ==> (d in dir <==> d in init.dir))
    && (forall d :: d in dests && d in dir ==> dir[d] == init.dir[d])
  }

  /** Before any rename, every directory the disk can fall back to has the destinations it began with, untouched. */
  ghost predicate PastUnrenamed(init: World, s: World, dests: set<Name>) {
    && (forall dir :: dir in s.past ==> Unrenamed(init, s, dests, dir))
    && (forall d :: d in dests && d in init.dir ==>
          var i := init.dir[d];
          i in init.data && i in s.durable && i in s.data && s.data[i] == init.data[i])
  }

  predicate Unsynced(s: World, dests: set<Name>, d: Name) {
    d in dests && d in s.dir && s.dir[d] in s.data && s.dir[d] !in s.durable
  }

  /** After a rename some destination is not safe on disk, and never will be. */
  ghost predicate SomeUnsynced(s: World, dests: set<Name>) {
    exists d :: Unsynced(s, dests, d)
  }

  ghost predicate Inv(init: World, s: World, dests: set<Name>, renamed: bool) {
    && s.dir in s.past
    && DirectoryWhole(init, s, dests) && WritersFixed(init, s, dests) && WritersOwn(s, dests)
    && ReadersSee(init, s, dests)
    && (if renamed then SomeUnsynced(s, dests) else PastUnrenamed(init, s, dests))
  }

  // ---------------------------------------------------------------------------------------------
  // Every careful step keeps it
  // ---------------------------------------------------------------------------------------------

  /** A file no destination has, no live writer but perhaps `w`, and no reader of a destination. */
  ghost predicate IsFree(s: World, dests: set<Name>, w: nat, i: Inode) {
    && (forall d :: d in dests && d in s.dir ==> s.dir[d] != i)
    && (forall v :: v in s.writers && v != w && s.writers[v].phase.IsLive() ==> s.writers[v].phase.inode != i)
    && (forall r :: r in s.readers && s.readers[r].Reading? && s.readers[r].name in dests ==> s.readers[r].inode != i)
  }

  lemma OpenedIsFree(init: World, s: World, dests: set<Name>, step: Step)
    requires Enabled(s, step) && step.Open? && !Clashes(s, step)
    requires NoLinks(s.dir, s.data) && WritersOwn(s, dests) && ReadersSee(init, s, dests)
    requires StagingName(s.writers[step.w].dest, step.tag) !in dests
    ensures IsFree(s, dests, step.w, Opened(s, StagingName(s.writers[step.w].dest, step.tag), step.inode))
  {
    var staging := StagingName(s.writers[step.w].dest, step.tag);
    var i := Opened(s, staging, step.inode);
    forall v | v in s.writers && v != step.w && s.writers[v].phase.IsLive() ensures s.writers[v].phase.inode != i {
      assert Owns(s, dests, s.writers[v]);
      assert !IsUsing(s, v, staging);
    }
    forall r | r in s.readers && s.readers[r].Reading? && s.readers[r].name in dests
      ensures s.readers[r].inode != i
    {
      assert ReaderSees(init, s, dests, s.readers[r]);
    }
  }

  lemma OwnedIsFree(init: World, s: World, dests: set<Name>, w: nat)
    requires w in s.writers && s.writers[w].phase.IsLive() && WritersOwn(s, dests) && ReadersSee(init, s, dests)
    ensures IsFree(s, dests, w, s.writers[w].phase.inode)
  {
    assert Owns(s, dests, s.writers[w]);
    forall v | v in s.writers && v != w && s.writers[v].phase.IsLive()
      ensures s.writers[v].phase.inode != s.writers[w].phase.inode
    {
      assert Apart(s.writers[v].phase, s.writers[w].phase);
    }
    forall r | r in s.readers && s.readers[r].Reading? && s.readers[r].name in dests
      ensures s.readers[r].inode != s.writers[w].phase.inode
    {
      assert ReaderSees(init, s, dests, s.readers[r]);
    }
  }

  /** The file a step changes, if any. */
  function Changed(s: World, step: Step): Option<Inode>
    requires step.Open? || step.Write? ==> step.w in s.writers
    requires step.Write? ==> s.writers[step.w].phase.Writing?
  {
    match step
    case Open(w, tag, inode) => Some(Opened(s, StagingName(s.writers[w].dest, tag), inode))
    case Write(w, _) => Some(s.writers[w].phase.inode)
    case _ => None
  }

  ghost predicate ChangesFree(s: World, dests: set<Name>, step: Step)
    requires Enabled(s, step) && step.IsWriters()
  {
    Changed(s, step).Some? ==> IsFree(s, dests, step.w, Changed(s, step).value)
  }

  lemma StepChangesFree(init: World, s: World, dests: set<Name>, step: Step)
    requires Separate(dests) && Enabled(s, step) && step.IsWriters() && !Clashes(s, step)
    requires NoLinks(s.dir, s.data) && WritersFixed(init, s, dests) && WritersOwn(s, dests)
    requires ReadersSee(init, s, dests)
    ensures ChangesFree(s, dests, step)
  {
    match step
    case Open(w, tag, _) =>
      assert s.writers[w].dest in dests;
      OpenedIsFree(init, s, dests, step);
    case Write(w, _) => OwnedIsFree(init, s, dests, w);
    case _ =>
  }

  lemma OpenKeepsDirectory(init: World, s: World, dests: set<Name>, step: Step)
    requires Enabled(s, step) && step.Open? && ChangesFree(s, dests, step) && DirectoryWhole(init, s, dests)
    requires StagingName(s.writers[step.w].dest, step.tag) !in dests
    ensures DirectoryWhole(init, Apply(s, step), dests)
  {
  }

  lemma WriteKeepsDirectory(init: World, s: World, dests: set<Name>, step: Step)
    requires Enabled(s, step) && step.Write? && ChangesFree(s, dests, step) && DirectoryWhole(init, s, dests)
    ensures DirectoryWhole(init, Apply(s, step), dests)
  {
  }

  lemma RenameKeepsDirectory(init: World, s: World, dests: set<Name>, step: Step)
    requires Enabled(s, step) && step.Rename? && DirectoryWhole(init, s, dests)
    requires WritersFixed(init, s, dests) && Owns(s, dests, s.writers[step.w])
    ensures DirectoryWhole(init, Apply(s, step), dests)
  {
    var writer := s.writers[step.w];
    assert Whole(init, writer.dest, writer.contents) by {
      assert init.writers[step.w].dest == writer.dest;
    }
  }

  lemma OtherStepKeepsDirectory(init: World, s: World, dests: set<Name>, step: Step)
    requires Enabled(s, step) && step.IsWriters() && !step.Open? && !step.Write? && !step.Rename?
    requires DirectoryWhole(init, s, dests) && Owns(s, dests, s.writers[step.w])
    ensures DirectoryWhole(init, Apply(s, step), dests)
  {
  }

  lemma DirectoryKept(init: World, s: World, dests: set<Name>, step: Step)
    requires Separate(dests) && Enabled(s, step) && step.IsWriters() && ChangesFree(s, dests, step)
    requires DirectoryWhole(init, s, dests) && WritersFixed(init, s, dests) && Owns(s, dests, s.writers[step.w])
    ensures DirectoryWhole(init, Apply(s, step), dests)
  {
    match step
    case Open(_, _, _) => OpenKeepsDirectory(init, s, dests, step);
    case Write(_, _) => WriteKeepsDirectory(init, s, dests, step);
    case Rename(_) => RenameKeepsDirectory(init, s, dests, step);
    case _ => OtherStepKeepsDirectory(init, s, dests, step);
  }

  lemma ActingWriterKept(s: World, dests: set<Name>, step: Step)
    requires Separate(dests) && Enabled(s, step) && step.IsWriters() && NoLinks(s.dir, s.data)
    requires s.writers[step.w].dest in dests && Owns(s, dests, s.writers[step.w])
    ensures Owns(Apply(s, step), dests, Apply(s, step).writers[step.w])
  {
    var writer := s.writers[step.w];
    match step
    case Open(_, tag, _) => assert StagingName(writer.dest, tag) !in dests;
    case Write(_, upTo) =>
      var pos := writer.phase.pos;
      assert writer.contents[..pos] + writer.contents[pos..upTo] == writer.contents[..upTo];
    case Close(_) => assert writer.contents[..writer.phase.pos] == writer.contents;
    case _ =>
  }

  lemma OtherWriterKept(s: World, dests: set<Name>, step: Step, v: nat)
    requires Enabled(s, step) && step.IsWriters() && !Clashes(s, step) && ChangesFree(s, dests, step)
    requires v in s.writers && v != step.w && Owns(s, dests, s.writers[v])
    requires s.writers[step.w].dest in dests && Owns(s, dests, s.writers[step.w])
    requires Apart(s.writers[step.w].phase, s.writers[v].phase)
    ensures Owns(Apply(s, step), dests, s.writers[v])
  {
    if step.Open? && s.writers[v].phase.IsLive() {
      assert !IsUsing(s, v, StagingName(s.writers[step.w].dest, step.tag));
    }
  }

  lemma StaysApart(s: World, dests: set<Name>, step: Step, v: nat)
    requires Enabled(s, step) && step.IsWriters() && !Clashes(s, step) && ChangesFree(s, dests, step)
    requires v in s.writers && v != step.w && Apart(s.writers[step.w].phase, s.writers[v].phase)
    ensures Apart(Apply(s, step).writers[step.w].phase, s.writers[v].phase)
  {
    if step.Open? && s.writers[v].phase.IsLive() {
      assert !IsUsing(s, v, StagingName(s.writers[step.w].dest, step.tag));
    }
  }

  lemma BystanderKept(s: World, dests: set<Name>, step: Step, v: nat)
    requires Enabled(s, step) && step.IsWriters() && !Clashes(s, step) && ChangesFree(s, dests, step)
    requires WritersOwn(s, dests) && v in s.writers && v != step.w && s.writers[step.w].dest in dests
    ensures Owns(Apply(s, step), dests, s.writers[v])
    ensures Apart(Apply(s, step).writers[step.w].phase, s.writers[v].phase)
  {
    assert Owns(s, dests, s.writers[v]) && Owns(s, dests, s.writers[step.w]);
    assert Apart(s.writers[step.w].phase, s.writers[v].phase);
    OtherWriterKept(s, dests, step, v);
    StaysApart(s, dests, step, v);
  }

  lemma OthersStay(s: World, step: Step)
    requires Enabled(s, step) && step.IsWriters()
    ensures var s' := Apply(s, step);
            && s'.writers.Keys == s.writers.Keys && s'.readers == s.readers
            && (forall v :: v in s.writers && v != step.w ==> s'.writers[v] == s.writers[v])
            && s'.writers[step.w].dest == s.writers[step.w].dest
            && s'.writers[step.w].contents == s.writers[step.w].contents
  {
  }

  /** All writers own their files if the acting one does and stays apart, and the others did and still do. */
  lemma AllOwn(s: World, s': World, dests: set<Name>, w: nat)
    requires s'.writers.Keys == s.writers.Keys && w in s.writers
    requires forall v :: v in s.writers && v != w ==> s'.writers[v] == s.writers[v]
    requires forall v :: v in s'.writers ==> Owns(s', dests, s'.writers[v])
    requires forall v :: v in s'.writers && v != w ==> Apart(s'.writers[w].phase, s'.writers[v].phase)
    requires forall u, v :: u in s.writers && v in s.writers && u != v ==> Apart(s.writers[u].phase, s.writers[v].phase)
    ensures WritersOwn(s', dests)
  {
  }

  lemma FixedKept(init: World, s: World, dests: set<Name>, step: Step)
    requires Enabled(s, step) && step.IsWriters() && WritersFixed(init, s, dests)
    ensures WritersFixed(init, Apply(s, step), dests)
  {
    OthersStay(s, step);
  }

  lemma WritersKept(init: World, s: World, dests: set<Name>, step: Step)
    requires Separate(dests) && Enabled(s, step) && step.IsWriters() && !Clashes(s, step)
    requires ChangesFree(s, dests, step) && NoLinks(s.dir, s.data)
    requires WritersFixed(init, s, dests) && WritersOwn(s, dests)
    ensures WritersOwn(Apply(s, step), dests)
  {
    var s', w := Apply(s, step), step.w;
    OthersStay(s, step);
    assert Owns(s, dests, s.writers[w]);
    ActingWriterKept(s, dests, step);
    forall v | v in s.writers && v != w
      ensures Owns(s', dests, s'.writers[v]) && Apart(s'.writers[w].phase, s'.writers[v].phase)
    {
      BystanderKept(s, dests, step, v);
    }
    AllOwn(s, s', dests, w);
  }

  lemma ReaderKept(init: World, s: World, dests: set<Name>, step: Step, r: nat)
    requires Enabled(s, step) && step.IsWriters() && ChangesFree(s, dests, step) && r in s.readers
    requires s.writers[step.w].dest in dests && ReaderSees(init, s, dests, s.readers[r])
    ensures ReaderSees(init, Apply(s, step), dests, s.readers[r])
  {
  }

  lemma UnrenamedKept(init: World, s: World, s': World, dests: set<Name>, dir: Directory)
    requires Unrenamed(init, s, dests, dir) && s.data.Keys <= s'.data.Keys
    ensures Unrenamed(init, s', dests, dir)
  {
  }

  lemma NewDirectoryUnrenamed(init: World, s: World, dests: set<Name>, step: Step)
    requires Enabled(s, step) && step.IsWriters() && !step.Rename? && Unrenamed(init, s, dests, s.dir)
    requires Owns(s, dests, s.writers[step.w])
    requires step.Open? ==> StagingName(s.writers[step.w].dest, step.tag) !in dests
    ensures Unrenamed(init, Apply(s, step), dests, Apply(s, step).dir)
  {
  }

  lemma InitialFilesKept(init: World, s: World, dests: set<Name>, step: Step)
    requires Enabled(s, step) && step.IsWriters() && !step.Rename? && ChangesFree(s, dests, step)
    requires PastUnrenamed(init, s, dests) && Unrenamed(init, s, dests, s.dir)
    ensures forall d :: d in dests && d in init.dir ==>
              var i := init.dir[d];
              i in init.data && i in Apply(s, step).durable && i in Apply(s, step).data
              && Apply(s, step).data[i] == init.data[i]
  {
  }

  lemma PastKept(init: World, s: World, dests: set<Name>, step: Step)
    requires Enabled(s, step) && step.IsWriters() && !step.Rename? && ChangesFree(s, dests, step)
    requires PastUnrenamed(init, s, dests) && s.dir in s.past && Owns(s, dests, s.writers[step.w])
    requires step.Open? ==> StagingName(s.writers[step.w].dest, step.tag) !in dests
    ensures PastUnrenamed(init, Apply(s, step), dests)
  {
    assert Unrenamed(init, s, dests, s.dir);
    var s' := Apply(s, step);
    assert s.data.Keys <= s'.data.Keys;
    NewDirectoryUnrenamed(init, s, dests, step);
    InitialFilesKept(init, s, dests, step);
    forall dir | dir in s'.past ensures Unrenamed(init, s', dests, dir) {
      if dir in s.past {
        UnrenamedKept(init, s, s', dests, dir);
      } else {
        assert dir == s'.dir;
      }
    }
  }

  lemma UnsyncedKept(s: World, dests: set<Name>, step: Step, d: Name)
    requires Enabled(s, step) && step.IsWriters() && Unsynced(s, dests, d) && Owns(s, dests, s.writers[step.w])
    requires step.Open? ==> StagingName(s.writers[step.w].dest, step.tag) !in dests
    ensures Unsynced(Apply(s, step), dests, d)
  {
  }

  lemma RenamedIsUnsynced(s: World, dests: set<Name>, step: Step)
    requires Enabled(s, step) && step.Rename? && s.writers[step.w].dest in dests && Owns(s, dests, s.writers[step.w])
    ensures Unsynced(Apply(s, step), dests, s.writers[step.w].dest)
  {
  }

  lemma SomeUnsyncedKept(s: World, dests: set<Name>, step: Step)
    requires Separate(dests) && Enabled(s, step) && step.IsWriters()
    requires SomeUnsynced(s, dests) || step.Rename?
    requires s.writers[step.w].dest in dests && Owns(s, dests, s.writers[step.w])
    ensures SomeUnsynced(Apply(s, step), dests)
  {
    if step.Rename? {
      RenamedIsUnsynced(s, dests, step);
    } else {
      var d :| Unsynced(s, dests, d);
      UnsyncedKept(s, dests, step, d);
    }
  }

  lemma WriterStepKeepsInv(init: World, s: World, dests: set<Name>, step: Step, renamed: bool)
    requires Separate(dests) && Inv(init, s, dests, renamed)
    requires Enabled(s, step) && step.IsWriters() && !Clashes(s, step)
    ensures Inv(init, Apply(s, step), dests, renamed || step.Rename?)
  {
    var s' := Apply(s, step);
    assert Owns(s, dests, s.writers[step.w]) && s.writers[step.w].dest in dests;
    StepChangesFree(init, s, dests, step);
    DirectoryKept(init, s, dests, step);
    FixedKept(init, s, dests, step);
    WritersKept(init, s, dests, step);
    assert ReadersSee(init, s', dests) by {
      OthersStay(s, step);
      forall r | r in s.readers ensures ReaderSees(init, s', dests, s.readers[r]) {
        ReaderKept(init, s, dests, step, r);
      }
    }
    if !renamed && !step.Rename? {
      PastKept(init, s, dests, step);
    } else {
      SomeUnsyncedKept(s, dests, step);
    }
  }

  /** What does not concern readers is the same when only readers have moved. */
  lemma ReadersMove(init: World, s: World, s': World, dests: set<Name>, renamed: bool)
    requires Inv(init, s, dests, renamed) && s' == s.(readers := s'.readers) && ReadersSee(init, s', dests)
    ensures Inv(init, s', dests, renamed)
  {
    forall w | w in s'.writers ensures Owns(s', dests, s'.writers[w]) {
      assert Owns(s, dests, s.writers[w]);
    }
    if !renamed {
      forall dir | dir in s'.past ensures Unrenamed(init, s', dests, dir) {
        assert Unrenamed(init, s, dests, dir);
      }
    } else {
      var d :| Unsynced(s, dests, d);
      assert Unsynced(s', dests, d);
    }
  }

  lemma OpenedReaderSees(init: World, s: World, dests: set<Name>, step: Step)
    requires Enabled(s, step) && step.OpenFile? && DirectoryWhole(init, s, dests) && WritersOwn(s, dests)
    ensures ReaderSees(init, s, dests, Apply(s, step).readers[step.r])
  {
    if step.name in dests && step.name in s.dir {
      forall w | w in s.writers && s.writers[w].phase.IsLive() ensures s.writers[w].phase.inode != s.dir[step.name] {
        assert Owns(s, dests, s.writers[w]);
      }
    }
  }

  lemma ReadingReaderSees(init: World, s: World, dests: set<Name>, step: Step)
    requires Enabled(s, step) && (step.ReadMore? || step.EndOfFile?)
    requires ReaderSees(init, s, dests, s.readers[step.r])
    ensures ReaderSees(init, s, dests, Apply(s, step).readers[step.r])
  {
    var reader := s.readers[step.r];
    if step.EndOfFile? && reader.name in dests {
      assert reader.got == s.data[reader.inode];
    }
  }

  lemma SameSight(init: World, s: World, s': World, dests: set<Name>, reader: Reader)
    requires ReaderSees(init, s, dests, reader) && s' == s.(readers := s'.readers)
    ensures ReaderSees(init, s', dests, reader)
  {
  }

  lemma ReaderStepKeepsInv(init: World, s: World, dests: set<Name>, step: Step, renamed: bool)
    requires Inv(init, s, dests, renamed) && Enabled(s, step) && !step.IsWriters() && !step.PowerLoss?
    ensures Inv(init, Apply(s, step), dests, renamed)
  {
    var s' := Apply(s, step);
    assert s' == s.(readers := s'.readers);
    forall r | r in s'.readers ensures ReaderSees(init, s', dests, s'.readers[r]) {
      if r == step.r {
        if step.OpenFile? {
          OpenedReaderSees(init, s, dests, step);
        } else {
          assert ReaderSees(init, s, dests, s.readers[r]);
          ReadingReaderSees(init, s, dests, step);
        }
      } else {
        assert ReaderSees(init, s, dests, s.readers[r]);
      }
      SameSight(init, s, s', dests, s'.readers[r]);
    }
    ReadersMove(init, s, s', dests, renamed);
  }

  lemma LossKeepsDirectory(init: World, s: World, dests: set<Name>, step: Step)
    requires Enabled(s, step) && step.PowerLoss? && PastUnrenamed(init, s, dests)
    ensures DirectoryWhole(init, Apply(s, step), dests)
  {
    var s' := Apply(s, step);
    assert Unrenamed(init, s, dests, s'.dir);
    forall d | d in dests && d in s'.dir ensures Whole(init, d, s'.data[s'.dir[d]]) {
      assert BytesAt(init, d) == Some(init.data[init.dir[d]]);
    }
  }

  lemma LossKeepsPast(init: World, s: World, dests: set<Name>, step: Step)
    requires Enabled(s, step) && step.PowerLoss? && PastUnrenamed(init, s, dests)
    ensures PastUnrenamed(init, Apply(s, step), dests)
  {
    var s' := Apply(s, step);
    forall dir | dir in s'.past ensures Unrenamed(init, s', dests, dir) {
      assert Unrenamed(init, s, dests, dir);
    }
  }

  lemma LossKeepsWriters(init: World, s: World, dests: set<Name>, step: Step)
    requires Enabled(s, step) && step.PowerLoss? && WritersFixed(init, s, dests)
    ensures WritersFixed(init, Apply(s, step), dests) && WritersOwn(Apply(s, step), dests)
  {
    var s' := Apply(s, step);
    assert s'.writers.Keys == s.writers.Keys;
    forall w | w in s'.writers
      ensures s'.writers[w].dest == s.writers[w].dest && s'.writers[w].contents == s.writers[w].contents
      ensures s'.writers[w].phase.Ready? || s'.writers[w].phase.Dead?
    {
    }
    NoneLive(s', dests);
  }

  lemma NoneLive(s: World, dests: set<Name>)
    requires forall w :: w in s.writers ==> s.writers[w].phase.Ready? || s.writers[w].phase.Dead?
    ensures WritersOwn(s, dests)
  {
  }

  lemma LossKeepsReaders(init: World, s: World, dests: set<Name>, step: Step)
    requires Enabled(s, step) && step.PowerLoss? && ReadersSee(init, s, dests)
    ensures ReadersSee(init, Apply(s, step), dests)
  {
    var s' := Apply(s, step);
    forall r | r in s'.readers ensures ReaderSees(init, s', dests, s'.readers[r]) {
      assert ReaderSees(init, s, dests, s.readers[r]);
    }
  }

  lemma LossKeepsInv(init: World, s: World, dests: set<Name>, step: Step)
    requires Inv(init, s, dests, false) && Enabled(s, step) && step.PowerLoss?
    ensures Inv(init, Apply(s, step), dests, false)
  {
    LossKeepsDirectory(init, s, dests, step);
    LossKeepsPast(init, s, dests, step);
    LossKeepsWriters(init, s, dests, step);
    LossKeepsReaders(init, s, dests, step);
  }

  lemma StepKeepsInv(init: World, s: World, dests: set<Name>, step: Step, renamed: bool)
    requires Separate(dests) && Inv(init, s, dests, renamed)
    requires Enabled(s, step) && !Clashes(s, step) && !(renamed && step.PowerLoss?)
    ensures Inv(init, Apply(s, step), dests, renamed || step.Rename?)
  {
    if step.PowerLoss? {
      LossKeepsInv(init, s, dests, step);
    } else if step.IsWriters() {
      WriterStepKeepsInv(init, s, dests, step, renamed);
    } else {
      ReaderStepKeepsInv(init, s, dests, step, renamed);
    }
  }

  // ---------------------------------------------------------------------------------------------
  // What careful runs guarantee
  // ---------------------------------------------------------------------------------------------

  predicate Renames(steps: seq<Step>) {
    steps != [] && (steps[0].Rename? || Renames(steps[1..]))
  }

  lemma InitMeetsInv(init: World, dests: set<Name>)
    requires Init(init, dests)
    ensures Inv(init, init, dests, false)
  {
    assert Unrenamed(init, init, dests, init.dir);
  }

  lemma {:induction false} RunKeepsInv(init: World, s: World, steps: seq<Step>, dests: set<Name>, renamed: bool)
    requires Separate(dests) && Inv(init, s, dests, renamed) && IsCareful(s, steps, renamed)
    ensures IsRun(s, steps) && Inv(init, Run(s, steps), dests, renamed || Renames(steps))
    decreases |steps|
  {
    if steps != [] {
      StepKeepsInv(init, s, dests, steps[0], renamed);
      RunKeepsInv(init, Apply(s, steps[0]), steps[1..], dests, renamed || steps[0].Rename?);
    }
  }

  /** A finished read of a destination returns what the file held when it was opened, and that is whole. */
  lemma ReadsAreWhole(init: World, steps: seq<Step>, dests: set<Name>, r: nat)
    requires Init(init, dests) && IsRun(init, steps) && IsCareful(init, steps, false)
    requires var s := Run(init, steps); r in s.readers && s.readers[r].Finished? && s.readers[r].name in dests
    ensures var reader := Run(init, steps).readers[r];
            && reader.bytes == reader.atOpen
            && (reader.bytes.Some? ==> Whole(init, reader.name, reader.bytes.value))
            && (reader.bytes.None? ==> reader.name !in init.dir)
  {
    InitMeetsInv(init, dests);
    RunKeepsInv(init, init, steps, dests, false);
    var s := Run(init, steps);
    assert ReaderSees(init, s, dests, s.readers[r]);
  }

  /** In every state of a careful run a destination holds its first bytes or the whole argument of one call. */
  lemma DestinationsStayWhole(init: World, steps: seq<Step>, dests: set<Name>, d: Name)
    requires Init(init, dests) && IsRun(init, steps) && IsCareful(init, steps, false) && d in dests
    ensures var bytes := BytesAt(Run(init, steps), d);
            && (bytes.Some? ==> Whole(init, d, bytes.value))
            && (bytes.None? ==> d !in init.dir)
  {
    InitMeetsInv(init, dests);
    RunKeepsInv(init, init, steps, dests, false);
  }

  // ---------------------------------------------------------------------------------------------
  // Both parts of the condition are needed
  // ---------------------------------------------------------------------------------------------

  lemma OneMoreStep(s: World, step: Step, steps: seq<Step>)
    requires Enabled(s, step) && IsRun(Apply(s, step), steps)
    ensures IsRun(s, [step] + steps) && Run(s, [step] + steps) == Run(Apply(s, step), steps)
  {
    assert ([step] + steps)[1..] == steps;
  }

  lemma {:induction false} Compose(s: World, a: seq<Step>, b: seq<Step>)
    requires IsRun(s, a) && IsRun(Run(s, a), b)
    ensures IsRun(s, a + b) && Run(s, a + b) == Run(Run(s, a), b)
    decreases |a|
  {
    if a == [] {
      assert a + b == b;
    } else {
      var s1, tail := Apply(s, a[0]), a[1..];
      assert Run(s, a) == Run(s1, tail);
      Compose(s1, tail, b);
      OneMoreStep(s, a[0], tail + b);
      assert [a[0]] + (tail + b) == a + b;
    }
  }

  /** A live writer can fill and close its file, and nothing else changes. */
  lemma FillsAndCloses(s: World, v: nat) returns (steps: seq<Step>)
    requires v in s.writers && s.writers[v].phase.IsLive() && s.writers[v].phase.inode in s.data
    requires s.writers[v].phase.Writing? ==> s.writers[v].phase.pos <= |s.writers[v].contents|
    ensures IsRun(s, steps)
    ensures var s', phase := Run(s, steps), s.writers[v].phase;
            && s'.dir == s.dir && s'.data.Keys == s.data.Keys
            && s'.writers == s.writers[v := s.writers[v].(phase := Written(phase.staging, phase.inode))]
  {
    var Writer(_, contents, phase) := s.writers[v];
    steps := [];
    if phase.Writing? {
      var filled := if phase.pos < |contents| then Apply(s, Write(v, |contents|)) else s;
      OneMoreStep(filled, Close(v), []);
      steps := [Close(v)] + [];
      if phase.pos < |contents| {
        OneMoreStep(s, Write(v, |contents|), steps);
        steps := [Write(v, |contents|)] + steps;
      }
    }
  }

  /** Opening the staging file of `v`, writing `n` bytes, and letting `v` rename: its destination has those bytes. */
  lemma StolenFileIsRenamed(s: World, v: nat, step: Step, n: nat) returns (steps: seq<Step>)
    requires v in s.writers && s.writers[v].phase.Written? && s.writers[v].dest != s.writers[v].phase.staging
    requires Enabled(s, step) && step.Open? && step.w != v && n <= |s.writers[step.w].contents|
    requires s.writers[v].phase.staging == StagingName(s.writers[step.w].dest, step.tag)
    ensures IsRun(s, steps)
    ensures BytesAt(Run(s, steps), s.writers[v].dest) == Some(s.writers[step.w].contents[..n])
  {
    var contents := s.writers[step.w].contents;
    var s1 := Apply(s, step);
    var s2 := if n == 0 then s1 else Apply(s1, Write(step.w, n));
    assert s2.data[s2.dir[s.writers[v].phase.staging]] == contents[..n];
    OneMoreStep(s2, Rename(v), []);
    steps := [Rename(v)] + [];
    if n != 0 {
      OneMoreStep(s1, Write(step.w, n), steps);
      steps := [Write(step.w, n)] + steps;
    }
    OneMoreStep(s, step, steps);
    steps := [step] + steps;
  }

  lemma LiveWriterOwns(init: World, before: seq<Step>, dests: set<Name>, v: nat)
    requires Init(init, dests) && IsRun(init, before) && IsCareful(init, before, false)
    requires v in Run(init, before).writers
    ensures var s := Run(init, before); Owns(s, dests, s.writers[v]) && s.writers[v].dest in dests
  {
    InitMeetsInv(init, dests);
    RunKeepsInv(init, init, before, dests, false);
  }

  /**
   Wherever a careful run has come to, if an open would clash there, the run can go on so that this open leaves any
   number `n` of leading bytes of its own call at the destination of the writer it clashes with.
   */
  lemma ClashCanTear(init: World, before: seq<Step>, dests: set<Name>, step: Step, n: nat)
    returns (v: nat, after: seq<Step>)
    requires Init(init, dests) && IsRun(init, before) && IsCareful(init, before, false)
    requires var s := Run(init, before);
             Enabled(s, step) && Clashes(s, step) && n <= |s.writers[step.w].contents|
    ensures var s := Run(init, before);
            && v in s.writers && IsRun(s, after)
            && BytesAt(Run(s, after), s.writers[v].dest) == Some(s.writers[step.w].contents[..n])
  {
    var s := Run(init, before);
    v :| IsUsing(s, v, StagingName(s.writers[step.w].dest, step.tag)) && v != step.w;
    LiveWriterOwns(init, before, dests, v);
    var filling := FillsAndCloses(s, v);
    var stealing := StolenFileIsRenamed(Run(s, filling), v, step, n);
    Compose(s, filling, stealing);
    after := filling + stealing;
  }

  /** From the start: any two calls for one destination that draw the same tag can leave any piece of the second. */
  lemma TornFromStart(init: World, dests: set<Name>, v: nat, w: nat, tag: string, i: Inode, j: Inode, n: nat)
    returns (steps: seq<Step>)
    requires Init(init, dests) && v in init.writers && w in init.writers && v != w
    requires init.writers[v].dest == init.writers[w].dest && n <= |init.writers[w].contents|
    requires i !in init.data && j !in init.data && i != j
    ensures IsRun(init, steps)
    ensures BytesAt(Run(init, steps), init.writers[w].dest) == Some(init.writers[w].contents[..n])
  {
    StagingIsNotDestination(init.writers[w].dest, tag);
    var s := Apply(init, Open(v, tag, i));
    OneMoreStep(init, Open(v, tag, i), []);
    var filling := FillsAndCloses(s, v);
    var stealing := StolenFileIsRenamed(Run(s, filling), v, Open(w, tag, j), n);
    Compose(s, filling, stealing);
    OneMoreStep(init, Open(v, tag, i), filling + stealing);
    steps := [Open(v, tag, i)] + (filling + stealing);
  }

  /** Wherever a careful run with a rename in it has come to, a power loss can leave any bytes at a destination. */
  lemma LossCanTear(init: World, before: seq<Step>, dests: set<Name>, bytes: Bytes) returns (d: Name, loss: Step)
    requires Init(init, dests) && IsRun(init, before) && IsCareful(init, before, false) && Renames(before)
    ensures var s := Run(init, before);
            && d in dests && loss.PowerLoss? && Enabled(s, loss)
            && BytesAt(Apply(s, loss), d) == Some(bytes)
  {
    InitMeetsInv(init, dests);
    RunKeepsInv(init, init, before, dests, false);
    var s := Run(init, before);
    d :| Unsynced(s, dests, d);
    loss := PowerLoss(s.dir, s.data[s.dir[d] := bytes]);
  }

  lemma SingleStep(s: World, step: Step)
    requires Enabled(s, step)
    ensures IsRun(s, [step]) && Run(s, [step]) == Apply(s, step)
  {
    var s', rest := Apply(s, step), [step][1..];
    assert rest == [] && IsRun(s', rest) && Run(s', rest) == s';
  }

  /** A reader that has read a first piece of its file can go on to the end, and then has all of it. */
  lemma ReadCanFinish(s: World, r: nat) returns (steps: seq<Step>)
    requires r in s.readers && s.readers[r].Reading? && s.readers[r].inode in s.data
    requires s.readers[r].got <= s.data[s.readers[r].inode]
    ensures IsRun(s, steps)
    ensures var s' := Run(s, steps);
            && s'.dir == s.dir && s'.data == s.data && r in s'.readers
            && s'.readers[r] == Finished(s.readers[r].name, Some(s.data[s.readers[r].inode]), s.readers[r].atOpen)
  {
    var bytes := s.data[s.readers[r].inode];
    if s.readers[r].got == bytes {
      SingleStep(s, EndOfFile(r));
      steps := [EndOfFile(r)];
    } else {
      var s1 := Apply(s, ReadMore(r, |bytes|));
      assert bytes[..|bytes|] == bytes;
      SingleStep(s1, EndOfFile(r));
      OneMoreStep(s, ReadMore(r, |bytes|), [EndOfFile(r)]);
      steps := [ReadMore(r, |bytes|)] + [EndOfFile(r)];
    }
  }

  // ---------------------------------------------------------------------------------------------
  // What the machine allows
  // ---------------------------------------------------------------------------------------------

  lemma {:induction false} RunSplits(s: World, steps: seq<Step>, k: nat)
    requires IsRun(s, steps) && k <= |steps|
    ensures IsRun(s, steps[..k]) && IsRun(Run(s, steps[..k]), steps[k..])
    ensures Run(s, steps) == Run(Run(s, steps[..k]), steps[k..])
    decreases |steps|
  {
    if k == 0 {
      assert steps[..0] == [] && steps[0..] == steps;
    } else {
      var s1, tail := Apply(s, steps[0]), steps[1..];
      RunSplits(s1, tail, k - 1);
      OneMoreStep(s, steps[0], tail[..k - 1]);
      assert [steps[0]] + tail[..k - 1] == steps[..k] && tail[k - 1..] == steps[k..];
      assert Run(s, steps) == Run(s1, tail);
    }
  }

  lemma StepKeepsPast(s: World, step: Step)
    requires Enabled(s, step) && s.dir in s.past
    ensures s.past <= Apply(s, step).past && Apply(s, step).dir in Apply(s, step).past
  {
  }

  lemma {:induction false} RunKeepsPast(s: World, steps: seq<Step>)
    requires IsRun(s, steps) && s.dir in s.past
    ensures s.past <= Run(s, steps).past && Run(s, steps).dir in Run(s, steps).past
    decreases |steps|
  {
    if steps != [] {
      StepKeepsPast(s, steps[0]);
      RunKeepsPast(Apply(s, steps[0]), steps[1..]);
    }
  }

  /** The directory is never synced: after any run, a power loss can bring back that of any moment of the run. */
  lemma LossGoesBack(init: World, steps: seq<Step>, dests: set<Name>, k: nat)
    requires Init(init, dests) && IsRun(init, steps) && k <= |steps|
    ensures IsRun(init, steps[..k])
    ensures var f := Run(init, steps);
            var loss := PowerLoss(Run(init, steps[..k]).dir, f.data);
            && Enabled(f, loss)
            && Apply(f, loss).dir == Run(init, steps[..k]).dir && Apply(f, loss).data == f.data
  {
    RunSplits(init, steps, k);
    RunKeepsPast(init, steps[..k]);
    RunKeepsPast(Run(init, steps[..k]), steps[k..]);
  }

  /** With it, any file that a live writer of a careful run has can come back with any bytes. */
  lemma LossIsArbitrary(init: World, steps: seq<Step>, dests: set<Name>, k: nat, w: nat, bytes: Bytes)
    requires Init(init, dests) && IsRun(init, steps) && IsCareful(init, steps, false) && k <= |steps|
    requires w in Run(init, steps).writers && Run(init, steps).writers[w].phase.IsLive()
    ensures IsRun(init, steps[..k])
    ensures var f := Run(init, steps);
            var data := f.data[f.writers[w].phase.inode := bytes];
            var loss := PowerLoss(Run(init, steps[..k]).dir, data);
            Enabled(f, loss) && Apply(f, loss).dir == Run(init, steps[..k]).dir && Apply(f, loss).data == data
  {
    LossGoesBack(init, steps, dests, k);
    InitMeetsInv(init, dests);
    RunKeepsInv(init, init, steps, dests, false);
    assert Owns(Run(init, steps), dests, Run(init, steps).writers[w]);
  }

  /**
   A step is one process's own: a writer's step leaves all other writers and all readers as they are, a reader's step
   all files and writers and all other readers. No step makes
   a file safe.
   */
  lemma StepsAreLocal(s: World, step: Step)
    requires Enabled(s, step) && !step.PowerLoss?
    ensures var s' := Apply(s, step);
            if step.IsWriters() then
              && s'.readers == s.readers && s'.writers - {step.w} == s.writers - {step.w}
              && s'.durable <= s.durable
            else
              && s'.readers - {step.r} == s.readers - {step.r}
              && s'.dir == s.dir && s'.data == s.data && s'.durable == s.durable && s'.writers == s.writers
  {
  }

  /** A kill ends one writer and touches no file; a power loss ends all that had begun, and all readers under way. */
  lemma EndingRules(s: World, step: Step)
    requires Enabled(s, step) && (step.Kill? || step.PowerLoss?)
    ensures var s' := Apply(s, step);
            && s'.durable == s.durable && s'.past == s.past && s'.writers.Keys == s.writers.Keys
            && (step.Kill? ==> s'.dir == s.dir && s'.data == s.data && s'.writers[step.w].phase == Dead)
            && (step.PowerLoss? ==>
                  && s'.dir == step.dir && s'.data == step.data
                  && (forall r :: r in s'.readers <==> r in s.readers && s.readers[r].Finished?)
                  && (forall r :: r in s'.readers ==> s'.readers[r] == s.readers[r])
                  && forall w :: w in s.writers ==>
                       s'.writers[w].phase == if s.writers[w].phase.Ready? then Ready else Dead)
  {
  }

  /** The dead do nothing more, in any run. */
  lemma {:induction false} DeadStayDead(s: World, steps: seq<Step>, w: nat)
    requires IsRun(s, steps) && w in s.writers && s.writers[w].phase == Dead
    ensures w in Run(s, steps).writers && Run(s, steps).writers[w].phase == Dead
    decreases |steps|
  {
    if steps != [] {
      DeadStayDead(Apply(s, steps[0]), steps[1..], w);
    }
  }

  /**
   What the calls of a writer do to the files: an open empties the file under the staging name or makes a new one, a
   write goes on from where the writer is in its own bytes, a rename moves the name, a clean-up removes it.
   */
  lemma WriterCallRules(s: World, step: Step)
    requires Enabled(s, step) && step.IsWriters()
    ensures var s' := Apply(s, step);
            var Writer(dest, contents, phase) := s.writers[step.w];
            && (step.Open? ==>
                  var staging := StagingName(dest, step.tag);
                  && staging in s'.dir && s'.dir - {staging} == s.dir - {staging}
                  && s'.dir[staging] == (if staging in s.dir then s.dir[staging] else step.inode)
                  && s'.data == s.data[s'.dir[staging] := []]
                  && s'.writers[step.w].phase == Writing(staging, s'.dir[staging], 0))
            && (step.Write? ==>
                  && s'.dir == s.dir
                  && s'.data == s.data[phase.inode :=
                                       WriteAt(s.data[phase.inode], phase.pos, contents[phase.pos..step.upTo])]
                  && s'.writers[step.w].phase == Writing(phase.staging, phase.inode, step.upTo))
            && (step.Close? || step.Refuse? || step.Kill? ==> s'.dir == s.dir && s'.data == s.data)
            && (step.Rename? ==>
                  && s'.data == s.data && dest in s'.dir && s'.dir[dest] == s.dir[phase.staging]
                  && s'.dir - {dest, phase.staging} == s.dir - {dest, phase.staging}
                  && (phase.staging != dest ==> phase.staging !in s'.dir))
            && (step.Discard? ==>
                  && s'.data == s.data && s'.dir == s.dir - {phase.staging}
                  && s'.writers[step.w].phase == Returned(false))
  {
  }

  /** No writer waits for another: each can make its next call, a rename as long as its staging file is there. */
  lemma WriterCanGoOn(s: World, w: nat, tag: string, inode: Inode, upTo: nat)
    requires w in s.writers
    requires s.writers[w].phase.Writing? ==> s.writers[w].phase.inode in s.data
    ensures var Writer(_, contents, phase) := s.writers[w];
            && (phase.Ready? && inode !in s.data ==> Enabled(s, Open(w, tag, inode)))
            && (phase.Writing? && phase.pos < upTo <= |contents| ==> Enabled(s, Write(w, upTo)))
            && (phase.Writing? && phase.pos == |contents| ==> Enabled(s, Close(w)))
            && (phase.Written? && phase.staging in s.dir ==> Enabled(s, Rename(w)))
            && (phase.Discarding? ==> Enabled(s, Discard(w)))
  {
  }

  /** Every call a writer is about to make can be refused, which changes no file. */
  lemma CallsCanBeRefused(s: World, w: nat)
    requires w in s.writers && !s.writers[w].phase.Returned? && !s.writers[w].phase.Dead?
    ensures Enabled(s, Refuse(w))
    ensures var s' := Apply(s, Refuse(w));
            && s'.dir == s.dir && s'.data == s.data && w in s'.writers
            && (s'.writers[w].phase.Discarding? <==> s.writers[w].phase.Written?)
            && (!s'.writers[w].phase.Discarding? ==> s'.writers[w].phase == Returned(false))
  {
  }

  /** Anyone can read any name at any time, and alone gets what is there. */
  lemma AnyoneCanRead(s: World, r: nat, name: Name) returns (steps: seq<Step>)
    requires r !in s.readers && (name in s.dir ==> s.dir[name] in s.data)
    ensures IsRun(s, steps)
    ensures var s' := Run(s, steps);
            && s'.dir == s.dir && s'.data == s.data && r in s'.readers
            && s'.readers[r] == Finished(name, BytesAt(s, name), BytesAt(s, name))
  {
    var s1 := Apply(s, OpenFile(r, name));
    if name in s.dir {
      var rest := ReadCanFinish(s1, r);
      OneMoreStep(s, OpenFile(r, name), rest);
      steps := [OpenFile(r, name)] + rest;
    } else {
      SingleStep(s, OpenFile(r, name));
      steps := [OpenFile(r, name)];
    }
  }

  /** A call reports success by its rename and by no other step. */
  lemma OnlyRenameSucceeds(s: World, step: Step, w: nat)
    requires Enabled(s, step) && w in s.writers && s.writers[w].phase != Returned(true)
    ensures w in Apply(s, step).writers
    ensures Apply(s, step).writers[w].phase == Returned(true) <==> step == Rename(w)
  {
  }

  /** A write replaces the bytes from its position on, after zeros up to it, and leaves those before and behind. */
  lemma WriteAtRules(bytes: Bytes, pos: nat, chunk: Bytes, k: nat)
    requires k < |WriteAt(bytes, pos, chunk)|
    ensures var r := WriteAt(bytes, pos, chunk);
            && |r| == (if pos + |chunk| <= |bytes| then |bytes| else pos + |chunk|)
            && r[k] == if pos <= k < pos + |chunk| then chunk[k - pos] else if k < |bytes| then bytes[k] else 0
  {
  }
}
