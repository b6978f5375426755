/**
 The transaction engine that keeps two maps behind two separate locks: the transaction of each owner, and the
 handle of each transaction. `begin` holds the owner lock while it takes the handle lock to record the handle;
 `finish` takes the handle lock, lets go of it, and only then takes the owner lock.

 The state machine lets any number of threads interleave at every point where either lock can change hands.
 */
module TransactionRegistry {
  import opened Wrappers

  type Owner = string
  type TransactionId = string
  type Thread = nat

  datatype Handle = Handle(id: TransactionId, owner: Owner)

  /** Where a thread is inside `begin` or `finish`. */
  datatype Pc =
    | Idle
    | BeginChecked(owner: Owner)                       // holds the owner lock, owner found free
    | BeginInserting(owner: Owner)                     // holds both locks
    | BeginRecorded(owner: Owner, id: TransactionId)   // holds the owner lock, handle inserted
    | FinishTaking(id: TransactionId)                  // holds the handle lock
    | FinishTaken(id: TransactionId, owner: Owner)     // holds no lock, handle removed
    | FinishClearing(id: TransactionId, owner: Owner)  // holds the owner lock
  {
    predicate HoldsOwnerLock() {
      BeginChecked? || BeginInserting? || BeginRecorded? || FinishClearing?
    }

    predicate HoldsHandleLock() {
      BeginInserting? || FinishTaking?
    }

    /** In `begin`, past the test. */
    predicate IsBeginning() {
      BeginChecked? || BeginInserting? || BeginRecorded?
    }

    /** In `finish`, with the handle removed and the owner entry still there. */
    predicate IsClosing() {
      FinishTaken? || FinishClearing?
    }
  }

  datatype Registry = Registry(
    active: map<Owner, TransactionId>,
    handles: map<TransactionId, Handle>,
    ownerLock: Option<Thread>,
    handleLock: Option<Thread>,
    pcs: map<Thread, Pc>,
    issued: set<TransactionId>)
  {
    function At(th: Thread): Pc {
      if th in pcs then pcs[th] else Idle
    }
  }

  const EMPTY := Registry(map[], map[], None, None, map[], {})

  datatype Step =
    | BeginLock(thread: Thread, owner: Owner)
    | BeginLockHandles(thread: Thread)
    | BeginRecord(thread: Thread, id: TransactionId)
    | BeginPublish(thread: Thread)
    | FinishLock(thread: Thread, id: TransactionId)
    | FinishTake(thread: Thread)
    | FinishLockOwners(thread: Thread)
    | FinishClear(thread: Thread)

  predicate Enabled(s: Registry, step: Step) {
    var pc := s.At(step.thread);
    match step
    case BeginLock(_, _) => pc.Idle? && s.ownerLock.None?
    case BeginLockHandles(_) => pc.BeginChecked? && s.handleLock.None?
    case BeginRecord(_, id) => pc.BeginInserting? && id !in s.issued
    case BeginPublish(_) => pc.BeginRecorded?
    case FinishLock(_, _) => pc.Idle? && s.handleLock.None?
    case FinishTake(_) => pc.FinishTaking?
    case FinishLockOwners(_) => pc.FinishTaken? && s.ownerLock.None?
    case FinishClear(_) => pc.FinishClearing?
  }

  function Apply(s: Registry, step: Step): Registry
    requires Enabled(s, step)
  {
    var th, pc := step.thread, s.At(step.thread);
    match step
    case BeginLock(_, owner) =>
      if owner in s.active then s
      else s.(ownerLock := Some(th), pcs := s.pcs[th := BeginChecked(owner)])
    case BeginLockHandles(_) => s.(handleLock := Some(th), pcs := s.pcs[th := BeginInserting(pc.owner)])
    case BeginRecord(_, id) =>
      s.(handles := s.handles[id := Handle(id, pc.owner)],
         issued := s.issued + {id},
         handleLock := None,
         pcs := s.pcs[th := BeginRecorded(pc.owner, id)])
    case BeginPublish(_) =>
      s.(active := s.active[pc.owner := pc.id], ownerLock := None, pcs := s.pcs[th := Idle])
    case FinishLock(_, id) => s.(handleLock := Some(th), pcs := s.pcs[th := FinishTaking(id)])
    case FinishTake(_) =>
      var next := if pc.id in s.handles then FinishTaken(pc.id, s.handles[pc.id].owner) else Idle;
      s.(handles := s.handles - {pc.id}, handleLock := None, pcs := s.pcs[th := next])
    case FinishLockOwners(_) =>
      s.(ownerLock := Some(th), pcs := s.pcs[th := FinishClearing(pc.id, pc.owner)])
    case FinishClear(_) =>
      s.(active := s.active - {pc.owner}, ownerLock := None, pcs := s.pcs[th := Idle])
  }

  /** A call waits for a lock that is held, for nothing else, and no step moves another thread. */
  lemma OnlyLocksDelay(s: Registry, th: Thread, owner: Owner, id: TransactionId)
    ensures var pc, owners, handles := s.At(th), s.ownerLock.None?, s.handleLock.None?;
            && (pc.Idle? ==> (Enabled(s, BeginLock(th, owner)) <==> owners))
            && (pc.Idle? ==> (Enabled(s, FinishLock(th, id)) <==> handles))
            && (pc.BeginChecked? ==> (Enabled(s, BeginLockHandles(th)) <==> handles))
            && (pc.BeginInserting? && id !in s.issued ==> Enabled(s, BeginRecord(th, id)))
            && (pc.BeginRecorded? ==> Enabled(s, BeginPublish(th)))
            && (pc.FinishTaking? ==> Enabled(s, FinishTake(th)))
            && (pc.FinishTaken? ==> (Enabled(s, FinishLockOwners(th)) <==> owners))
            && (pc.FinishClearing? ==> Enabled(s, FinishClear(th)))
    ensures forall step: Step :: Enabled(s, step) && step.thread != th ==> Apply(s, step).At(th) == s.At(th)
  {
  }

  // ---------------------------------------------------------------------------------------------
  // The invariant
  // ---------------------------------------------------------------------------------------------

  /** The holder of the owner lock has recorded a handle for `id` that is not published yet. */
  predicate Unpublished(s: Registry, owner: Owner, id: TransactionId) {
    s.ownerLock.Some? && s.At(s.ownerLock.value) == BeginRecorded(owner, id)
  }

  predicate IsClosing(pc: Pc, owner: Owner, id: TransactionId) {
    pc.IsClosing() && pc.id == id && pc.owner == owner
  }

  /** Some thread has removed the handle of `id` and still has to clear its owner. */
  ghost predicate Closing(s: Registry, owner: Owner, id: TransactionId) {
    exists th: Thread :: IsClosing(s.At(th), owner, id)
  }

  predicate Recorded(s: Registry, owner: Owner, id: TransactionId) {
    id in s.handles && s.handles[id] == Handle(id, owner)
  }

  predicate Published(s: Registry, owner: Owner, id: TransactionId) {
    owner in s.active && s.active[owner] == id
  }

  ghost predicate LocksMatch(s: Registry) {
    forall th: Thread ::
      && (s.At(th).HoldsOwnerLock() <==> s.ownerLock == Some(th))
      && (s.At(th).HoldsHandleLock() <==> s.handleLock == Some(th))
  }

  ghost predicate BeginnersAreFree(s: Registry) {
    forall th: Thread :: s.At(th).IsBeginning() ==> s.At(th).owner !in s.active
  }

  /** Every published or unpublished transaction has its handle, or is being closed. */
  ghost predicate OwnersBacked(s: Registry) {
    forall owner, id :: Published(s, owner, id) || Unpublished(s, owner, id) ==>
      id in s.issued && (Recorded(s, owner, id) || Closing(s, owner, id))
  }

  /** Every handle belongs to its owner's transaction. */
  ghost predicate HandlesOwned(s: Registry) {
    forall id :: id in s.handles ==>
      s.handles[id].id == id && id in s.issued &&
      (Published(s, s.handles[id].owner, id) || Unpublished(s, s.handles[id].owner, id))
  }

  /** So does every handle taken by a `finish` under way. */
  ghost predicate ClosersOwn(s: Registry) {
    forall th: Thread :: s.At(th).IsClosing() ==> CloserOwns(s, s.At(th))
  }

  predicate CloserOwns(s: Registry, pc: Pc)
    requires pc.IsClosing()
  {
    pc.id in s.issued && pc.id !in s.handles && (Published(s, pc.owner, pc.id) || Unpublished(s, pc.owner, pc.id))
  }

  ghost predicate ClosersDistinct(s: Registry) {
    forall t: Thread, u: Thread :: s.At(t).IsClosing() && s.At(u).IsClosing() && s.At(t).id == s.At(u).id ==> t == u
  }

  ghost predicate Inv(s: Registry) {
    && LocksMatch(s) && BeginnersAreFree(s) && OwnersBacked(s) && HandlesOwned(s)
    && ClosersOwn(s) && ClosersDistinct(s)
  }

  lemma StepKeepsLocks(s: Registry, step: Step)
    requires LocksMatch(s) && Enabled(s, step)
    ensures LocksMatch(Apply(s, step))
  {
  }

  lemma StepKeepsBeginners(s: Registry, step: Step)
    requires LocksMatch(s) && BeginnersAreFree(s) && Enabled(s, step)
    ensures BeginnersAreFree(Apply(s, step))
  {
    var s' := Apply(s, step);
    forall th: Thread | s'.At(th).IsBeginning() ensures s'.At(th).owner !in s'.active {
      assert s.At(step.thread).HoldsOwnerLock() ==> s.ownerLock == Some(step.thread);
      assert s.At(th).HoldsOwnerLock() ==> s.ownerLock == Some(th);
    }
  }

  lemma StepKeepsDistinct(s: Registry, step: Step)
    requires ClosersDistinct(s) && ClosersOwn(s) && Enabled(s, step)
    ensures ClosersDistinct(Apply(s, step))
  {
    var s' := Apply(s, step);
    forall t: Thread, u: Thread | s'.At(t).IsClosing() && s'.At(u).IsClosing() && s'.At(t).id == s'.At(u).id
      ensures t == u
    {
      assert s.At(t).IsClosing() ==> CloserOwns(s, s.At(t));
      assert s.At(u).IsClosing() ==> CloserOwns(s, s.At(u));
    }
  }

  lemma StepKeepsHandles(s: Registry, step: Step)
    requires Inv(s) && Enabled(s, step)
    ensures HandlesOwned(Apply(s, step))
  {
  }

  lemma StepKeepsClosers(s: Registry, step: Step)
    requires Inv(s) && Enabled(s, step)
    ensures ClosersOwn(Apply(s, step))
  {
    var s' := Apply(s, step);
    forall th: Thread | s'.At(th).IsClosing() ensures CloserOwns(s', s'.At(th)) {
      if s.At(th).IsClosing() {
        assert CloserOwns(s, s.At(th));
      }
    }
  }

  lemma StepKeepsOwners(s: Registry, step: Step)
    requires Inv(s) && Enabled(s, step)
    ensures OwnersBacked(Apply(s, step))
  {
    var s' := Apply(s, step);
    forall owner, id | Published(s', owner, id) || Unpublished(s', owner, id)
      ensures id in s'.issued && (Recorded(s', owner, id) || Closing(s', owner, id))
    {
      if Published(s, owner, id) || Unpublished(s, owner, id) {
        if Closing(s, owner, id) {
          var th: Thread :| IsClosing(s.At(th), owner, id);
          assert IsClosing(s'.At(th), owner, id);
        } else if step.FinishTake? && s.At(step.thread).id == id {
          assert IsClosing(s'.At(step.thread), owner, id);
        }
      }
    }
  }

  function Run(s: Registry, steps: seq<Step>): Registry
    requires IsRun(s, steps)
    decreases |steps|
  {
    if steps == [] then s else Run(Apply(s, steps[0]), steps[1..])
  }

  predicate IsRun(s: Registry, steps: seq<Step>)
    decreases |steps|
  {
    steps != [] ==> Enabled(s, steps[0]) && IsRun(Apply(s, steps[0]), steps[1..])
  }

  lemma StepKeepsInv(s: Registry, step: Step)
    requires Inv(s) && Enabled(s, step)
    ensures Inv(Apply(s, step))
  {
    StepKeepsLocks(s, step);
    StepKeepsBeginners(s, step);
    StepKeepsDistinct(s, step);
    StepKeepsHandles(s, step);
    StepKeepsClosers(s, step);
    StepKeepsOwners(s, step);
  }

  lemma {:induction false} RunKeepsInv(s: Registry, steps: seq<Step>)
    requires Inv(s) && IsRun(s, steps)
    ensures Inv(Run(s, steps))
    decreases |steps|
  {
    if steps != [] {
      StepKeepsInv(s, steps[0]);
      RunKeepsInv(Apply(s, steps[0]), steps[1..]);
    }
  }

  // ---------------------------------------------------------------------------------------------
  // What every interleaving guarantees
  // ---------------------------------------------------------------------------------------------

  ghost predicate Quiescent(s: Registry) {
    forall th: Thread :: s.At(th).Idle?
  }

  ghost predicate Inverse(active: map<Owner, TransactionId>, handles: map<TransactionId, Handle>) {
    && (forall owner :: owner in active ==>
          active[owner] in handles && handles[active[owner]] == Handle(active[owner], owner))
    && (forall id :: id in handles ==> handles[id].owner in active && active[handles[id].owner] == id)
  }

  /** No two live handles share an owner, in every state of every interleaving. */
  lemma OneLiveTransactionPerOwner(steps: seq<Step>, id1: TransactionId, id2: TransactionId)
    requires IsRun(EMPTY, steps)
    requires var handles := Run(EMPTY, steps).handles;
             id1 in handles && id2 in handles && handles[id1].owner == handles[id2].owner
    ensures id1 == id2
  {
    RunKeepsInv(EMPTY, steps);
  }

  /** The owner entry a `finish` is about to remove is always the one of its own transaction. */
  lemma FinishClearsOwnEntry(steps: seq<Step>, th: Thread)
    requires IsRun(EMPTY, steps)
    requires Enabled(Run(EMPTY, steps), FinishClear(th))
    ensures var s := Run(EMPTY, steps);
            var FinishClearing(id, owner) := s.At(th);
            && Published(s, owner, id)
            && Apply(s, FinishClear(th)).active == (map o | o in s.active && s.active[o] != id :: s.active[o])
  {
    RunKeepsInv(EMPTY, steps);
    var s := Run(EMPTY, steps);
    var FinishClearing(id, owner) := s.At(th);
    assert CloserOwns(s, s.At(th));
    forall o | o in s.active && s.active[o] == id ensures o == owner {
      assert Published(s, o, id);
      var u: Thread :| IsClosing(s.At(u), o, id);
    }
  }

  /** With no call in progress the two maps are exact inverses of each other. */
  lemma QuiescentMapsAreInverse(steps: seq<Step>)
    requires IsRun(EMPTY, steps) && Quiescent(Run(EMPTY, steps))
    ensures var s := Run(EMPTY, steps); Inverse(s.active, s.handles)
  {
    RunKeepsInv(EMPTY, steps);
    var s := Run(EMPTY, steps);
    forall owner | owner in s.active
      ensures s.active[owner] in s.handles && s.handles[s.active[owner]] == Handle(s.active[owner], owner)
    {
      assert Published(s, owner, s.active[owner]);
    }
  }

  lemma {:induction false} FinishedStaysFinished(s: Registry, steps: seq<Step>, id: TransactionId)
    requires IsRun(s, steps) && id in s.issued && id !in s.handles
    ensures id in Run(s, steps).issued && id !in Run(s, steps).handles
    decreases |steps|
  {
    if steps != [] {
      FinishedStaysFinished(Apply(s, steps[0]), steps[1..], id);
    }
  }

  /** However the run goes on after a `finish` has taken a handle, any other `finish` of that id changes no map. */
  lemma SecondFinishIsNoOp(before: seq<Step>, th: Thread, after: seq<Step>, th': Thread)
    requires IsRun(EMPTY, before)
    requires var s := Run(EMPTY, before);
             && s.At(th).IsClosing() && IsRun(s, after)
             && Run(s, after).At(th') == FinishTaking(s.At(th).id)
    ensures var later := Run(Run(EMPTY, before), after);
            var done := Apply(later, FinishTake(th'));
            && done.active == later.active && done.handles == later.handles
            && done.At(th').Idle?
  {
    RunKeepsInv(EMPTY, before);
    var s := Run(EMPTY, before);
    assert CloserOwns(s, s.At(th));
    FinishedStaysFinished(s, after, s.At(th).id);
  }

  /** The two locks cannot block each other: whenever a call is in progress, one such call can move. */
  lemma NoDeadlock(steps: seq<Step>, th: Thread, unused: TransactionId) returns (next: Step)
    requires IsRun(EMPTY, steps)
    requires !Run(EMPTY, steps).At(th).Idle? && unused !in Run(EMPTY, steps).issued
    ensures Enabled(Run(EMPTY, steps), next) && !Run(EMPTY, steps).At(next.thread).Idle?
  {
    RunKeepsInv(EMPTY, steps);
    var s := Run(EMPTY, steps);
    if s.handleLock.Some? {
      var holder := s.handleLock.value;
      next := if s.At(holder).BeginInserting? then BeginRecord(holder, unused) else FinishTake(holder);
    } else if s.ownerLock.Some? {
      var holder := s.ownerLock.value;
      match s.At(holder)
      case BeginChecked(_) => next := BeginLockHandles(holder);
      case BeginRecorded(_, _) => next := BeginPublish(holder);
      case _ => next := FinishClear(holder);
    } else {
      next := FinishLockOwners(th);
    }
  }

  // ---------------------------------------------------------------------------------------------
  // One call at a time
  // ---------------------------------------------------------------------------------------------

  /** `id` gone from the owner map. */
  function Cleared(active: map<Owner, TransactionId>, id: TransactionId): map<Owner, TransactionId> {
    map o | o in active && active[o] != id :: active[o]
  }

  class TransactionEngine {
    var activeByOwner: map<Owner, TransactionId>
    var handles: map<TransactionId, Handle>

    ghost predicate Valid()
      reads this
    {
      Inverse(activeByOwner, handles)
    }

    constructor ()
      ensures Valid() && activeByOwner == map[] && handles == map[]
    {
      activeByOwner, handles := map[], map[];
    }

    method Begin(owner: Owner, id: TransactionId) returns (r: Result<TransactionId, string>)
      requires Valid() && id !in handles
      modifies this
      ensures Valid()
      ensures r.Ok? <==> owner !in old(activeByOwner)
      ensures r.Ok? ==> r.value == id && activeByOwner == old(activeByOwner)[owner := id]
                        && handles == old(handles)[id := Handle(id, owner)]
      ensures r.Err? ==> activeByOwner == old(activeByOwner) && handles == old(handles)
    {
      if owner in activeByOwner {
        return Err("owner already active");
      }
      handles := handles[id := Handle(id, owner)];
      activeByOwner := activeByOwner[owner := id];
      return Ok(id);
    }

    /** Commit and rollback of this engine are both `finish`. */
    method Finish(id: TransactionId)
      requires Valid()
      modifies this
      ensures Valid()
      ensures handles == old(handles) - {id}
      ensures activeByOwner == Cleared(old(activeByOwner), id)
    {
      if id in handles {
        var handle := handles[id];
        handles := handles - {id};
        activeByOwner := activeByOwner - {handle.owner};
      }
    }

    /** An owner is active exactly if some live handle is its own, and the answer is that handle's transaction. */
    method ActiveForOwner(owner: Owner) returns (r: Option<TransactionId>)
      requires Valid()
      ensures r.Some? <==> exists id :: id in handles && handles[id].owner == owner
      ensures r.Some? ==> r.value in handles && handles[r.value] == Handle(r.value, owner)
    {
      r := if owner in activeByOwner then Some(activeByOwner[owner]) else None;
    }

    /** A handle is found exactly while its transaction is the active one of its owner. */
    method GetHandle(id: TransactionId) returns (r: Option<Handle>)
      requires Valid()
      ensures r.Some? <==> id in activeByOwner.Values
      ensures r.Some? ==> r.value.id == id && r.value.owner in activeByOwner && activeByOwner[r.value.owner] == id
    {
      r := if id in handles then Some(handles[id]) else None;
      assert r.Some? ==> activeByOwner[handles[id].owner] == id;
    }

    /** A transaction that begins and finishes leaves both maps as they were. */
    method BeginThenFinish(owner: Owner, id: TransactionId) returns (r: Result<TransactionId, string>)
      requires Valid() && id !in handles
      modifies this
      ensures Valid() && activeByOwner == old(activeByOwner) && handles == old(handles)
    {
      r := Begin(owner, id);
      if r.Ok? {
        Finish(id);
      }
    }
  }

  // ---------------------------------------------------------------------------------------------
  // Those calls are runs of the machine
  // ---------------------------------------------------------------------------------------------

  /** No lock is held and `th` is not in a call. */
  predicate IsFree(s: Registry, th: Thread) {
    s.At(th).Idle? && s.ownerLock.None? && s.handleLock.None?
  }

  lemma FourSteps(s: Registry, steps: seq<Step>)
    requires |steps| == 4 && Enabled(s, steps[0])
    requires var s1 := Apply(s, steps[0]);
             && Enabled(s1, steps[1])
             && var s2 := Apply(s1, steps[1]);
                && Enabled(s2, steps[2]) && Enabled(Apply(s2, steps[2]), steps[3])
    ensures IsRun(s, steps)
    ensures Run(s, steps) == Apply(Apply(Apply(Apply(s, steps[0]), steps[1]), steps[2]), steps[3])
  {
    var s1 := Apply(s, steps[0]);
    var s2 := Apply(s1, steps[1]);
    var s3 := Apply(s2, steps[2]);
    OneMoreStep(s3, steps[3], []);
    OneMoreStep(s2, steps[2], [steps[3]] + []);
    OneMoreStep(s1, steps[1], [steps[2]] + ([steps[3]] + []));
    OneMoreStep(s, steps[0], [steps[1]] + ([steps[2]] + ([steps[3]] + [])));
    assert [steps[0]] + ([steps[1]] + ([steps[2]] + ([steps[3]] + []))) == steps;
  }

  lemma OneMoreStep(s: Registry, step: Step, steps: seq<Step>)
    requires Enabled(s, step) && IsRun(Apply(s, step), steps)
    ensures IsRun(s, [step] + steps) && Run(s, [step] + steps) == Run(Apply(s, step), steps)
  {
    assert ([step] + steps)[1..] == steps;
  }

  /** A `begin` of an owner with a transaction, and a `finish` of an unknown one, end without changing a map. */
  lemma IdleCallsAreRuns(s: Registry, th: Thread, owner: Owner, id: TransactionId)
    requires IsFree(s, th)
    ensures owner in s.active ==> IsRun(s, [BeginLock(th, owner)]) && Run(s, [BeginLock(th, owner)]) == s
    ensures id !in s.handles ==>
              && IsRun(s, [FinishLock(th, id), FinishTake(th)])
              && var s' := Run(s, [FinishLock(th, id), FinishTake(th)]);
                 IsFree(s', th) && s'.active == s.active && s'.handles == s.handles
  {
    if owner in s.active {
      OneMoreStep(s, BeginLock(th, owner), []);
      assert [BeginLock(th, owner)] + [] == [BeginLock(th, owner)];
    }
    if id !in s.handles {
      var s1 := Apply(s, FinishLock(th, id));
      OneMoreStep(s1, FinishTake(th), []);
      OneMoreStep(s, FinishLock(th, id), [FinishTake(th)] + []);
      assert [FinishLock(th, id)] + ([FinishTake(th)] + []) == [FinishLock(th, id), FinishTake(th)];
    }
  }

  /** An uninterrupted `begin` does to both maps what `TransactionEngine.Begin` does. */
  lemma BeginIsRun(s: Registry, th: Thread, owner: Owner, id: TransactionId)
    requires IsFree(s, th) && owner !in s.active && id !in s.issued
    ensures var steps := [BeginLock(th, owner), BeginLockHandles(th), BeginRecord(th, id), BeginPublish(th)];
            && IsRun(s, steps)
            && var s' := Run(s, steps);
               && IsFree(s', th)
               && s'.active == s.active[owner := id] && s'.handles == s.handles[id := Handle(id, owner)]
  {
    FourSteps(s, [BeginLock(th, owner), BeginLockHandles(th), BeginRecord(th, id), BeginPublish(th)]);
  }

  /** An uninterrupted `finish` of a live transaction does what `TransactionEngine.Finish` does. */
  lemma FinishIsRun(s: Registry, th: Thread, id: TransactionId)
    requires IsFree(s, th) && id in s.handles && Inverse(s.active, s.handles)
    ensures var steps := [FinishLock(th, id), FinishTake(th), FinishLockOwners(th), FinishClear(th)];
            && IsRun(s, steps)
            && var s' := Run(s, steps);
               IsFree(s', th) && s'.active == Cleared(s.active, id) && s'.handles == s.handles - {id}
  {
    FourSteps(s, [FinishLock(th, id), FinishTake(th), FinishLockOwners(th), FinishClear(th)]);
    assert s.active - {s.handles[id].owner} == Cleared(s.active, id);
  }
}
