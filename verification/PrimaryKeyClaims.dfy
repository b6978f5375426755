/**
 Claims on primary keys: a transaction that wants a claimed key waits until its holder lets go. A waiter looks at
 the claim under the lock, registers with the notifier of that claim after giving up the lock, looks again, and
 sleeps if the key is still taken. Any number of transactions interleave between these points.

 A key never has two holders. A wake-up can be lost, though, and the module shows exactly when.
 */
module PrimaryKeyClaims {

  type Key = string
  type Owner = string
  type Notifier = nat

  datatype Claim = Claim(owner: Owner, notifier: Notifier)

  datatype Pc =
    | Trying
    | Looked(seen: Notifier)                       // found the key taken, lock given up
    | Registered(seen: Notifier, woken: bool)      // will hear that notifier
    | Asleep(seen: Notifier, woken: bool)          // found the key still taken
    | Holding
    | Released

  /** One call that wants `key` for `owner`. */
  datatype Task = Task(key: Key, owner: Owner, pc: Pc)

  /** `next` numbers the notifiers; every claim gets one of its own. */
  datatype State = State(claims: map<Key, Claim>, tasks: map<nat, Task>, next: Notifier)

  datatype Step =
    | Look(task: nat)
    | Register(task: nat)
    | LookAgain(task: nat)
    | Wake(task: nat)
    | ReleaseKey(owner: Owner, key: Key)
    | ReleaseOwner(owner: Owner)

  predicate Enabled(s: State, step: Step) {
    match step
    case Look(t) => t in s.tasks && s.tasks[t].pc.Trying?
    case Register(t) => t in s.tasks && s.tasks[t].pc.Looked?
    case LookAgain(t) => t in s.tasks && s.tasks[t].pc.Registered?
    case Wake(t) => t in s.tasks && s.tasks[t].pc.Asleep? && s.tasks[t].pc.woken
    case ReleaseKey(_, _) => true
    case ReleaseOwner(_) => true
  }

  function WithPc(s: State, t: nat, pc: Pc): State
    requires t in s.tasks
  {
    s.(tasks := s.tasks[t := s.tasks[t].(pc := pc)])
  }

  predicate TakenByOther(s: State, task: Task) {
    task.key in s.claims && s.claims[task.key].owner != task.owner
  }

  /** The step drops the claim on `key`. */
  predicate Drops(s: State, step: Step, key: Key) {
    && key in s.claims
    && match step
       case ReleaseKey(owner, k) => k == key && s.claims[key].owner == owner
       case ReleaseOwner(owner) => s.claims[key].owner == owner
       case _ => false
  }

  /** The notifiers of dropped claims wake whoever is registered with them; their holders are through. */
  function Hear(s: State, step: Step, task: Task): Pc {
    match task.pc
    case Registered(seen, woken) => Registered(seen, woken || NotifierFires(s, step, task.key, seen))
    case Asleep(seen, woken) => Asleep(seen, woken || NotifierFires(s, step, task.key, seen))
    case Holding => if Drops(s, step, task.key) then Released else Holding
    case pc => pc
  }

  predicate NotifierFires(s: State, step: Step, key: Key, n: Notifier) {
    Drops(s, step, key) && s.claims[key].notifier == n
  }

  function Apply(s: State, step: Step): State
    requires Enabled(s, step)
  {
    match step
    case Look(t) =>
      var task := s.tasks[t];
      if task.key !in s.claims then
        WithPc(s, t, Holding).(claims := s.claims[task.key := Claim(task.owner, s.next)], next := s.next + 1)
      else if s.claims[task.key].owner == task.owner then WithPc(s, t, Holding)
      else WithPc(s, t, Looked(s.claims[task.key].notifier))
    case Register(t) => WithPc(s, t, Registered(s.tasks[t].pc.seen, false))
    case LookAgain(t) =>
      var Registered(seen, woken) := s.tasks[t].pc;
      WithPc(s, t, if TakenByOther(s, s.tasks[t]) then Asleep(seen, woken) else Trying)
    case Wake(t) => WithPc(s, t, Trying)
    case _ =>
      s.(claims := map k | k in s.claims && !Drops(s, step, k) :: s.claims[k],
         tasks := map t | t in s.tasks :: s.tasks[t].(pc := Hear(s, step, s.tasks[t])))
  }

  predicate IsRun(s: State, steps: seq<Step>)
    decreases |steps|
  {
    steps != [] ==> Enabled(s, steps[0]) && IsRun(Apply(s, steps[0]), steps[1..])
  }

  function Run(s: State, steps: seq<Step>): State
    requires IsRun(s, steps)
    decreases |steps|
  {
    if steps == [] then s else Run(Apply(s, steps[0]), steps[1..])
  }

  ghost predicate Init(s: State) {
    s.claims == map[] && forall t :: t in s.tasks ==> s.tasks[t].pc.Trying?
  }

  // ---------------------------------------------------------------------------------------------
  // What the calls do
  // ---------------------------------------------------------------------------------------------

  /**
   A first look takes a free key under a notifier of its own, is content with a key the owner has already, and
   otherwise remembers the notifier of the claim it found. No claim of anyone else changes.
   */
  lemma LookRules(s: State, t: nat)
    requires t in s.tasks && s.tasks[t].pc.Trying?
    ensures var Task(key, owner, _) := s.tasks[t];
            var s' := Apply(s, Look(t));
            && t in s'.tasks && s'.tasks[t].key == key && s'.tasks[t].owner == owner
            && s'.tasks - {t} == s.tasks - {t} && s'.claims - {key} == s.claims - {key}
            && (s'.tasks[t].pc.Holding? <==> key in s.claims ==> s.claims[key].owner == owner)
            && (key !in s.claims ==> key in s'.claims && s'.claims[key] == Claim(owner, s.next) && s.next < s'.next)
            && (key in s.claims ==> s'.claims == s.claims)
            && (!s'.tasks[t].pc.Holding? ==> s'.tasks[t].pc == Looked(s.claims[key].notifier))
  {
  }

  /** A task registers with the notifier it saw, and has not heard it yet; a woken task starts over. */
  lemma RegisterRules(s: State, t: nat)
    requires t in s.tasks
    ensures var Task(key, owner, pc) := s.tasks[t];
            && (pc.Looked? ==>
                  && Enabled(s, Register(t))
                  && Apply(s, Register(t)) == s.(tasks := s.tasks[t := Task(key, owner, Registered(pc.seen, false))]))
            && (pc.Asleep? && pc.woken ==>
                  && Enabled(s, Wake(t))
                  && Apply(s, Wake(t)) == s.(tasks := s.tasks[t := Task(key, owner, Trying)]))
  {
  }

  /** After the second look a task sleeps exactly if the key is still another's; no claim changes. */
  lemma LookAgainRules(s: State, t: nat)
    requires t in s.tasks && s.tasks[t].pc.Registered?
    ensures var Task(key, owner, pc) := s.tasks[t];
            var s' := Apply(s, LookAgain(t));
            && s'.claims == s.claims && t in s'.tasks && s'.tasks - {t} == s.tasks - {t}
            && (s'.tasks[t].pc.Asleep? <==> key in s.claims && s.claims[key].owner != owner)
            && s'.tasks[t] == Task(key, owner, if s'.tasks[t].pc.Asleep? then Asleep(pc.seen, pc.woken) else Trying)
  {
  }

  /** Letting go of one key or of all keys drops just those claims, and only if they are the owner's. */
  lemma ReleaseRules(s: State, owner: Owner, key: Key)
    ensures var s' := Apply(s, ReleaseKey(owner, key));
            s'.claims == if key in s.claims && s.claims[key].owner == owner then s.claims - {key} else s.claims
    ensures var s' := Apply(s, ReleaseOwner(owner));
            && (forall k :: k in s'.claims <==> k in s.claims && s.claims[k].owner != owner)
            && (forall k :: k in s'.claims ==> s'.claims[k] == s.claims[k])
  {
  }

  /** Those who wait for nothing are left alone, but whoever holds a dropped key is through with it. */
  lemma ReleaseEndsHolding(s: State, step: Step, t: nat)
    requires step.ReleaseKey? || step.ReleaseOwner?
    requires t in s.tasks && !s.tasks[t].pc.Registered? && !s.tasks[t].pc.Asleep?
    ensures var Task(key, owner, pc) := s.tasks[t];
            var s' := Apply(s, step);
            && s'.tasks.Keys == s.tasks.Keys && s'.next == s.next
            && s'.tasks[t] == if pc.Holding? && key in s.claims && key !in s'.claims then Task(key, owner, Released)
                              else s.tasks[t]
  {
  }

  /** A task registered with the notifier of a claim hears it when, and only when, that claim is dropped. */
  lemma WakingRules(s: State, step: Step, t: nat)
    requires step.ReleaseKey? || step.ReleaseOwner?
    requires t in s.tasks && (s.tasks[t].pc.Registered? || s.tasks[t].pc.Asleep?)
    ensures var Task(key, owner, pc) := s.tasks[t];
            var s' := Apply(s, step);
            && t in s'.tasks && s'.tasks[t] == Task(key, owner, pc.(woken := s'.tasks[t].pc.woken))
            && (s'.tasks[t].pc.woken <==>
                  pc.woken || (key in s.claims && key !in s'.claims && s.claims[key].notifier == pc.seen))
  {
  }

  // ---------------------------------------------------------------------------------------------
  // Mutual exclusion
  // ---------------------------------------------------------------------------------------------

  ghost predicate TaskOk(s: State, task: Task) {
    && (task.pc.Holding? ==> task.key in s.claims && s.claims[task.key].owner == task.owner)
    && (task.pc.Looked? || task.pc.Registered? || task.pc.Asleep? ==> task.pc.seen < s.next)
  }

  ghost predicate Inv(s: State) {
    && (forall t :: t in s.tasks ==> TaskOk(s, s.tasks[t]))
    && (forall k :: k in s.claims ==> s.claims[k].notifier < s.next)
  }

  lemma StepKeepsInv(s: State, step: Step)
    requires Inv(s) && Enabled(s, step)
    ensures Inv(Apply(s, step)) && s.next <= Apply(s, step).next
  {
    var s' := Apply(s, step);
    forall t | t in s'.tasks ensures TaskOk(s', s'.tasks[t]) {
      assert TaskOk(s, s.tasks[t]);
    }
  }

  lemma {:induction false} RunKeepsInv(s: State, steps: seq<Step>)
    requires Inv(s) && IsRun(s, steps)
    ensures Inv(Run(s, steps))
    decreases |steps|
  {
    if steps != [] {
      StepKeepsInv(s, steps[0]);
      RunKeepsInv(Apply(s, steps[0]), steps[1..]);
    }
  }

  /** In every interleaving, calls that hold one key at the same time belong to one transaction. */
  lemma KeyHasOneOwner(s: State, steps: seq<Step>, t: nat, u: nat)
    requires Init(s) && IsRun(s, steps)
    requires var f := Run(s, steps);
             && t in f.tasks && u in f.tasks && f.tasks[t].key == f.tasks[u].key
             && f.tasks[t].pc.Holding? && f.tasks[u].pc.Holding?
    ensures Run(s, steps).tasks[t].owner == Run(s, steps).tasks[u].owner
  {
    assert Inv(s);
    RunKeepsInv(s, steps);
    var f := Run(s, steps);
    assert TaskOk(f, f.tasks[t]) && TaskOk(f, f.tasks[u]);
  }

  // ---------------------------------------------------------------------------------------------
  // Lost wake-ups
  // ---------------------------------------------------------------------------------------------

  /** Asleep on a notifier that no claim on its key has any more. */
  predicate Stranded(s: State, t: nat) {
    && t in s.tasks && s.tasks[t].pc.Asleep? && !s.tasks[t].pc.woken
    && !(s.tasks[t].key in s.claims && s.claims[s.tasks[t].key].notifier == s.tasks[t].pc.seen)
  }

  ghost predicate SomeStranded(s: State) {
    exists t :: Stranded(s, t)
  }

  /** The second look of a task that was not woken finds the key taken under another claim than the first did. */
  predicate IsStale(s: State, step: Step) {
    && step.LookAgain? && Enabled(s, step)
    && TakenByOther(s, s.tasks[step.task])
    && !s.tasks[step.task].pc.woken
    && s.claims[s.tasks[step.task].key].notifier != s.tasks[step.task].pc.seen
  }

  lemma StrandedStays(s: State, step: Step, t: nat)
    requires Inv(s) && Enabled(s, step) && Stranded(s, t)
    ensures Stranded(Apply(s, step), t)
  {
    assert TaskOk(s, s.tasks[t]);
  }

  /** Nothing ever wakes a stranded task. */
  lemma {:induction false} StrandedForever(s: State, steps: seq<Step>, t: nat)
    requires Inv(s) && IsRun(s, steps) && Stranded(s, t)
    ensures Stranded(Run(s, steps), t)
    decreases |steps|
  {
    if steps != [] {
      StrandedStays(s, steps[0], t);
      StepKeepsInv(s, steps[0]);
      StrandedForever(Apply(s, steps[0]), steps[1..], t);
    }
  }

  /** One step strands a task exactly when it is that task's stale second look. */
  lemma StrandingStep(s: State, step: Step, t: nat)
    requires Inv(s) && Enabled(s, step) && !Stranded(s, t)
    ensures Stranded(Apply(s, step), t) <==> IsStale(s, step) && step.task == t
  {
    if t in s.tasks {
      assert TaskOk(s, s.tasks[t]);
    }
  }

  ghost predicate HasStale(s: State, steps: seq<Step>)
    requires IsRun(s, steps)
    decreases |steps|
  {
    steps != [] && (IsStale(s, steps[0]) || HasStale(Apply(s, steps[0]), steps[1..]))
  }

  lemma {:induction false} StrandedFromStale(s: State, steps: seq<Step>)
    requires Inv(s) && IsRun(s, steps) && !SomeStranded(s)
    ensures SomeStranded(Run(s, steps)) <==> HasStale(s, steps)
    decreases |steps|
  {
    if steps != [] {
      var s' := Apply(s, steps[0]);
      StepKeepsInv(s, steps[0]);
      forall t ensures Stranded(s', t) <==> IsStale(s, steps[0]) && steps[0].task == t {
        StrandingStep(s, steps[0], t);
      }
      if IsStale(s, steps[0]) {
        StrandedForever(s', steps[1..], steps[0].task);
        assert Stranded(Run(s', steps[1..]), steps[0].task);
      } else {
        StrandedFromStale(s', steps[1..]);
      }
    }
  }

  /** A run from the start leaves some task asleep for good if and only if it has a stale second look. */
  lemma WakeUpsLostExactlyWhenStale(s: State, steps: seq<Step>)
    requires Init(s) && IsRun(s, steps)
    ensures SomeStranded(Run(s, steps)) <==> HasStale(s, steps)
  {
    assert Inv(s);
    StrandedFromStale(s, steps);
  }

  lemma {:induction false} Concat(s: State, a: seq<Step>, b: seq<Step>)
    requires IsRun(s, a) && IsRun(Run(s, a), b)
    ensures IsRun(s, a + b) && Run(s, a + b) == Run(Run(s, a), b)
    decreases |a|
  {
    if a == [] {
      assert a + b == b;
    } else {
      assert (a + b)[0] == a[0] && (a + b)[1..] == a[1..] + b;
      Concat(Apply(s, a[0]), a[1..], b);
    }
  }

  lemma OneStep(s: State, steps: seq<Step>)
    requires steps != [] && Enabled(s, steps[0]) && IsRun(Apply(s, steps[0]), steps[1..])
    ensures IsRun(s, steps) && Run(s, steps) == Run(Apply(s, steps[0]), steps[1..])
  {
  }

  function Contenders(key: Key, a: Pc, b: Pc, c: Pc, owners: (Owner, Owner, Owner)): map<nat, Task> {
    map[0 := Task(key, owners.0, a), 1 := Task(key, owners.1, b), 2 := Task(key, owners.2, c)]
  }

  lemma KeyIsReleased(key: Key, o: (Owner, Owner, Owner))
    requires o.0 != o.1
    ensures var s := State(map[], Contenders(key, Trying, Trying, Trying, o), 0);
            var steps := [Look(0), Look(1), ReleaseOwner(o.0)];
            IsRun(s, steps) && Run(s, steps) == State(map[], Contenders(key, Released, Looked(0), Trying, o), 1)
  {
    var s0 := State(map[], Contenders(key, Trying, Trying, Trying, o), 0);
    var steps := [Look(0), Look(1), ReleaseOwner(o.0)];
    var s1 := Apply(s0, steps[0]);
    assert s1 == State(map[key := Claim(o.0, 0)], Contenders(key, Holding, Trying, Trying, o), 1);
    var s2 := Apply(s1, steps[1]);
    assert s2 == State(map[key := Claim(o.0, 0)], Contenders(key, Holding, Looked(0), Trying, o), 1);
    HolderReleases(key, o);
    OneStep(s2, steps[2..]);
    OneStep(s1, steps[1..]);
    OneStep(s0, steps);
  }

  lemma HolderReleases(key: Key, o: (Owner, Owner, Owner))
    ensures var s := State(map[key := Claim(o.0, 0)], Contenders(key, Holding, Looked(0), Trying, o), 1);
            Apply(s, ReleaseOwner(o.0)) == State(map[], Contenders(key, Released, Looked(0), Trying, o), 1)
  {
    var s := State(map[key := Claim(o.0, 0)], Contenders(key, Holding, Looked(0), Trying, o), 1);
    var s' := Apply(s, ReleaseOwner(o.0));
    assert s'.claims == map[];
    assert s'.tasks == Contenders(key, Released, Looked(0), Trying, o);
  }

  lemma KeyIsTakenAgain(key: Key, o: (Owner, Owner, Owner))
    requires o.1 != o.2
    ensures var s := State(map[], Contenders(key, Released, Looked(0), Trying, o), 1);
            var steps := [Look(2), Register(1), LookAgain(1)];
            IsRun(s, steps) && Stranded(Run(s, steps), 1)
  {
    var s0 := State(map[], Contenders(key, Released, Looked(0), Trying, o), 1);
    var steps := [Look(2), Register(1), LookAgain(1)];
    var s1 := Apply(s0, steps[0]);
    assert s1 == State(map[key := Claim(o.2, 1)], Contenders(key, Released, Looked(0), Holding, o), 2);
    var s2 := Apply(s1, steps[1]);
    assert s2 == State(map[key := Claim(o.2, 1)], Contenders(key, Released, Registered(0, false), Holding, o), 2);
    assert Stranded(Apply(s2, steps[2]), 1);
    OneStep(s2, steps[2..]);
    OneStep(s1, steps[1..]);
    OneStep(s0, steps);
  }

  /** All through the run, `claim` is the claim on `key`. */
  ghost predicate KeepsClaim(s: State, steps: seq<Step>, key: Key, claim: Claim)
    requires IsRun(s, steps)
    decreases |steps|
  {
    && key in s.claims && s.claims[key] == claim
    && (steps != [] ==> KeepsClaim(Apply(s, steps[0]), steps[1..], key, claim))
  }

  /** Task `t` waits for another's claim on its key, and for nothing else. */
  ghost predicate WaitsFor(s: State, t: nat, key: Key, owner: Owner, claim: Claim) {
    && t in s.tasks && s.tasks[t].key == key && s.tasks[t].owner == owner
    && s.tasks[t].pc in {Trying, Looked(claim.notifier), Registered(claim.notifier, false),
                         Asleep(claim.notifier, false)}
  }

  lemma WaitGoesOn(s: State, step: Step, t: nat, key: Key, owner: Owner, claim: Claim)
    requires Enabled(s, step) && WaitsFor(s, t, key, owner, claim) && owner != claim.owner
    requires key in s.claims && s.claims[key] == claim
    requires key in Apply(s, step).claims && Apply(s, step).claims[key] == claim
    ensures WaitsFor(Apply(s, step), t, key, owner, claim)
  {
  }

  lemma {:induction false} WaitsThroughout(s: State, steps: seq<Step>, t: nat, key: Key, owner: Owner, claim: Claim)
    requires IsRun(s, steps) && KeepsClaim(s, steps, key, claim)
    requires WaitsFor(s, t, key, owner, claim) && owner != claim.owner
    ensures WaitsFor(Run(s, steps), t, key, owner, claim)
    ensures key in Run(s, steps).claims && Run(s, steps).claims[key] == claim
    decreases |steps|
  {
    if steps != [] {
      assert KeepsClaim(Apply(s, steps[0]), steps[1..], key, claim);
      WaitGoesOn(s, steps[0], t, key, owner, claim);
      WaitsThroughout(Apply(s, steps[0]), steps[1..], t, key, owner, claim);
    }
  }

  /**
   A task that begins to wait while another's claim is on its key, and goes on waiting as long as that claim stays,
   does not get the key before; and if it has come to sleep, letting go of the claim wakes it, in every interleaving.
   */
  lemma ReleaseWakesWaiter(s: State, steps: seq<Step>, t: nat, release: Step)
    requires IsRun(s, steps) && t in s.tasks && s.tasks[t].pc.Trying? && TakenByOther(s, s.tasks[t])
    requires KeepsClaim(s, steps, s.tasks[t].key, s.claims[s.tasks[t].key])
    requires var owner := s.claims[s.tasks[t].key].owner;
             release == ReleaseKey(owner, s.tasks[t].key) || release == ReleaseOwner(owner)
    ensures var f := Run(s, steps);
            && t in f.tasks && !f.tasks[t].pc.Holding?
            && (f.tasks[t].pc.Asleep? ==> Enabled(Apply(f, release), Wake(t)))
            && (f.tasks[t].pc.Registered? ==>
                  var g := Apply(Apply(f, release), LookAgain(t)); t in g.tasks && g.tasks[t].pc.Trying?)
  {
    var Task(key, owner, _) := s.tasks[t];
    WaitsThroughout(s, steps, t, key, owner, s.claims[key]);
  }

  /**
   In a run without a stale second look, every task that sleeps can still get its key: once the owner on record lets
   go of it, the sleeper wakes, and unless another is faster it takes the key.
   */
  lemma SleeperIsServed(s: State, steps: seq<Step>, t: nat)
    requires Init(s) && IsRun(s, steps) && !HasStale(s, steps)
    requires var f := Run(s, steps); t in f.tasks && f.tasks[t].pc.Asleep? && !f.tasks[t].pc.woken
    ensures var f := Run(s, steps);
            var key, owner := f.tasks[t].key, f.tasks[t].owner;
            && key in f.claims
            && (var last := [ReleaseOwner(f.claims[key].owner), Wake(t), Look(t)];
                && IsRun(f, last)
                && var g := Run(f, last);
                   && t in g.tasks && g.tasks[t] == Task(key, owner, Holding)
                   && key in g.claims && g.claims[key].owner == owner)
  {
    WakeUpsLostExactlyWhenStale(s, steps);
    var f := Run(s, steps);
    var task := f.tasks[t];
    assert !Stranded(f, t);
    var last := [ReleaseOwner(f.claims[task.key].owner), Wake(t), Look(t)];
    var f1 := Apply(f, last[0]);
    assert task.key !in f1.claims && f1.tasks[t] == Task(task.key, task.owner, Asleep(task.pc.seen, true));
    var f2 := Apply(f1, last[1]);
    OneStep(f2, last[2..]);
    OneStep(f1, last[1..]);
    OneStep(f, last);
  }

  /** It happens: the key passes from one holder to another between the first look of a waiter and its registration. */
  lemma WakeUpCanBeLost(key: Key, o: (Owner, Owner, Owner)) returns (s: State, steps: seq<Step>)
    requires o.0 != o.1 && o.1 != o.2
    ensures Init(s) && IsRun(s, steps) && Stranded(Run(s, steps), 1)
  {
    s := State(map[], Contenders(key, Trying, Trying, Trying, o), 0);
    steps := [Look(0), Look(1), ReleaseOwner(o.0)] + [Look(2), Register(1), LookAgain(1)];
    KeyIsReleased(key, o);
    KeyIsTakenAgain(key, o);
    Concat(s, [Look(0), Look(1), ReleaseOwner(o.0)], [Look(2), Register(1), LookAgain(1)]);
  }
}
