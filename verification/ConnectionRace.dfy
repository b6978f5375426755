/**
 `register_connection` tests the connection count and then adds to it, in two separate atomic operations. This
 module lets any number of threads interleave those operations, with `unregister_connection` in between, on the
 record of one address, and finds by exactly how much the limit can be passed.
 */
module ConnectionRace {
  import GuardModel

  /** `passed` holds the threads that have read a count below the limit and have not added to it yet. */
  datatype Race = Race(active: nat, passed: set<nat>)

  datatype Step =
    | Load(thread: nat)
    | Add(thread: nat)
    | Close

  const START := Race(0, {})

  /** Threads are numbered below `threads`; a thread finishes one registration before it begins another. */
  predicate Enabled(threads: nat, s: Race, step: Step) {
    match step
    case Load(i) => i < threads && i !in s.passed
    case Add(i) => i in s.passed
    case Close => true
  }

  function Apply(max: nat, s: Race, step: Step): Race {
    match step
    case Load(i) => if s.active >= max then s else s.(passed := s.passed + {i})
    case Add(i) => Race(s.active + 1, s.passed - {i})
    case Close => s.(active := if s.active == 0 then 0 else s.active - 1)
  }

  function Run(max: nat, s: Race, steps: seq<Step>): Race
    decreases |steps|
  {
    if steps == [] then s else Run(max, Apply(max, s, steps[0]), steps[1..])
  }

  /** Every step is possible where it is taken, and never more than `overlap` threads are between load and add. */
  ghost predicate IsRun(max: nat, threads: nat, overlap: nat, s: Race, steps: seq<Step>)
    decreases |steps|
  {
    && |s.passed| <= overlap
    && (steps != [] ==>
          && Enabled(threads, s, steps[0])
          && IsRun(max, threads, overlap, Apply(max, s, steps[0]), steps[1..]))
  }

  ghost predicate Bounded(max: nat, overlap: nat, s: Race) {
    s.active + |s.passed| <= if max == 0 then 0 else max - 1 + overlap
  }

  /**
   With at most `overlap` registrations under way at once, connections plus registrations past the test stay
   within `max - 1 + overlap`, and within zero when `max` is zero. Calls that do not overlap (`overlap == 1`) keep
   the limit itself.
   */
  lemma {:induction false} LimitUnderOverlap(max: nat, threads: nat, overlap: nat, s: Race, steps: seq<Step>)
    requires overlap > 0 && Bounded(max, overlap, s) && IsRun(max, threads, overlap, s, steps)
    ensures Bounded(max, overlap, Run(max, s, steps))
    ensures overlap == 1 ==> Run(max, s, steps).active <= max
    decreases |steps|
  {
    if steps != [] {
      var next := Apply(max, s, steps[0]);
      if steps[0].Add? {
        assert next.passed + {steps[0].thread} == s.passed;
        assert |next.passed| == |s.passed| - 1;
      }
      LimitUnderOverlap(max, threads, overlap, next, steps[1..]);
    }
  }

  /**
   Without interference the steps are the calls of the guard: a load that passes and its add are a registration, a
   load that does not pass is a refusal, and a close is a deregistration.
   */
  lemma StepsAreCalls(cfg: GuardModel.Config, r: GuardModel.IpRecord, now: int, later: int, s: Race, i: nat,
                      threads: nat)
    requires s.active == r.active && i !in s.passed && !GuardModel.BannedAt(r, now)
    ensures var (r', answer) := GuardModel.RegisterRecord(cfg, r, now, later);
            var loaded := Apply(cfg.maxConnections, s, Load(i));
            && (answer.Allowed? <==> loaded != s)
            && (answer.Allowed? ==> Apply(cfg.maxConnections, loaded, Add(i)) == Race(r'.active, s.passed))
            && (!answer.Allowed? ==> r'.active == s.active)
    ensures Apply(cfg.maxConnections, s, Close) == Race(GuardModel.UnregisterRecord(r).active, s.passed)
    ensures Enabled(threads, s, Close) && (i < threads ==> Enabled(threads, s, Load(i)))
    ensures var loaded := Apply(cfg.maxConnections, s, Load(i)); loaded != s ==> Enabled(threads, loaded, Add(i))
  {
    assert s.passed + {i} - {i} == s.passed;
  }

  // ---------------------------------------------------------------------------------------------
  // T threads can have at most T registrations under way
  // ---------------------------------------------------------------------------------------------

  ghost predicate EnabledRun(max: nat, threads: nat, s: Race, steps: seq<Step>)
    decreases |steps|
  {
    steps != [] ==> Enabled(threads, s, steps[0]) && EnabledRun(max, threads, Apply(max, s, steps[0]), steps[1..])
  }

  lemma {:induction false} CountBelow(s: set<nat>, n: nat)
    requires forall x :: x in s ==> x < n
    ensures |s| <= n
  {
    if n == 0 {
      assert s == {};
    } else {
      var rest := s - {n - 1};
      CountBelow(rest, n - 1);
      assert s <= rest + {n - 1};
      if n - 1 in s {
        assert |s| == |rest| + 1;
      } else {
        assert s == rest;
      }
    }
  }

  lemma {:induction false} ThreadsBoundOverlap(max: nat, threads: nat, s: Race, steps: seq<Step>)
    requires EnabledRun(max, threads, s, steps)
    requires forall i :: i in s.passed ==> i < threads
    ensures IsRun(max, threads, threads, s, steps)
    decreases |steps|
  {
    CountBelow(s.passed, threads);
    if steps != [] {
      ThreadsBoundOverlap(max, threads, Apply(max, s, steps[0]), steps[1..]);
    }
  }

  /** Every interleaving of `threads` threads from an unused record. */
  lemma LimitUnderThreads(max: nat, threads: nat, steps: seq<Step>)
    requires threads > 0 && EnabledRun(max, threads, START, steps)
    ensures var s := Run(max, START, steps); s.active + |s.passed| <= if max == 0 then 0 else max - 1 + threads
  {
    ThreadsBoundOverlap(max, threads, START, steps);
    LimitUnderOverlap(max, threads, threads, START, steps);
  }

  // ---------------------------------------------------------------------------------------------
  // The bound is reached
  // ---------------------------------------------------------------------------------------------

  function FillSteps(n: nat): seq<Step> {
    if n == 0 then [] else [Load(0), Add(0)] + FillSteps(n - 1)
  }

  function LoadSteps(lo: nat, hi: nat): seq<Step>
    requires lo <= hi
    decreases hi - lo
  {
    if lo == hi then [] else [Load(lo)] + LoadSteps(lo + 1, hi)
  }

  function AddSteps(lo: nat, hi: nat): seq<Step>
    requires lo <= hi
    decreases hi - lo
  {
    if lo == hi then [] else [Add(lo)] + AddSteps(lo + 1, hi)
  }

  function Interval(lo: nat, hi: nat): (r: set<nat>)
    requires lo <= hi
    ensures forall i :: i in r <==> lo <= i < hi
    decreases hi - lo
  {
    if lo == hi then {} else {lo} + Interval(lo + 1, hi)
  }

  lemma {:induction false} Compose(max: nat, threads: nat, s: Race, a: seq<Step>, b: seq<Step>)
    requires EnabledRun(max, threads, s, a) && EnabledRun(max, threads, Run(max, s, a), b)
    ensures EnabledRun(max, threads, s, a + b)
    ensures Run(max, s, a + b) == Run(max, Run(max, s, a), b)
    decreases |a|
  {
    if a == [] {
      assert a + b == b;
    } else {
      assert (a + b)[0] == a[0] && (a + b)[1..] == a[1..] + b;
      Compose(max, threads, Apply(max, s, a[0]), a[1..], b);
    }
  }

  lemma {:induction false} Fill(max: nat, threads: nat, n: nat, done: nat)
    requires threads > 0 && done + n <= max
    ensures EnabledRun(max, threads, Race(done, {}), FillSteps(n))
    ensures Run(max, Race(done, {}), FillSteps(n)) == Race(done + n, {})
    decreases n
  {
    if n > 0 {
      Fill(max, threads, n - 1, done + 1);
      var s := Race(done, {});
      var s1 := Apply(max, s, Load(0));
      assert s1 == Race(done, {0});
      assert Apply(max, s1, Add(0)) == Race(done + 1, {});
      var steps := FillSteps(n);
      assert steps[0] == Load(0) && steps[1..][0] == Add(0) && steps[1..][1..] == FillSteps(n - 1);
    }
  }

  lemma {:induction false} LoadAll(max: nat, threads: nat, active: nat, lo: nat)
    requires active < max && lo <= threads
    ensures var s := Race(active, Interval(0, lo));
            && EnabledRun(max, threads, s, LoadSteps(lo, threads))
            && Run(max, s, LoadSteps(lo, threads)) == Race(active, Interval(0, threads))
    decreases threads - lo
  {
    if lo < threads {
      LoadAll(max, threads, active, lo + 1);
      assert Apply(max, Race(active, Interval(0, lo)), Load(lo)) == Race(active, Interval(0, lo + 1));
    }
  }

  lemma {:induction false} AddAll(max: nat, threads: nat, active: nat, lo: nat)
    requires lo <= threads
    ensures var s := Race(active, Interval(lo, threads));
            && EnabledRun(max, threads, s, AddSteps(lo, threads))
            && Run(max, s, AddSteps(lo, threads)) == Race(active + (threads - lo), {})
    decreases threads - lo
  {
    if lo < threads {
      AddAll(max, threads, active + 1, lo + 1);
      assert Apply(max, Race(active, Interval(lo, threads)), Add(lo)) == Race(active + 1, Interval(lo + 1, threads));
    }
  }

  /** For every limit and every number of threads some interleaving ends exactly at the bound. */
  lemma OvershootIsExact(max: nat, threads: nat) returns (steps: seq<Step>)
    requires max > 0 && threads > 0
    ensures EnabledRun(max, threads, START, steps)
    ensures Run(max, START, steps).active == max - 1 + threads
  {
    Fill(max, threads, max - 1, 0);
    LoadAll(max, threads, max - 1, 0);
    AddAll(max, threads, max - 1, 0);
    Compose(max, threads, START, FillSteps(max - 1), LoadSteps(0, threads));
    Compose(max, threads, START, FillSteps(max - 1) + LoadSteps(0, threads), AddSteps(0, threads));
    steps := FillSteps(max - 1) + LoadSteps(0, threads) + AddSteps(0, threads);
  }
}
