/**
 Two facts about whole runs of the connection guard: forgetting an expired ban while reading it is never
 observable, and a ban in force is answered with the same end until that end.
 */
module GuardRefinement {
  import opened Wrappers
  import opened GuardModel

  // ---------------------------------------------------------------------------------------------
  // A guard that never forgets: a ban is in force exactly while the clock is before its end
  // ---------------------------------------------------------------------------------------------

  function PlainCheck(cfg: Config, r: IpRecord, now: Instant, later: Instant, granted: bool): (IpRecord, Answer) {
    if BannedAt(r, now) then (r, Banned(r.until.value))
    else if granted then (r, Allowed)
    else (Punish(cfg, r, later, RatePenalty(r.violations + 1)), RateLimitExceeded)
  }

  function PlainRegister(cfg: Config, r: IpRecord, now: Instant, later: Instant): (IpRecord, Answer) {
    if BannedAt(r, now) then (r, Banned(r.until.value))
    else if r.active >= cfg.maxConnections then
      (Punish(cfg, r, later, ConnectionPenalty(r.violations + 1)), TooManyConnections(r.active, cfg.maxConnections))
    else (r.(active := r.active + 1), Allowed)
  }

  function PlainStats(g: Guard, sweep: Sweep, acc: Stats): Stats {
    if sweep == [] then acc else PlainStats(g, sweep[1..], Tally(g, sweep[0].0, sweep[0].1, acc))
  }

  function PlainStep(cfg: Config, g: Guard, call: Call): (Guard, Answer) {
    match call
    case CheckRequest(ip, size, now, later, granted) =>
      if !cfg.enabled then (g, Allowed)
      else if size.Some? && size.value > cfg.bodyLimit then (g, BodyTooLarge(size.value, cfg.bodyLimit))
      else if ip.IsLoopback() then (g, Allowed)
      else
        var (r, answer) := PlainCheck(cfg, Lookup(g, ip), now, later, granted);
        (g[ip := r], answer)
    case RegisterConnection(ip, now, later) =>
      if !cfg.enabled || ip.IsLoopback() then (g, Allowed)
      else
        var (r, answer) := PlainRegister(cfg, Lookup(g, ip), now, later);
        (g[ip := r], answer)
    case IsBanned(ip, now) => (g, BannedFlag(ip in g && BannedAt(g[ip], now)))
    case GetStats(sweep) => (g, Counted(PlainStats(g, sweep, Stats(|g|, 0, 0, 0))))
    case _ => Step(cfg, g, call)
  }

  function PlainRun(cfg: Config, g: Guard, calls: seq<Call>): (r: (Guard, seq<Answer>))
    ensures |r.1| == |calls|
    decreases |calls|
  {
    if calls == [] then (g, [])
    else
      var (g1, answer) := PlainStep(cfg, g, calls[0]);
      var (g2, answers) := PlainRun(cfg, g1, calls[1..]);
      (g2, [answer] + answers)
  }

  // ---------------------------------------------------------------------------------------------
  // The refinement
  // ---------------------------------------------------------------------------------------------

  /** The lazy record may have forgotten a ban that ended at or before `t`; everything else agrees. */
  ghost predicate Agrees(lazy: IpRecord, plain: IpRecord, t: Instant) {
    && lazy.active == plain.active
    && lazy.violations == plain.violations
    && (lazy.until == plain.until || (lazy.until == None && plain.until.Some? && plain.until.value <= t))
  }

  ghost predicate Related(lazy: Guard, plain: Guard, t: Instant) {
    lazy.Keys == plain.Keys && forall ip :: ip in lazy ==> Agrees(lazy[ip], plain[ip], t)
  }

  lemma {:induction false} SweepRelated(lazy: Guard, plain: Guard, sweep: Sweep, t: Instant, acc: Stats)
    requires Related(lazy, plain, t) && SweepClocked(sweep, t)
    ensures Related(SweepGuard(lazy, sweep), plain, End(GetStats(sweep), t))
    ensures SweepStats(lazy, sweep, acc) == PlainStats(plain, sweep, acc)
    decreases |sweep|
  {
    if sweep != [] {
      var (ip, now) := sweep[0];
      VisitRelated(lazy, plain, ip, now, t, acc);
      SweepRelated(Visit(lazy, ip, now), plain, sweep[1..], now, Tally(lazy, ip, now, acc));
    }
  }

  lemma VisitRelated(lazy: Guard, plain: Guard, ip: IpAddr, now: Instant, t: Instant, acc: Stats)
    requires Related(lazy, plain, t) && t <= now
    ensures Related(Visit(lazy, ip, now), plain, now)
    ensures Tally(lazy, ip, now, acc) == Tally(plain, ip, now, acc)
  {
  }

  lemma RelatedUpdate(lazy: Guard, plain: Guard, ip: IpAddr, l: IpRecord, p: IpRecord, t: Instant, t': Instant)
    requires Related(lazy, plain, t) && t <= t' && Agrees(l, p, t')
    ensures Related(lazy[ip := l], plain[ip := p], t')
  {
  }

  lemma CheckRefines(cfg: Config, l: IpRecord, p: IpRecord, now: Instant, later: Instant, granted: bool, t: Instant)
    requires Agrees(l, p, t) && t <= now <= later
    ensures Agrees(CheckRecord(cfg, l, now, later, granted).0, PlainCheck(cfg, p, now, later, granted).0, later)
    ensures CheckRecord(cfg, l, now, later, granted).1 == PlainCheck(cfg, p, now, later, granted).1
  {
  }

  lemma RegisterRefines(cfg: Config, l: IpRecord, p: IpRecord, now: Instant, later: Instant, t: Instant)
    requires Agrees(l, p, t) && t <= now <= later
    ensures Agrees(RegisterRecord(cfg, l, now, later).0, PlainRegister(cfg, p, now, later).0, later)
    ensures RegisterRecord(cfg, l, now, later).1 == PlainRegister(cfg, p, now, later).1
  {
  }

  /** The calls that carry their own ban test. */
  lemma AttemptRefines(cfg: Config, lazy: Guard, plain: Guard, call: Call, t: Instant)
    requires Related(lazy, plain, t) && CallClocked(call, t) && (call.CheckRequest? || call.RegisterConnection?)
    ensures Related(Step(cfg, lazy, call).0, PlainStep(cfg, plain, call).0, End(call, t))
    ensures Step(cfg, lazy, call).1 == PlainStep(cfg, plain, call).1
  {
    var l, p := Lookup(lazy, call.ip), Lookup(plain, call.ip);
    if call.CheckRequest? {
      CheckRefines(cfg, l, p, call.now, call.later, call.granted, t);
      RelatedUpdate(lazy, plain, call.ip, CheckRecord(cfg, l, call.now, call.later, call.granted).0,
                    PlainCheck(cfg, p, call.now, call.later, call.granted).0, t, call.later);
    } else {
      RegisterRefines(cfg, l, p, call.now, call.later, t);
      RelatedUpdate(lazy, plain, call.ip, RegisterRecord(cfg, l, call.now, call.later).0,
                    PlainRegister(cfg, p, call.now, call.later).0, t, call.later);
    }
  }

  lemma StepRefines(cfg: Config, lazy: Guard, plain: Guard, call: Call, t: Instant)
    requires Related(lazy, plain, t) && CallClocked(call, t)
    ensures Related(Step(cfg, lazy, call).0, PlainStep(cfg, plain, call).0, End(call, t))
    ensures Step(cfg, lazy, call).1 == PlainStep(cfg, plain, call).1
  {
    if call.CheckRequest? || call.RegisterConnection? {
      AttemptRefines(cfg, lazy, plain, call, t);
    } else if call.GetStats? {
      assert |lazy.Keys| == |plain.Keys|;
      SweepRelated(lazy, plain, call.sweep, t, Stats(|lazy|, 0, 0, 0));
    }
  }

  /** Under any clock that does not run backwards the two guards give the same answers, call for call. */
  lemma {:induction false} LazyExpiryRefinesComparison(cfg: Config, lazy: Guard, plain: Guard, calls: seq<Call>,
                                                       t: Instant)
    requires Related(lazy, plain, t) && Clocked(calls, t)
    ensures Run(cfg, lazy, calls).1 == PlainRun(cfg, plain, calls).1
    decreases |calls|
  {
    if calls != [] {
      StepRefines(cfg, lazy, plain, calls[0], t);
      LazyExpiryRefinesComparison(cfg, Step(cfg, lazy, calls[0]).0, PlainStep(cfg, plain, calls[0]).0,
                                  calls[1..], End(calls[0], t));
    }
  }

  // ---------------------------------------------------------------------------------------------
  // Questions do not disturb
  // ---------------------------------------------------------------------------------------------

  predicate IsQuestion(call: Call) {
    call.IsBanned? || call.GetStats?
  }

  /** `at` are rising places in `calls`, and all calls at other places are questions. */
  ghost predicate LeavesOutQuestions(calls: seq<Call>, at: seq<nat>) {
    && (forall j :: 0 <= j < |at| ==> at[j] < |calls|)
    && Rising(at)
    && (forall k :: 0 <= k < |calls| && !IsQuestion(calls[k]) ==> k in at)
  }

  function Picked(calls: seq<Call>, at: seq<nat>): seq<Call>
    requires forall j :: 0 <= j < |at| ==> at[j] < |calls|
  {
    seq(|at|, j requires 0 <= j < |at| => calls[at[j]])
  }

  /** The places, counted from the second call on. */
  function FromSecond(at: seq<nat>): seq<nat>
    requires forall j :: 0 <= j < |at| ==> at[j] > 0
  {
    seq(|at|, j requires 0 <= j < |at| => at[j] - 1)
  }

  /** The places after the first call, which may or may not be one of them. */
  function Later(at: seq<nat>): seq<nat> {
    if at != [] && at[0] == 0 then at[1..] else at
  }

  ghost predicate Rising(at: seq<nat>) {
    forall i, j :: 0 <= i < j < |at| ==> at[i] < at[j]
  }

  lemma {:induction false} RisingAtLeast(at: seq<nat>, j: nat)
    requires Rising(at) && j < |at|
    ensures at[j] >= j
  {
    if j > 0 {
      RisingAtLeast(at, j - 1);
    }
  }

  lemma RisingIsShort(at: seq<nat>, n: nat)
    requires Rising(at) && forall j :: 0 <= j < |at| ==> at[j] < n
    ensures |at| <= n
  {
    if at != [] {
      RisingAtLeast(at, |at| - 1);
    }
  }

  lemma LaterRises(at: seq<nat>)
    requires Rising(at)
    ensures forall j :: 0 <= j < |Later(at)| ==> Later(at)[j] > 0
    ensures Rising(FromSecond(Later(at)))
  {
    var later := Later(at);
    forall j | 0 <= j < |later| ensures later[j] > 0 {
      assert later != at ==> later[j] == at[j + 1] && at[0] < at[j + 1];
      assert later == at && j > 0 ==> at[0] < at[j];
    }
    assert Rising(later);
  }

  lemma LaterCovers(at: seq<nat>, k: nat)
    requires Rising(at) && k + 1 in at
    ensures forall j :: 0 <= j < |Later(at)| ==> Later(at)[j] > 0
    ensures k in FromSecond(Later(at))
  {
    LaterRises(at);
    var later := Later(at);
    assert k + 1 in later;
    var j :| 0 <= j < |later| && later[j] == k + 1;
    assert FromSecond(later)[j] == k;
  }

  lemma LaterLeavesOut(calls: seq<Call>, at: seq<nat>)
    requires calls != [] && LeavesOutQuestions(calls, at)
    ensures forall j :: 0 <= j < |Later(at)| ==> Later(at)[j] > 0
    ensures LeavesOutQuestions(calls[1..], FromSecond(Later(at)))
  {
    LaterRises(at);
    var later := Later(at);
    var tail := FromSecond(later);
    forall j | 0 <= j < |tail| ensures tail[j] < |calls[1..]| {
      assert tail[j] + 1 == later[j] && later[j] in at;
    }
    forall k | 0 <= k < |calls[1..]| && !IsQuestion(calls[1..][k]) ensures k in tail {
      assert calls[1..][k] == calls[k + 1];
      LaterCovers(at, k);
    }
  }

  /** What is picked, call by call. */
  lemma PickedRest(calls: seq<Call>, at: seq<nat>)
    requires calls != [] && LeavesOutQuestions(calls, at)
    ensures forall j :: 0 <= j < |Later(at)| ==> Later(at)[j] > 0
    ensures LeavesOutQuestions(calls[1..], FromSecond(Later(at)))
    ensures var rest := Picked(calls[1..], FromSecond(Later(at)));
            if at != [] && at[0] == 0 then Picked(calls, at) == [calls[0]] + rest
            else Picked(calls, at) == rest && IsQuestion(calls[0])
  {
    LaterLeavesOut(calls, at);
    var later, rest := Later(at), Picked(calls[1..], FromSecond(Later(at)));
    forall j | 0 <= j < |rest| ensures rest[j] == calls[later[j]] {
      assert calls[1..][later[j] - 1] == calls[later[j]];
    }
    if at == [] || at[0] != 0 {
      assert 0 !in later;
    }
  }

  /** A run of any guard, given by what it does on a call. */
  function RunBy(step: (Guard, Call) -> (Guard, Answer), g: Guard, calls: seq<Call>): seq<Answer>
    decreases |calls|
  {
    if calls == [] then [] else [step(g, calls[0]).1] + RunBy(step, step(g, calls[0]).0, calls[1..])
  }

  lemma {:induction false} PlainRunBy(cfg: Config, g: Guard, calls: seq<Call>)
    ensures PlainRun(cfg, g, calls).1 == RunBy((g, call) => PlainStep(cfg, g, call), g, calls)
    decreases |calls|
  {
    if calls != [] {
      PlainRunBy(cfg, PlainStep(cfg, g, calls[0]).0, calls[1..]);
    }
  }

  lemma FirstAnswer(step: (Guard, Call) -> (Guard, Answer), g: Guard, call: Call, rest: seq<Call>)
    ensures var (g1, answer) := step(g, call); RunBy(step, g, [call] + rest) == [answer] + RunBy(step, g1, rest)
  {
    assert ([call] + rest)[1..] == rest;
  }

  /** `some` are the answers of `all` at these places. */
  ghost predicate AreAt(some: seq<Answer>, all: seq<Answer>, at: seq<nat>) {
    && |some| == |at|
    && forall j :: 0 <= j < |at| ==> at[j] < |all| && some[j] == all[at[j]]
  }

  /** An answer that is not picked. */
  lemma OneMoreSkipped(some: seq<Answer>, all: seq<Answer>, at: seq<nat>, answer: Answer)
    requires forall j :: 0 <= j < |at| ==> at[j] > 0
    requires AreAt(some, all, FromSecond(at))
    ensures AreAt(some, [answer] + all, at)
  {
    forall j | 0 <= j < |at| ensures at[j] < |[answer] + all| && some[j] == ([answer] + all)[at[j]] {
      assert FromSecond(at)[j] == at[j] - 1;
    }
  }

  lemma OneMorePicked(some: seq<Answer>, all: seq<Answer>, at: seq<nat>, answer: Answer)
    requires at != [] && at[0] == 0 && AreAt(some, [answer] + all, at[1..])
    ensures AreAt([answer] + some, [answer] + all, at)
  {
    forall j | 0 <= j < |at| ensures at[j] < |[answer] + all| && ([answer] + some)[j] == ([answer] + all)[at[j]] {
      if j > 0 {
        assert at[1..][j - 1] == at[j] && ([answer] + some)[j] == some[j - 1];
      }
    }
  }

  lemma AnswersWithFirst(step: (Guard, Call) -> (Guard, Answer), g: Guard, call: Call, rest: seq<Call>,
                         some: seq<Call>, at: seq<nat>)
    requires at != [] && at[0] == 0
    requires forall j :: 0 <= j < |at[1..]| ==> at[1..][j] > 0
    requires var g1 := step(g, call).0; AreAt(RunBy(step, g1, some), RunBy(step, g1, rest), FromSecond(at[1..]))
    ensures AreAt(RunBy(step, g, [call] + some), RunBy(step, g, [call] + rest), at)
  {
    var (g1, answer) := step(g, call);
    var picked, all := RunBy(step, g1, some), RunBy(step, g1, rest);
    FirstAnswer(step, g, call, some);
    FirstAnswer(step, g, call, rest);
    OneMoreSkipped(picked, all, at[1..], answer);
    OneMorePicked(picked, all, at, answer);
  }

  lemma AnswersWithoutFirst(step: (Guard, Call) -> (Guard, Answer), g: Guard, call: Call, rest: seq<Call>,
                            some: seq<Call>, at: seq<nat>)
    requires step(g, call).0 == g && forall j :: 0 <= j < |at| ==> at[j] > 0
    requires AreAt(RunBy(step, g, some), RunBy(step, g, rest), FromSecond(at))
    ensures AreAt(RunBy(step, g, some), RunBy(step, g, [call] + rest), at)
  {
    FirstAnswer(step, g, call, rest);
    OneMoreSkipped(RunBy(step, g, some), RunBy(step, g, rest), at, step(g, call).1);
  }

  ghost predicate KeepsOnQuestions(step: (Guard, Call) -> (Guard, Answer)) {
    forall g, call :: IsQuestion(call) ==> step(g, call).0 == g
  }

  lemma {:induction false} SkipsQuestions(step: (Guard, Call) -> (Guard, Answer), g: Guard, calls: seq<Call>,
                                          at: seq<nat>)
    requires KeepsOnQuestions(step) && LeavesOutQuestions(calls, at)
    ensures AreAt(RunBy(step, g, Picked(calls, at)), RunBy(step, g, calls), at)
    decreases |calls|
  {
    if calls == [] {
      RisingIsShort(at, 0);
    } else {
      PickedRest(calls, at);
      var first, rest, tail := calls[0], calls[1..], FromSecond(Later(at));
      var some := Picked(rest, tail);
      SkipsQuestions(step, step(g, first).0, rest, tail);
      assert calls == [first] + rest;
      if at != [] && at[0] == 0 {
        AnswersWithFirst(step, g, first, rest, some, at);
      } else {
        AnswersWithoutFirst(step, g, first, rest, some, at);
      }
    }
  }

  lemma PlainSkipsQuestions(cfg: Config, g: Guard, calls: seq<Call>, at: seq<nat>)
    requires LeavesOutQuestions(calls, at)
    ensures AreAt(PlainRun(cfg, g, Picked(calls, at)).1, PlainRun(cfg, g, calls).1, at)
  {
    PlainRunBy(cfg, g, calls);
    PlainRunBy(cfg, g, Picked(calls, at));
    SkipsQuestions((g, call) => PlainStep(cfg, g, call), g, calls, at);
  }

  lemma {:induction false} ClockedPicked(calls: seq<Call>, at: seq<nat>, t: Instant, t0: Instant)
    requires LeavesOutQuestions(calls, at) && Clocked(calls, t) && t0 <= t
    ensures Clocked(Picked(calls, at), t0)
    decreases |calls|
  {
    if calls != [] {
      PickedRest(calls, at);
      var tail := FromSecond(Later(at));
      var rest := Picked(calls[1..], tail);
      if at != [] && at[0] == 0 {
        ClockedPicked(calls[1..], tail, End(calls[0], t), End(calls[0], t0));
        assert Picked(calls, at)[0] == calls[0] && Picked(calls, at)[1..] == rest;
      } else {
        ClockedPicked(calls[1..], tail, End(calls[0], t), t0);
        assert Picked(calls, at) == rest;
      }
    }
  }

  /**
   Asking `is_banned` or `get_stats` any number of times, anywhere, changes no other answer of the run: if any of
   these questions are left out, every call that stays, question or not, is answered as before.
   */
  lemma QuestionsAreInvisible(cfg: Config, g: Guard, calls: seq<Call>, at: seq<nat>, t: Instant)
    requires Clocked(calls, t)
    requires forall i, j :: 0 <= i < j < |at| ==> at[i] < at[j]
    requires forall j :: 0 <= j < |at| ==> at[j] < |calls|
    requires forall k :: 0 <= k < |calls| && !(calls[k].IsBanned? || calls[k].GetStats?) ==> k in at
    ensures var some := seq(|at|, j requires 0 <= j < |at| => calls[at[j]]);
            forall j :: 0 <= j < |at| ==> Run(cfg, g, some).1[j] == Run(cfg, g, calls).1[at[j]]
  {
    assert LeavesOutQuestions(calls, at);
    LazyExpiryRefinesComparison(cfg, g, g, calls, t);
    ClockedPicked(calls, at, t, t);
    LazyExpiryRefinesComparison(cfg, g, g, Picked(calls, at), t);
    PlainSkipsQuestions(cfg, g, calls, at);
    assert Picked(calls, at) == seq(|at|, j requires 0 <= j < |at| => calls[at[j]]);
  }

  /** The guard that is compared with never forgets a ban by itself. */
  lemma PlainKeepsBans(cfg: Config, g: Guard, call: Call, ip: IpAddr)
    requires ip in g && g[ip].until.Some? && call != UnbanIp(ip) && call != Evict(ip)
    ensures var g' := PlainStep(cfg, g, call).0;
            && ip in g' && g'[ip].until.Some?
            && (!call.CheckRequest? && !call.RegisterConnection? && !call.BanIp? ==> g'[ip].until == g[ip].until)
  {
  }

  // ---------------------------------------------------------------------------------------------
  // A ban in force
  // ---------------------------------------------------------------------------------------------

  /** A request or connection attempt of `ip` that reaches the ban test. */
  predicate IsAttempt(cfg: Config, call: Call, ip: IpAddr) {
    && cfg.enabled && !ip.IsLoopback()
    && ((call.CheckRequest? && call.ip == ip && (call.size.Some? ==> call.size.value <= cfg.bodyLimit)) ||
        (call.RegisterConnection? && call.ip == ip))
  }

  function CountClosed(cfg: Config, calls: seq<Call>, ip: IpAddr): nat {
    if calls == [] then 0
    else (if cfg.enabled && calls[0] == UnregisterConnection(ip) then 1 else 0) + CountClosed(cfg, calls[1..], ip)
  }

  /**
   Once `ip` is banned until `u`, a run that stays before `u` and is free of administrator action on `ip` answers
   every attempt of `ip` with that same `u`. Its violations do not move, and its connections only close.
   */
  lemma {:induction false} BanHolds(cfg: Config, g: Guard, calls: seq<Call>, t: Instant, ip: IpAddr, u: Instant)
    requires Clocked(calls, t) && AllUntouched(calls, ip) && EndOfRun(calls, t) < u
    requires ip in g && g[ip].until == Some(u)
    ensures var (g', answers) := Run(cfg, g, calls);
            && (forall k :: 0 <= k < |calls| && IsAttempt(cfg, calls[k], ip) ==> answers[k] == Banned(u))
            && ip in g'
            && g'[ip] == g[ip].(active := Max(0, g[ip].active - CountClosed(cfg, calls, ip)))
    decreases |calls|
  {
    if calls == [] {
      assert g[ip].active >= 0;
    } else {
      var t1 := End(calls[0], t);
      EndNotBefore(calls[1..], t1);
      if calls[0].GetStats? {
        SweepOnRecord(g, calls[0].sweep, t, ip);
      }
      var (g1, answer) := Step(cfg, g, calls[0]);
      assert Untouched(calls[0], ip);
      assert ip in g1 && g1[ip].until == Some(u);
      BanHolds(cfg, g1, calls[1..], t1, ip, u);
      var (g', answers) := Run(cfg, g, calls);
      assert answers == [answer] + Run(cfg, g1, calls[1..]).1;
    }
  }

  lemma {:induction false} EndNotBefore(calls: seq<Call>, t: Instant)
    requires Clocked(calls, t)
    ensures t <= EndOfRun(calls, t)
  {
    if calls != [] {
      EndNotBefore(calls[1..], End(calls[0], t));
    }
  }
}
