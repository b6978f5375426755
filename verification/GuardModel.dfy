/**
 What the per-IP connection guard does, as functions on values, and what every run of it keeps.

 Time is a monotonic clock read as an integer. A call reads the clock once to test a ban and, when it
 imposes one, a second time; both readings are part of the call. The answer of the request-rate window
 is a free boolean of the call.
 */
module GuardModel {
  import opened Wrappers

  type Instant = int

  datatype IpAddr =
    | V4(a: nat, b: nat, c: nat, d: nat)
    | V6(value: nat)
  {
    predicate IsLoopback() {
      match this
      case V4(a, _, _, _) => a == 127
      case V6(value) => value == 1
    }
  }

  datatype Config = Config(maxConnections: nat, bodyLimit: nat, banDuration: nat, enabled: bool)

  /** The counters kept for one address. */
  datatype IpRecord = IpRecord(active: nat, violations: nat, until: Option<Instant>)

  const FRESH := IpRecord(0, 0, None)

  datatype Stats = Stats(tracked: nat, banned: nat, connections: nat, violations: nat)

  datatype Answer =
    | Allowed
    | Banned(until: Instant)
    | TooManyConnections(current: nat, max: nat)
    | RateLimitExceeded
    | BodyTooLarge(size: nat, max: nat)
    | Done
    | BannedFlag(flag: bool)
    | Counted(stats: Stats)

  /** `Sweep` lists the visited addresses with the clock reading of each visit. */
  type Sweep = seq<(IpAddr, Instant)>

  datatype Call =
    | CheckRequest(ip: IpAddr, size: Option<nat>, now: Instant, later: Instant, granted: bool)
    | RegisterConnection(ip: IpAddr, now: Instant, later: Instant)
    | UnregisterConnection(ip: IpAddr)
    | IsBanned(ip: IpAddr, now: Instant)
    | BanIp(ip: IpAddr, now: Instant, duration: nat)
    | UnbanIp(ip: IpAddr)
    | GetStats(sweep: Sweep)
    | Evict(ip: IpAddr)

  type Guard = map<IpAddr, IpRecord>

  function Min(a: int, b: int): int {
    if a < b then a else b
  }

  function Max(a: int, b: int): int {
    if a < b then b else a
  }

  // ---------------------------------------------------------------------------------------------
  // One address
  // ---------------------------------------------------------------------------------------------

  /** Reading the ban forgets it once the clock has reached its end. */
  function Expire(r: IpRecord, now: Instant): IpRecord {
    if r.until.Some? && r.until.value <= now then r.(until := None) else r
  }

  /** Multiples of the ban duration imposed by the v-th violation. */
  function RatePenalty(v: nat): nat {
    if v >= 10 then Min(v / 10, 6) else 0
  }

  function ConnectionPenalty(v: nat): nat {
    if v >= 5 then 1 else 0
  }

  function Punish(cfg: Config, r: IpRecord, later: Instant, penalty: nat): IpRecord {
    r.(violations := r.violations + 1,
       until := if penalty > 0 then Some(later + cfg.banDuration * penalty) else r.until)
  }

  function CheckRecord(cfg: Config, r: IpRecord, now: Instant, later: Instant, granted: bool): (IpRecord, Answer) {
    var e := Expire(r, now);
    if e.until.Some? then (e, Banned(e.until.value))
    else if granted then (e, Allowed)
    else (Punish(cfg, e, later, RatePenalty(e.violations + 1)), RateLimitExceeded)
  }

  function RegisterRecord(cfg: Config, r: IpRecord, now: Instant, later: Instant): (IpRecord, Answer) {
    var e := Expire(r, now);
    if e.until.Some? then (e, Banned(e.until.value))
    else if e.active >= cfg.maxConnections then
      (Punish(cfg, e, later, ConnectionPenalty(e.violations + 1)), TooManyConnections(e.active, cfg.maxConnections))
    else (e.(active := e.active + 1), Allowed)
  }

  function UnregisterRecord(r: IpRecord): IpRecord {
    r.(active := if r.active == 0 then 0 else r.active - 1)
  }

  function BanRecord(r: IpRecord, now: Instant, duration: nat): IpRecord {
    r.(until := Some(now + duration), violations := r.violations + 10)
  }

  // ---------------------------------------------------------------------------------------------
  // The whole guard
  // ---------------------------------------------------------------------------------------------

  function Lookup(g: Guard, ip: IpAddr): IpRecord {
    if ip in g then g[ip] else FRESH
  }

  /** One visit of a sweep. */
  function Visit(g: Guard, ip: IpAddr, now: Instant): Guard {
    if ip in g then g[ip := Expire(g[ip], now)] else g
  }

  function SweepGuard(g: Guard, sweep: Sweep): Guard {
    if sweep == [] then g else SweepGuard(Visit(g, sweep[0].0, sweep[0].1), sweep[1..])
  }

  predicate BannedAt(r: IpRecord, now: Instant) {
    r.until.Some? && now < r.until.value
  }

  /** What a visit adds to the totals. */
  function Tally(g: Guard, ip: IpAddr, now: Instant, acc: Stats): Stats {
    if ip in g
    then acc.(banned := acc.banned + (if BannedAt(g[ip], now) then 1 else 0),
              connections := acc.connections + g[ip].active,
              violations := acc.violations + g[ip].violations)
    else acc
  }

  function SweepStats(g: Guard, sweep: Sweep, acc: Stats): Stats {
    if sweep == [] then acc
    else SweepStats(Visit(g, sweep[0].0, sweep[0].1), sweep[1..], Tally(g, sweep[0].0, sweep[0].1, acc))
  }

  function Step(cfg: Config, g: Guard, call: Call): (Guard, Answer) {
    match call
    case CheckRequest(ip, size, now, later, granted) =>
      if !cfg.enabled then (g, Allowed)
      else if size.Some? && size.value > cfg.bodyLimit then (g, BodyTooLarge(size.value, cfg.bodyLimit))
      else if ip.IsLoopback() then (g, Allowed)
      else
        var (r, answer) := CheckRecord(cfg, Lookup(g, ip), now, later, granted);
        (g[ip := r], answer)
    case RegisterConnection(ip, now, later) =>
      if !cfg.enabled || ip.IsLoopback() then (g, Allowed)
      else
        var (r, answer) := RegisterRecord(cfg, Lookup(g, ip), now, later);
        (g[ip := r], answer)
    case UnregisterConnection(ip) =>
      (if cfg.enabled && ip in g then g[ip := UnregisterRecord(g[ip])] else g, Done)
    case IsBanned(ip, now) =>
      if ip in g
      then (g[ip := Expire(g[ip], now)], BannedFlag(Expire(g[ip], now).until.Some?))
      else (g, BannedFlag(false))
    case BanIp(ip, now, duration) => (g[ip := BanRecord(Lookup(g, ip), now, duration)], Done)
    case UnbanIp(ip) => (if ip in g then g[ip := g[ip].(until := None)] else g, Done)
    case GetStats(sweep) => (SweepGuard(g, sweep), Counted(SweepStats(g, sweep, Stats(|g|, 0, 0, 0))))
    case Evict(ip) => (g - {ip}, Done)
  }

  function Run(cfg: Config, g: Guard, calls: seq<Call>): (r: (Guard, seq<Answer>))
    ensures |r.1| == |calls|
    decreases |calls|
  {
    if calls == [] then (g, [])
    else
      var (g1, answer) := Step(cfg, g, calls[0]);
      var (g2, answers) := Run(cfg, g1, calls[1..]);
      (g2, [answer] + answers)
  }

  // ---------------------------------------------------------------------------------------------
  // Clocks
  // ---------------------------------------------------------------------------------------------

  function Start(call: Call, t: Instant): Instant {
    match call
    case CheckRequest(_, _, now, _, _) => now
    case RegisterConnection(_, now, _) => now
    case IsBanned(_, now) => now
    case BanIp(_, now, _) => now
    case GetStats(sweep) => if sweep == [] then t else sweep[0].1
    case _ => t
  }

  function End(call: Call, t: Instant): Instant {
    match call
    case CheckRequest(_, _, _, later, _) => later
    case RegisterConnection(_, _, later) => later
    case IsBanned(_, now) => now
    case BanIp(_, now, _) => now
    case GetStats(sweep) => if sweep == [] then t else sweep[|sweep| - 1].1
    case _ => t
  }

  ghost predicate SweepClocked(sweep: Sweep, t: Instant)
  {
    sweep != [] ==> t <= sweep[0].1 && SweepClocked(sweep[1..], sweep[0].1)
  }

  ghost predicate CallClocked(call: Call, t: Instant) {
    && t <= Start(call, t) <= End(call, t)
    && (call.GetStats? ==> SweepClocked(call.sweep, t))
  }

  /** The clock never runs backwards along `calls`, which begin at or after `t`. */
  ghost predicate Clocked(calls: seq<Call>, t: Instant) {
    calls != [] ==> CallClocked(calls[0], t) && Clocked(calls[1..], End(calls[0], t))
  }

  function EndOfRun(calls: seq<Call>, t: Instant): Instant {
    if calls == [] then t else EndOfRun(calls[1..], End(calls[0], t))
  }

  // ---------------------------------------------------------------------------------------------
  // Bans are kept until their end
  // ---------------------------------------------------------------------------------------------

  /** No administrator action on `ip` and no eviction of its record. */
  predicate Untouched(call: Call, ip: IpAddr) {
    !(call.BanIp? && call.ip == ip) && !(call.UnbanIp? && call.ip == ip) && !(call.Evict? && call.ip == ip)
  }

  ghost predicate AllUntouched(calls: seq<Call>, ip: IpAddr) {
    forall k :: 0 <= k < |calls| ==> Untouched(calls[k], ip)
  }

  /** The earliest instant at which `r`, seen at `t`, can be punished again. */
  function Earliest(r: IpRecord, t: Instant): Instant {
    if r.until.Some? then Max(t, r.until.value) else t
  }

  /** A refused request or connection that was counted against `ip`. */
  predicate IsViolation(call: Call, answer: Answer, ip: IpAddr) {
    || (call.CheckRequest? && call.ip == ip && answer.RateLimitExceeded?)
    || (call.RegisterConnection? && call.ip == ip && answer.TooManyConnections?)
  }

  predicate IsDecade(n: nat, m: nat) {
    10 * m <= n < 10 * m + 10
  }

  /**
   The ban that violation number `n` earns at `later`, where `d` is one ban duration: a refused request none below
   ten, then one duration for each full ten, at most six; a refused connection none below five, then one duration.
   */
  ghost predicate BanIs(call: Call, n: nat, d: nat, later: Instant, until: Option<Instant>) {
    if call.CheckRequest? then
      if n < 10 then until == None
      else if n < 60 then exists m: nat :: IsDecade(n, m) && until == Some(later + d * m)
      else until == Some(later + d * 6)
    else
      until == if n < 5 then None else Some(later + d)
  }

  lemma RateBanIs(call: Call, n: nat, d: nat, later: Instant)
    requires call.CheckRequest?
    ensures BanIs(call, n, d, later, if RatePenalty(n) > 0 then Some(later + d * RatePenalty(n)) else None)
  {
    assert IsDecade(n, n / 10);
  }

  lemma BanIsLongEnough(call: Call, n: nat, d: nat, later: Instant, until: Option<Instant>)
    requires BanIs(call, n, d, later, until)
    ensures until.Some? ==> until.value >= later
    ensures n >= 10 ==> until.Some? && until.value >= later + d
  {
    if call.CheckRequest? && 10 <= n < 60 {
      var m: nat :| IsDecade(n, m) && until == Some(later + d * m);
      AtLeastOnce(d, m);
    }
  }

  lemma {:induction false} SweepOnRecord(g: Guard, sweep: Sweep, t: Instant, ip: IpAddr)
    requires SweepClocked(sweep, t)
    ensures var t' := End(GetStats(sweep), t);
            var r, r' := Lookup(g, ip), Lookup(SweepGuard(g, sweep), ip);
            && t <= t'
            && r'.active == r.active && r'.violations == r.violations
            && (r'.until == r.until || (r'.until == None && r.until.Some? && r.until.value <= t'))
    ensures SweepGuard(g, sweep).Keys == g.Keys
  {
    if sweep != [] {
      var (visited, now) := sweep[0];
      SweepOnRecord(Visit(g, visited, now), sweep[1..], now, ip);
    }
  }

  /** What one call does to the record of `ip` when nobody interferes by hand. */
  lemma StepOnRecord(cfg: Config, g: Guard, call: Call, t: Instant, ip: IpAddr)
    requires CallClocked(call, t) && Untouched(call, ip)
    ensures var (g', answer) := Step(cfg, g, call);
            var r, r' := Lookup(g, ip), Lookup(g', ip);
            var s, t' := Start(call, t), End(call, t);
            if IsViolation(call, answer, ip) then
              && Earliest(r, t) <= s
              && r'.violations == r.violations + 1
              && r'.active == r.active
              && BanIs(call, r'.violations, cfg.banDuration, t', r'.until)
            else
              && r'.violations == r.violations
              && (r'.until == r.until || (r'.until == None && r.until.Some? && r.until.value <= t'))
  {
    match call
    case GetStats(sweep) => SweepOnRecord(g, sweep, t, ip);
    case CheckRequest(_, _, _, later, _) => RateBanIs(call, Lookup(g, ip).violations + 1, cfg.banDuration, later);
    case _ =>
  }

  lemma StepKeepsEarliest(cfg: Config, g: Guard, call: Call, t: Instant, ip: IpAddr)
    requires CallClocked(call, t) && Untouched(call, ip)
    ensures Earliest(Lookup(Step(cfg, g, call).0, ip), End(call, t)) >= Earliest(Lookup(g, ip), t)
  {
    StepOnRecord(cfg, g, call, t, ip);
    if IsViolation(call, Step(cfg, g, call).1, ip) {
      var r := Lookup(Step(cfg, g, call).0, ip);
      BanIsLongEnough(call, r.violations, cfg.banDuration, End(call, t), r.until);
    }
  }

  lemma {:induction false} RunKeepsEarliest(cfg: Config, g: Guard, calls: seq<Call>, t: Instant, ip: IpAddr)
    requires Clocked(calls, t) && AllUntouched(calls, ip)
    ensures Earliest(Lookup(Run(cfg, g, calls).0, ip), EndOfRun(calls, t)) >= Earliest(Lookup(g, ip), t)
    decreases |calls|
  {
    if calls != [] {
      StepKeepsEarliest(cfg, g, calls[0], t, ip);
      RunKeepsEarliest(cfg, Step(cfg, g, calls[0]).0, calls[1..], End(calls[0], t), ip);
    }
  }

  /**
   Two violations of one address, whatever happens in between: the second starts no earlier than the end of
   the first plus the ban the first one earned.
   */
  lemma ViolationSpacing(cfg: Config, g: Guard, first: Call, between: seq<Call>, second: Call, t: Instant, ip: IpAddr)
    returns (ban: Option<Instant>)
    requires Clocked([first] + between + [second], t)
    requires AllUntouched([first] + between + [second], ip)
    requires IsViolation(first, Step(cfg, g, first).1, ip)
    requires var g1 := Run(cfg, Step(cfg, g, first).0, between).0; IsViolation(second, Step(cfg, g1, second).1, ip)
    ensures var t1 := End(first, t);
            BanIs(first, Lookup(g, ip).violations + 1, cfg.banDuration, t1, ban)
    ensures ban.Some? ==> Start(second, EndOfRun(between, End(first, t))) >= ban.value
  {
    SpacingParts(first, between, second, t, ip);
    var g1, t1 := Step(cfg, g, first).0, End(first, t);
    ban := BanFollows(cfg, g, first, t, ip);
    RunKeepsEarliest(cfg, g1, between, t1, ip);
    ViolationWaits(cfg, Run(cfg, g1, between).0, second, EndOfRun(between, t1), ip);
  }

  lemma BanFollows(cfg: Config, g: Guard, call: Call, t: Instant, ip: IpAddr) returns (ban: Option<Instant>)
    requires CallClocked(call, t) && Untouched(call, ip) && IsViolation(call, Step(cfg, g, call).1, ip)
    ensures BanIs(call, Lookup(g, ip).violations + 1, cfg.banDuration, End(call, t), ban)
    ensures ban.Some? ==> Earliest(Lookup(Step(cfg, g, call).0, ip), End(call, t)) >= ban.value
  {
    StepOnRecord(cfg, g, call, t, ip);
    ban := Lookup(Step(cfg, g, call).0, ip).until;
  }

  lemma ViolationWaits(cfg: Config, g: Guard, call: Call, t: Instant, ip: IpAddr)
    requires CallClocked(call, t) && Untouched(call, ip) && IsViolation(call, Step(cfg, g, call).1, ip)
    ensures Start(call, t) >= Earliest(Lookup(g, ip), t)
  {
    StepOnRecord(cfg, g, call, t, ip);
  }

  lemma SpacingParts(first: Call, between: seq<Call>, second: Call, t: Instant, ip: IpAddr)
    requires Clocked([first] + between + [second], t)
    requires AllUntouched([first] + between + [second], ip)
    ensures var t1 := End(first, t);
            && CallClocked(first, t) && Clocked(between, t1) && CallClocked(second, EndOfRun(between, t1))
            && Untouched(first, ip) && AllUntouched(between, ip) && Untouched(second, ip)
  {
    var calls := [first] + between + [second];
    assert calls[1..] == between + [second];
    ClockedSplit(between, [second], End(first, t));
    forall k | 0 <= k < |between| ensures Untouched(between[k], ip) {
      assert between[k] == calls[k + 1];
    }
    assert calls[0] == first && calls[|between| + 1] == second;
  }

  lemma {:induction false} ClockedSplit(a: seq<Call>, b: seq<Call>, t: Instant)
    requires Clocked(a + b, t)
    ensures Clocked(a, t) && Clocked(b, EndOfRun(a, t))
  {
    if a == [] {
      assert a + b == b;
    } else {
      assert (a + b)[0] == a[0] && (a + b)[1..] == a[1..] + b;
      ClockedSplit(a[1..], b, End(a[0], t));
    }
  }

  // ---------------------------------------------------------------------------------------------
  // How many violations fit in a stretch of time
  // ---------------------------------------------------------------------------------------------

  function CountViolations(calls: seq<Call>, answers: seq<Answer>, ip: IpAddr): nat
    requires |calls| == |answers|
  {
    if calls == [] then 0
    else (if IsViolation(calls[0], answers[0], ip) then 1 else 0) + CountViolations(calls[1..], answers[1..], ip)
  }

  /** Time that bans must have taken before violation number `v` could be recorded. */
  function Debt(d: nat, v: nat): nat {
    if v <= 10 then 0 else Debt(d, v - 1) + d
  }

  lemma {:induction false} DebtIsProduct(d: nat, v: nat)
    ensures v <= 10 ==> Debt(d, v) == 0
    ensures v >= 10 ==> Debt(d, v) == (v - 10) * d
  {
    if v > 10 {
      DebtIsProduct(d, v - 1);
      assert (v - 10) * d == (v - 11) * d + d;
    }
  }

  lemma AtLeastOnce(d: nat, m: nat)
    requires m > 0
    ensures d * m >= d
  {
    assert d * m == d * (m - 1) + d;
    assert d * (m - 1) >= 0;
  }

  /** Time spent since `origin` pays for every ban up to the last recorded violation. */
  ghost predicate Paid(cfg: Config, r: IpRecord, origin: Instant, t: Instant) {
    && t >= origin + Debt(cfg.banDuration, r.violations)
    && Earliest(r, t) >= origin + Debt(cfg.banDuration, r.violations + 1)
  }

  lemma StepKeepsPaid(cfg: Config, g: Guard, call: Call, t: Instant, ip: IpAddr, origin: Instant)
    requires CallClocked(call, t) && Untouched(call, ip)
    requires Paid(cfg, Lookup(g, ip), origin, t)
    ensures Paid(cfg, Lookup(Step(cfg, g, call).0, ip), origin, End(call, t))
  {
    StepOnRecord(cfg, g, call, t, ip);
    StepKeepsEarliest(cfg, g, call, t, ip);
    if IsViolation(call, Step(cfg, g, call).1, ip) {
      var r := Lookup(Step(cfg, g, call).0, ip);
      BanIsLongEnough(call, r.violations, cfg.banDuration, End(call, t), r.until);
    }
  }

  lemma {:induction false} RunKeepsPaid(cfg: Config, g: Guard, calls: seq<Call>, t: Instant, ip: IpAddr,
                                        origin: Instant)
    requires Clocked(calls, t) && AllUntouched(calls, ip)
    requires Paid(cfg, Lookup(g, ip), origin, t)
    ensures var (g', answers) := Run(cfg, g, calls);
            && Paid(cfg, Lookup(g', ip), origin, EndOfRun(calls, t))
            && Lookup(g', ip).violations == Lookup(g, ip).violations + CountViolations(calls, answers, ip)
    decreases |calls|
  {
    if calls != [] {
      StepKeepsPaid(cfg, g, calls[0], t, ip, origin);
      StepOnRecord(cfg, g, calls[0], t, ip);
      RunKeepsPaid(cfg, Step(cfg, g, calls[0]).0, calls[1..], End(calls[0], t), ip, origin);
      var (_, answers) := Run(cfg, g, calls);
      assert answers[1..] == Run(cfg, Step(cfg, g, calls[0]).0, calls[1..]).1;
    }
  }

  /**
   From an address with a clean record, any run of calls of any addresses yields at most ten refusals plus one
   for each full ban duration that has gone by.
   */
  lemma ViolationBound(cfg: Config, g: Guard, calls: seq<Call>, t: Instant, ip: IpAddr)
    requires Clocked(calls, t) && AllUntouched(calls, ip)
    requires Lookup(g, ip).violations == 0
    ensures var answers := Run(cfg, g, calls).1;
            var elapsed := EndOfRun(calls, t) - t;
            && (CountViolations(calls, answers, ip) - 10) * cfg.banDuration <= elapsed
            && (cfg.banDuration > 0 ==> CountViolations(calls, answers, ip) <= 10 + elapsed / cfg.banDuration)
  {
    RunKeepsPaid(cfg, g, calls, t, ip, t);
    DebtBound(cfg.banDuration, CountViolations(calls, Run(cfg, g, calls).1, ip), EndOfRun(calls, t) - t);
  }

  lemma DebtBound(d: nat, n: nat, elapsed: int)
    requires Debt(d, n) <= elapsed
    ensures (n - 10) * d <= elapsed
    ensures d > 0 ==> n <= 10 + elapsed / d
  {
    DebtIsProduct(d, n);
    ProductBound(n - 10, d, elapsed, Debt(d, n));
  }

  lemma ProductBound(k: int, d: nat, n: int, paid: nat)
    requires paid <= n && (k >= 0 ==> paid == k * d)
    ensures k * d <= n
    ensures d > 0 ==> k <= n / d
  {
    if k < 0 {
      assert k * d <= 0;
    }
    if d > 0 {
      var q := n / d;
      assert n == q * d + n % d;
      assert (k - q) * d == k * d - q * d;
      SmallMultiple(k - q, d);
    }
  }

  lemma SmallMultiple(x: int, d: int)
    requires d > 0 && x * d < d
    ensures x <= 0
  {
  }

  // ---------------------------------------------------------------------------------------------
  // The bound is reached
  // ---------------------------------------------------------------------------------------------

  /** A run of calls from `t` to `t'` that changes the record of `ip` alone, from `r` to `r'`, with `n` violations. */
  ghost predicate Goes(cfg: Config, g: Guard, ip: IpAddr, r: IpRecord, t: Instant, calls: seq<Call>,
                       r': IpRecord, t': Instant, n: nat) {
    && Clocked(calls, t) && AllUntouched(calls, ip) && EndOfRun(calls, t) == t'
    && var (g', answers) := Run(cfg, g[ip := r], calls);
       g' == g[ip := r'] && CountViolations(calls, answers, ip) == n
  }

  lemma Stays(cfg: Config, g: Guard, ip: IpAddr, r: IpRecord, t: Instant)
    ensures Goes(cfg, g, ip, r, t, [], r, t, 0)
  {
  }

  /** One call, followed by a run. */
  lemma GoesOn(cfg: Config, g: Guard, ip: IpAddr, r: IpRecord, t: Instant, call: Call, r1: IpRecord,
               calls: seq<Call>, r': IpRecord, t': Instant, n: nat)
    requires CallClocked(call, t) && Untouched(call, ip) && Step(cfg, g[ip := r], call).0 == g[ip := r1]
    requires Goes(cfg, g, ip, r1, End(call, t), calls, r', t', n)
    ensures var hit := if IsViolation(call, Step(cfg, g[ip := r], call).1, ip) then 1 else 0;
            Goes(cfg, g, ip, r, t, [call] + calls, r', t', n + hit)
  {
    var all := [call] + calls;
    assert all[0] == call && all[1..] == calls;
    var (g2, answers) := Run(cfg, g[ip := r1], calls);
    var first := Step(cfg, g[ip := r], call).1;
    assert Run(cfg, g[ip := r], all) == (g2, [first] + answers);
    assert ([first] + answers)[1..] == answers;
  }

  ghost predicate CanViolate(cfg: Config, ip: IpAddr) {
    cfg.enabled && !ip.IsLoopback()
  }

  /** With all connections in use and a ban that ends after one duration, one more refusal per duration. */
  lemma {:induction false} OnePerDuration(cfg: Config, g: Guard, ip: IpAddr, v: nat, t: Instant, k: nat)
    returns (calls: seq<Call>, r': IpRecord)
    requires CanViolate(cfg, ip) && v >= 10
    ensures Goes(cfg, g, ip, IpRecord(cfg.maxConnections, v, Some(t + cfg.banDuration)), t,
                 calls, r', t + k * cfg.banDuration, k)
    decreases k
  {
    var d := cfg.banDuration;
    var r := IpRecord(cfg.maxConnections, v, Some(t + d));
    if k == 0 {
      calls, r' := [], r;
      Stays(cfg, g, ip, r, t);
    } else {
      var call := RegisterConnection(ip, t + d, t + d);
      var r1 := IpRecord(cfg.maxConnections, v + 1, Some(t + d + d));
      assert g[ip := r][ip := r1] == g[ip := r1];
      var rest, last := OnePerDuration(cfg, g, ip, v + 1, t + d, k - 1);
      assert k * d == (k - 1) * d + d;
      GoesOn(cfg, g, ip, r, t, call, r1, rest, last, t + k * d, k - 1);
      calls, r' := [call] + rest, last;
    }
  }

  /** The first ten refusals can all come at once. */
  lemma {:induction false} TenAtOnce(cfg: Config, g: Guard, ip: IpAddr, v: nat, t: Instant, k: nat)
    returns (calls: seq<Call>, r': IpRecord)
    requires CanViolate(cfg, ip) && v < 10
    ensures Goes(cfg, g, ip, IpRecord(cfg.maxConnections, v, None), t,
                 calls, r', t + k * cfg.banDuration, 10 - v + k)
    decreases 10 - v
  {
    var r := IpRecord(cfg.maxConnections, v, None);
    var call := CheckRequest(ip, None, t, t, false);
    var r1 := IpRecord(cfg.maxConnections, v + 1, if v == 9 then Some(t + cfg.banDuration) else None);
    assert g[ip := r][ip := r1] == g[ip := r1];
    if v == 9 {
      calls, r' := OnePerDuration(cfg, g, ip, 10, t, k);
    } else {
      calls, r' := TenAtOnce(cfg, g, ip, v + 1, t, k);
    }
    GoesOn(cfg, g, ip, r, t, call, r1, calls, r', t + k * cfg.banDuration, 9 - v + k);
    calls := [call] + calls;
  }

  /** Before that, all connections are opened. */
  lemma {:induction false} OpenAll(cfg: Config, g: Guard, ip: IpAddr, active: nat, t: Instant, k: nat)
    returns (calls: seq<Call>, r': IpRecord)
    requires CanViolate(cfg, ip) && active <= cfg.maxConnections
    ensures Goes(cfg, g, ip, IpRecord(active, 0, None), t, calls, r', t + k * cfg.banDuration, 10 + k)
    decreases cfg.maxConnections - active
  {
    if active == cfg.maxConnections {
      calls, r' := TenAtOnce(cfg, g, ip, 0, t, k);
    } else {
      var r, r1 := IpRecord(active, 0, None), IpRecord(active + 1, 0, None);
      assert g[ip := r][ip := r1] == g[ip := r1];
      calls, r' := OpenAll(cfg, g, ip, active + 1, t, k);
      GoesOn(cfg, g, ip, r, t, RegisterConnection(ip, t, t), r1, calls, r', t + k * cfg.banDuration, 10 + k);
      calls := [RegisterConnection(ip, t, t)] + calls;
    }
  }

  /** For every configuration, address and number of durations, some run from a clean record reaches the bound. */
  lemma ViolationBoundIsSharp(cfg: Config, g: Guard, ip: IpAddr, t: Instant, k: nat) returns (calls: seq<Call>)
    requires CanViolate(cfg, ip)
    ensures Clocked(calls, t) && AllUntouched(calls, ip)
    ensures EndOfRun(calls, t) - t == k * cfg.banDuration
    ensures CountViolations(calls, Run(cfg, g[ip := FRESH], calls).1, ip) == 10 + k
  {
    var found, _ := OpenAll(cfg, g, ip, 0, t, k);
    calls := found;
  }
}
