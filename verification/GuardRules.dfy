/**
 What each call of the connection guard does, in plain numbers: limits, counters, and ends of bans. Together with
 `ConnectionGuards`, where the objects are proved to follow `GuardModel.Step`, this is what a caller can count on.
 */
module GuardRules {
  import opened Wrappers
  import opened Sums
  import opened GuardModel

  predicate IsExempt(ip: IpAddr) {
    (ip.V4? && ip.a == 127) || ip == V6(1)
  }

  /** The record of `ip`, or that of an address never seen. */
  function RecordOf(g: Guard, ip: IpAddr): IpRecord {
    if ip in g then g[ip] else IpRecord(0, 0, None)
  }

  /** Only the record of `ip` changes, to `r`. */
  ghost predicate Becomes(g: Guard, g': Guard, ip: IpAddr, r: IpRecord) {
    ip in g' && g'[ip] == r && g' - {ip} == g - {ip}
  }

  predicate InForce(r: IpRecord, now: Instant) {
    r.until.Some? && now < r.until.value
  }

  /**
   A request is let through unchecked if the guard is off, refused if it is too large, let through from the machine
   itself, refused until the end of a ban in force, and otherwise decided by the rate window. A refusal by the window
   counts as a violation, and from the tenth on bans for one duration per full ten violations, at most six.
   */
  lemma CheckRequestRules(cfg: Config, g: Guard, ip: IpAddr, size: Option<nat>, now: Instant, later: Instant,
                          granted: bool)
    ensures var (g', answer) := Step(cfg, g, CheckRequest(ip, size, now, later, granted));
            var r := RecordOf(g, ip);
            var n := r.violations + 1;
            && (!cfg.enabled ==> g' == g && answer == Allowed)
            && (cfg.enabled && size.Some? && size.value > cfg.bodyLimit ==>
                  g' == g && answer == BodyTooLarge(size.value, cfg.bodyLimit))
            && (cfg.enabled && (size.Some? ==> size.value <= cfg.bodyLimit) ==>
                  && (IsExempt(ip) ==> g' == g && answer == Allowed)
                  && (!IsExempt(ip) && InForce(r, now) ==> Becomes(g, g', ip, r) && answer == Banned(r.until.value))
                  && (!IsExempt(ip) && !InForce(r, now) && granted ==>
                        Becomes(g, g', ip, IpRecord(r.active, r.violations, None)) && answer == Allowed)
                  && (!IsExempt(ip) && !InForce(r, now) && !granted ==>
                        && answer == RateLimitExceeded
                        && (n < 10 ==> Becomes(g, g', ip, IpRecord(r.active, n, None)))
                        && (n >= 60 ==> Becomes(g, g', ip, IpRecord(r.active, n, Some(later + cfg.banDuration * 6))))
                        && (10 <= n < 60 ==> forall m: nat :: IsDecade(n, m) ==>
                              Becomes(g, g', ip, IpRecord(r.active, n, Some(later + cfg.banDuration * m))))))
  {
    var n := RecordOf(g, ip).violations + 1;
    forall m: nat | IsDecade(n, m) ensures m == n / 10 {
    }
  }

  /** A connection over the limit counts as a violation and from the fifth on bans for one duration. */
  lemma RegisterConnectionRules(cfg: Config, g: Guard, ip: IpAddr, now: Instant, later: Instant)
    ensures var (g', answer) := Step(cfg, g, RegisterConnection(ip, now, later));
            var r := RecordOf(g, ip);
            var n := r.violations + 1;
            && (!cfg.enabled || IsExempt(ip) ==> g' == g && answer == Allowed)
            && (cfg.enabled && !IsExempt(ip) ==>
                  && (InForce(r, now) ==> Becomes(g, g', ip, r) && answer == Banned(r.until.value))
                  && (!InForce(r, now) && r.active < cfg.maxConnections ==>
                        Becomes(g, g', ip, IpRecord(r.active + 1, r.violations, None)) && answer == Allowed)
                  && (!InForce(r, now) && r.active >= cfg.maxConnections ==>
                        && answer == TooManyConnections(r.active, cfg.maxConnections)
                        && Becomes(g, g', ip,
                                   IpRecord(r.active, n, if n < 5 then None else Some(later + cfg.banDuration)))))
  {
  }

  /** Closing a connection, asking for a ban, banning and unbanning by hand, and losing a record. */
  lemma OtherCallRules(cfg: Config, g: Guard, ip: IpAddr, now: Instant, duration: nat)
    ensures var g' := Step(cfg, g, UnregisterConnection(ip)).0;
            if cfg.enabled && ip in g && g[ip].active > 0
            then Becomes(g, g', ip, IpRecord(g[ip].active - 1, g[ip].violations, g[ip].until)) else g' == g
    ensures var (g', answer) := Step(cfg, g, IsBanned(ip, now));
            && answer == BannedFlag(ip in g && InForce(g[ip], now))
            && (ip !in g ==> g' == g)
            && (ip in g ==> Becomes(g, g', ip, if InForce(g[ip], now) then g[ip]
                                              else IpRecord(g[ip].active, g[ip].violations, None)))
    ensures var r := RecordOf(g, ip);
            Becomes(g, Step(cfg, g, BanIp(ip, now, duration)).0, ip,
                    IpRecord(r.active, r.violations + 10, Some(now + duration)))
    ensures var g' := Step(cfg, g, UnbanIp(ip)).0;
            if ip in g then Becomes(g, g', ip, IpRecord(g[ip].active, g[ip].violations, None)) else g' == g
    ensures ip !in Step(cfg, g, Evict(ip)).0 && Step(cfg, g, Evict(ip)).0 == g - {ip}
  {
    if ip in g {
      assert g[ip := g[ip]] == g;
    }
  }

  // ---------------------------------------------------------------------------------------------
  // Statistics
  // ---------------------------------------------------------------------------------------------

  /** Every address of the guard is visited, and none twice. */
  ghost predicate VisitsAll(g: Guard, sweep: Sweep) {
    VisitsOnce(g, sweep) && forall ip :: ip in g ==> exists k :: 0 <= k < |sweep| && sweep[k].0 == ip
  }

  ghost predicate VisitsOnce(g: Guard, sweep: Sweep) {
    && (forall k :: 0 <= k < |sweep| ==> sweep[k].0 in g)
    && (forall j, k :: 0 <= j < k < |sweep| ==> sweep[j].0 != sweep[k].0)
  }

  function Actives(g: Guard, sweep: Sweep): seq<nat>
    requires forall k :: 0 <= k < |sweep| ==> sweep[k].0 in g
  {
    seq(|sweep|, k requires 0 <= k < |sweep| => g[sweep[k].0].active)
  }

  function Violations(g: Guard, sweep: Sweep): seq<nat>
    requires forall k :: 0 <= k < |sweep| ==> sweep[k].0 in g
  {
    seq(|sweep|, k requires 0 <= k < |sweep| => g[sweep[k].0].violations)
  }

  function Bans(g: Guard, sweep: Sweep): seq<nat>
    requires forall k :: 0 <= k < |sweep| ==> sweep[k].0 in g
  {
    seq(|sweep|, k requires 0 <= k < |sweep| => if InForce(g[sweep[k].0], sweep[k].1) then 1 else 0)
  }

  lemma {:induction false} SweepTotals(g: Guard, sweep: Sweep, acc: Stats)
    requires VisitsOnce(g, sweep)
    ensures SweepStats(g, sweep, acc) ==
            Stats(acc.tracked, acc.banned + Sum(Bans(g, sweep)), acc.connections + Sum(Actives(g, sweep)),
                  acc.violations + Sum(Violations(g, sweep)))
    decreases |sweep|
  {
    if sweep != [] {
      var (ip, now) := sweep[0];
      var g1, rest := Visit(g, ip, now), sweep[1..];
      assert Actives(g, sweep)[1..] == Actives(g1, rest);
      assert Violations(g, sweep)[1..] == Violations(g1, rest);
      assert Bans(g, sweep)[1..] == Bans(g1, rest);
      SweepTotals(g1, rest, Tally(g, ip, now, acc));
    }
  }

  lemma {:induction false} SweepPassesBy(g: Guard, sweep: Sweep, ip: IpAddr)
    requires ip in g && forall k :: 0 <= k < |sweep| ==> sweep[k].0 != ip
    ensures SweepGuard(g, sweep).Keys == g.Keys && SweepGuard(g, sweep)[ip] == g[ip]
    decreases |sweep|
  {
    if sweep != [] {
      SweepPassesBy(Visit(g, sweep[0].0, sweep[0].1), sweep[1..], ip);
    }
  }

  /** A visited record keeps a ban in force and forgets one that has ended; its counters stay. */
  lemma {:induction false} SweepForgetsEndedBans(g: Guard, sweep: Sweep, k: nat)
    requires VisitsOnce(g, sweep) && k < |sweep|
    ensures var (ip, now) := sweep[k];
            && SweepGuard(g, sweep).Keys == g.Keys
            && SweepGuard(g, sweep)[ip] ==
               if InForce(g[ip], now) then g[ip] else IpRecord(g[ip].active, g[ip].violations, None)
    decreases |sweep|
  {
    var (first, now) := sweep[0];
    var g1 := Visit(g, first, now);
    if k == 0 {
      SweepPassesBy(g1, sweep[1..], first);
    } else {
      assert sweep[1..][k - 1] == sweep[k] && sweep[k].0 != first;
      SweepForgetsEndedBans(g1, sweep[1..], k - 1);
    }
  }

  /** The statistics count the tracked addresses, the bans in force when visited, and all connections and violations. */
  lemma StatsAreTotals(cfg: Config, g: Guard, sweep: Sweep)
    requires VisitsAll(g, sweep)
    ensures Step(cfg, g, GetStats(sweep)).1 ==
            Counted(Stats(|g|, Sum(Bans(g, sweep)), Sum(Actives(g, sweep)), Sum(Violations(g, sweep))))
    ensures var g' := Step(cfg, g, GetStats(sweep)).0;
            forall k :: 0 <= k < |sweep| ==>
              var (ip, now) := sweep[k];
              && ip in g'
              && g'[ip] == if InForce(g[ip], now) then g[ip] else IpRecord(g[ip].active, g[ip].violations, None)
  {
    SweepTotals(g, sweep, Stats(|g|, 0, 0, 0));
    forall k | 0 <= k < |sweep|
      ensures var (ip, now) := sweep[k];
              && ip in SweepGuard(g, sweep)
              && SweepGuard(g, sweep)[ip] ==
                 if InForce(g[ip], now) then g[ip] else IpRecord(g[ip].active, g[ip].violations, None)
    {
      SweepForgetsEndedBans(g, sweep, k);
    }
  }
}
