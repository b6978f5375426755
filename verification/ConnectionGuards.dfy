/**
 The connection guard as the server holds it: one mutable record per address, found through a map. Every method
 is proved to answer and to move the guard exactly as `GuardModel.Step` says, so what is proved about runs of
 that function holds of the objects.
 */
module ConnectionGuards {
  import opened Wrappers
  import opened GuardModel

  class IpState {
    var active: nat
    var violations: nat
    var bannedUntil: Option<Instant>

    function Record(): IpRecord
      reads this
    {
      IpRecord(active, violations, bannedUntil)
    }

    constructor ()
      ensures Record() == FRESH
    {
      active, violations, bannedUntil := 0, 0, None;
    }

    method IsBanned(now: Instant) returns (ban: Option<Instant>)
      modifies this`bannedUntil
      ensures Record() == Expire(old(Record()), now)
      ensures ban == bannedUntil
      ensures ban.Some? <==> BannedAt(old(Record()), now)
    {
      if bannedUntil.Some? {
        if now < bannedUntil.value {
          return bannedUntil;
        }
        bannedUntil := None;
      }
      ban := None;
    }

    /** The part of `check_request` that works on the record it has found. */
    method CheckRequest(cfg: Config, now: Instant, later: Instant, granted: bool) returns (answer: Answer)
      modifies this
      ensures (Record(), answer) == CheckRecord(cfg, old(Record()), now, later, granted)
    {
      var ban := IsBanned(now);
      if ban.Some? {
        return Banned(ban.value);
      }
      if !granted {
        violations := violations + 1;
        if violations >= 10 {
          var multiplier := Min(violations / 10, 6);
          bannedUntil := Some(later + cfg.banDuration * multiplier);
        }
        return RateLimitExceeded;
      }
      return Allowed;
    }

    /** The part of `register_connection` that works on the record it has found. */
    method RegisterConnection(cfg: Config, now: Instant, later: Instant) returns (answer: Answer)
      modifies this
      ensures (Record(), answer) == RegisterRecord(cfg, old(Record()), now, later)
    {
      var ban := IsBanned(now);
      if ban.Some? {
        return Banned(ban.value);
      }
      var current := active;
      if current >= cfg.maxConnections {
        violations := violations + 1;
        if violations >= 5 {
          bannedUntil := Some(later + cfg.banDuration);
        }
        return TooManyConnections(current, cfg.maxConnections);
      }
      active := active + 1;
      return Allowed;
    }
  }

  class ConnectionGuard {
    const cfg: Config
    var ipStates: map<IpAddr, IpState>

    /** No two addresses share a record. */
    ghost predicate Valid()
      reads this
    {
      forall a, b :: a in ipStates && b in ipStates && a != b ==> ipStates[a] != ipStates[b]
    }

    ghost function View(): Guard
      reads this, ipStates.Values
    {
      map ip | ip in ipStates :: ipStates[ip].Record()
    }

    constructor (cfg: Config)
      ensures Valid() && View() == map[] && this.cfg == cfg && ipStates == map[]
    {
      this.cfg := cfg;
      ipStates := map[];
    }

    method GetOrCreateState(ip: IpAddr) returns (state: IpState)
      requires Valid()
      modifies this
      ensures Valid() && fresh(ipStates.Values - old(ipStates.Values))
      ensures ip in ipStates && ipStates[ip] == state
      ensures View() == old(View())[ip := Lookup(old(View()), ip)]
    {
      if ip in ipStates {
        state := ipStates[ip];
      } else {
        state := new IpState();
        ipStates := ipStates[ip := state];
      }
    }

    method CheckRequest(ip: IpAddr, size: Option<nat>, now: Instant, later: Instant, granted: bool)
      returns (answer: Answer)
      requires Valid()
      modifies this, ipStates.Values
      ensures Valid() && fresh(ipStates.Values - old(ipStates.Values))
      ensures (View(), answer) == Step(cfg, old(View()), Call.CheckRequest(ip, size, now, later, granted))
    {
      if !cfg.enabled {
        return Allowed;
      }
      if size.Some? && size.value > cfg.bodyLimit {
        return BodyTooLarge(size.value, cfg.bodyLimit);
      }
      if ip.IsLoopback() {
        return Allowed;
      }
      var state := GetOrCreateState(ip);
      assert View()[ip] == state.Record();
      answer := state.CheckRequest(cfg, now, later, granted);
      assert View() == old(View())[ip := state.Record()];
    }

    method RegisterConnection(ip: IpAddr, now: Instant, later: Instant) returns (answer: Answer)
      requires Valid()
      modifies this, ipStates.Values
      ensures Valid() && fresh(ipStates.Values - old(ipStates.Values))
      ensures (View(), answer) == Step(cfg, old(View()), Call.RegisterConnection(ip, now, later))
    {
      if !cfg.enabled || ip.IsLoopback() {
        return Allowed;
      }
      var state := GetOrCreateState(ip);
      assert View()[ip] == state.Record();
      answer := state.RegisterConnection(cfg, now, later);
      assert View() == old(View())[ip := state.Record()];
    }

    method UnregisterConnection(ip: IpAddr)
      requires Valid()
      modifies ipStates.Values
      ensures Valid() && View() == Step(cfg, old(View()), Call.UnregisterConnection(ip)).0
    {
      if cfg.enabled && ip in ipStates {
        var state := ipStates[ip];
        state.active := if state.active == 0 then 0 else state.active - 1;
      }
    }

    method IsBanned(ip: IpAddr, now: Instant) returns (flag: bool)
      requires Valid()
      modifies ipStates.Values
      ensures Valid() && (View(), BannedFlag(flag)) == Step(cfg, old(View()), Call.IsBanned(ip, now))
    {
      if ip in ipStates {
        var ban := ipStates[ip].IsBanned(now);
        flag := ban.Some?;
        assert View() == old(View())[ip := ipStates[ip].Record()];
      } else {
        flag := false;
      }
    }

    method BanIp(ip: IpAddr, now: Instant, duration: nat)
      requires Valid()
      modifies this, ipStates.Values
      ensures Valid() && fresh(ipStates.Values - old(ipStates.Values))
      ensures View() == Step(cfg, old(View()), Call.BanIp(ip, now, duration)).0
    {
      var state := GetOrCreateState(ip);
      state.bannedUntil := Some(now + duration);
      state.violations := state.violations + 10;
    }

    method UnbanIp(ip: IpAddr)
      requires Valid()
      modifies ipStates.Values
      ensures Valid() && View() == Step(cfg, old(View()), Call.UnbanIp(ip)).0
    {
      if ip in ipStates {
        ipStates[ip].bannedUntil := None;
      }
    }

    method VisitForStats(ip: IpAddr, now: Instant, acc: Stats) returns (stats: Stats)
      requires Valid()
      modifies ipStates.Values
      ensures Valid() && View() == Visit(old(View()), ip, now)
      ensures stats == Tally(old(View()), ip, now, acc)
    {
      if ip in ipStates {
        var flag := IsBanned(ip, now);
        assert View()[ip] == ipStates[ip].Record();
        stats := acc.(banned := acc.banned + (if flag then 1 else 0),
                      connections := acc.connections + ipStates[ip].active,
                      violations := acc.violations + ipStates[ip].violations);
      } else {
        stats := acc;
      }
    }

    /** `sweep` is the order in which the cache hands out its entries, with the clock reading of each. */
    method GetStats(sweep: Sweep) returns (stats: Stats)
      requires Valid()
      modifies ipStates.Values
      ensures Valid() && (View(), Counted(stats)) == Step(cfg, old(View()), Call.GetStats(sweep))
    {
      stats := Stats(|ipStates|, 0, 0, 0);
      ghost var before := View();
      assert |before| == |ipStates| by {
        assert before.Keys == ipStates.Keys;
        assert |before.Keys| == |before| && |ipStates.Keys| == |ipStates|;
      }
      assert sweep[0..] == sweep;
      for k := 0 to |sweep|
        invariant SweepGuard(View(), sweep[k..]) == SweepGuard(before, sweep)
        invariant SweepStats(View(), sweep[k..], stats) == SweepStats(before, sweep, Stats(|before|, 0, 0, 0))
      {
        assert sweep[k..][0] == sweep[k] && sweep[k..][1..] == sweep[k + 1..];
        stats := VisitForStats(sweep[k].0, sweep[k].1, stats);
      }
    }

    method Evict(ip: IpAddr)
      requires Valid()
      modifies this
      ensures Valid() && ipStates.Values <= old(ipStates.Values)
      ensures View() == Step(cfg, old(View()), Call.Evict(ip)).0
    {
      ipStates := ipStates - {ip};
    }
  }
}
