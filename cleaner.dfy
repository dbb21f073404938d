/** `apps/core/src/cleaner.rs`: the once-a-second sweep. It removes each
    configuration's matches older than its find time, then every ban older
    than the largest ban time of any configuration, allowing the address in
    the firewall and reporting an unban for each. */
module Cleaning {
  import opened Wrappers
  import opened Ints
  import opened Strings
  import opened LedgerKeys
  import opened Configuration
  import opened CoreLedger
  import opened Firewall

  /** `unwrap_or(86400000)`: 24 hours when no configuration is loaded. */
  const DEFAULT_BAN_TIME: u64 := 86400000

  /** `UnbanEvent::new(ip, timestamp, config_id)`. */
  datatype UnbanEvent = UnbanEvent(ip: string, timestamp: u64, configId: string)

  /** `m` is what the ban-time fold yields: the default for no
      configurations, otherwise the largest ban time among them. */
  predicate IsMaxBanTime(configs: map<string, Config>, m: u64)
  {
    if configs.Keys == {} then m == DEFAULT_BAN_TIME
    else (exists id :: id in configs && configs[id].banTime == m)
         && forall id :: id in configs ==> configs[id].banTime <= m
  }

  /** The keys the sweep of one configuration removes from `matches`: each
      one rebuilt from a parseable record under its prefix older than the
      window. */
  function StaleKeys(matches: set<string>, configId: string, findTime: u64, now: u64): set<string>
  {
    set x | x in RecordsOf(matches, MATCH_KIND, ConfigPrefix(MATCH_KIND, configId), Before(SaturatingSub(now, findTime)))
      :: RecordKey(MATCH_KIND, x)
  }

  /** A stored key under the configuration's prefix, older than its window,
      written in the form `add_match` writes. */
  predicate CanonicalStale(k: string, configId: string, findTime: u64, now: u64)
  {
    Qualifies(MATCH_KIND, ConfigPrefix(MATCH_KIND, configId), Before(SaturatingSub(now, findTime)), k)
    && RecordKey(MATCH_KIND, ParseKey(MATCH_KIND, k).value) == k
  }

  /** The match sweep's outcome after the configurations of `done` are
      swept: only keys stale for one of them are gone, each canonical stale
      key of each of them is gone, and a key whose removal fails stays. */
  ghost predicate SweptBy(orig: set<string>, cur: set<string>, configs: map<string, Config>, done: set<string>,
                          now: u64, failing: bool, faults: set<string>)
  {
    && cur <= orig
    && (forall k :: k in orig && k !in cur ==>
          !Faulty(failing, faults, k)
          && exists id :: id in done && id in configs && k in StaleKeys(orig, id, configs[id].findTime, now))
    && (forall id, k ::
          (id in done && id in configs && k in orig && CanonicalStale(k, id, configs[id].findTime, now)
           && !Faulty(failing, faults, k)) ==> k !in cur)
  }

  /** The whole match sweep's outcome. */
  ghost predicate Swept(orig: set<string>, final: set<string>, configs: map<string, Config>, now: u64,
                        failing: bool, faults: set<string>)
  {
    SweptBy(orig, final, configs, configs.Keys, now, failing, faults)
  }

  /** The bans `get_expired_bans(max_ban_time)` reports. */
  function ExpiredRecords(bans: set<string>, maxBanTime: u64, now: u64): set<Record>
  {
    RecordsOf(bans, BAN_KIND, "", Before(SaturatingSub(now, maxBanTime)))
  }

  /** The firewall rules after allowing each address of `recs` in turn. */
  function AllowAll(chains: map<string, seq<string>>, broken: bool, recs: seq<Record>): map<string, seq<string>>
  {
    if |recs| == 0 then chains
    else AfterAllowText(AllowAll(chains, broken, recs[..|recs| - 1]), broken, recs[|recs| - 1].ip)
  }

  /** One unban report per record, in order. */
  function Unbans(recs: seq<Record>, now: u64, configId: string): seq<UnbanEvent>
  {
    seq(|recs|, i requires 0 <= i < |recs| => UnbanEvent(recs[i].ip, now, configId))
  }

  /** The configuration id an unban carries: the first key of the
      snapshot, or "unknown" when it is empty. */
  predicate IsUnbanConfigId(configs: map<string, Config>, configId: string)
  {
    if configs.Keys == {} then configId == "unknown" else configId in configs
  }

  lemma StaleMonotone(m1: set<string>, m2: set<string>, configId: string, findTime: u64, now: u64)
    requires m1 <= m2
    ensures StaleKeys(m1, configId, findTime, now) <= StaleKeys(m2, configId, findTime, now)
  {
  }

  lemma SweepStep(orig: set<string>, prev: set<string>, configs: map<string, Config>, done: set<string>,
                  id: string, now: u64, failing: bool, faults: set<string>)
    requires id in configs
    requires SweptBy(orig, prev, configs, done, now, failing, faults)
    ensures SweptBy(orig, prev - SweptKeys(prev, id, configs[id].findTime, now, failing, faults),
                    configs, done + {id}, now, failing, faults)
  {
    var ft := configs[id].findTime;
    var gone := SweptKeys(prev, id, ft, now, failing, faults);
    var next := prev - gone;
    StaleMonotone(prev, orig, id, ft, now);
    assert gone <= StaleKeys(prev, id, ft, now);
    forall k | k in orig && k !in next
      ensures !Faulty(failing, faults, k)
      ensures exists d :: d in done + {id} && d in configs && k in StaleKeys(orig, d, configs[d].findTime, now)
    {
      if k in prev {
        assert k in gone;
        var x :| x in RecordsOf(prev, MATCH_KIND, ConfigPrefix(MATCH_KIND, id), Before(SaturatingSub(now, ft)))
                 && !Faulty(failing, faults, RecordKey(MATCH_KIND, x)) && RecordKey(MATCH_KIND, x) == k;
        assert k in StaleKeys(orig, id, ft, now);
      }
    }
    forall k | k in prev && CanonicalStale(k, id, ft, now) && !Faulty(failing, faults, k)
      ensures k in gone
    {
      assert ParseKey(MATCH_KIND, k).value in RecordsOf(prev, MATCH_KIND, ConfigPrefix(MATCH_KIND, id), Before(SaturatingSub(now, ft)));
    }
  }

  /** Every ban the sweep removes is older than the ban time of each
      configuration: the largest ban time applies to all of them. */
  lemma ExpiredOutlivesEveryBanTime(bans: set<string>, configs: map<string, Config>, maxBanTime: u64, now: u64,
                                    r: Record, id: string)
    requires IsMaxBanTime(configs, maxBanTime) && r in ExpiredRecords(bans, maxBanTime, now) && id in configs
    ensures r.timestamp < SaturatingSub(now, configs[id].banTime)
  {
  }

  /** The fold's answer is unique. */
  lemma MaxBanTimeUnique(configs: map<string, Config>, m1: u64, m2: u64)
    requires IsMaxBanTime(configs, m1) && IsMaxBanTime(configs, m2)
    ensures m1 == m2
  {
    if configs != map[] {
      var i1 :| i1 in configs && configs[i1].banTime == m1;
      var i2 :| i2 in configs && configs[i2].banTime == m2;
    }
  }

  /** A match written by `add_match` with colon-free fields and older than
      its configuration's window is one the sweep must remove. */
  lemma RecordedMatchIsStale(configId: string, ip: string, timestamp: u64, findTime: u64, now: u64)
    requires IsField(configId) && IsField(ip) && timestamp < SaturatingSub(now, findTime)
    ensures CanonicalStale(MakeKey(MATCH_KIND, configId, ip, timestamp), configId, findTime, now)
  {
    ParseMakeKey(MATCH_KIND, configId, ip, timestamp);
    KeyUnderOwnPrefixes(MATCH_KIND, configId, ip, timestamp);
  }

  /** When configuration ids are colon-free, a match written for a loaded
      configuration inside its window survives the sweep of every
      configuration. */
  lemma WindowMatchSurvives(orig: set<string>, configs: map<string, Config>, configId: string, ip: string,
                            timestamp: u64, now: u64, id: string)
    requires forall d :: d in configs ==> IsField(d)
    requires configId in configs && IsField(ip)
    requires timestamp >= SaturatingSub(now, configs[configId].findTime)
    requires id in configs
    ensures MakeKey(MATCH_KIND, configId, ip, timestamp) !in StaleKeys(orig, id, configs[id].findTime, now)
  {
    var k := MakeKey(MATCH_KIND, configId, ip, timestamp);
    var ft := configs[id].findTime;
    var prefix := ConfigPrefix(MATCH_KIND, id);
    if k in StaleKeys(orig, id, ft, now) {
      var x :| x in RecordsOf(orig, MATCH_KIND, prefix, Before(SaturatingSub(now, ft))) && RecordKey(MATCH_KIND, x) == k;
      var k0 :| k0 in orig && Qualifies(MATCH_KIND, prefix, Before(SaturatingSub(now, ft)), k0)
                && ParseKey(MATCH_KIND, k0).value == x;
      UnderConfigPrefix(MATCH_KIND, id, k0);
      ParsedRecordRebuilds(MATCH_KIND, k0);
      MakeKeyInjective(MATCH_KIND, x.configId, x.ip, x.timestamp, configId, ip, timestamp);
      assert false;
    }
  }

  /** The index of the first record whose ban key cannot be removed, or
      the length when every removal goes through. */
  function FirstFaulty(failing: bool, faults: set<string>, recs: seq<Record>): (n: nat)
    ensures n <= |recs|
    ensures forall i :: 0 <= i < n ==> !Faulty(failing, faults, RecordKey(BAN_KIND, recs[i]))
    ensures n < |recs| ==> Faulty(failing, faults, RecordKey(BAN_KIND, recs[n]))
  {
    if |recs| == 0 then 0
    else if Faulty(failing, faults, RecordKey(BAN_KIND, recs[0])) then 0
    else 1 + FirstFaulty(failing, faults, recs[1..])
  }

  /** The ban keys rebuilt from `recs`. */
  function BanKeys(recs: seq<Record>): set<string>
  {
    set x | x in recs :: RecordKey(BAN_KIND, x)
  }

  lemma KeysStep(recs: seq<Record>, i: nat)
    requires i < |recs|
    ensures BanKeys(recs[..i + 1]) == BanKeys(recs[..i]) + {RecordKey(BAN_KIND, recs[i])}
  {
    assert recs[..i + 1] == recs[..i] + [recs[i]];
  }

  lemma AllowStep(recs: seq<Record>, i: nat, chains: map<string, seq<string>>, broken: bool)
    requires i < |recs|
    ensures AllowAll(chains, broken, recs[..i + 1]) == AfterAllowText(AllowAll(chains, broken, recs[..i]), broken, recs[i].ip)
  {
    assert recs[..i + 1][..i] == recs[..i];
  }

  lemma UnbansStep(recs: seq<Record>, i: nat, now: u64, configId: string)
    requires i < |recs|
    ensures Unbans(recs[..i + 1], now, configId) == Unbans(recs[..i], now, configId) + [UnbanEvent(recs[i].ip, now, configId)]
  {
  }

  /** What one cleanup changes: the two ledger trees, the firewall's
      chains and the unban reports. */
  datatype CleanState = CleanState(matches: set<string>, bans: set<string>,
                                   chains: map<string, seq<string>>, emitted: seq<UnbanEvent>)

  /** How one cleanup resolved what the source leaves open: the ban time
      the fold yields, the order of the expired bans and the id the unban
      reports carry. */
  datatype Sweep = Sweep(maxBanTime: u64, processed: seq<Record>, configId: string)

  /** The effect of one `cleanup` at clock reading `now`, from `pre` to
      `post`, failing when `failed` holds. The match sweep runs first and
      ignores errors. A failing ledger then ends the call. Otherwise the
      expired bans are taken in the order of `w.processed`: each one is
      removed, allowed and reported, until the first whose removal fails,
      which ends the call with an error and leaves it and the rest in
      place. */
  ghost predicate CleanupEffect(configs: map<string, Config>, failing: bool, faults: set<string>, broken: bool,
                                pre: CleanState, post: CleanState, now: u64, w: Sweep, failed: bool)
  {
    && Swept(pre.matches, post.matches, configs, now, failing, faults)
    && if failing then
         failed && post.bans == pre.bans && post.chains == pre.chains && post.emitted == pre.emitted
       else
         var n := FirstFaulty(false, faults, w.processed);
         && IsMaxBanTime(configs, w.maxBanTime)
         && (set x | x in w.processed) == ExpiredRecords(pre.bans, w.maxBanTime, now)
         && |w.processed| == |Selected(pre.bans, BAN_KIND, "", Before(SaturatingSub(now, w.maxBanTime)))|
         && IsUnbanConfigId(configs, w.configId)
         && (failed <==> n < |w.processed|)
         && post.bans == pre.bans - BanKeys(w.processed[..n])
         && post.chains == AllowAll(pre.chains, broken, w.processed[..n])
         && post.emitted == pre.emitted + Unbans(w.processed[..n], now, w.configId)
  }

  /** A cleanup that succeeds leaves no ban it found expired: every record
      older than the largest ban time is gone from the ban tree. */
  lemma CleanupRemovesExpired(configs: map<string, Config>, failing: bool, faults: set<string>, broken: bool,
                              pre: CleanState, post: CleanState, now: u64, w: Sweep, r: Record)
    requires CleanupEffect(configs, failing, faults, broken, pre, post, now, w, false)
    requires r in ExpiredRecords(pre.bans, w.maxBanTime, now)
    ensures RecordKey(BAN_KIND, r) !in post.bans
  {
    assert !failing;
    var n := FirstFaulty(false, faults, w.processed);
    assert w.processed[..n] == w.processed;
    assert r in (set x | x in w.processed);
  }

  /** A cleanup only removes matches and bans, and only appends reports. */
  lemma CleanupOnlyRemoves(configs: map<string, Config>, failing: bool, faults: set<string>, broken: bool,
                           pre: CleanState, post: CleanState, now: u64, w: Sweep, failed: bool)
    requires CleanupEffect(configs, failing, faults, broken, pre, post, now, w, failed)
    ensures post.matches <= pre.matches && post.bans <= pre.bans && pre.emitted <= post.emitted
  {
  }

  class Cleaner {
    /** The shared configuration map; the sweep works on a snapshot. */
    var configs: map<string, Config>
    const database: CoreDatabase
    const firewall: Firewall
    /** Unban reports emitted, oldest first. */
    var emitted: seq<UnbanEvent>

    constructor (configs: map<string, Config>, database: CoreDatabase, firewall: Firewall)
      ensures this.configs == configs && this.database == database && this.firewall == firewall && emitted == []
    {
      this.configs := configs;
      this.database := database;
      this.firewall := firewall;
      emitted := [];
    }

    /** What one cleanup changes. */
    ghost function State(): CleanState
      reads this, database, firewall, firewall.ipt
    {
      CleanState(database.matches, database.bans, firewall.ipt.chains, emitted)
    }

    /** The match sweep: `remove_old_matches` per configuration, errors
        ignored. */
    method SweepMatches(now: u64)
      modifies database`matches
      ensures Swept(old(database.matches), database.matches, configs, now, database.failing, database.writeFaults)
    {
      var ids := configs.Keys;
      while ids != {}
        invariant ids <= configs.Keys
        invariant SweptBy(old(database.matches), database.matches, configs, configs.Keys - ids, now,
                          database.failing, database.writeFaults)
        decreases ids
      {
        var id :| id in ids;
        SweepStep(old(database.matches), database.matches, configs, configs.Keys - ids, id, now,
                  database.failing, database.writeFaults);
        var _ := database.RemoveOldMatches(id, configs[id].findTime, now);
        assert configs.Keys - (ids - {id}) == (configs.Keys - ids) + {id};
        ids := ids - {id};
      }
    }

    /** The ban-time fold over the snapshot's values. */
    static method MaxBanTime(snapshot: map<string, Config>) returns (m: u64)
      ensures IsMaxBanTime(snapshot, m)
    {
      var best: Option<u64> := None;
      var ids := snapshot.Keys;
      ghost var bestId: string := "";
      while ids != {}
        invariant ids <= snapshot.Keys
        invariant best.None? <==> ids == snapshot.Keys
        invariant best.Some? ==> bestId in snapshot && bestId !in ids && snapshot[bestId].banTime == best.value
        invariant best.Some? ==> forall id :: id in snapshot && id !in ids ==> snapshot[id].banTime <= best.value
        decreases ids
      {
        var id :| id in ids;
        var banTime := snapshot[id].banTime;
        if best.None? || banTime > best.value {
          best := Some(banTime);
          bestId := id;
        }
        ids := ids - {id};
      }
      if best.None? {
        m := DEFAULT_BAN_TIME;
      } else {
        m := best.value;
      }
    }

    /** The ban phase: the scan's error ends the sweep; each expired ban is
        removed under its own configuration, allowed in the firewall (its
        failure ignored) and reported, until a removal fails. */
    method ExpireBans(maxBanTime: u64, now: u64) returns (r: Outcome, ghost processed: seq<Record>, ghost configId: string)
      modifies database`bans, firewall.ipt`chains, this`emitted
      ensures database.failing ==>
                r.Fail? && database.bans == old(database.bans) && firewall.ipt.chains == old(firewall.ipt.chains)
                && emitted == old(emitted)
      ensures !database.failing ==>
                var n := FirstFaulty(false, database.writeFaults, processed);
                && (set x | x in processed) == ExpiredRecords(old(database.bans), maxBanTime, now)
                && |processed| == |Selected(old(database.bans), BAN_KIND, "", Before(SaturatingSub(now, maxBanTime)))|
                && IsUnbanConfigId(configs, configId)
                && (r.Fail? <==> n < |processed|)
                && database.bans == old(database.bans) - BanKeys(processed[..n])
                && firewall.ipt.chains == AllowAll(old(firewall.ipt.chains), firewall.ipt.broken, processed[..n])
                && emitted == old(emitted) + Unbans(processed[..n], now, configId)
    {
      processed := [];
      configId := "unknown";
      var expired := database.GetExpiredBans(maxBanTime, now);
      if expired.Err? {
        return Fail(expired.error), processed, configId;
      }
      var recs := expired.value;
      var unbanId := "unknown";
      if configs != map[] {
        var first :| first in configs;
        unbanId := first;
      }
      r := RemoveAndAllow(recs, now, unbanId);
      processed, configId := recs, unbanId;
    }

    /** The loop over the expired bans: the `?` after `remove_ban` ends it
        at the first removal that fails. */
    method RemoveAndAllow(recs: seq<Record>, now: u64, unbanId: string) returns (r: Outcome)
      modifies database`bans, firewall.ipt`chains, this`emitted
      ensures var n := FirstFaulty(database.failing, database.writeFaults, recs);
              && (r.Fail? <==> n < |recs|)
              && database.bans == old(database.bans) - BanKeys(recs[..n])
              && firewall.ipt.chains == AllowAll(old(firewall.ipt.chains), firewall.ipt.broken, recs[..n])
              && emitted == old(emitted) + Unbans(recs[..n], now, unbanId)
    {
      ghost var n := FirstFaulty(database.failing, database.writeFaults, recs);
      var i := 0;
      while i < |recs|
        invariant 0 <= i <= n
        invariant database.bans == old(database.bans) - BanKeys(recs[..i])
        invariant firewall.ipt.chains == AllowAll(old(firewall.ipt.chains), firewall.ipt.broken, recs[..i])
        invariant emitted == old(emitted) + Unbans(recs[..i], now, unbanId)
      {
        var ban := recs[i];
        assert RecordKey(BAN_KIND, ban) == MakeKey(BAN_KIND, ban.configId, ban.ip, ban.timestamp);
        var removed := database.RemoveBan(ban.configId, ban.ip, ban.timestamp);
        if removed.Fail? {
          assert i == n;
          return removed;
        }
        assert i < n;
        KeysStep(recs, i);
        AllowStep(recs, i, old(firewall.ipt.chains), firewall.ipt.broken);
        UnbansStep(recs, i, now, unbanId);
        var _ := firewall.AllowText(ban.ip);
        emitted := emitted + [UnbanEvent(ban.ip, now, unbanId)];
        i := i + 1;
      }
      r := Pass;
    }

    /** `cleanup` at clock reading `now`. */
    method Cleanup(now: u64) returns (r: Outcome, ghost w: Sweep)
      modifies database`matches, database`bans, firewall.ipt`chains, this`emitted
      ensures CleanupEffect(configs, database.failing, database.writeFaults, firewall.ipt.broken,
                            old(State()), State(), now, w, r.Fail?)
    {
      SweepMatches(now);
      var maxBanTime := MaxBanTime(configs);
      ghost var processed, configId;
      r, processed, configId := ExpireBans(maxBanTime, now);
      w := Sweep(maxBanTime, processed, configId);
    }

    /** `start`: one cleanup per tick, each at its clock reading, errors
        logged and ignored. `trace` holds the state before each tick and
        after the last; `sweeps` and `failures` say how each tick went. */
    method Start(ticks: seq<u64>) returns (ghost trace: seq<CleanState>, ghost sweeps: seq<Sweep>, ghost failures: seq<bool>)
      modifies database`matches, database`bans, firewall.ipt`chains, this`emitted
      ensures |trace| == |ticks| + 1 && |sweeps| == |ticks| && |failures| == |ticks|
      ensures trace[0] == old(State()) && trace[|ticks|] == State()
      ensures forall i :: 0 <= i < |ticks| ==>
                CleanupEffect(configs, database.failing, database.writeFaults, firewall.ipt.broken,
                              trace[i], trace[i + 1], ticks[i], sweeps[i], failures[i])
      ensures old(emitted) <= emitted
      ensures database.failing ==>
                && database.matches == old(database.matches) && database.bans == old(database.bans)
                && emitted == old(emitted)
      ensures database.bans <= old(database.bans) && database.matches <= old(database.matches)
    {
      trace, sweeps, failures := [State()], [], [];
      var i := 0;
      while i < |ticks|
        invariant 0 <= i <= |ticks|
        invariant |trace| == i + 1 && |sweeps| == i && |failures| == i
        invariant trace[0] == old(State()) && trace[i] == State()
        invariant forall j :: 0 <= j < i ==>
                    CleanupEffect(configs, database.failing, database.writeFaults, firewall.ipt.broken,
                                  trace[j], trace[j + 1], ticks[j], sweeps[j], failures[j])
        invariant old(emitted) <= emitted
        invariant database.failing ==>
                    database.matches == old(database.matches) && database.bans == old(database.bans) && emitted == old(emitted)
        invariant database.bans <= old(database.bans) && database.matches <= old(database.matches)
      {
        ghost var pre := State();
        var r, w := Cleanup(ticks[i]);
        CleanupOnlyRemoves(configs, database.failing, database.writeFaults, firewall.ipt.broken,
                           pre, State(), ticks[i], w, r.Fail?);
        trace, sweeps, failures := trace + [State()], sweeps + [w], failures + [r.Fail?];
        i := i + 1;
      }
    }
  }
}
