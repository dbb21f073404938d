/** `apps/api/src/matches/services/match-event-handler.service.ts`: the
    API's match handler. A match request is queued at high priority; the
    high-priority check counts the match in an in-memory cache (seeded
    from the stored matches on a miss), asks the firewall to deny once the
    threshold is reached, and queues the storing of the match at medium
    priority. Storing clears both caches, writes the match and reports it,
    together with a ban request when the check banned. Because every check
    of a burst runs before any store, the burst is counted in the cache. */
module MatchEvents {
  import opened TaskQueue
  import opened ApiTypes
  import IpMatch

  /** `${config._id}:${ip}`. */
  function CacheKey(configId: string, ip: string): string
  {
    configId + ":" + ip
  }

  /** The two caches: match counts by key, and the addresses already
      denied (by address alone, whatever the configuration). */
  datatype CacheState = CacheState(matchCache: map<string, int>, bannedIps: set<string>)

  /** `!entry`: an absent entry and a cached zero are both a miss. */
  predicate Miss(cache: map<string, int>, key: string)
  {
    key !in cache || cache[key] == 0
  }

  /** The count including this match: the cached count, or the stored
      count on a miss, plus one. */
  function NextCount(cache: map<string, int>, key: string, stored: nat): int
  {
    (if Miss(cache, key) then stored else cache[key]) + 1
  }

  /** Whether the check asks for a deny: the threshold is reached and the
      address has not been denied since the caches were last cleared. */
  predicate Denies(s: CacheState, event: MatchEvent, stored: nat)
  {
    event.ip !in s.bannedIps
    && NextCount(s.matchCache, CacheKey(event.config.id, event.ip), stored) >= event.config.maxMatches
  }

  /** The caches after checking a match that is not ignored, with `stored`
      matches of its key in the store. */
  function Check(s: CacheState, event: MatchEvent, stored: nat): CacheState
  {
    var key := CacheKey(event.config.id, event.ip);
    CacheState(s.matchCache[key := NextCount(s.matchCache, key, stored)],
               if Denies(s, event, stored) then s.bannedIps + {event.ip} else s.bannedIps)
  }

  predicate Ignored(event: MatchEvent)
  {
    IpMatch.IsIpInList(event.ip, event.config.ignoreIps)
  }

  /** The event queued for storing when the check finds the address on the
      ignore list. */
  function AsIgnored(event: MatchEvent, now: int): MatchEvent
  {
    event.(ignored := true, timestamp := now, banned := false)
  }

  /** The event queued for storing after a check. */
  function AsChecked(event: MatchEvent, now: int, banned: bool): MatchEvent
  {
    event.(timestamp := now, ignored := false, banned := banned)
  }

  /** What storing a match reports: a ban request when it was banned and
      not ignored, then always the completion. */
  function StoreReports(event: MatchEvent): (r: seq<Emitted>)
    ensures |r| >= 1 && r[|r| - 1] == MatchCreationDone(event)
    ensures BanCreationRequested(BanEvent(event.ip, event.config)) in r <==> !event.ignored && event.banned
    ensures forall e :: e in r ==> e.MatchCreationDone? || e.BanCreationRequested?
  {
    if !event.ignored && event.banned
    then [BanCreationRequested(BanEvent(event.ip, event.config)), MatchCreationDone(event)]
    else [MatchCreationDone(event)]
  }

  /** Handlers never throw into the queue's drain in this model: a failing
      store is reported by `CreateMatch`'s result. */
  function NeverThrows(t: Task): bool
  {
    false
  }

  class MatchEventHandlerService {
    var matchCache: map<string, int>
    var bannedIps: set<string>
    const matches: MatchStore
    const bus: EventBus
    const queue: QueueService<Task>

    function State(): CacheState
      reads this
    {
      CacheState(matchCache, bannedIps)
    }

    constructor (matches: MatchStore, bus: EventBus, queue: QueueService<Task>)
      ensures matchCache == map[] && bannedIps == {}
      ensures this.matches == matches && this.bus == bus && this.queue == queue
    {
      matchCache := map[];
      bannedIps := {};
      this.matches := matches;
      this.bus := bus;
      this.queue := queue;
    }

    /** `handleMatchCreationRequested`: queue the check at high priority. */
    method HandleMatchCreationRequested(event: MatchEvent)
      modifies queue
      ensures var waiting := Insert(old(queue.queue), Item(CacheCheckTask(event), HIGH));
              if old(queue.processing)
              then queue.queue == waiting && queue.processing && queue.handled == old(queue.handled)
              else queue.queue == [] && !queue.processing && queue.handled == old(queue.handled) + waiting
    {
      queue.Enqueue(CacheCheckTask(event), HIGH, NeverThrows);
    }

    /** `handleCacheAndImmediateCheck`, run by the queue's drain at clock
        reading `now`. An ignored address only queues its storing; any
        other is counted, possibly denied, and its storing queued with the
        outcome. */
    method HandleCacheAndImmediateCheck(event: MatchEvent, now: int)
      requires queue.processing
      modifies this, bus, queue
      ensures queue.processing && queue.handled == old(queue.handled) && queue.failed == old(queue.failed)
      ensures Ignored(event) ==>
                && State() == old(State()) && bus.emitted == old(bus.emitted)
                && queue.queue == Insert(old(queue.queue), Item(CreateMatchTask(AsIgnored(event, now)), MEDIUM))
      ensures !Ignored(event) ==>
                var stored := CountFor(matches.records, event.config.id, event.ip);
                var denies := Denies(old(State()), event, stored);
                && State() == Check(old(State()), event, stored)
                && bus.emitted == old(bus.emitted) + (if denies then [FirewallDeny(event.ip)] else [])
                && queue.queue == Insert(old(queue.queue), Item(CreateMatchTask(AsChecked(event, now, denies)), MEDIUM))
    {
      var key := CacheKey(event.config.id, event.ip);
      var banned := false;
      if IpMatch.IsIpInList(event.ip, event.config.ignoreIps) {
        queue.Enqueue(CreateMatchTask(AsIgnored(event, now)), MEDIUM, NeverThrows);
        return;
      }
      if key !in matchCache || matchCache[key] == 0 {
        var totalCount := CountFor(matches.records, event.config.id, event.ip);
        matchCache := matchCache[key := totalCount];
      }
      var count := matchCache[key] + 1;
      matchCache := matchCache[key := count];
      if event.ip !in bannedIps && count >= event.config.maxMatches {
        banned := true;
        bus.Emit(FirewallDeny(event.ip));
        bannedIps := bannedIps + {event.ip};
      }
      queue.Enqueue(CreateMatchTask(AsChecked(event, now, banned)), MEDIUM, NeverThrows);
    }

    /** `createMatch`: clear both caches, store the match, then report. A
        store that fails is rethrown (`ok` false) with nothing reported. */
    method CreateMatch(event: MatchEvent) returns (ok: bool)
      modifies this, matches`records, bus
      ensures matchCache == map[] && bannedIps == {}
      ensures ok == !matches.failing
      ensures matches.records == old(matches.records)
              + (if ok then [MatchRecord(event.line, event.config.regex, event.ip, event.timestamp, event.config.id)] else [])
      ensures bus.emitted == old(bus.emitted) + (if ok then StoreReports(event) else [])
    {
      bannedIps := {};
      matchCache := map[];
      ok := matches.Create(MatchRecord(event.line, event.config.regex, event.ip, event.timestamp, event.config.id));
      if !ok {
        return;
      }
      if event.ignored {
        bus.Emit(MatchCreationDone(event));
        return;
      }
      if event.banned {
        bus.Emit(BanCreationRequested(BanEvent(event.ip, event.config)));
      }
      bus.Emit(MatchCreationDone(event));
    }
  }

  // ---------------------------------------------------------------------------
  // A burst of checks, run before any match of it is stored
  // ---------------------------------------------------------------------------

  /** The caches after checking `events` in order against a store holding
      `records`. */
  function Burst(s: CacheState, events: seq<MatchEvent>, records: seq<MatchRecord>): CacheState
  {
    if |events| == 0 then s
    else
      var before := Burst(s, events[..|events| - 1], records);
      var e := events[|events| - 1];
      if Ignored(e) then before else Check(before, e, CountFor(records, e.config.id, e.ip))
  }

  /** The addresses denied during the burst, in order. */
  function Denied(s: CacheState, events: seq<MatchEvent>, records: seq<MatchRecord>): seq<string>
  {
    if |events| == 0 then []
    else
      var before := Burst(s, events[..|events| - 1], records);
      var e := events[|events| - 1];
      Denied(s, events[..|events| - 1], records)
      + (if !Ignored(e) && Denies(before, e, CountFor(records, e.config.id, e.ip)) then [e.ip] else [])
  }

  /** A check never forgets a denied address. */
  lemma {:induction false} BurstKeepsBanned(s: CacheState, events: seq<MatchEvent>, records: seq<MatchRecord>)
    ensures s.bannedIps <= Burst(s, events, records).bannedIps
    ensures forall ip :: ip in Denied(s, events, records) ==> ip in Burst(s, events, records).bannedIps
  {
    if |events| > 0 {
      BurstKeepsBanned(s, events[..|events| - 1], records);
    }
  }

  predicate NoRepeats(d: seq<string>)
  {
    forall i, j :: 0 <= i < j < |d| ==> d[i] != d[j]
  }

  /** Within a burst each address is denied at most once, and never when it
      was already denied before the burst, whatever configurations the
      matches come from. */
  lemma {:induction false} DeniedAtMostOnce(s: CacheState, events: seq<MatchEvent>, records: seq<MatchRecord>)
    ensures forall ip :: ip in s.bannedIps ==> ip !in Denied(s, events, records)
    ensures NoRepeats(Denied(s, events, records))
  {
    if |events| > 0 {
      var init := events[..|events| - 1];
      DeniedAtMostOnce(s, init, records);
      BurstKeepsBanned(s, init, records);
      var d := Denied(s, events, records);
      var d0 := Denied(s, init, records);
      var e := events[|events| - 1];
      var before := Burst(s, init, records);
      var denies := !Ignored(e) && Denies(before, e, CountFor(records, e.config.id, e.ip));
      assert d == d0 + (if denies then [e.ip] else []);
      forall i, j | 0 <= i < j < |d|
        ensures d[i] != d[j]
      {
        if j >= |d0| {
          assert d[i] == d0[i] && d[i] in before.bannedIps;
          assert d[j] == e.ip && e.ip !in before.bannedIps;
        } else {
          assert d[i] == d0[i] && d[j] == d0[j];
        }
      }
    }
  }

  /** All matches of one address under one configuration, none ignored: */
  predicate OneKey(events: seq<MatchEvent>, config: ApiConfig, ip: string)
  {
    forall i :: 0 <= i < |events| ==> events[i].config == config && events[i].ip == ip && !Ignored(events[i])
  }

  /** starting from a miss, a burst of `k` such matches leaves the stored
      count plus `k` in the cache, and the address is denied exactly once,
      by the match that brings the count to `maxMatches`, or not at all if
      the burst falls short. */
  lemma {:induction false} BurstOfOneAddress(s: CacheState, events: seq<MatchEvent>, records: seq<MatchRecord>,
                                             config: ApiConfig, ip: string)
    requires OneKey(events, config, ip) && |events| > 0
    requires Miss(s.matchCache, CacheKey(config.id, ip)) && ip !in s.bannedIps
    ensures var n := CountFor(records, config.id, ip);
            var r := Burst(s, events, records);
            && CacheKey(config.id, ip) in r.matchCache
            && r.matchCache[CacheKey(config.id, ip)] == n + |events|
            && (ip in r.bannedIps <==> n + |events| >= config.maxMatches)
            && Denied(s, events, records) == (if n + |events| >= config.maxMatches then [ip] else [])
  {
    var key := CacheKey(config.id, ip);
    var n := CountFor(records, config.id, ip);
    var init := events[..|events| - 1];
    if |init| > 0 {
      assert OneKey(init, config, ip);
      BurstOfOneAddress(s, init, records, config, ip);
      var before := Burst(s, init, records);
      assert before.matchCache[key] == n + |init| >= 1;
      assert !Miss(before.matchCache, key);
    } else {
      assert Burst(s, init, records) == s;
      assert Denied(s, init, records) == [];
    }
  }

  /** Storing reports a ban request only for a banned match that was not
      ignored: a match of an ignored address never leads to a ban. */
  lemma IgnoredNeverRequestsBan(event: MatchEvent, now: int)
    ensures forall e :: e in StoreReports(AsIgnored(event, now)) ==> !e.BanCreationRequested?
  {
    assert StoreReports(AsIgnored(event, now)) == [MatchCreationDone(AsIgnored(event, now))];
  }

  /** After a store the caches are empty, so the next check of the key is a
      miss and is seeded from the store, which now holds the new match. */
  lemma StoreReseeds(records: seq<MatchRecord>, event: MatchEvent)
    ensures var r := MatchRecord(event.line, event.config.regex, event.ip, event.timestamp, event.config.id);
            && Miss(map[], CacheKey(event.config.id, event.ip))
            && CountFor(records + [r], event.config.id, event.ip) == CountFor(records, event.config.id, event.ip) + 1
  {
    var r := MatchRecord(event.line, event.config.regex, event.ip, event.timestamp, event.config.id);
    assert (records + [r])[..|records|] == records;
  }
}
