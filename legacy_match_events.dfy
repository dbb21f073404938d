/** `apps/api/src/matches/match-event-handler.service.ts`: the older match
    handler. It stores the match first, then counts the configuration's
    stored matches newer than the find window, from every address, and
    requests a ban of the matched address once that count reaches
    `maxMatches`. */
module LegacyMatchEvents {
  import opened ApiTypes

  /** `findAll({configId, timestamp_gt: after}).length`: the stored matches
      of the configuration strictly newer than `after`, whatever their
      address. */
  function WindowCount(records: seq<MatchRecord>, configId: string, after: int): (n: nat)
    ensures n <= |records|
    ensures n == 0 <==> forall i :: 0 <= i < |records| ==> !(records[i].configId == configId && records[i].timestamp > after)
  {
    if |records| == 0 then 0
    else WindowCount(records[..|records| - 1], configId, after)
         + (if records[|records| - 1].configId == configId && records[|records| - 1].timestamp > after then 1 else 0)
  }

  /** The start of the window at clock reading `now` (milliseconds; the
      find time is in seconds). */
  function WindowStart(config: ApiConfig, now: int): int
  {
    now - config.findTime * 1000
  }

  /** The record `handleMatch` stores. */
  function Stored(event: MatchEvent, now: int): MatchRecord
  {
    MatchRecord(event.line, event.config.regex, event.ip, now, event.config.id)
  }

  /** Whether, with `records` stored after the new match, a ban is
      requested. */
  predicate Triggers(records: seq<MatchRecord>, event: MatchEvent, now: int)
  {
    WindowCount(records, event.config.id, WindowStart(event.config, now)) >= event.config.maxMatches
  }

  class LegacyMatchEventHandler {
    const matches: MatchStore
    const bus: EventBus

    constructor (matches: MatchStore, bus: EventBus)
      ensures this.matches == matches && this.bus == bus
    {
      this.matches := matches;
      this.bus := bus;
    }

    /** `handleMatch` at clock reading `now`. A store that fails rejects
        the handler (`ok` false) before anything is counted. */
    method HandleMatch(event: MatchEvent, now: int) returns (ok: bool)
      modifies matches`records, bus
      ensures ok == !matches.failing
      ensures matches.records == old(matches.records) + (if ok then [Stored(event, now)] else [])
      ensures bus.emitted == old(bus.emitted)
              + (if ok && Triggers(matches.records, event, now) then [BanCreate(BanEvent(event.ip, event.config))] else [])
    {
      ok := matches.Create(Stored(event, now));
      if !ok {
        return;
      }
      var count := WindowCount(matches.records, event.config.id, now - event.config.findTime * 1000);
      if count >= event.config.maxMatches {
        bus.Emit(BanCreate(BanEvent(event.ip, event.config)));
      }
    }
  }

  /** The new match is stored before counting, so it counts toward the
      threshold whenever the find time is positive (its timestamp is then
      strictly inside the window). */
  lemma NewMatchCounts(records: seq<MatchRecord>, event: MatchEvent, now: int)
    ensures WindowCount(records + [Stored(event, now)], event.config.id, WindowStart(event.config, now))
            == WindowCount(records, event.config.id, WindowStart(event.config, now)) + (if event.config.findTime > 0 then 1 else 0)
  {
    assert (records + [Stored(event, now)])[..|records|] == records;
  }

  /** A match exactly at the start of the window is outside it. */
  lemma WindowStartExcluded(r: MatchRecord, after: int)
    requires r.timestamp == after
    ensures WindowCount([r], r.configId, after) == 0
  {
    assert [r][..0] == [];
  }

  /** The count does not look at addresses: one match of another address
      under the same configuration inside the window is enough for a
      `maxMatches` of 2 to request a ban of an address seen only once. */
  lemma OtherAddressesCount(earlier: MatchRecord, event: MatchEvent, now: int)
    requires earlier.configId == event.config.id && earlier.ip != event.ip
    requires earlier.timestamp > WindowStart(event.config, now) && event.config.findTime > 0
    requires event.config.maxMatches == 2
    ensures Triggers([earlier] + [Stored(event, now)], event, now)
  {
    NewMatchCounts([earlier], event, now);
    assert [earlier][..0] == [];
  }
}
