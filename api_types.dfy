/** The records and events the API's services share: a configuration as the
    handlers read it, the match and ban events, the events put on the
    application's event emitter, the queue's tasks, and the two stores the
    handlers write to (matches and bans). The stores' persistence is not
    modelled: each holds its records in memory. Only the match store's
    `create` can be told to fail; its reads and every ban store call
    always succeed. */
module ApiTypes {
  import opened Wrappers

  /** `ConfigSchema`, the fields the handlers use; times are in seconds. */
  datatype ApiConfig = ApiConfig(
    id: string,
    name: string,
    regex: string,
    findTime: int,
    maxMatches: int,
    banTime: int,
    ignoreIps: seq<string>)

  /** `MatchEvent`: the line, the address found in it and the configuration,
      plus the flags the cache check adds before the match is stored. */
  datatype MatchEvent = MatchEvent(
    line: string,
    ip: string,
    config: ApiConfig,
    ignored: bool,
    timestamp: int,
    banned: bool)

  /** `BanEvent`. */
  datatype BanEvent = BanEvent(ip: string, config: ApiConfig)

  /** The events the handlers emit. */
  datatype Emitted =
    | FirewallDeny(ip: string)
    | FirewallAllow(ip: string)
    | BanCreationRequested(ban: BanEvent)
    | BanCreationDone(ban: BanEvent)
    | BanCreate(ban: BanEvent)
    | MatchCreationDone(event: MatchEvent)
    | UnbanCreateRequested(ip: string, configId: string, banId: nat)
    | FirewallReady

  /** The handlers that go through the task queue, with their data. */
  datatype Task =
    | CacheCheckTask(event: MatchEvent)
    | CreateMatchTask(event: MatchEvent)
    | CreateBanTask(ban: BanEvent)

  /** `EventEmitter2`, reduced to the record of what was emitted. */
  class EventBus {
    var emitted: seq<Emitted>

    constructor ()
      ensures emitted == []
    {
      emitted := [];
    }

    method Emit(e: Emitted)
      modifies this
      ensures emitted == old(emitted) + [e]
    {
      emitted := emitted + [e];
    }
  }

  /** A stored match (`matchesService.create`'s argument). */
  datatype MatchRecord = MatchRecord(line: string, regex: string, ip: string, timestamp: int, configId: string)

  /** The number of stored matches of one configuration and one address.
      This is the model's reading of the `totalCount` that the cache check
      takes from `findAll({configId, ip, limit: 0})`. `MatchesService.findAll`
      returns the matching records as an array, which has no `totalCount`. */
  function CountFor(records: seq<MatchRecord>, configId: string, ip: string): (n: nat)
    ensures n <= |records|
    ensures n == 0 <==> forall i :: 0 <= i < |records| ==> !(records[i].configId == configId && records[i].ip == ip)
  {
    if |records| == 0 then 0
    else CountFor(records[..|records| - 1], configId, ip)
         + (if records[|records| - 1].configId == configId && records[|records| - 1].ip == ip then 1 else 0)
  }

  /** `matchesService`: the stored matches; `failing` makes `create` reject. */
  class MatchStore {
    var records: seq<MatchRecord>
    var failing: bool

    constructor ()
      ensures records == [] && !failing
    {
      records := [];
      failing := false;
    }

    method Create(r: MatchRecord) returns (ok: bool)
      modifies this`records
      ensures ok == !failing
      ensures records == old(records) + (if ok then [r] else [])
    {
      if failing {
        return false;
      }
      records := records + [r];
      return true;
    }
  }

  /** A stored ban. The identifier is its position in the store; the ban
      time is recorded only by the older handler. */
  datatype Ban = Ban(id: nat, ip: string, timestamp: int, configId: string, active: bool, banTime: Option<int>)

  /** Every ban's identifier is its position. */
  predicate WellNumbered(bans: seq<Ban>)
  {
    forall i :: 0 <= i < |bans| ==> bans[i].id == i
  }

  /** Whether an active ban of this address under this configuration exists
      (`findAll({ip, configId, active: true}).length > 0`). */
  predicate HasActive(bans: seq<Ban>, ip: string, configId: string)
  {
    exists i :: 0 <= i < |bans| && bans[i].active && bans[i].ip == ip && bans[i].configId == configId
  }

  /** Whether any active ban of this address exists, under any
      configuration (`findActiveBansByIp(ip).length > 0`). */
  predicate HasActiveForIp(bans: seq<Ban>, ip: string)
  {
    exists i :: 0 <= i < |bans| && bans[i].active && bans[i].ip == ip
  }

  /** `bansService`: the stored bans. */
  class BanStore {
    var bans: seq<Ban>

    ghost predicate Valid()
      reads this
    {
      WellNumbered(bans)
    }

    constructor ()
      ensures Valid() && bans == []
    {
      bans := [];
    }

    /** `create`: a new active ban under the next identifier. */
    method Create(ip: string, timestamp: int, configId: string, banTime: Option<int>) returns (id: nat)
      requires Valid()
      modifies this
      ensures Valid()
      ensures id == |old(bans)|
      ensures bans == old(bans) + [Ban(id, ip, timestamp, configId, true, banTime)]
    {
      id := |bans|;
      bans := bans + [Ban(id, ip, timestamp, configId, true, banTime)];
    }

    /** `update(id, {active: false})`. */
    method Deactivate(id: nat)
      requires Valid() && id < |bans|
      modifies this
      ensures Valid()
      ensures bans == old(bans)[id := old(bans)[id].(active := false)]
    {
      bans := bans[id := bans[id].(active := false)];
    }
  }
}
