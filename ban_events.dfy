/** The two ban handlers of the API.
    `apps/api/src/bans/services/ban-event-handler.service.ts` queues each
    ban request at high priority and, when it runs, creates an active ban
    only if the address has none under the configuration, then asks the
    firewall to deny and reports the ban.
    `apps/api/src/bans/ban-event-handler.service.ts`, the older handler,
    deactivates the address's active bans under the configuration, creates
    a new one with the configuration's ban time, and always asks the
    firewall to deny. */
module BanEvents {
  import opened Wrappers
  import opened TaskQueue
  import opened ApiTypes

  /** No two active bans share an address and a configuration. */
  predicate OneActivePerKey(bans: seq<Ban>)
  {
    forall i, j :: 0 <= i < j < |bans| && bans[i].active && bans[j].active && bans[i].ip == bans[j].ip
                   ==> bans[i].configId != bans[j].configId
  }

  /** The bans after `createBan` at clock reading `now`. */
  function AfterCreateBan(bans: seq<Ban>, event: BanEvent, now: int): seq<Ban>
  {
    if HasActive(bans, event.ip, event.config.id) then bans
    else bans + [Ban(|bans|, event.ip, now, event.config.id, true, None)]
  }

  /** `createBan` keeps at most one active ban per address and
      configuration, and afterwards the requested ban is active. */
  lemma CreateBanKeepsOneActive(bans: seq<Ban>, event: BanEvent, now: int)
    requires OneActivePerKey(bans)
    ensures OneActivePerKey(AfterCreateBan(bans, event, now))
    ensures HasActive(AfterCreateBan(bans, event, now), event.ip, event.config.id)
    ensures WellNumbered(bans) ==> WellNumbered(AfterCreateBan(bans, event, now))
  {
    var r := AfterCreateBan(bans, event, now);
    if !HasActive(bans, event.ip, event.config.id) {
      forall i, j | 0 <= i < j < |r| && r[i].active && r[j].active && r[i].ip == r[j].ip
        ensures r[i].configId != r[j].configId
      {
        if j == |bans| {
          assert r[i] == bans[i];
        } else {
          assert r[i] == bans[i] && r[j] == bans[j];
        }
      }
      assert r[|bans|].active && r[|bans|].ip == event.ip && r[|bans|].configId == event.config.id;
    }
  }

  /** A repeated request changes nothing: `createBan` is idempotent. */
  lemma CreateBanIdempotent(bans: seq<Ban>, event: BanEvent, now: int, later: int)
    ensures AfterCreateBan(AfterCreateBan(bans, event, now), event, later) == AfterCreateBan(bans, event, now)
  {
    var r := AfterCreateBan(bans, event, now);
    if !HasActive(bans, event.ip, event.config.id) {
      assert r[|bans|].active && r[|bans|].ip == event.ip && r[|bans|].configId == event.config.id;
    }
  }

  class BanEventHandler {
    const store: BanStore
    const bus: EventBus
    const queue: QueueService<Task>

    constructor (store: BanStore, bus: EventBus, queue: QueueService<Task>)
      ensures this.store == store && this.bus == bus && this.queue == queue
    {
      this.store := store;
      this.bus := bus;
      this.queue := queue;
    }

    /** `handleBanCreationRequested`: queue the ban at high priority. */
    method HandleBanCreationRequested(event: BanEvent)
      modifies queue
      ensures var waiting := Insert(old(queue.queue), Item(CreateBanTask(event), HIGH));
              if old(queue.processing)
              then queue.queue == waiting && queue.processing && queue.handled == old(queue.handled)
              else queue.queue == [] && !queue.processing && queue.handled == old(queue.handled) + waiting
    {
      queue.Enqueue(CreateBanTask(event), HIGH, t => false);
    }

    /** `createBan` at clock reading `now`: nothing when an active ban
        exists; otherwise one active ban, then a deny and the report, in
        that order. */
    method CreateBan(event: BanEvent, now: int)
      requires store.Valid()
      modifies store, bus
      ensures store.Valid()
      ensures store.bans == AfterCreateBan(old(store.bans), event, now)
      ensures bus.emitted == old(bus.emitted)
              + (if HasActive(old(store.bans), event.ip, event.config.id) then []
                 else [FirewallDeny(event.ip), BanCreationDone(event)])
    {
      var current := HasActive(store.bans, event.ip, event.config.id);
      if current {
        return;
      }
      var _ := store.Create(event.ip, now, event.config.id, None);
      bus.Emit(FirewallDeny(event.ip));
      bus.Emit(BanCreationDone(event));
    }
  }

  // ---------------------------------------------------------------------------
  // The older handler
  // ---------------------------------------------------------------------------

  /** Whether the older handler deactivates this ban. */
  predicate Selected(b: Ban, ip: string, configId: string)
  {
    b.active && b.ip == ip && b.configId == configId
  }

  function Off(b: Ban, ip: string, configId: string): Ban
  {
    if Selected(b, ip, configId) then b.(active := false) else b
  }

  /** Every active ban of the address under the configuration set
      inactive; the others untouched. */
  function Deactivated(bans: seq<Ban>, ip: string, configId: string): (r: seq<Ban>)
    ensures |r| == |bans|
    ensures !HasActive(r, ip, configId)
    ensures forall i :: 0 <= i < |r| ==> r[i] == Off(bans[i], ip, configId)
  {
    seq(|bans|, i requires 0 <= i < |bans| => Off(bans[i], ip, configId))
  }

  /** The bans after `handleBan` at clock reading `now`. */
  function AfterHandleBan(bans: seq<Ban>, event: BanEvent, now: int): seq<Ban>
  {
    Deactivated(bans, event.ip, event.config.id)
    + [Ban(|bans|, event.ip, now, event.config.id, true, Some(event.config.banTime))]
  }

  /** After `handleBan` the new ban is the only active one of its address
      and configuration, whatever came before, and bans of other addresses
      or configurations are untouched. */
  lemma HandleBanLeavesOneActive(bans: seq<Ban>, event: BanEvent, now: int)
    ensures var r := AfterHandleBan(bans, event, now);
            && |r| == |bans| + 1
            && r[|bans|].active && r[|bans|].banTime == Some(event.config.banTime)
            && (forall i :: 0 <= i < |r| && r[i].active && r[i].ip == event.ip && r[i].configId == event.config.id ==> i == |bans|)
            && (forall i :: 0 <= i < |bans| && (bans[i].ip != event.ip || bans[i].configId != event.config.id) ==> r[i] == bans[i])
  {
    var d := Deactivated(bans, event.ip, event.config.id);
    assert forall i :: 0 <= i < |bans| ==> AfterHandleBan(bans, event, now)[i] == d[i];
  }

  /** The older handler keeps at most one active ban per address and
      configuration. */
  lemma HandleBanKeepsOneActive(bans: seq<Ban>, event: BanEvent, now: int)
    requires OneActivePerKey(bans)
    ensures OneActivePerKey(AfterHandleBan(bans, event, now))
  {
    var r := AfterHandleBan(bans, event, now);
    var d := Deactivated(bans, event.ip, event.config.id);
    HandleBanLeavesOneActive(bans, event, now);
    forall i, j | 0 <= i < j < |r| && r[i].active && r[j].active && r[i].ip == r[j].ip
      ensures r[i].configId != r[j].configId
    {
      if j < |bans| {
        assert r[i] == d[i] && r[j] == d[j];
        assert bans[i].active && bans[j].active;
      }
    }
  }

  class LegacyBanEventHandler {
    const store: BanStore
    const bus: EventBus

    constructor (store: BanStore, bus: EventBus)
      ensures this.store == store && this.bus == bus
    {
      this.store := store;
      this.bus := bus;
    }

    /** `handleBan` at clock reading `now`: deactivate the selected bans
        one by one, create the new ban, and ask for a deny in every case. */
    method HandleBan(event: BanEvent, now: int)
      requires store.Valid()
      modifies store, bus
      ensures store.Valid()
      ensures store.bans == AfterHandleBan(old(store.bans), event, now)
      ensures bus.emitted == old(bus.emitted) + [FirewallDeny(event.ip)]
    {
      var i := 0;
      while i < |store.bans|
        invariant store.Valid() && bus.emitted == old(bus.emitted)
        invariant |store.bans| == |old(store.bans)| && 0 <= i <= |store.bans|
        invariant forall k :: 0 <= k < i ==> store.bans[k] == Off(old(store.bans)[k], event.ip, event.config.id)
        invariant forall k :: i <= k < |store.bans| ==> store.bans[k] == old(store.bans)[k]
      {
        if Selected(store.bans[i], event.ip, event.config.id) {
          store.Deactivate(i);
        }
        i := i + 1;
      }
      assert store.bans == Deactivated(old(store.bans), event.ip, event.config.id);
      var _ := store.Create(event.ip, now, event.config.id, Some(event.config.banTime));
      bus.Emit(FirewallDeny(event.ip));
    }
  }
}
