/** The two ban expiry sweeps of the API, each run once a minute (the newer
    one also once at start-up).
    `apps/api/src/bans/services/ban-cleanup.service.ts` looks each active
    ban's configuration up and expires the ban once its configuration's ban
    time has passed: it is set inactive, an unban is requested and the
    firewall asked to allow the address.
    `apps/api/src/bans/ban-cleanup.service.ts`, the older sweep, uses the
    ban's own ban time and asks the firewall to allow the address only when
    no other active ban of the address remains. Both walk the active bans
    as found at the start of the sweep, in store order. */
module BanCleanup {
  import opened Wrappers
  import opened ApiTypes

  /** The active bans at the start of a sweep (`findAll({active: true})`,
      `findActiveBans()`). */
  function ActiveBans(bans: seq<Ban>): (r: seq<Ban>)
    ensures forall b :: b in r <==> b in bans && b.active
  {
    if |bans| == 0 then []
    else ActiveBans(bans[..|bans| - 1]) + (if bans[|bans| - 1].active then [bans[|bans| - 1]] else [])
  }

  /** `ban.timestamp + banTime * 1000 > now` fails: a ban whose end equals
      the clock reading has expired. */
  predicate ExpiredAfter(b: Ban, banTime: int, now: int)
  {
    !(b.timestamp + banTime * 1000 > now)
  }

  /** The identifiers of `snapshot` all address bans of the store. */
  predicate InStore(snapshot: seq<Ban>, bans: seq<Ban>)
  {
    forall k :: 0 <= k < |snapshot| ==> snapshot[k].id < |bans|
  }

  function Unset(bans: seq<Ban>, id: nat): (r: seq<Ban>)
    requires id < |bans|
    ensures |r| == |bans|
  {
    bans[id := bans[id].(active := false)]
  }

  /** What a sweep leaves: the bans, the events emitted, and whether it
      ran to the end. */
  datatype Sweep = Sweep(bans: seq<Ban>, events: seq<Emitted>, complete: bool)

  /** The newer sweep over `snapshot`. A ban whose configuration is no
      longer stored makes `config.banTime` throw, which ends the sweep. */
  function SweepNewer(bans: seq<Ban>, snapshot: seq<Ban>, configs: map<string, ApiConfig>, now: int): (r: Sweep)
    requires InStore(snapshot, bans)
    ensures |r.bans| == |bans|
    decreases |snapshot|
  {
    if |snapshot| == 0 then Sweep(bans, [], true)
    else
      var b := snapshot[0];
      if b.configId !in configs then Sweep(bans, [], false)
      else if !ExpiredAfter(b, configs[b.configId].banTime, now) then SweepNewer(bans, snapshot[1..], configs, now)
      else
        var rest := SweepNewer(Unset(bans, b.id), snapshot[1..], configs, now);
        Sweep(rest.bans, [UnbanCreateRequested(b.ip, b.configId, b.id), FirewallAllow(b.ip)] + rest.events, rest.complete)
  }

  /** The older sweep's test, on the ban's own ban time. A ban created
      without one always counts as expired: `undefined * 1000` is NaN, so
      the `>` test is false. */
  predicate LegacyExpired(b: Ban, now: int)
  {
    !(b.banTime.Some? && b.timestamp + b.banTime.value * 1000 > now)
  }

  /** The older sweep over `snapshot`. */
  function SweepLegacy(bans: seq<Ban>, snapshot: seq<Ban>, now: int): (r: Sweep)
    requires InStore(snapshot, bans)
    ensures |r.bans| == |bans|
    decreases |snapshot|
  {
    if |snapshot| == 0 then Sweep(bans, [], true)
    else
      var b := snapshot[0];
      if !LegacyExpired(b, now) then SweepLegacy(bans, snapshot[1..], now)
      else
        var after := Unset(bans, b.id);
        var rest := SweepLegacy(after, snapshot[1..], now);
        Sweep(rest.bans, (if HasActiveForIp(after, b.ip) then [] else [FirewallAllow(b.ip)]) + rest.events, true)
  }

  lemma ActiveBansInStore(bans: seq<Ban>)
    requires WellNumbered(bans)
    ensures InStore(ActiveBans(bans), bans)
  {
    var a := ActiveBans(bans);
    forall k | 0 <= k < |a|
      ensures a[k].id < |bans|
    {
      assert a[k] in bans;
    }
  }

  class BanCleanupService {
    const store: BanStore
    const bus: EventBus

    constructor (store: BanStore, bus: EventBus)
      ensures this.store == store && this.bus == bus
    {
      this.store := store;
      this.bus := bus;
    }

    /** `handleCron` at clock reading `now`, with the stored configurations
        by identifier. `complete` is false when the sweep stopped at a ban
        whose configuration is gone. */
    method HandleCron(configs: map<string, ApiConfig>, now: int) returns (complete: bool)
      requires store.Valid()
      modifies store, bus
      ensures store.Valid()
      ensures var r := SweepNewer(old(store.bans), ActiveBans(old(store.bans)), configs, now);
              && store.bans == r.bans && bus.emitted == old(bus.emitted) + r.events && complete == r.complete
    {
      var snapshot := ActiveBans(store.bans);
      ActiveBansInStore(store.bans);
      ghost var bans0, emitted0 := store.bans, bus.emitted;
      assert snapshot[0..] == snapshot;
      var i := 0;
      while i < |snapshot|
        invariant store.Valid()
        invariant NewerResumes(bans0, emitted0, snapshot, store.bans, bus.emitted, i, configs, now)
      {
        var stop := Visit(snapshot, i, configs, now, bans0, emitted0);
        if stop {
          return false;
        }
        i := i + 1;
      }
      return true;
    }

    /** One turn of the sweep: `stop` when the ban's configuration is gone,
        which ends the sweep where the whole sweep ends. */
    method Visit(snapshot: seq<Ban>, i: nat, configs: map<string, ApiConfig>, now: int,
                 ghost bans0: seq<Ban>, ghost emitted0: seq<Emitted>) returns (stop: bool)
      requires store.Valid() && i < |snapshot|
      requires NewerResumes(bans0, emitted0, snapshot, store.bans, bus.emitted, i, configs, now)
      modifies store, bus
      ensures store.Valid()
      ensures stop ==> var whole := SweepNewer(bans0, snapshot, configs, now);
                       store.bans == whole.bans && bus.emitted == emitted0 + whole.events && !whole.complete
      ensures !stop ==> NewerResumes(bans0, emitted0, snapshot, store.bans, bus.emitted, i + 1, configs, now)
    {
      var b := snapshot[i];
      assert snapshot[i..][0] == b && snapshot[i..][1..] == snapshot[i + 1..];
      NewerStep(store.bans, snapshot[i..], configs, now);
      if b.configId !in configs {
        return true;
      }
      if ExpiredAfter(b, configs[b.configId].banTime, now) {
        Expire(b);
      }
      return false;
    }

    /** The body of the loop for an expired ban. */
    method Expire(b: Ban)
      requires store.Valid() && b.id < |store.bans|
      modifies store, bus
      ensures store.Valid()
      ensures store.bans == Unset(old(store.bans), b.id)
      ensures bus.emitted == old(bus.emitted) + [UnbanCreateRequested(b.ip, b.configId, b.id), FirewallAllow(b.ip)]
    {
      store.Deactivate(b.id);
      bus.Emit(UnbanCreateRequested(b.ip, b.configId, b.id));
      bus.Emit(FirewallAllow(b.ip));
    }
  }

  /** The loop's invariant: what is left of the sweep from position `i`,
      run from the current state, ends where the whole sweep run from the
      initial state ends. */
  predicate NewerResumes(bans0: seq<Ban>, emitted0: seq<Emitted>, snapshot: seq<Ban>, bans: seq<Ban>, emitted: seq<Emitted>,
                         i: nat, configs: map<string, ApiConfig>, now: int)
  {
    i <= |snapshot| && InStore(snapshot, bans0) && InStore(snapshot[i..], bans)
    && var whole := SweepNewer(bans0, snapshot, configs, now);
       var rest := SweepNewer(bans, snapshot[i..], configs, now);
       && whole.bans == rest.bans && whole.complete == rest.complete
       && emitted0 + whole.events == emitted + rest.events
  }

  /** One step of the newer sweep, unfolded. */
  lemma NewerStep(bans: seq<Ban>, s: seq<Ban>, configs: map<string, ApiConfig>, now: int)
    requires |s| > 0 && InStore(s, bans)
    ensures InStore(s[1..], bans) && InStore(s[1..], Unset(bans, s[0].id))
    ensures s[0].configId !in configs ==> SweepNewer(bans, s, configs, now) == Sweep(bans, [], false)
    ensures s[0].configId in configs && !ExpiredAfter(s[0], configs[s[0].configId].banTime, now) ==>
              SweepNewer(bans, s, configs, now) == SweepNewer(bans, s[1..], configs, now)
    ensures s[0].configId in configs && ExpiredAfter(s[0], configs[s[0].configId].banTime, now) ==>
              var rest := SweepNewer(Unset(bans, s[0].id), s[1..], configs, now);
              SweepNewer(bans, s, configs, now)
              == Sweep(rest.bans, [UnbanCreateRequested(s[0].ip, s[0].configId, s[0].id), FirewallAllow(s[0].ip)] + rest.events,
                       rest.complete)
  {
  }

  class LegacyBanCleanupService {
    const store: BanStore
    const bus: EventBus

    constructor (store: BanStore, bus: EventBus)
      ensures this.store == store && this.bus == bus
    {
      this.store := store;
      this.bus := bus;
    }

    /** `handleCron` at clock reading `now`. */
    method HandleCron(now: int)
      requires store.Valid()
      modifies store, bus
      ensures store.Valid()
      ensures var r := SweepLegacy(old(store.bans), ActiveBans(old(store.bans)), now);
              store.bans == r.bans && bus.emitted == old(bus.emitted) + r.events
    {
      var snapshot := ActiveBans(store.bans);
      ActiveBansInStore(store.bans);
      ghost var bans0, emitted0 := store.bans, bus.emitted;
      assert snapshot[0..] == snapshot;
      var i := 0;
      while i < |snapshot|
        invariant store.Valid()
        invariant LegacyResumes(bans0, emitted0, snapshot, store.bans, bus.emitted, i, now)
      {
        Visit(snapshot, i, now, bans0, emitted0);
        i := i + 1;
      }
    }

    /** One turn of the sweep. */
    method Visit(snapshot: seq<Ban>, i: nat, now: int, ghost bans0: seq<Ban>, ghost emitted0: seq<Emitted>)
      requires store.Valid() && i < |snapshot|
      requires LegacyResumes(bans0, emitted0, snapshot, store.bans, bus.emitted, i, now)
      modifies store, bus
      ensures store.Valid()
      ensures LegacyResumes(bans0, emitted0, snapshot, store.bans, bus.emitted, i + 1, now)
    {
      var b := snapshot[i];
      assert snapshot[i..][0] == b && snapshot[i..][1..] == snapshot[i + 1..];
      LegacyStep(store.bans, snapshot[i..], now);
      if !(b.banTime.Some? && b.timestamp + b.banTime.value * 1000 > now) {
        store.Deactivate(b.id);
        var others := HasActiveForIp(store.bans, b.ip);
        if !others {
          bus.Emit(FirewallAllow(b.ip));
        }
      }
    }
  }

  /** The older sweep's loop invariant, as for the newer one. */
  predicate LegacyResumes(bans0: seq<Ban>, emitted0: seq<Emitted>, snapshot: seq<Ban>, bans: seq<Ban>, emitted: seq<Emitted>,
                          i: nat, now: int)
  {
    i <= |snapshot| && InStore(snapshot, bans0) && InStore(snapshot[i..], bans)
    && var whole := SweepLegacy(bans0, snapshot, now);
       var rest := SweepLegacy(bans, snapshot[i..], now);
       && whole.bans == rest.bans
       && emitted0 + whole.events == emitted + rest.events
  }

  /** One step of the older sweep, unfolded. */
  lemma LegacyStep(bans: seq<Ban>, s: seq<Ban>, now: int)
    requires |s| > 0 && InStore(s, bans)
    ensures InStore(s[1..], bans) && InStore(s[1..], Unset(bans, s[0].id))
    ensures !LegacyExpired(s[0], now) ==> SweepLegacy(bans, s, now) == SweepLegacy(bans, s[1..], now)
    ensures LegacyExpired(s[0], now) ==>
              var after := Unset(bans, s[0].id);
              var rest := SweepLegacy(after, s[1..], now);
              SweepLegacy(bans, s, now)
              == Sweep(rest.bans, (if HasActiveForIp(after, s[0].ip) then [] else [FirewallAllow(s[0].ip)]) + rest.events, true)
  {
  }

  // ---------------------------------------------------------------------------
  // What the sweeps guarantee
  // ---------------------------------------------------------------------------

  /** A sweep only ever sets bans inactive. */
  lemma {:induction false} SweepsOnlyDeactivate(bans: seq<Ban>, snapshot: seq<Ban>, configs: map<string, ApiConfig>, now: int)
    requires InStore(snapshot, bans)
    ensures var r := SweepNewer(bans, snapshot, configs, now);
            forall i :: 0 <= i < |bans| ==> r.bans[i] == bans[i] || r.bans[i] == bans[i].(active := false)
    ensures var r := SweepLegacy(bans, snapshot, now);
            forall i :: 0 <= i < |bans| ==> r.bans[i] == bans[i] || r.bans[i] == bans[i].(active := false)
    decreases |snapshot|
  {
    if |snapshot| > 0 {
      var b := snapshot[0];
      var after := Unset(bans, b.id);
      assert InStore(snapshot[1..], after);
      SweepsOnlyDeactivate(bans, snapshot[1..], configs, now);
      SweepsOnlyDeactivate(after, snapshot[1..], configs, now);
    }
  }

  /** The newer sweep's test for one ban: its configuration is stored and
      its ban time has passed. */
  predicate ExpiresNewer(b: Ban, configs: map<string, ApiConfig>, now: int)
  {
    b.configId in configs && ExpiredAfter(b, configs[b.configId].banTime, now)
  }

  /** What the newer sweep does to the store. It runs to the end exactly
      when every snapshot ban's configuration is stored. When it does, every
      expired snapshot ban is inactive afterwards. Whether or not it
      completes, a ban that no expired snapshot entry names is left as it
      was. */
  lemma {:induction false} NewerSweepEffect(bans: seq<Ban>, snapshot: seq<Ban>, configs: map<string, ApiConfig>, now: int)
    requires InStore(snapshot, bans)
    ensures var r := SweepNewer(bans, snapshot, configs, now);
            && (r.complete <==> forall k :: 0 <= k < |snapshot| ==> snapshot[k].configId in configs)
            && (r.complete ==>
                  forall k :: 0 <= k < |snapshot| && ExpiresNewer(snapshot[k], configs, now) ==> !r.bans[snapshot[k].id].active)
            && (forall i :: 0 <= i < |bans|
                            && (forall k :: 0 <= k < |snapshot| && snapshot[k].id == i ==> !ExpiresNewer(snapshot[k], configs, now))
                            ==> r.bans[i] == bans[i])
    decreases |snapshot|
  {
    if |snapshot| > 0 {
      var b := snapshot[0];
      var tail := snapshot[1..];
      assert forall k :: 0 <= k < |tail| ==> tail[k] == snapshot[k + 1];
      var r := SweepNewer(bans, snapshot, configs, now);
      if b.configId !in configs {
        assert !r.complete && r.bans == bans;
      } else if !ExpiredAfter(b, configs[b.configId].banTime, now) {
        assert InStore(tail, bans);
        NewerSweepEffect(bans, tail, configs, now);
        assert r == SweepNewer(bans, tail, configs, now);
      } else {
        var after := Unset(bans, b.id);
        assert InStore(tail, after);
        NewerSweepEffect(after, tail, configs, now);
        SweepsOnlyDeactivate(after, tail, configs, now);
        var rest := SweepNewer(after, tail, configs, now);
        assert r.bans == rest.bans && r.complete == rest.complete;
        assert !rest.bans[b.id].active;
        forall i | 0 <= i < |bans|
                   && (forall k :: 0 <= k < |snapshot| && snapshot[k].id == i ==> !ExpiresNewer(snapshot[k], configs, now))
          ensures r.bans[i] == bans[i]
        {
          assert i != b.id;
          assert after[i] == bans[i];
        }
      }
    }
  }

  /** What the older sweep does to the store: every snapshot ban expired
      under its own ban time is inactive afterwards, and a ban that no
      expired snapshot entry names is left as it was. */
  lemma {:induction false} LegacySweepEffect(bans: seq<Ban>, snapshot: seq<Ban>, now: int)
    requires InStore(snapshot, bans)
    ensures var r := SweepLegacy(bans, snapshot, now);
            && (forall k :: 0 <= k < |snapshot| && LegacyExpired(snapshot[k], now) ==> !r.bans[snapshot[k].id].active)
            && (forall i :: 0 <= i < |bans|
                            && (forall k :: 0 <= k < |snapshot| && snapshot[k].id == i ==> !LegacyExpired(snapshot[k], now))
                            ==> r.bans[i] == bans[i])
    decreases |snapshot|
  {
    if |snapshot| > 0 {
      var b := snapshot[0];
      var tail := snapshot[1..];
      assert forall k :: 0 <= k < |tail| ==> tail[k] == snapshot[k + 1];
      var r := SweepLegacy(bans, snapshot, now);
      if !LegacyExpired(b, now) {
        assert InStore(tail, bans);
        LegacySweepEffect(bans, tail, now);
        assert r == SweepLegacy(bans, tail, now);
      } else {
        var after := Unset(bans, b.id);
        assert InStore(tail, after);
        LegacySweepEffect(after, tail, now);
        SweepsOnlyDeactivate(after, tail, map[], now);
        var rest := SweepLegacy(after, tail, now);
        assert r.bans == rest.bans;
        assert !rest.bans[b.id].active;
        forall i | 0 <= i < |bans|
                   && (forall k :: 0 <= k < |snapshot| && snapshot[k].id == i ==> !LegacyExpired(snapshot[k], now))
          ensures r.bans[i] == bans[i]
        {
          assert i != b.id;
          assert after[i] == bans[i];
        }
      }
    }
  }

  /** The event is the unban request or the allow of an expired ban of
      the snapshot. */
  predicate FromExpired(e: Emitted, snapshot: seq<Ban>, configs: map<string, ApiConfig>, now: int)
  {
    exists k :: 0 <= k < |snapshot| && Answers(e, snapshot[k], configs, now)
  }

  predicate Answers(e: Emitted, b: Ban, configs: map<string, ApiConfig>, now: int)
  {
    && b.configId in configs && ExpiredAfter(b, configs[b.configId].banTime, now)
    && (e == FirewallAllow(b.ip) || e == UnbanCreateRequested(b.ip, b.configId, b.id))
  }

  /** Every event of the newer sweep answers an expired ban of the
      snapshot: bans that have not expired produce none. */
  lemma {:induction false} NewerSweepSound(bans: seq<Ban>, snapshot: seq<Ban>, configs: map<string, ApiConfig>, now: int)
    requires InStore(snapshot, bans)
    ensures forall e :: e in SweepNewer(bans, snapshot, configs, now).events ==> FromExpired(e, snapshot, configs, now)
    decreases |snapshot|
  {
    if |snapshot| > 0 {
      var b := snapshot[0];
      var after := Unset(bans, b.id);
      assert InStore(snapshot[1..], after) && InStore(snapshot[1..], bans);
      NewerSweepSound(bans, snapshot[1..], configs, now);
      NewerSweepSound(after, snapshot[1..], configs, now);
      forall e | FromExpired(e, snapshot[1..], configs, now)
        ensures FromExpired(e, snapshot, configs, now)
      {
        var k :| 0 <= k < |snapshot[1..]| && Answers(e, snapshot[1..][k], configs, now);
        assert snapshot[1..][k] == snapshot[k + 1];
      }
      if b.configId in configs && ExpiredAfter(b, configs[b.configId].banTime, now) {
        assert Answers(UnbanCreateRequested(b.ip, b.configId, b.id), snapshot[0], configs, now);
        assert Answers(FirewallAllow(b.ip), snapshot[0], configs, now);
      }
    }
  }

  /** The older sweep asks to allow an address only when, at the end of
      the sweep, the address has no active ban left under any
      configuration. */
  lemma {:induction false} LegacyAllowOnlyWhenClear(bans: seq<Ban>, snapshot: seq<Ban>, now: int, ip: string)
    requires InStore(snapshot, bans)
    requires FirewallAllow(ip) in SweepLegacy(bans, snapshot, now).events
    ensures !HasActiveForIp(SweepLegacy(bans, snapshot, now).bans, ip)
    decreases |snapshot|
  {
    var b := snapshot[0];
    var after := Unset(bans, b.id);
    assert InStore(snapshot[1..], after);
    if !LegacyExpired(b, now) {
      LegacyAllowOnlyWhenClear(bans, snapshot[1..], now, ip);
    } else {
      var rest := SweepLegacy(after, snapshot[1..], now);
      if FirewallAllow(ip) in rest.events {
        LegacyAllowOnlyWhenClear(after, snapshot[1..], now, ip);
      } else {
        assert b.ip == ip && !HasActiveForIp(after, ip);
        SweepsOnlyDeactivate(after, snapshot[1..], map[], now);
      }
    }
  }

  /** The two sweeps part ways on an address banned under two
      configurations, one ban expired and the other not: the newer sweep
      asks the firewall to allow the address although it is still banned,
      the older one does not ask. */
  lemma SweepsDifferOnSharedAddress(b0: Ban, b1: Ban, configs: map<string, ApiConfig>, now: int)
    requires b0.id == 0 && b1.id == 1 && b0.active && b1.active && b0.ip == b1.ip
    requires b0.configId in configs && b1.configId in configs
    requires ExpiredAfter(b0, configs[b0.configId].banTime, now) && !ExpiredAfter(b1, configs[b1.configId].banTime, now)
    requires LegacyExpired(b0, now) && !LegacyExpired(b1, now)
    ensures var r := SweepNewer([b0, b1], ActiveBans([b0, b1]), configs, now);
            FirewallAllow(b0.ip) in r.events && HasActiveForIp(r.bans, b0.ip)
    ensures var r := SweepLegacy([b0, b1], ActiveBans([b0, b1]), now);
            FirewallAllow(b0.ip) !in r.events && HasActiveForIp(r.bans, b0.ip)
  {
    var bans := [b0, b1];
    assert bans[..1] == [b0] && [b0][..0] == [];
    assert ActiveBans([b0]) == ActiveBans([]) + [b0] == [b0];
    assert ActiveBans(bans) == ActiveBans(bans[..1]) + [b1] == bans;
    var after := Unset(bans, 0);
    assert after[1] == b1;
    assert HasActiveForIp(after, b0.ip);
    assert bans[1..] == [b1] && [b1][1..] == [];
    assert SweepNewer(after, [b1], configs, now) == Sweep(after, [], true);
    assert SweepLegacy(after, [b1], now) == Sweep(after, [], true);
  }
}
