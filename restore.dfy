/** `apps/core/src/restore.rs`: at start-up, every ban stored in the
    single-tree ledger that is still in force is denied again in the
    firewall; bans past their configuration's ban time are skipped. The
    ledger is only read. */
module Restore {
  import opened Wrappers
  import opened Ints
  import opened Ipv4
  import opened LedgerKeys
  import opened Configuration
  import opened SledLedger
  import opened Firewall

  /** One stored ban as the restore loop meets it, with the ban time of
      the configuration it was read under and the clock reading taken for
      that configuration. */
  datatype Scanned = Scanned(entry: Entry, banTime: u64, now: u64)

  /** A ban younger than its ban time; `saturating_sub` keeps bans
      stamped in the future in force. */
  predicate Live(s: Scanned)
  {
    SaturatingSub(s.now, s.entry.timestamp) < s.banTime
  }

  function Tag(entries: seq<Entry>, banTime: u64, now: u64): (r: seq<Scanned>)
    ensures |r| == |entries| && forall i :: 0 <= i < |entries| ==> r[i] == Scanned(entries[i], banTime, now)
  {
    seq(|entries|, i requires 0 <= i < |entries| => Scanned(entries[i], banTime, now))
  }

  /** The bans of the configurations `done`, listed as `lists`, in that
      order, each tagged with its configuration's ban time and clock
      reading. */
  function TagAll(configs: map<string, Config>, clock: string -> u64, done: seq<string>, lists: seq<seq<Entry>>): seq<Scanned>
    requires |done| == |lists| && forall j :: 0 <= j < |done| ==> done[j] in configs
  {
    if |done| == 0 then []
    else
      var last := |done| - 1;
      TagAll(configs, clock, done[..last], lists[..last]) + Tag(lists[last], configs[done[last]].banTime, clock(done[last]))
  }

  /** The rules after each live ban whose address parses is denied in turn. */
  function DenyLive(chains: map<string, seq<string>>, broken: bool, scanned: seq<Scanned>): map<string, seq<string>>
  {
    if |scanned| == 0 then chains
    else
      var before := DenyLive(chains, broken, scanned[..|scanned| - 1]);
      var last := scanned[|scanned| - 1];
      if Live(last) && ParseAddr(last.entry.ip).Some? then AfterDeny(before, broken, ParseAddr(last.entry.ip).value)
      else before
  }

  /** The number of successful denies along the way. */
  function RestoredCount(chains: map<string, seq<string>>, broken: bool, scanned: seq<Scanned>): nat
  {
    if |scanned| == 0 then 0
    else
      var prefix := scanned[..|scanned| - 1];
      var last := scanned[|scanned| - 1];
      RestoredCount(chains, broken, prefix)
      + (if Live(last) && ParseAddr(last.entry.ip).Some? && !broken && CHAIN_NAME in DenyLive(chains, broken, prefix)
         then 1 else 0)
  }

  function ExpiredCount(scanned: seq<Scanned>): nat
  {
    if |scanned| == 0 then 0
    else ExpiredCount(scanned[..|scanned| - 1]) + (if Live(scanned[|scanned| - 1]) then 0 else 1)
  }

  /** The live bans whose address parses. */
  function RestorableCount(scanned: seq<Scanned>): nat
  {
    if |scanned| == 0 then 0
    else RestorableCount(scanned[..|scanned| - 1])
         + (if Live(scanned[|scanned| - 1]) && ParseAddr(scanned[|scanned| - 1].entry.ip).Some? then 1 else 0)
  }

  lemma {:induction false} DenyLiveKeepsChains(chains: map<string, seq<string>>, broken: bool, scanned: seq<Scanned>)
    ensures DenyLive(chains, broken, scanned).Keys == chains.Keys
  {
    if |scanned| > 0 {
      DenyLiveKeepsChains(chains, broken, scanned[..|scanned| - 1]);
    }
  }

  /** Every deny succeeds when the table works and the chain exists, and
      none does otherwise. */
  lemma {:induction false} RestoredCountExact(chains: map<string, seq<string>>, broken: bool, scanned: seq<Scanned>)
    ensures RestoredCount(chains, broken, scanned)
            == if !broken && CHAIN_NAME in chains then RestorableCount(scanned) else 0
  {
    if |scanned| > 0 {
      RestoredCountExact(chains, broken, scanned[..|scanned| - 1]);
      DenyLiveKeepsChains(chains, broken, scanned[..|scanned| - 1]);
    }
  }

  /** Every scanned ban is either expired or counted as restorable, or
      its address does not parse. */
  lemma {:induction false} CountsCoverScanned(scanned: seq<Scanned>)
    ensures ExpiredCount(scanned) + RestorableCount(scanned) <= |scanned|
    ensures (forall i :: 0 <= i < |scanned| ==> ParseAddr(scanned[i].entry.ip).Some?)
            ==> ExpiredCount(scanned) + RestorableCount(scanned) == |scanned|
  {
    if |scanned| > 0 {
      var prefix := scanned[..|scanned| - 1];
      CountsCoverScanned(prefix);
      assert forall i :: 0 <= i < |prefix| ==> prefix[i] == scanned[i];
    }
  }

  /** With a working table and the chain in place, every live ban whose
      address parses has its drop rule once the restore is done. */
  lemma {:induction false} RestoreDeniesLive(chains: map<string, seq<string>>, broken: bool, scanned: seq<Scanned>, i: nat)
    requires !broken && CHAIN_NAME in chains
    requires i < |scanned| && Live(scanned[i]) && ParseAddr(scanned[i].entry.ip).Some?
    ensures CHAIN_NAME in DenyLive(chains, broken, scanned)
    ensures DenyRule(ParseAddr(scanned[i].entry.ip).value) in DenyLive(chains, broken, scanned)[CHAIN_NAME]
  {
    var prefix := scanned[..|scanned| - 1];
    DenyLiveKeepsChains(chains, broken, prefix);
    if i < |scanned| - 1 {
      assert prefix[i] == scanned[i];
      RestoreDeniesLive(chains, broken, prefix, i);
    }
  }

  /** No rule appears for an expired ban or an address that does not
      parse: every rule added is the drop rule of a live scanned ban. */
  lemma {:induction false} RestoreAddsOnlyLive(chains: map<string, seq<string>>, broken: bool, scanned: seq<Scanned>, rule: string)
    requires CHAIN_NAME in chains && rule !in chains[CHAIN_NAME]
    requires CHAIN_NAME in DenyLive(chains, broken, scanned) && rule in DenyLive(chains, broken, scanned)[CHAIN_NAME]
    ensures exists i :: 0 <= i < |scanned| && Live(scanned[i]) && ParseAddr(scanned[i].entry.ip).Some?
                        && rule == DenyRule(ParseAddr(scanned[i].entry.ip).value)
  {
    var prefix := scanned[..|scanned| - 1];
    var last := scanned[|scanned| - 1];
    var before := DenyLive(chains, broken, prefix);
    DenyLiveKeepsChains(chains, broken, prefix);
    if Live(last) && ParseAddr(last.entry.ip).Some? && rule == DenyRule(ParseAddr(last.entry.ip).value) {
    } else {
      assert rule in before[CHAIN_NAME];
      RestoreAddsOnlyLive(chains, broken, prefix, rule);
      var i :| 0 <= i < |prefix| && Live(prefix[i]) && ParseAddr(prefix[i].entry.ip).Some?
                && rule == DenyRule(ParseAddr(prefix[i].entry.ip).value);
      assert prefix[i] == scanned[i];
    }
  }

  lemma TagStep(before: seq<Scanned>, entries: seq<Entry>, banTime: u64, now: u64, i: nat)
    requires i < |entries|
    ensures before + Tag(entries[..i + 1], banTime, now) == (before + Tag(entries[..i], banTime, now)) + [Scanned(entries[i], banTime, now)]
  {
    assert Tag(entries[..i + 1], banTime, now) == Tag(entries[..i], banTime, now) + [Scanned(entries[i], banTime, now)];
  }

  /** The three folds over one more scanned ban. */
  lemma FoldStep(chains: map<string, seq<string>>, broken: bool, xs: seq<Scanned>, x: Scanned)
    ensures DenyLive(chains, broken, xs + [x])
            == if Live(x) && ParseAddr(x.entry.ip).Some? then AfterDeny(DenyLive(chains, broken, xs), broken, ParseAddr(x.entry.ip).value)
               else DenyLive(chains, broken, xs)
    ensures RestoredCount(chains, broken, xs + [x])
            == RestoredCount(chains, broken, xs)
               + (if Live(x) && ParseAddr(x.entry.ip).Some? && !broken && CHAIN_NAME in DenyLive(chains, broken, xs) then 1 else 0)
    ensures ExpiredCount(xs + [x]) == ExpiredCount(xs) + (if Live(x) then 0 else 1)
  {
    assert (xs + [x])[..|xs|] == xs;
  }

  lemma TagAllStep(configs: map<string, Config>, clock: string -> u64, done: seq<string>, lists: seq<seq<Entry>>,
                   id: string, entries: seq<Entry>)
    requires |done| == |lists| && forall j :: 0 <= j < |done| ==> done[j] in configs
    requires id in configs
    ensures TagAll(configs, clock, done + [id], lists + [entries])
            == TagAll(configs, clock, done, lists) + Tag(entries, configs[id].banTime, clock(id))
  {
    assert (done + [id])[..|done|] == done;
    assert (lists + [entries])[..|lists|] == lists;
  }

  /** The inner loop over one configuration's bans, at clock reading `now`. */
  method RestoreEntries(firewall: Firewall, entries: seq<Entry>, banTime: u64, now: u64,
                        ghost chains0: map<string, seq<string>>, ghost before: seq<Scanned>,
                        restored0: nat, expired0: nat)
    returns (restored: nat, expired: nat)
    requires firewall.ipt.chains == DenyLive(chains0, firewall.ipt.broken, before)
    requires restored0 == RestoredCount(chains0, firewall.ipt.broken, before)
    requires expired0 == ExpiredCount(before)
    modifies firewall.ipt`chains
    ensures firewall.ipt.chains == DenyLive(chains0, firewall.ipt.broken, before + Tag(entries, banTime, now))
    ensures restored == RestoredCount(chains0, firewall.ipt.broken, before + Tag(entries, banTime, now))
    ensures expired == ExpiredCount(before + Tag(entries, banTime, now))
  {
    restored, expired := restored0, expired0;
    var i := 0;
    assert before + Tag(entries[..0], banTime, now) == before;
    while i < |entries|
      invariant 0 <= i <= |entries|
      invariant firewall.ipt.chains == DenyLive(chains0, firewall.ipt.broken, before + Tag(entries[..i], banTime, now))
      invariant restored == RestoredCount(chains0, firewall.ipt.broken, before + Tag(entries[..i], banTime, now))
      invariant expired == ExpiredCount(before + Tag(entries[..i], banTime, now))
    {
      var entry := entries[i];
      ghost var xs := before + Tag(entries[..i], banTime, now);
      ghost var x := Scanned(entry, banTime, now);
      TagStep(before, entries, banTime, now, i);
      FoldStep(chains0, firewall.ipt.broken, xs, x);
      if SaturatingSub(now, entry.timestamp) >= banTime {
        expired := expired + 1;
      } else {
        var parsed := ParseAddr(entry.ip);
        if parsed.Some? {
          var denied := firewall.DenyIp(parsed.value);
          if denied.Pass? {
            restored := restored + 1;
          }
        }
      }
      i := i + 1;
    }
    assert entries[..i] == entries;
  }

  /** What the listings so far establish, with `ids` the configurations
      still to list: `done` are the listed ones, each once, `lists` their
      listings, `scanned` their tagged bans; every configuration already
      passed whose listing works is in `done`. */
  ghost predicate Listed(sled: SledDatabase, configs: map<string, Config>, clock: string -> u64, ids: set<string>,
                         done: seq<string>, lists: seq<seq<Entry>>, scanned: seq<Scanned>)
    reads sled
  {
    && ids <= configs.Keys
    && |done| == |lists|
    && (forall j :: 0 <= j < |done| ==>
          && done[j] in configs && done[j] !in ids && !sled.ScanFails(ConfigPrefix(BAN_KIND, done[j]))
          && (set e | e in lists[j]) == EntriesOf(sled.db, ConfigPrefix(BAN_KIND, done[j]))
          && |lists[j]| == |ReportedKeys(sled.db, ConfigPrefix(BAN_KIND, done[j]))|)
    && (forall i, j :: 0 <= i < j < |done| ==> done[i] != done[j])
    && (forall id :: id in configs && id !in ids && !sled.ScanFails(ConfigPrefix(BAN_KIND, id)) ==> id in done)
    && scanned == TagAll(configs, clock, done, lists)
    && (sled.failing ==> scanned == [])
    && (forall id, e :: id in configs && id !in ids && !sled.ScanFails(ConfigPrefix(BAN_KIND, id))
                        && e in EntriesOf(sled.db, ConfigPrefix(BAN_KIND, id)) ==>
          Scanned(e, configs[id].banTime, clock(id)) in scanned)
    && (forall s :: s in scanned ==>
          exists id :: id in configs && !sled.ScanFails(ConfigPrefix(BAN_KIND, id))
                       && s.banTime == configs[id].banTime && s.now == clock(id)
                       && s.entry in EntriesOf(sled.db, ConfigPrefix(BAN_KIND, id)))
  }

  /** A listing that fails adds nothing. */
  lemma ListedSkip(sled: SledDatabase, configs: map<string, Config>, clock: string -> u64, ids: set<string>,
                   done: seq<string>, lists: seq<seq<Entry>>, scanned: seq<Scanned>, id: string)
    requires Listed(sled, configs, clock, ids, done, lists, scanned)
    requires id in ids && sled.ScanFails(ConfigPrefix(BAN_KIND, id))
    ensures Listed(sled, configs, clock, ids - {id}, done, lists, scanned)
  {
  }

  /** A listing that works appends its tagged bans. */
  lemma ListedStep(sled: SledDatabase, configs: map<string, Config>, clock: string -> u64, ids: set<string>,
                   done: seq<string>, lists: seq<seq<Entry>>, scanned: seq<Scanned>, id: string, entries: seq<Entry>)
    requires Listed(sled, configs, clock, ids, done, lists, scanned)
    requires id in ids && !sled.ScanFails(ConfigPrefix(BAN_KIND, id))
    requires (set e | e in entries) == EntriesOf(sled.db, ConfigPrefix(BAN_KIND, id))
    requires |entries| == |ReportedKeys(sled.db, ConfigPrefix(BAN_KIND, id))|
    ensures Listed(sled, configs, clock, ids - {id}, done + [id], lists + [entries],
                   scanned + Tag(entries, configs[id].banTime, clock(id)))
  {
    var tagged := Tag(entries, configs[id].banTime, clock(id));
    TagAllStep(configs, clock, done, lists, id, entries);
    ScannedStep(scanned, tagged, entries, configs, clock, id, sled);
    var done' := done + [id];
    var lists' := lists + [entries];
    forall j | 0 <= j < |done'|
      ensures && done'[j] in configs && done'[j] !in ids - {id} && !sled.ScanFails(ConfigPrefix(BAN_KIND, done'[j]))
              && (set e | e in lists'[j]) == EntriesOf(sled.db, ConfigPrefix(BAN_KIND, done'[j]))
              && |lists'[j]| == |ReportedKeys(sled.db, ConfigPrefix(BAN_KIND, done'[j]))|
    {
      if j < |done| {
        assert done'[j] == done[j] && lists'[j] == lists[j];
      }
    }
    forall i, j | 0 <= i < j < |done'|
      ensures done'[i] != done'[j]
    {
      if j < |done| {
        assert done'[i] == done[i] && done'[j] == done[j];
      }
    }
  }

  /** `restore_bans`: each configuration's bans are listed; a listing
      that fails is skipped and the other configurations are still
      restored. The clock is read once per listed configuration: `clock`
      gives that reading. `done` are the configurations listed, each once,
      and `lists` what each listing returned; the returned counters are the
      ones the call logs. */
  method RestoreBans(sled: SledDatabase, firewall: Firewall, configs: map<string, Config>, clock: string -> u64)
    returns (restored: nat, expired: nat, ghost scanned: seq<Scanned>, ghost done: seq<string>, ghost lists: seq<seq<Entry>>)
    modifies firewall.ipt`chains
    ensures |done| == |lists|
    ensures forall j :: 0 <= j < |done| ==>
              && done[j] in configs && !sled.ScanFails(ConfigPrefix(BAN_KIND, done[j]))
              && (set e | e in lists[j]) == EntriesOf(sled.db, ConfigPrefix(BAN_KIND, done[j]))
              && |lists[j]| == |ReportedKeys(sled.db, ConfigPrefix(BAN_KIND, done[j]))|
    ensures forall i, j :: 0 <= i < j < |done| ==> done[i] != done[j]
    ensures forall id :: id in configs && !sled.ScanFails(ConfigPrefix(BAN_KIND, id)) ==> id in done
    ensures scanned == TagAll(configs, clock, done, lists)
    ensures firewall.ipt.chains == DenyLive(old(firewall.ipt.chains), firewall.ipt.broken, scanned)
    ensures restored == RestoredCount(old(firewall.ipt.chains), firewall.ipt.broken, scanned)
    ensures expired == ExpiredCount(scanned)
    ensures sled.failing ==> scanned == []
    ensures forall id, e :: id in configs && !sled.ScanFails(ConfigPrefix(BAN_KIND, id))
                            && e in EntriesOf(sled.db, ConfigPrefix(BAN_KIND, id)) ==>
              Scanned(e, configs[id].banTime, clock(id)) in scanned
    ensures forall s :: s in scanned ==>
              exists id :: id in configs && !sled.ScanFails(ConfigPrefix(BAN_KIND, id))
                           && s.banTime == configs[id].banTime && s.now == clock(id)
                           && s.entry in EntriesOf(sled.db, ConfigPrefix(BAN_KIND, id))
  {
    restored, expired := 0, 0;
    scanned, done, lists := [], [], [];
    var ids := configs.Keys;
    while ids != {}
      invariant Listed(sled, configs, clock, ids, done, lists, scanned)
      invariant firewall.ipt.chains == DenyLive(old(firewall.ipt.chains), firewall.ipt.broken, scanned)
      invariant restored == RestoredCount(old(firewall.ipt.chains), firewall.ipt.broken, scanned)
      invariant expired == ExpiredCount(scanned)
      decreases ids
    {
      var id :| id in ids;
      var bans := sled.GetForConfig(BAN_KIND, id);
      if bans.Ok? {
        var now := clock(id);
        restored, expired := RestoreEntries(firewall, bans.value, configs[id].banTime, now,
                                            old(firewall.ipt.chains), scanned, restored, expired);
        ListedStep(sled, configs, clock, ids, done, lists, scanned, id, bans.value);
        scanned, done, lists := scanned + Tag(bans.value, configs[id].banTime, now), done + [id], lists + [bans.value];
      } else {
        ListedSkip(sled, configs, clock, ids, done, lists, scanned, id);
      }
      ids := ids - {id};
    }
  }

  lemma ScannedStep(scanned: seq<Scanned>, tagged: seq<Scanned>, entries: seq<Entry>, configs: map<string, Config>,
                    clock: string -> u64, id: string, sled: SledDatabase)
    requires id in configs && tagged == Tag(entries, configs[id].banTime, clock(id))
    requires !sled.ScanFails(ConfigPrefix(BAN_KIND, id))
    requires (set e | e in entries) == EntriesOf(sled.db, ConfigPrefix(BAN_KIND, id))
    requires forall s :: s in scanned ==>
               exists d :: d in configs && !sled.ScanFails(ConfigPrefix(BAN_KIND, d))
                           && s.banTime == configs[d].banTime && s.now == clock(d)
                           && s.entry in EntriesOf(sled.db, ConfigPrefix(BAN_KIND, d))
    ensures forall s :: s in scanned + tagged ==>
              exists d :: d in configs && !sled.ScanFails(ConfigPrefix(BAN_KIND, d))
                          && s.banTime == configs[d].banTime && s.now == clock(d)
                          && s.entry in EntriesOf(sled.db, ConfigPrefix(BAN_KIND, d))
    ensures forall e :: e in EntriesOf(sled.db, ConfigPrefix(BAN_KIND, id)) ==>
              Scanned(e, configs[id].banTime, clock(id)) in scanned + tagged
    ensures forall s :: s in scanned ==> s in scanned + tagged
  {
    forall s | s in scanned + tagged
      ensures exists d :: d in configs && !sled.ScanFails(ConfigPrefix(BAN_KIND, d))
                          && s.banTime == configs[d].banTime && s.now == clock(d)
                          && s.entry in EntriesOf(sled.db, ConfigPrefix(BAN_KIND, d))
    {
      if s !in scanned {
        var i :| 0 <= i < |tagged| && tagged[i] == s;
        assert entries[i] in (set e | e in entries);
      }
    }
    forall e | e in EntriesOf(sled.db, ConfigPrefix(BAN_KIND, id))
      ensures Scanned(e, configs[id].banTime, clock(id)) in scanned + tagged
    {
      assert e in (set x | x in entries);
      var i :| 0 <= i < |entries| && entries[i] == e;
      assert (scanned + tagged)[|scanned| + i] == tagged[i];
    }
  }
}
