/** The ledger of `apps/core/src/database.rs`: three sled trees, of match
    keys, of ban keys and of stored configurations. A key's presence is the
    record; the value of match and ban keys is empty. */
module CoreLedger {
  import opened Wrappers
  import opened Ints
  import opened Strings
  import opened LedgerKeys
  import opened Sorting
  import opened Configuration

  /** Which parsed records a scan keeps: all of them, those at or after a
      cutoff, or those strictly before it. */
  datatype Filter = All | Since(cutoff: nat) | Before(cutoff: nat)

  predicate Keeps(f: Filter, r: Record)
  {
    match f
    case All => true
    case Since(cutoff) => r.timestamp >= cutoff
    case Before(cutoff) => r.timestamp < cutoff
  }

  /** A key a scan of `prefix` reports: under the prefix, parseable, kept. */
  predicate Qualifies(kind: string, prefix: string, f: Filter, k: string)
  {
    HasPrefix(k, prefix) && ParseKey(kind, k).Ok? && Keeps(f, ParseKey(kind, k).value)
  }

  function Selected(tree: set<string>, kind: string, prefix: string, f: Filter): set<string>
  {
    set k | k in tree && Qualifies(kind, prefix, f, k)
  }

  function RecordsOf(tree: set<string>, kind: string, prefix: string, f: Filter): set<Record>
  {
    set k | k in tree && Qualifies(kind, prefix, f, k) :: ParseKey(kind, k).value
  }

  function Stamp(r: Record): int { r.timestamp }

  /** The matches of (configId, ip) inside the find window ending at `now`. */
  function WindowCount(matches: set<string>, configId: string, ip: string, findTime: u64, now: u64): nat
  {
    |Selected(matches, MATCH_KIND, AddressPrefix(MATCH_KIND, configId, ip), Since(SaturatingSub(now, findTime)))|
  }

  function ConfigKey(id: string): string { "config:" + id }

  /** Some parseable ban key names `ip`, under whatever configuration. */
  predicate BannedAnywhere(bans: set<string>, ip: string)
  {
    exists k :: k in bans && ParseKey(BAN_KIND, k).Ok? && ParseKey(BAN_KIND, k).value.ip == ip
  }

  lemma SelectedStep(tree: set<string>, k: string, kind: string, prefix: string, f: Filter)
    requires k !in tree
    ensures Selected(tree + {k}, kind, prefix, f)
            == Selected(tree, kind, prefix, f) + (if Qualifies(kind, prefix, f, k) then {k} else {})
    ensures |Selected(tree + {k}, kind, prefix, f)|
            == |Selected(tree, kind, prefix, f)| + (if Qualifies(kind, prefix, f, k) then 1 else 0)
  {
    var q := Qualifies(kind, prefix, f, k);
    var before := Selected(tree, kind, prefix, f);
    var after := Selected(tree + {k}, kind, prefix, f);
    assert after == before + (if q then {k} else {});
    assert k !in before;
  }

  lemma RecordsStep(tree: set<string>, k: string, kind: string, prefix: string, f: Filter)
    ensures RecordsOf(tree + {k}, kind, prefix, f)
            == RecordsOf(tree, kind, prefix, f) + (if Qualifies(kind, prefix, f, k) then {ParseKey(kind, k).value} else {})
  {
  }

  lemma AppendMembers<T>(s: seq<T>, x: T)
    ensures (set y | y in s + [x]) == (set y | y in s) + {x}
  {
  }

  /** Two collections with the same members have the same keys. */
  lemma SameMembersSameKeys(s: seq<Record>, members: set<Record>, kind: string)
    requires forall x :: x in s <==> x in members
    ensures (set x | x in s :: RecordKey(kind, x)) == (set x | x in members :: RecordKey(kind, x))
  {
  }

  /** One pass over a tree's keys under `prefix`, pushing each parseable
      record the filter keeps; keys that do not parse are skipped. */
  method ScanTree(tree: set<string>, kind: string, prefix: string, f: Filter) returns (recs: seq<Record>)
    ensures (set r | r in recs) == RecordsOf(tree, kind, prefix, f)
    ensures |recs| == |Selected(tree, kind, prefix, f)|
  {
    recs := [];
    var rest := tree;
    ghost var seen: set<string> := {};
    while rest != {}
      invariant rest + seen == tree && rest !! seen
      invariant (set r | r in recs) == RecordsOf(seen, kind, prefix, f)
      invariant |recs| == |Selected(seen, kind, prefix, f)|
      decreases |rest|
    {
      var k :| k in rest;
      var keep := Qualifies(kind, prefix, f, k);
      var next := if keep then recs + [ParseKey(kind, k).value] else recs;
      ScanStep(seen, k, kind, prefix, f, recs, next);
      recs := next;
      rest := rest - {k};
      seen := seen + {k};
    }
  }

  lemma ScanStep(seen: set<string>, k: string, kind: string, prefix: string, f: Filter,
                 recs: seq<Record>, next: seq<Record>)
    requires k !in seen
    requires (set r | r in recs) == RecordsOf(seen, kind, prefix, f)
    requires |recs| == |Selected(seen, kind, prefix, f)|
    requires next == if Qualifies(kind, prefix, f, k) then recs + [ParseKey(kind, k).value] else recs
    ensures (set r | r in next) == RecordsOf(seen + {k}, kind, prefix, f)
    ensures |next| == |Selected(seen + {k}, kind, prefix, f)|
  {
    SelectedStep(seen, k, kind, prefix, f);
    RecordsStep(seen, k, kind, prefix, f);
    if Qualifies(kind, prefix, f, k) {
      AppendMembers(recs, ParseKey(kind, k).value);
    }
  }

  /** A recorded match inside the window raises the count of its own
      address by one, unless the same key (same millisecond) was already
      there, in which case nothing changes. */
  lemma CountAfterAdd(tree: set<string>, configId: string, ip: string, timestamp: u64, cutoff: nat)
    requires IsField(configId) && IsField(ip)
    requires timestamp >= cutoff
    ensures var prefix := AddressPrefix(MATCH_KIND, configId, ip);
            |Selected(tree + {MakeKey(MATCH_KIND, configId, ip, timestamp)}, MATCH_KIND, prefix, Since(cutoff))|
            == |Selected(tree, MATCH_KIND, prefix, Since(cutoff))|
               + (if MakeKey(MATCH_KIND, configId, ip, timestamp) in tree then 0 else 1)
  {
    var k := MakeKey(MATCH_KIND, configId, ip, timestamp);
    ParseMakeKey(MATCH_KIND, configId, ip, timestamp);
    KeyUnderOwnPrefixes(MATCH_KIND, configId, ip, timestamp);
    if k in tree {
      assert tree + {k} == tree;
    } else {
      SelectedStep(tree, k, MATCH_KIND, AddressPrefix(MATCH_KIND, configId, ip), Since(cutoff));
    }
  }

  /** A match recorded for another configuration or another address
      leaves the count of (configId, ip) as it was. */
  lemma CountIgnoresOthers(tree: set<string>, configId: string, ip: string,
                           otherConfig: string, otherIp: string, timestamp: u64, f: Filter)
    requires IsField(configId) && IsField(ip) && IsField(otherConfig) && IsField(otherIp)
    requires configId != otherConfig || ip != otherIp
    ensures var prefix := AddressPrefix(MATCH_KIND, configId, ip);
            Selected(tree + {MakeKey(MATCH_KIND, otherConfig, otherIp, timestamp)}, MATCH_KIND, prefix, f)
            == Selected(tree, MATCH_KIND, prefix, f)
  {
    AddressPrefixIsolates(MATCH_KIND, configId, ip, otherConfig, otherIp, timestamp);
  }

  /** After `add_ban`, `is_banned` of that address holds. */
  lemma BannedAfterAddBan(bans: set<string>, configId: string, ip: string, timestamp: u64)
    requires IsField(configId) && IsField(ip)
    ensures BannedAnywhere(bans + {MakeKey(BAN_KIND, configId, ip, timestamp)}, ip)
  {
    ParseMakeKey(BAN_KIND, configId, ip, timestamp);
    assert MakeKey(BAN_KIND, configId, ip, timestamp) in bans + {MakeKey(BAN_KIND, configId, ip, timestamp)};
  }

  /** `get_bans_for_config` reports exactly the records of that
      configuration: every reported record carries its id, and every ban
      added for it under colon-free fields is reported. */
  lemma BansForConfigExact(bans: set<string>, configId: string, ip: string, timestamp: u64)
    requires IsField(configId) && IsField(ip)
    ensures forall r :: r in RecordsOf(bans, BAN_KIND, ConfigPrefix(BAN_KIND, configId), All) ==> r.configId == configId
    ensures MakeKey(BAN_KIND, configId, ip, timestamp) in bans ==>
              Record(configId, ip, timestamp) in RecordsOf(bans, BAN_KIND, ConfigPrefix(BAN_KIND, configId), All)
  {
    forall r | r in RecordsOf(bans, BAN_KIND, ConfigPrefix(BAN_KIND, configId), All)
      ensures r.configId == configId
    {
      var k :| k in bans && Qualifies(BAN_KIND, ConfigPrefix(BAN_KIND, configId), All, k) && ParseKey(BAN_KIND, k).value == r;
      UnderConfigPrefix(BAN_KIND, configId, k);
    }
    ParseMakeKey(BAN_KIND, configId, ip, timestamp);
    KeyUnderOwnPrefixes(BAN_KIND, configId, ip, timestamp);
  }

  /** The stored configurations whose keys, among `keys`, carry `config:`
      and whose values decode. */
  function StoredUnder(configs: map<string, Option<ConfigData>>, keys: set<string>): set<ConfigData>
  {
    set k | k in keys && k in configs && HasPrefix(k, "config:") && configs[k].Some? :: configs[k].value
  }

  lemma LoadStep(configs: map<string, Option<ConfigData>>, seen: set<string>, k: string,
                 loaded: seq<ConfigData>, next: seq<ConfigData>)
    requires k in configs
    requires (set d | d in loaded) == StoredUnder(configs, seen)
    requires next == if HasPrefix(k, "config:") && configs[k].Some? then loaded + [configs[k].value] else loaded
    ensures (set d | d in next) == StoredUnder(configs, seen + {k})
  {
    if HasPrefix(k, "config:") && configs[k].Some? {
      AppendMembers(loaded, configs[k].value);
    }
  }

  /** Whether a write of key `k` fails: the whole store is failing, or that
      one call meets an I/O error. */
  predicate Faulty(failing: bool, faults: set<string>, k: string)
  {
    failing || k in faults
  }

  /** The keys rebuilt from `recs` whose removal goes through. */
  function WrittenKeys(failing: bool, faults: set<string>, kind: string, recs: seq<Record>): set<string>
  {
    set x | x in recs && !Faulty(failing, faults, RecordKey(kind, x)) :: RecordKey(kind, x)
  }

  /** The number of records of `recs` whose removal goes through. */
  function WrittenCount(failing: bool, faults: set<string>, kind: string, recs: seq<Record>): nat
  {
    if |recs| == 0 then 0
    else WrittenCount(failing, faults, kind, recs[..|recs| - 1])
         + (if Faulty(failing, faults, RecordKey(kind, recs[|recs| - 1])) then 0 else 1)
  }

  /** Every removal goes through exactly when no record's key is faulty;
      otherwise fewer than all are counted. */
  lemma {:induction false} WrittenCountAll(failing: bool, faults: set<string>, kind: string, recs: seq<Record>)
    ensures WrittenCount(failing, faults, kind, recs) <= |recs|
    ensures WrittenCount(failing, faults, kind, recs) == |recs|
            <==> forall x :: x in recs ==> !Faulty(failing, faults, RecordKey(kind, x))
  {
    if |recs| > 0 {
      var prefix := recs[..|recs| - 1];
      WrittenCountAll(failing, faults, kind, prefix);
      assert recs == prefix + [recs[|recs| - 1]];
      assert forall x :: x in recs <==> x in prefix || x == recs[|recs| - 1];
    }
  }

  lemma WrittenStep(failing: bool, faults: set<string>, kind: string, recs: seq<Record>, i: nat)
    requires i < |recs|
    ensures WrittenKeys(failing, faults, kind, recs[..i + 1])
            == WrittenKeys(failing, faults, kind, recs[..i])
               + (if Faulty(failing, faults, RecordKey(kind, recs[i])) then {} else {RecordKey(kind, recs[i])})
    ensures WrittenCount(failing, faults, kind, recs[..i + 1])
            == WrittenCount(failing, faults, kind, recs[..i])
               + (if Faulty(failing, faults, RecordKey(kind, recs[i])) then 0 else 1)
  {
    assert recs[..i + 1] == recs[..i] + [recs[i]];
    assert recs[..i + 1][..i] == recs[..i];
  }

  /** The keys the sweep of one configuration removes from `tree`: each
      rebuilt from a parseable record under its prefix older than the
      window, unless its removal fails. */
  function SweptKeys(tree: set<string>, configId: string, findTime: u64, now: u64,
                     failing: bool, faults: set<string>): set<string>
  {
    set x | x in RecordsOf(tree, MATCH_KIND, ConfigPrefix(MATCH_KIND, configId), Before(SaturatingSub(now, findTime)))
            && !Faulty(failing, faults, RecordKey(MATCH_KIND, x))
      :: RecordKey(MATCH_KIND, x)
  }

  /** Two collections with the same members lose the same keys. */
  lemma SameMembersSameWritten(s: seq<Record>, members: set<Record>, failing: bool, faults: set<string>, kind: string)
    requires forall x :: x in s <==> x in members
    ensures WrittenKeys(failing, faults, kind, s)
            == (set x | x in members && !Faulty(failing, faults, RecordKey(kind, x)) :: RecordKey(kind, x))
  {
  }

  class CoreDatabase {
    var matches: set<string>
    var bans: set<string>
    /** Stored configurations, by `config:<id>`: the value decodes to a
        `ConfigData`, or it is `None`, bytes that do not decode. */
    var configs: map<string, Option<ConfigData>>
    /** Whether the store's I/O fails; every scan and write then errs. */
    var failing: bool
    /** The keys whose insert or removal meets an I/O error on that call. */
    var writeFaults: set<string>

    constructor ()
      ensures matches == {} && bans == {} && configs == map[] && !failing && writeFaults == {}
    {
      matches := {};
      bans := {};
      configs := map[];
      failing := false;
      writeFaults := {};
    }

    /** Whether writing or removing key `k` fails. */
    predicate WriteFails(k: string)
      reads this
    {
      Faulty(failing, writeFaults, k)
    }

    /** `add_match`: a set insert of the match key. */
    method AddMatch(configId: string, ip: string, timestamp: u64) returns (r: Outcome)
      modifies this`matches
      ensures r.Fail? <==> WriteFails(MakeKey(MATCH_KIND, configId, ip, timestamp))
      ensures matches == if r.Fail? then old(matches) else old(matches) + {MakeKey(MATCH_KIND, configId, ip, timestamp)}
    {
      if WriteFails(MakeKey(MATCH_KIND, configId, ip, timestamp)) {
        return Fail("sled insert failed");
      }
      matches := matches + {MakeKey(MATCH_KIND, configId, ip, timestamp)};
      r := Pass;
    }

    /** `count_matches`: the parseable keys under `match:config:ip:` whose
        timestamp is at least `now - findTime` (saturating); the clock
        reading `now` is a parameter. */
    method CountMatches(configId: string, ip: string, findTime: u64, now: u64) returns (r: Result<nat>)
      ensures r.Err? <==> failing
      ensures r.Ok? ==> r.value == WindowCount(matches, configId, ip, findTime, now)
    {
      if failing {
        return Err("sled scan failed");
      }
      var cutoff := SaturatingSub(now, findTime);
      var prefix := AddressPrefix(MATCH_KIND, configId, ip);
      var count := 0;
      var rest := matches;
      ghost var seen: set<string> := {};
      while rest != {}
        invariant rest + seen == matches && rest !! seen
        invariant count == |Selected(seen, MATCH_KIND, prefix, Since(cutoff))|
        decreases |rest|
      {
        var k :| k in rest;
        SelectedStep(seen, k, MATCH_KIND, prefix, Since(cutoff));
        if Qualifies(MATCH_KIND, prefix, Since(cutoff), k) {
          count := count + 1;
        }
        rest := rest - {k};
        seen := seen + {k};
      }
      r := Ok(count);
    }

    /** `get_matches_for_config`: every parseable record under `match:config:`. */
    method GetMatchesForConfig(configId: string) returns (r: Result<seq<Record>>)
      ensures r.Err? <==> failing
      ensures r.Ok? ==> (set x | x in r.value) == RecordsOf(matches, MATCH_KIND, ConfigPrefix(MATCH_KIND, configId), All)
                        && |r.value| == |Selected(matches, MATCH_KIND, ConfigPrefix(MATCH_KIND, configId), All)|
    {
      if failing {
        return Err("sled scan failed");
      }
      var recs := ScanTree(matches, MATCH_KIND, ConfigPrefix(MATCH_KIND, configId), All);
      r := Ok(recs);
    }

    /** `remove_matches`: removes the key rebuilt from each record and
        counts each removal that did not fail, present or not; a failed
        removal is skipped. */
    method RemoveMatches(records: seq<Record>) returns (r: Result<nat>)
      modifies this`matches
      ensures r == Ok(WrittenCount(failing, writeFaults, MATCH_KIND, records))
      ensures matches == old(matches) - WrittenKeys(failing, writeFaults, MATCH_KIND, records)
    {
      var removed := 0;
      var i := 0;
      while i < |records|
        invariant 0 <= i <= |records|
        invariant removed == WrittenCount(failing, writeFaults, MATCH_KIND, records[..i])
        invariant matches == old(matches) - WrittenKeys(failing, writeFaults, MATCH_KIND, records[..i])
      {
        WrittenStep(failing, writeFaults, MATCH_KIND, records, i);
        var key := RecordKey(MATCH_KIND, records[i]);
        if !WriteFails(key) {
          matches := matches - {key};
          removed := removed + 1;
        }
        i := i + 1;
      }
      assert records[..i] == records;
      r := Ok(removed);
    }

    /** `get_all_matches`: every parseable match record, newest first. */
    method GetAllMatches() returns (r: Result<seq<Record>>)
      ensures r.Err? <==> failing
      ensures r.Ok? ==> (set x | x in r.value) == RecordsOf(matches, MATCH_KIND, "", All)
                        && |r.value| == |Selected(matches, MATCH_KIND, "", All)|
                        && SortedDesc(r.value, Stamp)
    {
      if failing {
        return Err("sled scan failed");
      }
      var recs := ScanTree(matches, MATCH_KIND, "", All);
      SortKeepsElements(recs, Stamp);
      r := Ok(SortDesc(recs, Stamp));
    }

    /** `is_banned`: some parseable ban key of any configuration names `ip`. */
    method IsBanned(ip: string) returns (r: Result<bool>)
      ensures r.Err? <==> failing
      ensures r.Ok? ==> (r.value <==> BannedAnywhere(bans, ip))
    {
      if failing {
        return Err("sled scan failed");
      }
      var rest := bans;
      while rest != {}
        invariant rest <= bans
        invariant forall k :: k in bans - rest ==> !(ParseKey(BAN_KIND, k).Ok? && ParseKey(BAN_KIND, k).value.ip == ip)
        decreases |rest|
      {
        var k :| k in rest;
        var parsed := ParseKey(BAN_KIND, k);
        if parsed.Ok? && parsed.value.ip == ip {
          return Ok(true);
        }
        rest := rest - {k};
      }
      r := Ok(false);
    }

    /** `add_ban`: a set insert of the ban key. */
    method AddBan(configId: string, ip: string, timestamp: u64) returns (r: Outcome)
      modifies this`bans
      ensures r.Fail? <==> WriteFails(MakeKey(BAN_KIND, configId, ip, timestamp))
      ensures bans == if r.Fail? then old(bans) else old(bans) + {MakeKey(BAN_KIND, configId, ip, timestamp)}
    {
      if WriteFails(MakeKey(BAN_KIND, configId, ip, timestamp)) {
        return Fail("sled insert failed");
      }
      bans := bans + {MakeKey(BAN_KIND, configId, ip, timestamp)};
      r := Pass;
    }

    /** `remove_ban`: removing an absent key only logs and succeeds. */
    method RemoveBan(configId: string, ip: string, timestamp: u64) returns (r: Outcome)
      modifies this`bans
      ensures r.Fail? <==> WriteFails(MakeKey(BAN_KIND, configId, ip, timestamp))
      ensures bans == if r.Fail? then old(bans) else old(bans) - {MakeKey(BAN_KIND, configId, ip, timestamp)}
      ensures MakeKey(BAN_KIND, configId, ip, timestamp) !in old(bans) ==> bans == old(bans)
    {
      if WriteFails(MakeKey(BAN_KIND, configId, ip, timestamp)) {
        return Fail("sled remove failed");
      }
      bans := bans - {MakeKey(BAN_KIND, configId, ip, timestamp)};
      r := Pass;
    }

    /** `get_bans_for_config`: every parseable record under `ban:config:`. */
    method GetBansForConfig(configId: string) returns (r: Result<seq<Record>>)
      ensures r.Err? <==> failing
      ensures r.Ok? ==> (set x | x in r.value) == RecordsOf(bans, BAN_KIND, ConfigPrefix(BAN_KIND, configId), All)
                        && |r.value| == |Selected(bans, BAN_KIND, ConfigPrefix(BAN_KIND, configId), All)|
    {
      if failing {
        return Err("sled scan failed");
      }
      var recs := ScanTree(bans, BAN_KIND, ConfigPrefix(BAN_KIND, configId), All);
      r := Ok(recs);
    }

    /** `get_all_bans`: every parseable ban record, newest first. */
    method GetAllBans() returns (r: Result<seq<Record>>)
      ensures r.Err? <==> failing
      ensures r.Ok? ==> (set x | x in r.value) == RecordsOf(bans, BAN_KIND, "", All)
                        && |r.value| == |Selected(bans, BAN_KIND, "", All)|
                        && SortedDesc(r.value, Stamp)
    {
      if failing {
        return Err("sled scan failed");
      }
      var recs := ScanTree(bans, BAN_KIND, "", All);
      SortKeepsElements(recs, Stamp);
      r := Ok(SortDesc(recs, Stamp));
    }

    /** The sweep the cleaner asks for by configuration and find time:
        removes the match records of `configId` older than the window,
        rebuilding each key from its record as `remove_matches` does; a
        key whose removal fails stays. The count covers every stale record
        exactly when no removal fails. */
    method RemoveOldMatches(configId: string, findTime: u64, now: u64) returns (r: Result<nat>)
      modifies this`matches
      ensures r.Err? <==> failing
      ensures matches == old(matches) - SweptKeys(old(matches), configId, findTime, now, failing, writeFaults)
      ensures r.Ok? ==>
                var stale := RecordsOf(old(matches), MATCH_KIND, ConfigPrefix(MATCH_KIND, configId), Before(SaturatingSub(now, findTime)));
                var total := |Selected(old(matches), MATCH_KIND, ConfigPrefix(MATCH_KIND, configId), Before(SaturatingSub(now, findTime)))|;
                && r.value <= total
                && (r.value == total <==> forall x :: x in stale ==> !WriteFails(RecordKey(MATCH_KIND, x)))
    {
      if failing {
        assert SweptKeys(old(matches), configId, findTime, now, failing, writeFaults) == {};
        return Err("sled scan failed");
      }
      var stale := ScanTree(matches, MATCH_KIND, ConfigPrefix(MATCH_KIND, configId), Before(SaturatingSub(now, findTime)));
      r := RemoveMatches(stale);
      WrittenCountAll(failing, writeFaults, MATCH_KIND, stale);
      SameMembersSameWritten(stale, RecordsOf(old(matches), MATCH_KIND, ConfigPrefix(MATCH_KIND, configId), Before(SaturatingSub(now, findTime))),
                             failing, writeFaults, MATCH_KIND);
    }

    /** The bans the cleaner asks for by ban time: every parseable ban
        record older than `now - banTime` (saturating). */
    method GetExpiredBans(banTime: u64, now: u64) returns (r: Result<seq<Record>>)
      ensures r.Err? <==> failing
      ensures r.Ok? ==> (set x | x in r.value) == RecordsOf(bans, BAN_KIND, "", Before(SaturatingSub(now, banTime)))
                        && |r.value| == |Selected(bans, BAN_KIND, "", Before(SaturatingSub(now, banTime)))|
    {
      if failing {
        return Err("sled scan failed");
      }
      var recs := ScanTree(bans, BAN_KIND, "", Before(SaturatingSub(now, banTime)));
      r := Ok(recs);
    }

    /** `save_config`: the data stored under `config:<id>`. */
    method SaveConfig(data: ConfigData) returns (r: Outcome)
      modifies this`configs
      ensures r.Fail? <==> WriteFails(ConfigKey(data.id))
      ensures configs == if r.Fail? then old(configs) else old(configs)[ConfigKey(data.id) := Some(data)]
    {
      if WriteFails(ConfigKey(data.id)) {
        return Fail("sled insert failed");
      }
      configs := configs[ConfigKey(data.id) := Some(data)];
      r := Pass;
    }

    /** `load_all_configs`: every value stored under `config:` that
        decodes; the others are skipped. */
    method LoadAllConfigs() returns (r: Result<seq<ConfigData>>)
      ensures r.Err? <==> failing
      ensures r.Ok? ==> (set d | d in r.value) == StoredUnder(configs, configs.Keys)
    {
      if failing {
        return Err("sled scan failed");
      }
      var loaded: seq<ConfigData> := [];
      var rest := configs.Keys;
      ghost var seen: set<string> := {};
      while rest != {}
        invariant rest + seen == configs.Keys && rest !! seen
        invariant (set d | d in loaded) == StoredUnder(configs, seen)
        decreases |rest|
      {
        var k :| k in rest;
        var next := if HasPrefix(k, "config:") && configs[k].Some? then loaded + [configs[k].value] else loaded;
        LoadStep(configs, seen, k, loaded, next);
        loaded := next;
        rest := rest - {k};
        seen := seen + {k};
      }
      r := Ok(loaded);
    }

    /** `remove_config`: the stored entry of `id` is gone. */
    method RemoveConfig(id: string) returns (r: Outcome)
      modifies this`configs
      ensures r.Fail? <==> WriteFails(ConfigKey(id))
      ensures configs == if r.Fail? then old(configs) else old(configs) - {ConfigKey(id)}
    {
      if WriteFails(ConfigKey(id)) {
        return Fail("sled remove failed");
      }
      configs := configs - {ConfigKey(id)};
      r := Pass;
    }
  }
}
