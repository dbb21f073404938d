/** The single-tree ledger of `apps/core/src/database/sled_db.rs`: match and
    ban keys side by side in one sled tree, addressed by IPv4 address. */
module SledLedger {
  import opened Wrappers
  import opened Ints
  import opened Strings
  import opened Ipv4
  import opened LedgerKeys

  /** What a per-configuration scan reports: (ip, timestamp). */
  datatype Entry = Entry(ip: string, timestamp: u64)

  /** A key the scan of `prefix` reports: under it, at least four parts,
      and a fourth part that parses as u64. The kind tag is not re-checked. */
  predicate Reported(prefix: string, k: string)
  {
    var parts := Split(k, ':');
    HasPrefix(k, prefix) && |parts| >= 4 && ParseU64(parts[3]).Some?
  }

  function EntryOf(k: string): Entry
    requires |Split(k, ':')| >= 4 && ParseU64(Split(k, ':')[3]).Some?
  {
    Entry(Split(k, ':')[2], ParseU64(Split(k, ':')[3]).value)
  }

  function ReportedKeys(db: set<string>, prefix: string): set<string>
  {
    set k | k in db && Reported(prefix, k)
  }

  function EntriesOf(db: set<string>, prefix: string): set<Entry>
  {
    set k | k in db && Reported(prefix, k) :: EntryOf(k)
  }

  /** Some key starts with `ban:config:ip:`. */
  predicate BanPrefixPresent(db: set<string>, configId: string, ip: Addr)
  {
    exists k :: k in db && HasPrefix(k, AddressPrefix(BAN_KIND, configId, FormatAddr(ip)))
  }

  lemma AppendMembers<T>(s: seq<T>, x: T)
    ensures (set y | y in s + [x]) == (set y | y in s) + {x}
  {
  }

  lemma ReportedStep(seen: set<string>, k: string, prefix: string)
    requires k !in seen
    ensures ReportedKeys(seen + {k}, prefix) == ReportedKeys(seen, prefix) + (if Reported(prefix, k) then {k} else {})
    ensures |ReportedKeys(seen + {k}, prefix)| == |ReportedKeys(seen, prefix)| + (if Reported(prefix, k) then 1 else 0)
  {
    var before := ReportedKeys(seen, prefix);
    assert ReportedKeys(seen + {k}, prefix) == before + (if Reported(prefix, k) then {k} else {});
    assert k !in before;
  }

  lemma EntriesStep(seen: set<string>, k: string, prefix: string)
    ensures EntriesOf(seen + {k}, prefix) == EntriesOf(seen, prefix) + (if Reported(prefix, k) then {EntryOf(k)} else {})
  {
  }

  lemma EntryScanStep(seen: set<string>, k: string, prefix: string, results: seq<Entry>, next: seq<Entry>)
    requires k !in seen
    requires (set e | e in results) == EntriesOf(seen, prefix)
    requires |results| == |ReportedKeys(seen, prefix)|
    requires next == if Reported(prefix, k) then results + [EntryOf(k)] else results
    ensures (set e | e in next) == EntriesOf(seen + {k}, prefix)
    ensures |next| == |ReportedKeys(seen + {k}, prefix)|
  {
    ReportedStep(seen, k, prefix);
    EntriesStep(seen, k, prefix);
    if Reported(prefix, k) {
      AppendMembers(results, EntryOf(k));
    }
  }

  class SledDatabase {
    var db: set<string>
    /** Whether the store's I/O fails. */
    var failing: bool
    /** The prefixes whose scans meet an I/O error. */
    var scanFaults: set<string>
    /** The keys whose insert or removal meets an I/O error. */
    var writeFaults: set<string>

    constructor ()
      ensures db == {} && !failing && scanFaults == {} && writeFaults == {}
    {
      db := {};
      failing := false;
      scanFaults := {};
      writeFaults := {};
    }

    /** Whether an insert or removal of `key` fails. */
    predicate WriteFails(key: string)
      reads this
    {
      failing || key in writeFaults
    }

    /** Whether a scan of `prefix` fails. */
    predicate ScanFails(prefix: string)
      reads this
    {
      failing || prefix in scanFaults
    }

    /** `add_match` and `add_ban`: a set insert of the formatted key. */
    method Add(kind: string, configId: string, ip: Addr, timestamp: u64) returns (r: Outcome)
      requires kind == MATCH_KIND || kind == BAN_KIND
      modifies this`db
      ensures r.Fail? <==> WriteFails(MakeKey(kind, configId, FormatAddr(ip), timestamp))
      ensures db == if r.Fail? then old(db) else old(db) + {MakeKey(kind, configId, FormatAddr(ip), timestamp)}
    {
      if WriteFails(MakeKey(kind, configId, FormatAddr(ip), timestamp)) {
        return Fail("sled insert failed");
      }
      db := db + {MakeKey(kind, configId, FormatAddr(ip), timestamp)};
      r := Pass;
    }

    /** `remove_match` and `remove_ban`: removing an absent key succeeds. */
    method Remove(kind: string, configId: string, ip: Addr, timestamp: u64) returns (r: Outcome)
      requires kind == MATCH_KIND || kind == BAN_KIND
      modifies this`db
      ensures r.Fail? <==> WriteFails(MakeKey(kind, configId, FormatAddr(ip), timestamp))
      ensures db == if r.Fail? then old(db) else old(db) - {MakeKey(kind, configId, FormatAddr(ip), timestamp)}
      ensures r.Pass? ==> MakeKey(kind, configId, FormatAddr(ip), timestamp) !in db
    {
      if WriteFails(MakeKey(kind, configId, FormatAddr(ip), timestamp)) {
        return Fail("sled remove failed");
      }
      db := db - {MakeKey(kind, configId, FormatAddr(ip), timestamp)};
      r := Pass;
    }

    /** `remove_match_by_key` and `remove_ban_by_key`. */
    method RemoveByKey(key: string) returns (r: Outcome)
      modifies this`db
      ensures r.Fail? <==> WriteFails(key)
      ensures db == if r.Fail? then old(db) else old(db) - {key}
    {
      if WriteFails(key) {
        return Fail("sled remove failed");
      }
      db := db - {key};
      r := Pass;
    }

    /** `is_banned`: whether the scan of `ban:config:ip:` yields a first
        item. A failing scan yields an error item, which counts as one. */
    method IsBanned(configId: string, ip: Addr) returns (r: Result<bool>)
      ensures r.Ok?
      ensures r.value <==> ScanFails(AddressPrefix(BAN_KIND, configId, FormatAddr(ip))) || BanPrefixPresent(db, configId, ip)
    {
      var prefix := AddressPrefix(BAN_KIND, configId, FormatAddr(ip));
      if ScanFails(prefix) {
        return Ok(true);
      }
      var found := exists k :: k in db && HasPrefix(k, prefix);
      r := Ok(found);
    }

    /** `get_matches_for_config` and `get_bans_for_config`: (ip, timestamp)
        of every key under `kind:config:` whose fourth field parses. */
    method GetForConfig(kind: string, configId: string) returns (r: Result<seq<Entry>>)
      requires kind == MATCH_KIND || kind == BAN_KIND
      ensures r.Err? <==> ScanFails(ConfigPrefix(kind, configId))
      ensures r.Ok? ==> (set e | e in r.value) == EntriesOf(db, ConfigPrefix(kind, configId))
                        && |r.value| == |ReportedKeys(db, ConfigPrefix(kind, configId))|
    {
      var prefix := ConfigPrefix(kind, configId);
      if ScanFails(prefix) {
        return Err("sled scan failed");
      }
      var results: seq<Entry> := [];
      var rest := db;
      ghost var seen: set<string> := {};
      while rest != {}
        invariant rest + seen == db && rest !! seen
        invariant (set e | e in results) == EntriesOf(seen, prefix)
        invariant |results| == |ReportedKeys(seen, prefix)|
        decreases |rest|
      {
        var k :| k in rest;
        var next := if Reported(prefix, k) then results + [EntryOf(k)] else results;
        EntryScanStep(seen, k, prefix, results, next);
        results := next;
        rest := rest - {k};
        seen := seen + {k};
      }
      r := Ok(results);
    }
  }

  /** `is_banned` is scoped per configuration and address: a ban key added
      for (c2, ip2) lies under the prefix of (c1, ip1) only when both agree. */
  lemma IsBannedScoped(db: set<string>, c1: string, ip1: Addr, c2: string, ip2: Addr, timestamp: u64)
    requires IsField(c1) && IsField(c2)
    ensures BanPrefixPresent(db + {MakeKey(BAN_KIND, c2, FormatAddr(ip2), timestamp)}, c1, ip1)
            <==> BanPrefixPresent(db, c1, ip1) || (c1 == c2 && ip1 == ip2)
  {
    FormatHasNoColon(ip1);
    FormatHasNoColon(ip2);
    FormatInjective(ip1, ip2);
    var k := MakeKey(BAN_KIND, c2, FormatAddr(ip2), timestamp);
    AddressPrefixIsolates(BAN_KIND, c1, FormatAddr(ip1), c2, FormatAddr(ip2), timestamp);
    if c1 == c2 && ip1 == ip2 {
      assert k in db + {k};
    }
  }

  /** After `add_ban(c, ip, t)`, the scan of `ban:c:` reports (ip, t). */
  lemma AddedBanIsReported(db: set<string>, configId: string, ip: Addr, timestamp: u64)
    requires IsField(configId)
    ensures Entry(FormatAddr(ip), timestamp)
            in EntriesOf(db + {MakeKey(BAN_KIND, configId, FormatAddr(ip), timestamp)}, ConfigPrefix(BAN_KIND, configId))
  {
    FormatHasNoColon(ip);
    var k := MakeKey(BAN_KIND, configId, FormatAddr(ip), timestamp);
    SplitOfKey(BAN_KIND, configId, FormatAddr(ip), timestamp);
    ParseU64OfNatToString(timestamp);
    KeyUnderOwnPrefixes(BAN_KIND, configId, FormatAddr(ip), timestamp);
    assert Reported(ConfigPrefix(BAN_KIND, configId), k);
    assert k in db + {k};
  }

  /** Records of one configuration never appear in another's scan. */
  lemma ScansIsolated(db: set<string>, c1: string, c2: string, kind: string, ip: Addr, timestamp: u64)
    requires IsField(c1) && IsField(c2) && IsField(kind) && c1 != c2
    ensures ReportedKeys(db + {MakeKey(kind, c2, FormatAddr(ip), timestamp)}, ConfigPrefix(kind, c1))
            == ReportedKeys(db, ConfigPrefix(kind, c1))
  {
    FormatHasNoColon(ip);
    ConfigPrefixIsolates(kind, c1, c2, FormatAddr(ip), timestamp);
  }
}
