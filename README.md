# banalize, modelled in Dafny

banalize is a fail2ban-style intrusion blocker. Each watched source has a
configuration: a log file, a pattern with an `<IP>` placeholder, a find
window, a match threshold, a ban time and an ignore list. Every log line
that matches is turned into a recorded *match* for the address it names.
Once an address has reached the threshold within the window, it gets a
*ban*: a firewall rule that drops its traffic. A ban is lifted again when
its ban time has passed.

The project has two engines and a web front end, and this model covers all
three.

**The Rust core (`apps/core`)**

- The ledger. Matches and bans are keys of the form
  `kind:config:ip:timestamp` in sled trees (`database.rs`,
  `database/sled_db.rs`), and configurations are stored as
  `config:<id>`.
- The configuration record (`config.rs`) and the configuration manager
  (`config_manager.rs`).
- The ignore-list filter (`ip_utils.rs`) and address extraction
  (`ip_extract.rs`).
- The two watchers: the tailer in `file_watcher.rs` and the older watcher
  in `watcher.rs`.
- The watcher supervisor (`watcher_manager.rs`).
- The once-a-second cleaner (`cleaner.rs`), the start-up restore of bans
  (`restore.rs`), and the iptables adapter (`firewall.rs`).

**The NestJS API (`apps/api`)**

- A priority task queue.
- The match handler, in two versions:
  - the newer one keeps an in-memory counting cache and has the address
    helpers `ipToLong`, `isIpInCidr` and `isIpInList`;
  - the older one counts the stored matches of the whole configuration.
- The ban handlers (newer and older) and the ban expiry sweeps (newer and
  older).
- The iptables firewall service and the firewall cleanup service.
- The watcher-manager service.
- The ignore-list validator.

**The web front end (`apps/web`)**

- The event timeline (`lib/events.ts`).
- Route breadcrumbs.

**How the model is written**

Each source file is one module. Helper modules are shared between them:

- `Wrappers` (Option, Result, Outcome);
- `Ints` (u64/u32 and saturating subtraction);
- `Strings` (split, join, replace, decimal text);
- `Ipv4` (address and network parsing and containment, as Rust's standard
  library and `ipnet` do them);
- `Regex` (the `<IP>` placeholder and `IP_REGEX`, written out);
- `JsNumbers` (JavaScript's `Number`, `parseInt`, ToInt32/ToUint32 and the
  bitwise operators);
- `Iptables` (the filter table's chains as lists of rule texts);
- `Sorting` (a descending sort by key, used for the `sort_by` and `sort`
  calls).

What the source changes in place is modelled as classes whose methods
state their whole new state:

- the ledgers;
- the configuration manager;
- the watchers, the cleaner and the firewall;
- the queue, the handlers and the API's stores.

Pure computation is written as functions, and lemmas state what the source
promises about them.

A few external effects are modelled through fields or parameters:

- The core ledgers can be set to `failing`. Every operation on them then
  takes the error path the source has. Among the API's stores, only the
  match store's `create` can fail (`MatchStore.failing`). Its counting
  reads never fail, and the ban store never fails (see "## Left out").
- Single calls can fail too. Both ledgers have a set of keys whose write
  or removal meets an I/O error (`writeFaults`). The single-tree sled
  ledger also has a set of prefixes whose scan fails (`scanFaults`). A stored
  configuration value may not decode. Each operation takes the source's
  path for that one failure: skip and go on, stop with `?`, or treat a
  failed scan as a hit.
- A broken iptables table fails every command and changes nothing.
- The clock is a `now` parameter. The restore at start-up reads it once
  per configuration, so it is a function of the configuration id there.
- A user pattern goes through an `Engine` parameter. It says whether the
  pattern compiles and what its leftmost match is.

## Model

| member | source | states |
|---|---|---|
| LedgerKeys.SplitOfKey | apps/core/src/database.rs:55-57 | A key built from colon-free fields splits on ':' into exactly kind, config id, address and decimal timestamp. |
| LedgerKeys.ParseMakeKey | apps/core/src/database.rs:60-74 | Parsing a key that `make_match_key`/`make_ban_key` built gives back its config id, address and timestamp (round trip). |
| LedgerKeys.ParsedRecordRebuilds | apps/core/src/database.rs:60-79 | A key that parses yields colon-free fields, and rebuilding the key from the parsed record parses to the same record (round trip the other way). |
| LedgerKeys.MakeKeyInjective | apps/core/src/database.rs:55-57 | Two keys of one kind are equal only when config id, address and timestamp all are. |
| LedgerKeys.OtherKindRejects | apps/core/src/database.rs:64-66 | A key of one kind never parses as the other kind (a match key is not a ban record and vice versa). |
| LedgerKeys.ColonInAddressUnparsable | apps/core/src/database.rs:63-66 | An address holding ':' (IPv6 text) makes its own key unparsable: it splits into more than four parts. |
| LedgerKeys.KeyUnderOwnPrefixes | apps/core/src/database.rs:116-134 | Every key lies under the prefix of its configuration and under the prefix of its (configuration, address) pair. |
| LedgerKeys.UnderAddressPrefix | apps/core/src/database.rs:112-129 | A key under `kind:config:ip:` starts with those three fields, so a parsed record of it carries that config id and address. |
| LedgerKeys.UnderConfigPrefix | apps/core/src/database.rs:133-145 | A key under `kind:config:` starts with those two fields, so a parsed record of it carries that config id. |
| LedgerKeys.AddressPrefixIsolates | apps/core/src/database.rs:112-129 | A key lies under the (config, address) prefix exactly when it was made for that config and that address (both directions). |
| LedgerKeys.ConfigPrefixIsolates | apps/core/src/database.rs:133-145 | A key lies under a configuration's prefix exactly when it was made for that configuration (both directions). |
| CoreLedger.ScanTree | apps/core/src/database.rs:133-145 | The prefix scan returns exactly the parseable records under the prefix that the filter keeps, one per qualifying key. |
| CoreLedger.CountAfterAdd | apps/core/src/database.rs:105-129 | Recording a match inside the window raises its own address's count by one, or leaves it unchanged when the same key was already there. |
| CoreLedger.CountIgnoresOthers | apps/core/src/database.rs:112-129 | A match of another configuration or another address leaves the count of (config, address) unchanged. |
| CoreLedger.BannedAfterAddBan | apps/core/src/database.rs:181-199 | After `add_ban`, `is_banned` of that address holds. |
| CoreLedger.BansForConfigExact | apps/core/src/database.rs:211-223 | `get_bans_for_config` reports only records of that configuration, and reports every ban added for it. |
| CoreLedger.CoreDatabase.AddMatch | apps/core/src/database.rs:105-109 | It fails exactly when the write of its key fails, either because the store is failing or because that one insert meets an I/O error. It then changes nothing; otherwise the match tree gains exactly the match key. |
| CoreLedger.CoreDatabase.CountMatches | apps/core/src/database.rs:112-129 | The count is the number of parseable keys of (config, address) with a timestamp at or after `now - find_time` (saturating), or the store's error. |
| CoreLedger.CoreDatabase.GetMatchesForConfig | apps/core/src/database.rs:133-145 | Exactly the parseable match records of the configuration, one per key, or the error. |
| CoreLedger.CoreDatabase.RemoveMatches | apps/core/src/database.rs:148-157 | Always Ok. A removal that errors is skipped and the loop goes on. Exactly the keys whose removal goes through leave the tree, and the result counts those removals, present or not. |
| CoreLedger.WrittenCountAll | apps/core/src/database.rs:148-157 | The removal count is at most the number of records, and equals it exactly when every removal goes through. |
| CoreLedger.CoreDatabase.GetAllMatches | apps/core/src/database.rs:160-172 | Every parseable match record, one per key, ordered newest first. |
| CoreLedger.CoreDatabase.IsBanned | apps/core/src/database.rs:181-192 | True exactly when some parseable ban key of any configuration names the address, or the error. |
| CoreLedger.CoreDatabase.AddBan | apps/core/src/database.rs:195-199 | Fails exactly when the write of the ban key fails, and then changes nothing; otherwise the ban tree gains exactly that key. |
| CoreLedger.CoreDatabase.RemoveBan | apps/core/src/database.rs:202-208 | Fails exactly when the removal of the ban key fails, and then changes nothing. Otherwise the key is gone, and removing an absent key changes nothing. |
| CoreLedger.CoreDatabase.GetBansForConfig | apps/core/src/database.rs:211-223 | Exactly the parseable ban records of the configuration, or the error. |
| CoreLedger.CoreDatabase.GetAllBans | apps/core/src/database.rs:226-238 | Every parseable ban record, one per key, newest first. |
| CoreLedger.CoreDatabase.RemoveOldMatches | apps/core/src/cleaner.rs:67-74 | Fails exactly when the scan does. Otherwise the configuration's matches stamped before `now - find_time` are removed, except those whose removal fails. The count reaches the number of stale records exactly when no removal fails. Every other key stays. |
| CoreLedger.CoreDatabase.GetExpiredBans | apps/core/src/cleaner.rs:84 | Every parseable ban record stamped before `now - ban_time` (saturating), one per key. |
| CoreLedger.CoreDatabase.SaveConfig | apps/core/src/database.rs:247-252 | Fails exactly when the write of `config:<id>` fails, and then changes nothing; otherwise the data is stored under that key. |
| CoreLedger.CoreDatabase.LoadAllConfigs | apps/core/src/database.rs:255-267 | Fails exactly when the scan fails. Otherwise it returns exactly the stored values under `config:` that decode, and a value that does not decode is skipped. |
| CoreLedger.CoreDatabase.RemoveConfig | apps/core/src/database.rs:270-274 | Fails exactly when the removal fails, and then changes nothing. Otherwise the `config:<id>` entry is removed and nothing else. |
| SledLedger.SledDatabase.Add | apps/core/src/database/sled_db.rs:19-40 | The tree gains exactly the key built from the address's text. The insert fails, changing nothing, exactly when the store or that key faults. |
| SledLedger.SledDatabase.Remove | apps/core/src/database/sled_db.rs:43-64 | That key is gone afterwards and nothing else changes. The removal fails, changing nothing, exactly when the store or that key faults. |
| SledLedger.SledDatabase.RemoveByKey | apps/core/src/database/sled_db.rs:74-83 | Exactly the given key is removed. The removal fails, changing nothing, exactly when the store or that key faults. |
| SledLedger.SledDatabase.IsBanned | apps/core/src/database/sled_db.rs:67-71 | Always Ok. It is true exactly when some key lies under the ban prefix of (config, address), or when the scan fails, because an iteration error still counts as present. |
| SledLedger.SledDatabase.GetForConfig | apps/core/src/database/sled_db.rs:86-119 | An error exactly when the scan of the configuration's prefix fails. Otherwise exactly the (address, timestamp) entries of its keys whose timestamp parses, one per key. |
| SledLedger.IsBannedScoped | apps/core/src/database/sled_db.rs:67-71 | A ban of (c2, ip2) makes `is_banned(c1, ip1)` true exactly for c1 = c2 and the same address text, or when it already was. |
| SledLedger.AddedBanIsReported | apps/core/src/database/sled_db.rs:31-40 | A ban added for a configuration is listed by that configuration's scan. |
| SledLedger.ScansIsolated | apps/core/src/database/sled_db.rs:86-119 | A key added under one configuration leaves another configuration's scan unchanged. |
| Ipv4.ParseFormat | apps/core/src/ip_utils.rs:5-8 | Every address's text parses back to the address. |
| Ipv4.FormatParse | apps/core/src/ip_utils.rs:5-8 | Text that parses is the canonical text of its address (no leading zeros, no extra characters). |
| Ipv4.FormatInjective | apps/core/src/database/sled_db.rs:19-28 | Distinct addresses have distinct texts, so the sled key of an address names it alone. |
| Ipv4.ContainsIsRange | apps/core/src/ip_utils.rs:13-16 | A network contains an address exactly when the address lies between its network and broadcast addresses. |
| IpUtils.AnyEntryMatches | apps/core/src/ip_utils.rs:10-26 | True exactly when some entry of the list matches the address. |
| IpUtils.IsIpInList | apps/core/src/ip_utils.rs:4-29 | Text that is not an address is never ignored. |
| IpUtils.IgnoreListOrderIrrelevant | apps/core/src/ip_utils.rs:10-26 | Two lists with the same entries give the same answer, whatever their order or repetitions. |
| IpUtils.ListedAddressIgnored | apps/core/src/ip_utils.rs:20-24 | An address that appears verbatim in the list is ignored. |
| IpUtils.ListedNetworkIgnoresRange | apps/core/src/ip_utils.rs:13-16 | A one-entry CIDR list ignores exactly the addresses from the network's first address to its last. |
| Regex.FinalPatternHasNoPlaceholder | apps/core/src/ip_extract.rs:21 | After substitution no `<IP>` placeholder is left in the pattern. |
| Regex.MatchIsShaped | apps/core/src/ip_extract.rs:4 | Every match of `IP_REGEX` is a dotted quad of one-to-three-digit groups. |
| Regex.FirstMatchIsLeftmost | apps/core/src/ip_extract.rs:29 | No match of `IP_REGEX` starts before the one `find` reports, and none at all when `find` reports none. |
| Regex.FirstIpv4Shaped | apps/core/src/ip_extract.rs:29-30 | `find` returns a dotted-quad-shaped piece of the text, and returns nothing exactly when no match exists. |
| Regex.ShapedTextIsFound | apps/core/src/ip_extract.rs:4 | A text that is itself a dotted quad is found whole. |
| IpExtract.Extracted | apps/core/src/ip_extract.rs:26-34 | No pattern match means no address, and an extracted address is always dotted-quad shaped. |
| IpExtract.WholeMatchExtracted | apps/core/src/ip_extract.rs:26-31 | When the pattern's whole match is a dotted quad, that quad is the result. |
| IpExtract.IpExtractor.constructor | apps/core/src/ip_extract.rs:11-15 | The compiled-pattern cache starts empty. |
| IpExtract.IpExtractor.ExtractIp | apps/core/src/ip_extract.rs:17-35 | The result is the extraction through the final pattern. The pattern is cached and compiled only on its first use, so every later call reuses the compilation. |
| Configuration.CheckPattern | apps/core/src/config.rs:41-50 | A pattern is accepted exactly when it holds `<IP>` and its final pattern compiles, and the compiled pattern holds no placeholder. |
| Configuration.NewSpec | apps/core/src/config.rs:31-63 | `Config::new` succeeds exactly when the pattern is accepted, and then keeps every field as given. |
| Configuration.FilePathOfNew | apps/core/src/config.rs:31-67 | The watched path of a configuration built by `Config::new` is the `param` it was built from. |
| Configuration.FromDataToData | apps/core/src/config.rs:111-136 | Serialising a valid configuration and reading it back gives the same configuration. |
| Configuration.ToDataFromData | apps/core/src/config.rs:111-136 | Data that reads back successfully serialises to itself and yields a valid configuration. |
| Configuration.Update | apps/core/src/config.rs:69-108 | Each given field replaces the old one. A rejected pattern fails the update after name and param have already been applied, and leaves every later field unchanged. |
| ConfigManagement.ConfigManager.LoadConfigsFromDb | apps/core/src/config_manager.rs:26-45 | Every stored configuration that rebuilds is loaded under its id, replacing any entry already there. No entry is dropped, and an old entry survives only where no loaded configuration has its id. A failing ledger changes nothing. |
| ConfigManagement.ConfigManager.AddConfig | apps/core/src/config_manager.rs:47-65 | Succeeds exactly for a new id whose ledger write goes through. It then holds the configuration both in memory and in the ledger; otherwise nothing changes. |
| ConfigManagement.ConfigManager.GetConfig | apps/core/src/config_manager.rs:67-70 | Present exactly when the id is loaded, and then it is that configuration. |
| ConfigManagement.ConfigManager.UpdateConfig | apps/core/src/config_manager.rs:72-103 | Succeeds exactly for a loaded id, an accepted pattern and a ledger write that goes through. It then replaces each given field in memory and in the ledger. On failure nothing changes. |
| ConfigManagement.ConfigManager.RemoveConfig | apps/core/src/config_manager.rs:105-117 | The id is dropped from memory. It is dropped from the ledger when it was loaded and the removal goes through. |
| ConfigManagement.ConfigManager.ListConfigs | apps/core/src/config_manager.rs:119-122 | Every loaded configuration, each exactly once. |
| ConfigManagement.ConfigManager.IdsAreDistinctValues | apps/core/src/config_manager.rs:119-122 | Loaded configurations are distinct per id, so there are as many as there are ids. |
| Sorting.SortDesc | apps/core/src/database.rs:170 | The result is ordered by descending key and is a permutation of the input. |
| FileWatching.FileWatcher.ApplyBan | apps/core/src/file_watcher.rs:90-123 | A ban is stored, denied in the firewall and reported only when no ban of the address is stored anywhere and the write of its key goes through. |
| FileWatching.FileWatcher.ProcessMatchedIp | apps/core/src/file_watcher.rs:46-87 | The new state is `AfterMatch` of the old. A failed count or match write changes nothing. Otherwise the match is recorded and reported. A ban follows when the count before it, plus one, reaches `max_matches`; it is skipped when the address is banned already or the ban write fails, even though the match is then stored. |
| FileWatching.FileWatcher.HandleTailLine | apps/core/src/file_watcher.rs:183-194 | The new state is `AfterTailLine` of the old: an empty line, a line without an address or an ignored address changes nothing, and any other line has `process_matched_ip`'s effect for its extracted address. |
| FileWatching.FileWatcher.Tail | apps/core/src/file_watcher.rs:176-200 | Every line is consumed in order, and the new state is the lines' effects applied one after another (`AfterTail`). |
| FileWatching.TailAddsOnlyAccepted | apps/core/src/file_watcher.rs:176-200 | Every match key the loop adds comes from an accepted line, under the address extracted from it and the line's clock reading. |
| FileWatching.TailOnlyAdds | apps/core/src/file_watcher.rs:176-200 | The loop only adds match keys, ban keys and reports. |
| FileWatching.StrikeCounts | apps/core/src/file_watcher.rs:46-87 | In the window, the count before the first, second and third match of an address is 0, 1 and 2. |
| FileWatching.TwoQuietStrikes | apps/core/src/file_watcher.rs:46-87 | With a threshold of three, two matches are recorded and reported without a ban or a firewall change. |
| FileWatching.ThreeStrikes | apps/core/src/file_watcher.rs:46-123 | The third match in the window stores exactly one ban, adds the deny rule and reports the ban after the match. |
| Watching.FirstShutdown | apps/core/src/watcher.rs:82-86 | The run loop consumes exactly the steps before the first shutdown signal. |
| Watching.Watcher.constructor | apps/core/src/watcher.rs:22-57 | The ignore networks are the parsed entries of the ignore list. A bare address becomes a /32 network, and an entry that does not parse is dropped. |
| Watching.Watcher.ShouldIgnoreIp | apps/core/src/watcher.rs:204-211 | True exactly when some ignore network contains the address. |
| Watching.Watcher.BanIp | apps/core/src/watcher.rs:176-202 | The ban is stored, denied and reported. A failed write of the ban key stops everything, and a firewall error is ignored. |
| Watching.Watcher.HandleLine | apps/core/src/watcher.rs:109-174 | Fails exactly when an address is found, it is not ignored and the match write fails. The new state is `AfterLine` of the old. A line without an address, an ignored address or a failed match write changes nothing. Otherwise the match is stored and reported. A ban is attempted when the configuration's listing works, its match count reaches the threshold, and the scan for a ban of the address finds none. A failing scan counts as a ban found. The attempt stores, denies and reports the ban, unless the ban key's write fails; then the match stays stored and reported with no deny and no Ban event. |
| Watching.Watcher.CheckBan | apps/core/src/watcher.rs:141-171 | The new state is `AfterBanCheck` of the old. It stores, denies and reports a ban exactly when the listing works, the configuration's matches reach `max_matches`, the ban scan works and finds no ban, and the ban key's write goes through. Otherwise nothing changes. |
| Watching.BanWriteFaultKeepsMatch | apps/core/src/watcher.rs:128-183 | When the match write succeeds and the ban write fails, the line leaves the match stored and reported, and the firewall and the events are otherwise untouched. |
| Watching.Watcher.Run | apps/core/src/watcher.rs:59-107 | An unopenable source consumes nothing and changes nothing. Otherwise exactly the steps before the first shutdown are consumed, and the new state is `HandleLine`'s effect of each of their lines in turn (`AfterSteps`). |
| Watching.StepsOnlyAdd | apps/core/src/watcher.rs:59-107 | Running only adds ledger keys and events. |
| Watching.EventsFromLines | apps/core/src/watcher.rs:109-174 | Every event a run emits names the address some handled line yields, stamped with that line's clock reading. |
| Watching.IgnoreNetsAgree | apps/core/src/watcher.rs:29-48 | The watcher's ignore networks contain an address exactly when `is_ip_in_list`'s entry test matches it. |
| Watching.IgnoreAgreesWithIpUtils | apps/core/src/watcher.rs:204-211 | `should_ignore_ip` agrees with `is_ip_in_list` on the same list, for every address. |
| Watching.PerAddressIgnoresOthers | apps/core/src/database/sled_db.rs:86-101 | A match of another address does not change the keys under one address's prefix. |
| Watching.PerAddressCountsOwnMatches | apps/core/src/database/sled_db.rs:86-101 | A new match of an address adds one key under its prefix. |
| Watching.TwoMatchesCountTwice | apps/core/src/watcher.rs:143-148 | Two matches of one address at different times count twice in the configuration's scan. |
| Watching.OtherAddressCountsOnce | apps/core/src/watcher.rs:143-148 | One match each of two addresses also counts twice, because the threshold test counts the configuration, not the address. |
| Watching.ConfigWideBansFirstOffender | apps/core/src/watcher.rs:143-157 | With a threshold of two, an address matched once gets banned as soon as another address's match brings the configuration's count to two. |
| WatcherManagement.WatcherManager.StartWatcher | apps/core/src/watcher_manager.rs:37-69 | Starts exactly when the configuration validates and no watcher of its id runs, and then registers it. |
| WatcherManagement.WatcherManager.StopWatcher | apps/core/src/watcher_manager.rs:72-92 | Succeeds exactly when a watcher of that id runs; it is signalled and removed. |
| WatcherManagement.WatcherManager.RestartWatcher | apps/core/src/watcher_manager.rs:95-101 | A running watcher is stopped, then the configuration is started; the result is the start's. |
| WatcherManagement.WatcherManager.StopAll | apps/core/src/watcher_manager.rs:104-123 | Every running watcher is signalled once and none remains. |
| WatcherManagement.WatcherManager.IsRunning | apps/core/src/watcher_manager.rs:126-128 | True exactly when a watcher of the id is registered. |
| WatcherManagement.StartThenStop | apps/core/src/watcher_manager.rs:37-92 | Starting a valid new configuration and stopping it restores the registry and signals it once. |
| Cleaning.Cleaner.SweepMatches | apps/core/src/cleaner.rs:67-74 | Only stale matches are removed, and every canonical stale match of each configuration is removed unless its removal fails. A failing configuration does not stop the sweep. |
| Cleaning.Cleaner.MaxBanTime | apps/core/src/cleaner.rs:78-82 | The largest ban time of the snapshot, or 86400000 when there is no configuration. |
| Cleaning.MaxBanTimeUnique | apps/core/src/cleaner.rs:78-82 | That value is unique. |
| Cleaning.ExpiredOutlivesEveryBanTime | apps/core/src/cleaner.rs:78-84 | A ban the sweep expires is older than every configuration's own ban time. |
| Cleaning.RecordedMatchIsStale | apps/core/src/cleaner.rs:67-74 | A match recorded before the window is swept. |
| Cleaning.WindowMatchSurvives | apps/core/src/cleaner.rs:67-74 | A match inside its configuration's window survives the sweep. |
| Cleaning.Cleaner.ExpireBans | apps/core/src/cleaner.rs:84-109 | A failing scan is an error and changes nothing. Otherwise the expired bans are taken in some order, each exactly once. Each is removed, allowed and reported until the first whose removal fails; that failure ends the call with an error and leaves it and the rest in place. |
| Cleaning.Cleaner.RemoveAndAllow | apps/core/src/cleaner.rs:85-109 | Stops at the first ban whose removal fails (`FirstFaulty`) and fails exactly then. Each ban before it is removed and allowed, and gets one unban event with the snapshot's first configuration id (or "unknown"). |
| Cleaning.Cleaner.Cleanup | apps/core/src/cleaner.rs:58-112 | One cleanup has the effect `CleanupEffect` describes: stale matches swept first, then the expired bans removed, allowed and reported up to the first removal that fails. It fails exactly when the ledger does or such a removal fails. |
| Cleaning.Cleaner.Start | apps/core/src/cleaner.rs:34-56 | One cleanup per tick, at that tick's clock reading. Each tick goes from one state of the trace to the next as `CleanupEffect` describes, and a failing tick is logged and the loop goes on. |
| Cleaning.FirstFaulty | apps/core/src/cleaner.rs:85-87 | The first ban whose removal fails: every earlier removal goes through. |
| Cleaning.CleanupRemovesExpired | apps/core/src/cleaner.rs:78-109 | A cleanup that succeeds leaves no expired ban in the ledger. |
| Cleaning.CleanupOnlyRemoves | apps/core/src/cleaner.rs:58-112 | A cleanup only removes matches and bans and only appends unban reports. |
| Restore.RestoreBans | apps/core/src/restore.rs:10-68 | Every configuration whose listing works is listed exactly once; one whose listing fails is skipped and the others still run. The clock is read per configuration. Each stored ban is scanned once per key, with its configuration's ban time. The live ones whose address parses are denied again, and the counters are the restored and the expired bans. |
| Restore.RestoreEntries | apps/core/src/restore.rs:27-58 | The inner loop denies the live bans of one configuration and counts restored and expired ones. |
| Restore.DenyLiveKeepsChains | apps/core/src/restore.rs:40-57 | Restoring never creates or removes a chain. |
| Restore.RestoredCountExact | apps/core/src/restore.rs:40-57 | On a working firewall whose chain exists, the restored count is the number of live bans whose address parses. |
| Restore.CountsCoverScanned | apps/core/src/restore.rs:32-57 | Every scanned ban counts as expired or restorable at most once. When every address parses, each counts exactly once. |
| Restore.RestoreDeniesLive | apps/core/src/restore.rs:32-57 | A live ban with a parseable address has its deny rule in the chain afterwards. |
| Restore.RestoreAddsOnlyLive | apps/core/src/restore.rs:32-57 | A deny rule the restore adds belongs to some live ban. |
| Firewall.Firewall.Init | apps/core/src/firewall.rs:22-72 | Succeeds exactly on a working table where the link chain exists, or is the `banalize` chain itself. It leaves that chain empty and, for another link chain, jumped to from it. |
| Firewall.Firewall.Cleanup | apps/core/src/firewall.rs:75-103 | Always succeeds. It removes the jump and leaves the chain either deleted or empty. |
| Firewall.Firewall.DenyIp | apps/core/src/firewall.rs:106-126 | Adds the deny rule only when it is absent. The rule is then present exactly once (idempotent). |
| Firewall.Firewall.AllowIp | apps/core/src/firewall.rs:129-142 | Deletes one copy of the rule; a missing rule is an error. |
| Firewall.Firewall.DenyText | apps/core/src/file_watcher.rs:113 | The call passes address text where an `IpAddr` is expected. In the model's reading the text is parsed first, and text that does not parse fails without touching the firewall. |
| Firewall.Firewall.AllowText | apps/core/src/cleaner.rs:94 | The same reading, for allowing. |
| Firewall.DenyTwiceThenAllow | apps/core/src/firewall.rs:106-142 | Two denies and one allow of a new address leave no rule for it. |
| TaskQueue.InsertionIndex | apps/api/src/shared/services/queue.service.ts:24-25 | Every item before the index has a priority at most the new one, and the item at the index has a greater one. |
| TaskQueue.InsertKeepsOrder | apps/api/src/shared/services/queue.service.ts:24-26 | Inserting keeps a priority-ordered queue ordered. |
| TaskQueue.InsertAddsOne | apps/api/src/shared/services/queue.service.ts:26 | Exactly the new item is added, and the waiting items keep their order. |
| TaskQueue.InsertBehindEqual | apps/api/src/shared/services/queue.service.ts:24 | A new item goes behind every waiting item of equal priority (first in, first out). |
| TaskQueue.IndexIsUnique | apps/api/src/shared/services/queue.service.ts:24-25 | The two clauses of the scan determine the index. |
| TaskQueue.Throwing | apps/api/src/shared/services/queue.service.ts:40-44 | The failed items are handled items whose handler threw. |
| TaskQueue.ThrowingPositions | apps/api/src/shared/services/queue.service.ts:37-44 | The positions of the throwing items, increasing: all of them and no other. |
| TaskQueue.ThrowingInOrder | apps/api/src/shared/services/queue.service.ts:37-44 | The failed items are the throwing items, each once, in the order they were handled. |
| TaskQueue.QueueService.FindIndex | apps/api/src/shared/services/queue.service.ts:24-25 | The scan returns the insertion index. |
| TaskQueue.QueueService.Enqueue | apps/api/src/shared/services/queue.service.ts:18-29 | The item is spliced in by priority. When no drain is under way, the whole queue is then handed over in order. |
| TaskQueue.QueueService.TakeNext | apps/api/src/shared/services/queue.service.ts:37-44 | The front item is removed and handled, and recorded as failed when its handler throws. |
| TaskQueue.QueueService.ProcessQueue | apps/api/src/shared/services/queue.service.ts:31-48 | Nothing happens while a drain runs. Otherwise every waiting item is handled front first, the throwing ones are recorded, and the queue ends empty and idle. |
| IpMatch.IpToLong | apps/api/src/matches/services/match-event-handler.service.ts:157-161 | The result is always an unsigned 32-bit value. |
| IpMatch.IpToLongOfQuad | apps/api/src/matches/services/match-event-handler.service.ts:157-161 | Four decimal octets give their big-endian 32-bit value, including octets of 128 and above that `<<` makes negative. |
| IpMatch.IpToLongOfFormat | apps/api/src/matches/services/match-event-handler.service.ts:157-161 | Every address's canonical text converts to the address's own value. |
| IpMatch.MaskOfPrefix | apps/api/src/matches/services/match-event-handler.service.ts:166 | The mask `~((1 << (32 - bits)) - 1)`, read as unsigned 32 bits, is 2^32 minus the block size 2^((32 - bits) mod 32), because JavaScript takes shift counts modulo 32. |
| IpMatch.MaskedValue | apps/api/src/matches/services/match-event-handler.service.ts:167-169 | Masking a 32-bit value with that mask rounds it down to the start of its block. |
| IpMatch.CidrAsWritten | apps/api/src/matches/services/match-event-handler.service.ts:163-171 | For prefixes 1 to 32, `isIpInCidr` holds exactly when the network contains the address. A /0 prefix behaves like /32. |
| IpMatch.ZeroPrefixMatchesOnlyItself | apps/api/src/matches/services/match-event-handler.service.ts:165-166 | A /0 entry matches only its own address, not every address. |
| IpMatch.CidrIntended | apps/api/src/matches/services/match-event-handler.service.ts:163-171 | With the mask computed without JavaScript's modulo-32 shift, every prefix, /0 included, tests containment. |
| IpMatch.EntryAgrees | apps/api/src/matches/services/match-event-handler.service.ts:173-180 | For an entry in canonical form, the API's entry test matches exactly when the core's does. Canonical form means an address text, or an address text with a prefix of 1 to 32. |
| IpMatch.ListAgreesWithCore | apps/api/src/matches/services/match-event-handler.service.ts:173-180 | For lists of canonical entries, the API's and the core's ignore tests agree on every address. |
| JsNumbers.ToUint32 | apps/api/src/matches/services/match-event-handler.service.ts:160 | `>>> 0` lies in [0, 2^32) and keeps values already in range. |
| JsNumbers.ToInt32 | apps/api/src/matches/services/match-event-handler.service.ts:159 | The signed 32-bit reading lies in [-2^31, 2^31), agrees with ToUint32 modulo 2^32, and keeps values in range. |
| JsNumbers.ParseInt | apps/api/src/configs/utils/is-cidr-or-ip-validator.ts:28 | `parseInt` yields a number exactly when a digit follows the optional sign. |
| JsNumbers.ParseIntOfNat | apps/api/src/configs/utils/is-cidr-or-ip-validator.ts:28 | `parseInt` of a number's decimal text gives the number back. |
| JsNumbers.AndHighMask | apps/api/src/matches/services/match-event-handler.service.ts:167-169 | `&` with a mask of high bits rounds down to a multiple of the block size. |
| JsNumbers.ToInt32Injective | apps/api/src/matches/services/match-event-handler.service.ts:167-169 | Distinct unsigned 32-bit values stay distinct as signed ones, so comparing with `===` after `&` compares the blocks. |
| ApiTypes.CountFor | apps/api/src/matches/services/match-event-handler.service.ts:67-71 | The model's reading of `totalCount`, which `findAll` does not return: the number of stored matches of one configuration and one address. The count is zero exactly when there are none. |
| MatchEvents.StoreReports | apps/api/src/matches/services/match-event-handler.service.ts:133-146 | The completion always comes last. A ban request is reported exactly for a banned, non-ignored match, and nothing else is reported. |
| MatchEvents.MatchEventHandlerService.HandleMatchCreationRequested | apps/api/src/matches/services/match-event-handler.service.ts:27-36 | The cache check is enqueued at high priority. |
| MatchEvents.MatchEventHandlerService.HandleCacheAndImmediateCheck | apps/api/src/matches/services/match-event-handler.service.ts:43-102 | An ignored address only queues its storing. Otherwise the cache count is seeded on a miss and incremented, the firewall is asked to deny once per address at the threshold, and the storing is queued at medium priority with the outcome. |
| MatchEvents.MatchEventHandlerService.CreateMatch | apps/api/src/matches/services/match-event-handler.service.ts:105-147 | Both caches are cleared and the match is stored, then reported. A failing store reports nothing. |
| MatchEvents.BurstKeepsBanned | apps/api/src/matches/services/match-event-handler.service.ts:81-95 | Within a burst of checks, a banned address stays banned, and every denied address ends up banned. |
| MatchEvents.DeniedAtMostOnce | apps/api/src/matches/services/match-event-handler.service.ts:88-95 | Within a burst, each address is denied at most once, and never when it was already banned. |
| MatchEvents.BurstOfOneAddress | apps/api/src/matches/services/match-event-handler.service.ts:64-95 | For a burst of one address, the cache counts the stored matches plus the burst, and the firewall is asked to deny exactly when that count reaches the threshold. |
| MatchEvents.IgnoredNeverRequestsBan | apps/api/src/matches/services/match-event-handler.service.ts:52-61 | Storing an ignored match never requests a ban. |
| MatchEvents.StoreReseeds | apps/api/src/matches/services/match-event-handler.service.ts:105-121 | After a store, the count a later check seeds from includes the stored match. |
| LegacyMatchEvents.WindowCount | apps/api/src/matches/match-event-handler.service.ts:34-37 | The configuration's stored matches newer than the window start, from any address. The count is zero exactly when there are none. |
| LegacyMatchEvents.LegacyMatchEventHandler.HandleMatch | apps/api/src/matches/match-event-handler.service.ts:17-45 | The match is stored first. A ban of the matched address is requested exactly when the window count reaches `maxMatches`, and a failing store requests nothing. |
| LegacyMatchEvents.NewMatchCounts | apps/api/src/matches/match-event-handler.service.ts:24-37 | The just-stored match counts toward the window. |
| LegacyMatchEvents.WindowStartExcluded | apps/api/src/matches/match-event-handler.service.ts:36 | A match exactly at the window start is outside it (`timestamp_gt`). |
| LegacyMatchEvents.OtherAddressesCount | apps/api/src/matches/match-event-handler.service.ts:34-43 | With `maxMatches` two, one match of another address is enough to ban the current one. |
| BanEvents.CreateBanKeepsOneActive | apps/api/src/bans/services/ban-event-handler.service.ts:28-52 | After `createBan`, the (address, configuration) pair has exactly one active ban, given at most one before. |
| BanEvents.CreateBanIdempotent | apps/api/src/bans/services/ban-event-handler.service.ts:33-42 | A second request for the same pair changes nothing. |
| BanEvents.BanEventHandler.HandleBanCreationRequested | apps/api/src/bans/services/ban-event-handler.service.ts:19-26 | The ban creation is enqueued at high priority. |
| BanEvents.BanEventHandler.CreateBan | apps/api/src/bans/services/ban-event-handler.service.ts:28-52 | A ban is created only when the pair has no active one. In that case the firewall is asked to deny and the ban is reported; otherwise nothing is emitted. |
| BanEvents.Deactivated | apps/api/src/bans/ban-event-handler.service.ts:22-31 | Every active ban of the pair is set inactive, and nothing else changes. |
| BanEvents.HandleBanLeavesOneActive | apps/api/src/bans/ban-event-handler.service.ts:22-39 | The older handler leaves the new ban as the pair's only active one. |
| BanEvents.HandleBanKeepsOneActive | apps/api/src/bans/ban-event-handler.service.ts:22-39 | The older handler keeps "one active ban per pair". |
| BanEvents.LegacyBanEventHandler.HandleBan | apps/api/src/bans/ban-event-handler.service.ts:17-42 | The pair's active bans are deactivated and a ban with the configuration's ban time is created. The firewall is always asked to deny. |
| BanCleanup.ActiveBans | apps/api/src/bans/services/ban-cleanup.service.ts:28 | Exactly the active bans. |
| BanCleanup.BanCleanupService.HandleCron | apps/api/src/bans/services/ban-cleanup.service.ts:24-47 | Active bans are visited in order and each expired one gets unset, an unban request and a firewall allow. The sweep stops at a ban whose configuration is missing. |
| BanCleanup.BanCleanupService.Expire | apps/api/src/bans/services/ban-cleanup.service.ts:38-45 | One ban is unset, then the unban and the allow are emitted, in that order. |
| BanCleanup.LegacyBanCleanupService.HandleCron | apps/api/src/bans/ban-cleanup.service.ts:17-41 | Each ban expired under its own ban time is unset, and the address is allowed only when no active ban of it remains. |
| BanCleanup.SweepsOnlyDeactivate | apps/api/src/bans/services/ban-cleanup.service.ts:31-46 | Both sweeps only switch bans off: no ban is created, removed or reactivated. |
| BanCleanup.NewerSweepEffect | apps/api/src/bans/services/ban-cleanup.service.ts:24-47 | The sweep completes exactly when every snapshot ban's configuration is stored. A complete sweep leaves every expired snapshot ban inactive. Any ban that no expired snapshot entry names is unchanged. |
| BanCleanup.LegacySweepEffect | apps/api/src/bans/ban-cleanup.service.ts:17-41 | Every snapshot ban expired under its own ban time is inactive afterwards, and every other ban is unchanged. |
| BanCleanup.NewerSweepSound | apps/api/src/bans/services/ban-cleanup.service.ts:34-45 | Every unban and allow the sweep emits belongs to an expired ban of the snapshot. |
| BanCleanup.LegacyAllowOnlyWhenClear | apps/api/src/bans/ban-cleanup.service.ts:35-39 | An allow is emitted only for an address left with no active ban. |
| BanCleanup.SweepsDifferOnSharedAddress | apps/api/src/bans/ban-cleanup.service.ts:35-39 | When an address is banned under two configurations and only one ban expires, the newer sweep allows the address while the older one keeps it denied. |
| ApiFirewall.Without | apps/api/src/firewall/iptables-firewall.service.ts:61 | `filter` keeps exactly the entries other than the address, adds none, and keeps a duplicate-free list duplicate-free. |
| ApiFirewall.WithoutAppend | apps/api/src/firewall/iptables-firewall.service.ts:61 | `filter` distributes over concatenation, so the kept entries stay in their order. |
| ApiFirewall.WithoutAbsent | apps/api/src/firewall/iptables-firewall.service.ts:61 | An address that is not listed leaves the list as it was. |
| ApiFirewall.DenyThenAllow | apps/api/src/firewall/iptables-firewall.service.ts:47-62 | Allowing an address that a deny has just added gives the list back. |
| ApiFirewall.CommandsDistinct | apps/api/src/firewall/iptables-firewall.service.ts:50-58 | Deny and allow commands never coincide, and each command names its address alone. |
| ApiFirewall.IptablesFirewallService.constructor | apps/api/src/firewall/iptables-firewall.service.ts:19 | The link chain is `BANALIZE_API_FIREWALL_CHAIN`, or INPUT when it is unset. |
| ApiFirewall.IptablesFirewallService.OnModuleInit | apps/api/src/firewall/iptables-firewall.service.ts:35-45 | The create, link and flush commands are issued in that order and readiness is reported. |
| ApiFirewall.IptablesFirewallService.OnModuleDestroy | apps/api/src/firewall/iptables-firewall.service.ts:26-33 | The flush, unlink and delete commands are issued and the list is emptied. |
| ApiFirewall.IptablesFirewallService.DenyIp | apps/api/src/firewall/iptables-firewall.service.ts:47-53 | A new address gets one reject command and is listed once; a listed address changes nothing. |
| ApiFirewall.IptablesFirewallService.AllowIp | apps/api/src/firewall/iptables-firewall.service.ts:55-62 | A listed address gets one delete command and leaves the list; an unlisted one changes nothing. |
| ApiFirewall.FirewallCleanupService.OnFirewallDeny | apps/api/src/firewall/firewall-cleanup.service.ts:15-18 | The address is tracked once. |
| ApiFirewall.FirewallCleanupService.OnFirewallAllow | apps/api/src/firewall/firewall-cleanup.service.ts:20-23 | Every copy of the address is forgotten. |
| ApiFirewall.FirewallCleanupService.OnModuleDestroy | apps/api/src/firewall/firewall-cleanup.service.ts:25-31 | Every tracked address is allowed. None stays rejected, and one delete command is issued per tracked address the firewall still listed. |
| ApiWatcherManagement.LaunchAll | apps/api/src/watchers/services/watcher-manager.service.ts:78-87 | One new watcher per stored configuration, in order. |
| ApiWatcherManagement.StatusOf | apps/api/src/watchers/services/watcher-manager.service.ts:37-54 | The status has one entry per configuration id in the list. |
| ApiWatcherManagement.LastWatcherWins | apps/api/src/watchers/services/watcher-manager.service.ts:37-54 | When several watchers share an id, the status shows the last of them. |
| ApiWatcherManagement.WatcherManagerService.StartWatchers | apps/api/src/watchers/services/watcher-manager.service.ts:78-87 | A watcher is appended per stored configuration. |
| ApiWatcherManagement.WatcherManagerService.OnModuleDestroy | apps/api/src/watchers/services/watcher-manager.service.ts:33-35 | Every watcher is stopped. |
| ApiWatcherManagement.WatcherManagerService.HandleConfigAdded | apps/api/src/watchers/services/watcher-manager.service.ts:56-62 | One watcher is launched and appended. |
| ApiWatcherManagement.WatcherManagerService.HandleConfigChanged | apps/api/src/watchers/services/watcher-manager.service.ts:64-76 | On removal or update, every watcher is stopped but kept, and fresh ones are appended for the stored configurations. |
| ApiWatcherManagement.ChangeKeepsStoppedWatchers | apps/api/src/watchers/services/watcher-manager.service.ts:64-76 | After a change, the old watchers remain in the list, stopped. |
| ApiWatcherManagement.StatusAfterChange | apps/api/src/watchers/services/watcher-manager.service.ts:37-87 | After a change, a stored configuration shows its fresh watcher: INIT, no lines, no error. A removed configuration that had a watcher still shows, as stopped. |
| ApiWatcherManagement.StatusErrorText | apps/api/src/watchers/services/watcher-manager.service.ts:37-54 | A configuration's status carries its last watcher's error message when that error has one, and no error text otherwise. |
| CidrValidator.ValidateMeans | apps/api/src/configs/utils/is-cidr-or-ip-validator.ts:15-43 | A value is accepted exactly when it is an array and each item is a quad of octets 0..255, alone or followed by a prefix length 0..32 of one or two digits. |
| CidrValidator.ItemValidMeans | apps/api/src/configs/utils/is-cidr-or-ip-validator.ts:18-42 | An item is valid exactly when it is quad-shaped with octets at most 255, optionally followed by a one- or two-digit prefix of at most 32. |
| CidrValidator.QuadParses | apps/api/src/configs/utils/is-cidr-or-ip-validator.ts:25-33 | The `parseInt` range test of the four groups is the numeric test on their digits. |
| CidrValidator.RenderedAddressValid | apps/api/src/configs/utils/is-cidr-or-ip-validator.ts:18-42 | Every address's canonical text is accepted. |
| CidrValidator.RenderedNetworkValid | apps/api/src/configs/utils/is-cidr-or-ip-validator.ts:18-42 | Every network's canonical CIDR text is accepted. |
| CidrValidator.OneBadItemRejects | apps/api/src/configs/utils/is-cidr-or-ip-validator.ts:18 | One invalid item rejects the whole list. |
| CidrValidator.LowestAddressAccepted | apps/api/src/configs/utils/is-cidr-or-ip-validator.ts:19-33 | `0.0.0.0` is accepted. |
| CidrValidator.ZeroPrefixAccepted | apps/api/src/configs/utils/is-cidr-or-ip-validator.ts:34-39 | `/0` is accepted. |
| CidrValidator.FullPrefixAccepted | apps/api/src/configs/utils/is-cidr-or-ip-validator.ts:34-39 | `/32` is accepted. |
| CidrValidator.Prefix33Rejected | apps/api/src/configs/utils/is-cidr-or-ip-validator.ts:36 | `/33` is rejected. |
| CidrValidator.LargeFirstOctetRejected | apps/api/src/configs/utils/is-cidr-or-ip-validator.ts:26-33 | A first group above 255 is rejected. |
| CidrValidator.Octet256Rejected | apps/api/src/configs/utils/is-cidr-or-ip-validator.ts:26-33 | `256.0.0.1` is rejected. |
| CidrValidator.PaddedGroupRefusedByCore | apps/core/src/ip_utils.rs:5-8 | A quad with a zero-padded group is not an address to the core. |
| CidrValidator.ZeroPaddedAcceptedHereOnly | apps/api/src/configs/utils/is-cidr-or-ip-validator.ts:19-33 | `01.2.3.4` passes the validator but is not an address to the core, so such an ignore entry never matches there. |
| WebEvents.BanEvent | apps/web/lib/events.ts:38-47 | A ban becomes a "ban" event with the ban's time. Its details are "active" exactly when the ban is active. |
| WebEvents.MatchEvent | apps/web/lib/events.ts:49-62 | A match becomes a "match" event. Its details are "recent" exactly when the match is newer than the find window. |
| WebEvents.UnbanEvent | apps/web/lib/events.ts:64-70 | An unban becomes an "unbanned" event with its time. |
| WebEvents.GetEvents | apps/web/lib/events.ts:22-36 | The timeline is newest first and is a permutation of the mapped records. |
| WebEvents.JoinedConsistent | apps/web/lib/events.ts:28-32 | Every event carries its record's type and time. |
| WebEvents.JoinedHasEveryRecord | apps/web/lib/events.ts:28-32 | Every ban, match and unban appears as an event. |
| WebEvents.GetEventsComplete | apps/web/lib/events.ts:22-36 | The sorted timeline has every record and as many events as records. |
| Breadcrumbs.NonEmpty | apps/web/components/shared/RouterBreadcrumbs/RouterBreadcrumbs.tsx:17-19 | Only non-empty pieces, each of the input's non-empty pieces, and the input itself when it has no empty piece. |
| Breadcrumbs.NonEmptyConcat | apps/web/components/shared/RouterBreadcrumbs/RouterBreadcrumbs.tsx:17-19 | Filtering keeps order and multiplicity: the filter of a concatenation is the concatenation of the filters. |
| Breadcrumbs.NonEmptyOne | apps/web/components/shared/RouterBreadcrumbs/RouterBreadcrumbs.tsx:17-19 | A single piece is kept exactly when it is not empty. |
| Breadcrumbs.Crumbs | apps/web/components/shared/RouterBreadcrumbs/RouterBreadcrumbs.tsx:20-32 | One crumb per segment. |
| Breadcrumbs.LastCrumb | apps/web/components/shared/RouterBreadcrumbs/RouterBreadcrumbs.tsx:21-28 | The last crumb's title is the last segment, its link extends the previous link (or is `/segment` alone), and its enabled flag follows the raw piece count. |
| Breadcrumbs.CrumbsMeaning | apps/web/components/shared/RouterBreadcrumbs/RouterBreadcrumbs.tsx:20-32 | That holds for every crumb. |
| Breadcrumbs.HrefChain | apps/web/components/shared/RouterBreadcrumbs/RouterBreadcrumbs.tsx:25-27 | Crumb i links to '/' followed by the first i+1 segments joined by '/'. |
| Breadcrumbs.HrefSplitsBack | apps/web/components/shared/RouterBreadcrumbs/RouterBreadcrumbs.tsx:25-27 | Splitting a crumb's link gives back the path's first segments. |
| Breadcrumbs.OnlyLastDisabled | apps/web/components/shared/RouterBreadcrumbs/RouterBreadcrumbs.tsx:28 | For a path with no empty pieces, only the last crumb is not a link. |
| Breadcrumbs.TrailingSlashEnablesAll | apps/web/components/shared/RouterBreadcrumbs/RouterBreadcrumbs.tsx:28 | With a trailing '/', every crumb is a link, the last included. |
| Breadcrumbs.NonEmptyDropsTrailing | apps/web/components/shared/RouterBreadcrumbs/RouterBreadcrumbs.tsx:17-19 | A trailing empty piece does not change the segments. |
| Breadcrumbs.RootHasNoCrumbs | apps/web/components/shared/RouterBreadcrumbs/RouterBreadcrumbs.tsx:16-33 | The empty path and "/" give no crumbs. |

## Behaviour the model exhibits

These follow from the code as written, and the model reproduces them.

- **/0 prefixes in the API's match handler.** `isIpInCidr` computes the
  mask as `~((1 << (32 - bits)) - 1)`. JavaScript takes shift counts modulo
  32, so for /0 the mask is all ones, and a /0 entry matches only its own
  address, not every address
  (`IpMatch.ZeroPrefixMatchesOnlyItself`). The core's `ipnet` test treats
  /0 as everything. `IpMatch.CidrIntended` proves that a mask of zero for
  /0 would give containment for every prefix. The handler keeps the as-written test.
- **Zero-padded groups.** The ignore-list validator accepts `01.2.3.4`, but
  Rust's parser refuses such text. The entry is stored and then never
  matches in the core (`CidrValidator.ZeroPaddedAcceptedHereOnly`).
- **Config-wide threshold.** The older Rust watcher and the older API match
  handler count every match of the configuration, not just those of the
  address. One match of a second address can therefore ban the first
  offender (`Watching.ConfigWideBansFirstOffender`,
  `LegacyMatchEvents.OtherAddressesCount`).
- **Unban tags.** The cleaner tags every unban with the first configuration
  id of its snapshot, whatever configuration the ban belonged to.
- **Trailing slash.** A route path with a trailing '/' makes every
  breadcrumb a link, the last included
  (`Breadcrumbs.TrailingSlashEnablesAll`).
- **Removed configurations in the status.** The API watcher manager never
  drops stopped watchers, so a removed configuration keeps appearing in the
  status as stopped (`ApiWatcherManagement.StatusAfterChange`).

## Left out

- I/O, the clock, randomness and threads. Files, sled persistence, shell
  commands and the `regex` crate are not modelled. The clock is a `now`
  parameter, and a pattern's compilation and leftmost match are an `Engine`
  parameter. Tokio tasks, locks, `spawn_blocking` and the NestJS event loop
  are modelled as sequential calls.
- IPv6. The address parser is IPv4 only. An IPv6 text parses as nothing,
  and a key holding one is unparsable (`LedgerKeys.ColonInAddressUnparsable`).
- Regex.IsWordChar: `\b` uses ASCII word characters, while the `regex`
  crate's default `\b` is Unicode-aware. The same holds for `\d` in
  `IP_REGEX` (`ip_extract.rs`, `config.rs`): the crate matches any Unicode
  decimal digit, while the model's digit class is ASCII `0`-`9`.
- IpExtract.IpExtractor.ExtractIp: requires that a pattern not yet cached
  compiles. The source panics (`expect`) on a pattern that does not.
- WatcherManagement.WatcherManager.StartWatcher: `Config::validate` is not
  part of this model, so its outcome is a parameter.
- The signatures of the ledger calls. `file_watcher.rs` and `cleaner.rs`
  call `add_ban(ip, ts)`, `remove_old_matches`, `get_expired_bans` and
  `remove_ban(ip, ts)`, which `database.rs` does not define in this form.
  They are modelled as `CoreDatabase` methods over the same trees, keyed by
  the configuration id the caller has.
- The `QueuePriority` enum file is not part of this model. HIGH is taken to
  come before MEDIUM, and only their order matters.
- TaskQueue.QueueService.ProcessQueue: handlers run to completion one at a
  time. Interleaving at `await` points is not modelled.
- MatchEvents.MatchEventHandlerService: a failing store is returned as
  `ok == false` and not rethrown into the queue's drain. The drain only
  logs it in any case.
- ApiFirewall.IptablesFirewallService.OnModuleInit: the `FIREWALL_READY`
  event is emitted at once rather than after the one-second timer.
- ApiWatcherManagement: watchers are values, so there is no aliasing. They
  start in INIT, and the asynchronous settling to RUNNING or ERROR is not
  modelled. The watcher factory's throw on an unknown type, and the file
  and docker watchers themselves, are not part of this model.
- The ufw firewall service, the notification services, the statistics, the
  controllers and the DTOs are outside the modelled core.
- WebEvents.GetEvents: the order of events with equal timestamps is not
  stated. `Array.prototype.sort` is stable, but the model's sort is only
  proved ordered and a permutation.
- CoreLedger.CoreDatabase.GetAllMatches and CoreLedger.CoreDatabase.GetAllBans:
  the order of records with equal timestamps is not stated. `sort_by` is
  stable and keeps the tree's key order among them, but the model's sort
  is only proved ordered and a permutation.
- Firewall.Firewall.DenyText and Firewall.Firewall.AllowText:
  `file_watcher.rs` and `cleaner.rs` pass address text to
  `deny_ip_sync`/`allow_ip_sync`, which take an `IpAddr`, so the calls do
  not type-check as written. The model reads them as parsing the text
  first. A text that does not parse fails and leaves the firewall alone.
- Watching.Watcher.HandleLine: `watcher.rs` calls a free `extract_ip(regex,
  line)` that no file in the core defines. The model reads it as the
  extraction through the configuration's final pattern (`IpExtract.Extracted`),
  without the extractor's pattern cache, followed by the address parse
  the source's `ip` type implies.
- Cleaning.Cleaner.ExpireBans: the order in which the expired bans are
  visited is left open (`processed`), like the first key of the snapshot
  map. The source takes them in the tree's key order.
- Breadcrumbs: rendering is not modelled, only the crumbs
  `generateBreadcrumbs` returns.
- MatchEvents.MatchEventHandlerService.HandleCacheAndImmediateCheck,
  LegacyMatchEvents.LegacyMatchEventHandler.HandleMatch,
  BanEvents.BanEventHandler.CreateBan, BanEvents.LegacyBanEventHandler.HandleBan,
  BanCleanup.BanCleanupService.HandleCron and
  BanCleanup.LegacyBanCleanupService.HandleCron: a rejected store read or
  write is not modelled. In the source each one throws out of the handler
  and skips the rest of it. In the model the match counts and every ban
  store call always succeed. Only the match store's `create` can fail.
- BanCleanup.LegacyBanCleanupService.HandleCron: `ban-cleanup.service.ts`
  calls `findActiveBans()` and `findActiveBansByIp(ip)`, which
  `bans.service.ts` does not define. As written the older sweep throws on
  its first call. The model reads them as "the active bans"
  (`BanCleanup.ActiveBans`) and "the active bans of the address"
  (`ApiTypes.HasActiveForIp`).
- JsNumbers.NumberOf and JsNumbers.ParseInt: leading and trailing white
  space, `Number`'s hexadecimal, octal and binary prefixes, `Infinity` and
  exponents, and `parseInt`'s `0x` prefix are not modelled. The texts the
  services convert are fields of dotted-decimal addresses and CIDR prefix
  lengths, where only digits are expected. A field in one of those forms
  reads as NaN in the model.
- ApiTypes.CountFor and MatchEvents.MatchEventHandlerService.HandleCacheAndImmediateCheck:
  on a cache miss the handler destructures `totalCount` from
  `MatchesService.findAll`, which returns an array of records with no such
  field. As written the cached count is `undefined`, then NaN after the
  increment. NaN is falsy, so every call misses again, the threshold test
  is always false, and the cache check never denies. The model reads
  `totalCount` as the number of stored matches of the configuration and
  the address (`CountFor`).
