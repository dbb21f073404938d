/** `apps/core/src/watcher.rs`: the older per-configuration watcher over
    the single-tree ledger. Each line's address is recorded and reported;
    a ban follows once the configuration's stored matches reach
    `max_matches` and no ban of that address is stored for it. */
module Watching {
  import opened Wrappers
  import opened Ints
  import opened Strings
  import opened Regex
  import opened Ipv4
  import opened IpUtils
  import opened IpExtract
  import opened LedgerKeys
  import opened Configuration
  import opened SledLedger
  import opened Firewall

  /** `events::Event`. */
  datatype Event =
    | Match(configId: string, ip: string, timestamp: u64)
    | Ban(configId: string, ip: string, timestamp: u64)
    | Unban(configId: string, ip: string, timestamp: u64)

  /** What the line source yields on one turn of the loop. */
  datatype Step = Shutdown | Line(text: string, now: u64) | NoLine | ReadError

  /** One ignore entry as a network: CIDR text as written, a bare address
      as its /32, anything else dropped. */
  function NetOf(entry: string): Option<Net>
  {
    if ParseNet(entry).Some? then ParseNet(entry)
    else if ParseAddr(entry).Some? then Some(Net(ParseAddr(entry).value, 32))
    else None
  }

  /** The networks built from the ignore list, in list order. */
  function IgnoreNets(entries: seq<string>): seq<Net>
  {
    if |entries| == 0 then []
    else (if NetOf(entries[0]).Some? then [NetOf(entries[0]).value] else []) + IgnoreNets(entries[1..])
  }

  predicate AnyNetContains(nets: seq<Net>, a: Addr)
  {
    exists i :: 0 <= i < |nets| && Ipv4.Contains(nets[i], a)
  }

  /** The as-written ban threshold: the number of match records stored
      for the whole configuration, every address and every time. */
  predicate ConfigWideThreshold(db: set<string>, configId: string, maxMatches: u32)
  {
    |ReportedKeys(db, ConfigPrefix(MATCH_KIND, configId))| >= maxMatches
  }

  /** The ban decision as written, once the match is stored in `db`. */
  predicate BansAsWritten(db: set<string>, configId: string, a: Addr, maxMatches: u32)
  {
    ConfigWideThreshold(db, configId, maxMatches) && !BanPrefixPresent(db, configId, a)
  }

  /** The threshold as intended: only the matches of the address itself. */
  predicate PerAddressThreshold(db: set<string>, configId: string, a: Addr, maxMatches: u32)
  {
    |ReportedKeys(db, AddressPrefix(MATCH_KIND, configId, FormatAddr(a)))| >= maxMatches
  }

  /** The ban decision as intended. */
  predicate BansPerAddress(db: set<string>, configId: string, a: Addr, maxMatches: u32)
  {
    PerAddressThreshold(db, configId, a, maxMatches) && !BanPrefixPresent(db, configId, a)
  }

  /** The index of the first shutdown signal, or the length when none. */
  function FirstShutdown(steps: seq<Step>): (n: nat)
    ensures n <= |steps|
    ensures forall i :: 0 <= i < n ==> !steps[i].Shutdown?
    ensures n < |steps| ==> steps[n].Shutdown?
  {
    if |steps| == 0 then 0
    else if steps[0].Shutdown? then 0
    else 1 + FirstShutdown(steps[1..])
  }

  /** The address the watcher acts on for a line: the extracted text,
      parsed as an address. */
  function LineAddress(engine: Engine, config: Config, line: string): Option<Addr>
  {
    match Extracted(engine, config.regex, line)
    case None => None
    case Some(text) => ParseAddr(text)
  }

  /** What the watcher's calls change: the ledger's keys, the firewall's
      chains and the events emitted. */
  datatype WatchState = WatchState(db: set<string>, chains: map<string, seq<string>>, emitted: seq<Event>)

  /** What the watcher's calls depend on and do not change: its
      configuration, the pattern engine, its ignore networks, and how the
      ledger and the firewall fail. */
  datatype Setting = Setting(config: Config, engine: Engine, ignoreNets: seq<Net>,
                             failing: bool, scanFaults: set<string>, writeFaults: set<string>,
                             broken: bool)

  /** Whether the ledger's insert of `key` fails. */
  predicate WriteFaulty(w: Setting, key: string)
  {
    w.failing || key in w.writeFaults
  }

  /** The effect of `handle_line` at clock reading `now`. A line without
      an address, an ignored address or a failed match write changes
      nothing. Otherwise the match is stored and reported. A ban is
      attempted when the configuration's listing works, the stored matches
      reach `max_matches` (`BansAsWritten`) and the scan for an existing
      ban finds none. It stores the ban key, denies and reports the ban,
      unless the ban key's write fails, in which case it does nothing. */
  function AfterLine(w: Setting, s: WatchState, line: string, now: u64): WatchState
  {
    var addr := LineAddress(w.engine, w.config, line);
    if addr.None? || AnyNetContains(w.ignoreNets, addr.value)
       || WriteFaulty(w, MakeKey(MATCH_KIND, w.config.id, FormatAddr(addr.value), now)) then s
    else
      var a := addr.value;
      AfterBanCheck(w, WatchState(s.db + {MakeKey(MATCH_KIND, w.config.id, FormatAddr(a), now)}, s.chains,
                                  s.emitted + [Match(w.config.id, FormatAddr(a), now)]), a, now)
  }

  /** The ban check that follows a stored match of `a`: when the
      configuration's listing works, the stored matches reach
      `max_matches`, the scan for a ban of `a` finds none and the ban key's
      write goes through, the ban key is stored, `a` denied and the ban
      reported; otherwise nothing changes. */
  function AfterBanCheck(w: Setting, s: WatchState, a: Addr, now: u64): WatchState
  {
    var bans := ConfigPrefix(MATCH_KIND, w.config.id) !in w.scanFaults
                && AddressPrefix(BAN_KIND, w.config.id, FormatAddr(a)) !in w.scanFaults
                && BansAsWritten(s.db, w.config.id, a, w.config.maxMatches)
                && !WriteFaulty(w, MakeKey(BAN_KIND, w.config.id, FormatAddr(a), now));
    if bans then
      WatchState(s.db + {MakeKey(BAN_KIND, w.config.id, FormatAddr(a), now)},
                 AfterDeny(s.chains, w.broken, a),
                 s.emitted + [Ban(w.config.id, FormatAddr(a), now)])
    else s
  }

  /** The steps of `steps` taken one after another: a line is handled,
      anything else changes nothing. */
  function AfterSteps(w: Setting, s: WatchState, steps: seq<Step>): WatchState
  {
    if |steps| == 0 then s
    else
      var before := AfterSteps(w, s, steps[..|steps| - 1]);
      var last := steps[|steps| - 1];
      if last.Line? then AfterLine(w, before, last.text, last.now) else before
  }

  /** Handling lines only adds keys and events. */
  lemma {:induction false} StepsOnlyAdd(w: Setting, s: WatchState, steps: seq<Step>)
    ensures s.db <= AfterSteps(w, s, steps).db && s.emitted <= AfterSteps(w, s, steps).emitted
  {
    if |steps| > 0 {
      StepsOnlyAdd(w, s, steps[..|steps| - 1]);
    }
  }

  /** Handling one line emits only events for that line's address,
      stamped with its clock reading. */
  lemma LineEvents(w: Setting, s: WatchState, line: string, now: u64, i: nat)
    requires |s.emitted| <= i < |AfterLine(w, s, line, now).emitted|
    ensures LineAddress(w.engine, w.config, line).Some?
    ensures AfterLine(w, s, line, now).emitted[i].ip == FormatAddr(LineAddress(w.engine, w.config, line).value)
    ensures AfterLine(w, s, line, now).emitted[i].timestamp == now
  {
  }

  /** When the match is written but the ban key's write fails, the match
      stays stored and reported, and there is neither a deny nor a Ban
      event. */
  lemma BanWriteFaultKeepsMatch(w: Setting, s: WatchState, line: string, now: u64, a: Addr)
    requires LineAddress(w.engine, w.config, line) == Some(a) && !AnyNetContains(w.ignoreNets, a)
    requires !WriteFaulty(w, MakeKey(MATCH_KIND, w.config.id, FormatAddr(a), now))
    requires WriteFaulty(w, MakeKey(BAN_KIND, w.config.id, FormatAddr(a), now))
    ensures AfterLine(w, s, line, now)
            == WatchState(s.db + {MakeKey(MATCH_KIND, w.config.id, FormatAddr(a), now)}, s.chains,
                          s.emitted + [Match(w.config.id, FormatAddr(a), now)])
  {
  }

  /** Every event emitted while handling `steps` is for an address some
      line of `steps` names, and is stamped with that line's clock
      reading. */
  lemma {:induction false} EventsFromLines(w: Setting, s: WatchState, steps: seq<Step>, i: nat)
    requires |s.emitted| <= i < |AfterSteps(w, s, steps).emitted|
    ensures exists j :: 0 <= j < |steps| && FromLine(w, steps[j], AfterSteps(w, s, steps).emitted[i])
  {
    var prefix := steps[..|steps| - 1];
    var before := AfterSteps(w, s, prefix);
    var last := steps[|steps| - 1];
    var after := AfterSteps(w, s, steps);
    assert after == if last.Line? then AfterLine(w, before, last.text, last.now) else before;
    StepsOnlyAdd(w, s, prefix);
    if i < |before.emitted| {
      EventsFromLines(w, s, prefix, i);
      var j :| 0 <= j < |prefix| && FromLine(w, prefix[j], before.emitted[i]);
      assert prefix[j] == steps[j];
      if last.Line? {
        assert after.emitted[i] == before.emitted[i];
      }
    } else {
      LineEvents(w, before, last.text, last.now, i);
      assert FromLine(w, steps[|steps| - 1], after.emitted[i]);
    }
  }

  /** `e` is an event for the address `step`'s line names, at its clock
      reading. */
  predicate FromLine(w: Setting, step: Step, e: Event)
  {
    step.Line? && LineAddress(w.engine, w.config, step.text).Some?
    && e.ip == FormatAddr(LineAddress(w.engine, w.config, step.text).value)
    && e.timestamp == step.now
  }

  class Watcher {
    const config: Config
    const sled: SledDatabase
    const firewall: Firewall
    const engine: Engine
    const ignoreNets: seq<Net>
    /** Everything emitted, oldest first. */
    var emitted: seq<Event>

    /** `new`: parses the ignore list once; never fails. */
    constructor (config: Config, sled: SledDatabase, firewall: Firewall, engine: Engine)
      ensures this.config == config && this.sled == sled && this.firewall == firewall && this.engine == engine
      ensures ignoreNets == IgnoreNets(config.ignoreIps) && emitted == []
    {
      this.config := config;
      this.sled := sled;
      this.firewall := firewall;
      this.engine := engine;
      var nets: seq<Net> := [];
      var i := |config.ignoreIps|;
      while i > 0
        invariant 0 <= i <= |config.ignoreIps|
        invariant nets == IgnoreNets(config.ignoreIps[i..])
      {
        i := i - 1;
        var entry := config.ignoreIps[i];
        assert config.ignoreIps[i..][1..] == config.ignoreIps[i + 1..];
        var net := NetOf(entry);
        if net.Some? {
          nets := [net.value] + nets;
        }
      }
      ignoreNets := nets;
      emitted := [];
    }

    ghost function Fixed(): Setting
      reads this, sled, firewall, firewall.ipt
    {
      Setting(config, engine, ignoreNets, sled.failing, sled.scanFaults, sled.writeFaults, firewall.ipt.broken)
    }

    ghost function State(): WatchState
      reads this, sled, firewall, firewall.ipt
    {
      WatchState(sled.db, firewall.ipt.chains, emitted)
    }

    /** `should_ignore_ip`: some ignore network contains the address. */
    method ShouldIgnoreIp(a: Addr) returns (r: bool)
      ensures r <==> AnyNetContains(ignoreNets, a)
    {
      var i := 0;
      while i < |ignoreNets|
        invariant 0 <= i <= |ignoreNets|
        invariant forall j :: 0 <= j < i ==> !Ipv4.Contains(ignoreNets[j], a)
      {
        if Ipv4.Contains(ignoreNets[i], a) {
          return true;
        }
        i := i + 1;
      }
      r := false;
    }

    /** `ban_ip`: the ban is stored first; when that fails, nothing else
        happens. A firewall failure is ignored and the ban reported. */
    method BanIp(a: Addr, timestamp: u64) returns (r: Outcome)
      modifies sled`db, firewall.ipt`chains, this`emitted
      ensures r.Fail? <==> sled.WriteFails(MakeKey(BAN_KIND, config.id, FormatAddr(a), timestamp))
      ensures sled.db == if r.Fail? then old(sled.db) else old(sled.db) + {MakeKey(BAN_KIND, config.id, FormatAddr(a), timestamp)}
      ensures firewall.ipt.chains == if r.Fail? then old(firewall.ipt.chains)
                                     else AfterDeny(old(firewall.ipt.chains), firewall.ipt.broken, a)
      ensures emitted == old(emitted) + (if r.Fail? then [] else [Ban(config.id, FormatAddr(a), timestamp)])
    {
      r := sled.Add(BAN_KIND, config.id, a, timestamp);
      if r.Fail? {
        return;
      }
      var _ := firewall.DenyIp(a);
      emitted := emitted + [Ban(config.id, FormatAddr(a), timestamp)];
    }

    /** `handle_line` at clock reading `now`: a failed match write is the
        only error. */
    method HandleLine(line: string, now: u64) returns (r: Outcome)
      modifies sled`db, firewall.ipt`chains, this`emitted
      ensures r.Fail? <==> LineAddress(engine, config, line).Some?
                           && !AnyNetContains(ignoreNets, LineAddress(engine, config, line).value)
                           && sled.WriteFails(MakeKey(MATCH_KIND, config.id, FormatAddr(LineAddress(engine, config, line).value), now))
      ensures State() == AfterLine(Fixed(), old(State()), line, now)
    {
      var text := Extracted(engine, config.regex, line);
      if text.None? {
        return Pass;
      }
      var parsed := ParseAddr(text.value);
      if parsed.None? {
        return Pass;
      }
      var a := parsed.value;
      var ignored := ShouldIgnoreIp(a);
      if ignored {
        return Pass;
      }
      var added := sled.Add(MATCH_KIND, config.id, a, now);
      if added.Fail? {
        return Fail("Failed to add match");
      }
      emitted := emitted + [Match(config.id, FormatAddr(a), now)];
      CheckBan(a, now);
      r := Pass;
    }

    /** The ban check of `handle_line` after the match of `a` is stored: a
        failed listing or ban scan, or a count below `max_matches`, ends
        it; a failed ban is logged and ignored. */
    method CheckBan(a: Addr, now: u64)
      modifies sled`db, firewall.ipt`chains, this`emitted
      ensures State() == AfterBanCheck(Fixed(), old(State()), a, now)
    {
      var matches := sled.GetForConfig(MATCH_KIND, config.id);
      if matches.Ok? && |matches.value| >= config.maxMatches as int {
        var banned := sled.IsBanned(config.id, a);
        if !banned.value {
          var _ := BanIp(a, now);
        }
      }
    }

    /** `run` over the steps the line source yields: a source that cannot
        be opened ends the call at once; otherwise lines are handled, their
        errors ignored, until the first shutdown signal. Returns the number
        of steps consumed. */
    method Run(sourceOpen: bool, steps: seq<Step>) returns (consumed: nat)
      modifies sled`db, firewall.ipt`chains, this`emitted
      ensures consumed == if sourceOpen then FirstShutdown(steps) else 0
      ensures State() == AfterSteps(Fixed(), old(State()), steps[..consumed])
      ensures old(emitted) <= emitted
      ensures !sourceOpen || sled.failing ==> sled.db == old(sled.db)
      ensures !sourceOpen ==> emitted == old(emitted) && firewall.ipt.chains == old(firewall.ipt.chains)
    {
      consumed := 0;
      if !sourceOpen {
        return;
      }
      while consumed < |steps| && !steps[consumed].Shutdown?
        invariant consumed <= FirstShutdown(steps)
        invariant State() == AfterSteps(Fixed(), old(State()), steps[..consumed])
        invariant old(emitted) <= emitted
        invariant sled.failing ==> sled.db == old(sled.db)
        decreases |steps| - consumed
      {
        assert steps[..consumed + 1][..consumed] == steps[..consumed];
        if steps[consumed].Line? {
          var _ := HandleLine(steps[consumed].text, steps[consumed].now);
        }
        consumed := consumed + 1;
      }
    }
  }

  lemma AnyNetContainsConcat(x: seq<Net>, y: seq<Net>, a: Addr)
    ensures AnyNetContains(x + y, a) <==> AnyNetContains(x, a) || AnyNetContains(y, a)
  {
    if AnyNetContains(x, a) {
      var i :| 0 <= i < |x| && Ipv4.Contains(x[i], a);
      assert (x + y)[i] == x[i];
    }
    if AnyNetContains(y, a) {
      var i :| 0 <= i < |y| && Ipv4.Contains(y[i], a);
      assert (x + y)[|x| + i] == y[i];
    }
    if AnyNetContains(x + y, a) {
      var i :| 0 <= i < |x + y| && Ipv4.Contains((x + y)[i], a);
      if i >= |x| {
        assert y[i - |x|] == (x + y)[i];
      } else {
        assert x[i] == (x + y)[i];
      }
    }
  }

  lemma {:induction false} IgnoreNetsAgree(entries: seq<string>, a: Addr)
    ensures AnyNetContains(IgnoreNets(entries), a) <==> AnyEntryMatches(entries, a)
  {
    if |entries| > 0 {
      IgnoreNetsAgree(entries[1..], a);
      var e := entries[0];
      var head := if NetOf(e).Some? then [NetOf(e).value] else [];
      AnyNetContainsConcat(head, IgnoreNets(entries[1..]), a);
      NetOfAgrees(e, a);
      assert AnyNetContains(head, a) <==> EntryMatches(e, a) by {
        if NetOf(e).Some? {
          assert head[0] == NetOf(e).value;
        }
      }
    }
  }

  lemma NetOfAgrees(e: string, a: Addr)
    ensures NetOf(e).Some? && Ipv4.Contains(NetOf(e).value, a) <==> EntryMatches(e, a)
  {
    if ParseNet(e).Some? {
      SlashInNet(e);
    } else if ParseAddr(e).Some? {
      AddrTextHasNoSlash(e);
      HostNetIsEquality(Net(ParseAddr(e).value, 32), a);
    }
  }

  lemma SlashInNet(s: string)
    requires ParseNet(s).Some?
    ensures '/' in s
  {
    var parts := Split(s, '/');
    JoinSplit(s, '/');
    assert Join(parts, '/') == parts[0] + ['/'] + parts[1];
    assert s[|parts[0]|] == '/';
  }

  /** The watcher's ignore networks ignore exactly the addresses the
      ignore-list filter of `ip_utils` ignores. */
  lemma IgnoreAgreesWithIpUtils(entries: seq<string>, a: Addr)
    ensures AnyNetContains(IgnoreNets(entries), a) <==> IsIpInList(FormatAddr(a), entries)
  {
    IgnoreNetsAgree(entries, a);
    ParseFormat(a);
  }

  lemma MatchKeyReported(configId: string, a: Addr, timestamp: u64)
    requires IsField(configId)
    ensures Reported(ConfigPrefix(MATCH_KIND, configId), MakeKey(MATCH_KIND, configId, FormatAddr(a), timestamp))
    ensures Reported(AddressPrefix(MATCH_KIND, configId, FormatAddr(a)), MakeKey(MATCH_KIND, configId, FormatAddr(a), timestamp))
  {
    FormatHasNoColon(a);
    SplitOfKey(MATCH_KIND, configId, FormatAddr(a), timestamp);
    ParseU64OfNatToString(timestamp);
    KeyUnderOwnPrefixes(MATCH_KIND, configId, FormatAddr(a), timestamp);
  }

  lemma MatchKeyNotBan(k: string, configId: string, a: Addr, c: string, ip: string, timestamp: u64)
    requires k == MakeKey(MATCH_KIND, c, ip, timestamp)
    ensures !HasPrefix(k, AddressPrefix(BAN_KIND, configId, FormatAddr(a)))
  {
    assert k[0] == 'm';
    assert AddressPrefix(BAN_KIND, configId, FormatAddr(a))[0] == 'b';
  }

  /** Under the intended threshold, a match of another address leaves the
      count of `a` as it was. */
  lemma PerAddressIgnoresOthers(db: set<string>, configId: string, a: Addr, b: Addr, timestamp: u64)
    requires IsField(configId) && a != b
    ensures ReportedKeys(db + {MakeKey(MATCH_KIND, configId, FormatAddr(b), timestamp)},
                         AddressPrefix(MATCH_KIND, configId, FormatAddr(a)))
            == ReportedKeys(db, AddressPrefix(MATCH_KIND, configId, FormatAddr(a)))
  {
    FormatHasNoColon(a);
    FormatHasNoColon(b);
    FormatInjective(a, b);
    AddressPrefixIsolates(MATCH_KIND, configId, FormatAddr(a), configId, FormatAddr(b), timestamp);
  }

  /** Under the intended threshold, each match of the address raises its
      count by one. */
  lemma PerAddressCountsOwnMatches(db: set<string>, configId: string, a: Addr, timestamp: u64)
    requires IsField(configId)
    requires MakeKey(MATCH_KIND, configId, FormatAddr(a), timestamp) !in db
    ensures |ReportedKeys(db + {MakeKey(MATCH_KIND, configId, FormatAddr(a), timestamp)},
                          AddressPrefix(MATCH_KIND, configId, FormatAddr(a)))|
            == |ReportedKeys(db, AddressPrefix(MATCH_KIND, configId, FormatAddr(a)))| + 1
  {
    MatchKeyReported(configId, a, timestamp);
    ReportedStep(db, MakeKey(MATCH_KIND, configId, FormatAddr(a), timestamp), AddressPrefix(MATCH_KIND, configId, FormatAddr(a)));
  }

  /** Two distinct match keys of one configuration both count towards
      its configuration-wide total. */
  lemma TwoMatchesCountTwice(configId: string, a: Addr, b: Addr, t1: u64, t2: u64)
    requires IsField(configId) && a != b
    ensures var ka := MakeKey(MATCH_KIND, configId, FormatAddr(a), t1);
            var kb := MakeKey(MATCH_KIND, configId, FormatAddr(b), t2);
            |ReportedKeys({} + {ka}, ConfigPrefix(MATCH_KIND, configId))| == 1
            && |ReportedKeys({} + {ka} + {kb}, ConfigPrefix(MATCH_KIND, configId))| == 2
  {
    var ka := MakeKey(MATCH_KIND, configId, FormatAddr(a), t1);
    var kb := MakeKey(MATCH_KIND, configId, FormatAddr(b), t2);
    var cp := ConfigPrefix(MATCH_KIND, configId);
    FormatHasNoColon(a);
    FormatHasNoColon(b);
    FormatInjective(a, b);
    MakeKeyInjective(MATCH_KIND, configId, FormatAddr(a), t1, configId, FormatAddr(b), t2);
    MatchKeyReported(configId, a, t1);
    MatchKeyReported(configId, b, t2);
    assert ReportedKeys({}, cp) == {};
    ReportedStep({}, ka, cp);
    ReportedStep({} + {ka}, kb, cp);
  }

  /** Under the intended rule, B's first match after one match of A
      leaves B's count at one. */
  lemma OtherAddressCountsOnce(configId: string, a: Addr, b: Addr, t1: u64, t2: u64)
    requires IsField(configId) && a != b
    ensures var ka := MakeKey(MATCH_KIND, configId, FormatAddr(a), t1);
            var kb := MakeKey(MATCH_KIND, configId, FormatAddr(b), t2);
            |ReportedKeys({} + {ka} + {kb}, AddressPrefix(MATCH_KIND, configId, FormatAddr(b)))| == 1
  {
    var ka := MakeKey(MATCH_KIND, configId, FormatAddr(a), t1);
    FormatHasNoColon(a);
    FormatHasNoColon(b);
    FormatInjective(a, b);
    MakeKeyInjective(MATCH_KIND, configId, FormatAddr(a), t1, configId, FormatAddr(b), t2);
    assert ReportedKeys({}, AddressPrefix(MATCH_KIND, configId, FormatAddr(b))) == {};
    PerAddressIgnoresOthers({}, configId, b, a, t1);
    PerAddressCountsOwnMatches({} + {ka}, configId, b, t2);
  }

  /** As written, with `max_matches` 2, one match of address A followed by
      one match of a different address B bans B on its first match; the
      intended rule does not. */
  lemma ConfigWideBansFirstOffender(configId: string, a: Addr, b: Addr, t1: u64, t2: u64)
    requires IsField(configId) && a != b
    ensures var ka := MakeKey(MATCH_KIND, configId, FormatAddr(a), t1);
            var kb := MakeKey(MATCH_KIND, configId, FormatAddr(b), t2);
            && !BansAsWritten({} + {ka}, configId, a, 2)
            && BansAsWritten({} + {ka} + {kb}, configId, b, 2)
            && !BansPerAddress({} + {ka} + {kb}, configId, b, 2)
  {
    var ka := MakeKey(MATCH_KIND, configId, FormatAddr(a), t1);
    var kb := MakeKey(MATCH_KIND, configId, FormatAddr(b), t2);
    TwoMatchesCountTwice(configId, a, b, t1, t2);
    OtherAddressCountsOnce(configId, a, b, t1, t2);
    MatchKeyNotBan(ka, configId, b, configId, FormatAddr(a), t1);
    MatchKeyNotBan(kb, configId, b, configId, FormatAddr(b), t2);
    assert !BanPrefixPresent({} + {ka} + {kb}, configId, b);
  }
}
