/** `apps/core/src/file_watcher.rs`: the high-priority tailer. Each line's
    address is counted against the find window, recorded, reported, and
    banned once the threshold is reached; ban and match reports go to a
    background channel in order. */
module FileWatching {
  import opened Wrappers
  import opened Ints
  import opened Strings
  import opened Regex
  import opened Ipv4
  import opened IpUtils
  import opened IpExtract
  import opened LedgerKeys
  import opened Configuration
  import opened CoreLedger
  import opened Firewall

  /** What the tailer sends to its background task. */
  datatype BackgroundEvent =
    | MatchSent(line: string, regex: string, ip: string, timestamp: u64, configId: string)
    | BanSent(ip: string, timestamp: u64, configId: string)

  /** A line the tailer hands to the ledger: not empty, an address
      extracted, and that address not on the ignore list. */
  predicate Accepted(engine: Engine, config: Config, line: string)
  {
    line != "" && Extracted(engine, config.regex, line).Some?
    && !IsIpInList(Extracted(engine, config.regex, line).value, config.ignoreIps)
  }

  /** What the tailer's calls change: the two ledger trees, the firewall's
      chains and the background channel. */
  datatype TailState = TailState(matches: set<string>, bans: set<string>,
                                 chains: map<string, seq<string>>, sent: seq<BackgroundEvent>)

  /** The effect of `process_matched_ip` for `ip` at clock reading `now`,
      on a ledger whose I/O fails when `failing` holds and whose writes of
      the keys in `faults` fail. The count is taken first; a failed count
      or a failed match write ends the call with no effect. The match is
      reported before any ban; a ban is attempted when the count before
      recording, plus one, reaches `max_matches`, and it is written,
      denied and reported unless a ban of the address is already stored
      or its write fails. */
  function AfterMatch(config: Config, failing: bool, faults: set<string>, broken: bool,
                      s: TailState, ip: string, line: string, now: u64): TailState
  {
    var matchKey := MakeKey(MATCH_KIND, config.id, ip, now);
    var banKey := MakeKey(BAN_KIND, config.id, ip, now);
    if Faulty(failing, faults, matchKey) then s
    else
      var count := WindowCount(s.matches, config.id, ip, config.findTime, now);
      var bans := count + 1 >= config.maxMatches && !BannedAnywhere(s.bans, ip) && banKey !in faults;
      TailState(s.matches + {matchKey},
                if bans then s.bans + {banKey} else s.bans,
                if bans then AfterDenyText(s.chains, broken, ip) else s.chains,
                s.sent + [MatchSent(line, config.regex, ip, now, config.id)]
                       + (if bans then [BanSent(ip, now, config.id)] else []))
  }

  /** The effect of one line of the tailing loop: a line that is not
      accepted changes nothing; an accepted one goes through
      `process_matched_ip` with its extracted address. */
  function AfterTailLine(engine: Engine, config: Config, failing: bool, faults: set<string>, broken: bool,
                         s: TailState, line: string, now: u64): TailState
  {
    if Accepted(engine, config, line)
    then AfterMatch(config, failing, faults, broken, s, Extracted(engine, config.regex, line).value, line, now)
    else s
  }

  /** The lines of `lines` handled one after another. */
  function AfterTail(engine: Engine, config: Config, failing: bool, faults: set<string>, broken: bool,
                     s: TailState, lines: seq<(string, u64)>): TailState
  {
    if |lines| == 0 then s
    else
      var last := lines[|lines| - 1];
      AfterTailLine(engine, config, failing, faults, broken,
                    AfterTail(engine, config, failing, faults, broken, s, lines[..|lines| - 1]), last.0, last.1)
  }

  /** Every match key the tailing loop adds comes from an accepted line,
      recorded under the address extracted from it and the line's clock
      reading. */
  lemma {:induction false} TailAddsOnlyAccepted(engine: Engine, config: Config, failing: bool, faults: set<string>,
                                                broken: bool, s: TailState, lines: seq<(string, u64)>, k: string)
    requires k in AfterTail(engine, config, failing, faults, broken, s, lines).matches && k !in s.matches
    ensures exists i :: 0 <= i < |lines| && Accepted(engine, config, lines[i].0)
                        && k == MakeKey(MATCH_KIND, config.id, Extracted(engine, config.regex, lines[i].0).value, lines[i].1)
  {
    var prefix := lines[..|lines| - 1];
    var before := AfterTail(engine, config, failing, faults, broken, s, prefix);
    var last := lines[|lines| - 1];
    if k in before.matches {
      TailAddsOnlyAccepted(engine, config, failing, faults, broken, s, prefix, k);
      var i :| 0 <= i < |prefix| && Accepted(engine, config, prefix[i].0)
                && k == MakeKey(MATCH_KIND, config.id, Extracted(engine, config.regex, prefix[i].0).value, prefix[i].1);
      assert prefix[i] == lines[i];
    } else {
      assert Accepted(engine, config, last.0);
      assert lines[|lines| - 1] == last;
    }
  }

  /** The tailing loop only adds: match keys, ban keys and reports already
      there stay. */
  lemma {:induction false} TailOnlyAdds(engine: Engine, config: Config, failing: bool, faults: set<string>,
                                        broken: bool, s: TailState, lines: seq<(string, u64)>)
    ensures var t := AfterTail(engine, config, failing, faults, broken, s, lines);
            s.matches <= t.matches && s.bans <= t.bans && s.sent <= t.sent
  {
    if |lines| > 0 {
      TailOnlyAdds(engine, config, failing, faults, broken, s, lines[..|lines| - 1]);
    }
  }

  class FileWatcher {
    const config: Config
    const database: CoreDatabase
    const firewall: Firewall
    const engine: Engine
    const extractor: IpExtractor
    /** Everything sent on the background channel, oldest first. */
    var sent: seq<BackgroundEvent>

    ghost predicate Valid()
      reads this, extractor
    {
      extractor.Valid() && Configuration.Valid(engine, config)
    }

    /** The part of the world the tailer's calls change. */
    ghost function State(): TailState
      reads this, database, firewall, firewall.ipt
    {
      TailState(database.matches, database.bans, firewall.ipt.chains, sent)
    }

    constructor (config: Config, database: CoreDatabase, firewall: Firewall, engine: Engine)
      requires Configuration.Valid(engine, config)
      ensures Valid() && fresh(extractor) && sent == []
      ensures this.config == config && this.database == database && this.firewall == firewall && this.engine == engine
    {
      this.config := config;
      this.database := database;
      this.firewall := firewall;
      this.engine := engine;
      extractor := new IpExtractor();
      sent := [];
    }

    /** `apply_ban`: nothing when the ledger already holds a ban for the
        address (under any configuration) or the ban cannot be written;
        otherwise the ban is written, the firewall asked to deny (its
        failure ignored) and the ban reported. */
    method ApplyBan(ip: string, timestamp: u64)
      modifies this`sent, database`bans, firewall.ipt`chains
      ensures var acts := !database.failing && !BannedAnywhere(old(database.bans), ip)
                          && !database.WriteFails(MakeKey(BAN_KIND, config.id, ip, timestamp));
              && database.bans == old(database.bans) + (if acts then {MakeKey(BAN_KIND, config.id, ip, timestamp)} else {})
              && firewall.ipt.chains == (if acts then AfterDenyText(old(firewall.ipt.chains), firewall.ipt.broken, ip)
                                         else old(firewall.ipt.chains))
              && sent == old(sent) + (if acts then [BanSent(ip, timestamp, config.id)] else [])
    {
      var banned := database.IsBanned(ip);
      if banned == Ok(true) {
        return;
      }
      var added := database.AddBan(config.id, ip, timestamp);
      if added.Fail? {
        return;
      }
      var _ := firewall.DenyText(ip);
      sent := sent + [BanSent(ip, timestamp, config.id)];
    }

    /** `process_matched_ip` at clock reading `now`. */
    method ProcessMatchedIp(ip: string, line: string, now: u64)
      modifies this`sent, database`matches, database`bans, firewall.ipt`chains
      ensures State() == AfterMatch(config, database.failing, database.writeFaults, firewall.ipt.broken,
                                    old(State()), ip, line, now)
    {
      var counted := database.CountMatches(config.id, ip, config.findTime, now);
      if counted.Err? {
        return;
      }
      var added := database.AddMatch(config.id, ip, now);
      if added.Fail? {
        return;
      }
      var shouldBan := counted.value + 1 >= config.maxMatches;
      sent := sent + [MatchSent(line, config.regex, ip, now, config.id)];
      if shouldBan {
        ApplyBan(ip, now);
      }
    }

    /** One line of the tailing loop: empty lines, lines without an
        address and ignored addresses stop here. */
    method HandleTailLine(line: string, now: u64)
      requires Valid()
      modifies this`sent, database`matches, database`bans, firewall.ipt`chains, extractor
      ensures Valid()
      ensures State() == AfterTailLine(engine, config, database.failing, database.writeFaults, firewall.ipt.broken,
                                       old(State()), line, now)
    {
      if line == "" {
        return;
      }
      var ip := extractor.ExtractIp(engine, config.regex, line);
      if ip.None? {
        return;
      }
      if IsIpInList(ip.value, config.ignoreIps) {
        return;
      }
      ProcessMatchedIp(ip.value, line, now);
    }

    /** The tailing loop over the lines read, each with its clock reading,
        in order. Returns the number of lines read. */
    method Tail(lines: seq<(string, u64)>) returns (lineCount: nat)
      requires Valid()
      modifies this`sent, database`matches, database`bans, firewall.ipt`chains, extractor
      ensures Valid()
      ensures lineCount == |lines|
      ensures State() == AfterTail(engine, config, database.failing, database.writeFaults, firewall.ipt.broken,
                                   old(State()), lines)
    {
      lineCount := 0;
      while lineCount < |lines|
        invariant 0 <= lineCount <= |lines|
        invariant Valid()
        invariant State() == AfterTail(engine, config, database.failing, database.writeFaults, firewall.ipt.broken,
                                       old(State()), lines[..lineCount])
      {
        assert lines[..lineCount + 1][..lineCount] == lines[..lineCount];
        HandleTailLine(lines[lineCount].0, lines[lineCount].1);
        lineCount := lineCount + 1;
      }
      assert lines[..lineCount] == lines;
    }
  }

  /** The window counts seen by the three strikes below: none, one, two. */
  lemma StrikeCounts(c: string, ip: string, findTime: u64, t1: u64, t2: u64, t3: u64, t4: u64)
    requires IsField(c) && IsField(ip)
    requires t1 < t2 < t3 < t4 && SaturatingSub(t4, findTime) <= t1
    ensures WindowCount({}, c, ip, findTime, t1) == 0
    ensures WindowCount({} + {MakeKey(MATCH_KIND, c, ip, t1)}, c, ip, findTime, t2) == 1
    ensures WindowCount({} + {MakeKey(MATCH_KIND, c, ip, t1)} + {MakeKey(MATCH_KIND, c, ip, t2)}, c, ip, findTime, t3) == 2
  {
    var prefix := AddressPrefix(MATCH_KIND, c, ip);
    assert Selected({}, MATCH_KIND, prefix, Since(SaturatingSub(t1, findTime))) == {};
    assert Selected({}, MATCH_KIND, prefix, Since(SaturatingSub(t2, findTime))) == {};
    assert Selected({}, MATCH_KIND, prefix, Since(SaturatingSub(t3, findTime))) == {};
    MakeKeyInjective(MATCH_KIND, c, ip, t1, c, ip, t2);
    CountAfterAdd({}, c, ip, t1, SaturatingSub(t2, findTime));
    CountAfterAdd({}, c, ip, t1, SaturatingSub(t3, findTime));
    CountAfterAdd({} + {MakeKey(MATCH_KIND, c, ip, t1)}, c, ip, t2, SaturatingSub(t3, findTime));
  }

  /** Two matches under a threshold of three change only the match set
      and the reports. */
  method TwoQuietStrikes(w: FileWatcher, ip: string, line: string, t1: u64, t2: u64, t3: u64, t4: u64)
    requires !w.database.failing && w.database.writeFaults == {} && w.database.matches == {} && w.database.bans == {}
    requires w.config.maxMatches == 3 && IsField(w.config.id) && IsField(ip)
    requires t1 < t2 < t3 < t4 && SaturatingSub(t4, w.config.findTime) <= t1
    modifies w`sent, w.database`matches, w.database`bans, w.firewall.ipt`chains
    ensures w.database.matches == {} + {MakeKey(MATCH_KIND, w.config.id, ip, t1)} + {MakeKey(MATCH_KIND, w.config.id, ip, t2)}
    ensures w.database.bans == {} && w.firewall.ipt.chains == old(w.firewall.ipt.chains)
    ensures w.sent == old(w.sent) + [MatchSent(line, w.config.regex, ip, t1, w.config.id),
                                     MatchSent(line, w.config.regex, ip, t2, w.config.id)]
  {
    StrikeCounts(w.config.id, ip, w.config.findTime, t1, t2, t3, t4);
    w.ProcessMatchedIp(ip, line, t1);
    w.ProcessMatchedIp(ip, line, t2);
  }

  /** With `max_matches` 3, three matches of one address inside the window
      give exactly one ban, one deny and one ban report, after the third
      match report; a fourth match is recorded and reported but bans
      nothing more. */
  method ThreeStrikes(w: FileWatcher, ip: string, line: string, t1: u64, t2: u64, t3: u64, t4: u64)
    requires !w.database.failing && w.database.writeFaults == {} && w.database.matches == {} && w.database.bans == {}
    requires w.config.maxMatches == 3 && IsField(w.config.id) && IsField(ip)
    requires t1 < t2 < t3 < t4 && SaturatingSub(t4, w.config.findTime) <= t1
    modifies w`sent, w.database`matches, w.database`bans, w.firewall.ipt`chains
    ensures w.database.bans == {MakeKey(BAN_KIND, w.config.id, ip, t3)}
    ensures w.firewall.ipt.chains == AfterDenyText(old(w.firewall.ipt.chains), w.firewall.ipt.broken, ip)
    ensures w.sent == old(w.sent) + [MatchSent(line, w.config.regex, ip, t1, w.config.id),
                                     MatchSent(line, w.config.regex, ip, t2, w.config.id),
                                     MatchSent(line, w.config.regex, ip, t3, w.config.id),
                                     BanSent(ip, t3, w.config.id),
                                     MatchSent(line, w.config.regex, ip, t4, w.config.id)]
  {
    StrikeCounts(w.config.id, ip, w.config.findTime, t1, t2, t3, t4);
    BannedAfterAddBan({}, w.config.id, ip, t3);
    TwoQuietStrikes(w, ip, line, t1, t2, t3, t4);
    w.ProcessMatchedIp(ip, line, t3);
    w.ProcessMatchedIp(ip, line, t4);
  }
}
