/** `apps/core/src/firewall.rs`: the core's own chain `banalize` in the
    `filter` table, jumped to from a link chain (INPUT, FORWARD), holding
    one `-s <ip> -j DROP` rule per denied address. */
module Firewall {
  import opened Wrappers
  import opened Ipv4
  import opened Iptables

  const TABLE: string := "filter"
  const CHAIN_NAME: string := "banalize"

  /** The rule text that drops traffic from `ip`. */
  function DenyRule(ip: Addr): string
  {
    "-s " + FormatAddr(ip) + " -j DROP"
  }

  /** The chains after `deny_ip_sync(ip)`: the rule appended unless it is
      already there; unchanged when the table is broken or the chain missing. */
  function AfterDeny(chains: map<string, seq<string>>, broken: bool, ip: Addr): map<string, seq<string>>
  {
    if !broken && CHAIN_NAME in chains && DenyRule(ip) !in chains[CHAIN_NAME]
    then chains[CHAIN_NAME := chains[CHAIN_NAME] + [DenyRule(ip)]]
    else chains
  }

  /** The chains after `allow_ip_sync(ip)`: one copy of the rule removed. */
  function AfterAllow(chains: map<string, seq<string>>, broken: bool, ip: Addr): map<string, seq<string>>
  {
    if !broken && CHAIN_NAME in chains && DenyRule(ip) in chains[CHAIN_NAME]
    then chains[CHAIN_NAME := RemoveFirst(chains[CHAIN_NAME], DenyRule(ip))]
    else chains
  }

  /** The address text callers hold, as the address the firewall takes:
      text that is not an IPv4 address is never sent to iptables. */
  function AfterDenyText(chains: map<string, seq<string>>, broken: bool, ip: string): map<string, seq<string>>
  {
    match ParseAddr(ip)
    case None => chains
    case Some(a) => AfterDeny(chains, broken, a)
  }

  function AfterAllowText(chains: map<string, seq<string>>, broken: bool, ip: string): map<string, seq<string>>
  {
    match ParseAddr(ip)
    case None => chains
    case Some(a) => AfterAllow(chains, broken, a)
  }

  class Firewall {
    const ipt: RuleTables
    const linkChain: string

    constructor (ipt: RuleTables, linkChain: string)
      ensures this.ipt == ipt && this.linkChain == linkChain
    {
      this.ipt := ipt;
      this.linkChain := linkChain;
    }

    /** `init`: create the chain (an existing one is fine), put the jump
        rule first in the link chain, falling back to an existence check
        and then to appending it, and flush the chain. Only a link that
        cannot be made is an error. */
    method Init() returns (r: Outcome)
      modifies ipt`chains
      ensures r.Pass? <==> !ipt.broken && (linkChain in old(ipt.chains) || linkChain == CHAIN_NAME)
      ensures ipt.broken ==> ipt.chains == old(ipt.chains)
      ensures r.Fail? && !ipt.broken ==>
                ipt.chains == if CHAIN_NAME in old(ipt.chains) then old(ipt.chains) else old(ipt.chains)[CHAIN_NAME := []]
      ensures r.Pass? ==>
                && ipt.chains.Keys == old(ipt.chains).Keys + {CHAIN_NAME}
                && ipt.chains[CHAIN_NAME] == []
                && (linkChain != CHAIN_NAME ==>
                      var before := old(ipt.chains)[linkChain];
                      ipt.chains[linkChain] == (if JumpTo(CHAIN_NAME) in before then before else [JumpTo(CHAIN_NAME)] + before))
                && (forall c :: c in old(ipt.chains) && c != CHAIN_NAME && c != linkChain ==> ipt.chains[c] == old(ipt.chains)[c])
    {
      var _ := ipt.NewChain(CHAIN_NAME);
      var jump := JumpTo(CHAIN_NAME);
      var linked := ipt.InsertUnique(linkChain, jump, 1);
      if linked.Fail? {
        var present := ipt.Exists(linkChain, jump);
        if present.Err? {
          return Fail("Failed to link chain");
        }
        if !present.value {
          var appended := ipt.Append(linkChain, jump);
          if appended.Fail? {
            return Fail("Failed to link chain");
          }
        }
      }
      var _ := ipt.Flush(CHAIN_NAME);
      r := Pass;
    }

    /** `cleanup`: flush, unlink, delete, each failure only logged. The
        chain is gone afterwards unless some jump to it survives. */
    method Cleanup() returns (r: Outcome)
      modifies ipt`chains
      ensures r.Pass?
      ensures ipt.broken ==> ipt.chains == old(ipt.chains)
      ensures !ipt.broken ==> CHAIN_NAME !in ipt.chains || (ipt.chains[CHAIN_NAME] == [] && Referenced(ipt.chains, CHAIN_NAME))
      ensures !ipt.broken && linkChain != CHAIN_NAME && linkChain in old(ipt.chains) && JumpTo(CHAIN_NAME) in old(ipt.chains)[linkChain] ==>
                linkChain in ipt.chains && ipt.chains[linkChain] == RemoveFirst(old(ipt.chains)[linkChain], JumpTo(CHAIN_NAME))
      ensures !ipt.broken
              && (linkChain in old(ipt.chains) ==> CountOf(old(ipt.chains)[linkChain], JumpTo(CHAIN_NAME)) <= 1)
              && (forall c :: c in old(ipt.chains) && c != linkChain && c != CHAIN_NAME ==> JumpTo(CHAIN_NAME) !in old(ipt.chains)[c])
              ==> CHAIN_NAME !in ipt.chains
    {
      var jump := JumpTo(CHAIN_NAME);
      var _ := ipt.Flush(CHAIN_NAME);
      var unlinked := ipt.Delete(linkChain, jump);
      if unlinked.Pass? {
        CountOfRemoveFirst(old(ipt.chains)[linkChain], jump);
      }
      var _ := ipt.DeleteChain(CHAIN_NAME);
      r := Pass;
    }

    /** `deny_ip_sync`: nothing to do when the rule is already there,
        otherwise one append; the rule ends up present exactly once when
        it was present at most once before. */
    method DenyIp(ip: Addr) returns (r: Outcome)
      modifies ipt`chains
      ensures r.Pass? <==> !ipt.broken && CHAIN_NAME in old(ipt.chains)
      ensures ipt.chains == AfterDeny(old(ipt.chains), ipt.broken, ip)
      ensures r.Pass? ==> CountOf(ipt.chains[CHAIN_NAME], DenyRule(ip))
                          == if CountOf(old(ipt.chains)[CHAIN_NAME], DenyRule(ip)) == 0 then 1
                             else CountOf(old(ipt.chains)[CHAIN_NAME], DenyRule(ip))
    {
      var rule := DenyRule(ip);
      var present := ipt.Exists(CHAIN_NAME, rule);
      if present.Ok? && present.value {
        return Pass;
      }
      var appended := ipt.Append(CHAIN_NAME, rule);
      if appended.Fail? {
        return Fail("Failed to deny IP");
      }
      CountOfAppend(old(ipt.chains)[CHAIN_NAME], rule, rule);
      r := Pass;
    }

    /** `allow_ip_sync`: deletes one copy of the same rule text; a missing
        rule is an error. */
    method AllowIp(ip: Addr) returns (r: Outcome)
      modifies ipt`chains
      ensures r.Pass? <==> !ipt.broken && CHAIN_NAME in old(ipt.chains) && DenyRule(ip) in old(ipt.chains)[CHAIN_NAME]
      ensures ipt.chains == AfterAllow(old(ipt.chains), ipt.broken, ip)
      ensures r.Pass? ==> CountOf(ipt.chains[CHAIN_NAME], DenyRule(ip)) == CountOf(old(ipt.chains)[CHAIN_NAME], DenyRule(ip)) - 1
    {
      var rule := DenyRule(ip);
      r := ipt.Delete(CHAIN_NAME, rule);
      if r.Fail? {
        return Fail("Failed to allow IP");
      }
      CountOfRemoveFirst(old(ipt.chains)[CHAIN_NAME], rule);
    }

    /** `deny_ip_sync` called with the address text the tailer holds. That
        call passes a `&str` where an `IpAddr` is expected and does not
        type-check as written; the model reads it as parsing the text
        first, text that does not parse failing without touching the
        firewall. */
    method DenyText(ip: string) returns (r: Outcome)
      modifies ipt`chains
      ensures ipt.chains == AfterDenyText(old(ipt.chains), ipt.broken, ip)
      ensures r.Pass? ==> ParseAddr(ip).Some?
    {
      var parsed := ParseAddr(ip);
      if parsed.None? {
        return Fail("invalid IP address syntax");
      }
      r := DenyIp(parsed.value);
    }

    /** `allow_ip_sync` called with the address text the cleaner holds,
        read the same way as `DenyText`. */
    method AllowText(ip: string) returns (r: Outcome)
      modifies ipt`chains
      ensures ipt.chains == AfterAllowText(old(ipt.chains), ipt.broken, ip)
      ensures r.Pass? ==> ParseAddr(ip).Some?
    {
      var parsed := ParseAddr(ip);
      if parsed.None? {
        return Fail("invalid IP address syntax");
      }
      r := AllowIp(parsed.value);
    }
  }

  /** Denying the same address twice leaves exactly one rule for it, and
      allowing it afterwards leaves none. */
  method DenyTwiceThenAllow(fw: Firewall, ip: Addr) returns (first: Outcome, second: Outcome, third: Outcome)
    requires !fw.ipt.broken && CHAIN_NAME in fw.ipt.chains && DenyRule(ip) !in fw.ipt.chains[CHAIN_NAME]
    modifies fw.ipt`chains
    ensures first.Pass? && second.Pass? && third.Pass?
    ensures CHAIN_NAME in fw.ipt.chains && DenyRule(ip) !in fw.ipt.chains[CHAIN_NAME]
  {
    first := fw.DenyIp(ip);
    second := fw.DenyIp(ip);
    assert CountOf(fw.ipt.chains[CHAIN_NAME], DenyRule(ip)) == 1;
    third := fw.AllowIp(ip);
  }
}
